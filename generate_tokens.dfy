/**
 * `generateTokens`: folds over collections, then their modes, then all
 * variables, building the flat per-mode token map, grouping it, and
 * storing each collection's object under its transformed name.
 */
module GenerateTokens {
  import opened Wrappers
  import opened FigmaVariables
  import opened Tokens
  import opened TokenAssembly
  import TokenAssemblyProperties

  method GenerateTokens(variables: seq<Variable>, collections: seq<VariableCollection>,
                        config: JSONSettingsConfig, h: Helpers)
    returns (mergedVariables: map<string, Tree>)
    ensures mergedVariables == TokensDocument(h, config, variables, collections)
    ensures mergedVariables.Keys == set c | c in collections :: Transformed(h, config, c.name)
  {
    mergedVariables := map[];
    var ci := 0;
    while ci < |collections|
      invariant ci <= |collections|
      invariant mergedVariables == MergedUpTo(h, config, variables, collections, ci)
    {
      var collection := collections[ci];
      var modes: map<string, Tree> := map[];
      var collectionName := h.transformNameConvention(collection.name, config.namesTransform);

      var index := 0;
      while index < |collection.modes|
        invariant index <= |collection.modes|
        invariant modes == CollectionTokensUpTo(h, config, variables, collection, index)
      {
        var mode := collection.modes[index];
        var modeName := h.transformNameConvention(mode.name, config.namesTransform);

        // the reduce over all variables into `variablesPerMode`
        var result: map<string, Token> := map[];
        var vi := 0;
        while vi < |variables|
          invariant vi <= |variables|
          invariant result == ModeTokens(h, config, variables, collectionName, modeName, mode, index, variables[..vi])
        {
          var variable := variables[vi];
          var variableModeId := KeyAt(variable.valuesByMode, index);
          var variableName := h.transformNameConvention(variable.name, config.namesTransform);
          if variableModeId == Some(mode.modeId) {
            var aliasPath := h.getAliasVariableName(collectionName + "." + modeName, variable.name);
            var variableObject := Token(
              h.normalizeValue(ValueAt(variable.valuesByMode, variableModeId.value), variable.resolvedType,
                               config.colorMode, variables, aliasPath),
              h.normilizeType(variable.resolvedType),
              variable.description,
              if config.includeScopes then Some(variable.scopes) else None,
              Extensions(variable.id, aliasPath));
            result := result[variableName := variableObject];
          }
          assert variables[..vi + 1][..vi] == variables[..vi];
          vi := vi + 1;
        }
        assert variables[..vi] == variables;
        var variablesPerMode := result;

        // with one mode the grouped tree is merged in; otherwise it goes under the mode name
        var grouped := h.groupObjectNamesIntoCategories(variablesPerMode);
        if |collection.modes| == 1 {
          modes := modes + grouped;
        } else {
          modes := modes[modeName := Group(grouped)];
        }
        index := index + 1;
      }

      mergedVariables := mergedVariables[collectionName := Group(modes)];
      ci := ci + 1;
    }
    TokenAssemblyProperties.DocumentKeys(h, config, variables, collections);
  }
}
