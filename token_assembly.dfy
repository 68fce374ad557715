/**
 * The meaning of `generateTokens`, as functions: the flat token map of one
 * mode (the `reduce` over variables), the object a collection contributes
 * (the `forEach` over its modes) and the whole document (the `forEach` over
 * collections). Each fold is written over a prefix, so that it is also the
 * state of the corresponding loop after that many steps.
 */
module TokenAssembly {
  import opened Wrappers
  import opened FigmaVariables
  import opened Tokens

  /** A name after the configured naming convention. */
  function Transformed(h: Helpers, config: JSONSettingsConfig, name: string): string
  {
    h.transformNameConvention(name, config.namesTransform)
  }

  /**
   * A variable takes part in the mode at position `index` exactly when the
   * `index`-th key of its own `valuesByMode` is that mode's id.
   */
  predicate InMode(v: Variable, mode: Mode, index: nat)
  {
    KeyAt(v.valuesByMode, index) == Some(mode.modeId)
  }

  /** The alias path of a variable: collection and mode name, then the raw variable name. */
  function AliasPath(h: Helpers, collectionName: string, modeName: string, v: Variable): string
  {
    h.getAliasVariableName(collectionName + "." + modeName, v.name)
  }

  /** The token object built for a variable whose value for the mode is stored under `modeId`. */
  function MakeToken(h: Helpers, config: JSONSettingsConfig, variables: seq<Variable>,
                     collectionName: string, modeName: string, v: Variable, modeId: string): Token
  {
    var aliasPath := AliasPath(h, collectionName, modeName, v);
    Token(
      h.normalizeValue(ValueAt(v.valuesByMode, modeId), v.resolvedType, config.colorMode, variables, aliasPath),
      h.normilizeType(v.resolvedType),
      v.description,
      if config.includeScopes then Some(v.scopes) else None,
      Extensions(v.id, aliasPath))
  }

  /**
   * The flat map `variablesPerMode` after the `reduce` has visited `vs`:
   * each variable of the mode is stored under its transformed name, and a
   * later one overwrites an earlier one. `variables` is the full list that
   * the value normalizer receives.
   */
  function ModeTokens(h: Helpers, config: JSONSettingsConfig, variables: seq<Variable>,
                      collectionName: string, modeName: string, mode: Mode, index: nat,
                      vs: seq<Variable>): map<string, Token>
    decreases |vs|
  {
    if vs == [] then map[]
    else
      var result := ModeTokens(h, config, variables, collectionName, modeName, mode, index, vs[..|vs| - 1]);
      var v := vs[|vs| - 1];
      if InMode(v, mode, index) then
        result[Transformed(h, config, v.name) := MakeToken(h, config, variables, collectionName, modeName, v, mode.modeId)]
      else
        result
  }

  /** The grouped tree of the mode at position `index` of a collection. */
  function GroupedMode(h: Helpers, config: JSONSettingsConfig, variables: seq<Variable>,
                       collection: VariableCollection, index: nat): map<string, Tree>
    requires index < |collection.modes|
  {
    var mode := collection.modes[index];
    h.groupObjectNamesIntoCategories(
      ModeTokens(h, config, variables, Transformed(h, config, collection.name),
                 Transformed(h, config, mode.name), mode, index, variables))
  }

  /**
   * The `modes` object of a collection after its first `k` modes: merged in
   * directly when the collection has exactly one mode, otherwise nested
   * under each transformed mode name.
   */
  function CollectionTokensUpTo(h: Helpers, config: JSONSettingsConfig, variables: seq<Variable>,
                                collection: VariableCollection, k: nat): map<string, Tree>
    requires k <= |collection.modes|
  {
    if k == 0 then map[]
    else
      var modes := CollectionTokensUpTo(h, config, variables, collection, k - 1);
      var grouped := GroupedMode(h, config, variables, collection, k - 1);
      if |collection.modes| == 1 then modes + grouped
      else modes[Transformed(h, config, collection.modes[k - 1].name) := Group(grouped)]
  }

  /** The `modes` object a whole collection contributes. */
  function CollectionTokens(h: Helpers, config: JSONSettingsConfig, variables: seq<Variable>,
                            collection: VariableCollection): map<string, Tree>
  {
    CollectionTokensUpTo(h, config, variables, collection, |collection.modes|)
  }

  /** `mergedVariables` after the first `k` collections. */
  function MergedUpTo(h: Helpers, config: JSONSettingsConfig, variables: seq<Variable>,
                      collections: seq<VariableCollection>, k: nat): map<string, Tree>
    requires k <= |collections|
  {
    if k == 0 then map[]
    else
      MergedUpTo(h, config, variables, collections, k - 1)[
        Transformed(h, config, collections[k - 1].name) :=
          Group(CollectionTokens(h, config, variables, collections[k - 1]))]
  }

  /** The document `generateTokens` returns. */
  function TokensDocument(h: Helpers, config: JSONSettingsConfig, variables: seq<Variable>,
                          collections: seq<VariableCollection>): map<string, Tree>
  {
    MergedUpTo(h, config, variables, collections, |collections|)
  }
}
