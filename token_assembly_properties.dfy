/**
 * What `generateTokens` promises about how it wires its helpers together:
 * positional mode membership, the shape of each token, last-write-wins
 * keying, the single-mode collapse, multi-mode nesting and the top-level
 * keys. Every lemma holds for arbitrary helper functions.
 */
module TokenAssemblyProperties {
  import opened Wrappers
  import opened FigmaVariables
  import opened Tokens
  import opened TokenAssembly

  /**
   * Field by field, what the token of variable `v` in the mode at position
   * `index` must hold: its own id, the alias path built from the
   * transformed collection and mode names and the raw variable name, the
   * value stored at that position normalized with that same alias path,
   * the normalized type, the description unchanged, and `scopes` present
   * exactly when the settings ask for it.
   */
  ghost predicate TokenDescribes(h: Helpers, config: JSONSettingsConfig, variables: seq<Variable>,
                                 collectionName: string, modeName: string, index: nat,
                                 v: Variable, t: Token)
  {
    && index < |v.valuesByMode|
    && t.extensions.variableId == v.id
    && t.extensions.aliasPath == h.getAliasVariableName(collectionName + "." + modeName, v.name)
    && t.value == h.normalizeValue(Some(v.valuesByMode[index].1), v.resolvedType, config.colorMode,
                                   variables, t.extensions.aliasPath)
    && t.tokenType == h.normilizeType(v.resolvedType)
    && t.description == v.description
    && (t.scopes.Some? <==> config.includeScopes)
    && (t.scopes.Some? ==> t.scopes.value == v.scopes)
  }

  /** The token built for a variable of the mode has the promised fields; its value is never `undefined`. */
  lemma MakeTokenDescribes(h: Helpers, config: JSONSettingsConfig, variables: seq<Variable>,
                           collectionName: string, modeName: string, mode: Mode, index: nat, v: Variable)
    requires InMode(v, mode, index)
    ensures TokenDescribes(h, config, variables, collectionName, modeName, index, v,
                           MakeToken(h, config, variables, collectionName, modeName, v, mode.modeId))
  {
    ValueAtKeyAt(v.valuesByMode, index);
  }

  /** The keys of a mode's flat map are exactly the transformed names of the variables of that mode. */
  lemma {:induction false} ModeTokensKeys(h: Helpers, config: JSONSettingsConfig, variables: seq<Variable>,
                                          collectionName: string, modeName: string, mode: Mode, index: nat,
                                          vs: seq<Variable>)
    ensures forall name :: name in ModeTokens(h, config, variables, collectionName, modeName, mode, index, vs) <==>
              exists j :: 0 <= j < |vs| && InMode(vs[j], mode, index) && Transformed(h, config, vs[j].name) == name
    decreases |vs|
  {
    if vs != [] {
      var init := vs[..|vs| - 1];
      var last := vs[|vs| - 1];
      ModeTokensKeys(h, config, variables, collectionName, modeName, mode, index, init);
      var m := ModeTokens(h, config, variables, collectionName, modeName, mode, index, vs);
      forall name
        ensures name in m <==>
          exists j :: 0 <= j < |vs| && InMode(vs[j], mode, index) && Transformed(h, config, vs[j].name) == name
      {
        if InMode(last, mode, index) && Transformed(h, config, last.name) == name {
          assert name in m;
        } else {
          assert name in m <==> name in ModeTokens(h, config, variables, collectionName, modeName, mode, index, init);
          assert (exists j :: 0 <= j < |vs| && InMode(vs[j], mode, index) && Transformed(h, config, vs[j].name) == name)
             <==> (exists j :: 0 <= j < |init| && InMode(init[j], mode, index) && Transformed(h, config, init[j].name) == name)
          by {
            forall j | 0 <= j < |init| ensures init[j] == vs[j] { }
          }
        }
      }
    }
  }

  /**
   * Last write wins: a variable of the mode that no later variable of the
   * mode shares its transformed name with owns that key of the flat map.
   */
  lemma {:induction false} ModeTokensLastWins(h: Helpers, config: JSONSettingsConfig, variables: seq<Variable>,
                                              collectionName: string, modeName: string, mode: Mode, index: nat,
                                              vs: seq<Variable>, j: nat)
    requires j < |vs| && InMode(vs[j], mode, index)
    requires forall k :: j < k < |vs| && InMode(vs[k], mode, index) ==>
               Transformed(h, config, vs[k].name) != Transformed(h, config, vs[j].name)
    ensures Transformed(h, config, vs[j].name) in ModeTokens(h, config, variables, collectionName, modeName, mode, index, vs)
    ensures ModeTokens(h, config, variables, collectionName, modeName, mode, index, vs)[Transformed(h, config, vs[j].name)]
              == MakeToken(h, config, variables, collectionName, modeName, vs[j], mode.modeId)
    decreases |vs|
  {
    if j < |vs| - 1 {
      var init := vs[..|vs| - 1];
      assert init[j] == vs[j];
      forall k | j < k < |init| && InMode(init[k], mode, index)
        ensures Transformed(h, config, init[k].name) != Transformed(h, config, init[j].name)
      {
        assert init[k] == vs[k];
      }
      ModeTokensLastWins(h, config, variables, collectionName, modeName, mode, index, init, j);
    }
  }

  /**
   * Every entry of a mode's flat map is the token of some variable of the
   * mode with that transformed name, with the fields `TokenDescribes`
   * promises, and no later variable of the mode has that name.
   */
  lemma {:induction false} ModeTokensEntries(h: Helpers, config: JSONSettingsConfig, variables: seq<Variable>,
                                             collectionName: string, modeName: string, mode: Mode, index: nat,
                                             vs: seq<Variable>, name: string)
    requires name in ModeTokens(h, config, variables, collectionName, modeName, mode, index, vs)
    ensures exists j :: 0 <= j < |vs| && InMode(vs[j], mode, index) && Transformed(h, config, vs[j].name) == name
              && TokenDescribes(h, config, variables, collectionName, modeName, index, vs[j],
                                ModeTokens(h, config, variables, collectionName, modeName, mode, index, vs)[name])
              && (forall k :: j < k < |vs| && InMode(vs[k], mode, index) ==> Transformed(h, config, vs[k].name) != name)
    decreases |vs|
  {
    var init := vs[..|vs| - 1];
    var last := vs[|vs| - 1];
    var m := ModeTokens(h, config, variables, collectionName, modeName, mode, index, vs);
    if InMode(last, mode, index) && Transformed(h, config, last.name) == name {
      MakeTokenDescribes(h, config, variables, collectionName, modeName, mode, index, last);
      assert TokenDescribes(h, config, variables, collectionName, modeName, index, vs[|vs| - 1], m[name]);
    } else {
      ModeTokensEntries(h, config, variables, collectionName, modeName, mode, index, init, name);
      var j :| 0 <= j < |init| && InMode(init[j], mode, index) && Transformed(h, config, init[j].name) == name
              && TokenDescribes(h, config, variables, collectionName, modeName, index, init[j],
                                ModeTokens(h, config, variables, collectionName, modeName, mode, index, init)[name])
              && (forall k :: j < k < |init| && InMode(init[k], mode, index) ==> Transformed(h, config, init[k].name) != name);
      assert init[j] == vs[j];
      forall k | j < k < |vs| && InMode(vs[k], mode, index) ensures Transformed(h, config, vs[k].name) != name {
        if k < |init| { assert init[k] == vs[k]; }
      }
    }
  }

  /**
   * Mode membership by position: when no other variable of the mode shares
   * its transformed name, a variable appears in the flat map of the mode at
   * position `index` iff its own `index`-th mode key is that mode's id
   * (so never when it has at most `index` keys), and then as its token.
   */
  lemma ModeMembership(h: Helpers, config: JSONSettingsConfig, variables: seq<Variable>,
                       collectionName: string, modeName: string, mode: Mode, index: nat,
                       vs: seq<Variable>, j: nat)
    requires j < |vs|
    requires forall k :: 0 <= k < |vs| && k != j && InMode(vs[k], mode, index) ==>
               Transformed(h, config, vs[k].name) != Transformed(h, config, vs[j].name)
    ensures (Transformed(h, config, vs[j].name) in ModeTokens(h, config, variables, collectionName, modeName, mode, index, vs))
              <==> (index < |vs[j].valuesByMode| && vs[j].valuesByMode[index].0 == mode.modeId)
    ensures index < |vs[j].valuesByMode| && vs[j].valuesByMode[index].0 == mode.modeId ==>
              ModeTokens(h, config, variables, collectionName, modeName, mode, index, vs)[Transformed(h, config, vs[j].name)]
                == MakeToken(h, config, variables, collectionName, modeName, vs[j], mode.modeId)
  {
    ModeTokensKeys(h, config, variables, collectionName, modeName, mode, index, vs);
    if InMode(vs[j], mode, index) {
      ModeTokensLastWins(h, config, variables, collectionName, modeName, mode, index, vs, j);
    }
  }

  /** A collection with exactly one mode holds that mode's grouped tree directly, with no mode-name level. */
  lemma SingleModeCollapse(h: Helpers, config: JSONSettingsConfig, variables: seq<Variable>,
                           collection: VariableCollection)
    requires |collection.modes| == 1
    ensures CollectionTokens(h, config, variables, collection) == GroupedMode(h, config, variables, collection, 0)
  {
    var grouped := GroupedMode(h, config, variables, collection, 0);
    assert CollectionTokensUpTo(h, config, variables, collection, 0) + grouped == grouped;
  }

  lemma {:induction false} CollectionKeysUpTo(h: Helpers, config: JSONSettingsConfig, variables: seq<Variable>,
                                              collection: VariableCollection, k: nat)
    requires |collection.modes| != 1 && k <= |collection.modes|
    ensures forall name :: name in CollectionTokensUpTo(h, config, variables, collection, k) <==>
              exists i :: 0 <= i < k && Transformed(h, config, collection.modes[i].name) == name
  {
    if k > 0 {
      CollectionKeysUpTo(h, config, variables, collection, k - 1);
    }
  }

  /** A collection without exactly one mode has one key per transformed mode name (none for zero modes). */
  lemma CollectionKeys(h: Helpers, config: JSONSettingsConfig, variables: seq<Variable>,
                       collection: VariableCollection)
    requires |collection.modes| != 1
    ensures forall name :: name in CollectionTokens(h, config, variables, collection) <==>
              exists i :: 0 <= i < |collection.modes| && Transformed(h, config, collection.modes[i].name) == name
    ensures |collection.modes| == 0 ==> CollectionTokens(h, config, variables, collection) == map[]
  {
    CollectionKeysUpTo(h, config, variables, collection, |collection.modes|);
  }

  lemma {:induction false} MultiModeNestingUpTo(h: Helpers, config: JSONSettingsConfig, variables: seq<Variable>,
                                                collection: VariableCollection, k: nat, i: nat)
    requires |collection.modes| != 1 && i < k <= |collection.modes|
    requires forall i' :: i < i' < k ==>
               Transformed(h, config, collection.modes[i'].name) != Transformed(h, config, collection.modes[i].name)
    ensures Transformed(h, config, collection.modes[i].name) in CollectionTokensUpTo(h, config, variables, collection, k)
    ensures CollectionTokensUpTo(h, config, variables, collection, k)[Transformed(h, config, collection.modes[i].name)]
              == Group(GroupedMode(h, config, variables, collection, i))
  {
    if i < k - 1 {
      MultiModeNestingUpTo(h, config, variables, collection, k - 1, i);
    }
  }

  /**
   * In a collection with two or more modes, each mode's grouped tree sits
   * under its transformed mode name, unless a later mode has the same
   * transformed name and overwrites it.
   */
  lemma MultiModeNesting(h: Helpers, config: JSONSettingsConfig, variables: seq<Variable>,
                         collection: VariableCollection, i: nat)
    requires |collection.modes| >= 2 && i < |collection.modes|
    requires forall i' :: i < i' < |collection.modes| ==>
               Transformed(h, config, collection.modes[i'].name) != Transformed(h, config, collection.modes[i].name)
    ensures Transformed(h, config, collection.modes[i].name) in CollectionTokens(h, config, variables, collection)
    ensures CollectionTokens(h, config, variables, collection)[Transformed(h, config, collection.modes[i].name)]
              == Group(GroupedMode(h, config, variables, collection, i))
  {
    MultiModeNestingUpTo(h, config, variables, collection, |collection.modes|, i);
  }

  lemma {:induction false} DocumentKeysUpTo(h: Helpers, config: JSONSettingsConfig, variables: seq<Variable>,
                                            collections: seq<VariableCollection>, k: nat)
    requires k <= |collections|
    ensures forall name :: name in MergedUpTo(h, config, variables, collections, k) <==>
              exists i :: 0 <= i < k && Transformed(h, config, collections[i].name) == name
  {
    if k > 0 {
      DocumentKeysUpTo(h, config, variables, collections, k - 1);
    }
  }

  /** The document's keys are exactly the transformed collection names. */
  lemma DocumentKeys(h: Helpers, config: JSONSettingsConfig, variables: seq<Variable>,
                     collections: seq<VariableCollection>)
    ensures TokensDocument(h, config, variables, collections).Keys ==
              set c | c in collections :: Transformed(h, config, c.name)
  {
    DocumentKeysUpTo(h, config, variables, collections, |collections|);
    var doc := TokensDocument(h, config, variables, collections);
    forall name | name in doc ensures name in set c | c in collections :: Transformed(h, config, c.name) {
      var i :| 0 <= i < |collections| && Transformed(h, config, collections[i].name) == name;
      assert collections[i] in collections;
    }
    forall c | c in collections ensures Transformed(h, config, c.name) in doc {
      var i :| 0 <= i < |collections| && collections[i] == c;
    }
  }

  lemma {:induction false} DocumentLastWinsUpTo(h: Helpers, config: JSONSettingsConfig, variables: seq<Variable>,
                                                collections: seq<VariableCollection>, k: nat, i: nat)
    requires i < k <= |collections|
    requires forall i' :: i < i' < k ==>
               Transformed(h, config, collections[i'].name) != Transformed(h, config, collections[i].name)
    ensures Transformed(h, config, collections[i].name) in MergedUpTo(h, config, variables, collections, k)
    ensures MergedUpTo(h, config, variables, collections, k)[Transformed(h, config, collections[i].name)]
              == Group(CollectionTokens(h, config, variables, collections[i]))
  {
    if i < k - 1 {
      DocumentLastWinsUpTo(h, config, variables, collections, k - 1, i);
    }
  }

  /**
   * A collection that no later collection shares its transformed name with
   * owns that key of the document; a collection without modes maps to the
   * empty object there.
   */
  lemma DocumentLastWins(h: Helpers, config: JSONSettingsConfig, variables: seq<Variable>,
                         collections: seq<VariableCollection>, i: nat)
    requires i < |collections|
    requires forall i' :: i < i' < |collections| ==>
               Transformed(h, config, collections[i'].name) != Transformed(h, config, collections[i].name)
    ensures Transformed(h, config, collections[i].name) in TokensDocument(h, config, variables, collections)
    ensures TokensDocument(h, config, variables, collections)[Transformed(h, config, collections[i].name)]
              == Group(CollectionTokens(h, config, variables, collections[i]))
    ensures |collections[i].modes| == 0 ==>
              TokensDocument(h, config, variables, collections)[Transformed(h, config, collections[i].name)] == Group(map[])
  {
    DocumentLastWinsUpTo(h, config, variables, collections, |collections|, i);
  }
}
