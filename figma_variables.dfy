/**
 * The shapes of the design tool's variable graph that the token assembler
 * reads: variables, their per-mode values, and variable collections with
 * their ordered modes.
 */
module FigmaVariables {
  import opened Wrappers

  /** The type tag of a variable (COLOR, FLOAT, STRING, BOOLEAN). */
  datatype ResolvedType = Color | Float | Str | Boolean

  /** A raw stored value: a literal of the variable's type or an alias to another variable. */
  datatype VariableValue =
    | BoolValue(flag: bool)
    | FloatValue(number: real)
    | StringValue(text: string)
    | Rgb(r: real, g: real, b: real)
    | Rgba(r: real, g: real, b: real, a: real)
    | VariableAlias(id: string)

  /** No mode identifier occurs twice, as in the keys of a JavaScript object. */
  predicate DistinctKeys(s: seq<(string, VariableValue)>)
  {
    forall i, j :: 0 <= i < j < |s| ==> s[i].0 != s[j].0
  }

  /**
   * A variable's `valuesByMode` object: its (modeId, value) entries in the
   * object's key order, which is the order `Object.keys` returns.
   */
  type ValuesByMode = s: seq<(string, VariableValue)> | DistinctKeys(s) witness []

  datatype Variable = Variable(
    id: string,
    name: string,
    resolvedType: ResolvedType,
    valuesByMode: ValuesByMode,
    scopes: seq<string>,
    description: string)

  datatype Mode = Mode(modeId: string, name: string)

  datatype VariableCollection = VariableCollection(id: string, name: string, modes: seq<Mode>)

  /** `Object.keys(valuesByMode)[index]`: the key at that position, or `undefined` past the end. */
  function KeyAt(vbm: seq<(string, VariableValue)>, index: nat): Option<string>
  {
    if index < |vbm| then Some(vbm[index].0) else None
  }

  /** `valuesByMode[key]`: the value stored under a key, or `undefined` when there is none. */
  function ValueAt(vbm: seq<(string, VariableValue)>, key: string): (v: Option<VariableValue>)
    ensures v.None? <==> forall i :: 0 <= i < |vbm| ==> vbm[i].0 != key
  {
    if vbm == [] then None
    else if vbm[0].0 == key then Some(vbm[0].1)
    else ValueAt(vbm[1..], key)
  }

  /** With distinct keys, looking up the key found at a position gives that position's value. */
  lemma {:induction false} ValueAtKeyAt(vbm: seq<(string, VariableValue)>, index: nat)
    requires DistinctKeys(vbm)
    requires index < |vbm|
    ensures ValueAt(vbm, vbm[index].0) == Some(vbm[index].1)
  {
    if index > 0 {
      assert vbm[0].0 != vbm[index].0;
      assert DistinctKeys(vbm[1..]) by {
        forall i, j | 0 <= i < j < |vbm| - 1 ensures vbm[1..][i].0 != vbm[1..][j].0 {
          assert vbm[1..][i] == vbm[i + 1] && vbm[1..][j] == vbm[j + 1];
        }
      }
      assert vbm[1..][index - 1] == vbm[index];
      ValueAtKeyAt(vbm[1..], index - 1);
    }
  }
}
