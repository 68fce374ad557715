# Token assembler of the Figma variables export plugin

This project models `generateTokens`, the function that turns the design
tool's variables and variable collections into a nested design-token
document. The function walks over every collection, then over each of the
collection's modes, then over all variables. For each mode it builds a flat
map from transformed variable name to token, groups that map into a tree,
and files the tree under the collection. A collection with exactly one mode
gets the tree merged in directly. A collection with more modes gets one
entry per transformed mode name.

Files and modules:

- `wrappers.dfy` (`Wrappers`): `Option`, where `None` stands for JavaScript's `undefined`.
- `figma_variables.dfy` (`FigmaVariables`): variables, modes and collections.
  A variable's `valuesByMode` object is a sequence of (modeId, value) pairs in
  key order, with no key repeated. `KeyAt` models `Object.keys(...)[index]`
  and `ValueAt` models a lookup by key.
- `tokens.dfy` (`Tokens`): JSON values, tokens, the output tree, the export
  settings, and `Helpers`. `Helpers` holds the five collaborators the
  assembler calls but whose code is not part of this model:
  `transformNameConvention`, `normalizeValue`, `normilizeType`,
  `groupObjectNamesIntoCategories` and `getAliasVariableName`. They are
  function-valued fields passed in as a parameter. Every lemma therefore
  holds for any functions of those signatures, so the properties are about
  how the assembler wires their results together.
- `token_assembly.dfy` (`TokenAssembly`): the meaning of the function as
  folds over prefixes: `ModeTokens` (the `reduce` over variables),
  `CollectionTokensUpTo` (the `forEach` over modes), `MergedUpTo` (the
  `forEach` over collections).
- `token_assembly_properties.dfy` (`TokenAssemblyProperties`): the lemmas.
- `generate_tokens.dfy` (`GenerateTokens`): `GenerateTokens`, the imperative
  version. It has three nested loops that update maps, `result`, `modes`
  and `mergedVariables`, as the source mutates its objects. It is proved
  equal to `TokensDocument`.

Three points about what the code does and does not do:

- `generateTokens` never reads `useDTCGKeys` and always emits the
  `$`-prefixed fields; there is no rewrite into an unprefixed key dialect.
- It raises no errors of its own: alias cycles, dangling aliases and
  unknown types are not checked here.
- It matches a variable to a mode by position: the `index`-th key of the
  variable's own `valuesByMode` must equal the id of the collection's
  `index`-th mode, not merely be present among the variable's keys
  (`InMode`, `ModeMembership`).

## Model

| member | source | states |
|---|---|---|
| FigmaVariables.KeyAt | src/utils/generateTokens.ts:32 | definition only, no contract of its own: `Object.keys(valuesByMode)[index]`, `undefined` past the end; what it means for membership is proved by `ModeMembership` |
| FigmaVariables.ValueAt | src/utils/generateTokens.ts:46 | looking up a key in `valuesByMode` gives `undefined` exactly when no entry has that key |
| FigmaVariables.ValueAtKeyAt | src/utils/generateTokens.ts:32-46 | when keys are distinct, looking up the key found at position `index` gives the value stored at that position |
| TokenAssembly.Transformed | src/utils/generateTokens.ts:20-37 | collection, mode and variable names all go through `transformNameConvention` with the configured convention |
| TokenAssembly.InMode | src/utils/generateTokens.ts:32-39 | a variable takes part in mode `index` iff its `index`-th key equals the mode's id |
| TokenAssembly.AliasPath | src/utils/generateTokens.ts:40-43 | the alias path comes from the transformed collection and mode names joined by `.` and the untransformed variable name |
| TokenAssembly.MakeToken | src/utils/generateTokens.ts:44-63 | the token object built for a variable of the mode |
| TokenAssembly.ModeTokens | src/utils/generateTokens.ts:31-69 | the flat map of one mode after the reduce has visited a prefix of the variables |
| TokenAssembly.GroupedMode | src/utils/generateTokens.ts:73-75 | a mode's tree is `groupObjectNamesIntoCategories` of its flat map over all variables |
| TokenAssembly.CollectionTokensUpTo | src/utils/generateTokens.ts:25-77 | the `modes` object after a prefix of the modes: union with the grouped tree for one mode, else an entry under the transformed mode name |
| TokenAssembly.CollectionTokens | src/utils/generateTokens.ts:18-77 | the object a whole collection contributes |
| TokenAssembly.MergedUpTo | src/utils/generateTokens.ts:17-80 | `mergedVariables` after a prefix of the collections |
| TokenAssembly.TokensDocument | src/utils/generateTokens.ts:10-83 | the document `generateTokens` returns |
| TokenAssemblyProperties.TokenDescribes | src/utils/generateTokens.ts:44-63 | field by field, the token a variable of mode `index` must have |
| TokenAssemblyProperties.MakeTokenDescribes | src/utils/generateTokens.ts:40-63 | a built token has `$type` = `normilizeType(resolvedType)`, `$description` unchanged, `variableId` = the variable's own id, `aliasPath` built from the transformed collection and mode names and the raw variable name, `$value` = `normalizeValue` of the value at that position (never `undefined`) with that same alias path, and `scopes` present iff `includeScopes`, then equal to the variable's scopes |
| TokenAssemblyProperties.ModeTokensKeys | src/utils/generateTokens.ts:31-69 | a name is a key of a mode's flat map iff some variable of the mode has that transformed name |
| TokenAssemblyProperties.ModeTokensLastWins | src/utils/generateTokens.ts:34-65 | a variable of the mode that no later variable of the mode shares its transformed name with owns that key, holding its token (later writes win) |
| TokenAssemblyProperties.ModeTokensEntries | src/utils/generateTokens.ts:39-65 | every entry of a mode's flat map is, with all the promised fields, the token of the last variable of the mode with that transformed name |
| TokenAssemblyProperties.ModeMembership | src/utils/generateTokens.ts:32-39 | a variable whose transformed name no other variable of the same mode shares appears in mode `index` iff it has more than `index` keys and its `index`-th key is the mode's id; then it appears as its token |
| TokenAssemblyProperties.SingleModeCollapse | src/utils/generateTokens.ts:72-73 | a collection with exactly one mode is that mode's grouped tree, with no mode-name level |
| TokenAssemblyProperties.CollectionKeysUpTo | src/utils/generateTokens.ts:74-76 | for a collection without exactly one mode, the keys after a prefix of the modes are that prefix's transformed mode names |
| TokenAssemblyProperties.CollectionKeys | src/utils/generateTokens.ts:18-76 | a collection without exactly one mode has exactly its transformed mode names as keys, and none when it has no modes |
| TokenAssemblyProperties.MultiModeNestingUpTo | src/utils/generateTokens.ts:74-76 | after a prefix of the modes, a mode not overwritten later in the prefix has its grouped tree under its transformed name |
| TokenAssemblyProperties.MultiModeNesting | src/utils/generateTokens.ts:74-76 | in a collection with two or more modes, each mode's grouped tree sits under its transformed name unless a later mode with the same transformed name overwrites it |
| TokenAssemblyProperties.DocumentKeysUpTo | src/utils/generateTokens.ts:17-80 | after a prefix of the collections, the keys are that prefix's transformed collection names |
| TokenAssemblyProperties.DocumentKeys | src/utils/generateTokens.ts:15-82 | the document's key set is exactly the set of transformed collection names |
| TokenAssemblyProperties.DocumentLastWinsUpTo | src/utils/generateTokens.ts:17-80 | after a prefix of the collections, one not overwritten later in the prefix holds its collection's object |
| TokenAssemblyProperties.DocumentLastWins | src/utils/generateTokens.ts:17-82 | a collection that no later collection shares its transformed name with maps to its own object there; a collection with zero modes maps to the empty object |
| GenerateTokens.GenerateTokens | src/utils/generateTokens.ts:10-83 | the nested loops compute `TokensDocument`, and the result's keys are exactly the transformed collection names |

## Left out

- `src/apps/export/MainView/index.tsx` is not part of this model. It is UI state, message passing with the plugin host, network push adapters and preview statistics.
- A throw from `normalizeValue`, `normilizeType` or `groupObjectNamesIntoCategories` (lines 45-52, 73 and 75 of `src/utils/generateTokens.ts`) aborts `generateTokens` with no document returned. The helpers here are total functions, so the model always returns a document and does not represent that abort.
- The bodies of `transformNameConvention`, `normalizeValue`, `normilizeType`, `groupObjectNamesIntoCategories` and `getAliasVariableName` are not part of this model. They are arbitrary functions in `Helpers`, so colour conversion, alias following and name grouping are not modelled.
- The `async` wrapper: `GenerateTokens` is a plain method, since nothing is awaited.
- JavaScript's own key ordering is taken as given: `valuesByMode` order is the order `Object.keys` returns. The rule that moves integer-like keys first is not modelled, because mode ids are not integer-like.
- Key order of the output objects is not modelled; outputs are Dafny maps. The same goes for each `Object.assign` copying keys in order.
- Property lookups that can reach the object prototype (a key such as `__proto__`) are not modelled.
- `TokenDescribes` and the lemmas describe the flat per-mode map. What `groupObjectNamesIntoCategories` does with tokens is unknown here, so "no token in the output has `scopes`" is stated for the flat map only.
- Idempotence of the whole export is not stated as a lemma. Every member is a function of its inputs, so equal inputs give equal results by construction.
