/**
 * The output side of the token assembler: JSON values, design tokens, the
 * nested token tree, the export settings, and the helpers the assembler
 * calls but whose bodies are not part of this model.
 */
module Tokens {
  import opened Wrappers
  import opened FigmaVariables

  /** A JSON value, the shape of a token's normalized `$value`. */
  datatype Json =
    | JNull
    | JBool(b: bool)
    | JNumber(x: real)
    | JString(s: string)
    | JArray(items: seq<Json>)
    | JObject(fields: map<string, Json>)

  /** The `$extensions` object of a token. */
  datatype Extensions = Extensions(variableId: string, aliasPath: string)

  /**
   * A design token: `$value`, `$type`, `$description`, the optional
   * `scopes` and `$extensions`. `scopes == None` means the key is absent.
   */
  datatype Token = Token(
    value: Json,
    tokenType: string,
    description: string,
    scopes: Option<seq<string>>,
    extensions: Extensions)

  /** A node of the output document: a token at a leaf, or an object of named children. */
  datatype Tree = Leaf(token: Token) | Group(children: map<string, Tree>)

  /** The export settings the assembler receives (the fields the core knows of). */
  datatype JSONSettingsConfig = JSONSettingsConfig(
    colorMode: string,
    includeScopes: bool,
    useDTCGKeys: bool,
    namesTransform: string)

  /**
   * The collaborators of the assembler, taken as arbitrary functions of
   * their signatures: every property proved about the assembler holds
   * whatever they compute.
   */
  datatype Helpers = Helpers(
    /** transformNameConvention(name, namesTransform) */
    transformNameConvention: (string, string) -> string,
    /** normalizeValue(rawValue, resolvedType, colorMode, variables, aliasPath) */
    normalizeValue: (Option<VariableValue>, ResolvedType, string, seq<Variable>, string) -> Json,
    /** normilizeType(resolvedType) */
    normilizeType: ResolvedType -> string,
    /** groupObjectNamesIntoCategories(flatTokens) */
    groupObjectNamesIntoCategories: map<string, Token> -> map<string, Tree>,
    /** getAliasVariableName(collectionAndModeName, variableName) */
    getAliasVariableName: (string, string) -> string)
}
