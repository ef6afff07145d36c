/**
  Diagnostic descriptors and reported diagnostics, as the analyzer host defines them.
  Rule identifiers and categories are defined outside this model; they are
  distinct named constants here.
 */
module Diagnostics {

  import opened Syntax

  datatype DiagnosticSeverity = Hidden | Info | Warning | Error

  /** The two rule identifiers of this analyzer. */
  datatype RuleId = RecursiveNameofInFieldDeclarationRuleId | RecursiveNameofInPropertyDeclarationRuleId

  /** Diagnostic categories; this analyzer uses only one. */
  datatype Category = Nameof

  datatype DiagnosticDescriptor = DiagnosticDescriptor(
    id: RuleId,
    title: string,
    messageFormat: string,
    category: Category,
    defaultSeverity: DiagnosticSeverity,
    isEnabledByDefault: bool,
    description: string)

  /** A location: a span inside a given syntax tree. */
  datatype Location = Location(tree: SyntaxTree, span: Span)

  /** A reported diagnostic; `messageArgs` are the values for the format's `{0}`, `{1}`, ... slots. */
  datatype Diagnostic = Diagnostic(descriptor: DiagnosticDescriptor, location: Location, messageArgs: seq<string>)
}
