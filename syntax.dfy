/**
  The part of the C# syntax tree that the recursive-nameof rule looks at.

  Only the node shapes the rule inspects are kept; everything else a member
  declaration or an expression can be collapses into one "other" variant.
  Identifiers carry their literal token text (`Identifier.Text`), so a verbatim
  identifier such as `@x` keeps its `@`.
 */
module Syntax {

  import opened Wrappers

  /** A source range: start offset and length, as a text span. */
  datatype Span = Span(start: nat, length: nat)

  /** The syntax tree a node belongs to, identified by its file path. */
  datatype SyntaxTree = SyntaxTree(filePath: string)

  /** An argument of an invocation: `ref`/`out` and named-argument parts are not modelled. */
  datatype Argument = Argument(expression: Expr)

  /** Expressions, restricted to the shapes that tell the rule's cases apart. */
  datatype Expr =
    | IdentifierName(identifier: string)
      /** `receiver.name`, e.g. a qualified callee `Helpers.nameof` or argument `this.x` */
    | MemberAccess(receiver: Expr, name: string)
      /** `callee(arguments)`; `span` covers the whole invocation */
    | Invocation(callee: Expr, arguments: seq<Argument>, span: Span)
    | Parenthesized(inner: Expr)
      /** literals, casts, generic names and every other expression */
    | OtherExpression

  /** The `= value` part of a variable declarator. */
  datatype EqualsValueClause = EqualsValueClause(value: Expr)

  /** One declared variable `name [= value]`. */
  datatype VariableDeclarator = VariableDeclarator(identifier: string, initializer: Option<EqualsValueClause>)

  /** `Type v1 [= e1], v2 [= e2], ...` */
  datatype VariableDeclaration = VariableDeclaration(typeName: string, variables: seq<VariableDeclarator>)

  /** The member-declaration nodes the host may hand to a syntax-node action. */
  datatype Node =
    | FieldDeclaration(modifiers: seq<string>, declaration: VariableDeclaration)
    | PropertyDeclaration(modifiers: seq<string>, typeName: string, identifier: string, initializer: Option<EqualsValueClause>)
    | OtherMember

  /** The syntax kinds a node action can be registered for. */
  datatype SyntaxKind = FieldDeclarationKind | PropertyDeclarationKind | OtherKind

  /** The syntax kind of a node. */
  function KindOf(node: Node): SyntaxKind
  {
    match node
    case FieldDeclaration(_, _) => FieldDeclarationKind
    case PropertyDeclaration(_, _, _, _) => PropertyDeclarationKind
    case OtherMember => OtherKind
  }
}
