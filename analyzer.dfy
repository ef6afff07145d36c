/**
  The recursive-nameof analyzer: a field initialised with `nameof` of its own
  name (`string x = nameof(x);`) is reported, because a rename refactoring
  that misses the string would silently change the value.

  The host's callback plumbing is replaced by values: `Initialize` returns the
  registered (syntax kind, action) pairs, and `Analyze` returns the
  diagnostics the actions registered for a node's kind report on that node.
 */
module RecursiveNameofAnalyzer {

  import opened Wrappers
  import opened Syntax
  import opened Diagnostics

  /** The callee text that marks a name-introspection call. */
  const NameofKeyword: string := "nameof"

  const RecursiveNameofIsNotSafeForRefactorings: string :=
    "Recursive nameof can vent to issues during rename refactoring"

  const RecursiveNameofInField: DiagnosticDescriptor :=
    DiagnosticDescriptor(
      RecursiveNameofInFieldDeclarationRuleId,
      "Recursive nameof in field declaration",
      "Field '{0}' references to it's own name",
      Nameof,
      Warning,
      true,
      RecursiveNameofIsNotSafeForRefactorings)

  const RecursiveNameofInPropertyDeclaration: DiagnosticDescriptor :=
    DiagnosticDescriptor(
      RecursiveNameofInPropertyDeclarationRuleId,
      "Recursive nameof in property declaration",
      "Property '{0}' references to it's own name",
      Nameof,
      Warning,
      true,
      RecursiveNameofIsNotSafeForRefactorings)

  /** The descriptors the analyzer declares it may report. */
  const SupportedDiagnostics: seq<DiagnosticDescriptor> :=
    [RecursiveNameofInField, RecursiveNameofInPropertyDeclaration]

  // ---------------------------------------------------------------------------
  // Reference definition of the flagged shape

  /** The expression `nameof(name)` whose invocation covers `span`. */
  function NameofCall(name: string, span: Span): Expr
  {
    Invocation(IdentifierName(NameofKeyword), [Argument(IdentifierName(name))], span)
  }

  /**
    `node` is a field declaration of exactly one variable whose initializer is
    literally `nameof(<that variable's own name>)`, the call covering `span`.
    Modifiers and the declared type are irrelevant.
   */
  predicate IsRecursiveNameofField(node: Node, span: Span)
  {
    && node.FieldDeclaration?
    && |node.declaration.variables| == 1
    && node.declaration.variables[0].initializer
       == Some(EqualsValueClause(NameofCall(node.declaration.variables[0].identifier, span)))
  }

  /** The one diagnostic reported for a recursive nameof at `span` of `tree`. */
  function FieldDiagnostic(tree: SyntaxTree, span: Span): Diagnostic
  {
    Diagnostic(RecursiveNameofInField, Location(tree, span), [])
  }

  // ---------------------------------------------------------------------------
  // The matcher

  /**
    The span of the offending `nameof(...)` invocation, if `node` has the
    recursive shape, checked one clause of the pattern at a time: one variable,
    an initializer that is an invocation, a bare `nameof` callee, one argument
    that is a bare identifier, and that identifier equal to the variable's name.
   */
  function RecursiveNameofSpan(node: Node): (r: Option<Span>)
    ensures forall span :: r == Some(span) <==> IsRecursiveNameofField(node, span)
  {
    match node
    case FieldDeclaration(_, VariableDeclaration(_, vars)) =>
      if |vars| != 1 then None
      else
        var fieldIdentifier := vars[0].identifier;
        match vars[0].initializer {
          case Some(EqualsValueClause(Invocation(IdentifierName(calleeText), args, nameofInvocationSpan))) =>
            if calleeText != NameofKeyword || |args| != 1 then None
            else
              match args[0].expression {
                case IdentifierName(nameofText) =>
                  if nameofText == fieldIdentifier then
                    assert args == [Argument(IdentifierName(fieldIdentifier))];
                    Some(nameofInvocationSpan)
                  else None
                case _ => None
              }
          case _ => None
        }
    case _ => None
  }

  // ---------------------------------------------------------------------------
  // The field-declaration action and its registration

  /**
    The action registered for field declarations: at most one diagnostic, with
    the field descriptor, located at the `nameof(...)` invocation, reported
    exactly when the node has the recursive shape. No message arguments are
    passed, so the `{0}` slot of the message format is never filled.
   */
  function ReportRecursiveNameofInField(tree: SyntaxTree, node: Node): (r: seq<Diagnostic>)
    ensures |r| <= 1
    ensures forall span :: r == [FieldDiagnostic(tree, span)] <==> IsRecursiveNameofField(node, span)
    ensures r == [] <==> forall span :: !IsRecursiveNameofField(node, span)
  {
    match RecursiveNameofSpan(node)
    case Some(nameofInvocationSpan) => [FieldDiagnostic(tree, nameofInvocationSpan)]
    case None => []
  }

  /** The node actions the analyzer defines. */
  datatype NodeAction = RecursiveNameofInFieldAction

  /** A node action together with the syntax kind it is registered for. */
  datatype Registration = Registration(kind: SyntaxKind, action: NodeAction)

  /** The registrations made at initialisation: the field action, for field declarations only. */
  function Initialize(): (r: seq<Registration>)
    ensures RegisteredKinds(r) == {FieldDeclarationKind}
  {
    var regs := [Registration(FieldDeclarationKind, RecursiveNameofInFieldAction)];
    assert regs[0].kind in RegisteredKinds(regs);
    regs
  }

  function RunAction(action: NodeAction, tree: SyntaxTree, node: Node): seq<Diagnostic>
  {
    match action
    case RecursiveNameofInFieldAction => ReportRecursiveNameofInField(tree, node)
  }

  /** The number of registrations in `regs` made for syntax kind `kind`. */
  function CountFor(regs: seq<Registration>, kind: SyntaxKind): nat
  {
    if regs == [] then 0
    else (if regs[0].kind == kind then 1 else 0) + CountFor(regs[1..], kind)
  }

  /** The kinds some registration in `regs` is made for. */
  function RegisteredKinds(regs: seq<Registration>): set<SyntaxKind>
  {
    set i | 0 <= i < |regs| :: regs[i].kind
  }

  /**
    The host invokes, in registration order, every action registered for the
    node's kind. Each action reports at most one diagnostic, always with the
    field descriptor and in the node's own tree.
   */
  function RunRegistrations(regs: seq<Registration>, tree: SyntaxTree, node: Node): (r: seq<Diagnostic>)
    ensures |r| <= CountFor(regs, KindOf(node))
    ensures forall i :: 0 <= i < |r| ==>
              r[i].descriptor == RecursiveNameofInField && r[i].location.tree == tree && r[i].messageArgs == []
  {
    if regs == [] then []
    else
      (if regs[0].kind == KindOf(node) then RunAction(regs[0].action, tree, node) else [])
      + RunRegistrations(regs[1..], tree, node)
  }

  /**
    Everything the analyzer reports on `node` of `tree`: at most one
    diagnostic, exactly when the node is a recursive-nameof field, at the
    `nameof(...)` invocation, and always with a supported descriptor.
   */
  function Analyze(tree: SyntaxTree, node: Node): (r: seq<Diagnostic>)
    ensures |r| <= 1
    ensures forall span :: r == [FieldDiagnostic(tree, span)] <==> IsRecursiveNameofField(node, span)
    ensures r == [] <==> RecursiveNameofSpan(node) == None
    ensures forall d :: d in r ==> d.descriptor == RecursiveNameofInField && d.descriptor in SupportedDiagnostics
  {
    RunRegistrations(Initialize(), tree, node)
  }
}
