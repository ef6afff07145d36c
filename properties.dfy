/**
  Properties of the recursive-nameof analyzer: which declarations are flagged,
  which are not, where the warning points, and which descriptors can appear.
 */
module RecursiveNameofProperties {

  import opened Wrappers
  import opened Syntax
  import opened Diagnostics
  import opened RecursiveNameofAnalyzer

  // ---------------------------------------------------------------------------
  // The matcher, clause by clause

  /** A field declaring zero variables, or two or more, is never flagged, whatever its initializers. */
  lemma VariableCountOtherThanOneNeverMatches(node: Node)
    requires node.FieldDeclaration? && |node.declaration.variables| != 1
    ensures RecursiveNameofSpan(node) == None
  {
  }

  /** `string a = nameof(a), b;` is not flagged although its first variable alone would be. */
  lemma TwoVariablesWithRecursiveFirstNotFlagged(span: Span)
    ensures RecursiveNameofSpan(FieldDeclaration(["private"], VariableDeclaration("string", [
              VariableDeclarator("a", Some(EqualsValueClause(NameofCall("a", span)))),
              VariableDeclarator("b", None)]))) == None
  {
  }

  /** A variable without an initializer, or initialised by something other than an invocation, is never flagged. */
  lemma NonInvocationInitializerNeverMatches(mods: seq<string>, typeName: string, v: VariableDeclarator)
    requires v.initializer.None? || !v.initializer.value.value.Invocation?
    ensures RecursiveNameofSpan(FieldDeclaration(mods, VariableDeclaration(typeName, [v]))) == None
  {
  }

  /** The callee must be a bare identifier spelled exactly `nameof`. */
  lemma CalleeMustBeBareNameof(mods: seq<string>, typeName: string, name: string, callee: Expr, args: seq<Argument>, span: Span)
    requires callee != IdentifierName(NameofKeyword)
    ensures RecursiveNameofSpan(FieldDeclaration(mods, VariableDeclaration(typeName, [
              VariableDeclarator(name, Some(EqualsValueClause(Invocation(callee, args, span))))]))) == None
  {
  }

  /** Other spellings (`nameOf`) and qualified callees (`Helpers.nameof`) are not recognised. */
  lemma OtherCalleesNotRecognised(name: string, span: Span)
    ensures RecursiveNameofSpan(FieldDeclaration([], VariableDeclaration("string", [
              VariableDeclarator(name, Some(EqualsValueClause(
                Invocation(IdentifierName("nameOf"), [Argument(IdentifierName(name))], span))))]))) == None
    ensures RecursiveNameofSpan(FieldDeclaration([], VariableDeclaration("string", [
              VariableDeclarator(name, Some(EqualsValueClause(
                Invocation(MemberAccess(IdentifierName("Helpers"), "nameof"), [Argument(IdentifierName(name))], span))))]))) == None
  {
  }

  /** The call must have exactly one argument, and that argument must be a bare identifier. */
  lemma ArgumentMustBeOneBareIdentifier(mods: seq<string>, typeName: string, name: string, args: seq<Argument>, span: Span)
    requires |args| != 1 || !args[0].expression.IdentifierName?
    ensures RecursiveNameofSpan(FieldDeclaration(mods, VariableDeclaration(typeName, [
              VariableDeclarator(name, Some(EqualsValueClause(Invocation(IdentifierName(NameofKeyword), args, span))))]))) == None
  {
  }

  /** `this.x`, `(x)` and `nameof(x, x)` are not the bare single argument the rule asks for. */
  lemma QualifiedOrParenthesizedArgumentNotFlagged(name: string, span: Span)
    ensures RecursiveNameofSpan(FieldDeclaration([], VariableDeclaration("string", [
              VariableDeclarator(name, Some(EqualsValueClause(Invocation(IdentifierName(NameofKeyword),
                [Argument(MemberAccess(OtherExpression, name))], span))))]))) == None
    ensures RecursiveNameofSpan(FieldDeclaration([], VariableDeclaration("string", [
              VariableDeclarator(name, Some(EqualsValueClause(Invocation(IdentifierName(NameofKeyword),
                [Argument(Parenthesized(IdentifierName(name)))], span))))]))) == None
    ensures RecursiveNameofSpan(FieldDeclaration([], VariableDeclaration("string", [
              VariableDeclarator(name, Some(EqualsValueClause(Invocation(IdentifierName(NameofKeyword),
                [Argument(IdentifierName(name)), Argument(IdentifierName(name))], span))))]))) == None
  {
  }

  /**
    Given the structural shape `T x = nameof(y);`, the field is flagged if and
    only if `y` and `x` are the same text, and then at the invocation's span.
   */
  lemma MatchIffSameName(mods: seq<string>, typeName: string, x: string, y: string, span: Span)
    ensures RecursiveNameofSpan(FieldDeclaration(mods, VariableDeclaration(typeName, [
              VariableDeclarator(x, Some(EqualsValueClause(NameofCall(y, span))))])))
            == if x == y then Some(span) else None
  {
  }

  // ---------------------------------------------------------------------------
  // What is reported

  /**
    A flagged field yields exactly one diagnostic: the field descriptor,
    located at the `nameof(...)` invocation's span in the node's tree.
   */
  lemma MatchReportsOneFieldDiagnostic(tree: SyntaxTree, node: Node, span: Span)
    requires RecursiveNameofSpan(node) == Some(span)
    ensures Analyze(tree, node) == [Diagnostic(RecursiveNameofInField, Location(tree, span), [])]
    ensures Analyze(tree, node)[0].descriptor.defaultSeverity == Warning
  {
  }

  /** A registration list without an entry for the node's kind runs nothing on it. */
  lemma {:induction false} UnregisteredKindReportsNothing(regs: seq<Registration>, tree: SyntaxTree, node: Node)
    requires KindOf(node) !in RegisteredKinds(regs)
    ensures RunRegistrations(regs, tree, node) == []
  {
    if regs != [] {
      assert regs[0].kind in RegisteredKinds(regs);
      assert RegisteredKinds(regs[1..]) <= RegisteredKinds(regs) by {
        forall k | k in RegisteredKinds(regs[1..]) ensures k in RegisteredKinds(regs) {
          var i :| 0 <= i < |regs[1..]| && regs[1..][i].kind == k;
          assert regs[i + 1].kind == k;
        }
      }
      UnregisteredKindReportsNothing(regs[1..], tree, node);
    }
  }

  /**
    The other direction of dispatch: whatever an action registered for the
    node's kind reports is among what the registrations report.
   */
  lemma {:induction false} RegisteredActionRuns(regs: seq<Registration>, tree: SyntaxTree, node: Node, k: nat, d: Diagnostic)
    requires k < |regs| && regs[k].kind == KindOf(node)
    requires d in RunAction(regs[k].action, tree, node)
    ensures d in RunRegistrations(regs, tree, node)
  {
    if k > 0 {
      RegisteredActionRuns(regs[1..], tree, node, k - 1, d);
    }
  }

  /**
    Only field declarations have a registered action, so every property
    declaration, `T X { get; } = nameof(X);` included, is reported on by
    nothing, and the property descriptor, although supported, never appears.
   */
  lemma PropertyDeclarationsNeverReported(tree: SyntaxTree, node: Node)
    requires node.PropertyDeclaration?
    ensures RecursiveNameofInPropertyDeclaration in SupportedDiagnostics
    ensures Analyze(tree, node) == []
  {
    UnregisteredKindReportsNothing(Initialize(), tree, node);
  }

  /** No node of any kind ever yields a diagnostic with the property descriptor. */
  lemma PropertyDescriptorNeverReported(tree: SyntaxTree, node: Node)
    ensures forall d :: d in Analyze(tree, node) ==> d.descriptor != RecursiveNameofInPropertyDeclaration
  {
  }

  /**
    The supported descriptors are exactly the two rules, field and property,
    each an enabled-by-default warning.
   */
  lemma SupportedDiagnosticsAreBothRules()
    ensures |SupportedDiagnostics| == 2
    ensures (set d | d in SupportedDiagnostics :: d.id)
            == {RecursiveNameofInFieldDeclarationRuleId, RecursiveNameofInPropertyDeclarationRuleId}
    ensures forall d :: d in SupportedDiagnostics ==> d.defaultSeverity == Warning && d.isEnabledByDefault
  {
  }

  /**
    The two descriptors are both warnings, enabled by default, with the same
    category and description; they differ in id, title and message format.
   */
  lemma DescriptorsDifferOnlyInWording()
    ensures RecursiveNameofInField.defaultSeverity == RecursiveNameofInPropertyDeclaration.defaultSeverity == Warning
    ensures RecursiveNameofInField.isEnabledByDefault && RecursiveNameofInPropertyDeclaration.isEnabledByDefault
    ensures RecursiveNameofInField.category == RecursiveNameofInPropertyDeclaration.category
    ensures RecursiveNameofInField.description == RecursiveNameofInPropertyDeclaration.description
    ensures RecursiveNameofInField.id != RecursiveNameofInPropertyDeclaration.id
    ensures RecursiveNameofInField.title != RecursiveNameofInPropertyDeclaration.title
    ensures RecursiveNameofInField.messageFormat != RecursiveNameofInPropertyDeclaration.messageFormat
  {
  }

  // ---------------------------------------------------------------------------
  // End-to-end examples

  /** `private readonly string name = nameof(name);` gives one field warning at `nameof(name)`. */
  lemma SelfNamedFieldExample(tree: SyntaxTree)
    ensures var node := FieldDeclaration(["private", "readonly"], VariableDeclaration("string", [
              VariableDeclarator("name", Some(EqualsValueClause(NameofCall("name", Span(31, 12)))))]));
            Analyze(tree, node) == [Diagnostic(RecursiveNameofInField, Location(tree, Span(31, 12)), [])]
  {
  }

  /** `private readonly string name = nameof(NameField);` gives nothing. */
  lemma OtherNamedFieldExample(tree: SyntaxTree)
    ensures var node := FieldDeclaration(["private", "readonly"], VariableDeclaration("string", [
              VariableDeclarator("name", Some(EqualsValueClause(NameofCall("NameField", Span(31, 17)))))]));
            Analyze(tree, node) == []
  {
  }
}
