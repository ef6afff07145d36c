# Recursive `nameof` analyzer — Dafny model

The analyzer warns about a C# field initialised with `nameof` of its own name,
such as `private readonly string name = nameof(name);`. A rename refactoring
that misses the string silently changes the field's value.

The detection rule is one structural predicate over a field declaration. The
declaration must declare exactly one variable. Its initializer must be an
invocation whose callee is the bare identifier `nameof`. The invocation must
have exactly one argument, a bare identifier. That identifier's text must equal
the variable's name, compared case-sensitively. On a match the analyzer reports
one warning with the field descriptor, located at the span of the `nameof(...)`
invocation.

The model has these modules:

- `Wrappers` (`wrappers.dfy`): `Option`.
- `Syntax` (`syntax.dfy`): the syntax shapes the rule inspects. Field and
  property declarations, variable declarators, `= value` clauses, identifier
  names, member accesses, invocations with argument lists and spans,
  parenthesized expressions, one `OtherExpression` variant for every other
  expression, and the syntax kinds.
- `Diagnostics` (`diagnostics.dfy`): descriptors, severities, locations and
  reported diagnostics.
- `RecursiveNameofAnalyzer` (`analyzer.dfy`): the two descriptor constants and
  `SupportedDiagnostics`. It also holds the matcher `RecursiveNameofSpan`,
  checked against the reference predicate `IsRecursiveNameofField`. The field
  action `ReportRecursiveNameofInField` reports at most one diagnostic.
  `Initialize` gives the registrations as a list of (syntax kind, action)
  pairs. `RunRegistrations` runs every action registered for a node's kind, as
  the host does. `Analyze` is the whole analyzer applied to one node.
- `RecursiveNameofProperties` (`properties.dfy`): the rule clause by clause,
  what is reported, that the property descriptor never appears, the
  descriptors' shared attributes, and two end-to-end examples.

The host's callback mechanism is replaced by values. A node action is a
function from a syntax tree and a node to the diagnostics it reports. The
reported diagnostic carries the tree and the invocation span as its location.

The model keeps two gaps that the code has as written:

- The analyzer lists a property descriptor in `SupportedDiagnostics`, but
  `Initialize` registers only the field-declaration action. The model keeps
  that. `PropertyDeclarationsNeverReported` and
  `PropertyDescriptorNeverReported` show that no property declaration is
  reported and that the property descriptor never appears.
- The message format has a `{0}` slot, but `Diagnostic.Create` gets no message
  arguments. So the model's diagnostics carry an empty `messageArgs`.

## Model

| member | source | states |
|---|---|---|
| `RecursiveNameofAnalyzer.RecursiveNameofSpan` | DenyRecursiveNameofAnalyzer/RecursiveNameofAnalyzer.cs:27-49 | the result is `Some(span)` exactly when the node is a one-variable field declaration whose initializer is literally `nameof(<its own name>)` with the call at `span`; otherwise it is `None` |
| `RecursiveNameofAnalyzer.ReportRecursiveNameofInField` | DenyRecursiveNameofAnalyzer/RecursiveNameofAnalyzer.cs:50-55 | the field action reports at most one diagnostic; it reports the field-descriptor diagnostic at the invocation span exactly when the node has the recursive shape, and nothing otherwise |
| `RecursiveNameofAnalyzer.RunRegistrations` | DenyRecursiveNameofAnalyzer/RecursiveNameofAnalyzer.cs:25-56 | running the registered actions on a node yields no more diagnostics than there are registrations for the node's kind; each one uses the field descriptor, lies in the node's own tree and has no message arguments |
| `RecursiveNameofAnalyzer.Initialize` | DenyRecursiveNameofAnalyzer/RecursiveNameofAnalyzer.cs:18-21 | initialisation registers actions for the field-declaration kind and for no other kind |
| `RecursiveNameofProperties.RegisteredActionRuns` | DenyRecursiveNameofAnalyzer/RecursiveNameofAnalyzer.cs:25-56 | every diagnostic that an action registered for the node's kind reports is among the diagnostics the registrations report on that node |
| `RecursiveNameofAnalyzer.Analyze` | DenyRecursiveNameofAnalyzer/RecursiveNameofAnalyzer.cs:18-56 | the analyzer reports at most one diagnostic per node, and reports one exactly when the node is a recursive-nameof field; that diagnostic is at the invocation span, uses the field descriptor, and its descriptor is in `SupportedDiagnostics` |
| `RecursiveNameofProperties.VariableCountOtherThanOneNeverMatches` | DenyRecursiveNameofAnalyzer/RecursiveNameofAnalyzer.cs:28-29 | a field declaring zero, two or more variables is never flagged |
| `RecursiveNameofProperties.TwoVariablesWithRecursiveFirstNotFlagged` | DenyRecursiveNameofAnalyzer/RecursiveNameofAnalyzer.cs:28-31 | `string a = nameof(a), b;` is not flagged although its first variable has the recursive shape |
| `RecursiveNameofProperties.NonInvocationInitializerNeverMatches` | DenyRecursiveNameofAnalyzer/RecursiveNameofAnalyzer.cs:34-35 | a variable without an initializer, or whose initializer is not an invocation, is never flagged |
| `RecursiveNameofProperties.CalleeMustBeBareNameof` | DenyRecursiveNameofAnalyzer/RecursiveNameofAnalyzer.cs:36-37 | an invocation whose callee is anything but the bare identifier `nameof` is never flagged |
| `RecursiveNameofProperties.OtherCalleesNotRecognised` | DenyRecursiveNameofAnalyzer/RecursiveNameofAnalyzer.cs:36-38 | `nameOf(x)` and `Helpers.nameof(x)` are not recognised, even with the field's own name as argument |
| `RecursiveNameofProperties.ArgumentMustBeOneBareIdentifier` | DenyRecursiveNameofAnalyzer/RecursiveNameofAnalyzer.cs:40-47 | a `nameof` call with other than one argument, or whose argument is not a bare identifier, is never flagged |
| `RecursiveNameofProperties.QualifiedOrParenthesizedArgumentNotFlagged` | DenyRecursiveNameofAnalyzer/RecursiveNameofAnalyzer.cs:46-47 | `nameof(this.x)`, `nameof((x))` and `nameof(x, x)` are not flagged |
| `RecursiveNameofProperties.MatchIffSameName` | DenyRecursiveNameofAnalyzer/RecursiveNameofAnalyzer.cs:33-49 | for `T x = nameof(y);` the field is flagged, at the invocation span, if and only if `x` and `y` are the same text |
| `RecursiveNameofProperties.MatchReportsOneFieldDiagnostic` | DenyRecursiveNameofAnalyzer/RecursiveNameofAnalyzer.cs:42-54 | a flagged field yields exactly one warning: the field descriptor located at the invocation span in the node's tree |
| `RecursiveNameofProperties.UnregisteredKindReportsNothing` | DenyRecursiveNameofAnalyzer/RecursiveNameofAnalyzer.cs:56 | when no registration is made for a node's kind, nothing is reported on that node |
| `RecursiveNameofProperties.PropertyDeclarationsNeverReported` | DenyRecursiveNameofAnalyzer/RecursiveNameofAnalyzer.cs:12-21 | the property descriptor is supported, yet no property declaration, recursive or not, is ever reported, because only field declarations are registered |
| `RecursiveNameofProperties.PropertyDescriptorNeverReported` | DenyRecursiveNameofAnalyzer/RecursiveNameofAnalyzer.cs:50-56 | no node of any kind yields a diagnostic with the property descriptor |
| `RecursiveNameofProperties.SupportedDiagnosticsAreBothRules` | DenyRecursiveNameofAnalyzer/RecursiveNameofAnalyzer.cs:12-16 | the supported descriptors are two, one with the field rule id and one with the property rule id, and each is an enabled-by-default warning |
| `RecursiveNameofProperties.DescriptorsDifferOnlyInWording` | DenyRecursiveNameofAnalyzer/RecursiveNameofAnalyzer.cs:59-80 | both descriptors are enabled-by-default warnings with the same category and description, and they differ in id, title and message format |
| `RecursiveNameofProperties.SelfNamedFieldExample` | DenyRecursiveNameofAnalyzer/RecursiveNameofAnalyzer.cs:27-54 | `private readonly string name = nameof(name);` yields one field warning at the span of `nameof(name)` |
| `RecursiveNameofProperties.OtherNamedFieldExample` | DenyRecursiveNameofAnalyzer/RecursiveNameofAnalyzer.cs:27-49 | `private readonly string name = nameof(NameField);` yields no diagnostic |

## Left out

- Host plumbing is modelled only as values. This covers the analysis context,
  registering syntax-node actions, reporting through the callback context, and
  building a location from a tree and a span. An action returns its
  diagnostics. A location is a (tree, span) pair.
- The host formats a message from the descriptor's template. The code passes no
  arguments, so that formatting is a host detail. The model records the empty
  argument list and does not format messages.
- The rule-identifier and category strings are defined in files that are not
  part of this model. They are modelled as distinct enumerated constants.
- The host rejects a reported descriptor that is not in `SupportedDiagnostics`.
  The model does not include that rejection. Instead, `Analyze` proves that
  every reported descriptor is supported.
- The host may run actions concurrently. The rule has no mutable state, so
  there is nothing to model.
- Running the rule twice on the same declaration gives the same result, because
  `Analyze` is a function. No separate lemma states this.
- Syntax details the pattern does not inspect are not modelled. These include
  attributes, argument `ref`/`out` keywords and argument names, generic names,
  and accessor lists. Severity configuration and suppression are host settings
  and are left out too.
- An identifier is compared by its token text, so a verbatim identifier `@x`
  keeps its `@`. The model stores that text as given.
- `Syntax.KindOf` leaves out node kinds other than field and property
  declarations, because the rule registers for none of them. It maps them all
  to one other kind.
