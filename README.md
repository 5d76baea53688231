# PropertyExpression, modelled in Dafny

PropertyExpression is a Roslyn analyzer with a code fix for C#. It has two parts:

- **The analyzer** (`PropertyExpressionAnalyzer`) looks at every invocation expression for calls of the form `PropertyUtil.GetName<T>(x => x.P)`. These calls name a property through a lambda. The analyzer reports each one with the diagnostic `PropertyExpression` (category `Naming`, severity warning, on by default). The diagnostic is placed on the callee `PropertyUtil.GetName<T>` and carries the type name `T` and the property name `P` as its message arguments.
- **The code fix** (`PropertyExpressionCodeFixProvider`, title "Use nameof") finds the invocation through the diagnostic's start position. It then replaces that invocation with `nameof(P)` when `T` is the class that encloses the call, and with `nameof(T.P)` otherwise. The invocation's leading and trailing trivia are kept.

The model is pure. Its parts are:

- **Syntax**: a C# syntax tree is a `Node` of some syntax kind whose elements are tokens (with their trivia) and child nodes. `WellFormed` states the shape the C# parser guarantees for each kind the analyzer casts to. It admits more trees than the parser builds: argument lists without separating commas, any prefix before an argument's expression, any shape for class declarations and other kinds, and an empty type argument list (the parser gives `GetName<>` an omitted type argument node). The only consequence is that the ArgumentOutOfRange fault of an empty type argument list arises only on trees the parser does not produce.
- **Tree**: paths into a tree; the text before and after a node; Roslyn's `FindToken`, `AncestorsAndSelf().OfType<K>().First()` (`Innermost`) and `ReplaceNode` (`ReplaceAt`).
- **Analyzer**: the test `AnalyzeInvocation` runs on one node (`Inspect`) and what it reports there (`Analyze`). The source does not check three of its accesses: `Arguments[0]` of the argument list (line 40), the cast to a generic name before `TypeArgumentList` (lines 50-52) and `Arguments[0]` of the type argument list (line 52). Where they throw, the model returns the exception as a fault (`Fail`/`Crash`) instead of assuming it away.
- **CodeFix**: locating the invocation (`LocateInvocation`), the casts of `UseNameOfAsync` (`ExtractOperands`), the rewrite (`UseNameOf`), and both together (`Fix`). The semantic model is a parameter: it maps the position of an identifier to its symbol and the position of a class declaration to the symbol that class declares.
- **Pipeline**: the analyzer and the fix together. For a reported call, the fix finds exactly that call and reads the reported pair. After the rewrite, the analyzer flags exactly the calls it flagged before, outside the rewritten call.
- **Scenarios**: concrete calls, and two programs abridged from the first and the last unit test (UnitTests.cs:23-86 and 387-436), on which the reported pair and the fixed text the model computes agree with what those tests expect (positions are character offsets here, not lines and columns).

Files: `wrappers.dfy`, `syntax.dfy`, `tree.dfy`, `analyzer.dfy`, `code_fix.dfy`, `pipeline.dfy`, `scenarios.dfy`.

## Model

| member | source | states |
|---|---|---|
| Analyzer.Inspect | PropertyExpression/PropertyExpression/DiagnosticAnalyzer.cs:33-56 | only invocation expressions are ever reported; the only exceptions the test can throw are NullReference and ArgumentOutOfRange |
| Analyzer.Analyze | PropertyExpression/PropertyExpression/DiagnosticAnalyzer.cs:31-58 | a diagnostic is reported exactly when the test flags the node, and it throws exactly when the test faults, with that fault; a report uses `Rule` and carries the arguments [T, P] in that order |
| Analyzer.InspectFlagged | PropertyExpression/PropertyExpression/DiagnosticAnalyzer.cs:33-55 | the test flags (T, P) if and only if the node is `PropertyUtil.M<T, ...>(x => e.P, ...)`: an invocation whose callee is a member access on the identifier whose value is `PropertyUtil`, whose name is generic with first type argument the identifier T, and whose first argument is a simple lambda whose body is a member access named P |
| Analyzer.InspectFaults | PropertyExpression/PropertyExpression/DiagnosticAnalyzer.cs:40-52 | the test throws ArgumentOutOfRange if and only if a `PropertyUtil` call has no argument, or its lambda argument passes and its generic name has no type argument; it throws NullReference if and only if a `PropertyUtil` call's lambda argument passes and its name is not generic |
| Analyzer.ArgumentsFlagged | PropertyExpression/PropertyExpression/DiagnosticAnalyzer.cs:40-55 | after the receiver check, (T, P) is flagged if and only if the first argument is `x => e.P` and the name is generic over T |
| Analyzer.ArgumentsFaults | PropertyExpression/PropertyExpression/DiagnosticAnalyzer.cs:40-52 | after the receiver check: the fault conditions of the argument and the type-argument accesses, in both directions |
| Analyzer.ArgumentsVerdict | PropertyExpression/PropertyExpression/DiagnosticAnalyzer.cs:40-55 | the test once the receiver is `PropertyUtil`: it throws only NullReference or ArgumentOutOfRange; when it flags and when it throws are stated by `Analyzer.ArgumentsFlagged` and `Analyzer.ArgumentsFaults` |
| Analyzer.TypeArgumentAt | PropertyExpression/PropertyExpression/DiagnosticAnalyzer.cs:50-55 | the type argument test flags (T, P) if and only if the name is generic and its first type argument is the identifier T |
| Analyzer.TypeArgumentFaults | PropertyExpression/PropertyExpression/DiagnosticAnalyzer.cs:50-52 | the unchecked cast to a generic name throws NullReference exactly on a non-generic name; `Arguments[0]` throws ArgumentOutOfRange exactly on an empty type argument list |
| Analyzer.TypeArgumentVerdict | PropertyExpression/PropertyExpression/DiagnosticAnalyzer.cs:50-55 | the test on the method's name: it throws only NullReference or ArgumentOutOfRange; when it flags and when it throws are stated by `Analyzer.TypeArgumentAt` and `Analyzer.TypeArgumentFaults` |
| Analyzer.LambdaAt | PropertyExpression/PropertyExpression/DiagnosticAnalyzer.cs:41-49 | the argument's property name is P if and only if the argument is a simple lambda whose body is a member access whose name has value P |
| Analyzer.LambdaPropertyName | PropertyExpression/PropertyExpression/DiagnosticAnalyzer.cs:41-49 | no contract of its own; stated by `Analyzer.LambdaAt` and `Analyzer.LambdaOutline` |
| Analyzer.LambdaArgumentAt | PropertyExpression/PropertyExpression/DiagnosticAnalyzer.cs:40-49 | the first argument of the list is `x => e.P` if and only if the lambda test on `Arguments[0]` gives P |
| Analyzer.CalleePaths | PropertyExpression/PropertyExpression/DiagnosticAnalyzer.cs:33-40 | in an invocation whose callee is a member access, the callee, receiver, name and argument list sit at paths [0], [0, 0], [0, 2] and [1] |
| Analyzer.FlaggedCallee | PropertyExpression/PropertyExpression/DiagnosticAnalyzer.cs:33-38 | a flagged node is an invocation whose callee is a member access on the identifier `PropertyUtil` |
| Analyzer.RenamedVerdict | PropertyExpression/PropertyExpression/DiagnosticAnalyzer.cs:50-55 | the type argument test gives the same verdict after the method name's identifier is replaced |
| Analyzer.RenamedArguments | PropertyExpression/PropertyExpression/DiagnosticAnalyzer.cs:40-55 | the argument test gives the same verdict after the method name's identifier is replaced |
| Analyzer.MethodNameIrrelevant | PropertyExpression/PropertyExpression/DiagnosticAnalyzer.cs:22 | `UtilMethodName` is never read: renaming the method of any call keeps the tree well-formed and leaves the verdict unchanged |
| Analyzer.ReceiverLocation | PropertyExpression/PropertyExpression/DiagnosticAnalyzer.cs:57 | a member access on an identifier starts after that identifier's leading trivia, and the source text there is the identifier's token |
| Analyzer.ReportLocation | PropertyExpression/PropertyExpression/DiagnosticAnalyzer.cs:57 | `memberAccess.GetLocation()`: a reported diagnostic starts at the receiver token `PropertyUtil` of the flagged call, after that token's leading trivia, and the source text there is that token; it ends where the callee's text ends before its trailing trivia, right before the argument list |
| Analyzer.ReportEnd | PropertyExpression/PropertyExpression/DiagnosticAnalyzer.cs:57 | a reported diagnostic ends where the callee's text ends before its trailing trivia, which is where the argument list begins minus that trivia |
| Analyzer.LocationOf | PropertyExpression/PropertyExpression/DiagnosticAnalyzer.cs:57 | no contract of its own; `GetLocation()` is stated by `Analyzer.ReceiverLocation`, `Analyzer.ReportLocation` and `Analyzer.ReportEnd` |
| Analyzer.LambdaOutline | PropertyExpression/PropertyExpression/DiagnosticAnalyzer.cs:41-49 | the lambda test reads the same property name on two arguments that agree on everything it reads |
| Analyzer.BodyOutline | PropertyExpression/PropertyExpression/DiagnosticAnalyzer.cs:45 | two agreeing simple lambdas have agreeing bodies |
| Analyzer.MemberNameOutline | PropertyExpression/PropertyExpression/DiagnosticAnalyzer.cs:45-49 | two agreeing member accesses access the same name token |
| Analyzer.TypeArgumentOutline | PropertyExpression/PropertyExpression/DiagnosticAnalyzer.cs:50-55 | the type argument test gives the same verdict on agreeing names |
| Analyzer.ArgumentsOutline | PropertyExpression/PropertyExpression/DiagnosticAnalyzer.cs:40-55 | the argument test gives the same verdict on agreeing argument lists and names |
| Analyzer.InspectOutline | PropertyExpression/PropertyExpression/DiagnosticAnalyzer.cs:33-55 | the test gives the same verdict on two nodes that agree on everything it reads; it never looks inside a nested invocation |
| Analyzer.ReplaceOutline | PropertyExpression/PropertyExpression/CodeFixProvider.cs:83 | replacing an invocation strictly below a node with another invocation leaves the node agreeing with what it was |
| CodeFix.LocateInvocation | PropertyExpression/PropertyExpression/CodeFixProvider.cs:33-41 | a located path is the innermost invocation among the ancestors-or-self of the parent of the token at the first diagnostic's start (nearer ancestors are not invocations, by `Tree.Innermost`); it throws InvalidOperation exactly when there is no diagnostic or no invocation encloses the token, and ArgumentOutOfRange exactly when the first diagnostic starts at or past the end of the text |
| CodeFix.ExtractOperands | PropertyExpression/PropertyExpression/CodeFixProvider.cs:53-61 | the unchecked casts and `Arguments[0]` accesses of the fix throw only NullReference or ArgumentOutOfRange |
| CodeFix.IdentifierFacts | PropertyExpression/PropertyExpression/CodeFixProvider.cs:71 | a parsed identifier is well-formed, holds no invocation, and is written as its name |
| CodeFix.OperandFacts | PropertyExpression/PropertyExpression/CodeFixProvider.cs:71-77 | the operand of `nameof` is a well-formed expression with no invocation, written `P` or `T.P` |
| CodeFix.NameOfExpressionWellFormed | PropertyExpression/PropertyExpression/CodeFixProvider.cs:71-77 | `nameof(operand)` is a well-formed invocation with no invocation below it |
| CodeFix.NameOfExpressionTrivia | PropertyExpression/PropertyExpression/CodeFixProvider.cs:72-73 | `nameof(...)` carries exactly the leading and trailing trivia it is given |
| CodeFix.NameOfExpressionText | PropertyExpression/PropertyExpression/CodeFixProvider.cs:71-79 | `nameof(operand)` is written as the leading trivia, `nameof(`, the operand's text, `)` and the trailing trivia |
| CodeFix.NameOfExpression | PropertyExpression/PropertyExpression/CodeFixProvider.cs:71-79 | no contract of its own; stated by `CodeFix.NameOfExpressionWellFormed`, `CodeFix.NameOfExpressionTrivia` and `CodeFix.NameOfExpressionText` |
| CodeFix.Replacement | PropertyExpression/PropertyExpression/CodeFixProvider.cs:68-80 | no contract of its own; stated by `CodeFix.ReplacementFacts` |
| CodeFix.ReplacementFacts | PropertyExpression/PropertyExpression/CodeFixProvider.cs:68-80 | the replacement is a well-formed invocation with no invocation below it, with the replaced invocation's leading and trailing trivia and the text `nameof(P)` or `nameof(T.P)` between them |
| CodeFix.ReplaceFacts | PropertyExpression/PropertyExpression/CodeFixProvider.cs:83 | replacing an invocation with a well-formed invocation keeps the tree well-formed, puts the new node at the same path and its text between the old text before and after, and leaves every node off that path unchanged |
| CodeFix.RewriteFacts | PropertyExpression/PropertyExpression/CodeFixProvider.cs:68-84 | the same for the `nameof` replacement, with the new text written out |
| CodeFix.UseNameOfRewrites | PropertyExpression/PropertyExpression/CodeFixProvider.cs:53-84 | the fix succeeds if and only if its casts succeed, a class encloses the invocation and the type argument has a symbol; then the tree stays well-formed, its text is the old text with the invocation written over as `nameof(P)` when that symbol is the one the class declares and as `nameof(T.P)` otherwise, and the nodes beside the invocation are unchanged |
| CodeFix.UseNameOf | PropertyExpression/PropertyExpression/CodeFixProvider.cs:51-85 | no contract of its own; stated by `CodeFix.UseNameOfRewrites` |
| CodeFix.Fix | PropertyExpression/PropertyExpression/CodeFixProvider.cs:29-85 | no contract of its own; stated by `CodeFix.LocateInvocation` and `CodeFix.UseNameOfRewrites`, and for a reported diagnostic by `Pipeline.FixOfReport` |
| Pipeline.OperandsAgree | PropertyExpression/PropertyExpression/CodeFixProvider.cs:53-61 | on a `PropertyUtil` call, the fix's casts all succeed if and only if the analyzer flags the call, and they read the same (T, P); the type argument they read is the identifier T |
| Pipeline.FlaggedOperands | PropertyExpression/PropertyExpression/CodeFixProvider.cs:53-61 | on a flagged call, the fix reads the flagged (T, P) without a fault |
| Pipeline.InnermostAboveReceiver | PropertyExpression/PropertyExpression/CodeFixProvider.cs:38-41 | the first invocation among a receiver's ancestors is the call whose callee holds it |
| Pipeline.TokenAtIdentifier | PropertyExpression/PropertyExpression/CodeFixProvider.cs:38 | `FindToken` at the start of an identifier's token finds that identifier |
| Pipeline.ReceiverToken | PropertyExpression/PropertyExpression/CodeFixProvider.cs:38 | `FindToken` at the reported start finds the receiver `PropertyUtil` |
| Pipeline.ReportedInnermost | PropertyExpression/PropertyExpression/CodeFixProvider.cs:38-41 | the innermost invocation above the receiver of a flagged call is that call |
| Pipeline.LocateReported | PropertyExpression/PropertyExpression/CodeFixProvider.cs:33-41 | for a diagnostic the analyzer reported, the fix locates exactly the call the analyzer flagged |
| Pipeline.ReplacementIgnored | PropertyExpression/PropertyExpression/CodeFixProvider.cs:68-80 | the `nameof(...)` replacement is never flagged |
| Pipeline.FlaggedAfterReplace | PropertyExpression/PropertyExpression/CodeFixProvider.cs:83 | after an invocation is replaced with an unflagged one holding no invocation, a call is flagged if and only if it was flagged before and is not the replaced call or inside it |
| Pipeline.FixOfReport | PropertyExpression/PropertyExpression/CodeFixProvider.cs:29-84 | the fix for a reported diagnostic reads the reported pair. It throws if and only if no class encloses the call (ArgumentNull) or the type argument has no symbol (NullReference). Otherwise: the tree stays well-formed; the text becomes the old text with the call replaced by `nameof(P)` or `nameof(T.P)`; the new node is not reported; the flagged calls are exactly the old ones outside the rewritten call |
| Tree.Decompose | PropertyExpression/PropertyExpression/DiagnosticAnalyzer.cs:57 | the text of a tree is the text before a node, the node's text, and the text after it |
| Tree.ReplaceText | PropertyExpression/PropertyExpression/CodeFixProvider.cs:83 | `ReplaceNode` puts the new node's text between the old text before and after the replaced node |
| Tree.ReplaceKeepsContext | PropertyExpression/PropertyExpression/CodeFixProvider.cs:83 | after `ReplaceNode` the new node is at the replaced path, with the same text before and after it |
| Tree.ReplaceDisjoint | PropertyExpression/PropertyExpression/CodeFixProvider.cs:83 | `ReplaceNode` leaves the nodes beside the replaced path as they were |
| Tree.ReplaceAncestor | PropertyExpression/PropertyExpression/CodeFixProvider.cs:83 | an ancestor of the replaced node becomes that ancestor with the replacement inside it |
| Tree.ReplaceInside | PropertyExpression/PropertyExpression/CodeFixProvider.cs:83 | the nodes at and below the replaced path are those of the new node |
| Tree.ReplaceWellFormed | PropertyExpression/PropertyExpression/CodeFixProvider.cs:83 | replacing a node with a well-formed node of the same kind keeps the tree well-formed |
| Tree.ReplaceAt | PropertyExpression/PropertyExpression/CodeFixProvider.cs:83 | no contract of its own; `ReplaceNode` is stated by `Tree.ReplaceText`, `Tree.ReplaceKeepsContext`, `Tree.ReplaceDisjoint`, `Tree.ReplaceAncestor`, `Tree.ReplaceInside` and `Tree.ReplaceWellFormed` |
| Tree.LocateAt | PropertyExpression/PropertyExpression/CodeFixProvider.cs:38 | a position inside an element's text is located in that element, at the matching offset |
| Tree.LocateNone | PropertyExpression/PropertyExpression/CodeFixProvider.cs:38 | a position is outside every element if and only if it is past the end of the text |
| Tree.FindTokenValid | PropertyExpression/PropertyExpression/CodeFixProvider.cs:38 | the parent `FindToken` returns is a node of the tree |
| Tree.FindTokenNone | PropertyExpression/PropertyExpression/CodeFixProvider.cs:38 | `FindToken` finds nothing if and only if the position is at or past the end of the text |
| Tree.FindTokenWithin | PropertyExpression/PropertyExpression/CodeFixProvider.cs:38 | `FindToken` at a position inside a node's text finds the token that node's own `FindToken` finds |
| Tree.FindTokenParent | PropertyExpression/PropertyExpression/CodeFixProvider.cs:38 | no contract of its own; `FindToken(...).Parent` is stated by `Tree.FindTokenValid`, `Tree.FindTokenNone`, `Tree.FindTokenWithin` and `Pipeline.TokenAtIdentifier` |
| Tree.AncestorIsNodeAt | PropertyExpression/PropertyExpression/CodeFixProvider.cs:39 | the ancestor at each depth of a path is the node at that prefix |
| Tree.Innermost | PropertyExpression/PropertyExpression/CodeFixProvider.cs:39-41 | `AncestorsAndSelf().OfType<K>().First()`: the result has kind K and nothing between it and the start has kind K; with no result, no ancestor has kind K |
| Tree.NoneOfKindAt | PropertyExpression/PropertyExpression/CodeFixProvider.cs:77-83 | a node without nodes of kind K has none at any path |
| Syntax.FirstChildIndex | PropertyExpression/PropertyExpression/DiagnosticAnalyzer.cs:40 | `Arguments[0]`: the index found holds a child node and no node comes before it |
| Syntax.ValueText | PropertyExpression/PropertyExpression/DiagnosticAnalyzer.cs:37 | `Identifier.ValueText` is the token's text, or that text without a leading `@`; `Scenarios.VerbatimFlagged` shows `@Person` read as `Person` |
| Scenarios.UtilCallInspect | PropertyExpression/PropertyExpression/DiagnosticAnalyzer.cs:37-40 | any `PropertyUtil.GetName...(...)` call is tested on its arguments and its method name |
| Scenarios.LambdaArgument | PropertyExpression/PropertyExpression/DiagnosticAnalyzer.cs:41-49 | with the argument `x => e.P`, the method name is tested with P |
| Scenarios.GenericOver | PropertyExpression/PropertyExpression/DiagnosticAnalyzer.cs:50-55 | `GetName<t>` flags (T, P) when t is the identifier T, and ignores any other type argument |
| Scenarios.UtilCallVerdict | PropertyExpression/PropertyExpression/DiagnosticAnalyzer.cs:37-55 | `PropertyUtil.GetName<t>(x => e.P)` is flagged with (T, P) when t is the identifier T, and ignored otherwise |
| Scenarios.PersonNameFlagged | PropertyExpression/PropertyExpression.Test/UnitTests.cs:39-52 | `PropertyUtil.GetName<Person>(x => x.Name)` is flagged with (Person, Name) |
| Scenarios.UserPersonIdFlagged | PropertyExpression/PropertyExpression.Test/UnitTests.cs:338 | `PropertyUtil.GetName<User>(x => x.Person.Id)` is flagged with (User, Id): only the last name of the path is kept |
| Scenarios.VerbatimFlagged | PropertyExpression/PropertyExpression/DiagnosticAnalyzer.cs:49-55 | names are read by their value: `@Person` and `@Name` give (Person, Name) |
| Scenarios.PredefinedTypeIgnored | PropertyExpression/PropertyExpression/DiagnosticAnalyzer.cs:52-53 | the type argument `int` is not an identifier name, so the call is not reported |
| Scenarios.NotGenericThrows | PropertyExpression/PropertyExpression/DiagnosticAnalyzer.cs:50-52 | `PropertyUtil.GetName(x => x.Name)` makes the analyzer throw NullReference |
| Scenarios.NoArgumentThrows | PropertyExpression/PropertyExpression/DiagnosticAnalyzer.cs:40 | `PropertyUtil.GetName<Person>()` makes the analyzer throw ArgumentOutOfRange |
| Scenarios.NotLambdaIgnored | PropertyExpression/PropertyExpression/DiagnosticAnalyzer.cs:41-43 | an argument that is not a lambda is not reported |
| Scenarios.LabelledLambda | PropertyExpression/PropertyExpression/DiagnosticAnalyzer.cs:40-49 | a name before the argument (`name:`) and modifiers before the lambda's parameter (`static`, `async`) are not read: the lambda test of `x => e.P` still gives P |
| Scenarios.CallWithInspect | PropertyExpression/PropertyExpression/DiagnosticAnalyzer.cs:37-55 | a `PropertyUtil` call with one argument is ignored when the argument is not `x => e.P`, and otherwise tested on its method name with P |
| Scenarios.StaticLambdaFlagged | PropertyExpression/PropertyExpression/DiagnosticAnalyzer.cs:41-57 | `PropertyUtil.GetName<Person>(static x => x.Name)` is flagged with (Person, Name) |
| Scenarios.NamedArgumentFlagged | PropertyExpression/PropertyExpression/DiagnosticAnalyzer.cs:40-57 | `PropertyUtil.GetName<Person>(selector: x => x.Name)` is flagged with (Person, Name) |
| Scenarios.CalleeLocation | PropertyExpression/PropertyExpression/DiagnosticAnalyzer.cs:57 | in a class, the callee `PropertyUtil.GetName<T>` spans from the end of the text before it for the length of `PropertyUtil.GetName<T>` |
| Scenarios.ProgramReported | PropertyExpression/PropertyExpression/DiagnosticAnalyzer.cs:57 | `PropertyUtil.GetName<T>(x => x.P)` in a class is reported at its callee with (T, P) |
| Scenarios.ProgramFix | PropertyExpression/PropertyExpression/CodeFixProvider.cs:63-69 | for the reported diagnostic, the fix of a call in a class, whose type argument has a symbol, reads the reported pair, succeeds, and writes the replacement `nameof(...)` in place of the call |
| Scenarios.CallReplacementText | PropertyExpression/PropertyExpression/CodeFixProvider.cs:71-79 | without trivia around the call, the replacement is written `nameof(P)` or `nameof(T.P)` |
| Scenarios.ProgramFixed | PropertyExpression/PropertyExpression/CodeFixProvider.cs:63-84 | in a class, the call is replaced with `nameof(T.P)` when the type argument's symbol is not the class's, and with `nameof(P)` when it is; the rest of the text is kept |
| Scenarios.FirstUnitTest | PropertyExpression/PropertyExpression.Test/UnitTests.cs:23-86 | on the test's program abridged to `class Testclass { var value = PropertyUtil.GetName<Person>(x => x.Name); }`, the call is reported at characters 30 to 58 with Person and Name, and fixed to `nameof(Person.Name)` |
| Scenarios.LastUnitTest | PropertyExpression/PropertyExpression.Test/UnitTests.cs:387-436 | on the test's program abridged to `class Person { var value = PropertyUtil.GetName<Person>(x => x.Name); }`, the call is reported with Person and Name and fixed to `nameof(Name)` |

## Left out

- Roslyn hosting is left out: registering the action, `SupportedDiagnostics` as an immutable array, the async API and cancellation tokens, and the batch `FixAllProvider`. The model runs the analyzer on one node at a time (`Analyze`) and the fix on one document (`Fix`).
- The localizable title, message format and description come from resource files that are not part of this model. The descriptor keeps its id, category, severity and enabled flag.
- `SyntaxFactory.ParseExpression` is not modelled as a parser. The model builds the tree it returns for `nameof(P)` and `nameof(T.P)` directly. It does not capture what the parser does with a property name that is a keyword, or one that still needs its `@`.
- ValueText strips the `@` of verbatim identifiers. It does not decode Unicode escapes.
- Syntax the analyzer never casts to is kept as nodes of an "other" kind, with no shape of its own, such as a parenthesized lambda `(x) => x.P`, which the analyzer ignores. The parts of an argument before its expression (a `name:` node, a `ref`/`out`/`in` token) and the parts of a simple lambda before its parameter (attribute lists, `static`, `async`) are kept as elements the test never reads; their own shape is not modelled.
- The `declaration` lookup on line 36 of CodeFixProvider.cs is left out because its result is never used. It throws InvalidOperation when no type declaration encloses the token, before the fix is registered.
- The semantic model is a parameter. The model does not describe how symbols are bound.
- `FindToken` at the very end of the text returns the end-of-file token in Roslyn. Here it finds nothing, and `LocateInvocation` returns ArgumentOutOfRange. Zero-width tokens (missing tokens of broken code) are not found either.
- Several unit tests expect output the code does not produce; the model follows the code. The expected outputs are:
  - a qualifier that is namespace- and collision-aware, such as `nameof(Samples.User.Forename)` or `nameof(MyOtherNamespace.Samples.Test.User.Forename)` (UnitTests.cs:90-302);
  - the whole property path in `nameof(MyOtherNamespace.Samples.Test.User.Person.Id)` (UnitTests.cs:306-383).

  The code writes `nameof(T.P)` with P the last name of the lambda's body. `Scenarios.UserPersonIdFlagged` shows that case.
- The empty-document test (UnitTests.cs:15-20) is not stated as a lemma. An empty document has no invocation, and `Inspect` ignores every node that is not one.
- Line and column positions are not modelled: diagnostic locations are offsets into the text.
