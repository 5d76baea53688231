/**
 * `PropertyExpressionAnalyzer`: the diagnostic it declares and
 * `AnalyzeInvocation`, the test it runs on every invocation expression of a
 * syntax tree.  The test is a chain of casts and null checks: it looks for
 * `PropertyUtil.M<T>(x => e.P)` and reports `T` and `P`; three of its
 * accesses are not guarded and throw on some inputs, which the model returns
 * as faults.
 */
module Analyzer {
  import opened Wrappers
  import opened Syntax
  import opened Tree

  const DiagnosticId: string := "PropertyExpression"
  const Category: string := "Naming"
  const UtilTypeName: string := "PropertyUtil"
  /** Declared, but never read by the test: the method name is not checked. */
  const UtilMethodName: string := "GetName"

  datatype Severity = Hidden | Info | Warning | Error

  /** `DiagnosticDescriptor`, without its localizable title, message format and description. */
  datatype Descriptor = Descriptor(id: string, category: string, defaultSeverity: Severity, isEnabledByDefault: bool)

  const Rule: Descriptor := Descriptor(DiagnosticId, Category, Warning, true)

  const SupportedDiagnostics: seq<Descriptor> := [Rule]

  /** A text span of the source file: `[start, end)`. */
  datatype Span = Span(start: nat, end: nat)

  /** A reported diagnostic: its descriptor, its location and its message arguments. */
  datatype Diagnostic = Diagnostic(descriptor: Descriptor, location: Span, arguments: seq<string>)

  /** The .NET exceptions the analyzer and the code fix can throw. */
  datatype Fault = NullReference | ArgumentOutOfRange | ArgumentNull | InvalidOperation

  /** What the test decides about one node. */
  datatype Verdict = Ignore | Fail(fault: Fault) | Flag(typeName: string, propertyName: string)

  /** What `AnalyzeInvocation` does: report nothing, report one diagnostic, or throw. */
  datatype Analysis = NoDiagnostic | Report(diagnostic: Diagnostic) | Crash(fault: Fault)

  /** `(e as IdentifierNameSyntax)?.Identifier.ValueText == UtilTypeName` */
  predicate IsUtilTypeName(e: Node)
    requires Shape(e)
  {
    e.kind == IdentifierName && ValueText(IdentifierOf(e)) == UtilTypeName
  }

  /**
   * For the argument `x => e.P`, a simple lambda whose body is a member
   * access, the value of the name P; nothing for any other argument.
   */
  function LambdaPropertyName(argument: Node): Option<string>
    requires WellFormed(argument) && argument.kind == Argument
  {
    ChildWellFormed(argument, |argument.elems| - 1);
    var lambda := ArgumentExpressionOf(argument);
    if lambda.kind != SimpleLambdaExpression then None
    else
      ChildWellFormed(lambda, |lambda.elems| - 1);
      var body := BodyOf(lambda);
      if !IsMemberAccess(body.kind) then None
      else
        ChildWellFormed(body, 2);
        Some(ValueText(IdentifierOf(NameOf(body))))
  }

  /**
   * The test `AnalyzeInvocation` runs on the node n, in the order of the source:
   * the casts and the two unguarded element accesses.
   */
  function Inspect(n: Node): (r: Verdict)
    requires WellFormed(n)
    ensures n.kind != InvocationExpression ==> r == Ignore
    ensures r.Fail? ==> r.fault == ArgumentOutOfRange || r.fault == NullReference
  {
    if n.kind != InvocationExpression then Ignore
    else
      ChildWellFormed(n, 0);
      var memberAccess := ExpressionOf(n);
      if !IsMemberAccess(memberAccess.kind) then Ignore
      else
        ChildWellFormed(memberAccess, 0);
        if !IsUtilTypeName(ExpressionOf(memberAccess)) then Ignore
        else
          ChildWellFormed(n, 1);
          ChildWellFormed(memberAccess, 2);
          ArgumentsVerdict(ArgumentListOf(n), NameOf(memberAccess))
  }

  /**
   * The test once the call is known to be `PropertyUtil.M...(...)`: the first
   * argument, read without a check, must be a lambda `x => e.P`; then the
   * method's name is tested.
   */
  function ArgumentsVerdict(arguments: Node, name: Node): (r: Verdict)
    requires WellFormed(arguments) && arguments.kind == ArgumentList && WellFormed(name)
    ensures r.Fail? ==> r.fault == ArgumentOutOfRange || r.fault == NullReference
  {
    match FirstChildIndex(arguments.elems)
    case None => Fail(ArgumentOutOfRange)
    case Some(i) =>
      ChildWellFormed(arguments, i);
      match LambdaPropertyName(Child(arguments, i))
      case None => Ignore
      case Some(propertyName) => TypeArgumentVerdict(name, propertyName)
  }

  /**
   * The last part of the test, on the name of the called method once the
   * lambda has given the property name: the name must be generic (the cast
   * is not checked) and have a first type argument (not checked either).
   */
  function TypeArgumentVerdict(name: Node, propertyName: string): (r: Verdict)
    requires WellFormed(name)
    ensures r.Fail? ==> r.fault == ArgumentOutOfRange || r.fault == NullReference
  {
    if name.kind != GenericName then Fail(NullReference)
    else
      ChildWellFormed(name, 1);
      var typeArguments := TypeArgumentListOf(name);
      match FirstChildIndex(typeArguments.elems)
      case None => Fail(ArgumentOutOfRange)
      case Some(t) =>
        ChildWellFormed(typeArguments, t);
        var typeArgument := Child(typeArguments, t);
        if typeArgument.kind != IdentifierName then Ignore
        else Flag(ValueText(IdentifierOf(typeArgument)), propertyName)
  }

  /** `node.GetLocation().SourceSpan` for the node at q: its span without leading and trailing trivia. */
  function LocationOf(root: Node, q: Path): Span
    requires ValidPath(root, q)
  {
    var node := NodeAt(root, q);
    TrailingTriviaBound(node);
    Span(|Before(root, q)| + |LeadingTrivia(node)|, |Before(root, q)| + |Text(node)| - |TrailingTrivia(node)|)
  }

  /** `AnalyzeInvocation` on the node at p of the tree root. */
  function Analyze(root: Node, p: Path): (r: Analysis)
    requires WellFormed(root) && ValidPath(root, p)
    ensures r.Report? <==> Inspect(NodeAt(root, p)).Flag?
    ensures r.Crash? <==> Inspect(NodeAt(root, p)).Fail?
    ensures r.Crash? ==> Inspect(NodeAt(root, p)) == Fail(r.fault)
    ensures r.Report? ==> r.diagnostic.descriptor == Rule
    ensures r.Report? ==>
      r.diagnostic.arguments == [Inspect(NodeAt(root, p)).typeName, Inspect(NodeAt(root, p)).propertyName]
  {
    match Inspect(NodeAt(root, p))
    case Ignore => NoDiagnostic
    case Fail(f) => Crash(f)
    case Flag(typeName, propertyName) =>
      PathConcat(root, p, [0]);
      Report(Diagnostic(Rule, LocationOf(root, p + [0]), [typeName, propertyName]))
  }

  /** Whether the analyzer reports a diagnostic on the node at q, an invocation expression. */
  predicate Flagged(root: Node, q: Path)
    requires WellFormed(root)
  {
    if ValidPath(root, q) && NodeAt(root, q).kind == InvocationExpression then
      Inspect(NodeAt(root, q)).Flag?
    else false
  }

  // ------------------------------------------------------------ the reported shape

  /** The node at p exists and has kind k. */
  predicate KindAt(n: Node, p: Path, k: Kind) {
    ValidPath(n, p) && NodeAt(n, p).kind == k
  }

  /** The node at p exists and is a member access. */
  predicate MemberAccessAt(n: Node, p: Path) {
    ValidPath(n, p) && IsMemberAccess(NodeAt(n, p).kind)
  }

  /** The node at p exists and starts with a token whose value is v. */
  predicate ValueAt(n: Node, p: Path, v: string) {
    ValidPath(n, p) && |NodeAt(n, p).elems| > 0 && NodeAt(n, p).elems[0].Tok? &&
    ValueText(NodeAt(n, p).elems[0].token) == v
  }

  /**
   * The argument a is `x => e.P`: its expression, the last element, is a
   * simple lambda whose body, its last element, is a member access named P.
   */
  predicate IsLambdaOver(a: Node, P: string) {
    |a.elems| > 0 &&
    var e := |a.elems| - 1;
    KindAt(a, [e], SimpleLambdaExpression) && |NodeAt(a, [e]).elems| > 0 &&
    var b := |NodeAt(a, [e]).elems| - 1;
    MemberAccessAt(a, [e, b]) && ValueAt(a, [e, b, 2], P)
  }

  /** The name at hand is `M<T, ...>`, T an identifier: `[1]` is its type argument list. */
  ghost predicate IsGenericOver(name: Node, T: string) {
    && name.kind == GenericName && ValidPath(name, [1])
    && exists t :: IsFirstIn(NodeAt(name, [1]).elems, t) &&
         KindAt(name, [1, t], IdentifierName) && ValueAt(name, [1, t], T)
  }

  /** The first argument of the argument list at hand is `x => e.P`. */
  ghost predicate HasLambdaArgument(arguments: Node, P: string) {
    exists i :: IsFirstIn(arguments.elems, i) && ValidPath(arguments, [i]) && IsLambdaOver(NodeAt(arguments, [i]), P)
  }

  /**
   * `PropertyUtil.M...(...)`: an invocation whose callee `[0]` is a member
   * access with receiver `[0, 0]` the identifier `PropertyUtil`, name `[0, 2]`
   * and arguments `[1]`.
   */
  ghost predicate IsUtilCall(n: Node) {
    && n.kind == InvocationExpression
    && MemberAccessAt(n, [0])
    && KindAt(n, [0, 0], IdentifierName) && ValueAt(n, [0, 0], UtilTypeName)
    && ValidPath(n, [0, 2]) && ValidPath(n, [1])
  }

  /** `PropertyUtil.M<T, ...>(x => e.P, ...)` with T an identifier. */
  ghost predicate IsPropertyExpression(n: Node, T: string, P: string) {
    IsUtilCall(n) && IsGenericOver(NodeAt(n, [0, 2]), T) && HasLambdaArgument(NodeAt(n, [1]), P)
  }

  /** The element list holds tokens only: an empty argument or type argument list. */
  predicate HasNoNode(es: seq<Elem>) {
    forall i :: 0 <= i < |es| ==> es[i].Tok?
  }

  /** The name at hand is generic with no type argument. */
  ghost predicate HasNoTypeArgument(name: Node) {
    name.kind == GenericName && ValidPath(name, [1]) && HasNoNode(NodeAt(name, [1]).elems)
  }

  /** The lambda test, read off the positions below the argument. */
  lemma LambdaAt(argument: Node, P: string)
    requires WellFormed(argument) && argument.kind == Argument
    ensures IsLambdaOver(argument, P) <==> LambdaPropertyName(argument) == Some(P)
  {
    var e := |argument.elems| - 1;
    var lambda := Child(argument, e);
    assert NodeAt(argument, [e]) == lambda;
    ChildWellFormed(argument, e);
    if lambda.kind == SimpleLambdaExpression {
      var b := |lambda.elems| - 1;
      assert IsChild(lambda, b) && BodyOf(lambda) == Child(lambda, b);
      NodeAtChild(argument, [e], b);
      assert [e] + [b] == [e, b];
      var body := Child(lambda, b);
      if IsMemberAccess(body.kind) {
        NodeAtChild(argument, [e, b], 2);
        assert [e, b] + [2] == [e, b, 2];
      }
    }
  }

  /** The type argument test, read off the positions below the name. */
  lemma TypeArgumentAt(name: Node, T: string, P: string)
    requires WellFormed(name)
    ensures TypeArgumentVerdict(name, P) == Flag(T, P) <==> IsGenericOver(name, T)
  {
    if name.kind == GenericName {
      var tal := Child(name, 1);
      assert NodeAt(name, [1]) == tal;
      forall t | IsFirstIn(tal.elems, t)
        ensures FirstChildIndex(tal.elems) == Some(t)
        ensures ValidPath(name, [1, t]) && NodeAt(name, [1, t]) == Child(tal, t)
      {
        FirstChildIndexIsFirst(tal.elems, t);
        NodeAtChild(name, [1], t);
        assert [1] + [t] == [1, t];
      }
      if TypeArgumentVerdict(name, P) == Flag(T, P) {
        FirstChildIndexIsFirst(tal.elems, FirstChildIndex(tal.elems).value);
      }
    }
  }

  /** The argument test, read off the positions below the argument list. */
  lemma LambdaArgumentAt(arguments: Node, P: string)
    requires WellFormed(arguments) && arguments.kind == ArgumentList
    ensures HasLambdaArgument(arguments, P) <==>
      match FirstChildIndex(arguments.elems)
      case None => false
      case Some(i) => LambdaPropertyName(Child(arguments, i)) == Some(P)
  {
    forall i | IsFirstIn(arguments.elems, i)
      ensures FirstChildIndex(arguments.elems) == Some(i)
      ensures ValidPath(arguments, [i]) && NodeAt(arguments, [i]) == Child(arguments, i)
      ensures IsLambdaOver(Child(arguments, i), P) <==> LambdaPropertyName(Child(arguments, i)) == Some(P)
    {
      FirstChildIndexIsFirst(arguments.elems, i);
      LambdaAt(Child(arguments, i), P);
    }
    if FirstChildIndex(arguments.elems).Some? {
      FirstChildIndexIsFirst(arguments.elems, FirstChildIndex(arguments.elems).value);
    }
  }

  /** The faults of the type argument test. */
  lemma TypeArgumentFaults(name: Node, P: string)
    requires WellFormed(name)
    ensures TypeArgumentVerdict(name, P) == Fail(NullReference) <==> name.kind != GenericName
    ensures TypeArgumentVerdict(name, P) == Fail(ArgumentOutOfRange) <==> HasNoTypeArgument(name)
  {
    if name.kind == GenericName {
      assert NodeAt(name, [1]) == Child(name, 1);
      if FirstChildIndex(Child(name, 1).elems).Some? {
        var t := FirstChildIndex(Child(name, 1).elems).value;
        assert !HasNoNode(Child(name, 1).elems) by { assert Child(name, 1).elems[t].Sub?; }
      }
    }
  }

  /** The positions of the parts of an invocation whose callee is a member access. */
  lemma CalleePaths(n: Node)
    requires WellFormed(n) && n.kind == InvocationExpression && IsMemberAccess(Child(n, 0).kind)
    ensures ValidPath(n, [0]) && NodeAt(n, [0]) == Child(n, 0)
    ensures ValidPath(n, [0, 0]) && NodeAt(n, [0, 0]) == Child(Child(n, 0), 0)
    ensures ValidPath(n, [0, 2]) && NodeAt(n, [0, 2]) == Child(Child(n, 0), 2)
    ensures ValidPath(n, [1]) && NodeAt(n, [1]) == Child(n, 1)
  {
    NodeAtChild(n, [], 0);
    NodeAtChild(n, [], 1);
    NodeAtChild(n, [0], 0);
    NodeAtChild(n, [0], 2);
    assert [0] + [0] == [0, 0] && [0] + [2] == [0, 2];
  }

  /** The test after the receiver check flags (T, P) on exactly a lambda argument over P and a name generic over T. */
  lemma ArgumentsFlagged(arguments: Node, name: Node, T: string, P: string)
    requires WellFormed(arguments) && arguments.kind == ArgumentList && WellFormed(name)
    ensures ArgumentsVerdict(arguments, name) == Flag(T, P) <==> HasLambdaArgument(arguments, P) && IsGenericOver(name, T)
  {
    LambdaArgumentAt(arguments, P);
    TypeArgumentAt(name, T, P);
    match FirstChildIndex(arguments.elems)
    case None =>
    case Some(i) =>
      match LambdaPropertyName(Child(arguments, i))
      case None =>
      case Some(Q) =>
        if Q != P {
          assert TypeArgumentVerdict(name, Q).Flag? ==> TypeArgumentVerdict(name, Q).propertyName == Q;
        }
  }

  /** On a call whose callee is a member access, the test is the receiver check, then the argument test. */
  lemma InspectCall(n: Node)
    requires WellFormed(n) && n.kind == InvocationExpression && IsMemberAccess(Child(n, 0).kind)
    ensures WellFormed(Child(n, 0)) && WellFormed(Child(n, 1)) && Child(n, 1).kind == ArgumentList
    ensures WellFormed(Child(Child(n, 0), 0)) && WellFormed(Child(Child(n, 0), 2))
    ensures Inspect(n) ==
      if IsUtilTypeName(Child(Child(n, 0), 0)) then ArgumentsVerdict(Child(n, 1), Child(Child(n, 0), 2)) else Ignore
  {
    ChildWellFormed(n, 0);
    ChildWellFormed(n, 1);
    ChildWellFormed(Child(n, 0), 0);
    ChildWellFormed(Child(n, 0), 2);
  }

  /** The analyzer reports (T, P) on exactly the calls of the form `PropertyUtil.M<T>(x => e.P)`. */
  lemma InspectFlagged(n: Node, T: string, P: string)
    requires WellFormed(n)
    ensures Inspect(n) == Flag(T, P) <==> IsPropertyExpression(n, T, P)
  {
    if n.kind == InvocationExpression && IsMemberAccess(Child(n, 0).kind) {
      CalleePaths(n);
      var callee := Child(n, 0);
      InspectCall(n);
      ArgumentsFlagged(Child(n, 1), Child(callee, 2), T, P);
      assert IsUtilCall(n) <==> IsUtilTypeName(Child(callee, 0));
    }
  }

  /**
   * The analyzer throws `ArgumentOutOfRangeException` on a `PropertyUtil` call
   * with no argument, and on one whose argument test passes but whose generic
   * name has no type argument; it throws `NullReferenceException` on a
   * `PropertyUtil` call whose argument test passes but whose name is not generic.
   */
  lemma InspectFaults(n: Node)
    requires WellFormed(n)
    ensures Inspect(n) == Fail(ArgumentOutOfRange) <==>
      IsUtilCall(n) &&
      (HasNoNode(NodeAt(n, [1]).elems) ||
       ((exists P :: HasLambdaArgument(NodeAt(n, [1]), P)) && HasNoTypeArgument(NodeAt(n, [0, 2]))))
    ensures Inspect(n) == Fail(NullReference) <==>
      IsUtilCall(n) && (exists P :: HasLambdaArgument(NodeAt(n, [1]), P)) && NodeAt(n, [0, 2]).kind != GenericName
  {
    if n.kind == InvocationExpression && IsMemberAccess(Child(n, 0).kind) {
      CalleePaths(n);
      InspectCall(n);
      ArgumentsFaults(Child(n, 1), Child(Child(n, 0), 2));
      assert IsUtilCall(n) <==> IsUtilTypeName(Child(Child(n, 0), 0));
    }
  }

  /** The faults of the test after the receiver check. */
  lemma ArgumentsFaults(arguments: Node, name: Node)
    requires WellFormed(arguments) && arguments.kind == ArgumentList && WellFormed(name)
    ensures ArgumentsVerdict(arguments, name) == Fail(ArgumentOutOfRange) <==>
      HasNoNode(arguments.elems) || ((exists P :: HasLambdaArgument(arguments, P)) && HasNoTypeArgument(name))
    ensures ArgumentsVerdict(arguments, name) == Fail(NullReference) <==>
      (exists P :: HasLambdaArgument(arguments, P)) && name.kind != GenericName
  {
    match FirstChildIndex(arguments.elems)
    case None =>
      forall P ensures !HasLambdaArgument(arguments, P) {
        LambdaArgumentAt(arguments, P);
      }
    case Some(i) =>
      assert !HasNoNode(arguments.elems) by { assert arguments.elems[i].Sub?; }
      forall P ensures HasLambdaArgument(arguments, P) <==> LambdaPropertyName(Child(arguments, i)) == Some(P) {
        LambdaArgumentAt(arguments, P);
      }
      match LambdaPropertyName(Child(arguments, i))
      case None =>
      case Some(P) =>
        TypeArgumentFaults(name, P);
  }

  // ------------------------------------------------------------ the method name

  /** The name with its identifier token replaced: `N<...>` for `M<...>`. */
  function Renamed(name: Node, id: Token): (r: Node)
    requires WellFormed(name) && IsSimpleName(name.kind)
    ensures WellFormed(r) && r.kind == name.kind && IdentifierOf(r) == id
  {
    var r := Node(name.kind, name.elems[0 := Tok(id)]);
    ShapeSkeleton(name, r);
    assert forall i :: 0 <= i < |r.elems| && r.elems[i].Sub? ==> r.elems[i] == name.elems[i];
    r
  }

  /** The type argument test does not read the name's identifier. */
  lemma RenamedVerdict(name: Node, id: Token, P: string)
    requires WellFormed(name) && IsSimpleName(name.kind)
    ensures TypeArgumentVerdict(Renamed(name, id), P) == TypeArgumentVerdict(name, P)
  {
    var m := Renamed(name, id);
    if name.kind == GenericName {
      assert m.elems[1] == name.elems[1];
    }
  }

  /** The argument test does not read the name's identifier either. */
  lemma RenamedArguments(args: Node, name: Node, id: Token)
    requires WellFormed(args) && args.kind == ArgumentList && WellFormed(name) && IsSimpleName(name.kind)
    ensures ArgumentsVerdict(args, Renamed(name, id)) == ArgumentsVerdict(args, name)
  {
    match FirstChildIndex(args.elems)
    case None =>
    case Some(i) =>
      match LambdaPropertyName(Child(args, i))
      case None =>
      case Some(P) => RenamedVerdict(name, id, P);
  }

  /**
   * The name of the called method is never read: renaming the method of a
   * call whose callee is a member access changes nothing the analyzer decides.
   */
  lemma MethodNameIrrelevant(n: Node, id: Token)
    requires WellFormed(n) && n.kind == InvocationExpression && MemberAccessAt(n, [0])
    ensures ValidPath(n, [0, 2])
    ensures var renamed := ReplaceAt(n, [0, 2], Renamed(NodeAt(n, [0, 2]), id));
      WellFormed(renamed) && Inspect(renamed) == Inspect(n)
  {
    assert NodeAt(n, [0]) == Child(n, 0);
    CalleePaths(n);
    var ma := Child(n, 0);
    var name := Child(ma, 2);
    ChildWellFormed(n, 0);
    ChildWellFormed(n, 1);
    ChildWellFormed(ma, 0);
    ChildWellFormed(ma, 2);
    var m := Renamed(name, id);
    ReplaceWellFormed(n, [0, 2], m);
    var ma' := WithChild(ma, 2, m);
    var n' := WithChild(n, 0, ma');
    assert [0, 2][1..] == [2] && [2][1..] == [];
    assert ReplaceAt(n, [0, 2], m) == n';
    assert ExpressionOf(n') == ma' && ArgumentListOf(n') == ArgumentListOf(n);
    assert ExpressionOf(ma') == ExpressionOf(ma) && NameOf(ma') == m;
    RenamedArguments(ArgumentListOf(n), name, id);
  }

  // ------------------------------------------------------------ the location

  /** An identifier name is its one token; a member access on it starts with that token's trivia. */
  lemma IdentifierText(ma: Node)
    requires WellFormed(ma) && IsMemberAccess(ma.kind) && Child(ma, 0).kind == IdentifierName
    ensures Shape(Child(ma, 0))
    ensures var id := IdentifierOf(Child(ma, 0));
      Text(Child(ma, 0)) == id.leading + id.text + id.trailing && LeadingTrivia(ma) == id.leading
  {
    var receiver := Child(ma, 0);
    ChildWellFormed(ma, 0);
    var id := IdentifierOf(receiver);
    assert receiver.elems == [Tok(id)];
    assert FirstTokenIn(receiver.elems) == Some(id);
    assert ElemFirstToken(ma.elems[0]) == Some(id);
    assert FirstTokenIn(ma.elems) == Some(id);
    assert ElemsText(receiver.elems[1..]) == "";
    assert ElemsText(receiver.elems) == ElemText(receiver.elems[0]) + ElemsText(receiver.elems[1..]);
    assert ElemText(receiver.elems[0]) == TokenText(id);
  }

  /** The middle part of a concatenation, picked out by its offsets. */
  lemma SliceMiddle(b: string, l: string, t: string, tr: string, a: string)
    ensures |b| + |l| + |t| <= |b + (l + t + tr) + a|
    ensures (b + (l + t + tr) + a)[|b| + |l|..|b| + |l| + |t|] == t
  {
    var s := b + (l + t + tr) + a;
    forall i | 0 <= i < |t| ensures s[|b| + |l| + i] == t[i] {
      assert s[|b| + |l| + i] == (l + t + tr)[|l| + i];
    }
  }

  /** A flagged node is an invocation `PropertyUtil.M...(...)`. */
  lemma FlaggedCallee(n: Node)
    requires WellFormed(n) && Inspect(n).Flag?
    ensures n.kind == InvocationExpression && IsChild(n, 0) && IsMemberAccess(Child(n, 0).kind)
    ensures Shape(Child(n, 0)) && IsChild(Child(n, 0), 0) && Child(Child(n, 0), 0).kind == IdentifierName
    ensures WellFormed(Child(Child(n, 0), 0)) && IsUtilTypeName(Child(Child(n, 0), 0))
  {
  }

  /** A member access whose receiver is an identifier starts at that identifier's token. */
  lemma ReceiverLocation(root: Node, q: Path)
    requires WellFormed(root) && ValidPath(root, q) && IsMemberAccess(NodeAt(root, q).kind)
    requires Child(NodeAt(root, q), 0).kind == IdentifierName
    ensures ValidPath(root, q + [0]) && NodeAt(root, q + [0]) == Child(NodeAt(root, q), 0)
    ensures var id := IdentifierOf(NodeAt(root, q + [0]));
      var start := LocationOf(root, q).start;
      && start == |Before(root, q + [0])| + |id.leading|
      && start + |id.text| <= |Text(root)|
      && Text(root)[start..start + |id.text|] == id.text
  {
    var ma := NodeAt(root, q);
    NodeAtChild(root, q, 0);
    PathConcat(root, q, [0]);
    assert Before(ma, [0]) == "";
    IdentifierText(ma);
    var id := IdentifierOf(Child(ma, 0));
    var b, a := Before(root, q + [0]), After(root, q + [0]);
    Decompose(root, q + [0]);
    assert Text(root) == b + (id.leading + id.text + id.trailing) + a;
    SliceMiddle(b, id.leading, id.text, id.trailing, a);
  }

  /**
   * A reported diagnostic starts at the token `PropertyUtil`, the receiver of
   * the callee: after the receiver's leading trivia, and the source text there
   * is the token's text.
   */
  lemma ReportLocation(root: Node, p: Path, d: Diagnostic)
    requires WellFormed(root) && ValidPath(root, p) && Analyze(root, p) == Report(d)
    ensures ValidPath(root, p + [0, 0]) && KindAt(root, p + [0, 0], IdentifierName)
    ensures var receiver := IdentifierOf(NodeAt(root, p + [0, 0]));
      var start := d.location.start;
      && ValueText(receiver) == UtilTypeName
      && start == |Before(root, p + [0, 0])| + |receiver.leading|
      && start + |receiver.text| <= |Text(root)|
      && Text(root)[start..start + |receiver.text|] == receiver.text
    ensures ValidPath(root, p + [0]) && ValidPath(root, p + [1])
    ensures d.location.end == |Before(root, p + [1])| - |TrailingTrivia(NodeAt(root, p + [0]))|
  {
    var n := NodeAt(root, p);
    FlaggedCallee(n);
    NodeAtChild(root, p, 0);
    ReceiverLocation(root, p + [0]);
    assert p + [0] + [0] == p + [0, 0];
    ReportEnd(root, p, d);
  }

  /**
   * A reported diagnostic ends where the callee's text ends, before its
   * trailing trivia: right before the argument list and that trivia.
   */
  lemma ReportEnd(root: Node, p: Path, d: Diagnostic)
    requires WellFormed(root) && ValidPath(root, p) && Analyze(root, p) == Report(d)
    ensures ValidPath(root, p + [0]) && ValidPath(root, p + [1])
    ensures d.location.end == |Before(root, p + [1])| - |TrailingTrivia(NodeAt(root, p + [0]))|
  {
    var n := NodeAt(root, p);
    FlaggedCallee(n);
    NodeAtChild(root, p, 0);
    NodeAtChild(root, p, 1);
    PathConcat(root, p, [0]);
    PathConcat(root, p, [1]);
    assert d.location == LocationOf(root, p + [0]);
    assert Before(n, [0]) == "";
    assert Before(n, [1]) == ElemsText(n.elems[..1]) + Before(Child(n, 1), []);
    assert n.elems[..1] == [n.elems[0]];
    assert ElemsText(n.elems[..1]) == Text(Child(n, 0)) + ElemsText([]);
  }

  // ------------------------------------------------------------ what the test reads

  /**
   * a and b agree on everything the test can read: the same kind and, unless
   * they are invocations, the same tokens and children that agree in turn.
   * With `inspected` set, a is the node under inspection and its own
   * elements are compared even if it is an invocation.  The test never looks
   * inside an invocation below the one it inspects, so a rewritten call
   * leaves the outcome on the calls around it as it was.
   */
  predicate SameOutline(a: Node, b: Node, inspected: bool)
    decreases a
  {
    && a.kind == b.kind
    && ((inspected || a.kind != InvocationExpression) ==>
          && |a.elems| == |b.elems|
          && forall i :: 0 <= i < |a.elems| ==>
               match a.elems[i]
               case Tok(t) => b.elems[i] == Tok(t)
               case Sub(c) => b.elems[i].Sub? && SameOutline(c, b.elems[i].node, false))
  }

  lemma {:induction false} OutlineRefl(a: Node, inspected: bool)
    ensures SameOutline(a, a, inspected)
    decreases a
  {
    forall i | 0 <= i < |a.elems| && a.elems[i].Sub?
      ensures SameOutline(a.elems[i].node, a.elems[i].node, false)
    {
      OutlineRefl(a.elems[i].node, false);
    }
  }

  /** Agreeing nodes have the same skeleton, and the children of agreeing nodes agree. */
  lemma OutlineChildren(a: Node, b: Node, inspected: bool)
    requires SameOutline(a, b, inspected) && (inspected || a.kind != InvocationExpression)
    ensures SameSkeleton(a.elems, b.elems)
    ensures forall j :: IsChild(a, j) ==> IsChild(b, j) && SameOutline(Child(a, j), Child(b, j), false)
    ensures forall j :: 0 <= j < |a.elems| && a.elems[j].Tok? ==> b.elems[j] == a.elems[j]
  {
    forall i | 0 <= i < |a.elems|
      ensures a.elems[i].Sub? == b.elems[i].Sub?
      ensures a.elems[i].Sub? ==> a.elems[i].node.kind == b.elems[i].node.kind
    {
    }
  }

  /** The lambda test reads the same on agreeing arguments. */
  lemma LambdaOutline(a: Node, b: Node)
    requires WellFormed(a) && WellFormed(b) && a.kind == Argument && SameOutline(a, b, false)
    ensures LambdaPropertyName(a) == LambdaPropertyName(b)
  {
    OutlineChildren(a, b, false);
    var e := |a.elems| - 1;
    ChildWellFormed(a, e);
    ChildWellFormed(b, e);
    var lambdaA, lambdaB := Child(a, e), Child(b, e);
    if lambdaA.kind == SimpleLambdaExpression {
      BodyOutline(lambdaA, lambdaB);
      var bodyA, bodyB := BodyOf(lambdaA), BodyOf(lambdaB);
      if IsMemberAccess(bodyA.kind) {
        MemberNameOutline(bodyA, bodyB);
      }
    }
  }

  /** Agreeing lambdas have agreeing bodies. */
  lemma BodyOutline(a: Node, b: Node)
    requires WellFormed(a) && WellFormed(b) && a.kind == SimpleLambdaExpression && SameOutline(a, b, false)
    ensures b.kind == SimpleLambdaExpression
    ensures WellFormed(BodyOf(a)) && WellFormed(BodyOf(b)) && SameOutline(BodyOf(a), BodyOf(b), false)
  {
    OutlineChildren(a, b, false);
    var k := |a.elems| - 1;
    assert |b.elems| == |a.elems| && IsChild(a, k) && IsChild(b, k);
    ChildWellFormed(a, k);
    ChildWellFormed(b, k);
  }

  /** Agreeing member accesses access the same member name. */
  lemma MemberNameOutline(a: Node, b: Node)
    requires WellFormed(a) && WellFormed(b) && IsMemberAccess(a.kind) && SameOutline(a, b, false)
    ensures IsMemberAccess(b.kind) && Shape(NameOf(a)) && Shape(NameOf(b))
    ensures IdentifierOf(NameOf(a)) == IdentifierOf(NameOf(b))
  {
    OutlineChildren(a, b, false);
    ChildWellFormed(a, 2);
    ChildWellFormed(b, 2);
    OutlineChildren(Child(a, 2), Child(b, 2), false);
  }

  /** The type argument test reads the same on agreeing names. */
  lemma TypeArgumentOutline(a: Node, b: Node, P: string)
    requires WellFormed(a) && WellFormed(b) && SameOutline(a, b, false)
    ensures TypeArgumentVerdict(a, P) == TypeArgumentVerdict(b, P)
  {
    if a.kind == GenericName {
      OutlineChildren(a, b, false);
      ChildWellFormed(a, 1);
      ChildWellFormed(b, 1);
      var talA, talB := Child(a, 1), Child(b, 1);
      OutlineChildren(talA, talB, false);
      FirstChildIndexSkeleton(talA.elems, talB.elems);
      match FirstChildIndex(talA.elems)
      case None =>
      case Some(t) =>
        ChildWellFormed(talA, t);
        ChildWellFormed(talB, t);
        var argA, argB := Child(talA, t), Child(talB, t);
        if argA.kind == IdentifierName {
          OutlineChildren(argA, argB, false);
        }
    }
  }

  /** The argument test reads the same on agreeing argument lists and names. */
  lemma ArgumentsOutline(args: Node, args': Node, name: Node, name': Node)
    requires WellFormed(args) && WellFormed(args') && args.kind == ArgumentList
    requires WellFormed(name) && WellFormed(name')
    requires SameOutline(args, args', false) && SameOutline(name, name', false)
    ensures ArgumentsVerdict(args, name) == ArgumentsVerdict(args', name')
  {
    OutlineChildren(args, args', false);
    FirstChildIndexSkeleton(args.elems, args'.elems);
    match FirstChildIndex(args.elems)
    case None =>
    case Some(i) =>
      ChildWellFormed(args, i);
      ChildWellFormed(args', i);
      LambdaOutline(Child(args, i), Child(args', i));
      match LambdaPropertyName(Child(args, i))
      case None =>
      case Some(P) => TypeArgumentOutline(name, name', P);
  }

  /** The test gives the same verdict on agreeing nodes. */
  lemma InspectOutline(a: Node, b: Node)
    requires WellFormed(a) && WellFormed(b) && SameOutline(a, b, true)
    ensures Inspect(a) == Inspect(b)
  {
    if a.kind == InvocationExpression {
      OutlineChildren(a, b, true);
      ChildWellFormed(a, 0);
      ChildWellFormed(b, 0);
      var maA, maB := Child(a, 0), Child(b, 0);
      if IsMemberAccess(maA.kind) {
        OutlineChildren(maA, maB, false);
        InspectCall(a);
        InspectCall(b);
        if Child(maA, 0).kind == IdentifierName {
          OutlineChildren(Child(maA, 0), Child(maB, 0), false);
        }
        assert IsUtilTypeName(Child(maA, 0)) == IsUtilTypeName(Child(maB, 0));
        ArgumentsOutline(Child(a, 1), Child(b, 1), Child(maA, 2), Child(maB, 2));
      }
    }
  }

  /**
   * Replacing an invocation strictly below a node by another invocation leaves
   * the node agreeing with what it was.
   */
  lemma {:induction false} ReplaceOutline(a: Node, r: Path, m: Node)
    requires ValidPath(a, r) && r != [] && NodeAt(a, r).kind == InvocationExpression
    requires m.kind == InvocationExpression
    ensures SameOutline(a, ReplaceAt(a, r, m), true)
    decreases |r|
  {
    var j := r[0];
    var c := Child(a, j);
    var c' := ReplaceAt(c, r[1..], m);
    var a' := ReplaceAt(a, r, m);
    assert a' == WithChild(a, j, c');
    assert SameOutline(c, c', false) by {
      if r[1..] != [] {
        ReplaceOutline(c, r[1..], m);
      }
    }
    forall i | 0 <= i < |a.elems| && i != j && a.elems[i].Sub?
      ensures SameOutline(a.elems[i].node, a'.elems[i].node, false)
    {
      OutlineRefl(a.elems[i].node, false);
    }
  }
}
