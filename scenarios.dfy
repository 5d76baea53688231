/**
 * Concrete calls like the ones in the analyzer's unit tests, written out as
 * syntax trees, with what the analyzer decides about each and what the
 * code fix writes in place of the flagged one.
 */
module Scenarios {
  import opened Wrappers
  import opened Syntax
  import opened Tree
  import opened Analyzer
  import opened CodeFix
  import Pipeline

  function Punct(s: string): Elem {
    Tok(Token("", s, ""))
  }

  /** `e.N` */
  function Access(e: Node, n: Node): Node {
    Node(SimpleMemberAccessExpression, [Sub(e), Punct("."), Sub(n)])
  }

  /** `x => x.P`, or `x => x.A.P` with a path of properties. */
  function Lambda(body: Node): Node {
    Node(SimpleLambdaExpression, [Sub(Node(Parameter, [Tok(Token("", "x", " "))])), Tok(Token("", "=>", " ")), Sub(body)])
  }

  /** `GetName<T>`, or `GetName` when not generic. */
  function Called(typeArgument: Option<Node>): Node {
    if typeArgument.None? then Identifier(UtilMethodName)
    else Node(GenericName, [Punct(UtilMethodName), Sub(Node(TypeArgumentList, [Punct("<"), Sub(typeArgument.value), Punct(">")]))])
  }

  /** `(a)`, or `()` */
  function Arguments(argument: Option<Node>): Node {
    if argument.None? then Node(ArgumentList, [Punct("("), Punct(")")])
    else Node(ArgumentList, [Punct("("), Sub(Node(Argument, [Sub(argument.value)])), Punct(")")])
  }

  /** `PropertyUtil.GetName<T>(a)` and its variants without type argument or without argument. */
  function UtilCall(typeArgument: Option<Node>, argument: Option<Node>): Node {
    Node(InvocationExpression, [Sub(Access(Identifier(UtilTypeName), Called(typeArgument))), Sub(Arguments(argument))])
  }

  lemma CalledWellFormed(typeArgument: Option<Node>)
    requires typeArgument.Some? ==> WellFormed(typeArgument.value)
    ensures WellFormed(Called(typeArgument)) && IsSimpleName(Called(typeArgument).kind)
  {
    assert WellFormed(Identifier(UtilMethodName));
  }

  lemma ArgumentsWellFormed(argument: Option<Node>)
    requires argument.Some? ==> WellFormed(argument.value)
    ensures WellFormed(Arguments(argument)) && Arguments(argument).kind == ArgumentList
  {
    if argument.Some? {
      assert WellFormed(Node(Argument, [Sub(argument.value)]));
    }
  }

  /** `PropertyUtil.GetName...` is a member access on `PropertyUtil`. */
  lemma CalleeWellFormed(typeArgument: Option<Node>)
    requires typeArgument.Some? ==> WellFormed(typeArgument.value)
    ensures var callee := Access(Identifier(UtilTypeName), Called(typeArgument));
      WellFormed(callee) && IsUtilTypeName(Child(callee, 0)) && NameOf(callee) == Called(typeArgument)
  {
    CalledWellFormed(typeArgument);
    var receiver := Identifier(UtilTypeName);
    assert WellFormed(receiver);
    assert IsUtilTypeName(receiver);
  }

  /** A `PropertyUtil` call is tested on its arguments and its method name. */
  lemma UtilCallInspect(typeArgument: Option<Node>, argument: Option<Node>)
    requires typeArgument.Some? ==> WellFormed(typeArgument.value)
    requires argument.Some? ==> WellFormed(argument.value)
    ensures WellFormed(Called(typeArgument)) && WellFormed(Arguments(argument))
    ensures WellFormed(UtilCall(typeArgument, argument))
    ensures Inspect(UtilCall(typeArgument, argument)) == ArgumentsVerdict(Arguments(argument), Called(typeArgument))
  {
    CalledWellFormed(typeArgument);
    ArgumentsWellFormed(argument);
    CalleeWellFormed(typeArgument);
    var n := UtilCall(typeArgument, argument);
    assert WellFormed(n);
    var callee := Access(Identifier(UtilTypeName), Called(typeArgument));
    assert ExpressionOf(n) == callee && ArgumentListOf(n) == Arguments(argument);
    assert IsUtilTypeName(ExpressionOf(callee));
  }

  lemma LambdaWellFormed(e: Node, P: string)
    requires WellFormed(e)
    ensures WellFormed(Lambda(Access(e, Identifier(P))))
  {
    var body := Access(e, Identifier(P));
    assert WellFormed(Identifier(P));
    assert WellFormed(body);
    assert WellFormed(Node(Parameter, [Tok(Token("", "x", " "))]));
  }

  /** With a lambda `x => e.P` as the argument, the method name is tested with P. */
  lemma LambdaArgument(e: Node, P: string, name: Node)
    requires WellFormed(e) && WellFormed(name)
    ensures WellFormed(Arguments(Some(Lambda(Access(e, Identifier(P))))))
    ensures ArgumentsVerdict(Arguments(Some(Lambda(Access(e, Identifier(P))))), name) == TypeArgumentVerdict(name, ValueText(Token("", P, "")))
  {
    var body := Access(e, Identifier(P));
    LambdaWellFormed(e, P);
    var arguments := Arguments(Some(Lambda(body)));
    assert FirstChildIndex(arguments.elems) == Some(1);
  }

  /** `GetName<T>` flags (T, P) when T is an identifier, and nothing otherwise. */
  lemma GenericOver(t: Node, P: string)
    requires WellFormed(t)
    ensures WellFormed(Called(Some(t)))
    ensures TypeArgumentVerdict(Called(Some(t)), P) ==
      if t.kind == IdentifierName then Flag(ValueText(IdentifierOf(t)), P) else Ignore
  {
    CalledWellFormed(Some(t));
    var typeArguments := Child(Called(Some(t)), 1);
    assert FirstChildIndex(typeArguments.elems) == Some(1);
  }

  /** `PropertyUtil.GetName<t>(x => e.P)`: flagged with (T, P) when t is the identifier T, ignored otherwise. */
  lemma UtilCallVerdict(t: Node, e: Node, P: string)
    requires WellFormed(t) && WellFormed(e)
    ensures WellFormed(UtilCall(Some(t), Some(Lambda(Access(e, Identifier(P))))))
    ensures Inspect(UtilCall(Some(t), Some(Lambda(Access(e, Identifier(P)))))) ==
      if t.kind == IdentifierName then Flag(ValueText(IdentifierOf(t)), ValueText(Token("", P, ""))) else Ignore
  {
    LambdaWellFormed(e, P);
    UtilCallInspect(Some(t), Some(Lambda(Access(e, Identifier(P)))));
    GenericOver(t, ValueText(Token("", P, "")));
    LambdaArgument(e, P, Called(Some(t)));
  }

  /** The lambda `x => x.P` */
  function PropertyOfX(P: string): Node {
    Lambda(Access(Identifier("x"), Identifier(P)))
  }

  /** `PropertyUtil.GetName<Person>(x => x.Name)` is flagged with the pair (Person, Name). */
  lemma PersonNameFlagged()
    ensures WellFormed(UtilCall(Some(Identifier("Person")), Some(PropertyOfX("Name"))))
    ensures Inspect(UtilCall(Some(Identifier("Person")), Some(PropertyOfX("Name")))) == Flag("Person", "Name")
  {
    assert WellFormed(Identifier("x")) && WellFormed(Identifier("Person"));
    UtilCallVerdict(Identifier("Person"), Identifier("x"), "Name");
  }

  /** Only the last property of the lambda's path counts: `PropertyUtil.GetName<User>(x => x.Person.Id)` gives (User, Id). */
  lemma UserPersonIdFlagged()
    ensures var call := UtilCall(Some(Identifier("User")), Some(Lambda(Access(Access(Identifier("x"), Identifier("Person")), Identifier("Id")))));
      WellFormed(call) && Inspect(call) == Flag("User", "Id")
  {
    var e := Access(Identifier("x"), Identifier("Person"));
    assert WellFormed(Identifier("x")) && WellFormed(Identifier("Person")) && WellFormed(Identifier("User"));
    assert WellFormed(e);
    UtilCallVerdict(Identifier("User"), e, "Id");
  }

  /** The verbatim identifiers `@Person` and `@Name` are read by their values. */
  lemma VerbatimFlagged()
    ensures WellFormed(UtilCall(Some(Identifier("@Person")), Some(PropertyOfX("@Name"))))
    ensures Inspect(UtilCall(Some(Identifier("@Person")), Some(PropertyOfX("@Name")))) == Flag("Person", "Name")
  {
    assert WellFormed(Identifier("x")) && WellFormed(Identifier("@Person"));
    UtilCallVerdict(Identifier("@Person"), Identifier("x"), "@Name");
  }

  /** A predefined type as the type argument, `PropertyUtil.GetName<int>(x => x.Name)`, is not reported. */
  lemma PredefinedTypeIgnored()
    ensures WellFormed(UtilCall(Some(Node(PredefinedType, [Punct("int")])), Some(PropertyOfX("Name"))))
    ensures Inspect(UtilCall(Some(Node(PredefinedType, [Punct("int")])), Some(PropertyOfX("Name")))) == Ignore
  {
    assert WellFormed(Identifier("x")) && WellFormed(Node(PredefinedType, [Punct("int")]));
    UtilCallVerdict(Node(PredefinedType, [Punct("int")]), Identifier("x"), "Name");
  }

  /** `PropertyUtil.GetName(x => x.Name)`, not generic, makes the analyzer throw. */
  lemma NotGenericThrows()
    ensures WellFormed(UtilCall(None, Some(PropertyOfX("Name"))))
    ensures Inspect(UtilCall(None, Some(PropertyOfX("Name")))) == Fail(NullReference)
  {
    var lambda := PropertyOfX("Name");
    assert lambda == Lambda(Access(Identifier("x"), Identifier("Name")));
    assert WellFormed(Identifier("x"));
    LambdaWellFormed(Identifier("x"), "Name");
    UtilCallInspect(None, Some(lambda));
    CalledWellFormed(None);
    LambdaArgument(Identifier("x"), "Name", Called(None));
    assert TypeArgumentVerdict(Called(None), ValueText(Token("", "Name", ""))) == Fail(NullReference);
  }

  /** `PropertyUtil.GetName<Person>()`, without an argument, makes the analyzer throw. */
  lemma NoArgumentThrows()
    ensures WellFormed(UtilCall(Some(Identifier("Person")), None))
    ensures Inspect(UtilCall(Some(Identifier("Person")), None)) == Fail(ArgumentOutOfRange)
  {
    assert WellFormed(Identifier("Person"));
    UtilCallInspect(Some(Identifier("Person")), None);
  }

  /** `PropertyUtil.GetName<Person>(Name)`: an argument that is not a lambda is not reported. */
  lemma NotLambdaIgnored()
    ensures WellFormed(UtilCall(Some(Identifier("Person")), Some(Identifier("Name"))))
    ensures Inspect(UtilCall(Some(Identifier("Person")), Some(Identifier("Name")))) == Ignore
  {
    assert WellFormed(Identifier("Person")) && WellFormed(Identifier("Name"));
    UtilCallInspect(Some(Identifier("Person")), Some(Identifier("Name")));
    assert FirstChildIndex(Arguments(Some(Identifier("Name"))).elems) == Some(1);
  }

  // ------------------------------------------------------------ modifiers and argument names

  /**
   * The argument `x => e.P` with the elements `named` before the lambda (a
   * `name:` node, a `ref` token) and `modifiers` before its parameter, as in
   * `selector: static x => x.P`.
   */
  function LabelledArgument(named: seq<Elem>, modifiers: seq<Elem>, body: Node): Node {
    Node(Argument, named + [Sub(Node(SimpleLambdaExpression, modifiers + Lambda(body).elems))])
  }

  /** `PropertyUtil.GetName...(a)` for an argument node a. */
  function CallWith(typeArgument: Option<Node>, argument: Node): Node {
    Node(InvocationExpression, [
      Sub(Access(Identifier(UtilTypeName), Called(typeArgument))),
      Sub(OneArgument(argument))])
  }

  /** Tokens, or well-formed nodes such as a `name:` or an attribute list. */
  predicate WellFormedElems(es: seq<Elem>) {
    forall i :: 0 <= i < |es| && es[i].Sub? ==> WellFormed(es[i].node)
  }

  /**
   * A name before the argument and modifiers before the lambda's parameter
   * are not read: the lambda test still finds P.
   */
  lemma LabelledLambda(named: seq<Elem>, modifiers: seq<Elem>, e: Node, P: string)
    requires WellFormedElems(named) && WellFormedElems(modifiers) && WellFormed(e)
    ensures WellFormed(LabelledArgument(named, modifiers, Access(e, Identifier(P))))
    ensures LambdaPropertyName(LabelledArgument(named, modifiers, Access(e, Identifier(P)))) == Some(ValueText(Token("", P, "")))
  {
    var body := Access(e, Identifier(P));
    LambdaWellFormed(e, P);
    var plain := Lambda(body);
    var lambda := Node(SimpleLambdaExpression, modifiers + plain.elems);
    assert lambda.elems[|lambda.elems| - 3..] == plain.elems;
    assert WellFormed(lambda) by {
      forall i | 0 <= i < |lambda.elems| && lambda.elems[i].Sub?
        ensures WellFormed(lambda.elems[i].node)
      {
        if i >= |modifiers| {
          assert lambda.elems[i] == plain.elems[i - |modifiers|];
        }
      }
    }
    var argument := LabelledArgument(named, modifiers, body);
    assert argument.elems[|argument.elems| - 1] == Sub(lambda);
    assert BodyOf(lambda) == body;
  }

  /** `(a)` for an argument node a. */
  function OneArgument(argument: Node): Node {
    Node(ArgumentList, [Punct("("), Sub(argument), Punct(")")])
  }

  /** The argument test on `(a)`: ignored unless a is `x => e.P`, and then the method name is tested with P. */
  lemma OneArgumentVerdict(argument: Node, name: Node)
    requires WellFormed(argument) && argument.kind == Argument && WellFormed(name)
    ensures WellFormed(OneArgument(argument))
    ensures ArgumentsVerdict(OneArgument(argument), name) ==
      match LambdaPropertyName(argument)
      case None => Ignore
      case Some(P) => TypeArgumentVerdict(name, P)
  {
    var arguments := OneArgument(argument);
    assert FirstChildIndex(arguments.elems) == Some(1);
    assert Child(arguments, 1) == argument;
  }

  /** A `PropertyUtil` call with an argument node is tested on that argument and its method name. */
  lemma CallWithInspect(typeArgument: Option<Node>, argument: Node)
    requires typeArgument.Some? ==> WellFormed(typeArgument.value)
    requires WellFormed(argument) && argument.kind == Argument
    ensures WellFormed(Called(typeArgument)) && WellFormed(CallWith(typeArgument, argument))
    ensures Inspect(CallWith(typeArgument, argument)) ==
      match LambdaPropertyName(argument)
      case None => Ignore
      case Some(P) => TypeArgumentVerdict(Called(typeArgument), P)
  {
    CalledWellFormed(typeArgument);
    CalleeWellFormed(typeArgument);
    OneArgumentVerdict(argument, Called(typeArgument));
    var n := CallWith(typeArgument, argument);
    var callee := Access(Identifier(UtilTypeName), Called(typeArgument));
    assert n == Node(InvocationExpression, [Sub(callee), Sub(OneArgument(argument))]);
    assert WellFormed(n);
    assert ExpressionOf(n) == callee && ArgumentListOf(n) == OneArgument(argument);
    assert IsUtilTypeName(ExpressionOf(callee));
  }

  /** `PropertyUtil.GetName<Person>(static x => x.Name)` is flagged with (Person, Name). */
  lemma StaticLambdaFlagged()
    ensures var call := CallWith(Some(Identifier("Person")), LabelledArgument([], [Tok(Token("", "static", " "))], Access(Identifier("x"), Identifier("Name"))));
      WellFormed(call) && Inspect(call) == Flag("Person", "Name")
  {
    assert WellFormed(Identifier("x")) && WellFormed(Identifier("Person"));
    var argument := LabelledArgument([], [Tok(Token("", "static", " "))], Access(Identifier("x"), Identifier("Name")));
    LabelledLambda([], [Tok(Token("", "static", " "))], Identifier("x"), "Name");
    CallWithInspect(Some(Identifier("Person")), argument);
    GenericOver(Identifier("Person"), "Name");
  }

  /** `PropertyUtil.GetName<Person>(selector: x => x.Name)`, a named argument, is flagged with (Person, Name). */
  lemma NamedArgumentFlagged()
    ensures var named := [Sub(Node(Other("NameColon"), [Sub(Identifier("selector")), Tok(Token("", ":", " "))]))];
      var call := CallWith(Some(Identifier("Person")), LabelledArgument(named, [], Access(Identifier("x"), Identifier("Name"))));
      WellFormed(call) && Inspect(call) == Flag("Person", "Name")
  {
    var named := [Sub(Node(Other("NameColon"), [Sub(Identifier("selector")), Tok(Token("", ":", " "))]))];
    assert WellFormed(Identifier("x")) && WellFormed(Identifier("Person")) && WellFormed(Identifier("selector"));
    assert WellFormed(named[0].node);
    var argument := LabelledArgument(named, [], Access(Identifier("x"), Identifier("Name")));
    LabelledLambda(named, [], Identifier("x"), "Name");
    CallWithInspect(Some(Identifier("Person")), argument);
    GenericOver(Identifier("Person"), "Name");
  }

  // ------------------------------------------------------------ the first unit test, fixed

  lemma ElemsTextOfThree(a: Elem, b: Elem, c: Elem)
    ensures ElemsText([a, b, c]) == ElemText(a) + ElemText(b) + ElemText(c)
  {
    assert [a, b, c][1..] == [b, c];
    assert [b, c][1..] == [c];
    assert [c][1..] == [];
    assert ElemsText([c]) == ElemText(c) + ElemsText([]);
    assert ElemsText([b, c]) == ElemText(b) + ElemsText([c]);
    assert ElemsText([a, b, c]) == ElemText(a) + ElemsText([b, c]);
  }

  lemma NameText(v: string)
    ensures Text(Identifier(v)) == v && LeadingTrivia(Identifier(v)) == "" && TrailingTrivia(Identifier(v)) == ""
  {
    var es := Identifier(v).elems;
    assert es[1..] == [] && es[..0] == [];
    assert TokenText(Token("", v, "")) == v;
    assert ElemsText(es) == ElemText(es[0]) + ElemsText([]);
    assert FirstTokenIn(es) == Some(Token("", v, ""));
    assert LastTokenIn(es) == Some(Token("", v, ""));
  }

  /** `GetName<T>` ends with the token `>`. */
  lemma CalledText(T: string)
    ensures Text(Called(Some(Identifier(T)))) == UtilMethodName + ("<" + T + ">")
    ensures LastTokenIn(Called(Some(Identifier(T))).elems) == Some(Token("", ">", ""))
  {
    NameText(T);
    var typeArguments := Node(TypeArgumentList, [Punct("<"), Sub(Identifier(T)), Punct(">")]);
    ElemsTextOfThree(Punct("<"), Sub(Identifier(T)), Punct(">"));
    assert TokenText(Token("", "<", "")) == "<" && TokenText(Token("", ">", "")) == ">";
    assert Text(typeArguments) == "<" + T + ">";
    var called := Called(Some(Identifier(T)));
    assert called.elems == [Punct(UtilMethodName), Sub(typeArguments)];
    assert called.elems[1..] == [Sub(typeArguments)] && called.elems[1..][1..] == [];
    assert TokenText(Token("", UtilMethodName, "")) == UtilMethodName;
    assert ElemsText(called.elems[1..]) == Text(typeArguments) + ElemsText([]);
    assert ElemsText(called.elems) == ElemText(called.elems[0]) + ElemsText(called.elems[1..]);
    assert LastTokenIn(typeArguments.elems) == Some(Token("", ">", ""));
  }

  /** `PropertyUtil.GetName<T>` has no trivia. */
  lemma CalleeText(T: string)
    ensures var callee := Access(Identifier(UtilTypeName), Called(Some(Identifier(T))));
      Text(callee) == UtilTypeName + "." + (UtilMethodName + "<" + T + ">") && LeadingTrivia(callee) == "" && TrailingTrivia(callee) == ""
  {
    NameText(UtilTypeName);
    CalledText(T);
    var called := Called(Some(Identifier(T)));
    var callee := Access(Identifier(UtilTypeName), called);
    ElemsTextOfThree(Sub(Identifier(UtilTypeName)), Punct("."), Sub(called));
    assert TokenText(Token("", ".", "")) == ".";
    assert FirstTokenIn(callee.elems) == Some(Token("", UtilTypeName, ""));
    assert LastTokenIn(callee.elems) == Some(Token("", ">", ""));
  }

  /** `PropertyUtil.GetName<T>(a)` has no trivia either. */
  lemma UtilCallTrivia(T: string, argument: Node)
    ensures var call := UtilCall(Some(Identifier(T)), Some(argument));
      LeadingTrivia(call) == "" && TrailingTrivia(call) == ""
  {
    CalleeText(T);
    var call := UtilCall(Some(Identifier(T)), Some(argument));
    assert FirstTokenIn(call.elems) == FirstTokenIn(Child(call, 0).elems);
    var arguments := Arguments(Some(argument));
    assert LastTokenIn(arguments.elems) == Some(Token("", ")", ""));
    assert LastTokenIn(call.elems) == Some(Token("", ")", ""));
  }

  /** A class declaration whose text is `before`, the call, and `after`. */
  function InClass(before: string, call: Node, after: string): Node {
    Node(ClassDeclaration, [Tok(Token("", before, "")), Sub(call), Tok(Token("", after, ""))])
  }

  lemma InClassFacts(before: string, call: Node, after: string)
    requires WellFormed(call)
    ensures var root := InClass(before, call, after);
      && WellFormed(root) && ValidPath(root, [1]) && NodeAt(root, [1]) == call
      && Before(root, [1]) == before && After(root, [1]) == after
      && ValidPath(root, [1, 0]) == IsChild(call, 0)
  {
    var root := InClass(before, call, after);
    assert NodeAt(root, [1]) == NodeAt(call, []);
    assert root.elems[..1] == [Tok(Token("", before, ""))];
    assert root.elems[2..] == [Tok(Token("", after, ""))];
    assert TokenText(Token("", before, "")) == before && TokenText(Token("", after, "")) == after;
    assert ElemsText(root.elems[..1]) == before + ElemsText([]);
    assert ElemsText(root.elems[2..]) == after + ElemsText([]);
    assert [1][1..] == [];
    assert Before(root, [1]) == ElemsText(root.elems[..1]) + Before(call, []);
    assert After(root, [1]) == After(call, []) + ElemsText(root.elems[2..]);
  }

  /** Before the receiver of a `PropertyUtil` call in a class, there is the text before the call. */
  lemma InClassReceiver(before: string, call: Node, after: string)
    requires WellFormed(call) && IsChild(call, 0)
    ensures var root := InClass(before, call, after);
      ValidPath(root, [1, 0]) && NodeAt(root, [1, 0]) == Child(call, 0) && Before(root, [1, 0]) == before
  {
    var root := InClass(before, call, after);
    InClassFacts(before, call, after);
    NodeAtChild(root, [1], 0);
    assert [1] + [0] == [1, 0];
    assert call.elems[..0] == [];
    assert Before(Child(call, 0), []) == "";
    assert Before(call, [0]) == ElemsText(call.elems[..0]) + Before(Child(call, 0), []);
    assert [1, 0][1..] == [0];
    assert Before(root, [1, 0]) == ElemsText(root.elems[..1]) + Before(call, [0]);
    assert ElemsText(root.elems[..1]) == Before(root, [1]);
  }

  /** A flagged call is reported at its callee with the pair it was flagged with. */
  lemma ReportAt(root: Node, p: Path)
    requires WellFormed(root) && ValidPath(root, p) && Inspect(NodeAt(root, p)).Flag?
    ensures ValidPath(root, p + [0])
    ensures Analyze(root, p) ==
      Report(Diagnostic(Rule, LocationOf(root, p + [0]), [Inspect(NodeAt(root, p)).typeName, Inspect(NodeAt(root, p)).propertyName]))
  {
    FlaggedCallee(NodeAt(root, p));
    NodeAtChild(root, p, 0);
  }

  /** `PropertyUtil.GetName<T>(x => x.P)` in a class, after the text `before`. */
  function Program(before: string, T: string, P: string, after: string): Node {
    InClass(before, UtilCall(Some(Identifier(T)), Some(PropertyOfX(P))), after)
  }

  /** The callee `PropertyUtil.GetName<T>` is at [1, 0], right after `before`. */
  lemma CalleeInProgram(before: string, T: string, P: string, after: string)
    ensures var root := Program(before, T, P, after);
      && ValidPath(root, [1, 0])
      && NodeAt(root, [1, 0]) == Access(Identifier(UtilTypeName), Called(Some(Identifier(T))))
      && Before(root, [1, 0]) == before
  {
    var call := UtilCall(Some(Identifier(T)), Some(PropertyOfX(P)));
    LambdaWellFormed(Identifier("x"), P);
    assert WellFormed(Identifier(T));
    UtilCallInspect(Some(Identifier(T)), Some(PropertyOfX(P)));
    InClassReceiver(before, call, after);
  }

  /** The callee starts right after `before` and has no trivia. */
  lemma CalleeLocation(before: string, T: string, P: string, after: string)
    ensures var root := Program(before, T, P, after);
      ValidPath(root, [1, 0]) &&
      LocationOf(root, [1, 0]) == Span(|before|, |before| + |UtilTypeName| + |UtilMethodName| + |T| + 3)
  {
    CalleeInProgram(before, T, P, after);
    var callee := Access(Identifier(UtilTypeName), Called(Some(Identifier(T))));
    CalleeText(T);
    assert |Text(callee)| == |UtilTypeName| + |UtilMethodName| + |T| + 3;
  }

  /** The analyzer reports `PropertyUtil.GetName<T>(x => x.P)` at its callee, with T and P. */
  lemma ProgramReported(before: string, T: string, P: string, after: string)
    ensures var root := Program(before, T, P, after);
      && WellFormed(root) && ValidPath(root, [1])
      && Analyze(root, [1]) == Report(Diagnostic(Rule,
           Span(|before|, |before| + |UtilTypeName| + |UtilMethodName| + |T| + 3),
           [ValueText(Token("", T, "")), ValueText(Token("", P, ""))]))
  {
    var call := UtilCall(Some(Identifier(T)), Some(PropertyOfX(P)));
    assert WellFormed(Identifier("x")) && WellFormed(Identifier(T));
    UtilCallVerdict(Identifier(T), Identifier("x"), P);
    InClassFacts(before, call, after);
    ReportAt(Program(before, T, P, after), [1]);
    CalleeLocation(before, T, P, after);
  }

  /**
   * The semantic model of a program with one class: every identifier binds
   * to the symbol `symbol` and the class declares `declared`.
   */
  function Symbols(symbol: nat, declared: nat): SemanticModel {
    SemanticModel(p => Some(symbol), p => Some(declared))
  }

  /** The class encloses the call, and the semantic model gives the type argument a symbol. */
  lemma ProgramFix(before: string, T: string, P: string, after: string, d: Diagnostic, symbol: nat, declared: nat)
    requires var root := Program(before, T, P, after);
      WellFormed(root) && ValidPath(root, [1]) && Analyze(root, [1]) == Report(d)
    ensures var root := Program(before, T, P, after);
      && ExtractOperands(NodeAt(root, [1])).Success?
      && var operands := ExtractOperands(NodeAt(root, [1])).value;
      && [operands.typeName, operands.propertyName] == d.arguments
      && Fix(root, [d], Symbols(symbol, declared)).Success?
      && Text(Fix(root, [d], Symbols(symbol, declared)).value) ==
           Before(root, [1]) + ReplacementText(NodeAt(root, [1]), operands, declared != symbol) + After(root, [1])
  {
    var root := Program(before, T, P, after);
    var model := Symbols(symbol, declared);
    Pipeline.FixOfReport(root, [1], d, [], model);
    assert [d] + [] == [d];
    var enclosing := Innermost(root, [1], ClassDeclaration);
    assert AncestorAt(root, [1], 0).kind == ClassDeclaration;
    assert enclosing.Some?;
    var operands := ExtractOperands(NodeAt(root, [1])).value;
    assert (model.declaredSymbolOf(enclosing.value) != model.symbolOf([1] + operands.typeArgument)) == (declared != symbol);
  }

  /** Without trivia around the call, the replacement is written `nameof(P)` or `nameof(T.P)`. */
  lemma CallReplacementText(T: string, argument: Node, operands: Operands, qualified: bool)
    ensures ReplacementText(UtilCall(Some(Identifier(T)), Some(argument)), operands, qualified) ==
      "nameof(" + OperandText(operands.typeName, operands.propertyName, qualified) + ")"
  {
    UtilCallTrivia(T, argument);
    var text := "nameof(" + OperandText(operands.typeName, operands.propertyName, qualified) + ")";
    assert "" + "nameof(" == "nameof(";
    assert text + "" == text;
  }

  /**
   * The fix writes `nameof(T.P)` in place of the call when T is not the
   * enclosing class, and `nameof(P)` when it is; the surrounding text is kept.
   */
  lemma ProgramFixed(before: string, T: string, P: string, after: string, symbol: nat, declared: nat)
    ensures WellFormed(Program(before, T, P, after))
    ensures var d := Diagnostic(Rule,
        Span(|before|, |before| + |UtilTypeName| + |UtilMethodName| + |T| + 3),
        [ValueText(Token("", T, "")), ValueText(Token("", P, ""))]);
      var r := Fix(Program(before, T, P, after), [d], Symbols(symbol, declared));
      && r.Success?
      && Text(r.value) ==
           before + ("nameof(" + OperandText(ValueText(Token("", T, "")), ValueText(Token("", P, "")), declared != symbol) + ")") + after
  {
    var d := Diagnostic(Rule,
        Span(|before|, |before| + |UtilTypeName| + |UtilMethodName| + |T| + 3),
        [ValueText(Token("", T, "")), ValueText(Token("", P, ""))]);
    var call := UtilCall(Some(Identifier(T)), Some(PropertyOfX(P)));
    ProgramReported(before, T, P, after);
    InClassFacts(before, call, after);
    ProgramFix(before, T, P, after, d, symbol, declared);
    var operands := ExtractOperands(call).value;
    assert operands.typeName == ValueText(Token("", T, "")) && operands.propertyName == ValueText(Token("", P, ""));
    CallReplacementText(T, PropertyOfX(P), operands, declared != symbol);
  }

  /**
   * The program of the first unit test, abridged to its class without the
   * usings, the namespace and the class `Person`: in
   * `class Testclass { var value = PropertyUtil.GetName<Person>(x => x.Name); }`
   * the call is reported at characters 30 to 58 with Person and Name, and,
   * Person not being Testclass, fixed to `nameof(Person.Name)`, as that test
   * expects of its full program.
   */
  lemma FirstUnitTest()
    ensures var root := Program("class Testclass { var value = ", "Person", "Name", "; }");
      var d := Diagnostic(Rule, Span(30, 58), ["Person", "Name"]);
      && WellFormed(root) && ValidPath(root, [1]) && Analyze(root, [1]) == Report(d)
      && Fix(root, [d], Symbols(2, 1)).Success?
      && Text(Fix(root, [d], Symbols(2, 1)).value) == "class Testclass { var value = nameof(Person.Name); }"
  {
    var before := "class Testclass { var value = ";
    assert |before| == 30 && |UtilTypeName| + |UtilMethodName| + |"Person"| + 3 == 28;
    assert ValueText(Token("", "Person", "")) == "Person" && ValueText(Token("", "Name", "")) == "Name";
    ProgramReported(before, "Person", "Name", "; }");
    ProgramFixed(before, "Person", "Name", "; }", 2, 1);
    FirstUnitTestText();
  }

  lemma FirstUnitTestText()
    ensures "class Testclass { var value = " + ("nameof(" + OperandText("Person", "Name", true) + ")") + "; }" ==
      "class Testclass { var value = nameof(Person.Name); }"
  {
  }

  /**
   * The program of the last unit test, abridged to its class without the
   * usings, the namespace and the property `Name`: in
   * `class Person { var value = PropertyUtil.GetName<Person>(x => x.Name); }`
   * the call is reported with Person and Name, the type argument is the
   * enclosing class, and the call is fixed to `nameof(Name)`, as that test
   * expects of its full program.
   */
  lemma LastUnitTest()
    ensures var root := Program("class Person { var value = ", "Person", "Name", "; }");
      var d := Diagnostic(Rule, Span(27, 55), ["Person", "Name"]);
      && WellFormed(root) && ValidPath(root, [1]) && Analyze(root, [1]) == Report(d)
      && Fix(root, [d], Symbols(1, 1)).Success?
      && Text(Fix(root, [d], Symbols(1, 1)).value) == "class Person { var value = nameof(Name); }"
  {
    var before := "class Person { var value = ";
    assert |before| == 27 && |UtilTypeName| + |UtilMethodName| + |"Person"| + 3 == 28;
    assert ValueText(Token("", "Person", "")) == "Person" && ValueText(Token("", "Name", "")) == "Name";
    ProgramReported(before, "Person", "Name", "; }");
    ProgramFixed(before, "Person", "Name", "; }", 1, 1);
    LastUnitTestText();
  }

  lemma LastUnitTestText()
    ensures "class Person { var value = " + ("nameof(" + OperandText("Person", "Name", false) + ")") + "; }" ==
      "class Person { var value = nameof(Name); }"
  {
  }
}
