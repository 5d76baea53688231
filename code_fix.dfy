/**
 * `PropertyExpressionCodeFixProvider`: the invocation it locates from a
 * diagnostic, and `UseNameOfAsync`, which replaces that invocation by
 * `nameof(P)` when the type argument is the enclosing class and by
 * `nameof(T.P)` otherwise.  The casts of `UseNameOfAsync` are not checked;
 * the model returns the exception each failing one throws.
 */
module CodeFix {
  import opened Wrappers
  import opened Syntax
  import opened Tree
  import opened Analyzer

  const Title: string := "Use nameof"

  const FixableDiagnosticIds: seq<string> := [DiagnosticId]

  /**
   * The part of the semantic model the fix asks: the symbol an identifier
   * binds to (`GetSymbolInfo(...).Symbol`) and the symbol a class declares
   * (`GetDeclaredSymbol`), with symbols as numbers and "no symbol" as None;
   * both are looked up by the position of the node in the tree.
   */
  datatype SemanticModel = SemanticModel(symbolOf: Path -> Option<nat>, declaredSymbolOf: Path -> Option<nat>)

  /**
   * `root.FindToken(diagnosticSpan.Start).Parent.AncestorsAndSelf()
   * .OfType<InvocationExpressionSyntax>().First()` for the first diagnostic.
   */
  function LocateInvocation(root: Node, diagnostics: seq<Diagnostic>): (r: Result<Path, Fault>)
    ensures r.Success? ==> ValidPath(root, r.value) && NodeAt(root, r.value).kind == InvocationExpression
    ensures r.Failure? ==> r.error == InvalidOperation || r.error == ArgumentOutOfRange
    ensures r == Failure(ArgumentOutOfRange) <==> diagnostics != [] && diagnostics[0].location.start >= |Text(root)|
    ensures r == Failure(InvalidOperation) <==>
      diagnostics == [] ||
      (FindTokenParent(root, diagnostics[0].location.start).Some? &&
       ValidPath(root, FindTokenParent(root, diagnostics[0].location.start).value) &&
       Innermost(root, FindTokenParent(root, diagnostics[0].location.start).value, InvocationExpression).None?)
    ensures r.Success? ==>
      && diagnostics != [] && FindTokenParent(root, diagnostics[0].location.start).Some?
      && var parent := FindTokenParent(root, diagnostics[0].location.start).value;
      && ValidPath(root, parent) && r.value <= parent
      && Innermost(root, parent, InvocationExpression) == Some(r.value)
  {
    if diagnostics == [] then Failure(InvalidOperation)
    else
      var start := diagnostics[0].location.start;
      FindTokenValid(root, start);
      FindTokenNone(root, start);
      match FindTokenParent(root, start)
      case None => Failure(ArgumentOutOfRange)
      case Some(parent) =>
        match Innermost(root, parent, InvocationExpression)
        case None => Failure(InvalidOperation)
        case Some(q) =>
          AncestorIsNodeAt(root, parent, |q|);
          assert parent[..|q|] == q;
          Success(q)
  }

  /** What `UseNameOfAsync` reads off the invocation: where the type argument is, T and P. */
  datatype Operands = Operands(typeArgument: Path, typeName: string, propertyName: string)

  /**
   * The casts of `UseNameOfAsync`, in order: the callee as a member access,
   * its name as a generic name, the first type argument as an identifier, the
   * first argument's expression as a lambda whose body is a member access.
   * A failed cast leaves null, and the next member access on it throws.
   */
  function ExtractOperands(inv: Node): (r: Result<Operands, Fault>)
    requires WellFormed(inv) && inv.kind == InvocationExpression
    ensures r.Failure? ==> r.error == NullReference || r.error == ArgumentOutOfRange
  {
    ChildWellFormed(inv, 0);
    var memberAccess := ExpressionOf(inv);
    if !IsMemberAccess(memberAccess.kind) then Failure(NullReference)
    else
      ChildWellFormed(memberAccess, 2);
      var genericName := NameOf(memberAccess);
      if genericName.kind != GenericName then Failure(NullReference)
      else
        ChildWellFormed(genericName, 1);
        var typeArguments := TypeArgumentListOf(genericName);
        match FirstChildIndex(typeArguments.elems)
        case None => Failure(ArgumentOutOfRange)
        case Some(t) =>
          ChildWellFormed(typeArguments, t);
          var identifierName := Child(typeArguments, t);
          if identifierName.kind != IdentifierName then Failure(NullReference)
          else
            var typeName := ValueText(IdentifierOf(identifierName));
            ChildWellFormed(inv, 1);
            var arguments := ArgumentListOf(inv);
            match FirstChildIndex(arguments.elems)
            case None => Failure(ArgumentOutOfRange)
            case Some(i) =>
              ChildWellFormed(arguments, i);
              match LambdaPropertyName(Child(arguments, i))
              case None => Failure(NullReference)
              case Some(propertyName) => Success(Operands([0, 2, 1, t], typeName, propertyName))
  }

  /** An identifier name without trivia. */
  function Identifier(v: string): Node {
    Node(IdentifierName, [Tok(Token("", v, ""))])
  }

  /** The operand of `nameof`: `P`, or `T.P` when qualified. */
  function NameOfOperand(typeName: string, propertyName: string, qualified: bool): Node {
    if qualified then
      Node(SimpleMemberAccessExpression, [Sub(Identifier(typeName)), Tok(Token("", ".", "")), Sub(Identifier(propertyName))])
    else Identifier(propertyName)
  }

  /**
   * `SyntaxFactory.ParseExpression("nameof(...)")` with the leading trivia of
   * the replaced invocation on its first token and its trailing trivia on
   * its last.
   */
  function NameOfExpression(operand: Node, leading: string, trailing: string): Node {
    Node(InvocationExpression, [
      Sub(Node(IdentifierName, [Tok(Token(leading, "nameof", ""))])),
      Sub(Node(ArgumentList, [Tok(Token("", "(", "")), Sub(Node(Argument, [Sub(operand)])), Tok(Token("", ")", trailing))]))
    ])
  }

  /** The node that replaces the invocation inv. */
  function Replacement(inv: Node, operands: Operands, qualified: bool): Node {
    NameOfExpression(NameOfOperand(operands.typeName, operands.propertyName, qualified), LeadingTrivia(inv), TrailingTrivia(inv))
  }

  /**
   * `UseNameOfAsync` on the invocation at `at`: the new syntax root, or the
   * exception it throws.  Without an enclosing class `GetDeclaredSymbol(null)`
   * throws; an unresolved type argument makes `symbol.Equals` throw.
   */
  function UseNameOf(root: Node, at: Path, model: SemanticModel): Result<Node, Fault>
    requires WellFormed(root) && ValidPath(root, at) && NodeAt(root, at).kind == InvocationExpression
  {
    var inv := NodeAt(root, at);
    match ExtractOperands(inv)
    case Failure(f) => Failure(f)
    case Success(operands) =>
      match Innermost(root, at, ClassDeclaration)
      case None => Failure(ArgumentNull)
      case Some(classDeclaration) =>
        match model.symbolOf(at + operands.typeArgument)
        case None => Failure(NullReference)
        case Some(symbol) =>
          var sameType := model.declaredSymbolOf(classDeclaration) == Some(symbol);
          Success(ReplaceAt(root, at, Replacement(inv, operands, !sameType)))
  }

  /** The code fix applied for a set of diagnostics: locate the invocation, then rewrite it. */
  function Fix(root: Node, diagnostics: seq<Diagnostic>, model: SemanticModel): Result<Node, Fault>
    requires WellFormed(root)
  {
    match LocateInvocation(root, diagnostics)
    case Failure(f) => Failure(f)
    case Success(at) => UseNameOf(root, at, model)
  }

  // ------------------------------------------------------------ the replacement

  /** The text of `nameof`'s operand: `P`, or `T.P`. */
  function OperandText(typeName: string, propertyName: string, qualified: bool): string {
    if qualified then typeName + "." + propertyName else propertyName
  }

  /** The text the replacement is written as: the invocation's trivia around `nameof(P)` or `nameof(T.P)`. */
  function ReplacementText(inv: Node, operands: Operands, qualified: bool): string {
    LeadingTrivia(inv) + "nameof(" + OperandText(operands.typeName, operands.propertyName, qualified) + ")" + TrailingTrivia(inv)
  }

  lemma IdentifierFacts(v: string)
    ensures WellFormed(Identifier(v)) && NoneOfKind(Identifier(v), InvocationExpression)
    ensures Text(Identifier(v)) == v
  {
    var n := Identifier(v);
    assert ElemsText(n.elems) == TokenText(n.elems[0].token) + ElemsText([]);
  }

  /** The operand is a well-formed expression with no call in it, written `P` or `T.P`. */
  lemma OperandFacts(typeName: string, propertyName: string, qualified: bool)
    ensures var operand := NameOfOperand(typeName, propertyName, qualified);
      && WellFormed(operand) && NoneOfKind(operand, InvocationExpression)
      && Text(operand) == OperandText(typeName, propertyName, qualified)
  {
    IdentifierFacts(typeName);
    IdentifierFacts(propertyName);
    if qualified {
      var operand := NameOfOperand(typeName, propertyName, qualified);
      var es := operand.elems;
      assert ElemsText(es) == ElemText(es[0]) + ElemsText(es[1..]);
      assert ElemsText(es[1..]) == ElemText(es[1]) + ElemsText(es[2..]);
      assert ElemsText(es[2..]) == ElemText(es[2]) + ElemsText(es[3..]);
      assert es[3..] == [];
    }
  }

  /** `nameof(operand)` is a well-formed invocation with no other invocation below it. */
  lemma NameOfExpressionWellFormed(operand: Node, leading: string, trailing: string)
    requires WellFormed(operand) && NoneOfKind(operand, InvocationExpression)
    ensures var r := NameOfExpression(operand, leading, trailing);
      && WellFormed(r) && r.kind == InvocationExpression
      && forall j :: IsChild(r, j) ==> NoneOfKind(Child(r, j), InvocationExpression)
  {
    var r := NameOfExpression(operand, leading, trailing);
    var arguments := Child(r, 1);
    assert NoneOfKind(Child(arguments, 1), InvocationExpression);
    assert forall j :: IsChild(r, j) ==> j == 0 || j == 1;
  }

  /** `nameof(operand)` starts with the leading trivia and ends with the trailing trivia it is given. */
  lemma NameOfExpressionTrivia(operand: Node, leading: string, trailing: string)
    ensures var r := NameOfExpression(operand, leading, trailing);
      LeadingTrivia(r) == leading && TrailingTrivia(r) == trailing
  {
    var r := NameOfExpression(operand, leading, trailing);
    var callee, arguments := Child(r, 0), Child(r, 1);
    assert FirstTokenIn(callee.elems) == Some(Token(leading, "nameof", ""));
    assert ElemFirstToken(r.elems[0]) == Some(Token(leading, "nameof", ""));
    var close := Token("", ")", trailing);
    assert ElemLastToken(arguments.elems[2]) == Some(close);
    assert LastTokenIn(arguments.elems) == Some(close);
    assert ElemLastToken(r.elems[1]) == Some(close);
  }

  /** The text of `nameof(operand)`. */
  lemma NameOfExpressionText(operand: Node, leading: string, trailing: string)
    ensures Text(NameOfExpression(operand, leading, trailing)) == leading + "nameof(" + Text(operand) + ")" + trailing
  {
    var r := NameOfExpression(operand, leading, trailing);
    var callee, arguments := Child(r, 0), Child(r, 1);
    var argument := Child(arguments, 1);
    assert Text(callee) == leading + "nameof" by {
      assert ElemsText(callee.elems) == TokenText(callee.elems[0].token) + ElemsText([]);
    }
    assert Text(argument) == Text(operand) by {
      assert ElemsText(argument.elems) == ElemText(argument.elems[0]) + ElemsText([]);
    }
    var es := arguments.elems;
    assert Text(arguments) == "(" + Text(operand) + ")" + trailing by {
      assert ElemsText(es) == ElemText(es[0]) + ElemsText(es[1..]);
      assert ElemsText(es[1..]) == ElemText(es[1]) + ElemsText(es[2..]);
      assert ElemsText(es[2..]) == ElemText(es[2]) + ElemsText(es[3..]);
      assert es[3..] == [];
    }
    assert Text(r) == Text(callee) + Text(arguments) by {
      assert ElemsText(r.elems) == ElemText(r.elems[0]) + ElemsText(r.elems[1..]);
      assert ElemsText(r.elems[1..]) == ElemText(r.elems[1]) + ElemsText([]);
    }
    NameOfConcat(leading, Text(operand), trailing);
  }

  lemma NameOfConcat(leading: string, operand: string, trailing: string)
    ensures (leading + "nameof") + ("(" + operand + ")" + trailing) == leading + "nameof(" + operand + ")" + trailing
  {
    assert "nameof" + "(" == "nameof(";
  }

  /**
   * The replacement is a well-formed invocation `nameof(...)` that carries the
   * replaced invocation's leading and trailing trivia, whose text is that
   * trivia around `nameof(P)` or `nameof(T.P)`, and below which there is no
   * other invocation.
   */
  lemma ReplacementFacts(inv: Node, operands: Operands, qualified: bool)
    ensures var r := Replacement(inv, operands, qualified);
      && WellFormed(r) && r.kind == InvocationExpression
      && LeadingTrivia(r) == LeadingTrivia(inv) && TrailingTrivia(r) == TrailingTrivia(inv)
      && Text(r) == ReplacementText(inv, operands, qualified)
      && forall j :: IsChild(r, j) ==> NoneOfKind(Child(r, j), InvocationExpression)
  {
    var operand := NameOfOperand(operands.typeName, operands.propertyName, qualified);
    OperandFacts(operands.typeName, operands.propertyName, qualified);
    NameOfExpressionWellFormed(operand, LeadingTrivia(inv), TrailingTrivia(inv));
    NameOfExpressionTrivia(operand, LeadingTrivia(inv), TrailingTrivia(inv));
    NameOfExpressionText(operand, LeadingTrivia(inv), TrailingTrivia(inv));
  }

  // ------------------------------------------------------------ the rewrite

  /**
   * Replacing the invocation at `at` by its `nameof` replacement changes that
   * invocation, and nothing else, keeps the tree well-formed, and puts the
   * replacement's text where the invocation's was.
   */
  lemma RewriteFacts(root: Node, at: Path, operands: Operands, qualified: bool)
    requires WellFormed(root) && ValidPath(root, at) && NodeAt(root, at).kind == InvocationExpression
    ensures var inv := NodeAt(root, at);
      var m := Replacement(inv, operands, qualified);
      var result := ReplaceAt(root, at, m);
      && WellFormed(result)
      && ValidPath(result, at) && NodeAt(result, at) == m
      && Text(result) == Before(root, at) + ReplacementText(inv, operands, qualified) + After(root, at)
      && forall q :: ValidPath(root, q) && !(at <= q) && !(q <= at) ==>
           ValidPath(result, q) && NodeAt(result, q) == NodeAt(root, q)
  {
    var inv := NodeAt(root, at);
    var m := Replacement(inv, operands, qualified);
    ReplacementFacts(inv, operands, qualified);
    ReplaceFacts(root, at, m);
  }

  /** What replacing the invocation at `at` by a well-formed invocation m does to the tree. */
  lemma ReplaceFacts(root: Node, at: Path, m: Node)
    requires WellFormed(root) && ValidPath(root, at) && NodeAt(root, at).kind == InvocationExpression
    requires WellFormed(m) && m.kind == InvocationExpression
    ensures var result := ReplaceAt(root, at, m);
      && WellFormed(result)
      && ValidPath(result, at) && NodeAt(result, at) == m
      && Text(result) == Before(root, at) + Text(m) + After(root, at)
      && forall q :: ValidPath(root, q) && !(at <= q) && !(q <= at) ==>
           ValidPath(result, q) && NodeAt(result, q) == NodeAt(root, q)
  {
    ReplaceWellFormed(root, at, m);
    ReplaceKeepsContext(root, at, m);
    ReplaceText(root, at, m);
    forall q | ValidPath(root, q) && !(at <= q) && !(q <= at)
      ensures ValidPath(ReplaceAt(root, at, m), q) && NodeAt(ReplaceAt(root, at, m), q) == NodeAt(root, q)
    {
      ReplaceDisjoint(root, at, m, q);
    }
  }

  /**
   * `UseNameOfAsync` succeeds exactly when its casts succeed, a class encloses
   * the invocation and the type argument has a symbol.  The new tree is then
   * well-formed, and its text is the old text with the invocation written
   * over as `nameof(P)` when that symbol is the one the innermost enclosing
   * class declares, and as `nameof(T.P)` otherwise; the nodes beside the
   * invocation are unchanged.
   */
  lemma UseNameOfRewrites(root: Node, at: Path, model: SemanticModel)
    requires WellFormed(root) && ValidPath(root, at) && NodeAt(root, at).kind == InvocationExpression
    ensures UseNameOf(root, at, model).Success? <==>
      && ExtractOperands(NodeAt(root, at)).Success? && Innermost(root, at, ClassDeclaration).Some?
      && model.symbolOf(at + ExtractOperands(NodeAt(root, at)).value.typeArgument).Some?
    ensures UseNameOf(root, at, model).Success? ==>
      var r := UseNameOf(root, at, model).value;
      var operands := ExtractOperands(NodeAt(root, at)).value;
      var classDeclaration := Innermost(root, at, ClassDeclaration).value;
      var qualified := model.declaredSymbolOf(classDeclaration) != model.symbolOf(at + operands.typeArgument);
      && WellFormed(r)
      && Text(r) == Before(root, at) + ReplacementText(NodeAt(root, at), operands, qualified) + After(root, at)
      && ValidPath(r, at) && NodeAt(r, at) == Replacement(NodeAt(root, at), operands, qualified)
      && forall q :: ValidPath(root, q) && !(at <= q) && !(q <= at) ==>
           ValidPath(r, q) && NodeAt(r, q) == NodeAt(root, q)
  {
    if UseNameOf(root, at, model).Success? {
      var operands := ExtractOperands(NodeAt(root, at)).value;
      var classDeclaration := Innermost(root, at, ClassDeclaration).value;
      var qualified := model.declaredSymbolOf(classDeclaration) != model.symbolOf(at + operands.typeArgument);
      assert UseNameOf(root, at, model).value == ReplaceAt(root, at, Replacement(NodeAt(root, at), operands, qualified));
      RewriteFacts(root, at, operands, qualified);
    }
  }
}
