/**
 * A model of the C# syntax trees the analyzer and the code fix look at.
 *
 * Every node is its kind and its elements in source order: tokens and child
 * nodes.  Every token keeps its leading and trailing trivia, so the full text
 * of a tree, and every position in it, is determined by the tree.  The shape
 * the parser gives each kind the analyzer and the code fix cast to
 * (an invocation is its expression and its argument list, a member access is
 * its expression, its operator token and its name, ...) is `Shape`; a tree
 * all of whose nodes have their shape is `WellFormed`.
 */
module Syntax {
  import opened Wrappers

  /** A token: its leading trivia, its text and its trailing trivia. */
  datatype Token = Token(leading: string, text: string, trailing: string)

  /** `SyntaxToken.ValueText` of an identifier: the verbatim identifier `@x` has the value `x`. */
  function ValueText(t: Token): (r: string)
    ensures t.text == r || t.text == "@" + r
  {
    if |t.text| > 0 && t.text[0] == '@' then t.text[1..] else t.text
  }

  /** The syntax kinds the model distinguishes; every other kind is `Other`. */
  datatype Kind =
    | IdentifierName
    | GenericName
    | TypeArgumentList
    | PredefinedType
    | SimpleMemberAccessExpression
    | PointerMemberAccessExpression
    | InvocationExpression
    | ArgumentList
    | Argument
    | SimpleLambdaExpression
    | Parameter
    | ClassDeclaration
    | Other(name: string)

  /** The kinds of `MemberAccessExpressionSyntax`: `e.N` and `e->N`. */
  predicate IsMemberAccess(k: Kind) {
    k == SimpleMemberAccessExpression || k == PointerMemberAccessExpression
  }

  /** The kinds of `SimpleNameSyntax`. */
  predicate IsSimpleName(k: Kind) {
    k == IdentifierName || k == GenericName
  }

  datatype Node = Node(kind: Kind, elems: seq<Elem>)

  /** An element of a node: a token or a child node. */
  datatype Elem = Tok(token: Token) | Sub(node: Node)

  // ---------------------------------------------------------------- text

  function TokenText(t: Token): string {
    t.leading + t.text + t.trailing
  }

  /** `ToFullString()`: the text of a node, trivia included. */
  function Text(n: Node): string {
    ElemsText(n.elems)
  }

  function ElemsText(es: seq<Elem>): string {
    if es == [] then "" else ElemText(es[0]) + ElemsText(es[1..])
  }

  function ElemText(e: Elem): string {
    match e
    case Tok(t) => TokenText(t)
    case Sub(c) => Text(c)
  }

  lemma {:induction false} ElemsTextAppend(a: seq<Elem>, b: seq<Elem>)
    ensures ElemsText(a + b) == ElemsText(a) + ElemsText(b)
  {
    if a == [] {
      assert a + b == b;
    } else {
      assert (a + b)[0] == a[0];
      assert (a + b)[1..] == a[1..] + b;
      ElemsTextAppend(a[1..], b);
    }
  }

  /** Splitting a list of elements around its j-th element splits its text. */
  lemma {:induction false} ElemsTextSplit(es: seq<Elem>, j: nat)
    requires j < |es|
    ensures ElemsText(es) == ElemsText(es[..j]) + ElemText(es[j]) + ElemsText(es[j + 1..])
  {
    if j > 0 {
      ElemsTextSplit(es[1..], j - 1);
      assert es[1..][..j - 1] == es[..j][1..];
      assert es[1..][j - 1] == es[j];
      assert es[1..][j..] == es[j + 1..];
      assert es[..j][0] == es[0];
    }
  }

  // ---------------------------------------------------------------- children

  /** Whether the j-th element of n is a child node. */
  predicate IsChild(n: Node, j: nat) {
    j < |n.elems| && n.elems[j].Sub?
  }

  function Child(n: Node, j: nat): Node
    requires IsChild(n, j)
  {
    n.elems[j].node
  }

  /** n with its j-th element, a child, replaced by c. */
  function WithChild(n: Node, j: nat, c: Node): Node
    requires IsChild(n, j)
  {
    Node(n.kind, n.elems[j := Sub(c)])
  }

  /** The index of the first node of a separated list: where `Arguments[0]` is. */
  function FirstChildIndex(es: seq<Elem>): (r: Option<nat>)
    ensures r.Some? ==> r.value < |es| && es[r.value].Sub?
    ensures r.Some? ==> forall i :: 0 <= i < r.value ==> es[i].Tok?
    ensures r.None? ==> forall i :: 0 <= i < |es| ==> es[i].Tok?
  {
    if es == [] then None
    else if es[0].Sub? then Some(0)
    else match FirstChildIndex(es[1..])
      case None => None
      case Some(i) => Some(i + 1)
  }

  /** i is the position of the first node of a separated list. */
  predicate IsFirstIn(es: seq<Elem>, i: nat) {
    i < |es| && es[i].Sub? && forall k :: 0 <= k < i ==> es[k].Tok?
  }

  /** `FirstChildIndex` finds exactly the first node. */
  lemma FirstChildIndexIsFirst(es: seq<Elem>, i: nat)
    ensures FirstChildIndex(es) == Some(i) <==> IsFirstIn(es, i)
  {
  }

  // ---------------------------------------------------------------- shapes

  /** Whether the j-th element of n is a child of kind k. */
  predicate IsChildOfKind(n: Node, j: nat, k: Kind) {
    IsChild(n, j) && Child(n, j).kind == k
  }

  /** A bracketed separated list: `(a, b)`, `<T, U>`. */
  predicate IsBracketed(es: seq<Elem>) {
    |es| >= 2 && es[0].Tok? && es[|es| - 1].Tok?
  }

  /** The shape the parser gives a node of each modelled kind. */
  predicate Shape(n: Node) {
    var es := n.elems;
    match n.kind
    case IdentifierName => |es| == 1 && es[0].Tok?
    case Parameter => |es| == 1 && es[0].Tok?
    case PredefinedType => |es| == 1 && es[0].Tok?
    case GenericName => |es| == 2 && es[0].Tok? && IsChildOfKind(n, 1, TypeArgumentList)
    case TypeArgumentList => IsBracketed(es)
    case SimpleMemberAccessExpression =>
      |es| == 3 && es[0].Sub? && es[1].Tok? && es[2].Sub? && IsSimpleName(es[2].node.kind)
    case PointerMemberAccessExpression =>
      |es| == 3 && es[0].Sub? && es[1].Tok? && es[2].Sub? && IsSimpleName(es[2].node.kind)
    case InvocationExpression => |es| == 2 && es[0].Sub? && IsChildOfKind(n, 1, ArgumentList)
    case ArgumentList =>
      IsBracketed(es) && forall i :: 0 <= i < |es| && es[i].Sub? ==> es[i].node.kind == Argument
    case Argument =>
      // an optional `name:` node and `ref`/`out`/`in` token before the expression
      |es| >= 1 && es[|es| - 1].Sub?
    case SimpleLambdaExpression =>
      // attribute lists and modifiers (`static`, `async`), then `x => body`
      |es| >= 3 && IsChildOfKind(n, |es| - 3, Parameter) && es[|es| - 2].Tok? && es[|es| - 1].Sub?
    case ClassDeclaration => true
    case Other(_) => true
  }

  /** Every node of the tree has its shape: what the parser guarantees. */
  predicate WellFormed(n: Node) {
    Shape(n) && forall i :: 0 <= i < |n.elems| && n.elems[i].Sub? ==> WellFormed(n.elems[i].node)
  }

  lemma ChildWellFormed(n: Node, j: nat)
    requires WellFormed(n) && IsChild(n, j)
    ensures WellFormed(Child(n, j)) && Shape(Child(n, j))
  {
  }

  /** Whether two element lists agree on which elements are tokens and on the kinds of their children. */
  predicate SameSkeleton(a: seq<Elem>, b: seq<Elem>) {
    |a| == |b| &&
    forall i :: 0 <= i < |a| ==>
      a[i].Sub? == b[i].Sub? && (a[i].Sub? ==> a[i].node.kind == b[i].node.kind)
  }

  /** Where the first node of a list is depends only on the list's skeleton. */
  lemma {:induction false} FirstChildIndexSkeleton(a: seq<Elem>, b: seq<Elem>)
    requires SameSkeleton(a, b)
    ensures FirstChildIndex(a) == FirstChildIndex(b)
    decreases |a|
  {
    if a != [] && !a[0].Sub? {
      assert SameSkeleton(a[1..], b[1..]) by {
        forall i | 0 <= i < |a| - 1 ensures a[1..][i].Sub? == b[1..][i].Sub? {
          assert a[1..][i] == a[i + 1] && b[1..][i] == b[i + 1];
        }
      }
      FirstChildIndexSkeleton(a[1..], b[1..]);
    }
  }

  /** The shape of a node depends only on its kind and on its skeleton. */
  lemma ShapeSkeleton(n: Node, m: Node)
    requires n.kind == m.kind && SameSkeleton(n.elems, m.elems)
    ensures Shape(n) <==> Shape(m)
  {
    if n.kind == ArgumentList {
      if Shape(n) {
        forall i | 0 <= i < |m.elems| && m.elems[i].Sub?
          ensures m.elems[i].node.kind == Argument
        {
          assert n.elems[i].Sub?;
        }
      }
      if Shape(m) {
        forall i | 0 <= i < |n.elems| && n.elems[i].Sub?
          ensures n.elems[i].node.kind == Argument
        {
          assert m.elems[i].Sub?;
        }
      }
    }
  }

  /** Replacing a well-formed child by a well-formed node of the same kind keeps the tree well-formed. */
  lemma WithChildWellFormed(n: Node, j: nat, c: Node)
    requires WellFormed(n) && IsChild(n, j) && WellFormed(c) && c.kind == Child(n, j).kind
    ensures WellFormed(WithChild(n, j, c))
  {
    var r := WithChild(n, j, c);
    ShapeSkeleton(n, r);
    forall i | 0 <= i < |r.elems| && r.elems[i].Sub?
      ensures WellFormed(r.elems[i].node)
    {
      if i != j {
        assert r.elems[i] == n.elems[i];
      }
    }
  }

  // ---------------------------------------------------------------- typed views

  /** `InvocationExpressionSyntax.Expression` and `MemberAccessExpressionSyntax.Expression`. */
  function ExpressionOf(n: Node): Node
    requires Shape(n) && (n.kind == InvocationExpression || IsMemberAccess(n.kind))
  {
    Child(n, 0)
  }

  /** `InvocationExpressionSyntax.ArgumentList` */
  function ArgumentListOf(n: Node): Node
    requires Shape(n) && n.kind == InvocationExpression
  {
    Child(n, 1)
  }

  /** `MemberAccessExpressionSyntax.Name` */
  function NameOf(n: Node): Node
    requires Shape(n) && IsMemberAccess(n.kind)
  {
    Child(n, 2)
  }

  /** `GenericNameSyntax.TypeArgumentList` */
  function TypeArgumentListOf(n: Node): Node
    requires Shape(n) && n.kind == GenericName
  {
    Child(n, 1)
  }

  /** `ArgumentSyntax.Expression` */
  function ArgumentExpressionOf(n: Node): Node
    requires Shape(n) && n.kind == Argument
  {
    n.elems[|n.elems| - 1].node
  }

  /** `SimpleLambdaExpressionSyntax.Body` */
  function BodyOf(n: Node): Node
    requires Shape(n) && n.kind == SimpleLambdaExpression
  {
    Child(n, |n.elems| - 1)
  }

  /** `SimpleNameSyntax.Identifier` */
  function IdentifierOf(n: Node): Token
    requires Shape(n) && IsSimpleName(n.kind)
  {
    n.elems[0].token
  }

  // ---------------------------------------------------------------- trivia

  function FirstTokenIn(es: seq<Elem>): Option<Token> {
    if es == [] then None
    else match ElemFirstToken(es[0])
      case Some(t) => Some(t)
      case None => FirstTokenIn(es[1..])
  }

  function ElemFirstToken(e: Elem): Option<Token> {
    match e
    case Tok(t) => Some(t)
    case Sub(c) => FirstTokenIn(c.elems)
  }

  function LastTokenIn(es: seq<Elem>): Option<Token> {
    if es == [] then None
    else match ElemLastToken(es[|es| - 1])
      case Some(t) => Some(t)
      case None => LastTokenIn(es[..|es| - 1])
  }

  function ElemLastToken(e: Elem): Option<Token> {
    match e
    case Tok(t) => Some(t)
    case Sub(c) => LastTokenIn(c.elems)
  }

  /** `GetLeadingTrivia()`: the leading trivia of the first token. */
  function LeadingTrivia(n: Node): string {
    match FirstTokenIn(n.elems)
    case Some(t) => t.leading
    case None => ""
  }

  /** `GetTrailingTrivia()`: the trailing trivia of the last token. */
  function TrailingTrivia(n: Node): string {
    match LastTokenIn(n.elems)
    case Some(t) => t.trailing
    case None => ""
  }

  lemma {:induction false} LastTokenInBound(es: seq<Elem>)
    ensures LastTokenIn(es).Some? ==> |LastTokenIn(es).value.trailing| <= |ElemsText(es)|
  {
    if es != [] {
      var k := |es| - 1;
      ElemsTextSplit(es, k);
      assert es[k + 1..] == [];
      ElemLastTokenBound(es[k]);
      if ElemLastToken(es[k]).None? {
        LastTokenInBound(es[..k]);
      }
    }
  }

  lemma {:induction false} ElemLastTokenBound(e: Elem)
    ensures ElemLastToken(e).Some? ==> |ElemLastToken(e).value.trailing| <= |ElemText(e)|
  {
    match e
    case Tok(_) =>
    case Sub(c) => LastTokenInBound(c.elems);
  }

  /** The trailing trivia of a node lies within its text. */
  lemma TrailingTriviaBound(n: Node)
    ensures |TrailingTrivia(n)| <= |Text(n)|
  {
    LastTokenInBound(n.elems);
  }
}
