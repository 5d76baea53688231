/**
 * Positions in a syntax tree: paths to nodes, the text before and after a
 * node, replacing one node (`ReplaceNode`), finding the token at a position
 * (`FindToken`) and searching the ancestors of a node (`AncestorsAndSelf`).
 */
module Tree {
  import opened Wrappers
  import opened Syntax

  /** A path from a node to one of its descendants: element indices, outermost first. */
  type Path = seq<nat>

  predicate ValidPath(n: Node, p: Path)
    decreases |p|
  {
    p == [] || (IsChild(n, p[0]) && ValidPath(Child(n, p[0]), p[1..]))
  }

  function NodeAt(n: Node, p: Path): (r: Node)
    requires ValidPath(n, p)
    ensures WellFormed(n) ==> WellFormed(r)
    decreases |p|
  {
    if p == [] then n else NodeAt(Child(n, p[0]), p[1..])
  }

  /** `root.ReplaceNode(NodeAt(root, p), m)` */
  function ReplaceAt(n: Node, p: Path, m: Node): Node
    requires ValidPath(n, p)
    decreases |p|
  {
    if p == [] then m else WithChild(n, p[0], ReplaceAt(Child(n, p[0]), p[1..], m))
  }

  /** The text of n that precedes the node at p; its length is where that node's full span starts. */
  function Before(n: Node, p: Path): string
    requires ValidPath(n, p)
    decreases |p|
  {
    if p == [] then "" else ElemsText(n.elems[..p[0]]) + Before(Child(n, p[0]), p[1..])
  }

  /** The text of n that follows the node at p. */
  function After(n: Node, p: Path): string
    requires ValidPath(n, p)
    decreases |p|
  {
    if p == [] then "" else After(Child(n, p[0]), p[1..]) + ElemsText(n.elems[p[0] + 1..])
  }

  // ------------------------------------------------------------ path lemmas

  lemma {:induction false} PathConcat(n: Node, p: Path, s: Path)
    requires ValidPath(n, p)
    ensures ValidPath(n, p + s) <==> ValidPath(NodeAt(n, p), s)
    ensures ValidPath(n, p + s) ==> NodeAt(n, p + s) == NodeAt(NodeAt(n, p), s)
    ensures ValidPath(n, p + s) ==> Before(n, p + s) == Before(n, p) + Before(NodeAt(n, p), s)
    decreases |p|
  {
    if p != [] {
      assert (p + s)[0] == p[0];
      assert (p + s)[1..] == p[1..] + s;
      PathConcat(Child(n, p[0]), p[1..], s);
    } else {
      assert p + s == s;
    }
  }

  lemma {:induction false} PrefixValid(n: Node, p: Path, q: Path)
    requires ValidPath(n, p) && q <= p
    ensures ValidPath(n, q)
    decreases |p|
  {
    if q != [] {
      PrefixValid(Child(n, p[0]), p[1..], q[1..]);
    }
  }

  /** One step further down a path. */
  lemma NodeAtChild(n: Node, q: Path, j: nat)
    requires ValidPath(n, q) && IsChild(NodeAt(n, q), j)
    ensures ValidPath(n, q + [j]) && NodeAt(n, q + [j]) == Child(NodeAt(n, q), j)
  {
    PathConcat(n, q, [j]);
  }

  /** A node's text is the text before it, its own text and the text after it. */
  lemma {:induction false} Decompose(n: Node, p: Path)
    requires ValidPath(n, p)
    ensures Text(n) == Before(n, p) + Text(NodeAt(n, p)) + After(n, p)
    decreases |p|
  {
    if p != [] {
      Decompose(Child(n, p[0]), p[1..]);
      ElemsTextSplit(n.elems, p[0]);
    }
  }

  lemma BeforeBound(n: Node, p: Path)
    requires ValidPath(n, p)
    ensures |Before(n, p)| + |Text(NodeAt(n, p))| <= |Text(n)|
  {
    Decompose(n, p);
  }

  /** The text of n with its j-th element replaced by the child c. */
  lemma WithChildText(n: Node, j: nat, c: Node)
    requires IsChild(n, j)
    ensures Text(WithChild(n, j, c)) == ElemsText(n.elems[..j]) + Text(c) + ElemsText(n.elems[j + 1..])
  {
    var r := WithChild(n, j, c);
    assert r.elems[..j] == n.elems[..j];
    assert r.elems[j + 1..] == n.elems[j + 1..];
    ElemsTextSplit(r.elems, j);
  }

  /** After replacing the node at p, the node at p is m and what surrounds it is as it was. */
  lemma {:induction false} ReplaceKeepsContext(n: Node, p: Path, m: Node)
    requires ValidPath(n, p)
    ensures ValidPath(ReplaceAt(n, p, m), p) && NodeAt(ReplaceAt(n, p, m), p) == m
    ensures Before(ReplaceAt(n, p, m), p) == Before(n, p)
    ensures After(ReplaceAt(n, p, m), p) == After(n, p)
    decreases |p|
  {
    if p != [] {
      var j := p[0];
      var r := ReplaceAt(n, p, m);
      ReplaceKeepsContext(Child(n, j), p[1..], m);
      assert r.elems[..j] == n.elems[..j];
      assert r.elems[j + 1..] == n.elems[j + 1..];
    }
  }

  /** Replacing the node at p changes the text only where that node was. */
  lemma {:induction false} ReplaceText(n: Node, p: Path, m: Node)
    requires ValidPath(n, p)
    ensures Text(ReplaceAt(n, p, m)) == Before(n, p) + Text(m) + After(n, p)
    decreases |p|
  {
    if p != [] {
      var j, c := p[0], Child(n, p[0]);
      var c' := ReplaceAt(c, p[1..], m);
      ReplaceText(c, p[1..], m);
      WithChildText(n, j, c');
      var a, z := ElemsText(n.elems[..j]), ElemsText(n.elems[j + 1..]);
      var b, y := Before(c, p[1..]), After(c, p[1..]);
      assert Text(c') == b + Text(m) + y;
      assert a + (b + Text(m) + y) + z == (a + b) + Text(m) + (y + z);
    }
  }

  /** Nodes neither on the path to the replaced node nor below it are unchanged. */
  lemma {:induction false} ReplaceDisjoint(n: Node, p: Path, m: Node, q: Path)
    requires ValidPath(n, p) && !(p <= q) && !(q <= p)
    ensures ValidPath(ReplaceAt(n, p, m), q) <==> ValidPath(n, q)
    ensures ValidPath(n, q) ==> NodeAt(ReplaceAt(n, p, m), q) == NodeAt(n, q)
    decreases |p|
  {
    if q[0] == p[0] {
      ReplaceDisjoint(Child(n, p[0]), p[1..], m, q[1..]);
    }
  }

  /** A strict ancestor of the replaced node has the replacement inside it. */
  lemma {:induction false} ReplaceAncestor(n: Node, p: Path, m: Node, q: Path)
    requires ValidPath(n, p) && q < p
    ensures ValidPath(n, q) && ValidPath(ReplaceAt(n, p, m), q)
    ensures ValidPath(NodeAt(n, q), p[|q|..])
    ensures NodeAt(ReplaceAt(n, p, m), q) == ReplaceAt(NodeAt(n, q), p[|q|..], m)
    decreases |p|
  {
    PrefixValid(n, p, q);
    if q != [] {
      ReplaceAncestor(Child(n, p[0]), p[1..], m, q[1..]);
      assert p[1..][|q| - 1..] == p[|q|..];
    } else {
      assert p[0..] == p;
    }
  }

  /** Below the replaced node, the new tree is the replacement. */
  lemma {:induction false} ReplaceInside(n: Node, p: Path, m: Node, q: Path)
    requires ValidPath(n, p) && p <= q
    ensures ValidPath(ReplaceAt(n, p, m), q) <==> ValidPath(m, q[|p|..])
    ensures ValidPath(m, q[|p|..]) ==> NodeAt(ReplaceAt(n, p, m), q) == NodeAt(m, q[|p|..])
    decreases |p|
  {
    if p != [] {
      ReplaceInside(Child(n, p[0]), p[1..], m, q[1..]);
      assert q[1..][|p| - 1..] == q[|p|..];
    } else {
      assert q[0..] == q;
    }
  }

  /** Replacing a node of a well-formed tree by a well-formed node of its kind keeps the tree well-formed. */
  lemma {:induction false} ReplaceWellFormed(n: Node, p: Path, m: Node)
    requires WellFormed(n) && ValidPath(n, p) && WellFormed(m) && m.kind == NodeAt(n, p).kind
    ensures WellFormed(ReplaceAt(n, p, m))
    decreases |p|
  {
    if p != [] {
      var c := Child(n, p[0]);
      ReplaceWellFormed(c, p[1..], m);
      if p[1..] != [] {
        assert ReplaceAt(c, p[1..], m).kind == c.kind;
      }
      WithChildWellFormed(n, p[0], ReplaceAt(c, p[1..], m));
    }
  }

  // ------------------------------------------------------------ FindToken

  /** The element of es whose full text covers pos, and pos relative to that element. */
  function Locate(es: seq<Elem>, pos: nat): (r: Option<(nat, nat)>)
    ensures r.Some? ==> r.value.0 < |es|
  {
    if es == [] then None
    else if pos < |ElemText(es[0])| then Some((0, pos))
    else match Locate(es[1..], pos - |ElemText(es[0])|)
      case None => None
      case Some((j, k)) => Some((j + 1, k))
  }

  /** A position inside the j-th element is located in the j-th element. */
  lemma {:induction false} LocateAt(es: seq<Elem>, j: nat, k: nat)
    requires j < |es| && k < |ElemText(es[j])|
    ensures Locate(es, |ElemsText(es[..j])| + k) == Some((j, k))
  {
    if j > 0 {
      assert es[..j] == [es[0]] + es[1..][..j - 1];
      ElemsTextAppend([es[0]], es[1..][..j - 1]);
      LocateAt(es[1..], j - 1, k);
    }
  }

  /** Only a position past the end of the elements is not located. */
  lemma {:induction false} LocateNone(es: seq<Elem>, pos: nat)
    ensures Locate(es, pos).None? <==> pos >= |ElemsText(es)|
    ensures Locate(es, pos).Some? ==> Locate(es, pos).value.1 < |ElemText(es[Locate(es, pos).value.0])|
  {
    if es != [] && pos >= |ElemText(es[0])| {
      LocateNone(es[1..], pos - |ElemText(es[0])|);
    }
  }

  /**
   * `FindToken(pos).Parent`: the path to the node one of whose own tokens
   * covers pos, found by descending through the children that cover it.
   */
  function FindTokenParent(n: Node, pos: nat): Option<Path> {
    match Locate(n.elems, pos)
    case None => None
    case Some((j, k)) =>
      if n.elems[j].Tok? then Some([]) else Under([j], FindTokenParent(n.elems[j].node, k))
  }

  /** The path `FindToken` gives is a path of the tree. */
  lemma {:induction false} FindTokenValid(n: Node, pos: nat)
    ensures FindTokenParent(n, pos).Some? ==> ValidPath(n, FindTokenParent(n, pos).value)
  {
    match Locate(n.elems, pos)
    case None =>
    case Some((j, k)) =>
      if n.elems[j].Sub? {
        FindTokenValid(n.elems[j].node, k);
      }
  }

  /** q prepended to a path that may be missing. */
  function Under(q: Path, r: Option<Path>): Option<Path> {
    match r
    case None => None
    case Some(s) => Some(q + s)
  }

  /** `FindToken` finds a token exactly at the positions within the node's full span. */
  lemma {:induction false} FindTokenNone(n: Node, pos: nat)
    ensures FindTokenParent(n, pos).None? <==> pos >= |Text(n)|
  {
    LocateNone(n.elems, pos);
    match Locate(n.elems, pos)
    case None =>
    case Some((j, k)) =>
      if n.elems[j].Sub? {
        FindTokenNone(n.elems[j].node, k);
      }
  }

  /** A position inside the j-th element, a child, is searched for in that child. */
  lemma FindTokenStep(n: Node, j: nat, x: nat, pos: nat)
    requires IsChild(n, j) && x < |Text(Child(n, j))| && pos == |ElemsText(n.elems[..j])| + x
    ensures FindTokenParent(n, pos) == Under([j], FindTokenParent(Child(n, j), x))
  {
    LocateAt(n.elems, j, x);
  }

  lemma UnderUnder(j: nat, q: Path, r: Option<Path>)
    ensures Under([j], Under(q, r)) == Under([j] + q, r)
  {
    if r.Some? {
      assert [j] + (q + r.value) == ([j] + q) + r.value;
    }
  }

  /** The token found at a position inside a node is found within that node. */
  lemma {:induction false} FindTokenWithin(n: Node, q: Path, k: nat)
    requires ValidPath(n, q) && k < |Text(NodeAt(n, q))|
    ensures FindTokenParent(n, |Before(n, q)| + k) == Under(q, FindTokenParent(NodeAt(n, q), k))
    decreases |q|
  {
    if q == [] {
      assert |Before(n, q)| + k == k && NodeAt(n, q) == n;
      var found := FindTokenParent(n, k);
      if found.Some? {
        assert [] + found.value == found.value;
      }
      assert Under(q, found) == found;
    } else {
      var j, c, rest := q[0], Child(n, q[0]), q[1..];
      var inner := NodeAt(c, rest);
      assert NodeAt(n, q) == inner;
      var x := |Before(c, rest)| + k;
      assert |Before(n, q)| + k == |ElemsText(n.elems[..j])| + x;
      BeforeBound(c, rest);
      var inside := FindTokenParent(inner, k);
      FindTokenWithin(c, rest, k);
      assert FindTokenParent(c, x) == Under(rest, inside);
      var pos := |Before(n, q)| + k;
      FindTokenStep(n, j, x, pos);
      UnderUnder(j, rest, inside);
      assert [j] + rest == q;
      assert FindTokenParent(n, pos) == Under(q, inside);
    }
  }

  // ------------------------------------------------------------ ancestors

  /** The ancestor of the node at path whose depth is k (`path[..k]`). */
  function AncestorAt(n: Node, path: Path, k: nat): Node
    requires ValidPath(n, path) && k <= |path|
    decreases k
  {
    if k == 0 then n else AncestorAt(Child(n, path[0]), path[1..], k - 1)
  }

  lemma {:induction false} AncestorIsNodeAt(n: Node, path: Path, k: nat)
    requires ValidPath(n, path) && k <= |path|
    ensures ValidPath(n, path[..k]) && AncestorAt(n, path, k) == NodeAt(n, path[..k])
    decreases k
  {
    if k > 0 {
      AncestorIsNodeAt(Child(n, path[0]), path[1..], k - 1);
      assert path[..k][1..] == path[1..][..k - 1];
    }
  }

  /**
   * `AncestorsAndSelf().OfType<K>().First()` and `FirstAncestorOrSelf<K>()`
   * for the node at path: the deepest node of kind k on the way from n to it.
   */
  function Innermost(n: Node, path: Path, k: Kind): (r: Option<Path>)
    requires ValidPath(n, path)
    ensures r.Some? ==> r.value <= path && AncestorAt(n, path, |r.value|).kind == k
    ensures r.Some? ==> forall d :: |r.value| < d <= |path| ==> AncestorAt(n, path, d).kind != k
    ensures r.None? ==> forall d :: 0 <= d <= |path| ==> AncestorAt(n, path, d).kind != k
    decreases |path|
  {
    if path == [] then (if n.kind == k then Some([]) else None)
    else
      var below := Innermost(Child(n, path[0]), path[1..], k);
      assert forall d :: 1 <= d <= |path| ==>
        AncestorAt(n, path, d) == AncestorAt(Child(n, path[0]), path[1..], d - 1);
      match below
      case Some(s) => Some([path[0]] + s)
      case None => if n.kind == k then Some([]) else None
  }

  // ------------------------------------------------------------ kinds

  /** No node of the tree n has kind k. */
  predicate NoneOfKind(n: Node, k: Kind)
    decreases n
  {
    n.kind != k && forall i :: 0 <= i < |n.elems| && n.elems[i].Sub? ==> NoneOfKind(n.elems[i].node, k)
  }

  lemma {:induction false} NoneOfKindAt(n: Node, k: Kind, p: Path)
    requires NoneOfKind(n, k) && ValidPath(n, p)
    ensures NodeAt(n, p).kind != k
    decreases |p|
  {
    if p != [] {
      NoneOfKindAt(Child(n, p[0]), k, p[1..]);
    }
  }
}
