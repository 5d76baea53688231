/**
 * The analyzer and the code fix together: the fix reads the pair the
 * diagnostic announced, finds the very call the analyzer flagged, and after
 * the rewrite the analyzer flags every other call it flagged before and
 * nothing new.
 */
module Pipeline {
  import opened Wrappers
  import opened Syntax
  import opened Tree
  import opened Analyzer
  import opened CodeFix

  /** On a `PropertyUtil` call, `IsUtilCall` is the first two checks of the test. */
  lemma UtilCallChecks(n: Node)
    requires WellFormed(n) && IsUtilCall(n)
    ensures IsMemberAccess(Child(n, 0).kind) && IsUtilTypeName(Child(Child(n, 0), 0))
  {
    assert NodeAt(n, [0]) == Child(n, 0);
    CalleePaths(n);
  }

  /**
   * On a `PropertyUtil` call, the casts of the fix all succeed exactly when
   * the analyzer reports, and they read the reported pair (T, P); the type
   * argument they read is an identifier whose value is T.
   */
  lemma OperandsAgree(inv: Node, T: string, P: string)
    requires WellFormed(inv) && IsUtilCall(inv)
    ensures Inspect(inv) == Flag(T, P) <==>
      ExtractOperands(inv).Success? &&
      ExtractOperands(inv).value.typeName == T && ExtractOperands(inv).value.propertyName == P
    ensures ExtractOperands(inv).Success? ==>
      var operands := ExtractOperands(inv).value;
      KindAt(inv, operands.typeArgument, IdentifierName) && ValueAt(inv, operands.typeArgument, operands.typeName)
  {
    UtilCallChecks(inv);
    OperandsTypeArgument(inv);
  }

  /** The type argument the fix reads sits, as an identifier T, at the path it records. */
  lemma OperandsTypeArgument(inv: Node)
    requires WellFormed(inv) && IsUtilCall(inv)
    ensures ExtractOperands(inv).Success? ==>
      var operands := ExtractOperands(inv).value;
      KindAt(inv, operands.typeArgument, IdentifierName) && ValueAt(inv, operands.typeArgument, operands.typeName)
  {
    CalleePaths(inv);
    var ma := Child(inv, 0);
    var name := Child(ma, 2);
    if name.kind == GenericName {
      var tal := Child(name, 1);
      match FirstChildIndex(tal.elems)
      case None =>
      case Some(t) =>
        NodeAtChild(inv, [0, 2], 1);
        assert [0, 2] + [1] == [0, 2, 1];
        NodeAtChild(inv, [0, 2, 1], t);
        assert [0, 2, 1] + [t] == [0, 2, 1, t];
    }
  }

  /** Every depth of a path below p, seen from the root. */
  lemma AncestorsBelow(root: Node, p: Path, s: Path, d: nat)
    requires ValidPath(root, p + s) && d <= |s|
    ensures ValidPath(root, p + s[..d]) && AncestorAt(root, p + s, |p| + d) == NodeAt(root, p + s[..d])
  {
    AncestorIsNodeAt(root, p + s, |p| + d);
    assert (p + s)[..|p| + d] == p + s[..d];
  }

  /** Below an invocation, its callee and the callee's receiver: the innermost invocation is the call. */
  lemma InnermostAboveReceiver(root: Node, p: Path)
    requires ValidPath(root, p + [0, 0]) && ValidPath(root, p) && ValidPath(root, p + [0])
    requires NodeAt(root, p).kind == InvocationExpression
    requires NodeAt(root, p + [0]).kind != InvocationExpression
    requires NodeAt(root, p + [0, 0]).kind != InvocationExpression
    ensures Innermost(root, p + [0, 0], InvocationExpression) == Some(p)
  {
    var q := p + [0, 0];
    AncestorsBelow(root, p, [0, 0], 0);
    AncestorsBelow(root, p, [0, 0], 1);
    AncestorsBelow(root, p, [0, 0], 2);
    assert [0, 0][..0] == [] && [0, 0][..1] == [0] && [0, 0][..2] == [0, 0];
    assert p + [] == p;
    var found := Innermost(root, q, InvocationExpression);
    assert found.Some?;
    assert |found.value| == |p|;
    assert found.value == q[..|p|];
  }

  /** `FindToken` after the leading trivia of an identifier name finds its token. */
  lemma TokenAtIdentifier(root: Node, q: Path)
    requires WellFormed(root) && ValidPath(root, q) && NodeAt(root, q).kind == IdentifierName
    requires |IdentifierOf(NodeAt(root, q)).text| > 0
    ensures FindTokenParent(root, |Before(root, q)| + |IdentifierOf(NodeAt(root, q)).leading|) == Some(q)
  {
    var receiver := NodeAt(root, q);
    var id := IdentifierOf(receiver);
    assert receiver.elems == [Tok(id)];
    assert Text(receiver) == TokenText(id) by {
      assert ElemsText(receiver.elems) == ElemText(receiver.elems[0]) + ElemsText([]);
    }
    LocateAt(receiver.elems, 0, |id.leading|);
    assert FindTokenParent(receiver, |id.leading|) == Some([]);
    FindTokenWithin(root, q, |id.leading|);
    assert q + [] == q;
  }

  /** `LocateInvocation` once the token and the innermost invocation above it are known. */
  lemma LocateVia(root: Node, d: Diagnostic, rest: seq<Diagnostic>, q: Path, p: Path)
    requires FindTokenParent(root, d.location.start) == Some(q)
    requires ValidPath(root, q) && Innermost(root, q, InvocationExpression) == Some(p)
    ensures LocateInvocation(root, [d] + rest) == Success(p)
  {
    assert ([d] + rest)[0] == d;
  }

  /**
   * The token at the start of a reported diagnostic is `PropertyUtil`, and the
   * innermost invocation around it is the call the analyzer flagged, so the
   * fix is registered for that call.
   */
  lemma LocateReported(root: Node, p: Path, d: Diagnostic, rest: seq<Diagnostic>)
    requires WellFormed(root) && ValidPath(root, p) && Analyze(root, p) == Report(d)
    ensures LocateInvocation(root, [d] + rest) == Success(p)
  {
    ReportLocation(root, p, d);
    ReceiverToken(root, p + [0, 0], d.location.start);
    ReportedInnermost(root, p);
    LocateVia(root, d, rest, p + [0, 0], p);
  }

  /** `FindToken` after the leading trivia of the receiver `PropertyUtil` finds the receiver. */
  lemma ReceiverToken(root: Node, q: Path, start: nat)
    requires WellFormed(root) && ValidPath(root, q) && KindAt(root, q, IdentifierName)
    requires ValueText(IdentifierOf(NodeAt(root, q))) == UtilTypeName
    requires start == |Before(root, q)| + |IdentifierOf(NodeAt(root, q)).leading|
    ensures FindTokenParent(root, start) == Some(q)
  {
    var id := IdentifierOf(NodeAt(root, q));
    assert |id.text| > 0 by {
      assert |ValueText(id)| <= |id.text|;
      assert |UtilTypeName| > 0;
    }
    TokenAtIdentifier(root, q);
  }

  /** The innermost invocation around the receiver of a flagged call is that call. */
  lemma ReportedInnermost(root: Node, p: Path)
    requires WellFormed(root) && ValidPath(root, p) && Inspect(NodeAt(root, p)).Flag?
    ensures ValidPath(root, p + [0, 0]) && Innermost(root, p + [0, 0], InvocationExpression) == Some(p)
  {
    FlaggedCallee(NodeAt(root, p));
    NodeAtChild(root, p, 0);
    NodeAtChild(root, p + [0], 0);
    assert p + [0] + [0] == p + [0, 0];
    InnermostAboveReceiver(root, p);
  }

  /** A `nameof(...)` replacement is never flagged: its callee is an identifier, not a member access. */
  lemma ReplacementIgnored(inv: Node, operands: Operands, qualified: bool)
    ensures WellFormed(Replacement(inv, operands, qualified))
    ensures Inspect(Replacement(inv, operands, qualified)) == Ignore
  {
    ReplacementFacts(inv, operands, qualified);
  }

  /**
   * Replacing the invocation at `at` by an invocation that is not flagged and
   * has no invocations below it: a call is flagged afterwards exactly when it
   * was flagged before and is not the replaced call or inside it.
   */
  lemma FlaggedAfterReplace(root: Node, at: Path, m: Node, q: Path)
    requires WellFormed(root) && ValidPath(root, at) && NodeAt(root, at).kind == InvocationExpression
    requires WellFormed(m) && m.kind == InvocationExpression && Inspect(m) == Ignore
    requires forall j :: IsChild(m, j) ==> NoneOfKind(Child(m, j), InvocationExpression)
    ensures WellFormed(ReplaceAt(root, at, m))
    ensures Flagged(ReplaceAt(root, at, m), q) <==> Flagged(root, q) && !(at <= q)
  {
    var result := ReplaceAt(root, at, m);
    ReplaceWellFormed(root, at, m);
    if at <= q {
      ReplaceInside(root, at, m, q);
      var s := q[|at|..];
      if ValidPath(m, s) && s != [] {
        NoneOfKindAt(Child(m, s[0]), InvocationExpression, s[1..]);
      }
    } else if q < at {
      ReplaceAncestor(root, at, m, q);
      var a := NodeAt(root, q);
      var r := at[|q|..];
      PathConcat(root, q, r);
      assert q + r == at;
      ReplaceOutline(a, r, m);
      InspectOutline(a, NodeAt(result, q));
    } else {
      ReplaceDisjoint(root, at, m, q);
    }
  }

  /** The fix on a flagged call reads (T, P) off the call without a fault. */
  lemma FlaggedOperands(inv: Node, T: string, P: string)
    requires WellFormed(inv) && Inspect(inv) == Flag(T, P)
    ensures ExtractOperands(inv).Success?
    ensures ExtractOperands(inv).value.typeName == T && ExtractOperands(inv).value.propertyName == P
  {
    InspectFlagged(inv, T, P);
    OperandsAgree(inv, T, P);
  }

  /**
   * The code fix applied for a diagnostic the analyzer reported on the call at
   * p: none of its casts fails, so it throws only when no class encloses the
   * call or the type argument has no symbol; otherwise it replaces that call
   * by `nameof(P)` or `nameof(T.P)` with the reported T and P, the tree stays
   * well-formed, the new call is not flagged, and the calls flagged
   * afterwards are exactly the ones flagged before outside the rewritten call.
   */
  lemma FixOfReport(root: Node, p: Path, d: Diagnostic, rest: seq<Diagnostic>, model: SemanticModel)
    requires WellFormed(root) && ValidPath(root, p) && Analyze(root, p) == Report(d)
    ensures ExtractOperands(NodeAt(root, p)).Success?
    ensures var operands := ExtractOperands(NodeAt(root, p)).value;
      [operands.typeName, operands.propertyName] == d.arguments
    ensures var operands := ExtractOperands(NodeAt(root, p)).value;
      var enclosing := Innermost(root, p, ClassDeclaration);
      var symbol := model.symbolOf(p + operands.typeArgument);
      var r := Fix(root, [d] + rest, model);
      && (r.Failure? <==> enclosing.None? || symbol.None?)
      && (r.Failure? ==> r.error == if enclosing.None? then ArgumentNull else NullReference)
      && (r.Success? ==>
            var qualified := model.declaredSymbolOf(enclosing.value) != symbol;
            && WellFormed(r.value)
            && Text(r.value) == Before(root, p) + ReplacementText(NodeAt(root, p), operands, qualified) + After(root, p)
            && ValidPath(r.value, p) && Analyze(r.value, p) == NoDiagnostic
            && forall q :: Flagged(r.value, q) <==> Flagged(root, q) && !(p <= q))
  {
    var inv := NodeAt(root, p);
    var T, P := Inspect(inv).typeName, Inspect(inv).propertyName;
    FlaggedOperands(inv, T, P);
    LocateReported(root, p, d, rest);
    var operands := ExtractOperands(inv).value;
    var r := Fix(root, [d] + rest, model);
    assert r == UseNameOf(root, p, model);
    if r.Success? {
      UseNameOfRewrites(root, p, model);
      var enclosing := Innermost(root, p, ClassDeclaration);
      var qualified := model.declaredSymbolOf(enclosing.value) != model.symbolOf(p + operands.typeArgument);
      var m := Replacement(inv, operands, qualified);
      RewriteFacts(root, p, operands, qualified);
      ReplacementIgnored(inv, operands, qualified);
      ReplacementFacts(inv, operands, qualified);
      forall q ensures Flagged(r.value, q) <==> Flagged(root, q) && !(p <= q) {
        FlaggedAfterReplace(root, p, m, q);
      }
    }
  }
}
