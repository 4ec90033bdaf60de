// What stays in place when bytes of a property value are overwritten: every offset and every path.
module Forms {
  import opened Bytes
  import opened Tokens
  import opened Structure
  import opened Blobs
  import opened Readers
  import opened Edits
  import opened Editor
  import opened Children
  import opened Decode

  // The same nodes and leaves with the same lengths; values may differ.
  ghost predicate SameForm(a: Items, b: Items) {
    match a
    case Done => b == Done
    case Leaf(t, r) => b.Leaf? && |b.tok.Enc()| == |t.Enc()| && SameForm(r, b.rest)
    case Sub(n, p, body, r) => b.Sub? && b.name == n && b.npad == p && SameForm(body, b.body) && SameForm(r, b.rest)
  }

  lemma {:induction false} FormSelf(a: Items)
    ensures SameForm(a, a)
  {
    match a
    case Done =>
    case Leaf(_, r) => FormSelf(r);
    case Sub(_, _, body, r) =>
      FormSelf(body);
      FormSelf(r);
  }

  lemma {:induction false} FormTwice(a: Items, b: Items, c: Items)
    requires SameForm(a, b) && SameForm(b, c)
    ensures SameForm(a, c)
  {
    hide Token.Enc;
    match a
    case Done =>
    case Leaf(_, r) => FormTwice(r, b.rest, c.rest);
    case Sub(_, _, body, r) =>
      FormTwice(body, b.body, c.body);
      FormTwice(r, b.rest, c.rest);
  }

  // Token by token: the same openings and closings, and the same lengths.
  ghost predicate Alike(t: Token, u: Token) {
    |t.Enc()| == |u.Enc()| && (t.Begin? || u.Begin? ==> t == u)
  }

  ghost predicate AllAlike(a: seq<Token>, b: seq<Token>) {
    |a| == |b| && forall i :: 0 <= i < |a| ==> Alike(a[i], b[i])
  }

  lemma {:induction false} FormToks(a: Items, b: Items)
    requires SameForm(a, b)
    ensures AllAlike(Toks(a), Toks(b))
  {
    hide Token.Enc;
    match a
    case Done =>
    case Leaf(t, r) =>
      FormToks(r, b.rest);
      AlikeConcat([t], [b.tok], Toks(r), Toks(b.rest));
    case Sub(n, p, body, r) =>
      FormToks(body, b.body);
      FormToks(r, b.rest);
      AlikeConcat([EndNode], [EndNode], Toks(r), Toks(b.rest));
      AlikeConcat(Toks(body), Toks(b.body), [EndNode] + Toks(r), [EndNode] + Toks(b.rest));
      AlikeConcat([Begin(n, p)], [Begin(n, p)], Toks(body) + ([EndNode] + Toks(r)),
                  Toks(b.body) + ([EndNode] + Toks(b.rest)));
  }

  lemma AlikeConcat(a: seq<Token>, b: seq<Token>, x: seq<Token>, y: seq<Token>)
    requires AllAlike(a, b) && AllAlike(x, y)
    ensures AllAlike(a + x, b + y)
  {
    hide Alike;
  }

  lemma {:induction false} AlikeOff(a: seq<Token>, b: seq<Token>, k: nat)
    requires AllAlike(a, b) && k <= |a|
    ensures Off(a, k) == Off(b, k)
    decreases k
  {
    hide Token.Enc, EncAll, Off;
    if k > 0 {
      AlikeOff(a, b, k - 1);
      OffStep(a, k - 1);
      OffStep(b, k - 1);
      assert Alike(a[k - 1], b[k - 1]);
    } else {
      OffNone(a);
      OffNone(b);
    }
  }

  lemma OffNone(ts: seq<Token>)
    ensures Off(ts, 0) == 0
  {
  }

  lemma {:induction false} FormNode(a: Items, b: Items, i: nat)
    requires SameForm(a, b) && IsNode(a, i)
    ensures IsNode(b, i) && PathAt(b, i) == PathAt(a, i) && SameForm(NodeAt(a, i), NodeAt(b, i))
    decreases a
  {
    hide Token.Enc, Toks, PathAt, NodeAt, IsNode;
    WhichNode(a, i);
    FormToks(a, b);
    match a
    case Leaf(t, r) =>
      FormNode(r, b.rest, i - 1);
      InsideLeaf(t, r, i - 1);
      InsideLeaf(b.tok, b.rest, i - 1);
    case Sub(n, p, body, r) =>
      FormToks(body, b.body);
      if i == 0 {
        FirstNode(a);
        FirstNode(b);
      } else if i <= |Toks(body)| {
        FormNode(body, b.body, i - 1);
        InsideSub(a, i - 1);
        InsideSub(b, i - 1);
      } else {
        var j := i - |Toks(body)| - 2;
        FormNode(r, b.rest, j);
        BesideSub(a, j);
        BesideSub(b, j);
      }
  }

  lemma FirstNode(a: Items)
    requires a.Sub?
    ensures IsNode(a, 0) && PathAt(a, 0) == [0] && NodeAt(a, 0) == Sub(a.name, a.npad, a.body, Done)
  {
  }

  // Node offsets, token indexes and paths are the same.
  lemma FormOffsets(a: Items, b: Items, n: nat)
    requires SameForm(a, b) && IsNodeOffset(a, n)
    ensures IsNodeOffset(b, n) && IndexAt(b, n) == IndexAt(a, n)
    ensures PathAt(b, IndexAt(b, n)) == PathAt(a, IndexAt(a, n))
  {
    hide Token.Enc, Toks, PathAt, NodeAt, Off, Alike;
    var i := IndexAt(a, n);
    FormNode(a, b, i);
    FormToks(a, b);
    EndAlike();
    AlikeConcat(Toks(a), Toks(b), [End], [End]);
    NameInStream(a, i);
    AlikeOff(Stream(a), Stream(b), i);
    IndexUnique(b, i);
  }

  lemma EndAlike()
    ensures AllAlike([End], [End])
  {
  }

  lemma {:induction false} FormReplace(it: Items, i: nat, frag: Items)
    requires IsNode(it, i) && SameForm(NodeAt(it, i), frag)
    ensures SameForm(it, ReplaceAt(it, i, frag))
  {
    hide Token.Enc, Toks, IsNode;
    NodeSplit(it, i);
    match it
    case Leaf(_, rest) => FormReplace(rest, i - 1, frag);
    case Sub(_, _, body, rest) =>
      FormSelf(body);
      FormSelf(rest);
      if i == 0 {
        assert frag.Sub? && frag.rest == Done;
        assert Append(frag, rest) == Sub(frag.name, frag.npad, frag.body, Append(Done, rest));
      } else if i <= |Toks(body)| {
        FormReplace(body, i - 1, frag);
      } else {
        FormReplace(rest, i - |Toks(body)| - 2, frag);
      }
  }

  lemma {:induction false} FormReplaceProp(body: Items, k: nat, t: LeafToken, u: LeafToken)
    requires IsPropOf(body, k) && k < |Toks(body)| && Toks(body)[k] == t && |u.Enc()| == |t.Enc()|
    ensures SameForm(body, ReplaceProp(body, k, Leaf(u, Done)))
  {
    hide Token.Enc;
    FormSelf(body.rest);
    if k > 0 {
      FormReplaceProp(body.rest, k - 1, t, u);
    } else {
      assert Append(Leaf(u, Done), body.rest) == Leaf(u, Append(Done, body.rest));
    }
  }

  // Nodes that an edit does not reach ----------------------------------------------------------------

  predicate Prefix(p: seq<nat>, q: seq<nat>) {
    |p| <= |q| && q[..|p|] == p
  }

  predicate Incomparable(p: seq<nat>, q: seq<nat>) {
    !Prefix(p, q) && !Prefix(q, p)
  }

  ghost predicate SameNode(a: Items, b: Items, x: nat) {
    IsNode(a, x) && IsNode(b, x) && NodeAt(b, x) == NodeAt(a, x)
  }

  // A changed property value is in no node inside the contents.
  lemma {:induction false} PropBesideNode(body: Items, k: nat, u: LeafToken, y: nat)
    requires IsPropOf(body, k) && IsNode(body, y)
    ensures SameNode(body, ReplaceProp(body, k, Leaf(u, Done)), y)
  {
    if k > 0 {
      PropBesideNode(body.rest, k - 1, u, y - 1);
      InsideLeaf(body.tok, body.rest, y - 1);
      InsideLeaf(body.tok, ReplaceProp(body.rest, k - 1, Leaf(u, Done)), y - 1);
    } else {
      assert Append(Leaf(u, Done), body.rest) == Leaf(u, Append(Done, body.rest));
      InsideLeaf(body.tok, body.rest, y - 1);
      InsideLeaf(u, body.rest, y - 1);
    }
  }

  // Node i gets new contents of the same form with the same nodes in it: all nodes but i and those
  // around it are as before.
  lemma {:induction false} FarNode(it: Items, i: nat, frag: Items, x: nat)
    requires IsNode(it, i) && SameForm(NodeAt(it, i), frag) && IsNode(it, x)
    requires forall y :: IsNode(NodeAt(it, i).body, y) ==> SameNode(NodeAt(it, i).body, frag.body, y)
    requires !Prefix(PathAt(it, x), PathAt(it, i))
    ensures SameNode(it, ReplaceAt(it, i, frag), x)
    decreases it
  {
    hide Token.Enc, Toks, PathAt, NodeAt, IsNode, ReplaceAt, SameForm, SameNode;
    WhichNode(it, i);
    WhichNode(it, x);
    if it.Leaf? {
      LeafOf(it, i, frag);
      InsideLeaf(it.tok, it.rest, i - 1);
      InsideLeaf(it.tok, it.rest, x - 1);
      FarNode(it.rest, i - 1, frag, x - 1);
      SameLeaf(it.tok, it.rest, ReplaceAt(it.rest, i - 1, frag), x - 1);
    } else if i == 0 {
      FarFromFirst(it, frag, x);
    } else if i <= |Toks(it.body)| {
      FarBelow(it, i, frag, x);
    } else {
      FarBeside(it, i, frag, x);
    }
  }

  lemma LeafOf(it: Items, i: nat, frag: Items)
    requires it.Leaf? && IsNode(it, i)
    ensures i > 0 && IsNode(it.rest, i - 1) && ReplaceAt(it, i, frag) == Leaf(it.tok, ReplaceAt(it.rest, i - 1, frag))
  {
  }

  lemma SameLeaf(tok: LeafToken, a: Items, b: Items, x: nat)
    requires SameNode(a, b, x)
    ensures SameNode(Leaf(tok, a), Leaf(tok, b), x + 1)
  {
    hide Toks, NodeAt, IsNode;
    InsideLeaf(tok, a, x);
    InsideLeaf(tok, b, x);
  }

  // Nodes behind the first one, and inside it.
  lemma SameBeside(a: Items, b: Items, x: nat)
    requires a.Sub? && b.Sub? && |Toks(a.body)| == |Toks(b.body)| && SameNode(a.rest, b.rest, x)
    ensures SameNode(a, b, x + |Toks(a.body)| + 2)
  {
    hide Toks, NodeAt, IsNode;
    BesideSub(a, x);
    BesideSub(b, x);
  }

  lemma SameInside(a: Items, b: Items, x: nat)
    requires a.Sub? && b.Sub? && SameNode(a.body, b.body, x)
    ensures SameNode(a, b, x + 1)
  {
    hide Toks, NodeAt, IsNode;
    InsideSub(a, x);
    InsideSub(b, x);
  }

  lemma SameSelf(a: Items, x: nat)
    requires IsNode(a, x)
    ensures SameNode(a, a, x)
  {
  }

  lemma FarFromFirst(it: Items, frag: Items, x: nat)
    requires it.Sub? && IsNode(it, 0) && SameForm(NodeAt(it, 0), frag) && IsNode(it, x)
    requires forall y :: IsNode(NodeAt(it, 0).body, y) ==> SameNode(NodeAt(it, 0).body, frag.body, y)
    requires !Prefix(PathAt(it, x), PathAt(it, 0))
    ensures SameNode(it, ReplaceAt(it, 0, frag), x)
  {
    hide Toks, NodeAt, IsNode, PathAt, ReplaceAt, SameNode, Token.Enc;
    FirstNode(it);
    FirstReplaced(it, frag);
    WhichNode(it, x);
    FormToks(it.body, frag.body);
    FirstIsPrefix([0]);
    if 0 < x <= |Toks(it.body)| {
      SameInside(it, ReplaceAt(it, 0, frag), x - 1);
    } else if x > 0 {
      SameSelf(it.rest, x - |Toks(it.body)| - 2);
      SameBeside(it, ReplaceAt(it, 0, frag), x - |Toks(it.body)| - 2);
    }
  }

  lemma FirstIsPrefix(p: seq<nat>)
    requires |p| > 0 && p[0] == 0
    ensures Prefix([0], p)
  {
    assert p[..1] == [0];
  }

  lemma FirstReplaced(it: Items, frag: Items)
    requires it.Sub? && frag.Sub? && frag.rest == Done && IsNode(it, 0)
    ensures ReplaceAt(it, 0, frag) == Sub(frag.name, frag.npad, frag.body, it.rest)
  {
    assert Append(Done, it.rest) == it.rest;
  }

  lemma {:induction false} FarBelow(it: Items, i: nat, frag: Items, x: nat)
    requires it.Sub? && 0 < i <= |Toks(it.body)| && IsNode(it, i) && IsNode(it.body, i - 1)
    requires SameForm(NodeAt(it, i), frag) && IsNode(it, x)
    requires forall y :: IsNode(NodeAt(it, i).body, y) ==> SameNode(NodeAt(it, i).body, frag.body, y)
    requires !Prefix(PathAt(it, x), PathAt(it, i))
    ensures SameNode(it, ReplaceAt(it, i, frag), x)
    decreases it, 0
  {
    hide Toks, NodeAt, IsNode, PathAt, ReplaceAt, SameNode, SameForm, Token.Enc;
    InsideSub(it, i - 1);
    var b := ReplaceAt(it.body, i - 1, frag);
    assert ReplaceAt(it, i, frag) == Sub(it.name, it.npad, b, it.rest) by { BodyReplacedIs(it, i, frag); }
    FormReplace(it.body, i - 1, frag);
    FormToks(it.body, b);
    WhichNode(it, x);
    FirstNode(it);
    FirstIsPrefix([0] + PathAt(it.body, i - 1));
    if 0 < x <= |Toks(it.body)| {
      InsideSub(it, x - 1);
      PrefixBelow(PathAt(it.body, x - 1), PathAt(it.body, i - 1));
      FarNode(it.body, i - 1, frag, x - 1);
      SameInside(it, Sub(it.name, it.npad, b, it.rest), x - 1);
    } else if x > 0 {
      SameSelf(it.rest, x - |Toks(it.body)| - 2);
      SameBeside(it, Sub(it.name, it.npad, b, it.rest), x - |Toks(it.body)| - 2);
    }
  }

  lemma BodyReplacedIs(it: Items, i: nat, frag: Items)
    requires it.Sub? && 0 < i <= |Toks(it.body)| && IsNode(it, i) && IsNode(it.body, i - 1)
    ensures ReplaceAt(it, i, frag) == Sub(it.name, it.npad, ReplaceAt(it.body, i - 1, frag), it.rest)
  {
  }

  lemma PrefixBelow(p: seq<nat>, q: seq<nat>)
    ensures Prefix([0] + p, [0] + q) <==> Prefix(p, q)
  {
    if |p| <= |q| {
      assert ([0] + q)[..|[0] + p|] == [0] + q[..|p|];
      assert ([0] + p)[1..] == p && ([0] + q[..|p|])[1..] == q[..|p|];
    }
  }

  lemma {:induction false} FarBeside(it: Items, i: nat, frag: Items, x: nat)
    requires it.Sub? && i >= |Toks(it.body)| + 2 && IsNode(it, i) && IsNode(it.rest, i - |Toks(it.body)| - 2)
    requires SameForm(NodeAt(it, i), frag) && IsNode(it, x)
    requires forall y :: IsNode(NodeAt(it, i).body, y) ==> SameNode(NodeAt(it, i).body, frag.body, y)
    requires !Prefix(PathAt(it, x), PathAt(it, i))
    ensures SameNode(it, ReplaceAt(it, i, frag), x)
    decreases it, 0
  {
    hide Toks, NodeAt, IsNode, PathAt, ReplaceAt, SameNode, SameForm, Token.Enc;
    var m := |Toks(it.body)| + 2;
    BesideSub(it, i - m);
    var r := ReplaceAt(it.rest, i - m, frag);
    assert ReplaceAt(it, i, frag) == Sub(it.name, it.npad, it.body, r) by { RestReplacedIs(it, i, frag); }
    WhichNode(it, x);
    if x == 0 {
      FirstSame(it, r);
    } else if x <= |Toks(it.body)| {
      SameSelf(it.body, x - 1);
      SameInside(it, Sub(it.name, it.npad, it.body, r), x - 1);
    } else {
      BesideSub(it, x - m);
      PrefixBeside(PathAt(it.rest, x - m), PathAt(it.rest, i - m));
      FarNode(it.rest, i - m, frag, x - m);
      SameBeside(it, Sub(it.name, it.npad, it.body, r), x - m);
    }
  }

  lemma RestReplacedIs(it: Items, i: nat, frag: Items)
    requires it.Sub? && i >= |Toks(it.body)| + 2 && IsNode(it, i) && IsNode(it.rest, i - |Toks(it.body)| - 2)
    ensures ReplaceAt(it, i, frag) == Sub(it.name, it.npad, it.body, ReplaceAt(it.rest, i - |Toks(it.body)| - 2, frag))
  {
  }

  lemma FirstSame(it: Items, r: Items)
    requires it.Sub?
    ensures SameNode(it, Sub(it.name, it.npad, it.body, r), 0)
  {
    FirstNode(it);
    FirstNode(Sub(it.name, it.npad, it.body, r));
  }

  lemma PrefixBeside(p: seq<nat>, q: seq<nat>)
    requires |p| > 0 && |q| > 0
    ensures Prefix([p[0] + 1] + p[1..], [q[0] + 1] + q[1..]) <==> Prefix(p, q)
  {
    if |p| <= |q| {
      var x, y := [p[0] + 1] + p[1..], [q[0] + 1] + q[1..];
      assert y[..|x|] == [q[0] + 1] + q[1..][..|p| - 1];
      assert q[..|p|] == [q[0]] + q[1..][..|p| - 1] && p == [p[0]] + p[1..];
      assert x[0] == p[0] + 1 && x[1..] == p[1..] && y[..|x|][0] == q[0] + 1 && y[..|x|][1..] == q[1..][..|p| - 1];
      assert q[..|p|][0] == q[0] && q[..|p|][1..] == q[1..][..|p| - 1];
    }
  }

  // Edits of values in or below a node -------------------------------------------------------------------

  // Only values of node n itself have changed: all nodes but n and those around it are the same.
  ghost predicate OwnEdit(a: Items, b: Items, n: nat) {
    && IsNodeOffset(a, n) && SameForm(a, b)
    && forall x :: IsNode(a, x) && !Prefix(PathAt(a, x), PathAt(a, IndexAt(a, n))) ==> SameNode(a, b, x)
  }

  // Only values of node n and of nodes below it have changed.
  ghost predicate BelowEdit(a: Items, b: Items, n: nat) {
    && IsNodeOffset(a, n) && SameForm(a, b)
    && forall x :: IsNode(a, x) && Incomparable(PathAt(a, x), PathAt(a, IndexAt(a, n))) ==> SameNode(a, b, x)
  }

  lemma ValueEdited(shape: Items, n: nat, k: nat, t: LeafToken, u: LeafToken)
    requires IsNodeOffset(shape, n)
    requires var body := NodeAt(shape, IndexAt(shape, n)).body;
             IsPropOf(body, k) && k < |Toks(body)| && Toks(body)[k] == t && |u.Enc()| == |t.Enc()|
    ensures var i := IndexAt(shape, n);
            OwnEdit(shape, WithBody(shape, i, ReplaceProp(NodeAt(shape, i).body, k, Leaf(u, Done))), n)
  {
    hide Token.Enc, Toks, PathAt, IsNode, ReplaceAt, SameNode, ReplaceProp, IsPropOf;
    var i := IndexAt(shape, n);
    var node := NodeAt(shape, i);
    var b := ReplaceProp(node.body, k, Leaf(u, Done));
    var frag := Sub(node.name, node.npad, b, Done);
    FormReplaceProp(node.body, k, t, u);
    FormReplace(shape, i, frag);
    forall y | IsNode(node.body, y) ensures SameNode(node.body, b, y) {
      PropBesideNode(node.body, k, u, y);
    }
    forall x | IsNode(shape, x) && !Prefix(PathAt(shape, x), PathAt(shape, i))
      ensures SameNode(shape, ReplaceAt(shape, i, frag), x) {
      FarNode(shape, i, frag, x);
    }
  }

  lemma OwnIsBelow(a: Items, b: Items, n: nat)
    requires OwnEdit(a, b, n)
    ensures BelowEdit(a, b, n)
  {
    hide PathAt, SameNode, IsNode, SameForm;
  }

  lemma BelowNone(a: Items, n: nat)
    requires IsNodeOffset(a, n)
    ensures BelowEdit(a, a, n)
  {
    hide PathAt, NodeAt, IsNode;
    FormSelf(a);
  }

  lemma BelowTwice(a: Items, b: Items, c: Items, n: nat)
    requires BelowEdit(a, b, n) && BelowEdit(b, c, n)
    ensures BelowEdit(a, c, n)
  {
    hide PathAt, NodeAt, IsNode, SameForm, IsNodeOffset;
    FormTwice(a, b, c);
    FormOffsets(a, b, n);
    forall x | IsNode(a, x) && Incomparable(PathAt(a, x), PathAt(a, IndexAt(a, n))) ensures SameNode(a, c, x) {
      FormNode(a, b, x);
      assert SameNode(a, b, x) && SameNode(b, c, x);
    }
  }

  // An edit below a child is an edit below the node.
  lemma BelowChild(a: Items, b: Items, n: nat, nn: nat, m: nat)
    requires IsNodeOffset(a, n) && BelowEdit(a, b, nn)
    requires PathAt(a, IndexAt(a, nn)) == PathAt(a, IndexAt(a, n)) + [m]
    ensures BelowEdit(a, b, n)
  {
    hide PathAt, NodeAt, IsNode, SameForm, IsNodeOffset, SameNode;
    forall x | IsNode(a, x) && Incomparable(PathAt(a, x), PathAt(a, IndexAt(a, n))) ensures SameNode(a, b, x) {
      ApartFurther(PathAt(a, x), PathAt(a, IndexAt(a, n)), m);
    }
  }

  lemma PrefixStep(p: seq<nat>, q: seq<nat>, m: nat)
    ensures Prefix(p, q + [m]) <==> Prefix(p, q) || p == q + [m]
    ensures Prefix(q + [m], p) ==> Prefix(q, p)
    ensures Prefix(q, q + [m])
  {
    assert |p| <= |q| ==> (q + [m])[..|p|] == q[..|p|];
    assert |p| == |q| + 1 ==> (q + [m])[..|p|] == q + [m];
    assert |q| < |p| ==> p[..|q| + 1][..|q|] == p[..|q|];
    assert (q + [m])[..|q|] == q;
  }

  lemma ApartFurther(p: seq<nat>, q: seq<nat>, m: nat)
    requires Incomparable(p, q)
    ensures Incomparable(p, q + [m]) && Incomparable(p + [m], q)
  {
    hide Prefix;
    PrefixStep(p, q, m);
    PrefixStep(q, p, m);
  }
}
