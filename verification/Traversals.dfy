// Whole runs of the iterators.
module Traversals {
  import opened Bytes
  import opened Tokens
  import opened Structure
  import opened Scan
  import opened Memory
  import opened Blobs
  import opened Readers
  import opened Edits
  import opened Editor
  import opened Children
  import opened Walk
  import opened Siblings
  import opened Paths

  // The preorder walk ----------------------------------------------------------------------------------

  // The nodes among the tokens from a to b, in stream order: offset and depth.
  ghost function NodesBetween(shape: Items, a: nat, b: nat): seq<(nat, int)>
    requires b <= |Stream(shape)|
    decreases b - a
  {
    if a >= b then []
    else (if IsNode(shape, a) then [(Off(Stream(shape), a), Depth(shape, a))] else []) + NodesBetween(shape, a + 1, b)
  }

  // The results of calls of fdt_next_node, each with the offset and depth of the one before, up to an error or
  // a negative depth.
  ghost predicate Walked(shape: Items, k: nat, depth: int, v: seq<(nat, int)>)
    decreases |v|
  {
    if v == [] then exists r, d :: StepIs(Stream(shape), k, depth, r, d) && (r.Failure? || d < 0)
    else
      && StepIs(Stream(shape), k, depth, Success(v[0].0), v[0].1) && v[0].1 >= 0
      && IsNodeOffset(shape, v[0].0) && Walked(shape, IndexAt(shape, v[0].0) + 1, v[0].1, v[1..])
  }

  lemma {:induction false} NoneBetween(shape: Items, a: nat, j: nat, b: nat)
    requires a <= j <= b <= |Stream(shape)| && forall m :: a <= m < j ==> !IsNode(shape, m)
    ensures NodesBetween(shape, a, b) == NodesBetween(shape, j, b)
    decreases j - a
  {
    hide IsNode, Stream, Off, Depth;
    if a < j {
      NoneBetween(shape, a + 1, j, b);
    }
  }

  lemma {:induction false} StepOver(shape: Items, i: nat, close: nat, v: seq<(nat, int)>)
    requires IsNode(shape, i) && close <= |Stream(shape)|
    requires CloseOf(Stream(shape), i + 1, Depth(shape, i)) == Some(close)
    requires Walked(shape, i + 1, Depth(shape, i), v)
    ensures v == [] ==> i < close && forall m :: i < m < close ==> !IsNode(shape, m)
    ensures v != [] ==>
              && IsNodeOffset(shape, v[0].0)
              && var j := IndexAt(shape, v[0].0);
                 && Follows(shape, i, j) && j < close && v[0] == (Off(Stream(shape), j), Depth(shape, j))
                 && CloseOf(Stream(shape), j + 1, Depth(shape, j)) == Some(close)
                 && Walked(shape, j + 1, Depth(shape, j), v[1..])
  {
    hide Stream, Off, NextStep, CloseOf, OpenIn, Depth, IsNode;
    WalkStep(shape, i, close);
    CloseBehind(Stream(shape), i + 1, Depth(shape, i));
    var step := NextStep(Stream(shape), i + 1, Depth(shape, i));
    if step.AtNode? {
      IndexUnique(shape, step.index);
      CloseBehind(Stream(shape), step.index + 1, step.depth);
    }
  }

  lemma {:induction false} WalkedRest(shape: Items, i: nat, close: nat, v: seq<(nat, int)>)
    requires IsNode(shape, i) && close <= |Stream(shape)|
    requires CloseOf(Stream(shape), i + 1, Depth(shape, i)) == Some(close)
    requires Walked(shape, i + 1, Depth(shape, i), v)
    ensures v == NodesBetween(shape, i + 1, close)
    decreases |v|
  {
    hide Stream, Off, CloseOf, Depth, IsNode, IsNodeOffset, Walked;
    StepOver(shape, i, close, v);
    if v == [] {
      NoneBetween(shape, i + 1, close, close);
    } else {
      var j := IndexAt(shape, v[0].0);
      NoneBetween(shape, i + 1, j, close);
      WalkedRest(shape, j, close, v[1..]);
      assert v == [v[0]] + v[1..];
    }
  }

  lemma {:induction false} StartWalk(shape: Items, v: seq<(nat, int)>)
    requires IsNode(shape, 0) && Walked(shape, 0, -1, v) && |Stream(shape)| > 0 && Stream(shape)[0].Begin?
    ensures v != [] && v[0] == (Off(Stream(shape), 0), 0) && Walked(shape, 1, 0, v[1..])
  {
    hide Off, Stream;
    assert NextStep(Stream(shape), 0, -1) == AtNode(0, 0);
    IndexUnique(shape, 0);
  }

  // What the list of nodes holds: each of them, exactly once.
  lemma {:induction false} ListsAll(shape: Items, a: nat, b: nat)
    requires b <= |Stream(shape)|
    ensures forall m :: a <= m < b && IsNode(shape, m) ==>
              (Off(Stream(shape), m), Depth(shape, m)) in NodesBetween(shape, a, b)
    decreases b - a
  {
    hide IsNode, Stream, Off, Depth;
    if a < b {
      ListsAll(shape, a + 1, b);
    }
  }

  lemma {:induction false} ListsOnly(shape: Items, a: nat, b: nat)
    requires b <= |Stream(shape)|
    ensures forall k :: 0 <= k < |NodesBetween(shape, a, b)| ==> Listed(shape, a, b, NodesBetween(shape, a, b)[k])
    decreases b - a
  {
    hide IsNode, Stream, Off, Depth;
    if a < b {
      ListsOnly(shape, a + 1, b);
      var rest := NodesBetween(shape, a + 1, b);
      forall k | 0 <= k < |rest| ensures Listed(shape, a, b, rest[k]) {
        assert Listed(shape, a + 1, b, rest[k]);
      }
      assert IsNode(shape, a) ==> Listed(shape, a, b, (Off(Stream(shape), a), Depth(shape, a)));
    }
  }

  lemma {:induction false} ListsInOrder(shape: Items, a: nat, b: nat)
    requires b <= |Stream(shape)|
    ensures forall k, l :: 0 <= k < l < |NodesBetween(shape, a, b)| ==>
              NodesBetween(shape, a, b)[k].0 < NodesBetween(shape, a, b)[l].0
    decreases b - a
  {
    hide IsNode, Stream, Off, Depth;
    if a < b {
      ListsInOrder(shape, a + 1, b);
      ListsOnly(shape, a + 1, b);
      var rest := NodesBetween(shape, a + 1, b);
      forall k | 0 <= k < |rest| ensures Off(Stream(shape), a) < rest[k].0 {
        assert Listed(shape, a + 1, b, rest[k]);
        var m :| a + 1 <= m < b && IsNode(shape, m) && rest[k] == (Off(Stream(shape), m), Depth(shape, m));
        OffMonotone(Stream(shape), a, m);
      }
    }
  }

  // A node between the tokens a and b, with its depth.
  ghost predicate Listed(shape: Items, a: nat, b: nat, e: (nat, int))
    requires b <= |Stream(shape)|
  {
    exists m :: a <= m < b && IsNode(shape, m) && e == (Off(Stream(shape), m), Depth(shape, m))
  }

  lemma {:induction false} RestWalked(shape: Items, i: nat, close: nat)
    requires IsNode(shape, i) && close <= |Stream(shape)|
    requires CloseOf(Stream(shape), i + 1, Depth(shape, i)) == Some(close)
    ensures Walked(shape, i + 1, Depth(shape, i), NodesBetween(shape, i + 1, close))
    decreases close - i
  {
    hide Stream, Off, NextStep, CloseOf, OpenIn, Depth, IsNode, Walked, NodesBetween;
    WalkStep(shape, i, close);
    CloseBehind(Stream(shape), i + 1, Depth(shape, i));
    var step := NextStep(Stream(shape), i + 1, Depth(shape, i));
    if step.AtNode? {
      var j := step.index;
      IndexUnique(shape, j);
      CloseBehind(Stream(shape), j + 1, step.depth);
      NoneBetween(shape, i + 1, j, close);
      RestWalked(shape, j, close);
      WalkedCons(shape, i + 1, Depth(shape, i), j, close);
    } else {
      NoneBetween(shape, i + 1, close, close);
      WalkedNone(shape, i + 1, Depth(shape, i), close);
    }
  }

  lemma WalkedCons(shape: Items, k: nat, depth: int, j: nat, close: nat)
    requires j < close <= |Stream(shape)| && IsNode(shape, j) && IsNodeOffset(shape, Off(Stream(shape), j))
    requires IndexAt(shape, Off(Stream(shape), j)) == j
    requires NextStep(Stream(shape), k, depth) == AtNode(j, Depth(shape, j))
    requires Walked(shape, j + 1, Depth(shape, j), NodesBetween(shape, j + 1, close))
    ensures Walked(shape, k, depth, NodesBetween(shape, j, close))
  {
    hide Stream, Off, NextStep, Depth, IsNode, IsNodeOffset;
    var v, rest := NodesBetween(shape, j, close), NodesBetween(shape, j + 1, close);
    assert v == [(Off(Stream(shape), j), Depth(shape, j))] + rest;
    assert v[1..] == rest;
  }

  lemma WalkedNone(shape: Items, k: nat, depth: int, close: nat)
    requires close <= |Stream(shape)| && NextStep(Stream(shape), k, depth) == Left(close, -1)
    ensures Walked(shape, k, depth, NodesBetween(shape, close, close))
  {
    hide Stream, Off, NextStep, IsNode;
    assert StepIs(Stream(shape), k, depth, Success(Off(Stream(shape), close)), -1);
  }

  // From -1 with depth -1 the walk ends, and yields every node of the root once, in order, with its depth.
  lemma {:induction false} WholeWalk(shape: Items, v: seq<(nat, int)>)
    requires IsNode(shape, 0)
    ensures var e := RootEnd(shape);
            && e <= |Stream(shape)| && (Walked(shape, 0, -1, v) <==> v == NodesBetween(shape, 0, e))
            && var w := NodesBetween(shape, 0, e);
               && (forall m :: 0 <= m < e && IsNode(shape, m) ==> (Off(Stream(shape), m), Depth(shape, m)) in w)
               && (forall k :: 0 <= k < |w| ==> Listed(shape, 0, e, w[k]))
               && forall k, l :: 0 <= k < l < |w| ==> w[k].0 < w[l].0
  {
    hide Off, Stream, CloseOf, PathAt, NodeAt, Toks, IsNodeOffset, Walked, NodesBetween;
    RootCloses(shape);
    NameInStream(shape, 0);
    CloseBehind(Stream(shape), 1, 0);
    if Walked(shape, 0, -1, v) {
      StartWalk(shape, v);
      WalkedRest(shape, 0, RootEnd(shape), v[1..]);
      FromRoot(shape);
      assert v == [v[0]] + v[1..];
    }
    RestWalked(shape, 0, RootEnd(shape));
    IndexUnique(shape, 0);
    FirstStep(shape);
    WalkedCons(shape, 0, -1, 0, RootEnd(shape));
    ListsAll(shape, 0, RootEnd(shape));
    ListsOnly(shape, 0, RootEnd(shape));
    ListsInOrder(shape, 0, RootEnd(shape));
  }

  lemma FromRoot(shape: Items)
    requires IsNode(shape, 0) && 0 < RootEnd(shape) <= |Stream(shape)| && Depth(shape, 0) == 0
    ensures NodesBetween(shape, 0, RootEnd(shape))
         == [(Off(Stream(shape), 0), 0)] + NodesBetween(shape, 1, RootEnd(shape))
  {
    hide IsNode, Stream, Off, Depth, RootEnd;
  }

  lemma FirstStep(shape: Items)
    requires IsNode(shape, 0) && |Stream(shape)| > 0 && Stream(shape)[0].Begin? && Depth(shape, 0) == 0
    ensures NextStep(Stream(shape), 0, -1) == AtNode(0, Depth(shape, 0))
  {
    hide Stream, Depth, IsNode;
  }

  // Children and parents ----------------------------------------------------------------------------------

  // The calls of fdt_first_subnode and fdt_next_subnode for the node at n have given v, and then NOTFOUND.
  ghost predicate Iterated(im: Image, n: nat, v: seq<nat>)
    requires IsNodeOffset(im.shape, n)
  {
    forall k :: 0 <= k <= |v| ==> CallGives(im, n, v, k)
  }

  ghost predicate CallGives(im: Image, n: nat, v: seq<nat>, k: nat)
    requires IsNodeOffset(im.shape, n) && k <= |v|
  {
    var r := if k < |v| then Success(v[k]) else Failure(NotFound);
    if k == 0 then ChildStepIs(Stream(im.shape), IndexAt(im.shape, n) + 1, 0, r)
    else IsNodeOffset(im.shape, v[k - 1]) && ChildStepIs(Stream(im.shape), IndexAt(im.shape, v[k - 1]) + 1, 1, r)
  }

  lemma {:induction false} IteratedTo(im: Image, n: nat, v: seq<nat>, k: nat)
    requires im.Valid() && IsNodeOffset(im.shape, n) && Iterated(im, n, v) && k <= |v|
    ensures IsChild(im, n, k, if k < |v| then Success(v[k]) else Failure(NotFound))
    decreases k
  {
    hide Describes, Stream, NodeAt, ChildStepIs, IsNodeOffset, Image.NodeOf, ChildOf;
    assert CallGives(im, n, v, k);
    var r := if k < |v| then Success(v[k]) else Failure(NotFound);
    if k == 0 {
      FirstChildIs(im, n, r);
    } else {
      IteratedTo(im, n, v, k - 1);
      NextChildIs(im, n, k - 1, v[k - 1], r);
    }
  }

  // The calls end.
  lemma {:induction false} IterationEnds(im: Image, n: nat) returns (v: seq<nat>)
    requires im.Valid() && IsNodeOffset(im.shape, n)
    ensures Iterated(im, n, v)
  {
    hide Describes, Stream, NodeAt, ChildStepIs, IsNodeOffset, Image.NodeOf, ChildOf, CallGives;
    v := [];
    var r := CallResult(Stream(im.shape), IndexAt(im.shape, n) + 1, 0);
    FirstChildIs(im, n, r);
    while r.Success?
      invariant |v| <= |im.NodeOf(n).children| && IsChild(im, n, |v|, r) && NextCall(im, n, v, r)
      invariant forall k :: 0 <= k < |v| ==> CallGives(im, n, v, k)
      decreases |im.NodeOf(n).children| - |v|
    {
      v, r := NextChildFound(im, n, v, r);
    }
    LastCall(im, n, v, r);
  }

  // The next call, after one that found a child.
  lemma {:induction false} NextChildFound(im: Image, n: nat, v: seq<nat>, r: Result<nat>)
      returns (w: seq<nat>, r': Result<nat>)
    requires im.Valid() && IsNodeOffset(im.shape, n) && r.Success?
    requires IsChild(im, n, |v|, r) && NextCall(im, n, v, r) && forall k :: 0 <= k < |v| ==> CallGives(im, n, v, k)
    ensures w == v + [r.value] && |v| < |im.NodeOf(n).children|
    ensures IsChild(im, n, |w|, r') && NextCall(im, n, w, r') && forall k :: 0 <= k < |w| ==> CallGives(im, n, w, k)
  {
    hide Describes, Stream, NodeAt, ChildStepIs, IsNodeOffset, Image.NodeOf, ChildOf, CallGives;
    w := v + [r.value];
    CallKept(im, n, v, r);
    ChildIsNode(im, n, r.value, |v|);
    r' := CallResult(Stream(im.shape), IndexAt(im.shape, r.value) + 1, 1);
    NextChildIs(im, n, |v|, r.value, r');
  }

  lemma {:induction false} CallKept(im: Image, n: nat, v: seq<nat>, r: Result<nat>)
    requires IsNodeOffset(im.shape, n) && NextCall(im, n, v, r) && r.Success?
    requires forall k :: 0 <= k < |v| ==> CallGives(im, n, v, k)
    ensures forall k :: 0 <= k <= |v| ==> CallGives(im, n, v + [r.value], k)
  {
    hide Stream, ChildStepIs, IsNodeOffset;
    forall k | 0 <= k <= |v| ensures CallGives(im, n, v + [r.value], k) {
      assert k < |v| ==> CallGives(im, n, v, k);
    }
  }

  lemma {:induction false} LastCall(im: Image, n: nat, v: seq<nat>, r: Result<nat>)
    requires IsNodeOffset(im.shape, n) && NextCall(im, n, v, r) && r.Failure?
    ensures CallGives(im, n, v, |v|)
  {
    hide Stream, ChildStepIs, IsNodeOffset;
  }

  lemma ChildIsNode(im: Image, n: nat, nn: nat, m: nat)
    requires im.Valid() && ChildOf(im, n, nn, m)
    ensures IsNodeOffset(im.shape, nn)
  {
    hide Describes, IsNodeOffset;
  }

  // What the search that starts at token k reports.
  ghost function CallResult(ts: seq<Token>, k: nat, depth: nat): (r: Result<nat>)
    ensures ChildStepIs(ts, k, depth, r)
  {
    match ChildAt(ts, k, depth, None)
    case None => Failure(NotFound)
    case Some(j) => Success(Off(ts, j))
  }

  // r is what the call after those that gave v reports.
  ghost predicate NextCall(im: Image, n: nat, v: seq<nat>, r: Result<nat>)
    requires IsNodeOffset(im.shape, n)
  {
    && (r.Failure? ==> r == Failure(NotFound))
    && if v == [] then ChildStepIs(Stream(im.shape), IndexAt(im.shape, n) + 1, 0, r)
       else
         && IsNodeOffset(im.shape, v[|v| - 1])
         && ChildStepIs(Stream(im.shape), IndexAt(im.shape, v[|v| - 1]) + 1, 1, r)
  }

  // The iteration over the subnodes of n gives child 0, child 1 and so on, and ends behind the last one.
  lemma SubnodesAre(im: Image, n: nat, v: seq<nat>)
    requires im.Valid() && IsNodeOffset(im.shape, n)
    ensures Iterated(im, n, v) <==> ListsSubnodes(im, n, v)
    ensures exists w :: Iterated(im, n, w)
  {
    hide Describes, Stream, NodeAt, Iterated, IsNodeOffset, Image.NodeOf, ChildOf;
    var w := IterationEnds(im, n);
    IteratedSubnodes(im, n, w);
    if Iterated(im, n, v) {
      IteratedSubnodes(im, n, v);
    }
    if ListsSubnodes(im, n, v) {
      forall k | 0 <= k < |v| ensures v[k] == w[k] {
        SameChild(im, n, v[k], w[k], k);
      }
      assert v == w;
    }
  }

  ghost predicate ListsSubnodes(im: Image, n: nat, v: seq<nat>)
    requires im.Valid() && IsNodeOffset(im.shape, n)
  {
    |v| == |im.NodeOf(n).children| && forall k :: 0 <= k < |v| ==> ChildOf(im, n, v[k], k)
  }

  lemma SameChild(im: Image, n: nat, x: nat, y: nat, k: nat)
    requires im.Valid() && ChildOf(im, n, x, k) && ChildOf(im, n, y, k)
    ensures x == y
  {
    hide Describes, Stream, PathAt, NodeAt, IsNode, Off;
    PathInjective(im.shape, IndexAt(im.shape, x), IndexAt(im.shape, y));
  }

  lemma IteratedSubnodes(im: Image, n: nat, v: seq<nat>)
    requires im.Valid() && IsNodeOffset(im.shape, n) && Iterated(im, n, v)
    ensures ListsSubnodes(im, n, v)
  {
    hide Describes, Stream, NodeAt, Iterated, IsNodeOffset, Image.NodeOf, ChildOf;
    forall k | 0 <= k < |v| ensures ChildOf(im, n, v[k], k) && k < |im.NodeOf(n).children| {
      IteratedTo(im, n, v, k);
    }
    IteratedTo(im, n, v, |v|);
    if |v| > 0 { IteratedTo(im, n, v, |v| - 1); }
  }

  lemma SubnodeInside(im: Image, n: nat, m: nat, k: nat)
    requires im.Valid() && IsNodeOffset(im.shape, n) && IsNodeOffset(im.shape, m) && im.PathOf(m) == im.PathOf(n) + [k]
    ensures k < |im.NodeOf(n).children|
  {
    hide Describes, PathAt, Update, Lookup, ValidPath, NodeAt, Kids, Props, StructOf, HeadOf, StringsOf, RsvCount, Off,
      Stream, IsNode;
    NodeParts(im.shape, StructOf(im.hdr, im.mem), StringsOf(im.hdr, im.mem), IndexAt(im.shape, n));
    NodeParts(im.shape, StructOf(im.hdr, im.mem), StringsOf(im.hdr, im.mem), IndexAt(im.shape, m));
    LookupChild(im.Tree(), im.PathOf(n), k);
  }

  // fdt_parent_offset of m gives n exactly if the iteration over the subnodes of n visits m.
  lemma {:induction false} ParentVisits(im: Image, n: nat, m: nat, r: Result<nat>)
    requires im.Valid() && IsNodeOffset(im.shape, n)
    requires IsNodeOffset(im.shape, m) && IsParent(im, m, r)
    ensures r == Success(n) <==> exists v :: Iterated(im, n, v) && m in v
    ensures r == Success(n) <==> forall v :: Iterated(im, n, v) ==> m in v
  {
    hide Describes, Stream, NodeAt, Iterated, IsNodeOffset, Image.NodeOf, PathAt, IsParent, IsSubnode, IsNode;
    var w := IterationEnds(im, n);
    VisitsChild(im, n, w, m);
    assert r == Success(n) <==> IsSubnode(im, n, m) by { ParentIsSubnode(im, n, m, r); }
    forall v | Iterated(im, n, v) ensures m in v <==> IsSubnode(im, n, m) {
      VisitsChild(im, n, v, m);
    }
  }

  lemma ParentIsSubnode(im: Image, n: nat, m: nat, r: Result<nat>)
    requires IsNodeOffset(im.shape, n) && IsNodeOffset(im.shape, m) && IsParent(im, m, r)
    ensures r == Success(n) <==> IsSubnode(im, n, m)
  {
    hide IsNodeOffset, IsSubnode;
  }

  lemma VisitsChild(im: Image, n: nat, v: seq<nat>, m: nat)
    requires im.Valid() && IsNodeOffset(im.shape, n) && IsNodeOffset(im.shape, m) && Iterated(im, n, v)
    ensures m in v <==> IsSubnode(im, n, m)
  {
    hide Describes, Stream, NodeAt, Iterated, IsNodeOffset, Image.NodeOf, PathAt;
    IteratedSubnodes(im, n, v);
    if k: nat :| im.PathOf(m) == im.PathOf(n) + [k] {
      SubnodeInside(im, n, m, k);
      PathInjective(im.shape, IndexAt(im.shape, m), IndexAt(im.shape, v[k]));
    }
  }
}
