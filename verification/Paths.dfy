// Ancestors and the preorder walk (fdt_ro.c).
module Paths {
  import opened Bytes
  import opened Tokens
  import opened Structure
  import opened Scan
  import opened Memory
  import opened Blobs
  import opened Readers
  import opened Edits
  import opened Editor
  import opened Children

  // The nodes that are open ---------------------------------------------------------------------------

  // The indexes of the nodes whose END_NODE is not among the first k tokens, outermost first.
  function Open(ts: seq<Token>, k: nat): (r: seq<nat>)
    requires k <= |ts|
    ensures forall m :: 0 <= m < |r| ==> r[m] < k && ts[r[m]].Begin?
  {
    if k == 0 then []
    else
      var o := Open(ts, k - 1);
      match ts[k - 1]
      case Begin(_, _) => o + [k - 1]
      case EndNode => if o == [] then [] else o[..|o| - 1]
      case _ => o
  }

  // Going on to the next node only closes nodes, and its depth is the number of those left open.
  lemma {:induction false} StepOpen(ts: seq<Token>, k: nat, depth: int)
    requires k <= |ts| && depth == |Open(ts, k)| - 1 && depth >= 0
    ensures match NextStep(ts, k, depth)
            case AtNode(j, d) =>
              && 1 <= d <= |Open(ts, k)| && Open(ts, j) == Open(ts, k)[..d]
              && forall m :: k <= m < j ==> !ts[m].Begin?
            case Left(e, d) => d == -1 && Open(ts, e) == [] && forall m :: k <= m < e ==> !ts[m].Begin?
            case NoMore => true
    decreases |ts| - k
  {
    hide Open;
    if k < |ts| {
      var o := Open(ts, k);
      if ts[k].Begin? {
        assert o[..|o|] == o;
      } else if ts[k].EndNode? {
        OpenEnd(ts, k);
        if depth > 0 {
          StepOpen(ts, k + 1, depth - 1);
          var step := NextStep(ts, k + 1, depth - 1);
          if step.AtNode? {
            assert o[..|o| - 1][..step.depth] == o[..step.depth];
          }
        }
      } else if !ts[k].End? {
        OpenLeaf(ts, k);
        StepOpen(ts, k + 1, depth);
      }
    }
  }

  lemma OpenEnd(ts: seq<Token>, k: nat)
    requires k < |ts| && ts[k].EndNode? && Open(ts, k) != []
    ensures Open(ts, k + 1) == Open(ts, k)[..|Open(ts, k)| - 1]
  {
  }

  function Shift(s: seq<nat>, k: nat): (r: seq<nat>)
    ensures |r| == |s| && forall m :: 0 <= m < |s| ==> r[m] == s[m] + k
  {
    seq(|s|, m requires 0 <= m < |s| => s[m] + k)
  }

  // The same, on the syntax: the node at i with its ancestors among these siblings.
  function OpenIn(it: Items, i: nat): (r: seq<nat>)
    requires IsNode(it, i)
    ensures |r| > 0
  {
    match it
    case Leaf(_, rest) => Shift(OpenIn(rest, i - 1), 1)
    case Sub(_, _, body, rest) =>
      if i == 0 then [0]
      else if i <= |Toks(body)| then [0] + Shift(OpenIn(body, i - 1), 1)
      else Shift(OpenIn(rest, i - |Toks(body)| - 2), |Toks(body)| + 2)
  }

  lemma ShiftTwice(s: seq<nat>, a: nat, b: nat)
    ensures Shift(Shift(s, a), b) == Shift(s, a + b)
  {
  }

  // A properly nested run leaves the open nodes as they were.
  lemma {:induction false} OpenOver(ts: seq<Token>, k: nat, it: Items)
    requires At(ts, k, Toks(it))
    ensures k + |Toks(it)| <= |ts| && Open(ts, k + |Toks(it)|) == Open(ts, k)
    decreases it
  {
    hide At;
    match it
    case Done => assert k <= |ts| by { AtBound(ts, k, Toks(Done)); }
    case Leaf(tok, rest) =>
      LeafRun(ts, k, it);
      OpenOver(ts, k + 1, rest);
    case Sub(name, npad, body, rest) =>
      SubRun(ts, k, it);
      OpenOver(ts, k + 1, body);
      OpenOver(ts, k + |Toks(body)| + 2, rest);
      var o := Open(ts, k);
      assert (o + [k])[..|o|] == o;
  }

  lemma {:induction false} OpenRun(ts: seq<Token>, k: nat, it: Items, i: nat)
    requires At(ts, k, Toks(it)) && IsNode(it, i)
    ensures k + i + 1 <= |ts| && Open(ts, k + i + 1) == Open(ts, k) + Shift(OpenIn(it, i), k)
    decreases it
  {
    hide At, Toks, Open, OpenIn, IsNode;
    WhichNode(it, i);
    if it.Leaf? {
      LeafRun(ts, k, it);
      OpenLeaf(ts, k);
      OpenRun(ts, k + 1, it.rest, i - 1);
      OpenInLeaf(it, i);
      ShiftTwice(OpenIn(it.rest, i - 1), 1, k);
    } else if i == 0 {
      SubRun(ts, k, it);
      OpenBegin(ts, k);
      assert OpenIn(it, 0) == [0] by { OpenInHere(it); }
      assert Shift([0], k) == [k];
    } else if i <= |Toks(it.body)| {
      OpenBelow(ts, k, it, i);
    } else {
      OpenBeside(ts, k, it, i);
    }
  }

  lemma OpenLeaf(ts: seq<Token>, k: nat)
    requires k < |ts| && (ts[k].Prop? || ts[k].Nop?)
    ensures Open(ts, k + 1) == Open(ts, k)
  {
  }

  lemma OpenBegin(ts: seq<Token>, k: nat)
    requires k < |ts| && ts[k].Begin?
    ensures Open(ts, k + 1) == Open(ts, k) + [k]
  {
  }

  lemma OpenInHere(it: Items)
    requires it.Sub?
    ensures IsNode(it, 0) && OpenIn(it, 0) == [0]
  {
  }

  lemma {:induction false} OpenBelow(ts: seq<Token>, k: nat, it: Items, i: nat)
    requires it.Sub? && IsNode(it, i) && 0 < i <= |Toks(it.body)| && At(ts, k, Toks(it))
    ensures k + i + 1 <= |ts| && Open(ts, k + i + 1) == Open(ts, k) + Shift(OpenIn(it, i), k)
    decreases it, 0
  {
    hide At, Toks, Open, OpenIn, IsNode;
    OpenInSub(it, i);
    SubRun(ts, k, it);
    OpenBegin(ts, k);
    OpenRun(ts, k + 1, it.body, i - 1);
    var q := OpenIn(it.body, i - 1);
    assert Shift([0] + Shift(q, 1), k) == [k] + Shift(q, k + 1);
    Associate(Open(ts, k), [k], Shift(q, k + 1));
  }

  lemma Associate<T>(a: seq<T>, b: seq<T>, c: seq<T>)
    ensures (a + b) + c == a + (b + c)
  {
  }

  lemma {:induction false} OpenBeside(ts: seq<Token>, k: nat, it: Items, i: nat)
    requires it.Sub? && IsNode(it, i) && i > |Toks(it.body)| && At(ts, k, Toks(it))
    ensures k + i + 1 <= |ts| && Open(ts, k + i + 1) == Open(ts, k) + Shift(OpenIn(it, i), k)
    decreases it, 0
  {
    hide At, Toks;
    SubIndex(it, i);
    SubRun(ts, k, it);
    var e := k + |Toks(it.body)| + 1;
    OpenOver(ts, k + 1, it.body);
    assert Open(ts, k + 1) == Open(ts, k) + [k];
    assert (Open(ts, k) + [k])[..|Open(ts, k)|] == Open(ts, k);
    assert Open(ts, e + 1) == Open(ts, k);
    var j := i - |Toks(it.body)| - 2;
    OpenRun(ts, e + 1, it.rest, j);
    OpenInSub(it, i);
    ShiftTwice(OpenIn(it.rest, j), |Toks(it.body)| + 2, k);
  }

  lemma OpenInSub(it: Items, i: nat)
    requires it.Sub? && IsNode(it, i) && i > 0
    ensures i <= |Toks(it.body)| ==> IsNode(it.body, i - 1) && OpenIn(it, i) == [0] + Shift(OpenIn(it.body, i - 1), 1)
    ensures i > |Toks(it.body)| ==>
              var j := i - |Toks(it.body)| - 2;
              j >= 0 && IsNode(it.rest, j) && OpenIn(it, i) == Shift(OpenIn(it.rest, j), |Toks(it.body)| + 2)
  {
  }

  // Token a is the ancestor of node i at depth m.
  ghost predicate IsAncestor(it: Items, i: nat, m: nat, a: nat) {
    && IsNode(it, i) && m < |PathAt(it, i)|
    && IsNode(it, a) && PathAt(it, a) == PathAt(it, i)[..m + 1]
  }

  // The open nodes are the node's ancestors at each depth, and the node itself.
  ghost predicate Ancestry(it: Items, i: nat) {
    && IsNode(it, i)
    && var o := OpenIn(it, i);
       && |o| == |PathAt(it, i)| && o[|o| - 1] == i
       && forall m :: 0 <= m < |o| ==> IsAncestor(it, i, m, o[m])
  }

  lemma {:induction false} OpenPath(it: Items, i: nat)
    requires IsNode(it, i)
    ensures Ancestry(it, i)
    decreases it
  {
    hide Toks, PathAt, OpenIn, NodeAt, Ancestry;
    WhichNode(it, i);
    match it
    case Leaf(tok, rest) =>
      OpenPath(rest, i - 1);
      AncestryLeaf(it, i);
    case Sub(_, _, body, rest) =>
      if i == 0 {
        AncestryHere(it);
      } else if i <= |Toks(body)| {
        OpenPath(body, i - 1);
        AncestryBelow(it, i);
      } else {
        OpenPath(rest, i - |Toks(body)| - 2);
        AncestryBeside(it, i);
      }
  }

  lemma AncestryLeaf(it: Items, i: nat)
    requires it.Leaf? && i > 0 && IsNode(it.rest, i - 1) && Ancestry(it.rest, i - 1)
    ensures Ancestry(it, i)
  {
    hide Toks, NodeAt, PathAt, OpenIn, IsNode;
    var o := OpenIn(it.rest, i - 1);
    InsideLeaf(it.tok, it.rest, i - 1);
    assert OpenIn(it, i) == Shift(o, 1) by { OpenInLeaf(it, i); }
    forall m | 0 <= m < |o| ensures IsAncestor(it, i, m, o[m] + 1) {
      assert IsAncestor(it.rest, i - 1, m, o[m]);
      InsideLeaf(it.tok, it.rest, o[m]);
    }
  }

  lemma OpenInLeaf(it: Items, i: nat)
    requires it.Leaf? && IsNode(it, i)
    ensures i > 0 && IsNode(it.rest, i - 1) && OpenIn(it, i) == Shift(OpenIn(it.rest, i - 1), 1)
  {
  }

  lemma AncestryHere(it: Items)
    requires it.Sub?
    ensures Ancestry(it, 0)
  {
    assert PathAt(it, 0) == [0] && OpenIn(it, 0) == [0];
    assert IsAncestor(it, 0, 0, 0);
  }

  lemma AncestryBelow(it: Items, i: nat)
    requires it.Sub? && 0 < i <= |Toks(it.body)| && IsNode(it.body, i - 1) && Ancestry(it.body, i - 1)
    ensures Ancestry(it, i)
  {
    hide Toks, NodeAt, PathAt, OpenIn, IsNode;
    var o := OpenIn(it.body, i - 1);
    var p := PathAt(it.body, i - 1);
    InsideSub(it, i - 1);
    OpenInSub(it, i);
    var w := [0] + Shift(o, 1);
    forall m | 0 <= m < |w| ensures IsAncestor(it, i, m, w[m]) {
      assert ([0] + p)[..m + 1] == [0] + p[..m];
      if m > 0 {
        assert IsAncestor(it.body, i - 1, m - 1, o[m - 1]);
        InsideSub(it, o[m - 1]);
        assert w[m] == o[m - 1] + 1;
      }
    }
  }

  lemma AncestryBeside(it: Items, i: nat)
    requires it.Sub? && i >= |Toks(it.body)| + 2
    requires var j := i - |Toks(it.body)| - 2; IsNode(it.rest, j) && Ancestry(it.rest, j)
    ensures Ancestry(it, i)
  {
    hide Toks, NodeAt, PathAt, OpenIn, IsNode;
    var k := |Toks(it.body)| + 2;
    var o := OpenIn(it.rest, i - k);
    var p := PathAt(it.rest, i - k);
    BesideSub(it, i - k);
    OpenInSub(it, i);
    forall m | 0 <= m < |o| ensures IsAncestor(it, i, m, o[m] + k) {
      assert IsAncestor(it.rest, i - k, m, o[m]);
      BesideSub(it, o[m]);
      assert ([p[0] + 1] + p[1..])[..m + 1] == [p[..m + 1][0] + 1] + p[..m + 1][1..];
    }
  }

  // No two nodes share a place in the tree.
  lemma {:induction false} PathInjective(it: Items, i: nat, j: nat)
    requires IsNode(it, i) && IsNode(it, j) && PathAt(it, i) == PathAt(it, j)
    ensures i == j
    decreases it
  {
    hide Toks, NodeAt;
    WhichNode(it, i);
    WhichNode(it, j);
    match it
    case Leaf(tok, rest) =>
      PathInjective(rest, i - 1, j - 1);
    case Sub(_, _, body, rest) =>
      var n := |Toks(body)|;
      Lengths(it, i);
      Lengths(it, j);
      if 0 < i <= n && 0 < j <= n {
        PathInjective(body, i - 1, j - 1);
      } else if i > n && j > n {
        SamePath(PathAt(rest, i - n - 2), PathAt(rest, j - n - 2));
        PathInjective(rest, i - n - 2, j - n - 2);
      }
  }

  lemma SamePath(p: seq<nat>, q: seq<nat>)
    requires |p| > 0 && |q| > 0 && [p[0] + 1] + p[1..] == [q[0] + 1] + q[1..]
    ensures p == q
  {
    var x, y := [p[0] + 1] + p[1..], [q[0] + 1] + q[1..];
    assert x[0] == y[0] && x[1..] == p[1..] && y[1..] == q[1..];
    assert p == [p[0]] + p[1..] && q == [q[0]] + q[1..];
  }

  // What the path says about where a node lies.
  lemma Lengths(it: Items, i: nat)
    requires it.Sub? && IsNode(it, i)
    ensures i == 0 ==> PathAt(it, i) == [0]
    ensures 0 < i <= |Toks(it.body)| ==>
              && IsNode(it.body, i - 1) && PathAt(it, i)[0] == 0 && |PathAt(it, i)| > 1
              && PathAt(it, i)[1..] == PathAt(it.body, i - 1)
    ensures i > |Toks(it.body)| ==>
              var j := i - |Toks(it.body)| - 2;
              && j >= 0 && IsNode(it.rest, j) && PathAt(it, i)[0] > 0
              && PathAt(it, i) == [PathAt(it.rest, j)[0] + 1] + PathAt(it.rest, j)[1..]
  {
  }

  // The walk from node to node ----------------------------------------------------------------------------

  // How deep a node is; the root has depth 0.
  ghost function Depth(shape: Items, i: nat): (d: nat)
    requires IsNode(shape, i)
  {
    |PathAt(shape, i)| - 1
  }

  lemma OpenStream(shape: Items, i: nat)
    requires IsNode(shape, i)
    ensures i < |Stream(shape)| && Stream(shape)[i].Begin?
    ensures Open(Stream(shape), i + 1) == OpenIn(shape, i)
    ensures Ancestry(shape, i) && |OpenIn(shape, i)| == Depth(shape, i) + 1
    ensures Open(Stream(shape), i) + [i] == OpenIn(shape, i)
  {
    hide Toks, OpenIn, PathAt, NodeAt, Open, Stream, Ancestry, IsNode, At;
    OpenPath(shape, i);
    AncestrySize(shape, i);
    NameInStream(shape, i);
    WholeStream(shape);
    OpenRun(Stream(shape), 0, shape, i);
    assert Open(Stream(shape), 0) == [] by { OpenNone(Stream(shape)); }
    assert Shift(OpenIn(shape, i), 0) == OpenIn(shape, i);
    OpenBegin(Stream(shape), i);
  }

  lemma OpenNone(ts: seq<Token>)
    ensures Open(ts, 0) == []
  {
  }

  lemma AncestrySize(it: Items, i: nat)
    requires Ancestry(it, i)
    ensures IsNode(it, i) && |OpenIn(it, i)| == |PathAt(it, i)|
  {
  }

  lemma WholeStream(shape: Items)
    ensures At(Stream(shape), 0, Toks(shape))
  {
  }

  // Node j is the node right behind node i in the stream.
  ghost predicate Follows(shape: Items, i: nat, j: nat) {
    && IsNode(shape, i) && IsNode(shape, j) && i < j
    && forall m :: i < m < j ==> !IsNode(shape, m)
  }

  // What fdt_next_node finds from node i inside a node that closes in front of token close: the
  // nodes in the order of the stream, each with its true depth; then it leaves that node.
  lemma WalkStep(shape: Items, i: nat, close: nat)
    requires IsNode(shape, i) && CloseOf(Stream(shape), i + 1, Depth(shape, i)) == Some(close)
    ensures var step := NextStep(Stream(shape), i + 1, Depth(shape, i));
            && (step.AtNode? ==>
                  && Follows(shape, i, step.index) && step.depth == Depth(shape, step.index)
                  && 1 <= step.depth <= |OpenIn(shape, i)|
                  && CloseOf(Stream(shape), step.index + 1, step.depth) == Some(close)
                  && OpenIn(shape, step.index) == OpenIn(shape, i)[..step.depth] + [step.index])
            && (!step.AtNode? ==>
                  && step == Left(close, -1)
                  && forall m :: i < m < close ==> !IsNode(shape, m))
  {
    hide Toks, OpenIn, PathAt, NodeAt, CloseOf, Open, Ancestry, Stream, NextStep, IsNode;
    var ts := Stream(shape);
    OpenStream(shape, i);
    StepOpen(ts, i + 1, Depth(shape, i));
    CloseOfStep(ts, i + 1, Depth(shape, i));
    var step := NextStep(ts, i + 1, Depth(shape, i));
    NoBeginNoNode(shape, i + 1, step.index);
    if step.AtNode? {
      BeginIsNode(shape, step.index);
      OpenStream(shape, step.index);
    }
  }

  lemma NoBeginNoNode(shape: Items, k: nat, e: nat)
    requires e <= |Stream(shape)| && forall m :: k <= m < e ==> !Stream(shape)[m].Begin?
    ensures forall m :: k <= m < e ==> !IsNode(shape, m)
  {
    hide Toks;
    StreamLength(shape);
    assert forall m :: 0 <= m < |Toks(shape)| ==> Stream(shape)[m] == Toks(shape)[m];
  }

  // The token behind the END_NODE of the root.
  ghost function RootEnd(shape: Items): nat
    requires IsNode(shape, 0)
  {
    |Toks(NodeAt(shape, 0))|
  }

  lemma RootCloses(shape: Items)
    requires IsNode(shape, 0)
    ensures Depth(shape, 0) == 0 && OpenIn(shape, 0) == [0] && RootEnd(shape) <= |Stream(shape)|
    ensures CloseOf(Stream(shape), 1, 0) == Some(RootEnd(shape))
    ensures |Stream(shape)| > 0 && Off(Stream(shape), 0) == 0
  {
    assert shape.Sub?;
    assert PathAt(shape, 0) == [0];
    hide Toks, NodeAt, CloseOf, PathAt, At;
    NodeRun(shape, 0);
    CloseOfNode(Stream(shape), 0, NodeAt(shape, 0));
  }

  // The offset behind the END_NODE of the root.
  ghost function EndOfRoot(shape: Items): nat
    requires IsNode(shape, 0)
  {
    RootCloses(shape);
    Off(Stream(shape), RootEnd(shape))
  }

  // Ancestors ------------------------------------------------------------------------------------------------

  // The walk stands on node j, and the node looked for, if there is one, is not behind it.
  ghost predicate Seeking(shape: Items, n: nat, j: nat, r: Result<nat>, depth: int) {
    && IsNode(shape, 0) && IsNode(shape, j) && j < |Stream(shape)|
    && r == Success(Off(Stream(shape), j)) && depth == Depth(shape, j)
    && CloseOf(Stream(shape), j + 1, depth) == Some(RootEnd(shape))
    && (IsNodeOffset(shape, n) ==> j <= IndexAt(shape, n))
  }

  // The walk has passed the place where the node would be.
  ghost predicate Passed(shape: Items, n: nat, r: Result<nat>) {
    !IsNodeOffset(shape, n) && r.Success? && r.value > n
  }

  lemma SeekStart(shape: Items, n: nat)
    requires IsNode(shape, 0)
    ensures Seeking(shape, n, 0, Success(0), 0)
  {
    hide Toks, NodeAt, CloseOf, PathAt;
    RootCloses(shape);
  }

  lemma SeekStep(shape: Items, n: nat, j: nat, r: Result<nat>, depth: int, next: Result<nat>, newDepth: int)
    requires Seeking(shape, n, j, r, depth) && r.value < n && RootEnd(shape) <= |Stream(shape)|
    requires StepIs(Stream(shape), j + 1, depth, next, newDepth)
    ensures var step := NextStep(Stream(shape), j + 1, depth);
            if step.AtNode? then
              && Seeking(shape, n, step.index, next, newDepth) && Follows(shape, j, step.index)
              && 1 <= newDepth <= |OpenIn(shape, j)|
              && OpenIn(shape, step.index) == OpenIn(shape, j)[..newDepth] + [step.index]
              && newDepth == Depth(shape, step.index)
            else
              && next == Success(Off(Stream(shape), RootEnd(shape))) && newDepth == -1
              && (n < Off(Stream(shape), RootEnd(shape)) ==> Passed(shape, n, next))
  {
    hide Toks, NodeAt, CloseOf, PathAt, OpenIn, Off, Stream;
    WalkStep(shape, j, RootEnd(shape));
    if IsNodeOffset(shape, n) {
      var i := IndexAt(shape, n);
      NameInStream(shape, i);
      OffLess(Stream(shape), j, i);
      if n < Off(Stream(shape), RootEnd(shape)) {
        NodeInside(shape, n);
      }
    }
  }

  // A node in front of the root's end has an index in front of it.
  lemma NodeInside(shape: Items, n: nat)
    requires IsNode(shape, 0) && IsNodeOffset(shape, n) && RootEnd(shape) <= |Stream(shape)|
    requires n < Off(Stream(shape), RootEnd(shape))
    ensures IndexAt(shape, n) < RootEnd(shape)
  {
    hide Toks, NodeAt, Off, Stream;
    NameInStream(shape, IndexAt(shape, n));
    if RootEnd(shape) <= IndexAt(shape, n) {
      OffMonotone(Stream(shape), RootEnd(shape), IndexAt(shape, n));
    }
  }

  // The ancestor of the node at n whose depth is d.
  ghost predicate AncestorAt(shape: Items, n: nat, d: nat, a: nat)
    requires IsNodeOffset(shape, n)
  {
    && d < |PathAt(shape, IndexAt(shape, n))|
    && IsNodeOffset(shape, a)
    && PathAt(shape, IndexAt(shape, a)) == PathAt(shape, IndexAt(shape, n))[..d + 1]
  }

  lemma OpenAncestor(shape: Items, i: nat, d: nat)
    requires IsNode(shape, i) && d < |OpenIn(shape, i)|
    ensures IsNodeOffset(shape, Off(Stream(shape), i)) && IndexAt(shape, Off(Stream(shape), i)) == i
    ensures OpenIn(shape, i)[d] < |Stream(shape)|
    ensures AncestorAt(shape, Off(Stream(shape), i), d, Off(Stream(shape), OpenIn(shape, i)[d]))
  {
    hide Toks, PathAt, OpenIn, NodeAt, IsNode, Stream, Off;
    OpenPath(shape, i);
    AncestryAt(shape, i, d);
    NameInStream(shape, i);
    NameInStream(shape, OpenIn(shape, i)[d]);
    IndexUnique(shape, i);
    IndexUnique(shape, OpenIn(shape, i)[d]);
  }

  lemma AncestryAt(it: Items, i: nat, d: nat)
    requires Ancestry(it, i) && d < |OpenIn(it, i)|
    ensures IsAncestor(it, i, d, OpenIn(it, i)[d])
  {
  }

  lemma AncestryLast(it: Items, i: nat)
    requires Ancestry(it, i)
    ensures |OpenIn(it, i)| > 0 && OpenIn(it, i)[|OpenIn(it, i)| - 1] == i
  {
    hide OpenIn, PathAt, IsAncestor, IsNode;
  }

  // The last node seen at depth d in front of node j is its ancestor there.
  ghost predicate Remembers(shape: Items, j: nat, d: int, depth: int, super: Option<nat>) {
    && IsNode(shape, j) && depth == Depth(shape, j)
    && (0 <= d < depth ==> super == AncestorOffset(shape, j, d))
  }

  ghost function AncestorOffset(shape: Items, j: nat, d: nat): Option<nat>
    requires IsNode(shape, j)
  {
    if d < |OpenIn(shape, j)| && OpenIn(shape, j)[d] < |Stream(shape)|
    then Some(Off(Stream(shape), OpenIn(shape, j)[d]))
    else None
  }

  lemma RememberHere(shape: Items, j: nat)
    requires IsNode(shape, j)
    ensures j < |Stream(shape)| && AncestorOffset(shape, j, Depth(shape, j)) == Some(Off(Stream(shape), j))
  {
    hide Toks, PathAt, OpenIn, NodeAt, Stream, Off, Open, IsNode;
    OpenStream(shape, j);
    AncestryLast(shape, j);
  }

  lemma RememberStart(shape: Items, d: int)
    requires IsNode(shape, 0)
    ensures Remembers(shape, 0, d, 0, None)
  {
    hide Toks, NodeAt, CloseOf;
    RootCloses(shape);
  }

  lemma RememberOn(shape: Items, i: nat, j: nat, d: int, was: int, depth: int, super: Option<nat>)
    requires IsNode(shape, i) && IsNode(shape, j) && was == Depth(shape, i) && 1 <= depth <= |OpenIn(shape, i)|
    requires OpenIn(shape, j) == OpenIn(shape, i)[..depth] + [j] && depth == Depth(shape, j)
    requires 0 <= d <= was ==> super == AncestorOffset(shape, i, d)
    ensures Remembers(shape, j, d, depth, super)
  {
    hide Toks, PathAt, OpenIn, NodeAt, Stream, Off, Open, IsNode;
    OpenStream(shape, i);
    OpenStream(shape, j);
    if 0 <= d < depth {
      assert OpenIn(shape, j)[d] == OpenIn(shape, i)[d];
    }
  }

  lemma RememberNow(shape: Items, j: nat, d: int, depth: int, super: Option<nat>, super': Option<nat>)
    requires Remembers(shape, j, d, depth, super) && j < |Stream(shape)|
    requires super' == if depth == d then Some(Off(Stream(shape), j)) else super
    ensures 0 <= d <= depth ==> super' == AncestorOffset(shape, j, d)
  {
    hide Toks, PathAt, OpenIn, NodeAt, Stream, Off, Open, IsNode, AncestorOffset;
    RememberHere(shape, j);
  }

  lemma RememberedAncestor(shape: Items, n: nat, j: nat, d: nat, depth: int, super: Option<nat>)
    requires IsNode(shape, j) && j < |Stream(shape)| && Off(Stream(shape), j) == n
    requires depth == Depth(shape, j) && d <= depth && super == AncestorOffset(shape, j, d)
    ensures super.Some? && IsNodeOffset(shape, n) && IndexAt(shape, n) == j && AncestorAt(shape, n, d, super.value)
  {
    hide Toks, PathAt, OpenIn, NodeAt, Stream, Off, Open, IsNode;
    OpenStream(shape, j);
    OpenAncestor(shape, j, d);
  }

  // The walk stands on a node.
  lemma StandsOn(shape: Items, n: nat, j: nat, r: Result<nat>, depth: int)
    requires Seeking(shape, n, j, r, depth)
    ensures IsNode(shape, j) && j < |Stream(shape)| && r == Success(Off(Stream(shape), j)) && depth == Depth(shape, j)
    ensures IsNodeOffset(shape, r.value) && IndexAt(shape, r.value) == j
    ensures r.value == n ==> IsNodeOffset(shape, n)
  {
    hide Toks, PathAt, NodeAt, Stream, Off, CloseOf, IsNode;
    IndexUnique(shape, j);
  }

  lemma SeekPast(shape: Items, n: nat, j: nat, r: Result<nat>, depth: int)
    requires Seeking(shape, n, j, r, depth) && r.value > n
    ensures Passed(shape, n, r)
  {
    hide Toks, PathAt, NodeAt, Stream, Off, CloseOf;
    if IsNodeOffset(shape, n) {
      NameInStream(shape, IndexAt(shape, n));
      OffMonotone(Stream(shape), j, IndexAt(shape, n));
    }
  }

  // The walk stands in front of the end of the root.
  lemma BeforeEnd(shape: Items, n: nat, j: nat, r: Result<nat>, depth: int)
    requires Seeking(shape, n, j, r, depth) && RootEnd(shape) <= |Stream(shape)|
    ensures r.Success? && r.value < Off(Stream(shape), RootEnd(shape))
  {
    hide Toks, PathAt, NodeAt, Stream, Off, IsNode;
    CloseBehind(Stream(shape), j + 1, depth);
    OffMonotone(Stream(shape), j, RootEnd(shape));
  }

  lemma {:induction false} CloseBehind(ts: seq<Token>, k: nat, depth: nat)
    ensures CloseOf(ts, k, depth).Some? ==> k < CloseOf(ts, k, depth).value <= |ts|
    decreases |ts| - k
  {
    if k < |ts| {
      CloseBehind(ts, k + 1, depth);
      CloseBehind(ts, k + 1, depth + 1);
      if depth > 0 { CloseBehind(ts, k + 1, depth - 1); }
    }
  }

  // No node starts right behind the root.
  ghost predicate LoneRoot(shape: Items) {
    && IsNode(shape, 0)
    && RootEnd(shape) < |Stream(shape)| && !Stream(shape)[RootEnd(shape)].Begin?
  }

  lemma NoNodeBehind(fdt: Blob)
    requires fdt.Valid() && LoneRoot(fdt.shape)
    ensures var e := Off(Stream(fdt.shape), RootEnd(fdt.shape));
            !IsNodeOffset(fdt.shape, e) && NodeCheck(fdt.StructBlock(), e) == Failure(BadOffset)
  {
    hide Describes, Stream, Off, Toks, NodeAt, NextTag, At, Token.Enc, Token.Ok, IsNode;
    var ts, k := Stream(fdt.shape), RootEnd(fdt.shape);
    ReadableStruct(fdt);
    DescribedTagOf(fdt, k);
    if IsNodeOffset(fdt.shape, Off(ts, k)) {
      NameInStream(fdt.shape, IndexAt(fdt.shape, Off(ts, k)));
      OffInjective(ts, k, IndexAt(fdt.shape, Off(ts, k)));
    }
  }

  // The walk has left the root, or tried to go on behind it.
  ghost predicate Outside(shape: Items, n: nat, r: Result<nat>, depth: int) {
    && LoneRoot(shape) && n >= Off(Stream(shape), RootEnd(shape))
    && (if r.Success? then r.value == Off(Stream(shape), RootEnd(shape)) && depth == -1
        else r == Failure(BadOffset) && n > Off(Stream(shape), RootEnd(shape)))
  }

  // fdt_supernode_atdepth_offset: the ancestor of that depth, or the node itself, and how deep
  // the node is. An offset that is no node is found out in one of three ways.
  method SupernodeAtDepth(fdt: Blob, nodeoffset: nat, supernodedepth: int) returns (r: Result<nat>, nodedepth: int)
    requires fdt.Valid() && LoneRoot(fdt.shape)
    ensures supernodedepth < 0 ==> r == Failure(NotFound)
    ensures var e := Off(Stream(fdt.shape), RootEnd(fdt.shape));
            supernodedepth >= 0 && (nodeoffset >= e || !IsNodeOffset(fdt.shape, nodeoffset)) ==>
              r == Failure(if nodeoffset < e then BadOffset else if nodeoffset == e then NotFound else BadStructure)
    ensures supernodedepth >= 0 && IsNodeOffset(fdt.shape, nodeoffset)
            && nodeoffset < Off(Stream(fdt.shape), RootEnd(fdt.shape)) ==>
              && nodedepth == Depth(fdt.shape, IndexAt(fdt.shape, nodeoffset))
              && (if supernodedepth > nodedepth then r == Failure(NotFound)
                  else r.Success? && AncestorAt(fdt.shape, nodeoffset, supernodedepth, r.value))
  {
    hide Describes, Stream, Off, NodeCheck, Toks, NodeAt, PathAt, OpenIn, CloseOf, NextStep, Remembers, Seeking,
      AncestorAt, AncestorOffset, IsNode, IsNodeOffset, Depth, StepIs;
    nodedepth := 0;
    if supernodedepth < 0 {
      return Failure(NotFound), 0;
    }
    ghost var e := Off(Stream(fdt.shape), RootEnd(fdt.shape));
    var supernodeoffset: Option<nat> := None;
    var offset: Result<nat> := Success(0);
    var depth := 0;
    ghost var j := 0;
    ghost var left := false;
    SeekStart(fdt.shape, nodeoffset);
    RememberStart(fdt.shape, supernodedepth);
    NoNodeBehind(fdt);
    while offset.Success? && offset.value <= nodeoffset
      invariant !left && offset.Success? && offset.value <= nodeoffset ==>
                  && Seeking(fdt.shape, nodeoffset, j, offset, depth)
                  && Remembers(fdt.shape, j, supernodedepth, depth, supernodeoffset)
      invariant !left && !(offset.Success? && offset.value <= nodeoffset) ==>
                  Passed(fdt.shape, nodeoffset, offset) && nodeoffset < e
      invariant left ==> Outside(fdt.shape, nodeoffset, offset, depth)
      decreases offset.Success? && offset.value <= nodeoffset, if left then 0 else |Stream(fdt.shape)| - j
    {
      ghost var before := supernodeoffset;
      if depth == supernodedepth {
        supernodeoffset := Some(offset.value);
      }
      if !left {
        StandsOn(fdt.shape, nodeoffset, j, offset, depth);
        BeforeEnd(fdt.shape, nodeoffset, j, offset, depth);
        RememberNow(fdt.shape, j, supernodedepth, depth, before, supernodeoffset);
      }
      if offset.value == nodeoffset {
        nodedepth := depth;
        if supernodedepth > depth {
          return Failure(NotFound), nodedepth;
        }
        RememberedAncestor(fdt.shape, nodeoffset, j, supernodedepth, depth, supernodeoffset);
        return Success(supernodeoffset.value), nodedepth;
      }
      ghost var was, at := offset, depth;
      offset, depth := NextNode(fdt, offset.value, depth);
      if !left {
        ghost var step := NextStep(Stream(fdt.shape), j + 1, at);
        SeekStep(fdt.shape, nodeoffset, j, was, at, offset, depth);
        if step.AtNode? {
          RememberOn(fdt.shape, j, step.index, supernodedepth, at, depth, supernodeoffset);
          StandsOn(fdt.shape, nodeoffset, step.index, offset, depth);
          BeforeEnd(fdt.shape, nodeoffset, step.index, offset, depth);
          if offset.value > nodeoffset {
            SeekPast(fdt.shape, nodeoffset, step.index, offset, depth);
          }
          j := step.index;
        } else {
          left := nodeoffset >= e;
        }
      }
    }
    match offset
    case Failure(e) =>
      return Failure(if e == BadOffset then BadStructure else if e == NotFound then BadOffset else e), nodedepth;
    case Success(_) =>
      return Failure(BadOffset), nodedepth;
  }

  // fdt_node_depth and fdt_parent_offset: a parent is the node one step up in the tree; the root has none.
  method ParentOffset(fdt: Blob, nodeoffset: nat) returns (r: Result<nat>)
    requires fdt.Valid() && LoneRoot(fdt.shape)
    ensures var e := Off(Stream(fdt.shape), RootEnd(fdt.shape));
            nodeoffset >= e || !IsNodeOffset(fdt.shape, nodeoffset) ==>
              r == Failure(if nodeoffset < e then BadOffset else if nodeoffset == e then NotFound else BadStructure)
    ensures IsNodeOffset(fdt.shape, nodeoffset) && nodeoffset < Off(Stream(fdt.shape), RootEnd(fdt.shape)) ==>
              && IsParent(fdt.Img(), nodeoffset, r)
              && (if nodeoffset == 0 then r == Failure(NotFound) else r.Success? && IsNodeOffset(fdt.shape, r.value))
  {
    hide Describes, Stream, Off, NodeCheck, Toks, NodeAt, PathAt, OpenIn, IsNode, IsNodeOffset, AncestorAt, Depth;
    var root, nodedepth := SupernodeAtDepth(fdt, nodeoffset, 0);
    if root.Failure? {
      return root;
    }
    var ignored;
    r, ignored := SupernodeAtDepth(fdt, nodeoffset, nodedepth - 1);
    InRoot(fdt.shape, nodeoffset);
    ParentExact(fdt.Img(), nodeoffset, nodedepth, r);
  }

  // r is the node of which m is a child, and nothing if there is none.
  ghost predicate IsParent(im: Image, m: nat, r: Result<nat>)
    requires IsNodeOffset(im.shape, m)
  {
    forall n: nat :: r == Success(n) <==> (IsNodeOffset(im.shape, n) && IsSubnode(im, n, m))
  }

  // m is a child of n.
  ghost predicate IsSubnode(im: Image, n: nat, m: nat)
    requires IsNodeOffset(im.shape, n) && IsNodeOffset(im.shape, m)
  {
    exists k :: im.PathOf(m) == im.PathOf(n) + [k]
  }

  lemma ParentExact(im: Image, n: nat, depth: int, r: Result<nat>)
    requires IsNodeOffset(im.shape, n) && IsNode(im.shape, 0) && depth == Depth(im.shape, IndexAt(im.shape, n))
    requires if depth - 1 < 0 then r == Failure(NotFound) else r.Success? && AncestorAt(im.shape, n, depth - 1, r.value)
    requires PathAt(im.shape, IndexAt(im.shape, n))[0] == 0
    ensures IsParent(im, n, r)
    ensures if n == 0 then r == Failure(NotFound) else r.Success? && IsNodeOffset(im.shape, r.value)
  {
    hide Toks, PathAt, NodeAt, Stream, Off, AncestorAt, Depth, IsNode, IsNodeOffset;
    ParentIs(im.shape, n, depth, r);
    forall m: nat ensures r == Success(m) <==> (IsNodeOffset(im.shape, m) && IsSubnode(im, m, n)) {
    }
  }

  lemma ParentIs(shape: Items, n: nat, depth: int, r: Result<nat>)
    requires IsNodeOffset(shape, n) && IsNode(shape, 0) && depth == Depth(shape, IndexAt(shape, n))
    requires if depth - 1 < 0 then r == Failure(NotFound) else r.Success? && AncestorAt(shape, n, depth - 1, r.value)
    ensures n == 0 ==> r == Failure(NotFound)
    ensures n > 0 && PathAt(shape, IndexAt(shape, n))[0] == 0 ==>
              && r.Success? && IsNodeOffset(shape, r.value)
              && (exists k :: PathAt(shape, IndexAt(shape, n)) == PathAt(shape, IndexAt(shape, r.value)) + [k])
    ensures forall m: nat, k: nat | IsNodeOffset(shape, m)
            && PathAt(shape, IndexAt(shape, n)) == PathAt(shape, IndexAt(shape, m)) + [k] ::
              r == Success(m)
  {
    hide Toks, PathAt, NodeAt, Stream, Off;
    var p := PathAt(shape, IndexAt(shape, n));
    if n == 0 {
      RootAtZero(shape);
    } else if depth == 0 && p[0] == 0 {
      TopIsRoot(shape, n);
    }
    if depth > 0 {
      assert p == p[..depth] + [p[depth]];
    }
    forall m: nat, k: nat | IsNodeOffset(shape, m) && p == PathAt(shape, IndexAt(shape, m)) + [k]
      ensures r == Success(m)
    {
      assert p[..depth] == PathAt(shape, IndexAt(shape, m));
      PathInjective(shape, IndexAt(shape, m), IndexAt(shape, r.value));
    }
  }

  lemma RootAtZero(shape: Items)
    requires IsNode(shape, 0)
    ensures IsNodeOffset(shape, 0) && IndexAt(shape, 0) == 0 && PathAt(shape, 0) == [0]
  {
    hide Toks, NodeAt;
    RootCloses(shape);
    IndexUnique(shape, 0);
  }

  lemma TopIsRoot(shape: Items, n: nat)
    requires IsNode(shape, 0) && IsNodeOffset(shape, n) && PathAt(shape, IndexAt(shape, n)) == [0]
    ensures n == 0
  {
    hide Toks, NodeAt;
    RootAtZero(shape);
    PathInjective(shape, 0, IndexAt(shape, n));
  }

  lemma InRoot(shape: Items, n: nat)
    requires IsNode(shape, 0) && IsNodeOffset(shape, n) && RootEnd(shape) <= |Stream(shape)|
    requires n < Off(Stream(shape), RootEnd(shape))
    ensures PathAt(shape, IndexAt(shape, n))[0] == 0
  {
    var i := IndexAt(shape, n);
    NodeInside(shape, n);
    assert shape.Sub?;
    Lengths(shape, i);
    RootTokens(shape);
  }

  lemma RootTokens(shape: Items)
    requires shape.Sub?
    ensures IsNode(shape, 0) && RootEnd(shape) == |Toks(shape.body)| + 2
  {
    var root := Sub(shape.name, shape.npad, shape.body, Done);
    assert NodeAt(shape, 0) == root && |Toks(Done)| == 0;
    assert Toks(root) == [Begin(root.name, root.npad)] + (Toks(root.body) + ([EndNode] + Toks(Done)));
  }
}
