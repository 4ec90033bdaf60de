// Paths as strings: fdt_get_path (fdt_ro.c).
module PathStrings {
  import opened Bytes
  import opened Tokens
  import opened Structure
  import opened Scan
  import opened Memory
  import opened Blobs
  import opened Readers
  import opened Edits
  import opened Editor
  import opened Children
  import opened Paths

  const SLASH: byte := 0x2f

  // Names joined -----------------------------------------------------------------------------------

  // Each name followed by a slash.
  function Joined(ns: seq<seq<byte>>): (s: seq<byte>)
    ensures |s| >= |ns|
    ensures ns != [] ==> s[|s| - 1] == SLASH
  {
    if ns == [] then [] else Joined(ns[..|ns| - 1]) + (ns[|ns| - 1] + [SLASH])
  }

  lemma JoinedSnoc(ns: seq<seq<byte>>, n: seq<byte>)
    ensures Joined(ns + [n]) == Joined(ns) + (n + [SLASH])
  {
    assert (ns + [n])[..|ns|] == ns;
  }

  // How many leading names fit into a buffer.
  function Fit(ns: seq<seq<byte>>, size: nat): (f: nat)
    ensures f <= |ns|
  {
    if ns == [] then 0
    else
      var f := Fit(ns[..|ns| - 1], size);
      if f == |ns| - 1 && |Joined(ns)| <= size then |ns| else f
  }

  lemma {:induction false} FitAll(ns: seq<seq<byte>>, size: nat)
    ensures Fit(ns, size) == |ns| <==> |Joined(ns)| <= size
    decreases |ns|
  {
    if ns != [] {
      FitAll(ns[..|ns| - 1], size);
    }
  }

  lemma {:induction false} FitPrefix(ns: seq<seq<byte>>, d: nat, size: nat)
    requires d <= |ns|
    ensures Fit(ns[..d], size) == if Fit(ns, size) < d then Fit(ns, size) else d
    ensures |Joined(ns[..Fit(ns, size)])| <= size
    decreases |ns|
  {
    if ns != [] {
      var front := ns[..|ns| - 1];
      if d < |ns| {
        FitPrefix(front, d, size);
        assert front[..d] == ns[..d];
      } else {
        FitPrefix(front, |front|, size);
        assert ns[..d] == ns && front[..|front|] == front;
      }
      var f := Fit(ns, size);
      if f < |ns| {
        assert front[..f] == ns[..f];
      } else {
        assert ns[..f] == ns;
      }
    } else {
      assert ns[..0] == [];
    }
  }

  // One more name.
  lemma FitSnoc(ns: seq<seq<byte>>, n: seq<byte>, size: nat)
    ensures Fit(ns + [n], size)
         == if Fit(ns, size) == |ns| && |Joined(ns)| + |n| + 1 <= size then |ns| + 1 else Fit(ns, size)
  {
    JoinedSnoc(ns, n);
    assert (ns + [n])[..|ns|] == ns;
  }

  // The names above a node -----------------------------------------------------------------------------

  ghost function NameAt(shape: Items, k: nat): seq<byte> {
    if IsNode(shape, k) then NodeAt(shape, k).name else []
  }

  // The names of the node and its ancestors, outermost first.
  ghost function NamesAbove(shape: Items, i: nat): (ns: seq<seq<byte>>)
    requires IsNode(shape, i)
    ensures |ns| == |OpenIn(shape, i)| && forall m :: 0 <= m < |ns| ==> ns[m] == NameAt(shape, OpenIn(shape, i)[m])
  {
    seq(|OpenIn(shape, i)|, m requires 0 <= m < |OpenIn(shape, i)| => NameAt(shape, OpenIn(shape, i)[m]))
  }

  // Name m on the way to node i is that of the node at the first m + 1 steps of its path.
  ghost predicate NamedInTree(im: Image, i: nat, m: nat)
    requires OrderedIn(im.hdr, |im.mem|) && IsNode(im.shape, i)
  {
    && m < |PathAt(im.shape, i)| && m < |NamesAbove(im.shape, i)|
    && ValidPath(im.Tree(), PathAt(im.shape, i)[..m + 1])
    && NamesAbove(im.shape, i)[m] == Lookup(im.Tree(), PathAt(im.shape, i)[..m + 1]).name
  }

  // They are the names along the path in the device tree.
  lemma NamesInTree(im: Image, i: nat)
    requires im.Valid() && IsNode(im.shape, i)
    ensures |NamesAbove(im.shape, i)| == |PathAt(im.shape, i)|
    ensures forall m :: 0 <= m < |PathAt(im.shape, i)| ==> NamedInTree(im, i, m)
  {
    hide Describes, Toks, NodeAt, PathAt, OpenIn, Kids, Props, StructOf, StringsOf, HeadOf, RsvCount, IsNode, Ancestry,
      Lookup, ValidPath;
    OpenPath(im.shape, i);
    AncestrySize(im.shape, i);
    forall m | 0 <= m < |PathAt(im.shape, i)| ensures NamedInTree(im, i, m) {
      AncestryAt(im.shape, i, m);
      NodeParts(im.shape, StructOf(im.hdr, im.mem), StringsOf(im.hdr, im.mem), OpenIn(im.shape, i)[m]);
    }
  }

  lemma NamesStep(shape: Items, i: nat, j: nat, d: nat)
    requires IsNode(shape, i) && IsNode(shape, j) && d <= |OpenIn(shape, i)|
    requires OpenIn(shape, j) == OpenIn(shape, i)[..d] + [j]
    ensures NamesAbove(shape, j) == NamesAbove(shape, i)[..d] + [NodeAt(shape, j).name]
  {
    hide OpenIn, Toks, NodeAt, IsNode;
    var a, b := NamesAbove(shape, j), NamesAbove(shape, i)[..d] + [NodeAt(shape, j).name];
    forall m | 0 <= m < |a| ensures a[m] == b[m] {
      assert m < d ==> OpenIn(shape, j)[m] == OpenIn(shape, i)[m];
    }
  }

  ghost predicate NoSlashes(shape: Items) {
    forall k :: IsNode(shape, k) ==> SLASH !in NodeAt(shape, k).name
  }

  // The buffer ----------------------------------------------------------------------------------------------

  // The buffer holds the first pdepth of these names.
  ghost predicate Holds(b: seq<byte>, p: nat, ns: seq<seq<byte>>, pdepth: nat) {
    pdepth <= |ns| && p <= |b| && b[..p] == Joined(ns[..pdepth])
  }

  // Taking the last name off again: back to the slash in front of it. There is none in front of the first
  // name, and none if there is no name: the search reads in front of the buffer, which is reported as None.
  method PopName(buf: array<byte>, p: nat, ghost ns: seq<seq<byte>>, ghost pdepth: nat) returns (r: Option<nat>)
    requires Holds(buf[..], p, ns, pdepth) && (pdepth > 0 ==> SLASH !in ns[pdepth - 1])
    ensures r.Some? <==> pdepth > 1
    ensures r.Some? ==> Holds(buf[..], r.value, ns, pdepth - 1)
  {
    if p == 0 {
      assert pdepth == 0 by { NoName(ns, pdepth); }
      return None;
    }
    assert pdepth > 0 by { NoNames(ns); }
    ghost var front, name := Joined(ns[..pdepth - 1]), ns[pdepth - 1];
    assert ns[..pdepth] == ns[..pdepth - 1] + [name];
    JoinedSnoc(ns[..pdepth - 1], name);
    FrontEmpty(ns, pdepth - 1);
    assert buf[..p] == front + (name + [SLASH]);
    var q := p - 1;
    while q > 0 && buf[q - 1] != SLASH
      invariant |front| <= q < p
      decreases q
    {
      assert q > |front| by { LastSlash(buf[..p], front, name, q); }
      q := q - 1;
    }
    if q == 0 {
      return None;
    }
    SlashInFront(buf[..p], front, name, q);
    assert buf[..q] == buf[..p][..q];
    return Some(q);
  }

  lemma NoName(ns: seq<seq<byte>>, pdepth: nat)
    requires pdepth <= |ns| && Joined(ns[..pdepth]) == []
    ensures pdepth == 0
  {
  }

  lemma NoNames(ns: seq<seq<byte>>)
    ensures Joined(ns[..0]) == []
  {
  }

  lemma FrontEmpty(ns: seq<seq<byte>>, m: nat)
    requires m <= |ns|
    ensures Joined(ns[..m]) == [] <==> m == 0
  {
  }

  lemma LastSlash(b: seq<byte>, front: seq<byte>, name: seq<byte>, q: nat)
    requires b == front + (name + [SLASH]) && 0 < q < |b| && b[q - 1] != SLASH && |front| <= q
    requires front != [] ==> front[|front| - 1] == SLASH
    ensures q > |front|
  {
  }

  lemma SlashInFront(b: seq<byte>, front: seq<byte>, name: seq<byte>, q: nat)
    requires b == front + (name + [SLASH]) && SLASH !in name
    requires |front| <= q < |b| && q > 0 && b[q - 1] == SLASH
    ensures q == |front|
  {
    assert forall k :: |front| <= k < |front| + |name| ==> b[k] == name[k - |front|];
  }

  // Back to at most depth names
  method PopTo(buf: array<byte>, p: nat, pdepth: nat, depth: int, ghost ns: seq<seq<byte>>)
    returns (r: Option<nat>, qdepth: nat)
    requires Holds(buf[..], p, ns, pdepth) && depth >= -1
    requires forall m :: 0 <= m < |ns| ==> SLASH !in ns[m]
    ensures r.None? <==> pdepth > depth && depth < 1
    ensures r.Some? ==> qdepth == (if pdepth < depth then pdepth else depth) && Holds(buf[..], r.value, ns, qdepth)
  {
    var q := p;
    qdepth := pdepth;
    while qdepth > depth
      invariant 0 <= qdepth <= pdepth && (qdepth < depth ==> qdepth == pdepth) && (pdepth >= depth ==> qdepth >= depth)
      invariant Holds(buf[..], q, ns, qdepth)
      invariant depth < 1 && pdepth > depth ==> qdepth > depth
      decreases qdepth - depth
    {
      var popped := PopName(buf, q, ns, qdepth);
      if popped.None? {
        return None, qdepth;
      }
      q := popped.value;
      qdepth := qdepth - 1;
    }
    return Some(q), qdepth;
  }

  // Another name and its slash, if they fit
  method PushName(buf: array<byte>, p: nat, pdepth: nat, name: seq<byte>, buflen: nat, ghost ns: seq<seq<byte>>)
    returns (q: nat, qdepth: nat)
    requires Holds(buf[..], p, ns, pdepth) && pdepth == |ns| && p <= buflen <= buf.Length
    modifies buf
    ensures qdepth == if |Joined(ns)| + |name| + 1 <= buflen then pdepth + 1 else pdepth
    ensures Holds(buf[..], q, ns + [name], qdepth) && q <= buflen
  {
    q, qdepth := p, pdepth;
    assert ns[..pdepth] == ns && (ns + [name])[..pdepth] == ns;
    if p + |name| + 1 <= buflen {
      ghost var was := buf[..];
      Memcpy(buf, p, name);
      buf[p + |name|] := SLASH;
      q, qdepth := p + |name| + 1, pdepth + 1;
      JoinedSnoc(ns, name);
      assert (ns + [name])[..qdepth] == ns + [name];
      assert buf[..q] == was[..p] + (name + [SLASH]);
    }
  }

  // fdt_get_path -----------------------------------------------------------------------------------------------

  // The path of a node: its names with slashes between them, "/" for a root without a name.
  function PathString(ns: seq<seq<byte>>): seq<byte> {
    var j := Joined(ns);
    if |j| > 1 then j[..|j| - 1] else j
  }

  // What has been written when the walk comes to node j.
  ghost predicate Writes(shape: Items, j: nat, b: seq<byte>, p: nat, pdepth: nat, buflen: nat, depth: int,
                         prev: seq<seq<byte>>) {
    && IsNode(shape, j) && p <= buflen
    && 0 <= depth <= |prev| && NamesAbove(shape, j) == prev[..depth] + [NodeAt(shape, j).name]
    && Holds(b, p, prev, pdepth) && pdepth == Fit(prev, buflen)
    && (pdepth > depth ==> depth >= 1)
    && forall m :: 0 <= m < |prev| ==> SLASH !in prev[m]
  }

  lemma WritesStart(shape: Items, b: seq<byte>, buflen: nat)
    requires IsNode(shape, 0) && |b| > 0
    ensures Writes(shape, 0, b, 0, 0, buflen, 0, [])
  {
    hide Toks, NodeAt;
    RootCloses(shape);
    var prev: seq<seq<byte>> := [];
    assert prev[..0] == [] && b[..0] == [];
    assert NamesAbove(shape, 0) == [NodeAt(shape, 0).name];
  }

  lemma WritesStep(shape: Items, i: nat, j: nat, b: seq<byte>, p: nat, pdepth: nat, buflen: nat, depth: int)
    requires NoSlashes(shape) && IsNode(shape, i) && IsNode(shape, j) && p <= buflen
    requires 1 <= depth <= |OpenIn(shape, i)| && OpenIn(shape, j) == OpenIn(shape, i)[..depth] + [j]
    requires Holds(b, p, NamesAbove(shape, i), pdepth) && pdepth == Fit(NamesAbove(shape, i), buflen)
    ensures Writes(shape, j, b, p, pdepth, buflen, depth, NamesAbove(shape, i))
  {
    hide Toks, NodeAt, OpenIn, IsNode;
    NamesStep(shape, i, j, depth);
    forall m | 0 <= m < |NamesAbove(shape, i)| ensures SLASH !in NamesAbove(shape, i)[m] {
      var k := OpenIn(shape, i)[m];
      assert IsNode(shape, k) ==> SLASH !in NodeAt(shape, k).name;
    }
  }

  // At each node: names of nodes that have been left are taken off, and the node's own name is put
  // on if its parent's is there and it fits. Behind the root there is nothing left to take off.
  method VisitNode(fdt: Blob, offset: nat, buf: array<byte>, p: nat, pdepth: nat, buflen: nat, depth: int,
                   ghost j: nat, ghost prev: seq<seq<byte>>) returns (r: Option<nat>, qdepth: nat)
    requires fdt.Valid() && buf != fdt.buf && buflen <= buf.Length && depth >= -1
    requires depth >= 0 ==> IsNodeOffset(fdt.shape, offset) && IndexAt(fdt.shape, offset) == j
    requires depth >= 0 ==> Writes(fdt.shape, j, buf[..], p, pdepth, buflen, depth, prev)
    requires Holds(buf[..], p, prev, pdepth) && forall m :: 0 <= m < |prev| ==> SLASH !in prev[m]
    modifies buf
    ensures r.None? <==> depth < 0
    ensures r.Some? ==>
              && Holds(buf[..], r.value, NamesAbove(fdt.shape, j), qdepth) && r.value <= buflen
              && qdepth == Fit(NamesAbove(fdt.shape, j), buflen)
  {
    hide Describes, Toks, NodeAt, OpenIn, IsNode, IsNodeOffset, NodeCheck;
    r, qdepth := PopTo(buf, p, pdepth, depth, prev);
    if r.None? {
      return;
    }
    FitPrefix(prev, depth, buflen);
    ghost var front, own := prev[..depth], NodeAt(fdt.shape, j).name;
    FitSnoc(front, own, buflen);
    HoldsPrefix(buf[..], r.value, prev, depth, qdepth, own);
    if qdepth >= depth {
      FitAll(front, buflen);
      var name := GetName(fdt, offset);
      var q;
      q, qdepth := PushName(buf, r.value, qdepth, name.value, buflen, front);
      r := Some(q);
    }
  }

  lemma HoldsPrefix(b: seq<byte>, p: nat, ns: seq<seq<byte>>, d: nat, pdepth: nat, n: seq<byte>)
    requires Holds(b, p, ns, pdepth) && pdepth <= d <= |ns|
    ensures Holds(b, p, ns[..d], pdepth) && Holds(b, p, ns[..d] + [n], pdepth)
    ensures p == |Joined(ns[..pdepth])|
  {
    assert ns[..d][..pdepth] == ns[..pdepth] && (ns[..d] + [n])[..pdepth] == ns[..pdepth];
  }

  // The path is written exactly if it and its terminator fit. With an offset at or behind the end of the root the
  // walk comes to that end with depth -1, and takes off even the first name: it reads in front of the buffer.
  // This method stops there and reports it.
  method GetPath(fdt: Blob, nodeoffset: nat, buf: array<byte>, buflen: nat) returns (r: Result<()>, outside: bool)
    requires fdt.Valid() && IsNode(fdt.shape, 0) && NoSlashes(fdt.shape) && buf != fdt.buf && buflen <= buf.Length
    modifies buf
    ensures outside <==> buflen >= 2 && nodeoffset >= EndOfRoot(fdt.shape)
    ensures buflen < 2 ==> r == Failure(NoSpace)
    ensures buflen >= 2 && !outside && !IsNodeOffset(fdt.shape, nodeoffset) ==> r == Failure(BadOffset)
    ensures buflen >= 2 && !outside && IsNodeOffset(fdt.shape, nodeoffset) ==>
              var path := PathString(NamesAbove(fdt.shape, IndexAt(fdt.shape, nodeoffset)));
              && r == (if |path| + 1 <= buflen then Success(()) else Failure(NoSpace))
              && (r.Success? ==> |path| < buf.Length && buf[..|path|] == path && buf[|path|] == 0)
  {
    hide Describes, Stream, Off, NodeCheck, Toks, NodeAt, Holds, NoSlashes, IsNode, IsNodeOffset, StepIs, NamesAbove,
      Fit, PathState, EndOfRoot, PathString;
    outside := false;
    if buflen < 2 {
      return Failure(NoSpace), false;
    }
    var pdepth: nat, p: nat := 0, 0;
    var offset: Result<nat> := Success(0);
    var depth := 0;
    ghost var j, prev: seq<seq<byte>>, left := 0, [], false;
    PathStart(fdt.shape, nodeoffset, buf[..], buflen);
    while offset.Success? && offset.value <= nodeoffset
      invariant fdt.Valid()
      invariant PathState(fdt.shape, nodeoffset, left, j, offset, depth, buf[..], p, pdepth, buflen, prev)
      decreases offset.Success? && offset.value <= nodeoffset, if left then 0 else |Stream(fdt.shape)| - j
    {
      BeforeVisit(fdt.shape, nodeoffset, left, j, offset, depth, buf[..], p, pdepth, buflen, prev);
      ghost var was, at := offset, depth;
      var visited;
      visited, pdepth := VisitNode(fdt, offset.value, buf, p, pdepth, buflen, depth, j, prev);
      if visited.None? {
        return Failure(BadOffset), true;
      }
      p := visited.value;
      if offset.value == nodeoffset {
        PathFits(fdt.shape, j, buf[..], p, pdepth, buflen);
        if pdepth < depth + 1 {
          return Failure(NoSpace), false;
        }
        if p > 1 {
          p := p - 1;
        }
        buf[p] := 0;
        return Success(()), false;
      }
      offset, depth := NextNode(fdt, offset.value, depth);
      left, j, prev := AfterStep(fdt.shape, nodeoffset, j, was, at, offset, depth, buf[..], p, pdepth, buflen);
    }
    PathPassed(fdt.shape, nodeoffset, left, j, offset, depth, buf[..], p, pdepth, buflen, prev);
    return Failure(BadOffset), false;
  }

  // Where the walk of fdt_get_path for the offset n stands: on a node in front of it or at it, behind it, or behind
  // the root; and what the buffer holds.
  ghost predicate PathState(shape: Items, n: nat, left: bool, j: nat, r: Result<nat>, depth: int,
                            b: seq<byte>, p: nat, pdepth: nat, buflen: nat, prev: seq<seq<byte>>) {
    && IsNode(shape, 0)
    && if left then r == Success(EndOfRoot(shape)) && EndOfRoot(shape) <= n && depth == -1 && Kept(b, p, prev, pdepth)
       else if r.Success? && r.value <= n then
         Seeking(shape, n, j, r, depth) && Writes(shape, j, b, p, pdepth, buflen, depth, prev)
       else Passed(shape, n, r) && n < EndOfRoot(shape)
  }

  lemma PathStart(shape: Items, n: nat, b: seq<byte>, buflen: nat)
    requires IsNode(shape, 0) && |b| > 0
    ensures PathState(shape, n, false, 0, Success(0), 0, b, 0, 0, buflen, [])
  {
    hide IsNode, Seeking, Writes;
    SeekStart(shape, n);
    WritesStart(shape, b, buflen);
  }

  lemma BeforeVisit(shape: Items, n: nat, left: bool, j: nat, r: Result<nat>, depth: int,
                    b: seq<byte>, p: nat, pdepth: nat, buflen: nat, prev: seq<seq<byte>>)
    requires PathState(shape, n, left, j, r, depth, b, p, pdepth, buflen, prev) && r.Success? && r.value <= n
    ensures Kept(b, p, prev, pdepth) && depth >= -1 && (left <==> depth < 0)
    ensures depth < 0 ==> n >= EndOfRoot(shape)
    ensures depth >= 0 ==>
              && Seeking(shape, n, j, r, depth) && Writes(shape, j, b, p, pdepth, buflen, depth, prev)
              && IsNode(shape, j) && j < |Stream(shape)| && r.value == Off(Stream(shape), j) && depth == Depth(shape, j)
              && IsNodeOffset(shape, r.value) && IndexAt(shape, r.value) == j && r.value < EndOfRoot(shape)
              && (r.value == n ==> IsNodeOffset(shape, n))
  {
    hide IsNode, Seeking, Writes, IsNodeOffset, Depth, Kept, Stream, Off;
    if !left {
      StandsOn(shape, n, j, r, depth);
      RootCloses(shape);
      BeforeEnd(shape, n, j, r, depth);
      WritesKept(shape, j, b, p, pdepth, buflen, depth, prev);
    }
  }

  lemma AfterStep(shape: Items, n: nat, j: nat, was: Result<nat>, at: int, r: Result<nat>, depth: int,
                  b: seq<byte>, p: nat, pdepth: nat, buflen: nat)
    returns (left: bool, next: nat, prev: seq<seq<byte>>)
    requires Seeking(shape, n, j, was, at) && was.value < n && NoSlashes(shape) && IsNode(shape, j) && p <= buflen
    requires Holds(b, p, NamesAbove(shape, j), pdepth) && pdepth == Fit(NamesAbove(shape, j), buflen)
    requires StepIs(Stream(shape), j + 1, at, r, depth)
    ensures PathState(shape, n, left, next, r, depth, b, p, pdepth, buflen, prev)
    ensures !left && r.Success? && r.value <= n ==> j < next < |Stream(shape)|
  {
    hide IsNode, Writes, IsNodeOffset, Depth, Stream, Off, OpenIn, NoSlashes, Holds, Fit, CloseOf, NextStep, NodeAt,
      NamesAbove, StepIs;
    assert IsNode(shape, 0);
    RootCloses(shape);
    var step := NextStep(Stream(shape), j + 1, at);
    SeekStep(shape, n, j, was, at, r, depth);
    prev := NamesAbove(shape, j);
    left, next := false, j;
    if step.AtNode? {
      next := step.index;
      StandsOn(shape, n, next, r, depth);
      BeforeEnd(shape, n, next, r, depth);
      WritesStep(shape, j, next, b, p, pdepth, buflen, depth);
      if r.value > n {
        SeekPast(shape, n, next, r, depth);
      }
    } else {
      NamesKept(shape, j, b, p, pdepth);
      left := n >= EndOfRoot(shape);
    }
  }

  lemma PathPassed(shape: Items, n: nat, left: bool, j: nat, r: Result<nat>, depth: int,
                   b: seq<byte>, p: nat, pdepth: nat, buflen: nat, prev: seq<seq<byte>>)
    requires PathState(shape, n, left, j, r, depth, b, p, pdepth, buflen, prev) && !(r.Success? && r.value <= n)
    ensures !IsNodeOffset(shape, n) && n < EndOfRoot(shape)
  {
    hide IsNode, Seeking, Writes, IsNodeOffset, Kept;
  }

  // The buffer holds names without slashes.
  ghost predicate Kept(b: seq<byte>, p: nat, prev: seq<seq<byte>>, pdepth: nat) {
    Holds(b, p, prev, pdepth) && forall m :: 0 <= m < |prev| ==> SLASH !in prev[m]
  }

  lemma WritesKept(shape: Items, j: nat, b: seq<byte>, p: nat, pdepth: nat, buflen: nat, depth: int,
                   prev: seq<seq<byte>>)
    requires Writes(shape, j, b, p, pdepth, buflen, depth, prev)
    ensures depth >= 0 && Kept(b, p, prev, pdepth)
  {
    hide IsNode, NodeAt, NamesAbove, Holds;
  }

  lemma NamesKept(shape: Items, j: nat, b: seq<byte>, p: nat, pdepth: nat)
    requires IsNode(shape, j) && NoSlashes(shape) && Holds(b, p, NamesAbove(shape, j), pdepth)
    ensures Kept(b, p, NamesAbove(shape, j), pdepth)
  {
    hide Toks, NodeAt, OpenIn, IsNode, Holds;
    forall m | 0 <= m < |NamesAbove(shape, j)| ensures SLASH !in NamesAbove(shape, j)[m] {
      var k := OpenIn(shape, j)[m];
      assert IsNode(shape, k) ==> SLASH !in NodeAt(shape, k).name;
    }
  }

  // At the node looked for: whether its path fits, and what the buffer holds if it does.
  lemma PathFits(shape: Items, j: nat, b: seq<byte>, p: nat, pdepth: nat, buflen: nat)
    requires IsNode(shape, j) && Holds(b, p, NamesAbove(shape, j), pdepth)
    requires pdepth == Fit(NamesAbove(shape, j), buflen)
    requires buflen >= 2 && p <= buflen <= |b|
    ensures var path := PathString(NamesAbove(shape, j));
            && (pdepth < Depth(shape, j) + 1 <==> |path| + 1 > buflen)
            && (pdepth >= Depth(shape, j) + 1 ==>
                  && p > 0 && path == b[..if p > 1 then p - 1 else p]
                  && |path| == (if p > 1 then p - 1 else p) < |b|)
  {
    hide Toks, NodeAt, PathAt, OpenIn, IsNode;
    var ns := NamesAbove(shape, j);
    OpenStream(shape, j);
    FitAll(ns, buflen);
    if pdepth == |ns| {
      assert ns[..pdepth] == ns;
      if p > 1 {
        assert b[..p][..p - 1] == b[..p - 1];
      }
    }
  }
}
