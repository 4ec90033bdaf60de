// Walking and searching a well-formed blob: fdt_next_node and the loops built on it,
// property lookup and string lookup (fdt.c, fdt_ro.c, fdt_wip.c).
module Readers {
  import opened Bytes
  import opened Tokens
  import opened Structure
  import opened Scan
  import opened Memory
  import opened Blobs
  import opened Loops

  lemma DescribedTagOf(fdt: Blob, i: nat)
    requires fdt.Valid() && i < |Stream(fdt.shape)|
    ensures var ts := Stream(fdt.shape);
            && NextTag(fdt.Readable(), Off(ts, i)) == TagResult(ts[i].Tag(), Success(Off(ts, i + 1)))
            && At(fdt.StructBlock(), Off(ts, i), ts[i].Enc())
            && Off(ts, i) % 4 == 0
            && ts[i].Ok()
            && (ts[i] != End ==> i + 1 < |ts|)
  {
    hide Describes, Stream, NextTag, At, Token.Enc, Off;
    ReadableStruct(fdt);
    DescribedTag(fdt.shape, fdt.StructBlock(), fdt.StringsBlock(), i);
  }

  // fdt_check_node_offset_
  method CheckNodeOffset(fdt: Blob, offset: nat) returns (r: Result<nat>)
    requires fdt.hdr.totalsize <= fdt.buf.Length && fdt.hdr.totalsize <= INT32_MAX
    ensures r == NodeCheck(fdt.Readable(), offset)
  {
    if offset % 4 != 0 {
      return Failure(BadOffset);
    }
    var tag, next := NextTagOf(fdt, offset);
    if tag != BEGIN_NODE {
      return Failure(BadOffset);
    }
    return next;
  }

  // What fdt_next_node reports, for a walk that continues at token k.
  ghost predicate StepIs(ts: seq<Token>, k: nat, depth: int, r: Result<nat>, newDepth: int) {
    match NextStep(ts, k, depth)
    case AtNode(j, d) => r == Success(Off(ts, j)) && newDepth == d
    case Left(j, d) => r == Success(Off(ts, j)) && newDepth == d
    case NoMore => r == Failure(NotFound)
  }

  // The token behind which fdt_next_node continues.
  ghost function Resume(shape: Items, offset: int): nat
    requires offset < 0 || IsNodeOffset(shape, offset)
  {
    if offset < 0 then 0 else IndexAt(shape, offset) + 1
  }

  // The token loop of fdt_next_node, on any bytes on which it ends
  method NextNodeFrom(fdt: Blob, from: nat, depth: int) returns (r: Result<nat>, newDepth: int)
    requires fdt.hdr.totalsize <= fdt.buf.Length && fdt.hdr.totalsize <= INT32_MAX
    requires from % 4 == 0 && NodeLoop(fdt.Readable(), from, depth) != Hangs
    ensures Ends(r, newDepth) == NodeLoop(fdt.Readable(), from, depth)
  {
    hide NextTag, StuckAt;
    ghost var s := fdt.Readable();
    newDepth := depth;
    var nextoffset := from;
    while true
      invariant nextoffset % 4 == 0
      invariant NodeLoop(s, from, depth) == NodeLoop(s, nextoffset, newDepth) != Hangs
      decreases |s| + 8 - nextoffset
    {
      var offset := nextoffset;
      NextTagProgress(s, offset);
      TagBounds(s, offset);
      var tag, next := NextTagOf(fdt, offset);
      if tag == BEGIN_NODE {
        newDepth := newDepth + 1;
        return Success(offset), newDepth;
      } else if tag == END_NODE {
        newDepth := newDepth - 1;
        if newDepth < 0 {
          return next, newDepth;
        }
      } else if tag == END {
        if next.Success? {
          return Failure(NotFound), newDepth;
        }
        return next, newDepth;
      }
      nextoffset := next.value;
    }
  }

  // fdt_next_node on any bytes on which its loop ends
  method NextNodeAt(fdt: Blob, offset: int, depth: int) returns (r: Result<nat>, newDepth: int)
    requires fdt.hdr.totalsize <= fdt.buf.Length && fdt.hdr.totalsize <= INT32_MAX
    requires NextNodeOn(fdt.Readable(), offset, depth) != Hangs
    ensures Ends(r, newDepth) == NextNodeOn(fdt.Readable(), offset, depth)
  {
    hide NodeLoop, NodeCheck;
    var from := 0;
    if offset >= 0 {
      var c := CheckNodeOffset(fdt, offset);
      if c.Failure? {
        return c, depth;
      }
      NodeCheckAligned(fdt.Readable(), offset);
      from := c.value;
    }
    r, newDepth := NextNodeFrom(fdt, from, depth);
  }

  // fdt_next_node
  method NextNode(fdt: Blob, offset: int, depth: int) returns (r: Result<nat>, newDepth: int)
    requires fdt.Valid()
    requires offset < 0 || fdt.NodeArg(offset)
    ensures offset < 0 || IsNodeOffset(fdt.shape, offset)
            ==> StepIs(Stream(fdt.shape), Resume(fdt.shape, offset), depth, r, newDepth)
    ensures offset >= 0 && !IsNodeOffset(fdt.shape, offset)
            ==> r == NodeCheck(fdt.StructBlock(), offset) && r.Failure? && newDepth == depth
  {
    hide Describes, Stream, NextTag, Off, NodeCheck, StepIs, NodeLoop;
    ReadableStruct(fdt);
    if offset < 0 || IsNodeOffset(fdt.shape, offset) {
      NextNodeIs(fdt, offset, depth);
    }
    r, newDepth := NextNodeAt(fdt, offset, depth);
  }

  // On a well-formed blob the loop ends as the walk over the tokens says.
  lemma NextNodeIs(fdt: Blob, offset: int, depth: int)
    requires fdt.Valid() && (offset < 0 || IsNodeOffset(fdt.shape, offset))
    ensures NextNodeOn(fdt.StructBlock(), offset, depth).Ends?
    ensures var found := NextNodeOn(fdt.StructBlock(), offset, depth);
            StepIs(Stream(fdt.shape), Resume(fdt.shape, offset), depth, found.r, found.depth)
  {
    hide Describes, Stream, NextTag, Off, NodeCheck, NodeLoop, NextStep;
    var k := Resume(fdt.shape, offset);
    StreamStart(fdt.shape);
    if offset >= 0 {
      NodeOffsetChecks(fdt.shape, fdt.StructBlock(), fdt.StringsBlock(), offset);
    }
    LoopOnStream(fdt.shape, fdt.StructBlock(), fdt.StringsBlock(), k, depth);
  }

  lemma StreamStart(shape: Items)
    ensures |Stream(shape)| > 0 && Off(Stream(shape), 0) == 0
  {
  }

  lemma BeginIsNode(shape: Items, j: nat)
    requires j < |Stream(shape)| && Stream(shape)[j].Begin?
    ensures IsNode(shape, j)
    ensures IsNodeOffset(shape, Off(Stream(shape), j))
    ensures IndexAt(shape, Off(Stream(shape), j)) == j
  {
    IndexUnique(shape, j);
  }

  // The tokens of the node at i, inside the stream.
  lemma NodeRun(shape: Items, i: nat)
    requires IsNode(shape, i)
    ensures At(Stream(shape), i, Toks(NodeAt(shape, i)))
    ensures Stream(shape)[i] == Begin(NodeAt(shape, i).name, NodeAt(shape, i).npad)
    ensures At(Stream(shape), i + 1, Toks(NodeAt(shape, i).body))
    ensures |Toks(NodeAt(shape, i))| == |Toks(NodeAt(shape, i).body)| + 2
    ensures i + |Toks(NodeAt(shape, i))| <= |Toks(shape)|
    ensures |Stream(shape)| == |Toks(shape)| + 1
    ensures i + 1 + |Toks(NodeAt(shape, i).body)| < |Stream(shape)|
    ensures Stream(shape)[i + 1 + |Toks(NodeAt(shape, i).body)|].EndNode?
  {
    var n := NodeAt(shape, i);
    assert At(Stream(shape), i, Toks(n)) by {
      ToksReplace(shape, i, Done);
      StreamWindow(shape, i, |Toks(n)|);
    }
    hide At, Toks, Stream;
    SubRun(Stream(shape), i, n);
    assert Toks(Done) == [] by { NoToks(); }
  }

  lemma NoToks()
    ensures Toks(Done) == []
  {
  }

  lemma StreamWindow(shape: Items, i: nat, n: nat)
    requires i + n <= |Toks(shape)|
    ensures At(Stream(shape), i, Toks(shape)[i..i + n])
  {
  }

  // fdt_node_end_offset_: the end of the balanced subtree.
  method NodeEndOffset(fdt: Blob, nodeoffset: nat) returns (r: Result<nat>)
    requires fdt.Valid() && fdt.NodeArg(nodeoffset)
    ensures IsNodeOffset(fdt.shape, nodeoffset) ==>
              var i := IndexAt(fdt.shape, nodeoffset);
              && i + |Toks(NodeAt(fdt.shape, i))| < |Stream(fdt.shape)|
              && r == Success(Off(Stream(fdt.shape), i + |Toks(NodeAt(fdt.shape, i))|))
    ensures !IsNodeOffset(fdt.shape, nodeoffset) ==> r == Failure(BadOffset)
  {
    hide Describes, Stream, Off, NodeCheck, Toks, At, NodeAt;
    NodeCheckError(fdt.StructBlock(), nodeoffset);
    ghost var ts := Stream(fdt.shape);
    ghost var good := IsNodeOffset(fdt.shape, nodeoffset);
    ghost var i := if good then IndexAt(fdt.shape, nodeoffset) else 0;
    ghost var close := 0;
    if good {
      NodeRun(fdt.shape, i);
      CloseOfNode(ts, i, NodeAt(fdt.shape, i));
      close := i + |Toks(NodeAt(fdt.shape, i))|;
    }
    r := Success(nodeoffset);
    var depth := 0;
    ghost var j: nat := i;
    while r.Success? && depth >= 0
      invariant good && depth >= 0 ==> Awaits(fdt.shape, j, depth, r, close)
      invariant good && depth < 0 ==> close < |ts| && r == Success(Off(ts, close))
      invariant !good ==> depth == 0 && (r == Failure(BadOffset) || r == Success(nodeoffset))
      decreases r.Success? && depth >= 0, |ts| - j
    {
      if good {
        IndexUnique(fdt.shape, j);
        CloseOfStep(ts, j + 1, depth);
      }
      ghost var step := NextStep(ts, j + 1, depth);
      r, depth := NextNode(fdt, r.value, depth);
      if good && depth >= 0 {
        j := step.index;
        BeginIsNode(fdt.shape, j);
      }
    }
  }

  // The walk stands on node j at the given depth, and the subtree it started from closes
  // in front of token close.
  ghost predicate Awaits(shape: Items, j: nat, depth: int, r: Result<nat>, close: nat) {
    && depth >= 0 && IsNode(shape, j) && j < |Stream(shape)|
    && r == Success(Off(Stream(shape), j))
    && CloseOf(Stream(shape), j + 1, depth) == Some(close)
  }

  // fdt_get_name: the length of the name; its bytes follow the tag.
  method GetName(fdt: Blob, nodeoffset: nat) returns (r: Result<seq<byte>>)
    requires fdt.Valid() && fdt.NodeArg(nodeoffset)
    ensures IsNodeOffset(fdt.shape, nodeoffset)
            ==> r == Success(NodeAt(fdt.shape, IndexAt(fdt.shape, nodeoffset)).name)
    ensures !IsNodeOffset(fdt.shape, nodeoffset) ==> r == Failure(BadOffset)
  {
    hide Describes, Stream, Off, NodeCheck, Toks, NodeAt, At;
    ReadableStruct(fdt);
    var err := CheckNodeOffset(fdt, nodeoffset);
    NodeCheckError(fdt.StructBlock(), nodeoffset);
    if err.Failure? {
      NodeOffsetMust(fdt, nodeoffset);
      return Failure(err.error);
    }
    NameCells(fdt, nodeoffset);
    ghost var name := NodeAt(fdt.shape, IndexAt(fdt.shape, nodeoffset)).name;
    var p := fdt.hdr.offStruct + nodeoffset + 4;
    var len := 0;
    while fdt.buf[p + len] != 0
      invariant len <= |name|
      decreases |name| - len
    {
      len := len + 1;
    }
    assert len == |name|;
    return Success(fdt.buf[p..p + len]);
  }

  // Where the name of a node lies in the buffer.
  lemma NameCells(fdt: Blob, nodeoffset: nat)
    requires fdt.Valid() && IsNodeOffset(fdt.shape, nodeoffset)
    ensures var name := NodeAt(fdt.shape, IndexAt(fdt.shape, nodeoffset)).name;
            var p := fdt.hdr.offStruct + nodeoffset + 4;
            && p + |name| < fdt.buf.Length
            && fdt.buf[p..p + |name|] == name
            && fdt.buf[p + |name|] == 0
            && (forall k :: p <= k < p + |name| ==> fdt.buf[k] != 0)
  {
    hide Describes, Stream, Off, NodeCheck, Toks, NodeAt, At;
    var i := IndexAt(fdt.shape, nodeoffset);
    var s := fdt.StructBlock();
    NodeRun(fdt.shape, i);
    DescribedTagOf(fdt, i);
    var t := Stream(fdt.shape)[i];
    BeginCells(s, nodeoffset, t);
    WindowName(fdt.buf[..], fdt.hdr.offStruct, s, nodeoffset + 4, t.name);
  }

  lemma WindowName(mem: seq<byte>, base: nat, s: seq<byte>, off: nat, name: seq<byte>)
    requires At(mem, base, s) && off + |name| < |s|
    requires NulAt(s, off) == off + |name| && s[off..off + |name|] == name
    ensures base + off + |name| < |mem|
    ensures mem[base + off..base + off + |name|] == name
    ensures mem[base + off + |name|] == 0
    ensures forall k :: base + off <= k < base + off + |name| ==> mem[k] != 0
  {
    var w := mem[base..base + |s|];
    SliceSlice(mem, base, base + |s|, off, off + |name|);
    assert w[off + |name|] == mem[base + off + |name|];
    forall k | base + off <= k < base + off + |name| ensures mem[k] != 0 {
      assert w[k - base] == mem[k];
    }
  }

  lemma NodeOffsetMust(fdt: Blob, n: nat)
    requires fdt.Valid()
    ensures IsNodeOffset(fdt.shape, n) ==> NodeCheck(fdt.StructBlock(), n).Success?
  {
    hide Describes;
    if IsNodeOffset(fdt.shape, n) {
      NodeOffsetChecks(fdt.shape, fdt.StructBlock(), fdt.StringsBlock(), n);
    }
  }

  // fdt_nodename_eq_
  method NodeNameEqAt(fdt: Blob, offset: nat, s: seq<byte>) returns (b: bool)
    requires fdt.Valid() && fdt.NodeArg(offset)
    ensures IsNodeOffset(fdt.shape, offset)
            ==> b == NodeNameEq(NodeAt(fdt.shape, IndexAt(fdt.shape, offset)).name, s)
    ensures !IsNodeOffset(fdt.shape, offset) ==> !b
  {
    var p := GetName(fdt, offset);
    if p.Failure? || |p.value| < |s| {
      return false;
    }
    if p.value[..|s|] != s {
      return false;
    }
    if |p.value| == |s| {
      return true;
    }
    return AT_SIGN !in s && p.value[|s|] == AT_SIGN;
  }

  // The child a search from a node reports: relative to the contents of the node.
  ghost predicate ChildIs(shape: Items, parent: nat, want: Option<seq<byte>>, r: Result<nat>)
    requires IsNodeOffset(shape, parent)
  {
    var i := IndexAt(shape, parent);
    match FindChild(NodeAt(shape, i).body, want)
    case None => r == Failure(NotFound)
    case Some(k) => i + 1 + k < |Stream(shape)| && r == Success(Off(Stream(shape), i + 1 + k))
  }

  lemma ChildOfNode(shape: Items, i: nat, want: Option<seq<byte>>)
    requires IsNode(shape, i)
    ensures ChildAt(Stream(shape), i + 1, 0, want)
         == (match FindChild(NodeAt(shape, i).body, want) case None => None case Some(k) => Some(i + 1 + k))
  {
    hide Stream, Toks, NodeAt, At, FindChild, ChildAt;
    NodeRun(shape, i);
    ChildAtRun(Stream(shape), i + 1, NodeAt(shape, i).body, want);
  }

  lemma NameInStream(shape: Items, j: nat)
    requires IsNode(shape, j)
    ensures j < |Stream(shape)| && Stream(shape)[j].Begin?
    ensures Stream(shape)[j].name == NodeAt(shape, j).name
  {
    NodeRun(shape, j);
  }

  // fdt_subnode_offset_namelen
  method SubnodeOffset(fdt: Blob, parent: nat, name: seq<byte>) returns (r: Result<nat>)
    requires fdt.Valid() && fdt.NodeArg(parent)
    ensures IsNodeOffset(fdt.shape, parent) ==> ChildIs(fdt.shape, parent, Some(name), r)
    ensures !IsNodeOffset(fdt.shape, parent) ==> r == Failure(BadOffset)
  {
    hide Describes, Stream, Off, NodeCheck, Toks, At, NodeAt, NodeNameEq, FindChild, NextStep, ChildAt, IsNode,
      IsNodeOffset, Searching, StepIs, ChildIs;
    ghost var ts := Stream(fdt.shape);
    ghost var good := IsNodeOffset(fdt.shape, parent);
    ghost var i := if good then IndexAt(fdt.shape, parent) else 0;
    if good {
      SearchStart(fdt.shape, parent, name);
    }
    r := Success(parent);
    var depth := 0;
    ghost var j: nat := i;
    while r.Success? && depth >= 0
      invariant good && depth >= 0 && r.Success? ==> Searching(fdt.shape, i, j, depth, r.value, name)
      invariant good && (depth < 0 || r.Failure?) ==> ChildAt(ts, i + 1, 0, Some(name)) == None
      invariant good && r.Failure? ==> r == Failure(NotFound)
      invariant !good ==> depth == 0 && (r == Success(parent) || r == Failure(BadOffset))
      decreases r.Success? && depth >= 0, |ts| - j
    {
      NodeCheckError(fdt.StructBlock(), parent);
      if good {
        SearchStands(fdt.shape, i, j, depth, r.value, name);
      }
      if depth == 1 {
        var eq := NodeNameEqAt(fdt, r.value, name);
        if eq {
          SearchDone(fdt.shape, parent, name, Some(j), r);
          return;
        }
      }
      ghost var at := depth;
      r, depth := NextNode(fdt, r.value, depth);
      if good {
        j := SearchOn(fdt.shape, i, j, at, r, depth, name);
      }
    }
    if good {
      SearchDone(fdt.shape, parent, name, None, Failure(NotFound));
    }
    if depth < 0 {
      return Failure(NotFound);
    }
  }

  lemma SearchStart(shape: Items, parent: nat, name: seq<byte>)
    requires IsNodeOffset(shape, parent)
    ensures Searching(shape, IndexAt(shape, parent), IndexAt(shape, parent), 0, parent, name)
  {
    hide Stream, Off, NodeAt, Toks, NodeNameEq, ChildAt, IsNode;
    NameInStream(shape, IndexAt(shape, parent));
  }

  lemma SearchStands(shape: Items, i: nat, j: nat, depth: int, offset: nat, name: seq<byte>)
    requires Searching(shape, i, j, depth, offset, name)
    ensures IsNode(shape, j) && j < |Stream(shape)| && Stream(shape)[j].Begin? && IsNodeOffset(shape, offset)
    ensures IndexAt(shape, offset) == j && Stream(shape)[j].name == NodeAt(shape, j).name
    ensures depth == 1 && NodeNameEq(NodeAt(shape, j).name, name) ==>
              ChildAt(Stream(shape), i + 1, 0, Some(name)) == Some(j) && offset == Off(Stream(shape), j)
  {
    hide Stream, Off, NodeAt, Toks, NodeNameEq, ChildAt;
    IndexUnique(shape, j);
    NameInStream(shape, j);
  }

  // What the search reports, found or not.
  lemma SearchDone(shape: Items, parent: nat, name: seq<byte>, found: Option<nat>, r: Result<nat>)
    requires IsNodeOffset(shape, parent)
    requires ChildAt(Stream(shape), IndexAt(shape, parent) + 1, 0, Some(name)) == found
    requires match found
             case Some(j) => j < |Stream(shape)| && r == Success(Off(Stream(shape), j))
             case None => r == Failure(NotFound)
    ensures ChildIs(shape, parent, Some(name), r)
  {
    hide Stream, Off, NodeAt, Toks, ChildAt, FindChild;
    ChildOfNode(shape, IndexAt(shape, parent), Some(name));
  }

  // Where the search stands after a step.
  lemma SearchOn(shape: Items, i: nat, j: nat, depth: int, r: Result<nat>, newDepth: int, name: seq<byte>)
    returns (next: nat)
    requires j < |Stream(shape)| && Stream(shape)[j].Begin?
    requires Searching(shape, i, j, depth, Off(Stream(shape), j), name)
    requires !(depth == 1 && NodeNameEq(Stream(shape)[j].name, name))
    requires StepIs(Stream(shape), j + 1, depth, r, newDepth)
    ensures r.Success? && newDepth >= 0 ==> j < next && Searching(shape, i, next, newDepth, r.value, name)
    ensures r.Success? && newDepth >= 0 ==> next < |Stream(shape)|
    ensures newDepth < 0 || r.Failure? ==> ChildAt(Stream(shape), i + 1, 0, Some(name)) == None
    ensures r.Failure? ==> r == Failure(NotFound)
  {
    hide Stream, Off, NodeNameEq, ChildAt, IsNode;
    SearchStep(shape, i, j, depth, Off(Stream(shape), j), name);
    var step := NextStep(Stream(shape), j + 1, depth);
    next := if step.AtNode? then step.index else j;
  }

  lemma SearchStep(shape: Items, i: nat, j: nat, depth: int, offset: nat, name: seq<byte>)
    requires Searching(shape, i, j, depth, offset, name)
    requires !(depth == 1 && NodeNameEq(Stream(shape)[j].name, name))
    ensures match NextStep(Stream(shape), j + 1, depth)
            case AtNode(j2, d2) =>
              j < j2 && Searching(shape, i, j2, d2, Off(Stream(shape), j2), name)
            case _ => ChildAt(Stream(shape), i + 1, 0, Some(name)) == None
  {
    hide Stream, Off, NodeNameEq, ChildAt;
    ChildAtStep(Stream(shape), j + 1, depth, Some(name));
    var step := NextStep(Stream(shape), j + 1, depth);
    if step.AtNode? {
      BeginIsNode(shape, step.index);
    }
  }

  // The walk stands on node j and the answer is this node or lies behind it.
  ghost predicate Searching(shape: Items, i: nat, j: nat, depth: int, offset: nat, name: seq<byte>) {
    var ts := Stream(shape);
    && depth >= 0 && IsNode(shape, j) && j < |ts| && ts[j].Begin? && offset == Off(ts, j)
    && ChildAt(ts, i + 1, 0, Some(name))
       == (if depth == 1 && NodeNameEq(ts[j].name, name) then Some(j)
           else ChildAt(ts, j + 1, depth, Some(name)))
  }

  // fdt_get_string
  method GetString(fdt: Blob, stroffset: int) returns (r: Result<seq<byte>>)
    requires fdt.hdr.totalsize <= fdt.buf.Length
    ensures r == StringLookup(fdt.hdr, fdt.buf[..], stroffset)
  {
    hide StringWithin, CStr, Add32;
    var h := fdt.hdr;
    var total :- RoProbe(h);
    var abs := Add32(stroffset % 0x1_0000_0000, h.offStrings);
    if abs >= total {
      return Failure(BadOffset);
    }
    var len: nat := total - abs;
    if h.magic == FDT_MAGIC {
      if stroffset < 0 {
        return Failure(BadOffset);
      }
      if h.version >= 17 {
        if stroffset >= h.sizeStrings {
          return Failure(BadOffset);
        }
        if h.sizeStrings - stroffset < len {
          len := h.sizeStrings - stroffset;
        }
      }
    } else {
      if stroffset >= 0 || -stroffset > h.sizeStrings {
        return Failure(BadOffset);
      }
      if -stroffset < len {
        len := -stroffset;
      }
    }
    r := StringFrom(fdt.buf, abs, len);
  }

  method StringFrom(a: array<byte>, p: nat, len: nat) returns (r: Result<seq<byte>>)
    requires p + len <= a.Length
    ensures r == StringWithin(a[..], p, len)
  {
    var n := Memchr0(a, p, p + len);
    ghost var s := a[..][..p + len];
    if n.None? {
      assert forall k :: p <= k < p + len ==> s[k] != 0;
      NulAtNone(s, p);
      return Failure(Truncated);
    }
    NulAtUnique(s, p, n.value);
    assert s[p..n.value] == a[p..n.value];
    return Success(a[p..n.value]);
  }

  lemma NulAtNone(s: seq<byte>, p: nat)
    requires p <= |s| && forall k :: p <= k < |s| ==> s[k] != 0
    ensures NulAt(s, p) == |s|
    ensures CStr(s, p) == None
  {
  }

  // In a complete blob, string lookup is lookup in the strings block.
  lemma StringLookupValid(fdt: Blob, stroffset: nat)
    requires fdt.Ordered() && fdt.hdr.magic == FDT_MAGIC && fdt.hdr.version == 17
    requires fdt.hdr.lastComp <= LAST_SUPPORTED_VERSION
    ensures match CStr(fdt.StringsBlock(), stroffset)
            case Some(s) => StringLookup(fdt.hdr, fdt.buf[..], stroffset) == Success(s)
            case None => StringLookup(fdt.hdr, fdt.buf[..], stroffset).Failure?
  {
    hide StringLookup, CStr;
    StringLookupIn(fdt.hdr, fdt.buf[..], stroffset);
  }

  // The string at an offset of a block, and why there may be none.
  function StringIn(strs: seq<byte>, stroffset: nat): Result<seq<byte>> {
    match CStr(strs, stroffset)
    case Some(s) => Success(s)
    case None => Failure(if stroffset >= |strs| then BadOffset else Truncated)
  }

  lemma StringLookupIn(h: Header, mem: seq<byte>, stroffset: nat)
    requires h.magic == FDT_MAGIC && 17 <= h.version && h.lastComp <= LAST_SUPPORTED_VERSION
    requires h.offStrings + h.sizeStrings <= h.totalsize <= |mem| && h.totalsize < INT32_MAX
    ensures StringLookup(h, mem, stroffset) == StringIn(mem[h.offStrings..h.offStrings + h.sizeStrings], stroffset)
  {
    hide StringLookup, StringWithin;
    StringLookupPlace(h, mem, stroffset);
    if stroffset < h.sizeStrings {
      StringWithinWindow(mem, h.offStrings, h.sizeStrings, stroffset);
    }
  }

  lemma StringLookupPlace(h: Header, mem: seq<byte>, stroffset: nat)
    requires h.magic == FDT_MAGIC && 17 <= h.version && h.lastComp <= LAST_SUPPORTED_VERSION
    requires h.offStrings + h.sizeStrings <= h.totalsize <= |mem| && h.totalsize < INT32_MAX
    ensures StringLookup(h, mem, stroffset)
         == if stroffset >= h.sizeStrings then Failure(BadOffset)
            else StringWithin(mem, h.offStrings + stroffset, h.sizeStrings - stroffset)
  {
    hide StringWithin, Add32;
    if stroffset < h.sizeStrings {
      AddWraps(stroffset, h.offStrings);
    }
    assert RoProbe(h) == Success(h.totalsize);
  }

  lemma StringWithinWindow(mem: seq<byte>, base: nat, size: nat, off: nat)
    requires base + size <= |mem| && off < size
    ensures StringWithin(mem, base + off, size - off)
         == match CStr(mem[base..base + size], off) case None => Failure(Truncated) case Some(s) => Success(s)
  {
    CStrWindow(mem, base, size, off);
    assert mem[..(base + off) + (size - off)] == mem[..base + size];
  }

  // Looking a string up in a window of memory.
  lemma CStrWindow(mem: seq<byte>, base: nat, size: nat, off: nat)
    requires base + size <= |mem| && off < size
    ensures CStr(mem[..base + size], base + off) == CStr(mem[base..base + size], off)
  {
    var w, m := mem[base..base + size], mem[..base + size];
    var n := NulAt(w, off);
    assert forall k :: 0 <= k < size ==> w[k] == m[base + k];
    if n < |w| {
      NulAtUnique(m, base + off, base + n);
      assert w[off..n] == m[base + off..base + n];
    } else {
      assert forall k :: base + off <= k < |m| ==> m[k] == w[k - base];
      NulAtNone(m, base + off);
    }
  }

  // fdt_string_eq_
  method StringEq(fdt: Blob, stroffset: u32, s: seq<byte>) returns (b: bool)
    requires fdt.Valid()
    ensures b <==> CStr(fdt.StringsBlock(), stroffset) == Some(s)
  {
    hide Describes, CStr, StringLookup;
    var p := GetString(fdt, if stroffset <= INT32_MAX then stroffset else stroffset - 0x1_0000_0000);
    if stroffset <= INT32_MAX {
      StringLookupValid(fdt, stroffset);
    } else {
      FarString(fdt, stroffset);
    }
    return p.Success? && p.value == s;
  }

  lemma FarString(fdt: Blob, stroffset: u32)
    requires fdt.Ordered() && stroffset > INT32_MAX
    requires fdt.hdr.magic == FDT_MAGIC
    ensures CStr(fdt.StringsBlock(), stroffset) == None
    ensures StringLookup(fdt.hdr, fdt.buf[..], stroffset - 0x1_0000_0000).Failure?
  {
  }

  // nextprop_, on any bytes
  method NextProp(fdt: Blob, from: nat) returns (r: Result<nat>)
    requires fdt.hdr.totalsize <= fdt.buf.Length && fdt.hdr.totalsize <= INT32_MAX && from % 4 == 0
    ensures r == PropLoop(fdt.Readable(), from)
  {
    hide NextTag;
    ghost var s := fdt.Readable();
    var offset := from;
    while true
      invariant offset % 4 == 0 && PropLoop(s, from) == PropLoop(s, offset)
      decreases |s| + 8 - offset
    {
      NextTagProgress(s, offset);
      TagBounds(s, offset);
      var tag, next := NextTagOf(fdt, offset);
      if tag == END {
        if next.Success? {
          return Failure(BadStructure);
        }
        return next;
      }
      if tag == PROP {
        return Success(offset);
      }
      if tag != NOP {
        return Failure(NotFound);
      }
      NopLong(s, offset);
      offset := next.value;
    }
  }

  // fdt_first_property_offset
  method FirstPropertyOffset(fdt: Blob, nodeoffset: nat) returns (r: Result<nat>)
    requires fdt.Valid() && fdt.NodeArg(nodeoffset)
    ensures IsNodeOffset(fdt.shape, nodeoffset)
            ==> PropStepIs(Stream(fdt.shape), IndexAt(fdt.shape, nodeoffset) + 1, r)
    ensures !IsNodeOffset(fdt.shape, nodeoffset)
            ==> r == NodeCheck(fdt.StructBlock(), nodeoffset) && r.Failure?
  {
    hide Describes, Stream, NextTag, Off, NodeCheck, PropStepIs, PropLoop, IsNode, IsNodeOffset, StructOf,
      StringsOf, RsvCount;
    ReadableStruct(fdt);
    var c := CheckNodeOffset(fdt, nodeoffset);
    NodeOffsetMust(fdt, nodeoffset);
    if c.Failure? {
      return c;
    }
    NodeOffsetChecks(fdt.shape, fdt.StructBlock(), fdt.StringsBlock(), nodeoffset);
    PropsOnStream(fdt.shape, fdt.StructBlock(), fdt.StringsBlock(), IndexAt(fdt.shape, nodeoffset) + 1);
    r := NextProp(fdt, c.value);
  }

  lemma PropInStream(shape: Items, k: nat)
    requires IsProp(shape, k)
    ensures k < |Stream(shape)| && Stream(shape)[k].Prop?
  {
    assert Stream(shape)[k] == Toks(shape)[k];
  }

  // fdt_check_prop_offset_
  method CheckPropOffset(fdt: Blob, offset: nat) returns (r: Result<nat>)
    requires fdt.Valid() && fdt.PropArg(offset)
    ensures IsPropOffset(fdt.shape, offset) ==>
              && PropIndexAt(fdt.shape, offset) + 1 < |Stream(fdt.shape)|
              && r == Success(Off(Stream(fdt.shape), PropIndexAt(fdt.shape, offset) + 1))
    ensures !IsPropOffset(fdt.shape, offset) ==> r == Failure(BadOffset)
  {
    hide Describes, NextTag, Off, At, Token.Enc, Token.Ok, Stream, Toks;
    ReadableStruct(fdt);
    PropCheckError(fdt.StructBlock(), offset);
    if IsPropOffset(fdt.shape, offset) {
      PropInStream(fdt.shape, PropIndexAt(fdt.shape, offset));
      DescribedTagOf(fdt, PropIndexAt(fdt.shape, offset));
    }
    if offset % 4 != 0 {
      return Failure(BadOffset);
    }
    var tag, next := NextTagOf(fdt, offset);
    if tag != PROP {
      return Failure(BadOffset);
    }
    return next;
  }

  // fdt_next_property_offset
  method NextPropertyOffset(fdt: Blob, propoffset: nat) returns (r: Result<nat>)
    requires fdt.Valid() && fdt.PropArg(propoffset)
    ensures IsPropOffset(fdt.shape, propoffset)
            ==> PropStepIs(Stream(fdt.shape), PropIndexAt(fdt.shape, propoffset) + 1, r)
    ensures !IsPropOffset(fdt.shape, propoffset) ==> r == Failure(BadOffset)
  {
    hide Describes, NextTag, Off, Stream, PropStepIs, PropCheck, PropLoop, IsProp, IsPropOffset, StructOf, StringsOf,
      RsvCount;
    var c := CheckPropOffset(fdt, propoffset);
    if c.Failure? {
      return c;
    }
    ReadableStruct(fdt);
    PropsOnStream(fdt.shape, fdt.StructBlock(), fdt.StringsBlock(), PropIndexAt(fdt.shape, propoffset) + 1);
    r := NextProp(fdt, c.value);
  }

  // The property token a lookup by name reports.
  ghost predicate PropertyIs(shape: Items, strs: seq<byte>, nodeoffset: nat, name: seq<byte>, r: Result<nat>)
    requires IsNodeOffset(shape, nodeoffset)
  {
    var i := IndexAt(shape, nodeoffset);
    match FindProp(NodeAt(shape, i).body, strs, name)
    case None => r == Failure(NotFound)
    case Some(k) => i + 1 + k < |Stream(shape)| && r == Success(Off(Stream(shape), i + 1 + k))
  }

  lemma PropOfNode(shape: Items, i: nat, strs: seq<byte>, name: seq<byte>)
    requires IsNode(shape, i)
    ensures PropAt(Stream(shape), i + 1, strs, name)
         == (match FindProp(NodeAt(shape, i).body, strs, name) case None => None case Some(k) => Some(i + 1 + k))
    ensures CloseOf(Stream(shape), i + 1, 0).Some?
  {
    hide Stream, Toks, NodeAt, At, FindProp, PropAt;
    NodeRun(shape, i);
    PropAtRun(Stream(shape), i + 1, NodeAt(shape, i).body, strs, name);
    CloseOfNode(Stream(shape), i, NodeAt(shape, i));
  }

  // fdt_get_property_namelen_: the offset of the property.
  method GetProperty(fdt: Blob, nodeoffset: nat, name: seq<byte>) returns (r: Result<nat>)
    requires fdt.Valid() && fdt.NodeArg(nodeoffset)
    ensures IsNodeOffset(fdt.shape, nodeoffset)
            ==> PropertyIs(fdt.shape, fdt.StringsBlock(), nodeoffset, name, r)
    ensures !IsNodeOffset(fdt.shape, nodeoffset)
            ==> r == NodeCheck(fdt.StructBlock(), nodeoffset) && r.Failure?
  {
    hide Describes, Stream, NextTag, Off, NodeCheck, CStr, PropAt, NodeAt, FindProp, NextPropAt, CloseOf;
    ghost var good := IsNodeOffset(fdt.shape, nodeoffset);
    r := FirstPropertyOffset(fdt, nodeoffset);
    ghost var ts := Stream(fdt.shape);
    ghost var strs := fdt.StringsBlock();
    ghost var i: nat := if good then IndexAt(fdt.shape, nodeoffset) else 0;
    ghost var k: nat := i + 1;
    if good {
      PropOfNode(fdt.shape, i, strs, name);
    }
    while r.Success?
      invariant !good ==> r == NodeCheck(fdt.StructBlock(), nodeoffset) && r.Failure?
      invariant good ==> LookingFor(ts, i, k, strs, name, r)
      decreases r.Success?, |ts| - k
    {
      PropAtStep(ts, k, strs, name);
      ghost var j := NextPropAt(ts, k).value;
      var nameoff := PropNameOff(fdt, r.value, j);
      var eq := StringEq(fdt, nameoff, name);
      if eq {
        return;
      }
      PropIndexUnique(fdt.shape, j);
      r := NextPropertyOffset(fdt, r.value);
      k := j + 1;
    }
    if good {
      PropAtStep(ts, k, strs, name);
    }
  }

  // The search goes on at token k, and r is the property it meets next.
  ghost predicate LookingFor(ts: seq<Token>, i: nat, k: nat, strs: seq<byte>, name: seq<byte>, r: Result<nat>) {
    && CloseOf(ts, k, 0).Some?
    && PropAt(ts, i + 1, strs, name) == PropAt(ts, k, strs, name)
    && PropStepIs(ts, k, r)
  }

  method PropNameOff(fdt: Blob, offset: nat, ghost j: nat) returns (nameoff: u32)
    requires fdt.Valid()
    requires j < |Stream(fdt.shape)| && Stream(fdt.shape)[j].Prop? && offset == Off(Stream(fdt.shape), j)
    ensures nameoff == Stream(fdt.shape)[j].nameOff
  {
    hide Describes, Stream, NextTag, Off, At, Token.Enc, Token.Ok, Get32;
    DescribedTagOf(fdt, j);
    ReadableStruct(fdt);
    PropCells(fdt.StructBlock(), offset, Stream(fdt.shape)[j]);
    nameoff := Get32(fdt.StructBlock(), offset + 8);
  }

  method PropLen(fdt: Blob, offset: nat, ghost j: nat) returns (len: u32)
    requires fdt.Valid()
    requires j < |Stream(fdt.shape)| && Stream(fdt.shape)[j].Prop? && offset == Off(Stream(fdt.shape), j)
    ensures len == |Stream(fdt.shape)[j].value|
    ensures offset + 12 + len <= fdt.hdr.sizeStruct
    ensures fdt.StructBlock()[offset + 12..offset + 12 + len] == Stream(fdt.shape)[j].value
  {
    hide Describes, Stream, NextTag, Off, At, Token.Enc, Token.Ok, Get32;
    DescribedTagOf(fdt, j);
    ReadableStruct(fdt);
    PropCells(fdt.StructBlock(), offset, Stream(fdt.shape)[j]);
    len := Get32(fdt.StructBlock(), offset + 4);
  }
}
