// Searching all nodes: fdt_find_max_phandle and fdt_node_offset_by_phandle (fdt_ro.c).
module PhandleSearch {
  import opened Bytes
  import opened Tokens
  import opened Structure
  import opened Scan
  import opened Blobs
  import opened Readers
  import opened Edits
  import opened Editor
  import opened Children
  import opened Forms
  import opened Phandles

  // The first BEGIN_NODE at or behind token k.
  function NextBegin(ts: seq<Token>, k: nat): (r: Option<nat>)
    ensures r.Some? ==> k <= r.value < |ts| && ts[r.value].Begin? && forall m :: k <= m < r.value ==> !ts[m].Begin?
    ensures r.None? ==> forall m :: k <= m < |ts| && ts[m].Begin? ==> exists e :: k <= e < m && ts[e].End?
    decreases |ts| - k
  {
    if k >= |ts| || ts[k].End? then None
    else if ts[k].Begin? then Some(k)
    else NextBegin(ts, k + 1)
  }

  lemma NextBeginStep(ts: seq<Token>, k: nat)
    requires k < |ts|
    ensures NextBegin(ts, k) == if ts[k].End? then None else if ts[k].Begin? then Some(k) else NextBegin(ts, k + 1)
  {
  }

  // fdt_next_node without a depth: it goes on past the ends of nodes.
  method NextNodeAnywhere(fdt: Blob, offset: int) returns (r: Result<nat>)
    requires fdt.Valid() && (offset < 0 || IsNodeOffset(fdt.shape, offset))
    ensures r == match NextBegin(Stream(fdt.shape), Resume(fdt.shape, offset))
                 case Some(j) => Success(Off(Stream(fdt.shape), j))
                 case None => Failure(NotFound)
  {
    hide Describes, Stream, NextTag, At, Token.Enc, Token.Ok, Off, EncAll, NodeCheck, StructOf, StringsOf, HeadOf,
      RsvCount, Toks, NodeAt;
    var nextoffset := 0;
    StreamStart(fdt.shape);
    if offset >= 0 {
      NodeOffsetChecks(fdt.shape, fdt.StructBlock(), fdt.StringsBlock(), offset);
      ReadableStruct(fdt);
      var c := CheckNodeOffset(fdt, offset);
      nextoffset := c.value;
    }
    r := NextBeginFrom(fdt, nextoffset, Resume(fdt.shape, offset));
  }

  // Its loop over the tags
  method NextBeginFrom(fdt: Blob, from: nat, ghost start: nat) returns (r: Result<nat>)
    requires fdt.Valid() && start < |Stream(fdt.shape)| && from == Off(Stream(fdt.shape), start)
    ensures r == match NextBegin(Stream(fdt.shape), start)
                 case Some(j) => Success(Off(Stream(fdt.shape), j))
                 case None => Failure(NotFound)
  {
    hide Describes, Stream, NextTag, At, Token.Enc, Token.Ok, Off, EncAll, StructOf, StringsOf, HeadOf, RsvCount, Toks,
      NextBegin;
    var nextoffset := from;
    ghost var ts := Stream(fdt.shape);
    ghost var k := start;
    while true
      invariant k < |ts| && nextoffset == Off(ts, k)
      invariant NextBegin(ts, start) == NextBegin(ts, k)
      decreases |ts| - k
    {
      var at := nextoffset;
      DescribedTagOf(fdt, k);
      NextBeginStep(ts, k);
      var tag, next := NextTagOf(fdt, at);
      if tag == BEGIN_NODE {
        return Success(at);
      } else if tag == END {
        return Failure(NotFound);
      }
      nextoffset := next.value;
      k := k + 1;
    }
  }

  // Node x of a blob as a tree node.
  ghost function NodeNo(im: Image, x: nat): Node
    requires OrderedIn(im.hdr, |im.mem|) && IsNode(im.shape, x)
  {
    Meaning(NodeAt(im.shape, x), StringsOf(im.hdr, im.mem))
  }

  // The walk over all nodes stands in front of token k.
  ghost predicate SeenBefore(im: Image, k: nat, max: u32)
    requires OrderedIn(im.hdr, |im.mem|)
  {
    forall x: nat :: x < k && IsNode(im.shape, x) ==> GetPhandle(NodeNo(im, x)) <= max
  }

  // Behind the last node, all have been seen; from one node to the next, one more has.
  lemma SeenNext(im: Image, i: int, k: nat, max: u32)
    requires im.Valid() && (i < 0 ==> k == 0) && (i >= 0 ==> IsNodeOffset(im.shape, i) && k == IndexAt(im.shape, i) + 1)
    requires SeenBefore(im, k, max)
    ensures match NextBegin(Stream(im.shape), k)
            case Some(j) => IsNode(im.shape, j) && SeenBefore(im, j, max)
            case None => forall x :: IsNode(im.shape, x) ==> GetPhandle(NodeNo(im, x)) <= max
  {
    hide Describes, Toks, NodeAt, GetPhandle, NextBegin, NodeNo;
    forall x: nat | x >= k && IsNode(im.shape, x)
      ensures NextBegin(Stream(im.shape), k).Some? && x >= NextBegin(Stream(im.shape), k).value {
      BeginAt(im.shape, x);
      if NextBegin(Stream(im.shape), k).None? {
        NoEndBefore(im.shape, x);
      }
    }
  }

  lemma BeginAt(shape: Items, x: nat)
    requires IsNode(shape, x)
    ensures x < |Stream(shape)| && Stream(shape)[x].Begin?
  {
  }

  lemma NoEndBefore(shape: Items, x: nat)
    requires IsNode(shape, x)
    ensures x < |Stream(shape)| && forall e :: 0 <= e < x ==> !Stream(shape)[e].End?
  {
    forall e | 0 <= e < x ensures !Stream(shape)[e].End? {
      StreamEnds(shape, e);
    }
  }

  // fdt_find_max_phandle: the largest phandle of any node, 0 if there is none
  method FindMaxPhandle(fdt: Blob) returns (max: u32)
    requires fdt.Valid()
    ensures forall x :: IsNode(fdt.shape, x) ==> GetPhandle(NodeNo(fdt.Img(), x)) <= max
    ensures max == 0 || exists x :: IsNode(fdt.shape, x) && GetPhandle(NodeNo(fdt.Img(), x)) == max
    ensures forall b :: b in AllPhandles(fdt.Img().Tree()) ==> b <= max
  {
    hide Describes, Stream, Off, Toks, NodeAt, NextBegin, GetPhandle, NodeNo, AllPhandles, Kids, StructOf, StringsOf,
      HeadOf, RsvCount;
    ghost var im := fdt.Img();
    var offset: int := -1;
    max := 0;
    ghost var k := 0;
    var more := true;
    while more
      invariant more && offset < 0 ==> k == 0
      invariant more && offset >= 0 ==> IsNodeOffset(fdt.shape, offset) && k == IndexAt(fdt.shape, offset) + 1
      invariant more ==> SeenBefore(im, k, max) && k <= |Stream(fdt.shape)|
      invariant !more ==> forall x :: IsNode(im.shape, x) ==> GetPhandle(NodeNo(im, x)) <= max
      invariant max == 0 || exists x :: IsNode(fdt.shape, x) && GetPhandle(NodeNo(im, x)) == max
      decreases more, |Stream(fdt.shape)| - k
    {
      SeenNext(im, offset, k, max);
      var r := NextNodeAnywhere(fdt, offset);
      if r.Failure? {
        more := false;
      } else {
        ghost var j := NextBegin(Stream(fdt.shape), k).value;
        BeginIsNode(fdt.shape, j);
        NodeIs(im, r.value, j);
        offset := r.value;
        var value := GetPhandleOf(fdt, offset);
        if value > max {
          max := value;
        }
        SeenMore(im, j, max);
        k := j + 1;
      }
    }
    AllSeen(im, max);
  }

  lemma NodeIs(im: Image, n: nat, j: nat)
    requires OrderedIn(im.hdr, |im.mem|) && IsNodeOffset(im.shape, n) && IndexAt(im.shape, n) == j
    ensures im.NodeOf(n) == NodeNo(im, j)
  {
  }

  lemma SeenMore(im: Image, j: nat, max: u32)
    requires OrderedIn(im.hdr, |im.mem|) && IsNode(im.shape, j) && GetPhandle(NodeNo(im, j)) <= max
    requires exists less: u32 :: less <= max && SeenBefore(im, j, less)
    ensures SeenBefore(im, j + 1, max)
  {
    hide NodeNo, GetPhandle;
    var less: u32 :| less <= max && SeenBefore(im, j, less);
  }

  // Every phandle in the tree is that of a node of the blob.
  lemma {:induction false} PhandleSomewhere(it: Items, strs: seq<byte>, b: u32) returns (x: nat)
    requires b in AllPhandles(Kids(it, strs))
    ensures IsNode(it, x) && GetPhandle(Meaning(NodeAt(it, x), strs)) == b
    decreases it
  {
    hide GetPhandle, PropValue, OwnPhandles, AllPhandles, Toks, Kids, IsNode, NodeAt, PathAt;
    WhichPhandle(it, strs, b);
    match it
    case Leaf(tok, rest) =>
      x := PhandleSomewhere(rest, strs, b);
      InsideLeaf(tok, rest, x);
      x := x + 1;
    case Sub(name, npad, body, rest) =>
      var n := Meaning(it, strs);
      if b in OwnPhandles(n) {
        OwnIs(n, b);
        x := 0;
        FirstNode(it);
        MeaningOfFirst(it, strs);
      } else if b in AllPhandles(n.children) {
        x := PhandleSomewhere(body, strs, b);
        InsideSub(it, x);
        x := x + 1;
      } else {
        x := PhandleSomewhere(rest, strs, b);
        BesideSub(it, x);
        x := x + |Toks(body)| + 2;
      }
  }

  lemma WhichPhandle(it: Items, strs: seq<byte>, b: u32)
    requires b in AllPhandles(Kids(it, strs))
    ensures !it.Done?
    ensures it.Leaf? ==> b in AllPhandles(Kids(it.rest, strs))
    ensures it.Sub? ==>
              b in OwnPhandles(Meaning(it, strs)) || b in AllPhandles(Kids(it.body, strs))
                || b in AllPhandles(Kids(it.rest, strs))
  {
    hide OwnPhandles;
    if it.Sub? {
      var ks := Kids(it, strs);
      assert ks[1..] == Kids(it.rest, strs) && ks[0] == Meaning(it, strs);
    }
  }

  lemma OwnIs(n: Node, b: u32)
    requires b in OwnPhandles(n)
    ensures GetPhandle(n) == b
  {
    hide GetPhandle, PropValue;
  }

  lemma MeaningOfFirst(it: Items, strs: seq<byte>)
    requires it.Sub?
    ensures Meaning(Sub(it.name, it.npad, it.body, Done), strs) == Meaning(it, strs)
  {
  }

  lemma AllSeen(im: Image, max: u32)
    requires im.Valid() && forall x :: IsNode(im.shape, x) ==> GetPhandle(NodeNo(im, x)) <= max
    ensures forall b :: b in AllPhandles(im.Tree()) ==> b <= max
  {
    hide Describes, AllPhandles, GetPhandle, Kids, NodeAt, Toks;
    forall b | b in AllPhandles(im.Tree()) ensures b <= max {
      var x := PhandleSomewhere(im.shape, StringsOf(im.hdr, im.mem), b);
    }
  }

  // The walk has seen no such phandle in front of token k.
  ghost predicate NoneBefore(im: Image, k: nat, phandle: u32)
    requires OrderedIn(im.hdr, |im.mem|)
  {
    forall x: nat :: x < k && IsNode(im.shape, x) ==> GetPhandle(NodeNo(im, x)) != phandle
  }

  lemma NoneNext(im: Image, i: int, k: nat, phandle: u32)
    requires im.Valid() && (i < 0 ==> k == 0) && (i >= 0 ==> IsNodeOffset(im.shape, i) && k == IndexAt(im.shape, i) + 1)
    requires NoneBefore(im, k, phandle)
    ensures match NextBegin(Stream(im.shape), k)
            case Some(j) => IsNode(im.shape, j) && NoneBefore(im, j, phandle)
            case None => forall x :: IsNode(im.shape, x) ==> GetPhandle(NodeNo(im, x)) != phandle
  {
    hide Describes, Toks, NodeAt, GetPhandle, NextBegin, NodeNo;
    forall x: nat | x >= k && IsNode(im.shape, x)
      ensures NextBegin(Stream(im.shape), k).Some? && x >= NextBegin(Stream(im.shape), k).value {
      BeginAt(im.shape, x);
      if NextBegin(Stream(im.shape), k).None? {
        NoEndBefore(im.shape, x);
      }
    }
  }

  // fdt_node_offset_by_phandle: the first node in preorder with that phandle
  method NodeOffsetByPhandle(fdt: Blob, phandle: u32) returns (r: Result<nat>)
    requires fdt.Valid()
    ensures phandle == 0 || phandle == NO_PHANDLE ==> r == Failure(BadPhandle)
    ensures phandle != 0 && phandle != NO_PHANDLE ==>
              && (r.Success? ==>
                    && IsNodeOffset(fdt.shape, r.value) && GetPhandle(fdt.Img().NodeOf(r.value)) == phandle
                    && NoneBefore(fdt.Img(), IndexAt(fdt.shape, r.value), phandle))
              && (r.Failure? ==>
                    && r == Failure(NotFound)
                    && forall x :: IsNode(fdt.shape, x) ==> GetPhandle(NodeNo(fdt.Img(), x)) != phandle)
  {
    hide Describes, Stream, Off, Toks, NodeAt, NextBegin, GetPhandle, NodeNo, Kids, StructOf, StringsOf, HeadOf,
      RsvCount;
    if phandle == 0 || phandle == NO_PHANDLE {
      return Failure(BadPhandle);
    }
    ghost var im := fdt.Img();
    ghost var k := 0;
    NoneNext(im, -1, 0, phandle);
    r := NextNodeAnywhere(fdt, -1);
    if r.Success? {
      BeginIsNode(fdt.shape, NextBegin(Stream(fdt.shape), 0).value);
    }
    while r.Success?
      invariant r.Success? ==> IsNodeOffset(fdt.shape, r.value) && NoneBefore(im, IndexAt(fdt.shape, r.value), phandle)
      invariant r.Success? ==> IndexAt(fdt.shape, r.value) >= k && k <= |Stream(fdt.shape)|
      invariant r.Failure? ==> r == Failure(NotFound) && forall x :: IsNode(im.shape, x) ==>
                  GetPhandle(NodeNo(im, x)) != phandle
      decreases r.Success?, |Stream(fdt.shape)| - k
    {
      var value := GetPhandleOf(fdt, r.value);
      if value == phandle {
        return;
      }
      ghost var j := IndexAt(fdt.shape, r.value);
      NodeIs(im, r.value, j);
      NameInStream(fdt.shape, j);
      assert NoneBefore(im, j + 1, phandle);
      NoneNext(im, r.value, j + 1, phandle);
      r := NextNodeAnywhere(fdt, r.value);
      if r.Success? {
        BeginIsNode(fdt.shape, NextBegin(Stream(fdt.shape), j + 1).value);
      }
      k := j + 1;
    }
  }
}
