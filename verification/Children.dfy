// Subnodes: where they lie, and fdt_add_subnode_namelen (fdt_rw.c). A new subnode goes behind
// the properties of its parent, in front of the other subnodes, and its offset can be used
// right away.
module Children {
  import opened Bytes
  import opened Tokens
  import opened Structure
  import opened Scan
  import opened Memory
  import opened Blobs
  import opened Readers
  import opened Splicing
  import opened Edits
  import opened Editor
  import opened NodeEditor

  // A node inside the contents of node i, seen from the whole.
  lemma {:induction false} InsideNode(it: Items, i: nat, j: nat)
    requires IsNode(it, i) && IsNode(NodeAt(it, i).body, j)
    ensures IsNode(it, i + 1 + j)
    ensures NodeAt(it, i + 1 + j) == NodeAt(NodeAt(it, i).body, j)
    ensures PathAt(it, i + 1 + j) == PathAt(it, i) + PathAt(NodeAt(it, i).body, j)
  {
    hide Toks, NodeAt, PathAt, IsNode;
    WhichNode(it, i);
    match it
    case Leaf(tok, rest) =>
      InsideLeaf(tok, rest, i - 1);
      InsideNode(rest, i - 1, j);
      InsideLeaf(tok, rest, i + j);
    case Sub(_, _, body, rest) =>
      if i == 0 {
        InsideSub(it, j);
      } else if i <= |Toks(body)| {
        InsideSub(it, i - 1);
        InsideNode(body, i - 1, j);
        InsideSub(it, i + j);
        JoinBelow(PathAt(body, i - 1), PathAt(NodeAt(body, i - 1).body, j));
      } else {
        var m := |Toks(body)| + 2;
        BesideSub(it, i - m);
        InsideNode(rest, i - m, j);
        BesideSub(it, i + 1 + j - m);
        JoinBeside(PathAt(rest, i - m), PathAt(NodeAt(rest, i - m).body, j));
      }
  }

  lemma WhichNode(it: Items, i: nat)
    requires IsNode(it, i)
    ensures it.Leaf? || it.Sub?
    ensures it.Leaf? ==> i > 0 && IsNode(it.rest, i - 1)
    ensures it.Sub? && 0 < i <= |Toks(it.body)| ==> IsNode(it.body, i - 1)
    ensures it.Sub? && i > |Toks(it.body)| ==>
              i >= |Toks(it.body)| + 2 && IsNode(it.rest, i - |Toks(it.body)| - 2)
    ensures it.Sub? && i == 0 ==> NodeAt(it, i) == Sub(it.name, it.npad, it.body, Done)
  {
  }

  lemma JoinBelow(p: seq<nat>, q: seq<nat>)
    ensures [0] + (p + q) == [0] + p + q
  {
  }

  lemma JoinBeside(p: seq<nat>, q: seq<nat>)
    requires |p| > 0
    ensures [(p + q)[0] + 1] + (p + q)[1..] == [p[0] + 1] + p[1..] + q
  {
  }

  lemma InsideLeaf(tok: LeafToken, rest: Items, j: nat)
    requires IsNode(rest, j)
    ensures var it := Leaf(tok, rest);
            IsNode(it, j + 1) && NodeAt(it, j + 1) == NodeAt(rest, j) && PathAt(it, j + 1) == PathAt(rest, j)
  {
  }

  lemma InsideSub(it: Items, j: nat)
    requires it.Sub? && IsNode(it.body, j)
    ensures IsNode(it, j + 1) && NodeAt(it, j + 1) == NodeAt(it.body, j)
    ensures PathAt(it, j + 1) == [0] + PathAt(it.body, j)
    ensures IsNode(it, 0) && PathAt(it, 0) == [0] && NodeAt(it, 0) == Sub(it.name, it.npad, it.body, Done)
  {
  }

  lemma BesideSub(it: Items, j: nat)
    requires it.Sub? && IsNode(it.rest, j)
    ensures var k := j + |Toks(it.body)| + 2;
            && IsNode(it, k) && NodeAt(it, k) == NodeAt(it.rest, j)
            && PathAt(it, k) == [PathAt(it.rest, j)[0] + 1] + PathAt(it.rest, j)[1..]
  {
    BesideNode(it, j);
    BesideParts(it, j + |Toks(it.body)| + 2, Done);
  }

  // The place behind the properties -----------------------------------------------------------

  // The first token at or behind k that is neither a property nor a NOP.
  function SkipProps(ts: seq<Token>, k: nat): (r: nat)
    requires k <= |ts|
    ensures k <= r <= |ts|
    decreases |ts| - k
  {
    if k < |ts| && (ts[k].Prop? || ts[k].Nop?) then SkipProps(ts, k + 1) else k
  }

  function LeafCount(body: Items): (n: nat)
    ensures n <= |Toks(body)|
  {
    match body
    case Leaf(_, rest) => 1 + LeafCount(rest)
    case _ => 0
  }

  lemma {:induction false} SkipPropsRun(ts: seq<Token>, k: nat, body: Items)
    requires At(ts, k, Toks(body)) && k + |Toks(body)| < |ts| && ts[k + |Toks(body)|].EndNode?
    ensures SkipProps(ts, k) == k + LeafCount(body)
    decreases body
  {
    hide At;
    match body
    case Done =>
    case Leaf(tok, rest) =>
      LeafRun(ts, k, body);
      SkipPropsRun(ts, k + 1, rest);
    case Sub(_, _, _, _) =>
      SubRun(ts, k, body);
  }

  // The contents with an empty node put behind the properties.
  function InsertChild(body: Items, name: seq<byte>, npad: seq<byte>): Items {
    match body
    case Leaf(tok, rest) => Leaf(tok, InsertChild(rest, name, npad))
    case _ => Sub(name, npad, Done, body)
  }

  lemma {:induction false} InsertChildIs(body: Items, name: seq<byte>, npad: seq<byte>, strs: seq<byte>)
    requires PropsFirst(body) && WellNested(body, true) && Resolved(body, strs) && Begin(name, npad).Ok()
    ensures var b := InsertChild(body, name, npad);
            && PropsFirst(b) && WellNested(b, true) && Resolved(b, strs)
            && Props(b, strs) == Props(body, strs)
            && Kids(b, strs) == [Node(name, [], [])] + Kids(body, strs)
  {
    hide CStr, Token.Ok;
    match body
    case Leaf(tok, rest) =>
      InsertChildIs(rest, name, npad, strs);
    case _ =>
      assert Props(Done, strs) == [] && Kids(Done, strs) == [];
  }

  lemma {:induction false} InsertChildToks(body: Items, name: seq<byte>, npad: seq<byte>)
    ensures var k := LeafCount(body);
            Toks(InsertChild(body, name, npad)) == Splice(Toks(body), k, k, [Begin(name, npad), EndNode])
  {
    match body
    case Leaf(tok, rest) =>
      InsertChildToks(rest, name, npad);
      InsertLeafStep(tok, rest, name, npad);
    case _ =>
      InsertHere(body, name, npad);
  }

  lemma InsertHere(body: Items, name: seq<byte>, npad: seq<byte>)
    ensures Toks(Sub(name, npad, Done, body)) == Splice(Toks(body), 0, 0, [Begin(name, npad), EndNode])
  {
    var x := [Begin(name, npad), EndNode];
    SpliceInsert(Toks(body), x);
    assert Toks(Done) == [];
    assert [Begin(name, npad)] + ([] + ([EndNode] + Toks(body))) == x + Toks(body);
  }

  lemma InsertLeafStep(tok: LeafToken, rest: Items, name: seq<byte>, npad: seq<byte>)
    requires var k := LeafCount(rest);
             Toks(InsertChild(rest, name, npad)) == Splice(Toks(rest), k, k, [Begin(name, npad), EndNode])
    ensures var body := Leaf(tok, rest);
            var k := LeafCount(body);
            Toks(InsertChild(body, name, npad)) == Splice(Toks(body), k, k, [Begin(name, npad), EndNode])
  {
    SpliceCons(tok, Toks(rest), LeafCount(rest), LeafCount(rest), [Begin(name, npad), EndNode]);
    hide Splice;
  }

  lemma {:induction false} InsertedPath(body: Items, name: seq<byte>, npad: seq<byte>)
    ensures var b := InsertChild(body, name, npad);
            var k := LeafCount(body);
            && IsNode(b, k) && PathAt(b, k) == [0] && NodeAt(b, k) == Sub(name, npad, Done, Done)
  {
    match body
    case Leaf(tok, rest) =>
      InsertedPath(rest, name, npad);
      InsideLeaf(tok, InsertChild(rest, name, npad), LeafCount(rest));
    case _ =>
  }

  // fdt_add_subnode_namelen ---------------------------------------------------------------------

  // A new empty node becomes the first child.
  function PutChild(n: Node, name: seq<byte>): Node {
    n.(children := [Node(name, [], [])] + n.children)
  }

  function Zeros(n: nat): (s: seq<byte>)
    ensures |s| == n && forall i :: 0 <= i < n ==> s[i] == 0
  {
    seq(n, _ => 0)
  }

  function ChildSize(name: seq<byte>): nat {
    4 + Align4(|name| + 1) + TAG_SIZE
  }

  function ChildPad(name: seq<byte>): seq<byte> {
    Zeros(PadLen(|name| + 1))
  }

  // The stores that fill the gap spell an empty node.
  lemma ChildStored(gap: seq<byte>, q: nat, name: seq<byte>)
    requires q + ChildSize(name) <= |gap| && NoNul(name)
    ensures var a := Align4(|name| + 1);
            var st' := Stored(Stored(Stored(Stored(gap, q, Put32(BEGIN_NODE)), q + 4, Zeros(a)), q + 4, name),
                              q + 4 + a, Put32(END_NODE));
            var t := Begin(name, ChildPad(name));
            && t.Ok()
            && At(st', q, t.Enc() + Put32(END_NODE))
            && |t.Enc() + Put32(END_NODE)| == ChildSize(name)
            && st'[..q] == gap[..q] && st'[q + ChildSize(name)..] == gap[q + ChildSize(name)..]
  {
    hide Stored, Put32, At;
    var a := Align4(|name| + 1);
    var c0, c2 := Put32(BEGIN_NODE), Put32(END_NODE);
    var g1 := Stored(gap, q, c0);
    var g2 := Stored(g1, q + 4, Zeros(a));
    var g3 := Stored(g2, q + 4, name);
    var st' := Stored(g3, q + 4 + a, c2);
    var pad := ChildPad(name);
    StoredAt(gap, q, c0);
    StoredElsewhere(g1, q + 4, Zeros(a), q, c0);
    StoredElsewhere(g2, q + 4, name, q, c0);
    StoredElsewhere(g3, q + 4 + a, c2, q, c0);
    StoredAt(g1, q + 4, Zeros(a));
    ZerosTail(g2, q + 4, a, |name|);
    StoredElsewhere(g2, q + 4, name, q + 4 + |name|, [0] + pad);
    StoredAt(g2, q + 4, name);
    AtConcat(g3, q + 4, name, [0] + pad);
    StoredElsewhere(g3, q + 4 + a, c2, q + 4, name + ([0] + pad));
    StoredAt(g3, q + 4 + a, c2);
    AtConcat(st', q, c0, name + ([0] + pad));
    AtConcat(st', q, c0 + (name + ([0] + pad)), c2);
    assert name + ([0] + pad) == (name + [0]) + pad;
    var b := q + ChildSize(name);
    StoredEnds(gap, q, c0, q, b);
    StoredEnds(g1, q + 4, Zeros(a), q, b);
    StoredEnds(g2, q + 4, name, q, b);
    StoredEnds(g3, q + 4 + a, c2, q, b);
  }

  lemma ZerosTail(s: seq<byte>, off: nat, n: nat, k: nat)
    requires At(s, off, Zeros(n)) && k < n
    ensures At(s, off + k, [0] + Zeros(n - k - 1))
  {
    var z := [0] + Zeros(n - k - 1);
    assert s[off..off + n][k..] == s[off + k..off + n];
    assert Zeros(n)[k..] == z;
  }

  // The stores of fdt_add_subnode_namelen into the gap
  method StoreChild(fdt: Blob, q: nat, name: seq<byte>)
    requires fdt.Ordered() && q + ChildSize(name) <= fdt.hdr.sizeStruct
    modifies fdt.buf
    ensures fdt.Head() == old(fdt.Head())
    ensures fdt.StringsBlock() == old(fdt.StringsBlock())
    ensures var a := Align4(|name| + 1);
            fdt.StructBlock()
            == Stored(Stored(Stored(Stored(old(fdt.StructBlock()), q, Put32(BEGIN_NODE)), q + 4, Zeros(a)), q + 4,
                             name),
                      q + 4 + a, Put32(END_NODE))
  {
    hide Stored, Put32, StructOf, HeadOf, StringsOf, Zeros;
    StructSize(fdt.hdr, fdt.buf[..]);
    var a := Align4(|name| + 1);
    StoreStruct(fdt, q, Put32(BEGIN_NODE));
    StoreStruct(fdt, q + 4, Zeros(a));
    StoreStruct(fdt, q + 4, name);
    StoreStruct(fdt, q + 4 + a, Put32(END_NODE));
  }

  lemma SkipOne(ts: seq<Token>, k: nat)
    requires k < |ts|
    ensures SkipProps(ts, k) == if ts[k].Prop? || ts[k].Nop? then SkipProps(ts, k + 1) else k
  {
  }

  // The loop of fdt_add_subnode_namelen over the tags behind the parent's own
  method ChildPlace(fdt: Blob, parent: nat) returns (r: Result<nat>)
    requires fdt.Valid() && IsNodeOffset(fdt.shape, parent)
    ensures var i := IndexAt(fdt.shape, parent);
            && i + 1 < |Stream(fdt.shape)|
            && r == Success(Off(Stream(fdt.shape), SkipProps(Stream(fdt.shape), i + 1)))
  {
    hide Describes, Stream, NextTag, At, Token.Enc, Token.Ok, Off, EncAll, NodeAt, Toks, SkipProps, StructOf, StringsOf,
      HeadOf, RsvCount;
    ghost var ts := Stream(fdt.shape);
    ghost var i := IndexAt(fdt.shape, parent);
    NodeRun(fdt.shape, i);
    DescribedTagOf(fdt, i);
    var tag, next := NextTagOf(fdt, parent);
    if tag != BEGIN_NODE {
      return Failure(Internal);
    }
    ghost var k := i;
    var offset := parent;
    var more := true;
    while more
      invariant i <= k < |ts|
      invariant more ==> k + 1 < |ts| && next == Success(Off(ts, k + 1)) && SkipProps(ts, i + 1) == SkipProps(ts, k + 1)
      invariant !more ==> SkipProps(ts, i + 1) == k && offset == Off(ts, k)
      decreases more, |ts| - k
    {
      offset := next.value;
      k := k + 1;
      DescribedTagOf(fdt, k);
      SkipOne(ts, k);
      tag, next := NextTagOf(fdt, offset);
      more := tag == PROP || tag == NOP;
    }
    return Success(offset);
  }

  // Where the search for a child and the place for a new one lie in the tree.
  lemma ChildSearch(im: Image, parent: nat, name: seq<byte>)
    requires im.Valid() && IsNodeOffset(im.shape, parent)
    ensures var i := IndexAt(im.shape, parent);
            var body := NodeAt(im.shape, i).body;
            var kids := im.NodeOf(parent).children;
            && (FindChild(body, Some(name)).None? <==> FirstChild(kids, Some(name)) == |kids|)
            && i + 1 + LeafCount(body) < |Stream(im.shape)|
            && SkipProps(Stream(im.shape), i + 1) == i + 1 + LeafCount(body)
  {
    hide Describes, Stream, At, Off, NodeAt, Toks, FindChild, FirstChild, Kids, LeafCount, SkipProps, Props, PathAt;
    var i := IndexAt(im.shape, parent);
    var body := NodeAt(im.shape, i).body;
    NodeRun(im.shape, i);
    SkipPropsRun(Stream(im.shape), i + 1, body);
    FindChildMeaning(body, StringsOf(im.hdr, im.mem), Some(name));
  }

  // The offset at which a new first child of the node goes.
  ghost function NewChildOffset(shape: Items, parent: nat): nat
    requires IsNodeOffset(shape, parent)
  {
    var k := IndexAt(shape, parent) + 1 + LeafCount(NodeAt(shape, IndexAt(shape, parent)).body);
    if k <= |Stream(shape)| then Off(Stream(shape), k) else 0
  }

  // The bytes and syntax after an empty node has been put at its place.
  ghost predicate AddsChild(before: Image, after: Image, parent: nat, name: seq<byte>) {
    && before.Valid() && IsNodeOffset(before.shape, parent) && NoNul(name)
    && SameAround(before, after)
    && var i := IndexAt(before.shape, parent);
       var body := NodeAt(before.shape, i).body;
       && after.shape == WithBody(before.shape, i, InsertChild(body, name, ChildPad(name)))
       && i + 1 + LeafCount(body) < |Stream(before.shape)|
       && var q := NewChildOffset(before.shape, parent);
          && q <= before.hdr.sizeStruct
          && StructOf(after.hdr, after.mem)
             == Splice(StructOf(before.hdr, before.mem), q, q, EncAll([Begin(name, ChildPad(name)), EndNode]))
  }

  lemma ChildTree(before: Image, after: Image, parent: nat, name: seq<byte>)
    requires AddsChild(before, after, parent, name)
    ensures NodeEdited(before, after, parent, [PutChild(before.NodeOf(parent), name)])
    ensures KeepsOffsets(before.shape, after.shape, parent)
  {
    hide Describes, Off, Stream, EncAll, WellNested, NoProps, Resolved, Kids, Props, StringsOf, StructOf, HeadOf, CStr,
      RsvCount, Edited, NodeEdited, HeaderKept, NodeAt, WithBody, InsertChild, Toks, Splice, LeafCount, ChildPad,
      PropsFirst, KeepsOffsets;
    var i := IndexAt(before.shape, parent);
    var n := NodeAt(before.shape, i);
    var strs := StringsOf(before.hdr, before.mem);
    var pad := ChildPad(name);
    var b := InsertChild(n.body, name, pad);
    PadOk(name);
    NodeParts(before.shape, StructOf(before.hdr, before.mem), strs, i);
    InsertChildIs(n.body, name, pad, strs);
    InsertChildToks(n.body, name, pad);
    assert strs + [] == strs;
    StructSize(before.hdr, before.mem);
    BodyEdit(before.shape, StructOf(before.hdr, before.mem), strs, [], i, b, LeafCount(n.body), LeafCount(n.body),
             [Begin(name, pad), EndNode], StructOf(after.hdr, after.mem));
    EditDone(before, after, i, [PutChild(before.NodeOf(parent), name)]);
  }

  lemma PadOk(name: seq<byte>)
    requires NoNul(name)
    ensures Begin(name, ChildPad(name)).Ok()
  {
  }

  lemma ChildPlaced(before: Image, after: Image, parent: nat, name: seq<byte>)
    requires AddsChild(before, after, parent, name)
    ensures IsNodeOffset(after.shape, parent)
    ensures IsNodeOffset(after.shape, NewChildOffset(before.shape, parent))
    ensures after.PathOf(NewChildOffset(before.shape, parent)) == after.PathOf(parent) + [0]
  {
    hide Describes, Off, Stream, EncAll, WellNested, NoProps, Resolved, Kids, Props, StringsOf, StructOf, HeadOf, CStr,
      HeaderKept, NodeAt, WithBody, InsertChild, Toks, Splice, LeafCount, ChildPad, PathAt, IsNode;
    var i := IndexAt(before.shape, parent);
    var body := NodeAt(before.shape, i).body;
    var pad := ChildPad(name);
    var b := InsertChild(body, name, pad);
    InsertChildToks(body, name, pad);
    BodyReplaced(before.shape, parent, b, LeafCount(body), LeafCount(body), [Begin(name, pad), EndNode]);
    InsertedPath(body, name, pad);
    InsideNode(after.shape, i, LeafCount(body));
    IndexUnique(after.shape, i + 1 + LeafCount(body));
  }

  // fdt_add_subnode_namelen: the offset of the new node.
  method AddSubnode(fdt: Blob, parent: nat, name: seq<byte>) returns (r: Result<nat>)
    requires RwProbe(fdt.hdr).Success? ==> fdt.Valid() && fdt.NodeArg(parent)
    requires |name| <= MAX_LEN && NoNul(name)
    modifies fdt, fdt.buf
    ensures old(RwProbe(fdt.hdr)).Failure? ==> r == Failure(old(RwProbe(fdt.hdr)).error)
    ensures old(RwProbe(fdt.hdr)).Success? && old(IsNodeOffset(fdt.shape, parent)) ==>
              var kids := old(fdt.Img().NodeOf(parent)).children;
              && (r == Failure(Exists) <==> FirstChild(kids, Some(name)) < |kids|)
              && (r == Failure(NoSpace) <==>
                    FirstChild(kids, Some(name)) == |kids|
                    && DataSize(old(fdt.hdr)) + ChildSize(name) > old(fdt.hdr.totalsize))
              && (r.Failure? ==> r.error in {Exists, NoSpace})
    ensures old(RwProbe(fdt.hdr)).Success? && old(!IsNodeOffset(fdt.shape, parent)) ==> r == Failure(BadOffset)
    ensures r.Failure? ==> fdt.Img() == old(fdt.Img())
    ensures r.Success? ==>
              && old(IsNodeOffset(fdt.shape, parent))
              && NodeEdited(old(fdt.Img()), fdt.Img(), parent, [PutChild(old(fdt.Img().NodeOf(parent)), name)])
              && KeepsOffsets(old(fdt.shape), fdt.shape, parent)
              && r.value > parent
              && IsNodeOffset(fdt.shape, r.value) && IsNodeOffset(fdt.shape, parent)
              && fdt.Img().PathOf(r.value) == fdt.Img().PathOf(parent) + [0]
              && DataSize(fdt.hdr) == DataSize(old(fdt.hdr)) + ChildSize(name)
              && fdt.Ordered() && fdt.StringsBlock() == old(fdt.StringsBlock())
  {
    hide RwProbe, Describes, Off, Stream, NodeEdited, StructOf, StringsOf, HeadOf, RsvCount, NodeCheck, NodeAt,
      WithBody, Toks, StructSpliced, Splice, EncAll, HeaderKept, Stored, KeepsOffsets, InsertChild, LeafCount,
      FirstChild, FindChild, SkipProps, PutChild, Zeros, ChildPad, Put32, Kids, Props, PathAt, NewChildOffset;
    var probe := RwProbe(fdt.hdr);
    if probe.Failure? {
      return probe;
    }
    ghost var before := fdt.Img();
    r := SubnodeOffset(fdt, parent, name);
    if IsNodeOffset(fdt.shape, parent) {
      ChildSearch(before, parent, name);
    }
    if r.Success? {
      return Failure(Exists);
    } else if r.error != NotFound {
      return;
    }
    var p := ChildPlace(fdt, parent);
    var place := p.value;
    OffsetBound(before, IndexAt(fdt.shape, parent) + 1 + LeafCount(NodeAt(fdt.shape, IndexAt(fdt.shape, parent)).body));
    ChildOffsetIs(before, parent);
    var e := SpliceStruct(fdt, place, 0, ChildSize(name));
    if e.Failure? {
      return Failure(e.error);
    }
    ghost var gap := fdt.Img();
    SplicedLayout(before.hdr, before.mem, gap.hdr, gap.mem, place, 0, ChildSize(name));
    SplicedSize(before.hdr, before.mem, gap.hdr, gap.mem, place, 0, ChildSize(name));
    StoreChild(fdt, place, name);
    ghost var i := IndexAt(fdt.shape, parent);
    ghost var body := NodeAt(fdt.shape, i).body;
    fdt.shape := WithBody(fdt.shape, i, InsertChild(body, name, ChildPad(name)));
    ChildSpliced(before, gap, fdt.StructBlock(), place, name);
    ChildTree(before, fdt.Img(), parent, name);
    ChildPlaced(before, fdt.Img(), parent, name);
    return Success(place);
  }

  lemma ChildOffsetIs(im: Image, parent: nat)
    requires im.Valid() && IsNodeOffset(im.shape, parent)
    requires var k := IndexAt(im.shape, parent) + 1 + LeafCount(NodeAt(im.shape, IndexAt(im.shape, parent)).body);
             k < |Stream(im.shape)|
    ensures var k := IndexAt(im.shape, parent) + 1 + LeafCount(NodeAt(im.shape, IndexAt(im.shape, parent)).body);
            NewChildOffset(im.shape, parent) == Off(Stream(im.shape), k)
    ensures NewChildOffset(im.shape, parent) > parent
  {
    hide Describes, Off, Stream, NodeAt, LeafCount, StructOf, StringsOf, HeadOf;
    var i := IndexAt(im.shape, parent);
    OffMonotone(Stream(im.shape), i, i + 1 + LeafCount(NodeAt(im.shape, i).body));
  }

  lemma ChildSpliced(before: Image, gap: Image, st': seq<byte>, q: nat, name: seq<byte>)
    requires NoNul(name)
    requires StructSpliced(before.hdr, before.mem, gap.hdr, gap.mem, q, 0, ChildSize(name))
    requires OrderedIn(before.hdr, |before.mem|) && OrderedIn(gap.hdr, |gap.mem|)
    requires q + ChildSize(name) <= gap.hdr.sizeStruct
    requires var a := Align4(|name| + 1);
             st' == Stored(Stored(Stored(Stored(StructOf(gap.hdr, gap.mem), q, Put32(BEGIN_NODE)), q + 4, Zeros(a)),
                                  q + 4, name),
                           q + 4 + a, Put32(END_NODE))
    ensures q <= before.hdr.sizeStruct
    ensures st' == Splice(StructOf(before.hdr, before.mem), q, q, EncAll([Begin(name, ChildPad(name)), EndNode]))
  {
    hide Stored, Put32, Splice, EncAll, StructOf, HeadOf, StringsOf, Zeros, At, Token.Enc, Token.Ok, ChildPad;
    StructSize(before.hdr, before.mem);
    StructSize(gap.hdr, gap.mem);
    ChildStored(StructOf(gap.hdr, gap.mem), q, name);
    EmptyNodeEnc(Begin(name, ChildPad(name)));
    SplicedIs(StructOf(before.hdr, before.mem), st', q, q, EncAll([Begin(name, ChildPad(name)), EndNode]));
  }

  lemma EmptyNodeEnc(t: Token)
    ensures EncAll([t, EndNode]) == t.Enc() + Put32(END_NODE)
  {
    assert [t, EndNode][1..] == [EndNode];
    EncOne(EndNode);
  }

  // A node and one of its children, as offsets and as tree nodes.
  ghost predicate ChildOf(im: Image, target: nat, nn: nat, m: nat) {
    && OrderedIn(im.hdr, |im.mem|)
    && IsNodeOffset(im.shape, target) && IsNodeOffset(im.shape, nn) && target <= nn
    && im.PathOf(nn) == im.PathOf(target) + [m]
  }

  // The child that a search by name finds.
  lemma ChildFound(im: Image, target: nat, name: seq<byte>, r: Result<nat>)
    requires im.Valid() && IsNodeOffset(im.shape, target) && ChildIs(im.shape, target, Some(name), r)
    requires FirstChild(im.NodeOf(target).children, Some(name)) < |im.NodeOf(target).children|
    ensures r.Success? && ChildOf(im, target, r.value, FirstChild(im.NodeOf(target).children, Some(name)))
  {
    hide Describes, Stream, Off, Toks, NodeAt, Kids, Props, PathAt, FindChild, FirstChild, StructOf, StringsOf, HeadOf,
      RsvCount, IsNode;
    var i := IndexAt(im.shape, target);
    var body := NodeAt(im.shape, i).body;
    FindChildMeaning(body, StringsOf(im.hdr, im.mem), Some(name));
    var k := FindChild(body, Some(name)).value;
    InsideNode(im.shape, i, k);
    IndexUnique(im.shape, i + 1 + k);
    OffMonotone(Stream(im.shape), i, i + 1 + k);
  }

  // A child as a node of the tree.
  lemma ChildNode(im: Image, target: nat, nn: nat, m: nat)
    requires im.Valid() && ChildOf(im, target, nn, m)
    ensures m < |im.NodeOf(target).children| && im.NodeOf(nn) == im.NodeOf(target).children[m]
  {
    hide Describes, PathAt, Update, Lookup, ValidPath, NodeAt, Kids, Props, StructOf, HeadOf, StringsOf, RsvCount, Off,
      Stream, IsNode;
    NodeParts(im.shape, StructOf(im.hdr, im.mem), StringsOf(im.hdr, im.mem), IndexAt(im.shape, target));
    NodeParts(im.shape, StructOf(im.hdr, im.mem), StringsOf(im.hdr, im.mem), IndexAt(im.shape, nn));
    LookupChild(im.Tree(), im.PathOf(target), m);
  }

  lemma {:induction false} LookupChild(kids: seq<Node>, p: seq<nat>, m: nat)
    requires ValidPath(kids, p) && ValidPath(kids, p + [m])
    ensures m < |Lookup(kids, p).children| && Lookup(kids, p + [m]) == Lookup(kids, p).children[m]
    decreases |p|
  {
    assert (p + [m])[1..] == p[1..] + [m];
    if |p| == 1 {
      assert p[1..] + [m] == [m];
    } else {
      LookupChild(kids[p[0]].children, p[1..], m);
    }
  }
}
