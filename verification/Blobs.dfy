// The flattened device tree blob: header words, one byte buffer, and the ghost syntax in it.
module Blobs {
  import opened Bytes
  import opened Tokens
  import opened Structure
  import opened Scan
  import opened Memory

  const FDT_MAGIC: u32 := 0xd00d_feed
  const SW_MAGIC: u32 := 0x2ff2_0112
  const FIRST_SUPPORTED_VERSION: u32 := 2
  const LAST_SUPPORTED_VERSION: u32 := 17
  const HEADER_SIZE: nat := 40
  const RSV_SIZE: nat := 16

  datatype Header = Header(
    magic: u32,
    totalsize: u32,
    offStruct: u32,
    offStrings: u32,
    offRsv: u32,
    version: u32,
    lastComp: u32,
    bootCpu: u32,
    sizeStrings: u32,
    sizeStruct: u32)

  // Unsigned 32-bit addition.
  function Add32(a: nat, b: nat): u32 {
    (a + b) % 0x1_0000_0000
  }

  // fdt_ro_probe_; the buffer is taken to be 8-byte aligned.
  function RoProbe(h: Header): Result<nat> {
    if h.magic == FDT_MAGIC && h.version < FIRST_SUPPORTED_VERSION then Failure(BadVersion)
    else if h.magic == FDT_MAGIC && h.lastComp > LAST_SUPPORTED_VERSION then Failure(BadVersion)
    else if h.magic == SW_MAGIC && h.sizeStruct == 0 then Failure(BadState)
    else if h.magic != FDT_MAGIC && h.magic != SW_MAGIC then Failure(BadMagic)
    else if h.totalsize < INT32_MAX then Success(h.totalsize)
    else Failure(Truncated)
  }

  predicate BlocksMisordered(h: Header, rsvSize: nat, structSize: nat) {
    || h.offRsv < HEADER_SIZE
    || h.offStruct < Add32(h.offRsv, rsvSize)
    || h.offStrings < Add32(h.offStruct, structSize)
    || h.totalsize < Add32(h.offStrings, h.sizeStrings)
  }

  // fdt_rw_probe_
  function RwProbe(h: Header): Result<nat> {
    var total :- RoProbe(h);
    if h.version < 17 then Failure(BadVersion)
    else if BlocksMisordered(h, RSV_SIZE, h.sizeStruct) then Failure(BadLayout)
    else Success(total)
  }

  // What it lets through has its blocks in order and inside the blob, as long as no end of a block wraps.
  lemma LayoutExact(h: Header)
    ensures && RwProbe(h).Success?
            && h.offRsv + RSV_SIZE < 0x1_0000_0000 && h.offStruct + h.sizeStruct < 0x1_0000_0000
            && h.offStrings + h.sizeStrings < 0x1_0000_0000
            <==> && RoProbe(h).Success? && h.version >= 17
                 && HEADER_SIZE <= h.offRsv && h.offRsv + RSV_SIZE <= h.offStruct
                 && h.offStruct + h.sizeStruct <= h.offStrings && h.offStrings + h.sizeStrings <= h.totalsize
  {
  }

  // Where one wraps it can be behind the blob: here the strings end at 2^32, which counts as 0.
  lemma LayoutWraps()
    ensures RwProbe(Header(FDT_MAGIC, 64, 56, 0xffff_fff0, 40, 17, 16, 0, 16, 8)) == Success(64)
  {
  }

  // fdt_offset_ptr returns a pointer, with its unsigned wrap-around tests.
  predicate OffsetPtr(h: Header, offset: int, len: u32) {
    && 0 <= offset <= INT32_MAX
    && (var abs := Add32(offset, h.offStruct);
        abs >= offset && Add32(abs, len) >= abs && Add32(abs, len) <= h.totalsize)
    && Add32(offset, len) >= offset
    && Add32(offset, len) <= h.sizeStruct
  }

  // How many bytes of the structure block can be read at all; negative when the block
  // starts beyond the end of the blob.
  function ReadLimit(h: Header): int {
    if h.sizeStruct <= h.totalsize - h.offStruct then h.sizeStruct else h.totalsize - h.offStruct
  }

  lemma AddWraps(a: u32, b: u32)
    ensures Add32(a, b) >= a <==> a + b < 0x1_0000_0000
    ensures a + b < 0x1_0000_0000 ==> Add32(a, b) == a + b
  {
  }

  // The wrap-around tests are exactly a bounds test on the readable bytes.
  lemma OffsetPtrExact(h: Header, offset: int, len: u32)
    requires h.totalsize <= INT32_MAX
    ensures OffsetPtr(h, offset, len) <==> 0 <= offset && offset + len <= ReadLimit(h)
  {
    if 0 <= offset <= INT32_MAX {
      AddWraps(offset, h.offStruct);
      AddWraps(offset, len);
      AddWraps(Add32(offset, h.offStruct), len);
      hide Add32;
    }
  }

  // The tokens of a structure block.
  function Stream(shape: Items): seq<Token> {
    Toks(shape) + [End]
  }

  // The bytes st and the strings block strs hold the device tree with syntax shape.
  ghost predicate Describes(shape: Items, st: seq<byte>, strs: seq<byte>) {
    && st == EncAll(Stream(shape))
    && WellNested(shape, true)
    && NoProps(shape)
    && Resolved(shape, strs)
  }

  lemma {:induction false} NoEnd(it: Items)
    ensures forall t :: t in Toks(it) ==> t != End
  {
    match it
    case Done =>
    case Leaf(_, rest) => NoEnd(rest);
    case Sub(_, _, body, rest) =>
      NoEnd(body);
      NoEnd(rest);
  }

  lemma StreamOk(shape: Items)
    requires WellNested(shape, true)
    ensures AllOk(Stream(shape))
  {
    ToksOk(shape, true);
  }

  lemma DescribedTag(shape: Items, st: seq<byte>, strs: seq<byte>, i: nat)
    requires Describes(shape, st, strs) && i < |Stream(shape)|
    ensures var ts := Stream(shape);
            && At(st, Off(ts, i), ts[i].Enc())
            && Off(ts, i) % 4 == 0
            && NextTag(st, Off(ts, i)) == TagResult(ts[i].Tag(), Success(Off(ts, i + 1)))
    ensures Stream(shape)[i].Ok()
    ensures Stream(shape)[i] != End ==> i + 1 < |Stream(shape)|
  {
    StreamOk(shape);
    assert At(st, 0, EncAll(Stream(shape)));
    hide *;
    NextTagAt(st, Stream(shape), i);
    assert Stream(shape)[i].Ok() by { StreamOkAt(shape, i); }
    StreamEnds(shape, i);
  }

  lemma StreamOkAt(shape: Items, i: nat)
    requires AllOk(Stream(shape)) && i < |Stream(shape)|
    ensures Stream(shape)[i].Ok()
  {
  }

  lemma StreamEnds(shape: Items, i: nat)
    requires i < |Stream(shape)|
    ensures Stream(shape)[i] == End <==> i + 1 == |Stream(shape)|
  {
    NoEnd(shape);
    if i < |Toks(shape)| {
      assert Stream(shape)[i] == Toks(shape)[i];
      assert Toks(shape)[i] in Toks(shape);
    }
  }

  // n is the offset of a node.
  ghost predicate IsNodeOffset(shape: Items, n: int) {
    exists i :: IsNode(shape, i) && Off(Stream(shape), i) == n
  }

  ghost function IndexAt(shape: Items, n: int): (i: nat)
    requires IsNodeOffset(shape, n)
    ensures IsNode(shape, i) && Off(Stream(shape), i) == n
  {
    var i :| IsNode(shape, i) && Off(Stream(shape), i) == n;
    i
  }

  lemma IndexUnique(shape: Items, i: nat)
    requires IsNode(shape, i)
    ensures IsNodeOffset(shape, Off(Stream(shape), i))
    ensures IndexAt(shape, Off(Stream(shape), i)) == i
  {
    OffInjective(Stream(shape), i, IndexAt(shape, Off(Stream(shape), i)));
  }

  // n is the offset of a property.
  ghost predicate IsProp(shape: Items, i: nat) {
    i < |Toks(shape)| && Toks(shape)[i].Prop?
  }

  ghost predicate IsPropOffset(shape: Items, n: int) {
    exists i :: IsProp(shape, i) && Off(Stream(shape), i) == n
  }

  ghost function PropIndexAt(shape: Items, n: int): (i: nat)
    requires IsPropOffset(shape, n)
    ensures IsProp(shape, i) && Off(Stream(shape), i) == n
  {
    var i :| IsProp(shape, i) && Off(Stream(shape), i) == n;
    i
  }

  lemma PropIndexUnique(shape: Items, i: nat)
    requires i < |Stream(shape)| && Stream(shape)[i].Prop?
    ensures IsProp(shape, i)
    ensures IsPropOffset(shape, Off(Stream(shape), i))
    ensures PropIndexAt(shape, Off(Stream(shape), i)) == i
  {
    OffInjective(Stream(shape), i, PropIndexAt(shape, Off(Stream(shape), i)));
  }

  // fdt_check_node_offset_
  function NodeCheck(s: seq<byte>, offset: nat): Result<nat> {
    if offset % 4 != 0 then Failure(BadOffset)
    else
      var t := NextTag(s, offset);
      if t.tag != BEGIN_NODE then Failure(BadOffset) else t.next
  }

  // fdt_check_prop_offset_
  function PropCheck(s: seq<byte>, offset: nat): Result<nat> {
    if offset % 4 != 0 then Failure(BadOffset)
    else
      var t := NextTag(s, offset);
      if t.tag != PROP then Failure(BadOffset) else t.next
  }

  lemma PropCheckError(s: seq<byte>, n: nat)
    ensures PropCheck(s, n).Failure? ==> PropCheck(s, n) == Failure(BadOffset)
  {
    hide NulAt, Get32;
  }

  lemma NodeCheckError(s: seq<byte>, n: nat)
    ensures NodeCheck(s, n).Failure? ==> NodeCheck(s, n) == Failure(BadOffset)
  {
    hide NulAt, Get32;
  }

  lemma NodeOffsetChecks(shape: Items, st: seq<byte>, strs: seq<byte>, n: int)
    requires Describes(shape, st, strs) && IsNodeOffset(shape, n)
    ensures n >= 0
    ensures IndexAt(shape, n) + 1 < |Stream(shape)|
    ensures Stream(shape)[IndexAt(shape, n)].Begin?
    ensures NodeCheck(st, n) == Success(Off(Stream(shape), IndexAt(shape, n) + 1))
  {
    var i := IndexAt(shape, n);
    assert Stream(shape)[i] == Toks(shape)[i];
    hide Describes, EncAll, Toks, At, NextTag, Off, Token.Enc;
    DescribedTag(shape, st, strs, i);
  }

  // The reservation block ends with the first entry of size 0.
  function RsvCount(mem: seq<byte>, off: nat): Option<nat>
    decreases |mem| - off
  {
    if off + 16 > |mem| then None
    else if mem[off + 8..off + 16] == [0, 0, 0, 0, 0, 0, 0, 0] then Some(0)
    else match RsvCount(mem, off + 16) case None => None case Some(n) => Some(n + 1)
  }

  // fdt_get_string, on complete blobs and on blobs the sequential writer is still building.
  function StringLookup(h: Header, mem: seq<byte>, stroffset: int): Result<seq<byte>>
    requires h.totalsize <= |mem|
  {
    var total :- RoProbe(h);
    var abs := Add32(stroffset % 0x1_0000_0000, h.offStrings);
    if abs >= total then Failure(BadOffset)
    else
      var len := total - abs;
      if h.magic == FDT_MAGIC then
        if stroffset < 0 || (h.version >= 17 && stroffset >= h.sizeStrings) then Failure(BadOffset)
        else
          StringWithin(mem, abs,
            if h.version >= 17 && h.sizeStrings - stroffset < len then h.sizeStrings - stroffset else len)
      else if stroffset >= 0 || -stroffset > h.sizeStrings then Failure(BadOffset)
      else StringWithin(mem, abs, if -stroffset < len then -stroffset else len)
  }

  // The string at p, if a NUL is found among the next len bytes.
  function StringWithin(mem: seq<byte>, p: nat, len: nat): Result<seq<byte>>
    requires p + len <= |mem|
  {
    match CStr(mem[..p + len], p)
    case None => Failure(Truncated)
    case Some(s) => Success(s)
  }

  // The blocks follow each other in the order the editor needs, inside size bytes of memory.
  predicate OrderedIn(h: Header, size: nat) {
    && HEADER_SIZE <= h.offRsv <= h.offStruct
    && h.offStruct + h.sizeStruct <= h.offStrings
    && h.offStrings + h.sizeStrings <= h.totalsize
    && h.totalsize <= size
    && h.totalsize < INT32_MAX
  }

  function HeadOf(h: Header, mem: seq<byte>): seq<byte>
    requires OrderedIn(h, |mem|)
  {
    mem[..h.offStruct]
  }

  function StructOf(h: Header, mem: seq<byte>): seq<byte>
    requires h.offStruct + h.sizeStruct <= |mem|
  {
    mem[h.offStruct..h.offStruct + h.sizeStruct]
  }

  function StringsOf(h: Header, mem: seq<byte>): seq<byte>
    requires h.offStrings + h.sizeStrings <= |mem|
  {
    mem[h.offStrings..h.offStrings + h.sizeStrings]
  }

  // Everything there is to know about a blob at one moment.
  datatype Image = Image(hdr: Header, mem: seq<byte>, shape: Items) {
    ghost predicate Valid() {
      && hdr.magic == FDT_MAGIC && hdr.version == 17 && hdr.lastComp <= LAST_SUPPORTED_VERSION
      && OrderedIn(hdr, |mem|)
      && Describes(shape, StructOf(hdr, mem), StringsOf(hdr, mem))
      && RsvCount(HeadOf(hdr, mem), hdr.offRsv).Some?
    }

    // The device tree in the blob.
    ghost function Tree(): seq<Node>
      requires OrderedIn(hdr, |mem|)
    {
      Kids(shape, StringsOf(hdr, mem))
    }

    // The node at offset n, and its place in the tree.
    ghost function NodeOf(n: nat): Node
      requires OrderedIn(hdr, |mem|) && IsNodeOffset(shape, n)
    {
      Meaning(NodeAt(shape, IndexAt(shape, n)), StringsOf(hdr, mem))
    }

    ghost function PathOf(n: nat): seq<nat>
      requires IsNodeOffset(shape, n)
    {
      PathAt(shape, IndexAt(shape, n))
    }
  }

  class Blob {
    var hdr: Header
    const buf: array<byte>
    ghost var shape: Items
    ghost var toks: seq<Token>  // the tokens emitted so far, while the blob is written sequentially

    constructor (size: nat)
      ensures buf.Length == size && fresh(buf)
    {
      buf := new byte[size](_ => 0);
      hdr := Header(0, 0, 0, 0, 0, 0, 0, 0, 0, 0);
      shape, toks := Done, [];
    }

    predicate Ordered()
      reads this
    {
      OrderedIn(hdr, buf.Length)
    }

    function Head(): seq<byte>
      requires Ordered()
      reads this, buf
    {
      HeadOf(hdr, buf[..])
    }

    function StructBlock(): seq<byte>
      requires Ordered()
      reads this, buf
    {
      StructOf(hdr, buf[..])
    }

    function StringsBlock(): seq<byte>
      requires Ordered()
      reads this, buf
    {
      StringsOf(hdr, buf[..])
    }

    ghost function Img(): Image
      reads this, buf
    {
      Image(hdr, buf[..], shape)
    }

    ghost predicate Valid()
      reads this, buf
    {
      Img().Valid()
    }

    // A node offset the caller may pass: that of a node, or one that fdt_check_node_offset_ rejects.
    ghost predicate NodeArg(n: nat)
      requires Ordered()
      reads this, buf
    {
      IsNodeOffset(shape, n) || NodeCheck(StructBlock(), n).Failure?
    }

    // The same for the offset of a property.
    ghost predicate PropArg(n: nat)
      requires Ordered()
      reads this, buf
    {
      IsPropOffset(shape, n) || PropCheck(StructBlock(), n).Failure?
    }

    // The bytes of the structure block that fdt_offset_ptr lets through.
    function Readable(): seq<byte>
      requires hdr.totalsize <= buf.Length
      reads this, buf
    {
      if ReadLimit(hdr) < 0 then [] else buf[hdr.offStruct..hdr.offStruct + ReadLimit(hdr)]
    }

    function Cell(offset: nat): u32
      requires hdr.totalsize <= buf.Length && offset + 4 <= ReadLimit(hdr)
      reads this, buf
    {
      Get32(Readable(), offset)
    }
  }

  lemma ReadableStruct(fdt: Blob)
    requires fdt.Ordered()
    ensures fdt.Readable() == fdt.StructBlock()
  {
  }

  // Its loop over a node's name: the offset behind the NUL
  method SkipName(fdt: Blob, start: nat) returns (r: Option<nat>)
    requires fdt.hdr.totalsize <= fdt.buf.Length && fdt.hdr.totalsize <= INT32_MAX
    requires start <= |fdt.Readable()|
    ensures var s := fdt.Readable();
            r == if NulAt(s, start) == |s| then None else Some(NulAt(s, start) + 1)
    ensures r.Some? ==> start < r.value <= |fdt.Readable()|
  {
    hide OffsetPtr;
    var h := fdt.hdr;
    ghost var s := fdt.Readable();
    var offset := start;
    var more := true;
    var p := true;
    while more
      invariant start <= offset
      invariant more ==> offset <= |s| && NulAt(s, start) == NulAt(s, offset)
      invariant !more && p ==> offset <= |s| && NulAt(s, start) == offset - 1
      invariant !more && !p ==> NulAt(s, start) == |s|
      decreases more, |s| - offset
    {
      OffsetPtrExact(h, offset, 1);
      p := OffsetPtr(h, offset, 1);
      more := p && fdt.buf[h.offStruct + offset] != 0;
      offset := offset + 1;
    }
    return if p then Some(offset) else None;
  }

  // fdt_next_tag
  method NextTagOf(fdt: Blob, startoffset: int) returns (tag: u32, next: Result<nat>)
    requires fdt.hdr.totalsize <= fdt.buf.Length && fdt.hdr.totalsize <= INT32_MAX
    ensures TagResult(tag, next) == NextTag(fdt.Readable(), startoffset)
  {
    hide OffsetPtr, NulAt, Get32;
    var h := fdt.hdr;
    ghost var s := fdt.Readable();
    OffsetPtrExact(h, startoffset, 4);
    if !OffsetPtr(h, startoffset, 4) {
      return END, Failure(Truncated);
    }
    tag := fdt.Cell(startoffset);
    var extent: u32 := 4;
    if tag == BEGIN_NODE {
      var end := SkipName(fdt, startoffset + 4);
      if end.None? {
        return END, Failure(BadStructure);
      }
      extent := end.value - startoffset;
    } else if tag == PROP {
      OffsetPtrExact(h, startoffset + 4, 4);
      if !OffsetPtr(h, startoffset + 4, 4) {
        return END, Failure(BadStructure);
      }
      extent := Add32(12, fdt.Cell(startoffset + 4));
    } else if tag != END && tag != END_NODE && tag != NOP {
      return END, Failure(BadStructure);
    }
    OffsetPtrExact(h, startoffset, extent);
    if !OffsetPtr(h, startoffset, extent) {
      return END, Failure(BadStructure);
    }
    next := Success(Align4(startoffset + extent));
  }
}
