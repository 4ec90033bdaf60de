// Laying the blocks of a blob out afresh:
// fdt_pack and fdt_open_into (fdt_rw.c).
module Packing {
  import opened Bytes
  import opened Tokens
  import opened Structure
  import opened Memory
  import opened Blobs
  import opened Splicing
  import opened Editor
  import opened Reservations
  import opened Check
  import opened Writer

  // Reservations are found by the bytes of their block ------------------------------------------------

  lemma {:induction false} RsvWindow(mem: seq<byte>, off: nat, mem': seq<byte>, off': nat)
    requires RsvCount(mem, off).Some?
    ensures off + 16 * (RsvCount(mem, off).value + 1) <= |mem|
    ensures var n := 16 * (RsvCount(mem, off).value + 1);
            off' + n <= |mem'| && mem'[off'..off' + n] == mem[off..off + n]
            ==> RsvList(mem', off') == RsvList(mem, off) && RsvCount(mem', off') == RsvCount(mem, off)
    decreases |mem| - off
  {
    hide Get64, RsvList, RsvCount;
    RsvNext(mem, off);
    RsvNext(mem', off');
    if mem[off + 8..off + 16] == [0, 0, 0, 0, 0, 0, 0, 0] {
      RsvFirst(mem, off, mem', off', 16);
    } else {
      RsvWindow(mem, off + 16, mem', off' + 16);
      var n := 16 * (RsvCount(mem, off).value + 1);
      if off' + n <= |mem'| && mem'[off'..off' + n] == mem[off..off + n] {
        RsvFirst(mem, off, mem', off', n);
        SliceSlice(mem, off, off + n, 16, n);
        SliceSlice(mem', off', off' + n, 16, n);
      }
    }
  }

  // One step of the list and of its count.
  lemma RsvNext(mem: seq<byte>, off: nat)
    ensures RsvCount(mem, off)
         == if off + 16 > |mem| then None
            else if mem[off + 8..off + 16] == [0, 0, 0, 0, 0, 0, 0, 0] then Some(0)
            else match RsvCount(mem, off + 16) case None => None case Some(n) => Some(n + 1)
    ensures RsvList(mem, off)
         == if off + 16 > |mem| then None
            else if Get64(mem, off + 8) == 0 then Some([])
            else match RsvList(mem, off + 16)
                 case None => None
                 case Some(es) => Some([Reservation(Get64(mem, off), Get64(mem, off + 8))] + es)
  {
    hide Get64, RsvCount;
    RsvCountStep(mem, off);
  }

  // The first entry of two equal windows.
  lemma RsvFirst(mem: seq<byte>, off: nat, mem': seq<byte>, off': nat, n: nat)
    requires 16 <= n && off + n <= |mem|
    ensures off' + n <= |mem'| && mem'[off'..off' + n] == mem[off..off + n] ==>
              && mem'[off' + 8..off' + 16] == mem[off + 8..off + 16]
              && Get64(mem', off') == Get64(mem, off) && Get64(mem', off' + 8) == Get64(mem, off + 8)
    ensures Get64(mem, off + 8) == 0 <==> mem[off + 8..off + 16] == [0, 0, 0, 0, 0, 0, 0, 0]
  {
    hide Get64;
    ZeroCell(mem, off + 8);
    if off' + n <= |mem'| && mem'[off'..off' + n] == mem[off..off + n] {
      SliceSlice(mem, off, off + n, 8, 16);
      SliceSlice(mem', off', off' + n, 8, 16);
      SameCell(mem, off, mem', off', n, 0);
      SameCell(mem, off, mem', off', n, 8);
    }
  }

  lemma SameCell(mem: seq<byte>, off: nat, mem': seq<byte>, off': nat, n: nat, k: nat)
    requires k + 8 <= n && off + n <= |mem| && off' + n <= |mem'| && mem'[off'..off' + n] == mem[off..off + n]
    ensures Get64(mem', off' + k) == Get64(mem, off + k)
  {
    SliceSlice(mem, off, off + n, k, k + 8);
    SliceSlice(mem', off', off' + n, k, k + 8);
    CellOfSlice(mem, off + k);
    CellOfSlice(mem', off' + k);
  }

  lemma CellOfSlice(s: seq<byte>, i: nat)
    requires i + 8 <= |s|
    ensures Get64(s, i) == Get64(s[i..i + 8], 0)
  {
  }

  // Packing ---------------------------------------------------------------------------------------------

  // Header words after fdt_packblocks_.
  function PackedHeader(h: Header, rsvSize: nat): Header
    requires HEADER_SIZE + rsvSize + h.sizeStruct < 0x1_0000_0000
  {
    h.(offRsv := HEADER_SIZE, offStruct := HEADER_SIZE + rsvSize, offStrings := HEADER_SIZE + rsvSize + h.sizeStruct)
  }

  // The three blocks of the blob at `at` are inside the memory.
  predicate BlocksAt(h: Header, size: nat, at: nat, rsvSize: nat) {
    && at + h.offRsv + rsvSize <= size
    && at + h.offStruct + h.sizeStruct <= size
    && at + h.offStrings + h.sizeStrings <= size
  }

  function NewSize(h: Header, rsvSize: nat): nat {
    HEADER_SIZE + rsvSize + h.sizeStruct + h.sizeStrings
  }

  // The copy does not run over what is still to be copied: it goes to another place, or stays
  // where the blocks follow each other.
  predicate SafeTarget(h: Header, at: nat, to: nat, rsvSize: nat) {
    || to + NewSize(h, rsvSize) <= at
    || at + h.totalsize <= to
    || (at == to && HEADER_SIZE <= h.offRsv && h.offRsv + rsvSize <= h.offStruct
        && h.offStruct + h.sizeStruct <= h.offStrings)
  }

  // The blocks of one blob are those of another.
  ghost predicate SameBlocks(h: Header, mem: seq<byte>, at: nat, h': Header, mem': seq<byte>, to: nat, rsvSize: nat) {
    && BlocksAt(h, |mem|, at, rsvSize) && BlocksAt(h', |mem'|, to, rsvSize)
    && h'.sizeStruct == h.sizeStruct && h'.sizeStrings == h.sizeStrings
    && mem'[to + h'.offRsv..to + h'.offRsv + rsvSize] == mem[at + h.offRsv..at + h.offRsv + rsvSize]
    && mem'[to + h'.offStruct..to + h'.offStruct + h'.sizeStruct]
       == mem[at + h.offStruct..at + h.offStruct + h.sizeStruct]
    && mem'[to + h'.offStrings..to + h'.offStrings + h'.sizeStrings]
       == mem[at + h.offStrings..at + h.offStrings + h.sizeStrings]
  }

  // fdt_packblocks_
  method PackBlocks(a: array<byte>, at: nat, h: Header, to: nat, rsvSize: nat) returns (h': Header)
    requires BlocksAt(h, a.Length, at, rsvSize) && to + NewSize(h, rsvSize) <= a.Length
    requires NewSize(h, rsvSize) <= INT32_MAX
    requires h.offRsv + rsvSize <= h.totalsize && h.offStruct + h.sizeStruct <= h.totalsize
    requires h.offStrings + h.sizeStrings <= h.totalsize
    requires SafeTarget(h, at, to, rsvSize)
    modifies a
    ensures h' == PackedHeader(h, rsvSize)
    ensures SameBlocks(h, old(a[..]), at, h', a[..], to, rsvSize)
    ensures to == at && h == h' ==> a[..] == old(a[..])
  {
    hide Moved, SameBlocks, SafeTarget;
    ghost var m0 := a[..];
    var memRsvOff := HEADER_SIZE;
    var structOff := memRsvOff + rsvSize;
    var stringsOff := structOff + h.sizeStruct;
    Memmove(a, to + memRsvOff, at + h.offRsv, rsvSize);
    ghost var m1 := a[..];
    Memmove(a, to + structOff, at + h.offStruct, h.sizeStruct);
    ghost var m2 := a[..];
    Memmove(a, to + stringsOff, at + h.offStrings, h.sizeStrings);
    h' := h.(offRsv := memRsvOff, offStruct := structOff, offStrings := stringsOff);
    ThreeMoves(h, m0, m1, m2, at, to, rsvSize);
    StillMoves(h, m0, m1, m2, at, to, rsvSize);
  }

  lemma ThreeMoves(h: Header, m0: seq<byte>, m1: seq<byte>, m2: seq<byte>, at: nat, to: nat, rsvSize: nat)
    requires BlocksAt(h, |m0|, at, rsvSize) && to + NewSize(h, rsvSize) <= |m0| && NewSize(h, rsvSize) <= INT32_MAX
    requires h.offRsv + rsvSize <= h.totalsize && h.offStruct + h.sizeStruct <= h.totalsize
    requires h.offStrings + h.sizeStrings <= h.totalsize
    requires SafeTarget(h, at, to, rsvSize)
    requires m1 == Moved(m0, to + HEADER_SIZE, at + h.offRsv, rsvSize)
    requires m2 == Moved(m1, to + HEADER_SIZE + rsvSize, at + h.offStruct, h.sizeStruct)
    ensures var m3 := Moved(m2, to + HEADER_SIZE + rsvSize + h.sizeStruct, at + h.offStrings, h.sizeStrings);
            SameBlocks(h, m0, at, PackedHeader(h, rsvSize), m3, to, rsvSize)
  {
    hide Moved, SafeTarget;
    var r, s, t := to + HEADER_SIZE, to + HEADER_SIZE + rsvSize, to + HEADER_SIZE + rsvSize + h.sizeStruct;
    TargetsClear(h, at, to, rsvSize);
    Moves(m0, r, at + h.offRsv, rsvSize, s, at + h.offStruct, h.sizeStruct, t, at + h.offStrings, h.sizeStrings);
    BlocksArrived(h, m0, at, Moved(m2, t, at + h.offStrings, h.sizeStrings), to, rsvSize);
  }

  lemma BlocksArrived(h: Header, m0: seq<byte>, at: nat, m3: seq<byte>, to: nat, rsvSize: nat)
    requires BlocksAt(h, |m0|, at, rsvSize) && to + NewSize(h, rsvSize) <= |m3| && NewSize(h, rsvSize) <= INT32_MAX
    requires var r, s, t := to + HEADER_SIZE, to + HEADER_SIZE + rsvSize, to + HEADER_SIZE + rsvSize + h.sizeStruct;
             && m3[r..r + rsvSize] == m0[at + h.offRsv..at + h.offRsv + rsvSize]
             && m3[s..s + h.sizeStruct] == m0[at + h.offStruct..at + h.offStruct + h.sizeStruct]
             && m3[t..t + h.sizeStrings] == m0[at + h.offStrings..at + h.offStrings + h.sizeStrings]
    ensures SameBlocks(h, m0, at, PackedHeader(h, rsvSize), m3, to, rsvSize)
  {
    var p := PackedHeader(h, rsvSize);
    assert to + p.offRsv == to + HEADER_SIZE && to + p.offStruct == to + HEADER_SIZE + rsvSize;
    assert to + p.offStrings == to + HEADER_SIZE + rsvSize + h.sizeStruct;
  }

  lemma TargetsClear(h: Header, at: nat, to: nat, rsvSize: nat)
    requires h.offRsv + rsvSize <= h.totalsize && h.offStruct + h.sizeStruct <= h.totalsize
    requires h.offStrings + h.sizeStrings <= h.totalsize
    requires SafeTarget(h, at, to, rsvSize)
    ensures var r, s, t := to + HEADER_SIZE, to + HEADER_SIZE + rsvSize, to + HEADER_SIZE + rsvSize + h.sizeStruct;
            && (at + h.offStruct + h.sizeStruct <= r || s <= at + h.offStruct)
            && (at + h.offStrings + h.sizeStrings <= r || t <= at + h.offStrings)
  {
  }

  // Three moves to places side by side, none of which runs over what is moved after it.
  lemma Moves(m0: seq<byte>, d1: nat, s1: nat, n1: nat, d2: nat, s2: nat, n2: nat, d3: nat, s3: nat, n3: nat)
    requires d1 + n1 == d2 && d2 + n2 == d3 && d3 + n3 <= |m0|
    requires s1 + n1 <= |m0| && s2 + n2 <= |m0| && s3 + n3 <= |m0|
    requires (s2 + n2 <= d1 || d2 <= s2) && (s3 + n3 <= d1 || d3 <= s3)
    ensures var m1 := Moved(m0, d1, s1, n1);
            var m2 := Moved(m1, d2, s2, n2);
            var m3 := Moved(m2, d3, s3, n3);
            && m3[d1..d1 + n1] == m0[s1..s1 + n1] && m3[d2..d2 + n2] == m0[s2..s2 + n2]
            && m3[d3..d3 + n3] == m0[s3..s3 + n3]
  {
    hide Moved;
    var m1 := Moved(m0, d1, s1, n1);
    var m2 := Moved(m1, d2, s2, n2);
    var m3 := Moved(m2, d3, s3, n3);
    MovedFacts(m0, d1, s1, n1);
    MovedFacts(m1, d2, s2, n2);
    MovedFacts(m2, d3, s3, n3);
    SameWindow(m0, m1, s2, s2 + n2);
    SameWindow(m0, m1, s3, s3 + n3);
    SameWindow(m1, m2, s3, s3 + n3);
    SameWindow(m1, m2, d1, d1 + n1);
    SameWindow(m2, m3, d1, d1 + n1);
    SameWindow(m2, m3, d2, d2 + n2);
  }

  // Blocks that are where they belong are not touched.
  lemma StillMoves(h: Header, m0: seq<byte>, m1: seq<byte>, m2: seq<byte>, at: nat, to: nat, rsvSize: nat)
    requires BlocksAt(h, |m0|, at, rsvSize) && to + NewSize(h, rsvSize) <= |m0| && NewSize(h, rsvSize) <= INT32_MAX
    requires m1 == Moved(m0, to + HEADER_SIZE, at + h.offRsv, rsvSize)
    requires m2 == Moved(m1, to + HEADER_SIZE + rsvSize, at + h.offStruct, h.sizeStruct)
    ensures to == at && h == PackedHeader(h, rsvSize) ==>
              Moved(m2, to + HEADER_SIZE + rsvSize + h.sizeStruct, at + h.offStrings, h.sizeStrings) == m0
  {
    hide Moved;
    MovedSelf(m0, to + HEADER_SIZE, rsvSize);
    MovedSelf(m1, to + HEADER_SIZE + rsvSize, h.sizeStruct);
    MovedSelf(m2, to + HEADER_SIZE + rsvSize + h.sizeStruct, h.sizeStrings);
  }

  lemma MovedSelf(s: seq<byte>, p: nat, n: nat)
    requires p + n <= |s|
    ensures Moved(s, p, p, n) == s
  {
    MovedIs(s, s, p, p, n);
  }

  // fdt_pack -----------------------------------------------------------------------------------------------

  // The blocks follow each other without gaps, up to the end of the blob.
  predicate Packed(h: Header, rsvSize: nat) {
    && h.offRsv == HEADER_SIZE && h.offStruct == HEADER_SIZE + rsvSize
    && h.offStrings == h.offStruct + h.sizeStruct && h.totalsize == h.offStrings + h.sizeStrings
  }

  // How many bytes the reservation block takes, its terminator included.
  ghost function RsvSize(im: Image): nat
    requires im.Valid()
  {
    16 * (RsvCount(HeadOf(im.hdr, im.mem), im.hdr.offRsv).value + 1)
  }

  ghost function Reserved(im: Image): Option<seq<Reservation>>
    requires OrderedIn(im.hdr, |im.mem|)
  {
    RsvList(HeadOf(im.hdr, im.mem), im.hdr.offRsv)
  }

  lemma RsvSizeFits(im: Image)
    requires im.Valid()
    ensures im.hdr.offRsv + RsvSize(im) <= im.hdr.offStruct
    ensures RsvCount(im.mem[..im.hdr.totalsize], im.hdr.offRsv) == RsvCount(HeadOf(im.hdr, im.mem), im.hdr.offRsv)
  {
    hide Describes, RsvCount;
    var head := HeadOf(im.hdr, im.mem);
    RsvWindow(head, im.hdr.offRsv, head, im.hdr.offRsv);
    assert im.mem[..im.hdr.totalsize][..im.hdr.offStruct] == head;
    RsvCountMore(im.mem[..im.hdr.totalsize], im.hdr.offStruct, im.hdr.offRsv);
  }

  // The blob after its blocks have been laid out afresh holds what it held before.
  lemma SameBlocksSame(im: Image, h': Header, mem': seq<byte>)
    requires im.Valid() && OrderedIn(h', |mem'|) && h'.magic == FDT_MAGIC && h'.version == 17
    requires h'.lastComp <= LAST_SUPPORTED_VERSION
    requires SameBlocks(im.hdr, im.mem, 0, h', mem', 0, RsvSize(im)) && h'.offRsv + RsvSize(im) <= h'.offStruct
    ensures var im' := Image(h', mem', im.shape);
            im'.Valid() && im'.Tree() == im.Tree() && Reserved(im') == Reserved(im) && RsvSize(im') == RsvSize(im)
  {
    hide Describes, RsvCount, RsvList, Kids;
    var head, head' := HeadOf(im.hdr, im.mem), HeadOf(h', mem');
    var n := RsvSize(im);
    RsvSizeFits(im);
    SliceSlice(im.mem, 0, im.hdr.offStruct, im.hdr.offRsv, im.hdr.offRsv + n);
    SliceSlice(mem', 0, h'.offStruct, h'.offRsv, h'.offRsv + n);
    RsvWindow(head, im.hdr.offRsv, head', h'.offRsv);
  }

  // fdt_pack keeps reservations, tree and strings and leaves no gaps; packed again, nothing changes.
  method Pack(fdt: Blob) returns (r: Result<()>)
    requires RwProbe(fdt.hdr).Success? ==> fdt.Valid()
    modifies fdt`hdr, fdt.buf
    ensures RwProbe(old(fdt.hdr)).Failure? ==>
              r == Failure(RwProbe(old(fdt.hdr)).error) && fdt.hdr == old(fdt.hdr) && fdt.buf[..] == old(fdt.buf[..])
    ensures RwProbe(old(fdt.hdr)).Success? ==>
              && r == Success(()) && old(fdt.Valid()) && fdt.Valid()
              && Packed(fdt.hdr, RsvSize(fdt.Img()))
              && fdt.hdr == old(fdt.hdr).(offRsv := fdt.hdr.offRsv, offStruct := fdt.hdr.offStruct,
                                          offStrings := fdt.hdr.offStrings, totalsize := fdt.hdr.totalsize)
              && fdt.shape == old(fdt.shape)
              && fdt.Img().Tree() == old(fdt.Img().Tree())
              && Reserved(fdt.Img()) == old(Reserved(fdt.Img()))
              && fdt.StringsBlock() == old(fdt.StringsBlock())
              && (old(Packed(fdt.hdr, RsvSize(fdt.Img()))) ==>
                    fdt.hdr == old(fdt.hdr) && fdt.buf[..] == old(fdt.buf[..]))
  {
    hide RwProbe, Describes, RsvCount, RsvList, Kids, SameBlocks, Packed, HeadOf, StringsOf, StructOf, RsvSize,
      Image.Valid, PackedHeader, Reserved, Image.Tree;
    var probe := RwProbe(fdt.hdr);
    if probe.Failure? {
      return Failure(probe.error);
    }
    ghost var im := fdt.Img();
    var h := fdt.hdr;
    PackFits(im);
    assert fdt.buf[0..0 + h.totalsize] == fdt.buf[..][..h.totalsize];
    var num := NumMemRsv(fdt.buf, 0, h);
    var memRsvSize := 16 * (num.value + 1);
    var packed := PackBlocks(fdt.buf, 0, h, 0, memRsvSize);
    fdt.hdr := packed.(totalsize := Add32(packed.offStrings, packed.sizeStrings));
    PackDone(im, fdt.buf[..]);
    PackedWords(h, memRsvSize);
    return Success(());
  }

  lemma PackedWords(h: Header, rsvSize: nat)
    requires HEADER_SIZE + rsvSize + h.sizeStruct < 0x1_0000_0000
    ensures var p := PackedHeader(h, rsvSize);
            p == h.(offRsv := p.offRsv, offStruct := p.offStruct, offStrings := p.offStrings)
  {
  }

  lemma PackFits(im: Image)
    requires im.Valid()
    ensures OrderedIn(im.hdr, |im.mem|)
    ensures RsvCount(im.mem[..im.hdr.totalsize], im.hdr.offRsv).Some?
    ensures var n := 16 * (RsvCount(im.mem[..im.hdr.totalsize], im.hdr.offRsv).value + 1);
            n == RsvSize(im) && im.hdr.offRsv + n <= im.hdr.offStruct && NewSize(im.hdr, n) <= im.hdr.totalsize
  {
    hide Describes, RsvCount;
    RsvSizeFits(im);
  }

  lemma PackDone(im: Image, mem': seq<byte>)
    requires im.Valid() && HEADER_SIZE + RsvSize(im) + im.hdr.sizeStruct < 0x1_0000_0000
    requires SameBlocks(im.hdr, im.mem, 0, PackedHeader(im.hdr, RsvSize(im)), mem', 0, RsvSize(im))
    requires |mem'| == |im.mem|
    ensures var n := RsvSize(im);
            var p := PackedHeader(im.hdr, n);
            var h' := p.(totalsize := Add32(p.offStrings, p.sizeStrings));
            var im' := Image(h', mem', im.shape);
            && im'.Valid() && im'.Tree() == im.Tree() && Reserved(im') == Reserved(im)
            && OrderedIn(h', |mem'|) && OrderedIn(im.hdr, |im.mem|)
            && StringsOf(h', mem') == StringsOf(im.hdr, im.mem)
            && Packed(h', RsvSize(im'))
            && (Packed(im.hdr, n) ==> p == im.hdr && h' == im.hdr)
  {
    hide Describes, RsvCount, RsvList, Kids, RsvSize;
    PackFits(im);
    var n := RsvSize(im);
    var p := PackedHeader(im.hdr, n);
    var total := p.offStrings + p.sizeStrings;
    TotalSame(im.hdr, im.mem, p, mem', n, total);
    SameBlocksSame(im, p.(totalsize := total), mem');
    StringsSame(im.hdr, im.mem, p.(totalsize := total), mem', n);
  }

  lemma TotalSame(h: Header, mem: seq<byte>, h': Header, mem': seq<byte>, rsvSize: nat, total: u32)
    requires SameBlocks(h, mem, 0, h', mem', 0, rsvSize)
    ensures SameBlocks(h, mem, 0, h'.(totalsize := total), mem', 0, rsvSize)
    ensures BlocksAt(h', |mem'|, 0, rsvSize)
  {
  }

  lemma StringsSame(h: Header, mem: seq<byte>, h': Header, mem': seq<byte>, rsvSize: nat)
    requires OrderedIn(h, |mem|) && OrderedIn(h', |mem'|) && SameBlocks(h, mem, 0, h', mem', 0, rsvSize)
    ensures StringsOf(h', mem') == StringsOf(h, mem)
  {
  }

  // fdt_open_into ----------------------------------------------------------------------------------------

  // A complete blob whose blocks may come in any order.
  predicate Loose(h: Header, mem: seq<byte>) {
    && |mem| == h.totalsize < INT32_MAX && h.version >= 17
    && HeaderCheck(h).Success?
    && RsvCount(mem, h.offRsv).Some?
    && NewSize(h, 16 * (RsvCount(mem, h.offRsv).value + 1)) < INT32_MAX
  }

  // The places of two buffers in one memory.
  predicate Beside(at: nat, n: nat, to: nat, m: nat) {
    to + m <= at || at + n <= to
  }

  // What fdt_open_into leaves in the new buffer.
  ghost predicate OpenedAs(h: Header, mem: seq<byte>, at: nat, h': Header, mem': seq<byte>, to: nat, bufsize: nat,
                           rsvSize: nat) {
    && SameBlocks(h, mem, at, h', mem', to, rsvSize)
    && h'.magic == FDT_MAGIC && h'.version == 17 && h'.lastComp <= LAST_SUPPORTED_VERSION && h'.totalsize == bufsize
    && HEADER_SIZE <= h'.offRsv && h'.offRsv + rsvSize <= h'.offStruct
    && h'.offStruct + h'.sizeStruct <= h'.offStrings && h'.offStrings + h'.sizeStrings <= bufsize
  }

  lemma LooseFits(h: Header, mem: seq<byte>)
    requires Loose(h, mem)
    ensures var rsv := 16 * (RsvCount(mem, h.offRsv).value + 1);
            && h.offRsv + rsv <= h.totalsize && h.offStruct + h.sizeStruct <= h.totalsize
            && h.offStrings + h.sizeStrings <= h.totalsize
            && RoProbe(h) == Success(h.totalsize) && h.magic == FDT_MAGIC && HEADER_SIZE <= h.offRsv <= h.totalsize
            && HEADER_SIZE <= h.totalsize
            && h.lastComp <= LAST_SUPPORTED_VERSION
            && (BlocksMisordered(h, rsv, h.sizeStruct)
                <==> h.offStruct < h.offRsv + rsv || h.offStrings < h.offStruct + h.sizeStruct)
  {
    hide RsvCount;
    HeaderCheckExact(h);
    RsvWindow(mem, h.offRsv, mem, h.offRsv);
    AddWraps(h.offStruct, h.sizeStruct);
    AddWraps(h.offStrings, h.sizeStrings);
    AddWraps(h.offRsv, 16 * (RsvCount(mem, h.offRsv).value + 1));
  }

  // The blob at `at` is opened into the buffer at `to`; both may overlap in any way.
  method OpenInto(a: array<byte>, at: nat, h: Header, to: nat, bufsize: nat) returns (r: Result<Header>)
    requires at + h.totalsize <= a.Length && to + bufsize <= a.Length && bufsize < INT32_MAX
    requires Loose(h, a[at..at + h.totalsize])
    modifies a
    ensures var rsv := 16 * (RsvCount(old(a[at..at + h.totalsize]), h.offRsv).value + 1);
            && (r.Success? <==>
                  if BlocksMisordered(h, rsv, h.sizeStruct) then
                    NewSize(h, rsv) <= bufsize
                    && (Beside(at, h.totalsize, to, NewSize(h, rsv))
                        || at + h.totalsize + NewSize(h, rsv) <= to + bufsize)
                  else h.totalsize <= bufsize)
            && (r.Success? ==> OpenedAs(h, old(a[..]), at, r.value, a[..], to, bufsize, rsv))
            && (r.Success? && !BlocksMisordered(h, rsv, h.sizeStruct) ==>
                  r.value == h.(version := 17, totalsize := bufsize)
                  && a[to..to + h.totalsize] == old(a[at..at + h.totalsize]))
            && (r.Success? && BlocksMisordered(h, rsv, h.sizeStruct) ==>
                  && r.value.lastComp == 16
                  && (Beside(at, h.totalsize, to, NewSize(h, rsv)) ==> r.value.bootCpu == h.bootCpu))
    ensures r.Failure? ==> r == Failure(NoSpace) && a[..] == old(a[..])
  {
    hide RsvCount, Moved, SameBlocks, HeaderCheck, OpenedAs, BlocksMisordered;
    ghost var m0 := a[..];
    LooseFits(h, a[at..at + h.totalsize]);
    var num := NumMemRsv(a, at, h);
    var memRsvSize := 16 * (num.value + 1);
    if !BlocksMisordered(h, memRsvSize, h.sizeStruct) {
      if h.totalsize > bufsize {
        return Failure(NoSpace);
      }
      Memmove(a, to, at, h.totalsize);
      MovedWindow(m0, to, at, h.totalsize, at, at + h.totalsize);
      OpenedInOrder(h, m0, at, to, bufsize, memRsvSize);
      return Success(h.(version := 17, totalsize := bufsize));
    }
    var newsize := NewSize(h, memRsvSize);
    if bufsize < newsize {
      return Failure(NoSpace);
    }
    var tmp := to;
    if tmp + newsize > at && tmp < at + h.totalsize {
      tmp := at + h.totalsize;
      if tmp + newsize > to + bufsize {
        return Failure(NoSpace);
      }
    }
    var packed := PackBlocks(a, at, h, tmp, memRsvSize);
    ghost var m1 := a[..];
    Memmove(a, to, tmp, newsize);
    OpenedPacked(h, m0, at, m1, tmp, to, bufsize, memRsvSize);
    return Success(packed.(magic := FDT_MAGIC, totalsize := bufsize, version := 17, lastComp := 16));
  }

  lemma OpenedInOrder(h: Header, m0: seq<byte>, at: nat, to: nat, bufsize: nat, rsvSize: nat)
    requires at + h.totalsize <= |m0| && to + bufsize <= |m0| && h.totalsize <= bufsize < INT32_MAX
    requires HEADER_SIZE <= h.offRsv && h.offRsv + rsvSize <= h.offStruct && h.offStruct + h.sizeStruct <= h.offStrings
    requires h.offStrings + h.sizeStrings <= h.totalsize && h.magic == FDT_MAGIC && h.lastComp <= LAST_SUPPORTED_VERSION
    ensures OpenedAs(h, m0, at, h.(version := 17, totalsize := bufsize), Moved(m0, to, at, h.totalsize), to, bufsize,
                     rsvSize)
  {
    hide Moved;
    var n := h.totalsize;
    MovedWindow(m0, to, at, n, at + h.offRsv, at + h.offRsv + rsvSize);
    MovedWindow(m0, to, at, n, at + h.offStruct, at + h.offStruct + h.sizeStruct);
    MovedWindow(m0, to, at, n, at + h.offStrings, at + h.offStrings + h.sizeStrings);
  }

  lemma OpenedPacked(h: Header, m0: seq<byte>, at: nat, m1: seq<byte>, tmp: nat, to: nat, bufsize: nat, rsvSize: nat)
    requires NewSize(h, rsvSize) <= bufsize < INT32_MAX && to + bufsize <= |m1| == |m0|
    requires tmp + NewSize(h, rsvSize) <= |m1|
    requires SameBlocks(h, m0, at, PackedHeader(h, rsvSize), m1, tmp, rsvSize)
    ensures OpenedAs(h, m0, at, PackedHeader(h, rsvSize).(magic := FDT_MAGIC, totalsize := bufsize, version := 17,
                                                          lastComp := 16),
                   Moved(m1, to, tmp, NewSize(h, rsvSize)), to, bufsize, rsvSize)
  {
    hide Moved;
    var p, n := PackedHeader(h, rsvSize), NewSize(h, rsvSize);
    MovedWindow(m1, to, tmp, n, tmp + p.offRsv, tmp + p.offRsv + rsvSize);
    MovedWindow(m1, to, tmp, n, tmp + p.offStruct, tmp + p.offStruct + p.sizeStruct);
    MovedWindow(m1, to, tmp, n, tmp + p.offStrings, tmp + p.offStrings + p.sizeStrings);
  }

  // If the blob described a device tree, the opened one is well formed and holds the same tree and
  // the same reservations, in whatever order the blocks were.
  lemma OpenedSame(h: Header, mem: seq<byte>, at: nat, h': Header, mem': seq<byte>, to: nat, bufsize: nat, shape: Items)
    requires at + h.totalsize <= |mem| && Loose(h, mem[at..at + h.totalsize]) && to + bufsize <= |mem'|
    requires bufsize < INT32_MAX
    requires OpenedAs(h, mem, at, h', mem', to, bufsize, 16 * (RsvCount(mem[at..at + h.totalsize], h.offRsv).value + 1))
    requires h.offStruct + h.sizeStruct <= h.totalsize && h.offStrings + h.sizeStrings <= h.totalsize
    requires var w := mem[at..at + h.totalsize]; Describes(shape, StructOf(h, w), StringsOf(h, w))
    ensures var w, im := mem[at..at + h.totalsize], Image(h', mem'[to..to + bufsize], shape);
            && im.Valid() && im.Tree() == Kids(shape, StringsOf(h, w))
            && Reserved(im) == RsvList(w, h.offRsv)
  {
    hide Describes, RsvCount, RsvList, Kids, HeaderCheck, OpenedAs, StructOf, StringsOf;
    var w, w' := mem[at..at + h.totalsize], mem'[to..to + bufsize];
    var n := 16 * (RsvCount(w, h.offRsv).value + 1);
    LooseFits(h, w);
    OpenedWindows(h, mem, at, h', mem', to, bufsize, n);
    SliceSlice(w', 0, h'.offStruct, h'.offRsv, h'.offRsv + n);
    RsvWindow(w, h.offRsv, w'[..h'.offStruct], h'.offRsv);
  }

  lemma OpenedWindows(h: Header, mem: seq<byte>, at: nat, h': Header, mem': seq<byte>, to: nat, bufsize: nat, n: nat)
    requires at + h.totalsize <= |mem| && to + bufsize <= |mem'| && bufsize < INT32_MAX
    requires OpenedAs(h, mem, at, h', mem', to, bufsize, n)
    requires h.offRsv + n <= h.totalsize && h.offStruct + h.sizeStruct <= h.totalsize
    requires h.offStrings + h.sizeStrings <= h.totalsize
    ensures var w, w' := mem[at..at + h.totalsize], mem'[to..to + bufsize];
            && OrderedIn(h', |w'|) && h'.magic == FDT_MAGIC && h'.version == 17 && h'.lastComp <= LAST_SUPPORTED_VERSION
            && h'.offRsv + n <= h'.offStruct
            && StructOf(h', w') == StructOf(h, w) && StringsOf(h', w') == StringsOf(h, w)
            && w'[h'.offRsv..h'.offRsv + n] == w[h.offRsv..h.offRsv + n]
  {
    hide SameBlocks;
    OpenedBlocks(h, mem, at, h', mem', to, bufsize, n);
    SameInside(mem, at, h.totalsize, mem', to, bufsize, h.offStruct, h'.offStruct, h.sizeStruct);
    SameInside(mem, at, h.totalsize, mem', to, bufsize, h.offStrings, h'.offStrings, h.sizeStrings);
    SameInside(mem, at, h.totalsize, mem', to, bufsize, h.offRsv, h'.offRsv, n);
  }

  lemma OpenedBlocks(h: Header, mem: seq<byte>, at: nat, h': Header, mem': seq<byte>, to: nat, bufsize: nat, n: nat)
    requires at + h.totalsize <= |mem| && to + bufsize <= |mem'|
    requires OpenedAs(h, mem, at, h', mem', to, bufsize, n)
    requires h.offRsv + n <= h.totalsize && h.offStruct + h.sizeStruct <= h.totalsize
    requires h.offStrings + h.sizeStrings <= h.totalsize
    ensures h'.sizeStruct == h.sizeStruct && h'.sizeStrings == h.sizeStrings
    ensures mem'[to + h'.offStruct..to + h'.offStruct + h.sizeStruct]
         == mem[at + h.offStruct..at + h.offStruct + h.sizeStruct]
    ensures mem'[to + h'.offStrings..to + h'.offStrings + h.sizeStrings]
         == mem[at + h.offStrings..at + h.offStrings + h.sizeStrings]
    ensures mem'[to + h'.offRsv..to + h'.offRsv + n] == mem[at + h.offRsv..at + h.offRsv + n]
  {
  }

  // A window of a buffer, seen from its start.
  lemma SameInside(mem: seq<byte>, at: nat, size: nat, mem': seq<byte>, to: nat, size': nat, x: nat, x': nat, n: nat)
    requires at + size <= |mem| && to + size' <= |mem'| && x + n <= size && x' + n <= size'
    requires mem'[to + x'..to + x' + n] == mem[at + x..at + x + n]
    ensures mem'[to..to + size'][x'..x' + n] == mem[at..at + size][x..x + n]
  {
    SliceSlice(mem, at, at + size, x, x + n);
    SliceSlice(mem', to, to + size', x', x' + n);
  }
}
