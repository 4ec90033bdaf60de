// fdt_splice_ and its three callers: opening and closing gaps in the blob (fdt_rw.c). A gap
// keeps the blocks around it, and the bytes of the structure block in front of it and
// behind it.
module Splicing {
  import opened Bytes
  import opened Memory
  import opened Blobs

  // fdt_data_size_
  function DataSize(h: Header): nat {
    h.offStrings + h.sizeStrings
  }

  lemma SumFits(a: nat, b: nat)
    requires a + b < 0x1_0000_0000
    ensures Add32(a, b) == a + b
  {
  }

  // fdt_splice_ at buffer offset soff
  method SpliceBytes(fdt: Blob, soff: nat, oldlen: nat, newlen: nat) returns (r: Result<()>)
    requires fdt.Ordered()
    requires soff <= INT32_MAX && oldlen <= INT32_MAX && newlen <= INT32_MAX
    modifies fdt.buf
    ensures soff + oldlen > DataSize(fdt.hdr) ==> r == Failure(BadOffset)
    ensures soff + oldlen <= DataSize(fdt.hdr) ==>
              r == if DataSize(fdt.hdr) - oldlen + newlen <= fdt.hdr.totalsize then Success(()) else Failure(NoSpace)
    ensures r.Failure? ==> fdt.buf[..] == old(fdt.buf[..])
    ensures r.Success? ==>
              fdt.buf[..] == Moved(old(fdt.buf[..]), soff + newlen, soff + oldlen, DataSize(fdt.hdr) - (soff + oldlen))
  {
    hide Moved, Add32;
    SumFits(fdt.hdr.offStrings, fdt.hdr.sizeStrings);
    SumFits(DataSize(fdt.hdr), newlen);
    if oldlen <= DataSize(fdt.hdr) {
      SumFits(DataSize(fdt.hdr) - oldlen, newlen);
    }
    var dsize := Add32(fdt.hdr.offStrings, fdt.hdr.sizeStrings);
    if soff + oldlen > dsize {
      return Failure(BadOffset);
    }
    if Add32(dsize, newlen) < oldlen {
      return Failure(BadOffset);
    }
    if Add32(dsize - oldlen, newlen) > fdt.hdr.totalsize {
      return Failure(NoSpace);
    }
    Memmove(fdt.buf, soff + newlen, soff + oldlen, dsize - (soff + oldlen));
    return Success(());
  }

  function Min(a: nat, b: nat): nat {
    if a < b then a else b
  }

  // The header after the structure block has changed its size.
  function StructResized(h: Header, oldlen: nat, newlen: nat): Header
    requires oldlen <= h.sizeStruct && h.offStruct + h.sizeStruct <= h.offStrings
    requires h.sizeStruct - oldlen + newlen < 0x1_0000_0000 && h.offStrings - oldlen + newlen < 0x1_0000_0000
  {
    h.(sizeStruct := h.sizeStruct - oldlen + newlen, offStrings := h.offStrings - oldlen + newlen)
  }

  // What a successful fdt_splice_struct_ leaves: the blocks around the gap are as before,
  // and so are the bytes in front of and behind the replaced part of the structure block.
  ghost predicate StructSpliced(h: Header, mem: seq<byte>, h': Header, mem': seq<byte>, p: nat, oldlen: nat,
                                newlen: nat) {
    && OrderedIn(h, |mem|)
    && p + oldlen <= h.sizeStruct
    && h.sizeStruct - oldlen + newlen < 0x1_0000_0000 && h.offStrings - oldlen + newlen < 0x1_0000_0000
    && h' == StructResized(h, oldlen, newlen)
    && |mem'| == |mem|
    && OrderedIn(h', |mem'|)
    && HeadOf(h', mem') == HeadOf(h, mem)
    && StringsOf(h', mem') == StringsOf(h, mem)
    && StructOf(h', mem')[..p + Min(oldlen, newlen)] == StructOf(h, mem)[..p + Min(oldlen, newlen)]
    && StructOf(h', mem')[p + newlen..] == StructOf(h, mem)[p + oldlen..]
  }

  lemma SplicedSize(h: Header, mem: seq<byte>, h': Header, mem': seq<byte>, p: nat, oldlen: nat, newlen: nat)
    requires StructSpliced(h, mem, h', mem', p, oldlen, newlen)
    ensures DataSize(h') == DataSize(h) - oldlen + newlen && h'.totalsize == h.totalsize
  {
  }

  // fdt_splice_struct_ at structure offset p
  method SpliceStruct(fdt: Blob, p: nat, oldlen: nat, newlen: nat) returns (r: Result<()>)
    requires fdt.Ordered() && p + oldlen <= fdt.hdr.sizeStruct && newlen <= INT32_MAX
    modifies fdt`hdr, fdt.buf
    ensures r == if DataSize(old(fdt.hdr)) - oldlen + newlen <= old(fdt.hdr).totalsize then Success(())
            else Failure(NoSpace)
    ensures r.Failure? ==> fdt.hdr == old(fdt.hdr) && fdt.buf[..] == old(fdt.buf[..])
    ensures r.Success? ==>
              StructSpliced(old(fdt.hdr), old(fdt.buf[..]), fdt.hdr, fdt.buf[..], p, oldlen, newlen)
  {
    hide StructSpliced, Moved;
    var h := fdt.hdr;
    ghost var mem := fdt.buf[..];
    r := SpliceBytes(fdt, h.offStruct + p, oldlen, newlen);
    if r.Failure? {
      return;
    }
    fdt.hdr := h.(sizeStruct := h.sizeStruct + newlen - oldlen, offStrings := h.offStrings + newlen - oldlen);
    StructMoved(h, mem, fdt.buf[..], p, oldlen, newlen);
  }

  lemma StructMoved(h: Header, mem: seq<byte>, mem': seq<byte>, p: nat, oldlen: nat, newlen: nat)
    requires OrderedIn(h, |mem|) && p + oldlen <= h.sizeStruct && newlen <= INT32_MAX
    requires DataSize(h) - oldlen + newlen <= h.totalsize
    requires mem' == Moved(mem, h.offStruct + p + newlen, h.offStruct + p + oldlen,
                           DataSize(h) - (h.offStruct + p + oldlen))
    ensures StructSpliced(h, mem, StructResized(h, oldlen, newlen), mem', p, oldlen, newlen)
  {
    hide Moved, HeadOf, StructOf, StringsOf;
    AroundGap(h, mem, mem', p, oldlen, newlen);
    BesideGap(h, mem, mem', p, oldlen, newlen);
  }

  // The blocks in front of the structure block and behind it.
  lemma AroundGap(h: Header, mem: seq<byte>, mem': seq<byte>, p: nat, oldlen: nat, newlen: nat)
    requires OrderedIn(h, |mem|) && p + oldlen <= h.sizeStruct && newlen <= INT32_MAX
    requires DataSize(h) - oldlen + newlen <= h.totalsize
    requires mem' == Moved(mem, h.offStruct + p + newlen, h.offStruct + p + oldlen,
                           DataSize(h) - (h.offStruct + p + oldlen))
    ensures var h' := StructResized(h, oldlen, newlen);
            && OrderedIn(h', |mem'|) && |mem'| == |mem|
            && HeadOf(h', mem') == HeadOf(h, mem) && StringsOf(h', mem') == StringsOf(h, mem)
  {
    hide Moved;
    var o := h.offStruct;
    var dest, src, n := o + p + newlen, o + p + oldlen, DataSize(h) - (o + p + oldlen);
    MovedBelow(mem, dest, src, n, 0, o);
    MovedWindow(mem, dest, src, n, h.offStrings, DataSize(h));
  }

  // The structure block in front of the gap and behind it.
  lemma BesideGap(h: Header, mem: seq<byte>, mem': seq<byte>, p: nat, oldlen: nat, newlen: nat)
    requires OrderedIn(h, |mem|) && p + oldlen <= h.sizeStruct && newlen <= INT32_MAX
    requires DataSize(h) - oldlen + newlen <= h.totalsize
    requires mem' == Moved(mem, h.offStruct + p + newlen, h.offStruct + p + oldlen,
                           DataSize(h) - (h.offStruct + p + oldlen))
    requires OrderedIn(StructResized(h, oldlen, newlen), |mem'|)
    ensures var st, st' := StructOf(h, mem), StructOf(StructResized(h, oldlen, newlen), mem');
            && p + Min(oldlen, newlen) <= |st| && p + Min(oldlen, newlen) <= |st'| && p + newlen <= |st'|
            && p + oldlen <= |st|
            && st'[..p + Min(oldlen, newlen)] == st[..p + Min(oldlen, newlen)]
            && st'[p + newlen..] == st[p + oldlen..]
  {
    hide Moved;
    FrontOfGap(h, mem, mem', p, oldlen, newlen);
    BackOfGap(h, mem, mem', p, oldlen, newlen);
  }

  lemma FrontOfGap(h: Header, mem: seq<byte>, mem': seq<byte>, p: nat, oldlen: nat, newlen: nat)
    requires OrderedIn(h, |mem|) && p + oldlen <= h.sizeStruct && newlen <= INT32_MAX
    requires DataSize(h) - oldlen + newlen <= h.totalsize
    requires mem' == Moved(mem, h.offStruct + p + newlen, h.offStruct + p + oldlen,
                           DataSize(h) - (h.offStruct + p + oldlen))
    ensures var o, m, len := h.offStruct, p + Min(oldlen, newlen), h.sizeStruct - oldlen + newlen;
            o + len <= |mem'| && mem'[o..o + len][..m] == mem[o..o + h.sizeStruct][..m]
  {
    hide Moved;
    var o := h.offStruct;
    var m := Min(oldlen, newlen);
    var len := h.sizeStruct - oldlen + newlen;
    MovedBelow(mem, o + p + newlen, o + p + oldlen, DataSize(h) - (o + p + oldlen), o, o + p + m);
    SliceSlice(mem, o, o + h.sizeStruct, 0, p + m);
    SliceSlice(mem', o, o + len, 0, p + m);
  }

  lemma BackOfGap(h: Header, mem: seq<byte>, mem': seq<byte>, p: nat, oldlen: nat, newlen: nat)
    requires OrderedIn(h, |mem|) && p + oldlen <= h.sizeStruct && newlen <= INT32_MAX
    requires DataSize(h) - oldlen + newlen <= h.totalsize
    requires mem' == Moved(mem, h.offStruct + p + newlen, h.offStruct + p + oldlen,
                           DataSize(h) - (h.offStruct + p + oldlen))
    ensures var o, len := h.offStruct, h.sizeStruct - oldlen + newlen;
            o + len <= |mem'| && mem'[o..o + len][p + newlen..] == mem[o..o + h.sizeStruct][p + oldlen..]
  {
    hide Moved;
    var o := h.offStruct;
    var len := h.sizeStruct - oldlen + newlen;
    MovedWindow(mem, o + p + newlen, o + p + oldlen, DataSize(h) - (o + p + oldlen), o + p + oldlen, o + h.sizeStruct);
    SliceSlice(mem, o, o + h.sizeStruct, p + oldlen, h.sizeStruct);
    SliceSlice(mem', o, o + len, p + newlen, len);
  }

  // fdt_splice_string_ followed by the copy of the string
  method AppendString(fdt: Blob, s: seq<byte>) returns (r: Result<()>)
    requires fdt.Ordered() && |s| < INT32_MAX
    modifies fdt`hdr, fdt.buf
    ensures r == if DataSize(old(fdt.hdr)) + |s| + 1 <= fdt.hdr.totalsize then Success(()) else Failure(NoSpace)
    ensures r.Failure? ==> fdt.hdr == old(fdt.hdr) && fdt.buf[..] == old(fdt.buf[..])
    ensures r.Success? ==>
              && old(fdt.hdr.sizeStrings) + |s| + 1 < 0x1_0000_0000
              && fdt.hdr == old(fdt.hdr).(sizeStrings := old(fdt.hdr.sizeStrings) + |s| + 1)
              && fdt.Ordered()
              && fdt.buf[..DataSize(old(fdt.hdr))] == old(fdt.buf[..DataSize(fdt.hdr)])
              && fdt.StringsBlock() == old(fdt.StringsBlock()) + (s + [0])
  {
    hide Moved, Stored;
    var h := fdt.hdr;
    ghost var mem := fdt.buf[..];
    r := SpliceBytes(fdt, DataSize(h), 0, |s| + 1);
    if r.Failure? {
      return;
    }
    fdt.hdr := h.(sizeStrings := h.sizeStrings + |s| + 1);
    ghost var mid := fdt.buf[..];
    Memcpy(fdt.buf, DataSize(h), s + [0]);
    GapThenString(mem, mid, h.offStrings, DataSize(h), s + [0]);
  }

  // Nothing below the gap at the end has changed, and the data is in it.
  lemma GapThenString(mem: seq<byte>, mid: seq<byte>, base: nat, top: nat, data: seq<byte>)
    requires base <= top && top + |data| <= |mem| && mid == Moved(mem, top + |data|, top, 0)
    ensures Stored(mid, top, data)[..top] == mem[..top]
    ensures Stored(mid, top, data)[base..top + |data|] == mem[base..top] + data
  {
    hide Moved, Stored;
    MovedNothing(mem, top + |data|, top);
    StringStored(mem, base, top, data);
  }

  lemma MovedNothing(mem: seq<byte>, dest: nat, src: nat)
    requires dest <= |mem| && src <= |mem|
    ensures Moved(mem, dest, src, 0) == mem
  {
  }

  lemma StringStored(mem: seq<byte>, base: nat, top: nat, data: seq<byte>)
    requires base <= top && top + |data| <= |mem|
    ensures Stored(mem, top, data)[..top] == mem[..top]
    ensures Stored(mem, top, data)[base..top + |data|] == mem[base..top] + data
    ensures mem[..top][base..] == mem[base..top]
  {
  }
}
