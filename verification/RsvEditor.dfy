// Editing the memory reservation block:
// fdt_add_mem_rsv and fdt_del_mem_rsv (fdt_rw.c).
module RsvEditor {
  import opened Bytes
  import opened Tokens
  import opened Structure
  import opened Memory
  import opened Blobs
  import opened Splicing
  import opened Editor
  import opened Reservations
  import opened Check
  import opened Writer
  import opened Packing

  // The bytes of a list ------------------------------------------------------------------------------

  lemma PutGet64(s: seq<byte>, i: nat)
    requires i + 8 <= |s|
    ensures Put64(Get64(s, i)) == s[i..i + 8]
  {
    hide Put32, Get32;
    PutGet32(s, i);
    PutGet32(s, i + 4);
    HighLow(Get32(s, i), Get32(s, i + 4));
    assert s[i..i + 8] == s[i..i + 4] + s[i + 4..i + 8];
  }

  lemma HighLow(hi: u32, lo: u32)
    ensures (hi * 0x1_0000_0000 + lo) / 0x1_0000_0000 == hi && (hi * 0x1_0000_0000 + lo) % 0x1_0000_0000 == lo
  {
  }

  lemma EntryAt(s: seq<byte>, off: nat)
    requires off + 16 <= |s|
    ensures At(s, off, Reservation(Get64(s, off), Get64(s, off + 8)).Enc())
  {
    hide Put64, Get64;
    PutGet64(s, off);
    PutGet64(s, off + 8);
    assert s[off..off + 16] == s[off..off + 8] + s[off + 8..off + 16];
  }

  // The list at off is spelled out there, with a terminator behind it.
  lemma {:induction false} RsvSpelled(s: seq<byte>, off: nat) returns (last: Reservation)
    requires RsvList(s, off).Some?
    ensures last.size == 0 && At(s, off, EncRsv(RsvList(s, off).value) + last.Enc())
    ensures UpToZero(RsvList(s, off).value) == RsvList(s, off).value
    decreases |s| - off
  {
    hide At, Get64, Reservation.Enc;
    var e := Reservation(Get64(s, off), Get64(s, off + 8));
    EntryAt(s, off);
    if e.size == 0 {
      last := e;
      assert EncRsv([]) + last.Enc() == last.Enc();
    } else {
      last := RsvSpelled(s, off + 16);
      var es := RsvList(s, off + 16).value;
      assert ([e] + es)[1..] == es;
      AtConcat(s, off, e.Enc(), EncRsv(es) + last.Enc());
      Regroup3(e.Enc(), EncRsv(es), last.Enc());
    }
  }

  lemma Regroup3<T>(a: seq<T>, b: seq<T>, c: seq<T>)
    ensures a + (b + c) == (a + b) + c
  {
  }

  lemma {:induction false} EncRsvConcat(a: seq<Reservation>, b: seq<Reservation>)
    ensures EncRsv(a + b) == EncRsv(a) + EncRsv(b)
    decreases |a|
  {
    hide Reservation.Enc;
    if a == [] {
      assert a + b == b;
    } else {
      assert (a + b)[1..] == a[1..] + b;
      EncRsvConcat(a[1..], b);
    }
  }

  // Replacing entries by others replaces their bytes.
  lemma RsvReplaced(s: seq<byte>, off: nat, k: nat, m: nat, mid: seq<Reservation>)
    requires RsvList(s, off).Some? && k <= m <= |RsvList(s, off).value|
    ensures off + 16 * m <= |s|
    ensures var es := RsvList(s, off).value;
            RsvList(Splice(s, off + 16 * k, off + 16 * m, EncRsv(mid)), off) == Some(UpToZero(es[..k] + mid + es[m..]))
  {
    hide At, RsvList, Reservation.Enc, EncRsv, UpToZero;
    var es := RsvList(s, off).value;
    var last := RsvSpelled(s, off);
    AtInside(s, off, EncRsv(es) + last.Enc());
    var s' := Splice(s, off + 16 * k, off + 16 * m, EncRsv(mid));
    var a, b, c := EncRsv(es[..k]), EncRsv(es[k..m]), EncRsv(es[m..]) + last.Enc();
    assert es == es[..k] + (es[k..m] + es[m..]);
    EncRsvConcat(es[..k], es[k..m] + es[m..]);
    EncRsvConcat(es[k..m], es[m..]);
    Regroup3(b, EncRsv(es[m..]), last.Enc());
    Regroup3(a, b + EncRsv(es[m..]), last.Enc());
    AtSpliced(s, off, a, b, c, EncRsv(mid));
    EncRsvConcat(es[..k] + mid, es[m..]);
    EncRsvConcat(es[..k], mid);
    Regroup3(a + EncRsv(mid), EncRsv(es[m..]), last.Enc());
    Regroup3(a, EncRsv(mid), c);
    RsvRoundTrip(s', off, es[..k] + mid + es[m..], last);
  }

  lemma AtSpliced<T>(s: seq<T>, off: nat, a: seq<T>, b: seq<T>, c: seq<T>, mid: seq<T>)
    requires At(s, off, a + (b + c))
    ensures off + |a| + |b| <= |s|
    ensures At(Splice(s, off + |a|, off + |a| + |b|, mid), off, a + (mid + c))
  {
    AtMiddle(s, off, a, b, c);
    AtConcat(s, off, a, b + c);
    AtConcat(s, off + |a|, b, c);
    var s' := Splice(s, off + |a|, off + |a| + |b|, mid);
    var p := off + |a| + |b|;
    assert s'[off..off + |a|] == s[off..off + |a|];
    assert s'[off + |a|..off + |a| + |mid|] == mid;
    assert s'[off + |a| + |mid|..off + |a| + |mid| + |c|] == s[p..p + |c|];
    AtConcat(s', off, a, mid + c);
    AtConcat(s', off + |a|, mid, c);
  }

  // fdt_splice_mem_rsv_ --------------------------------------------------------------------------------

  // Header words after entries have been put in or taken out.
  function RsvResized(h: Header, oldlen: nat, newlen: nat): Header
    requires oldlen <= h.offStruct && oldlen <= h.offStrings
    requires h.offStruct - oldlen + newlen < 0x1_0000_0000 && h.offStrings - oldlen + newlen < 0x1_0000_0000
  {
    h.(offStruct := h.offStruct - oldlen + newlen, offStrings := h.offStrings - oldlen + newlen)
  }

  // The two blocks behind the reservations have moved, and no other header word has changed.
  predicate RsvMovedBy(h: Header, h': Header, d: int) {
    && h' == h.(offStruct := h'.offStruct, offStrings := h'.offStrings)
    && h'.offStruct == h.offStruct + d && h'.offStrings == h.offStrings + d
  }

  // The blocks behind the reservations are as before, and so are the bytes around the gap.
  ghost predicate RsvSpliced(h: Header, mem: seq<byte>, h': Header, mem': seq<byte>, p: nat, oldlen: nat, newlen: nat) {
    && OrderedIn(h, |mem|) && p + oldlen <= h.offStruct
    && h.offStruct - oldlen + newlen < 0x1_0000_0000 && h.offStrings - oldlen + newlen < 0x1_0000_0000
    && h' == RsvResized(h, oldlen, newlen) && |mem'| == |mem| && OrderedIn(h', |mem'|)
    && StructOf(h', mem') == StructOf(h, mem) && StringsOf(h', mem') == StringsOf(h, mem)
    && mem'[..p] == mem[..p]
    && mem'[p + newlen..h'.offStruct] == mem[p + oldlen..h.offStruct]
  }

  method SpliceRsv(fdt: Blob, p: nat, oldlen: nat, newlen: nat) returns (r: Result<()>)
    requires fdt.Ordered() && fdt.hdr.offRsv <= p && p + oldlen <= fdt.hdr.offStruct && newlen <= INT32_MAX
    modifies fdt`hdr, fdt.buf
    ensures r == if DataSize(old(fdt.hdr)) - oldlen + newlen <= old(fdt.hdr).totalsize then Success(())
            else Failure(NoSpace)
    ensures r.Failure? ==> fdt.hdr == old(fdt.hdr) && fdt.buf[..] == old(fdt.buf[..])
    ensures r.Success? ==> RsvSpliced(old(fdt.hdr), old(fdt.buf[..]), fdt.hdr, fdt.buf[..], p, oldlen, newlen)
  {
    hide RsvSpliced, Moved;
    var h := fdt.hdr;
    ghost var mem := fdt.buf[..];
    r := SpliceBytes(fdt, p, oldlen, newlen);
    if r.Failure? {
      return;
    }
    fdt.hdr := h.(offStruct := h.offStruct + newlen - oldlen, offStrings := h.offStrings + newlen - oldlen);
    RsvMoved(h, mem, p, oldlen, newlen);
  }

  lemma RsvMoved(h: Header, mem: seq<byte>, p: nat, oldlen: nat, newlen: nat)
    requires OrderedIn(h, |mem|) && h.offRsv <= p && p + oldlen <= h.offStruct && newlen <= INT32_MAX
    requires DataSize(h) - oldlen + newlen <= h.totalsize
    ensures RsvSpliced(h, mem, RsvResized(h, oldlen, newlen),
                       Moved(mem, p + newlen, p + oldlen, DataSize(h) - (p + oldlen)), p, oldlen, newlen)
  {
    hide Moved;
    var dest, src, n := p + newlen, p + oldlen, DataSize(h) - (p + oldlen);
    MovedBelow(mem, dest, src, n, 0, p);
    MovedWindow(mem, dest, src, n, src, h.offStruct);
    MovedWindow(mem, dest, src, n, h.offStruct, h.offStruct + h.sizeStruct);
    MovedWindow(mem, dest, src, n, h.offStrings, DataSize(h));
  }

  // The reservations are now es; the device tree is the same.
  ghost predicate RsvEdited(before: Image, after: Image, es: seq<Reservation>) {
    && before.Valid() && after.Valid() && after.shape == before.shape
    && after.Tree() == before.Tree()
    && Reserved(after) == Some(es)
  }

  lemma RsvDone(before: Image, after: Image, k: nat, m: nat, mid: seq<Reservation>)
    requires before.Valid() && Reserved(before).Some? && k <= m <= |Reserved(before).value|
    requires OrderedIn(after.hdr, |after.mem|) && after.shape == before.shape
    requires after.hdr == before.hdr.(offStruct := after.hdr.offStruct, offStrings := after.hdr.offStrings)
    requires StructOf(after.hdr, after.mem) == StructOf(before.hdr, before.mem)
    requires StringsOf(after.hdr, after.mem) == StringsOf(before.hdr, before.mem)
    requires before.hdr.offRsv + 16 * m <= before.hdr.offStruct
    requires HeadOf(after.hdr, after.mem)
          == Splice(HeadOf(before.hdr, before.mem), before.hdr.offRsv + 16 * k, before.hdr.offRsv + 16 * m, EncRsv(mid))
    ensures var es := Reserved(before).value; RsvEdited(before, after, UpToZero(es[..k] + mid + es[m..]))
  {
    hide Describes, RsvCount, RsvList, UpToZero, EncRsv, StructOf, StringsOf, HeadOf, Kids, Splice;
    RsvReplaced(HeadOf(before.hdr, before.mem), before.hdr.offRsv, k, m, mid);
    RsvListCount(HeadOf(after.hdr, after.mem), after.hdr.offRsv);
  }

  lemma ReservedOf(im: Image)
    requires im.Valid()
    ensures RsvCount(im.mem[..im.hdr.totalsize], im.hdr.offRsv).Some?
    ensures Reserved(im).Some? && |Reserved(im).value| == RsvCount(im.mem[..im.hdr.totalsize], im.hdr.offRsv).value
    ensures im.hdr.offRsv + 16 * (|Reserved(im).value| + 1) <= im.hdr.offStruct
    ensures UpToZero(Reserved(im).value) == Reserved(im).value
  {
    hide Describes, RsvCount, RsvList, UpToZero;
    PackFits(im);
    RsvSizeFits(im);
    RsvListCount(HeadOf(im.hdr, im.mem), im.hdr.offRsv);
    var last := RsvSpelled(HeadOf(im.hdr, im.mem), im.hdr.offRsv);
  }

  // fdt_add_mem_rsv: an entry of size 0 is stored but ends the list, so it is not in it.
  method AddMemRsv(fdt: Blob, address: u64, size: u64) returns (r: Result<()>)
    requires RwProbe(fdt.hdr).Success? ==> fdt.Valid()
    modifies fdt`hdr, fdt.buf
    ensures RwProbe(old(fdt.hdr)).Failure? ==> r == Failure(RwProbe(old(fdt.hdr)).error)
    ensures RwProbe(old(fdt.hdr)).Success? ==>
              r == if DataSize(old(fdt.hdr)) + 16 <= old(fdt.hdr).totalsize then Success(()) else Failure(NoSpace)
    ensures r.Failure? ==> fdt.hdr == old(fdt.hdr) && fdt.buf[..] == old(fdt.buf[..])
    ensures r.Success? ==>
              && old(fdt.Valid()) && old(Reserved(fdt.Img())).Some?
              && RsvEdited(old(fdt.Img()), fdt.Img(),
                           old(Reserved(fdt.Img())).value + (if size == 0 then [] else [Reservation(address, size)]))
              && RsvMovedBy(old(fdt.hdr), fdt.hdr, 16)
              && EntryHere(fdt.buf[..], old(fdt.hdr.offRsv) + 16 * |old(Reserved(fdt.Img())).value|, address, size)
  {
    hide EntryHere, RwProbe, Image.Valid, RsvCount, Reserved, RsvEdited, RsvSpliced, UpToZero, Put64, Stored;
    var probe := RwProbe(fdt.hdr);
    if probe.Failure? {
      return Failure(probe.error);
    }
    ghost var im := fdt.Img();
    var h := fdt.hdr;
    ReservedOf(im);
    ValidOrdered(im);
    assert fdt.buf[0..0 + h.totalsize] == fdt.buf[..][..h.totalsize];
    var num := NumMemRsv(fdt.buf, 0, h);
    var re := h.offRsv + 16 * num.value;
    r := SpliceRsv(fdt, re, 0, 16);
    if r.Failure? {
      return;
    }
    ghost var gap := fdt.buf[..];
    RsvSplicedFits(h, im.mem, fdt.hdr, gap, re, 0, 16);
    Memcpy(fdt.buf, re, Put64(address));
    ghost var mid := fdt.buf[..];
    Memcpy(fdt.buf, re + 8, Put64(size));
    AddedRsv(im, fdt.Img(), gap, mid, num.value, Reservation(address, size));
    EntryWritten(gap, re, Reservation(address, size));
    return Success(());
  }

  lemma ValidOrdered(im: Image)
    requires im.Valid()
    ensures OrderedIn(im.hdr, |im.mem|)
  {
  }

  lemma RsvSplicedFits(h: Header, mem: seq<byte>, h': Header, mem': seq<byte>, p: nat, oldlen: nat, newlen: nat)
    requires RsvSpliced(h, mem, h', mem', p, oldlen, newlen)
    ensures |mem'| == |mem| && p + newlen <= |mem'| && RsvMovedBy(h, h', newlen - oldlen)
  {
  }

  lemma AddedRsv(before: Image, after: Image, gap: seq<byte>, mid: seq<byte>, n: nat, e: Reservation)
    requires before.Valid() && Reserved(before).Some? && |Reserved(before).value| == n && after.shape == before.shape
    requires UpToZero(Reserved(before).value) == Reserved(before).value
    requires var p := before.hdr.offRsv + 16 * n;
             && RsvSpliced(before.hdr, before.mem, after.hdr, gap, p, 0, 16) && p + 16 <= |gap|
             && mid == Stored(gap, p, Put64(e.address)) && after.mem == Stored(mid, p + 8, Put64(e.size))
    ensures RsvEdited(before, after, Reserved(before).value + if e.size == 0 then [] else [e])
  {
    hide Image.Valid, RsvCount, Reserved, RsvEdited, UpToZero, Put64, EncRsv, Stored;
    var p := before.hdr.offRsv + 16 * n;
    var es := Reserved(before).value;
    EntryBytes(before, after, gap, mid, p, e);
    assert EncRsv([e]) == e.Enc() by { OneEntry(e); }
    RsvDone(before, after, n, n, [e]);
    assert es[..n] + [e] + es[n..] == es + [e];
    UpToZeroSnoc(es, e);
  }

  lemma OneEntry(e: Reservation)
    ensures EncRsv([e]) == e.Enc()
  {
    assert [e][1..] == [] && EncRsv([]) == [];
  }

  lemma EntryBytes(before: Image, after: Image, gap: seq<byte>, mid: seq<byte>, p: nat, e: Reservation)
    requires OrderedIn(before.hdr, |before.mem|) && before.hdr.offRsv <= p
    requires RsvSpliced(before.hdr, before.mem, after.hdr, gap, p, 0, 16) && p + 16 <= |gap|
    requires mid == Stored(gap, p, Put64(e.address)) && after.mem == Stored(mid, p + 8, Put64(e.size))
    ensures OrderedIn(after.hdr, |after.mem|)
    ensures StructOf(after.hdr, after.mem) == StructOf(before.hdr, before.mem)
    ensures StringsOf(after.hdr, after.mem) == StringsOf(before.hdr, before.mem)
    ensures p <= before.hdr.offStruct
    ensures HeadOf(after.hdr, after.mem) == Splice(HeadOf(before.hdr, before.mem), p, p, e.Enc())
  {
    hide Put64, Stored;
    var h, h' := before.hdr, after.hdr;
    EntryAround(gap, p, e, h'.offStruct, h'.offStruct + h'.sizeStruct);
    EntryAround(gap, p, e, h'.offStrings, h'.offStrings + h'.sizeStrings);
    EntryAround(gap, p, e, p + 16, h'.offStruct);
    EntryAround(gap, p, e, 0, p);
    HeadParts(before.mem, after.mem, p, h.offStruct, Put64(e.address), Put64(e.size));
  }

  // Storing an entry leaves a window beside it alone.
  lemma EntryAround(gap: seq<byte>, p: nat, e: Reservation, x: nat, y: nat)
    requires p + 16 <= |gap| && x <= y <= |gap| && (y <= p || p + 16 <= x)
    ensures var mem' := Stored(Stored(gap, p, Put64(e.address)), p + 8, Put64(e.size));
            && mem'[x..y] == gap[x..y]
            && mem'[p..p + 8] == Put64(e.address) && mem'[p + 8..p + 16] == Put64(e.size)
  {
    hide Put64, Stored;
    var a, b := Put64(e.address), Put64(e.size);
    var mid := Stored(gap, p, a);
    StoredBeside(gap, p, a, x, y);
    StoredBeside(mid, p + 8, b, x, y);
    StoredWindow(gap, p, a);
    StoredBeside(mid, p + 8, b, p, p + 8);
    StoredWindow(mid, p + 8, b);
  }

  lemma HeadParts(mem: seq<byte>, mem': seq<byte>, p: nat, top: nat, a: seq<byte>, b: seq<byte>)
    requires |a| == |b| == 8 && p <= top <= |mem| && top + 16 <= |mem'|
    requires mem'[..p] == mem[..p] && mem'[p..p + 8] == a && mem'[p + 8..p + 16] == b
    requires mem'[p + 16..top + 16] == mem[p..top]
    ensures mem'[..top + 16] == Splice(mem[..top], p, p, a + b)
  {
    var s := mem'[..top + 16];
    assert s == s[..p] + (s[p..p + 8] + s[p + 8..p + 16]) + s[p + 16..];
    assert mem[..top][..p] == mem[..p] && mem[..top][p..] == mem[p..top];
  }

  lemma {:induction false} UpToZeroSnoc(es: seq<Reservation>, e: Reservation)
    requires UpToZero(es) == es
    ensures UpToZero(es + [e]) == es + if e.size == 0 then [] else [e]
  {
    var all := es + [e];
    if e.size != 0 {
      assert forall k :: 0 <= k < |all| ==> all[k].size != 0;
    } else {
      ZeroEnds(es, e);
    }
  }

  lemma {:induction false} ZeroEnds(es: seq<Reservation>, e: Reservation)
    requires e.size == 0 && forall k :: 0 <= k < |es| ==> es[k].size != 0
    ensures UpToZero(es + [e]) == es
  {
    if es != [] {
      assert (es + [e])[1..] == es[1..] + [e];
      ZeroEnds(es[1..], e);
    }
  }

  // fdt_del_mem_rsv
  method DelMemRsv(fdt: Blob, n: nat) returns (r: Result<()>)
    requires RwProbe(fdt.hdr).Success? ==> fdt.Valid()
    modifies fdt`hdr, fdt.buf
    ensures RwProbe(old(fdt.hdr)).Failure? ==> r == Failure(RwProbe(old(fdt.hdr)).error)
    ensures RwProbe(old(fdt.hdr)).Success? ==>
              && old(fdt.Valid()) && old(Reserved(fdt.Img())).Some?
              && r == if n >= |old(Reserved(fdt.Img())).value| then Failure(NotFound) else Success(())
    ensures r.Failure? ==> fdt.hdr == old(fdt.hdr) && fdt.buf[..] == old(fdt.buf[..])
    ensures r.Success? ==>
              var es := old(Reserved(fdt.Img())).value;
              && n < |es| && RsvEdited(old(fdt.Img()), fdt.Img(), es[..n] + es[n + 1..])
              && RsvMovedBy(old(fdt.hdr), fdt.hdr, -16)
  {
    hide RwProbe, Image.Valid, RsvCount, Reserved, RsvEdited, RsvSpliced, UpToZero;
    var probe := RwProbe(fdt.hdr);
    if probe.Failure? {
      return Failure(probe.error);
    }
    ghost var im := fdt.Img();
    var h := fdt.hdr;
    ReservedOf(im);
    ValidOrdered(im);
    assert fdt.buf[0..0 + h.totalsize] == fdt.buf[..][..h.totalsize];
    var num := NumMemRsv(fdt.buf, 0, h);
    if n >= num.value {
      return Failure(NotFound);
    }
    r := SpliceRsv(fdt, h.offRsv + 16 * n, 16, 0);
    RsvSplicedFits(h, im.mem, fdt.hdr, fdt.buf[..], h.offRsv + 16 * n, 16, 0);
    DeletedRsv(im, fdt.Img(), n);
  }

  lemma DeletedRsv(before: Image, after: Image, n: nat)
    requires before.Valid() && Reserved(before).Some? && n < |Reserved(before).value| && after.shape == before.shape
    requires UpToZero(Reserved(before).value) == Reserved(before).value
    requires RsvSpliced(before.hdr, before.mem, after.hdr, after.mem, before.hdr.offRsv + 16 * n, 16, 0)
    ensures var es := Reserved(before).value; RsvEdited(before, after, es[..n] + es[n + 1..])
  {
    hide Image.Valid, RsvCount, Reserved, RsvEdited, EncRsv, UpToZero;
    var es := Reserved(before).value;
    var p := before.hdr.offRsv + 16 * n;
    assert EncRsv([]) == [] by { NoEntries(); }
    HeadCut(before.mem, after.mem, p, before.hdr.offStruct);
    RsvDone(before, after, n, n + 1, []);
    assert es[..n] + [] + es[n + 1..] == es[..n] + es[n + 1..];
    NoneZero(es, n);
  }

  lemma NoEntries()
    ensures EncRsv([]) == []
  {
  }

  lemma NoneZero(es: seq<Reservation>, n: nat)
    requires UpToZero(es) == es && n < |es|
    ensures UpToZero(es[..n] + es[n + 1..]) == es[..n] + es[n + 1..]
  {
    hide UpToZero;
    var d := es[..n] + es[n + 1..];
    forall k | 0 <= k < |d| ensures d[k].size != 0 {
      assert d[k] == es[if k < n then k else k + 1];
    }
  }

  lemma HeadCut(mem: seq<byte>, mem': seq<byte>, p: nat, top: nat)
    requires p + 16 <= top <= |mem| == |mem'|
    requires mem'[..p] == mem[..p] && mem'[p..top - 16] == mem[p + 16..top]
    ensures mem'[..top - 16] == Splice(mem[..top], p, p + 16, [])
  {
    var s := mem'[..top - 16];
    assert s == s[..p] + [] + s[p..];
    assert mem[..top][..p] == mem[..p] && mem[..top][p + 16..] == mem[p + 16..top];
  }
}
