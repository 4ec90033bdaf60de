// The sequential writer (fdt_sw.c): structure grows upwards, strings grow down from the end.
module Writer {
  import opened Bytes
  import opened Tokens
  import opened Structure
  import opened Memory
  import opened Blobs
  import opened Readers
  import opened Splicing
  import opened Strings
  import opened Edits
  import opened Editor
  import opened NodeEditor
  import opened Reservations

  // A name is given as its negative distance from the end of the strings.

  const NO_NAME_DEDUP: u32 := 1
  const SW_HEADER_SIZE: nat := 48

  // What has been written ------------------------------------------------------------------------

  // The calls that a token stands for.
  datatype Call = Opened(name: seq<byte>) | Put(name: seq<byte>, value: seq<byte>) | Closed

  // The string that ends `back` bytes in front of the end of the strings, as an unsigned offset.
  function NameBack(tail: seq<byte>, nameOff: u32): Option<seq<byte>> {
    var back := 0x1_0000_0000 - nameOff;
    if back <= |tail| then CStr(tail, |tail| - back) else None
  }

  function CallOf(t: Token, tail: seq<byte>): Call {
    match t
    case Begin(name, _) => Opened(name)
    case Prop(nameOff, value, _) =>
      Put(match NameBack(tail, nameOff) case Some(n) => n case None => [], value)
    case _ => Closed
  }

  function Calls(ts: seq<Token>, tail: seq<byte>): seq<Call> {
    if ts == [] then [] else [CallOf(ts[0], tail)] + Calls(ts[1..], tail)
  }

  // A token the writer may have emitted.
  ghost predicate Emittable(t: Token, tail: seq<byte>) {
    t.Ok() && !t.Nop? && !t.End? && (t.Prop? ==> NameBack(tail, t.nameOff).Some?)
  }

  ghost predicate AllEmittable(ts: seq<Token>, tail: seq<byte>) {
    forall i :: 0 <= i < |ts| ==> Emittable(ts[i], tail)
  }

  lemma {:induction false} CallsSnoc(ts: seq<Token>, t: Token, tail: seq<byte>)
    ensures Calls(ts + [t], tail) == Calls(ts, tail) + [CallOf(t, tail)]
  {
    hide CallOf;
    if ts == [] {
      assert [] + [t] == [t] && [t][1..] == [];
    } else {
      assert (ts + [t])[1..] == ts[1..] + [t];
      CallsSnoc(ts[1..], t, tail);
    }
  }

  lemma EmittableSnoc(ts: seq<Token>, t: Token, tail: seq<byte>)
    requires AllEmittable(ts, tail) && Emittable(t, tail)
    ensures AllEmittable(ts + [t], tail)
  {
    hide Emittable;
  }

  // Strings added in front change neither the tokens' names nor what they stand for.
  lemma NameBackMore(pre: seq<byte>, tail: seq<byte>, nameOff: u32)
    requires NameBack(tail, nameOff).Some?
    ensures NameBack(pre + tail, nameOff) == NameBack(tail, nameOff)
  {
    hide CStr;
    CStrExtend(pre, tail, [], |tail| - (0x1_0000_0000 - nameOff));
    assert pre + tail + [] == pre + tail;
  }

  lemma {:induction false} CallsMore(ts: seq<Token>, pre: seq<byte>, tail: seq<byte>)
    requires AllEmittable(ts, tail)
    ensures AllEmittable(ts, pre + tail) && Calls(ts, pre + tail) == Calls(ts, tail)
  {
    hide NameBack, Token.Ok;
    if ts != [] {
      assert Emittable(ts[0], tail);
      if ts[0].Prop? {
        NameBackMore(pre, tail, ts[0].nameOff);
      }
      assert AllEmittable(ts[1..], tail);
      CallsMore(ts[1..], pre, tail);
      forall i | 0 <= i < |ts| ensures Emittable(ts[i], pre + tail) {
        assert i > 0 ==> ts[i] == ts[1..][i - 1];
      }
    }
  }

  // The writer's state -------------------------------------------------------------------------------

  // The state right after fdt_create, while reservations are added.
  ghost predicate Reserving(h: Header, mem: seq<byte>, es: seq<Reservation>) {
    && h.magic == SW_MAGIC && h.version == 17 && h.offRsv == SW_HEADER_SIZE
    && h.totalsize <= |mem| && h.totalsize < INT32_MAX
    && h.offStrings == 0 && h.sizeStruct == 0 && h.sizeStrings == 0
    && h.offStruct == SW_HEADER_SIZE + 16 * |es| <= h.totalsize
    && At(mem, SW_HEADER_SIZE, EncRsv(es))
  }

  // The three regions do not overlap.
  predicate Apart(h: Header, size: nat) {
    && h.magic == SW_MAGIC && h.version == 17
    && SW_HEADER_SIZE <= h.offRsv <= h.offStruct
    && h.offStruct + h.sizeStruct + h.sizeStrings <= h.totalsize <= size
    && h.totalsize < INT32_MAX && h.offStrings == h.totalsize
  }

  function SwHead(h: Header, mem: seq<byte>): seq<byte>
    requires Apart(h, |mem|)
  {
    mem[..h.offStruct]
  }

  function SwStruct(h: Header, mem: seq<byte>): seq<byte>
    requires Apart(h, |mem|)
  {
    mem[h.offStruct..h.offStruct + h.sizeStruct]
  }

  function SwTail(h: Header, mem: seq<byte>): seq<byte>
    requires Apart(h, |mem|)
  {
    mem[h.totalsize - h.sizeStrings..h.totalsize]
  }

  // While the structure is written: its bytes encode the tokens, whose names resolve.
  ghost predicate Writing(h: Header, mem: seq<byte>, ts: seq<Token>) {
    && Apart(h, |mem|)
    && SwStruct(h, mem) == EncAll(ts)
    && AllEmittable(ts, SwTail(h, mem))
    && RsvCount(SwHead(h, mem), h.offRsv).Some?
  }

  // What has been written so far, as calls.
  ghost function Written(h: Header, mem: seq<byte>, ts: seq<Token>): seq<Call>
    requires Apart(h, |mem|)
  {
    Calls(ts, SwTail(h, mem))
  }

  // fdt_sw_probe_struct_
  function StructProbe(h: Header): Result<()> {
    if h.magic == FDT_MAGIC then Failure(BadState)
    else if h.magic != SW_MAGIC then Failure(BadMagic)
    else if h.offStrings != h.totalsize then Failure(BadState)
    else Success(())
  }

  // fdt_sw_probe_memrsv_
  function RsvProbe(h: Header): Result<()> {
    if h.magic == FDT_MAGIC then Failure(BadState)
    else if h.magic != SW_MAGIC then Failure(BadMagic)
    else if h.offStrings != 0 then Failure(BadState)
    else Success(())
  }

  // The live bytes of the writer: everything below the top of the structure, and the strings.
  predicate SameLive(h: Header, mem: seq<byte>, mem': seq<byte>)
    requires Apart(h, |mem|)
  {
    && |mem'| == |mem|
    && mem'[..h.offStruct + h.sizeStruct] == mem[..h.offStruct + h.sizeStruct]
    && mem'[h.totalsize - h.sizeStrings..] == mem[h.totalsize - h.sizeStrings..]
  }

  lemma SameLiveKeeps(h: Header, mem: seq<byte>, mem': seq<byte>, ts: seq<Token>)
    requires Apart(h, |mem|) && SameLive(h, mem, mem')
    ensures SwHead(h, mem') == SwHead(h, mem) && SwStruct(h, mem') == SwStruct(h, mem)
    ensures SwTail(h, mem') == SwTail(h, mem)
    ensures Writing(h, mem, ts) ==> Writing(h, mem', ts)
  {
    hide EncAll, RsvCount;
    var top, low := h.offStruct + h.sizeStruct, h.totalsize - h.sizeStrings;
    SliceSlice(mem, 0, top, 0, h.offStruct);
    SliceSlice(mem', 0, top, 0, h.offStruct);
    SliceSlice(mem, 0, top, h.offStruct, top);
    SliceSlice(mem', 0, top, h.offStruct, top);
    TailSlice(mem, low, h.totalsize);
    TailSlice(mem', low, h.totalsize);
  }

  lemma TailSlice<T>(s: seq<T>, a: nat, b: nat)
    requires a <= b <= |s|
    ensures s[a..][..b - a] == s[a..b]
  {
  }

  // fdt_grab_space_ -----------------------------------------------------------------------------------

  method GrabSpace(fdt: Blob, len: nat) returns (r: Option<nat>)
    requires Apart(fdt.hdr, fdt.buf.Length) && len <= INT32_MAX
    modifies fdt`hdr
    ensures r.Some? <==> old(fdt.hdr.offStruct + fdt.hdr.sizeStruct + len + fdt.hdr.sizeStrings <= fdt.hdr.totalsize)
    ensures r.None? ==> fdt.hdr == old(fdt.hdr)
    ensures r.Some? ==>
              && r.value == old(fdt.hdr.sizeStruct)
              && r.value + len < 0x1_0000_0000
              && fdt.hdr == old(fdt.hdr).(sizeStruct := r.value + len)
  {
    var offset := fdt.hdr.sizeStruct;
    var spaceleft := (fdt.hdr.totalsize - fdt.hdr.offStruct - fdt.hdr.sizeStrings) % 0x1_0000_0000;
    if offset + len > spaceleft {
      return None;
    }
    fdt.hdr := fdt.hdr.(sizeStruct := offset + len);
    return Some(offset);
  }

  // What a successful call leaves: one more call has been written, the rest is as it was.
  ghost predicate Extends(h: Header, mem: seq<byte>, ts: seq<Token>, h': Header, mem': seq<byte>, ts': seq<Token>,
                          c: Call) {
    && Writing(h, mem, ts) && Writing(h', mem', ts')
    && Written(h', mem', ts') == Written(h, mem, ts) + [c]
    && SwHead(h', mem') == SwHead(h, mem)
    && h' == h.(sizeStruct := h'.sizeStruct, sizeStrings := h'.sizeStrings)
  }

  // A token has been written into the grabbed space.
  lemma TokenWritten(h: Header, mem: seq<byte>, mem': seq<byte>, ts: seq<Token>, t: Token)
    requires Writing(h, mem, ts) && |mem'| == |mem|
    requires h.offStruct + h.sizeStruct + |t.Enc()| + h.sizeStrings <= h.totalsize
    requires var top := h.offStruct + h.sizeStruct;
             && mem'[..top] == mem[..top]
             && At(mem', top, t.Enc())
             && mem'[top + |t.Enc()|..] == mem[top + |t.Enc()|..]
    requires Emittable(t, SwTail(h, mem))
    ensures var h' := h.(sizeStruct := h.sizeStruct + |t.Enc()|);
            && Writing(h', mem', ts + [t]) && Apart(h', |mem'|)
            && SwHead(h', mem') == SwHead(h, mem)
            && SwTail(h', mem') == SwTail(h, mem)
            && Written(h', mem', ts + [t]) == Written(h, mem, ts) + [CallOf(t, SwTail(h, mem))]
            && Extends(h, mem, ts, h', mem', ts + [t], CallOf(t, SwTail(h, mem)))
  {
    hide EncAll, RsvCount, Token.Enc, Emittable, AllEmittable, Calls, CallOf, At;
    var top, len, low := h.offStruct + h.sizeStruct, |t.Enc()|, h.totalsize - h.sizeStrings;
    AtBound(mem', top, t.Enc());
    SliceSlice(mem, 0, top, 0, h.offStruct);
    SliceSlice(mem', 0, top, 0, h.offStruct);
    SliceSlice(mem, 0, top, h.offStruct, top);
    SliceSlice(mem', 0, top, h.offStruct, top);
    BehindSlice(mem, mem', top + len, low, h.totalsize);
    assert mem'[h.offStruct..top + len] == mem'[h.offStruct..top] + mem'[top..top + len];
    EncAllConcat(ts, [t]);
    EncOne(t);
    EmittableSnoc(ts, t, SwTail(h, mem));
    CallsSnoc(ts, t, SwTail(h, mem));
  }

  lemma BehindSlice<T>(s: seq<T>, s': seq<T>, m: nat, a: nat, b: nat)
    requires m <= a <= b <= |s| == |s'| && s'[m..] == s[m..]
    ensures s'[a..b] == s[a..b]
  {
    assert s[m..|s|] == s[m..] && s'[m..|s|] == s'[m..];
    SliceSlice(s, m, |s|, a - m, b - m);
    SliceSlice(s', m, |s|, a - m, b - m);
  }

  // Reservations -----------------------------------------------------------------------------------------

  // fdt_create_with_flags
  method Create(fdt: Blob, bufsize: nat, flags: u32) returns (r: Result<()>)
    requires bufsize <= fdt.buf.Length && bufsize < INT32_MAX
    modifies fdt, fdt.buf
    ensures r == if bufsize < SW_HEADER_SIZE then Failure(NoSpace)
                 else if flags > NO_NAME_DEDUP then Failure(BadFlags) else Success(())
    ensures r.Failure? ==> fdt.hdr == old(fdt.hdr) && fdt.buf[..] == old(fdt.buf[..])
    ensures r.Success? ==>
              && Reserving(fdt.hdr, fdt.buf[..], []) && fdt.toks == []
              && fdt.hdr == Header(SW_MAGIC, bufsize, SW_HEADER_SIZE, 0, SW_HEADER_SIZE, 17, flags, 0, 0, 0)
              && (forall k :: 0 <= k < bufsize ==> fdt.buf[k] == 0)
              && fdt.buf[bufsize..] == old(fdt.buf[bufsize..])
  {
    if bufsize < SW_HEADER_SIZE {
      return Failure(NoSpace);
    }
    if flags > NO_NAME_DEDUP {
      return Failure(BadFlags);
    }
    var i := 0;
    while i < bufsize
      invariant 0 <= i <= bufsize && forall k :: 0 <= k < i ==> fdt.buf[k] == 0
      invariant forall k :: bufsize <= k < fdt.buf.Length ==> fdt.buf[k] == old(fdt.buf[k])
    {
      fdt.buf[i] := 0;
      i := i + 1;
    }
    fdt.hdr := Header(SW_MAGIC, bufsize, SW_HEADER_SIZE, 0, SW_HEADER_SIZE, LAST_SUPPORTED_VERSION, flags, 0, 0, 0);
    fdt.toks := [];
    return Success(());
  }

  // fdt_add_reservemap_entry
  method AddReservemapEntry(fdt: Blob, address: u64, size: u64, ghost es: seq<Reservation>) returns (r: Result<()>)
    requires RsvProbe(fdt.hdr).Success? ==> Reserving(fdt.hdr, fdt.buf[..], es)
    modifies fdt`hdr, fdt.buf
    ensures RsvProbe(old(fdt.hdr)).Failure? ==> r == RsvProbe(old(fdt.hdr))
    ensures RsvProbe(old(fdt.hdr)).Success? ==>
              r == if old(fdt.hdr.offStruct) + 16 > old(fdt.hdr.totalsize) then Failure(NoSpace) else Success(())
    ensures r.Failure? ==> fdt.hdr == old(fdt.hdr) && fdt.buf[..] == old(fdt.buf[..])
    ensures r.Success? ==>
              && Reserving(fdt.hdr, fdt.buf[..], es + [Reservation(address, size)])
              && fdt.hdr == old(fdt.hdr).(offStruct := fdt.hdr.offStruct)
              && EntryHere(fdt.buf[..], old(fdt.hdr.offStruct), address, size)
  {
    hide EncRsv, Put64, EntryHere;
    var probe := RsvProbe(fdt.hdr);
    if probe.Failure? {
      return probe;
    }
    var h := fdt.hdr;
    var offset := h.offStruct;
    if offset + 16 > h.totalsize {
      return Failure(NoSpace);
    }
    ghost var mem := fdt.buf[..];
    ghost var e := Reservation(address, size);
    Memcpy(fdt.buf, offset, Put64(address));
    ghost var mid := fdt.buf[..];
    Memcpy(fdt.buf, offset + 8, Put64(size));
    fdt.hdr := h.(offStruct := offset + 16);
    EntryStored(mem, mid, fdt.buf[..], offset, es, e);
    EntryWritten(mem, offset, e);
    return Success(());
  }

  lemma EntryWritten(mem: seq<byte>, p: nat, e: Reservation)
    requires p + 16 <= |mem|
    ensures EntryHere(Stored(Stored(mem, p, Put64(e.address)), p + 8, Put64(e.size)), p, e.address, e.size)
  {
    hide Put64, Stored, EntryHere;
    var a, b := Put64(e.address), Put64(e.size);
    var mid := Stored(mem, p, a);
    StoredWindow(mem, p, a);
    StoredBeside(mid, p + 8, b, p, p + 8);
    StoredWindow(mid, p + 8, b);
    EntryDigits(Stored(mid, p + 8, b), p, e.address, e.size);
  }

  lemma EntryStored(mem: seq<byte>, mid: seq<byte>, mem': seq<byte>, off: nat, es: seq<Reservation>, e: Reservation)
    requires off == SW_HEADER_SIZE + 16 * |es| && off + 16 <= |mem| && At(mem, SW_HEADER_SIZE, EncRsv(es))
    requires mid == Stored(mem, off, Put64(e.address)) && mem' == Stored(mid, off + 8, Put64(e.size))
    ensures At(mem', SW_HEADER_SIZE, EncRsv(es + [e]))
  {
    hide EncRsv, Put64, Stored, At;
    StoredElsewhere(mem, off, Put64(e.address), SW_HEADER_SIZE, EncRsv(es));
    StoredElsewhere(mid, off + 8, Put64(e.size), SW_HEADER_SIZE, EncRsv(es));
    StoredAt(mem, off, Put64(e.address));
    StoredElsewhere(mid, off + 8, Put64(e.size), off, Put64(e.address));
    StoredAt(mid, off + 8, Put64(e.size));
    AtConcat(mem', off, Put64(e.address), Put64(e.size));
    EncRsvSnoc(es, e);
    AtConcat(mem', SW_HEADER_SIZE, EncRsv(es), e.Enc());
  }

  // fdt_finish_reservemap: the list reads back up to the first entry of size 0, so all of it
  // exactly if no entry has size 0.
  method FinishReservemap(fdt: Blob, ghost es: seq<Reservation>) returns (r: Result<()>)
    requires RsvProbe(fdt.hdr).Success? ==> Reserving(fdt.hdr, fdt.buf[..], es)
    modifies fdt, fdt.buf
    ensures RsvProbe(old(fdt.hdr)).Failure? ==> r == RsvProbe(old(fdt.hdr))
    ensures RsvProbe(old(fdt.hdr)).Success? ==>
              r == if old(fdt.hdr.offStruct) + 16 > old(fdt.hdr.totalsize) then Failure(NoSpace) else Success(())
    ensures r.Failure? ==> fdt.hdr == old(fdt.hdr) && fdt.buf[..] == old(fdt.buf[..])
    ensures r.Success? ==>
              && fdt.toks == [] && Writing(fdt.hdr, fdt.buf[..], [])
              && RsvList(SwHead(fdt.hdr, fdt.buf[..]), fdt.hdr.offRsv) == Some(UpToZero(es))
              && fdt.hdr == old(fdt.hdr).(offStruct := fdt.hdr.offStruct, offStrings := fdt.hdr.totalsize)
              && fdt.hdr.offStruct == old(fdt.hdr.offStruct) + 16 && fdt.hdr.sizeStruct == fdt.hdr.sizeStrings == 0
  {
    hide EncRsv, Put64, RsvList, RsvCount;
    r := AddReservemapEntry(fdt, 0, 0, es);
    if r.Failure? {
      return;
    }
    fdt.hdr := fdt.hdr.(offStrings := fdt.hdr.totalsize);
    fdt.toks := [];
    ghost var last := Reservation(0, 0);
    EncRsvSnoc(es, last);
    ghost var head := fdt.buf[..fdt.hdr.offStruct];
    assert At(head, SW_HEADER_SIZE, EncRsv(es) + last.Enc());
    RsvRoundTrip(head, SW_HEADER_SIZE, es, last);
    RsvListCount(head, SW_HEADER_SIZE);
  }

  // The structure ---------------------------------------------------------------------------------------

  lemma WritingApart(h: Header, mem: seq<byte>, ts: seq<Token>)
    requires Writing(h, mem, ts)
    ensures Apart(h, |mem|) && h.offStruct + h.sizeStruct + h.sizeStrings <= h.totalsize <= |mem|
    ensures h.totalsize < INT32_MAX
  {
  }

  // fdt_begin_node
  method BeginNodeCall(fdt: Blob, name: seq<byte>) returns (r: Result<()>)
    requires StructProbe(fdt.hdr).Success? ==> Writing(fdt.hdr, fdt.buf[..], fdt.toks)
    requires |name| <= MAX_LEN && NoNul(name)
    modifies fdt`hdr, fdt`toks, fdt.buf
    ensures StructProbe(old(fdt.hdr)).Failure? ==> r == StructProbe(old(fdt.hdr))
    ensures StructProbe(old(fdt.hdr)).Success? ==>
              r == if old(fdt.hdr.offStruct + fdt.hdr.sizeStruct + fdt.hdr.sizeStrings) + 4 + Align4(|name| + 1)
                      > old(fdt.hdr.totalsize) then Failure(NoSpace) else Success(())
    ensures r.Failure? ==> fdt.hdr == old(fdt.hdr) && fdt.buf[..] == old(fdt.buf[..]) && fdt.toks == old(fdt.toks)
    ensures r.Success? ==>
              Extends(old(fdt.hdr), old(fdt.buf[..]), old(fdt.toks), fdt.hdr, fdt.buf[..], fdt.toks, Opened(name))
              && fdt.hdr.sizeStruct == old(fdt.hdr.sizeStruct) + 4 + Align4(|name| + 1)
              && Apart(fdt.hdr, fdt.buf.Length) && SwTail(fdt.hdr, fdt.buf[..]) == old(SwTail(fdt.hdr, fdt.buf[..]))
  {
    hide EncAll, RsvCount, AllEmittable, Calls, Put32, SwHead, SwTail, SwStruct, Stored, Writing, Apart, Extends, At;
    var probe := StructProbe(fdt.hdr);
    if probe.Failure? {
      return probe;
    }
    WritingApart(fdt.hdr, fdt.buf[..], fdt.toks);
    ghost var h, mem, ts := fdt.hdr, fdt.buf[..], fdt.toks;
    var p := GrabSpace(fdt, 4 + Align4(|name| + 1));
    if p.None? {
      return Failure(NoSpace);
    }
    var nh := fdt.hdr.offStruct + p.value;
    Memcpy(fdt.buf, nh, Put32(BEGIN_NODE));
    ghost var mid := fdt.buf[..];
    Memcpy(fdt.buf, nh + 4, name + [0]);
    ghost var t := BeginStored(mem, mid, fdt.buf[..], nh, name);
    TokenWritten(h, mem, fdt.buf[..], ts, t);
    fdt.toks := fdt.toks + [t];
    return Success(());
  }

  lemma BeginStored(mem: seq<byte>, mid: seq<byte>, mem': seq<byte>, top: nat, name: seq<byte>) returns (t: Token)
    requires top + 4 + Align4(|name| + 1) <= |mem| && NoNul(name)
    requires mid == Stored(mem, top, Put32(BEGIN_NODE)) && mem' == Stored(mid, top + 4, name + [0])
    ensures t.Begin? && t.name == name && t.Ok() && |t.Enc()| == 4 + Align4(|name| + 1)
    ensures At(mem', top, t.Enc())
    ensures mem'[..top] == mem[..top] && mem'[top + |t.Enc()|..] == mem[top + |t.Enc()|..]
  {
    hide Put32, Stored, At;
    var a := Align4(|name| + 1);
    var pad := mem'[top + 4 + |name| + 1..top + 4 + a];
    t := Begin(name, pad);
    StoredAt(mem, top, Put32(BEGIN_NODE));
    StoredElsewhere(mid, top + 4, name + [0], top, Put32(BEGIN_NODE));
    StoredAt(mid, top + 4, name + [0]);
    AtIs(mem', top + 4 + |name| + 1, pad);
    AtConcat(mem', top + 4, name + [0], pad);
    AtConcat(mem', top, Put32(BEGIN_NODE), (name + [0]) + pad);
    StoredEnds(mem, top, Put32(BEGIN_NODE), top, top + 4 + a);
    StoredEnds(mid, top + 4, name + [0], top, top + 4 + a);
  }

  // fdt_end_node
  method EndNodeCall(fdt: Blob) returns (r: Result<()>)
    requires StructProbe(fdt.hdr).Success? ==> Writing(fdt.hdr, fdt.buf[..], fdt.toks)
    modifies fdt`hdr, fdt`toks, fdt.buf
    ensures StructProbe(old(fdt.hdr)).Failure? ==> r == StructProbe(old(fdt.hdr))
    ensures StructProbe(old(fdt.hdr)).Success? ==>
              r == if old(fdt.hdr.offStruct + fdt.hdr.sizeStruct + fdt.hdr.sizeStrings) + 4 > old(fdt.hdr.totalsize)
                   then Failure(NoSpace) else Success(())
    ensures r.Failure? ==> fdt.hdr == old(fdt.hdr) && fdt.buf[..] == old(fdt.buf[..]) && fdt.toks == old(fdt.toks)
    ensures r.Success? ==>
              Extends(old(fdt.hdr), old(fdt.buf[..]), old(fdt.toks), fdt.hdr, fdt.buf[..], fdt.toks, Closed)
              && fdt.hdr.sizeStruct == old(fdt.hdr.sizeStruct) + 4
              && Apart(fdt.hdr, fdt.buf.Length) && SwTail(fdt.hdr, fdt.buf[..]) == old(SwTail(fdt.hdr, fdt.buf[..]))
  {
    hide EncAll, RsvCount, AllEmittable, Calls, Put32, SwHead, SwTail, SwStruct, Stored, Writing, Apart, Extends, At;
    var probe := StructProbe(fdt.hdr);
    if probe.Failure? {
      return probe;
    }
    WritingApart(fdt.hdr, fdt.buf[..], fdt.toks);
    ghost var h, mem, ts := fdt.hdr, fdt.buf[..], fdt.toks;
    var p := GrabSpace(fdt, TAG_SIZE);
    if p.None? {
      return Failure(NoSpace);
    }
    Memcpy(fdt.buf, fdt.hdr.offStruct + p.value, Put32(END_NODE));
    StoredAt(mem, fdt.hdr.offStruct + p.value, Put32(END_NODE));
    StoredEnds(mem, fdt.hdr.offStruct + p.value, Put32(END_NODE), fdt.hdr.offStruct + p.value,
               fdt.hdr.offStruct + p.value + 4);
    TokenWritten(h, mem, fdt.buf[..], ts, EndNode);
    fdt.toks := fdt.toks + [EndNode];
    return Success(());
  }

  // Properties ------------------------------------------------------------------------------------------

  lemma NameBackIs(tail: seq<byte>, p: nat, name: seq<byte>)
    requires p < |tail| < 0x1_0000_0000 && CStr(tail, p) == Some(name)
    ensures NameBack(tail, 0x1_0000_0000 - (|tail| - p)) == Some(name)
  {
  }

  // A string has been put in front of the others.
  lemma StringPrepended(h: Header, mem: seq<byte>, mem': seq<byte>, ts: seq<Token>, name: seq<byte>)
    requires Writing(h, mem, ts) && NoNul(name)
    requires h.offStruct + h.sizeStruct + h.sizeStrings + |name| + 1 <= h.totalsize
    requires mem' == Stored(mem, h.totalsize - h.sizeStrings - |name| - 1, name + [0])
    ensures var h' := h.(sizeStrings := h.sizeStrings + |name| + 1);
            && Writing(h', mem', ts) && SameLive(h, mem, mem')
            && SwHead(h', mem') == SwHead(h, mem) && SwStruct(h', mem') == SwStruct(h, mem)
            && SwTail(h', mem') == (name + [0]) + SwTail(h, mem)
            && Written(h', mem', ts) == Written(h, mem, ts)
            && NameBack(SwTail(h', mem'), 0x1_0000_0000 - (h.sizeStrings + |name| + 1)) == Some(name)
  {
    hide EncAll, RsvCount, AllEmittable, Calls, Stored, CStr, NameBack;
    var low := h.totalsize - h.sizeStrings;
    var p := low - |name| - 1;
    var tail := SwTail(h, mem);
    StoredEnds(mem, p, name + [0], h.offStruct + h.sizeStruct, low);
    SameLiveKeeps(h, mem, mem', ts);
    StoredAt(mem, p, name + [0]);
    AtBound(mem', p, name + [0]);
    assert mem'[p..h.totalsize] == mem'[p..low] + mem'[low..h.totalsize];
    CallsMore(ts, name + [0], tail);
    FrontString(name, tail);
    NameBackIs((name + [0]) + tail, 0, name);
  }

  lemma FrontString(name: seq<byte>, tail: seq<byte>)
    requires NoNul(name)
    ensures CStr((name + [0]) + tail, 0) == Some(name)
  {
    var s := (name + [0]) + tail;
    assert s[0..|name| + 1] == name + [0];
    CStrIs(s, 0, name);
  }

  // fdt_add_string_; the result 0 of the source is None here
  method AddString(fdt: Blob, s: seq<byte>) returns (r: Option<u32>)
    requires Writing(fdt.hdr, fdt.buf[..], fdt.toks) && NoNul(s)
    requires fdt.hdr.sizeStrings + |s| + 1 <= fdt.hdr.totalsize
    modifies fdt`hdr, fdt.buf
    ensures r.Some? <==>
              old(fdt.hdr.offStruct + fdt.hdr.sizeStruct + fdt.hdr.sizeStrings) + |s| + 1 <= fdt.hdr.totalsize
    ensures r.None? ==> fdt.hdr == old(fdt.hdr) && fdt.buf[..] == old(fdt.buf[..])
    ensures r.Some? ==> Named(old(fdt.hdr), old(fdt.buf[..]), fdt.hdr, fdt.buf[..], fdt.toks, s, r.value, |s| + 1)
  {
    hide EncAll, RsvCount, AllEmittable, Calls, Stored, CStr, NameBack, SwHead, SwTail, SwStruct, Writing, Apart,
      SameLive;
    WritingApart(fdt.hdr, fdt.buf[..], fdt.toks);
    var h := fdt.hdr;
    ghost var mem := fdt.buf[..];
    var offset := h.sizeStrings + (|s| + 1);
    var structTop := h.offStruct + h.sizeStruct;
    if (h.totalsize - offset) % 0x1_0000_0000 < structTop {
      return None;
    }
    Memcpy(fdt.buf, h.totalsize - offset, s + [0]);
    fdt.hdr := h.(sizeStrings := h.sizeStrings + (|s| + 1));
    StringPrepended(h, mem, fdt.buf[..], fdt.toks, s);
    return Some(0x1_0000_0000 - offset);
  }

  // The name is there, at an offset counted back from the end, in room further bytes.
  ghost predicate Named(h: Header, mem: seq<byte>, h': Header, mem': seq<byte>, ts: seq<Token>, name: seq<byte>,
                        nameOff: u32, room: nat)
  {
    && Writing(h, mem, ts) && Writing(h', mem', ts) && SameLive(h, mem, mem')
    && h.sizeStrings + room < 0x1_0000_0000 && h' == h.(sizeStrings := h.sizeStrings + room)
    && SwHead(h', mem') == SwHead(h, mem)
    && SwStruct(h', mem') == SwStruct(h, mem)
    && Written(h', mem', ts) == Written(h, mem, ts)
    && NameBack(SwTail(h', mem'), nameOff) == Some(name)
    && SwTail(h', mem') == (if room == 0 then SwTail(h, mem) else (name + [0]) + SwTail(h, mem))
  }

  // How many bytes of strings a property of that name needs.
  function NameRoom(h: Header, mem: seq<byte>, name: seq<byte>): nat
    requires Apart(h, |mem|)
  {
    if h.lastComp % 2 != NO_NAME_DEDUP && FindStr(SwTail(h, mem), 0, name).Some? then 0 else |name| + 1
  }

  // The call adds no string, or one that fits into the total size: fdt_add_string_ writes inside the buffer.
  predicate StringStays(h: Header, mem: seq<byte>, name: seq<byte>)
    requires Apart(h, |mem|)
  {
    h.sizeStrings + NameRoom(h, mem, name) <= h.totalsize
  }

  // The strings after a property of that name has been written.
  function NextTail(h: Header, mem: seq<byte>, name: seq<byte>): seq<byte>
    requires Apart(h, |mem|)
  {
    if NameRoom(h, mem, name) == 0 then SwTail(h, mem) else (name + [0]) + SwTail(h, mem)
  }

  // What the test for room in fdt_add_string_ comes to, with its unsigned difference: it passes if the string fits
  // above the structure, and also whenever it is larger than everything below the strings. Then the string is
  // copied in front of the buffer, and the test in fdt_grab_space_ that follows passes too.
  lemma StringWraps(h: Header, len: nat, more: nat)
    requires Apart(h, h.totalsize) && 0 < len <= INT32_MAX && h.sizeStruct + more <= INT32_MAX
    ensures var offset, top := h.sizeStrings + len, h.offStruct + h.sizeStruct;
            && ((h.totalsize - offset) % 0x1_0000_0000 >= top <==> top + offset <= h.totalsize || offset > h.totalsize)
            && (offset > h.totalsize ==>
                  && h.totalsize - offset < 0
                  && h.sizeStruct + more <= (h.totalsize - h.offStruct - offset) % 0x1_0000_0000)
  {
    var offset, top := h.sizeStrings + len, h.offStruct + h.sizeStruct;
    DifferenceWraps(h.totalsize, offset);
    DifferenceWraps(h.totalsize - h.offStruct, offset);
  }

  lemma DifferenceWraps(a: nat, b: nat)
    requires a <= INT32_MAX && b < 0x1_0000_0000
    ensures (a - b) % 0x1_0000_0000 == if b <= a then a - b else a - b + 0x1_0000_0000
  {
  }

  // fdt_find_add_string_, or fdt_add_string_ alone when names are not shared
  method FindAddName(fdt: Blob, name: seq<byte>) returns (r: Option<u32>, room: nat)
    requires Writing(fdt.hdr, fdt.buf[..], fdt.toks) && NoNul(name) && |name| <= MAX_LEN
    requires Apart(fdt.hdr, fdt.buf.Length) && StringStays(fdt.hdr, fdt.buf[..], name)
    modifies fdt`hdr, fdt.buf
    ensures room == NameRoom(old(fdt.hdr), old(fdt.buf[..]), name)
    ensures r.Some? <==>
              room == 0 || old(fdt.hdr.offStruct + fdt.hdr.sizeStruct + fdt.hdr.sizeStrings) + room <= fdt.hdr.totalsize
    ensures r.None? ==> fdt.hdr == old(fdt.hdr) && fdt.buf[..] == old(fdt.buf[..])
    ensures r.Some? ==> Named(old(fdt.hdr), old(fdt.buf[..]), fdt.hdr, fdt.buf[..], fdt.toks, name, r.value, room)
  {
    hide EncAll, RsvCount, AllEmittable, Calls, Stored, CStr, SwHead, SwStruct, Writing, Apart, SameLive, Named,
      FindStr, NameBack;
    WritingApart(fdt.hdr, fdt.buf[..], fdt.toks);
    var h := fdt.hdr;
    if h.lastComp % 2 != NO_NAME_DEDUP {
      var low := h.totalsize - h.sizeStrings;
      var p := FindString(fdt.buf, low, h.sizeStrings, name);
      TailIs(fdt.buf[..], low, h);
      if p.Some? {
        NameFound(h, fdt.buf[..], fdt.toks, name, p.value);
        return Some(0x1_0000_0000 - (h.sizeStrings - p.value)), 0;
      }
    }
    room := |name| + 1;
    r := AddString(fdt, name);
  }

  lemma TailIs(mem: seq<byte>, low: nat, h: Header)
    requires Apart(h, |mem|) && low == h.totalsize - h.sizeStrings
    ensures mem[low..low + h.sizeStrings] == SwTail(h, mem)
  {
  }

  lemma NameFound(h: Header, mem: seq<byte>, ts: seq<Token>, name: seq<byte>, p: nat)
    requires Writing(h, mem, ts) && NoNul(name) && At(SwTail(h, mem), p, name + [0])
    ensures p < h.sizeStrings
    ensures Named(h, mem, h, mem, ts, name, 0x1_0000_0000 - (h.sizeStrings - p), 0)
  {
    hide EncAll, RsvCount, AllEmittable, Calls, CStr, NameBack;
    CStrIs(SwTail(h, mem), p, name);
    NameBackIs(SwTail(h, mem), p, name);
  }

  // fdt_property_placeholder: a property of len bytes whose value is what the buffer held there
  method PropertyPlaceholder(fdt: Blob, name: seq<byte>, len: nat) returns (r: Result<nat>, ghost t: Token)
    requires StructProbe(fdt.hdr).Success? ==> Writing(fdt.hdr, fdt.buf[..], fdt.toks)
    requires StructProbe(fdt.hdr).Success? ==>
               Apart(fdt.hdr, fdt.buf.Length) && StringStays(fdt.hdr, fdt.buf[..], name)
    requires len <= MAX_LEN && |name| <= MAX_LEN && NoNul(name)
    modifies fdt`hdr, fdt`toks, fdt.buf
    ensures StructProbe(old(fdt.hdr)).Failure? ==>
              r == Failure(StructProbe(old(fdt.hdr)).error) && fdt.hdr == old(fdt.hdr)
                && fdt.buf[..] == old(fdt.buf[..])
    ensures StructProbe(old(fdt.hdr)).Success? ==>
              && old(Apart(fdt.hdr, fdt.buf.Length))
              && (r.Failure? <==> old(fdt.hdr.offStruct + fdt.hdr.sizeStruct + fdt.hdr.sizeStrings
                                      + NameRoom(fdt.hdr, fdt.buf[..], name)) + 12
                                        + Align4(len) > old(fdt.hdr.totalsize))
              && (r.Failure? ==> r == Failure(NoSpace) && fdt.hdr == old(fdt.hdr) && fdt.toks == old(fdt.toks)
                                 && SameLive(old(fdt.hdr), old(fdt.buf[..]), fdt.buf[..]))
    ensures r.Success? ==>
              && t.Prop? && |t.value| == len && fdt.toks == old(fdt.toks) + [t]
              && Extends(old(fdt.hdr), old(fdt.buf[..]), old(fdt.toks), fdt.hdr, fdt.buf[..], fdt.toks,
                         Put(name, t.value))
              && r.value + Align4(len) == fdt.hdr.offStruct + fdt.hdr.sizeStruct && r.value >= fdt.hdr.offStruct + 12
              && fdt.hdr.sizeStruct == old(fdt.hdr.sizeStruct) + 12 + Align4(len)
              && Apart(fdt.hdr, fdt.buf.Length)
              && SwTail(fdt.hdr, fdt.buf[..]) == old(NextTail(fdt.hdr, fdt.buf[..], name))
  {
    hide EncAll, RsvCount, AllEmittable, Calls, Stored, CStr, SwHead, SwStruct, SwTail, Writing, Apart, SameLive, Named,
      NameRoom, NameBack, Extends, Put32, Token.Enc, Token.Ok, At, Emittable, CallOf;
    t := Nop;
    var probe := StructProbe(fdt.hdr);
    if probe.Failure? {
      return Failure(probe.error), t;
    }
    WritingApart(fdt.hdr, fdt.buf[..], fdt.toks);
    ghost var h, mem, ts := fdt.hdr, fdt.buf[..], fdt.toks;
    SameLiveSelf(h, mem);
    var nameoff, room := FindAddName(fdt, name);
    if nameoff.None? {
      return Failure(NoSpace), t;
    }
    ghost var h1, mem1 := fdt.hdr, fdt.buf[..];
    NamedFacts(h, mem, h1, mem1, ts, name, nameoff.value, room);
    var p := GrabSpace(fdt, 12 + Align4(len));
    if p.None? {
      fdt.hdr := fdt.hdr.(sizeStrings := fdt.hdr.sizeStrings - room);
      return Failure(NoSpace), t;
    }
    var prop := fdt.hdr.offStruct + p.value;
    t := StorePropCells(fdt.buf, prop, nameoff.value, len);
    NamedEmittable(h, mem, h1, mem1, ts, name, nameoff.value, room, t);
    TokenWritten(h1, mem1, fdt.buf[..], ts, t);
    fdt.toks := fdt.toks + [t];
    NamedExtends(h, mem, h1, mem1, ts, name, nameoff.value, room, fdt.hdr, fdt.buf[..], t);
    return Success(prop + 12), t;
  }

  method StorePropCells(a: array<byte>, top: nat, nameOff: u32, len: nat) returns (ghost t: Token)
    requires top + 12 + Align4(len) <= a.Length && len <= MAX_LEN
    modifies a
    ensures t.Prop? && t.Ok() && t.nameOff == nameOff && |t.value| == len && |t.Enc()| == 12 + Align4(len)
    ensures At(a[..], top, t.Enc())
    ensures a[..][..top] == old(a[..])[..top] && a[..][top + |t.Enc()|..] == old(a[..])[top + |t.Enc()|..]
  {
    hide Put32, Stored, At, Token.Enc, Token.Ok;
    ghost var mem := a[..];
    Memcpy(a, top, Put32(PROP));
    Memcpy(a, top + 8, Put32(nameOff));
    Memcpy(a, top + 4, Put32(len));
    t := PropStored(mem, a[..], top, nameOff, len);
  }

  lemma SameLiveSelf(h: Header, mem: seq<byte>)
    requires Apart(h, |mem|)
    ensures SameLive(h, mem, mem)
  {
  }

  lemma NamedFacts(h: Header, mem: seq<byte>, h': Header, mem': seq<byte>, ts: seq<Token>, name: seq<byte>,
                   nameOff: u32, room: nat)
    requires Named(h, mem, h', mem', ts, name, nameOff, room)
    ensures Apart(h, |mem|) && Apart(h', |mem'|) && |mem'| == |mem| && SameLive(h, mem, mem') && Writing(h', mem', ts)
    ensures h.sizeStrings + room < 0x1_0000_0000 && h' == h.(sizeStrings := h.sizeStrings + room)
    ensures h'.offStruct + h'.sizeStruct + h'.sizeStrings <= h'.totalsize
    ensures SwTail(h', mem') == if room == 0 then SwTail(h, mem) else (name + [0]) + SwTail(h, mem)
  {
  }

  lemma NamedEmittable(h: Header, mem: seq<byte>, h': Header, mem': seq<byte>, ts: seq<Token>, name: seq<byte>,
                       nameOff: u32,
                       room: nat, t: Token)
    requires Named(h, mem, h', mem', ts, name, nameOff, room) && t.Prop? && t.Ok() && t.nameOff == nameOff
    ensures Emittable(t, SwTail(h', mem')) && CallOf(t, SwTail(h', mem')) == Put(name, t.value)
  {
    hide NameBack, Token.Ok;
  }

  lemma NamedExtends(h: Header, mem: seq<byte>, h1: Header, mem1: seq<byte>, ts: seq<Token>, name: seq<byte>,
                     nameOff: u32,
                     room: nat, h': Header, mem': seq<byte>, t: Token)
    requires Named(h, mem, h1, mem1, ts, name, nameOff, room) && t.Prop?
    requires Extends(h1, mem1, ts, h', mem', ts + [t], Put(name, t.value))
    ensures Extends(h, mem, ts, h', mem', ts + [t], Put(name, t.value))
  {
    hide NameBack, Writing, Calls, SameLive;
  }

  lemma PropStored(mem: seq<byte>, mem': seq<byte>, top: nat, nameOff: u32, len: nat) returns (t: Token)
    requires top + 12 + Align4(len) <= |mem| && len <= MAX_LEN
    requires mem' == Stored(Stored(Stored(mem, top, Put32(PROP)), top + 8, Put32(nameOff)), top + 4, Put32(len))
    ensures t.Prop? && t.Ok() && t.nameOff == nameOff && |t.value| == len && |t.Enc()| == 12 + Align4(len)
    ensures At(mem', top, t.Enc())
    ensures mem'[..top] == mem[..top] && mem'[top + |t.Enc()|..] == mem[top + |t.Enc()|..]
  {
    hide Put32, Stored, At, Token.Enc;
    var c0, c1, c2 := Put32(PROP), Put32(len), Put32(nameOff);
    var m1 := Stored(mem, top, c0);
    var m2 := Stored(m1, top + 8, c2);
    StoredAt(mem, top, c0);
    StoredElsewhere(m1, top + 8, c2, top, c0);
    StoredElsewhere(m2, top + 4, c1, top, c0);
    StoredAt(m1, top + 8, c2);
    StoredElsewhere(m2, top + 4, c1, top + 8, c2);
    StoredAt(m2, top + 4, c1);
    TokenOfEnc(mem', top, nameOff, len);
    t := TokenOf(mem', top, nameOff, len);
    EncLength(t);
    var b := top + 12 + Align4(len);
    StoredEnds(mem, top, c0, top, b);
    StoredEnds(m1, top + 8, c2, top, b);
    StoredEnds(m2, top + 4, c1, top, b);
  }

  // The value of the last property is filled in.
  lemma ValueWritten(h: Header, mem: seq<byte>, ts: seq<Token>, t: Token, val: seq<byte>)
    requires t.Prop? && |val| == |t.value| && Writing(h, mem, ts + [t]) && h.sizeStruct >= 12 + Align4(|val|)
    ensures var p := h.offStruct + h.sizeStruct - Align4(|val|);
            var mem' := Stored(mem, p, val);
            var t' := t.(value := val);
            && Writing(h, mem', ts + [t'])
            && SwHead(h, mem') == SwHead(h, mem) && SwTail(h, mem') == SwTail(h, mem)
  {
    hide EncAll, RsvCount, AllEmittable, Stored, Token.Enc, Token.Ok, At, SwHead, SwTail, SwStruct, NameBack;
    var a := Align4(|val|);
    var p := h.offStruct + h.sizeStruct - a;
    var t' := t.(value := val);
    var tail := SwTail(h, mem);
    LastEmittable(ts, t, tail);
    EncAllConcat(ts, [t]);
    EncAllConcat(ts, [t']);
    EncOne(t);
    EncOne(t');
    EncLength(t);
    StructSizeOf(h, mem);
    LastToken(EncAll(ts), t, val);
    BlocksStored(h, mem, p, val);
    EmittableSnoc(ts, t', tail);
  }

  lemma LastEmittable(ts: seq<Token>, t: Token, tail: seq<byte>)
    requires AllEmittable(ts + [t], tail) && t.Prop?
    ensures AllEmittable(ts, tail) && t.Ok()
    ensures forall v: seq<byte> | |v| == |t.value| :: Emittable(t.(value := v), tail)
  {
    hide NameBack;
    assert (ts + [t])[|ts|] == t && Emittable((ts + [t])[|ts|], tail);
    forall i | 0 <= i < |ts| ensures Emittable(ts[i], tail) {
      assert (ts + [t])[i] == ts[i] && Emittable((ts + [t])[i], tail);
    }
  }

  lemma StructSizeOf(h: Header, mem: seq<byte>)
    requires Apart(h, |mem|)
    ensures |SwStruct(h, mem)| == h.sizeStruct
  {
  }

  lemma LastToken(front: seq<byte>, t: Token, val: seq<byte>)
    requires t.Prop? && t.Ok() && |val| == |t.value|
    ensures |t.Enc()| == 12 + Align4(|val|)
    ensures Stored(front + t.Enc(), |front| + 12, val) == front + t.(value := val).Enc()
  {
    hide Token.Enc, Token.Ok, Stored, At;
    var st := front + t.Enc();
    EncLength(t);
    assert At(st, |front|, t.Enc()) by { AtEnd(front, t.Enc()); }
    InplaceToken(st, |front|, t, 0, val);
    StoredAll(t.value, val);
    SpliceEnd(front, t.Enc(), t.(value := val).Enc());
  }

  lemma AtEnd<T>(a: seq<T>, b: seq<T>)
    ensures At(a + b, |a|, b)
  {
  }

  lemma SpliceEnd<T>(a: seq<T>, b: seq<T>, c: seq<T>)
    ensures Splice(a + b, |a|, |a| + |b|, c) == a + c
  {
    assert (a + b)[..|a|] == a && (a + b)[|a| + |b|..] == [];
  }

  lemma BlocksStored(h: Header, mem: seq<byte>, p: nat, val: seq<byte>)
    requires Apart(h, |mem|) && h.offStruct <= p && p + |val| <= h.offStruct + h.sizeStruct
    ensures var mem' := Stored(mem, p, val);
            && SwHead(h, mem') == SwHead(h, mem) && SwTail(h, mem') == SwTail(h, mem)
            && |SwStruct(h, mem)| == h.sizeStruct
            && SwStruct(h, mem') == Stored(SwStruct(h, mem), p - h.offStruct, val)
  {
    StoredBeside(mem, p, val, 0, h.offStruct);
    StoredBeside(mem, p, val, h.totalsize - h.sizeStrings, h.totalsize);
    StoredInside(mem, h.offStruct, h.sizeStruct, p - h.offStruct, val);
  }

  // fdt_property
  method PropertyCall(fdt: Blob, name: seq<byte>, val: seq<byte>) returns (r: Result<()>)
    requires StructProbe(fdt.hdr).Success? ==> Writing(fdt.hdr, fdt.buf[..], fdt.toks)
    requires StructProbe(fdt.hdr).Success? ==>
               Apart(fdt.hdr, fdt.buf.Length) && StringStays(fdt.hdr, fdt.buf[..], name)
    requires |val| <= MAX_LEN && |name| <= MAX_LEN && NoNul(name)
    modifies fdt`hdr, fdt`toks, fdt.buf
    ensures StructProbe(old(fdt.hdr)).Failure? ==>
              r == StructProbe(old(fdt.hdr)) && fdt.hdr == old(fdt.hdr) && fdt.buf[..] == old(fdt.buf[..])
    ensures StructProbe(old(fdt.hdr)).Success? ==>
              && old(Apart(fdt.hdr, fdt.buf.Length))
              && (r.Failure? <==> old(fdt.hdr.offStruct + fdt.hdr.sizeStruct + fdt.hdr.sizeStrings
                                      + NameRoom(fdt.hdr, fdt.buf[..], name)) + 12
                                        + Align4(|val|) > old(fdt.hdr.totalsize))
              && (r.Failure? ==> r == Failure(NoSpace) && fdt.hdr == old(fdt.hdr) && fdt.toks == old(fdt.toks)
                                 && SameLive(old(fdt.hdr), old(fdt.buf[..]), fdt.buf[..]))
    ensures r.Success? ==>
              Extends(old(fdt.hdr), old(fdt.buf[..]), old(fdt.toks), fdt.hdr, fdt.buf[..], fdt.toks, Put(name, val))
              && fdt.hdr.sizeStruct == old(fdt.hdr.sizeStruct) + 12 + Align4(|val|)
              && Apart(fdt.hdr, fdt.buf.Length)
              && SwTail(fdt.hdr, fdt.buf[..]) == old(NextTail(fdt.hdr, fdt.buf[..], name))
  {
    hide Stored, SameLive, NameRoom, Extends, Writing, Apart;
    ghost var h, mem, ts := fdt.hdr, fdt.buf[..], fdt.toks;
    var p;
    ghost var t;
    p, t := PropertyPlaceholder(fdt, name, |val|);
    if p.Failure? {
      return Failure(p.error);
    }
    ghost var mid := fdt.buf[..];
    ExtendsFacts(h, mem, ts, fdt.hdr, mid, ts + [t], Put(name, t.value));
    Memcpy(fdt.buf, p.value, val);
    fdt.toks := ts + [t.(value := val)];
    ExtendsValue(h, mem, ts, fdt.hdr, mid, t, name, val);
    return Success(());
  }

  lemma ExtendsFacts(h: Header, mem: seq<byte>, ts: seq<Token>, h': Header, mem': seq<byte>, ts': seq<Token>, c: Call)
    requires Extends(h, mem, ts, h', mem', ts', c)
    ensures h'.offStruct + h'.sizeStruct <= |mem'| && Apart(h, |mem|) && Apart(h', |mem'|)
    ensures Writing(h', mem', ts') && Writing(h, mem, ts)
  {
  }

  lemma ExtendsValue(h: Header, mem: seq<byte>, ts: seq<Token>, h': Header, mid: seq<byte>, t: Token, name: seq<byte>,
                     val: seq<byte>)
    requires t.Prop? && |val| == |t.value| && h'.sizeStruct >= 12 + Align4(|val|)
    requires Extends(h, mem, ts, h', mid, ts + [t], Put(name, t.value))
    ensures var p := h'.offStruct + h'.sizeStruct - Align4(|val|);
            && p + |val| <= |mid|
            && Extends(h, mem, ts, h', Stored(mid, p, val), ts + [t.(value := val)], Put(name, val))
            && Apart(h', |mid|) && SwTail(h', Stored(mid, p, val)) == SwTail(h', mid)
  {
    hide Stored, Calls, CallOf, Writing, SwHead, SwTail;
    ExtendsFacts(h, mem, ts, h', mid, ts + [t], Put(name, t.value));
    ValueWritten(h', mid, ts, t, val);
    var tail := SwTail(h', mid);
    CallsSnoc(ts, t, tail);
    CallsSnoc(ts, t.(value := val), tail);
    CallValue(t, val, tail);
    LastCall(Calls(ts, tail), CallOf(t, tail), Written(h, mem, ts), Put(name, t.value));
  }

  lemma LastCall<T>(a: seq<T>, x: T, b: seq<T>, y: T)
    requires a + [x] == b + [y]
    ensures a == b && x == y
  {
    assert (a + [x])[|a|] == x && (b + [y])[|b|] == y;
    assert (a + [x])[..|a|] == a && (b + [y])[..|b|] == b;
  }

  lemma CallValue(t: Token, val: seq<byte>, tail: seq<byte>)
    requires t.Prop?
    ensures CallOf(t, tail).Put? && CallOf(t.(value := val), tail) == CallOf(t, tail).(value := val)
  {
  }

  // While the structure is written, fdt_get_string finds the name of every property emitted.
  lemma EmittedName(h: Header, mem: seq<byte>, ts: seq<Token>, i: nat)
    requires Writing(h, mem, ts) && i < |ts| && ts[i].Prop? && h.sizeStruct > 0
    ensures NameBack(SwTail(h, mem), ts[i].nameOff).Some?
    ensures StringLookup(h, mem, ts[i].nameOff - 0x1_0000_0000)
         == Success(NameBack(SwTail(h, mem), ts[i].nameOff).value)
  {
    hide EncAll, RsvCount, CStr, StringLookup, StringWithin;
    assert Emittable(ts[i], SwTail(h, mem));
    var back := 0x1_0000_0000 - ts[i].nameOff;
    LookupBack(h, mem, back);
    StringWithinWindow(mem, h.totalsize - h.sizeStrings, h.sizeStrings, h.sizeStrings - back);
  }

  // A negative offset counts back from the end of the blob.
  lemma LookupBack(h: Header, mem: seq<byte>, back: int)
    requires Apart(h, |mem|) && h.sizeStruct > 0 && 0 < back <= h.sizeStrings
    ensures StringLookup(h, mem, -back) == StringWithin(mem, h.totalsize - back, back)
  {
    hide StringWithin;
    assert (-back) % 0x1_0000_0000 == 0x1_0000_0000 - back;
    assert Add32((-back) % 0x1_0000_0000, h.offStrings) == h.totalsize - back;
    assert RoProbe(h) == Success(h.totalsize);
  }

  // fdt_resize -------------------------------------------------------------------------------------------

  function ResizedHeader(h: Header, bufsize: u32): Header {
    h.(totalsize := bufsize, offStrings := if h.offStrings != 0 then bufsize else 0)
  }

  // Head and tail of the blob at `at` are found at the two ends of the buffer at `to`, and nothing
  // outside that buffer has changed.
  ghost predicate Relaid(h: Header, mem: seq<byte>, mem': seq<byte>, at: nat, to: nat, bufsize: nat) {
    var head, tail := h.offStruct + h.sizeStruct, h.sizeStrings;
    && head + tail <= bufsize && head + tail <= h.totalsize
    && |mem'| == |mem| && at + h.totalsize <= |mem| && to + bufsize <= |mem|
    && mem'[to..to + head] == mem[at..at + head]
    && mem'[to + bufsize - tail..to + bufsize] == mem[at + h.totalsize - tail..at + h.totalsize]
    && forall k :: 0 <= k < to || to + bufsize <= k < |mem| ==> mem'[k] == mem[k]
  }

  lemma RelaidDown(h: Header, m0: seq<byte>, m1: seq<byte>, at: nat, to: nat, bufsize: nat)
    requires var head, tail := h.offStruct + h.sizeStruct, h.sizeStrings;
             && head + tail <= bufsize && head + tail <= h.totalsize && to <= at
             && at + h.totalsize <= |m0| && to + bufsize <= |m0|
             && m1 == Moved(m0, to, at, head)
    ensures Relaid(h, m0, Moved(m1, to + bufsize - h.sizeStrings, at + h.totalsize - h.sizeStrings, h.sizeStrings), at,
                   to, bufsize)
  {
    hide Moved, Relaid;
    var head, tail := h.offStruct + h.sizeStruct, h.sizeStrings;
    var d, s := to + bufsize - tail, at + h.totalsize - tail;
    TwoMoves(m0, m1, to, at, head, d, s, tail);
    RelaidIs(h, m0, Moved(m1, d, s, tail), at, to, bufsize, d, s);
  }

  lemma RelaidIs(h: Header, mem: seq<byte>, mem': seq<byte>, at: nat, to: nat, bufsize: nat, d: nat, s: nat)
    requires var head, tail := h.offStruct + h.sizeStruct, h.sizeStrings;
             && head + tail <= bufsize && head + tail <= h.totalsize
             && |mem'| == |mem| && at + h.totalsize <= |mem| && to + bufsize <= |mem|
             && d + tail == to + bufsize && s + tail == at + h.totalsize
             && mem'[to..to + head] == mem[at..at + head] && mem'[d..d + tail] == mem[s..s + tail]
             && forall k :: 0 <= k < |mem| && !(to <= k < to + head) && !(d <= k < d + tail) ==> mem'[k] == mem[k]
    ensures Relaid(h, mem, mem', at, to, bufsize)
  {
  }

  lemma RelaidUp(h: Header, m0: seq<byte>, m1: seq<byte>, at: nat, to: nat, bufsize: nat)
    requires var head, tail := h.offStruct + h.sizeStruct, h.sizeStrings;
             && head + tail <= bufsize && head + tail <= h.totalsize && at < to
             && at + h.totalsize <= |m0| && to + bufsize <= |m0|
             && m1 == Moved(m0, to + bufsize - tail, at + h.totalsize - tail, tail)
    ensures Relaid(h, m0, Moved(m1, to, at, h.offStruct + h.sizeStruct), at, to, bufsize)
  {
    hide Moved, Relaid;
    var head, tail := h.offStruct + h.sizeStruct, h.sizeStrings;
    var d, s := to + bufsize - tail, at + h.totalsize - tail;
    TwoMoves(m0, m1, d, s, tail, to, at, head);
    RelaidIs(h, m0, Moved(m1, to, at, head), at, to, bufsize, d, s);
  }

  // Both buffers lie in one memory and may overlap in any way: the blob at `at` moves to `to`.
  method Resize(a: array<byte>, at: nat, h: Header, to: nat, bufsize: nat) returns (r: Result<Header>)
    requires at + h.totalsize <= a.Length && to + bufsize <= a.Length && bufsize < INT32_MAX && h.totalsize < INT32_MAX
    modifies a
    ensures var head, tail := h.offStruct + h.sizeStruct, h.sizeStrings;
            r == if h.magic == FDT_MAGIC then Failure(BadState)
                 else if h.magic != SW_MAGIC then Failure(BadMagic)
                 else if head + tail > h.totalsize then Failure(Internal)
                 else if head + tail > bufsize then Failure(NoSpace)
                 else Success(ResizedHeader(h, bufsize))
    ensures r.Failure? ==> a[..] == old(a[..])
    ensures r.Success? ==> Relaid(h, old(a[..]), a[..], at, to, bufsize)
  {
    hide Moved, Relaid;
    if h.magic == FDT_MAGIC {
      return Failure(BadState);
    } else if h.magic != SW_MAGIC {
      return Failure(BadMagic);
    }
    var headsize := h.offStruct + h.sizeStruct;
    var tailsize := h.sizeStrings;
    if headsize + tailsize > h.totalsize {
      return Failure(Internal);
    }
    if headsize + tailsize > bufsize {
      return Failure(NoSpace);
    }
    var oldtail := at + h.totalsize - tailsize;
    var newtail := to + bufsize - tailsize;
    ghost var m0 := a[..];
    if to <= at {
      Memmove(a, to, at, headsize);
      ghost var m1 := a[..];
      Memmove(a, newtail, oldtail, tailsize);
      RelaidDown(h, m0, m1, at, to, bufsize);
    } else {
      Memmove(a, newtail, oldtail, tailsize);
      ghost var m1 := a[..];
      Memmove(a, to, at, headsize);
      RelaidUp(h, m0, m1, at, to, bufsize);
    }
    return Success(ResizedHeader(h, bufsize));
  }

  // Two moves, the first of which spares what the second copies, and the second the first's copy.
  lemma TwoMoves(m0: seq<byte>, m1: seq<byte>, d1: nat, s1: nat, n1: nat, d2: nat, s2: nat, n2: nat)
    requires d1 + n1 <= |m0| && s1 + n1 <= |m0| && d2 + n2 <= |m0| && s2 + n2 <= |m0|
    requires m1 == Moved(m0, d1, s1, n1)
    requires s2 + n2 <= d1 || d1 + n1 <= s2
    requires d2 + n2 <= d1 || d1 + n1 <= d2
    ensures var m2 := Moved(m1, d2, s2, n2);
            && m2[d1..d1 + n1] == m0[s1..s1 + n1] && m2[d2..d2 + n2] == m0[s2..s2 + n2]
            && forall k :: 0 <= k < |m0| && !(d1 <= k < d1 + n1) && !(d2 <= k < d2 + n2) ==> m2[k] == m0[k]
  {
    hide Moved;
    MovedFacts(m0, d1, s1, n1);
    MovedFacts(m1, d2, s2, n2);
    SameWindow(m0, m1, s2, s2 + n2);
    SameWindow(m1, Moved(m1, d2, s2, n2), d1, d1 + n1);
  }

  lemma MovedFacts(s: seq<byte>, dest: nat, src: nat, n: nat)
    requires dest + n <= |s| && src + n <= |s|
    ensures Moved(s, dest, src, n)[dest..dest + n] == s[src..src + n]
    ensures forall k :: 0 <= k < dest || dest + n <= k < |s| ==> Moved(s, dest, src, n)[k] == s[k]
  {
  }

  lemma SameWindow<T>(s: seq<T>, s': seq<T>, x: nat, y: nat)
    requires x <= y <= |s| == |s'| && forall k :: x <= k < y ==> s'[k] == s[k]
    ensures s'[x..y] == s[x..y]
  {
  }

  // The writer goes on in the new buffer with the same tokens and the same calls behind it, so the
  // calls that follow write the same tree as without the resize.
  lemma ResizeKeeps(h: Header, mem: seq<byte>, mem': seq<byte>, at: nat, to: nat, bufsize: nat, ts: seq<Token>)
    requires at + h.totalsize <= |mem| && Writing(h, mem[at..at + h.totalsize], ts)
    requires Relaid(h, mem, mem', at, to, bufsize) && bufsize < INT32_MAX
    ensures var h' := ResizedHeader(h, bufsize);
            var w, w' := mem[at..at + h.totalsize], mem'[to..to + bufsize];
            && Writing(h', w', ts)
            && Written(h', w', ts) == Written(h, w, ts)
            && SwHead(h', w') == SwHead(h, w)
  {
    hide EncAll, RsvCount, AllEmittable, Calls, SwHead, SwStruct, SwTail, Relaid;
    RelaidBlocks(h, mem, mem', at, to, bufsize);
  }

  lemma RelaidBlocks(h: Header, mem: seq<byte>, mem': seq<byte>, at: nat, to: nat, bufsize: nat)
    requires at + h.totalsize <= |mem| && Apart(h, h.totalsize)
    requires Relaid(h, mem, mem', at, to, bufsize) && bufsize < INT32_MAX
    ensures to + bufsize <= |mem'|
    ensures var h' := ResizedHeader(h, bufsize);
            var w, w' := mem[at..at + h.totalsize], mem'[to..to + bufsize];
            && Apart(h', |w'|)
            && SwHead(h', w') == SwHead(h, w) && SwStruct(h', w') == SwStruct(h, w) && SwTail(h', w') == SwTail(h, w)
  {
    var head, tail, n := h.offStruct + h.sizeStruct, h.sizeStrings, h.totalsize;
    SameFront(mem, at, n, mem', to, bufsize, head, h.offStruct);
    SliceSlice(mem, at, at + n, n - tail, n);
    SliceSlice(mem', to, to + bufsize, bufsize - tail, bufsize);
  }

  lemma SameFront(mem: seq<byte>, at: nat, n: nat, mem': seq<byte>, to: nat, n': nat, head: nat, x: nat)
    requires at + n <= |mem| && to + n' <= |mem'| && x <= head <= n && head <= n'
    requires mem'[to..to + head] == mem[at..at + head]
    ensures mem'[to..to + n'][..x] == mem[at..at + n][..x]
    ensures mem'[to..to + n'][x..head] == mem[at..at + n][x..head]
  {
    FrontParts(mem, at, n, head, x);
    FrontParts(mem', to, n', head, x);
  }

  // The first x bytes of a window and those behind them, up to head.
  lemma FrontParts(mem: seq<byte>, at: nat, n: nat, head: nat, x: nat)
    requires at + n <= |mem| && x <= head <= n
    ensures mem[at..at + n][..x] == mem[at..at + head][..x]
    ensures mem[at..at + n][x..head] == mem[at..at + head][x..]
  {
    SliceSlice(mem, at, at + n, 0, x);
    SliceSlice(mem, at, at + n, x, head);
    SliceSlice(mem, at, at + head, 0, x);
    SliceSlice(mem, at, at + head, x, head);
  }
}
