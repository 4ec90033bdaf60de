// Deleting and renaming nodes, deleting properties, and blanking out (fdt_rw.c, fdt_wip.c).
// Deleting and blanking out lead to the same tree; blanking out leaves all other bytes and
// offsets alone.
module NodeEditor {
  import opened Bytes
  import opened Tokens
  import opened Structure
  import opened Scan
  import opened Memory
  import opened Blobs
  import opened Readers
  import opened Splicing
  import opened Edits
  import opened Editor

  // Replacing a whole node ----------------------------------------------------------------

  lemma FragmentPlace(shape: Items, i: nat)
    requires IsNode(shape, i)
    ensures i + |Toks(NodeAt(shape, i))| < |Stream(shape)|
    ensures Off(Stream(shape), i) <= Off(Stream(shape), i + |Toks(NodeAt(shape, i))|) <= |EncAll(Stream(shape))|
  {
    hide Toks, NodeAt, Stream, EncAll, Off;
    StreamReplace(shape, i, Done);
    StreamLength(shape);
    EncAllReplace(Stream(shape), i, i + |Toks(NodeAt(shape, i))|, []);
  }

  lemma FragmentBytes(shape: Items, i: nat, frag: Items)
    requires IsNode(shape, i) && i + |Toks(NodeAt(shape, i))| < |Stream(shape)|
    requires Off(Stream(shape), i) <= Off(Stream(shape), i + |Toks(NodeAt(shape, i))|) <= |EncAll(Stream(shape))|
    ensures var ts := Stream(shape);
            EncAll(Stream(ReplaceAt(shape, i, frag)))
            == Splice(EncAll(ts), Off(ts, i), Off(ts, i + |Toks(NodeAt(shape, i))|), EncAll(Toks(frag)))
  {
    hide Toks, NodeAt, ReplaceAt, Splice, Stream, EncAll, Off;
    StreamReplace(shape, i, frag);
    StreamLength(shape);
    EncAllReplace(Stream(shape), i, i + |Toks(NodeAt(shape, i))|, Toks(frag));
  }

  // The layout around a changed structure block.
  ghost predicate SameAround(before: Image, after: Image) {
    && OrderedIn(before.hdr, |before.mem|) && OrderedIn(after.hdr, |after.mem|)
    && HeaderKept(before.hdr, after.hdr)
    && HeadOf(after.hdr, after.mem) == HeadOf(before.hdr, before.mem)
    && StringsOf(after.hdr, after.mem) == StringsOf(before.hdr, before.mem)
  }

  lemma FragmentDone(before: Image, after: Image, n: nat, frag: Items)
    requires before.Valid() && IsNodeOffset(before.shape, n) && SameAround(before, after)
    requires WellNested(frag, true) && NoProps(frag) && Resolved(frag, StringsOf(before.hdr, before.mem))
    requires after.shape == ReplaceAt(before.shape, IndexAt(before.shape, n), frag)
    requires StructOf(after.hdr, after.mem) == EncAll(Stream(after.shape))
    ensures NodeEdited(before, after, n, Kids(frag, StringsOf(before.hdr, before.mem)))
  {
    hide Describes, Off, Stream, EncAll, WellNested, NoProps, Resolved, Kids, ReplaceAt, StringsOf, StructOf, HeadOf,
      RsvCount, Edited, NodeEdited, HeaderKept;
    var i := IndexAt(before.shape, n);
    var strs := StringsOf(before.hdr, before.mem);
    assert strs + [] == strs;
    FragmentEdit(before.shape, StructOf(before.hdr, before.mem), strs, [], i, frag, StructOf(after.hdr, after.mem));
    EditDone(before, after, i, Kids(frag, strs));
  }

  // fdt_del_node
  method DelNode(fdt: Blob, n: nat) returns (r: Result<()>)
    requires RwProbe(fdt.hdr).Success? ==> fdt.Valid() && fdt.NodeArg(n)
    modifies fdt, fdt.buf
    ensures old(RwProbe(fdt.hdr)).Failure? ==> r == Failure(old(RwProbe(fdt.hdr)).error)
    ensures old(RwProbe(fdt.hdr)).Success? ==>
              r == if old(IsNodeOffset(fdt.shape, n)) then Success(()) else Failure(BadOffset)
    ensures r.Failure? ==> fdt.Img() == old(fdt.Img())
    ensures r.Success? ==>
              && NodeEdited(old(fdt.Img()), fdt.Img(), n, [])
              && (n > 0 ==> KeepsOffsets(old(fdt.shape), fdt.shape, n - 1))
              && DataSize(fdt.hdr) == DataSize(old(fdt.hdr)) - (EndOf(old(fdt.shape), n) - n)
  {
    hide KeepsOffsets, RwProbe, Describes, Off, Stream, NodeEdited, StructOf, StringsOf, HeadOf, RsvCount, NodeCheck,
      NodeAt, ReplaceAt, Toks, StructSpliced, Splice, EncAll, HeaderKept;
    var probe := RwProbe(fdt.hdr);
    if probe.Failure? {
      return Failure(probe.error);
    }
    ghost var before := fdt.Img();
    ghost var i := if IsNodeOffset(fdt.shape, n) then IndexAt(fdt.shape, n) else 0;
    var end := NodeEndOffset(fdt, n);
    if end.Failure? {
      return Failure(end.error);
    }
    FragmentPlace(fdt.shape, i);
    FragmentBytes(fdt.shape, i, Done);
    EndInside(before, i);
    if n > 0 {
      CutKeepsOffsets(fdt.shape, i, Done);
    }
    r := SpliceStruct(fdt, n, end.value - n, 0);
    SplicedLayout(before.hdr, before.mem, fdt.hdr, fdt.buf[..], n, end.value - n, 0);
    SplicedSize(before.hdr, before.mem, fdt.hdr, fdt.buf[..], n, end.value - n, 0);
    fdt.shape := ReplaceAt(fdt.shape, i, Done);
    CutBytes(before, fdt.Img(), n, end.value - n);
    NothingLeft(fdt.StringsBlock());
    FragmentDone(before, fdt.Img(), n, Done);
  }

  lemma NothingLeft(strs: seq<byte>)
    ensures WellNested(Done, true) && NoProps(Done) && Resolved(Done, strs)
    ensures Kids(Done, strs) == [] && Toks(Done) == [] && EncAll([]) == []
  {
  }

  lemma EndInside(im: Image, i: nat)
    requires im.Valid() && IsNode(im.shape, i)
    ensures StructOf(im.hdr, im.mem) == EncAll(Stream(im.shape))
    ensures |EncAll(Stream(im.shape))| == im.hdr.sizeStruct
  {
    hide Stream, EncAll;
  }

  lemma CutBytes(before: Image, after: Image, p: nat, len: nat)
    requires StructSpliced(before.hdr, before.mem, after.hdr, after.mem, p, len, 0)
    requires OrderedIn(before.hdr, |before.mem|) && OrderedIn(after.hdr, |after.mem|)
    ensures p + len <= before.hdr.sizeStruct
    ensures StructOf(after.hdr, after.mem) == Splice(StructOf(before.hdr, before.mem), p, p + len, [])
  {
    hide StructOf, HeadOf, StringsOf, Splice;
    StructSize(before.hdr, before.mem);
    StructSize(after.hdr, after.mem);
    CutIs(StructOf(before.hdr, before.mem), StructOf(after.hdr, after.mem), p, len);
  }

  lemma CutIs(st: seq<byte>, st': seq<byte>, p: nat, len: nat)
    requires p + len <= |st| && |st'| == |st| - len && st'[..p] == st[..p] && st'[p..] == st[p + len..]
    ensures st' == Splice(st, p, p + len, [])
  {
    SplicedIs(st, st', p, p + len, []);
  }

  // Removing a property -------------------------------------------------------------------

  // The property token k of node n has given way to leaves without meaning.
  lemma DropDone(before: Image, after: Image, n: nat, name: seq<byte>, k: nat, p: nat, t: Token, frag: Items)
    requires before.Valid() && PropertyAt(before, n, name, k, p, t) && SameAround(before, after)
    requires OnlyLeaves(frag) && NoProps(frag) && WellNested(frag, true)
    requires Resolved(frag, StringsOf(before.hdr, before.mem))
    requires FindProp(NodeAt(before.shape, IndexAt(before.shape, n)).body, StringsOf(before.hdr, before.mem), name)
             == Some(k)
    requires var i := IndexAt(before.shape, n);
             after.shape == WithBody(before.shape, i, ReplaceProp(NodeAt(before.shape, i).body, k, frag))
    requires p + |t.Enc()| <= before.hdr.sizeStruct
    requires StructOf(after.hdr, after.mem)
          == Splice(StructOf(before.hdr, before.mem), p, p + |t.Enc()|, EncAll(Toks(frag)))
    ensures FirstProp(before.NodeOf(n).props, name) < |before.NodeOf(n).props|
    ensures NodeEdited(before, after, n, [DropProp(before.NodeOf(n), name)])
  {
    hide Describes, Off, Stream, EncAll, WellNested, NoProps, Resolved, Kids, Props, ReplaceAt, StringsOf, StructOf,
      HeadOf, RsvCount, Edited, NodeEdited, HeaderKept, Splice, Token.Enc, Token.Ok, CStr, NodeAt, ReplaceProp,
      WithBody, DropProp, At, FindProp, OnlyLeaves;
    var i := IndexAt(before.shape, n);
    PropertyFacts(before, n, name, k, p, t);
    StructSize(before.hdr, before.mem);
    NamedPropRemoved(before.shape, StructOf(before.hdr, before.mem), StringsOf(before.hdr, before.mem), i, name, k,
                     frag,
                     StructOf(after.hdr, after.mem));
    EditDone(before, after, i, [DropProp(before.NodeOf(n), name)]);
  }

  lemma BodyKeepsOffsets(shape: Items, n: nat, b: Items)
    requires IsNodeOffset(shape, n)
    ensures KeepsOffsets(shape, WithBody(shape, IndexAt(shape, n), b), n)
  {
    hide Off, Stream, NodeAt, ReplaceAt, KeepsOffsets;
    var i := IndexAt(shape, n);
    ReplaceKeepsOffsets(shape, i, Sub(NodeAt(shape, i).name, NodeAt(shape, i).npad, b, Done));
  }

  // fdt_delprop
  method DelProp(fdt: Blob, n: nat, name: seq<byte>) returns (r: Result<()>)
    requires RwProbe(fdt.hdr).Success? ==> fdt.Valid() && fdt.NodeArg(n)
    modifies fdt, fdt.buf
    ensures old(RwProbe(fdt.hdr)).Failure? ==> r == Failure(old(RwProbe(fdt.hdr)).error)
    ensures old(RwProbe(fdt.hdr)).Success? ==>
              && (r == Failure(BadOffset) <==> old(!IsNodeOffset(fdt.shape, n)))
              && (old(IsNodeOffset(fdt.shape, n)) ==>
                    (r == Failure(NotFound) <==> old(OldValue(fdt.Img(), n, name)) == None)
                    && (r.Success? <==> old(OldValue(fdt.Img(), n, name)).Some?))
    ensures r.Failure? ==> fdt.Img() == old(fdt.Img())
    ensures r.Success? ==>
              && old(IsNodeOffset(fdt.shape, n))
              && old(FirstProp(fdt.Img().NodeOf(n).props, name) < |fdt.Img().NodeOf(n).props|)
              && NodeEdited(old(fdt.Img()), fdt.Img(), n, [DropProp(old(fdt.Img().NodeOf(n)), name)])
              && KeepsOffsets(old(fdt.shape), fdt.shape, n)
              && DataSize(fdt.hdr) == DataSize(old(fdt.hdr)) - 12 - Align4(|old(OldValue(fdt.Img(), n, name)).value|)
  {
    hide KeepsOffsets, RwProbe, Describes, Off, Stream, NodeEdited, StructOf, StringsOf, HeadOf, RsvCount, NodeCheck,
      NodeAt, ReplaceAt, Toks, StructSpliced, Splice, EncAll, HeaderKept, DropProp, PropertyAt, WithBody, ReplaceProp,
      Token.Enc, Token.Ok, At, CStr, FindProp, OldValue, FirstProp;
    var probe := RwProbe(fdt.hdr);
    if probe.Failure? {
      return Failure(probe.error);
    }
    ghost var before := fdt.Img();
    ghost var k, t;
    var p, len;
    p, len, k, t := FindProperty(fdt, n, name);
    if p.Failure? {
      return Failure(p.error);
    }
    PropertyExtent(before, n, name, k, p.value, t);
    PropertyFacts(before, n, name, k, p.value, t);
    EncLength(t);
    var proplen := 12 + Align4(len);
    r := SpliceStruct(fdt, p.value, proplen, 0);
    SplicedLayout(before.hdr, before.mem, fdt.hdr, fdt.buf[..], p.value, proplen, 0);
    SplicedSize(before.hdr, before.mem, fdt.hdr, fdt.buf[..], p.value, proplen, 0);
    BodyKeepsOffsets(fdt.shape, n, ReplaceProp(NodeAt(fdt.shape, IndexAt(fdt.shape, n)).body, k, Done));
    ghost var i := IndexAt(fdt.shape, n);
    ReplaceableProp(before, n, name, k);
    fdt.shape := WithBody(fdt.shape, i, ReplaceProp(NodeAt(fdt.shape, i).body, k, Done));
    CutBytes(before, fdt.Img(), p.value, proplen);
    NothingLeft(StringsOf(before.hdr, before.mem));
    DropDone(before, fdt.Img(), n, name, k, p.value, t, Done);
  }

  lemma ReplaceableProp(im: Image, n: nat, name: seq<byte>, k: nat)
    requires OrderedIn(im.hdr, |im.mem|) && IsNodeOffset(im.shape, n)
    requires FindProp(NodeAt(im.shape, IndexAt(im.shape, n)).body, StringsOf(im.hdr, im.mem), name) == Some(k)
    ensures IsPropOf(NodeAt(im.shape, IndexAt(im.shape, n)).body, k)
    ensures OnlyLeaves(Done)
  {
  }

  // Blanking out ----------------------------------------------------------------------------

  function NopRun(m: nat): Items {
    if m == 0 then Done else Leaf(Nop, NopRun(m - 1))
  }

  function NopBytes(m: nat): (s: seq<byte>)
    ensures |s| == 4 * m
  {
    if m == 0 then [] else Put32(NOP) + NopBytes(m - 1)
  }

  lemma {:induction false} NopRunIs(m: nat, strs: seq<byte>)
    ensures var f := NopRun(m);
            && OnlyLeaves(f) && NoProps(f) && WellNested(f, true) && Resolved(f, strs)
            && Kids(f, strs) == []
            && |Toks(f)| == m && (forall j :: 0 <= j < m ==> Toks(f)[j] == Nop)
            && EncAll(Toks(f)) == NopBytes(m)
  {
    if m > 0 {
      NopRunIs(m - 1, strs);
      NopRunStep(m);
    }
  }

  lemma NopRunStep(m: nat)
    requires m > 0
    ensures Toks(NopRun(m)) == [Nop] + Toks(NopRun(m - 1))
    ensures EncAll(Toks(NopRun(m))) == Put32(NOP) + EncAll(Toks(NopRun(m - 1)))
  {
    assert Toks(NopRun(m))[1..] == Toks(NopRun(m - 1));
  }

  lemma {:induction false} NopBytesSnoc(m: nat)
    ensures NopBytes(m) + Put32(NOP) == NopBytes(m + 1)
  {
    hide Put32;
    if m > 0 {
      NopBytesSnoc(m - 1);
      assert Put32(NOP) + NopBytes(m - 1) + Put32(NOP) == Put32(NOP) + (NopBytes(m - 1) + Put32(NOP));
    } else {
      assert [] + Put32(NOP) == Put32(NOP) + [];
    }
  }

  lemma StoredJoin(s: seq<byte>, base: nat, x: seq<byte>, y: seq<byte>)
    requires base + |x| + |y| <= |s|
    ensures Stored(Stored(s, base, x), base + |x|, y) == Stored(s, base, x + y)
  {
  }

  // fdt_nop_region_: NOP words over the bytes from off on, until len bytes are covered.
  method NopRegion(fdt: Blob, off: nat, len: nat)
    requires fdt.Ordered() && off + Align4(len) <= fdt.hdr.sizeStruct
    modifies fdt.buf
    ensures fdt.buf[..] == Stored(old(fdt.buf[..]), fdt.hdr.offStruct + off, NopBytes(Align4(len) / 4))
  {
    hide Stored, Put32, NopBytes;
    ghost var mem := fdt.buf[..];
    var start := fdt.hdr.offStruct + off;
    var p := start;
    ghost var m := 0;
    StoredNothing(mem, start);
    while p < start + len
      invariant p == start + 4 * m && 4 * m <= Align4(len)
      invariant fdt.buf[..] == Stored(mem, start, NopBytes(m))
    {
      Memcpy(fdt.buf, p, Put32(NOP));
      StoredJoin(mem, start, NopBytes(m), Put32(NOP));
      NopBytesSnoc(m);
      p := p + 4;
      m := m + 1;
    }
  }

  lemma StoredNothing(s: seq<byte>, base: nat)
    requires base <= |s|
    ensures NopBytes(0) == [] && Stored(s, base, NopBytes(0)) == s
  {
  }

  lemma StoredIsSplice(s: seq<byte>, off: nat, e: seq<byte>)
    requires off + |e| <= |s|
    ensures Stored(s, off, e) == Splice(s, off, off + |e|, e)
  {
  }

  // What blanking out a region leaves around it.
  lemma NopRegionDone(h: Header, mem: seq<byte>, off: nat, m: nat)
    requires OrderedIn(h, |mem|) && off + 4 * m <= h.sizeStruct
    ensures var mem' := Stored(mem, h.offStruct + off, NopBytes(m));
            && HeadOf(h, mem') == HeadOf(h, mem) && StringsOf(h, mem') == StringsOf(h, mem)
            && |StructOf(h, mem)| == h.sizeStruct
            && StructOf(h, mem') == Splice(StructOf(h, mem), off, off + 4 * m, NopBytes(m))
  {
    hide Stored, NopBytes, Splice, StructOf, HeadOf, StringsOf;
    StoreInStruct(h, mem, off, NopBytes(m));
    StructSize(h, mem);
    StoredIsSplice(StructOf(h, mem), off, NopBytes(m));
  }

  // The property found at p has become NOPs; every other byte and every node offset is as before.
  ghost predicate PropertyBlank(before: Image, after: Image, n: nat, name: seq<byte>, k: nat, p: nat, t: Token) {
    && PropertyAt(before, n, name, k, p, t)
    && after.hdr == before.hdr
    && var end := p + 12 + Align4(|t.value|);
       && before.hdr.offStruct + end <= |before.mem|
       && after.mem == Stored(before.mem, before.hdr.offStruct + p, NopBytes((12 + Align4(|t.value|)) / 4))
       && forall x: nat :: x < p || end <= x ==> (IsNodeOffset(after.shape, x) <==> IsNodeOffset(before.shape, x))
  }

  // fdt_nop_property
  method NopProperty(fdt: Blob, n: nat, name: seq<byte>) returns (r: Result<()>)
    requires fdt.Valid() && fdt.NodeArg(n)
    modifies fdt`shape, fdt.buf
    ensures r == Failure(BadOffset) <==> old(!IsNodeOffset(fdt.shape, n))
    ensures old(IsNodeOffset(fdt.shape, n)) ==>
              && (r == Failure(NotFound) <==> old(OldValue(fdt.Img(), n, name)) == None)
              && (r.Success? <==> old(OldValue(fdt.Img(), n, name)).Some?)
    ensures r.Failure? ==> fdt.Img() == old(fdt.Img())
    ensures r.Success? ==>
              && old(IsNodeOffset(fdt.shape, n))
              && old(FirstProp(fdt.Img().NodeOf(n).props, name) < |fdt.Img().NodeOf(n).props|)
              && NodeEdited(old(fdt.Img()), fdt.Img(), n, [DropProp(old(fdt.Img().NodeOf(n)), name)])
    // Only the property's own bytes change, and all nodes stay where they are.
    ensures r.Success? ==>
              exists k: nat, p: nat, t: Token :: PropertyBlank(old(fdt.Img()), fdt.Img(), n, name, k, p, t)
  {
    hide RwProbe, Describes, Off, Stream, NodeEdited, StructOf, StringsOf, HeadOf, RsvCount, NodeCheck, NodeAt,
      ReplaceAt, Toks, Splice, EncAll, HeaderKept, DropProp, PropertyAt, WithBody, ReplaceProp, Token.Enc, NopBytes,
      IsNodeOffset, Token.Ok, At, CStr, FindProp, OldValue, FirstProp, Stored, WellNested, Resolved, NoProps,
      OnlyLeaves, NopRun;
    ghost var before := fdt.Img();
    ghost var k, t;
    var p, len;
    p, len, k, t := FindProperty(fdt, n, name);
    if p.Failure? {
      return Failure(p.error);
    }
    PropertyExtent(before, n, name, k, p.value, t);
    PropertyFacts(before, n, name, k, p.value, t);
    EncLength(t);
    AlignShift(12, len);
    ghost var m := Align4(len + 12) / 4;
    NopRegion(fdt, p.value, len + 12);
    NopRegionDone(before.hdr, before.mem, p.value, m);
    NopRunIs(m, StringsOf(before.hdr, before.mem));
    ghost var i := IndexAt(fdt.shape, n);
    ReplaceableProp(before, n, name, k);
    fdt.shape := WithBody(fdt.shape, i, ReplaceProp(NodeAt(fdt.shape, i).body, k, NopRun(m)));
    HeaderSame(before.hdr);
    DropDone(before, fdt.Img(), n, name, k, p.value, t, NopRun(m));
    PropertyRegion(before, n, name, k, p.value, t);
    PropertyBlanked(before.shape, i, k, m);
    NopKeepsNodes(before.shape, fdt.shape, i + 1 + k, i + 2 + k, m);
    IsPropertyBlank(before, fdt.Img(), n, name, k, p.value, t);
    return Success(());
  }

  lemma IsPropertyBlank(before: Image, after: Image, n: nat, name: seq<byte>, k: nat, p: nat, t: Token)
    requires PropertyAt(before, n, name, k, p, t) && after.hdr == before.hdr
    requires var end := p + 12 + Align4(|t.value|);
             && before.hdr.offStruct + end <= |before.mem|
             && after.mem == Stored(before.mem, before.hdr.offStruct + p, NopBytes((12 + Align4(|t.value|)) / 4))
             && forall x: nat :: x < p || end <= x ==> (IsNodeOffset(after.shape, x) <==> IsNodeOffset(before.shape, x))
    ensures PropertyBlank(before, after, n, name, k, p, t)
  {
    hide PropertyAt, IsNodeOffset, NopBytes, Stored;
  }

  // The bytes of the property that a lookup found.
  lemma PropertyRegion(im: Image, n: nat, name: seq<byte>, k: nat, p: nat, t: Token)
    requires im.Valid() && PropertyAt(im, n, name, k, p, t)
    ensures IsNodeOffset(im.shape, n) && t.Prop? && t.Ok()
    ensures var i := IndexAt(im.shape, n);
            && IsPropOf(NodeAt(im.shape, i).body, k)
            && i + 2 + k < |Stream(im.shape)|
            && Off(Stream(im.shape), i + 1 + k) == p
            && Off(Stream(im.shape), i + 2 + k) == p + 12 + Align4(|t.value|) <= im.hdr.sizeStruct
  {
    hide Describes, Off, Stream, NodeAt, Toks, StructOf, StringsOf, HeadOf, RsvCount, FindProp, At, Token.Enc, CStr;
    PropertyFacts(im, n, name, k, p, t);
    EncLength(t);
  }

  lemma HeaderSame(h: Header)
    ensures HeaderKept(h, h)
  {
  }

  // Offsets behind a splice that keeps the length in bytes.
  lemma OffBehind(ts: seq<Token>, a: nat, e: nat, mid: seq<Token>, j: nat)
    requires a <= e <= j <= |ts| && |EncAll(mid)| == Off(ts, e) - Off(ts, a)
    ensures j - e + a + |mid| <= |Splice(ts, a, e, mid)|
    ensures Off(Splice(ts, a, e, mid), j - e + a + |mid|) == Off(ts, j)
  {
    PrefixOfSplice(ts, a, e, mid, j);
    EncAllReplace(ts[..j], a, e, mid);
    hide EncAll, Splice;
    assert ts[..j][..a] == ts[..a] && ts[..j][..e] == ts[..e];
    SpliceParts(EncAll(ts[..j]), Off(ts[..j], a), Off(ts[..j], e), EncAll(mid));
  }

  lemma PrefixOfSplice<T>(ts: seq<T>, a: nat, e: nat, mid: seq<T>, j: nat)
    requires a <= e <= j <= |ts|
    ensures j - e + a + |mid| <= |Splice(ts, a, e, mid)|
    ensures Splice(ts, a, e, mid)[..j - e + a + |mid|] == Splice(ts[..j], a, e, mid)
    ensures j < |ts| ==> Splice(ts, a, e, mid)[j - e + a + |mid|] == ts[j]
  {
  }

  // The stream with tokens [a..e) replaced by m NOPs of the same length in bytes.
  ghost predicate Blanked(shape: Items, shape': Items, a: nat, e: nat, m: nat) {
    && a <= e < |Stream(shape)|
    && |EncAll(Toks(NopRun(m)))| == Off(Stream(shape), e) - Off(Stream(shape), a)
    && Stream(shape') == Splice(Stream(shape), a, e, Toks(NopRun(m)))
  }

  // Nodes outside a blanked region are found where they were.
  lemma NopKeepsNode(shape: Items, shape': Items, a: nat, e: nat, m: nat, x: nat)
    requires Blanked(shape, shape', a, e, m) && (x < Off(Stream(shape), a) || Off(Stream(shape), e) <= x)
    ensures IsNodeOffset(shape, x) <==> IsNodeOffset(shape', x)
  {
    hide Off, EncAll, Toks, Splice, NopRun;
    var ts := Stream(shape);
    var nops := Toks(NopRun(m));
    NopRunIs(m, []);
    SpliceParts(ts, a, e, nops);
    if IsNodeOffset(shape, x) {
      var j := IndexAt(shape, x);
      NodeInStream(shape, j);
      NopMovesNode(shape, shape', a, e, m, j);
    }
    if IsNodeOffset(shape', x) {
      var j := IndexAt(shape', x);
      NodeInStream(shape', j);
      if j < a {
        SpliceKeepsFront(ts, a, e, nops, j);
        OffPrefix(ts, Stream(shape'), j);
        BeginIsNode(shape, j);
      } else if j < a + m {
        SpliceKeepsMiddle(ts, a, e, nops, j);
        assert false;
      } else {
        var o := j - m - a + e;
        OffBehind(ts, a, e, nops, o);
        PrefixOfSplice(ts, a, e, nops, o);
        BeginIsNode(shape, o);
      }
    }
  }

  lemma NodeInStream(shape: Items, j: nat)
    requires IsNode(shape, j)
    ensures j < |Stream(shape)| && Stream(shape)[j].Begin?
  {
  }

  lemma SpliceKeepsFront<T>(ts: seq<T>, a: nat, e: nat, mid: seq<T>, j: nat)
    requires a <= e <= |ts| && j < a
    ensures j < |Splice(ts, a, e, mid)| && Splice(ts, a, e, mid)[j] == ts[j]
    ensures Splice(ts, a, e, mid)[..j] == ts[..j]
  {
  }

  lemma SpliceKeepsMiddle<T>(ts: seq<T>, a: nat, e: nat, mid: seq<T>, j: nat)
    requires a <= e <= |ts| && a <= j < a + |mid|
    ensures j < |Splice(ts, a, e, mid)| && Splice(ts, a, e, mid)[j] == mid[j - a]
  {
  }

  lemma NopMovesNode(shape: Items, shape': Items, a: nat, e: nat, m: nat, j: nat)
    requires Blanked(shape, shape', a, e, m) && IsNode(shape, j) && j < |Stream(shape)|
    requires Off(Stream(shape), j) < Off(Stream(shape), a) || Off(Stream(shape), e) <= Off(Stream(shape), j)
    ensures IsNodeOffset(shape', Off(Stream(shape), j))
  {
    hide Off, EncAll, Toks, Splice, NopRun;
    var ts := Stream(shape);
    var nops := Toks(NopRun(m));
    NodeInStream(shape, j);
    if Off(ts, j) < Off(ts, a) {
      OffLess(ts, j, a);
      SpliceKeepsFront(ts, a, e, nops, j);
      OffPrefix(ts, Stream(shape'), j);
      BeginIsNode(shape', j);
    } else {
      OffLess(ts, e, j);
      OffBehind(ts, a, e, nops, j);
      PrefixOfSplice(ts, a, e, nops, j);
      SpliceParts(ts, a, e, nops);
      BeginIsNode(shape', j - e + a + |nops|);
    }
  }

  // The offset behind the node at n.
  ghost function EndOf(shape: Items, n: nat): nat
    requires IsNodeOffset(shape, n)
  {
    var e := IndexAt(shape, n) + |Toks(NodeAt(shape, IndexAt(shape, n)))|;
    if e <= |Stream(shape)| then Off(Stream(shape), e) else 0
  }

  lemma NodeExtent(im: Image, n: nat)
    requires im.Valid() && IsNodeOffset(im.shape, n)
    ensures var i := IndexAt(im.shape, n);
            && i + |Toks(NodeAt(im.shape, i))| < |Stream(im.shape)|
            && EndOf(im.shape, n) == Off(Stream(im.shape), i + |Toks(NodeAt(im.shape, i))|)
    ensures n % 4 == 0 && EndOf(im.shape, n) % 4 == 0 && n <= EndOf(im.shape, n) <= im.hdr.sizeStruct
  {
    hide Describes, Off, Stream, NodeAt, Toks, StructOf, StringsOf, HeadOf, RsvCount, EncAll, IsNode;
    var i := IndexAt(im.shape, n);
    FragmentPlace(im.shape, i);
    EndInside(im, i);
    NodeAligned(im, i);
  }

  // The blob after the node has been overwritten with m NOPs.
  lemma NopNodeDone(before: Image, mem: seq<byte>, n: nat, m: nat)
    requires before.Valid() && IsNodeOffset(before.shape, n) && 4 * m == EndOf(before.shape, n) - n
    requires EndOf(before.shape, n) <= before.hdr.sizeStruct
    requires before.hdr.offStruct + n + |NopBytes(m)| <= |before.mem|
    requires mem == Stored(before.mem, before.hdr.offStruct + n, NopBytes(m))
    ensures var after := Image(before.hdr, mem, ReplaceAt(before.shape, IndexAt(before.shape, n), NopRun(m)));
            && NodeEdited(before, after, n, [])
            && forall x: nat :: x < n || EndOf(before.shape, n) <= x ==>
                 (IsNodeOffset(after.shape, x) <==> IsNodeOffset(before.shape, x))
  {
    hide Describes, Off, Stream, NodeEdited, StructOf, StringsOf, HeadOf, RsvCount, NodeAt, ReplaceAt, Toks, Splice,
      EncAll, HeaderKept, NopBytes, Stored, WellNested, Resolved, NoProps, OnlyLeaves, NopRun, Kids, IsNode, EndOf,
      Blanked;
    var i := IndexAt(before.shape, n);
    var frag := NopRun(m);
    NodeExtent(before, n);
    FragmentPlace(before.shape, i);
    EndInside(before, i);
    FragmentBytes(before.shape, i, frag);
    NopRegionDone(before.hdr, before.mem, n, m);
    NopRunIs(m, StringsOf(before.hdr, before.mem));
    HeaderSame(before.hdr);
    var after := Image(before.hdr, mem, ReplaceAt(before.shape, i, frag));
    FragmentDone(before, after, n, frag);
    NodeBlanked(before.shape, i, m);
    NopKeepsNodes(before.shape, after.shape, i, i + |Toks(NodeAt(before.shape, i))|, m);
  }

  // fdt_nop_node
  method NopNode(fdt: Blob, n: nat) returns (r: Result<()>)
    requires fdt.Valid() && fdt.NodeArg(n)
    modifies fdt`shape, fdt.buf
    ensures r == if old(IsNodeOffset(fdt.shape, n)) then Success(()) else Failure(BadOffset)
    ensures r.Failure? ==> fdt.Img() == old(fdt.Img())
    ensures r.Success? ==> NodeEdited(old(fdt.Img()), fdt.Img(), n, [])
    ensures r.Success? ==>
              var end := EndOf(old(fdt.shape), n);
              && n <= end && end % 4 == 0 && fdt.hdr.offStruct + end <= fdt.buf.Length
              && fdt.buf[..] == Stored(old(fdt.buf[..]), fdt.hdr.offStruct + n, NopBytes((end - n) / 4))
              && (forall x: nat :: x < n || end <= x ==>
                  (IsNodeOffset(fdt.shape, x) <==> IsNodeOffset(old(fdt.shape), x)))
  {
    hide Describes, Off, Stream, NodeEdited, StructOf, StringsOf, HeadOf, RsvCount, NodeCheck, NodeAt, ReplaceAt, Toks,
      EncAll, NopBytes, Stored, NopRun, EndOf, IsNodeOffset;
    ghost var before := fdt.Img();
    var end := NodeEndOffset(fdt, n);
    if end.Failure? {
      return Failure(end.error);
    }
    NodeExtent(before, n);
    ghost var m := (end.value - n) / 4;
    NopRegion(fdt, n, end.value - n);
    fdt.shape := ReplaceAt(fdt.shape, IndexAt(fdt.shape, n), NopRun(m));
    NopNodeDone(before, fdt.buf[..], n, m);
    return Success(());
  }

  lemma NopKeepsNodes(shape: Items, shape': Items, a: nat, e: nat, m: nat)
    requires Blanked(shape, shape', a, e, m)
    ensures forall x: nat :: x < Off(Stream(shape), a) || Off(Stream(shape), e) <= x ==>
              (IsNodeOffset(shape', x) <==> IsNodeOffset(shape, x))
  {
    hide Off, EncAll, Toks, NopRun, Stream, Blanked;
    BlankedEnds(shape, shape', a, e, m);
    forall x: nat | x < Off(Stream(shape), a) || Off(Stream(shape), e) <= x
      ensures IsNodeOffset(shape', x) <==> IsNodeOffset(shape, x)
    {
      NopKeepsNode(shape, shape', a, e, m, x);
    }
  }

  lemma BlankedEnds(shape: Items, shape': Items, a: nat, e: nat, m: nat)
    requires Blanked(shape, shape', a, e, m)
    ensures a <= e <= |Stream(shape)|
  {
  }

  lemma NodeBlanked(shape: Items, i: nat, m: nat)
    requires IsNode(shape, i)
    requires var e := i + |Toks(NodeAt(shape, i))|;
             && e < |Stream(shape)| && |EncAll(Toks(NopRun(m)))| == Off(Stream(shape), e) - Off(Stream(shape), i)
    ensures Blanked(shape, ReplaceAt(shape, i, NopRun(m)), i, i + |Toks(NodeAt(shape, i))|, m)
  {
    hide Off, EncAll, Toks, NopRun, Stream, NodeAt, ReplaceAt;
    StreamReplace(shape, i, NopRun(m));
  }

  // The same for token k of the contents of node i.
  lemma PropertyBlanked(shape: Items, i: nat, k: nat, m: nat)
    requires IsNode(shape, i) && IsPropOf(NodeAt(shape, i).body, k)
    requires i + 2 + k < |Stream(shape)|
    requires |EncAll(Toks(NopRun(m)))| == Off(Stream(shape), i + 2 + k) - Off(Stream(shape), i + 1 + k)
    ensures Blanked(shape, WithBody(shape, i, ReplaceProp(NodeAt(shape, i).body, k, NopRun(m))), i + 1 + k, i + 2 + k,
                    m)
  {
    hide Off, EncAll, Toks, NopRun, Stream, NodeAt, ReplaceAt, WithBody, ReplaceProp, Splice;
    var body := NodeAt(shape, i).body;
    NopRunIs(m, []);
    ReplacePropToks(body, k, NopRun(m));
    StreamWithBody(shape, i, ReplaceProp(body, k, NopRun(m)), k, k + 1, Toks(NopRun(m)));
  }

  lemma NodeAligned(im: Image, i: nat)
    requires im.Valid() && IsNode(im.shape, i)
    ensures i + |Toks(NodeAt(im.shape, i))| < |Stream(im.shape)|
    ensures Off(Stream(im.shape), i) % 4 == 0
    ensures Off(Stream(im.shape), i + |Toks(NodeAt(im.shape, i))|) % 4 == 0
  {
    hide Off, Stream, NodeAt, Toks, StructOf, StringsOf, HeadOf, EncAll, AllOk;
    NodeRun(im.shape, i);
    StreamOk(im.shape);
    OffAligned(Stream(im.shape), i);
    OffAligned(Stream(im.shape), i + |Toks(NodeAt(im.shape, i))|);
  }

  // Renaming -----------------------------------------------------------------------------------

  // The node opening that the bytes at n spell, for a name of len bytes.
  function OpeningOf(st: seq<byte>, n: nat, len: nat): Token
    requires n + 4 + Align4(len + 1) <= |st|
  {
    Begin(st[n + 4..n + 4 + len], st[n + 4 + len + 1..n + 4 + Align4(len + 1)])
  }

  lemma OpeningEnc(st: seq<byte>, n: nat, name: seq<byte>)
    requires NoNul(name) && n + 4 + Align4(|name| + 1) <= |st|
    requires At(st, n, Put32(BEGIN_NODE)) && At(st, n + 4, name + [0])
    ensures var t := OpeningOf(st, n, |name|);
            && t.Ok() && t.name == name && At(st, n, t.Enc())
            && |t.Enc()| == 4 + Align4(|name| + 1)
  {
    hide Put32;
    var t := OpeningOf(st, n, |name|);
    AtConcat(st, n + 4, name, [0]);
    AtConcat(st, n + 4, name + [0], t.npad);
    AtConcat(st, n, Put32(BEGIN_NODE), (name + [0]) + t.npad);
  }

  // The bytes after the name of the node at n has been rewritten.
  lemma RenamedToken(st: seq<byte>, gap: seq<byte>, st': seq<byte>, n: nat, t: Token, name: seq<byte>)
    requires t.Begin? && t.Ok() && At(st, n, t.Enc()) && NoNul(name)
    requires var a, a' := Align4(|t.name| + 1), Align4(|name| + 1);
             && n + 4 + a <= |st| && |gap| == |st| - a + a'
             && gap[..n + 4] == st[..n + 4] && gap[n + 4 + a'..] == st[n + 4 + a..]
    requires st' == Stored(gap, n + 4, name + [0])
    ensures |t.Enc()| == 4 + Align4(|t.name| + 1) && n + |t.Enc()| <= |st|
    ensures var t' := OpeningOf(st', n, |name|);
            t'.Ok() && t'.name == name && st' == Splice(st, n, n + |t.Enc()|, t'.Enc())
  {
    hide Put32, At, Stored, Splice, Get32, NulAt, Token.Enc, Token.Ok, OpeningOf;
    var a, a' := Align4(|t.name| + 1), Align4(|name| + 1);
    var c0 := Put32(BEGIN_NODE);
    BeginCells(st, n, t);
    BeginTag(st, n, t);
    PrefixAt(st, gap, n + 4, n, c0);
    StoredElsewhere(gap, n + 4, name + [0], n, c0);
    StoredAt(gap, n + 4, name + [0]);
    OpeningEnc(st', n, name);
    StoredEnds(gap, n + 4, name + [0], n, n + 4 + a');
    PrefixSlice(st, gap, n + 4, 0, n);
    SplicedIs(st, st', n, n + 4 + a, OpeningOf(st', n, |name|).Enc());
  }

  lemma BeginTag(st: seq<byte>, n: nat, t: Token)
    requires t.Begin? && At(st, n, t.Enc())
    ensures At(st, n, Put32(BEGIN_NODE))
  {
    hide At, Put32;
    AtConcat(st, n, Put32(BEGIN_NODE), (t.name + [0]) + t.npad);
  }

  lemma RenameStream(shape: Items, i: nat, t: Token)
    requires IsNode(shape, i) && t.Begin?
    ensures var n := NodeAt(shape, i);
            Stream(ReplaceAt(shape, i, Sub(t.name, t.npad, n.body, Done))) == Splice(Stream(shape), i, i + 1, [t])
  {
    hide Toks, NodeAt, ReplaceAt, Splice, Stream;
    var n := NodeAt(shape, i);
    var frag := Sub(t.name, t.npad, n.body, Done);
    var tail := Toks(n.body) + ([EndNode] + Toks(Done));
    SubToks(n);
    SubToks(frag);
    StreamReplace(shape, i, frag);
    StreamLength(shape);
    SpliceHead(Begin(n.name, n.npad), tail, [t]);
    SpliceTwice(Stream(shape), i, Toks(n), Toks(frag), 0, 1, [t]);
  }

  // fdt_set_name
  method SetName(fdt: Blob, n: nat, name: seq<byte>) returns (r: Result<()>)
    requires RwProbe(fdt.hdr).Success? ==> fdt.Valid() && fdt.NodeArg(n)
    requires |name| <= MAX_LEN && NoNul(name)
    modifies fdt, fdt.buf
    ensures old(RwProbe(fdt.hdr)).Failure? ==> r == Failure(old(RwProbe(fdt.hdr)).error)
    ensures old(RwProbe(fdt.hdr)).Success? ==>
              && (old(IsNodeOffset(fdt.shape, n)) ==>
                    (r == Failure(NoSpace) <==>
                       DataSize(old(fdt.hdr)) - Align4(|old(fdt.Img().NodeOf(n)).name| + 1) + Align4(|name| + 1)
                       > old(fdt.hdr.totalsize)))
              && (old(!IsNodeOffset(fdt.shape, n)) <==> r == Failure(BadOffset))
              && (r.Failure? ==> r.error in {BadOffset, NoSpace})
    ensures r.Failure? ==> fdt.Img() == old(fdt.Img())
    ensures r.Success? ==>
              && old(IsNodeOffset(fdt.shape, n))
              && NodeEdited(old(fdt.Img()), fdt.Img(), n, [old(fdt.Img().NodeOf(n)).(name := name)])
              && KeepsOffsets(old(fdt.shape), fdt.shape, n)
              && DataSize(fdt.hdr)
                 == DataSize(old(fdt.hdr)) - Align4(|old(fdt.Img().NodeOf(n)).name| + 1) + Align4(|name| + 1)
  {
    hide RwProbe, Describes, Off, Stream, NodeEdited, StructOf, StringsOf, HeadOf, RsvCount, NodeCheck, NodeAt,
      ReplaceAt, Toks, StructSpliced, Splice, EncAll, HeaderKept, Stored, KeepsOffsets, WellNested, Resolved;
    var probe := RwProbe(fdt.hdr);
    if probe.Failure? {
      return Failure(probe.error);
    }
    ghost var before := fdt.Img();
    var oldname := GetName(fdt, n);
    if oldname.Failure? {
      return Failure(oldname.error);
    }
    ghost var i := IndexAt(fdt.shape, n);
    var oldlen := |oldname.value|;
    NameExtent(before, i);
    r := SpliceStruct(fdt, n + 4, Align4(oldlen + 1), Align4(|name| + 1));
    if r.Failure? {
      return;
    }
    ghost var gap := fdt.Img();
    SplicedLayout(before.hdr, before.mem, gap.hdr, gap.mem, n + 4, Align4(oldlen + 1), Align4(|name| + 1));
    SplicedSize(before.hdr, before.mem, gap.hdr, gap.mem, n + 4, Align4(oldlen + 1), Align4(|name| + 1));
    StoreStruct(fdt, n + 4, name + [0]);
    StructSize(fdt.hdr, fdt.buf[..]);
    ghost var t := OpeningOf(fdt.StructBlock(), n, |name|);
    ghost var frag := Sub(t.name, t.npad, NodeAt(fdt.shape, i).body, Done);
    fdt.shape := ReplaceAt(fdt.shape, i, frag);
    RenameDone(before, gap, fdt.Img(), i, name);
  }

  lemma NameExtent(im: Image, i: nat)
    requires im.Valid() && IsNode(im.shape, i)
    ensures var t := Begin(NodeAt(im.shape, i).name, NodeAt(im.shape, i).npad);
            && t.Ok() && At(StructOf(im.hdr, im.mem), Off(Stream(im.shape), i), t.Enc())
            && Off(Stream(im.shape), i) + 4 + Align4(|t.name| + 1) <= im.hdr.sizeStruct
            && i + 1 < |Stream(im.shape)|
            && Off(Stream(im.shape), i + 1) == Off(Stream(im.shape), i) + |t.Enc()|
  {
    hide Describes, Off, Stream, StructOf, StringsOf, HeadOf, RsvCount, NodeAt, Toks, At, Token.Enc, Token.Ok, NextTag;
    NodeRun(im.shape, i);
    DescribedTag(im.shape, StructOf(im.hdr, im.mem), StringsOf(im.hdr, im.mem), i);
    OffStep(Stream(im.shape), i);
    BeginCells(StructOf(im.hdr, im.mem), Off(Stream(im.shape), i), Stream(im.shape)[i]);
    StructSize(im.hdr, im.mem);
  }

  // The bytes after a rename are those of the renamed syntax.
  ghost predicate Renames(before: Image, gap: Image, after: Image, i: nat, name: seq<byte>) {
    && before.Valid() && IsNode(before.shape, i) && i < |Stream(before.shape)|
    && NoNul(name) && |name| <= MAX_LEN
    && var n := Off(Stream(before.shape), i);
       && StructSpliced(before.hdr, before.mem, gap.hdr, gap.mem, n + 4,
                        Align4(|NodeAt(before.shape, i).name| + 1), Align4(|name| + 1))
       && after.hdr == gap.hdr && OrderedIn(after.hdr, |after.mem|) && OrderedIn(gap.hdr, |gap.mem|)
       && HeadOf(after.hdr, after.mem) == HeadOf(gap.hdr, gap.mem)
       && StringsOf(after.hdr, after.mem) == StringsOf(gap.hdr, gap.mem)
       && n + 4 + Align4(|name| + 1) <= after.hdr.sizeStruct
       && StructOf(after.hdr, after.mem) == Stored(StructOf(gap.hdr, gap.mem), n + 4, name + [0])
       && var t := OpeningOf(StructOf(after.hdr, after.mem), n, |name|);
          after.shape == ReplaceAt(before.shape, i, Sub(t.name, t.npad, NodeAt(before.shape, i).body, Done))
  }

  lemma RenameBytes(before: Image, gap: Image, after: Image, i: nat, name: seq<byte>)
    requires Renames(before, gap, after, i, name)
    ensures var t := OpeningOf(StructOf(after.hdr, after.mem), Off(Stream(before.shape), i), |name|);
            t.Ok() && t.name == name
    ensures StructOf(after.hdr, after.mem) == EncAll(Stream(after.shape))
  {
    hide Describes, Off, Stream, StructOf, StringsOf, HeadOf, RsvCount, NodeAt, Toks, At, Token.Enc, Token.Ok,
      ReplaceAt, Splice, EncAll, Stored, OpeningOf;
    var n := Off(Stream(before.shape), i);
    var node := NodeAt(before.shape, i);
    NameExtent(before, i);
    StructSize(before.hdr, before.mem);
    StructSize(gap.hdr, gap.mem);
    StructSize(after.hdr, after.mem);
    RenamedToken(StructOf(before.hdr, before.mem), StructOf(gap.hdr, gap.mem), StructOf(after.hdr, after.mem), n,
                 Begin(node.name, node.npad), name);
    var t := OpeningOf(StructOf(after.hdr, after.mem), n, |name|);
    IsOpening(StructOf(after.hdr, after.mem), n, |name|);
    RenameStream(before.shape, i, t);
    EndInside(before, i);
    EncAllReplace(Stream(before.shape), i, i + 1, [t]);
    EncOne(t);
  }

  lemma IsOpening(st: seq<byte>, n: nat, len: nat)
    requires n + 4 + Align4(len + 1) <= |st|
    ensures OpeningOf(st, n, len).Begin?
  {
  }

  lemma RenameDone(before: Image, gap: Image, after: Image, i: nat, name: seq<byte>)
    requires Renames(before, gap, after, i, name)
    ensures var n := Off(Stream(before.shape), i);
            && IsNodeOffset(before.shape, n) && IndexAt(before.shape, n) == i
            && NodeEdited(before, after, n, [before.NodeOf(n).(name := name)])
            && KeepsOffsets(before.shape, after.shape, n)
  {
    hide Describes, Off, Stream, StructOf, StringsOf, HeadOf, RsvCount, NodeAt, Toks, Token.Ok, OpeningOf, NoProps,
      ReplaceAt, EncAll, Stored, WellNested, Resolved, PropsFirst, Kids, Props, NodeEdited, KeepsOffsets, HeaderKept;
    var n := Off(Stream(before.shape), i);
    var node := NodeAt(before.shape, i);
    IndexUnique(before.shape, i);
    RenameBytes(before, gap, after, i, name);
    StructSize(after.hdr, after.mem);
    var t := OpeningOf(StructOf(after.hdr, after.mem), n, |name|);
    IsOpening(StructOf(after.hdr, after.mem), n, |name|);
    SplicedLayout(before.hdr, before.mem, gap.hdr, gap.mem, n + 4, Align4(|node.name| + 1), Align4(|name| + 1));
    NodeParts(before.shape, StructOf(before.hdr, before.mem), StringsOf(before.hdr, before.mem), i);
    SubOk(t.name, t.npad, node.body, StringsOf(before.hdr, before.mem));
    FragmentDone(before, after, n, Sub(t.name, t.npad, node.body, Done));
    ReplaceKeepsOffsets(before.shape, i, Sub(t.name, t.npad, node.body, Done));
  }

  lemma EncOne(t: Token)
    ensures EncAll([t]) == t.Enc()
  {
    assert EncAll([t]) == t.Enc() + EncAll([]);
  }
}
