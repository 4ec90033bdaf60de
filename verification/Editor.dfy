// The read/write editor on a well-formed blob: properties (fdt_rw.c). Every edit says what
// the new tree is, when there is no room for it, and that a failed call leaves all live
// bytes as they were.
module Editor {
  import opened Bytes
  import opened Tokens
  import opened Structure
  import opened Scan
  import opened Memory
  import opened Blobs
  import opened Readers
  import opened Splicing
  import opened Strings
  import opened Edits

  // Lengths whose aligned sums stay inside a C int.
  const MAX_LEN: nat := 0x7fff_ff00

  // Header words that no edit of structure or strings touches.
  predicate HeaderKept(h: Header, h': Header) {
    h' == h.(sizeStruct := h'.sizeStruct, offStrings := h'.offStrings, sizeStrings := h'.sizeStrings)
  }

  // A successful edit: a well-formed blob in which the node that was at offset n has been
  // replaced by repl, with the same reservations, and every node offset up to n still good
  // unless the node itself is gone.
  ghost predicate NodeEdited(before: Image, after: Image, n: nat, repl: seq<Node>) {
    && before.Valid() && IsNodeOffset(before.shape, n)
    && after.Valid()
    && ValidPath(before.Tree(), before.PathOf(n))
    && after.Tree() == Update(before.Tree(), before.PathOf(n), repl)
    && HeaderKept(before.hdr, after.hdr)
    && HeadOf(after.hdr, after.mem) == HeadOf(before.hdr, before.mem)
  }

  // A failed edit: the header, the syntax and every live byte are as before.
  ghost predicate Intact(before: Image, after: Image) {
    && after.hdr == before.hdr
    && after.shape == before.shape
    && |after.mem| == |before.mem|
    && DataSize(before.hdr) <= |before.mem|
    && after.mem[..DataSize(before.hdr)] == before.mem[..DataSize(before.hdr)]
  }

  // Storing cells inside the structure block ------------------------------------------

  lemma StoreInStruct(h: Header, mem: seq<byte>, off: nat, data: seq<byte>)
    requires OrderedIn(h, |mem|) && off + |data| <= h.sizeStruct
    ensures var mem' := Stored(mem, h.offStruct + off, data);
            && HeadOf(h, mem') == HeadOf(h, mem)
            && StringsOf(h, mem') == StringsOf(h, mem)
            && StructOf(h, mem') == Stored(StructOf(h, mem), off, data)
  {
    var o := h.offStruct;
    StoredBeside(mem, o + off, data, 0, o);
    StoredBeside(mem, o + off, data, h.offStrings, DataSize(h));
    StoredInside(mem, o, h.sizeStruct, off, data);
  }

  lemma StoredInside(mem: seq<byte>, base: nat, size: nat, off: nat, data: seq<byte>)
    requires base + size <= |mem| && off + |data| <= size
    ensures Stored(mem, base + off, data)[base..base + size] == Stored(mem[base..base + size], off, data)
  {
  }

  method StoreStruct(fdt: Blob, off: nat, data: seq<byte>)
    requires fdt.Ordered() && off + |data| <= fdt.hdr.sizeStruct
    modifies fdt.buf
    ensures fdt.buf[..] == Stored(old(fdt.buf[..]), fdt.hdr.offStruct + off, data)
    ensures fdt.Head() == old(fdt.Head())
    ensures fdt.StringsBlock() == old(fdt.StringsBlock())
    ensures fdt.StructBlock() == Stored(old(fdt.StructBlock()), off, data)
  {
    hide Stored, HeadOf, StringsOf, StructOf;
    StoreInStruct(fdt.hdr, fdt.buf[..], off, data);
    Memcpy(fdt.buf, fdt.hdr.offStruct + off, data);
  }

  // The property token that the bytes at p spell, for a value of len bytes.
  function TokenOf(st: seq<byte>, p: nat, nameOff: u32, len: nat): Token
    requires p + 12 + Align4(len) <= |st|
  {
    Prop(nameOff, st[p + 12..p + 12 + len], st[p + 12 + len..p + 12 + Align4(len)])
  }

  lemma TokenOfEnc(st: seq<byte>, p: nat, nameOff: u32, len: nat)
    requires p + 12 + Align4(len) <= |st| && len <= INT32_MAX
    requires At(st, p, Put32(PROP)) && At(st, p + 4, Put32(len)) && At(st, p + 8, Put32(nameOff))
    ensures At(st, p, TokenOf(st, p, nameOff, len).Enc())
    ensures TokenOf(st, p, nameOff, len).Ok()
  {
    EncParts(st, p, nameOff, st[p + 12..p + 12 + len], st[p + 12 + len..p + 12 + Align4(len)]);
  }

  lemma EncParts(st: seq<byte>, p: nat, nameOff: u32, value: seq<byte>, vpad: seq<byte>)
    requires |value| <= INT32_MAX
    requires At(st, p, Put32(PROP)) && At(st, p + 4, Put32(|value|)) && At(st, p + 8, Put32(nameOff))
    requires At(st, p + 12, value) && At(st, p + 12 + |value|, vpad)
    ensures At(st, p, Prop(nameOff, value, vpad).Enc())
  {
    hide At, Put32;
    AtConcat(st, p + 12, value, vpad);
    AtConcat(st, p + 8, Put32(nameOff), value + vpad);
    AtConcat(st, p + 4, Put32(|value|), Put32(nameOff) + (value + vpad));
    AtConcat(st, p, Put32(PROP), Put32(|value|) + (Put32(nameOff) + (value + vpad)));
  }

  // A block that agrees with st outside a part, and holds e there, is a splice of st.
  lemma SplicedIs(st: seq<byte>, st': seq<byte>, a: nat, b: nat, e: seq<byte>)
    requires a <= b <= |st| && |st'| == |st| - (b - a) + |e|
    requires st'[..a] == st[..a] && At(st', a, e) && st'[a + |e|..] == st[b..]
    ensures st' == Splice(st, a, b, e)
  {
    assert st' == st'[..a] + st'[a..a + |e|] + st'[a + |e|..];
  }

  lemma StoredAt(s: seq<byte>, off: nat, data: seq<byte>)
    requires off + |data| <= |s|
    ensures At(Stored(s, off, data), off, data)
  {
  }

  lemma StoredElsewhere(s: seq<byte>, off: nat, data: seq<byte>, p: nat, e: seq<byte>)
    requires off + |data| <= |s| && (p + |e| <= off || off + |data| <= p)
    ensures At(Stored(s, off, data), p, e) <==> At(s, p, e)
  {
    if p + |e| <= |s| {
      StoredBeside(s, off, data, p, p + |e|);
    }
  }

  lemma StoredEnds(s: seq<byte>, off: nat, data: seq<byte>, a: nat, b: nat)
    requires a <= off && off + |data| <= b <= |s|
    ensures Stored(s, off, data)[..a] == s[..a]
    ensures Stored(s, off, data)[b..] == s[b..]
  {
  }

  // Resizing: the bytes after the gap has been adjusted and the length cell rewritten.
  lemma ResizedToken(st: seq<byte>, gap: seq<byte>, st': seq<byte>, p: nat, t: Token, len: nat)
    requires t.Prop? && t.Ok() && At(st, p, t.Enc()) && len <= INT32_MAX
    requires var a, a' := Align4(|t.value|), Align4(len);
             && |gap| == |st| - a + a' && p + 12 + a' <= |gap|
             && gap[..p + 12 + Min(a, a')] == st[..p + 12 + Min(a, a')]
             && gap[p + 12 + a'..] == st[p + 12 + a..]
    requires st' == Stored(gap, p + 4, Put32(len))
    ensures |t.Enc()| == 12 + Align4(|t.value|) && p + |t.Enc()| <= |st|
    ensures var t' := TokenOf(st', p, t.nameOff, len);
            && t'.Ok()
            && st' == Splice(st, p, p + |t.Enc()|, t'.Enc())
            && (len >= |t.value| ==> t'.value[..|t.value|] == t.value)
  {
    hide At, Put32, Get32, Stored, Token.Enc, Splice;
    var a, a' := Align4(|t.value|), Align4(len);
    var m := p + 12 + Min(a, a');
    var c0, c1, c2 := Put32(PROP), Put32(len), Put32(t.nameOff);
    EncLength(t);
    AtBound(st, p, t.Enc());
    PropParts(st, p, t);
    PrefixAt(st, gap, m, p, c0);
    PrefixAt(st, gap, m, p + 8, c2);
    StoredAt(gap, p + 4, c1);
    StoredElsewhere(gap, p + 4, c1, p, c0);
    StoredElsewhere(gap, p + 4, c1, p + 8, c2);
    TokenOfEnc(st', p, t.nameOff, len);
    var t' := TokenOf(st', p, t.nameOff, len);
    EncLength(t');
    StoredEnds(gap, p + 4, c1, p, p + 12 + a');
    PrefixSlice(st, gap, m, 0, p);
    SplicedIs(st, st', p, p + 12 + a, t'.Enc());
    if len >= |t.value| {
      ValueKept(st, gap, st', p, m, t, len);
    }
  }

  lemma ValueKept(st: seq<byte>, gap: seq<byte>, st': seq<byte>, p: nat, m: nat, t: Token, len: nat)
    requires t.Prop? && At(st, p + 12, t.value) && p + 12 + |t.value| <= m <= |gap| && m <= |st| && gap[..m] == st[..m]
    requires p + 8 <= |gap| && len <= INT32_MAX && st' == Stored(gap, p + 4, Put32(len))
    requires |t.value| <= len && p + 12 + Align4(len) <= |st'|
    ensures TokenOf(st', p, t.nameOff, len).value[..|t.value|] == t.value
  {
    hide At, Put32, Stored;
    PrefixAt(st, gap, m, p + 12, t.value);
    StoredElsewhere(gap, p + 4, Put32(len), p + 12, t.value);
    SliceSlice(st', p + 12, p + 12 + len, 0, |t.value|);
    AtBound(st', p + 12, t.value);
  }

  lemma PrefixSlice(s: seq<byte>, s': seq<byte>, m: nat, a: nat, b: nat)
    requires m <= |s| && m <= |s'| && s[..m] == s'[..m] && a <= b <= m
    ensures s[a..b] == s'[a..b]
  {
    SliceSlice(s, 0, m, a, b);
    SliceSlice(s', 0, m, a, b);
  }

  lemma PrefixAt(s: seq<byte>, s': seq<byte>, m: nat, off: nat, e: seq<byte>)
    requires m <= |s| && m <= |s'| && s[..m] == s'[..m] && off + |e| <= m
    requires At(s, off, e)
    ensures At(s', off, e)
  {
    PrefixSlice(s, s', m, off, off + |e|);
  }

  // From bytes to trees ------------------------------------------------------------------

  lemma EditDone(before: Image, after: Image, i: nat, repl: seq<Node>)
    requires before.Valid() && IsNode(before.shape, i)
    requires OrderedIn(after.hdr, |after.mem|) && HeaderKept(before.hdr, after.hdr)
    requires HeadOf(after.hdr, after.mem) == HeadOf(before.hdr, before.mem)
    requires Edited(before.shape, StringsOf(before.hdr, before.mem), i, repl,
                    after.shape, StructOf(after.hdr, after.mem), StringsOf(after.hdr, after.mem))
    ensures NodeEdited(before, after, Off(Stream(before.shape), i), repl)
  {
    hide Describes, Off, Stream, PathAt, Kids, Update, ValidPath, StructOf, StringsOf, HeadOf;
    IndexUnique(before.shape, i);
  }

  lemma BodyToken<T>(s: seq<T>, off: nat, w: seq<T>, k: nat)
    requires At(s, off, w) && k < |w|
    ensures off + k < |s| && s[off + k] == w[k]
  {
    assert s[off..off + |w|][k] == s[off + k];
  }

  lemma AtBound<T>(s: seq<T>, off: nat, e: seq<T>)
    requires At(s, off, e)
    ensures off + |e| <= |s| && s[off..off + |e|] == e
  {
  }

  // The property that a lookup of name in node n reports is token k of its contents,
  // at offset p, and spells the token t.
  ghost predicate PropertyAt(im: Image, n: nat, name: seq<byte>, k: nat, p: nat, t: Token) {
    && IsNodeOffset(im.shape, n)
    && OrderedIn(im.hdr, |im.mem|)
    && var i := IndexAt(im.shape, n);
       && FindProp(NodeAt(im.shape, i).body, StringsOf(im.hdr, im.mem), name) == Some(k)
       && i + 2 + k < |Stream(im.shape)|
       && Stream(im.shape)[i + 1 + k] == t
       && Off(Stream(im.shape), i + 1 + k) == p
       && t.Prop?
  }

  lemma LookupFinds(im: Image, n: nat, name: seq<byte>, k: nat)
    requires im.Valid() && IsNodeOffset(im.shape, n)
    requires FindProp(NodeAt(im.shape, IndexAt(im.shape, n)).body, StringsOf(im.hdr, im.mem), name) == Some(k)
    ensures IndexAt(im.shape, n) + 2 + k < |Stream(im.shape)|
    ensures PropertyAt(im, n, name, k, Off(Stream(im.shape), IndexAt(im.shape, n) + 1 + k),
                       Stream(im.shape)[IndexAt(im.shape, n) + 1 + k])
  {
    hide Off, Stream, CStr, NodeAt, FindProp, StructOf, StringsOf, HeadOf, Describes, RsvCount;
    var i := IndexAt(im.shape, n);
    PropOfNode(im.shape, i, StringsOf(im.hdr, im.mem), name);
    StreamEnds(im.shape, i + 1 + k);
  }

  lemma PropertyFacts(im: Image, n: nat, name: seq<byte>, k: nat, p: nat, t: Token)
    requires im.Valid() && PropertyAt(im, n, name, k, p, t)
    ensures t.Ok() && CStr(StringsOf(im.hdr, im.mem), t.nameOff) == Some(name)
    ensures At(StructOf(im.hdr, im.mem), p, t.Enc())
    ensures p + |t.Enc()| <= im.hdr.sizeStruct
    ensures Off(Stream(im.shape), IndexAt(im.shape, n) + 2 + k) == p + |t.Enc()|
  {
    hide Off, Stream, Toks, CStr, EncAll, NodeAt, FindProp, StructOf, StringsOf, HeadOf, Describes, RsvCount, At,
      Token.Enc, Token.Ok, NextTag;
    var i := IndexAt(im.shape, n);
    PropOfNode(im.shape, i, StringsOf(im.hdr, im.mem), name);
    DescribedTag(im.shape, StructOf(im.hdr, im.mem), StringsOf(im.hdr, im.mem), i + 1 + k);
    OffStep(Stream(im.shape), i + 1 + k);
    AtBound(StructOf(im.hdr, im.mem), p, t.Enc());
    assert |StructOf(im.hdr, im.mem)| == im.hdr.sizeStruct by { StructSize(im.hdr, im.mem); }
  }

  lemma StructSize(h: Header, mem: seq<byte>)
    requires OrderedIn(h, |mem|)
    ensures |StructOf(h, mem)| == h.sizeStruct
  {
  }

  // The property found is the first of that name in the tree.
  lemma PropertyMeans(im: Image, n: nat, name: seq<byte>, k: nat, p: nat, t: Token)
    requires im.Valid() && PropertyAt(im, n, name, k, p, t)
    ensures OldValue(im, n, name) == Some(t.value)
  {
    hide Off, Stream, Toks, CStr, EncAll, NodeAt, FindProp, StructOf, StringsOf, HeadOf, RsvCount, At, Props, Kids,
      FirstProp, WellNested, Resolved, PropsFirst;
    var i := IndexAt(im.shape, n);
    var strs := StringsOf(im.hdr, im.mem);
    var body := NodeAt(im.shape, i).body;
    NodeParts(im.shape, StructOf(im.hdr, im.mem), strs, i);
    FindPropMeaning(body, strs, name);
    NodeRun(im.shape, i);
    BodyToken(Stream(im.shape), i + 1, Toks(body), k);
  }

  // The value of the first property of that name, if there is one.
  ghost function OldValue(im: Image, n: nat, name: seq<byte>): Option<seq<byte>>
    requires OrderedIn(im.hdr, |im.mem|) && IsNodeOffset(im.shape, n)
  {
    var props := im.NodeOf(n).props;
    if FirstProp(props, name) < |props| then Some(props[FirstProp(props, name)].value) else None
  }

  // A property lookup that succeeds agrees with the tree.
  lemma OldValueFound(im: Image, n: nat, name: seq<byte>)
    requires im.Valid() && IsNodeOffset(im.shape, n)
    ensures var body := NodeAt(im.shape, IndexAt(im.shape, n)).body;
            OldValue(im, n, name).Some? <==> FindProp(body, StringsOf(im.hdr, im.mem), name).Some?
  {
    hide Off, Stream, CStr, EncAll, Props, Kids, NodeAt, FindProp, FirstProp, StructOf, StringsOf, HeadOf, WellNested,
      PropsFirst, Resolved, NextTag, Toks;
    var i := IndexAt(im.shape, n);
    var strs := StringsOf(im.hdr, im.mem);
    NodeParts(im.shape, StructOf(im.hdr, im.mem), strs, i);
    FindPropMeaning(NodeAt(im.shape, i).body, strs, name);
  }

  lemma {:induction false} FindReplaced(body: Items, strs: seq<byte>, name: seq<byte>, k: nat, t: LeafToken)
    requires FindProp(body, strs, name) == Some(k)
    requires t.Prop? && CStr(strs, t.nameOff) == Some(name)
    ensures FindProp(ReplaceProp(body, k, Leaf(t, Done)), strs, name) == Some(k)
  {
    hide CStr;
    if k > 0 {
      FindReplaced(body.rest, strs, name, k - 1, t);
    } else {
      assert Append(Leaf(t, Done), body.rest) == Leaf(t, body.rest);
    }
  }

  // The place of the node and of its token k after its contents have been replaced.
  lemma BodyReplaced(shape: Items, n: nat, b: Items, k: nat, e: nat, mid: seq<Token>)
    requires IsNodeOffset(shape, n)
    requires var body := NodeAt(shape, IndexAt(shape, n)).body;
             k <= e <= |Toks(body)| && Toks(b) == Splice(Toks(body), k, e, mid) && |mid| > 0
    ensures var i := IndexAt(shape, n);
            var s2 := WithBody(shape, i, b);
            && IsNodeOffset(s2, n) && IndexAt(s2, n) == i
            && NodeAt(s2, i).body == b
            && i + 1 + k + |mid| < |Stream(s2)|
            && Stream(s2)[i + 1 + k..i + 1 + k + |mid|] == mid
            && i + 1 + k < |Stream(shape)|
            && Off(Stream(s2), i + 1 + k) == Off(Stream(shape), i + 1 + k)
  {
    hide Off, Toks, NodeAt, ReplaceAt, Stream, PathAt, Splice;
    var i := IndexAt(shape, n);
    var node := NodeAt(shape, i);
    var frag := Sub(node.name, node.npad, b, Done);
    ReplaceFound(shape, i, frag);
    StableOffset(shape, i, frag, n);
    BodyTokens(shape, i, b, k, e, mid);
  }

  lemma BodyTokens(shape: Items, i: nat, b: Items, k: nat, e: nat, mid: seq<Token>)
    requires IsNode(shape, i)
    requires var body := NodeAt(shape, i).body;
             k <= e <= |Toks(body)| && Toks(b) == Splice(Toks(body), k, e, mid) && |mid| > 0
    ensures var s2 := WithBody(shape, i, b);
            && i + 1 + k + |mid| < |Stream(s2)|
            && Stream(s2)[i + 1 + k..i + 1 + k + |mid|] == mid
            && i + 1 + k < |Stream(shape)|
            && Off(Stream(s2), i + 1 + k) == Off(Stream(shape), i + 1 + k)
  {
    hide Off, Toks, NodeAt, ReplaceAt, Stream, WithBody, IsNode;
    NodeRun(shape, i);
    StreamWithBody(shape, i, b, k, e, mid);
    SpliceParts(Stream(shape), i + 1 + k, i + 1 + e, mid);
    OffPrefix(Stream(shape), Stream(WithBody(shape, i, b)), i + 1 + k);
  }

  lemma SpliceParts<T>(s: seq<T>, a: nat, b: nat, mid: seq<T>)
    requires a <= b <= |s|
    ensures |Splice(s, a, b, mid)| == |s| - (b - a) + |mid|
    ensures Splice(s, a, b, mid)[..a] == s[..a]
    ensures Splice(s, a, b, mid)[a..a + |mid|] == mid
  {
  }

  // The bytes and the syntax after have token t where the property token t0 was.
  ghost predicate Rewrites(before: Image, after: Image, n: nat, name: seq<byte>, k: nat, p: nat, t0: Token, t: Token) {
    && before.Valid() && PropertyAt(before, n, name, k, p, t0)
    && OrderedIn(after.hdr, |after.mem|) && HeaderKept(before.hdr, after.hdr)
    && HeadOf(after.hdr, after.mem) == HeadOf(before.hdr, before.mem)
    && StringsOf(after.hdr, after.mem) == StringsOf(before.hdr, before.mem)
    && t.Prop? && t.Ok() && t.nameOff == t0.nameOff
    && p + |t0.Enc()| <= before.hdr.sizeStruct
    && StructOf(after.hdr, after.mem)
       == Splice(StructOf(before.hdr, before.mem), p, p + |t0.Enc()|, t.Enc())
    && var i := IndexAt(before.shape, n);
       after.shape == WithBody(before.shape, i, ReplaceProp(NodeAt(before.shape, i).body, k, Leaf(t, Done)))
  }

  lemma RewrittenTree(before: Image, after: Image, n: nat, name: seq<byte>, k: nat, p: nat, t0: Token, t: Token)
    requires Rewrites(before, after, n, name, k, p, t0, t)
    ensures NodeEdited(before, after, n, [PutProp(before.NodeOf(n), name, t.value)])
    ensures KeepsOffsets(before.shape, after.shape, n)
  {
    hide Off, Toks, NodeAt, ReplaceAt, Stream, PathAt, CStr, Describes, FindProp, ReplaceProp, Token.Ok, Token.Enc,
      StructOf, StringsOf, HeadOf, Splice, WithBody, Edited, KeepsOffsets, HeaderKept, EncAll, Kids, Props, NodeEdited,
      PutProp, RsvCount, At;
    var i := IndexAt(before.shape, n);
    PropertyFacts(before, n, name, k, p, t0);
    StructSize(before.hdr, before.mem);
    NamedPropReplaced(before.shape, StructOf(before.hdr, before.mem), StringsOf(before.hdr, before.mem), i, name, k, t,
                      StructOf(after.hdr, after.mem));
    EditDone(before, after, i, [PutProp(before.NodeOf(n), name, t.value)]);
  }

  lemma RewrittenPlace(before: Image, after: Image, n: nat, name: seq<byte>, k: nat, p: nat, t0: Token, t: Token)
    requires Rewrites(before, after, n, name, k, p, t0, t)
    ensures PropertyAt(after, n, name, k, p, t)
  {
    hide Off, Toks, NodeAt, ReplaceAt, Stream, PathAt, CStr, Describes, FindProp, ReplaceProp, Token.Ok, Token.Enc,
      StructOf, StringsOf, HeadOf, Splice, WithBody, HeaderKept, Kids, Props, RsvCount, At;
    var body := NodeAt(before.shape, IndexAt(before.shape, n)).body;
    PropertyFacts(before, n, name, k, p, t0);
    TokenReplaced(before.shape, n, body, k, t);
    FindReplaced(body, StringsOf(before.hdr, before.mem), name, k, t);
  }

  lemma TokenReplaced(shape: Items, n: nat, body: Items, k: nat, t: LeafToken)
    requires IsNodeOffset(shape, n) && body == NodeAt(shape, IndexAt(shape, n)).body && IsPropOf(body, k)
    ensures var b := ReplaceProp(body, k, Leaf(t, Done));
            var s2 := WithBody(shape, IndexAt(shape, n), b);
            && IsNodeOffset(s2, n) && IndexAt(s2, n) == IndexAt(shape, n)
            && NodeAt(s2, IndexAt(s2, n)).body == b
            && IndexAt(shape, n) + 2 + k < |Stream(s2)|
            && Stream(s2)[IndexAt(shape, n) + 1 + k] == t
            && IndexAt(shape, n) + 1 + k < |Stream(shape)|
            && Off(Stream(s2), IndexAt(shape, n) + 1 + k) == Off(Stream(shape), IndexAt(shape, n) + 1 + k)
  {
    hide Off, Toks, NodeAt, ReplaceAt, Stream, ReplaceProp, Splice, WithBody;
    var f := Leaf(t, Done);
    LeafToks(t);
    ReplacePropToks(body, k, f);
    BodyReplaced(shape, n, ReplaceProp(body, k, f), k, k + 1, [t]);
  }

  // Properties ------------------------------------------------------------------------------

  // fdt_get_property_w on a node: the offset of the property and its length.
  method FindProperty(fdt: Blob, n: nat, name: seq<byte>)
    returns (r: Result<nat>, len: nat, ghost k: nat, ghost t: Token)
    requires fdt.Valid() && fdt.NodeArg(n)
    ensures !IsNodeOffset(fdt.shape, n) ==> r == Failure(BadOffset)
    ensures r.Success? ==> PropertyAt(fdt.Img(), n, name, k, r.value, t) && t.Prop? && len == |t.value|
                           && r.value + 12 + len <= fdt.hdr.sizeStruct
                           && OldValue(fdt.Img(), n, name) == Some(t.value)
    ensures r.Failure? && IsNodeOffset(fdt.shape, n) ==>
              r == Failure(NotFound) && OldValue(fdt.Img(), n, name) == None
  {
    hide Describes, Off, Stream, CStr, FindProp, NodeAt, OldValue, NodeCheck, RsvCount, HeadOf, StructOf, StringsOf;
    len, k, t := 0, 0, Nop;
    r := GetProperty(fdt, n, name);
    NodeCheckError(fdt.StructBlock(), n);
    if IsNodeOffset(fdt.shape, n) {
      OldValueFound(fdt.Img(), n, name);
    }
    if r.Success? {
      ghost var i := IndexAt(fdt.shape, n);
      k := FindProp(NodeAt(fdt.shape, i).body, fdt.StringsBlock(), name).value;
      t := Stream(fdt.shape)[i + 1 + k];
      LookupFinds(fdt.Img(), n, name, k);
      PropertyMeans(fdt.Img(), n, name, k, r.value, t);
      len := PropLen(fdt, r.value, i + 1 + k);
    }
  }

  // How many bytes the blob grows by when property name of node n is set to len bytes.
  ghost function PropGrowth(im: Image, n: nat, name: seq<byte>, len: nat): int
    requires OrderedIn(im.hdr, |im.mem|) && IsNodeOffset(im.shape, n)
  {
    match OldValue(im, n, name)
    case Some(v) => Align4(len) - Align4(|v|)
    case None =>
      12 + Align4(len) + if FindStr(StringsOf(im.hdr, im.mem), 0, name).Some? then 0 else |name| + 1
  }

  // What the strings block is then.
  ghost function PropStrings(im: Image, n: nat, name: seq<byte>): seq<byte>
    requires OrderedIn(im.hdr, |im.mem|) && IsNodeOffset(im.shape, n)
  {
    var strs := StringsOf(im.hdr, im.mem);
    if OldValue(im, n, name).Some? then strs else strs + NewName(strs, name)
  }

  lemma ResizeGrowth(im: Image, n: nat, name: seq<byte>, len: nat)
    requires OrderedIn(im.hdr, |im.mem|) && IsNodeOffset(im.shape, n) && OldValue(im, n, name).Some?
    ensures PropGrowth(im, n, name, len) == Align4(len) - Align4(|OldValue(im, n, name).value|)
    ensures PropStrings(im, n, name) == StringsOf(im.hdr, im.mem)
  {
    hide OldValue, StringsOf;
  }

  // fdt_resize_property_
  method ResizeProperty(fdt: Blob, n: nat, name: seq<byte>, len: nat)
    returns (r: Result<nat>, ghost k: nat, ghost t: Token)
    requires fdt.Valid() && fdt.NodeArg(n) && len <= MAX_LEN
    modifies fdt, fdt.buf
    ensures old(!IsNodeOffset(fdt.shape, n)) <==> r == Failure(BadOffset)
    ensures old(IsNodeOffset(fdt.shape, n)) ==>
              && (old(OldValue(fdt.Img(), n, name)) == None <==> r == Failure(NotFound))
              && (r == Failure(NoSpace) <==>
                    (&& old(OldValue(fdt.Img(), n, name)).Some?
                     && DataSize(old(fdt.hdr)) + old(PropGrowth(fdt.Img(), n, name, len)) > old(fdt.hdr.totalsize)))
    ensures r.Failure? ==> r.error in {BadOffset, NotFound, NoSpace} && fdt.Img() == old(fdt.Img())
    ensures r.Success? ==>
              && t.Prop? && PropertyAt(fdt.Img(), n, name, k, r.value, t) && |t.value| == len
              && NodeEdited(old(fdt.Img()), fdt.Img(), n, [PutProp(old(fdt.Img().NodeOf(n)), name, t.value)])
              && KeepsOffsets(old(fdt.shape), fdt.shape, n)
              && DataSize(fdt.hdr) == DataSize(old(fdt.hdr)) + old(PropGrowth(fdt.Img(), n, name, len))
              && fdt.Ordered() && fdt.StringsBlock() == old(PropStrings(fdt.Img(), n, name))
              && (len >= |old(OldValue(fdt.Img(), n, name)).value| ==>
                    t.value[..|old(OldValue(fdt.Img(), n, name)).value|] == old(OldValue(fdt.Img(), n, name)).value)
  {
    hide Describes, Off, Stream, CStr, FindProp, NodeAt, OldValue, RsvCount, HeadOf, StructOf, StringsOf, PropertyAt,
      NodeEdited, PutProp, KeepsOffsets, Stored, StructSpliced, PropGrowth, PropStrings;
    ghost var before := fdt.Img();
    var oldlen;
    ghost var t0;
    r, oldlen, k, t0 := FindProperty(fdt, n, name);
    t := t0;
    if r.Failure? {
      return;
    }
    var p := r.value;
    PropertyExtent(before, n, name, k, p, t0);
    ResizeGrowth(before, n, name, len);
    var e := SpliceStruct(fdt, p + 12, Align4(oldlen), Align4(len));
    if e.Failure? {
      return Failure(e.error), k, t;
    }
    ghost var gap := fdt.Img();
    SplicedLayout(before.hdr, before.mem, gap.hdr, gap.mem, p + 12, Align4(oldlen), Align4(len));
    SplicedSize(before.hdr, before.mem, gap.hdr, gap.mem, p + 12, Align4(oldlen), Align4(len));
    StoreStruct(fdt, p + 4, Put32(len));
    StructSize(fdt.hdr, fdt.buf[..]);
    t := TokenOf(fdt.StructBlock(), p, t0.nameOff, len);
    ghost var i := IndexAt(fdt.shape, n);
    fdt.shape := WithBody(fdt.shape, i, ReplaceProp(NodeAt(fdt.shape, i).body, k, Leaf(t, Done)));
    ResizeRewrites(before, gap, fdt.Img(), n, name, k, p, t0, len);
    RewrittenTree(before, fdt.Img(), n, name, k, p, t0, t);
    RewrittenPlace(before, fdt.Img(), n, name, k, p, t0, t);
  }

  lemma PropertyExtent(im: Image, n: nat, name: seq<byte>, k: nat, p: nat, t: Token)
    requires im.Valid() && PropertyAt(im, n, name, k, p, t)
    ensures p + 12 + Align4(|t.value|) <= im.hdr.sizeStruct
    ensures FindProp(NodeAt(im.shape, IndexAt(im.shape, n)).body, StringsOf(im.hdr, im.mem), name) == Some(k)
    ensures t.Prop?
  {
    hide Describes, Off, Stream, CStr, FindProp, NodeAt, RsvCount, HeadOf, StructOf, StringsOf;
    PropertyFacts(im, n, name, k, p, t);
    PropCells(StructOf(im.hdr, im.mem), p, t);
  }

  lemma SplicedLayout(h: Header, mem: seq<byte>, h': Header, mem': seq<byte>, p: nat, oldlen: nat, newlen: nat)
    requires StructSpliced(h, mem, h', mem', p, oldlen, newlen)
    ensures OrderedIn(h, |mem|) && OrderedIn(h', |mem'|) && HeaderKept(h, h')
    ensures h'.sizeStruct == h.sizeStruct - oldlen + newlen && p + oldlen <= h.sizeStruct
    ensures HeadOf(h', mem') == HeadOf(h, mem) && StringsOf(h', mem') == StringsOf(h, mem)
  {
  }

  lemma ResizeRewrites(before: Image, gap: Image, after: Image, n: nat, name: seq<byte>, k: nat, p: nat, t0: Token,
                       len: nat)
    requires before.Valid() && PropertyAt(before, n, name, k, p, t0) && len <= MAX_LEN
    requires StructSpliced(before.hdr, before.mem, gap.hdr, gap.mem, p + 12, Align4(|t0.value|), Align4(len))
    requires after.hdr == gap.hdr && OrderedIn(after.hdr, |after.mem|)
    requires p + 12 + Align4(len) <= after.hdr.sizeStruct
    requires HeadOf(after.hdr, after.mem) == HeadOf(gap.hdr, gap.mem)
    requires StringsOf(after.hdr, after.mem) == StringsOf(gap.hdr, gap.mem)
    requires StructOf(after.hdr, after.mem) == Stored(StructOf(gap.hdr, gap.mem), p + 4, Put32(len))
    requires var i := IndexAt(before.shape, n);
             var t := TokenOf(StructOf(after.hdr, after.mem), p, t0.nameOff, len);
             after.shape == WithBody(before.shape, i, ReplaceProp(NodeAt(before.shape, i).body, k, Leaf(t, Done)))
    ensures var t := TokenOf(StructOf(after.hdr, after.mem), p, t0.nameOff, len);
            && Rewrites(before, after, n, name, k, p, t0, t)
            && (len >= |t0.value| ==> t.value[..|t0.value|] == t0.value)
  {
    hide Describes, Off, Stream, CStr, FindProp, NodeAt, RsvCount, Stored, WithBody, StructOf, HeadOf, StringsOf,
      ReplaceProp, At, Put32, Token.Enc, Token.Ok, Splice;
    StructSize(after.hdr, after.mem);
    StructSize(gap.hdr, gap.mem);
    StructSize(before.hdr, before.mem);
    PropertyFacts(before, n, name, k, p, t0);
    ResizedToken(StructOf(before.hdr, before.mem), StructOf(gap.hdr, gap.mem), StructOf(after.hdr, after.mem), p, t0,
                 len);
  }

  // A new property in a gap: the bytes after the three header cells have been stored.
  lemma AddedToken(st: seq<byte>, gap: seq<byte>, st': seq<byte>, p: nat, nameOff: u32, len: nat)
    requires len <= MAX_LEN && p <= |st|
    requires |gap| == |st| + 12 + Align4(len) && gap[..p] == st[..p] && gap[p + (12 + Align4(len))..] == st[p..]
    requires st' == Stored(Stored(Stored(gap, p, Put32(PROP)), p + 8, Put32(nameOff)), p + 4, Put32(len))
    ensures var t := TokenOf(st', p, nameOff, len);
            t.Ok() && st' == Splice(st, p, p, t.Enc())
  {
    hide Stored, Put32, At, Token.Enc, Token.Ok, Splice;
    var c0, c1, c2 := Put32(PROP), Put32(len), Put32(nameOff);
    var g1 := Stored(gap, p, c0);
    var g2 := Stored(g1, p + 8, c2);
    StoredAt(gap, p, c0);
    StoredElsewhere(g1, p + 8, c2, p, c0);
    StoredElsewhere(g2, p + 4, c1, p, c0);
    StoredAt(g1, p + 8, c2);
    StoredElsewhere(g2, p + 4, c1, p + 8, c2);
    StoredAt(g2, p + 4, c1);
    TokenOfEnc(st', p, nameOff, len);
    var b := p + 12 + Align4(len);
    StoredEnds(gap, p, c0, p, b);
    StoredEnds(g1, p + 8, c2, p, b);
    StoredEnds(g2, p + 4, c1, p, b);
    var t := TokenOf(st', p, nameOff, len);
    EncLength(t);
    SplicedIs(st, st', p, p, t.Enc());
  }

  lemma EncLength(t: Token)
    requires t.Prop? && t.Ok()
    ensures |t.Enc()| == 12 + Align4(|t.value|)
  {
  }

  // The ghost half of adding a property: strings may have grown by `more`.
  lemma AddDone(before: Image, after: Image, n: nat, name: seq<byte>, more: seq<byte>, t: Token)
    requires before.Valid() && IsNodeOffset(before.shape, n)
    requires var i := IndexAt(before.shape, n);
             && FindProp(NodeAt(before.shape, i).body, StringsOf(before.hdr, before.mem), name) == None
             && t.Prop? && t.Ok()
             && after.shape == WithBody(before.shape, i, Leaf(t, NodeAt(before.shape, i).body))
             && i + 1 < |Stream(before.shape)| && Off(Stream(before.shape), i + 1) <= before.hdr.sizeStruct
             && OrderedIn(after.hdr, |after.mem|) && HeaderKept(before.hdr, after.hdr)
             && StructOf(after.hdr, after.mem)
                == Splice(StructOf(before.hdr, before.mem), Off(Stream(before.shape), i + 1),
                          Off(Stream(before.shape), i + 1), t.Enc())
    requires HeadOf(after.hdr, after.mem) == HeadOf(before.hdr, before.mem)
    requires StringsOf(after.hdr, after.mem) == StringsOf(before.hdr, before.mem) + more
    requires CStr(StringsOf(after.hdr, after.mem), t.nameOff) == Some(name)
    ensures NodeEdited(before, after, n, [PutProp(before.NodeOf(n), name, t.value)])
    ensures KeepsOffsets(before.shape, after.shape, n)
    ensures PropertyAt(after, n, name, 0, Off(Stream(before.shape), IndexAt(before.shape, n) + 1), t)
  {
    hide Describes, Off, Stream, CStr, NodeAt, RsvCount, WithBody, At, Token.Enc, Token.Ok, Splice, StructOf, HeadOf,
      StringsOf, Kids, Props, Edited, NodeEdited, KeepsOffsets, PutProp, Toks, HeaderKept, Update;
    var i := IndexAt(before.shape, n);
    var body := NodeAt(before.shape, i).body;
    StructSize(before.hdr, before.mem);
    PropAdded(before.shape, StructOf(before.hdr, before.mem), StringsOf(before.hdr, before.mem), more, i, name, t,
              StructOf(after.hdr, after.mem));
    EditDone(before, after, i, [PutProp(before.NodeOf(n), name, t.value)]);
    LeafInFront(t, body, []);
    BodyReplaced(before.shape, n, Leaf(t, body), 0, 0, [t]);
  }

  // fdt_add_property_
  method AddProperty(fdt: Blob, n: nat, name: seq<byte>, len: nat)
    returns (r: Result<nat>, ghost t: Token)
    requires fdt.Valid() && fdt.NodeArg(n) && len <= MAX_LEN && |name| < INT32_MAX && NoNul(name)
    requires IsNodeOffset(fdt.shape, n) ==> OldValue(fdt.Img(), n, name) == None
    modifies fdt, fdt.buf
    ensures old(!IsNodeOffset(fdt.shape, n)) <==> r == Failure(BadOffset)
    ensures old(IsNodeOffset(fdt.shape, n)) ==>
              (r.Failure? <==>
                 DataSize(old(fdt.hdr)) + old(PropGrowth(fdt.Img(), n, name, len)) > old(fdt.hdr.totalsize))
    ensures r.Failure? ==> r.error in {BadOffset, NoSpace} && Intact(old(fdt.Img()), fdt.Img())
    ensures r.Success? ==>
              && t.Prop? && PropertyAt(fdt.Img(), n, name, 0, r.value, t) && |t.value| == len
              && NodeEdited(old(fdt.Img()), fdt.Img(), n, [PutProp(old(fdt.Img().NodeOf(n)), name, t.value)])
              && KeepsOffsets(old(fdt.shape), fdt.shape, n)
              && DataSize(fdt.hdr) == DataSize(old(fdt.hdr)) + old(PropGrowth(fdt.Img(), n, name, len))
              && fdt.Ordered() && fdt.StringsBlock() == old(PropStrings(fdt.Img(), n, name))
  {
    hide Describes, Off, Stream, CStr, FindProp, NodeAt, RsvCount, HeadOf, StructOf, StringsOf, PropertyAt, NodeEdited,
      PutProp, KeepsOffsets, Stored, StructSpliced, FindStr, NodeCheck, OldValue, Token.Enc, Token.Ok, WithBody, Toks,
      At, Put32, Splice, NoNul;
    t := Nop;
    ghost var before := fdt.Img();
    var c := PropertyPlace(fdt, n);
    if c.Failure? {
      return Failure(c.error), t;
    }
    ghost var i := IndexAt(fdt.shape, n);
    OldValueFound(before, n, name);
    var p := c.value;
    var nameoff, added := FindAddString(fdt, name);
    if nameoff.Failure? {
      return nameoff, t;
    }
    ghost var mid := fdt.Img();
    ghost var more := if added then name + [0] else [];
    NameResolves(before, mid, name, nameoff.value, added);
    var e := SpliceStruct(fdt, p, 0, 12 + Align4(len));
    if e.Failure? {
      if added {
        fdt.hdr := fdt.hdr.(sizeStrings := fdt.hdr.sizeStrings - (|name| + 1));
      }
      return Failure(e.error), t;
    }
    ghost var gap := fdt.Img();
    SplicedLayout(mid.hdr, mid.mem, gap.hdr, gap.mem, p, 0, 12 + Align4(len));
    SplicedSize(mid.hdr, mid.mem, gap.hdr, gap.mem, p, 0, 12 + Align4(len));
    t := FillProperty(fdt, p, nameoff.value, len, mid);
    fdt.shape := WithBody(fdt.shape, i, Leaf(t, NodeAt(fdt.shape, i).body));
    AddDone(before, fdt.Img(), n, name, more, t);
    return Success(p), t;
  }

  // Where the properties of a node begin
  method PropertyPlace(fdt: Blob, n: nat) returns (r: Result<nat>)
    requires fdt.Valid() && fdt.NodeArg(n)
    ensures !IsNodeOffset(fdt.shape, n) ==> r == Failure(BadOffset)
    ensures IsNodeOffset(fdt.shape, n) ==>
              var i := IndexAt(fdt.shape, n);
              i + 1 < |Stream(fdt.shape)| && r == Success(Off(Stream(fdt.shape), i + 1))
                && r.value <= fdt.hdr.sizeStruct
  {
    hide Describes, Off, Stream, CStr, NodeAt, RsvCount, HeadOf, StructOf, StringsOf, NodeCheck;
    ReadableStruct(fdt);
    NodeOffsetMust(fdt, n);
    NodeCheckError(fdt.StructBlock(), n);
    r := CheckNodeOffset(fdt, n);
    if IsNodeOffset(fdt.shape, n) {
      NodeOffsetChecks(fdt.shape, fdt.StructBlock(), fdt.StringsBlock(), n);
      OffsetBound(fdt.Img(), IndexAt(fdt.shape, n) + 1);
    }
  }

  // The cells in front of the value, in a gap that has been opened at p
  method FillProperty(fdt: Blob, p: nat, nameOff: u32, len: nat, ghost mid: Image) returns (ghost t: Token)
    requires StructSpliced(mid.hdr, mid.mem, fdt.hdr, fdt.buf[..], p, 0, 12 + Align4(len)) && len <= MAX_LEN
    modifies fdt.buf
    ensures fdt.Ordered() && OrderedIn(mid.hdr, |mid.mem|)
    ensures fdt.Head() == HeadOf(mid.hdr, mid.mem) && fdt.StringsBlock() == StringsOf(mid.hdr, mid.mem)
    ensures t.Prop? && t.Ok() && t.nameOff == nameOff && |t.value| == len && p <= mid.hdr.sizeStruct
    ensures |StructOf(mid.hdr, mid.mem)| == mid.hdr.sizeStruct
    ensures fdt.StructBlock() == Splice(StructOf(mid.hdr, mid.mem), p, p, t.Enc())
  {
    hide StructSpliced, Stored, Put32, Token.Enc, Token.Ok, Splice, StructOf, HeadOf, StringsOf;
    ghost var gap := fdt.Img();
    SplicedLayout(mid.hdr, mid.mem, gap.hdr, gap.mem, p, 0, 12 + Align4(len));
    SplicedSize(mid.hdr, mid.mem, gap.hdr, gap.mem, p, 0, 12 + Align4(len));
    StructSize(mid.hdr, mid.mem);
    StorePropHeader(fdt, p, nameOff, len);
    StructSize(fdt.hdr, fdt.buf[..]);
    t := TokenOf(fdt.StructBlock(), p, nameOff, len);
    AddSpliced(mid, gap, fdt.StructBlock(), p, nameOff, len);
  }

  // The tag, the name offset and the length of a new property, in the order they are stored.
  method StorePropHeader(fdt: Blob, p: nat, nameOff: u32, len: u32)
    requires fdt.Ordered() && p + 12 <= fdt.hdr.sizeStruct
    modifies fdt.buf
    ensures fdt.Head() == old(fdt.Head())
    ensures fdt.StringsBlock() == old(fdt.StringsBlock())
    ensures fdt.StructBlock()
         == Stored(Stored(Stored(old(fdt.StructBlock()), p, Put32(PROP)), p + 8, Put32(nameOff)), p + 4, Put32(len))
  {
    hide Stored, Put32, StructOf, HeadOf, StringsOf;
    StructSize(fdt.hdr, fdt.buf[..]);
    StoreStruct(fdt, p, Put32(PROP));
    StoreStruct(fdt, p + 8, Put32(nameOff));
    StoreStruct(fdt, p + 4, Put32(len));
  }

  lemma OffsetBound(im: Image, i: nat)
    requires im.Valid() && i < |Stream(im.shape)|
    ensures Off(Stream(im.shape), i) <= im.hdr.sizeStruct
  {
    hide Describes, Off, Stream, RsvCount, StructOf, StringsOf, HeadOf, Token.Enc, At, NextTag;
    DescribedTag(im.shape, StructOf(im.hdr, im.mem), StringsOf(im.hdr, im.mem), i);
    AtBound(StructOf(im.hdr, im.mem), Off(Stream(im.shape), i), Stream(im.shape)[i].Enc());
    StructSize(im.hdr, im.mem);
  }

  // The offset that fdt_find_add_string_ returns resolves to the name.
  lemma NameResolves(before: Image, mid: Image, name: seq<byte>, off: nat, added: bool)
    requires NoNul(name) && OrderedIn(before.hdr, |before.mem|) && OrderedIn(mid.hdr, |mid.mem|)
    requires var strs := StringsOf(before.hdr, before.mem);
             if added then off == |strs| && StringsOf(mid.hdr, mid.mem) == strs + (name + [0])
             else StringsOf(mid.hdr, mid.mem) == strs && At(strs, off, name + [0])
    ensures CStr(StringsOf(mid.hdr, mid.mem), off) == Some(name)
    ensures off <= INT32_MAX
  {
    hide CStr;
    CStrIs(StringsOf(mid.hdr, mid.mem), off, name);
  }

  lemma AddSpliced(mid: Image, gap: Image, st': seq<byte>, p: nat, nameOff: u32, len: nat)
    requires StructSpliced(mid.hdr, mid.mem, gap.hdr, gap.mem, p, 0, 12 + Align4(len)) && len <= MAX_LEN
    requires OrderedIn(gap.hdr, |gap.mem|) && OrderedIn(mid.hdr, |mid.mem|)
    requires p + 12 + Align4(len) <= gap.hdr.sizeStruct
    requires st' == Stored(Stored(Stored(StructOf(gap.hdr, gap.mem), p, Put32(PROP)), p + 8, Put32(nameOff)), p + 4,
                           Put32(len))
    ensures var t := TokenOf(st', p, nameOff, len);
            t.Ok() && st' == Splice(StructOf(mid.hdr, mid.mem), p, p, t.Enc())
  {
    hide Stored, Put32, Token.Enc, Token.Ok, Splice, StructOf, HeadOf, StringsOf;
    StructSize(gap.hdr, gap.mem);
    StructSize(mid.hdr, mid.mem);
    AddedToken(StructOf(mid.hdr, mid.mem), StructOf(gap.hdr, gap.mem), st', p, nameOff, len);
  }

  // Writing inside a value ----------------------------------------------------------------

  lemma InplaceToken(st: seq<byte>, p: nat, t: Token, idx: nat, data: seq<byte>)
    requires t.Prop? && t.Ok() && At(st, p, t.Enc()) && idx + |data| <= |t.value|
    ensures p + 12 + |t.value| <= |st| && p + |t.Enc()| <= |st|
    ensures var t' := t.(value := Stored(t.value, idx, data));
            && t'.Ok()
            && Stored(st, p + 12 + idx, data) == Splice(st, p, p + |t.Enc()|, t'.Enc())
  {
    hide At, Put32, Get32, Splice, Token.Enc, Stored;
    EncLength(t);
    AtBound(st, p, t.Enc());
    var v := Stored(t.value, idx, data);
    var st' := Stored(st, p + 12 + idx, data);
    PropParts(st, p, t);
    PropCells(st, p, t);
    EncPad(st, p, t);
    StoredElsewhere(st, p + 12 + idx, data, p, Put32(PROP));
    StoredElsewhere(st, p + 12 + idx, data, p + 4, Put32(|t.value|));
    StoredElsewhere(st, p + 12 + idx, data, p + 8, Put32(t.nameOff));
    StoredElsewhere(st, p + 12 + idx, data, p + 12 + |t.value|, t.vpad);
    StoredInside(st, p + 12, |t.value|, idx, data);
    AtIs(st', p + 12, v);
    EncParts(st', p, t.nameOff, v, t.vpad);
    StoredEnds(st, p + 12 + idx, data, p, p + |t.Enc()|);
    var t' := t.(value := v);
    EncLength(t');
    SplicedIs(st, st', p, p + |t.Enc()|, t'.Enc());
  }

  lemma AtIs<T>(s: seq<T>, off: nat, e: seq<T>)
    requires off + |e| <= |s| && s[off..off + |e|] == e
    ensures At(s, off, e)
  {
  }

  lemma EncPad(st: seq<byte>, p: nat, t: Token)
    requires t.Prop? && t.Ok() && At(st, p, t.Enc())
    ensures At(st, p + 12 + |t.value|, t.vpad)
  {
    hide At, Put32;
    var c0, c1, c2 := Put32(PROP), Put32(|t.value|), Put32(t.nameOff);
    AtConcat(st, p, c0, c1 + (c2 + (t.value + t.vpad)));
    AtConcat(st, p + 4, c1, c2 + (t.value + t.vpad));
    AtConcat(st, p + 8, c2, t.value + t.vpad);
    AtConcat(st, p + 12, t.value, t.vpad);
  }

  // memcpy into the value of a property that has been looked up
  method WriteValue(fdt: Blob, n: nat, name: seq<byte>, p: nat, idx: nat, data: seq<byte>, ghost k: nat, ghost t: Token)
    requires fdt.Valid() && PropertyAt(fdt.Img(), n, name, k, p, t)
    requires idx + |data| <= |t.value|
    modifies fdt`shape, fdt.buf
    ensures NodeEdited(old(fdt.Img()), fdt.Img(), n,
                       [PutProp(old(fdt.Img().NodeOf(n)), name, Stored(t.value, idx, data))])
    ensures KeepsOffsets(old(fdt.shape), fdt.shape, n)
    ensures PropertyAt(fdt.Img(), n, name, k, p, t.(value := Stored(t.value, idx, data)))
    ensures fdt.Ordered() && fdt.StringsBlock() == old(fdt.StringsBlock())
    ensures var i := IndexAt(old(fdt.shape), n);
            && IsPropOf(NodeAt(old(fdt.shape), i).body, k)
            && fdt.shape == WithBody(old(fdt.shape), i,
                                     ReplaceProp(NodeAt(old(fdt.shape), i).body, k,
                                                 Leaf(t.(value := Stored(t.value, idx, data)), Done)))
  {
    hide Describes, Off, Stream, CStr, FindProp, NodeAt, RsvCount, HeadOf, StructOf, StringsOf, NodeEdited, PutProp,
      KeepsOffsets, Stored, At, Token.Enc, Token.Ok, Splice, ReplaceProp, WithBody;
    ghost var before := fdt.Img();
    PropertyFacts(before, n, name, k, p, t);
    InplaceToken(fdt.StructBlock(), p, t, idx, data);
    StructSize(fdt.hdr, fdt.buf[..]);
    StoreStruct(fdt, p + 12 + idx, data);
    ghost var t' := t.(value := Stored(t.value, idx, data));
    ghost var i := IndexAt(fdt.shape, n);
    fdt.shape := WithBody(fdt.shape, i, ReplaceProp(NodeAt(fdt.shape, i).body, k, Leaf(t', Done)));
    RewrittenTree(before, fdt.Img(), n, name, k, p, t, t');
    RewrittenPlace(before, fdt.Img(), n, name, k, p, t, t');
  }

  // Edits in sequence ---------------------------------------------------------------------

  lemma {:induction false} UpdateTwice(kids: seq<Node>, path: seq<nat>, x: Node, repl: seq<Node>)
    requires ValidPath(kids, path)
    ensures ValidPath(Update(kids, path, [x]), path)
    ensures Lookup(Update(kids, path, [x]), path) == x
    ensures Update(Update(kids, path, [x]), path, repl) == Update(kids, path, repl)
    decreases |path|
  {
    var k := path[0];
    var u := Update(kids, path, [x]);
    if |path| == 1 {
      assert u == kids[..k] + [x] + kids[k + 1..];
      assert u[..k] == kids[..k] && u[k + 1..] == kids[k + 1..];
    } else {
      var c := kids[k];
      UpdateTwice(c.children, path[1..], x, repl);
      assert u == kids[k := Node(c.name, c.props, Update(c.children, path[1..], [x]))];
    }
  }

  lemma EditedTwice(a: Image, b: Image, c: Image, n: nat, x: Node, repl: seq<Node>)
    requires NodeEdited(a, b, n, [x]) && KeepsOffsets(a.shape, b.shape, n)
    ensures IsNodeOffset(b.shape, n) && b.NodeOf(n) == x
    ensures NodeEdited(b, c, n, repl) ==> NodeEdited(a, c, n, repl)
  {
    hide Describes, PathAt, Update, Lookup, ValidPath, NodeAt, Kids, Props, StructOf, HeadOf, RsvCount, Off;
    UpdateTwice(a.Tree(), a.PathOf(n), x, repl);
    NodeParts(b.shape, StructOf(b.hdr, b.mem), StringsOf(b.hdr, b.mem), IndexAt(b.shape, n));
  }

  lemma PutTwice(x: Node, name: seq<byte>, v: seq<byte>, w: seq<byte>)
    ensures PutProp(PutProp(x, name, v), name, w) == PutProp(x, name, w)
  {
    var m := FirstProp(x.props, name);
    var y := PutProp(x, name, v);
    if m < |x.props| {
      FirstPropIs(y.props, name, m);
      assert y.props[m := Property(name, w)] == x.props[m := Property(name, w)];
    } else {
      FirstPropIs(y.props, name, 0);
      assert y.props[0 := Property(name, w)] == [Property(name, w)] + x.props;
    }
  }

  lemma {:induction false} FirstPropIs(props: seq<Property>, name: seq<byte>, m: nat)
    requires m < |props| && props[m].name == name && forall j :: 0 <= j < m ==> props[j].name != name
    ensures FirstProp(props, name) == m
  {
  }

  // The public property editors ---------------------------------------------------------------

  lemma ProbeAccepts(im: Image)
    requires im.Valid()
    ensures RwProbe(im.hdr).Success?
  {
    hide Describes, RwProbe;
    LayoutExact(im.hdr);
  }

  lemma IntactSame(im: Image)
    requires OrderedIn(im.hdr, |im.mem|)
    ensures Intact(im, im)
  {
  }

  // fdt_setprop_placeholder: a property of len bytes whose value is what the buffer held.
  method SetPropPlaceholder(fdt: Blob, n: nat, name: seq<byte>, len: nat)
    returns (r: Result<nat>, ghost k: nat, ghost t: Token)
    requires RwProbe(fdt.hdr).Success? ==> fdt.Valid() && fdt.NodeArg(n)
    requires len <= MAX_LEN && |name| < INT32_MAX && NoNul(name)
    modifies fdt, fdt.buf
    ensures old(RwProbe(fdt.hdr)).Failure? ==> r == Failure(old(RwProbe(fdt.hdr)).error) && fdt.Img() == old(fdt.Img())
    ensures old(RwProbe(fdt.hdr)).Success? ==>
              && (old(!IsNodeOffset(fdt.shape, n)) <==> r == Failure(BadOffset))
              && (old(IsNodeOffset(fdt.shape, n)) ==>
                    (r.Failure? <==>
                       DataSize(old(fdt.hdr)) + old(PropGrowth(fdt.Img(), n, name, len)) > old(fdt.hdr.totalsize)))
              && (r.Failure? ==> r.error in {BadOffset, NoSpace} && Intact(old(fdt.Img()), fdt.Img()))
    ensures r.Success? ==>
              && old(fdt.Valid()) && old(IsNodeOffset(fdt.shape, n))
              && t.Prop? && PropertyAt(fdt.Img(), n, name, k, r.value, t) && |t.value| == len
              && NodeEdited(old(fdt.Img()), fdt.Img(), n, [PutProp(old(fdt.Img().NodeOf(n)), name, t.value)])
              && KeepsOffsets(old(fdt.shape), fdt.shape, n)
              && DataSize(fdt.hdr) == DataSize(old(fdt.hdr)) + old(PropGrowth(fdt.Img(), n, name, len))
              && fdt.Ordered() && fdt.StringsBlock() == old(PropStrings(fdt.Img(), n, name))
  {
    hide RwProbe, Describes, Off, Stream, PropertyAt, NodeEdited, PutProp, KeepsOffsets, Intact, OldValue, PropGrowth,
      StructOf, StringsOf, HeadOf, RsvCount, NodeCheck, NodeAt;
    k, t := 0, Nop;
    var probe := RwProbe(fdt.hdr);
    if probe.Failure? {
      return probe, k, t;
    }
    IntactSame(fdt.Img());
    r, k, t := ResizeProperty(fdt, n, name, len);
    if r == Failure(NotFound) {
      r, t := AddProperty(fdt, n, name, len);
      k := 0;
    }
  }

  // fdt_setprop: what a successful or failed call leaves.
  method SetProp(fdt: Blob, n: nat, name: seq<byte>, val: seq<byte>) returns (r: Result<()>)
    requires RwProbe(fdt.hdr).Success? ==> fdt.Valid() && fdt.NodeArg(n)
    requires |val| <= MAX_LEN && |name| < INT32_MAX && NoNul(name)
    modifies fdt, fdt.buf
    ensures old(RwProbe(fdt.hdr)).Failure? ==> r == Failure(old(RwProbe(fdt.hdr)).error) && fdt.Img() == old(fdt.Img())
    ensures old(RwProbe(fdt.hdr)).Success? ==>
              && (old(!IsNodeOffset(fdt.shape, n)) <==> r == Failure(BadOffset))
              && (old(IsNodeOffset(fdt.shape, n)) ==>
                    (r.Failure? <==>
                       DataSize(old(fdt.hdr)) + old(PropGrowth(fdt.Img(), n, name, |val|)) > old(fdt.hdr.totalsize)))
              && (r.Failure? ==> r.error in {BadOffset, NoSpace} && Intact(old(fdt.Img()), fdt.Img()))
    ensures r.Success? ==>
              && old(fdt.Valid()) && old(IsNodeOffset(fdt.shape, n))
              && NodeEdited(old(fdt.Img()), fdt.Img(), n, [PutProp(old(fdt.Img().NodeOf(n)), name, val)])
              && KeepsOffsets(old(fdt.shape), fdt.shape, n)
              && DataSize(fdt.hdr) == DataSize(old(fdt.hdr)) + old(PropGrowth(fdt.Img(), n, name, |val|))
              && fdt.Ordered() && fdt.StringsBlock() == old(PropStrings(fdt.Img(), n, name))
  {
    hide RwProbe, Describes, Off, Stream, PropertyAt, NodeEdited, PutProp, KeepsOffsets, Intact, OldValue, PropGrowth,
      PropStrings, StructOf, StringsOf, HeadOf, RsvCount, NodeCheck, NodeAt, Stored;
    ghost var a := fdt.Img();
    ghost var k, t;
    var p;
    p, k, t := SetPropPlaceholder(fdt, n, name, |val|);
    if p.Failure? {
      return Failure(p.error);
    }
    ghost var b := fdt.Img();
    ghost var x := PutProp(a.NodeOf(n), name, t.value);
    StoredAll(t.value, val);
    if |val| != 0 {
      EditedValid(a, b, n, [x]);
      WriteValue(fdt, n, name, p.value, 0, val, k, t);
      EditedTwice(a, b, fdt.Img(), n, x, [PutProp(x, name, val)]);
      PutTwice(a.NodeOf(n), name, t.value, val);
      KeepsTwice(a.shape, b.shape, fdt.shape, n);
    }
    return Success(());
  }

  lemma StoredAll(v: seq<byte>, w: seq<byte>)
    requires |v| == |w|
    ensures Stored(v, 0, w) == w
    ensures |w| == 0 ==> v == w
  {
  }

  lemma EditedValid(a: Image, b: Image, n: nat, repl: seq<Node>)
    requires NodeEdited(a, b, n, repl)
    ensures b.Valid() && a.Valid() && IsNodeOffset(a.shape, n)
  {
  }

  lemma KeepsTwice(s1: Items, s2: Items, s3: Items, n: nat)
    requires KeepsOffsets(s1, s2, n) && KeepsOffsets(s2, s3, n)
    ensures KeepsOffsets(s1, s3, n)
  {
    hide PathAt, Off, Stream, Toks;
  }

  // fdt_appendprop: the value of the property is extended, or a new property is added.
  method AppendProp(fdt: Blob, n: nat, name: seq<byte>, val: seq<byte>) returns (r: Result<()>)
    requires RwProbe(fdt.hdr).Success? ==> fdt.Valid() && fdt.NodeArg(n)
    requires |val| + fdt.hdr.totalsize <= MAX_LEN && |name| < INT32_MAX && NoNul(name)
    modifies fdt, fdt.buf
    ensures old(RwProbe(fdt.hdr)).Failure? ==> r == Failure(old(RwProbe(fdt.hdr)).error) && fdt.Img() == old(fdt.Img())
    ensures old(RwProbe(fdt.hdr)).Success? ==>
              && (old(!IsNodeOffset(fdt.shape, n)) <==> r == Failure(BadOffset))
              && (old(IsNodeOffset(fdt.shape, n)) ==>
                    (r.Failure? <==> DataSize(old(fdt.hdr))
                                     + old(PropGrowth(fdt.Img(), n, name, |Appended(fdt.Img(), n, name, val)|))
                                     > old(fdt.hdr.totalsize)))
              && (r.Failure? ==> r.error in {BadOffset, NoSpace} && Intact(old(fdt.Img()), fdt.Img()))
    ensures r.Success? ==>
              && old(fdt.Valid()) && old(IsNodeOffset(fdt.shape, n))
              && NodeEdited(old(fdt.Img()), fdt.Img(), n,
                            [PutProp(old(fdt.Img().NodeOf(n)), name, old(Appended(fdt.Img(), n, name, val)))])
              && KeepsOffsets(old(fdt.shape), fdt.shape, n)
              && DataSize(fdt.hdr)
                 == DataSize(old(fdt.hdr)) + old(PropGrowth(fdt.Img(), n, name, |Appended(fdt.Img(), n, name, val)|))
  {
    hide RwProbe, Describes, Off, Stream, PropertyAt, NodeEdited, PutProp, KeepsOffsets, Intact, OldValue, PropGrowth,
      StructOf, StringsOf, HeadOf, RsvCount, NodeCheck, NodeAt, Stored;
    var probe := RwProbe(fdt.hdr);
    if probe.Failure? {
      return Failure(probe.error);
    }
    ghost var a := fdt.Img();
    IntactSame(a);
    ghost var k, t;
    var p, oldlen;
    p, oldlen, k, t := FindProperty(fdt, n, name);
    if p.Success? {
      p, k, t := ResizeProperty(fdt, n, name, oldlen + |val|);
      if p.Failure? {
        return Failure(p.error);
      }
    } else {
      oldlen := 0;
      p, t := AddProperty(fdt, n, name, |val|);
      k := 0;
      if p.Failure? {
        return Failure(p.error);
      }
    }
    ghost var b := fdt.Img();
    ghost var x := PutProp(a.NodeOf(n), name, t.value);
    EditedValid(a, b, n, [x]);
    WriteValue(fdt, n, name, p.value, oldlen, val, k, t);
    ghost var w := Stored(t.value, oldlen, val);
    StoredTail(t.value, oldlen, val);
    EditedTwice(a, b, fdt.Img(), n, x, [PutProp(x, name, w)]);
    PutTwice(a.NodeOf(n), name, t.value, w);
    KeepsTwice(a.shape, b.shape, fdt.shape, n);
    return Success(());
  }

  lemma StoredTail(v: seq<byte>, n: nat, w: seq<byte>)
    requires |v| == n + |w|
    ensures Stored(v, n, w) == v[..n] + w
    ensures v[..0] + w == w
  {
  }

  // The value after an append.
  ghost function Appended(im: Image, n: nat, name: seq<byte>, val: seq<byte>): seq<byte>
    requires OrderedIn(im.hdr, |im.mem|) && IsNodeOffset(im.shape, n)
  {
    match OldValue(im, n, name)
    case Some(v) => v + val
    case None => val
  }
}
