// The token stream of the structure block (Devicetree Specification v0.4, section 5.4).
module Tokens {
  import opened Bytes

  const BEGIN_NODE: u32 := 1
  const END_NODE: u32 := 2
  const PROP: u32 := 3
  const NOP: u32 := 4
  const END: u32 := 9

  // One token with everything its encoding holds, padding bytes included.
  datatype Token =
    | Begin(name: seq<byte>, npad: seq<byte>)
    | EndNode
    | Prop(nameOff: u32, value: seq<byte>, vpad: seq<byte>)
    | Nop
    | End
  {
    ghost predicate Ok() {
      match this
      case Begin(name, npad) => NoNul(name) && |npad| == PadLen(|name| + 1)
      case Prop(_, value, vpad) => |value| <= INT32_MAX && |vpad| == PadLen(|value|)
      case _ => true
    }

    function Tag(): u32 {
      match this
      case Begin(_, _) => BEGIN_NODE
      case EndNode => END_NODE
      case Prop(_, _, _) => PROP
      case Nop => NOP
      case End => END
    }

    function Enc(): (s: seq<byte>)
      ensures |s| >= 4
    {
      match this
      case Begin(name, npad) => Put32(BEGIN_NODE) + ((name + [0]) + npad)
      case Prop(nameOff, value, vpad) =>
        Put32(PROP) + (Put32(|value| % 0x1_0000_0000) + (Put32(nameOff) + (value + vpad)))
      case _ => Put32(Tag())
    }
  }

  lemma EncAligned(t: Token)
    requires t.Ok()
    ensures |t.Enc()| % 4 == 0
  {
    hide Put32;
    if t.Begin? {
      assert |t.Enc()| == 4 + Align4(|t.name| + 1);
    } else if t.Prop? {
      assert |t.Enc()| == 12 + Align4(|t.value|);
    }
  }

  ghost predicate AllOk(ts: seq<Token>) {
    forall i :: 0 <= i < |ts| ==> ts[i].Ok()
  }

  function EncAll(ts: seq<Token>): seq<byte> {
    if ts == [] then [] else ts[0].Enc() + EncAll(ts[1..])
  }

  lemma {:induction false} EncAllConcat(a: seq<Token>, b: seq<Token>)
    ensures EncAll(a + b) == EncAll(a) + EncAll(b)
  {
    if a == [] {
      assert a + b == b;
    } else {
      assert (a + b)[1..] == a[1..] + b;
      EncAllConcat(a[1..], b);
    }
  }

  lemma AlignedSum(a: nat, b: nat)
    requires a % 4 == 0 && b % 4 == 0
    ensures (a + b) % 4 == 0
  {
  }

  lemma {:induction false} EncAllAligned(ts: seq<Token>)
    requires AllOk(ts)
    ensures |EncAll(ts)| % 4 == 0
  {
    if ts != [] {
      EncAligned(ts[0]);
      assert AllOk(ts[1..]);
      EncAllAligned(ts[1..]);
      hide Token.Enc, Token.Ok;
      AlignedSum(|ts[0].Enc()|, |EncAll(ts[1..])|);
    }
  }

  // Byte offset of token i.
  function Off(ts: seq<Token>, i: nat): nat
    requires i <= |ts|
  {
    |EncAll(ts[..i])|
  }

  lemma EncAllSplit(ts: seq<Token>, i: nat)
    requires i <= |ts|
    ensures EncAll(ts) == EncAll(ts[..i]) + EncAll(ts[i..])
    ensures Off(ts, i) <= |EncAll(ts)|
    ensures EncAll(ts)[..Off(ts, i)] == EncAll(ts[..i])
    ensures EncAll(ts)[Off(ts, i)..] == EncAll(ts[i..])
  {
    assert ts == ts[..i] + ts[i..];
    EncAllConcat(ts[..i], ts[i..]);
  }

  lemma EncAllAround(ts: seq<Token>, i: nat)
    requires i < |ts|
    ensures EncAll(ts) == EncAll(ts[..i]) + (ts[i].Enc() + EncAll(ts[i + 1..]))
  {
    EncAllSplit(ts, i);
    assert ts[i..][1..] == ts[i + 1..];
  }

  lemma OffStep(ts: seq<Token>, i: nat)
    requires i < |ts|
    ensures Off(ts, i + 1) == Off(ts, i) + |ts[i].Enc()|
    ensures EncAll(ts[i..i + 1]) == ts[i].Enc()
  {
    assert ts[..i + 1] == ts[..i] + [ts[i]];
    EncAllConcat(ts[..i], [ts[i]]);
    assert EncAll([ts[i]]) == ts[i].Enc() + EncAll([]);
    assert ts[i..i + 1] == [ts[i]];
  }

  lemma {:induction false} OffMonotone(ts: seq<Token>, i: nat, j: nat)
    requires i <= j <= |ts|
    ensures Off(ts, i) + 4 * (j - i) <= Off(ts, j)
    decreases j
  {
    hide EncAll, Token.Enc, Off;
    if i < j {
      OffMonotone(ts, i, j - 1);
      OffStep(ts, j - 1);
    }
  }

  lemma OffInjective(ts: seq<Token>, i: nat, j: nat)
    requires i <= |ts| && j <= |ts| && Off(ts, i) == Off(ts, j)
    ensures i == j
  {
    if i < j { OffMonotone(ts, i, j); }
    if j < i { OffMonotone(ts, j, i); }
  }

  lemma OffAligned(ts: seq<Token>, i: nat)
    requires AllOk(ts) && i <= |ts|
    ensures Off(ts, i) % 4 == 0
  {
    EncAllAligned(ts[..i]);
  }

  // Replacing the tokens [i..j) by mid replaces exactly their bytes.
  lemma EncAllReplace(ts: seq<Token>, i: nat, j: nat, mid: seq<Token>)
    requires i <= j <= |ts|
    ensures Off(ts, i) <= Off(ts, j) <= |EncAll(ts)|
    ensures EncAll(Splice(ts, i, j, mid)) == Splice(EncAll(ts), Off(ts, i), Off(ts, j), EncAll(mid))
  {
    OffMonotone(ts, i, j);
    EncAllSplit(ts, i);
    EncAllSplit(ts, j);
    EncAllConcat(ts[..i] + mid, ts[j..]);
    EncAllConcat(ts[..i], mid);
  }

  // What fdt_next_tag computes --------------------------------------------------

  datatype TagResult = TagResult(tag: u32, next: Result<nat>)

  // s is the readable part of the structure block; the length field of a property is
  // added to a C int, so it counts modulo 2^32.
  function NextTag(s: seq<byte>, start: int): TagResult {
    if !(0 <= start && start + 4 <= |s|) then TagResult(END, Failure(Truncated))
    else
      var tag := Get32(s, start);
      if tag == BEGIN_NODE then
        var n := NulAt(s, start + 4);
        if n == |s| then TagResult(END, Failure(BadStructure))
        else TagResult(tag, Success(Align4(n + 1)))
      else if tag == PROP then
        if start + 8 > |s| then TagResult(END, Failure(BadStructure))
        else
          var end := start + (12 + Get32(s, start + 4)) % 0x1_0000_0000;
          if end > |s| then TagResult(END, Failure(BadStructure))
          else TagResult(tag, Success(Align4(end)))
      else if tag == END || tag == END_NODE || tag == NOP then
        TagResult(tag, Success(Align4(start + 4)))
      else TagResult(END, Failure(BadStructure))
  }

  // A bad tag, a name without an end, and a property that is not inside are BADSTRUCTURE, wherever a tag can be read.
  lemma NextTagFails(s: seq<byte>, start: int)
    ensures NextTag(s, start).next == Failure(Truncated) <==> !(0 <= start && start + 4 <= |s|)
    ensures NextTag(s, start).next == Failure(BadStructure) <==>
              && 0 <= start && start + 4 <= |s|
              && var tag := Get32(s, start);
                 || tag !in {BEGIN_NODE, END_NODE, PROP, NOP, END}
                 || (tag == BEGIN_NODE && forall k :: start + 4 <= k < |s| ==> s[k] != 0)
                 || (tag == PROP && (start + 8 > |s| || start + (12 + Get32(s, start + 4)) % 0x1_0000_0000 > |s|))
    ensures NextTag(s, start).next.Failure? ==> NextTag(s, start).next.error in {Truncated, BadStructure}
  {
    hide Get32;
  }

  // The one length value on which a property token has no extent at all: 12 + len == 2^32.
  const STUCK_LEN: u32 := 0xffff_fff4

  ghost predicate StuckAt(s: seq<byte>, start: int) {
    && 0 <= start && start + 8 <= |s|
    && Get32(s, start) == PROP
    && Get32(s, start + 4) == STUCK_LEN
  }

  // A successful step from an aligned offset stays aligned and inside the (rounded) block,
  // and it advances exactly unless the token is a property of the stuck length.
  lemma NextTagProgress(s: seq<byte>, start: int)
    requires start % 4 == 0
    ensures var r := NextTag(s, start);
            r.next.Success? ==>
              && r.next.value % 4 == 0
              && r.next.value <= Align4(|s|)
              && (start < r.next.value <==> !StuckAt(s, start))
              && (StuckAt(s, start) ==> r.next.value == start)
    ensures NextTag(s, start).next.Failure? ==> NextTag(s, start).tag == END
  {
    hide NulAt, Get32, Align4;
    if NextTag(s, start).next.Success? {
      if Get32(s, start) == PROP {
        PropProgress(start, Get32(s, start + 4), |s|);
      } else if Get32(s, start) == BEGIN_NODE {
        AlignUp(NulAt(s, start + 4) + 1, |s|);
      } else {
        AlignUp(start + 4, |s|);
      }
    }
  }

  lemma AlignUp(n: nat, size: nat)
    requires n <= size
    ensures Align4(n) % 4 == 0 && n <= Align4(n) <= Align4(size)
  {
  }

  lemma PropProgress(start: nat, len: u32, size: nat)
    requires start % 4 == 0
    ensures var end := start + (12 + len) % 0x1_0000_0000;
            && (len == STUCK_LEN ==> end == start && Align4(end) == start)
            && (len != STUCK_LEN ==> end > start)
            && Align4(end) % 4 == 0 && end <= Align4(end)
            && (end <= size ==> Align4(end) <= Align4(size))
  {
  }

  lemma StuckProp(s: seq<byte>, off: nat)
    requires StuckAt(s, off)
    ensures NextTag(s, off).tag == PROP
  {
    hide Get32;
  }

  // What a tag that fdt_next_tag returns says about the bytes that follow it.
  lemma TagBounds(s: seq<byte>, off: nat)
    requires off % 4 == 0
    ensures var t := NextTag(s, off);
            t.next.Success? ==>
              && t.tag in {BEGIN_NODE, END_NODE, PROP, NOP, END}
              && off + 4 <= |s| && t.next.value <= |s| + 3 && t.next.value % 4 == 0
              && (off < t.next.value <==> !StuckAt(s, off))
              && (StuckAt(s, off) ==> t.tag == PROP)
              && (t.tag == BEGIN_NODE ==> off + 4 < |s| && off + 8 <= t.next.value)
  {
    hide NulAt, Get32, StuckAt;
    NextTagProgress(s, off);
    if NextTag(s, off).next.Success? {
      TagStep(s, off);
      if StuckAt(s, off) { StuckProp(s, off); }
    }
  }

  lemma TagStep(s: seq<byte>, off: nat)
    requires off % 4 == 0 && NextTag(s, off).next.Success?
    ensures NextTag(s, off).next.value <= |s| + 3
    ensures NextTag(s, off).tag == BEGIN_NODE ==> off + 4 < |s| && off + 8 <= NextTag(s, off).next.value
  {
    hide NulAt, Get32;
  }

  // Progress does fail: twelve bytes on which the walk would stand still for ever.
  lemma ProgressFails()
    ensures NextTag(Put32(PROP) + Put32(STUCK_LEN) + Put32(0), 0) == TagResult(PROP, Success(0))
  {
    hide Put32, Get32;
    var s := Put32(PROP) + Put32(STUCK_LEN) + Put32(0);
    FirstCells(PROP, STUCK_LEN, s[8..]);
    GetPut32(PROP, s, 0);
    GetPut32(STUCK_LEN, s, 4);
  }

  lemma FirstCells(a: u32, b: u32, rest: seq<byte>)
    ensures var s := Put32(a) + Put32(b) + rest; |s| >= 8 && At(s, 0, Put32(a)) && At(s, 4, Put32(b))
  {
    hide Put32;
    assert |Put32(a)| == 4 && |Put32(b)| == 4 by { PutLength(a); PutLength(b); }
  }

  lemma AlignShift(off: nat, n: nat)
    requires off % 4 == 0
    ensures Align4(off + n) == off + Align4(n)
  {
  }

  // On an encoded token fdt_next_tag returns its tag and the offset right behind it.
  lemma NextTagToken(s: seq<byte>, off: nat, t: Token)
    requires t.Ok() && off % 4 == 0 && At(s, off, t.Enc())
    ensures NextTag(s, off) == TagResult(t.Tag(), Success(off + |t.Enc()|))
  {
    hide At, Put32, Get32, NextTag, Token.Ok, Token.Enc;
    if t.Begin? {
      NextTagBegin(s, off, t);
    } else if t.Prop? {
      NextTagProp(s, off, t);
    } else {
      NextTagPlain(s, off, t);
    }
  }

  lemma NextTagPlain(s: seq<byte>, off: nat, t: Token)
    requires !t.Begin? && !t.Prop? && off % 4 == 0 && At(s, off, t.Enc())
    ensures NextTag(s, off) == TagResult(t.Tag(), Success(off + |t.Enc()|))
  {
    hide Put32, Get32, NulAt;
    PutLength(t.Tag());
    GetPut32(t.Tag(), s, off);
  }

  lemma NextTagBegin(s: seq<byte>, off: nat, t: Token)
    requires t.Ok() && t.Begin? && off % 4 == 0 && At(s, off, t.Enc())
    ensures NextTag(s, off) == TagResult(t.Tag(), Success(off + |t.Enc()|))
  {
    hide Token.Enc, At, Get32, Put32, NulAt;
    BeginCells(s, off, t);
    AlignShift(off + 4, |t.name| + 1);
  }

  lemma NextTagProp(s: seq<byte>, off: nat, t: Token)
    requires t.Ok() && t.Prop? && off % 4 == 0 && At(s, off, t.Enc())
    ensures NextTag(s, off) == TagResult(t.Tag(), Success(off + |t.Enc()|))
  {
    hide Token.Enc, At, Get32, Put32, NulAt;
    PropCells(s, off, t);
    AlignShift(off, 12 + |t.value|);
  }

  // The cells of an encoded node opening.
  lemma BeginCells(s: seq<byte>, off: nat, t: Token)
    requires t.Ok() && t.Begin? && At(s, off, t.Enc())
    ensures off + |t.Enc()| <= |s|
    ensures |t.Enc()| == 4 + Align4(|t.name| + 1)
    ensures Get32(s, off) == BEGIN_NODE
    ensures NulAt(s, off + 4) == off + 4 + |t.name| < |s|
    ensures s[off + 4..off + 4 + |t.name|] == t.name
  {
    var name := t.name;
    AtConcat(s, off, Put32(BEGIN_NODE), (name + [0]) + t.npad);
    AtConcat(s, off + 4, name + [0], t.npad);
    AtConcat(s, off + 4, name, [0]);
    GetPut32(BEGIN_NODE, s, off);
    var r := off + 4 + |name|;
    assert s[r..r + 1] == [0];
    assert forall i :: off + 4 <= i < r ==> s[i] == name[i - (off + 4)];
    NulAtUnique(s, off + 4, r);
  }

  // The cells of an encoded property.
  lemma PropCells(s: seq<byte>, off: nat, t: Token)
    requires t.Ok() && t.Prop? && At(s, off, t.Enc())
    ensures off + |t.Enc()| <= |s|
    ensures |t.Enc()| == Align4(12 + |t.value|) == 12 + Align4(|t.value|)
    ensures Get32(s, off) == PROP
    ensures Get32(s, off + 4) == |t.value|
    ensures Get32(s, off + 8) == t.nameOff
    ensures s[off + 12..off + 12 + |t.value|] == t.value
  {
    hide Put32, Get32, Token.Enc;
    PropLength(t);
    PropParts(s, off, t);
    GetPut32(PROP, s, off);
    GetPut32(|t.value|, s, off + 4);
    GetPut32(t.nameOff, s, off + 8);
  }

  lemma PropLength(t: Token)
    requires t.Ok() && t.Prop?
    ensures |t.Enc()| == 12 + Align4(|t.value|) == Align4(12 + |t.value|)
  {
    hide Put32;
  }

  lemma PropParts(s: seq<byte>, off: nat, t: Token)
    requires t.Ok() && t.Prop? && At(s, off, t.Enc())
    ensures At(s, off, Put32(PROP))
    ensures At(s, off + 4, Put32(|t.value|))
    ensures At(s, off + 8, Put32(t.nameOff))
    ensures At(s, off + 12, t.value)
  {
    hide At, Put32;
    var c0, c1, c2 := Put32(PROP), Put32(|t.value|), Put32(t.nameOff);
    AtConcat(s, off, c0, c1 + (c2 + (t.value + t.vpad)));
    AtConcat(s, off + 4, c1, c2 + (t.value + t.vpad));
    AtConcat(s, off + 8, c2, t.value + t.vpad);
    AtConcat(s, off + 12, t.value, t.vpad);
  }

  // Token i of an encoded stream is found at its offset.
  lemma TokenAt(s: seq<byte>, ts: seq<Token>, i: nat)
    requires i < |ts| && At(s, 0, EncAll(ts))
    ensures At(s, Off(ts, i), ts[i].Enc())
  {
    hide EncAll, At, Token.Enc;
    EncAllAround(ts, i);
    AtMiddle(s, 0, EncAll(ts[..i]), ts[i].Enc(), EncAll(ts[i + 1..]));
  }

  lemma NextTagAt(s: seq<byte>, ts: seq<Token>, i: nat)
    requires i < |ts| && AllOk(ts) && At(s, 0, EncAll(ts))
    ensures At(s, Off(ts, i), ts[i].Enc())
    ensures Off(ts, i) % 4 == 0
    ensures NextTag(s, Off(ts, i)) == TagResult(ts[i].Tag(), Success(Off(ts, i + 1)))
  {
    hide At, NextTag, Token.Ok, Token.Enc, EncAll;
    TokenAt(s, ts, i);
    OffAligned(ts, i);
    OffStep(ts, i);
    NextTagToken(s, Off(ts, i), ts[i]);
  }
}
