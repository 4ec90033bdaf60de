// The memory reservation block (Devicetree Specification v0.4, section 5.3).
module Reservations {
  import opened Bytes
  import opened Blobs

  type u64 = w: int | 0 <= w < 0x1_0000_0000_0000_0000

  function Put64(w: u64): (s: seq<byte>)
    ensures |s| == 8
  {
    Put32(w / 0x1_0000_0000) + Put32(w % 0x1_0000_0000)
  }

  function Get64(s: seq<byte>, i: nat): u64
    requires i + 8 <= |s|
  {
    Get32(s, i) * 0x1_0000_0000 + Get32(s, i + 4)
  }

  // The byte order of an address or a size.
  lemma Put64Bytes(w: u64, k: nat)
    requires k < 8
    ensures Put64(w)[k] == w / Power256(7 - k) % 0x100
  {
    hide Put32, Power256;
    Powers();
    if k < 4 {
      Put32Bytes(w / 0x1_0000_0000, k);
      PowerSum(3 - k, 4);
      Quotients(w, 0x1_0000_0000, Power256(3 - k));
    } else {
      Put32Bytes(w % 0x1_0000_0000, k - 4);
      LowDigit(w, 7 - k);
    }
  }

  lemma {:induction false} PowerSum(a: nat, b: nat)
    ensures Power256(a + b) == Power256(b) * Power256(a)
  {
    if a > 0 {
      PowerSum(a - 1, b);
    }
  }

  lemma LowDigit(w: nat, j: nat)
    requires j < 4
    ensures w % 0x1_0000_0000 / Power256(j) % 0x100 == w / Power256(j) % 0x100
  {
    hide Power256;
    Powers();
    var hi, lo := w / 0x1_0000_0000, w % 0x1_0000_0000;
    if j == 0 {
      Below(hi, lo, 0x100_0000, 1);
    } else if j == 1 {
      Below(hi, lo, 0x1_0000, 0x100);
    } else if j == 2 {
      Below(hi, lo, 0x100, 0x1_0000);
    } else {
      Below(hi, lo, 1, 0x100_0000);
    }
  }

  lemma Below(hi: nat, lo: nat, m: nat, d: nat)
    requires d > 0 && 0x100 * m * d == 0x1_0000_0000
    ensures (0x1_0000_0000 * hi + lo) / d % 0x100 == lo / d % 0x100
  {
    Reorder(0x100, m, d, hi);
    BelowIs(0x1_0000_0000 * hi, lo, m * hi, d);
  }

  lemma BelowIs(high: nat, lo: nat, k: nat, d: nat)
    requires d > 0 && high == 0x100 * k * d
    ensures (high + lo) / d % 0x100 == lo / d % 0x100
  {
    SumQuotient(0x100 * k, lo, d);
    SameDigit(k, lo / d);
  }

  lemma SameDigit(k: nat, y: nat)
    ensures (0x100 * k + y) % 0x100 == y % 0x100
  {
  }

  lemma Reorder(a: nat, m: nat, d: nat, hi: nat)
    ensures a * m * d * hi == (a * (m * hi)) * d
  {
    assert a * m * d == (a * m) * d && (a * m) * d * hi == (a * m) * (d * hi) && d * hi == hi * d;
    assert (a * m) * (hi * d) == ((a * m) * hi) * d && (a * m) * hi == a * (m * hi);
  }

  lemma SumQuotient(a: nat, b: nat, d: nat)
    requires d > 0
    ensures (a * d + b) / d == a + b / d
  {
    QuotientIs(a * d + b, d, a + b / d, b % d);
  }

  lemma Get64Bytes(s: seq<byte>, i: nat)
    requires i + 8 <= |s|
    ensures Get64(s, i) == BigEndian(s[i..i + 8])
  {
    hide Get32, Power256, BigEndian;
    Powers();
    Get32Bytes(s, i);
    Get32Bytes(s, i + 4);
    DigitsConcat(s[i..i + 4], s[i + 4..i + 8]);
    assert s[i..i + 8] == s[i..i + 4] + s[i + 4..i + 8];
  }

  lemma {:induction false} DigitsConcat(a: seq<byte>, b: seq<byte>)
    ensures BigEndian(a + b) == BigEndian(a) * Power256(|b|) + BigEndian(b)
    decreases |a|
  {
    hide Power256;
    if a == [] {
      assert a + b == b;
    } else {
      assert (a + b)[1..] == a[1..] + b;
      DigitsConcat(a[1..], b);
      PowerSum(|a| - 1, |b|);
      Shift(a[0], Power256(|b|), Power256(|a| - 1), BigEndian(a[1..]));
    }
  }

  lemma Shift(x: nat, p: nat, r: nat, y: nat)
    ensures x * (p * r) + y * p == (x * r + y) * p
  {
    assert x * (p * r) == (x * r) * p;
  }

  lemma GetPut64(w: u64, s: seq<byte>, i: nat)
    requires At(s, i, Put64(w))
    ensures i + 8 <= |s| && Get64(s, i) == w
  {
    hide Put32, Get32, At;
    AtConcat(s, i, Put32(w / 0x1_0000_0000), Put32(w % 0x1_0000_0000));
    AtInside(s, i, Put64(w));
    GetPut32(w / 0x1_0000_0000, s, i);
    GetPut32(w % 0x1_0000_0000, s, i + 4);
  }

  lemma AtInside<T>(s: seq<T>, off: nat, e: seq<T>)
    requires At(s, off, e)
    ensures off + |e| <= |s|
  {
  }

  lemma ZeroCell(s: seq<byte>, i: nat)
    requires i + 8 <= |s|
    ensures Get64(s, i) == 0 <==> s[i..i + 8] == [0, 0, 0, 0, 0, 0, 0, 0]
  {
    ZeroWord(s, i);
    ZeroWord(s, i + 4);
    hide Get32;
    assert s[i..i + 8] == s[i..i + 4] + s[i + 4..i + 8];
    var z: seq<byte> := [0, 0, 0, 0];
    assert z + z == [0, 0, 0, 0, 0, 0, 0, 0];
    var w: seq<byte> := [0, 0, 0, 0, 0, 0, 0, 0];
    assert w[..4] == z && w[4..] == z && s[i..i + 8][..4] == s[i..i + 4] && s[i..i + 8][4..] == s[i + 4..i + 8];
  }

  lemma ZeroWord(s: seq<byte>, i: nat)
    requires i + 4 <= |s|
    ensures Get32(s, i) == 0 <==> s[i..i + 4] == [0, 0, 0, 0]
  {
    assert s[i..i + 4] == [s[i], s[i + 1], s[i + 2], s[i + 3]];
  }

  datatype Reservation = Reservation(address: u64, size: u64) {
    function Enc(): (s: seq<byte>)
      ensures |s| == 16
    {
      Put64(address) + Put64(size)
    }
  }

  // The eight digits of w, the most significant one first.
  predicate Digits64(s: seq<byte>, w: u64) {
    |s| == 8 && forall k :: 0 <= k < 8 ==> s[k] == w / Power256(7 - k) % 0x100
  }

  // The 16 bytes of an entry at p.
  predicate EntryHere(mem: seq<byte>, p: nat, address: u64, size: u64) {
    p + 16 <= |mem| && Digits64(mem[p..p + 8], address) && Digits64(mem[p + 8..p + 16], size)
  }

  lemma EntryDigits(mem: seq<byte>, p: nat, a: u64, s: u64)
    requires p + 16 <= |mem| && mem[p..p + 8] == Put64(a) && mem[p + 8..p + 16] == Put64(s)
    ensures EntryHere(mem, p, a, s)
  {
    hide Put64, Power256;
    forall k | 0 <= k < 8 ensures Put64(a)[k] == a / Power256(7 - k) % 0x100 {
      Put64Bytes(a, k);
    }
    forall k | 0 <= k < 8 ensures Put64(s)[k] == s / Power256(7 - k) % 0x100 {
      Put64Bytes(s, k);
    }
  }

  // One page at 2 GiB.
  lemma EntryOfPage()
    ensures Reservation(0x8000_0000, 0x1000).Enc()
            == [0, 0, 0, 0, 0x80, 0, 0, 0, 0, 0, 0, 0, 0, 0, 0x10, 0]
  {
    hide Put32;
    AddressCell();
    SizeCell();
  }

  lemma AddressCell()
    ensures Put32(0x8000_0000) == [0x80, 0, 0, 0]
  {
  }

  lemma SizeCell()
    ensures Put32(0) == [0, 0, 0, 0] && Put32(0x1000) == [0, 0, 0x10, 0]
  {
  }

  function EncRsv(es: seq<Reservation>): (s: seq<byte>)
    ensures |s| == 16 * |es|
  {
    if es == [] then [] else es[0].Enc() + EncRsv(es[1..])
  }

  lemma {:induction false} EncRsvSnoc(es: seq<Reservation>, e: Reservation)
    ensures EncRsv(es + [e]) == EncRsv(es) + e.Enc()
  {
    hide Reservation.Enc;
    if es == [] {
      assert [] + [e] == [e] && [e][1..] == [];
    } else {
      assert (es + [e])[1..] == es[1..] + [e];
      EncRsvSnoc(es[1..], e);
    }
  }

  // The list at off: the entries in front of the first one of size 0.
  function RsvList(mem: seq<byte>, off: nat): Option<seq<Reservation>>
    decreases |mem| - off
  {
    if off + 16 > |mem| then None
    else if Get64(mem, off + 8) == 0 then Some([])
    else
      match RsvList(mem, off + 16)
      case None => None
      case Some(es) => Some([Reservation(Get64(mem, off), Get64(mem, off + 8))] + es)
  }

  lemma {:induction false} RsvListCount(mem: seq<byte>, off: nat)
    ensures RsvList(mem, off).Some? <==> RsvCount(mem, off).Some?
    ensures RsvList(mem, off).Some? ==> |RsvList(mem, off).value| == RsvCount(mem, off).value
    decreases |mem| - off
  {
    hide Get64;
    if off + 16 <= |mem| {
      ZeroCell(mem, off + 8);
      RsvListCount(mem, off + 16);
    }
  }

  function UpToZero(es: seq<Reservation>): (r: seq<Reservation>)
    ensures r == es <==> forall k :: 0 <= k < |es| ==> es[k].size != 0
  {
    if es == [] || es[0].size == 0 then []
    else
      var r := [es[0]] + UpToZero(es[1..]);
      assert es == [es[0]] + es[1..];
      assert r[1..] == UpToZero(es[1..]);
      assert forall k :: 0 < k < |es| ==> es[k] == es[1..][k - 1];
      assert forall k :: 0 <= k < |es| - 1 ==> es[1..][k] == es[k + 1];
      r
  }

  lemma EntryCells(mem: seq<byte>, off: nat, e: Reservation)
    requires At(mem, off, e.Enc())
    ensures off + 16 <= |mem| && Get64(mem, off) == e.address && Get64(mem, off + 8) == e.size
  {
    hide Put64, Get64, At;
    AtConcat(mem, off, Put64(e.address), Put64(e.size));
    GetPut64(e.address, mem, off);
    GetPut64(e.size, mem, off + 8);
  }

  // Entries followed by one of size 0 are read back, up to the first one that has size 0 itself.
  lemma {:induction false} RsvRoundTrip(mem: seq<byte>, off: nat, es: seq<Reservation>, last: Reservation)
    requires At(mem, off, EncRsv(es) + last.Enc()) && last.size == 0
    ensures RsvList(mem, off) == Some(UpToZero(es))
    decreases |es|
  {
    hide At, Get64, Reservation.Enc;
    AtConcat(mem, off, EncRsv(es), last.Enc());
    if es == [] {
      EntryCells(mem, off, last);
    } else {
      AtConcat(mem, off, es[0].Enc(), EncRsv(es[1..]));
      EntryCells(mem, off, es[0]);
      AtConcat(mem, off + 16, EncRsv(es[1..]), last.Enc());
      if es[0].size != 0 {
        RsvRoundTrip(mem, off + 16, es[1..], last);
        assert es[0] == Reservation(es[0].address, es[0].size);
      }
    }
  }
}
