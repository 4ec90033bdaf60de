// Bytes, 32-bit big-endian cells, alignment and C strings: the vocabulary in which the
// device tree blob is described. Slices of sequences, and what replacing a slice by another
// one leaves.
module Bytes {

  type byte = b: int | 0 <= b < 0x100
  type u32 = w: int | 0 <= w < 0x1_0000_0000

  const TAG_SIZE: nat := 4
  const INT32_MAX: nat := 0x7fff_ffff

  datatype Option<+T> = None | Some(value: T)

  // The error codes of libfdt that this model can return.
  datatype Error =
    | NotFound
    | Exists
    | NoSpace
    | BadOffset
    | BadPath
    | BadState
    | Truncated
    | BadMagic
    | BadVersion
    | BadStructure
    | BadLayout
    | Internal
    | BadOverlay
    | BadPhandle
    | NoPhandles
    | BadFlags

  datatype Result<+T> = Success(value: T) | Failure(error: Error) {
    predicate IsFailure() {
      Failure?
    }

    function PropagateFailure<U>(): Result<U>
      requires Failure?
    {
      Failure(error)
    }

    function Extract(): T
      requires Success?
    {
      value
    }
  }

  // Slices ---------------------------------------------------------------------

  // The run e occurs in s at offset off.
  predicate At<T(==)>(s: seq<T>, off: nat, e: seq<T>) {
    off + |e| <= |s| && s[off..off + |e|] == e
  }

  // The run s with its part [i..j) replaced by mid.
  function Splice<T>(s: seq<T>, i: nat, j: nat, mid: seq<T>): seq<T>
    requires i <= j <= |s|
  {
    s[..i] + mid + s[j..]
  }

  lemma SpliceHead<T>(x: T, s: seq<T>, mid: seq<T>)
    ensures Splice([x] + s, 0, 1, mid) == mid + s
  {
    assert ([x] + s)[1..] == s;
  }

  lemma SpliceCons<T>(x: T, s: seq<T>, i: nat, j: nat, mid: seq<T>)
    requires i <= j <= |s|
    ensures Splice([x] + s, i + 1, j + 1, mid) == [x] + Splice(s, i, j, mid)
  {
    assert ([x] + s)[..i + 1] == [x] + s[..i];
    assert ([x] + s)[j + 1..] == s[j..];
  }

  lemma SpliceOne<T>(s: seq<T>, m: nat, x: T)
    requires m < |s|
    ensures Splice(s, m, m + 1, [x]) == s[m := x]
  {
  }

  lemma SpliceInsert<T>(s: seq<T>, x: seq<T>)
    ensures Splice(s, 0, 0, x) == x + s
  {
  }

  lemma SpliceNested<T>(s: seq<T>, i: nat, n: nat, a: nat, b: nat, mid: seq<T>)
    requires i + n <= |s| && a <= b <= n
    ensures Splice(s, i, i + n, Splice(s[i..i + n], a, b, mid)) == Splice(s, i + a, i + b, mid)
  {
    var w := s[i..i + n];
    assert s[..i + a] == s[..i] + w[..a];
    assert s[i + b..] == w[b..] + s[i + n..];
  }

  lemma SpliceBracket<T>(x: T, s: seq<T>, y: seq<T>, a: nat, b: nat, mid: seq<T>)
    requires a <= b <= |s|
    ensures Splice([x] + (s + y), a + 1, b + 1, mid) == [x] + (Splice(s, a, b, mid) + y)
  {
    var w := [x] + (s + y);
    assert w[..a + 1] == [x] + s[..a];
    assert w[b + 1..] == s[b..] + y;
  }

  lemma SpliceFront<T>(s: seq<T>, y: seq<T>, a: nat, b: nat, mid: seq<T>)
    requires a <= b <= |s|
    ensures Splice(s + y, a, b, mid) == Splice(s, a, b, mid) + y
  {
    assert (s + y)[..a] == s[..a];
    assert (s + y)[b..] == s[b..] + y;
  }

  lemma SliceSlice<T>(s: seq<T>, a: nat, b: nat, c: nat, d: nat)
    requires a <= b <= |s| && c <= d <= b - a
    ensures s[a..b][c..d] == s[a + c..a + d]
  {
    var x, y := s[a..b][c..d], s[a + c..a + d];
    forall k | 0 <= k < d - c ensures x[k] == y[k] {
      assert x[k] == s[a..b][c + k];
    }
    assert x == y;
  }

  lemma AtConcat<T>(s: seq<T>, off: nat, a: seq<T>, b: seq<T>)
    ensures At(s, off, a + b) <==> At(s, off, a) && At(s, off + |a|, b)
  {
    if off + |a| + |b| <= |s| {
      var w := s[off..off + |a + b|];
      assert w[..|a|] == s[off..off + |a|];
      assert w[|a|..] == s[off + |a|..off + |a| + |b|];
      assert w == w[..|a|] + w[|a|..];
      assert (a + b)[..|a|] == a && (a + b)[|a|..] == b;
    }
  }

  lemma AtOne<T>(s: seq<T>, off: nat, x: T)
    requires At(s, off, [x])
    ensures off < |s| && s[off] == x
  {
    assert s[off..off + 1][0] == x;
  }

  lemma AtBracket<T>(s: seq<T>, off: nat, x: T, b: seq<T>, y: T, r: seq<T>)
    requires At(s, off, [x] + (b + ([y] + r)))
    ensures off + |b| + 2 + |r| <= |s|
    ensures s[off] == x && At(s, off + 1, b) && s[off + 1 + |b|] == y && At(s, off + |b| + 2, r)
  {
    assert off + |[x] + (b + ([y] + r))| <= |s|;
    hide At;
    AtConcat(s, off, [x], b + ([y] + r));
    AtConcat(s, off + 1, b, [y] + r);
    AtConcat(s, off + 1 + |b|, [y], r);
    AtOne(s, off, x);
    AtOne(s, off + 1 + |b|, y);
  }

  lemma AtMiddle<T>(s: seq<T>, off: nat, a: seq<T>, b: seq<T>, c: seq<T>)
    requires At(s, off, a + (b + c))
    ensures At(s, off + |a|, b)
  {
    AtConcat(s, off, a, b + c);
    AtConcat(s, off + |a|, b, c);
  }

  // Big-endian cells -----------------------------------------------------------

  function Put32(w: u32): (s: seq<byte>)
    ensures |s| == 4
  {
    var w1 := w / 0x100;
    var w2 := w1 / 0x100;
    [w2 / 0x100, w2 % 0x100, w1 % 0x100, w % 0x100]
  }

  function Get32(s: seq<byte>, i: nat): u32
    requires i + 4 <= |s|
  {
    var b0: int, b1: int, b2: int, b3: int := s[i], s[i + 1], s[i + 2], s[i + 3];
    ((b0 * 0x100 + b1) * 0x100 + b2) * 0x100 + b3
  }

  lemma PutLength(w: u32)
    ensures |Put32(w)| == 4
  {
  }

  lemma GetPut32(w: u32, s: seq<byte>, i: nat)
    requires At(s, i, Put32(w))
    ensures Get32(s, i) == w
  {
    var p := s[i..i + 4];
    var w1 := w / 0x100;
    var w2 := w1 / 0x100;
    assert s[i] == p[0] == w2 / 0x100;
    assert s[i + 1] == p[1] == w2 % 0x100;
    assert s[i + 2] == p[2] == w1 % 0x100;
    assert s[i + 3] == p[3] == w % 0x100;
  }

  lemma PutGet32(s: seq<byte>, i: nat)
    requires i + 4 <= |s|
    ensures Put32(Get32(s, i)) == s[i..i + 4]
  {
    var b0: int, b1: int, b2: int, b3: int := s[i], s[i + 1], s[i + 2], s[i + 3];
    var w := Get32(s, i);
    assert w / 0x100 == (b0 * 0x100 + b1) * 0x100 + b2;
    assert w / 0x100 / 0x100 == b0 * 0x100 + b1;
  }

  function Power256(n: nat): (p: nat)
    ensures p > 0
  {
    if n == 0 then 1 else 0x100 * Power256(n - 1)
  }

  // The number whose digits to the base 256 these are, the most significant one first.
  function BigEndian(s: seq<byte>): nat {
    if s == [] then 0 else s[0] * Power256(|s| - 1) + BigEndian(s[1..])
  }

  lemma Powers()
    ensures Power256(0) == 1 && Power256(1) == 0x100 && Power256(2) == 0x1_0000 && Power256(3) == 0x100_0000
    ensures Power256(4) == 0x1_0000_0000 && Power256(5) == 0x100_0000_0000
    ensures Power256(6) == 0x1_0000_0000_0000 && Power256(7) == 0x100_0000_0000_0000
  {
    assert Power256(2) == 0x100 * Power256(1) && Power256(3) == 0x100 * Power256(2);
    assert Power256(4) == 0x100 * Power256(3) && Power256(5) == 0x100 * Power256(4);
    assert Power256(6) == 0x100 * Power256(5);
  }

  // The byte order of a cell.
  lemma Put32Bytes(w: u32, k: nat)
    requires k < 4
    ensures Put32(w)[k] == w / Power256(3 - k) % 0x100
  {
    Powers();
    if k == 0 {
      Quotients(w, 0x100, 0x100);
      Quotients(w, 0x1_0000, 0x100);
    } else if k == 1 {
      Quotients(w, 0x100, 0x100);
    }
  }

  // Dividing twice is dividing by the product.
  lemma Quotients(w: nat, c: nat, d: nat)
    requires c > 0 && d > 0
    ensures c * d > 0 && w / c / d == w / (c * d)
  {
    QuotientsAre(w, c, d, w / c, w % c, w / c / d, w / c % d);
  }

  lemma QuotientsAre(w: nat, c: nat, d: nat, q: nat, r: nat, a: nat, b: nat)
    requires r < c && b < d && w == c * q + r && q == d * a + b
    ensures c * d > 0 && w / (c * d) == a
  {
    Positive(c, d);
    Expand(c, d, a, b);
    Grows(c, b, d);
    QuotientIs(w, c * d, a, c * b + r);
  }

  lemma Positive(c: nat, d: nat)
    requires c > 0 && d > 0
    ensures c * d > 0
  {
  }

  lemma Expand(c: nat, d: nat, a: nat, b: nat)
    ensures c * (d * a + b) == (c * d) * a + c * b
  {
  }

  lemma QuotientIs(w: nat, d: nat, q: nat, r: nat)
    requires r < d && w == d * q + r
    ensures w / d == q && w % d == r
  {
    var x := w / d;
    assert w == d * x + w % d;
    Grows(d, q, x);
    Grows(d, x, q);
  }

  lemma Grows(d: nat, a: nat, b: nat)
    ensures a < b ==> d * a + d <= d * b
  {
    if a < b {
      Distribute(d, a, b - a);
      Distribute(d, 1, b - a - 1);
    }
  }

  lemma Distribute(d: nat, a: nat, k: nat)
    ensures d * (a + k) == d * a + d * k && d * k >= 0
  {
  }

  lemma Get32Bytes(s: seq<byte>, i: nat)
    requires i + 4 <= |s|
    ensures Get32(s, i) == BigEndian(s[i..i + 4])
  {
    hide Get32;
    FourDigits(s[i], s[i + 1], s[i + 2], s[i + 3]);
    assert s[i..i + 4] == [s[i], s[i + 1], s[i + 2], s[i + 3]];
    Get32Is(s, i);
  }

  lemma Get32Is(s: seq<byte>, i: nat)
    requires i + 4 <= |s|
    ensures Get32(s, i)
         == 0x100_0000 * (s[i] as int) + 0x1_0000 * (s[i + 1] as int) + 0x100 * (s[i + 2] as int) + s[i + 3]
  {
  }

  lemma FourDigits(a: byte, b: byte, c: byte, d: byte)
    ensures BigEndian([a, b, c, d]) == 0x100_0000 * a + 0x1_0000 * b + 0x100 * c + d
  {
    Powers();
    assert [d][1..] == [] && [c, d][1..] == [d] && [b, c, d][1..] == [c, d] && [a, b, c, d][1..] == [b, c, d];
    assert BigEndian([d]) == d * Power256(0) + BigEndian([]);
    assert BigEndian([c, d]) == c * Power256(1) + BigEndian([d]);
    assert BigEndian([b, c, d]) == b * Power256(2) + BigEndian([c, d]);
    assert BigEndian([a, b, c, d]) == a * Power256(3) + BigEndian([b, c, d]);
  }

  // Alignment ------------------------------------------------------------------

  function Align4(n: nat): (r: nat)
    ensures r % 4 == 0 && n <= r < n + 4
  {
    (n + 3) / 4 * 4
  }

  function PadLen(n: nat): nat {
    Align4(n) - n
  }

  // C strings ------------------------------------------------------------------

  predicate NoNul(s: seq<byte>) {
    forall i :: 0 <= i < |s| ==> s[i] != 0
  }

  // Index of the first NUL at or after k, or |s|.
  function NulAt(s: seq<byte>, k: nat): (r: nat)
    requires k <= |s|
    ensures k <= r <= |s|
    ensures r < |s| ==> s[r] == 0
    ensures forall i :: k <= i < r ==> s[i] != 0
    decreases |s| - k
  {
    if k == |s| || s[k] == 0 then k else NulAt(s, k + 1)
  }

  lemma NulAtUnique(s: seq<byte>, k: nat, r: nat)
    requires k <= r < |s| && s[r] == 0 && forall i :: k <= i < r ==> s[i] != 0
    ensures NulAt(s, k) == r
  {
  }

  // The NUL-terminated string that starts at off, if its terminator lies within s.
  function CStr(s: seq<byte>, off: nat): (r: Option<seq<byte>>)
    ensures r.Some? ==> NoNul(r.value) && At(s, off, r.value + [0])
  {
    if off >= |s| then None
    else
      var n := NulAt(s, off);
      if n == |s| then None
      else
        assert s[off..n + 1] == s[off..n] + [0];
        Some(s[off..n])
  }

  lemma CStrIs(s: seq<byte>, off: nat, name: seq<byte>)
    requires NoNul(name)
    ensures CStr(s, off) == Some(name) <==> At(s, off, name + [0])
  {
    AtConcat(s, off, name, [0]);
    if At(s, off, name + [0]) {
      var r := off + |name|;
      assert s[r..r + 1][0] == 0;
      NulAtUnique(s, off, r);
    }
  }

  // Appending to a string table, or prepending to it, keeps what it already resolves.
  lemma CStrExtend(pre: seq<byte>, s: seq<byte>, post: seq<byte>, off: nat)
    requires CStr(s, off).Some?
    ensures CStr(pre + s + post, |pre| + off) == CStr(s, off)
  {
    var name := CStr(s, off).value;
    var e := name + [0];
    var big := pre + s + post;
    assert big[|pre| + off..|pre| + off + |e|] == s[off..off + |e|];
    CStrIs(big, |pre| + off, name);
  }
}
