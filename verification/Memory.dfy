// The byte primitives of firmware/string.c, on one buffer: memmove for any overlap, memcpy,
// memcmp and the search for a NUL, each proved against the bytes it leaves or the answer it
// gives.
module Memory {
  import opened Bytes

  // The buffer after the n bytes at src have been copied to dest.
  function Moved<T>(s: seq<T>, dest: nat, src: nat, n: nat): (r: seq<T>)
    requires dest + n <= |s| && src + n <= |s|
    ensures |r| == |s|
  {
    s[..dest] + s[src..src + n] + s[dest + n..]
  }

  // The buffer after data has been stored at dest.
  function Stored(s: seq<byte>, dest: nat, data: seq<byte>): (r: seq<byte>)
    requires dest + |data| <= |s|
    ensures |r| == |s|
  {
    s[..dest] + data + s[dest + |data|..]
  }

  lemma MovedIs<T>(s: seq<T>, t: seq<T>, dest: nat, src: nat, n: nat)
    requires dest + n <= |s| == |t| && src + n <= |s|
    requires forall k :: dest <= k < dest + n ==> t[k] == s[src - dest + k]
    requires forall k :: 0 <= k < dest || dest + n <= k < |s| ==> t[k] == s[k]
    ensures t == Moved(s, dest, src, n)
  {
  }

  // A window of the copied range is found at its new place; bytes below dest stay.
  lemma MovedWindow(s: seq<byte>, dest: nat, src: nat, n: nat, x: nat, y: nat)
    requires dest + n <= |s| && src + n <= |s| && src <= x <= y <= src + n
    ensures Moved(s, dest, src, n)[x - src + dest..y - src + dest] == s[x..y]
  {
    var a, b := Moved(s, dest, src, n)[x - src + dest..y - src + dest], s[x..y];
    forall k | 0 <= k < y - x ensures a[k] == b[k] {
      assert Moved(s, dest, src, n)[dest + (x - src + k)] == s[src..src + n][x - src + k];
    }
    assert a == b;
  }

  lemma MovedBelow(s: seq<byte>, dest: nat, src: nat, n: nat, x: nat, y: nat)
    requires dest + n <= |s| && src + n <= |s| && x <= y <= dest
    ensures Moved(s, dest, src, n)[x..y] == s[x..y]
  {
    var m := Moved(s, dest, src, n);
    assert forall k :: 0 <= k < dest ==> m[k] == s[k];
  }

  lemma StoredWindow(s: seq<byte>, dest: nat, data: seq<byte>)
    requires dest + |data| <= |s|
    ensures Stored(s, dest, data)[dest..dest + |data|] == data
  {
  }

  lemma StoredBeside(s: seq<byte>, dest: nat, data: seq<byte>, x: nat, y: nat)
    requires dest + |data| <= |s| && x <= y <= |s| && (y <= dest || dest + |data| <= x)
    ensures Stored(s, dest, data)[x..y] == s[x..y]
  {
  }

  method Memmove(a: array<byte>, dest: nat, src: nat, count: nat)
    requires dest + count <= a.Length && src + count <= a.Length
    modifies a
    ensures a[..] == Moved(old(a[..]), dest, src, count)
  {
    if src == dest {
      MovedIs(a[..], a[..], dest, src, count);
    } else if dest < src {
      CopyForward(a, dest, src, count);
    } else {
      CopyBackward(a, dest, src, count);
    }
  }

  method CopyForward(a: array<byte>, dest: nat, src: nat, count: nat)
    requires dest < src && src + count <= a.Length
    modifies a
    ensures a[..] == Moved(old(a[..]), dest, src, count)
  {
    var i := 0;
    while i < count
      invariant 0 <= i <= count
      invariant forall k :: dest <= k < dest + i ==> a[k] == old(a[src - dest + k])
      invariant forall k :: 0 <= k < dest || dest + i <= k < a.Length ==> a[k] == old(a[k])
    {
      a[dest + i] := a[src + i];
      i := i + 1;
    }
    MovedIs(old(a[..]), a[..], dest, src, count);
  }

  method CopyBackward(a: array<byte>, dest: nat, src: nat, count: nat)
    requires src < dest && dest + count <= a.Length
    modifies a
    ensures a[..] == Moved(old(a[..]), dest, src, count)
  {
    var i := count;
    while i > 0
      invariant 0 <= i <= count
      invariant forall k :: dest + i <= k < dest + count ==> a[k] == old(a[src - dest + k])
      invariant forall k :: 0 <= k < dest + i || dest + count <= k < a.Length ==> a[k] == old(a[k])
    {
      i := i - 1;
      a[dest + i] := a[src + i];
    }
    MovedIs(old(a[..]), a[..], dest, src, count);
  }

  method Memcpy(a: array<byte>, dest: nat, data: seq<byte>)
    requires dest + |data| <= a.Length
    modifies a
    ensures a[..] == Stored(old(a[..]), dest, data)
  {
    var i := 0;
    while i < |data|
      invariant 0 <= i <= |data|
      invariant forall k :: dest <= k < dest + i ==> a[k] == data[k - dest]
      invariant forall k :: 0 <= k < dest || dest + i <= k < a.Length ==> a[k] == old(a[k])
    {
      a[dest + i] := data[i];
      i := i + 1;
    }
    assert a[..] == Stored(old(a[..]), dest, data);
  }

  // The bytes at p and the bytes s differ for the first time at i.
  predicate FirstDifference(m: seq<byte>, p: nat, s: seq<byte>, i: nat)
    requires p + |s| <= |m|
  {
    i < |s| && m[p + i] != s[i] && forall k :: 0 <= k < i ==> m[p + k] == s[k]
  }

  // The difference of the first unequal bytes, or 0.
  method Memcmp(a: array<byte>, p: nat, s: seq<byte>) returns (r: int)
    requires p + |s| <= a.Length
    ensures r == 0 <==> At(a[..], p, s)
    ensures r != 0 ==> exists i :: 0 <= i < |s| && FirstDifference(a[..], p, s, i) && r == a[p + i] as int - s[i] as int
  {
    var i := 0;
    while i < |s| && a[p + i] == s[i]
      invariant 0 <= i <= |s|
      invariant a[p..p + i] == s[..i] && forall k :: 0 <= k < i ==> a[p + k] == s[k]
    {
      assert a[p..p + (i + 1)] == a[p..p + i] + [a[p + i]];
      i := i + 1;
    }
    assert a[..][p..p + |s|] == a[p..p + |s|];
    if i < |s| {
      assert a[p..p + |s|][i] == a[p + i];
      assert FirstDifference(a[..], p, s, i);
      r := a[p + i] as int - s[i] as int;
    } else {
      r := 0;
    }
  }

  // The first NUL in [p, end).
  method Memchr0(a: array<byte>, p: nat, end: nat) returns (r: Option<nat>)
    requires p <= end <= a.Length
    ensures r.None? ==> forall k :: p <= k < end ==> a[k] != 0
    ensures r.Some? ==> p <= r.value < end && a[r.value] == 0
                        && forall k :: p <= k < r.value ==> a[k] != 0
  {
    var i := p;
    while i < end
      invariant p <= i <= end
      invariant forall k :: p <= k < i ==> a[k] != 0
    {
      if a[i] == 0 {
        return Some(i);
      }
      i := i + 1;
    }
    r := None;
  }
}
