// The self-copy of the boot code (firmware/head.S).
module Relocation {
  import opened Memory

  // Addresses and sizes count 8-byte words; code labels are byte offsets.

  // Offsets in the image header, and of the spin word behind it.
  const HDR_RUN: nat := 2
  const HDR_SIZE: nat := 3
  const HDR_NEXT_RUN: nat := 10
  const SPIN: nat := 512

  // relocate and relocateDone are the labels around the copying code; text is the size of the
  // code section, and the variables of the boot code start at word vars.
  datatype Layout = Layout(
    load: nat, run: nat, size: nat,
    relocate: nat, relocateDone: nat, text: nat,
    vars: nat, bss: nat, bssEnd: nat, nextRun: int, noSpin: bool)
  {
    const lottery := vars
    const loadStart := vars + 1
    const bootArg := vars + 2
    const status := vars + 3

    predicate Valid() {
      && SPIN < text <= vars && vars + 5 <= bss < bssEnd <= size
      && 8 * SPIN < relocate < relocateDone < 8 * text
    }

    predicate EqualOrDisjoint() {
      load == run || load + size <= run || run + size <= load
    }
  }

  // The macro BRANGE: taken when start <= check < end.
  predicate InRange(start: int, end: int, check: int) {
    start <= check < end
  }

  // The copy writes the byte at address b.
  predicate Overwritten(l: Layout, b: int) {
    l.load != l.run && 8 * l.run <= b < 8 * (l.run + l.size)
  }

  // The copy would destroy, at the load address, the lottery word, the status word or a byte of
  // the copying code up to the instruction behind it.
  predicate Clash(l: Layout) {
    || Overwritten(l, 8 * (l.load + l.lottery))
    || Overwritten(l, 8 * (l.load + l.status))
    || exists b :: 8 * l.load + l.relocate <= b <= 8 * l.load + l.relocateDone && Overwritten(l, b)
  }

  // The guards in front of the two copy loops.
  predicate GuardsHang(l: Layout) {
    var lottery, status := 8 * (l.load + l.lottery), 8 * (l.load + l.status);
    var code, codeEnd := 8 * l.load + l.relocate, 8 * l.load + l.relocateDone;
    if l.load == l.run then false
    else
      var from := if l.load < l.run then l.run else l.load;
      var to := if l.load < l.run then l.load + l.size else l.run + l.size;
      && from < to
      && (|| InRange(8 * from, 8 * to, lottery)
          || InRange(8 * from, 8 * to, status)
          || InRange(8 * from, 8 * to, code)
          || InRange(8 * from, 8 * to, codeEnd)
          || InRange(code, codeEnd, 8 * from))
  }

  // The guards stop exactly the copies that would destroy what is still needed.
  lemma GuardsExact(l: Layout)
    requires l.Valid()
    ensures GuardsHang(l) <==> Clash(l)
  {
    var code, codeEnd := 8 * l.load + l.relocate, 8 * l.load + l.relocateDone;
    if GuardsHang(l) {
      assert InRange(code, codeEnd, 8 * l.run) ==> Overwritten(l, 8 * l.run);
      assert Overwritten(l, code) || Overwritten(l, codeEnd) || Overwritten(l, 8 * (l.load + l.lottery))
          || Overwritten(l, 8 * (l.load + l.status)) || InRange(code, codeEnd, 8 * l.run);
    }
    if b :| code <= b <= codeEnd && Overwritten(l, b) {
      assert GuardsHang(l);
    }
  }

  lemma NoClash(l: Layout)
    requires l.Valid() && l.EqualOrDisjoint()
    ensures !Clash(l)
  {
  }

  // From _relocate to _relocate_done. On return the hart has not hung and the image is at
  // the run address, to which the hart has jumped.
  method Relocate(mem: array<int>, l: Layout) returns (hung: bool, base: nat)
    requires l.Valid() && l.load + l.size <= mem.Length && l.run + l.size <= mem.Length
    requires mem[l.load + HDR_RUN] == l.run && mem[l.load + HDR_SIZE] == l.size && mem[l.load + l.loadStart] == l.load
    modifies mem
    ensures hung <==> Clash(l)
    ensures hung ==> mem[..] == old(mem[..])
    ensures !hung ==> base == l.run && mem[..] == Moved(old(mem[..]), l.run, l.load, l.size)
  {
    hide Clash, Moved, InRange;
    GuardsExact(l);
    base := l.load;
    hung := false;
    var t0, t1, t2 := mem[l.load + HDR_RUN], mem[l.load + HDR_SIZE], mem[l.load + l.loadStart];
    var t3 := t2 + t1;
    t1 := t1 + t0;
    if t0 == t2 {
      MovedIs(mem[..], mem[..], l.run, l.load, l.size);
      return;
    }
    var t4 := base - t2 + t0;
    var lottery, status := 8 * (base + l.lottery), 8 * (base + l.status);
    var code, codeEnd := 8 * base + l.relocate, 8 * base + l.relocateDone;
    if t2 < t0 {
      if !(t3 <= t0) {
        hung := Guards(t0, t3, lottery, status, code, codeEnd);
        if hung {
          return;
        }
      }
      CopyToUpper(mem, t0, t1, t3);
    } else {
      if !(t1 <= t2) {
        hung := Guards(t2, t1, lottery, status, code, codeEnd);
        if hung {
          return;
        }
      }
      CopyToLower(mem, t0, t1, t2);
    }
    base := t4;
  }

  // The guards in front of a copy that reaches into its own source.
  method Guards(from: int, to: int, lottery: int, status: int, code: int, codeEnd: int) returns (hang: bool)
    ensures hang <==> || InRange(8 * from, 8 * to, lottery) || InRange(8 * from, 8 * to, status)
                      || InRange(8 * from, 8 * to, code) || InRange(8 * from, 8 * to, codeEnd)
                      || InRange(code, codeEnd, 8 * from)
  {
    if InRange(8 * from, 8 * to, lottery) { return true; }
    if InRange(8 * from, 8 * to, status) { return true; }
    if InRange(8 * from, 8 * to, code) { return true; }
    if InRange(8 * from, 8 * to, codeEnd) { return true; }
    hang := InRange(code, codeEnd, 8 * from);
  }

  method CopyToLower(mem: array<int>, start: nat, end: nat, src: nat)
    requires start < end && start < src && src + (end - start) <= mem.Length
    modifies mem
    ensures mem[..] == Moved(old(mem[..]), start, src, end - start)
  {
    var t0, t2 := start, src;
    var more := true;
    while more
      invariant start <= t0 <= end && t2 - t0 == src - start && more == (t0 < end)
      invariant forall k :: start <= k < t0 ==> mem[k] == old(mem[src - start + k])
      invariant forall k :: 0 <= k < start || t0 <= k < mem.Length ==> mem[k] == old(mem[k])
      decreases end - t0
    {
      var t3 := mem[t2];
      mem[t0] := t3;
      t0 := t0 + 1;
      t2 := t2 + 1;
      more := t0 < end;
    }
    MovedIs(old(mem[..]), mem[..], start, src, end - start);
  }

  method CopyToUpper(mem: array<int>, start: nat, end: nat, srcEnd: nat)
    requires start < end <= mem.Length && srcEnd < end && end - start <= srcEnd
    modifies mem
    ensures mem[..] == Moved(old(mem[..]), start, srcEnd - (end - start), end - start)
  {
    hide Moved;
    var t1, t3 := end, srcEnd;
    var more := true;
    while more
      invariant start <= t1 <= end && t1 - t3 == end - srcEnd && more == (start < t1)
      invariant forall k :: t1 <= k < end ==> mem[k] == old(mem[srcEnd - end + k])
      invariant forall k :: 0 <= k < t1 || end <= k < mem.Length ==> mem[k] == old(mem[k])
      decreases t1 - start
    {
      t3 := t3 - 1;
      t1 := t1 - 1;
      var t2 := mem[t3];
      mem[t1] := t2;
      more := start < t1;
    }
    MovedIs(old(mem[..]), mem[..], start, srcEnd - (end - start), end - start);
  }

  // What a relocation that does not hang leaves: the image as it was loaded, and at the load
  // address the words the other harts and the copying hart itself still need.
  lemma Relocated(l: Layout, mem: seq<int>, mem': seq<int>)
    requires l.Valid() && l.load + l.size <= |mem| && l.run + l.size <= |mem|
    requires !Clash(l) && mem' == Moved(mem, l.run, l.load, l.size)
    ensures mem'[l.run..l.run + l.size] == mem[l.load..l.load + l.size]
    ensures mem'[l.load + l.lottery] == mem[l.load + l.lottery]
    ensures mem'[l.load + l.status] == mem[l.load + l.status]
    ensures forall b :: 8 * l.load + l.relocate <= b <= 8 * l.load + l.relocateDone ==> mem'[b / 8] == mem[b / 8]
    ensures forall k :: 0 <= k < l.run || l.run + l.size <= k < |mem| ==> mem'[k] == mem[k]
  {
    hide Moved, Clash;
    CopyParts(l, mem, mem');
    forall b | 8 * l.load + l.relocate <= b <= 8 * l.load + l.relocateDone
      ensures mem'[b / 8] == mem[b / 8]
    {
      StillThere(l, b);
    }
    StillThere(l, 8 * (l.load + l.lottery));
    StillThere(l, 8 * (l.load + l.status));
  }

  lemma CopyParts(l: Layout, mem: seq<int>, mem': seq<int>)
    requires l.load + l.size <= |mem| && l.run + l.size <= |mem| && mem' == Moved(mem, l.run, l.load, l.size)
    ensures mem'[l.run..l.run + l.size] == mem[l.load..l.load + l.size]
    ensures forall k :: 0 <= k < l.run || l.run + l.size <= k < |mem| ==> mem'[k] == mem[k]
    ensures l.load == l.run ==> mem' == mem
  {
  }

  // The word of a byte that is still needed is not overwritten.
  lemma StillThere(l: Layout, b: int)
    requires l.Valid() && !Clash(l)
    requires || 8 * l.load + l.relocate <= b <= 8 * l.load + l.relocateDone
             || b == 8 * (l.load + l.lottery) || b == 8 * (l.load + l.status)
    ensures l.load == l.run || b / 8 < l.run || l.run + l.size <= b / 8
    ensures l.load <= b / 8 < l.load + l.size
  {
    assert !Overwritten(l, b);
  }
}
