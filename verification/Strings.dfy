// Finding a name in the strings block, or adding it (fdt.c, fdt_rw.c). A name may be found
// as the end of a longer string; a name that is not there goes behind the last string if
// there is room.
module Strings {
  import opened Bytes
  import opened Memory
  import opened Blobs
  import opened Splicing

  // The first place at or after p where s and its terminator occur, suffixes of longer
  // strings included.
  function FindStr(strs: seq<byte>, p: nat, s: seq<byte>): (r: Option<nat>)
    ensures r.Some? ==> p <= r.value && At(strs, r.value, s + [0])
    ensures r.None? ==> forall q :: p <= q <= |strs| ==> !At(strs, q, s + [0])
    decreases |strs| - p
  {
    if p + |s| + 1 > |strs| then None
    else if At(strs, p, s + [0]) then Some(p)
    else FindStr(strs, p + 1, s)
  }

  // What has to be added for s to be found.
  function NewName(strs: seq<byte>, s: seq<byte>): seq<byte> {
    if FindStr(strs, 0, s).Some? then [] else s + [0]
  }

  // fdt_find_string_ on size bytes at base
  method FindString(a: array<byte>, base: nat, size: nat, s: seq<byte>) returns (r: Option<nat>)
    requires base + size <= a.Length
    ensures r == FindStr(a[base..base + size], 0, s)
  {
    hide FindStr;
    var len := |s| + 1;
    ghost var strs := a[base..base + size];
    var p := 0;
    while p + len <= size
      invariant FindStr(strs, 0, s) == FindStr(strs, p, s)
    {
      var c := Memcmp(a, base + p, s + [0]);
      WindowAt(a[..], base, size, p, s + [0]);
      FindStrStep(strs, p, s);
      if c == 0 {
        return Some(p);
      }
      p := p + 1;
    }
    FindStrStep(strs, p, s);
    r := None;
  }

  lemma FindStrStep(strs: seq<byte>, p: nat, s: seq<byte>)
    ensures FindStr(strs, p, s)
         == if p + |s| + 1 > |strs| then None
            else if At(strs, p, s + [0]) then Some(p)
            else FindStr(strs, p + 1, s)
  {
  }

  lemma WindowAt(mem: seq<byte>, base: nat, size: nat, p: nat, e: seq<byte>)
    requires base + size <= |mem| && p + |e| <= size
    ensures At(mem[base..base + size], p, e) <==> At(mem, base + p, e)
  {
    SliceSlice(mem, base, base + size, p, p + |e|);
  }

  // fdt_find_add_string_
  method FindAddString(fdt: Blob, s: seq<byte>) returns (r: Result<nat>, added: bool)
    requires fdt.Ordered() && |s| < INT32_MAX
    modifies fdt`hdr, fdt.buf
    ensures var found := FindStr(old(fdt.StringsBlock()), 0, s);
            var top := DataSize(old(fdt.hdr));
            && fdt.Ordered()
            && added == (found.None? && top + |s| + 1 <= old(fdt.hdr.totalsize))
            && (found.Some? ==> r == Success(found.value))
            && (added ==> r == Success(|old(fdt.StringsBlock())|))
            && (found.None? && !added ==> r == Failure(NoSpace))
            && fdt.buf[..top] == old(fdt.buf[..])[..top]
    ensures !added ==> fdt.hdr == old(fdt.hdr) && fdt.buf[..] == old(fdt.buf[..])
    ensures added ==>
              && old(fdt.hdr.sizeStrings) + |s| + 1 < 0x1_0000_0000
              && fdt.hdr == old(fdt.hdr).(sizeStrings := old(fdt.hdr.sizeStrings) + |s| + 1)
              && fdt.Head() == old(fdt.Head())
              && fdt.StructBlock() == old(fdt.StructBlock())
              && fdt.StringsBlock() == old(fdt.StringsBlock()) + (s + [0])
  {
    hide FindStr;
    var h := fdt.hdr;
    ghost var mem := fdt.buf[..];
    var p := FindString(fdt.buf, h.offStrings, h.sizeStrings, s);
    if p.Some? {
      return Success(p.value), false;
    }
    var e := AppendString(fdt, s);
    if e.Failure? {
      return Failure(e.error), false;
    }
    BelowTop(h, mem, fdt.buf[..]);
    return Success(h.sizeStrings), true;
  }

  // Blocks below the top of the strings block only depend on the bytes below it.
  lemma BelowTop(h: Header, mem: seq<byte>, mem': seq<byte>)
    requires OrderedIn(h, |mem|) && |mem'| == |mem| && mem'[..DataSize(h)] == mem[..DataSize(h)]
    ensures HeadOf(h, mem') == HeadOf(h, mem)
    ensures StructOf(h, mem') == StructOf(h, mem)
    ensures StringsOf(h, mem') == StringsOf(h, mem)
  {
    var t := DataSize(h);
    SliceSlice(mem, 0, t, 0, h.offStruct);
    SliceSlice(mem', 0, t, 0, h.offStruct);
    SliceSlice(mem, 0, t, h.offStruct, h.offStruct + h.sizeStruct);
    SliceSlice(mem', 0, t, h.offStruct, h.offStruct + h.sizeStruct);
    SliceSlice(mem, 0, t, h.offStrings, t);
    SliceSlice(mem', 0, t, h.offStrings, t);
  }
}
