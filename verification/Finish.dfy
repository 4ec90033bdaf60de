// fdt_finish (fdt_sw.c): from the writer's state
// to a complete blob.
module Finish {
  import opened Bytes
  import opened Tokens
  import opened Structure
  import opened Memory
  import opened Blobs
  import opened Readers
  import opened Splicing
  import opened Edits
  import opened Editor
  import opened NodeEditor
  import opened Check
  import opened Writer

  const LAST_COMPATIBLE_VERSION: u32 := 16

  // The calls of a tree, and the tree of the calls -------------------------------------------------

  function EmitProps(ps: seq<Structure.Property>): (r: seq<Call>)
    ensures |r| == |ps| && forall i :: 0 <= i < |ps| ==> r[i] == Put(ps[i].name, ps[i].value)
  {
    seq(|ps|, i requires 0 <= i < |ps| => Put(ps[i].name, ps[i].value))
  }

  // The calls that write these trees, in order.
  function EmitAll(ns: seq<Node>): seq<Call> {
    if ns == [] then []
    else
      [Opened(ns[0].name)] + (EmitProps(ns[0].props) + (EmitAll(ns[0].children) + ([Closed] + EmitAll(ns[1..]))))
  }

  // A token of a finished blob, whose name is counted from the front of the strings.
  function CallAt(t: Token, strs: seq<byte>): Call {
    match t
    case Begin(name, _) => Opened(name)
    case Prop(nameOff, value, _) => Put(NameOf(strs, nameOff), value)
    case _ => Closed
  }

  function CallsAt(ts: seq<Token>, strs: seq<byte>): (r: seq<Call>)
    ensures |r| == |ts| && forall i :: 0 <= i < |ts| ==> r[i] == CallAt(ts[i], strs)
  {
    seq(|ts|, i requires 0 <= i < |ts| => CallAt(ts[i], strs))
  }

  ghost predicate Readable(t: Token, strs: seq<byte>) {
    t.Ok() && !t.Nop? && !t.End? && (t.Prop? ==> CStr(strs, t.nameOff).Some?)
  }

  ghost predicate AllReadable(ts: seq<Token>, strs: seq<byte>) {
    forall i :: 0 <= i < |ts| ==> Readable(ts[i], strs)
  }

  // Properties in front of siblings.
  ghost function PutLeaves(ts: seq<Token>, it: Items): Items
    requires forall i :: 0 <= i < |ts| ==> ts[i].Prop?
  {
    if ts == [] then it else Leaf(ts[0], PutLeaves(ts[1..], it))
  }

  lemma {:induction false} PutLeavesIs(ts: seq<Token>, it: Items, ps: seq<Structure.Property>, strs: seq<byte>)
    requires AllReadable(ts, strs) && CallsAt(ts, strs) == EmitProps(ps)
    requires NoProps(it) && WellNested(it, true) && Resolved(it, strs)
    ensures forall i :: 0 <= i < |ts| ==> ts[i].Prop?
    ensures var b := PutLeaves(ts, it);
            && Toks(b) == ts + Toks(it) && Props(b, strs) == ps && Kids(b, strs) == Kids(it, strs)
            && PropsFirst(b) && WellNested(b, true) && Resolved(b, strs)
    decreases |ts|
  {
    hide CStr, Token.Ok, AllReadable, WellNested, Resolved, Toks, Props, Kids, NoProps, PropsFirst, EmitProps, CallsAt,
      PutLeaves;
    PutsOnly(ts, ps, strs);
    if ts == [] {
      NoPropsFirst(it);
      NoPropsMeans(it, strs);
      NoLeaves(it);
      ConsFront(ts, Toks(it));
    } else {
      ReadableAt(ts, strs, 0);
      TailPuts(ts, ps, strs);
      TailReadable(ts, strs);
      PutLeavesIs(ts[1..], it, ps[1..], strs);
      LeafInFront(ts[0], PutLeaves(ts[1..], it), strs);
      PutLeavesCons(ts, it);
      ConsFront(ts, Toks(it));
      ConsFront(ps, []);
    }
  }

  lemma NoLeaves(it: Items)
    ensures PutLeaves([], it) == it
  {
  }

  lemma PutLeavesCons(ts: seq<Token>, it: Items)
    requires ts != [] && forall i :: 0 <= i < |ts| ==> ts[i].Prop?
    ensures PutLeaves(ts, it) == Leaf(ts[0], PutLeaves(ts[1..], it))
  {
  }

  lemma TailReadable(ts: seq<Token>, strs: seq<byte>)
    requires AllReadable(ts, strs) && ts != []
    ensures AllReadable(ts[1..], strs)
  {
    hide AllReadable;
    ReadableSlice(ts, strs, 1, |ts|);
    assert ts[1..|ts|] == ts[1..];
  }

  lemma ConsFront<T>(s: seq<T>, r: seq<T>)
    ensures s == [] ==> s + r == r
    ensures s != [] ==> [s[0]] + s[1..] == s && [s[0]] + (s[1..] + r) == s + r
  {
  }

  lemma PutsOnly(ts: seq<Token>, ps: seq<Structure.Property>, strs: seq<byte>)
    requires CallsAt(ts, strs) == EmitProps(ps)
    ensures |ts| == |ps| && forall i :: 0 <= i < |ts| ==> ts[i].Prop?
  {
    assert |CallsAt(ts, strs)| == |EmitProps(ps)|;
    forall i | 0 <= i < |ts| ensures ts[i].Prop? {
      assert CallsAt(ts, strs)[i] == EmitProps(ps)[i];
    }
  }

  lemma TailPuts(ts: seq<Token>, ps: seq<Structure.Property>, strs: seq<byte>)
    requires CallsAt(ts, strs) == EmitProps(ps) && ts != [] && |ts| == |ps|
    ensures CallsAt(ts[1..], strs) == EmitProps(ps[1..])
    ensures CallAt(ts[0], strs) == Put(ps[0].name, ps[0].value)
  {
    assert CallsAt(ts, strs)[0] == EmitProps(ps)[0];
    forall j | 0 <= j < |ts| - 1 ensures CallsAt(ts[1..], strs)[j] == EmitProps(ps[1..])[j] {
      assert CallsAt(ts, strs)[j + 1] == EmitProps(ps)[j + 1];
    }
  }

  lemma ReadableSlice(ts: seq<Token>, strs: seq<byte>, a: nat, b: nat)
    requires AllReadable(ts, strs) && a <= b <= |ts|
    ensures AllReadable(ts[a..b], strs)
  {
    hide Readable;
    forall i | 0 <= i < b - a ensures Readable(ts[a..b][i], strs) {
      assert ts[a..b][i] == ts[a + i];
    }
  }

  lemma CallsSlice(ts: seq<Token>, strs: seq<byte>, a: nat, b: nat)
    requires a <= b <= |ts|
    ensures CallsAt(ts[a..b], strs) == CallsAt(ts, strs)[a..b]
  {
    assert forall i :: 0 <= i < b - a ==> ts[a..b][i] == ts[a + i];
  }

  // Where the parts of a tree's calls lie.
  lemma Portions<T>(s: seq<T>, x: T, p: seq<T>, q: seq<T>, y: T, r: seq<T>)
    requires s == [x] + (p + (q + ([y] + r)))
    ensures |s| == |p| + |q| + 2 + |r|
    ensures s[0] == x && s[1..1 + |p|] == p && s[1 + |p|..1 + |p| + |q|] == q
    ensures s[1 + |p| + |q|] == y && s[2 + |p| + |q|..] == r
  {
  }

  lemma Pieces<T>(s: seq<T>, a: nat, b: nat)
    requires 0 < a <= b < |s|
    ensures s == [s[0]] + ((s[1..a] + s[a..b]) + ([s[b]] + s[b + 1..]))
  {
  }

  // Tokens that stand for the calls of a tree are the tokens of that tree.
  lemma {:induction false} ParseNodes(ts: seq<Token>, ns: seq<Node>, strs: seq<byte>) returns (it: Items)
    requires AllReadable(ts, strs) && CallsAt(ts, strs) == EmitAll(ns)
    ensures Toks(it) == ts && Kids(it, strs) == ns
    ensures NoProps(it) && WellNested(it, true) && Resolved(it, strs)
    ensures |ns| == 1 && ns[0].name == [] ==> TopLevel(it)
    ensures ns == [] ==> it == Done
    decreases ns
  {
    hide CStr, Token.Ok, EmitProps, CallsAt, AllReadable, Readable, WellNested, Resolved, Kids, Props, NoProps, Toks,
      TopLevel, EmitAll;
    if ns == [] {
      it := Done;
      NothingParsed(ts, strs);
    } else {
      OnePortions(ts, ns, strs);
      it := ParseOne(ts, ns, strs, |ns[0].props|, |EmitAll(ns[0].children)|);
    }
  }

  lemma NothingParsed(ts: seq<Token>, strs: seq<byte>)
    requires CallsAt(ts, strs) == EmitAll([])
    ensures Toks(Done) == ts && Kids(Done, strs) == []
    ensures NoProps(Done) && WellNested(Done, true) && Resolved(Done, strs)
  {
  }

  // The tokens of the first node: its name, properties, children and end, and the tokens behind it.
  lemma {:induction false} OnePortions(ts: seq<Token>, ns: seq<Node>, strs: seq<byte>)
    requires ns != [] && AllReadable(ts, strs) && CallsAt(ts, strs) == EmitAll(ns)
    ensures var p, q := |ns[0].props|, |EmitAll(ns[0].children)|;
            && |ts| >= 2 + p + q
            && CallAt(ts[0], strs) == Opened(ns[0].name) && CallAt(ts[1 + p + q], strs) == Closed
            && CallsAt(ts[1..1 + p], strs) == EmitProps(ns[0].props) && AllReadable(ts[1..1 + p], strs)
            && CallsAt(ts[1 + p..1 + p + q], strs) == EmitAll(ns[0].children)
            && AllReadable(ts[1 + p..1 + p + q], strs)
            && CallsAt(ts[2 + p + q..], strs) == EmitAll(ns[1..]) && AllReadable(ts[2 + p + q..], strs)
  {
    hide CStr, EmitProps, CallsAt, AllReadable, Readable, CallAt, EmitAll;
    var p, q := |ns[0].props|, |EmitAll(ns[0].children)|;
    OneCalls(ts, ns, strs);
    ReadableSlice(ts, strs, 1, 1 + p);
    ReadableSlice(ts, strs, 1 + p, 1 + p + q);
    ReadableSlice(ts, strs, 2 + p + q, |ts|);
    assert ts[2 + p + q..|ts|] == ts[2 + p + q..];
  }

  lemma EmitCons(ns: seq<Node>)
    requires ns != []
    ensures EmitAll(ns)
         == [Opened(ns[0].name)] + (EmitProps(ns[0].props) + (EmitAll(ns[0].children) + ([Closed] + EmitAll(ns[1..]))))
  {
    hide EmitProps;
  }

  lemma {:induction false} OneCalls(ts: seq<Token>, ns: seq<Node>, strs: seq<byte>)
    requires ns != [] && CallsAt(ts, strs) == EmitAll(ns)
    ensures var p, q := |ns[0].props|, |EmitAll(ns[0].children)|;
            && |ts| >= 2 + p + q
            && CallAt(ts[0], strs) == Opened(ns[0].name) && CallAt(ts[1 + p + q], strs) == Closed
            && CallsAt(ts[1..1 + p], strs) == EmitProps(ns[0].props)
            && CallsAt(ts[1 + p..1 + p + q], strs) == EmitAll(ns[0].children)
            && CallsAt(ts[2 + p + q..], strs) == EmitAll(ns[1..])
  {
    hide CStr, EmitProps, CallsAt, CallAt, EmitAll;
    var n := ns[0];
    var p, q := |n.props|, |EmitAll(n.children)|;
    EmitCons(ns);
    Portions(CallsAt(ts, strs), Opened(n.name), EmitProps(n.props), EmitAll(n.children), Closed, EmitAll(ns[1..]));
    CallsSlice(ts, strs, 1, 1 + p);
    CallsSlice(ts, strs, 1 + p, 1 + p + q);
    CallsSlice(ts, strs, 2 + p + q, |ts|);
    EndSlices(ts, CallsAt(ts, strs), 2 + p + q);
  }

  lemma EndSlices<T, U>(s: seq<T>, u: seq<U>, a: nat)
    requires a <= |s| == |u|
    ensures s[a..|s|] == s[a..] && u[a..|s|] == u[a..]
  {
  }

  lemma {:induction false} ParseOne(ts: seq<Token>, ns: seq<Node>, strs: seq<byte>, p: nat, q: nat) returns (it: Items)
    requires ns != [] && |ts| >= 2 + p + q && AllReadable(ts, strs)
    requires CallAt(ts[0], strs) == Opened(ns[0].name) && CallAt(ts[1 + p + q], strs) == Closed
    requires CallsAt(ts[1..1 + p], strs) == EmitProps(ns[0].props) && AllReadable(ts[1..1 + p], strs)
    requires CallsAt(ts[1 + p..1 + p + q], strs) == EmitAll(ns[0].children) && AllReadable(ts[1 + p..1 + p + q], strs)
    requires CallsAt(ts[2 + p + q..], strs) == EmitAll(ns[1..]) && AllReadable(ts[2 + p + q..], strs)
    ensures Toks(it) == ts && Kids(it, strs) == ns
    ensures NoProps(it) && WellNested(it, true) && Resolved(it, strs)
    ensures |ns| == 1 && ns[0].name == [] ==> TopLevel(it)
    decreases ns, 0
  {
    hide CStr, EmitProps, CallsAt, EmitAll, AllReadable, PutLeaves, Toks, Kids, Props, WellNested, Resolved, NoProps,
      PropsFirst, TopLevel;
    var kids := ParseNodes(ts[1 + p..1 + p + q], ns[0].children, strs);
    var rest := ParseNodes(ts[2 + p + q..], ns[1..], strs);
    PutLeavesIs(ts[1..1 + p], kids, ns[0].props, strs);
    var body := PutLeaves(ts[1..1 + p], kids);
    ReadableAt(ts, strs, 0);
    ReadableAt(ts, strs, 1 + p + q);
    it := Sub(ts[0].name, ts[0].npad, body, rest);
    Pieces(ts, 1 + p, 1 + p + q);
    OneNode(it, ns, strs);
    SubParsed(it, strs);
  }

  lemma SubParsed(it: Items, strs: seq<byte>)
    requires it.Sub? && Begin(it.name, it.npad).Ok() && PropsFirst(it.body) && NoProps(it.rest)
    requires WellNested(it.body, true) && WellNested(it.rest, true)
    requires Resolved(it.body, strs) && Resolved(it.rest, strs)
    ensures NoProps(it) && WellNested(it, true) && Resolved(it, strs)
    ensures Toks(it) == [Begin(it.name, it.npad)] + (Toks(it.body) + ([EndNode] + Toks(it.rest)))
    ensures it.name == [] && it.rest == Done ==> TopLevel(it)
  {
  }

  lemma ReadableAt(ts: seq<Token>, strs: seq<byte>, i: nat)
    requires AllReadable(ts, strs) && i < |ts|
    ensures Readable(ts[i], strs)
  {
  }

  lemma OneNode(it: Items, ns: seq<Node>, strs: seq<byte>)
    requires it.Sub? && ns != [] && it.name == ns[0].name
    requires Props(it.body, strs) == ns[0].props && Kids(it.body, strs) == ns[0].children
    requires Kids(it.rest, strs) == ns[1..]
    ensures Kids(it, strs) == ns
  {
    assert ns == [ns[0]] + ns[1..];
  }

  // Relocating the names -----------------------------------------------------------------------------

  // A name offset counted from the front of a strings block of m bytes.
  function Reloc(t: Token, m: u32): Token {
    if t.Prop? then t.(nameOff := Add32(t.nameOff, m)) else t
  }

  function RelocAll(ts: seq<Token>, m: u32): (r: seq<Token>)
    ensures |r| == |ts| && forall i :: 0 <= i < |ts| ==> r[i] == Reloc(ts[i], m)
  {
    seq(|ts|, i requires 0 <= i < |ts| => Reloc(ts[i], m))
  }

  lemma RelocName(t: Token, strs: seq<byte>)
    requires Emittable(t, strs) && |strs| < 0x1_0000_0000
    ensures var t' := Reloc(t, |strs|);
            && Readable(t', strs)
            && CallAt(t', strs) == CallOf(t, strs)
            && (t.Prop? ==> Some(NameOf(strs, t'.nameOff)) == NameBack(strs, t.nameOff))
  {
    hide CStr, Token.Ok, Add32;
    RelocOk(t, |strs|);
    if t.Prop? {
      BackToFront(strs, t.nameOff);
    }
  }

  lemma RelocOk(t: Token, m: u32)
    requires t.Ok()
    ensures Reloc(t, m).Ok()
  {
    hide Add32;
  }

  // An offset from the end and the same place counted from the front.
  lemma BackToFront(strs: seq<byte>, nameOff: u32)
    requires NameBack(strs, nameOff).Some? && |strs| < 0x1_0000_0000
    ensures CStr(strs, Add32(nameOff, |strs|)) == NameBack(strs, nameOff)
  {
    hide CStr;
  }

  lemma {:induction false} CallsIndex(ts: seq<Token>, tail: seq<byte>, i: nat)
    requires i < |ts|
    ensures |Calls(ts, tail)| == |ts| && Calls(ts, tail)[i] == CallOf(ts[i], tail)
    decreases |ts|
  {
    hide CallOf;
    if i > 0 {
      CallsIndex(ts[1..], tail, i - 1);
    } else if |ts| > 1 {
      CallsIndex(ts[1..], tail, 0);
    }
  }

  // Relocation keeps every name, those shared with the end of another string included.
  lemma RelocCalls(ts: seq<Token>, strs: seq<byte>)
    requires AllEmittable(ts, strs) && |strs| < 0x1_0000_0000
    ensures AllReadable(RelocAll(ts, |strs|), strs)
    ensures CallsAt(RelocAll(ts, |strs|), strs) == Calls(ts, strs)
  {
    hide Emittable, Readable, CallAt, CallOf, Reloc;
    var r := RelocAll(ts, |strs|);
    CallsLength(ts, strs);
    forall i | 0 <= i < |ts| ensures Readable(r[i], strs) && Calls(ts, strs)[i] == CallAt(r[i], strs) {
      assert Emittable(ts[i], strs);
      RelocName(ts[i], strs);
      CallsIndex(ts, strs, i);
    }
  }

  lemma {:induction false} CallsLength(ts: seq<Token>, tail: seq<byte>)
    ensures |Calls(ts, tail)| == |ts|
  {
    hide CallOf;
    if ts != [] {
      CallsLength(ts[1..], tail);
    }
  }

  // The stream while the first k names have been relocated.
  ghost function Partly(ts: seq<Token>, k: nat, m: u32): (r: seq<Token>)
    requires k <= |ts|
    ensures |r| == |ts| + 1
    ensures forall i :: 0 <= i < |ts| ==> r[i] == if i < k then Reloc(ts[i], m) else ts[i]
    ensures r[|ts|] == End
  {
    RelocAll(ts[..k], m) + ts[k..] + [End]
  }

  lemma PartlyStart(ts: seq<Token>, m: u32)
    ensures Partly(ts, 0, m) == ts + [End]
  {
  }

  lemma PartlyDone(ts: seq<Token>, m: u32)
    ensures Partly(ts, |ts|, m) == RelocAll(ts, m) + [End]
  {
  }

  lemma PartlyStep(ts: seq<Token>, k: nat, m: u32)
    requires k < |ts|
    ensures Partly(ts, k + 1, m) == Splice(Partly(ts, k, m), k, k + 1, [Reloc(ts[k], m)])
  {
    SpliceOne(Partly(ts, k, m), k, Reloc(ts[k], m));
  }

  lemma PartlyOk(ts: seq<Token>, tail: seq<byte>, k: nat)
    requires AllEmittable(ts, tail) && k <= |ts| && |tail| < 0x1_0000_0000
    ensures AllOk(Partly(ts, k, |tail|))
  {
    hide Emittable;
    var r := Partly(ts, k, |tail|);
    forall i | 0 <= i < |r| ensures r[i].Ok() {
      if i < |ts| {
        assert Emittable(ts[i], tail);
        EmittableOk(ts[i], tail);
      }
    }
  }

  lemma EmittableOk(t: Token, tail: seq<byte>)
    requires Emittable(t, tail)
    ensures t.Ok() && Reloc(t, |tail| % 0x1_0000_0000).Ok() && !t.End? && !t.Nop?
  {
    hide NameBack;
  }

  // Rewriting the name offset in the bytes of a property.
  lemma NameOffStored(st: seq<byte>, p: nat, t: Token, nameOff: u32)
    requires t.Prop? && t.Ok() && At(st, p, t.Enc())
    ensures p + 12 <= p + |t.Enc()| <= |st| && Get32(st, p + 8) == t.nameOff
    ensures var t' := t.(nameOff := nameOff);
            && t'.Ok() && |t'.Enc()| == |t.Enc()|
            && Stored(st, p + 8, Put32(nameOff)) == Splice(st, p, p + |t.Enc()|, t'.Enc())
  {
    hide At, Put32, Get32, Splice, Token.Enc, Stored;
    EncLength(t);
    AtBound(st, p, t.Enc());
    var c2 := Put32(nameOff);
    var st' := Stored(st, p + 8, c2);
    PropParts(st, p, t);
    PropCells(st, p, t);
    EncPad(st, p, t);
    StoredElsewhere(st, p + 8, c2, p, Put32(PROP));
    StoredElsewhere(st, p + 8, c2, p + 4, Put32(|t.value|));
    StoredElsewhere(st, p + 8, c2, p + 12, t.value);
    StoredElsewhere(st, p + 8, c2, p + 12 + |t.value|, t.vpad);
    StoredAt(st, p + 8, c2);
    EncParts(st', p, nameOff, t.value, t.vpad);
    StoredEnds(st, p + 8, c2, p, p + |t.Enc()|);
    var t' := t.(nameOff := nameOff);
    EncLength(t');
    SplicedIs(st, st', p, p + |t.Enc()|, t'.Enc());
  }

  // One round of the loop, on the bytes of the structure block.
  lemma RelocStep(ts: seq<Token>, tail: seq<byte>, k: nat, st: seq<byte>)
    requires AllEmittable(ts, tail) && k < |ts| && |tail| < 0x1_0000_0000
    requires st == EncAll(Partly(ts, k, |tail|))
    ensures var cur := Partly(ts, k, |tail|);
            var p := Off(cur, k);
            && NextTag(st, p) == TagResult(ts[k].Tag(), Success(Off(cur, k + 1)))
            && Off(Partly(ts, k + 1, |tail|), k + 1) == Off(cur, k + 1)
            && (!ts[k].Prop? ==> EncAll(Partly(ts, k + 1, |tail|)) == st)
            && (ts[k].Prop? ==>
                  && p + 12 <= |st| && Get32(st, p + 8) == ts[k].nameOff
                  && EncAll(Partly(ts, k + 1, |tail|)) == Stored(st, p + 8, Put32(Add32(ts[k].nameOff, |tail|))))
  {
    hide EncAll, Off, NextTag, Token.Enc, Token.Ok, Stored, At, Put32, Get32, Partly, Add32, AllEmittable, Emittable;
    var m := |tail|;
    var cur := Partly(ts, k, m);
    var next := Partly(ts, k + 1, m);
    var p := Off(cur, k);
    var t := ts[k];
    WholeAt(st);
    PartlyOk(ts, tail, k);
    NextTagAt(st, cur, k);
    PartlyStep(ts, k, m);
    EncAllReplace(cur, k, k + 1, [Reloc(t, m)]);
    EncOne(Reloc(t, m));
    OffStep(cur, k);
    OffStep(next, k);
    SplicePrefix(cur, k, [Reloc(t, m)]);
    OffPrefix(cur, next, k);
    if t.Prop? {
      OkAt(cur, k);
      NameOffStored(st, p, t, Add32(t.nameOff, m));
    } else {
      assert next == cur;
    }
  }

  lemma OkAt(ts: seq<Token>, k: nat)
    requires AllOk(ts) && k < |ts|
    ensures ts[k].Ok()
  {
  }

  lemma SplicePrefix<T>(s: seq<T>, k: nat, mid: seq<T>)
    requires k < |s|
    ensures Splice(s, k, k + 1, mid)[..k] == s[..k]
  {
  }

  // The call ---------------------------------------------------------------------------------------------

  // The blob while the walk goes on: the strings are at their new place.
  ghost predicate Relocating(h: Header, mem: seq<byte>, ts: seq<Token>, k: nat, head: seq<byte>, tail: seq<byte>) {
    && OrderedIn(h, |mem|)
    && k <= |ts| && AllEmittable(ts, tail) && |tail| == h.sizeStrings
    && HeadOf(h, mem) == head
    && StringsOf(h, mem) == tail
    && StructOf(h, mem) == EncAll(Partly(ts, k, h.sizeStrings))
  }

  // The terminator has been written and the strings have been moved down.
  lemma StringsMoved(h: Header, mem: seq<byte>, mid: seq<byte>, mem': seq<byte>, ts: seq<Token>)
    requires Writing(h, mem, ts) && h.offStruct + h.sizeStruct + h.sizeStrings + 4 <= h.totalsize
    requires mid == Stored(mem, h.offStruct + h.sizeStruct, Put32(END))
    requires mem' == Moved(mid, h.offStruct + h.sizeStruct + 4, h.totalsize - h.sizeStrings, h.sizeStrings)
    ensures var h' := h.(sizeStruct := h.sizeStruct + 4, offStrings := h.offStruct + h.sizeStruct + 4);
            Relocating(h', mem', ts, 0, SwHead(h, mem), SwTail(h, mem))
  {
    hide EncAll, RsvCount, AllEmittable, Stored, Moved, Put32;
    var top, low := h.offStruct + h.sizeStruct, h.totalsize - h.sizeStrings;
    StoredBeside(mem, top, Put32(END), 0, h.offStruct);
    StoredBeside(mem, top, Put32(END), h.offStruct, top);
    StoredBeside(mem, top, Put32(END), low, h.totalsize);
    StoredWindow(mem, top, Put32(END));
    MovedBelow(mid, top + 4, low, h.sizeStrings, 0, h.offStruct);
    MovedBelow(mid, top + 4, low, h.sizeStrings, h.offStruct, top + 4);
    MovedWindow(mid, top + 4, low, h.sizeStrings, low, h.totalsize);
    assert mid[h.offStruct..top + 4] == mid[h.offStruct..top] + mid[top..top + 4];
    PartlyStart(ts, h.sizeStrings);
    EncAllConcat(ts, [End]);
    EncOne(End);
    EndEnc();
  }

  lemma EndEnc()
    ensures End.Enc() == Put32(END)
  {
  }

  lemma RelocatingStep(h: Header, mem: seq<byte>, ts: seq<Token>, k: nat, head: seq<byte>, tail: seq<byte>)
    requires Relocating(h, mem, ts, k, head, tail) && k < |ts|
    ensures var st := StructOf(h, mem);
            var cur := Partly(ts, k, h.sizeStrings);
            var p := Off(cur, k);
            && NextTag(st, p) == TagResult(ts[k].Tag(), Success(Off(cur, k + 1)))
            && Off(Partly(ts, k + 1, h.sizeStrings), k + 1) == Off(cur, k + 1)
            && (!ts[k].Prop? ==> Relocating(h, mem, ts, k + 1, head, tail))
            && (ts[k].Prop? ==>
                  && p + 12 <= h.sizeStruct == |st| && Get32(st, p + 8) == ts[k].nameOff
                  && Relocating(h, Stored(mem, h.offStruct + p + 8, Put32(Add32(ts[k].nameOff, h.sizeStrings))), ts,
                                k + 1, head, tail))
    ensures ts[k].Tag() != END && (ts[k].Tag() == PROP <==> ts[k].Prop?)
  {
    hide EncAll, AllEmittable, Stored, Put32, Get32, NextTag, Off, Partly, Add32, HeadOf, StringsOf, StructOf;
    var st := StructOf(h, mem);
    RelocStep(ts, tail, k, st);
    StructSize(h, mem);
    NoEndTag(ts, tail, k);
    var p := Off(Partly(ts, k, h.sizeStrings), k);
    if ts[k].Prop? {
      StoreInStruct(h, mem, p + 8, Put32(Add32(ts[k].nameOff, h.sizeStrings)));
    }
  }

  lemma NoEndTag(ts: seq<Token>, tail: seq<byte>, k: nat)
    requires AllEmittable(ts, tail) && k < |ts|
    ensures ts[k].Tag() != END && (ts[k].Tag() == PROP <==> ts[k].Prop?)
  {
    assert Emittable(ts[k], tail);
  }

  lemma RelocatingEnd(h: Header, mem: seq<byte>, ts: seq<Token>, head: seq<byte>, tail: seq<byte>)
    requires Relocating(h, mem, ts, |ts|, head, tail)
    ensures NextTag(StructOf(h, mem), Off(Partly(ts, |ts|, h.sizeStrings), |ts|)).tag == END
    ensures NextTag(StructOf(h, mem), Off(Partly(ts, |ts|, h.sizeStrings), |ts|)).next.Success?
  {
    hide EncAll, AllEmittable, Get32, NextTag, Off, Partly, Add32;
    var cur := Partly(ts, |ts|, h.sizeStrings);
    PartlyOk(ts, tail, |ts|);
    WholeAt(StructOf(h, mem));
    NextTagAt(StructOf(h, mem), cur, |ts|);
  }

  // The loop that corrects the string offsets
  method RelocateNames(fdt: Blob, ghost ts: seq<Token>, ghost head: seq<byte>, ghost tail: seq<byte>)
    returns (r: Result<()>)
    requires Relocating(fdt.hdr, fdt.buf[..], ts, 0, head, tail)
    modifies fdt.buf
    ensures r == Success(()) && Relocating(fdt.hdr, fdt.buf[..], ts, |ts|, head, tail)
  {
    hide EncAll, AllEmittable, Stored, Put32, Get32, NextTag, Off, Partly, Add32, HeadOf, StringsOf, StructOf, RelocAll,
      Relocating;
    var h := fdt.hdr;
    RelocatingOrdered(h, fdt.buf[..], ts, 0, head, tail);
    var offset := 0;
    ghost var k := 0;
    NoOffset(Partly(ts, 0, h.sizeStrings));
    ReadableStruct(fdt);
    AtTag(h, fdt.buf[..], ts, 0, head, tail);
    var tag, next := NextTagOf(fdt, offset);
    while tag != END
      invariant k <= |ts| && Relocating(h, fdt.buf[..], ts, k, head, tail)
      invariant offset == Off(Partly(ts, k, h.sizeStrings), k)
      invariant TagResult(tag, next) == NextTag(StructOf(h, fdt.buf[..]), offset)
      invariant k == |ts| ==> tag == END && next.Success?
      invariant k < |ts| ==> tag == ts[k].Tag() && tag != END
      decreases |ts| - k
    {
      RelocatingStep(h, fdt.buf[..], ts, k, head, tail);
      if tag == PROP {
        var nameoff := Get32(fdt.StructBlock(), offset + 8);
        Memcpy(fdt.buf, h.offStruct + offset + 8, Put32(Add32(nameoff, h.sizeStrings)));
      }
      k := k + 1;
      offset := next.value;
      ReadableStruct(fdt);
      AtTag(h, fdt.buf[..], ts, k, head, tail);
      tag, next := NextTagOf(fdt, offset);
    }
    match next {
      case Failure(e) => return Failure(e);
      case Success(_) => return Success(());
    }
  }

  lemma RelocatingOrdered(h: Header, mem: seq<byte>, ts: seq<Token>, k: nat, head: seq<byte>, tail: seq<byte>)
    requires Relocating(h, mem, ts, k, head, tail)
    ensures OrderedIn(h, |mem|) && |tail| == h.sizeStrings
  {
  }

  lemma NoOffset(ts: seq<Token>)
    ensures Off(ts, 0) == 0
  {
  }

  // The tag the walk reads at token k.
  lemma AtTag(h: Header, mem: seq<byte>, ts: seq<Token>, k: nat, head: seq<byte>, tail: seq<byte>)
    requires Relocating(h, mem, ts, k, head, tail)
    ensures k <= |ts| && OrderedIn(h, |mem|)
    ensures var t := NextTag(StructOf(h, mem), Off(Partly(ts, k, h.sizeStrings), k));
            if k == |ts| then t.tag == END && t.next.Success? else t.tag == ts[k].Tag() && t.tag != END
  {
    hide EncAll, AllEmittable, NextTag, Off, Partly, HeadOf, StringsOf, StructOf, Relocating;
    RelocatingOrdered(h, mem, ts, k, head, tail);
    RelocatingIndex(h, mem, ts, k, head, tail);
    if k == |ts| {
      RelocatingEnd(h, mem, ts, head, tail);
    } else {
      RelocatingStep(h, mem, ts, k, head, tail);
    }
  }

  lemma RelocatingIndex(h: Header, mem: seq<byte>, ts: seq<Token>, k: nat, head: seq<byte>, tail: seq<byte>)
    requires Relocating(h, mem, ts, k, head, tail)
    ensures k <= |ts|
  {
  }

  // What fdt_finish leaves: a complete blob with the tokens written, their names counted from the
  // front of the strings, and nothing between the blocks.
  ghost predicate Completed(h: Header, mem: seq<byte>, ts: seq<Token>, h': Header, mem': seq<byte>) {
    && Writing(h, mem, ts)
    && OrderedIn(h', |mem'|)
    && h' == h.(magic := FDT_MAGIC, lastComp := LAST_COMPATIBLE_VERSION, sizeStruct := h'.sizeStruct,
                offStrings := h.offStruct + h'.sizeStruct, totalsize := h.offStruct + h'.sizeStruct + h.sizeStrings)
    && HeadOf(h', mem') == SwHead(h, mem)
    && StringsOf(h', mem') == SwTail(h, mem)
    && StructOf(h', mem') == EncAll(RelocAll(ts, h.sizeStrings) + [End])
  }

  lemma CompletedFrom(h: Header, mem: seq<byte>, ts: seq<Token>, h1: Header, mem': seq<byte>)
    requires Writing(h, mem, ts) && Relocating(h1, mem', ts, |ts|, SwHead(h, mem), SwTail(h, mem))
    requires h1 == h.(sizeStruct := h1.sizeStruct, offStrings := h.offStruct + h1.sizeStruct)
    ensures h1.offStrings + h1.sizeStrings <= h1.totalsize
    ensures Completed(h, mem, ts, h1.(totalsize := h1.offStrings + h1.sizeStrings, lastComp := LAST_COMPATIBLE_VERSION,
                                      magic := FDT_MAGIC), mem')
  {
    hide EncAll, AllEmittable, RsvCount, RelocAll, Partly;
    PartlyDone(ts, h.sizeStrings);
  }

  // A complete blob whose tokens stand for the calls of a tree holds that tree.
  lemma CompletedTree(h: Header, mem: seq<byte>, ts: seq<Token>, h': Header, mem': seq<byte>, tree: seq<Node>)
    returns (shape: Items)
    requires Completed(h, mem, ts, h', mem') && Written(h, mem, ts) == EmitAll(tree)
    ensures var im := Image(h', mem', shape);
            im.Valid() && im.Tree() == tree
    ensures |tree| == 1 && tree[0].name == [] ==> TopLevel(shape)
  {
    hide EncAll, AllEmittable, RsvCount, RelocAll, HeadOf, StringsOf, StructOf, Calls, EmitAll, AllReadable, CallsAt,
      SwHead;
    var strs := SwTail(h, mem);
    RelocCalls(ts, strs);
    shape := ParseNodes(RelocAll(ts, |strs|), tree, strs);
  }

  // fdt_finish: if the calls so far are those of a tree, the blob holds exactly that tree.
  method FinishBlob(fdt: Blob, ghost tree: seq<Node>) returns (r: Result<()>)
    requires StructProbe(fdt.hdr).Success? ==> Writing(fdt.hdr, fdt.buf[..], fdt.toks)
    modifies fdt, fdt.buf
    ensures StructProbe(old(fdt.hdr)).Failure? ==> r == StructProbe(old(fdt.hdr))
    ensures StructProbe(old(fdt.hdr)).Success? ==>
              r == if old(fdt.hdr.offStruct + fdt.hdr.sizeStruct + fdt.hdr.sizeStrings) + 4 > old(fdt.hdr.totalsize)
                   then Failure(NoSpace) else Success(())
    ensures r.Failure? ==> fdt.hdr == old(fdt.hdr) && fdt.buf[..] == old(fdt.buf[..])
    ensures r.Success? ==>
              && Completed(old(fdt.hdr), old(fdt.buf[..]), old(fdt.toks), fdt.hdr, fdt.buf[..])
              && fdt.hdr.totalsize == old(fdt.hdr.offStruct + fdt.hdr.sizeStruct + fdt.hdr.sizeStrings) + 4
              && (old(Written(fdt.hdr, fdt.buf[..], fdt.toks)) == EmitAll(tree) ==>
                    && fdt.Valid() && fdt.Img().Tree() == tree
                    && (|tree| == 1 && tree[0].name == [] ==> TopLevel(fdt.shape)))
  {
    hide EncAll, AllEmittable, RsvCount, Stored, Moved, Put32, Writing, Apart, Relocating, Completed, EmitAll, Written,
      TopLevel, SwHead, SwTail, SwStruct, Image.Valid, Image.Tree;
    var probe := StructProbe(fdt.hdr);
    if probe.Failure? {
      return probe;
    }
    ghost var h, mem, ts := fdt.hdr, fdt.buf[..], fdt.toks;
    WritingApart(h, mem, ts);
    var end := GrabSpace(fdt, TAG_SIZE);
    if end.None? {
      return Failure(NoSpace);
    }
    Memcpy(fdt.buf, fdt.hdr.offStruct + end.value, Put32(END));
    var oldstroffset := fdt.hdr.totalsize - fdt.hdr.sizeStrings;
    var newstroffset := fdt.hdr.offStruct + fdt.hdr.sizeStruct;
    ghost var mid := fdt.buf[..];
    Memmove(fdt.buf, newstroffset, oldstroffset, fdt.hdr.sizeStrings);
    fdt.hdr := fdt.hdr.(offStrings := newstroffset);
    StringsMoved(h, mem, mid, fdt.buf[..], ts);
    r := RelocateNames(fdt, ts, SwHead(h, mem), SwTail(h, mem));
    CompletedFrom(h, mem, ts, fdt.hdr, fdt.buf[..]);
    fdt.hdr := fdt.hdr.(totalsize := newstroffset + fdt.hdr.sizeStrings);
    fdt.hdr := fdt.hdr.(lastComp := LAST_COMPATIBLE_VERSION);
    fdt.hdr := fdt.hdr.(magic := FDT_MAGIC);
    if Written(h, mem, ts) == EmitAll(tree) {
      fdt.shape := CompletedTree(h, mem, ts, fdt.hdr, fdt.buf[..], tree);
    }
  }
}
