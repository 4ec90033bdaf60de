// Writing a whole tree with the calls of the sequential writer, in tree order.
module RoundTrip {
  import opened Bytes
  import opened Tokens
  import opened Structure
  import opened Memory
  import opened Blobs
  import opened Editor
  import opened Reservations
  import opened Check
  import opened Writer
  import opened MergeSpace
  import opened Finish
  import opened Packing
  import opened Strings

  // Names and values the calls accept.
  predicate Writable(ns: seq<Node>) {
    forall i :: 0 <= i < |ns| ==>
      && NoNul(ns[i].name) && |ns[i].name| <= MAX_LEN
      && (forall j :: 0 <= j < |ns[i].props| ==> WritableProp(ns[i].props[j]))
      && Writable(ns[i].children)
  }

  predicate WritableProp(p: Structure.Property) {
    NoNul(p.name) && |p.name| <= MAX_LEN && |p.value| <= MAX_LEN
  }

  // What a run of calls comes to: the end of the structure and the strings afterwards; no more room; or a string
  // that is written in front of the buffer.
  datatype Plan = Fits(top: nat, tail: seq<byte>) | Full | Outside

  // One call, on a structure that ends at top and with the strings tail; names are shared if a string holds them.
  function PlanCall(total: nat, share: bool, top: nat, tail: seq<byte>, c: Call): Plan {
    match c
    case Opened(name) => PlanSpace(total, top, tail, 4 + Align4(|name| + 1))
    case Closed => PlanSpace(total, top, tail, 4)
    case Put(name, value) =>
      if share && FindStr(tail, 0, name).Some? then PlanSpace(total, top, tail, 12 + Align4(|value|))
      else if |tail| + |name| + 1 > total then Outside
      else PlanSpace(total, top, (name + [0]) + tail, 12 + Align4(|value|))
  }

  function PlanSpace(total: nat, top: nat, tail: seq<byte>, len: nat): Plan {
    if top + len + |tail| > total then Full else Fits(top + len, tail)
  }

  function PlanAll(total: nat, share: bool, top: nat, tail: seq<byte>, cs: seq<Call>): Plan
    decreases |cs|
  {
    if cs == [] then Fits(top, tail)
    else
      match PlanCall(total, share, top, tail, cs[0])
      case Fits(t, l) => PlanAll(total, share, t, l, cs[1..])
      case stop => stop
  }

  lemma {:induction false} PlanConcat(total: nat, share: bool, top: nat, tail: seq<byte>, cs: seq<Call>, ds: seq<Call>)
    ensures PlanAll(total, share, top, tail, cs + ds)
         == match PlanAll(total, share, top, tail, cs)
            case Fits(t, l) => PlanAll(total, share, t, l, ds)
            case stop => stop
    decreases |cs|
  {
    hide PlanCall;
    if cs == [] {
      assert cs + ds == ds;
    } else {
      assert (cs + ds)[1..] == cs[1..] + ds;
      var step := PlanCall(total, share, top, tail, cs[0]);
      if step.Fits? {
        PlanConcat(total, share, step.top, step.tail, cs[1..], ds);
      }
    }
  }

  // The room for the calls when every name needs its own string.
  function CallsRoom(cs: seq<Call>): nat {
    if cs == [] then 0
    else
      (match cs[0]
       case Opened(name) => 4 + Align4(|name| + 1)
       case Closed => 4
       case Put(name, value) => 12 + Align4(|value|) + |name| + 1)
      + CallsRoom(cs[1..])
  }

  // Where there is that room, the calls fit; if names are not shared they take all of it.
  lemma {:induction false} PlanRoom(total: nat, share: bool, top: nat, tail: seq<byte>, cs: seq<Call>)
    requires top + |tail| <= total
    ensures var plan, room := PlanAll(total, share, top, tail, cs), CallsRoom(cs);
            && (top + |tail| + room <= total ==> plan.Fits?)
            && (plan.Fits? ==> plan.top + |plan.tail| <= top + |tail| + room && plan.top + |plan.tail| <= total)
            && (plan.Fits? && !share ==> plan.top + |plan.tail| == top + |tail| + room)
    decreases |cs|
  {
    hide FindStr;
    if cs != [] {
      var step := PlanCall(total, share, top, tail, cs[0]);
      if step.Fits? {
        PlanRoom(total, share, step.top, step.tail, cs[1..]);
      }
    }
  }

  // The bytes that the calls write into the structure block.
  function StructRoom(cs: seq<Call>): nat {
    if cs == [] then 0
    else
      (match cs[0]
       case Opened(name) => 4 + Align4(|name| + 1)
       case Closed => 4
       case Put(_, value) => 12 + Align4(|value|))
      + StructRoom(cs[1..])
  }

  // The strings that they leave: each name in front of the others, unless it is shared and ends one of them.
  function Table(share: bool, tail: seq<byte>, cs: seq<Call>): seq<byte>
    decreases |cs|
  {
    if cs == [] then tail
    else
      match cs[0]
      case Put(name, _) =>
        if share && FindStr(tail, 0, name).Some? then Table(share, tail, cs[1..])
        else Table(share, (name + [0]) + tail, cs[1..])
      case _ => Table(share, tail, cs[1..])
  }

  // The calls fit exactly if what they leave does: nothing in between takes more.
  lemma {:induction false} PlanExact(total: nat, share: bool, top: nat, tail: seq<byte>, cs: seq<Call>)
    requires top + |tail| <= total
    ensures |tail| <= |Table(share, tail, cs)|
    ensures PlanAll(total, share, top, tail, cs).Fits?
            <==> top + StructRoom(cs) + |Table(share, tail, cs)| <= total
    ensures PlanAll(total, share, top, tail, cs).Fits? ==>
              PlanAll(total, share, top, tail, cs) == Fits(top + StructRoom(cs), Table(share, tail, cs))
    decreases |cs|
  {
    hide FindStr;
    if cs != [] {
      var step := PlanCall(total, share, top, tail, cs[0]);
      TableGrows(share, NextTable(share, tail, cs[0]), cs[1..]);
      if step.Fits? {
        PlanExact(total, share, step.top, step.tail, cs[1..]);
      }
    }
  }

  function NextTable(share: bool, tail: seq<byte>, c: Call): seq<byte> {
    if c.Put? && !(share && FindStr(tail, 0, c.name).Some?) then (c.name + [0]) + tail else tail
  }

  lemma {:induction false} TableGrows(share: bool, tail: seq<byte>, cs: seq<Call>)
    ensures |tail| <= |Table(share, tail, cs)|
    decreases |cs|
  {
    hide FindStr;
    if cs != [] {
      TableGrows(share, NextTable(share, tail, cs[0]), cs[1..]);
    }
  }

  lemma {:induction false} StructRoomConcat(cs: seq<Call>, ds: seq<Call>)
    ensures StructRoom(cs + ds) == StructRoom(cs) + StructRoom(ds)
    decreases |cs|
  {
    if cs == [] {
      assert cs + ds == ds;
    } else {
      assert (cs + ds)[1..] == cs[1..] + ds;
      StructRoomConcat(cs[1..], ds);
    }
  }

  lemma {:induction false} PropsStructRoom(ps: seq<Structure.Property>)
    ensures StructRoom(EmitProps(ps)) == PropsSize(ps)
    decreases |ps|
  {
    if ps != [] {
      PropsStructRoom(ps[1..]);
      assert EmitProps(ps)[1..] == EmitProps(ps[1..]);
    }
  }

  lemma {:induction false} NodeStructRoom(n: Node)
    ensures StructRoom(EmitNode(n)) == TreeSize(n)
    decreases n, 0
  {
    hide EmitAll, EmitProps;
    PropsStructRoom(n.props);
    NodesStructRoom(n.children);
    OneStructRoom(n.name);
    StructRoomConcat([Opened(n.name)], EmitProps(n.props) + (EmitAll(n.children) + [Closed]));
    StructRoomConcat(EmitProps(n.props), EmitAll(n.children) + [Closed]);
    StructRoomConcat(EmitAll(n.children), [Closed]);
  }

  lemma OneStructRoom(name: seq<byte>)
    ensures StructRoom([Opened(name)]) == 4 + Align4(|name| + 1) && StructRoom([Closed]) == 4
  {
    assert [Opened(name)][1..] == [] && [Closed][1..] == [] && StructRoom([]) == 0;
  }

  lemma {:induction false} NodesStructRoom(ns: seq<Node>)
    ensures StructRoom(EmitAll(ns)) == KidsSize(ns)
    decreases ns, 1
  {
    hide EmitAll, EmitNode, TreeSize;
    NodesParts(ns);
    if ns != [] {
      NodeStructRoom(ns[0]);
      NodesStructRoom(ns[1..]);
      StructRoomConcat(EmitNode(ns[0]), EmitAll(ns[1..]));
    }
  }

  function Share(h: Header): bool {
    h.lastComp % 2 != NO_NAME_DEDUP
  }

  function PlanFrom(h: Header, mem: seq<byte>, cs: seq<Call>): Plan
    requires Apart(h, |mem|)
  {
    PlanAll(h.totalsize, Share(h), h.offStruct + h.sizeStruct, SwTail(h, mem), cs)
  }

  // How the calls end, from this state on.
  ghost predicate Ends(h: Header, mem: seq<byte>, cs: seq<Call>, success: bool, outside: bool) {
    Apart(h, |mem|) && var plan := PlanFrom(h, mem, cs); (success <==> plan.Fits?) && (outside <==> plan.Outside?)
  }

  // The writer's state has grown by these calls, as planned.
  ghost predicate Grown(h: Header, mem: seq<byte>, ts: seq<Token>, h': Header, mem': seq<byte>, ts': seq<Token>,
                        cs: seq<Call>) {
    && Writing(h, mem, ts) && Writing(h', mem', ts')
    && Written(h', mem', ts') == Written(h, mem, ts) + cs
    && SwHead(h', mem') == SwHead(h, mem)
    && h'.offRsv == h.offRsv && h'.totalsize == h.totalsize && h'.lastComp == h.lastComp
    && PlanFrom(h, mem, cs) == Fits(h'.offStruct + h'.sizeStruct, SwTail(h', mem'))
  }

  lemma GrownNone(h: Header, mem: seq<byte>, ts: seq<Token>)
    requires Writing(h, mem, ts)
    ensures Grown(h, mem, ts, h, mem, ts, [])
  {
  }

  lemma GrownMore(h: Header, mem: seq<byte>, ts: seq<Token>, h1: Header, mem1: seq<byte>, ts1: seq<Token>,
                  h2: Header, mem2: seq<byte>, ts2: seq<Token>, cs: seq<Call>, ds: seq<Call>)
    requires Grown(h, mem, ts, h1, mem1, ts1, cs) && Grown(h1, mem1, ts1, h2, mem2, ts2, ds)
    ensures Grown(h, mem, ts, h2, mem2, ts2, cs + ds)
  {
    hide Writing, Written, SwHead, SwTail, Apart, PlanAll;
    GrownApart(h, mem, ts, h1, mem1, ts1, cs);
    GrownApart(h1, mem1, ts1, h2, mem2, ts2, ds);
    assert (Written(h, mem, ts) + cs) + ds == Written(h, mem, ts) + (cs + ds);
    PlanConcat(h.totalsize, Share(h), h.offStruct + h.sizeStruct, SwTail(h, mem), cs, ds);
  }

  lemma GrownApart(h: Header, mem: seq<byte>, ts: seq<Token>, h': Header, mem': seq<byte>, ts': seq<Token>,
                   cs: seq<Call>)
    requires Grown(h, mem, ts, h', mem', ts', cs)
    ensures Apart(h, |mem|) && Apart(h', |mem'|) && Writing(h', mem', ts') && Ends(h, mem, cs, true, false)
  {
    hide PlanAll;
  }

  // Calls after others, and calls that are not made any more.
  lemma EndsMore(h: Header, mem: seq<byte>, ts: seq<Token>, h1: Header, mem1: seq<byte>, ts1: seq<Token>,
                 cs: seq<Call>, ds: seq<Call>, success: bool, outside: bool)
    requires Grown(h, mem, ts, h1, mem1, ts1, cs) && Ends(h1, mem1, ds, success, outside)
    ensures Ends(h, mem, cs + ds, success, outside)
  {
    hide Writing, Written, SwHead, SwTail, Apart, PlanAll;
    GrownApart(h, mem, ts, h1, mem1, ts1, cs);
    PlanConcat(h.totalsize, Share(h), h.offStruct + h.sizeStruct, SwTail(h, mem), cs, ds);
  }

  lemma EndsEarly(h: Header, mem: seq<byte>, cs: seq<Call>, ds: seq<Call>, outside: bool)
    requires Ends(h, mem, cs, false, outside)
    ensures Ends(h, mem, cs + ds, false, outside)
  {
    hide SwTail, Apart, PlanAll;
    PlanConcat(h.totalsize, Share(h), h.offStruct + h.sizeStruct, SwTail(h, mem), cs, ds);
  }

  lemma PlanOne(h: Header, mem: seq<byte>, c: Call)
    requires Apart(h, |mem|)
    ensures PlanFrom(h, mem, [c]) == PlanCall(h.totalsize, Share(h), h.offStruct + h.sizeStruct, SwTail(h, mem), c)
  {
    hide Apart, SwTail, PlanCall;
    OneCall(h.totalsize, Share(h), h.offStruct + h.sizeStruct, SwTail(h, mem), c);
  }

  lemma OneCall(total: nat, share: bool, top: nat, tail: seq<byte>, c: Call)
    ensures PlanAll(total, share, top, tail, [c]) == PlanCall(total, share, top, tail, c)
  {
    hide PlanCall;
    var step := PlanCall(total, share, top, tail, c);
    assert [c][1..] == [];
    if step.Fits? {
      assert PlanAll(total, share, step.top, step.tail, []) == step;
    }
  }

  lemma ExtendsGrown(h: Header, mem: seq<byte>, ts: seq<Token>, h': Header, mem': seq<byte>, ts': seq<Token>, c: Call)
    requires Extends(h, mem, ts, h', mem', ts', c) && Apart(h, |mem|) && Apart(h', |mem'|)
    requires PlanCall(h.totalsize, Share(h), h.offStruct + h.sizeStruct, SwTail(h, mem), c)
          == Fits(h'.offStruct + h'.sizeStruct, SwTail(h', mem'))
    ensures Grown(h, mem, ts, h', mem', ts', [c])
  {
    hide Writing, Written, SwTail, PlanCall;
    PlanOne(h, mem, c);
  }

  lemma TailSize(h: Header, mem: seq<byte>)
    requires Apart(h, |mem|)
    ensures |SwTail(h, mem)| == h.sizeStrings
  {
  }

  // One property. The driver stops where the call would write in front of the buffer.
  method WriteProp(fdt: Blob, p: Structure.Property) returns (r: Result<()>, outside: bool)
    requires Writing(fdt.hdr, fdt.buf[..], fdt.toks) && WritableProp(p)
    modifies fdt`hdr, fdt`toks, fdt.buf
    ensures Ends(old(fdt.hdr), old(fdt.buf[..]), [Put(p.name, p.value)], r.Success?, outside)
    ensures r.Success? ==>
              Grown(old(fdt.hdr), old(fdt.buf[..]), old(fdt.toks), fdt.hdr, fdt.buf[..], fdt.toks,
                    [Put(p.name, p.value)])
  {
    hide Writing, Grown, Extends, Apart, SameLive, Written, SwTail, FindStr;
    ghost var h, mem, ts := fdt.hdr, fdt.buf[..], fdt.toks;
    WritingApart(h, mem, ts);
    BeginProbe(h, mem, ts);
    TailSize(h, mem);
    PlanOne(h, mem, Put(p.name, p.value));
    if !StringStays(fdt.hdr, fdt.buf[..], p.name) {
      return Failure(NoSpace), true;
    }
    outside := false;
    r := PropertyCall(fdt, p.name, p.value);
    if r.Success? {
      ExtendsHeader(h, mem, ts, fdt.hdr, fdt.buf[..], fdt.toks, Put(p.name, p.value));
      TailSize(fdt.hdr, fdt.buf[..]);
      ExtendsGrown(h, mem, ts, fdt.hdr, fdt.buf[..], fdt.toks, Put(p.name, p.value));
    }
  }

  // The properties of one node, in order
  method WriteProps(fdt: Blob, ps: seq<Structure.Property>) returns (r: Result<()>, outside: bool)
    requires Writing(fdt.hdr, fdt.buf[..], fdt.toks)
    requires forall j :: 0 <= j < |ps| ==> WritableProp(ps[j])
    modifies fdt`hdr, fdt`toks, fdt.buf
    ensures Ends(old(fdt.hdr), old(fdt.buf[..]), EmitProps(ps), r.Success?, outside)
    ensures r.Success? ==>
              Grown(old(fdt.hdr), old(fdt.buf[..]), old(fdt.toks), fdt.hdr, fdt.buf[..], fdt.toks, EmitProps(ps))
  {
    hide Writing, Grown, Written, EmitProps, WritableProp, Ends;
    ghost var h, mem, ts := fdt.hdr, fdt.buf[..], fdt.toks;
    GrownNone(h, mem, ts);
    assert EmitProps(ps[..0]) == [] by { EmitPropsNone(ps); }
    var i := 0;
    while i < |ps|
      invariant 0 <= i <= |ps|
      invariant Grown(h, mem, ts, fdt.hdr, fdt.buf[..], fdt.toks, EmitProps(ps[..i]))
    {
      ghost var h1, mem1, ts1 := fdt.hdr, fdt.buf[..], fdt.toks;
      GrownApart(h, mem, ts, h1, mem1, ts1, EmitProps(ps[..i]));
      EmitPropsSnoc(ps, i);
      r, outside := WriteProp(fdt, ps[i]);
      EndsMore(h, mem, ts, h1, mem1, ts1, EmitProps(ps[..i]), [Put(ps[i].name, ps[i].value)], r.Success?, outside);
      if r.Failure? {
        EndsEarly(h, mem, EmitProps(ps[..i + 1]), EmitProps(ps[i + 1..]), outside);
        return;
      }
      GrownMore(h, mem, ts, h1, mem1, ts1, fdt.hdr, fdt.buf[..], fdt.toks, EmitProps(ps[..i]),
                [Put(ps[i].name, ps[i].value)]);
      i := i + 1;
    }
    assert ps[..i] == ps;
    GrownApart(h, mem, ts, fdt.hdr, fdt.buf[..], fdt.toks, EmitProps(ps));
    return Success(()), false;
  }

  lemma EmitPropsNone(ps: seq<Structure.Property>)
    ensures EmitProps(ps[..0]) == []
  {
  }

  lemma EmitPropsSnoc(ps: seq<Structure.Property>, i: nat)
    requires i < |ps|
    ensures EmitProps(ps[..i + 1]) == EmitProps(ps[..i]) + [Put(ps[i].name, ps[i].value)]
    ensures EmitProps(ps[..i + 1]) + EmitProps(ps[i + 1..]) == EmitProps(ps)
  {
  }

  lemma ExtendsHeader(h: Header, mem: seq<byte>, ts: seq<Token>, h': Header, mem': seq<byte>, ts': seq<Token>, c: Call)
    requires Extends(h, mem, ts, h', mem', ts', c)
    ensures h'.totalsize == h.totalsize && h'.lastComp == h.lastComp && h'.offStruct == h.offStruct
    ensures Apart(h, |mem|) && Apart(h', |mem'|)
  {
    hide Written, EncAll, RsvCount, AllEmittable;
  }

  // A run of sibling nodes with all that is in them
  method WriteNodes(fdt: Blob, ns: seq<Node>) returns (r: Result<()>, outside: bool)
    requires Writing(fdt.hdr, fdt.buf[..], fdt.toks) && Writable(ns)
    modifies fdt`hdr, fdt`toks, fdt.buf
    ensures Ends(old(fdt.hdr), old(fdt.buf[..]), EmitAll(ns), r.Success?, outside)
    ensures r.Success? ==>
              Grown(old(fdt.hdr), old(fdt.buf[..]), old(fdt.toks), fdt.hdr, fdt.buf[..], fdt.toks, EmitAll(ns))
    decreases ns, 1
  {
    hide Writing, Grown, Written, EmitProps, Apart, EmitAll, Writable, Ends;
    ghost var h, mem, ts := fdt.hdr, fdt.buf[..], fdt.toks;
    GrownNone(h, mem, ts);
    GrownApart(h, mem, ts, h, mem, ts, []);
    NodesParts(ns);
    if ns == [] {
      return Success(()), false;
    }
    WritableParts(ns);
    r, outside := WriteNode(fdt, ns[0]);
    if r.Failure? {
      EndsEarly(h, mem, EmitNode(ns[0]), EmitAll(ns[1..]), outside);
      return;
    }
    ghost var h1, mem1, ts1 := fdt.hdr, fdt.buf[..], fdt.toks;
    GrownApart(h, mem, ts, h1, mem1, ts1, EmitNode(ns[0]));
    r, outside := WriteNodes(fdt, ns[1..]);
    EndsMore(h, mem, ts, h1, mem1, ts1, EmitNode(ns[0]), EmitAll(ns[1..]), r.Success?, outside);
    if r.Success? {
      GrownMore(h, mem, ts, h1, mem1, ts1, fdt.hdr, fdt.buf[..], fdt.toks, EmitNode(ns[0]), EmitAll(ns[1..]));
    }
  }

  // The calls of one node.
  ghost function EmitNode(n: Node): seq<Call> {
    [Opened(n.name)] + (EmitProps(n.props) + (EmitAll(n.children) + [Closed]))
  }

  lemma NodesParts(ns: seq<Node>)
    ensures EmitAll(ns) == if ns == [] then [] else EmitNode(ns[0]) + EmitAll(ns[1..])
  {
    hide EmitProps;
    if ns != [] {
      var n := ns[0];
      RegroupTail([Opened(n.name)], EmitProps(n.props), EmitAll(n.children), [Closed], EmitAll(ns[1..]));
    }
  }

  lemma WritableParts(ns: seq<Node>)
    requires Writable(ns) && ns != []
    ensures NoNul(ns[0].name) && |ns[0].name| <= MAX_LEN
    ensures forall j :: 0 <= j < |ns[0].props| ==> WritableProp(ns[0].props[j])
    ensures Writable(ns[0].children) && Writable(ns[1..])
  {
    hide WritableProp, NoNul;
  }

  method WriteNode(fdt: Blob, n: Node) returns (r: Result<()>, outside: bool)
    requires Writing(fdt.hdr, fdt.buf[..], fdt.toks) && Writable(n.children)
    requires NoNul(n.name) && |n.name| <= MAX_LEN && forall j :: 0 <= j < |n.props| ==> WritableProp(n.props[j])
    modifies fdt`hdr, fdt`toks, fdt.buf
    ensures Ends(old(fdt.hdr), old(fdt.buf[..]), EmitNode(n), r.Success?, outside)
    ensures r.Success? ==>
              Grown(old(fdt.hdr), old(fdt.buf[..]), old(fdt.toks), fdt.hdr, fdt.buf[..], fdt.toks, EmitNode(n))
    decreases n, 0
  {
    hide Writing, Grown, Extends, Apart, Written, EmitProps, EmitAll, Writable, Ends;
    ghost var h, mem, ts := fdt.hdr, fdt.buf[..], fdt.toks;
    ghost var a, b, c, d := [Opened(n.name)], EmitProps(n.props), EmitAll(n.children), [Closed];
    r := OpenNode(fdt, n.name);
    outside := false;
    if r.Failure? {
      EndsEarly(h, mem, a, b + (c + d), false);
      return;
    }
    ghost var h1, mem1, ts1 := fdt.hdr, fdt.buf[..], fdt.toks;
    GrownApart(h, mem, ts, h1, mem1, ts1, a);
    r, outside := WriteProps(fdt, n.props);
    if r.Failure? {
      EndsEarly(h1, mem1, b, c + d, outside);
      EndsMore(h, mem, ts, h1, mem1, ts1, a, b + (c + d), false, outside);
      return;
    }
    ghost var h2, mem2, ts2 := fdt.hdr, fdt.buf[..], fdt.toks;
    GrownApart(h1, mem1, ts1, h2, mem2, ts2, b);
    GrownMore(h, mem, ts, h1, mem1, ts1, h2, mem2, ts2, a, b);
    assert a + (b + (c + d)) == (a + b) + (c + d);
    r, outside := WriteNodes(fdt, n.children);
    if r.Failure? {
      EndsEarly(h2, mem2, c, d, outside);
      EndsMore(h, mem, ts, h2, mem2, ts2, a + b, c + d, false, outside);
      return;
    }
    ghost var h3, mem3, ts3 := fdt.hdr, fdt.buf[..], fdt.toks;
    GrownApart(h2, mem2, ts2, h3, mem3, ts3, c);
    GrownMore(h, mem, ts, h2, mem2, ts2, h3, mem3, ts3, a + b, c);
    assert a + (b + (c + d)) == ((a + b) + c) + d;
    r := CloseNode(fdt);
    outside := false;
    EndsMore(h, mem, ts, h3, mem3, ts3, (a + b) + c, d, r.Success?, false);
    if r.Success? {
      GrownMore(h, mem, ts, h3, mem3, ts3, fdt.hdr, fdt.buf[..], fdt.toks, (a + b) + c, d);
    }
  }

  method OpenNode(fdt: Blob, name: seq<byte>) returns (r: Result<()>)
    requires Writing(fdt.hdr, fdt.buf[..], fdt.toks) && NoNul(name) && |name| <= MAX_LEN
    modifies fdt`hdr, fdt`toks, fdt.buf
    ensures Ends(old(fdt.hdr), old(fdt.buf[..]), [Opened(name)], r.Success?, false)
    ensures r.Success? ==>
              Grown(old(fdt.hdr), old(fdt.buf[..]), old(fdt.toks), fdt.hdr, fdt.buf[..], fdt.toks, [Opened(name)])
  {
    hide Writing, Grown, Extends, Apart, Written, SwTail;
    ghost var h, mem, ts := fdt.hdr, fdt.buf[..], fdt.toks;
    WritingApart(h, mem, ts);
    BeginProbe(h, mem, ts);
    TailSize(h, mem);
    PlanOne(h, mem, Opened(name));
    r := BeginNodeCall(fdt, name);
    if r.Success? {
      ExtendsHeader(h, mem, ts, fdt.hdr, fdt.buf[..], fdt.toks, Opened(name));
      ExtendsGrown(h, mem, ts, fdt.hdr, fdt.buf[..], fdt.toks, Opened(name));
    }
  }

  method CloseNode(fdt: Blob) returns (r: Result<()>)
    requires Writing(fdt.hdr, fdt.buf[..], fdt.toks)
    modifies fdt`hdr, fdt`toks, fdt.buf
    ensures Ends(old(fdt.hdr), old(fdt.buf[..]), [Closed], r.Success?, false)
    ensures r.Success? ==>
              Grown(old(fdt.hdr), old(fdt.buf[..]), old(fdt.toks), fdt.hdr, fdt.buf[..], fdt.toks, [Closed])
  {
    hide Writing, Grown, Extends, Apart, Written, SwTail;
    ghost var h, mem, ts := fdt.hdr, fdt.buf[..], fdt.toks;
    WritingApart(h, mem, ts);
    BeginProbe(h, mem, ts);
    TailSize(h, mem);
    PlanOne(h, mem, Closed);
    r := EndNodeCall(fdt);
    if r.Success? {
      ExtendsHeader(h, mem, ts, fdt.hdr, fdt.buf[..], fdt.toks, Closed);
      ExtendsGrown(h, mem, ts, fdt.hdr, fdt.buf[..], fdt.toks, Closed);
    }
  }

  lemma BeginProbe(h: Header, mem: seq<byte>, ts: seq<Token>)
    requires Writing(h, mem, ts)
    ensures StructProbe(h).Success?
  {
  }

  // Calls out of turn are refused: reservations once the structure has begun, structure before that, and either once
  // the blob is complete.
  lemma OutOfTurn(h: Header, mem: seq<byte>, es: seq<Reservation>, ts: seq<Token>, h': Header, mem': seq<byte>)
    ensures Reserving(h, mem, es) ==> RsvProbe(h) == Success(()) && StructProbe(h) == Failure(BadState)
    ensures Writing(h, mem, ts) ==> StructProbe(h) == Success(()) && RsvProbe(h) == Failure(BadState)
    ensures Completed(h, mem, ts, h', mem') ==> RsvProbe(h') == StructProbe(h') == Failure(BadState)
  {
    hide EncAll, EncRsv, AllEmittable, RsvCount, StructOf, HeadOf;
  }

  // The end of the header and the reservations.
  function RsvTop(rsvs: seq<Reservation>): nat {
    SW_HEADER_SIZE + 16 * |rsvs| + 16
  }

  // What the calls for a whole blob come to.
  function PlanBlob(bufsize: nat, flags: u32, rsvs: seq<Reservation>, ns: seq<Node>): Plan {
    if RsvTop(rsvs) > bufsize then Full
    else
      match PlanAll(bufsize, flags != NO_NAME_DEDUP, RsvTop(rsvs), [], EmitAll(ns))
      case Fits(top, tail) => PlanSpace(bufsize, top, tail, TAG_SIZE)
      case stop => stop
  }

  // The room for the whole blob while it is written, when every name needs its own string.
  function TotalRoom(rsvs: seq<Reservation>, ns: seq<Node>): nat {
    RsvTop(rsvs) + CallsRoom(EmitAll(ns)) + TAG_SIZE
  }

  // The calls for a whole blob succeed exactly if the blob they leave fits into the buffer: header and reservations,
  // the nodes and properties of the tree, the strings, and the end tag.
  lemma BlobFits(bufsize: nat, flags: u32, rsvs: seq<Reservation>, ns: seq<Node>)
    ensures PlanBlob(bufsize, flags, rsvs, ns).Fits?
            <==> RsvTop(rsvs) + KidsSize(ns) + |Table(flags != NO_NAME_DEDUP, [], EmitAll(ns))| + TAG_SIZE <= bufsize
  {
    hide EmitAll, PlanAll, KidsSize, Table, StructRoom;
    NodesStructRoom(ns);
    if RsvTop(rsvs) <= bufsize {
      PlanExact(bufsize, flags != NO_NAME_DEDUP, RsvTop(rsvs), [], EmitAll(ns));
    }
  }

  // That room is enough; it is needed if names are not shared.
  lemma RoomEnough(bufsize: nat, flags: u32, rsvs: seq<Reservation>, ns: seq<Node>)
    ensures TotalRoom(rsvs, ns) <= bufsize ==> PlanBlob(bufsize, flags, rsvs, ns).Fits?
    ensures flags == NO_NAME_DEDUP ==> (PlanBlob(bufsize, flags, rsvs, ns).Fits? <==> TotalRoom(rsvs, ns) <= bufsize)
  {
    hide EmitAll, PlanAll, CallsRoom;
    if RsvTop(rsvs) <= bufsize {
      PlanRoom(bufsize, flags != NO_NAME_DEDUP, RsvTop(rsvs), [], EmitAll(ns));
    }
  }

  // fdt_create, the reservations, the tree and fdt_finish: if every call succeeds, the blob is well
  // formed and holds exactly that tree and the reservations up to the first one of size 0. Which calls
  // succeed is what the plan says. Where a call would write in front of the buffer the source goes on with
  // an undefined effect; this method stops there and reports it.
  method WriteBlob(fdt: Blob, bufsize: nat, flags: u32, rsvs: seq<Reservation>, ns: seq<Node>)
    returns (r: Result<()>, outside: bool)
    requires bufsize <= fdt.buf.Length && bufsize < INT32_MAX && Writable(ns)
    modifies fdt, fdt.buf
    ensures r.Success? ==>
              && fdt.Valid() && fdt.Img().Tree() == ns
              && RsvList(fdt.Head(), fdt.hdr.offRsv) == Some(UpToZero(rsvs))
              && (|ns| == 1 && ns[0].name == [] ==> TopLevel(fdt.shape))
    ensures r.Success? <==> flags <= NO_NAME_DEDUP && PlanBlob(bufsize, flags, rsvs, ns).Fits?
    ensures outside <==> flags <= NO_NAME_DEDUP && PlanBlob(bufsize, flags, rsvs, ns).Outside?
  {
    hide Writing, Grown, Apart, Written, SwHead, SwTail, SwStruct, RsvList, UpToZero, EmitAll, TopLevel, Image.Valid,
      Image.Tree, Completed, Reserving, PlanAll, Ends;
    outside := false;
    r := Create(fdt, bufsize, flags);
    if r.Failure? { return; }
    var i := 0;
    assert rsvs[..0] == [];
    while i < |rsvs|
      invariant 0 <= i <= |rsvs| && Reserving(fdt.hdr, fdt.buf[..], rsvs[..i])
      invariant fdt.hdr.totalsize == bufsize && fdt.hdr.lastComp == flags
    {
      ReservingTop(fdt.hdr, fdt.buf[..], rsvs[..i]);
      assert rsvs[..i] + [rsvs[i]] == rsvs[..i + 1];
      r := AddReservemapEntry(fdt, rsvs[i].address, rsvs[i].size, rsvs[..i]);
      if r.Failure? { return; }
      i := i + 1;
    }
    assert rsvs[..i] == rsvs;
    ReservingTop(fdt.hdr, fdt.buf[..], rsvs);
    r := FinishReservemap(fdt, rsvs);
    if r.Failure? { return; }
    ghost var h, mem := fdt.hdr, fdt.buf[..];
    EmptyPlan(h, mem, EmitAll(ns));
    r, outside := WriteNodes(fdt, ns);
    EndsPlan(h, mem, EmitAll(ns), r.Success?, outside);
    if r.Failure? { return; }
    ghost var h1, mem1, ts1 := fdt.hdr, fdt.buf[..], fdt.toks;
    GrownPlan(h, mem, h1, mem1, ts1, EmitAll(ns));
    WroteAll(h, mem, h1, mem1, ts1, EmitAll(ns));
    r := FinishBlob(fdt, ns);
    if r.Success? {
      CompletedHead(h1, mem1, ts1, fdt.hdr, fdt.buf[..]);
    }
  }

  // Such an input: a name of 1000 bytes in a root, in a buffer of 200 bytes. The difference in fdt_add_string_ and the
  // one in fdt_grab_space_ wrap, and both tests for room pass.
  lemma LongNameOutside(name: seq<byte>)
    requires |name| == 1000
    ensures PlanBlob(200, NO_NAME_DEDUP, [], [Node([], [Property(name, [])], [])]) == Outside
    ensures var structTop, offset := 64 + 8, 1001;
            (200 - offset) % 0x1_0000_0000 >= structTop && 8 + 12 <= (200 - 64 - offset) % 0x1_0000_0000
  {
    var n := Node([], [Property(name, [])], []);
    NodesParts([n]);
    assert EmitAll([n])[0] == Opened([]) && EmitAll([n])[1] == Put(name, []);
    assert EmitAll([n])[1..][0] == Put(name, []);
    hide EmitAll;
    assert PlanAll(200, false, 72, [], EmitAll([n])[1..]) == Outside;
  }

  lemma EmptyPlan(h: Header, mem: seq<byte>, cs: seq<Call>)
    requires Writing(h, mem, []) && h.sizeStruct == h.sizeStrings == 0
    ensures Apart(h, |mem|) && PlanFrom(h, mem, cs) == PlanAll(h.totalsize, Share(h), h.offStruct, [], cs)
  {
    hide PlanAll, EncAll, RsvCount;
    assert SwTail(h, mem) == [];
  }

  lemma EndsPlan(h: Header, mem: seq<byte>, cs: seq<Call>, success: bool, outside: bool)
    requires Ends(h, mem, cs, success, outside)
    ensures Apart(h, |mem|) && (success <==> PlanFrom(h, mem, cs).Fits?) && (outside <==> PlanFrom(h, mem, cs).Outside?)
  {
  }

  lemma GrownPlan(h: Header, mem: seq<byte>, h': Header, mem': seq<byte>, ts': seq<Token>, cs: seq<Call>)
    requires Grown(h, mem, [], h', mem', ts', cs)
    ensures Apart(h, |mem|) && PlanFrom(h, mem, cs).Fits? && h'.totalsize == h.totalsize
    ensures PlanFrom(h, mem, cs).top == h'.offStruct + h'.sizeStruct && |PlanFrom(h, mem, cs).tail| == h'.sizeStrings
    ensures StructProbe(h').Success?
  {
    hide PlanAll, SwHead, Written;
    BeginProbe(h', mem', ts');
  }

  lemma ReservingTop(h: Header, mem: seq<byte>, es: seq<Reservation>)
    requires Reserving(h, mem, es)
    ensures RsvProbe(h).Success? && h.offStruct == SW_HEADER_SIZE + 16 * |es| <= h.totalsize
  {
  }

  lemma WroteAll(h: Header, mem: seq<byte>, h': Header, mem': seq<byte>, ts': seq<Token>, cs: seq<Call>)
    requires Grown(h, mem, [], h', mem', ts', cs)
    ensures Writing(h', mem', ts') && Apart(h, |mem|) && Apart(h', |mem'|)
    ensures Written(h', mem', ts') == cs
    ensures SwHead(h', mem') == SwHead(h, mem) && h'.offRsv == h.offRsv
  {
    assert Written(h, mem, []) == [];
    assert [] + cs == cs;
  }

  lemma CompletedHead(h: Header, mem: seq<byte>, ts: seq<Token>, h': Header, mem': seq<byte>)
    requires Completed(h, mem, ts, h', mem')
    ensures Apart(h, |mem|) && OrderedIn(h', |mem'|)
    ensures HeadOf(h', mem') == SwHead(h, mem) && h'.offRsv == h.offRsv
  {
    hide Writing, EncAll;
    assert Apart(h, |mem|) by { WritingApart(h, mem, ts); }
  }

  // Every well-formed blob with one nameless root passes fdt_check_full, whatever follows its buffer.
  method WrittenPasses(fdt: Blob, beyond: seq<byte>) returns (r: Result<()>)
    requires fdt.Valid() && TopLevel(fdt.shape) && |beyond| == 8
    ensures r == Success(())
  {
    hide Image.Valid, TopLevel, Checkable, BalancedIn, WalkOf, NoWrap, AcceptedIn, HeaderCheck;
    ValidWalks(fdt.Img(), beyond);
    ValidHeader(fdt.Img());
    r := CheckFull(fdt, fdt.buf.Length, beyond);
  }

  lemma ValidHeader(im: Image)
    requires im.Valid()
    ensures im.hdr.version >= 17 && im.hdr.totalsize < INT32_MAX
  {
  }

  // Writing a tree with one nameless root and checking the result.
  method WriteAndCheck(fdt: Blob, bufsize: nat, flags: u32, rsvs: seq<Reservation>, root: Node, beyond: seq<byte>)
    returns (r: Result<()>, checked: Result<()>)
    requires bufsize <= fdt.buf.Length && bufsize < INT32_MAX && Writable([root]) && root.name == [] && |beyond| == 8
    modifies fdt, fdt.buf
    ensures r.Success? ==> fdt.Valid() && fdt.Img().Tree() == [root] && checked == Success(())
    ensures r.Success? <==> flags <= NO_NAME_DEDUP && PlanBlob(bufsize, flags, rsvs, [root]).Fits?
  {
    hide Image.Valid, Image.Tree, TopLevel, RsvList, UpToZero, Writable, PlanBlob;
    var outside;
    r, outside := WriteBlob(fdt, bufsize, flags, rsvs, [root]);
    checked := r;
    if r.Success? {
      checked := WrittenPasses(fdt, beyond);
    }
  }

  // A well-formed blob can be opened anew.
  lemma ValidLoose(im: Image)
    requires im.Valid()
    ensures Loose(im.hdr, im.mem[..im.hdr.totalsize])
    ensures var w := im.mem[..im.hdr.totalsize];
            && im.hdr.offStruct + im.hdr.sizeStruct <= |w| && im.hdr.offStrings + im.hdr.sizeStrings <= |w|
            && StructOf(im.hdr, w) == StructOf(im.hdr, im.mem) && StringsOf(im.hdr, w) == StringsOf(im.hdr, im.mem)
            && RsvList(w, im.hdr.offRsv) == Reserved(im) && RsvCount(w, im.hdr.offRsv).Some?
  {
    hide Describes, RsvCount, HeaderCheck, RsvList;
    var h, w := im.hdr, im.mem[..im.hdr.totalsize];
    HeaderCheckExact(h);
    PackFits(im);
    SliceSlice(im.mem, 0, h.totalsize, h.offStruct, h.offStruct + h.sizeStruct);
    SliceSlice(im.mem, 0, h.totalsize, h.offStrings, h.offStrings + h.sizeStrings);
    SliceSlice(im.mem, 0, h.totalsize, h.offRsv, h.offRsv + RsvSize(im));
    SliceSlice(im.mem, 0, h.offStruct, h.offRsv, h.offRsv + RsvSize(im));
    RsvWindow(HeadOf(h, im.mem), h.offRsv, w, h.offRsv);
  }

  lemma ValidOrder(im: Image)
    requires im.Valid()
    ensures RsvCount(im.mem[..im.hdr.totalsize], im.hdr.offRsv).Some?
    ensures var n := 16 * (RsvCount(im.mem[..im.hdr.totalsize], im.hdr.offRsv).value + 1);
            !BlocksMisordered(im.hdr, n, im.hdr.sizeStruct)
  {
    hide Describes, RsvCount;
    PackFits(im);
  }

  // fdt_open_into on the spot, with more room
  method Reopen(fdt: Blob, bufsize: nat) returns (r: Result<()>)
    requires fdt.Valid() && bufsize <= fdt.buf.Length && bufsize < INT32_MAX
    modifies fdt`hdr, fdt.buf
    ensures r.Success? <==> old(fdt.hdr.totalsize) <= bufsize
    ensures r.Failure? ==> fdt.hdr == old(fdt.hdr) && fdt.buf[..] == old(fdt.buf[..])
    ensures r.Success? ==>
              && fdt.Valid() && fdt.hdr.totalsize == bufsize
              && fdt.Img().Tree() == old(fdt.Img().Tree()) && Reserved(fdt.Img()) == old(Reserved(fdt.Img()))
  {
    hide Describes, RsvCount, OpenedAs, Loose, Kids, RsvList, BlocksMisordered, StructOf, StringsOf, Image.Valid,
      Image.Tree, Reserved, NewSize;
    ghost var im := fdt.Img();
    ValidLoose(im);
    ValidOrder(im);
    FrontWindow(im);
    var h' := OpenInto(fdt.buf, 0, fdt.hdr, 0, bufsize);
    if h'.Failure? {
      return Failure(h'.error);
    }
    Reopened(im, h'.value, fdt.buf[..], bufsize);
    fdt.hdr := h'.value;
    return Success(());
  }

  lemma FrontWindow(im: Image)
    requires im.Valid()
    ensures OrderedIn(im.hdr, |im.mem|) && im.mem[0..0 + im.hdr.totalsize] == im.mem[..im.hdr.totalsize]
  {
    hide Describes;
  }

  lemma Reopened(im: Image, h': Header, mem': seq<byte>, bufsize: nat)
    requires im.Valid() && RsvCount(im.mem[0..0 + im.hdr.totalsize], im.hdr.offRsv).Some?
    requires bufsize <= |mem'| && bufsize < INT32_MAX
    requires OpenedAs(im.hdr, im.mem, 0, h', mem', 0, bufsize,
                      16 * (RsvCount(im.mem[0..0 + im.hdr.totalsize], im.hdr.offRsv).value + 1))
    ensures h'.totalsize == bufsize
    ensures var im' := Image(h', mem', im.shape);
            im'.Valid() && OrderedIn(h', |mem'|) && im'.Tree() == im.Tree() && Reserved(im') == Reserved(im)
  {
    hide Describes, RsvCount, Loose, Kids, RsvList, StructOf, StringsOf;
    ValidLoose(im);
    FrontWindow(im);
    OpenedSame(im.hdr, im.mem, 0, h', mem', 0, bufsize, im.shape);
    assert mem'[0..0 + bufsize] == mem'[..bufsize];
    LongerBuffer(Image(h', mem'[..bufsize], im.shape), mem');
  }

  // Bytes behind the blob do not matter.
  lemma LongerBuffer(im: Image, mem: seq<byte>)
    requires im.Valid() && |im.mem| <= |mem| && mem[..|im.mem|] == im.mem
    ensures var im' := Image(im.hdr, mem, im.shape);
            im'.Valid() && im'.Tree() == im.Tree() && Reserved(im') == Reserved(im)
  {
    hide Describes, RsvCount, Kids, RsvList;
    var h := im.hdr;
    SliceSlice(mem, 0, |im.mem|, 0, h.offStruct);
    SliceSlice(mem, 0, |im.mem|, h.offStruct, h.offStruct + h.sizeStruct);
    SliceSlice(mem, 0, |im.mem|, h.offStrings, h.offStrings + h.sizeStrings);
  }

  // fdt_create_empty_tree: a tree of one nameless node without contents, and no reservations.
  method CreateEmptyTree(fdt: Blob, bufsize: nat) returns (r: Result<()>)
    requires bufsize <= fdt.buf.Length && bufsize < INT32_MAX
    modifies fdt, fdt.buf
    ensures r.Success? <==> 80 <= bufsize
    ensures r.Success? ==>
              && fdt.Valid() && fdt.hdr.totalsize == bufsize
              && fdt.Img().Tree() == [Node([], [], [])] && Reserved(fdt.Img()) == Some([])
  {
    hide Writing, Grown, Apart, Written, SwHead, SwTail, SwStruct, RsvList, Reserving, EmitAll, TopLevel, Image.Valid,
      Image.Tree, Completed, Extends;
    r := Create(fdt, bufsize, 0);
    if r.Failure? { return; }
    ReservingTop(fdt.hdr, fdt.buf[..], []);
    r := FinishReservemap(fdt, []);
    if r.Failure? { return; }
    ghost var h, mem := fdt.hdr, fdt.buf[..];
    r := OpenNode(fdt, []);
    OpenedEnds(h, mem, r.Success?);
    if r.Failure? { return; }
    ghost var h1, mem1, ts1 := fdt.hdr, fdt.buf[..], fdt.toks;
    GrownApart(h, mem, [], h1, mem1, ts1, [Opened([])]);
    r := CloseNode(fdt);
    EndsMore(h, mem, [], h1, mem1, ts1, [Opened([])], [Closed], r.Success?, false);
    EmptyPlans(h, mem);
    TailSize(h, mem);
    EndsPlan(h, mem, [Opened([])] + [Closed], r.Success?, false);
    if r.Failure? { return; }
    ghost var h2, mem2, ts2 := fdt.hdr, fdt.buf[..], fdt.toks;
    GrownMore(h, mem, [], h1, mem1, ts1, h2, mem2, ts2, [Opened([])], [Closed]);
    EmptyCalls();
    WroteAll(h, mem, h2, mem2, ts2, EmitAll([Node([], [], [])]));
    GrownPlan(h, mem, h2, mem2, ts2, EmitAll([Node([], [], [])]));
    r := FinishBlob(fdt, [Node([], [], [])]);
    if r.Failure? { return; }
    CompletedHead(h2, mem2, ts2, fdt.hdr, fdt.buf[..]);
    r := Reopen(fdt, bufsize);
  }

  // The two calls of the empty tree.
  lemma EmptyPlans(h: Header, mem: seq<byte>)
    requires Apart(h, |mem|)
    ensures var top, used := h.offStruct + h.sizeStruct, h.offStruct + h.sizeStruct + h.sizeStrings;
            && PlanFrom(h, mem, [Opened([])]) == PlanSpace(h.totalsize, top, SwTail(h, mem), 8)
            && PlanFrom(h, mem, [Opened([])] + [Closed])
               == (if used + 8 > h.totalsize then Full else PlanSpace(h.totalsize, top + 8, SwTail(h, mem), 4))
  {
    hide Apart, SwTail, PlanAll;
    TailSize(h, mem);
    var total, share, top, tail := h.totalsize, Share(h), h.offStruct + h.sizeStruct, SwTail(h, mem);
    OneCall(total, share, top, tail, Opened([]));
    OneCall(total, share, top + 8, tail, Closed);
    PlanConcat(total, share, top, tail, [Opened([])], [Closed]);
  }

  lemma OpenedEnds(h: Header, mem: seq<byte>, success: bool)
    requires Ends(h, mem, [Opened([])], success, false)
    ensures success <==> h.offStruct + h.sizeStruct + h.sizeStrings + 8 <= h.totalsize
  {
    hide PlanFrom;
    TailSize(h, mem);
    EmptyPlans(h, mem);
  }


  lemma EmptyCalls()
    ensures EmitAll([Node([], [], [])]) == [Opened([])] + [Closed]
  {
    var ns := [Node([], [], [])];
    assert ns[1..] == [] && EmitAll([]) == [] && EmitProps([]) == [];
  }
}
