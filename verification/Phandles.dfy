// Renumbering the phandles of an overlay (fdt_overlay.c) with in-place writes (fdt_wip.c).
module Phandles {
  import opened Bytes
  import opened Tokens
  import opened Structure
  import opened Scan
  import opened Memory
  import opened Blobs
  import opened Readers
  import opened Edits
  import opened Editor
  import opened Children
  import opened Walk
  import opened Siblings
  import opened Overlay
  import opened Forms

  const PHANDLE: seq<byte> := [0x70, 0x68, 0x61, 0x6e, 0x64, 0x6c, 0x65]
  const LINUX_PHANDLE: seq<byte> := [0x6c, 0x69, 0x6e, 0x75, 0x78, 0x2c] + PHANDLE
  const NO_PHANDLE: u32 := 0xffff_ffff

  // On trees ----------------------------------------------------------------------------------------------

  // A property of one cell.
  function Cell(n: Node, name: seq<byte>): Option<u32> {
    match PropValue(n, name)
    case None => None
    case Some(v) => if |v| == 4 then Some(Get32(v, 0)) else None
  }

  // fdt_get_phandle; 0 for none
  function GetPhandle(n: Node): u32 {
    match Cell(n, PHANDLE)
    case Some(x) => x
    case None => match Cell(n, LINUX_PHANDLE) case Some(x) => x case None => 0
  }

  // overlay_phandle_add_offset, with its test for 32-bit wrap-around
  function AddOffset(n: Node, name: seq<byte>, delta: u32): Result<Node> {
    match PropValue(n, name)
    case None => Failure(NotFound)
    case Some(v) =>
      if |v| != 4 then Failure(BadPhandle)
      else if Add32(Get32(v, 0), delta) < Get32(v, 0) then Failure(NoPhandles)
      else if Add32(Get32(v, 0), delta) == NO_PHANDLE then Failure(NoPhandles)
      else Success(PutProp(n, name, Put32(Add32(Get32(v, 0), delta))))
  }

  // The same, where a missing property is no error.
  function AddIfThere(n: Node, name: seq<byte>, delta: u32): Result<Node> {
    var r := AddOffset(n, name, delta);
    if r == Failure(NotFound) then Success(n) else r
  }

  // The node's own properties.
  function AdjustOwn(n: Node, delta: u32): Result<Node> {
    var n1 :- AddIfThere(n, PHANDLE, delta);
    AddIfThere(n1, LINUX_PHANDLE, delta)
  }

  // overlay_adjust_node_phandles
  function AdjustNode(n: Node, delta: u32): Result<Node>
    decreases n, 0
  {
    var own :- AdjustOwn(n, delta);
    var kids :- AdjustKids(n.children, delta);
    Success(own.(children := kids))
  }

  function AdjustKids(ks: seq<Node>, delta: u32): (r: Result<seq<Node>>)
    ensures r.Success? ==> |r.value| == |ks|
    decreases ks, 0
  {
    if ks == [] then Success([])
    else
      var k :- AdjustNode(ks[0], delta);
      var rest :- AdjustKids(ks[1..], delta);
      Success([k] + rest)
  }

  // When the renumbering succeeds ---------------------------------------------------------------------------

  // The property of that name, if there is one, is a cell that stays below the reserved value.
  predicate CanAdd(n: Node, name: seq<byte>, delta: u32) {
    match PropValue(n, name)
    case None => true
    case Some(v) => |v| == 4 && BigEndian(v) + delta < NO_PHANDLE
  }

  predicate CanAddBoth(n: Node, delta: u32) {
    CanAdd(n, PHANDLE, delta) && CanAdd(n, LINUX_PHANDLE, delta)
  }

  // So it is at all nodes of the tree.
  ghost predicate CanRenumber(t: Node, delta: u32) {
    forall p :: HasPath(t, p) ==> CanAddBoth(Down(t, p), delta)
  }

  // What is wrong with the first of the two properties that cannot be increased.
  function WhyNot(n: Node, delta: u32): Error
    requires !CanAddBoth(n, delta)
  {
    var name := if CanAdd(n, PHANDLE, delta) then LINUX_PHANDLE else PHANDLE;
    if |PropValue(n, name).value| != 4 then BadPhandle else NoPhandles
  }

  // Path p comes before path q when nodes are visited in order, parents first.
  predicate Earlier(p: seq<nat>, q: seq<nat>)
    decreases |p|
  {
    q != [] && (p == [] || p[0] < q[0] || (p[0] == q[0] && Earlier(p[1..], q[1..])))
  }

  // The first node at which the renumbering fails, and why.
  ghost predicate FirstFailure(t: Node, delta: u32, p: seq<nat>, e: Error) {
    && HasPath(t, p) && !CanAddBoth(Down(t, p), delta) && e == WhyNot(Down(t, p), delta)
    && forall q :: HasPath(t, q) && Earlier(q, p) ==> CanAddBoth(Down(t, q), delta)
  }

  // What the 32-bit tests amount to.
  lemma OffsetExact(n: Node, name: seq<byte>, delta: u32)
    ensures match PropValue(n, name)
            case None => AddOffset(n, name, delta) == Failure(NotFound)
            case Some(v) =>
              if |v| != 4 then AddOffset(n, name, delta) == Failure(BadPhandle)
              else if BigEndian(v) + delta >= NO_PHANDLE then AddOffset(n, name, delta) == Failure(NoPhandles)
              else AddOffset(n, name, delta) == Success(PutProp(n, name, Put32(BigEndian(v) + delta)))
  {
    hide Get32, Put32, PutProp, BigEndian;
    if PropValue(n, name).Some? && |PropValue(n, name).value| == 4 {
      var v := PropValue(n, name).value;
      Get32Bytes(v, 0);
      assert v[0..4] == v;
      AddWraps(Get32(v, 0), delta);
    }
  }

  lemma AddExact(n: Node, name: seq<byte>, delta: u32)
    ensures AddIfThere(n, name, delta).Success? <==> CanAdd(n, name, delta)
    ensures AddIfThere(n, name, delta).Failure? ==>
              && PropValue(n, name).Some?
              && AddIfThere(n, name, delta).error == if |PropValue(n, name).value| != 4 then BadPhandle else NoPhandles
  {
    hide AddOffset, BigEndian, PropValue;
    OffsetExact(n, name, delta);
  }

  // Increasing one of the two properties does not touch the other one.
  lemma OtherStays(n: Node, delta: u32)
    requires AddIfThere(n, PHANDLE, delta).Success?
    ensures var n1 := AddIfThere(n, PHANDLE, delta).value;
            n1.children == n.children && PropValue(n1, LINUX_PHANDLE) == PropValue(n, LINUX_PHANDLE)
  {
    hide Get32, Put32;
    assert |LINUX_PHANDLE| != |PHANDLE|;
    if PropValue(n, PHANDLE).Some? {
      PutCell(n, PHANDLE, Add32(Get32(PropValue(n, PHANDLE).value, 0), delta));
    }
  }

  lemma OwnExact(n: Node, delta: u32)
    ensures AdjustOwn(n, delta).Success? <==> CanAddBoth(n, delta)
    ensures AdjustOwn(n, delta).Failure? ==> AdjustOwn(n, delta) == Failure(WhyNot(n, delta))
  {
    hide AddIfThere, PropValue, BigEndian;
    AddExact(n, PHANDLE, delta);
    if CanAdd(n, PHANDLE, delta) {
      OtherStays(n, delta);
      AddExact(AddIfThere(n, PHANDLE, delta).value, LINUX_PHANDLE, delta);
    }
  }

  lemma DownInto(t: Node, k: nat, p: seq<nat>)
    requires k < |t.children|
    ensures HasPath(t, [k] + p) <==> HasPath(t.children[k], p)
    ensures HasPath(t, [k] + p) ==> Down(t, [k] + p) == Down(t.children[k], p)
  {
    assert ([k] + p)[1..] == p;
  }

  lemma RenumberParts(t: Node, delta: u32)
    ensures CanRenumber(t, delta)
            <==> CanAddBoth(t, delta) && forall k :: 0 <= k < |t.children| ==> CanRenumber(t.children[k], delta)
  {
    hide CanAddBoth;
    if CanRenumber(t, delta) {
      assert HasPath(t, []) && Down(t, []) == t;
      forall k, p | 0 <= k < |t.children| && HasPath(t.children[k], p)
        ensures CanAddBoth(Down(t.children[k], p), delta)
      {
        DownInto(t, k, p);
      }
    }
    if CanAddBoth(t, delta) && forall k :: 0 <= k < |t.children| ==> CanRenumber(t.children[k], delta) {
      forall p | HasPath(t, p) ensures CanAddBoth(Down(t, p), delta) {
        assert p != [] ==> CanRenumber(t.children[p[0]], delta);
      }
    }
  }

  // Child i is the first that cannot be renumbered, for what is wrong at p in it.
  ghost predicate KidFails(ks: seq<Node>, delta: u32, i: nat, p: seq<nat>, e: Error) {
    i < |ks| && FirstFailure(ks[i], delta, p, e) && forall j :: 0 <= j < i ==> CanRenumber(ks[j], delta)
  }

  lemma FailsBelow(t: Node, delta: u32, i: nat, p: seq<nat>, e: Error)
    requires CanAddBoth(t, delta) && KidFails(t.children, delta, i, p, e)
    ensures FirstFailure(t, delta, [i] + p, e)
  {
    hide CanAddBoth, WhyNot;
    DownInto(t, i, p);
    assert ([i] + p)[1..] == p;
    forall q | HasPath(t, q) && Earlier(q, [i] + p) ensures CanAddBoth(Down(t, q), delta) {
      assert q != [] && q[0] == i ==> Earlier(q[1..], p);
    }
  }

  lemma {:induction false} NodeExact(t: Node, delta: u32) returns (p: seq<nat>)
    ensures AdjustNode(t, delta).Success? <==> CanRenumber(t, delta)
    ensures AdjustNode(t, delta).Failure? ==> FirstFailure(t, delta, p, AdjustNode(t, delta).error)
    decreases t, 0
  {
    hide AdjustOwn, CanAddBoth, WhyNot, CanRenumber, AdjustKids, KidFails;
    OwnExact(t, delta);
    RenumberParts(t, delta);
    p := [];
    if AdjustOwn(t, delta).Success? {
      var i, q := KidsExact(t.children, delta);
      if AdjustKids(t.children, delta).Failure? {
        p := [i] + q;
        FailsBelow(t, delta, i, q, AdjustNode(t, delta).error);
      }
    }
  }

  lemma {:induction false} KidsExact(ks: seq<Node>, delta: u32) returns (i: nat, p: seq<nat>)
    ensures AdjustKids(ks, delta).Success? <==> forall k :: 0 <= k < |ks| ==> CanRenumber(ks[k], delta)
    ensures AdjustKids(ks, delta).Failure? ==> KidFails(ks, delta, i, p, AdjustKids(ks, delta).error)
    decreases ks, 0
  {
    hide AdjustNode, CanRenumber, FirstFailure;
    i, p := 0, [];
    if ks != [] {
      p := NodeExact(ks[0], delta);
      if AdjustNode(ks[0], delta).Success? {
        i, p := KidsExact(ks[1..], delta);
        i := i + 1;
      }
    }
  }

  // The renumbering succeeds exactly if every phandle in the tree can be increased; otherwise it reports what
  // is wrong with the first one that cannot.
  lemma AdjustExact(t: Node, delta: u32)
    ensures AdjustNode(t, delta).Success? <==> CanRenumber(t, delta)
    ensures AdjustNode(t, delta).Failure? ==> exists p :: FirstFailure(t, delta, p, AdjustNode(t, delta).error)
  {
    hide AdjustNode, CanRenumber, FirstFailure;
    var p := NodeExact(t, delta);
  }

  // What the renumbering does to the phandles -------------------------------------------------------------------

  lemma PutCell(n: Node, name: seq<byte>, w: u32)
    ensures Cell(PutProp(n, name, Put32(w)), name) == Some(w)
    ensures forall other: seq<byte> | other != name && HasName(n, name) ::
              PropValue(PutProp(n, name, Put32(w)), other) == PropValue(n, other)
  {
    hide Put32, Get32;
    var y := PutProp(n, name, Put32(w));
    var m := FirstProp(n.props, name);
    FirstPropIs(y.props, name, if m < |n.props| then m else 0);
    WholeCell(w);
    if m < |n.props| {
      forall other: seq<byte> | other != name ensures PropValue(y, other) == PropValue(n, other) {
        SameRank(n.props, y.props, other);
      }
    }
  }

  lemma WholeCell(w: u32)
    ensures Get32(Put32(w), 0) == w
  {
    GetPut32(w, Put32(w), 0);
  }

  predicate HasName(n: Node, name: seq<byte>) {
    FirstProp(n.props, name) < |n.props|
  }

  lemma {:induction false} SameRank(a: seq<Property>, b: seq<Property>, name: seq<byte>)
    requires |a| == |b| && forall k :: 0 <= k < |a| ==> a[k].name == b[k].name
    ensures FirstProp(a, name) == FirstProp(b, name)
    decreases |a|
  {
    if a != [] {
      SameRank(a[1..], b[1..], name);
    }
  }

  // The phandle of a renumbered node is the old one plus delta, without wrap-around; a node
  // without one still has none.
  lemma OwnPhandle(n: Node, delta: u32)
    requires AdjustOwn(n, delta).Success?
    ensures var y := AdjustOwn(n, delta).value;
            && y.name == n.name && y.children == n.children
            && (PropValue(n, PHANDLE).Some? || PropValue(n, LINUX_PHANDLE).Some? ==>
                  GetPhandle(y) == GetPhandle(n) + delta < NO_PHANDLE)
            && (PropValue(n, PHANDLE).None? && PropValue(n, LINUX_PHANDLE).None? ==> y == n && GetPhandle(y) == 0)
  {
    hide Put32, Get32;
    assert |LINUX_PHANDLE| != |PHANDLE|;
    var y1 := AddIfThere(n, PHANDLE, delta).value;
    if PropValue(n, PHANDLE).Some? {
      var x := Cell(n, PHANDLE).value;
      AddWraps(x, delta);
      PutCell(n, PHANDLE, Add32(x, delta));
    }
    if PropValue(y1, LINUX_PHANDLE).Some? {
      var x := Cell(y1, LINUX_PHANDLE).value;
      AddWraps(x, delta);
      PutCell(y1, LINUX_PHANDLE, Add32(x, delta));
    }
  }

  // The phandles of all nodes of a forest, in preorder, nodes without one left out.
  function AllPhandles(ks: seq<Node>): seq<u32> {
    if ks == [] then []
    else OwnPhandles(ks[0]) + (AllPhandles(ks[0].children) + AllPhandles(ks[1..]))
  }

  function OwnPhandles(n: Node): seq<u32> {
    if PropValue(n, PHANDLE).None? && PropValue(n, LINUX_PHANDLE).None? then [] else [GetPhandle(n)]
  }

  predicate Shifted(a: seq<u32>, b: seq<u32>, delta: u32) {
    |a| == |b| && forall k :: 0 <= k < |a| ==> b[k] == a[k] + delta && b[k] < NO_PHANDLE
  }

  lemma {:induction false} KidsShifted(ks: seq<Node>, delta: u32)
    requires AdjustKids(ks, delta).Success?
    ensures Shifted(AllPhandles(ks), AllPhandles(AdjustKids(ks, delta).value), delta)
    decreases ks
  {
    hide AdjustOwn, GetPhandle, PropValue, Shifted, OwnPhandles;
    if ks == [] {
      NoneShifted(delta);
    } else {
      var n, y := ks[0], AdjustNode(ks[0], delta).value;
      OwnPhandle(n, delta);
      OwnShifted(n, y, delta);
      KidsShifted(n.children, delta);
      KidsShifted(ks[1..], delta);
      var rest := AdjustKids(ks[1..], delta).value;
      assert ([y] + rest)[1..] == rest;
      ShiftedConcat(AllPhandles(n.children), AllPhandles(ks[1..]), AllPhandles(y.children), AllPhandles(rest), delta);
      ShiftedConcat(OwnPhandles(n), AllPhandles(n.children) + AllPhandles(ks[1..]),
                    OwnPhandles(y), AllPhandles(y.children) + AllPhandles(rest), delta);
    }
  }

  lemma NoneShifted(delta: u32)
    ensures Shifted([], [], delta)
  {
  }

  lemma ShiftedConcat(a: seq<u32>, b: seq<u32>, a': seq<u32>, b': seq<u32>, delta: u32)
    requires Shifted(a, a', delta) && Shifted(b, b', delta)
    ensures Shifted(a + b, a' + b', delta)
  {
  }

  lemma OwnShifted(n: Node, y: Node, delta: u32)
    requires AdjustOwn(n, delta).Success? && y == AdjustOwn(n, delta).value.(children := y.children)
    ensures Shifted(OwnPhandles(n), OwnPhandles(y), delta)
  {
    hide Put32, Get32, GetPhandle;
    OwnPhandle(n, delta);
    KeepsPhandleProps(n, delta);
    PhandleOfProps(y, AdjustOwn(n, delta).value);
  }

  lemma PhandleOfProps(a: Node, b: Node)
    requires a.props == b.props
    ensures GetPhandle(a) == GetPhandle(b)
  {
  }

  lemma KeepsPhandleProps(n: Node, delta: u32)
    requires AdjustOwn(n, delta).Success?
    ensures var y := AdjustOwn(n, delta).value;
            (PropValue(y, PHANDLE).None? && PropValue(y, LINUX_PHANDLE).None?)
            <==> (PropValue(n, PHANDLE).None? && PropValue(n, LINUX_PHANDLE).None?)
  {
    hide Put32, Get32;
    assert |LINUX_PHANDLE| != |PHANDLE|;
    var y1 := AddIfThere(n, PHANDLE, delta).value;
    if PropValue(n, PHANDLE).Some? {
      PutCell(n, PHANDLE, Add32(Cell(n, PHANDLE).value, delta));
    }
    if PropValue(y1, LINUX_PHANDLE).Some? {
      PutCell(y1, LINUX_PHANDLE, Add32(Cell(y1, LINUX_PHANDLE).value, delta));
    }
  }

  predicate Distinct(s: seq<u32>) {
    forall i, j :: 0 <= i < j < |s| ==> s[i] != s[j]
  }

  // With delta the largest phandle of the base, a renumbered overlay whose phandles were at least 1
  // shares none with the base, and distinct phandles stay distinct.
  lemma Renumbered(ks: seq<Node>, delta: u32, base: seq<u32>)
    requires AdjustKids(ks, delta).Success?
    requires forall b :: b in base ==> b <= delta
    ensures var was, now := AllPhandles(ks), AllPhandles(AdjustKids(ks, delta).value);
            && |now| == |was|
            && (forall k :: 0 <= k < |was| ==> now[k] == was[k] + delta < NO_PHANDLE)
            && ((forall k :: 0 <= k < |was| ==> was[k] >= 1) ==> forall k, b :: 0 <= k < |now| && b in base ==>
                now[k] > b)
            && (Distinct(was) <==> Distinct(now))
  {
    hide AllPhandles, AdjustKids;
    KidsShifted(ks, delta);
  }

  // On blobs ------------------------------------------------------------------------------------------------

  lemma OldValueIs(im: Image, n: nat, name: seq<byte>)
    requires OrderedIn(im.hdr, |im.mem|) && IsNodeOffset(im.shape, n)
    ensures OldValue(im, n, name) == PropValue(im.NodeOf(n), name)
  {
    hide NodeAt, Kids, Props, Toks;
  }

  // fdt_setprop_inplace_namelen_partial: only bytes of the value change.
  method SetPropInplacePartial(fdt: Blob, n: nat, name: seq<byte>, idx: u32, val: seq<byte>) returns (r: Result<()>)
    requires fdt.Valid() && fdt.NodeArg(n) && idx + |val| < 0x1_0000_0000
    modifies fdt`shape, fdt.buf
    ensures old(!IsNodeOffset(fdt.shape, n)) ==> r == Failure(BadOffset)
    ensures old(IsNodeOffset(fdt.shape, n)) ==>
              match old(PropValue(fdt.Img().NodeOf(n), name))
              case None => r == Failure(NotFound)
              case Some(v) => r == if |v| < idx + |val| then Failure(NoSpace) else Success(())
    ensures r.Failure? ==> fdt.Img() == old(fdt.Img())
    ensures r.Success? ==>
              && old(IsNodeOffset(fdt.shape, n))
              && var v := old(PropValue(fdt.Img().NodeOf(n), name)).value;
                 && idx + |val| <= |v|
                 && NodeEdited(old(fdt.Img()), fdt.Img(), n,
                               [PutProp(old(fdt.Img().NodeOf(n)), name, Stored(v, idx, val))])
                 && KeepsOffsets(old(fdt.shape), fdt.shape, n)
                 && fdt.Ordered() && fdt.StringsBlock() == old(fdt.StringsBlock())
                 && OwnEdit(old(fdt.shape), fdt.shape, n)
  {
    hide Describes, Off, Stream, PropertyAt, NodeEdited, PutProp, KeepsOffsets, OldValue, StructOf, StringsOf, HeadOf,
      RsvCount, NodeCheck, NodeAt, Stored, PropValue;
    ghost var k, t;
    var p, proplen;
    p, proplen, k, t := FindProperty(fdt, n, name);
    if IsNodeOffset(fdt.shape, n) {
      OldValueIs(fdt.Img(), n, name);
    }
    if p.Failure? {
      return Failure(p.error);
    }
    if proplen < Add32(|val|, idx) {
      return Failure(NoSpace);
    }
    ghost var a := fdt.Img();
    WriteValue(fdt, n, name, p.value, idx, val, k, t);
    ValueOwnEdit(a, n, name, k, p.value, t, t.(value := Stored(t.value, idx, val)));
    return Success(());
  }

  // What the space test does with an index whose 32-bit sum with the length wraps: it passes for index 0xfffffffc
  // and four bytes whatever the length of the property, although the write would start behind every value.
  lemma PartialWraps(idx: u32, n: nat, proplen: nat)
    requires n <= INT32_MAX && proplen <= INT32_MAX && idx + n >= 0x1_0000_0000
    ensures proplen < Add32(n, idx) <==> proplen + 0x1_0000_0000 < idx + n
    ensures idx > proplen
    ensures !(proplen < Add32(4, 0xffff_fffc))
  {
  }

  lemma ValueOwnEdit(im: Image, n: nat, name: seq<byte>, k: nat, p: nat, t: Token, u: Token)
    requires im.Valid() && PropertyAt(im, n, name, k, p, t) && u.Prop? && |u.value| == |t.value| && u.vpad == t.vpad
    ensures IsPropOf(NodeAt(im.shape, IndexAt(im.shape, n)).body, k)
    ensures OwnEdit(im.shape, WithBody(im.shape, IndexAt(im.shape, n),
                                       ReplaceProp(NodeAt(im.shape, IndexAt(im.shape, n)).body, k, Leaf(u, Done))), n)
  {
    hide Describes, Off, Stream, StructOf, StringsOf, HeadOf, RsvCount, NodeAt, Toks, FindProp, WithBody, ReplaceProp,
      OwnEdit, Token.Enc, At;
    var i := IndexAt(im.shape, n);
    NodeRun(im.shape, i);
    PropTokenIs(NodeAt(im.shape, i).body, k);
    BodyToken(Stream(im.shape), i + 1, Toks(NodeAt(im.shape, i).body), k);
    SameLength(t, u);
    ValueEdited(im.shape, n, k, t, u);
  }

  lemma PropTokenIs(body: Items, k: nat)
    requires IsPropOf(body, k)
    ensures k < |Toks(body)| && Toks(body)[k].Prop?
  {
    ReplacePropToks(body, k, Done);
  }

  lemma SameLength(t: Token, u: Token)
    requires t.Prop? && u.Prop? && |u.value| == |t.value| && u.vpad == t.vpad
    ensures |u.Enc()| == |t.Enc()|
  {
  }

  // fdt_setprop_inplace
  method SetPropInplace(fdt: Blob, n: nat, name: seq<byte>, val: seq<byte>) returns (r: Result<()>)
    requires fdt.Valid() && fdt.NodeArg(n) && |val| <= INT32_MAX
    modifies fdt`shape, fdt.buf
    ensures old(!IsNodeOffset(fdt.shape, n)) ==> r == Failure(BadOffset)
    ensures old(IsNodeOffset(fdt.shape, n)) ==>
              match old(PropValue(fdt.Img().NodeOf(n), name))
              case None => r == Failure(NotFound)
              case Some(v) => r == if |v| != |val| then Failure(NoSpace) else Success(())
    ensures r.Failure? ==> fdt.Img() == old(fdt.Img())
    ensures r.Success? ==>
              && old(IsNodeOffset(fdt.shape, n))
              && NodeEdited(old(fdt.Img()), fdt.Img(), n, [PutProp(old(fdt.Img().NodeOf(n)), name, val)])
              && KeepsOffsets(old(fdt.shape), fdt.shape, n)
  {
    hide Describes, Off, Stream, PropertyAt, NodeEdited, PutProp, KeepsOffsets, OldValue, StructOf, StringsOf, HeadOf,
      RsvCount, NodeCheck, NodeAt, Stored, PropValue;
    ghost var k, t;
    var p, proplen;
    p, proplen, k, t := FindProperty(fdt, n, name);
    if IsNodeOffset(fdt.shape, n) {
      OldValueIs(fdt.Img(), n, name);
    }
    if p.Failure? {
      return Failure(p.error);
    }
    if proplen != |val| {
      return Failure(NoSpace);
    }
    StoredAll(t.value, val);
    r := SetPropInplacePartial(fdt, n, name, 0, val);
  }

  // The cell a property of four bytes holds
  method ReadCell(fdt: Blob, n: nat, name: seq<byte>) returns (r: Result<u32>, len: nat)
    requires fdt.Valid() && IsNodeOffset(fdt.shape, n)
    ensures match PropValue(fdt.Img().NodeOf(n), name)
            case None => r == Failure(NotFound)
            case Some(v) => len == |v| && r == (if |v| == 4 then Success(Get32(v, 0)) else Failure(BadPhandle))
  {
    hide Describes, Off, Stream, PropertyAt, OldValue, StructOf, StringsOf, HeadOf, RsvCount, NodeCheck, NodeAt,
      PropValue, Get32, Token.Enc, Token.Ok, At;
    ghost var k, t;
    var p;
    p, len, k, t := FindProperty(fdt, n, name);
    OldValueIs(fdt.Img(), n, name);
    if p.Failure? {
      return Failure(NotFound), len;
    }
    if len != 4 {
      return Failure(BadPhandle), len;
    }
    ValueCells(fdt, n, name, k, p.value, t);
    return Success(Get32(fdt.StructBlock(), p.value + 12)), len;
  }

  lemma ValueCells(fdt: Blob, n: nat, name: seq<byte>, k: nat, p: nat, t: Token)
    requires fdt.Valid() && PropertyAt(fdt.Img(), n, name, k, p, t) && |t.value| == 4
    ensures t.Prop? && p + 16 <= |fdt.StructBlock()| && Get32(fdt.StructBlock(), p + 12) == Get32(t.value, 0)
  {
    hide Describes, Off, Stream, StructOf, StringsOf, HeadOf, RsvCount, NodeCheck, NodeAt, Token.Enc, Token.Ok, At,
      Get32;
    PropertyFacts(fdt.Img(), n, name, k, p, t);
    PropCells(fdt.StructBlock(), p, t);
    SliceCell(fdt.StructBlock(), p + 12, t.value);
  }

  lemma SliceCell(s: seq<byte>, i: nat, v: seq<byte>)
    requires i + 4 <= |s| && |v| == 4 && s[i..i + 4] == v
    ensures Get32(s, i) == Get32(v, 0)
  {
  }

  // fdt_get_phandle
  method GetPhandleOf(fdt: Blob, n: nat) returns (phandle: u32)
    requires fdt.Valid() && IsNodeOffset(fdt.shape, n)
    ensures phandle == GetPhandle(fdt.Img().NodeOf(n))
  {
    hide Image.Valid, PropValue, Get32;
    var php, len := ReadCell(fdt, n, PHANDLE);
    if php.Failure? || len != 4 {
      php, len := ReadCell(fdt, n, LINUX_PHANDLE);
      if php.Failure? || len != 4 {
        return 0;
      }
    }
    return php.value;
  }

  lemma OffsetAt(im: Image, n: nat, name: seq<byte>, delta: u32)
    requires im.Valid() && IsNodeOffset(im.shape, n)
    ensures OrderedIn(im.hdr, |im.mem|)
    ensures match PropValue(im.NodeOf(n), name)
            case None => AddOffset(im.NodeOf(n), name, delta) == Failure(NotFound)
            case Some(v) =>
              if |v| != 4 then AddOffset(im.NodeOf(n), name, delta) == Failure(BadPhandle)
              else if BigEndian(v) + delta >= NO_PHANDLE then
                AddOffset(im.NodeOf(n), name, delta) == Failure(NoPhandles)
              else AddOffset(im.NodeOf(n), name, delta).Success?
  {
    hide AddOffset, PropValue, BigEndian, Describes, Image.NodeOf;
    OffsetExact(im.NodeOf(n), name, delta);
  }

  // overlay_phandle_add_offset
  method PhandleAddOffset(fdt: Blob, n: nat, name: seq<byte>, delta: u32) returns (r: Result<()>)
    requires fdt.Valid() && IsNodeOffset(fdt.shape, n)
    modifies fdt`shape, fdt.buf
    ensures match old(PropValue(fdt.Img().NodeOf(n), name))
            case None => r == Failure(NotFound)
            case Some(v) =>
              r == if |v| != 4 then Failure(BadPhandle)
                   else if BigEndian(v) + delta >= NO_PHANDLE then Failure(NoPhandles)
                   else Success(())
    ensures match AddOffset(old(fdt.Img().NodeOf(n)), name, delta)
            case Failure(e) => r == Failure(e) && fdt.Img() == old(fdt.Img())
            case Success(x) =>
              && r == Success(()) && NodeEdited(old(fdt.Img()), fdt.Img(), n, [x])
              && KeepsOffsets(old(fdt.shape), fdt.shape, n)
  {
    hide Image.Valid, PropValue, Get32, Put32, NodeEdited, KeepsOffsets, PutProp, BigEndian;
    OffsetAt(fdt.Img(), n, name, delta);
    var val, len := ReadCell(fdt, n, name);
    if val == Failure(NotFound) {
      return Failure(NotFound);
    }
    if len != 4 {
      return Failure(BadPhandle);
    }
    var adjVal := val.value;
    if Add32(adjVal, delta) < adjVal {
      return Failure(NoPhandles);
    }
    adjVal := Add32(adjVal, delta);
    if adjVal == NO_PHANDLE {
      return Failure(NoPhandles);
    }
    r := SetPropInplace(fdt, n, name, Put32(adjVal));
  }

  // One of the two properties of a node, where NOTFOUND is no error
  method AdjustProperty(fdt: Blob, n: nat, name: seq<byte>, delta: u32, ghost a: Image) returns (r: Result<()>)
    requires fdt.Valid() && IsNodeOffset(fdt.shape, n) && Progress(a, fdt.Img(), n)
    modifies fdt`shape, fdt.buf
    ensures match AddIfThere(old(fdt.Img().NodeOf(n)), name, delta)
            case Failure(e) => r == Failure(e) && fdt.Img() == old(fdt.Img())
            case Success(x) =>
              && r == Success(()) && fdt.Valid() && IsNodeOffset(fdt.shape, n) && Progress(a, fdt.Img(), n)
              && fdt.Img().NodeOf(n) == x
  {
    hide Describes, AddOffset, NodeEdited, KeepsOffsets, PutProp, Image.NodeOf, Progress, StructOf, StringsOf, HeadOf,
      RsvCount;
    ghost var b := fdt.Img();
    r := PhandleAddOffset(fdt, n, name, delta);
    if r == Failure(NotFound) {
      return Success(());
    }
    if r.Success? {
      ProgressStep(a, b, fdt.Img(), n, AddOffset(b.NodeOf(n), name, delta).value);
      ProgressValid(a, fdt.Img(), n);
    }
  }

  // The node after its first m children have been renumbered too.
  ghost function PartlyAdjusted(own: Node, m: nat, delta: u32): Node
    requires m <= |own.children| && AdjustKids(own.children[..m], delta).Success?
  {
    own.(children := AdjustKids(own.children[..m], delta).value + own.children[m..])
  }

  lemma {:induction false} KidsSnoc(ks: seq<Node>, k: Node, delta: u32)
    requires AdjustKids(ks, delta).Success?
    ensures AdjustKids(ks + [k], delta)
         == match AdjustNode(k, delta)
            case Success(y) => Success(AdjustKids(ks, delta).value + [y])
            case Failure(e) => Failure(e)
    decreases |ks|
  {
    hide AdjustNode;
    if ks == [] {
      assert ks + [k] == [k] && [k][1..] == [];
      assert AdjustKids([k][1..], delta) == Success([]);
      assert forall y: Node :: [y] + [] == [] + [y];
    } else {
      assert (ks + [k])[1..] == ks[1..] + [k];
      KidsSnoc(ks[1..], k, delta);
      if AdjustNode(k, delta).Success? {
        var k0, rest, y := AdjustNode(ks[0], delta).value, AdjustKids(ks[1..], delta).value, AdjustNode(k, delta).value;
        assert [k0] + (rest + [y]) == ([k0] + rest) + [y];
      }
    }
  }

  // A failing child makes the whole list fail in the same way.
  lemma {:induction false} KidsFail(ks: seq<Node>, rest: seq<Node>, delta: u32)
    requires AdjustKids(ks, delta).Failure?
    ensures AdjustKids(ks + rest, delta) == AdjustKids(ks, delta)
    decreases |ks|
  {
    hide AdjustNode;
    assert (ks + rest)[1..] == ks[1..] + rest;
    if AdjustNode(ks[0], delta).Success? {
      KidsFail(ks[1..], rest, delta);
    }
  }

  // overlay_adjust_node_phandles: success leaves the renumbered subtree and all else as it was; an
  // error is the first one in the order of the walk.
  method AdjustNodePhandles(fdt: Blob, node: nat, delta: u32) returns (r: Result<()>)
    requires fdt.Valid() && IsNodeOffset(fdt.shape, node)
    modifies fdt`shape, fdt.buf
    ensures fdt.Valid()
    ensures r.Success? <==> CanRenumber(old(fdt.Img().NodeOf(node)), delta)
    ensures match AdjustNode(old(fdt.Img().NodeOf(node)), delta)
            case Failure(e) => r == Failure(e)
            case Success(y) =>
              && r == Success(()) && IsNodeOffset(fdt.shape, node) && Progress(old(fdt.Img()), fdt.Img(), node)
              && fdt.Img().NodeOf(node) == y
    decreases fdt.Img().NodeOf(node)
  {
    hide Describes, Off, Stream, NodeAt, StructOf, StringsOf, HeadOf, RsvCount, KeepsOffsets, NodeEdited, Image.NodeOf,
      Progress, NodeCheck, ChildOf, ChildStepIs, AddIfThere, IsNodeOffset, IsChild, AdjustNode, AdjustKids, Adjusting,
      PartlyAdjusted, CanRenumber, FirstFailure;
    ghost var a := fdt.Img();
    ghost var n := a.NodeOf(node);
    AdjustExact(n, delta);
    AdjustParts(n, delta);
    ProgressNone(a, node);
    r := AdjustProperty(fdt, node, PHANDLE, delta, a);
    if r.Failure? {
      return;
    }
    r := AdjustProperty(fdt, node, LINUX_PHANDLE, delta, a);
    if r.Failure? {
      return;
    }
    ghost var own := fdt.Img().NodeOf(node);
    ghost var m := 0;
    PartlyNone(own, delta);
    var child := FirstSubnode(fdt, node);
    FirstChildIs(fdt.Img(), node, child);
    AdjustingIs(a, fdt.Img(), own, node, m, child, delta);
    while child.Success?
      invariant fdt.Valid() && Adjusting(a, fdt.Img(), own, node, m, child, delta)
      decreases |own.children| - m
    {
      ghost var c := fdt.Img();
      ChildHas(a, c, own, node, m, child, delta);
      r := AdjustNodePhandles(fdt, child.value, delta);
      if r.Failure? {
        PartlyFails(own, m, delta);
        return;
      }
      ChildAdjusted(a, c, fdt.Img(), own, node, m, child.value, delta);
      ghost var nn := child.value;
      child := NextSubnode(fdt, child.value);
      NextChildIs(fdt.Img(), node, m, nn, child);
      m := m + 1;
      AdjustingIs(a, fdt.Img(), own, node, m, child, delta);
    }
    NoChildLeft(a, fdt.Img(), own, node, m, child, delta);
    return Success(());
  }

  lemma AdjustParts(n: Node, delta: u32)
    ensures AdjustNode(n, delta)
         == match AdjustOwn(n, delta)
            case Failure(e) => Failure(e)
            case Success(own) =>
              match AdjustKids(n.children, delta)
              case Failure(e) => Failure(e)
              case Success(ks) => Success(own.(children := ks))
    ensures AdjustOwn(n, delta).Success? ==> AdjustOwn(n, delta).value.children == n.children
  {
    hide Put32, Get32;
  }

  lemma PartlyNone(own: Node, delta: u32)
    ensures AdjustKids(own.children[..0], delta) == Success([]) && PartlyAdjusted(own, 0, delta) == own
  {
  }

  lemma PartlyStep(own: Node, m: nat, delta: u32)
    requires m < |own.children| && AdjustKids(own.children[..m], delta).Success?
    ensures match AdjustNode(own.children[m], delta)
            case Success(y) =>
              && AdjustKids(own.children[..m + 1], delta).Success?
              && PartlyAdjusted(own, m + 1, delta)
                 == PartlyAdjusted(own, m, delta).(children := PartlyAdjusted(own, m, delta).children[m := y])
            case Failure(e) => AdjustKids(own.children, delta) == Failure(e)
    ensures PartlyAdjusted(own, m, delta).children[m] == own.children[m]
  {
    hide AdjustNode, AdjustKids;
    var ks := own.children;
    KidsSnoc(ks[..m], ks[m], delta);
    assert ks[..m] + [ks[m]] == ks[..m + 1];
    if AdjustNode(ks[m], delta).Failure? {
      KidsFail(ks[..m + 1], ks[m + 1..], delta);
      assert ks[..m + 1] + ks[m + 1..] == ks;
    }
  }

  // The node's first m children have been renumbered, and the walk stands on child m.
  ghost predicate Adjusting(a: Image, im: Image, own: Node, node: nat, m: nat, child: Result<nat>, delta: u32) {
    && im.Valid() && IsNodeOffset(im.shape, node) && Progress(a, im, node)
    && m <= |own.children| && AdjustKids(own.children[..m], delta).Success?
    && im.NodeOf(node) == PartlyAdjusted(own, m, delta) && IsChild(im, node, m, child)
  }

  lemma AdjustingIs(a: Image, im: Image, own: Node, node: nat, m: nat, child: Result<nat>, delta: u32)
    requires im.Valid() && IsNodeOffset(im.shape, node) && Progress(a, im, node)
    requires m <= |own.children| && AdjustKids(own.children[..m], delta).Success?
    requires im.NodeOf(node) == PartlyAdjusted(own, m, delta) && IsChild(im, node, m, child)
    ensures Adjusting(a, im, own, node, m, child, delta)
  {
    hide Image.Valid, Progress, AdjustKids, PartlyAdjusted, IsChild, IsNodeOffset, Image.NodeOf;
  }

  lemma PartlyFails(own: Node, m: nat, delta: u32)
    requires m < |own.children| && AdjustKids(own.children[..m], delta).Success?
    requires AdjustNode(own.children[m], delta).Failure?
    ensures AdjustKids(own.children, delta) == Failure(AdjustNode(own.children[m], delta).error)
  {
    hide AdjustNode, AdjustKids;
    PartlyStep(own, m, delta);
  }

  // The child the walk stands on has not been renumbered yet.
  lemma ChildHas(a: Image, c: Image, own: Node, node: nat, m: nat, child: Result<nat>, delta: u32)
    requires Adjusting(a, c, own, node, m, child, delta) && child.Success?
    ensures c.Valid() && IsNodeOffset(c.shape, node) && Progress(a, c, node) && OrderedIn(c.hdr, |c.mem|)
    ensures m < |own.children| && AdjustKids(own.children[..m], delta).Success?
    ensures c.NodeOf(node) == PartlyAdjusted(own, m, delta)
    ensures IsNodeOffset(c.shape, child.value) && ChildOf(c, node, child.value, m)
    ensures c.NodeOf(child.value) == own.children[m]
  {
    hide Describes, NodeAt, StructOf, StringsOf, HeadOf, RsvCount, Image.NodeOf, AdjustNode, AdjustKids, PathAt,
      Progress;
    ChildNode(c, node, child.value, m);
  }

  lemma ChildAdjusted(a: Image, c: Image, d: Image, own: Node, node: nat, m: nat, nn: nat, delta: u32)
    requires Progress(a, c, node) && ChildOf(c, node, nn, m) && Progress(c, d, nn)
    requires m < |own.children| && AdjustKids(own.children[..m], delta).Success?
    requires IsNodeOffset(c.shape, node) && OrderedIn(c.hdr, |c.mem|) && c.NodeOf(node) == PartlyAdjusted(own, m, delta)
    requires AdjustNode(own.children[m], delta) == Success(d.NodeOf(nn))
    ensures d.Valid() && IsNodeOffset(d.shape, node) && Progress(a, d, node) && ChildOf(d, node, nn, m)
    ensures AdjustKids(own.children[..m + 1], delta).Success? && d.NodeOf(node) == PartlyAdjusted(own, m + 1, delta)
  {
    hide Describes, NodeAt, StructOf, StringsOf, HeadOf, RsvCount, Image.NodeOf, AdjustNode, AdjustKids, PathAt,
      NodeEdited;
    PartlyStep(own, m, delta);
    ChildProgress(a, c, d, node, nn, m, d.NodeOf(nn));
  }

  lemma NoChildLeft(a: Image, im: Image, own: Node, node: nat, m: nat, child: Result<nat>, delta: u32)
    requires Adjusting(a, im, own, node, m, child, delta) && child.Failure?
    ensures im.Valid() && IsNodeOffset(im.shape, node) && Progress(a, im, node)
    ensures AdjustKids(own.children, delta).Success?
    ensures im.NodeOf(node) == own.(children := AdjustKids(own.children, delta).value)
  {
    hide Describes, NodeAt, Image.NodeOf, AdjustKids, Progress;
    assert own.children[..m] == own.children;
  }
}
