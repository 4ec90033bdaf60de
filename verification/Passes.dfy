// When the two passes over an overlay succeed, and both on a blob.
module Passes {
  import opened Bytes
  import opened Structure
  import opened Memory
  import opened Blobs
  import opened Scan
  import opened Readers
  import opened Edits
  import opened Children
  import opened Overlay
  import opened Phandles
  import opened References
  import opened Designations

  // When the fixups can be applied ---------------------------------------------------------------------------

  // The node that is meant by the fixups at path q of f: on the way each name is looked up among the children.
  function Meant(t: Node, f: Node, q: seq<nat>): Option<Node>
    requires HasPath(f, q)
    decreases |q|
  {
    if q == [] then Some(t)
    else
      var j := FirstChild(t.children, Some(f.children[q[0]].name));
      if j == |t.children| then None else Meant(t.children[j], f.children[q[0]], q[1..])
  }

  // The cells that property p of the fixups lists are all there.
  predicate CanFix(n: Node, p: Property) {
    && |p.value| % 4 == 0 && PropValue(n, p.name).Some?
    && forall k :: 0 <= k < |p.value| / 4 ==> Listed(p.value, k) + 4 <= |PropValue(n, p.name).value|
  }

  function Listed(cells: seq<byte>, k: nat): nat
    requires k < |cells| / 4
  {
    BigEndian(cells[4 * k..4 * k + 4])
  }

  predicate CanFixOwn(n: Node, ps: seq<Property>) {
    forall m :: 0 <= m < |ps| ==> CanFix(n, ps[m])
  }

  // So it is for the fixups of every node.
  ghost predicate CanFixAll(t: Node, f: Node) {
    forall q :: HasPath(f, q) ==> CanFixAt(t, f, q)
  }

  ghost predicate CanFixAt(t: Node, f: Node, q: seq<nat>)
    requires HasPath(f, q)
  {
    Meant(t, f, q).Some? && CanFixOwn(Meant(t, f, q).value, Down(f, q).props)
  }

  lemma {:induction false} CellsExact(t: Node, name: seq<byte>, cells: seq<byte>, delta: u32)
    requires PropValue(t, name).Some?
    ensures FixCells(t, name, cells, delta).Success? <==> InBounds(Offsets(cells), |PropValue(t, name).value|)
    ensures FixCells(t, name, cells, delta).Failure? ==> FixCells(t, name, cells, delta) == Failure(BadOverlay)
    decreases |cells|
  {
    hide Get32, CellAdded, PutProp;
    var v := PropValue(t, name).value;
    if |cells| >= 4 {
      var off := Get32(cells, 0) as nat;
      assert Offsets(cells)[1..] == Offsets(cells[4..]) && Offsets(cells)[0] == off;
      if off + 4 <= |v| {
        ValuePut(t, name, CellAdded(v, off, delta));
        CellsExact(PutProp(t, name, CellAdded(v, off, delta)), name, cells[4..], delta);
        FirstInBounds(Offsets(cells), |v|);
      }
    }
  }

  lemma FirstInBounds(offs: seq<nat>, n: nat)
    requires offs != []
    ensures InBounds(offs, n) <==> offs[0] + 4 <= n && InBounds(offs[1..], n)
  {
    assert InBounds(offs[1..], n) ==> forall i :: 1 <= i < |offs| ==> offs[i] == offs[1..][i - 1];
  }

  lemma {:induction false} OffsetsAre(cells: seq<byte>, k: nat)
    requires k < |cells| / 4
    ensures Offsets(cells)[k] == Listed(cells, k)
    decreases k
  {
    hide Get32, BigEndian;
    if k == 0 {
      Get32Bytes(cells, 0);
    } else {
      OffsetsAre(cells[4..], k - 1);
      assert cells[4..][4 * (k - 1)..4 * (k - 1) + 4] == cells[4 * k..4 * k + 4];
    }
  }

  lemma ListedInBounds(cells: seq<byte>, n: nat)
    ensures InBounds(Offsets(cells), n) <==> forall k :: 0 <= k < |cells| / 4 ==> Listed(cells, k) + 4 <= n
  {
    hide Listed, Offsets;
    forall k | 0 <= k < |cells| / 4 ensures Offsets(cells)[k] == Listed(cells, k) {
      OffsetsAre(cells, k);
    }
  }

  lemma PropExact(t: Node, p: Property, delta: u32)
    ensures FixProp(t, p, delta).Success? <==> CanFix(t, p)
    ensures FixProp(t, p, delta).Failure? ==> FixProp(t, p, delta) == Failure(BadOverlay)
  {
    hide FixCells, Offsets, Listed, InBounds, PropValue;
    if PropValue(t, p.name).Some? {
      CellsExact(t, p.name, p.value, delta);
      ListedInBounds(p.value, |PropValue(t, p.name).value|);
    }
  }

  lemma LikeFix(a: Node, b: Node, p: Property)
    requires LikeProps(a.props, b.props)
    ensures CanFix(a, p) <==> CanFix(b, p)
  {
    hide PropValue;
    LikeValue(a, b, p.name);
  }

  lemma {:induction false} OwnFixExact(t: Node, ps: seq<Property>, delta: u32)
    ensures FixProps(t, ps, delta).Success? <==> CanFixOwn(t, ps)
    ensures FixProps(t, ps, delta).Failure? ==> FixProps(t, ps, delta) == Failure(BadOverlay)
    decreases |ps|
  {
    hide FixProp, CanFix;
    if ps != [] {
      PropExact(t, ps[0], delta);
      if CanFix(t, ps[0]) {
        var t1 := FixProp(t, ps[0], delta).value;
        OneFixLike(t, ps[0], delta);
        OwnFixExact(t1, ps[1..], delta);
        LikeFixOwn(t, t1, ps[1..]);
      }
      FirstFix(t, ps);
    }
  }

  lemma OneFixLike(t: Node, p: Property, delta: u32)
    requires FixProp(t, p, delta).Success?
    ensures LikeProps(t.props, FixProp(t, p, delta).value.props)
  {
    hide FixCells;
    CellsAdded(t, p.name, p.value, delta);
  }

  lemma LikeFixOwn(a: Node, b: Node, ps: seq<Property>)
    requires LikeProps(a.props, b.props)
    ensures CanFixOwn(a, ps) <==> CanFixOwn(b, ps)
  {
    hide CanFix;
    forall m | 0 <= m < |ps| ensures CanFix(a, ps[m]) <==> CanFix(b, ps[m]) {
      LikeFix(a, b, ps[m]);
    }
  }

  lemma FirstFix(t: Node, ps: seq<Property>)
    requires ps != []
    ensures CanFixOwn(t, ps) <==> CanFix(t, ps[0]) && CanFixOwn(t, ps[1..])
  {
    hide CanFix;
    assert CanFixOwn(t, ps[1..]) ==> forall i :: 1 <= i < |ps| ==> ps[i] == ps[1..][i - 1];
  }

  // A change of values alone does not matter.
  lemma {:induction false} LikeFixAt(a: Node, b: Node, f: Node, q: seq<nat>)
    requires Like(a, b) && HasPath(f, q)
    ensures CanFixAt(a, f, q) <==> CanFixAt(b, f, q)
    decreases |q|
  {
    hide CanFixOwn, FirstChild;
    LikeParts(a, b);
    if q == [] {
      LikeFixOwn(a, b, f.props);
    } else {
      var want := Some(f.children[q[0]].name);
      LikeFirst(a.children, b.children, want);
      var j := FirstChild(a.children, want);
      if j < |a.children| {
        LikeFixAt(a.children[j], b.children[j], f.children[q[0]], q[1..]);
      }
    }
  }

  lemma LikeFixAll(a: Node, b: Node, f: Node)
    requires Like(a, b)
    ensures CanFixAll(a, f) <==> CanFixAll(b, f)
  {
    hide CanFixAt, Like;
    forall q | HasPath(f, q) ensures CanFixAt(a, f, q) <==> CanFixAt(b, f, q) {
      LikeFixAt(a, b, f, q);
    }
  }

  // The child of the fixups finds its child of the tree, and can be applied to it.
  ghost predicate CanFixKid(kids: seq<Node>, f: Node) {
    var j := FirstChild(kids, Some(f.name));
    j < |kids| && CanFixAll(kids[j], f)
  }

  lemma FixAllParts(t: Node, f: Node)
    ensures CanFixAll(t, f)
            <==> CanFixOwn(t, f.props) && forall m :: 0 <= m < |f.children| ==> CanFixKid(t.children, f.children[m])
  {
    hide CanFixOwn, FirstChild;
    if CanFixAll(t, f) {
      assert HasPath(f, []) && CanFixAt(t, f, []);
      forall m | 0 <= m < |f.children| ensures CanFixKid(t.children, f.children[m]) {
        KidOfAll(t, f, m);
      }
    }
    if CanFixOwn(t, f.props) && forall m :: 0 <= m < |f.children| ==> CanFixKid(t.children, f.children[m]) {
      forall q | HasPath(f, q) ensures CanFixAt(t, f, q) {
        if q != [] {
          var g := f.children[q[0]];
          assert CanFixKid(t.children, g) && HasPath(g, q[1..]);
          assert CanFixAt(t.children[FirstChild(t.children, Some(g.name))], g, q[1..]);
        }
      }
    }
  }

  lemma KidOfAll(t: Node, f: Node, m: nat)
    requires CanFixAll(t, f) && m < |f.children|
    ensures CanFixKid(t.children, f.children[m])
  {
    hide CanFixOwn, FirstChild;
    var g := f.children[m];
    DownInto(f, m, []);
    assert [m] + [] == [m] && HasPath(f, [m]) && CanFixAt(t, f, [m]);
    var j := FirstChild(t.children, Some(g.name));
    forall q | HasPath(g, q) ensures CanFixAt(t.children[j], g, q) {
      DownInto(f, m, q);
      assert CanFixAt(t, f, [m] + q) && ([m] + q)[1..] == q;
    }
  }

  // The fixups can be applied exactly if every node they are for is there, and in it every property and every
  // cell that they list.
  lemma {:induction false} FixExact(t: Node, f: Node, delta: u32)
    ensures FixNode(t, f, delta).Success? <==> CanFixAll(t, f)
    ensures FixNode(t, f, delta).Failure? ==> FixNode(t, f, delta) == Failure(BadOverlay)
    decreases f, 0
  {
    hide FixProps, CanFixAll, CanFixOwn, FixKids, CanFixKid;
    OwnFixExact(t, f.props, delta);
    FixAllParts(t, f);
    if CanFixOwn(t, f.props) {
      var t1 := FixProps(t, f.props, delta).value;
      PropsLike(t, f.props, delta);
      KidsFixExact(t1, f.children, delta);
    }
  }

  lemma {:induction false} KidsFixExact(t: Node, fs: seq<Node>, delta: u32)
    ensures FixKids(t, fs, delta).Success? <==> forall m :: 0 <= m < |fs| ==> CanFixKid(t.children, fs[m])
    ensures FixKids(t, fs, delta).Failure? ==> FixKids(t, fs, delta) == Failure(BadOverlay)
    decreases fs, 0
  {
    hide FixNode, CanFixAll, FirstChild, Like;
    if fs != [] {
      var j := FirstChild(t.children, Some(fs[0].name));
      if j < |t.children| {
        FixExact(t.children[j], fs[0], delta);
        if FixNode(t.children[j], fs[0], delta).Success? {
          var y := FixNode(t.children[j], fs[0], delta).value;
          var t1 := t.(children := t.children[j := y]);
          NodeLike(t.children[j], fs[0], delta);
          ChildLike(t, j, y);
          KidsFixExact(t1, fs[1..], delta);
          LikeKidsFix(t, t1, fs[1..]);
        }
      }
      FirstKidFix(t.children, fs);
    }
  }

  lemma LikeKidsFix(a: Node, b: Node, fs: seq<Node>)
    requires Like(a, b)
    ensures (forall m :: 0 <= m < |fs| ==> CanFixKid(a.children, fs[m]))
            <==> forall m :: 0 <= m < |fs| ==> CanFixKid(b.children, fs[m])
  {
    hide CanFixAll, FirstChild;
    LikeParts(a, b);
    forall m | 0 <= m < |fs| ensures CanFixKid(a.children, fs[m]) <==> CanFixKid(b.children, fs[m]) {
      LikeFirst(a.children, b.children, Some(fs[m].name));
      var j := FirstChild(a.children, Some(fs[m].name));
      if j < |a.children| {
        LikeFixAll(a.children[j], b.children[j], fs[m]);
      }
    }
  }

  lemma FirstKidFix(kids: seq<Node>, fs: seq<Node>)
    requires fs != []
    ensures (forall m :: 0 <= m < |fs| ==> CanFixKid(kids, fs[m]))
            <==> CanFixKid(kids, fs[0]) && forall m :: 0 <= m < |fs[1..]| ==> CanFixKid(kids, fs[1..][m])
  {
    hide CanFixKid;
    assert forall i :: 1 <= i < |fs| ==> fs[i] == fs[1..][i - 1];
  }

  // On blobs ---------------------------------------------------------------------------------------------------

  const LOCAL_FIXUPS: seq<byte> :=
    [0x5f, 0x5f, 0x6c, 0x6f, 0x63, 0x61, 0x6c, 0x5f, 0x66, 0x69, 0x78, 0x75, 0x70, 0x73, 0x5f, 0x5f]

  function FixupsOf(t: Node): (j: nat)
    ensures j <= |t.children|
  {
    FirstChild(t.children, Some(LOCAL_FIXUPS))
  }

  // The fixups, if there are any, do not list themselves.
  predicate FixupsReady(t: Node) {
    FixupsOf(t) < |t.children| ==>
      var f := t.children[FixupsOf(t)];
      && FixupsFit(f)
      && forall m :: 0 <= m < |f.children| ==> FirstChild(t.children, Some(f.children[m].name)) != FixupsOf(t)
  }

  // Both passes succeed.
  ghost predicate CanRelocate(t: Node, delta: u32) {
    && CanRenumber(t, delta)
    && (FixupsOf(t) < |t.children| ==>
          var f := t.children[FixupsOf(t)];
          CanFixAll(t, f) && (delta >= 1 ==> Plain(f)))
  }

  // The error of the first pass that fails.
  function FirstError(t: Node, delta: u32): Error {
    match AdjustNode(t, delta)
    case Failure(e) => e
    case Success(_) => BadOverlay
  }

  // They succeed exactly if every phandle can be increased and, where the tree has a child __local_fixups__, all
  // that it lists is there and, unless delta is 0, it lists no phandle.
  lemma RelocationExact(t: Node, delta: u32)
    ensures AdjustNode(t, delta).Success? <==> CanRenumber(t, delta)
    ensures CanRelocate(t, delta)
            <==> if FixupsOf(t) < |t.children| then exists u :: Relocates(t, FixupsOf(t), delta, u)
                 else AdjustNode(t, delta).Success?
  {
    hide AdjustNode, FixNode, CanRenumber, CanFixAll, Plain, FixupsOf, Like, CanRelocate;
    AdjustExact(t, delta);
    PassesEnd(t, delta);
    if CanRelocate(t, delta) && FixupsOf(t) < |t.children| {
      var t1 := AdjustNode(t, delta).value;
      assert Relocates(t, FixupsOf(t), delta, FixNode(t1, t1.children[FixupsOf(t)], delta).value);
    }
  }

  // The same in terms of the two passes.
  lemma PassesEnd(t: Node, delta: u32)
    ensures AdjustNode(t, delta).Success? ==> |AdjustNode(t, delta).value.children| == |t.children|
    ensures CanRelocate(t, delta)
            <==> && AdjustNode(t, delta).Success?
                 && var t1 := AdjustNode(t, delta).value;
                    FixupsOf(t) < |t.children| ==> FixNode(t1, t1.children[FixupsOf(t)], delta).Success?
  {
    hide AdjustNode, FixNode, CanRenumber, CanFixAll, Plain, FixupsOf, Like, LikeProps;
    AdjustExact(t, delta);
    if AdjustNode(t, delta).Success? {
      var t1 := AdjustNode(t, delta).value;
      AdjustLike(t, delta);
      LikeParts(t, t1);
      if FixupsOf(t) < |t.children| {
        FixupsEnd(t, FixupsOf(t), delta);
      }
    }
  }

  lemma FixupsEnd(t: Node, i: nat, delta: u32)
    requires AdjustNode(t, delta).Success? && i < |t.children| == |AdjustNode(t, delta).value.children|
    ensures var t1 := AdjustNode(t, delta).value;
            FixNode(t1, t1.children[i], delta).Success?
            <==> CanFixAll(t, t.children[i]) && (delta >= 1 ==> Plain(t.children[i]))
  {
    hide AdjustNode, FixNode, CanFixAll, Plain, Like;
    var f, t1 := t.children[i], AdjustNode(t, delta).value;
    AdjustLike(t, delta);
    LikeFixAll(t, t1, f);
    FixExact(t1, t1.children[i], delta);
    if FixNode(t1, t1.children[i], delta).Success? {
      FixupsStay(t, i, delta, FixNode(t1, t1.children[i], delta).value);
    }
    if delta >= 1 ==> Plain(f) {
      FixupsKept(t, i, delta);
    }
  }

  // Plain fixups are still there after the renumbering.
  lemma FixupsKept(t: Node, i: nat, delta: u32)
    requires AdjustNode(t, delta).Success? && i < |t.children| && (delta >= 1 ==> Plain(t.children[i]))
    ensures i < |AdjustNode(t, delta).value.children| && AdjustNode(t, delta).value.children[i] == t.children[i]
  {
    hide AdjustOwn, AdjustKids, Plain;
    if delta == 0 {
      AdjustZero(t);
    } else {
      OwnLike(t, delta);
      KidAt(t.children, delta, i);
      PlainStays(t.children[i], delta);
    }
  }

  // Without fixups the renumbering decides.
  lemma NoFixups(t: Node, delta: u32)
    requires FixupsOf(t) == |t.children|
    ensures CanRelocate(t, delta) <==> CanRenumber(t, delta)
  {
    hide CanRenumber, CanFixAll, FixupsOf;
  }

  // overlay_adjust_local_phandles and overlay_update_local_references, from the root
  method RelocateReferences(fdt: Blob, root: nat, delta: u32) returns (r: Result<()>)
    requires fdt.Valid() && IsNodeOffset(fdt.shape, root)
    requires var y := AdjustNode(fdt.Img().NodeOf(root), delta); y.Success? ==> FixupsReady(y.value)
    modifies fdt`shape, fdt.buf
    ensures fdt.Valid()
    ensures r.Success? <==> CanRelocate(old(fdt.Img().NodeOf(root)), delta)
    ensures r.Failure? ==> r == Failure(FirstError(old(fdt.Img().NodeOf(root)), delta))
    ensures r.Success? ==>
              && IsNodeOffset(fdt.shape, root)
              && var t, u := old(fdt.Img().NodeOf(root)), fdt.Img().NodeOf(root);
                 if FixupsOf(t) < |t.children| then Relocates(t, FixupsOf(t), delta, u)
                   else AdjustNode(t, delta) == Success(u)
    ensures r.Failure? ==>
              forall u :: !Relocates(old(fdt.Img().NodeOf(root)), FixupsOf(old(fdt.Img().NodeOf(root))), delta, u)
  {
    hide Describes, StructOf, StringsOf, HeadOf, RsvCount, Image.NodeOf, AdjustNode, FixNode, FixupsFit, FirstChild,
      Progress, Within, ChildIs, CanRelocate, CanRenumber, FirstFailure;
    ghost var t := fdt.Img().NodeOf(root);
    AdjustExact(t, delta);
    PassesEnd(t, delta);
    r := AdjustNodePhandles(fdt, root, delta);
    if r.Failure? {
      return;
    }
    ghost var c := fdt.Img();
    SameFixups(t, c.NodeOf(root), delta);
    var fixups := SubnodeOffset(fdt, root, LOCAL_FIXUPS);
    TreeChild(c, root, LOCAL_FIXUPS, fixups);
    if fixups.Failure? {
      return Success(());
    }
    FixupsApart(c, root, fixups.value);
    FixFails(c.NodeOf(root), c.NodeOf(fixups.value), delta);
    r := UpdateLocalNodeReferences(fdt, root, fixups.value, delta);
  }

  lemma FixFails(t: Node, f: Node, delta: u32)
    ensures FixNode(t, f, delta).Failure? ==> FixNode(t, f, delta) == Failure(BadOverlay)
  {
    hide FixNode, CanFixAll;
    FixExact(t, f, delta);
  }

  lemma SameFixups(t: Node, u: Node, delta: u32)
    requires AdjustNode(t, delta) == Success(u)
    ensures FixupsOf(u) == FixupsOf(t) && |u.children| == |t.children|
  {
    hide AdjustNode, FirstChild;
    AdjustLike(t, delta);
    LikeFirst(t.children, u.children, Some(LOCAL_FIXUPS));
  }

  lemma FixupsApart(c: Image, root: nat, f: nat)
    requires c.Valid() && IsNodeOffset(c.shape, root) && FixupsReady(c.NodeOf(root))
    requires FixupsOf(c.NodeOf(root)) < |c.NodeOf(root).children| && ChildOf(c, root, f, FixupsOf(c.NodeOf(root)))
    ensures IsNodeOffset(c.shape, f) && Separate(c, root, f) && FixupsFit(c.NodeOf(f))
    ensures c.NodeOf(f) == c.NodeOf(root).children[FixupsOf(c.NodeOf(root))]
  {
    hide Image.NodeOf, PathAt, FirstChild, FixupsFit, Describes, StructOf, StringsOf, HeadOf, RsvCount;
    ChildNode(c, root, f, FixupsOf(c.NodeOf(root)));
  }
}
