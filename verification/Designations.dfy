// References in a renumbered overlay.
module Designations {
  import opened Bytes
  import opened Structure
  import opened Memory
  import opened Blobs
  import opened Scan
  import opened Readers
  import opened Edits
  import opened Children
  import opened Overlay
  import opened Phandles
  import opened References

  // Trees of the same form -------------------------------------------------------------------------------

  // Only bytes of values differ.
  predicate Like(a: Node, b: Node)
    decreases a
  {
    a.name == b.name && LikeProps(a.props, b.props) && LikeKids(a.children, b.children)
  }

  predicate LikeProps(a: seq<Property>, b: seq<Property>) {
    |a| == |b| && forall k :: 0 <= k < |a| ==> a[k].name == b[k].name && |a[k].value| == |b[k].value|
  }

  predicate LikeKids(a: seq<Node>, b: seq<Node>)
    decreases a
  {
    |a| == |b| && forall k :: 0 <= k < |a| ==> Like(a[k], b[k])
  }

  lemma {:induction false} LikeSelf(a: Node)
    ensures Like(a, a)
    decreases a
  {
    forall k | 0 <= k < |a.children| ensures Like(a.children[k], a.children[k]) {
      LikeSelf(a.children[k]);
    }
  }

  lemma {:induction false} LikeTwice(a: Node, b: Node, c: Node)
    requires Like(a, b) && Like(b, c)
    ensures Like(a, c)
    decreases a
  {
    forall k | 0 <= k < |a.children| ensures Like(a.children[k], c.children[k]) {
      LikeTwice(a.children[k], b.children[k], c.children[k]);
    }
  }

  lemma {:induction false} LikeDown(a: Node, b: Node, p: seq<nat>)
    requires Like(a, b) && HasPath(a, p)
    ensures HasPath(b, p) && Like(Down(a, p), Down(b, p))
    decreases p
  {
    if p != [] {
      LikeDown(a.children[p[0]], b.children[p[0]], p[1..]);
    }
  }

  lemma LikeValue(a: Node, b: Node, name: seq<byte>)
    requires LikeProps(a.props, b.props)
    ensures FirstProp(a.props, name) == FirstProp(b.props, name)
    ensures PropValue(a, name).Some? <==> PropValue(b, name).Some?
    ensures PropValue(a, name).Some? ==> |PropValue(a, name).value| == |PropValue(b, name).value|
  {
    SameRank(a.props, b.props, name);
  }

  lemma LikeFirst(a: seq<Node>, b: seq<Node>, want: Option<seq<byte>>)
    requires LikeKids(a, b)
    ensures FirstChild(a, want) == FirstChild(b, want)
  {
    SameFirst(a, b, want);
  }

  // Which cells the fixups list ----------------------------------------------------------------------------

  // The offsets that a property of the fixups lists.
  function Offsets(cells: seq<byte>): (s: seq<nat>)
    ensures |s| == |cells| / 4
    decreases |cells|
  {
    if |cells| < 4 then [] else [Get32(cells, 0) as nat] + Offsets(cells[4..])
  }

  // The offsets that the properties ps of a fixup node list for property k of the node with these properties:
  // the first one of each name is meant.
  function OwnCells(props: seq<Property>, ps: seq<Property>, k: nat): seq<nat> {
    if ps == [] then []
    else (if FirstProp(props, ps[0].name) == k then Offsets(ps[0].value) else []) + OwnCells(props, ps[1..], k)
  }

  // The offsets listed for property k of the node at path p of t, in the order of the walk: a child of the
  // fixups stands for the first child of t that a search for its name finds.
  function CellsOf(t: Node, f: Node, p: seq<nat>, k: nat): seq<nat>
    requires HasPath(t, p)
    decreases f, 0
  {
    if p == [] then OwnCells(t.props, f.props, k) else KidCells(t.children, f.children, p, k)
  }

  function KidCells(kids: seq<Node>, fs: seq<Node>, p: seq<nat>, k: nat): seq<nat>
    requires p != [] && p[0] < |kids| && HasPath(kids[p[0]], p[1..])
    decreases fs, 0
  {
    if fs == [] then []
    else
      (if FirstChild(kids, Some(fs[0].name)) == p[0] then CellsOf(kids[p[0]], fs[0], p[1..], k) else [])
      + KidCells(kids, fs[1..], p, k)
  }

  lemma {:induction false} LikeOwn(a: seq<Property>, b: seq<Property>, ps: seq<Property>, k: nat)
    requires LikeProps(a, b)
    ensures OwnCells(a, ps, k) == OwnCells(b, ps, k)
    decreases |ps|
  {
    if ps != [] {
      SameRank(a, b, ps[0].name);
      LikeOwn(a, b, ps[1..], k);
    }
  }

  lemma {:induction false} LikeCells(a: Node, b: Node, f: Node, p: seq<nat>, k: nat)
    requires Like(a, b) && HasPath(a, p)
    ensures HasPath(b, p) && CellsOf(a, f, p, k) == CellsOf(b, f, p, k)
    decreases f, 0
  {
    LikeDown(a, b, p);
    if p == [] {
      LikeOwn(a.props, b.props, f.props, k);
    } else {
      LikeKidCells(a.children, b.children, f.children, p, k);
    }
  }

  lemma {:induction false} LikeKidCells(a: seq<Node>, b: seq<Node>, fs: seq<Node>, p: seq<nat>, k: nat)
    requires LikeKids(a, b) && p != [] && p[0] < |a| && HasPath(a[p[0]], p[1..])
    ensures HasPath(b[p[0]], p[1..]) && KidCells(a, fs, p, k) == KidCells(b, fs, p, k)
    decreases fs, 0
  {
    hide FirstChild;
    LikeDown(a[p[0]], b[p[0]], p[1..]);
    if fs != [] {
      LikeFirst(a, b, Some(fs[0].name));
      LikeCells(a[p[0]], b[p[0]], fs[0], p[1..], k);
      LikeKidCells(a, b, fs[1..], p, k);
    }
  }

  // What the fixups do to a value ----------------------------------------------------------------------------

  predicate InBounds(offs: seq<nat>, n: nat) {
    forall i :: 0 <= i < |offs| ==> offs[i] + 4 <= n
  }

  // delta added to each of the cells, one after the other.
  function AddAll(v: seq<byte>, offs: seq<nat>, delta: u32): (r: seq<byte>)
    requires InBounds(offs, |v|)
    ensures |r| == |v|
    decreases |offs|
  {
    if offs == [] then v else AddAll(CellAdded(v, offs[0], delta), offs[1..], delta)
  }

  lemma {:induction false} AddAllConcat(v: seq<byte>, a: seq<nat>, b: seq<nat>, delta: u32)
    requires InBounds(a, |v|) && InBounds(b, |v|)
    ensures InBounds(a + b, |v|) && AddAll(v, a + b, delta) == AddAll(AddAll(v, a, delta), b, delta)
    decreases |a|
  {
    hide CellAdded;
    if a == [] {
      assert a + b == b;
    } else {
      assert (a + b)[1..] == a[1..] + b;
      AddAllConcat(CellAdded(v, a[0], delta), a[1..], b, delta);
    }
  }

  // How often an offset is listed.
  function Times(offs: seq<nat>, off: nat): nat {
    if offs == [] then 0 else (if offs[0] == off then 1 else 0) + Times(offs[1..], off)
  }

  // The cell at off is none of those that are listed with another offset, not even in part.
  predicate Clear(offs: seq<nat>, off: nat) {
    forall i :: 0 <= i < |offs| ==> offs[i] == off || offs[i] + 4 <= off || off + 4 <= offs[i]
  }

  lemma AddedCell(v: seq<byte>, off: nat, delta: u32)
    requires off + 4 <= |v|
    ensures var w := CellAdded(v, off, delta);
            && Get32(w, off) == Add32(Get32(v, off), delta)
            && (forall o: nat :: o + 4 <= |v| && (o + 4 <= off || off + 4 <= o) ==> Get32(w, o) == Get32(v, o))
            && (forall b :: 0 <= b < |v| && (b < off || off + 4 <= b) ==> w[b] == v[b])
  {
    hide Put32;
    var w := CellAdded(v, off, delta);
    var e := Put32(Add32(Get32(v, off), delta));
    assert w[off..off + 4] == e;
    GetPut32(Add32(Get32(v, off), delta), w, off);
  }

  // A cell after delta has been added to it n times.
  function Gained(x: u32, n: nat, delta: u32): u32 {
    (x + n * delta) % 0x1_0000_0000
  }

  lemma AddMany(x: u32, delta: u32, n: nat)
    ensures Gained(Add32(x, delta), n, delta) == Gained(x, 1 + n, delta)
  {
    assert (1 + n) * delta == delta + n * delta;
    WrapSum(x + delta, n * delta);
  }

  lemma WrapSum(a: nat, b: nat)
    ensures (a % 0x1_0000_0000 + b) % 0x1_0000_0000 == (a + b) % 0x1_0000_0000
  {
    var m := 0x1_0000_0000;
    assert a + b == (a % m + b) + m * (a / m);
  }

  // A cell gains delta as often as it is listed.
  lemma {:induction false} CellTimes(v: seq<byte>, offs: seq<nat>, off: nat, delta: u32)
    requires InBounds(offs, |v|) && Clear(offs, off) && off + 4 <= |v|
    ensures Get32(AddAll(v, offs, delta), off) == Gained(Get32(v, off), Times(offs, off), delta)
    decreases |offs|
  {
    hide CellAdded, Get32, Add32;
    if offs != [] {
      var w := CellAdded(v, offs[0], delta);
      AddedCell(v, offs[0], delta);
      CellTimes(w, offs[1..], off, delta);
      AddMany(Get32(v, off), delta, Times(offs[1..], off));
    }
  }

  // Bytes in no listed cell stay.
  lemma {:induction false} UnlistedByte(v: seq<byte>, offs: seq<nat>, b: nat, delta: u32)
    requires InBounds(offs, |v|) && b < |v| && forall i :: 0 <= i < |offs| ==> b < offs[i] || offs[i] + 4 <= b
    ensures AddAll(v, offs, delta)[b] == v[b]
    decreases |offs|
  {
    hide CellAdded, Get32;
    if offs != [] {
      AddedCell(v, offs[0], delta);
      UnlistedByte(CellAdded(v, offs[0], delta), offs[1..], b, delta);
    }
  }

  lemma {:induction false} AddNothing(v: seq<byte>, offs: seq<nat>)
    requires InBounds(offs, |v|)
    ensures AddAll(v, offs, 0) == v
    decreases |offs|
  {
    hide Get32, Put32;
    if offs != [] {
      PutGet32(v, offs[0]);
      assert Add32(Get32(v, offs[0]), 0) == Get32(v, offs[0]);
      assert CellAdded(v, offs[0], 0) == v;
      AddNothing(v, offs[1..]);
    }
  }

  // Cells listed once have delta added, bytes in no listed cell are as before.
  predicate Fixed(v: seq<byte>, w: seq<byte>, offs: seq<nat>, delta: u32) {
    && |w| == |v| && InBounds(offs, |v|)
    && (forall i :: 0 <= i < |offs| && Once(offs, i) ==> Get32(w, offs[i]) == Add32(Get32(v, offs[i]), delta))
    && (forall b :: 0 <= b < |v| && (forall i :: 0 <= i < |offs| ==> b < offs[i] || offs[i] + 4 <= b) ==> w[b] == v[b])
  }

  // No other listed cell overlaps cell i.
  predicate Once(offs: seq<nat>, i: nat)
    requires i < |offs|
  {
    forall j :: 0 <= j < |offs| && j != i ==> offs[j] + 4 <= offs[i] || offs[i] + 4 <= offs[j]
  }

  lemma {:induction false} TimesNone(offs: seq<nat>, off: nat)
    requires forall j :: 0 <= j < |offs| ==> offs[j] != off
    ensures Times(offs, off) == 0
    decreases |offs|
  {
    if offs != [] {
      TimesNone(offs[1..], off);
    }
  }

  lemma {:induction false} OnceTimes(offs: seq<nat>, i: nat)
    requires i < |offs| && Once(offs, i)
    ensures Times(offs, offs[i]) == 1 && Clear(offs, offs[i])
    decreases |offs|
  {
    if i == 0 {
      TimesNone(offs[1..], offs[0]);
    } else {
      assert forall j :: 0 <= j < |offs[1..]| ==> offs[1..][j] == offs[j + 1];
      OnceTimes(offs[1..], i - 1);
    }
  }

  lemma AllFixed(v: seq<byte>, offs: seq<nat>, delta: u32)
    requires InBounds(offs, |v|)
    ensures Fixed(v, AddAll(v, offs, delta), offs, delta)
  {
    hide Get32, AddAll;
    var w := AddAll(v, offs, delta);
    forall i | 0 <= i < |offs| && Once(offs, i) ensures Get32(w, offs[i]) == Add32(Get32(v, offs[i]), delta) {
      OnceTimes(offs, i);
      CellTimes(v, offs, offs[i], delta);
    }
    forall b | 0 <= b < |v| && (forall i :: 0 <= i < |offs| ==> b < offs[i] || offs[i] + 4 <= b) ensures w[b] == v[b] {
      UnlistedByte(v, offs, b, delta);
    }
  }

  // What the fixups do to a tree -------------------------------------------------------------------------------

  // From t to u, delta has been added to the cells offs of property k of the node at p.
  predicate Added(t: Node, u: Node, p: seq<nat>, k: nat, offs: seq<nat>, delta: u32) {
    && HasPath(t, p) && HasPath(u, p) && k < |Down(t, p).props| && k < |Down(u, p).props|
    && AddedTo(Down(t, p).props[k].value, Down(u, p).props[k].value, offs, delta)
  }

  predicate AddedTo(v: seq<byte>, w: seq<byte>, offs: seq<nat>, delta: u32) {
    InBounds(offs, |v|) && w == AddAll(v, offs, delta)
  }

  lemma AddedNone(t: Node, u: Node, p: seq<nat>, k: nat, delta: u32)
    requires HasPath(t, p) && HasPath(u, p) && k < |Down(t, p).props|
    requires k < |Down(u, p).props| && Down(u, p).props[k] == Down(t, p).props[k]
    ensures Added(t, u, p, k, [], delta)
  {
  }

  lemma AddedTwice(t: Node, u: Node, w: Node, p: seq<nat>, k: nat, a: seq<nat>, b: seq<nat>, delta: u32)
    requires Added(t, u, p, k, a, delta) && Added(u, w, p, k, b, delta)
    ensures Added(t, w, p, k, a + b, delta)
  {
    hide AddAll;
    AddAllConcat(Down(t, p).props[k].value, a, b, delta);
  }

  lemma PutLike(t: Node, name: seq<byte>, w: seq<byte>)
    requires PropValue(t, name).Some? && |w| == |PropValue(t, name).value|
    ensures var u := PutProp(t, name, w); Like(t, u) && u.children == t.children && PropValue(u, name) == Some(w)
    ensures PutProp(t, name, w).props == t.props[FirstProp(t.props, name) := Property(name, w)]
  {
    var u := PutProp(t, name, w);
    LikeSelf(t);
    LikeValue(t, u, name);
  }

  // One property of the fixups.
  lemma {:induction false} CellsAdded(t: Node, name: seq<byte>, cells: seq<byte>, delta: u32)
    requires PropValue(t, name).Some? && FixCells(t, name, cells, delta).Success?
    ensures var v, u := PropValue(t, name).value, FixCells(t, name, cells, delta).value;
            && InBounds(Offsets(cells), |v|) && Like(t, u) && u.children == t.children
            && u.props == t.props[FirstProp(t.props, name) := Property(name, AddAll(v, Offsets(cells), delta))]
    decreases |cells|
  {
    hide Get32, CellAdded, PutProp;
    var v := PropValue(t, name).value;
    if |cells| < 4 {
      LikeSelf(t);
    } else {
      var off := Get32(cells, 0) as nat;
      var w := CellAdded(v, off, delta);
      var t1 := PutProp(t, name, w);
      PutLike(t, name, w);
      LikeValue(t, t1, name);
      CellsAdded(t1, name, cells[4..], delta);
      LikeTwice(t, t1, FixCells(t1, name, cells[4..], delta).value);
      AddFirst(v, off, Offsets(cells[4..]), delta);
    }
  }

  lemma AddFirst(v: seq<byte>, off: nat, offs: seq<nat>, delta: u32)
    requires off + 4 <= |v| && InBounds(offs, |v|)
    ensures InBounds([off] + offs, |v|)
    ensures AddAll(v, [off] + offs, delta) == AddAll(CellAdded(v, off, delta), offs, delta)
  {
    hide CellAdded;
    assert ([off] + offs)[1..] == offs;
  }

  lemma {:induction false} PropsAdded(t: Node, ps: seq<Property>, delta: u32, k: nat)
    requires FixProps(t, ps, delta).Success? && k < |t.props|
    ensures var u := FixProps(t, ps, delta).value;
            Like(t, u) && u.children == t.children && Added(t, u, [], k, OwnCells(t.props, ps, k), delta)
    decreases |ps|
  {
    hide AddAll, FixCells;
    if ps == [] {
      LikeSelf(t);
      AddedNone(t, t, [], k, delta);
    } else {
      var p := ps[0];
      var t1 := FixProp(t, p, delta).value;
      CellsAdded(t, p.name, p.value, delta);
      var own := if FirstProp(t.props, p.name) == k then Offsets(p.value) else [];
      if own == [] {
        NoneAdded(t.props[k].value, delta);
      }
      assert Added(t, t1, [], k, own, delta);
      PropsAdded(t1, ps[1..], delta, k);
      LikeOwn(t.props, t1.props, ps[1..], k);
      var u := FixProps(t1, ps[1..], delta).value;
      LikeTwice(t, t1, u);
      AddedTwice(t, t1, u, [], k, own, OwnCells(t.props, ps[1..], k), delta);
    }
  }

  lemma NoneAdded(v: seq<byte>, delta: u32)
    ensures InBounds([], |v|) && AddAll(v, [], delta) == v
  {
  }

  lemma {:induction false} PropsLike(t: Node, ps: seq<Property>, delta: u32)
    requires FixProps(t, ps, delta).Success?
    ensures var u := FixProps(t, ps, delta).value; Like(t, u) && u.children == t.children
    decreases |ps|
  {
    hide FixCells;
    if ps == [] {
      LikeSelf(t);
    } else {
      var t1 := FixProp(t, ps[0], delta).value;
      CellsAdded(t, ps[0].name, ps[0].value, delta);
      PropsLike(t1, ps[1..], delta);
      LikeTwice(t, t1, FixProps(t1, ps[1..], delta).value);
    }
  }

  lemma {:induction false} NodeLike(t: Node, f: Node, delta: u32)
    requires FixNode(t, f, delta).Success?
    ensures Like(t, FixNode(t, f, delta).value)
    decreases f, 0
  {
    hide FixProps;
    var t1 := FixProps(t, f.props, delta).value;
    PropsLike(t, f.props, delta);
    KidsLike(t1, f.children, delta);
    LikeTwice(t, t1, FixKids(t1, f.children, delta).value);
  }

  lemma {:induction false} KidsLike(t: Node, fs: seq<Node>, delta: u32)
    requires FixKids(t, fs, delta).Success?
    ensures var u := FixKids(t, fs, delta).value; Like(t, u) && u.props == t.props
    decreases fs, 0
  {
    hide FixNode, FirstChild;
    if fs == [] {
      LikeSelf(t);
    } else {
      var j := FirstChild(t.children, Some(fs[0].name));
      NodeLike(t.children[j], fs[0], delta);
      var y := FixNode(t.children[j], fs[0], delta).value;
      var t1 := t.(children := t.children[j := y]);
      ChildLike(t, j, y);
      KidsLike(t1, fs[1..], delta);
      LikeTwice(t, t1, FixKids(t1, fs[1..], delta).value);
    }
  }

  lemma ChildLike(t: Node, j: nat, y: Node)
    requires j < |t.children| && Like(t.children[j], y)
    ensures Like(t, t.(children := t.children[j := y]))
  {
    LikeSelf(t);
  }

  // After the fixups each property of each node is the old one with delta added to the cells listed for it.
  lemma {:induction false} NodeAdded(t: Node, f: Node, delta: u32, p: seq<nat>, k: nat)
    requires FixNode(t, f, delta).Success? && HasPath(t, p) && k < |Down(t, p).props|
    ensures Added(t, FixNode(t, f, delta).value, p, k, CellsOf(t, f, p, k), delta)
    decreases f, 0
  {
    hide FixProps, AddedTo, LikeKids;
    var t1 := FixProps(t, f.props, delta).value;
    PropsLike(t, f.props, delta);
    KidsLike(t1, f.children, delta);
    if p == [] {
      PropsAdded(t, f.props, delta, k);
    } else {
      KidsAdded(t1, f.children, delta, p, k);
    }
  }

  lemma {:induction false} KidsAdded(t: Node, fs: seq<Node>, delta: u32, p: seq<nat>, k: nat)
    requires FixKids(t, fs, delta).Success? && p != [] && HasPath(t, p) && k < |Down(t, p).props|
    ensures Added(t, FixKids(t, fs, delta).value, p, k, KidCells(t.children, fs, p, k), delta)
    decreases fs, 0
  {
    hide FixNode, FirstChild, AddedTo, Like, LikeKids;
    if fs == [] {
      AddedNone(t, t, p, k, delta);
    } else {
      var j := FirstChild(t.children, Some(fs[0].name));
      var y := FixNode(t.children[j], fs[0], delta).value;
      var t1 := t.(children := t.children[j := y]);
      NodeLike(t.children[j], fs[0], delta);
      ChildLike(t, j, y);
      LikeDown(t, t1, p);
      assert LikeKids(t.children, t1.children) by { LikeParts(t, t1); }
      assert |Down(t1, p).props| == |Down(t, p).props| by { LikeParts(Down(t, p), Down(t1, p)); }
      var own := if j == p[0] then CellsOf(t.children[p[0]], fs[0], p[1..], k) else [];
      if j == p[0] {
        NodeAdded(t.children[j], fs[0], delta, p[1..], k);
      } else {
        AddedNone(t, t1, p, k, delta);
      }
      KidsAdded(t1, fs[1..], delta, p, k);
      LikeKidCells(t.children, t1.children, fs[1..], p, k);
      AddedTwice(t, t1, FixKids(t1, fs[1..], delta).value, p, k, own, KidCells(t.children, fs[1..], p, k), delta);
    }
  }

  lemma LikeParts(a: Node, b: Node)
    requires Like(a, b)
    ensures LikeKids(a.children, b.children) && LikeProps(a.props, b.props) && |a.props| == |b.props|
  {
  }

  // The fixups change nothing but values, and in the value of every property of every node each cell listed
  // once is increased by delta once, a cell listed n times n times, and bytes in no listed cell are as before.
  lemma CellsFixed(t: Node, f: Node, delta: u32, p: seq<nat>, k: nat)
    requires FixNode(t, f, delta).Success? && HasPath(t, p) && k < |Down(t, p).props|
    ensures var u := FixNode(t, f, delta).value;
            && Like(t, u) && HasPath(u, p) && k < |Down(u, p).props|
            && var v, w, offs := Down(t, p).props[k].value, Down(u, p).props[k].value, CellsOf(t, f, p, k);
               && Fixed(v, w, offs, delta)
               && forall off: nat :: off + 4 <= |v| && Clear(offs, off) ==>
                    Get32(w, off) == Gained(Get32(v, off), Times(offs, off), delta)
  {
    hide FixNode, Get32, CellsOf, AddAll, Times, Clear, Fixed;
    NodeLike(t, f, delta);
    NodeAdded(t, f, delta, p, k);
    var v, offs := Down(t, p).props[k].value, CellsOf(t, f, p, k);
    AllFixed(v, offs, delta);
    forall off: nat | off + 4 <= |v| && Clear(offs, off)
      ensures Get32(AddAll(v, offs, delta), off) == Gained(Get32(v, off), Times(offs, off), delta)
    {
      CellTimes(v, offs, off, delta);
    }
  }

  // The renumbering on paths -----------------------------------------------------------------------------------

  // A name under which a phandle is stored.
  predicate PhandleName(name: seq<byte>) {
    name == PHANDLE || name == LINUX_PHANDLE
  }

  predicate HasPhandle(n: Node) {
    PropValue(n, PHANDLE).Some? || PropValue(n, LINUX_PHANDLE).Some?
  }

  // Adding to one property changes that one only, and not its length.
  lemma AddIfThereLike(n: Node, name: seq<byte>, delta: u32)
    requires AddIfThere(n, name, delta).Success?
    ensures var y := AddIfThere(n, name, delta).value;
            && Like(n, y) && y.children == n.children
            && (forall k :: 0 <= k < |n.props| && n.props[k].name != name ==> y.props[k] == n.props[k])
            && (PropValue(n, name).None? ==> y == n)
            && (PropValue(n, name).Some? ==>
                  && |PropValue(n, name).value| == 4
                  && PropValue(y, name) == Some(Put32(Add32(Get32(PropValue(n, name).value, 0), delta)))
                  && Get32(PropValue(n, name).value, 0) + delta < NO_PHANDLE)
  {
    hide Put32, Get32, PutProp;
    LikeSelf(n);
    if PropValue(n, name).Some? {
      var x := Get32(PropValue(n, name).value, 0);
      AddWraps(x, delta);
      PutLike(n, name, Put32(Add32(x, delta)));
    }
  }

  lemma OwnLike(n: Node, delta: u32)
    requires AdjustOwn(n, delta).Success?
    ensures var y := AdjustOwn(n, delta).value;
            && Like(n, y) && y.children == n.children
            && forall k :: 0 <= k < |n.props| && !PhandleName(n.props[k].name) ==> y.props[k] == n.props[k]
  {
    hide AddIfThere, Put32, Get32;
    var y1 := AddIfThere(n, PHANDLE, delta).value;
    AddIfThereLike(n, PHANDLE, delta);
    AddIfThereLike(y1, LINUX_PHANDLE, delta);
    LikeTwice(n, y1, AdjustOwn(n, delta).value);
  }

  lemma {:induction false} KidAt(ks: seq<Node>, delta: u32, i: nat)
    requires AdjustKids(ks, delta).Success? && i < |ks|
    ensures AdjustNode(ks[i], delta) == Success(AdjustKids(ks, delta).value[i])
    decreases |ks|
  {
    hide AdjustNode;
    if i > 0 {
      KidAt(ks[1..], delta, i - 1);
    }
  }

  lemma {:induction false} AdjustLike(t: Node, delta: u32)
    requires AdjustNode(t, delta).Success?
    ensures Like(t, AdjustNode(t, delta).value)
    decreases t
  {
    hide AdjustOwn, AdjustKids;
    OwnLike(t, delta);
    var u := AdjustNode(t, delta).value;
    forall i | 0 <= i < |t.children| ensures Like(t.children[i], u.children[i]) {
      KidAt(t.children, delta, i);
      AdjustLike(t.children[i], delta);
    }
  }

  // The renumbering of a tree is that of each of its nodes.
  lemma {:induction false} AdjustDown(t: Node, delta: u32, p: seq<nat>)
    requires AdjustNode(t, delta).Success? && HasPath(t, p)
    ensures HasPath(AdjustNode(t, delta).value, p)
    ensures AdjustNode(Down(t, p), delta) == Success(Down(AdjustNode(t, delta).value, p))
    decreases p
  {
    hide AdjustOwn, AdjustKids;
    if p != [] {
      OwnLike(t, delta);
      KidAt(t.children, delta, p[0]);
      AdjustDown(t.children[p[0]], delta, p[1..]);
    }
  }

  // What it does to the node at p.
  lemma AdjustedAt(t: Node, delta: u32, p: seq<nat>)
    requires AdjustNode(t, delta).Success? && HasPath(t, p)
    ensures var u := AdjustNode(t, delta).value;
            && HasPath(u, p) && |Down(u, p).props| == |Down(t, p).props|
            && (forall k :: 0 <= k < |Down(t, p).props| && !PhandleName(Down(t, p).props[k].name) ==>
                  Down(u, p).props[k] == Down(t, p).props[k])
            && (HasPhandle(Down(t, p)) ==> GetPhandle(Down(u, p)) == GetPhandle(Down(t, p)) + delta < NO_PHANDLE)
  {
    hide AdjustOwn, AdjustKids, GetPhandle, PropValue;
    AdjustDown(t, delta, p);
    OwnLike(Down(t, p), delta);
    OwnPhandle(Down(t, p), delta);
    PhandleOfProps(AdjustOwn(Down(t, p), delta).value, Down(AdjustNode(t, delta).value, p));
  }

  // Fixups that list phandles --------------------------------------------------------------------------------

  // No property in this subtree has the name of a phandle.
  predicate Plain(f: Node)
    decreases f
  {
    && (forall k :: 0 <= k < |f.props| ==> !PhandleName(f.props[k].name))
    && forall m :: 0 <= m < |f.children| ==> Plain(f.children[m])
  }

  lemma {:induction false} PlainOwn(props: seq<Property>, ps: seq<Property>, k: nat)
    requires k < |props| && PhandleName(props[k].name) && forall m :: 0 <= m < |ps| ==> !PhandleName(ps[m].name)
    ensures OwnCells(props, ps, k) == []
    decreases |ps|
  {
    hide FirstProp, PhandleName, Offsets;
    if ps != [] {
      assert FirstProp(props, ps[0].name) != k;
      PlainOwn(props, ps[1..], k);
    }
  }

  // Plain fixups list no cell of a phandle.
  lemma {:induction false} PlainCells(t: Node, f: Node, p: seq<nat>, k: nat)
    requires Plain(f) && HasPath(t, p) && k < |Down(t, p).props| && PhandleName(Down(t, p).props[k].name)
    ensures CellsOf(t, f, p, k) == []
    decreases f, 0
  {
    hide PhandleName;
    if p == [] {
      PlainOwn(t.props, f.props, k);
    } else {
      PlainKidCells(t.children, f.children, p, k);
    }
  }

  lemma {:induction false} PlainKidCells(kids: seq<Node>, fs: seq<Node>, p: seq<nat>, k: nat)
    requires p != [] && p[0] < |kids| && HasPath(kids[p[0]], p[1..]) && k < |Down(kids[p[0]], p[1..]).props|
    requires PhandleName(Down(kids[p[0]], p[1..]).props[k].name) && forall m :: 0 <= m < |fs| ==> Plain(fs[m])
    ensures KidCells(kids, fs, p, k) == []
    decreases fs, 0
  {
    hide PhandleName, FirstChild;
    if fs != [] {
      PlainCells(kids[p[0]], fs[0], p[1..], k);
      PlainKidCells(kids, fs[1..], p, k);
    }
  }

  // The renumbering leaves plain fixups alone.
  lemma {:induction false} PlainStays(f: Node, delta: u32)
    requires Plain(f)
    ensures AdjustNode(f, delta) == Success(f)
    decreases f, 0
  {
    hide PropValue;
    NoPhandleValue(f, PHANDLE);
    NoPhandleValue(f, LINUX_PHANDLE);
    PlainKidsStay(f.children, delta);
  }

  lemma NoPhandleValue(f: Node, name: seq<byte>)
    requires (forall k :: 0 <= k < |f.props| ==> !PhandleName(f.props[k].name)) && PhandleName(name)
    ensures PropValue(f, name).None?
  {
    hide PhandleName;
  }

  lemma {:induction false} PlainKidsStay(fs: seq<Node>, delta: u32)
    requires forall m :: 0 <= m < |fs| ==> Plain(fs[m])
    ensures AdjustKids(fs, delta) == Success(fs)
    decreases fs, 0
  {
    hide AdjustNode;
    if fs != [] {
      PlainStays(fs[0], delta);
      PlainKidsStay(fs[1..], delta);
      assert [fs[0]] + fs[1..] == fs;
    }
  }

  // Phandles are single cells.
  predicate Short(n: Node)
    decreases n
  {
    && (PropValue(n, PHANDLE).Some? ==> |PropValue(n, PHANDLE).value| == 4)
    && (PropValue(n, LINUX_PHANDLE).Some? ==> |PropValue(n, LINUX_PHANDLE).value| == 4)
    && forall m :: 0 <= m < |n.children| ==> Short(n.children[m])
  }

  lemma {:induction false} ShortLike(a: Node, b: Node)
    requires Short(a) && Like(a, b)
    ensures Short(b)
    decreases a
  {
    hide PropValue;
    LikeValue(a, b, PHANDLE);
    LikeValue(a, b, LINUX_PHANDLE);
    forall m | 0 <= m < |b.children| ensures Short(b.children[m]) {
      ShortLike(a.children[m], b.children[m]);
    }
  }

  lemma {:induction false} AdjustShort(t: Node, delta: u32)
    requires AdjustNode(t, delta).Success?
    ensures Short(t)
    decreases t
  {
    hide AddIfThere, AdjustKids, PropValue, Put32, Get32;
    OwnShort(t, delta);
    forall i | 0 <= i < |t.children| ensures Short(t.children[i]) {
      KidAt(t.children, delta, i);
      AdjustShort(t.children[i], delta);
    }
  }

  lemma OwnShort(n: Node, delta: u32)
    requires AdjustOwn(n, delta).Success?
    ensures PropValue(n, PHANDLE).Some? ==>
              && |PropValue(n, PHANDLE).value| == 4
              && Get32(PropValue(n, PHANDLE).value, 0) + delta < NO_PHANDLE
              && PropValue(AdjustOwn(n, delta).value, PHANDLE)
                 == Some(Put32(Add32(Get32(PropValue(n, PHANDLE).value, 0), delta)))
    ensures PropValue(n, LINUX_PHANDLE).Some? ==>
              && |PropValue(n, LINUX_PHANDLE).value| == 4
              && Get32(PropValue(n, LINUX_PHANDLE).value, 0) + delta < NO_PHANDLE
              && PropValue(AdjustOwn(n, delta).value, LINUX_PHANDLE)
                 == Some(Put32(Add32(Get32(PropValue(n, LINUX_PHANDLE).value, 0), delta)))
  {
    hide AddIfThere, Put32, Get32;
    assert |LINUX_PHANDLE| != |PHANDLE|;
    var y1 := AddIfThere(n, PHANDLE, delta).value;
    AddIfThereLike(n, PHANDLE, delta);
    LikeValue(n, y1, LINUX_PHANDLE);
    AddIfThereLike(y1, LINUX_PHANDLE, delta);
    LikeValue(y1, AdjustOwn(n, delta).value, PHANDLE);
  }

  // A renumbered property of that name in the fixups lists an offset behind every phandle.
  lemma ListedFails(u: Node, g: Node, name: seq<byte>, delta: u32)
    requires PhandleName(name) && delta >= 1 && AdjustOwn(g, delta).Success? && PropValue(g, name).Some?
    requires PropValue(u, name).Some? ==> |PropValue(u, name).value| == 4
    ensures var v := PropValue(AdjustOwn(g, delta).value, name);
            v.Some? && FixProp(u, Property(name, v.value), delta).Failure?
  {
    hide AdjustOwn, Put32, Get32, PropValue;
    OwnShort(g, delta);
    var x := Get32(PropValue(g, name).value, 0);
    AddWraps(x, delta);
    WholeCell(Add32(x, delta));
    assert |Put32(Add32(x, delta))| == 4 by { PutLength(Add32(x, delta)); }
  }

  // Each property of the fixups has been applied to a tree of the same form.
  lemma {:induction false} AppliedTo(u: Node, ps: seq<Property>, delta: u32, m: nat) returns (w: Node)
    requires FixProps(u, ps, delta).Success? && m < |ps|
    ensures Like(u, w) && FixProp(w, ps[m], delta).Success?
    decreases |ps|
  {
    hide FixCells;
    LikeSelf(u);
    if m == 0 {
      w := u;
    } else {
      var u1 := FixProp(u, ps[0], delta).value;
      CellsAdded(u, ps[0].name, ps[0].value, delta);
      w := AppliedTo(u1, ps[1..], delta, m - 1);
      LikeTwice(u, u1, w);
    }
  }

  // Fixups that are renumbered with the tree and can be applied to it list no phandle.
  lemma {:induction false} OnlyPlain(u: Node, g: Node, delta: u32)
    requires delta >= 1 && Short(u) && AdjustNode(g, delta).Success?
    requires FixNode(u, AdjustNode(g, delta).value, delta).Success?
    ensures Plain(g)
    decreases g, 0
  {
    hide AdjustOwn, AdjustKids, FixProps, FixKids, PropValue;
    var own := AdjustOwn(g, delta).value;
    OwnLike(g, delta);
    NoneListed(u, g, PHANDLE, delta);
    NoneListed(u, g, LINUX_PHANDLE, delta);
    forall k | 0 <= k < |g.props| ensures !PhandleName(g.props[k].name) {
      assert PropValue(g, g.props[k].name).Some? by { NameFound(g, k); }
    }
    var u1 := FixProps(u, own.props, delta).value;
    PropsLike(u, own.props, delta);
    ShortLike(u, u1);
    OnlyPlainKids(u1, g.children, delta);
  }

  lemma NameFound(g: Node, k: nat)
    requires k < |g.props|
    ensures PropValue(g, g.props[k].name).Some?
  {
  }

  lemma NoneListed(u: Node, g: Node, name: seq<byte>, delta: u32)
    requires PhandleName(name) && delta >= 1 && Short(u) && AdjustOwn(g, delta).Success?
    requires FixProps(u, AdjustOwn(g, delta).value.props, delta).Success?
    ensures PropValue(g, name).None?
  {
    hide AdjustOwn, FixProps, FixProp, PropValue;
    if PropValue(g, name).Some? {
      var own := AdjustOwn(g, delta).value;
      ListedFails(u, g, name, delta);
      var m := FirstProp(own.props, name);
      FoundValue(own, name);
      var w := AppliedTo(u, own.props, delta, m);
      ShortLike(u, w);
      ListedFails(w, g, name, delta);
    }
  }

  lemma FoundValue(n: Node, name: seq<byte>)
    requires PropValue(n, name).Some?
    ensures var m := FirstProp(n.props, name); m < |n.props| && n.props[m] == Property(name, PropValue(n, name).value)
  {
  }

  lemma {:induction false} OnlyPlainKids(u: Node, gs: seq<Node>, delta: u32)
    requires delta >= 1 && Short(u) && AdjustKids(gs, delta).Success?
    requires FixKids(u, AdjustKids(gs, delta).value, delta).Success?
    ensures forall m :: 0 <= m < |gs| ==> Plain(gs[m])
    decreases gs, 0
  {
    hide AdjustNode, FixNode, FirstChild, Plain, Short;
    if gs != [] {
      var fs := AdjustKids(gs, delta).value;
      assert fs[1..] == AdjustKids(gs[1..], delta).value;
      var j := FirstChild(u.children, Some(fs[0].name));
      ShortKid(u, j);
      OnlyPlain(u.children[j], gs[0], delta);
      var y := FixNode(u.children[j], fs[0], delta).value;
      NodeLike(u.children[j], fs[0], delta);
      ChildLike(u, j, y);
      ShortLike(u, u.(children := u.children[j := y]));
      OnlyPlainKids(u.(children := u.children[j := y]), gs[1..], delta);
    }
  }

  lemma ShortKid(u: Node, j: nat)
    requires Short(u) && j < |u.children|
    ensures Short(u.children[j])
  {
  }

  // Both passes -----------------------------------------------------------------------------------------------

  // The overlay tree t after the renumbering and the fixups that its child i holds.
  predicate Relocates(t: Node, i: nat, delta: u32, u: Node) {
    && AdjustNode(t, delta).Success? && i < |AdjustNode(t, delta).value.children|
    && FixNode(AdjustNode(t, delta).value, AdjustNode(t, delta).value.children[i], delta) == Success(u)
  }

  lemma AdjustNone(n: Node, name: seq<byte>)
    requires AddIfThere(n, name, 0).Success?
    ensures AddIfThere(n, name, 0).value == n
  {
    hide Put32, Get32;
    if PropValue(n, name).Some? {
      var v := PropValue(n, name).value;
      PutGet32(v, 0);
      assert v[0..4] == v;
    }
  }

  lemma {:induction false} AdjustZero(t: Node)
    requires AdjustNode(t, 0).Success?
    ensures AdjustNode(t, 0).value == t
    decreases t
  {
    hide AddIfThere, AdjustKids;
    AdjustNone(t, PHANDLE);
    AdjustNone(t, LINUX_PHANDLE);
    var ks := AdjustKids(t.children, 0).value;
    forall i | 0 <= i < |t.children| ensures ks[i] == t.children[i] {
      KidAt(t.children, 0, i);
      AdjustZero(t.children[i]);
    }
    assert ks == t.children;
  }

  // The fixups that are applied are those the overlay came with, and they list no phandle unless delta is 0.
  lemma FixupsStay(t: Node, i: nat, delta: u32, u: Node)
    requires Relocates(t, i, delta, u)
    ensures i < |t.children| && AdjustNode(t, delta).value.children[i] == t.children[i]
    ensures delta >= 1 ==> Plain(t.children[i])
  {
    hide AdjustOwn, AdjustKids, FixNode;
    var t1 := AdjustNode(t, delta).value;
    OwnLike(t, delta);
    KidAt(t.children, delta, i);
    if delta == 0 {
      AdjustZero(t);
    } else {
      AdjustShort(t, delta);
      AdjustLike(t, delta);
      ShortLike(t, t1);
      OnlyPlain(t1, t.children[i], delta);
      PlainStays(t.children[i], delta);
    }
  }

  // What both passes leave in a property that holds no phandle.
  lemma RelocatedValue(t: Node, i: nat, delta: u32, u: Node, p: seq<nat>, k: nat)
    requires Relocates(t, i, delta, u) && HasPath(t, p) && k < |Down(t, p).props|
    requires delta == 0 || !PhandleName(Down(t, p).props[k].name)
    ensures i < |t.children| && Added(t, u, p, k, CellsOf(t, t.children[i], p, k), delta)
  {
    hide AdjustNode, FixNode, AddedTo, CellsOf, PhandleName, Like;
    var t1 := AdjustNode(t, delta).value;
    FixupsStay(t, i, delta, u);
    AdjustedAt(t, delta, p);
    AdjustLike(t, delta);
    LikeCells(t, t1, t.children[i], p, k);
    NodeAdded(t1, t.children[i], delta, p, k);
    if delta == 0 {
      AdjustZero(t);
    }
  }

  // The phandle of every node is the old one plus delta.
  lemma RelocatedPhandle(t: Node, i: nat, delta: u32, u: Node, q: seq<nat>)
    requires Relocates(t, i, delta, u) && HasPath(t, q) && HasPhandle(Down(t, q))
    ensures HasPath(u, q) && GetPhandle(Down(u, q)) == GetPhandle(Down(t, q)) + delta < NO_PHANDLE
  {
    hide AdjustNode, FixNode, CellsOf, Like, GetPhandle, PropValue;
    var t1 := AdjustNode(t, delta).value;
    FixupsStay(t, i, delta, u);
    AdjustedAt(t, delta, q);
    NodeLike(t1, t.children[i], delta);
    LikeDown(t1, u, q);
    PhandleSame(t1, t.children[i], u, delta, q, PHANDLE);
    PhandleSame(t1, t.children[i], u, delta, q, LINUX_PHANDLE);
    PhandleOfValues(Down(t1, q), Down(u, q));
  }

  lemma PhandleOfValues(a: Node, b: Node)
    requires PropValue(a, PHANDLE) == PropValue(b, PHANDLE)
    requires PropValue(a, LINUX_PHANDLE) == PropValue(b, LINUX_PHANDLE)
    ensures GetPhandle(a) == GetPhandle(b)
  {
    hide PropValue;
  }

  lemma PhandleSame(t: Node, f: Node, u: Node, delta: u32, q: seq<nat>, name: seq<byte>)
    requires FixNode(t, f, delta) == Success(u) && HasPath(t, q) && HasPath(u, q) && PhandleName(name)
    requires delta == 0 || Plain(f)
    ensures PropValue(Down(u, q), name) == PropValue(Down(t, q), name)
  {
    hide FixNode, CellsOf, PhandleName, Like, AddAll, Plain;
    NodeLike(t, f, delta);
    LikeDown(t, u, q);
    LikeParts(Down(t, q), Down(u, q));
    LikeValue(Down(t, q), Down(u, q), name);
    var k := FirstProp(Down(t, q).props, name);
    if k < |Down(t, q).props| {
      NodeAdded(t, f, delta, q, k);
      var v := Down(t, q).props[k].value;
      if delta == 0 {
        AddNothing(v, CellsOf(t, f, q, k));
      } else {
        PlainCells(t, f, q, k);
        NoneAdded(v, delta);
      }
    }
  }

  // Where a cell that is listed any number of times designates node q afterwards.
  lemma Designates(t: Node, i: nat, delta: u32, u: Node, p: seq<nat>, k: nat, off: nat, q: seq<nat>)
    requires Relocates(t, i, delta, u) && HasPath(t, q) && HasPhandle(Down(t, q))
    requires HasPath(t, p) && k < |Down(t, p).props| && (delta == 0 || !PhandleName(Down(t, p).props[k].name))
    requires off + 4 <= |Down(t, p).props[k].value| && i < |t.children| && Clear(CellsOf(t, t.children[i], p, k), off)
    ensures Added(t, u, p, k, CellsOf(t, t.children[i], p, k), delta) && HasPath(u, q)
    ensures var x, y := Get32(Down(t, p).props[k].value, off), Get32(Down(u, p).props[k].value, off);
            var n := Times(CellsOf(t, t.children[i], p, k), off);
            && (y == GetPhandle(Down(u, q)) <==> Gained(x, n, delta) == GetPhandle(Down(t, q)) + delta)
            && (x == GetPhandle(Down(t, q)) ==> (y == GetPhandle(Down(u, q)) <==> (n * delta) % 0x1_0000_0000 == delta))
  {
    hide AdjustNode, FixNode, CellsOf, PhandleName, Like, GetPhandle, PropValue, Get32, Clear, Times, AddAll, Gained;
    RelocatedValue(t, i, delta, u, p, k);
    RelocatedPhandle(t, i, delta, u, q);
    var v, offs := Down(t, p).props[k].value, CellsOf(t, t.children[i], p, k);
    CellTimes(v, offs, off, delta);
    Compare(Get32(v, off), Times(offs, off), delta, GetPhandle(Down(t, q)));
  }

  lemma Compare(x: u32, n: nat, delta: u32, phandle: u32)
    requires phandle + delta < 0x1_0000_0000
    ensures x == phandle ==>
              (Gained(x, n, delta) == phandle + delta <==> (n * delta) % 0x1_0000_0000 == delta)
  {
    WrapShift(phandle, n * delta, delta);
  }

  lemma WrapShift(x: nat, a: nat, d: nat)
    requires x + d < 0x1_0000_0000
    ensures (x + a) % 0x1_0000_0000 == x + d <==> a % 0x1_0000_0000 == d
  {
    var m := 0x1_0000_0000;
    var r := a % m;
    WrapSum(a, x);
    assert r + x < m || (r + x) % m == r + x - m;
  }

  // A cell that the fixups list once designates a node after the renumbering and the fixups if and only if it
  // did so before.
  lemma StillDesignates(t: Node, i: nat, delta: u32, u: Node, p: seq<nat>, k: nat, j: nat, q: seq<nat>)
    requires Relocates(t, i, delta, u) && HasPath(t, q) && HasPhandle(Down(t, q))
    requires HasPath(t, p) && k < |Down(t, p).props| && i < |t.children|
    requires j < |CellsOf(t, t.children[i], p, k)| && Once(CellsOf(t, t.children[i], p, k), j)
    ensures HasPath(u, p) && HasPath(u, q) && k < |Down(u, p).props|
    ensures var v, w, off := Down(t, p).props[k].value, Down(u, p).props[k].value, CellsOf(t, t.children[i], p, k)[j];
            && off + 4 <= |v| == |w|
            && (Get32(w, off) == GetPhandle(Down(u, q)) <==> Get32(v, off) == GetPhandle(Down(t, q)))
  {
    hide AdjustNode, FixNode, CellsOf, PhandleName, Like, GetPhandle, PropValue, Get32, Clear, Times, AddAll, Once,
      Plain;
    var offs := CellsOf(t, t.children[i], p, k);
    FixupsStay(t, i, delta, u);
    if delta >= 1 && PhandleName(Down(t, p).props[k].name) {
      PlainCells(t, t.children[i], p, k);
    }
    RelocatedValue(t, i, delta, u, p, k);
    OnceTimes(offs, j);
    Designates(t, i, delta, u, p, k, offs[j], q);
    var x, phandle := Get32(Down(t, p).props[k].value, offs[j]), GetPhandle(Down(t, q));
    RelocatedPhandle(t, i, delta, u, q);
    assert Gained(x, 1, delta) == phandle + delta <==> x == phandle by { ShiftBack(x, phandle, delta); }
  }

  lemma ShiftBack(x: u32, y: u32, d: u32)
    requires y + d < 0x1_0000_0000
    ensures (x + d) % 0x1_0000_0000 == y + d <==> x == y
  {
  }

  // When the fixups do not list a cell once ----------------------------------------------------------------------

  // Fixups inside the overlay that list the phandle of a node are rejected.
  lemma PhandleListedFails(t: Node, i: nat, delta: u32)
    requires AdjustNode(t, delta).Success? && i < |t.children| && !Plain(t.children[i]) && delta >= 1
    ensures !exists u :: Relocates(t, i, delta, u)
  {
    hide Relocates, Plain, AdjustNode;
    if u :| Relocates(t, i, delta, u) {
      FixupsStay(t, i, delta, u);
    }
  }

  // Fixups from elsewhere, which are not renumbered: a phandle that they list is shifted again each time.
  lemma PhandleListedApart(t: Node, f: Node, delta: u32, u: Node, q: seq<nat>)
    requires AdjustNode(t, delta).Success? && FixNode(AdjustNode(t, delta).value, f, delta) == Success(u)
    requires HasPath(t, q) && PropValue(Down(t, q), PHANDLE).Some?
    ensures HasPath(u, q)
    ensures var n := Times(CellsOf(t, f, q, FirstProp(Down(t, q).props, PHANDLE)), 0);
            GetPhandle(Down(u, q)) == Gained(GetPhandle(Down(t, q)), 1 + n, delta)
  {
    hide AdjustNode, FixNode, CellsOf, Like, Get32, Put32, Times, AddAll;
    var t1 := AdjustNode(t, delta).value;
    var k := FirstProp(Down(t, q).props, PHANDLE);
    AdjustLike(t, delta);
    LikeDown(t, t1, q);
    LikeParts(Down(t, q), Down(t1, q));
    LikeValue(Down(t, q), Down(t1, q), PHANDLE);
    LikeCells(t, t1, f, q, k);
    NodeLike(t1, f, delta);
    LikeDown(t1, u, q);
    LikeParts(Down(t1, q), Down(u, q));
    LikeValue(Down(t1, q), Down(u, q), PHANDLE);
    NodeAdded(t1, f, delta, q, k);
    var x := GetPhandle(Down(t, q));
    AdjustedPhandle(t, delta, q);
    var v, offs := Down(t1, q).props[k].value, CellsOf(t, f, q, k);
    assert Clear(offs, 0) by { assert forall i :: 0 <= i < |offs| ==> offs[i] + 4 <= 4; }
    CellTimes(v, offs, 0, delta);
    AddMany(x, delta, Times(offs, 0));
  }

  lemma AdjustedPhandle(t: Node, delta: u32, q: seq<nat>)
    requires AdjustNode(t, delta).Success? && HasPath(t, q) && PropValue(Down(t, q), PHANDLE).Some?
    ensures HasPath(AdjustNode(t, delta).value, q)
    ensures var v := PropValue(Down(AdjustNode(t, delta).value, q), PHANDLE);
            v.Some? && |v.value| == 4 && Get32(v.value, 0) == Add32(GetPhandle(Down(t, q)), delta)
  {
    hide AdjustOwn, AdjustKids, Get32, Put32, FirstProp;
    AdjustDown(t, delta, q);
    OwnShort(Down(t, q), delta);
    var x := Get32(PropValue(Down(t, q), PHANDLE).value, 0);
    WholeCell(Add32(x, delta));
    PutLength(Add32(x, delta));
  }

  // A tree with one child x@1, whose property r is a cell.
  function OneCell(x: u32): Node {
    Node([], [], [Node([0x78, 0x40, 0x31], [Property([0x72], Put32(x))], [])])
  }

  // A fixup node with that name that lists this cell in n properties.
  function Listing(name: seq<byte>, n: nat): Node {
    Node(name, seq(n, _ => Property([0x72], [0, 0, 0, 0])), [])
  }

  lemma CellOnce(name: seq<byte>, x: u32, delta: u32)
    ensures FixProp(Node(name, [Property([0x72], Put32(x))], []), Property([0x72], [0, 0, 0, 0]), delta)
         == Success(Node(name, [Property([0x72], Put32(Add32(x, delta)))], []))
  {
    hide Put32, Get32;
    var t := Node(name, [Property([0x72], Put32(x))], []);
    PutLength(x);
    PutLength(Add32(x, delta));
    WholeCell(x);
    assert Get32([0, 0, 0, 0], 0) == 0 by { ZeroCell(); }
    assert CellAdded(Put32(x), 0, delta) == Put32(Add32(x, delta));
    assert FirstProp(t.props, [0x72]) == 0;
    assert PropValue(t, [0x72]) == Some(Put32(x));
    assert PutProp(t, [0x72], Put32(Add32(x, delta))) == Node(name, [Property([0x72], Put32(Add32(x, delta)))], []);
    var cells: seq<byte> := [0, 0, 0, 0];
    assert |cells[4..]| == 0;
    assert FixCells(PutProp(t, [0x72], Put32(Add32(x, delta))), [0x72], cells[4..], delta)
        == Success(PutProp(t, [0x72], Put32(Add32(x, delta))));
  }

  lemma ZeroCell()
    ensures Get32([0, 0, 0, 0], 0) == 0
  {
  }

  lemma {:induction false} ListedTimes(x: u32, n: nat, name: seq<byte>, delta: u32)
    ensures FixNode(OneCell(x).children[0], Listing(name, n), delta)
            == Success(OneCell(Gained(x, n, delta)).children[0])
    decreases n
  {
    hide FixProp, Put32;
    var t, f := OneCell(x).children[0], Listing(name, n);
    assert FixNode(t, f, delta) == FixProps(t, f.props, delta) by { LeafFix(t, f, delta); }
    if n > 0 {
      CellOnce(t.name, x, delta);
      ListedTimes(Add32(x, delta), n - 1, name, delta);
      assert f.props[1..] == Listing(name, n - 1).props;
      LeafFix(OneCell(Add32(x, delta)).children[0], Listing(name, n - 1), delta);
      AddMany(x, delta, n - 1);
    }
  }

  lemma LeafFix(t: Node, f: Node, delta: u32)
    requires f.children == []
    ensures FixNode(t, f, delta) == FixProps(t, f.props, delta)
  {
    hide FixProps;
    if FixProps(t, f.props, delta).Success? {
      assert FixKids(FixProps(t, f.props, delta).value, [], delta) == FixProps(t, f.props, delta);
    }
  }

  // Fixups with one child whose name means the child of the tree, and their effect on it.
  lemma ChildFix(x: u32, n: nat, name: seq<byte>, rest: seq<Node>, delta: u32)
    requires NodeNameEq([0x78, 0x40, 0x31], name)
    ensures FixKids(OneCell(x), [Listing(name, n)] + rest, delta) == FixKids(OneCell(Gained(x, n, delta)), rest, delta)
  {
    hide FixNode, Put32, Listing, NodeNameEq;
    var t, fs := OneCell(x), [Listing(name, n)] + rest;
    assert fs[0] == Listing(name, n) && fs[1..] == rest;
    assert Listing(name, n).name == name by { NameOfListing(name, n); }
    assert FirstChild(t.children, Some(name)) == 0;
    ListedTimes(x, n, name, delta);
    var y := OneCell(Gained(x, n, delta));
    assert FixNode(t.children[0], fs[0], delta) == Success(y.children[0]);
    assert t.children[0 := y.children[0]] == y.children;
    assert t.(children := t.children[0 := y.children[0]]) == y;
  }

  lemma NameOfListing(name: seq<byte>, n: nat)
    ensures Listing(name, n).name == name
  {
  }

  // Two properties of the same name in the fixups: delta is added to the cell twice.
  lemma TwoProperties(x: u32, delta: u32)
    ensures FixNode(OneCell(x), Node([], [], [Listing([0x78, 0x40, 0x31], 2)]), delta)
         == Success(OneCell(Gained(x, 2, delta)))
  {
    hide FixKids, OneCell, Listing;
    var f := Listing([0x78, 0x40, 0x31], 2);
    ChildFix(x, 2, [0x78, 0x40, 0x31], [], delta);
    assert [f] + [] == [f];
    NoFix(OneCell(x), [f], delta);
    NoFix(OneCell(Gained(x, 2, delta)), [], delta);
  }

  // Two children of the fixups, x and x@1, that both mean the child x@1 of the tree: the same.
  lemma TwoNames(x: u32, delta: u32)
    ensures FixNode(OneCell(x), Node([], [], [Listing([0x78], 1), Listing([0x78, 0x40, 0x31], 1)]), delta)
         == Success(OneCell(Gained(x, 2, delta)))
  {
    hide FixKids, OneCell, Listing;
    var f, g := Listing([0x78], 1), Listing([0x78, 0x40, 0x31], 1);
    ChildFix(x, 1, [0x78], [g], delta);
    ChildFix(Add32(x, delta), 1, [0x78, 0x40, 0x31], [], delta);
    assert [f] + [g] == [f, g] && [g] + [] == [g];
    NoFix(OneCell(x), [f, g], delta);
    AddMany(x, delta, 1);
    NoFix(OneCell(Gained(x, 2, delta)), [], delta);
  }

  lemma NoFix(t: Node, fs: seq<Node>, delta: u32)
    ensures FixNode(t, Node([], [], fs), delta) == FixKids(t, fs, delta)
    ensures FixKids(t, [], delta) == Success(t)
  {
  }
}
