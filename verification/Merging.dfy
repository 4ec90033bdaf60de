// Merging an overlay twice: when it changes nothing more, and when it does.
module Merging {
  import opened Bytes
  import opened Structure
  import opened Scan
  import opened Edits
  import opened Editor
  import opened Children
  import opened MergeTrees

  // Properties ------------------------------------------------------------------------------

  predicate HasProp(t: Node, name: seq<byte>) {
    FirstProp(t.props, name) < |t.props|
  }

  predicate Names(ps: seq<Property>, name: seq<byte>) {
    exists k :: 0 <= k < |ps| && ps[k].name == name
  }

  lemma PutHas(t: Node, n: seq<byte>, q: seq<byte>, w: seq<byte>)
    ensures HasProp(PutProp(t, q, w), n) <==> n == q || HasProp(t, n)
  {
    var y := PutProp(t, q, w);
    var m := FirstProp(t.props, q);
    if HasProp(t, n) && m == |t.props| {
      assert y.props[FirstProp(t.props, n) + 1].name == n;
    } else if HasProp(t, n) {
      assert y.props[FirstProp(t.props, n)].name == n;
    }
    assert y.props[if m < |t.props| then m else 0].name == q;
  }

  lemma FirstAfterPut(t: Node, n: seq<byte>, q: seq<byte>, w: seq<byte>)
    requires HasProp(t, n)
    ensures var m := FirstProp(t.props, n);
            FirstProp(PutProp(t, q, w).props, n) == if HasProp(t, q) || q == n then m else m + 1
  {
    var m := FirstProp(t.props, n);
    var y := PutProp(t, q, w);
    FirstPropIs(y.props, n, if HasProp(t, q) || q == n then m else m + 1);
  }

  lemma PutSwap(t: Node, n: seq<byte>, v: seq<byte>, q: seq<byte>, w: seq<byte>)
    requires n != q && HasProp(t, n)
    ensures PutProp(PutProp(t, n, v), q, w) == PutProp(PutProp(t, q, w), n, v)
  {
    FirstAfterPut(t, n, q, w);
    PutHas(t, q, n, v);
    if HasProp(t, q) {
      FirstAfterPut(t, q, n, v);
    }
    assert PutProp(PutProp(t, n, v), q, w).props == PutProp(PutProp(t, q, w), n, v).props;
  }

  // A value that a later property overrides does not matter.
  lemma {:induction false} Overridden(t: Node, n: seq<byte>, v: seq<byte>, ps: seq<Property>)
    requires HasProp(t, n) && Names(ps, n)
    ensures MergeProps(PutProp(t, n, v), ps) == MergeProps(t, ps)
    decreases |ps|
  {
    var p := ps[0];
    if p.name == n {
      PutTwice(t, n, v, p.value);
    } else {
      PutSwap(t, n, v, p.name, p.value);
      PutHas(t, n, p.name, p.value);
      NamesTail(ps, n);
      Overridden(PutProp(t, p.name, p.value), n, v, ps[1..]);
    }
  }

  lemma NamesTail(ps: seq<Property>, n: seq<byte>)
    requires Names(ps, n) && ps[0].name != n
    ensures Names(ps[1..], n)
  {
    var k :| 0 <= k < |ps| && ps[k].name == n;
    assert ps[1..][k - 1].name == n;
  }

  // A value that no later property overrides stays.
  lemma {:induction false} KeptValue(t: Node, n: seq<byte>, v: seq<byte>, ps: seq<Property>)
    requires HasProp(t, n) && PutProp(t, n, v) == t && !Names(ps, n)
    ensures PutProp(MergeProps(t, ps), n, v) == MergeProps(t, ps)
    decreases |ps|
  {
    if ps != [] {
      var p := ps[0];
      PutSwap(t, n, v, p.name, p.value);
      PutHas(t, n, p.name, p.value);
      KeptValue(PutProp(t, p.name, p.value), n, v, ps[1..]);
    }
  }

  lemma {:induction false} MergeHas(t: Node, n: seq<byte>, ps: seq<Property>)
    ensures HasProp(MergeProps(t, ps), n) <==> HasProp(t, n) || Names(ps, n)
    decreases |ps|
  {
    if ps != [] {
      PutHas(t, n, ps[0].name, ps[0].value);
      MergeHas(PutProp(t, ps[0].name, ps[0].value), n, ps[1..]);
      if ps[0].name != n && Names(ps, n) {
        NamesTail(ps, n);
      }
    }
  }

  // Merging the same properties again changes nothing, repeated names included.
  lemma {:induction false} PropsTwice(t: Node, ps: seq<Property>)
    ensures MergeProps(MergeProps(t, ps), ps) == MergeProps(t, ps)
    decreases |ps|
  {
    if ps != [] {
      var p, rest := ps[0], ps[1..];
      var y := PutProp(t, p.name, p.value);
      var z := MergeProps(y, rest);
      PropsTwice(y, rest);
      PutHas(t, p.name, p.name, p.value);
      MergeHas(y, p.name, rest);
      if Names(rest, p.name) {
        Overridden(z, p.name, p.value, rest);
      } else {
        PutTwice(t, p.name, p.value, p.value);
        KeptValue(y, p.name, p.value, rest);
      }
    }
  }

  // Parts of a merge --------------------------------------------------------------------------

  lemma {:induction false} MergePropsParts(t: Node, ps: seq<Property>)
    ensures MergeProps(t, ps).name == t.name && MergeProps(t, ps).children == t.children
    decreases |ps|
  {
    if ps != [] {
      MergePropsParts(PutProp(t, ps[0].name, ps[0].value), ps[1..]);
    }
  }

  lemma {:induction false} MergeKidsParts(t: Node, ks: seq<Node>)
    ensures MergeKids(t, ks).name == t.name && MergeKids(t, ks).props == t.props
    decreases |ks|
  {
    if ks != [] {
      MergeKidsParts(MergeChild(t, ks[0]), ks[1..]);
    }
  }

  lemma MergeKeepsName(t: Node, o: Node)
    ensures MergeNode(t, o).name == t.name
  {
    MergePropsParts(t, o.props);
    MergeKidsParts(MergeProps(t, o.props), o.children);
  }

  // What merging properties does depends on the properties alone.
  lemma {:induction false} SamePropsMerge(x: Node, y: Node, ps: seq<Property>)
    requires x.props == y.props
    ensures MergeProps(x, ps).props == MergeProps(y, ps).props
    ensures MergeProps(y, ps) == y.(props := MergeProps(y, ps).props)
    decreases |ps|
  {
    if ps != [] {
      SamePropsMerge(PutProp(x, ps[0].name, ps[0].value), PutProp(y, ps[0].name, ps[0].value), ps[1..]);
    }
  }

  // What merging children does depends on the children alone.
  lemma {:induction false} SameKidsMerge(x: Node, y: Node, ks: seq<Node>)
    requires x.children == y.children
    ensures MergeKids(x, ks).children == MergeKids(y, ks).children
    ensures MergeKids(y, ks) == y.(children := MergeKids(y, ks).children)
    decreases |ks|
  {
    hide MergeNode, FirstChild;
    if ks != [] {
      SameKidsMerge(MergeChild(x, ks[0]), MergeChild(y, ks[0]), ks[1..]);
    }
  }

  // Properties and children do not interfere.
  lemma Commute(t: Node, ks: seq<Node>, ps: seq<Property>)
    ensures MergeProps(MergeKids(t, ks), ps) == MergeKids(MergeProps(t, ps), ks)
  {
    hide MergeProps, MergeKids;
    var y, z := MergeKids(t, ks), MergeProps(t, ps);
    MergeKidsParts(t, ks);
    MergePropsParts(t, ps);
    SamePropsMerge(t, y, ps);
    SamePropsMerge(t, t, ps);
    SameKidsMerge(t, z, ks);
    SameKidsMerge(t, t, ks);
    MergePropsParts(y, ps);
    MergeKidsParts(z, ks);
  }

  lemma {:induction false} MergePropsConcat(t: Node, ps: seq<Property>, qs: seq<Property>)
    ensures MergeProps(t, ps + qs) == MergeProps(MergeProps(t, ps), qs)
    decreases |ps|
  {
    if ps == [] {
      assert ps + qs == qs;
    } else {
      assert (ps + qs)[1..] == ps[1..] + qs;
      MergePropsConcat(PutProp(t, ps[0].name, ps[0].value), ps[1..], qs);
    }
  }

  lemma {:induction false} MergeKidsConcat(t: Node, ks: seq<Node>, ls: seq<Node>)
    ensures MergeKids(t, ks + ls) == MergeKids(MergeKids(t, ks), ls)
    decreases |ks|
  {
    hide MergeChild;
    if ks == [] {
      assert ks + ls == ls;
    } else {
      assert (ks + ls)[1..] == ks[1..] + ls;
      MergeKidsConcat(MergeChild(t, ks[0]), ks[1..], ls);
    }
  }

  // Several overlay nodes as one.
  function Joined(ks: seq<Node>): Node {
    if ks == [] then Node([], [], [])
    else Node([], ks[0].props + Joined(ks[1..]).props, ks[0].children + Joined(ks[1..]).children)
  }

  lemma MergeBoth(t: Node, a: Node, b: Node)
    ensures MergeNode(MergeNode(t, a), b) == MergeNode(t, Node([], a.props + b.props, a.children + b.children))
  {
    hide MergeProps, MergeKids;
    var p := MergeProps(t, a.props);
    Commute(p, a.children, b.props);
    MergePropsConcat(t, a.props, b.props);
    MergeKidsConcat(MergeProps(p, b.props), a.children, b.children);
  }

  // Names --------------------------------------------------------------------------------------

  lemma AtNames(n: seq<byte>, s: seq<byte>)
    ensures NodeNameEq(n, n)
    ensures AT_SIGN in s || AT_SIGN !in n ==> (NodeNameEq(n, s) <==> n == s)
  {
  }

  // A name that finds n without being n ends in front of its first '@'.
  lemma StemOf(n: seq<byte>, a: seq<byte>)
    requires NodeNameEq(n, a) && a != n
    ensures |a| < |n| && n[|a|] == AT_SIGN && forall k :: 0 <= k < |a| ==> n[k] == a[k] != AT_SIGN
  {
    assert n[..|a|] == a;
  }

  // There is at most one.
  lemma OneStem(n: seq<byte>, a: seq<byte>, b: seq<byte>)
    requires NodeNameEq(n, a) && NodeNameEq(n, b) && a != n && b != n
    ensures a == b
  {
    hide NodeNameEq;
    StemOf(n, a);
    StemOf(n, b);
    assert |a| == |b|;
  }

  // Choosing siblings: by their name, by a search that finds n, or by the child that a search finds.
  datatype Pick = Exact(n: seq<byte>) | Finds(n: seq<byte>) | Place(kids: seq<Node>, m: nat)
  {
    predicate Has(name: seq<byte>) {
      match this
      case Exact(n) => name == n
      case Finds(n) => NodeNameEq(n, name)
      case Place(kids, m) => FirstChild(kids, Some(name)) == m
    }
  }

  function Picked(ks: seq<Node>, pick: Pick): (r: seq<Node>) {
    if ks == [] then []
    else if pick.Has(ks[0].name) then [ks[0]] + Picked(ks[1..], pick)
    else Picked(ks[1..], pick)
  }

  lemma {:induction false} SamePicked(ks: seq<Node>, a: Pick, b: Pick)
    requires forall i :: 0 <= i < |ks| ==> (a.Has(ks[i].name) <==> b.Has(ks[i].name))
    ensures Picked(ks, a) == Picked(ks, b)
    decreases |ks|
  {
    hide Pick.Has;
    if ks != [] {
      SamePicked(ks[1..], a, b);
    }
  }

  // The children of the chosen siblings, in order.
  function Inside(ks: seq<Node>, pick: Pick): seq<Node> {
    Joined(Picked(ks, pick)).children
  }

  function Size(ks: seq<Node>): nat {
    if ks == [] then 0 else 1 + Size(ks[0].children) + Size(ks[1..])
  }

  lemma {:induction false} SizeConcat(a: seq<Node>, b: seq<Node>)
    ensures Size(a + b) == Size(a) + Size(b)
    decreases |a|
  {
    if a == [] {
      assert a + b == b;
    } else {
      assert (a + b)[1..] == a[1..] + b;
      SizeConcat(a[1..], b);
    }
  }

  lemma {:induction false} SizeInside(ks: seq<Node>, pick: Pick)
    ensures Size(Inside(ks, pick)) <= Size(ks)
    ensures forall i :: 0 <= i < |ks| && pick.Has(ks[i].name) ==> Size(Inside(ks, pick)) < Size(ks)
    decreases |ks|
  {
    hide Pick.Has;
    if ks != [] {
      SizeInside(ks[1..], pick);
      if pick.Has(ks[0].name) {
        var rest := Picked(ks[1..], pick);
        assert ([ks[0]] + rest)[1..] == rest;
        SizeConcat(ks[0].children, Joined(rest).children);
      }
    }
  }

  // No later sibling name that was not there before is one that a search for an earlier sibling finds: no
  // x@1 behind x, unless in front of x there is another x@1.
  predicate InOrder(ks: seq<Node>) {
    forall i, j :: 0 <= i < j < |ks| && NodeNameEq(ks[j].name, ks[i].name) ==> Seen(ks, j)
  }

  predicate Seen(ks: seq<Node>, j: nat)
    requires j < |ks|
  {
    exists k :: 0 <= k < j && ks[k].name == ks[j].name
  }

  // And the same holds inside all siblings that can come to be merged into the same node.
  predicate Stable(ks: seq<Node>)
    decreases Size(ks)
  {
    && InOrder(ks)
    && forall i :: 0 <= i < |ks| ==> StableAt(ks, i)
  }

  predicate StableAt(ks: seq<Node>, i: nat)
    requires i < |ks|
    decreases Size(ks), 0
  {
    var n := ks[i].name;
    AtNames(n, n);
    SizeInside(ks, Exact(n));
    SizeInside(ks, Finds(n));
    assert Exact(n).Has(ks[i].name) && Finds(n).Has(ks[i].name);
    Stable(Inside(ks, Exact(n))) && Stable(Inside(ks, Finds(n)))
  }

  // New children first ---------------------------------------------------------------------------

  predicate Resolves(t: Node, name: seq<byte>) {
    FirstChild(t.children, Some(name)) < |t.children|
  }

  // The node with all children that a merge adds, still empty.
  function WithAll(t: Node, ks: seq<Node>): Node
    decreases |ks|
  {
    if ks == [] then t else WithAll(WithChild(t, ks[0].name), ks[1..])
  }

  // Every new sibling is one that no search for an earlier one finds.
  predicate Quiet(t: Node, ks: seq<Node>) {
    forall i, j :: 0 <= i < j < |ks| && NodeNameEq(ks[j].name, ks[i].name) ==> Seen(ks, j) || Resolves(t, ks[j].name)
  }

  predicate QuietFor(t: Node, name: seq<byte>, ks: seq<Node>) {
    forall j :: 0 <= j < |ks| && NodeNameEq(ks[j].name, name) ==> Seen(ks, j) || Resolves(t, ks[j].name)
  }

  lemma FirstChildIs(kids: seq<Node>, want: Option<seq<byte>>, m: nat)
    requires m < |kids| && Matches(kids[m].name, want) && forall j :: 0 <= j < m ==> !Matches(kids[j].name, want)
    ensures FirstChild(kids, want) == m
  {
  }

  // A merged child that resolved before.
  lemma MergedHere(t: Node, c: Node)
    requires Resolves(t, c.name)
    ensures var m := FirstChild(t.children, Some(c.name));
            && MergeChild(t, c) == t.(children := t.children[m := MergeNode(t.children[m], c)])
            && SameNames(MergeChild(t, c).children, t.children)
  {
    hide MergeNode;
    MergeKeepsName(t.children[FirstChild(t.children, Some(c.name))], c);
  }

  lemma ResolvesNames(t: Node, u: Node, name: seq<byte>)
    requires SameNames(t.children, u.children)
    ensures Resolves(t, name) <==> Resolves(u, name)
  {
    hide FirstChild;
    SameFirst(t.children, u.children, Some(name));
  }

  lemma WithChildResolves(t: Node, d: seq<byte>, name: seq<byte>)
    ensures Resolves(WithChild(t, d), d)
    ensures Resolves(t, name) ==> Resolves(WithChild(t, d), name)
  {
    FirstChildCons(Node(d, [], []), t.children, Some(name));
  }

  lemma WithChildMerged(u: Node, c: Node, d: seq<byte>)
    requires Resolves(u, c.name) && (NodeNameEq(d, c.name) ==> Resolves(u, d))
    ensures WithChild(MergeChild(u, c), d) == MergeChild(WithChild(u, d), c)
    ensures Resolves(WithChild(u, d), c.name)
  {
    hide MergeNode, FirstChild, NodeNameEq;
    MergedHere(u, c);
    WithChildResolves(u, d, c.name);
    ResolvesNames(u, MergeChild(u, c), d);
    if !Resolves(u, d) {
      var w := PutChild(u, d);
      FirstChildCons(Node(d, [], []), u.children, Some(c.name));
      MergedHere(w, c);
      var m := FirstChild(u.children, Some(c.name));
      assert w.children[m + 1 := MergeNode(u.children[m], c)]
        == [Node(d, [], [])] + u.children[m := MergeNode(u.children[m], c)];
    }
  }

  lemma QuietTail(t: Node, name: seq<byte>, ks: seq<Node>)
    requires ks != [] && QuietFor(t, name, ks)
    ensures QuietFor(WithChild(t, ks[0].name), name, ks[1..])
  {
    hide NodeNameEq, FirstChild;
    var u, ls := WithChild(t, ks[0].name), ks[1..];
    forall j | 0 <= j < |ls| && NodeNameEq(ls[j].name, name) ensures Seen(ls, j) || Resolves(u, ls[j].name) {
      assert ls[j] == ks[j + 1];
      WithChildResolves(t, ks[0].name, ls[j].name);
      if Seen(ks, j + 1) {
        var k :| 0 <= k < j + 1 && ks[k].name == ks[j + 1].name;
        assert k > 0 ==> ls[k - 1].name == ls[j].name;
      }
    }
  }

  lemma {:induction false} WithAllMerged(u: Node, c: Node, ks: seq<Node>)
    requires Resolves(u, c.name) && QuietFor(u, c.name, ks)
    ensures WithAll(MergeChild(u, c), ks) == MergeChild(WithAll(u, ks), c)
    decreases |ks|
  {
    hide MergeChild, WithChild, NodeNameEq, Resolves, QuietFor;
    if ks != [] {
      var d := ks[0].name;
      QuietHead(u, c.name, ks);
      WithChildMerged(u, c, d);
      QuietTail(u, c.name, ks);
      WithAllMerged(WithChild(u, d), c, ks[1..]);
    }
  }

  lemma QuietHead(t: Node, name: seq<byte>, ks: seq<Node>)
    requires ks != [] && QuietFor(t, name, ks)
    ensures NodeNameEq(ks[0].name, name) ==> Resolves(t, ks[0].name)
  {
    hide NodeNameEq, FirstChild;
    assert !Seen(ks, 0);
  }

  lemma QuietMerged(t: Node, ks: seq<Node>)
    requires ks != [] && Quiet(t, ks)
    ensures QuietFor(WithChild(t, ks[0].name), ks[0].name, ks[1..]) && Quiet(MergeChild(t, ks[0]), ks[1..])
  {
    hide NodeNameEq, FirstChild, MergeChild;
    var c, u, ls := ks[0], WithChild(t, ks[0].name), ks[1..];
    WithChildResolves(t, c.name, c.name);
    MergeWith(t, c);
    MergedHere(u, c);
    forall i, j | 0 <= i <= j < |ls| && NodeNameEq(ls[j].name, ks[i].name)
      ensures Seen(ls, j) || (Resolves(u, ls[j].name) && Resolves(MergeChild(t, c), ls[j].name))
    {
      assert ls[j] == ks[j + 1];
      assert Seen(ks, j + 1) || Resolves(t, ks[j + 1].name);
      WithChildResolves(t, c.name, ls[j].name);
      ResolvesNames(u, MergeChild(u, c), ls[j].name);
      if Seen(ks, j + 1) {
        var k :| 0 <= k < j + 1 && ks[k].name == ks[j + 1].name;
        assert k > 0 ==> ls[k - 1].name == ls[j].name;
      }
    }
    forall i, j | 0 <= i < j < |ls| && NodeNameEq(ls[j].name, ls[i].name)
      ensures Seen(ls, j) || Resolves(MergeChild(t, c), ls[j].name)
    {
      assert ls[i] == ks[i + 1];
    }
    forall j | 0 <= j < |ls| && NodeNameEq(ls[j].name, c.name) ensures Seen(ls, j) || Resolves(u, ls[j].name) {
      assert ks[0] == c;
    }
  }

  lemma MergeWith(t: Node, c: Node)
    ensures MergeChild(WithChild(t, c.name), c) == MergeChild(t, c)
  {
    hide MergeNode;
    NewChildFirst(t, c.name);
  }

  // A quiet merge is the same if all new children are there from the start.
  lemma {:induction false} AddedFirst(t: Node, ks: seq<Node>)
    requires Quiet(t, ks)
    ensures MergeKids(t, ks) == MergeKids(WithAll(t, ks), ks)
    decreases |ks|
  {
    hide MergeChild, WithChild, Quiet, QuietFor, Resolves;
    if ks != [] {
      var c, u := ks[0], WithChild(t, ks[0].name);
      QuietMerged(t, ks);
      AddedFirst(MergeChild(t, c), ks[1..]);
      WithChildResolves(t, c.name, c.name);
      WithAllMerged(u, c, ks[1..]);
      MergeWith(t, c);
    }
  }

  predicate AllResolve(t: Node, ks: seq<Node>) {
    forall i :: 0 <= i < |ks| ==> Resolves(t, ks[i].name)
  }

  lemma {:induction false} WithAllKeeps(t: Node, ks: seq<Node>, name: seq<byte>)
    requires Resolves(t, name)
    ensures Resolves(WithAll(t, ks), name)
    decreases |ks|
  {
    hide WithChild, Resolves;
    if ks != [] {
      WithChildResolves(t, ks[0].name, name);
      WithAllKeeps(WithChild(t, ks[0].name), ks[1..], name);
    }
  }

  lemma {:induction false} WithAllResolves(t: Node, ks: seq<Node>)
    ensures AllResolve(WithAll(t, ks), ks)
    decreases |ks|
  {
    hide WithChild, Resolves;
    if ks != [] {
      var u := WithChild(t, ks[0].name);
      WithChildResolves(t, ks[0].name, ks[0].name);
      WithAllKeeps(u, ks[1..], ks[0].name);
      WithAllResolves(u, ks[1..]);
      forall i | 0 <= i < |ks| ensures Resolves(WithAll(t, ks), ks[i].name) {
        assert i > 0 ==> ks[i] == ks[1..][i - 1];
      }
    }
  }

  // Without new children each child gets what is found to be meant for it.
  lemma {:induction false} ByPlace(t: Node, ks: seq<Node>)
    requires AllResolve(t, ks)
    ensures SameNames(t.children, MergeKids(t, ks).children)
    ensures forall m :: 0 <= m < |t.children| ==>
              MergeKids(t, ks).children[m] == MergeNode(t.children[m], Joined(Picked(ks, Place(t.children, m))))
    decreases |ks|
  {
    hide MergeNode, FirstChild, MergeChild, Resolves;
    if ks == [] {
      forall m | 0 <= m < |t.children| ensures MergeNode(t.children[m], Joined([])) == t.children[m] {
        MergeNothing(t.children[m]);
      }
    } else {
      var c, y := ks[0], MergeChild(t, ks[0]);
      MergedHere(t, c);
      forall i | 0 <= i < |ks[1..]| ensures Resolves(y, ks[1..][i].name) {
        ResolvesNames(t, y, ks[i + 1].name);
      }
      ByPlace(y, ks[1..]);
      forall m | 0 <= m < |t.children|
        ensures MergeKids(t, ks).children[m] == MergeNode(t.children[m], Joined(Picked(ks, Place(t.children, m))))
      {
        PlaceStep(t, y, ks, m);
      }
    }
  }

  lemma MergeNothing(t: Node)
    ensures MergeNode(t, Joined([])) == t
  {
  }

  lemma PlaceStep(t: Node, y: Node, ks: seq<Node>, m: nat)
    requires ks != [] && Resolves(t, ks[0].name) && y == MergeChild(t, ks[0]) && m < |t.children|
    requires SameNames(y.children, t.children)
    ensures MergeNode(y.children[m], Joined(Picked(ks[1..], Place(y.children, m))))
         == MergeNode(t.children[m], Joined(Picked(ks, Place(t.children, m))))
  {
    hide MergeNode, FirstChild, MergeChild;
    var c := ks[0];
    MergedHere(t, c);
    SamePlaces(ks[1..], y.children, t.children, m);
    var rest := Picked(ks[1..], Place(t.children, m));
    if FirstChild(t.children, Some(c.name)) == m {
      MergeBoth(t.children[m], c, Joined(rest));
      assert ([c] + rest)[1..] == rest;
    }
  }

  lemma SamePlaces(ks: seq<Node>, a: seq<Node>, b: seq<Node>, m: nat)
    requires SameNames(a, b)
    ensures Picked(ks, Place(a, m)) == Picked(ks, Place(b, m))
  {
    forall i | 0 <= i < |ks| ensures Place(a, m).Has(ks[i].name) <==> Place(b, m).Has(ks[i].name) {
      SameFirst(a, b, Some(ks[i].name));
    }
    SamePicked(ks, Place(a, m), Place(b, m));
  }

  // Merging twice --------------------------------------------------------------------------------

  predicate Idempotent(t: Node, o: Node) {
    MergeNode(MergeNode(t, o), o) == MergeNode(t, o)
  }

  lemma MergeChildren(t: Node, o: Node)
    ensures Idempotent(t, o) <==> MergeKids(MergeKids(t, o.children), o.children) == MergeKids(t, o.children)
  {
    hide MergeProps, MergeKids;
    var p := MergeProps(t, o.props);
    var y, x := MergeKids(p, o.children), MergeKids(t, o.children);
    PropsTwice(t, o.props);
    Commute(p, o.children, o.props);
    MergePropsParts(t, o.props);
    SameKidsMerge(t, p, o.children);
    SameKidsMerge(t, t, o.children);
    SameKidsMerge(x, y, o.children);
    SameKidsMerge(x, x, o.children);
  }

  // What is merged into the child at one place is meant for it by its own name or by its stem.
  lemma PlaceIsPick(kids: seq<Node>, ks: seq<Node>, m: nat) returns (i: nat, pick: Pick)
    requires m < |kids| && Picked(ks, Place(kids, m)) != []
    ensures i < |ks| && (pick == Exact(ks[i].name) || pick == Finds(ks[i].name))
    ensures Picked(ks, Place(kids, m)) == Picked(ks, pick)
  {
    hide FirstChild, NodeNameEq;
    var place, n := Place(kids, m), kids[m].name;
    i := SomePicked(ks, place);
    var s := ks[i].name;
    if j :| 0 <= j < |ks| && place.Has(ks[j].name) && ks[j].name != s {
      if s != n {
        if ks[j].name != n { OneStem(n, s, ks[j].name); }
        i := j;
      }
      pick := Finds(n);
      forall k | 0 <= k < |ks| ensures place.Has(ks[k].name) <==> pick.Has(ks[k].name) {
        if NodeNameEq(n, ks[k].name) && ks[k].name != n {
          OneStem(n, ks[k].name, if s != n then s else ks[j].name);
        }
      }
    } else {
      pick := Exact(s);
    }
    SamePicked(ks, place, pick);
  }

  lemma {:induction false} SomePicked(ks: seq<Node>, pick: Pick) returns (i: nat)
    requires Picked(ks, pick) != []
    ensures i < |ks| && pick.Has(ks[i].name)
    decreases |ks|
  {
    hide Pick.Has;
    if pick.Has(ks[0].name) {
      i := 0;
    } else {
      i := SomePicked(ks[1..], pick);
      i := i + 1;
    }
  }

  lemma OrderIsQuiet(t: Node, ks: seq<Node>)
    requires InOrder(ks)
    ensures Quiet(t, ks)
  {
    hide NodeNameEq, FirstChild;
  }

  lemma StablePick(ks: seq<Node>, i: nat, pick: Pick)
    requires Stable(ks) && i < |ks| && (pick == Exact(ks[i].name) || pick == Finds(ks[i].name))
    ensures Stable(Inside(ks, pick)) && Size(Inside(ks, pick)) < Size(ks)
  {
    AtNames(ks[i].name, ks[i].name);
    SizeInside(ks, pick);
    assert StableAt(ks, i);
    assert pick.Has(ks[i].name);
  }

  // Merging children that are stable a second time changes nothing.
  lemma {:induction false} StableTwice(t: Node, ks: seq<Node>)
    requires Stable(ks)
    ensures MergeKids(MergeKids(t, ks), ks) == MergeKids(t, ks)
    decreases Size(ks)
  {
    hide Stable, MergeKids, MergeNode, Quiet, AllResolve, FirstChild, Picked;
    var w := WithAll(t, ks);
    StableOrder(ks);
    OrderIsQuiet(t, ks);
    AddedFirst(t, ks);
    WithAllResolves(t, ks);
    ByPlace(w, ks);
    var y := MergeKids(w, ks);
    AllResolveNames(w, y, ks);
    ByPlace(y, ks);
    var z := MergeKids(y, ks);
    forall m | 0 <= m < |y.children| ensures z.children[m] == y.children[m] {
      SamePlaces(ks, y.children, w.children, m);
      PlaceTwice(w.children, ks, m);
    }
    assert z.children == y.children;
    MergeKidsParts(y, ks);
  }

  lemma StableOrder(ks: seq<Node>)
    requires Stable(ks)
    ensures InOrder(ks)
  {
  }

  lemma AllResolveNames(t: Node, u: Node, ks: seq<Node>)
    requires SameNames(t.children, u.children) && AllResolve(t, ks)
    ensures AllResolve(u, ks)
  {
    hide Resolves;
    forall i | 0 <= i < |ks| ensures Resolves(u, ks[i].name) {
      ResolvesNames(t, u, ks[i].name);
    }
  }

  lemma {:induction false} PlaceTwice(kids: seq<Node>, ks: seq<Node>, m: nat)
    requires Stable(ks) && m < |kids|
    ensures var o := Joined(Picked(ks, Place(kids, m))); MergeNode(MergeNode(kids[m], o), o) == MergeNode(kids[m], o)
    decreases Size(ks), 0
  {
    hide Stable, MergeKids, MergeNode, FirstChild, Picked;
    var o := Joined(Picked(ks, Place(kids, m)));
    if Picked(ks, Place(kids, m)) == [] {
      MergeNothing(kids[m]);
    } else {
      var i, pick := PlaceIsPick(kids, ks, m);
      StablePick(ks, i, pick);
      StableTwice(kids[m], o.children);
      MergeChildren(kids[m], o);
    }
  }

  // When merging twice does differ ----------------------------------------------------------------

  // Siblings with the same names, and so on inside them.
  predicate Alike(a: seq<Node>, b: seq<Node>)
    decreases a
  {
    |a| == |b| && forall i :: 0 <= i < |a| ==> a[i].name == b[i].name && Alike(a[i].children, b[i].children)
  }

  lemma {:induction false} AlikeSelf(a: seq<Node>)
    ensures Alike(a, a)
    decreases a
  {
    forall i | 0 <= i < |a| ensures Alike(a[i].children, a[i].children) {
      AlikeSelf(a[i].children);
    }
  }

  lemma AlikeConcat(a: seq<Node>, b: seq<Node>, c: seq<Node>, d: seq<Node>)
    requires Alike(a, c) && Alike(b, d)
    ensures Alike(a + b, c + d)
  {
  }

  lemma {:induction false} AlikeInside(a: seq<Node>, b: seq<Node>, pick: Pick)
    requires Alike(a, b)
    ensures Alike(Inside(a, pick), Inside(b, pick))
    decreases |a|
  {
    hide Pick.Has;
    if a != [] {
      assert Alike(a[1..], b[1..]) && a[0].name == b[0].name && Alike(a[0].children, b[0].children);
      AlikeInside(a[1..], b[1..], pick);
      if pick.Has(a[0].name) {
        InsideCons(a, pick);
        InsideCons(b, pick);
        AlikeConcat(a[0].children, Inside(a[1..], pick), b[0].children, Inside(b[1..], pick));
      }
    }
  }

  lemma InsideCons(ks: seq<Node>, pick: Pick)
    requires ks != [] && pick.Has(ks[0].name)
    ensures Inside(ks, pick) == ks[0].children + Inside(ks[1..], pick)
  {
    hide Pick.Has;
    assert ([ks[0]] + Picked(ks[1..], pick))[1..] == Picked(ks[1..], pick);
  }

  lemma AlikeOrder(a: seq<Node>, b: seq<Node>)
    requires Alike(a, b) && InOrder(a)
    ensures InOrder(b)
  {
    hide NodeNameEq, Alike;
    assert |a| == |b| && forall i :: 0 <= i < |a| ==> a[i].name == b[i].name by { AlikeNames(a, b); }
    forall i, j | 0 <= i < j < |b| && NodeNameEq(b[j].name, b[i].name) ensures Seen(b, j) {
      assert a[i].name == b[i].name && a[j].name == b[j].name;
      assert Seen(a, j);
      var k :| 0 <= k < j && a[k].name == a[j].name;
      assert b[k].name == b[j].name;
    }
  }

  lemma AlikeNames(a: seq<Node>, b: seq<Node>)
    requires Alike(a, b)
    ensures |a| == |b| && forall i :: 0 <= i < |a| ==> a[i].name == b[i].name
  {
  }

  // Whether siblings are stable depends on the names alone.
  lemma {:induction false} AlikeStable(a: seq<Node>, b: seq<Node>)
    requires Alike(a, b) && Stable(a)
    ensures Stable(b)
    decreases Size(a)
  {
    hide Inside, Alike;
    AlikeOrder(a, b);
    AlikeNames(a, b);
    forall i | 0 <= i < |b| ensures StableAt(b, i) {
      var n := b[i].name;
      assert a[i].name == n;
      StablePick(a, i, Exact(n));
      StablePick(a, i, Finds(n));
      AlikeInside(a, b, Exact(n));
      AlikeInside(a, b, Finds(n));
      AlikeStable(Inside(a, Exact(n)), Inside(b, Exact(n)));
      AlikeStable(Inside(a, Finds(n)), Inside(b, Finds(n)));
    }
  }

  // Siblings out of order ---------------------------------------------------------------------------

  const MARK: seq<byte> := [0x70]

  // No properties but one, in sibling i.
  function Marked(ks: seq<Node>, i: nat): seq<Node> {
    seq(|ks|, k requires 0 <= k < |ks| => ks[k].(props := if k == i then [Property(MARK, [])] else []))
  }

  lemma MarkedAlike(ks: seq<Node>, i: nat)
    ensures Alike(ks, Marked(ks, i))
  {
    forall k | 0 <= k < |ks| ensures Alike(ks[k].children, Marked(ks, i)[k].children) {
      AlikeSelf(ks[k].children);
    }
  }

  lemma NodeHas(t: Node, o: Node, name: seq<byte>)
    ensures HasProp(MergeNode(t, o), name) <==> HasProp(t, name) || Names(o.props, name)
  {
    hide Names, FirstProp, MergeProps, MergeKids;
    MergeHas(t, name, o.props);
    MergeKidsParts(MergeProps(t, o.props), o.children);
  }

  // The first child that a search for x finds has no mark.
  predicate Lacks(t: Node, x: seq<byte>) {
    Resolves(t, x) && !HasProp(t.children[FirstChild(t.children, Some(x))], MARK)
  }

  lemma LacksStep(t: Node, x: seq<byte>, c: Node)
    requires c.props == [] && (Lacks(t, x) || (!Resolves(t, c.name) && NodeNameEq(c.name, x)))
    ensures Lacks(MergeChild(t, c), x)
  {
    hide MergeNode, NodeNameEq, HasProp, FirstChild;
    var u := WithChild(t, c.name);
    MergeWith(t, c);
    WithChildResolves(t, c.name, c.name);
    MergedHere(u, c);
    NewLacks(t, x, c);
    var m := FirstChild(u.children, Some(c.name));
    NodeHas(u.children[m], c, MARK);
    NoneNamed();
    SameFirst(u.children, MergeChild(u, c).children, Some(x));
    ResolvesNames(u, MergeChild(u, c), x);
  }

  lemma NoneNamed()
    ensures !Names([], MARK)
  {
  }

  lemma NewLacks(t: Node, x: seq<byte>, c: Node)
    requires Lacks(t, x) || (!Resolves(t, c.name) && NodeNameEq(c.name, x))
    ensures Lacks(WithChild(t, c.name), x)
  {
    hide NodeNameEq;
    var n := Node(c.name, [], []);
    assert !HasProp(n, MARK);
    FirstChildCons(n, t.children, Some(x));
  }

  lemma {:induction false} LacksStays(t: Node, x: seq<byte>, ks: seq<Node>)
    requires Lacks(t, x) && forall k :: 0 <= k < |ks| ==> ks[k].props == []
    ensures Lacks(MergeKids(t, ks), x)
    decreases |ks|
  {
    hide MergeChild, Lacks;
    if ks != [] {
      LacksStep(t, x, ks[0]);
      LacksStays(MergeChild(t, ks[0]), x, ks[1..]);
    }
  }

  predicate Called(ks: seq<Node>, name: seq<byte>) {
    exists k :: 0 <= k < |ks| && ks[k].name == name
  }

  lemma CalledAt(ks: seq<Node>, k: nat)
    requires k < |ks|
    ensures Called(ks, ks[k].name)
  {
  }

  lemma CalledTail(ks: seq<Node>, name: seq<byte>)
    requires ks != []
    ensures Called(ks, name) <==> ks[0].name == name || Called(ks[1..], name)
  {
    if k :| 0 <= k < |ks| && ks[k].name == name {
      assert k > 0 ==> ks[1..][k - 1].name == name;
    }
    if k :| 0 <= k < |ks[1..]| && ks[1..][k].name == name {
      assert ks[k + 1].name == name;
    }
  }

  // A merge leaves the names that were there and those of the overlay.
  lemma {:induction false} NamesFrom(t: Node, ks: seq<Node>, name: seq<byte>)
    requires Called(MergeKids(t, ks).children, name)
    ensures Called(ks, name) || Called(t.children, name)
    decreases |ks|
  {
    hide MergeChild, FirstChild, Called;
    if ks != [] {
      NamesFrom(MergeChild(t, ks[0]), ks[1..], name);
      CalledTail(ks, name);
      NameOrOld(t, ks[0], name);
    }
  }

  lemma NameOrOld(t: Node, c: Node, name: seq<byte>)
    ensures Called(MergeChild(t, c).children, name) ==> name == c.name || Called(t.children, name)
  {
    hide MergeNode, FirstChild, MergeChild, Called;
    var u := WithChild(t, c.name);
    MergeWith(t, c);
    WithChildResolves(t, c.name, c.name);
    MergedHere(u, c);
    CalledSame(MergeChild(t, c).children, u.children, name);
    if u != t {
      CalledTail(u.children, name);
    }
  }

  lemma CalledSame(a: seq<Node>, b: seq<Node>, name: seq<byte>)
    requires SameNames(a, b)
    ensures Called(a, name) <==> Called(b, name)
  {
  }

  lemma CalledSeen(ks: seq<Node>, j: nat)
    requires j < |ks|
    ensures Called(ks[..j], ks[j].name) ==> Seen(ks, j)
  {
  }

  lemma {:induction false} MergedResolves(t: Node, ks: seq<Node>, name: seq<byte>)
    ensures Resolves(t, name) ==> Resolves(MergeKids(t, ks), name)
    ensures forall i :: 0 <= i < |ks| && ks[i].name == name ==> Resolves(MergeKids(t, ks), name)
    decreases |ks|
  {
    hide MergeChild, Resolves, WithChild;
    if ks != [] {
      var c, u := ks[0], WithChild(t, ks[0].name);
      MergeWith(t, c);
      WithChildResolves(t, c.name, name);
      WithChildResolves(t, c.name, c.name);
      MergedHere(u, c);
      ResolvesNames(u, MergeChild(t, c), name);
      MergedResolves(MergeChild(t, c), ks[1..], name);
      assert forall i :: 1 <= i < |ks| ==> ks[i] == ks[1..][i - 1];
    }
  }

  lemma MergedAll(t: Node, ks: seq<Node>)
    ensures AllResolve(MergeKids(t, ks), ks)
  {
    hide Resolves, MergeKids;
    forall i | 0 <= i < |ks| ensures Resolves(MergeKids(t, ks), ks[i].name) {
      MergedResolves(t, ks, ks[i].name);
    }
  }

  lemma {:induction false} PickedNames(ks: seq<Node>, pick: Pick, i: nat, name: seq<byte>)
    requires i < |ks| && pick.Has(ks[i].name) && Names(ks[i].props, name)
    ensures Names(Joined(Picked(ks, pick)).props, name)
    decreases |ks|
  {
    hide Pick.Has, Names;
    var rest := Picked(ks[1..], pick);
    if i > 0 {
      PickedNames(ks[1..], pick, i - 1, name);
    }
    if pick.Has(ks[0].name) {
      assert ([ks[0]] + rest)[1..] == rest;
      NamesConcat(ks[0].props, Joined(rest).props, name);
    }
  }

  lemma NamesConcat(a: seq<Property>, b: seq<Property>, name: seq<byte>)
    ensures Names(a, name) || Names(b, name) ==> Names(a + b, name)
  {
    if k :| 0 <= k < |a| && a[k].name == name { assert (a + b)[k].name == name; }
    if k :| 0 <= k < |b| && b[k].name == name { assert (a + b)[|a| + k].name == name; }
  }

  // A sibling found by the search for an earlier one is new when its turn comes.
  lemma NewSibling(name: seq<byte>, ks: seq<Node>, i: nat, j: nat)
    requires i < j < |ks| && NodeNameEq(ks[j].name, ks[i].name) && !Seen(ks, j)
    ensures !Resolves(MergeKids(Node(name, [], []), ks[..j]), ks[j].name)
  {
    hide MergeKids, NodeNameEq;
    var t, x := Node(name, [], []), ks[j].name;
    assert ks[i].name != x;
    StemOf(x, ks[i].name);
    CalledSeen(ks, j);
    var s := MergeKids(t, ks[..j]);
    if Resolves(s, x) {
      var m := FirstChild(s.children, Some(x));
      AtNames(s.children[m].name, x);
      CalledAt(s.children, m);
      NamesFrom(t, ks[..j], x);
    }
  }

  lemma SplitAt(t: Node, ks: seq<Node>, j: nat)
    requires j < |ks|
    ensures MergeKids(t, ks) == MergeKids(MergeChild(MergeKids(t, ks[..j]), ks[j]), ks[j + 1..])
  {
    hide MergeKids, MergeChild;
    assert ks == ks[..j] + ([ks[j]] + ks[j + 1..]);
    MergeKidsConcat(t, ks[..j], [ks[j]] + ks[j + 1..]);
    MergeKidsCons(MergeKids(t, ks[..j]), ks[j], ks[j + 1..]);
  }

  lemma OutOfOrder(ks: seq<Node>, name: seq<byte>) returns (t: Node, ls: seq<Node>)
    requires !InOrder(ks)
    ensures t.name == name && Alike(ks, ls) && MergeKids(MergeKids(t, ls), ls) != MergeKids(t, ls)
  {
    hide MergeKids, MergeChild, NodeNameEq, Alike, Marked, Lacks;
    var i, j :| 0 <= i < j < |ks| && NodeNameEq(ks[j].name, ks[i].name) && !Seen(ks, j);
    ls := Marked(ks, i);
    t := Node(name, [], []);
    MarkedAlike(ks, i);
    MarkedIs(ks, i);
    assert !Seen(ls, j);
    NewSibling(name, ls, i, j);
    var x := ls[i].name;
    LacksStep(MergeKids(t, ls[..j]), x, ls[j]);
    LacksStays(MergeChild(MergeKids(t, ls[..j]), ls[j]), x, ls[j + 1..]);
    SplitAt(t, ls, j);
    MarkArrives(MergeKids(t, ls), ls, i) by { MergedAll(t, ls); }
  }

  lemma MarkedIs(ks: seq<Node>, i: nat)
    requires i < |ks|
    ensures var ls := Marked(ks, i);
            && |ls| == |ks| && (forall k :: 0 <= k < |ks| ==> ls[k].name == ks[k].name)
            && (forall k :: 0 <= k < |ks| && k != i ==> ls[k].props == []) && Names(ls[i].props, MARK)
  {
    assert Marked(ks, i)[i].props[0].name == MARK;
  }

  lemma MarkArrives(y: Node, ls: seq<Node>, i: nat)
    requires AllResolve(y, ls) && i < |ls| && Lacks(y, ls[i].name) && Names(ls[i].props, MARK)
    ensures MergeKids(y, ls) != y
  {
    hide MergeKids, HasProp, Names, FirstChild, Picked, MergeNode;
    ByPlace(y, ls);
    var m := FirstChild(y.children, Some(ls[i].name));
    PickedNames(ls, Place(y.children, m), i, MARK);
    NodeHas(y.children[m], Joined(Picked(ls, Place(y.children, m))), MARK);
  }

  // Siblings that are in order, but not what is inside some that meet ---------------------------------

  // The same siblings, where the chosen ones have the children js.
  function Filled(ks: seq<Node>, pick: Pick, js: seq<Node>): seq<Node>
    decreases |ks|
  {
    if ks == [] then []
    else
      var k := |ks[0].children|;
      if pick.Has(ks[0].name) && k <= |js| then [ks[0].(children := js[..k])] + Filled(ks[1..], pick, js[k..])
      else [ks[0]] + Filled(ks[1..], pick, js)
  }

  lemma {:induction false} FilledAlike(ks: seq<Node>, pick: Pick, js: seq<Node>)
    requires Alike(Inside(ks, pick), js)
    ensures Alike(ks, Filled(ks, pick, js)) && Inside(Filled(ks, pick, js), pick) == js
    decreases |ks|
  {
    hide Pick.Has, Alike, Inside;
    if ks == [] {
      NoneFilled(pick, js);
    } else if pick.Has(ks[0].name) {
      var k := |ks[0].children|;
      InsideCons(ks, pick);
      AlikeParts(ks[0].children, Inside(ks[1..], pick), js);
      FilledAlike(ks[1..], pick, js[k..]);
      var c, ls := ks[0].(children := js[..k]), Filled(ks[1..], pick, js[k..]);
      InsideCons([c] + ls, pick);
      ConsTail(c, ls);
      assert js[..k] + js[k..] == js;
      assert [ks[0]] + ks[1..] == ks;
      AlikeCons(ks[0], ks[1..], c, ls);
    } else {
      InsideSkip(ks, pick);
      FilledAlike(ks[1..], pick, js);
      var ls := Filled(ks[1..], pick, js);
      InsideSkip([ks[0]] + ls, pick);
      assert [ks[0]] + ks[1..] == ks;
      ConsTail(ks[0], ls);
      AlikeSelf(ks[0].children);
      AlikeCons(ks[0], ks[1..], ks[0], ls);
    }
  }

  lemma ConsTail(c: Node, ls: seq<Node>)
    ensures ([c] + ls)[1..] == ls
  {
  }

  lemma InsideSkip(ks: seq<Node>, pick: Pick)
    requires ks != [] && !pick.Has(ks[0].name)
    ensures Inside(ks, pick) == Inside(ks[1..], pick)
  {
    hide Pick.Has;
  }

  lemma NoneFilled(pick: Pick, js: seq<Node>)
    requires Alike(Inside([], pick), js)
    ensures js == [] && Alike([], Filled([], pick, js)) && Inside([], pick) == []
  {
  }

  lemma AlikeParts(a: seq<Node>, b: seq<Node>, js: seq<Node>)
    requires Alike(a + b, js)
    ensures |a| <= |js| && Alike(a, js[..|a|]) && Alike(b, js[|a|..])
  {
    assert forall i :: 0 <= i < |a| ==> (a + b)[i] == a[i];
    assert forall i :: 0 <= i < |b| ==> (a + b)[|a| + i] == b[i];
  }

  lemma AlikeCons(x: Node, a: seq<Node>, y: Node, b: seq<Node>)
    requires x.name == y.name && Alike(x.children, y.children) && Alike(a, b)
    ensures Alike([x] + a, [y] + b)
  {
  }

  // A name up to its first '@'.
  function Stem(n: seq<byte>): seq<byte> {
    if n == [] || n[0] == AT_SIGN then [] else [n[0]] + Stem(n[1..])
  }

  lemma {:induction false} StemFinds(n: seq<byte>)
    requires AT_SIGN in n
    ensures AT_SIGN !in Stem(n) && |Stem(n)| < |n| && n[..|Stem(n)|] == Stem(n) && n[|Stem(n)|] == AT_SIGN
    decreases |n|
  {
    if n[0] != AT_SIGN {
      StemFinds(n[1..]);
      assert n == [n[0]] + n[1..];
    }
  }

  function Empties(ks: seq<Node>): seq<Node> {
    seq(|ks|, k requires 0 <= k < |ks| => Node(ks[k].name, [], []))
  }

  // Children for which the search for a name ends at b exactly if the name is chosen.
  function Front(b: Node, exact: bool): seq<Node> {
    if exact && AT_SIGN in b.name then [Node(Stem(b.name), [], []), b] else [b]
  }

  lemma FrontPlace(b: Node, exact: bool, rest: seq<Node>, name: seq<byte>)
    ensures var front := Front(b, exact);
            FirstChild(front + rest, Some(name)) == |front| - 1
            <==> (if exact then Exact(b.name) else Finds(b.name)).Has(name)
  {
    hide NodeNameEq;
    AtNames(b.name, name);
    FirstChildCons(b, rest, Some(name));
    if exact && AT_SIGN in b.name {
      var st := Stem(b.name);
      StemFinds(b.name);
      AtNames(st, name);
      assert NodeNameEq(b.name, st) by { StemMatches(b.name); }
      FirstChildCons(Node(st, [], []), [b] + rest, Some(name));
      assert Front(b, exact) + rest == [Node(st, [], [])] + ([b] + rest);
      if NodeNameEq(b.name, name) && name != b.name {
        OneStem(b.name, name, st);
      }
    }
  }

  lemma StemMatches(n: seq<byte>)
    requires AT_SIGN in n
    ensures NodeNameEq(n, Stem(n))
  {
    StemFinds(n);
  }

  lemma EmptiesResolve(t: Node, front: seq<Node>, ks: seq<Node>)
    requires t.children == front + Empties(ks)
    ensures AllResolve(t, ks)
  {
    hide FirstChild, NodeNameEq;
    forall i | 0 <= i < |ks| ensures Resolves(t, ks[i].name) {
      assert t.children[|front| + i].name == ks[i].name;
      AtNames(ks[i].name, ks[i].name);
    }
  }

  lemma NotTwice(t: Node, ls: seq<Node>, m: nat, b: Node, pick: Pick)
    requires AllResolve(t, ls) && m < |t.children| && t.children[m] == b
    requires forall i :: 0 <= i < |ls| ==> (Place(t.children, m).Has(ls[i].name) <==> pick.Has(ls[i].name))
    requires var js := Inside(ls, pick); MergeKids(MergeKids(b, js), js) != MergeKids(b, js)
    ensures MergeKids(MergeKids(t, ls), ls) != MergeKids(t, ls)
  {
    hide MergeKids, MergeNode, AllResolve, Pick.Has, Picked;
    SamePicked(ls, Place(t.children, m), pick);
    ByPlace(t, ls);
    var y := MergeKids(t, ls);
    AllResolveNames(t, y, ls);
    ByPlace(y, ls);
    SamePlaces(ls, y.children, t.children, m);
    MergeChildren(b, Joined(Picked(ls, pick)));
  }

  lemma {:induction false} Unstable(ks: seq<Node>, name: seq<byte>) returns (t: Node, ls: seq<Node>)
    requires !Stable(ks)
    ensures t.name == name && Alike(ks, ls) && MergeKids(MergeKids(t, ls), ls) != MergeKids(t, ls)
    decreases Size(ks)
  {
    hide MergeKids, Alike, Inside, Front, Empties, Pick.Has, AllResolve;
    if !InOrder(ks) {
      t, ls := OutOfOrder(ks, name);
    } else {
      var n, exact := UnstablePick(ks);
      var pick := if exact then Exact(n) else Finds(n);
      var b, js := Unstable(Inside(ks, pick), n);
      FilledAlike(ks, pick, js);
      ls := Filled(ks, pick, js);
      t := Node(name, [], Front(b, exact) + Empties(ls));
      EmptiesResolve(t, Front(b, exact), ls);
      FrontLast(b, exact);
      forall i | 0 <= i < |ls|
        ensures Place(t.children, |Front(b, exact)| - 1).Has(ls[i].name) <==> pick.Has(ls[i].name) {
        FrontPlace(b, exact, Empties(ls), ls[i].name);
        PlaceHas(t.children, |Front(b, exact)| - 1, ls[i].name);
      }
      NotTwice(t, ls, |Front(b, exact)| - 1, b, pick);
    }
  }

  lemma PlaceHas(kids: seq<Node>, m: nat, name: seq<byte>)
    ensures Place(kids, m).Has(name) <==> FirstChild(kids, Some(name)) == m
  {
  }

  lemma FrontLast(b: Node, exact: bool)
    ensures var front := Front(b, exact); |front| > 0 && front[|front| - 1] == b
  {
  }

  lemma UnstablePick(ks: seq<Node>) returns (n: seq<byte>, exact: bool)
    requires !Stable(ks) && InOrder(ks)
    ensures var pick := if exact then Exact(n) else Finds(n);
            !Stable(Inside(ks, pick)) && Size(Inside(ks, pick)) < Size(ks)
  {
    var i :| 0 <= i < |ks| && !StableAt(ks, i);
    n := ks[i].name;
    exact := !Stable(Inside(ks, Exact(n)));
    AtNames(n, n);
    SizeInside(ks, if exact then Exact(n) else Finds(n));
    assert Exact(n).Has(ks[i].name) && Finds(n).Has(ks[i].name);
  }

  // Merging an overlay a second time changes nothing, whatever the base and whatever the properties, exactly
  // if the children of the overlay are stable.
  lemma MergeTwice(ks: seq<Node>)
    ensures Stable(ks) <==> forall t: Node, o: Node :: Alike(ks, o.children) ==> Idempotent(t, o)
  {
    hide MergeKids, MergeNode, Stable, Alike;
    if Stable(ks) {
      forall t: Node, o: Node | Alike(ks, o.children) ensures Idempotent(t, o) {
        AlikeStable(ks, o.children);
        StableTwice(t, o.children);
        MergeChildren(t, o);
      }
    } else {
      var t, ls := Unstable(ks, []);
      var o := Node([], [], ls);
      MergeChildren(t, o);
      assert Alike(ks, o.children) && !Idempotent(t, o);
    }
  }

  // Without grandchildren only the order of the names counts.
  lemma LeavesStable(ks: seq<Node>)
    requires forall i :: 0 <= i < |ks| ==> ks[i].children == []
    ensures Stable(ks) <==> InOrder(ks)
  {
    hide NodeNameEq, Pick.Has;
    if InOrder(ks) {
      forall i | 0 <= i < |ks| ensures StableAt(ks, i) {
        InsideLeaves(ks, Exact(ks[i].name));
        InsideLeaves(ks, Finds(ks[i].name));
      }
    }
  }

  lemma {:induction false} InsideLeaves(ks: seq<Node>, pick: Pick)
    requires forall i :: 0 <= i < |ks| ==> ks[i].children == []
    ensures Inside(ks, pick) == []
    decreases |ks|
  {
    hide Pick.Has;
    if ks != [] {
      InsideLeaves(ks[1..], pick);
      if pick.Has(ks[0].name) {
        InsideCons(ks, pick);
      }
    }
  }

  // A child without subnodes, merged into the child at position m.
  lemma LeafMerged(t: Node, c: Node, m: nat)
    requires c.children == [] && m < |WithChild(t, c.name).children|
    requires FirstChild(WithChild(t, c.name).children, Some(c.name)) == m
    ensures var u := WithChild(t, c.name);
            MergeChild(t, c) == u.(children := u.children[m := MergeProps(u.children[m], c.props)])
  {
    var u := WithChild(t, c.name);
    MergeKidsCons(MergeProps(u.children[m], c.props), c, []);
  }

  lemma OneProp(name: seq<byte>, p: Property)
    ensures MergeProps(Node(name, [], []), [p]) == Node(name, [p], [])
  {
    MergePropsCons(Node(name, [], []), p, []);
    assert [p] + [] == [p];
  }

  // A node without a name that has these children.
  function Over(ks: seq<Node>): Node {
    Node([], [], ks)
  }

  const X: seq<byte> := [0x78]
  const XAT: seq<byte> := [0x78, AT_SIGN]
  const MARKED: seq<Property> := [Property(MARK, [])]

  lemma AddX()
    ensures MergeChild(Over([]), Node(X, MARKED, [])) == Over([Node(X, MARKED, [])])
  {
    FirstChildIs(PutChild(Over([]), X).children, Some(X), 0);
    LeafMerged(Over([]), Node(X, MARKED, []), 0);
    OneProp(X, Property(MARK, []));
  }

  lemma AddXAt()
    ensures MergeChild(Over([Node(X, MARKED, [])]), Node(XAT, [], [])) == Over([Node(XAT, [], []), Node(X, MARKED, [])])
  {
    var t := Over([Node(X, MARKED, [])]);
    FirstChildCons(Node(X, MARKED, []), [], Some(XAT));
    NewChildFirst(t, XAT);
    LeafMerged(t, Node(XAT, [], []), 0);
  }

  lemma FindXAt()
    ensures MergeChild(Over([Node(XAT, [], []), Node(X, MARKED, [])]), Node(X, MARKED, []))
         == Over([Node(XAT, MARKED, []), Node(X, MARKED, [])])
  {
    var t := Over([Node(XAT, [], []), Node(X, MARKED, [])]);
    assert XAT[..1] == X;
    FirstChildIs(t.children, Some(X), 0);
    LeafMerged(t, Node(X, MARKED, []), 0);
    OneProp(XAT, Property(MARK, []));
  }

  lemma KeepXAt()
    ensures var t := Over([Node(XAT, MARKED, []), Node(X, MARKED, [])]); MergeChild(t, Node(XAT, [], [])) == t
  {
    var t := Over([Node(XAT, MARKED, []), Node(X, MARKED, [])]);
    FirstChildIs(t.children, Some(XAT), 0);
    LeafMerged(t, Node(XAT, [], []), 0);
  }

  // The overlay of the node x, with a property, and the node x@: merged into an empty node it adds both, the
  // second in front of the first; merged again it finds x@ when it looks for x.
  lemma MergeTwiceDiffers()
    ensures var t, o := Over([]), Over([Node(X, MARKED, []), Node(XAT, [], [])]);
            && MergeNode(t, o) == Over([Node(XAT, [], []), Node(X, MARKED, [])])
            && MergeNode(MergeNode(t, o), o) == Over([Node(XAT, MARKED, []), Node(X, MARKED, [])])
            && !Idempotent(t, o)
  {
    hide MergeNode, MergeChild;
    AddX();
    AddXAt();
    MergeTwo(Over([]), Node(X, MARKED, []), Node(XAT, [], []));
    FindXAt();
    KeepXAt();
    MergeTwo(Over([Node(XAT, [], []), Node(X, MARKED, [])]), Node(X, MARKED, []), Node(XAT, [], []));
  }

  lemma MergeTwo(t: Node, a: Node, b: Node)
    ensures MergeNode(t, Node([], [], [a, b])) == MergeChild(MergeChild(t, a), b)
  {
    assert [a, b] == [a] + [b] && [b] == [b] + [];
    MergeKidsCons(t, a, [b]);
    MergeKidsCons(MergeChild(t, a), b, []);
  }
}
