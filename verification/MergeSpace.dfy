// What a merge does to the size of the blob, and merges that need no room.
module MergeSpace {
  import opened Bytes
  import opened Structure
  import opened Scan
  import opened Strings
  import opened Edits
  import opened Children
  import opened MergeTrees

  // The size of a tree -----------------------------------------------------------------------------------------

  // The bytes of a property and of a node with all that is in it, without NOPs.
  function PropSize(p: Property): nat {
    12 + Align4(|p.value|)
  }

  function PropsSize(ps: seq<Property>): nat {
    if ps == [] then 0 else PropSize(ps[0]) + PropsSize(ps[1..])
  }

  function TreeSize(n: Node): nat {
    ChildSize(n.name) + PropsSize(n.props) + KidsSize(n.children)
  }

  function KidsSize(ks: seq<Node>): nat {
    if ks == [] then 0 else TreeSize(ks[0]) + KidsSize(ks[1..])
  }

  lemma {:induction false} PropsSizePut(ps: seq<Property>, m: nat, p: Property)
    requires m < |ps|
    ensures PropsSize(ps[m := p]) == PropsSize(ps) - PropSize(ps[m]) + PropSize(p)
    decreases m
  {
    hide PropSize;
    if m == 0 {
      assert ps[0 := p][1..] == ps[1..];
    } else {
      assert ps[m := p][1..] == ps[1..][m - 1 := p];
      PropsSizePut(ps[1..], m - 1, p);
    }
  }

  lemma {:induction false} KidsSizePut(ks: seq<Node>, m: nat, k: Node)
    requires m < |ks|
    ensures KidsSize(ks[m := k]) == KidsSize(ks) - TreeSize(ks[m]) + TreeSize(k)
    decreases m
  {
    hide TreeSize;
    if m == 0 {
      assert ks[0 := k][1..] == ks[1..];
    } else {
      assert ks[m := k][1..] == ks[1..][m - 1 := k];
      KidsSizePut(ks[1..], m - 1, k);
    }
  }

  // Conservation ---------------------------------------------------------------------------------------------

  // Each edit takes what the tree and the strings block grow by.
  lemma {:induction false} PropGrows(t: Node, strs: seq<byte>, p: Property)
    ensures TreeSize(PutProp(t, p.name, p.value)) + |StringsWith(t, strs, p.name)|
         == TreeSize(t) + |strs| + PropStep(t, strs, p)
  {
    hide ChildSize, NewName, KidsSize;
    var m := FirstProp(t.props, p.name);
    if m < |t.props| {
      PropsSizePut(t.props, m, p);
    } else {
      assert ([p] + t.props)[1..] == t.props;
    }
  }

  lemma {:induction false} PropsGrow(t: Node, strs: seq<byte>, ps: seq<Property>)
    ensures var g := PropsGrowth(t, strs, ps);
            Sum(g.steps) == TreeSize(MergeProps(t, ps)) - TreeSize(t) + |g.strings| - |strs|
    decreases |ps|
  {
    hide PropStep, StringsWith, PutProp, TreeSize;
    if ps != [] {
      PropGrows(t, strs, ps[0]);
      var t1, strs1 := PutProp(t, ps[0].name, ps[0].value), StringsWith(t, strs, ps[0].name);
      PropsGrow(t1, strs1, ps[1..]);
      SumCons(PropStep(t, strs, ps[0]), PropsGrowth(t1, strs1, ps[1..]).steps);
    }
  }

  lemma SumCons(step: int, steps: seq<int>)
    ensures Sum([step] + steps) == step + Sum(steps)
  {
    assert ([step] + steps)[1..] == steps;
  }

  // In all the merge takes as many bytes as the tree grows by, and as many again as the strings block does.
  lemma {:induction false} MergeGrows(t: Node, strs: seq<byte>, o: Node)
    ensures var g := NodeGrowth(t, strs, o);
            Sum(g.steps) == TreeSize(MergeNode(t, o)) - TreeSize(t) + |g.strings| - |strs|
    decreases o, 0
  {
    hide PropsGrowth, KidsGrowth, MergeProps, MergeKids, TreeSize, Sum;
    var own := PropsGrowth(t, strs, o.props);
    PropsGrow(t, strs, o.props);
    KidsGrow(MergeProps(t, o.props), own.strings, o.children);
    SumConcat(own.steps, KidsGrowth(MergeProps(t, o.props), own.strings, o.children).steps);
  }

  lemma {:induction false} KidsGrow(t: Node, strs: seq<byte>, ks: seq<Node>)
    ensures var g := KidsGrowth(t, strs, ks);
            Sum(g.steps) == TreeSize(MergeKids(t, ks)) - TreeSize(t) + |g.strings| - |strs|
    decreases ks, 0
  {
    hide ChildGrowth, MergeChild, TreeSize;
    if ks != [] {
      var kid := ChildGrowth(t, strs, ks[0]);
      ChildGrows(t, strs, ks[0]);
      KidsGrow(MergeChild(t, ks[0]), kid.strings, ks[1..]);
      SumConcat(kid.steps, KidsGrowth(MergeChild(t, ks[0]), kid.strings, ks[1..]).steps);
    }
  }

  lemma {:induction false} ChildGrows(t: Node, strs: seq<byte>, c: Node)
    ensures var g := ChildGrowth(t, strs, c);
            Sum(g.steps) == TreeSize(MergeChild(t, c)) - TreeSize(t) + |g.strings| - |strs|
    decreases c, 1
  {
    hide NodeGrowth, MergeNode, FirstChild, TreeSize, ChildStep, ChildFor, WithChild;
    var u, x := WithChild(t, c.name), ChildFor(t, c.name);
    var m := FirstChild(u.children, Some(c.name));
    MergedChild(t, c, u, m, MergeNode(x, c));
    ChildTaken(t, c.name);
    MergeGrows(x, strs, c);
    SumCons(ChildStep(t, c.name), NodeGrowth(x, strs, c).steps);
    ReplacedSize(u, m, MergeNode(x, c));
  }

  lemma {:induction false} ReplacedSize(u: Node, m: nat, y: Node)
    requires m < |u.children|
    ensures TreeSize(u.(children := u.children[m := y])) == TreeSize(u) - TreeSize(u.children[m]) + TreeSize(y)
  {
    hide ChildSize;
    KidsSizePut(u.children, m, y);
  }

  lemma {:induction false} ChildTaken(t: Node, name: seq<byte>)
    ensures TreeSize(WithChild(t, name)) == TreeSize(t) + ChildStep(t, name)
    ensures ChildFor(t, name) == WithChild(t, name).children[FirstChild(WithChild(t, name).children, Some(name))]
  {
    hide ChildSize, FirstChild;
    var k := Node(name, [], []);
    assert ([k] + t.children)[1..] == t.children && [k][1..] == [];
    assert KidsSize([k] + t.children) == TreeSize(k) + KidsSize(t.children);
    assert TreeSize(k) == ChildSize(name);
  }

  // Merges that need no room -------------------------------------------------------------------------------------

  // The overlay only overrides: each property is there with a value of no smaller padded length, and each child is.
  predicate Overrides(t: Node, o: Node)
    decreases o
  {
    && OverridesProps(t, o.props)
    && forall k :: 0 <= k < |o.children| ==>
         var j := FirstChild(t.children, Some(o.children[k].name));
         j < |t.children| && Overrides(t.children[j], o.children[k])
  }

  predicate OverridesProps(t: Node, ps: seq<Property>) {
    forall k :: 0 <= k < |ps| ==> OverridesProp(t, ps[k])
  }

  predicate OverridesProp(t: Node, p: Property) {
    PropValue(t, p.name).Some? && Align4(|p.value|) <= Align4(|PropValue(t, p.name).value|)
  }

  // The same nodes and properties, with values of no larger padded length.
  predicate NoLarger(a: Node, b: Node)
    decreases a
  {
    a.name == b.name && NoLargerProps(a.props, b.props) && NoLargerKids(a.children, b.children)
  }

  predicate NoLargerProps(a: seq<Property>, b: seq<Property>) {
    |a| == |b| && forall k :: 0 <= k < |a| ==> a[k].name == b[k].name && PropSize(a[k]) <= PropSize(b[k])
  }

  predicate NoLargerKids(a: seq<Node>, b: seq<Node>)
    decreases a
  {
    |a| == |b| && forall k :: 0 <= k < |a| ==> NoLarger(a[k], b[k])
  }

  lemma {:induction false} NoLargerSelf(a: Node)
    ensures NoLarger(a, a)
    decreases a
  {
    forall k | 0 <= k < |a.children| ensures NoLarger(a.children[k], a.children[k]) {
      NoLargerSelf(a.children[k]);
    }
  }

  lemma {:induction false} SmallerProps(a: seq<Property>, b: seq<Property>)
    requires NoLargerProps(a, b)
    ensures PropsSize(a) <= PropsSize(b)
    decreases |a|
  {
    hide PropSize;
    if a != [] {
      SmallerProps(a[1..], b[1..]);
    }
  }

  lemma {:induction false} Smaller(a: Node, b: Node)
    requires NoLarger(a, b)
    ensures TreeSize(a) <= TreeSize(b)
    decreases a, 0
  {
    SmallerProps(a.props, b.props);
    SmallerKids(a.children, b.children);
  }

  lemma {:induction false} SmallerKids(a: seq<Node>, b: seq<Node>)
    requires NoLargerKids(a, b)
    ensures KidsSize(a) <= KidsSize(b)
    decreases a, 0
  {
    hide TreeSize, NoLarger;
    if a != [] {
      Smaller(a[0], b[0]);
      SmallerKids(a[1..], b[1..]);
    }
  }

  // The bound that every state of an overriding merge keeps: undoing what it saved so far would still fit.
  predicate Saved(size: int, a: Node, t: Node, total: int) {
    NoLarger(a, t) && size + TreeSize(t) - TreeSize(a) <= total
  }

  lemma {:induction false} PutNoLarger(a: Node, t: Node, p: Property)
    requires NoLarger(a, t) && OverridesProp(t, p)
    ensures PropValue(a, p.name).Some? && NoLarger(PutProp(a, p.name, p.value), t)
  {
    hide NoLargerKids;
    SameRanks(a.props, t.props, p.name);
  }

  lemma {:induction false} SameRanks(a: seq<Property>, b: seq<Property>, name: seq<byte>)
    requires NoLargerProps(a, b)
    ensures FirstProp(a, name) == FirstProp(b, name)
    decreases |a|
  {
    hide PropSize;
    if a != [] {
      SameRanks(a[1..], b[1..], name);
    }
  }

  lemma {:induction false} OverridingProps(a: Node, t: Node, strs: seq<byte>, ps: seq<Property>, size: int, total: int)
    requires Saved(size, a, t, total) && OverridesProps(t, ps)
    ensures var g, b := PropsGrowth(a, strs, ps), MergeProps(a, ps);
            g.strings == strs && Fits(size, g.steps, total) && Saved(size + Sum(g.steps), b, t, total)
    decreases |ps|
  {
    hide PropStep, PutProp, TreeSize, NoLarger, OverridesProp, PropValue;
    if ps != [] {
      var p := ps[0];
      var b := PutProp(a, p.name, p.value);
      var step := PropStep(a, strs, p);
      PutNoLarger(a, t, p);
      PropGrows(a, strs, p);
      Smaller(b, t);
      OverridingProps(b, t, strs, ps[1..], size + step, total);
      var g := PropsGrowth(b, strs, ps[1..]);
      SumCons(step, g.steps);
      FitsCons(size, step, g.steps, total);
    }
  }

  lemma FitsCons(size: int, step: int, steps: seq<int>, total: int)
    ensures Fits(size, [step] + steps, total) <==> size + step <= total && Fits(size + step, steps, total)
  {
    assert ([step] + steps)[1..] == steps;
  }

  predicate OverridesKid(t: Node, c: Node) {
    var j := FirstChild(t.children, Some(c.name));
    j < |t.children| && Overrides(t.children[j], c)
  }

  lemma {:induction false} OverridingNode(a: Node, t: Node, strs: seq<byte>, o: Node, size: int, total: int)
    requires Saved(size, a, t, total) && Overrides(t, o)
    ensures var g, b := NodeGrowth(a, strs, o), MergeNode(a, o);
            g.strings == strs && Fits(size, g.steps, total) && Saved(size + Sum(g.steps), b, t, total)
    decreases o, 0
  {
    hide PropsGrowth, KidsGrowth, MergeProps, MergeKids, Fits, Sum, Saved, OverridesProps;
    var own := PropsGrowth(a, strs, o.props);
    var b := MergeProps(a, o.props);
    OverridingProps(a, t, strs, o.props, size, total);
    forall k | 0 <= k < |o.children| ensures OverridesKid(t, o.children[k]) {
    }
    OverridingKids(b, t, strs, o.children, size + Sum(own.steps), total);
    var rest := KidsGrowth(b, strs, o.children);
    SumConcat(own.steps, rest.steps);
    FitsConcat(size, own.steps, rest.steps, total);
  }

  lemma {:induction false} OverridingKids(a: Node, t: Node, strs: seq<byte>, ks: seq<Node>, size: int, total: int)
    requires Saved(size, a, t, total) && forall k :: 0 <= k < |ks| ==> OverridesKid(t, ks[k])
    ensures var g, b := KidsGrowth(a, strs, ks), MergeKids(a, ks);
            g.strings == strs && Fits(size, g.steps, total) && Saved(size + Sum(g.steps), b, t, total)
    decreases ks, 0
  {
    hide ChildGrowth, MergeChild, Saved, OverridesKid;
    if ks != [] {
      var c := ks[0];
      var kid := ChildGrowth(a, strs, c);
      OverridingChild(a, t, strs, c, size, total);
      OverridingKids(MergeChild(a, c), t, strs, ks[1..], size + Sum(kid.steps), total);
      var rest := KidsGrowth(MergeChild(a, c), strs, ks[1..]);
      SumConcat(kid.steps, rest.steps);
      FitsConcat(size, kid.steps, rest.steps, total);
    }
  }

  lemma {:induction false} OverridingChild(a: Node, t: Node, strs: seq<byte>, c: Node, size: int, total: int)
    requires Saved(size, a, t, total) && OverridesKid(t, c)
    ensures var g, b := ChildGrowth(a, strs, c), MergeChild(a, c);
            g.strings == strs && Fits(size, g.steps, total) && Saved(size + Sum(g.steps), b, t, total)
    decreases c, 1
  {
    hide NodeGrowth, MergeNode, MergeChild, FirstChild, NoLarger, TreeSize, Overrides, Fits, Sum;
    var j := FirstChild(t.children, Some(c.name));
    ChildSaved(a, t, c.name, size, total);
    var x := a.children[j];
    OverridingNode(x, t.children[j], strs, c, size, total);
    var g := NodeGrowth(x, strs, c);
    MergedChild(a, c, a, j, MergeNode(x, c));
    MergeGrows(x, strs, c);
    SavedBack(a, t, j, MergeNode(x, c), size, Sum(g.steps), total);
    SumCons(0, g.steps);
    FitsCons(size, 0, g.steps, total);
  }

  // What holds for the node holds for its child.
  lemma {:induction false} ChildSaved(a: Node, t: Node, name: seq<byte>, size: int, total: int)
    requires Saved(size, a, t, total) && FirstChild(t.children, Some(name)) < |t.children|
    ensures var j := FirstChild(t.children, Some(name));
            && FirstChild(a.children, Some(name)) == j < |a.children| == |t.children|
            && Saved(size, a.children[j], t.children[j], total) && size <= total
  {
    hide TreeSize, FirstChild, NoLargerProps;
    var want := Some(name);
    FirstNames(a.children, t.children, want);
    var j := FirstChild(t.children, want);
    Smaller(a, t);
    var u := t.(children := t.children[j := a.children[j]]);
    NoLargerSelf(a.children[j]);
    Smaller(a, u);
    ReplacedSize(t, j, a.children[j]);
  }

  lemma {:induction false} FirstNames(a: seq<Node>, b: seq<Node>, want: Option<seq<byte>>)
    requires NoLargerKids(a, b)
    ensures FirstChild(a, want) == FirstChild(b, want)
  {
    hide FirstChild;
    assert forall k :: 0 <= k < |a| ==> NoLarger(a[k], b[k]);
    SameFirst(a, b, want);
  }

  // And the other way, when the child has changed.
  lemma {:induction false} SavedBack(a: Node, t: Node, j: nat, y: Node, size: int, grown: int, total: int)
    requires Saved(size, a, t, total) && j < |a.children| == |t.children| && NoLarger(y, t.children[j])
    requires grown == TreeSize(y) - TreeSize(a.children[j])
    ensures Saved(size + grown, a.(children := a.children[j := y]), t, total)
  {
    hide TreeSize, NoLargerProps;
    ReplacedSize(a, j, y);
    KidNoLarger(a.children, t.children, j, y);
  }

  lemma {:induction false} KidNoLarger(a: seq<Node>, b: seq<Node>, j: nat, y: Node)
    requires NoLargerKids(a, b) && j < |a| && NoLarger(y, b[j])
    ensures NoLargerKids(a[j := y], b)
  {
    hide NoLarger;
  }

  // An overlay that only overrides can be merged into a blob that has no room left at all.
  lemma OverridesFit(t: Node, strs: seq<byte>, o: Node, size: int, total: int)
    requires Overrides(t, o) && size <= total
    ensures var g := NodeGrowth(t, strs, o);
            g.strings == strs && Fits(size, g.steps, total) && Sum(g.steps) <= 0
  {
    hide NodeGrowth, Overrides, TreeSize, Fits, Sum;
    NoLargerSelf(t);
    OverridingNode(t, t, strs, o, size, total);
    Smaller(MergeNode(t, o), t);
    MergeGrows(t, strs, o);
  }
}
