// The merge of an overlay node into a base node, as trees, and the room that it takes edit by edit.
module MergeTrees {
  import opened Bytes
  import opened Structure
  import opened Scan
  import opened Strings
  import opened Edits
  import opened Children

  // The merge ------------------------------------------------------------------------------------------------

  // Properties override one after the other.
  function MergeProps(t: Node, ps: seq<Property>): Node
    decreases ps
  {
    if ps == [] then t else MergeProps(PutProp(t, ps[0].name, ps[0].value), ps[1..])
  }

  // Children are merged into the first child that matches by name, or into a new first child.
  function MergeNode(t: Node, o: Node): Node
    decreases o, 0
  {
    MergeKids(MergeProps(t, o.props), o.children)
  }

  function MergeKids(t: Node, ks: seq<Node>): Node
    decreases ks, 0
  {
    if ks == [] then t else MergeKids(MergeChild(t, ks[0]), ks[1..])
  }

  function MergeChild(t: Node, c: Node): Node
    decreases c, 1
  {
    var u := WithChild(t, c.name);
    var m := FirstChild(u.children, Some(c.name));
    u.(children := u.children[m := MergeNode(u.children[m], c)])
  }

  // The child into which one of that name is merged.
  function ChildFor(t: Node, name: seq<byte>): Node {
    var u := WithChild(t, name);
    u.children[FirstChild(u.children, Some(name))]
  }

  lemma MergedChild(t: Node, c: Node, u: Node, m: nat, x: Node)
    requires u == WithChild(t, c.name) && m == FirstChild(u.children, Some(c.name))
    requires x == MergeNode(ChildFor(t, c.name), c)
    ensures m < |u.children| && u.(children := u.children[m := x]) == MergeChild(t, c)
  {
    hide MergeNode, FirstChild;
  }

  function WithChild(t: Node, name: seq<byte>): (u: Node)
    ensures FirstChild(u.children, Some(name)) < |u.children|
  {
    if FirstChild(t.children, Some(name)) < |t.children| then t else PutChild(t, name)
  }

  lemma MergePropsCons(t: Node, p: Property, ps: seq<Property>)
    ensures MergeProps(t, [p] + ps) == MergeProps(PutProp(t, p.name, p.value), ps)
  {
    assert ([p] + ps)[1..] == ps;
  }

  lemma MergePropsNil(t: Node)
    ensures MergeProps(t, []) == t
  {
  }

  lemma MergeKidsCons(t: Node, c: Node, ks: seq<Node>)
    ensures MergeKids(t, [c] + ks) == MergeKids(MergeChild(t, c), ks)
    ensures MergeKids(t, []) == t
  {
    assert ([c] + ks)[1..] == ks;
  }

  lemma NewChildFirst(t: Node, name: seq<byte>)
    ensures FirstChild(PutChild(t, name).children, Some(name)) == 0
  {
  }

  // The room, edit by edit -------------------------------------------------------------------------------------

  // By how much each edit of the merge makes the blob grow, in the order in which they are made, and the
  // strings block after them.
  datatype Growth = Growth(steps: seq<int>, strings: seq<byte>)

  function WithStep(step: int, g: Growth): Growth {
    Growth([step] + g.steps, g.strings)
  }

  function Then(g: Growth, h: Growth): Growth {
    Growth(g.steps + h.steps, h.strings)
  }

  // A property that is there grows by its padded length, a new one takes its cells, its value and its name, if
  // that is not in the strings block yet.
  function PropStep(t: Node, strs: seq<byte>, p: Property): int {
    match PropValue(t, p.name)
    case Some(v) => Align4(|p.value|) - Align4(|v|)
    case None => 12 + Align4(|p.value|) + |NewName(strs, p.name)|
  }

  function StringsWith(t: Node, strs: seq<byte>, name: seq<byte>): seq<byte> {
    if PropValue(t, name).Some? then strs else strs + NewName(strs, name)
  }

  // A child takes the beginning and the end of a node, if no child matches.
  function ChildStep(t: Node, name: seq<byte>): int {
    if FirstChild(t.children, Some(name)) < |t.children| then 0 else ChildSize(name)
  }

  function PropsGrowth(t: Node, strs: seq<byte>, ps: seq<Property>): Growth
    decreases |ps|
  {
    if ps == [] then Growth([], strs)
    else
      WithStep(PropStep(t, strs, ps[0]),
             PropsGrowth(PutProp(t, ps[0].name, ps[0].value), StringsWith(t, strs, ps[0].name), ps[1..]))
  }

  function NodeGrowth(t: Node, strs: seq<byte>, o: Node): Growth
    decreases o, 0
  {
    var own := PropsGrowth(t, strs, o.props);
    Then(own, KidsGrowth(MergeProps(t, o.props), own.strings, o.children))
  }

  function KidsGrowth(t: Node, strs: seq<byte>, ks: seq<Node>): Growth
    decreases ks, 0
  {
    if ks == [] then Growth([], strs)
    else
      var kid := ChildGrowth(t, strs, ks[0]);
      Then(kid, KidsGrowth(MergeChild(t, ks[0]), kid.strings, ks[1..]))
  }

  function ChildGrowth(t: Node, strs: seq<byte>, c: Node): Growth
    decreases c, 1
  {
    WithStep(ChildStep(t, c.name), NodeGrowth(ChildFor(t, c.name), strs, c))
  }

  function Sum(steps: seq<int>): int {
    if steps == [] then 0 else steps[0] + Sum(steps[1..])
  }

  // No edit makes the blob, of which size bytes are taken, larger than total.
  predicate Fits(size: int, steps: seq<int>, total: int)
    decreases |steps|
  {
    steps == [] || (size + steps[0] <= total && Fits(size + steps[0], steps[1..], total))
  }

  // How many edits are made before one does not fit.
  function FitCount(size: int, steps: seq<int>, total: int): (n: nat)
    ensures n <= |steps|
    decreases |steps|
  {
    if steps == [] || size + steps[0] > total then 0 else 1 + FitCount(size + steps[0], steps[1..], total)
  }

  // The node after the first k edits of the merge.
  function AfterNode(t: Node, o: Node, k: nat): Node
    decreases o, 0
  {
    if k <= |o.props| then AfterProps(t, o.props, k)
    else AfterKids(MergeProps(t, o.props), o.children, k - |o.props|)
  }

  function AfterProps(t: Node, ps: seq<Property>, k: nat): Node
    decreases k
  {
    if k == 0 || ps == [] then t else AfterProps(PutProp(t, ps[0].name, ps[0].value), ps[1..], k - 1)
  }

  function AfterKids(t: Node, ks: seq<Node>, k: nat): Node
    decreases ks, 0
  {
    if k == 0 || ks == [] then t
    else if k <= MergeCount(ks[0]) then AfterChild(t, ks[0], k - 1)
    else AfterKids(MergeChild(t, ks[0]), ks[1..], k - 1 - MergeCount(ks[0]))
  }

  // The child is there, and k edits have been made in it.
  function AfterChild(t: Node, c: Node, k: nat): Node
    decreases c, 1
  {
    var u := WithChild(t, c.name);
    var m := FirstChild(u.children, Some(c.name));
    u.(children := u.children[m := AfterNode(u.children[m], c, k)])
  }

  // A node takes one edit for each property, and each child one besides those in it.
  function MergeCount(o: Node): nat {
    |o.props| + KidsCount(o.children)
  }

  function KidsCount(ks: seq<Node>): nat {
    if ks == [] then 0 else 1 + MergeCount(ks[0]) + KidsCount(ks[1..])
  }

  lemma {:induction false} PropsGrowthLength(t: Node, strs: seq<byte>, ps: seq<Property>)
    ensures |PropsGrowth(t, strs, ps).steps| == |ps|
    decreases |ps|
  {
    hide PropStep, PutProp, StringsWith;
    if ps != [] {
      PropsGrowthLength(PutProp(t, ps[0].name, ps[0].value), StringsWith(t, strs, ps[0].name), ps[1..]);
    }
  }

  lemma {:induction false} GrowthLength(t: Node, strs: seq<byte>, o: Node)
    ensures |NodeGrowth(t, strs, o).steps| == MergeCount(o)
    decreases o, 0
  {
    hide PropsGrowth, MergeProps;
    PropsGrowthLength(t, strs, o.props);
    KidsGrowthLength(MergeProps(t, o.props), PropsGrowth(t, strs, o.props).strings, o.children);
  }

  lemma {:induction false} KidsGrowthLength(t: Node, strs: seq<byte>, ks: seq<Node>)
    ensures |KidsGrowth(t, strs, ks).steps| == KidsCount(ks)
    decreases ks, 0
  {
    hide MergeChild, NodeGrowth, ChildFor, ChildStep;
    if ks != [] {
      GrowthLength(ChildFor(t, ks[0].name), strs, ks[0]);
      KidsGrowthLength(MergeChild(t, ks[0]), ChildGrowth(t, strs, ks[0]).strings, ks[1..]);
    }
  }

  // All edits have been made exactly if all fit.
  lemma {:induction false} DoneAll(size: int, steps: seq<int>, total: int)
    ensures Fits(size, steps, total) <==> FitCount(size, steps, total) == |steps|
    decreases |steps|
  {
    if steps != [] {
      DoneAll(size + steps[0], steps[1..], total);
    }
  }

  // After all of them the merge is complete.
  lemma {:induction false} AfterAll(t: Node, o: Node)
    ensures AfterNode(t, o, MergeCount(o)) == MergeNode(t, o)
    decreases o, 0
  {
    hide MergeProps, MergeKids, AfterProps;
    AfterAllProps(t, o.props);
    if MergeCount(o) == |o.props| {
      assert o.children == [] by { NoKidsEdits(o.children); }
      MergeKidsCons(MergeProps(t, o.props), Node([], [], []), []);
    } else {
      AfterAllKids(MergeProps(t, o.props), o.children);
    }
  }

  lemma {:induction false} AfterAllProps(t: Node, ps: seq<Property>)
    ensures AfterProps(t, ps, |ps|) == MergeProps(t, ps)
    decreases |ps|
  {
    hide PutProp;
    if ps != [] {
      AfterAllProps(PutProp(t, ps[0].name, ps[0].value), ps[1..]);
    }
  }

  // The first n edits have led to t, and ps or ks are left.
  ghost predicate PropsRemain(t0: Node, ps0: seq<Property>, n: int, t: Node, ps: seq<Property>) {
    n >= 0 && forall j: nat :: AfterProps(t, ps, j) == AfterProps(t0, ps0, n + j)
  }

  ghost predicate KidsRemain(t0: Node, o: Node, n: int, t: Node, ks: seq<Node>) {
    n >= 0 && forall j: nat :: AfterKids(t, ks, j) == AfterNode(t0, o, n + j)
  }

  lemma {:induction false} PropsRemainAll(t: Node, ps: seq<Property>)
    ensures PropsRemain(t, ps, 0, t, ps)
  {
    hide AfterProps;
  }

  lemma {:induction false} PropsRemainNext(t0: Node, ps0: seq<Property>, n: int, t: Node, p: Property,
                                           ps: seq<Property>)
    requires PropsRemain(t0, ps0, n, t, [p] + ps)
    ensures t == AfterProps(t0, ps0, n)
    ensures PropsRemain(t0, ps0, n + 1, PutProp(t, p.name, p.value), ps)
  {
    hide PutProp;
    assert ([p] + ps)[1..] == ps;
    var u := PutProp(t, p.name, p.value);
    assert AfterProps(t, [p] + ps, 0) == t;
    forall j: nat ensures AfterProps(u, ps, j) == AfterProps(t0, ps0, n + 1 + j) {
      assert AfterProps(t, [p] + ps, j + 1) == AfterProps(u, ps, j);
    }
  }

  lemma {:induction false} PropsRemainNone(t0: Node, ps0: seq<Property>, n: int, t: Node)
    requires PropsRemain(t0, ps0, n, t, [])
    ensures t == AfterProps(t0, ps0, n)
  {
    assert AfterProps(t, [], 0) == t;
  }

  lemma {:induction false} KidsRemainAll(t0: Node, o: Node)
    ensures KidsRemain(t0, o, |o.props|, MergeProps(t0, o.props), o.children)
  {
    hide MergeProps, AfterProps;
    AfterAllProps(t0, o.props);
    var t := MergeProps(t0, o.props);
    assert AfterKids(t, o.children, 0) == t;
    forall j: nat ensures AfterKids(t, o.children, j) == AfterNode(t0, o, |o.props| + j) {
    }
  }

  lemma {:induction false} KidsRemainNext(t0: Node, o: Node, n: int, t: Node, c: Node, ks: seq<Node>)
    requires KidsRemain(t0, o, n, t, [c] + ks)
    ensures t == AfterNode(t0, o, n)
    ensures forall k: nat | k < MergeCount(c) :: AfterChild(t, c, k) == AfterNode(t0, o, n + 1 + k)
    ensures KidsRemain(t0, o, n + 1 + MergeCount(c), MergeChild(t, c), ks)
  {
    hide MergeChild, AfterChild, AfterNode, MergeCount;
    assert ([c] + ks)[1..] == ks;
    assert AfterKids(t, [c] + ks, 0) == t;
    forall k: nat | k < MergeCount(c) ensures AfterChild(t, c, k) == AfterNode(t0, o, n + 1 + k) {
      assert AfterKids(t, [c] + ks, k + 1) == AfterChild(t, c, k);
    }
    forall j: nat ensures AfterKids(MergeChild(t, c), ks, j) == AfterNode(t0, o, n + 1 + MergeCount(c) + j) {
      assert AfterKids(t, [c] + ks, 1 + MergeCount(c) + j) == AfterKids(MergeChild(t, c), ks, j);
    }
  }

  lemma {:induction false} KidsRemainNone(t0: Node, o: Node, n: int, t: Node)
    requires KidsRemain(t0, o, n, t, [])
    ensures t == AfterNode(t0, o, n)
  {
    assert AfterKids(t, [], 0) == t;
  }

  lemma NoKidsEdits(ks: seq<Node>)
    ensures KidsCount(ks) == 0 <==> ks == []
  {
  }

  lemma {:induction false} AfterAllKids(t: Node, ks: seq<Node>)
    ensures AfterKids(t, ks, KidsCount(ks)) == MergeKids(t, ks)
    decreases ks, 0
  {
    hide MergeNode, FirstChild, WithChild, AfterNode;
    if ks != [] {
      var c := ks[0];
      AfterAllKids(MergeChild(t, c), ks[1..]);
    }
  }

  lemma {:induction false} SumConcat(a: seq<int>, b: seq<int>)
    ensures Sum(a + b) == Sum(a) + Sum(b)
    decreases |a|
  {
    if a == [] {
      assert a + b == b;
    } else {
      assert (a + b)[1..] == a[1..] + b;
      SumConcat(a[1..], b);
    }
  }

  lemma {:induction false} FitsConcat(size: int, a: seq<int>, b: seq<int>, total: int)
    ensures Fits(size, a + b, total) <==> Fits(size, a, total) && Fits(size + Sum(a), b, total)
    decreases |a|
  {
    if a == [] {
      assert a + b == b;
    } else {
      assert (a + b)[1..] == a[1..] + b;
      FitsConcat(size + a[0], a[1..], b, total);
    }
  }

  lemma {:induction false} FitCountConcat(size: int, a: seq<int>, b: seq<int>, total: int)
    ensures FitCount(size, a + b, total)
         == if Fits(size, a, total) then |a| + FitCount(size + Sum(a), b, total) else FitCount(size, a, total)
    decreases |a|
  {
    if a == [] {
      assert a + b == b;
    } else {
      assert (a + b)[1..] == a[1..] + b;
      FitCountConcat(size + a[0], a[1..], b, total);
    }
  }

  // An edit fits exactly if the sum of the growth up to it does.
  lemma {:induction false} FitsExact(size: int, steps: seq<int>, total: int)
    ensures Fits(size, steps, total) <==> forall k :: 1 <= k <= |steps| ==> size + Sum(steps[..k]) <= total
    decreases |steps|
  {
    if steps != [] {
      var rest := steps[1..];
      FitsExact(size + steps[0], rest, total);
      FirstSum(steps, 1);
      forall k | 1 <= k <= |rest| ensures Sum(steps[..k + 1]) == steps[0] + Sum(rest[..k]) {
        FirstSum(steps, k + 1);
      }
      if Fits(size, steps, total) {
        forall k | 1 <= k <= |steps| ensures size + Sum(steps[..k]) <= total {
          FirstSum(steps, k);
        }
      }
    }
  }

  lemma FirstSum(steps: seq<int>, k: nat)
    requires 1 <= k <= |steps|
    ensures Sum(steps[..k]) == steps[0] + Sum(steps[1..][..k - 1])
    ensures k == 1 ==> Sum(steps[..k]) == steps[0]
  {
    assert steps[..k][1..] == steps[1..][..k - 1];
  }

  // A part of the merge has been done: the growth that is left is what is left of the whole.
  predicate Remains(size0: int, all: Growth, size: int, left: Growth, total: int) {
    && all.strings == left.strings
    && size0 + Sum(all.steps) == size + Sum(left.steps)
    && (Fits(size0, all.steps, total) <==> Fits(size, left.steps, total))
    && FitCount(size0, all.steps, total) == Made(all, left) + FitCount(size, left.steps, total)
  }

  // How many edits have been made when these are left.
  function Made(all: Growth, left: Growth): int {
    |all.steps| - |left.steps|
  }

  lemma RemainsAll(size: int, all: Growth, total: int)
    ensures Remains(size, all, size, all, total)
  {
  }

  lemma RemainsNext(size0: int, all: Growth, size: int, step: int, left: Growth, total: int)
    requires Remains(size0, all, size, WithStep(step, left), total)
    ensures if size + step <= total then Remains(size0, all, size + step, left, total)
            else !Fits(size0, all.steps, total)
                 && FitCount(size0, all.steps, total) == Made(all, WithStep(step, left))
  {
    var steps := WithStep(step, left).steps;
    assert steps[1..] == left.steps;
  }

  lemma RemainsAfter(size0: int, all: Growth, size: int, part: Growth, left: Growth, total: int)
    requires Remains(size0, all, size, Then(part, left), total)
    ensures if Fits(size, part.steps, total) then Remains(size0, all, size + Sum(part.steps), left, total)
            else !Fits(size0, all.steps, total)
                 && FitCount(size0, all.steps, total)
                    == Made(all, Then(part, left)) + FitCount(size, part.steps, total)
  {
    hide Fits, Sum, FitCount;
    FitCountConcat(size, part.steps, left.steps, total);
    DoneAll(size, part.steps, total);
    SumConcat(part.steps, left.steps);
    FitsConcat(size, part.steps, left.steps, total);
  }

  lemma RemainsNone(size0: int, all: Growth, size: int, strs: seq<byte>, total: int)
    requires Remains(size0, all, size, Growth([], strs), total)
    ensures Fits(size0, all.steps, total) && size == size0 + Sum(all.steps) && all.strings == strs
  {
  }

  // One more child, if its node and what is in it fit.
  lemma RemainsChild(size0: int, all: Growth, t: Node, strs: seq<byte>, size: int, c: Node, ks: seq<Node>, total: int)
    requires Remains(size0, all, size, KidsGrowth(t, strs, [c] + ks), total)
    ensures var step, g := ChildStep(t, c.name), NodeGrowth(ChildFor(t, c.name), strs, c);
            if size + step <= total && Fits(size + step, g.steps, total) then
              Remains(size0, all, size + step + Sum(g.steps), KidsGrowth(MergeChild(t, c), g.strings, ks), total)
            else
              && !Fits(size0, all.steps, total)
              && FitCount(size0, all.steps, total)
                 == Made(all, KidsGrowth(t, strs, [c] + ks))
                    + if size + step <= total then 1 + FitCount(size + step, g.steps, total) else 0
  {
    hide Remains, KidsGrowth, MergeChild, NodeGrowth, ChildFor, ChildStep;
    KidsGrowthCons(t, strs, c, ks);
    var step, g := ChildStep(t, c.name), NodeGrowth(ChildFor(t, c.name), strs, c);
    assert ([step] + g.steps)[1..] == g.steps;
    assert ChildGrowth(t, strs, c) == WithStep(step, g);
    RemainsAfter(size0, all, size, WithStep(step, g), KidsGrowth(MergeChild(t, c), g.strings, ks), total);
  }

  // The own properties first.
  lemma RemainsOwn(t: Node, strs: seq<byte>, o: Node, size: int, total: int)
    ensures var all, own := NodeGrowth(t, strs, o), PropsGrowth(t, strs, o.props);
            if Fits(size, own.steps, total) then
              Remains(size, all, size + Sum(own.steps), KidsGrowth(MergeProps(t, o.props), own.strings, o.children),
                      total)
            else !Fits(size, all.steps, total)
                 && FitCount(size, all.steps, total) == FitCount(size, own.steps, total)
  {
    hide Remains, KidsGrowth, MergeProps, PropsGrowth;
    RemainsAll(size, NodeGrowth(t, strs, o), total);
    var own := PropsGrowth(t, strs, o.props);
    RemainsAfter(size, NodeGrowth(t, strs, o), size, own,
                 KidsGrowth(MergeProps(t, o.props), own.strings, o.children), total);
  }

  lemma PropsGrowthCons(t: Node, strs: seq<byte>, p: Property, ps: seq<Property>)
    ensures PropsGrowth(t, strs, [p] + ps)
         == WithStep(PropStep(t, strs, p), PropsGrowth(PutProp(t, p.name, p.value), StringsWith(t, strs, p.name), ps))
    ensures PropsGrowth(t, strs, []) == Growth([], strs)
  {
    hide PropStep, PutProp, StringsWith;
    assert ([p] + ps)[1..] == ps;
  }

  lemma KidsGrowthCons(t: Node, strs: seq<byte>, c: Node, ks: seq<Node>)
    ensures KidsGrowth(t, strs, [c] + ks)
         == Then(ChildGrowth(t, strs, c), KidsGrowth(MergeChild(t, c), ChildGrowth(t, strs, c).strings, ks))
    ensures KidsGrowth(t, strs, []) == Growth([], strs)
  {
    hide ChildGrowth, MergeChild;
    assert ([c] + ks)[1..] == ks;
  }

  // The merge on the way -----------------------------------------------------------------------------------------

  // The merge of the properties ps0 into t0 has come to the node t, the strings strs and a blob of size bytes, and
  // ps is left.
  ghost predicate PropsState(size0: int, total: int, t0: Node, strs0: seq<byte>, ps0: seq<Property>, size: int,
                             strs: seq<byte>, t: Node, ps: seq<Property>) {
    var all, left := PropsGrowth(t0, strs0, ps0), PropsGrowth(t, strs, ps);
    && MergeProps(t, ps) == MergeProps(t0, ps0)
    && Remains(size0, all, size, left, total)
    && PropsRemain(t0, ps0, Made(all, left), t, ps)
  }

  // The merge has to stop at this node.
  ghost predicate PropsStop(size0: int, total: int, t0: Node, strs0: seq<byte>, ps0: seq<Property>, t: Node) {
    var all := PropsGrowth(t0, strs0, ps0);
    !Fits(size0, all.steps, total) && t == AfterProps(t0, ps0, FitCount(size0, all.steps, total))
  }

  lemma PropsStateStart(size: int, total: int, t: Node, strs: seq<byte>, ps: seq<Property>)
    ensures PropsState(size, total, t, strs, ps, size, strs, t, ps)
  {
    hide PropsGrowth, MergeProps, PropsRemain;
    RemainsAll(size, PropsGrowth(t, strs, ps), total);
    PropsRemainAll(t, ps);
  }

  lemma PropsStateNext(size0: int, total: int, t0: Node, strs0: seq<byte>, ps0: seq<Property>, size: int,
                       strs: seq<byte>, t: Node, p: Property, ps: seq<Property>)
    requires PropsState(size0, total, t0, strs0, ps0, size, strs, t, [p] + ps)
    ensures var step := PropStep(t, strs, p);
            if size + step <= total then
              PropsState(size0, total, t0, strs0, ps0, size + step, StringsWith(t, strs, p.name),
                         PutProp(t, p.name, p.value), ps)
            else PropsStop(size0, total, t0, strs0, ps0, t)
  {
    hide MergeProps, PropsGrowth, Remains, PropsRemain, Fits, FitCount, PropStep, StringsWith, PutProp, AfterProps;
    var all, step := PropsGrowth(t0, strs0, ps0), PropStep(t, strs, p);
    var left := PropsGrowth(PutProp(t, p.name, p.value), StringsWith(t, strs, p.name), ps);
    PropsGrowthCons(t, strs, p, ps);
    RemainsNext(size0, all, size, step, left, total);
    PropsRemainNext(t0, ps0, Made(all, WithStep(step, left)), t, p, ps);
    MergePropsCons(t, p, ps);
  }

  lemma PropsStateEnd(size0: int, total: int, t0: Node, strs0: seq<byte>, ps0: seq<Property>, size: int,
                      strs: seq<byte>, t: Node)
    requires PropsState(size0, total, t0, strs0, ps0, size, strs, t, [])
    ensures var all := PropsGrowth(t0, strs0, ps0);
            && Fits(size0, all.steps, total) && size == size0 + Sum(all.steps) && strs == all.strings
            && t == MergeProps(t0, ps0) && t == AfterProps(t0, ps0, FitCount(size0, all.steps, total))
  {
    hide MergeProps, PropsGrowth, PropsRemain, Fits, FitCount;
    var all := PropsGrowth(t0, strs0, ps0);
    PropsGrowthCons(t, strs, Property([], []), []);
    RemainsNone(size0, all, size, strs, total);
    DoneAll(size0, all.steps, total);
    PropsRemainNone(t0, ps0, |all.steps|, t);
    MergePropsNil(t);
  }

  // The same for the merge of an overlay node o whose children ks are left.
  ghost predicate KidsState(size0: int, total: int, t0: Node, strs0: seq<byte>, o: Node, size: int, strs: seq<byte>,
                            t: Node, ks: seq<Node>) {
    var all, left := NodeGrowth(t0, strs0, o), KidsGrowth(t, strs, ks);
    && MergeKids(t, ks) == MergeNode(t0, o)
    && Remains(size0, all, size, left, total)
    && KidsRemain(t0, o, Made(all, left), t, ks)
  }

  ghost predicate NodeStop(size0: int, total: int, t0: Node, strs0: seq<byte>, o: Node, t: Node) {
    var all := NodeGrowth(t0, strs0, o);
    !Fits(size0, all.steps, total) && t == AfterNode(t0, o, FitCount(size0, all.steps, total))
  }

  lemma KidsStateStart(size0: int, total: int, t0: Node, strs0: seq<byte>, o: Node)
    ensures var own := PropsGrowth(t0, strs0, o.props);
            if Fits(size0, own.steps, total) then
              KidsState(size0, total, t0, strs0, o, size0 + Sum(own.steps), own.strings, MergeProps(t0, o.props),
                        o.children)
            else NodeStop(size0, total, t0, strs0, o, AfterProps(t0, o.props, FitCount(size0, own.steps, total)))
  {
    hide MergeKids, MergeProps, KidsGrowth, PropsGrowth, Remains, Fits, Sum, KidsRemain, FitCount, AfterProps;
    RemainsOwn(t0, strs0, o, size0, total);
    PropsGrowthLength(t0, strs0, o.props);
    KidsRemainAll(t0, o);
  }

  // The next child: its node and what is in it.
  lemma KidsStateNext(size0: int, total: int, t0: Node, strs0: seq<byte>, o: Node, size: int, strs: seq<byte>, t: Node,
                      c: Node, ks: seq<Node>)
    requires KidsState(size0, total, t0, strs0, o, size, strs, t, [c] + ks)
    ensures var step, g := ChildStep(t, c.name), NodeGrowth(ChildFor(t, c.name), strs, c);
            if size + step > total then NodeStop(size0, total, t0, strs0, o, t)
            else if Fits(size + step, g.steps, total) then
              KidsState(size0, total, t0, strs0, o, size + step + Sum(g.steps), g.strings, MergeChild(t, c), ks)
            else NodeStop(size0, total, t0, strs0, o, AfterChild(t, c, FitCount(size + step, g.steps, total)))
  {
    hide MergeKids, MergeNode, KidsGrowth, NodeGrowth, Remains, Fits, Sum, ChildFor, ChildStep, FitCount, AfterNode,
      AfterChild, KidsRemain, MergeChild, MergeCount;
    var all, step, g := NodeGrowth(t0, strs0, o), ChildStep(t, c.name), NodeGrowth(ChildFor(t, c.name), strs, c);
    RemainsChild(size0, all, t, strs, size, c, ks, total);
    KidsRemainNext(t0, o, Made(all, KidsGrowth(t, strs, [c] + ks)), t, c, ks);
    MergeKidsCons(t, c, ks);
    GrowthLength(ChildFor(t, c.name), strs, c);
    DoneAll(size + step, g.steps, total);
    CountNext(t, strs, c, ks, g.strings);
  }

  lemma CountNext(t: Node, strs: seq<byte>, c: Node, ks: seq<Node>, strs': seq<byte>)
    ensures |KidsGrowth(t, strs, [c] + ks).steps| == 1 + MergeCount(c) + |KidsGrowth(MergeChild(t, c), strs', ks).steps|
  {
    hide MergeCount, MergeChild;
    KidsGrowthLength(t, strs, [c] + ks);
    KidsGrowthLength(MergeChild(t, c), strs', ks);
    assert ([c] + ks)[1..] == ks;
  }

  lemma KidsStateEnd(size0: int, total: int, t0: Node, strs0: seq<byte>, o: Node, size: int, strs: seq<byte>, t: Node)
    requires KidsState(size0, total, t0, strs0, o, size, strs, t, [])
    ensures var all := NodeGrowth(t0, strs0, o);
            && Fits(size0, all.steps, total) && size == size0 + Sum(all.steps) && strs == all.strings
            && t == MergeNode(t0, o) && t == AfterNode(t0, o, FitCount(size0, all.steps, total))
  {
    hide MergeKids, MergeNode, KidsGrowth, NodeGrowth, KidsRemain, Fits, FitCount, AfterNode;
    var all := NodeGrowth(t0, strs0, o);
    MergeKidsCons(t, Node([], [], []), []);
    KidsGrowthCons(t, strs, Node([], [], []), []);
    RemainsNone(size0, all, size, strs, total);
    DoneAll(size0, all.steps, total);
    KidsRemainNone(t0, o, |all.steps|, t);
  }

  // Room that is enough ----------------------------------------------------------------------------------------

  // The room a property takes at most, properties one by one, and a node with all that is in it.
  function PropRoom(p: Property): nat {
    12 + Align4(|p.value|) + |p.name| + 1
  }

  function PropsRoom(ps: seq<Property>): nat {
    if ps == [] then 0 else PropRoom(ps[0]) + PropsRoom(ps[1..])
  }

  function MergeRoom(o: Node): nat {
    PropsRoom(o.props) + KidsRoom(o.children)
  }

  function KidsRoom(ks: seq<Node>): nat {
    if ks == [] then 0 else ChildSize(ks[0].name) + MergeRoom(ks[0]) + KidsRoom(ks[1..])
  }

  // With that much room all the edits fit, and they take no more.
  predicate Enough(size: int, steps: seq<int>, room: nat, total: int) {
    Sum(steps) <= room && (size + room <= total ==> Fits(size, steps, total))
  }

  lemma EnoughNext(size: int, step: int, steps: seq<int>, room: nat, more: nat, total: int)
    requires step <= room && Enough(size + step, steps, more, total)
    ensures Enough(size, [step] + steps, room + more, total)
  {
    assert ([step] + steps)[1..] == steps;
  }

  lemma EnoughConcat(size: int, a: seq<int>, b: seq<int>, room: nat, more: nat, total: int)
    requires Enough(size, a, room, total) && Enough(size + Sum(a), b, more, total)
    ensures Enough(size, a + b, room + more, total)
  {
    hide Fits, Sum;
    SumConcat(a, b);
    FitsConcat(size, a, b, total);
  }

  lemma EnoughNone(size: int, total: int)
    ensures Enough(size, [], 0, total)
  {
  }

  lemma StepRoom(t: Node, strs: seq<byte>, p: Property)
    ensures PropStep(t, strs, p) <= PropRoom(p)
  {
    hide FindStr, PropValue;
  }

  lemma {:induction false} PropsEnough(t: Node, strs: seq<byte>, ps: seq<Property>, size: int, total: int)
    ensures Enough(size, PropsGrowth(t, strs, ps).steps, PropsRoom(ps), total)
    decreases |ps|
  {
    hide PropStep, PropRoom, PutProp, StringsWith, Enough;
    if ps == [] {
      EnoughNone(size, total);
    } else {
      var p := ps[0];
      var step := PropStep(t, strs, p);
      var t1, strs1 := PutProp(t, p.name, p.value), StringsWith(t, strs, p.name);
      StepRoom(t, strs, p);
      PropsEnough(t1, strs1, ps[1..], size + step, total);
      EnoughNext(size, step, PropsGrowth(t1, strs1, ps[1..]).steps, PropRoom(p), PropsRoom(ps[1..]), total);
    }
  }

  // The room that the overlay takes when nothing in it is there yet.
  lemma {:induction false} MergeEnough(t: Node, strs: seq<byte>, o: Node, size: int, total: int)
    ensures Enough(size, NodeGrowth(t, strs, o).steps, MergeRoom(o), total)
    decreases o, 0
  {
    hide PropsGrowth, PropsRoom, KidsRoom, MergeProps, Enough;
    var own := PropsGrowth(t, strs, o.props);
    PropsEnough(t, strs, o.props, size, total);
    KidsEnough(MergeProps(t, o.props), own.strings, o.children, size + Sum(own.steps), total);
    EnoughConcat(size, own.steps, KidsGrowth(MergeProps(t, o.props), own.strings, o.children).steps,
                 PropsRoom(o.props), KidsRoom(o.children), total);
  }

  lemma {:induction false} KidsEnough(t: Node, strs: seq<byte>, ks: seq<Node>, size: int, total: int)
    ensures Enough(size, KidsGrowth(t, strs, ks).steps, KidsRoom(ks), total)
    decreases ks, 0
  {
    hide ChildGrowth, MergeChild, MergeRoom, ChildSize, Enough;
    if ks == [] {
      EnoughNone(size, total);
    } else {
      var kid := ChildGrowth(t, strs, ks[0]);
      ChildEnough(t, strs, ks[0], size, total);
      KidsEnough(MergeChild(t, ks[0]), kid.strings, ks[1..], size + Sum(kid.steps), total);
      EnoughConcat(size, kid.steps, KidsGrowth(MergeChild(t, ks[0]), kid.strings, ks[1..]).steps,
                   ChildSize(ks[0].name) + MergeRoom(ks[0]), KidsRoom(ks[1..]), total);
    }
  }

  lemma {:induction false} ChildEnough(t: Node, strs: seq<byte>, c: Node, size: int, total: int)
    ensures Enough(size, ChildGrowth(t, strs, c).steps, ChildSize(c.name) + MergeRoom(c), total)
    decreases c, 1
  {
    hide NodeGrowth, ChildFor, MergeRoom, ChildSize, FirstChild, Enough;
    var x := ChildFor(t, c.name);
    MergeEnough(x, strs, c, size + ChildStep(t, c.name), total);
    EnoughNext(size, ChildStep(t, c.name), NodeGrowth(x, strs, c).steps, ChildSize(c.name), MergeRoom(c), total);
  }
}
