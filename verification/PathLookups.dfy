// Finding a node by its path, and the round trip with fdt_get_path (fdt_ro.c).
module PathLookups {
  import opened Bytes
  import opened Tokens
  import opened Structure
  import opened Scan
  import opened Memory
  import opened Blobs
  import opened Readers
  import opened Edits
  import opened Editor
  import opened Children
  import opened Paths
  import opened PathStrings

  // Splitting a path -----------------------------------------------------------------------------------

  // The first byte that is no slash, and the first slash.
  function SkipSlashes(s: seq<byte>): (a: nat)
    ensures a <= |s| && (forall k :: 0 <= k < a ==> s[k] == SLASH) && (a < |s| ==> s[a] != SLASH)
  {
    if s == [] || s[0] != SLASH then 0 else 1 + SkipSlashes(s[1..])
  }

  function NameEnd(s: seq<byte>): (b: nat)
    ensures b <= |s| && (forall k :: 0 <= k < b ==> s[k] != SLASH) && (b < |s| ==> s[b] == SLASH)
  {
    if s == [] || s[0] == SLASH then 0 else 1 + NameEnd(s[1..])
  }

  // The components of a path; runs of slashes count as one.
  function Split(s: seq<byte>): seq<seq<byte>>
    decreases |s|
  {
    var a := SkipSlashes(s);
    if a == |s| then []
    else
      var b := NameEnd(s[a..]);
      [s[a..][..b]] + Split(s[a..][b..])
  }

  // The components hold no slash and are not empty,
  lemma {:induction false} SplitPlain(s: seq<byte>)
    ensures Plain(Split(s))
    decreases |s|
  {
    hide SkipSlashes, NameEnd;
    var a := SkipSlashes(s);
    if a < |s| {
      var t := s[a..];
      var b := NameEnd(t);
      assert t[0] == s[a];
      assert SLASH !in t[..b] by { assert forall k :: 0 <= k < b ==> t[..b][k] == t[k]; }
      SplitPlain(t[b..]);
    }
  }

  // and a slash in front of the path or of another slash does not matter.
  lemma SplitLead(s: seq<byte>)
    ensures Split([SLASH] + s) == Split(s)
  {
    var t := [SLASH] + s;
    assert t[1..] == s && t[0] == SLASH;
    assert SkipSlashes(t) == 1 + SkipSlashes(s);
    hide SkipSlashes, NameEnd;
    assert t[1 + SkipSlashes(s)..] == s[SkipSlashes(s)..];
  }

  lemma {:induction false} SplitRun(a: seq<byte>, b: seq<byte>)
    ensures Split(a + ([SLASH] + ([SLASH] + b))) == Split(a + ([SLASH] + b))
    decreases |a|
  {
    hide Split;
    var two, one := [SLASH] + ([SLASH] + b), [SLASH] + b;
    if a == [] {
      assert [] + two == two && [] + one == one;
      SplitLead(one);
    } else if a[0] == SLASH {
      assert a + two == [SLASH] + (a[1..] + two) && a + one == [SLASH] + (a[1..] + one);
      SplitLead(a[1..] + two);
      SplitLead(a[1..] + one);
      SplitRun(a[1..], b);
    } else {
      var n := NameEnd(a);
      SplitName(a, n, two);
      SplitName(a, n, one);
      SplitRun(a[n..], b);
    }
  }

  // The name at the beginning.
  lemma SplitName(a: seq<byte>, n: nat, t: seq<byte>)
    requires a != [] && a[0] != SLASH && n == NameEnd(a) && t != [] && t[0] == SLASH
    ensures n > 0 && Split(a + t) == [a[..n]] + Split(a[n..] + t)
  {
    hide Split, NameEnd;
    var s := a + t;
    NameSpan(a, n, t);
    assert s[0..] == s;
    SplitHere(s, 0, 0);
  }

  lemma NameSpan(a: seq<byte>, n: nat, t: seq<byte>)
    requires a != [] && a[0] != SLASH && n == NameEnd(a) && t != [] && t[0] == SLASH
    ensures n > 0 && NameEnd(a + t) == n && (a + t)[..n] == a[..n] && (a + t)[n..] == a[n..] + t
  {
    hide NameEnd;
    Pieces(a, n, t);
    assert (a[n..] + t)[0] == if n < |a| then a[n] else t[0];
    NameEndIs(a[..n], a[n..] + t);
  }

  lemma Pieces<T>(a: seq<T>, n: nat, t: seq<T>)
    requires n <= |a|
    ensures a + t == a[..n] + (a[n..] + t) && (a + t)[..n] == a[..n] && (a + t)[n..] == a[n..] + t
  {
  }

  // Following names ---------------------------------------------------------------------------------------

  // From child to child, each time the first one that matches.
  ghost function Resolve(n: Node, comps: seq<seq<byte>>): Option<seq<nat>>
    decreases |comps|
  {
    if comps == [] then Some([])
    else
      var m := FirstChild(n.children, Some(comps[0]));
      if m == |n.children| then None
      else
        match Resolve(n.children[m], comps[1..])
        case None => None
        case Some(q) => Some([m] + q)
  }

  // The node that the components lead to from the node at offset.
  ghost predicate FoundFrom(im: Image, offset: nat, comps: seq<seq<byte>>, r: Result<nat>)
    requires im.Valid() && IsNodeOffset(im.shape, offset)
  {
    match Resolve(im.NodeOf(offset), comps)
    case None => r == Failure(NotFound)
    case Some(q) => r.Success? && IsNodeOffset(im.shape, r.value) && im.PathOf(r.value) == im.PathOf(offset) + q
  }

  // One component.
  lemma FoundStep(im: Image, offset: nat, name: seq<byte>, comps: seq<seq<byte>>, child: Result<nat>, r: Result<nat>)
    requires im.Valid() && IsNodeOffset(im.shape, offset) && ChildIs(im.shape, offset, Some(name), child)
    ensures child.Failure? && r == child ==> FoundFrom(im, offset, [name] + comps, r)
    ensures child.Success? ==> IsNodeOffset(im.shape, child.value)
    ensures child.Success? && FoundFrom(im, child.value, comps, r) ==> FoundFrom(im, offset, [name] + comps, r)
  {
    hide Describes, Stream, Off, Toks, NodeAt, Kids, Props, PathAt, FindChild, FirstChild, StructOf, StringsOf, HeadOf,
      RsvCount, IsNode;
    var kids := im.NodeOf(offset).children;
    var m := FirstChild(kids, Some(name));
    var body := NodeAt(im.shape, IndexAt(im.shape, offset)).body;
    assert ([name] + comps)[1..] == comps;
    FindChildMeaning(body, StringsOf(im.hdr, im.mem), Some(name));
    if m < |kids| {
      ChildFound(im, offset, name, child);
      ChildNode(im, offset, child.value, m);
      if FoundFrom(im, child.value, comps, r) && r.Success? && Resolve(im.NodeOf(child.value), comps).Some? {
        JoinPaths(im.PathOf(offset), m, Resolve(im.NodeOf(child.value), comps).value);
      }
    }
  }

  lemma JoinPaths(p: seq<nat>, m: nat, q: seq<nat>)
    ensures (p + [m]) + q == p + ([m] + q)
  {
  }

  // What is found from here is what the whole path leads to.
  ghost predicate OnTheWay(im: Image, offset: nat, left: seq<seq<byte>>, comps: seq<seq<byte>>) {
    && im.Valid() && IsNodeOffset(im.shape, 0) && IsNodeOffset(im.shape, offset)
    && forall r: Result<nat> :: FoundFrom(im, offset, left, r) ==> FoundFrom(im, 0, comps, r)
  }

  lemma OneStepOn(im: Image, offset: nat, name: seq<byte>, left: seq<seq<byte>>, comps: seq<seq<byte>>,
                  child: Result<nat>)
    requires OnTheWay(im, offset, [name] + left, comps) && ChildIs(im.shape, offset, Some(name), child)
    ensures child.Failure? ==> FoundFrom(im, 0, comps, child)
    ensures child.Success? ==> OnTheWay(im, child.value, left, comps)
  {
    hide Image.Valid, FoundFrom, ChildIs, IsNodeOffset;
    FoundStep(im, offset, name, left, child, child);
    if child.Success? {
      forall r: Result<nat> | FoundFrom(im, child.value, left, r) ensures FoundFrom(im, 0, comps, r) {
        FoundStep(im, offset, name, left, child, r);
      }
    }
  }

  lemma ArrivedAt(im: Image, offset: nat, comps: seq<seq<byte>>)
    requires OnTheWay(im, offset, [], comps)
    ensures FoundFrom(im, 0, comps, Success(offset))
  {
    hide Image.Valid, FoundFrom;
    FoundHere(im, offset);
  }

  // fdt_path_offset_namelen on a path that starts with a slash
  method PathOffset(fdt: Blob, path: seq<byte>) returns (r: Result<nat>)
    requires fdt.Valid() && IsNodeOffset(fdt.shape, 0) && |path| > 0 && path[0] == SLASH
    ensures FoundFrom(fdt.Img(), 0, Split(path), r)
  {
    hide Describes, Stream, Off, Toks, NodeAt, PathAt, ChildIs, NodeCheck, FoundFrom, Kids, Props, Resolve, Image.Valid,
      OnTheWay, Split;
    ghost var comps := Split(path);
    var offset := 0;
    var p := 0;
    assert path[0..] == path;
    StartOfWay(fdt.Img(), comps);
    while p < |path|
      invariant p <= |path| && IsNodeOffset(fdt.shape, offset)
      invariant OnTheWay(fdt.Img(), offset, Split(path[p..]), comps)
    {
      ghost var start := p;
      while path[p] == SLASH
        invariant start <= p < |path| && forall k :: start <= k < p ==> path[k] == SLASH
        decreases |path| - p
      {
        p := p + 1;
        if p == |path| {
          SplitHere(path, start, p);
          ArrivedAt(fdt.Img(), offset, comps);
          return Success(offset);
        }
      }
      SplitHere(path, start, p);
      var q := SlashFrom(path, p);
      r := SubnodeOffset(fdt, offset, path[p..q]);
      OneStepOn(fdt.Img(), offset, path[p..q], Split(path[q..]), comps, r);
      if r.Failure? {
        return;
      }
      WayNode(fdt.Img(), r.value, Split(path[q..]), comps);
      offset := r.value;
      p := q;
    }
    SplitHere(path, p, p);
    ArrivedAt(fdt.Img(), offset, comps);
    return Success(offset);
  }

  // memchr for a slash, or the end
  method SlashFrom(path: seq<byte>, p: nat) returns (q: nat)
    requires p < |path| && path[p] != SLASH
    ensures q == p + NameEnd(path[p..]) && p < q <= |path|
  {
    q := p;
    ghost var s := path[p..];
    while q < |path| && path[q] != SLASH
      invariant p <= q <= |path| && forall k :: 0 <= k < q - p ==> s[k] != SLASH
    {
      q := q + 1;
    }
    assert q < |path| ==> s[q - p] == SLASH;
  }

  lemma StartOfWay(im: Image, comps: seq<seq<byte>>)
    requires im.Valid() && IsNodeOffset(im.shape, 0)
    ensures OnTheWay(im, 0, comps, comps)
  {
  }

  lemma WayNode(im: Image, offset: nat, left: seq<seq<byte>>, comps: seq<seq<byte>>)
    requires OnTheWay(im, offset, left, comps)
    ensures IsNodeOffset(im.shape, offset)
  {
  }

  // The split at a run of slashes.
  lemma SplitHere(path: seq<byte>, start: nat, p: nat)
    requires start <= p <= |path| && (forall k :: start <= k < p ==> path[k] == SLASH)
    requires (p < |path| ==> path[p] != SLASH)
    ensures Split(path[start..])
         == if p == |path| then []
            else [path[p..p + NameEnd(path[p..])]] + Split(path[p + NameEnd(path[p..])..])
  {
    SkipIs(path, start, p);
    Resplit(path, start, p);
  }

  lemma SkipIs(path: seq<byte>, start: nat, p: nat)
    requires start <= p <= |path| && (forall k :: start <= k < p ==> path[k] == SLASH)
    requires (p < |path| ==> path[p] != SLASH)
    ensures SkipSlashes(path[start..]) == p - start
  {
    hide SkipSlashes;
    var s := path[start..];
    var a := SkipSlashes(s);
    assert forall k :: 0 <= k < |s| ==> s[k] == path[start + k];
    assert a >= p - start;
    assert a <= p - start;
  }

  lemma Resplit(path: seq<byte>, start: nat, p: nat)
    requires start <= p <= |path| && SkipSlashes(path[start..]) == p - start
    ensures Split(path[start..])
         == if p == |path| then []
            else [path[p..p + NameEnd(path[p..])]] + Split(path[p + NameEnd(path[p..])..])
  {
    hide SkipSlashes, NameEnd;
    assert path[start..][p - start..] == path[p..];
    var b := NameEnd(path[p..]);
    assert path[p..][..b] == path[p..p + b] && path[p..][b..] == path[p + b..];
  }

  lemma FoundHere(im: Image, offset: nat)
    requires im.Valid() && IsNodeOffset(im.shape, offset)
    ensures FoundFrom(im, offset, [], Success(offset))
  {
    hide Describes, Toks, NodeAt, PathAt, Kids, Props;
    assert im.PathOf(offset) + [] == im.PathOf(offset);
  }

  // The round trip --------------------------------------------------------------------------------------------

  // Names that a path can be made of.
  predicate Plain(ns: seq<seq<byte>>) {
    forall k :: 0 <= k < |ns| ==> |ns[k]| > 0 && SLASH !in ns[k]
  }

  // Each name with a slash in front of it.
  function Slashed(ns: seq<seq<byte>>): seq<byte> {
    if ns == [] then [] else ([SLASH] + ns[0]) + Slashed(ns[1..])
  }

  lemma {:induction false} SlashedSnoc(ns: seq<seq<byte>>, n: seq<byte>)
    ensures Slashed(ns + [n]) == Slashed(ns) + ([SLASH] + n)
    decreases |ns|
  {
    if ns == [] {
      assert ([] + [n])[1..] == [] && Slashed([]) == [];
      assert ([SLASH] + n) + [] == [] + ([SLASH] + n);
    } else {
      assert (ns + [n])[1..] == ns[1..] + [n];
      SlashedSnoc(ns[1..], n);
    }
  }

  lemma {:induction false} JoinedSlashed(ns: seq<seq<byte>>)
    ensures Joined([[]] + ns) == Slashed(ns) + [SLASH]
    decreases |ns|
  {
    hide Slashed, Joined;
    if ns == [] {
      NoneSlashed();
      assert [[]] + ns == [] + [[]];
      JoinedSnoc([], []);
    } else {
      var front, n := ns[..|ns| - 1], ns[|ns| - 1];
      assert ns == front + [n];
      assert [[]] + ns == ([[]] + front) + [n];
      JoinedSlashed(front);
      JoinedSnoc([[]] + front, n);
      SlashedSnoc(front, n);
      MoveSlash(Slashed(front), n);
    }
  }

  lemma NoneSlashed()
    ensures Slashed([]) == [] && Joined([]) == []
  {
  }

  lemma MoveSlash(s: seq<byte>, n: seq<byte>)
    ensures (s + [SLASH]) + (n + [SLASH]) == (s + ([SLASH] + n)) + [SLASH]
  {
  }

  lemma {:induction false} SplitSlashed(ns: seq<seq<byte>>)
    requires Plain(ns)
    ensures Split(Slashed(ns)) == ns
    ensures ns != [] ==> |Slashed(ns)| > 1 && Slashed(ns)[0] == SLASH
    decreases |ns|
  {
    hide Split;
    var s := Slashed(ns);
    assert s[0..] == s;
    if ns == [] {
      SplitHere(s, 0, 0);
    } else {
      var n, t := ns[0], Slashed(ns[1..]);
      assert Plain(ns[1..]);
      SplitSlashed(ns[1..]);
      assert s == ([SLASH] + n) + t && s[1..] == n + t;
      SplitHere(s, 0, 1);
      NameEndIs(n, t);
      assert s[1..1 + |n|] == n && s[1 + |n|..] == t;
      assert ns == [n] + ns[1..];
    }
  }

  lemma NameEndIs(n: seq<byte>, t: seq<byte>)
    requires SLASH !in n && (t == [] || t[0] == SLASH)
    ensures NameEnd(n + t) == |n|
  {
    hide NameEnd;
    var b := NameEnd(n + t);
    assert forall k :: 0 <= k < |n| ==> (n + t)[k] == n[k];
    assert b >= |n|;
    assert |n| < |n + t| ==> (n + t)[|n|] == t[0];
  }

  // A path below a nameless root splits into the names it was made of.
  lemma SplitPath(ns: seq<seq<byte>>)
    requires Plain(ns)
    ensures var path := PathString([[]] + ns);
            |path| > 0 && path[0] == SLASH && Split(path) == ns
  {
    hide Split;
    JoinedSlashed(ns);
    SplitSlashed(ns);
    if ns == [] {
      assert Slashed(ns) + [SLASH] == [SLASH];
      var s: seq<byte> := [SLASH];
      assert s[0..] == s;
      SplitHere(s, 0, 1);
    } else {
      assert (Slashed(ns) + [SLASH])[..|Slashed(ns)|] == Slashed(ns);
    }
  }

  // The names of the children on the way down.
  ghost function NamesDown(n: Node, q: seq<nat>): seq<seq<byte>>
    decreases |q|
  {
    if q == [] || q[0] >= |n.children| then [] else [n.children[q[0]].name] + NamesDown(n.children[q[0]], q[1..])
  }

  // Every child on the way is the first one that a search for its name finds.
  ghost predicate FirstMatches(n: Node, q: seq<nat>)
    decreases |q|
  {
    q == [] ||
    (q[0] < |n.children| && FirstChild(n.children, Some(n.children[q[0]].name)) == q[0]
     && FirstMatches(n.children[q[0]], q[1..]))
  }

  lemma {:induction false} ResolveDown(n: Node, q: seq<nat>)
    requires HasPath(n, q)
    ensures |NamesDown(n, q)| == |q|
    ensures Resolve(n, NamesDown(n, q)) == Some(q) <==> FirstMatches(n, q)
    decreases |q|
  {
    hide FirstChild;
    if q != [] {
      var c := n.children[q[0]];
      ResolveDown(c, q[1..]);
      var ns := NamesDown(n, q);
      assert ns[1..] == NamesDown(c, q[1..]) && ns[0] == c.name;
      var m := FirstChild(n.children, Some(c.name));
      assert q == [q[0]] + q[1..];
      if m == q[0] {
        var rest := Resolve(c, ns[1..]);
        if rest.Some? {
          assert ([m] + rest.value)[1..] == rest.value;
        }
      } else if m < |n.children| && Resolve(n.children[m], ns[1..]).Some? {
        assert ([m] + Resolve(n.children[m], ns[1..]).value)[0] == m;
      }
    }
  }

  // Without ambiguous siblings every child is.
  lemma {:induction false} ApartMatches(n: Node, q: seq<nat>)
    requires HasPath(n, q) && SiblingsDistinct(n)
    ensures FirstMatches(n, q)
    decreases |q|
  {
    if q != [] {
      var kids, k := n.children, q[0];
      assert NodeNameEq(kids[k].name, kids[k].name);
      FirstIs(kids, kids[k].name, k);
      ApartMatches(kids[k], q[1..]);
    }
  }

  lemma FirstIs(kids: seq<Node>, name: seq<byte>, k: nat)
    requires k < |kids| && NodeNameEq(kids[k].name, name) && forall j :: 0 <= j < k ==> !NodeNameEq(kids[j].name, name)
    ensures FirstChild(kids, Some(name)) == k
  {
  }

  // No search for the name of a child finds an earlier one.
  ghost predicate SiblingsDistinct(n: Node) {
    && (forall i, j :: 0 <= i < j < |n.children| ==> !NodeNameEq(n.children[i].name, n.children[j].name))
    && forall i :: 0 <= i < |n.children| ==> SiblingsDistinct(n.children[i])
  }

  lemma {:induction false} DownNames(kids: seq<Node>, p: seq<nat>)
    requires ValidPath(kids, p)
    ensures HasPath(kids[p[0]], p[1..]) && |NamesDown(kids[p[0]], p[1..])| == |p| - 1
    ensures forall m :: 0 <= m < |p| - 1 ==> DownName(kids, p, m)
    decreases |p|
  {
    hide DownName;
    var n, q := kids[p[0]], p[1..];
    if |p| > 1 {
      DownNames(n.children, q);
      var rest := NamesDown(n.children[q[0]], q[1..]);
      assert NamesDown(n, q) == [n.children[q[0]].name] + rest;
      forall m | 0 <= m < |p| - 1 ensures DownName(kids, p, m) {
        DownStep(kids, p, m);
      }
    }
  }

  // Name m on the way down from the node at p[0] is that of the node at the first m + 2 steps.
  ghost predicate DownName(kids: seq<Node>, p: seq<nat>, m: nat) {
    && ValidPath(kids, p) && m + 2 <= |p| && m < |NamesDown(kids[p[0]], p[1..])|
    && ValidPath(kids, p[..m + 2])
    && NamesDown(kids[p[0]], p[1..])[m] == Lookup(kids, p[..m + 2]).name
  }

  lemma DownStep(kids: seq<Node>, p: seq<nat>, m: nat)
    requires ValidPath(kids, p) && m + 2 <= |p|
    requires p[1] < |kids[p[0]].children|
    requires |NamesDown(kids[p[0]].children[p[1]], p[1..][1..])| == |p| - 2
    requires m > 0 ==> DownName(kids[p[0]].children, p[1..], m - 1)
    ensures DownName(kids, p, m)
  {
    var n, q := kids[p[0]], p[1..];
    assert p[..m + 2][1..] == q[..m + 1] && p[..m + 2][0] == p[0];
    assert q[..1] == [q[0]];
  }

  // Along the path of a node: its name and its ancestors' names, in the syntax and in the tree.
  lemma NamesMatch(im: Image, i: nat)
    requires im.Valid() && IsNode(im.shape, 0) && IsNode(im.shape, i) && PathAt(im.shape, i)[0] == 0
    requires NodeAt(im.shape, 0).name == []
    ensures HasPath(im.NodeOf(0), PathAt(im.shape, i)[1..])
    ensures NamesAbove(im.shape, i) == [[]] + NamesDown(im.NodeOf(0), PathAt(im.shape, i)[1..])
  {
    hide Describes, Toks, NodeAt, PathAt, Kids, Props, StructOf, StringsOf, HeadOf, RsvCount, IsNode, Lookup, ValidPath,
      OpenIn, NamesDown, HasPath, NamedInTree, DownName;
    var p := PathAt(im.shape, i);
    RootAtZero(im.shape);
    RootIs(im);
    NodeParts(im.shape, StructOf(im.hdr, im.mem), StringsOf(im.hdr, im.mem), i);
    NamesInTree(im, i);
    DownNames(im.Tree(), p);
    var a, b := NamesAbove(im.shape, i), [[]] + NamesDown(im.NodeOf(0), p[1..]);
    forall m | 0 <= m < |a| ensures a[m] == b[m] {
      assert NamedInTree(im, i, m);
      if m > 0 {
        assert DownName(im.Tree(), p, m - 1);
        SameName(im, i, m);
      } else {
        RootName(im, i);
      }
    }
  }

  lemma RootIs(im: Image)
    requires im.Valid() && IsNode(im.shape, 0) && IsNodeOffset(im.shape, 0) && IndexAt(im.shape, 0) == 0
    requires PathAt(im.shape, 0) == [0]
    ensures |im.Tree()| > 0 && im.NodeOf(0) == im.Tree()[0] && im.NodeOf(0).name == NodeAt(im.shape, 0).name
  {
    hide Describes, Toks, NodeAt, PathAt, Kids, Props, StructOf, StringsOf, HeadOf, RsvCount, IsNode;
    NodeParts(im.shape, StructOf(im.hdr, im.mem), StringsOf(im.hdr, im.mem), 0);
  }

  lemma SameName(im: Image, i: nat, m: nat)
    requires im.Valid() && IsNode(im.shape, i) && m > 0
    requires NamedInTree(im, i, m) && DownName(im.Tree(), PathAt(im.shape, i), m - 1)
    ensures NamesAbove(im.shape, i)[m] == NamesDown(im.Tree()[PathAt(im.shape, i)[0]], PathAt(im.shape, i)[1..])[m - 1]
  {
    hide Describes, Toks, NodeAt, PathAt, Kids, StructOf, StringsOf, HeadOf, RsvCount, IsNode, Lookup, ValidPath,
      OpenIn, NamesDown;
  }

  lemma RootName(im: Image, i: nat)
    requires im.Valid() && IsNode(im.shape, i) && NamedInTree(im, i, 0) && PathAt(im.shape, i)[0] == 0
    requires |im.Tree()| > 0
    ensures NamesAbove(im.shape, i)[0] == im.Tree()[0].name
  {
    hide Describes, Toks, NodeAt, PathAt, Kids, StructOf, StringsOf, HeadOf, RsvCount, IsNode, OpenIn, ValidPath;
    assert PathAt(im.shape, i)[..1] == [0];
  }

  // Looking up the path that fdt_get_path gives for a node finds that node again exactly if every
  // node on the way is the first of its siblings that matches its own name.
  lemma PathRoundTrip(im: Image, n: nat, r: Result<nat>)
    requires im.Valid() && IsNode(im.shape, 0) && IsNodeOffset(im.shape, 0) && NodeAt(im.shape, 0).name == []
    requires IsNodeOffset(im.shape, n) && im.PathOf(n)[0] == 0
    requires Plain(NamesAbove(im.shape, IndexAt(im.shape, n))[1..])
    requires FoundFrom(im, 0, Split(PathString(NamesAbove(im.shape, IndexAt(im.shape, n)))), r)
    ensures PathString(NamesAbove(im.shape, IndexAt(im.shape, n)))[..1] == [SLASH]
    ensures r == Success(n) <==> FirstMatches(im.NodeOf(0), im.PathOf(n)[1..])
  {
    hide Describes, Toks, NodeAt, PathAt, Kids, Props, StructOf, StringsOf, HeadOf, RsvCount, IsNode, OpenIn, NamesDown,
      HasPath, Split, PathString, FirstMatches, Resolve;
    var i, p := IndexAt(im.shape, n), im.PathOf(n);
    var down := NamesDown(im.NodeOf(0), p[1..]);
    NamesMatch(im, i);
    assert NamesAbove(im.shape, i)[1..] == down;
    SplitPath(down);
    ResolveDown(im.NodeOf(0), p[1..]);
    RootAtZero(im.shape);
    assert p == [0] + p[1..];
    if FirstMatches(im.NodeOf(0), p[1..]) {
      SamePlace(im, r.value, n);
    }
    if r == Success(n) && Resolve(im.NodeOf(0), down).Some? {
      CutRoot(p, Resolve(im.NodeOf(0), down).value);
    }
  }

  lemma SamePlace(im: Image, a: nat, b: nat)
    requires IsNodeOffset(im.shape, a) && IsNodeOffset(im.shape, b) && im.PathOf(a) == im.PathOf(b)
    ensures a == b
  {
    hide Toks, NodeAt, PathAt;
    PathInjective(im.shape, IndexAt(im.shape, a), IndexAt(im.shape, b));
  }

  lemma CutRoot(p: seq<nat>, q: seq<nat>)
    requires |p| > 0
    ensures p == [0] + q ==> q == p[1..]
  {
  }
}
