// Merging an overlay into a base device tree: overlay_apply_node of fdt_overlay.c.
module Overlay {
  import opened Bytes
  import opened Tokens
  import opened Structure
  import opened Scan
  import opened Blobs
  import opened Readers
  import opened Splicing
  import opened Strings
  import opened Edits
  import opened Editor
  import opened NodeEditor
  import opened Children
  import opened Walk
  import opened MergeTrees

  // A child of an edited node ----------------------------------------------------------------

  lemma {:induction false} UpdateDeep(kids: seq<Node>, p: seq<nat>, m: nat, x: Node)
    requires ValidPath(kids, p) && ValidPath(kids, p + [m])
    ensures m < |Lookup(kids, p).children|
    ensures Lookup(kids, p + [m]) == Lookup(kids, p).children[m]
    ensures Update(kids, p + [m], [x])
         == Update(kids, p, [Lookup(kids, p).(children := Lookup(kids, p).children[m := x])])
    decreases |p|
  {
    var k := p[0];
    var n := kids[k];
    assert (p + [m])[1..] == p[1..] + [m];
    if |p| == 1 {
      assert p[1..] + [m] == [m];
      var c := n.children;
      assert c[..m] + [x] + c[m + 1..] == c[m := x];
      var y := n.(children := c[m := x]);
      assert kids[..k] + [y] + kids[k + 1..] == kids[k := y];
    } else {
      UpdateDeep(n.children, p[1..], m, x);
    }
  }

  lemma {:induction false} UpdateSelf(kids: seq<Node>, p: seq<nat>)
    requires ValidPath(kids, p)
    ensures Update(kids, p, [Lookup(kids, p)]) == kids
    decreases |p|
  {
    if |p| > 1 {
      UpdateSelf(kids[p[0]].children, p[1..]);
    }
  }

  // An edit of the child is an edit of the node.
  lemma LiftEdit(a: Image, b: Image, target: nat, nn: nat, m: nat, x: Node)
    requires ChildOf(a, target, nn, m) && NodeEdited(a, b, nn, [x]) && KeepsOffsets(a.shape, b.shape, nn)
    ensures m < |a.NodeOf(target).children| && a.NodeOf(nn) == a.NodeOf(target).children[m]
    ensures var u := a.NodeOf(target);
            NodeEdited(a, b, target, [u.(children := u.children[m := x])])
    ensures KeepsOffsets(a.shape, b.shape, target)
  {
    hide Describes, PathAt, Update, Lookup, ValidPath, NodeAt, Kids, Props, StructOf, HeadOf, StringsOf, RsvCount, Off;
    NodeParts(a.shape, StructOf(a.hdr, a.mem), StringsOf(a.hdr, a.mem), IndexAt(a.shape, target));
    NodeParts(a.shape, StructOf(a.hdr, a.mem), StringsOf(a.hdr, a.mem), IndexAt(a.shape, nn));
    UpdateDeep(a.Tree(), a.PathOf(target), m, x);
  }

  // Edits of one node, one after the other -----------------------------------------------------

  // All that has happened between two moments is that the node at target has changed.
  ghost predicate Progress(a: Image, b: Image, target: nat) {
    && IsNodeOffset(b.shape, target) && b.Valid()
    && NodeEdited(a, b, target, [b.NodeOf(target)])
    && KeepsOffsets(a.shape, b.shape, target)
  }

  lemma ProgressNone(a: Image, target: nat)
    requires a.Valid() && IsNodeOffset(a.shape, target)
    ensures Progress(a, a, target)
  {
    hide Describes, PathAt, Update, Lookup, ValidPath, NodeAt, Kids, Props, StructOf, HeadOf, StringsOf, RsvCount, Off;
    NodeParts(a.shape, StructOf(a.hdr, a.mem), StringsOf(a.hdr, a.mem), IndexAt(a.shape, target));
    UpdateSelf(a.Tree(), a.PathOf(target));
  }

  lemma ProgressStep(a: Image, b: Image, c: Image, target: nat, x: Node)
    requires Progress(a, b, target) && NodeEdited(b, c, target, [x]) && KeepsOffsets(b.shape, c.shape, target)
    ensures Progress(a, c, target) && c.NodeOf(target) == x
  {
    hide Describes, Update, Lookup, ValidPath, NodeAt, Kids, Props, StructOf, HeadOf, StringsOf, RsvCount, Off,
      KeepsOffsets, NodeEdited, Image.NodeOf;
    EditedValid(b, c, target, [x]);
    KeepsTwice(a.shape, b.shape, c.shape, target);
    EditedTwice(a, b, c, target, b.NodeOf(target), [x]);
    EditedNode(b, c, target, x);
  }

  lemma ProgressValid(a: Image, b: Image, n: nat)
    requires Progress(a, b, n)
    ensures b.Valid() && IsNodeOffset(b.shape, n)
  {
  }

  lemma ProgressTotal(a: Image, b: Image, n: nat)
    requires Progress(a, b, n)
    ensures b.hdr.totalsize == a.hdr.totalsize
  {
    hide Image.Valid, Image.Tree;
  }

  lemma EditedNode(b: Image, c: Image, n: nat, x: Node)
    requires NodeEdited(b, c, n, [x]) && KeepsOffsets(b.shape, c.shape, n)
    ensures IsNodeOffset(c.shape, n) && OrderedIn(c.hdr, |c.mem|) && c.NodeOf(n) == x
  {
    EditedTwice(b, c, c, n, x, []);
  }

  // The property loop -----------------------------------------------------------------------------

  ghost predicate Walkable(it: Items, strs: seq<byte>) {
    WellNested(it, true) && PropsFirst(it) && Resolved(it, strs)
  }

  lemma WalkableNode(im: Image, i: nat)
    requires im.Valid() && IsNode(im.shape, i)
    ensures Walkable(NodeAt(im.shape, i).body, StringsOf(im.hdr, im.mem))
  {
    hide Describes;
    NodeParts(im.shape, StructOf(im.hdr, im.mem), StringsOf(im.hdr, im.mem), i);
  }

  // What is left of the properties when the walk stands on one, or on none.
  lemma PropertyLeft(it: Items, strs: seq<byte>)
    requires Walkable(it, strs)
    ensures !FromProp(it).Leaf? ==> Props(it, strs) == []
    ensures FromProp(it).Leaf? ==>
              var p := FromProp(it);
              && p.tok.Prop? && CStr(strs, p.tok.nameOff).Some?
              && Walkable(p.rest, strs)
              && Props(it, strs) == [Property(NameOf(strs, p.tok.nameOff), p.tok.value)] + Props(p.rest, strs)
              && |Toks(p.rest)| < |Toks(it)|
  {
    hide CStr;
    SplitNops(it, strs);
    NestedFromProp(it);
    var p := FromProp(it);
    if p.Leaf? {
      ToksAppend(Nops(it), p);
    } else if p.Sub? {
      NoPropsMeans(p, strs);
    }
  }

  lemma {:induction false} NestedFromProp(it: Items)
    requires WellNested(it, true)
    ensures WellNested(FromProp(it), true)
  {
    hide Token.Ok;
    match it
    case Leaf(tok, rest) => if tok.Nop? { NestedFromProp(rest); }
    case _ =>
  }

  lemma ResolvedName(strs: seq<byte>, off: u32)
    requires CStr(strs, off).Some?
    ensures CStr(strs, off) == Some(NameOf(strs, off)) && NoNul(NameOf(strs, off))
  {
  }

  lemma IntactValid(a: Image, b: Image)
    requires a.Valid() && Intact(a, b)
    ensures b.Valid() && b.Tree() == a.Tree() && b.shape == a.shape
  {
    hide Describes, RsvCount, Kids;
    BelowTop(a.hdr, a.mem, b.mem);
  }

  lemma IntactProgress(a: Image, b: Image, c: Image, n: nat)
    requires Progress(a, b, n) && Intact(b, c)
    ensures c.Valid() && IsNodeOffset(c.shape, n) && Progress(a, c, n) && c.NodeOf(n) == b.NodeOf(n)
  {
    hide Describes, RsvCount, Kids, Props, NodeAt, PathAt, Update, ValidPath, StructOf;
    IntactValid(b, c);
    BelowTop(b.hdr, b.mem, c.mem);
  }

  // The property the walk stands on.
  lemma PropertyThere(shape: Items, strs: seq<byte>, i: nat, pre: Items, it: Items, r: Result<nat>)
    requires AtProperty(shape, i, pre, it, r) && r.Success? && Walkable(it, strs)
    ensures FromProp(it).Leaf?
    ensures var j := Place(i, pre) + |Toks(Nops(it))|;
            && j < |Stream(shape)| && Stream(shape)[j] == FromProp(it).tok && Stream(shape)[j].Prop?
            && r.value == Off(Stream(shape), j)
            && IsPropOffset(shape, r.value) && PropIndexAt(shape, r.value) == j
  {
    hide Stream, Toks, Off, CStr, Remaining, Walkable;
    PropertyLeft(it, strs);
    PropIndexUnique(shape, Place(i, pre) + |Toks(Nops(it))|);
  }

  lemma NoPropertyThere(shape: Items, i: nat, pre: Items, it: Items, r: Result<nat>)
    requires AtProperty(shape, i, pre, it, r) && r.Failure?
    ensures !FromProp(it).Leaf? && r == Failure(NotFound)
  {
  }

  // The blob h' has grown from h by at most room.
  predicate GrownBy(h: Header, h': Header, room: nat) {
    h'.totalsize == h.totalsize && DataSize(h') <= DataSize(h) + room
  }

  // There was not that much room.
  predicate TooSmall(h: Header, room: nat) {
    DataSize(h) + room > h.totalsize
  }

  predicate GrownByStep(h: Header, h': Header, step: int) {
    h'.totalsize == h.totalsize && DataSize(h') == DataSize(h) + step
  }

  lemma GrowthIs(im: Image, n: nat, p: Property)
    requires OrderedIn(im.hdr, |im.mem|) && IsNodeOffset(im.shape, n)
    ensures PropGrowth(im, n, p.name, |p.value|) == PropStep(im.NodeOf(n), StringsOf(im.hdr, im.mem), p)
    ensures PropStrings(im, n, p.name) == StringsWith(im.NodeOf(n), StringsOf(im.hdr, im.mem), p.name)
  {
    hide FindStr, StringsOf, Image.NodeOf;
  }

  // It has grown by these edits, and the strings block is the one they leave.
  ghost predicate GrownTo(h: Header, im: Image, g: Growth) {
    && im.hdr.totalsize == h.totalsize && DataSize(im.hdr) == DataSize(h) + Sum(g.steps)
    && OrderedIn(im.hdr, |im.mem|) && StringsOf(im.hdr, im.mem) == g.strings
  }

  lemma EditedTotal(a: Image, b: Image, n: nat, repl: seq<Node>)
    requires NodeEdited(a, b, n, repl)
    ensures b.hdr.totalsize == a.hdr.totalsize
  {
    hide Image.Valid, Image.Tree;
  }

  lemma PropsOfNode(im: Image, n: nat)
    requires im.Valid() && IsNodeOffset(im.shape, n)
    ensures im.NodeOf(n).props == Props(NodeAt(im.shape, IndexAt(im.shape, n)).body, StringsOf(im.hdr, im.mem))
  {
    hide Describes, NodeAt, Props, Kids, StringsOf;
  }

  // The first loop of overlay_apply_node
  method ApplyProperties(fdt: Blob, target: nat, fdto: Blob, node: nat) returns (r: Result<()>)
    requires fdt.Valid() && fdto.Valid() && fdt != fdto && fdt.buf != fdto.buf
    requires IsNodeOffset(fdt.shape, target) && IsNodeOffset(fdto.shape, node)
    requires fdto.hdr.totalsize <= MAX_LEN
    modifies fdt, fdt.buf
    ensures fdt.Valid() && IsNodeOffset(fdt.shape, target) && Progress(old(fdt.Img()), fdt.Img(), target)
    ensures var t, ps := old(fdt.Img().NodeOf(target)), fdto.Img().NodeOf(node).props;
            var g := PropsGrowth(t, old(fdt.StringsBlock()), ps);
            && (r.Success? <==> Fits(DataSize(old(fdt.hdr)), g.steps, old(fdt.hdr).totalsize))
            && fdt.Img().NodeOf(target) == AfterProps(t, ps, FitCount(DataSize(old(fdt.hdr)), g.steps,
                                                                      old(fdt.hdr).totalsize))
            && (r.Success? ==> GrownTo(old(fdt.hdr), fdt.Img(), g) && fdt.Img().NodeOf(target) == MergeProps(t, ps))
    ensures r.Success? ==> GrownBy(old(fdt.hdr), fdt.hdr, PropsRoom(fdto.Img().NodeOf(node).props))
    ensures r.Failure? ==> r == Failure(NoSpace) && TooSmall(old(fdt.hdr), PropsRoom(fdto.Img().NodeOf(node).props))
  {
    hide Describes, Off, Stream, NodeAt, Kids, Props, StructOf, StringsOf, HeadOf, RsvCount, CStr, Progress, PutProp,
      MergeProps, FromProp, Nops, Append, Toks, Walkable, RwProbe, NodeCheck, AtProperty, NameOf, PropsRoom, Fits, Sum,
      PropsGrowth, FitCount, PropStep, StringsWith, PropsState, Image.NodeOf, AfterProps;
    ghost var a, t0, ps := fdt.Img(), fdt.Img().NodeOf(target), fdto.Img().NodeOf(node).props;
    ghost var size, total, base := DataSize(fdt.hdr), fdt.hdr.totalsize, fdt.StringsBlock();
    PropsEnough(t0, base, ps, size, total);
    PropsStateStart(size, total, t0, base, ps);
    ProgressNone(a, target);
    ghost var i := IndexAt(fdto.shape, node);
    ghost var strs := fdto.StringsBlock();
    ghost var pre, it := Done, NodeAt(fdto.shape, i).body;
    WalkableNode(fdto.Img(), i);
    PropsOfNode(fdto.Img(), node);
    var p := FirstPropertyOffset(fdto, node);
    FirstPropertyOf(fdto.shape, i, p);
    while p.Success?
      invariant fdto.Valid() && fdt.Valid() && IsNodeOffset(fdt.shape, target) && Progress(a, fdt.Img(), target)
      invariant AtProperty(fdto.shape, i, pre, it, p) && Walkable(it, strs)
      invariant fdt.hdr.totalsize == total
      invariant PropsState(size, total, t0, base, ps, DataSize(fdt.hdr), fdt.StringsBlock(), fdt.Img().NodeOf(target),
                           Props(it, strs))
      decreases |Toks(it)|
    {
      PropertyThere(fdto.shape, strs, i, pre, it, p);
      PropertyLeft(it, strs);
      ghost var t, more := FromProp(it).tok, FromProp(it).rest;
      ResolvedName(strs, t.nameOff);
      PropIndexUnique(fdto.shape, Place(i, pre) + |Toks(Nops(it))|);
      var name, val := GetPropByOffset(fdto, p.value);
      PropsStateNext(size, total, t0, base, ps, DataSize(fdt.hdr), fdt.StringsBlock(), fdt.Img().NodeOf(target),
                     Property(name.value, val), Props(more, strs));
      r := ApplyProperty(fdt, target, name.value, val, a);
      if r.Failure? {
        return;
      }
      var next := NextPropertyOffset(fdto, p.value);
      NextPropertyOf(fdto.shape, i, pre, it, p, next);
      p, pre, it := next, Append(pre, Append(Nops(it), Leaf(t, Done))), more;
    }
    NoPropertyThere(fdto.shape, i, pre, it, p);
    PropertyLeft(it, strs);
    PropsStateEnd(size, total, t0, base, ps, DataSize(fdt.hdr), fdt.StringsBlock(), fdt.Img().NodeOf(target));
    return Success(());
  }

  method ApplyProperty(fdt: Blob, target: nat, name: seq<byte>, val: seq<byte>, ghost a: Image) returns (r: Result<()>)
    requires Progress(a, fdt.Img(), target) && fdt.Valid() && IsNodeOffset(fdt.shape, target)
    requires |val| <= MAX_LEN && |name| < INT32_MAX && NoNul(name)
    modifies fdt, fdt.buf
    ensures r.Success? ==>
              && Progress(a, fdt.Img(), target) && fdt.Valid() && IsNodeOffset(fdt.shape, target)
              && fdt.Img().NodeOf(target) == PutProp(old(fdt.Img().NodeOf(target)), name, val)
              && fdt.StringsBlock() == StringsWith(old(fdt.Img().NodeOf(target)), old(fdt.StringsBlock()), name)
    ensures var step := PropStep(old(fdt.Img().NodeOf(target)), old(fdt.StringsBlock()), Property(name, val));
            && (r.Success? <==> DataSize(old(fdt.hdr)) + step <= old(fdt.hdr).totalsize)
            && (r.Success? ==> GrownByStep(old(fdt.hdr), fdt.hdr, step))
    ensures r.Failure? ==>
              && r == Failure(NoSpace) && fdt.Valid() && IsNodeOffset(fdt.shape, target)
              && Progress(a, fdt.Img(), target) && fdt.Img().NodeOf(target) == old(fdt.Img().NodeOf(target))
  {
    hide Describes, Off, Stream, NodeAt, Kids, Props, StructOf, StringsOf, HeadOf, RsvCount, CStr, KeepsOffsets,
      Progress, NodeEdited, Intact, PutProp, RwProbe, NodeCheck, PropGrowth, PropStrings, PropStep, StringsWith;
    ghost var b := fdt.Img();
    ProbeAccepts(b);
    GrowthIs(b, target, Property(name, val));
    r := SetProp(fdt, target, name, val);
    if r.Failure? {
      IntactProgress(a, b, fdt.Img(), target);
    } else {
      EditedTotal(b, fdt.Img(), target, [PutProp(b.NodeOf(target), name, val)]);
      ProgressStep(a, b, fdt.Img(), target, PutProp(b.NodeOf(target), name, val));
      ProgressValid(a, fdt.Img(), target);
    }
  }

  // The child loop ------------------------------------------------------------------------------

  // What is left of the subnodes.
  lemma ChildrenLeft(it: Items, strs: seq<byte>)
    requires Walkable(it, strs)
    ensures !FromSub(it).Sub? ==> Kids(it, strs) == []
    ensures FromSub(it).Sub? ==>
              var s := FromSub(it);
              && Walkable(s.rest, strs)
              && Kids(it, strs) == [Node(s.name, Props(s.body, strs), Kids(s.body, strs))] + Kids(s.rest, strs)
              && |Toks(s.rest)| < |Toks(it)|
  {
    FindAnyChild(it, strs);
    FromSubKeeps(it, strs);
    var s := FromSub(it);
    if s.Sub? {
      NoPropsFirst(s.rest);
    }
  }

  lemma {:induction false} FromSubKeeps(it: Items, strs: seq<byte>)
    requires Walkable(it, strs)
    ensures Walkable(FromSub(it), strs)
  {
    hide CStr, Token.Ok;
    match it
    case Leaf(_, rest) => FromSubKeeps(rest, strs);
    case _ =>
  }

  lemma NoChildThere(shape: Items, i: nat, pre: Items, it: Items, r: Result<nat>)
    requires AtChild(shape, i, pre, it, r) && r.Failure?
    ensures !FromSub(it).Sub?
  {
  }

  // Names are shorter than the blob.
  lemma NameShort(fdt: Blob, n: nat)
    requires fdt.Valid() && IsNodeOffset(fdt.shape, n)
    ensures var name := NodeAt(fdt.shape, IndexAt(fdt.shape, n)).name;
            NoNul(name) && |name| < fdt.hdr.totalsize
  {
    hide Describes, Stream, Off, NodeCheck, Toks, NodeAt, At, StructOf, StringsOf, HeadOf, RsvCount, Put32;
    var i := IndexAt(fdt.shape, n);
    NodeRun(fdt.shape, i);
    DescribedTagOf(fdt, i);
    AtBound(fdt.StructBlock(), n, Stream(fdt.shape)[i].Enc());
    StructSize(fdt.hdr, fdt.buf[..]);
  }

  // fdt_add_subnode, or the existing subnode if there is one of that name
  method EnsureChild(fdt: Blob, target: nat, name: seq<byte>, ghost a: Image) returns (r: Result<nat>, ghost m: nat)
    requires Progress(a, fdt.Img(), target) && fdt.Valid() && IsNodeOffset(fdt.shape, target)
    requires |name| <= MAX_LEN && NoNul(name)
    modifies fdt, fdt.buf
    ensures fdt.Valid()
    ensures r.Success? ==>
              && Progress(a, fdt.Img(), target) && IsNodeOffset(fdt.shape, target)
              && fdt.Img().NodeOf(target) == WithChild(old(fdt.Img().NodeOf(target)), name)
              && m == FirstChild(fdt.Img().NodeOf(target).children, Some(name))
              && ChildOf(fdt.Img(), target, r.value, m)
              && fdt.StringsBlock() == old(fdt.StringsBlock())
    ensures var step := ChildStep(old(fdt.Img().NodeOf(target)), name);
            && (r.Success? <==> DataSize(old(fdt.hdr)) + step <= old(fdt.hdr).totalsize)
            && (r.Success? ==> GrownByStep(old(fdt.hdr), fdt.hdr, step))
    ensures r.Failure? ==> r == Failure(NoSpace) && fdt.Img() == old(fdt.Img())
  {
    hide Describes, Off, Stream, NodeAt, Kids, Props, StructOf, StringsOf, HeadOf, RsvCount, CStr, KeepsOffsets, PathAt,
      NodeEdited, PutChild, RwProbe, NodeCheck, FirstChild, FindChild;
    ghost var b := fdt.Img();
    ghost var t := b.NodeOf(target);
    m := FirstChild(t.children, Some(name));
    ProbeAccepts(b);
    r := AddSubnode(fdt, target, name);
    if r == Failure(Exists) {
      r := SubnodeOffset(fdt, target, name);
      ChildFound(b, target, name, r);
      return;
    }
    if r.Success? {
      ProgressStep(a, b, fdt.Img(), target, PutChild(t, name));
      EditedTotal(b, fdt.Img(), target, [PutChild(t, name)]);
      NewChildFirst(t, name);
      m := 0;
    }
  }

  // The child the walk stands on, as a tree node.
  lemma ChildThere(im: Image, i: nat, pre: Items, it: Items, r: Result<nat>)
    requires im.Valid() && AtChild(im.shape, i, pre, it, r) && r.Success? && Walkable(it, StringsOf(im.hdr, im.mem))
    ensures IsNodeOffset(im.shape, r.value) && FromSub(it).Sub?
    ensures Walkable(FromSub(it).rest, StringsOf(im.hdr, im.mem))
    ensures IsNode(im.shape, i) && IsNode(im.shape, IndexAt(im.shape, r.value))
    ensures |Toks(NodeAt(im.shape, IndexAt(im.shape, r.value)))| < |Toks(NodeAt(im.shape, i))|
    ensures NodeAt(im.shape, IndexAt(im.shape, r.value)).name == im.NodeOf(r.value).name
    ensures Kids(it, StringsOf(im.hdr, im.mem))
            == [im.NodeOf(r.value)] + Kids(FromSub(it).rest, StringsOf(im.hdr, im.mem))
    ensures |Toks(FromSub(it).rest)| < |Toks(it)|
  {
    hide Describes, Stream, Off, Toks, NodeAt, Kids, Props, FromSub, Leaves, LeafCount, AtChild, Walkable, StructOf,
      StringsOf, HeadOf, RsvCount, IsNode;
    ChildFacts(im.shape, i, pre, it, r);
    ChildrenLeft(it, StringsOf(im.hdr, im.mem));
    AtChildSub2(im.shape, i, pre, it, r);
  }

  lemma AtChildSub2(shape: Items, i: nat, pre: Items, it: Items, r: Result<nat>)
    requires AtChild(shape, i, pre, it, r)
    ensures IsNode(shape, i)
  {
  }

  // An edit of the child the edit of the node went into.
  lemma ChildProgress(a: Image, c: Image, d: Image, target: nat, nn: nat, m: nat, x: Node)
    requires Progress(a, c, target) && ChildOf(c, target, nn, m) && Progress(c, d, nn) && d.NodeOf(nn) == x
    ensures Progress(a, d, target)
    ensures var u := c.NodeOf(target);
            && m < |u.children| && c.NodeOf(nn) == u.children[m]
            && d.NodeOf(target) == u.(children := u.children[m := x])
  {
    hide Describes, Update, Lookup, ValidPath, NodeAt, Kids, Props, StructOf, HeadOf, StringsOf, RsvCount, Off,
      KeepsOffsets, NodeEdited, Image.NodeOf, PathAt, Stream;
    LiftEdit(c, d, target, nn, m, x);
    var u := c.NodeOf(target);
    ProgressStep(a, c, d, target, u.(children := u.children[m := x]));
  }

  // An overlay node is merged into the base node at target. It succeeds exactly if every edit fits; otherwise
  // exactly the edits in front of the first that does not fit have been made. It does not fail if there is the
  // room that the overlay takes when nothing in it is there yet.
  method ApplyNode(fdt: Blob, target: nat, fdto: Blob, node: nat) returns (r: Result<()>)
    requires fdt.Valid() && fdto.Valid() && fdt != fdto && fdt.buf != fdto.buf
    requires IsNodeOffset(fdt.shape, target) && IsNodeOffset(fdto.shape, node)
    requires fdto.hdr.totalsize <= MAX_LEN
    modifies fdt, fdt.buf
    ensures fdt.Valid() && IsNodeOffset(fdt.shape, target) && Progress(old(fdt.Img()), fdt.Img(), target)
    ensures Applied(old(fdt.hdr), old(fdt.Img().NodeOf(target)), old(fdt.StringsBlock()), fdto.Img().NodeOf(node),
                    fdt.Img(), target, r.Success?)
    ensures r.Failure? ==> r == Failure(NoSpace)
    decreases |Toks(NodeAt(fdto.shape, IndexAt(fdto.shape, node)))|
  {
    hide Describes, Off, Stream, NodeAt, Kids, Props, StructOf, StringsOf, HeadOf, RsvCount, CStr, Progress, FromSub,
      Leaves, Append, Toks, Walkable, RwProbe, NodeCheck, AtChild, NameOf, ChildOf, FirstChild, WithChild, IsNode,
      ChildStep, ChildFor, Image.NodeOf, Fits, FitCount, PropsGrowth, AfterProps, MergeProps, Sum, Applied, Applying;
    ghost var a, t0 := fdt.Img(), fdt.Img().NodeOf(target);
    ghost var fo, o := fdto.Img(), fdto.Img().NodeOf(node);
    ghost var base := fdt.StringsBlock();
    ghost var i := IndexAt(fdto.shape, node);
    ghost var strs := fdto.StringsBlock();
    r := ApplyProperties(fdt, target, fdto, node);
    ProgressTotal(a, fdt.Img(), target);
    AppliedProps(a.hdr, t0, base, o, fdt.Img(), target, r.Success?);
    if r.Failure? {
      return;
    }
    ghost var pre, it := Done, NodeAt(fdto.shape, i).body;
    WalkableNode(fo, i);
    var sub := FirstSubnode(fdto, node);
    FirstChildOf(fdto.shape, i, sub);
    KidsOfNode(fo, node);
    while sub.Success?
      invariant fdto.Valid() && fdt.Valid() && IsNodeOffset(fdt.shape, target) && Progress(a, fdt.Img(), target)
      invariant AtChild(fdto.shape, i, pre, it, sub) && Walkable(it, strs)
      invariant Applying(a.hdr, t0, base, o, fdt.Img(), target, Kids(it, strs))
      decreases |Toks(it)|
    {
      ChildThere(fo, i, pre, it, sub);
      NameShort(fdto, sub.value);
      ghost var b, s, kid := fdt.Img(), FromSub(it), fo.NodeOf(sub.value);
      ghost var m;
      var name := GetName(fdto, sub.value);
      var nn;
      nn, m := EnsureChild(fdt, target, name.value, a);
      if nn.Failure? {
        AppliedNoChild(a.hdr, t0, base, o, b, target, kid, Kids(s.rest, strs));
        return Failure(nn.error);
      }
      ghost var c := fdt.Img();
      ChildForNode(c, target, nn.value, m, b.NodeOf(target), name.value);
      r := ApplyNode(fdt, nn.value, fdto, sub.value);
      AppliedChild(a, t0, base, o, b, c, fdt.Img(), target, nn.value, m, kid, Kids(s.rest, strs), r.Success?);
      if r.Failure? {
        return;
      }
      var next := NextSubnode(fdto, sub.value);
      NextChildOf(fdto.shape, i, pre, it, sub, next);
      sub, pre, it := next, Append(pre, Append(Leaves(it), Sub(s.name, s.npad, s.body, Done))), s.rest;
    }
    NoChildThere(fdto.shape, i, pre, it, sub);
    ChildrenLeft(it, strs);
    AppliedAll(a.hdr, t0, base, o, fdt.Img(), target);
    return Success(());
  }

  // How the merge of o into the node t0 of a blob with this header and these strings ends.
  ghost predicate Applied(h: Header, t0: Node, strs0: seq<byte>, o: Node, im: Image, target: nat, ok: bool)
    requires OrderedIn(im.hdr, |im.mem|) && IsNodeOffset(im.shape, target)
  {
    var g := NodeGrowth(t0, strs0, o);
    && im.hdr.totalsize == h.totalsize
    && (ok <==> Fits(DataSize(h), g.steps, h.totalsize))
    && im.NodeOf(target) == AfterNode(t0, o, FitCount(DataSize(h), g.steps, h.totalsize))
    && (ok ==> GrownTo(h, im, g) && im.NodeOf(target) == MergeNode(t0, o) && GrownBy(h, im.hdr, MergeRoom(o)))
    && (!ok ==> TooSmall(h, MergeRoom(o)))
  }

  // The children ks are left.
  ghost predicate Applying(h: Header, t0: Node, strs0: seq<byte>, o: Node, im: Image, target: nat, ks: seq<Node>)
    requires OrderedIn(im.hdr, |im.mem|) && IsNodeOffset(im.shape, target)
  {
    && im.hdr.totalsize == h.totalsize
    && KidsState(DataSize(h), h.totalsize, t0, strs0, o, DataSize(im.hdr), StringsOf(im.hdr, im.mem),
                 im.NodeOf(target), ks)
  }

  lemma AppliedStop(h: Header, t0: Node, strs0: seq<byte>, o: Node, im: Image, target: nat)
    requires OrderedIn(im.hdr, |im.mem|) && IsNodeOffset(im.shape, target) && im.hdr.totalsize == h.totalsize
    requires NodeStop(DataSize(h), h.totalsize, t0, strs0, o, im.NodeOf(target))
    ensures Applied(h, t0, strs0, o, im, target, false)
  {
    hide NodeGrowth, Fits, FitCount, AfterNode, MergeNode, MergeRoom, Sum, Image.NodeOf;
    MergeEnough(t0, strs0, o, DataSize(h), h.totalsize);
  }

  lemma AppliedProps(h: Header, t0: Node, strs0: seq<byte>, o: Node, im: Image, target: nat, ok: bool)
    requires OrderedIn(im.hdr, |im.mem|) && IsNodeOffset(im.shape, target) && im.hdr.totalsize == h.totalsize
    requires var g := PropsGrowth(t0, strs0, o.props);
             && (ok <==> Fits(DataSize(h), g.steps, h.totalsize))
             && im.NodeOf(target) == AfterProps(t0, o.props, FitCount(DataSize(h), g.steps, h.totalsize))
             && (ok ==> GrownTo(h, im, g) && im.NodeOf(target) == MergeProps(t0, o.props))
    ensures if ok then Applying(h, t0, strs0, o, im, target, o.children)
            else Applied(h, t0, strs0, o, im, target, false)
  {
    hide PropsGrowth, Fits, FitCount, AfterProps, MergeProps, Applied, KidsState, NodeStop, Image.NodeOf, StringsOf,
      Sum;
    KidsStateStart(DataSize(h), h.totalsize, t0, strs0, o);
    if !ok {
      AppliedStop(h, t0, strs0, o, im, target);
    }
  }

  lemma AppliedNoChild(h: Header, t0: Node, strs0: seq<byte>, o: Node, im: Image, target: nat, kid: Node, ks: seq<Node>)
    requires OrderedIn(im.hdr, |im.mem|) && IsNodeOffset(im.shape, target)
    requires Applying(h, t0, strs0, o, im, target, [kid] + ks)
    requires DataSize(im.hdr) + ChildStep(im.NodeOf(target), kid.name) > im.hdr.totalsize
    ensures Applied(h, t0, strs0, o, im, target, false)
  {
    hide Applied, KidsState, NodeStop, Image.NodeOf, StringsOf, ChildStep, NodeGrowth, ChildFor, Fits, FitCount, Sum,
      MergeChild, AfterChild;
    KidsStateNext(DataSize(h), h.totalsize, t0, strs0, o, DataSize(im.hdr), StringsOf(im.hdr, im.mem),
                  im.NodeOf(target), kid, ks);
    AppliedStop(h, t0, strs0, o, im, target);
  }

  // The child is there, and the overlay's child has been merged into it as far as it fits.
  lemma AppliedChild(a: Image, t0: Node, strs0: seq<byte>, o: Node, b: Image, c: Image, d: Image, target: nat, nn: nat,
                     m: nat, kid: Node, ks: seq<Node>, ok: bool)
    requires OrderedIn(b.hdr, |b.mem|) && IsNodeOffset(b.shape, target) && OrderedIn(c.hdr, |c.mem|)
    requires Applying(a.hdr, t0, strs0, o, b, target, [kid] + ks)
    requires Progress(a, c, target) && ChildOf(c, target, nn, m)
    requires c.NodeOf(target) == WithChild(b.NodeOf(target), kid.name)
    requires m == FirstChild(c.NodeOf(target).children, Some(kid.name))
    requires StringsOf(c.hdr, c.mem) == StringsOf(b.hdr, b.mem)
    requires GrownByStep(b.hdr, c.hdr, ChildStep(b.NodeOf(target), kid.name)) && DataSize(c.hdr) <= b.hdr.totalsize
    requires Progress(c, d, nn) && OrderedIn(d.hdr, |d.mem|) && IsNodeOffset(d.shape, nn)
    requires IsNodeOffset(c.shape, nn) && Applied(c.hdr, c.NodeOf(nn), StringsOf(c.hdr, c.mem), kid, d, nn, ok)
    ensures Progress(a, d, target) && d.Valid() && IsNodeOffset(d.shape, target)
    ensures if ok then Applying(a.hdr, t0, strs0, o, d, target, ks) else Applied(a.hdr, t0, strs0, o, d, target, false)
  {
    hide KidsState, NodeStop, Image.NodeOf, StringsOf, ChildStep, NodeGrowth, ChildFor, Fits, FitCount, Sum, MergeChild,
      AfterChild, AfterNode, MergeNode, MergeRoom, Progress, ChildOf, WithChild, FirstChild, Image.Valid, IsNodeOffset,
      DataSize, GrownBy, TooSmall;
    var t, strs := b.NodeOf(target), StringsOf(b.hdr, b.mem);
    var g := NodeGrowth(c.NodeOf(nn), strs, kid);
    DoneTree(a, b, c, d, target, nn, m, kid, FitCount(DataSize(c.hdr), g.steps, c.hdr.totalsize));
    KidsStateNext(DataSize(a.hdr), a.hdr.totalsize, t0, strs0, o, DataSize(b.hdr), strs, t, kid, ks);
    if !ok {
      AppliedStop(a.hdr, t0, strs0, o, d, target);
    }
  }

  lemma AppliedAll(h: Header, t0: Node, strs0: seq<byte>, o: Node, im: Image, target: nat)
    requires OrderedIn(im.hdr, |im.mem|) && IsNodeOffset(im.shape, target)
    requires Applying(h, t0, strs0, o, im, target, [])
    ensures Applied(h, t0, strs0, o, im, target, true)
  {
    hide KidsState, Image.NodeOf, StringsOf, NodeGrowth, Fits, FitCount, Sum, AfterNode, MergeNode, MergeRoom;
    KidsStateEnd(DataSize(h), h.totalsize, t0, strs0, o, DataSize(im.hdr), StringsOf(im.hdr, im.mem),
                 im.NodeOf(target));
    MergeEnough(t0, strs0, o, DataSize(h), h.totalsize);
  }

  // The next child, after k of the edits in it.
  lemma DoneTree(a: Image, b: Image, c: Image, d: Image, target: nat, nn: nat, m: nat, kid: Node, k: nat)
    requires OrderedIn(b.hdr, |b.mem|) && IsNodeOffset(b.shape, target)
    requires Progress(a, c, target) && ChildOf(c, target, nn, m)
    requires c.NodeOf(target) == WithChild(b.NodeOf(target), kid.name)
    requires m == FirstChild(c.NodeOf(target).children, Some(kid.name))
    requires Progress(c, d, nn) && d.NodeOf(nn) == AfterNode(c.NodeOf(nn), kid, k)
    ensures Progress(a, d, target) && d.Valid() && IsNodeOffset(d.shape, target)
    ensures d.NodeOf(target) == AfterChild(b.NodeOf(target), kid, k)
    ensures d.NodeOf(nn) == MergeNode(c.NodeOf(nn), kid) ==> d.NodeOf(target) == MergeChild(b.NodeOf(target), kid)
    ensures c.NodeOf(nn) == ChildFor(b.NodeOf(target), kid.name)
  {
    hide Describes, StructOf, StringsOf, HeadOf, RsvCount, NodeEdited, KeepsOffsets, Image.NodeOf, ChildFor, MergeNode,
      MergeChild, FirstChild, PathAt, ChildOf, WithChild, AfterNode;
    ChildForNode(c, target, nn, m, b.NodeOf(target), kid.name);
    ChildProgress(a, c, d, target, nn, m, d.NodeOf(nn));
    if d.NodeOf(nn) == MergeNode(c.NodeOf(nn), kid) {
      MergedChild(b.NodeOf(target), kid, c.NodeOf(target), m, d.NodeOf(nn));
    }
  }

  lemma KidsOfNode(im: Image, n: nat)
    requires im.Valid() && IsNodeOffset(im.shape, n)
    ensures im.NodeOf(n).children == Kids(NodeAt(im.shape, IndexAt(im.shape, n)).body, StringsOf(im.hdr, im.mem))
  {
    hide Describes, NodeAt, Props, Kids, StringsOf;
  }

  lemma ChildIsNode(im: Image, target: nat, nn: nat, m: nat)
    requires ChildOf(im, target, nn, m)
    ensures IsNodeOffset(im.shape, nn)
  {
  }

  lemma ChildForNode(im: Image, target: nat, nn: nat, m: nat, t: Node, name: seq<byte>)
    requires im.Valid() && ChildOf(im, target, nn, m) && im.NodeOf(target) == WithChild(t, name)
    requires m == FirstChild(im.NodeOf(target).children, Some(name))
    ensures IsNodeOffset(im.shape, nn) && im.NodeOf(nn) == ChildFor(t, name)
  {
    hide Describes, NodeAt, FirstChild, WithChild, StructOf, StringsOf, HeadOf, RsvCount, PathAt, Image.NodeOf;
    ChildNode(im, target, nn, m);
  }
}
