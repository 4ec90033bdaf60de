// References inside an overlay: the fixups on trees, and
// overlay_update_local_node_references (fdt_overlay.c) on blobs.
module References {
  import opened Bytes
  import opened Tokens
  import opened Structure
  import opened Scan
  import opened Memory
  import opened Blobs
  import opened Readers
  import opened Edits
  import opened Editor
  import opened Children
  import opened Walk
  import opened Siblings
  import opened Overlay
  import opened Forms
  import opened Phandles

  // On trees ----------------------------------------------------------------------------------------------

  // The value with delta added to the cell at an offset, modulo 2^32.
  function CellAdded(v: seq<byte>, off: nat, delta: u32): (r: seq<byte>)
    requires off + 4 <= |v|
    ensures |r| == |v|
  {
    Stored(v, off, Put32(Add32(Get32(v, off), delta)))
  }

  // One property of the fixups: the offsets of cells in the property of the same name.
  function FixCells(t: Node, name: seq<byte>, cells: seq<byte>, delta: u32): Result<Node>
    decreases |cells|
  {
    if |cells| < 4 then Success(t)
    else
      match PropValue(t, name)
      case None => Failure(BadOverlay)
      case Some(v) =>
        if Get32(cells, 0) + 4 > |v| then Failure(BadOverlay)
        else FixCells(PutProp(t, name, CellAdded(v, Get32(cells, 0), delta)), name, cells[4..], delta)
  }

  function FixProp(t: Node, p: Property, delta: u32): Result<Node> {
    if |p.value| % 4 != 0 then Failure(BadOverlay)
    else if PropValue(t, p.name).None? then Failure(BadOverlay)
    else FixCells(t, p.name, p.value, delta)
  }

  function FixProps(t: Node, ps: seq<Property>, delta: u32): Result<Node>
    decreases |ps|
  {
    if ps == [] then Success(t)
    else
      var t1 :- FixProp(t, ps[0], delta);
      FixProps(t1, ps[1..], delta)
  }

  // The fixups of a node, and those of its children on the children of the same names.
  function FixNode(t: Node, f: Node, delta: u32): Result<Node>
    decreases f, 0
  {
    var t1 :- FixProps(t, f.props, delta);
    FixKids(t1, f.children, delta)
  }

  function FixKids(t: Node, fs: seq<Node>, delta: u32): Result<Node>
    decreases fs, 0
  {
    if fs == [] then Success(t)
    else
      var j := FirstChild(t.children, Some(fs[0].name));
      if j == |t.children| then Failure(BadOverlay)
      else
        var y :- FixNode(t.children[j], fs[0], delta);
        FixKids(t.(children := t.children[j := y]), fs[1..], delta)
  }

  lemma ValuePut(t: Node, name: seq<byte>, w: seq<byte>)
    ensures PropValue(PutProp(t, name, w), name) == Some(w)
  {
    var m := FirstProp(t.props, name);
    FirstPropIs(PutProp(t, name, w).props, name, if m < |t.props| then m else 0);
  }

  // On blobs --------------------------------------------------------------------------------------------------

  // Offsets that a C unsigned sum with 4 does not wrap.
  predicate OffsetsFit(cells: seq<byte>)
    decreases |cells|
  {
    |cells| < 4 || (Get32(cells, 0) < 0xffff_fffc && OffsetsFit(cells[4..]))
  }

  predicate FixupsFit(f: Node) {
    && (forall k :: 0 <= k < |f.props| ==> OffsetsFit(f.props[k].value))
    && forall k :: 0 <= k < |f.children| ==> FixupsFit(f.children[k])
  }

  // Between two moments only values in the subtree of the node at n have changed.
  ghost predicate Within(a: Image, b: Image, n: nat) {
    && Progress(a, b, n) && a.hdr == b.hdr && OrderedIn(a.hdr, |a.mem|) && OrderedIn(b.hdr, |b.mem|)
    && StringsOf(b.hdr, b.mem) == StringsOf(a.hdr, a.mem)
    && BelowEdit(a.shape, b.shape, n)
  }

  // Between two moments only values of the node at n itself have changed.
  ghost predicate AtNode(a: Image, b: Image, n: nat) {
    && a.hdr == b.hdr && OrderedIn(a.hdr, |a.mem|) && OrderedIn(b.hdr, |b.mem|)
    && StringsOf(b.hdr, b.mem) == StringsOf(a.hdr, a.mem)
    && OwnEdit(a.shape, b.shape, n)
  }

  lemma WithinNone(a: Image, n: nat)
    requires a.Valid() && IsNodeOffset(a.shape, n)
    ensures Within(a, a, n)
  {
    hide Describes, StructOf, StringsOf, HeadOf, RsvCount, Progress, BelowEdit;
    ProgressNone(a, n);
    BelowNone(a.shape, n);
  }

  lemma WithinStep(a: Image, b: Image, c: Image, n: nat, x: Node)
    requires Within(a, b, n) && AtNode(b, c, n) && NodeEdited(b, c, n, [x]) && KeepsOffsets(b.shape, c.shape, n)
    ensures Within(a, c, n) && c.Valid() && IsNodeOffset(c.shape, n) && c.NodeOf(n) == x
  {
    hide StructOf, StringsOf, HeadOf, Progress, BelowEdit, OwnEdit, NodeEdited, KeepsOffsets, Describes, RsvCount,
      Image.NodeOf;
    ProgressStep(a, b, c, n, x);
    ProgressValid(a, c, n);
    OwnIsBelow(b.shape, c.shape, n);
    BelowTwice(a.shape, b.shape, c.shape, n);
  }

  // A node that is not around the edited one is the same tree as before, at the same place.
  lemma FarSame(a: Image, b: Image, n: nat, x: nat)
    requires a.hdr == b.hdr && OrderedIn(a.hdr, |a.mem|) && OrderedIn(b.hdr, |b.mem|)
    requires StringsOf(b.hdr, b.mem) == StringsOf(a.hdr, a.mem)
    requires IsNodeOffset(a.shape, x) && SameForm(a.shape, b.shape) && SameNode(a.shape, b.shape, IndexAt(a.shape, x))
    ensures IsNodeOffset(b.shape, x) && IndexAt(b.shape, x) == IndexAt(a.shape, x) && b.PathOf(x) == a.PathOf(x)
    ensures b.NodeOf(x) == a.NodeOf(x)
  {
    hide PathAt, NodeAt, IsNode, SameForm, StringsOf, Kids, Props;
    FormOffsets(a.shape, b.shape, x);
  }

  // The cell at an offset of a property, read before it is known to lie inside the value
  method ReadCellAt(fdt: Blob, n: nat, name: seq<byte>, off: nat) returns (r: Option<u32>)
    requires fdt.Valid() && IsNodeOffset(fdt.shape, n) && PropValue(fdt.Img().NodeOf(n), name).Some?
    ensures var v := PropValue(fdt.Img().NodeOf(n), name).value;
            r == if off + 4 <= |v| then Some(Get32(v, off)) else None
  {
    hide Describes, Off, Stream, PropertyAt, OldValue, StructOf, StringsOf, HeadOf, RsvCount, NodeCheck, NodeAt,
      PropValue, Get32, Token.Enc, Token.Ok, At;
    ghost var k, t;
    var p, len;
    p, len, k, t := FindProperty(fdt, n, name);
    OldValueIs(fdt.Img(), n, name);
    if off + 4 > len {
      return None;
    }
    ValueCellAt(fdt, n, name, k, p.value, t, off);
    return Some(Get32(fdt.StructBlock(), p.value + 12 + off));
  }

  lemma ValueCellAt(fdt: Blob, n: nat, name: seq<byte>, k: nat, p: nat, t: Token, off: nat)
    requires fdt.Valid() && PropertyAt(fdt.Img(), n, name, k, p, t) && t.Prop? && off + 4 <= |t.value|
    ensures p + 12 + off + 4 <= |fdt.StructBlock()| && Get32(fdt.StructBlock(), p + 12 + off) == Get32(t.value, off)
  {
    hide Describes, Off, Stream, StructOf, StringsOf, HeadOf, RsvCount, NodeCheck, NodeAt, Token.Enc, Token.Ok, At,
      Get32;
    PropertyFacts(fdt.Img(), n, name, k, p, t);
    PropCells(fdt.StructBlock(), p, t);
    WindowCell(fdt.StructBlock(), p + 12, t.value, off);
  }

  lemma WindowCell(s: seq<byte>, i: nat, v: seq<byte>, off: nat)
    requires i + |v| <= |s| && s[i..i + |v|] == v && off + 4 <= |v|
    ensures Get32(s, i + off) == Get32(v, off)
  {
    assert forall k :: 0 <= k < |v| ==> s[i + k] == v[k];
  }

  // One cell: read, add, write back in place
  method AddToCell(fdt: Blob, n: nat, name: seq<byte>, off: u32, delta: u32, ghost a: Image) returns (r: Result<()>)
    requires fdt.Valid() && IsNodeOffset(fdt.shape, n) && Within(a, fdt.Img(), n) && off < 0xffff_fffc
    requires PropValue(fdt.Img().NodeOf(n), name).Some?
    modifies fdt`shape, fdt.buf
    ensures var v := PropValue(old(fdt.Img().NodeOf(n)), name).value;
            && (r.Failure? <==> off + 4 > |v|)
            && (r.Failure? ==> r == Failure(BadOverlay) && fdt.Img() == old(fdt.Img()))
            && (r.Success? ==>
                  && fdt.Valid() && IsNodeOffset(fdt.shape, n) && Within(a, fdt.Img(), n)
                  && AtNode(old(fdt.Img()), fdt.Img(), n)
                  && fdt.Img().NodeOf(n) == PutProp(old(fdt.Img().NodeOf(n)), name, CellAdded(v, off, delta)))
  {
    hide Describes, StructOf, StringsOf, HeadOf, RsvCount, Within, NodeEdited, KeepsOffsets, PutProp, PropValue, Get32,
      Put32, OwnEdit, Image.NodeOf;
    ghost var b := fdt.Img();
    var cell := ReadCellAt(fdt, n, name, off);
    var adj := Add32(if cell.Some? then cell.value else 0, delta);
    var e := SetPropInplacePartial(fdt, n, name, off, Put32(adj));
    if e == Failure(NoSpace) {
      return Failure(BadOverlay);
    }
    ghost var v := PropValue(b.NodeOf(n), name).value;
    WithinStep(a, b, fdt.Img(), n, PutProp(b.NodeOf(n), name, CellAdded(v, off, delta)));
    return Success(());
  }

  lemma AtNodeTwice(a: Image, b: Image, c: Image, n: nat)
    requires AtNode(a, b, n) && AtNode(b, c, n)
    ensures AtNode(a, c, n)
  {
    hide StringsOf, PathAt, NodeAt, IsNode, SameForm, IsNodeOffset;
    FormTwice(a.shape, b.shape, c.shape);
    FormOffsets(a.shape, b.shape, n);
    forall x | IsNode(a.shape, x) && !Prefix(PathAt(a.shape, x), PathAt(a.shape, IndexAt(a.shape, n)))
      ensures SameNode(a.shape, c.shape, x) {
      FormNode(a.shape, b.shape, x);
      assert SameNode(a.shape, b.shape, x) && SameNode(b.shape, c.shape, x);
    }
  }

  lemma AtNodeNone(a: Image, n: nat)
    requires OrderedIn(a.hdr, |a.mem|) && IsNodeOffset(a.shape, n)
    ensures AtNode(a, a, n)
  {
    hide StringsOf, PathAt, NodeAt, IsNode;
    FormSelf(a.shape);
  }

  // The cells that one property of the fixups lists
  method AddToCells(fdt: Blob, n: nat, name: seq<byte>, cells: seq<byte>, delta: u32, ghost a: Image)
    returns (r: Result<()>)
    requires fdt.Valid() && IsNodeOffset(fdt.shape, n) && Within(a, fdt.Img(), n) && OffsetsFit(cells)
    requires PropValue(fdt.Img().NodeOf(n), name).Some?
    modifies fdt`shape, fdt.buf
    ensures fdt.Valid()
    ensures match FixCells(old(fdt.Img().NodeOf(n)), name, cells, delta)
            case Failure(e) => r == Failure(e)
            case Success(y) =>
              && r == Success(()) && IsNodeOffset(fdt.shape, n) && Within(a, fdt.Img(), n)
              && AtNode(old(fdt.Img()), fdt.Img(), n)
              && fdt.Img().NodeOf(n) == y
  {
    hide Describes, StructOf, StringsOf, HeadOf, RsvCount, Within, AtNode, PutProp, PropValue, Get32, Image.NodeOf,
      CellAdded;
    ghost var b := fdt.Img();
    ghost var want := FixCells(b.NodeOf(n), name, cells, delta);
    AtNodeNone(b, n);
    var i := 0;
    assert cells[0..] == cells;
    while i < |cells| / 4
      invariant 0 <= i <= |cells| / 4
      invariant fdt.Valid() && IsNodeOffset(fdt.shape, n) && Within(a, fdt.Img(), n) && AtNode(b, fdt.Img(), n)
      invariant PropValue(fdt.Img().NodeOf(n), name).Some? && OffsetsFit(cells[4 * i..])
      invariant FixCells(fdt.Img().NodeOf(n), name, cells[4 * i..], delta) == want
    {
      ghost var c := fdt.Img();
      CellOf(cells, i);
      ghost var v := PropValue(c.NodeOf(n), name).value;
      var poffset := Get32(cells, 4 * i);
      r := AddToCell(fdt, n, name, poffset, delta, a);
      if r.Failure? {
        return;
      }
      ValuePut(c.NodeOf(n), name, CellAdded(v, poffset, delta));
      AtNodeTwice(b, c, fdt.Img(), n);
      i := i + 1;
    }
    return Success(());
  }

  lemma CellOf(cells: seq<byte>, i: nat)
    requires i < |cells| / 4
    ensures Get32(cells[4 * i..], 0) == Get32(cells, 4 * i) && cells[4 * i..][4..] == cells[4 * (i + 1)..]
  {
  }

  // The walk over the properties of the fixup node goes on where it was, as that node has not changed.
  lemma WalkStays(a: Items, b: Items, i: nat, pre: Items, it: Items, r: Result<nat>)
    requires AtProperty(a, i, pre, it, r) && SameForm(a, b) && SameNode(a, b, i)
    ensures AtProperty(b, i, pre, it, r)
  {
    hide Token.Enc, Toks, NodeAt, Append, Nops, FromProp, Off, Stream, NextPropAt, At, CloseOf, SameForm;
    WalkRemains(a, b, i, pre, it, r);
    RemainingRun(b, i, pre, it);
    NextPropRun(Stream(b), Place(i, pre), it);
    StreamForm(a, b);
    SameOffsets(a, b, i, pre, it, r);
  }

  lemma WalkRemains(a: Items, b: Items, i: nat, pre: Items, it: Items, r: Result<nat>)
    requires AtProperty(a, i, pre, it, r) && SameNode(a, b, i)
    ensures Remaining(b, i, pre, it)
    ensures FromProp(it).Leaf? ==>
              var j := Place(i, pre) + |Toks(Nops(it))|;
              j < |Stream(a)| && r == Success(Off(Stream(a), j))
    ensures !FromProp(it).Leaf? ==> r == Failure(NotFound)
  {
    hide Toks, NodeAt, Append, Nops, FromProp, Off, Stream;
  }

  lemma StreamForm(a: Items, b: Items)
    requires SameForm(a, b)
    ensures AllAlike(Stream(a), Stream(b))
  {
    hide Token.Enc, Toks, Alike;
    FormToks(a, b);
    EndAlike();
    AlikeConcat(Toks(a), Toks(b), [End], [End]);
  }

  lemma SameOffsets(a: Items, b: Items, i: nat, pre: Items, it: Items, r: Result<nat>)
    requires AllAlike(Stream(a), Stream(b))
    requires FromProp(it).Leaf? ==>
               var j := Place(i, pre) + |Toks(Nops(it))|;
               j < |Stream(a)| && r == Success(Off(Stream(a), j))
    ensures FromProp(it).Leaf? ==>
              var j := Place(i, pre) + |Toks(Nops(it))|;
              j < |Stream(b)| && r == Success(Off(Stream(b), j))
  {
    hide Token.Enc, Toks, Nops, FromProp, Off, Stream, Alike;
    if FromProp(it).Leaf? {
      AlikeOff(Stream(a), Stream(b), Place(i, pre) + |Toks(Nops(it))|);
    }
  }

  // The fixup node lies neither around the tree node nor on the way of its fixups.
  ghost predicate Separate(im: Image, tree: nat, f: nat)
    requires im.Valid() && IsNodeOffset(im.shape, tree) && IsNodeOffset(im.shape, f)
  {
    || Incomparable(im.PathOf(tree), im.PathOf(f))
    || exists k: nat ::
         && im.PathOf(f) == im.PathOf(tree) + [k]
         && forall m :: 0 <= m < |im.NodeOf(f).children| ==>
              FirstChild(im.NodeOf(tree).children, Some(im.NodeOf(f).children[m].name)) != k
  }

  lemma NotAround(im: Image, tree: nat, f: nat)
    requires im.Valid() && IsNodeOffset(im.shape, tree) && IsNodeOffset(im.shape, f) && Separate(im, tree, f)
    ensures !Prefix(im.PathOf(f), im.PathOf(tree))
  {
    hide Describes, PathAt, NodeAt, Kids, Props, FirstChild;
  }

  // After values of the tree node have changed, the fixup node is the same.
  lemma FixupSame(a: Image, b: Image, tree: nat, f: nat)
    requires a.Valid() && IsNodeOffset(a.shape, tree) && IsNodeOffset(a.shape, f)
    requires AtNode(a, b, tree) && !Prefix(a.PathOf(f), a.PathOf(tree))
    ensures IsNodeOffset(b.shape, f) && IndexAt(b.shape, f) == IndexAt(a.shape, f) && b.PathOf(f) == a.PathOf(f)
    ensures b.NodeOf(f) == a.NodeOf(f) && SameForm(a.shape, b.shape) && SameNode(a.shape, b.shape, IndexAt(a.shape, f))
    ensures IsNodeOffset(b.shape, tree) && b.PathOf(tree) == a.PathOf(tree)
  {
    hide Describes, StringsOf, PathAt, NodeAt, Kids, Props, SameForm, SameNode;
    assert SameNode(a.shape, b.shape, IndexAt(a.shape, f));
    FarSame(a, b, tree, f);
    FormOffsets(a.shape, b.shape, tree);
  }

  // The property loop: the fixups of one node
  method FixProperties(fdt: Blob, tree: nat, f: nat, delta: u32, ghost a: Image) returns (r: Result<()>)
    requires fdt.Valid() && IsNodeOffset(fdt.shape, tree) && IsNodeOffset(fdt.shape, f) && Within(a, fdt.Img(), tree)
    requires !Prefix(fdt.Img().PathOf(f), fdt.Img().PathOf(tree)) && FixupsFit(fdt.Img().NodeOf(f))
    modifies fdt`shape, fdt.buf
    ensures fdt.Valid()
    ensures match FixProps(old(fdt.Img().NodeOf(tree)), old(fdt.Img().NodeOf(f)).props, delta)
            case Failure(e) => r == Failure(e)
            case Success(y) =>
              && r == Success(()) && IsNodeOffset(fdt.shape, tree) && Within(a, fdt.Img(), tree)
              && AtNode(old(fdt.Img()), fdt.Img(), tree) && fdt.Img().NodeOf(tree) == y
  {
    hide Describes, Off, Stream, NodeAt, Kids, Props, StructOf, StringsOf, HeadOf, RsvCount, CStr, Within, AtNode,
      PathAt, PutProp, FromProp, Nops, Append, Toks, Walkable, NodeCheck, AtProperty, NameOf, Image.NodeOf, FixCells,
      PropValue, OffsetsFit, SameForm, SameNode, Prefix, IsNodeOffset;
    ghost var b := fdt.Img();
    ghost var i := IndexAt(fdt.shape, f);
    ghost var strs := fdt.StringsBlock();
    ghost var pre, it := Done, NodeAt(fdt.shape, i).body;
    ghost var want := FixProps(b.NodeOf(tree), b.NodeOf(f).props, delta);
    ghost var done := 0;
    AtNodeNone(b, tree);
    WalkableNode(b, i);
    PropsOfNode(b, f);
    var p := FirstPropertyOffset(fdt, f);
    FirstPropertyOf(fdt.shape, i, p);
    assert b.NodeOf(f).props[0..] == b.NodeOf(f).props;
    while p.Success?
      invariant fdt.Valid() && IsNodeOffset(fdt.shape, tree) && Within(a, fdt.Img(), tree) && AtNode(b, fdt.Img(), tree)
      invariant fdt.StringsBlock() == strs
      invariant AtProperty(fdt.shape, i, pre, it, p) && Walkable(it, strs)
      invariant done <= |b.NodeOf(f).props| && Props(it, strs) == b.NodeOf(f).props[done..]
      invariant FixProps(fdt.Img().NodeOf(tree), Props(it, strs), delta) == want
      decreases |Toks(it)|
    {
      PropertyThere(fdt.shape, strs, i, pre, it, p);
      PropertyLeft(it, strs);
      ghost var t, more := FromProp(it).tok, FromProp(it).rest;
      ghost var c := fdt.Img();
      ResolvedName(strs, t.nameOff);
      PropIndexUnique(fdt.shape, Place(i, pre) + |Toks(Nops(it))|);
      var name, cells := GetPropByOffset(fdt, p.value);
      PropsStep(b.NodeOf(f), done, Property(name.value, cells), Props(more, strs));
      FixPropsStep(c.NodeOf(tree), Property(name.value, cells), Props(more, strs), delta);
      if |cells| % 4 != 0 {
        return Failure(BadOverlay);
      }
      var there := HasProperty(fdt, tree, name.value);
      if !there {
        return Failure(BadOverlay);
      }
      r := AddToCells(fdt, tree, name.value, cells, delta, a);
      if r.Failure? {
        return;
      }
      AtNodeTwice(b, c, fdt.Img(), tree);
      SameStrings(c, fdt.Img(), tree);
      FixupSame(b, fdt.Img(), tree, f);
      StepOver(b, c, fdt.Img(), tree, f);
      WalkStays(c.shape, fdt.shape, i, pre, it, p);
      PropertyThere(fdt.shape, strs, i, pre, it, p);
      var next := NextPropertyOffset(fdt, p.value);
      NextPropertyOf(fdt.shape, i, pre, it, p, next);
      p, pre, it := next, Append(pre, Append(Nops(it), Leaf(t, Done))), more;
      done := done + 1;
    }
    NoPropertyThere(fdt.shape, i, pre, it, p);
    PropertyLeft(it, strs);
    return Success(());
  }

  lemma PropsStep(f: Node, done: nat, p: Property, more: seq<Property>)
    requires FixupsFit(f) && done <= |f.props| && f.props[done..] == [p] + more
    ensures done < |f.props| && f.props[done + 1..] == more && OffsetsFit(p.value)
  {
    hide OffsetsFit;
    assert f.props[done..][0] == p && f.props[done..][1..] == more;
    assert f.props[done] == p;
  }

  lemma FixPropsStep(t: Node, p: Property, ps: seq<Property>, delta: u32)
    ensures FixProp(t, p, delta).Failure? ==> FixProps(t, [p] + ps, delta) == Failure(FixProp(t, p, delta).error)
    ensures FixProp(t, p, delta).Success? ==>
              FixProps(t, [p] + ps, delta) == FixProps(FixProp(t, p, delta).value, ps, delta)
  {
    hide FixProp;
    assert ([p] + ps)[1..] == ps;
  }

  lemma SameStrings(a: Image, b: Image, n: nat)
    requires AtNode(a, b, n)
    ensures OrderedIn(a.hdr, |a.mem|) && OrderedIn(b.hdr, |b.mem|) && StringsOf(b.hdr, b.mem) == StringsOf(a.hdr, a.mem)
  {
  }

  // The last of the edits alone leaves the fixup node as it is, too.
  lemma StepOver(b: Image, c: Image, d: Image, tree: nat, f: nat)
    requires b.Valid() && c.Valid() && IsNodeOffset(b.shape, tree) && IsNodeOffset(b.shape, f)
    requires !Prefix(b.PathOf(f), b.PathOf(tree))
    requires AtNode(b, c, tree) && AtNode(c, d, tree)
    ensures SameForm(c.shape, d.shape) && SameNode(c.shape, d.shape, IndexAt(b.shape, f))
  {
    hide Describes, StringsOf, PathAt, NodeAt, Kids, Props, SameForm, SameNode, AtNode, Prefix;
    FixupSame(b, c, tree, f);
    FixupSame(c, d, tree, f);
  }

  // fdt_getprop, for whether there is such a property
  method HasProperty(fdt: Blob, n: nat, name: seq<byte>) returns (b: bool)
    requires fdt.Valid() && IsNodeOffset(fdt.shape, n)
    ensures b == PropValue(fdt.Img().NodeOf(n), name).Some?
  {
    hide Describes, Off, Stream, PropertyAt, OldValue, StructOf, StringsOf, HeadOf, RsvCount, NodeCheck, NodeAt,
      PropValue;
    ghost var k, t;
    var p, len;
    p, len, k, t := FindProperty(fdt, n, name);
    OldValueIs(fdt.Img(), n, name);
    return p.Success?;
  }

  lemma {:induction false} CellsKeepNames(t: Node, name: seq<byte>, cells: seq<byte>, delta: u32)
    requires FixCells(t, name, cells, delta).Success?
    ensures var y := FixCells(t, name, cells, delta).value; y.name == t.name && y.children == t.children
    decreases |cells|
  {
    hide Get32, CellAdded, PropValue;
    if |cells| >= 4 {
      var off := Get32(cells, 0) as nat;
      CellsKeepNames(PutProp(t, name, CellAdded(PropValue(t, name).value, off, delta)), name, cells[4..], delta);
    }
  }

  lemma {:induction false} PropsKeepNames(t: Node, ps: seq<Property>, delta: u32)
    requires FixProps(t, ps, delta).Success?
    ensures var y := FixProps(t, ps, delta).value; y.name == t.name && y.children == t.children
    decreases |ps|
  {
    hide FixCells, PropValue;
    if ps != [] {
      CellsKeepNames(t, ps[0].name, ps[0].value, delta);
      PropsKeepNames(FixProp(t, ps[0], delta).value, ps[1..], delta);
    }
  }

  lemma {:induction false} NodeKeepsName(t: Node, f: Node, delta: u32)
    requires FixNode(t, f, delta).Success?
    ensures FixNode(t, f, delta).value.name == t.name
    decreases f, 0
  {
    hide FixProps;
    PropsKeepNames(t, f.props, delta);
    KidsKeepName(FixProps(t, f.props, delta).value, f.children, delta);
  }

  lemma {:induction false} KidsKeepName(t: Node, fs: seq<Node>, delta: u32)
    requires FixKids(t, fs, delta).Success?
    ensures FixKids(t, fs, delta).value.name == t.name
    decreases fs, 0
  {
    hide FixNode;
    if fs != [] {
      var j := FirstChild(t.children, Some(fs[0].name));
      KidsKeepName(t.(children := t.children[j := FixNode(t.children[j], fs[0], delta).value]), fs[1..], delta);
    }
  }

  // On the way through the children of the fixup node -----------------------------------------------------

  // The fixup node is still the node it was, and still separate from the tree node.
  ghost predicate Apart(im: Image, tree: nat, f: nat, pt: seq<nat>, pf: seq<nat>, fn: Node, names: seq<Node>) {
    && im.Valid() && IsNodeOffset(im.shape, tree) && IsNodeOffset(im.shape, f)
    && im.PathOf(tree) == pt && im.PathOf(f) == pf && im.NodeOf(f) == fn
    && SameNames(names, im.NodeOf(tree).children)
  }

  // A property of the paths and the names alone.
  ghost predicate Disjoint(pt: seq<nat>, pf: seq<nat>, fn: Node, names: seq<Node>) {
    || Incomparable(pt, pf)
    || exists k: nat :: pf == pt + [k] && forall m :: 0 <= m < |fn.children| ==>
       FirstChild(names, Some(fn.children[m].name)) != k
  }

  lemma SeparateDisjoint(im: Image, tree: nat, f: nat)
    requires im.Valid() && IsNodeOffset(im.shape, tree) && IsNodeOffset(im.shape, f) && Separate(im, tree, f)
    ensures Disjoint(im.PathOf(tree), im.PathOf(f), im.NodeOf(f), im.NodeOf(tree).children)
    ensures Apart(im, tree, f, im.PathOf(tree), im.PathOf(f), im.NodeOf(f), im.NodeOf(tree).children)
  {
    hide Describes, PathAt, NodeAt, Kids, Props, FirstChild;
  }

  // The child of the tree node and the child of the fixup node are in separate places, and so are the
  // former and the fixup node.
  lemma ChildrenApart(pt: seq<nat>, pf: seq<nat>, fn: Node, names: seq<Node>, j: nat, m: nat)
    requires Disjoint(pt, pf, fn, names) && m < |fn.children| && j == FirstChild(names, Some(fn.children[m].name))
    ensures Incomparable(pt + [j], pf + [m]) && Incomparable(pf, pt + [j])
  {
    hide FirstChild;
    if Incomparable(pt, pf) {
      ApartFurther(pt, pf, m);
      ApartFurther(pf + [m], pt, j);
      ApartFurther(pf, pt, j);
    } else {
      var k :| pf == pt + [k] && forall m :: 0 <= m < |fn.children| ==>
        FirstChild(names, Some(fn.children[m].name)) != k;
      assert (pt + [k])[|pt|] == k && (pt + [j])[|pt|] == j;
      assert (pf + [m])[|pt|] == k;
      assert (pf + [m])[..|pt + [j]|] == pf;
    }
  }

  // Everything is in place for the recursive call.
  lemma Descend(c: Image, tree: nat, f: nat, pt: seq<nat>, pf: seq<nat>, fn: Node, names: seq<Node>, m: nat, fc: nat,
                tc: nat, j: nat)
    requires Apart(c, tree, f, pt, pf, fn, names) && Disjoint(pt, pf, fn, names) && FixupsFit(fn)
    requires m < |fn.children| && ChildOf(c, f, fc, m)
    requires j == FirstChild(c.NodeOf(tree).children, Some(fn.children[m].name)) < |c.NodeOf(tree).children|
    requires ChildOf(c, tree, tc, j)
    ensures IsNodeOffset(c.shape, tc) && IsNodeOffset(c.shape, fc)
    ensures Separate(c, tc, fc) && FixupsFit(c.NodeOf(fc)) && c.NodeOf(fc) == fn.children[m]
    ensures c.NodeOf(tc) == c.NodeOf(tree).children[j]
    ensures Incomparable(pf, c.PathOf(tc))
  {
    hide Describes, PathAt, NodeAt, Kids, Props, FirstChild, StructOf, StringsOf, HeadOf, RsvCount, OffsetsFit,
      Image.NodeOf;
    SameFirst(names, c.NodeOf(tree).children, Some(fn.children[m].name));
    ChildrenApart(pt, pf, fn, names, j, m);
    ChildNode(c, f, fc, m);
    ChildNode(c, tree, tc, j);
  }

  // After the recursive call the walk stands where it stood.
  lemma Ascend(a: Image, c: Image, d: Image, tree: nat, f: nat, pt: seq<nat>, pf: seq<nat>, fn: Node, names: seq<Node>,
               m: nat, fc: nat, tc: nat, j: nat, y: Node)
    requires Within(a, c, tree) && Apart(c, tree, f, pt, pf, fn, names) && ChildOf(c, f, fc, m)
    requires ChildOf(c, tree, tc, j)
    requires Within(c, d, tc) && d.Valid() && IsNodeOffset(d.shape, tc) && d.NodeOf(tc) == y
    requires j < |c.NodeOf(tree).children| && y.name == c.NodeOf(tree).children[j].name
    requires Incomparable(pf, c.PathOf(tc))
    ensures Within(a, d, tree) && Apart(d, tree, f, pt, pf, fn, names) && ChildOf(d, f, fc, m)
    ensures IsNodeOffset(d.shape, tree) && IsNodeOffset(d.shape, fc) && IsNodeOffset(d.shape, f)
    ensures var u := c.NodeOf(tree); d.NodeOf(tree) == u.(children := u.children[j := y])
  {
    hide Describes, PathAt, NodeAt, Kids, Props, StructOf, StringsOf, HeadOf, RsvCount, Progress, SameForm, SameNode,
      IsNodeOffset, Image.NodeOf, BelowEdit;
    ChildProgress(a, c, d, tree, tc, j, y);
    BelowChild(c.shape, d.shape, tree, tc, j);
    BelowTwice(a.shape, c.shape, d.shape, tree);
    FormOfBelow(c.shape, d.shape, tc);
    BelowSame(c.shape, d.shape, tc, f);
    FarSame(c, d, tc, f);
    FormOffsets(c.shape, d.shape, tree);
    FormOffsets(c.shape, d.shape, fc);
  }

  lemma FormOfBelow(a: Items, b: Items, n: nat)
    requires BelowEdit(a, b, n)
    ensures SameForm(a, b)
  {
  }

  lemma BelowSame(a: Items, b: Items, n: nat, x: nat)
    requires BelowEdit(a, b, n) && IsNodeOffset(a, x)
    requires Incomparable(PathAt(a, IndexAt(a, x)), PathAt(a, IndexAt(a, n)))
    ensures SameNode(a, b, IndexAt(a, x))
  {
    hide PathAt, SameNode, SameForm;
  }

  // overlay_update_local_node_references: success leaves the tree node with exactly the fixups applied and
  // changes nothing outside its subtree; an error is the first one in the order of the walk.
  method UpdateLocalNodeReferences(fdt: Blob, tree: nat, f: nat, delta: u32) returns (r: Result<()>)
    requires fdt.Valid() && IsNodeOffset(fdt.shape, tree) && IsNodeOffset(fdt.shape, f)
    requires Separate(fdt.Img(), tree, f) && FixupsFit(fdt.Img().NodeOf(f))
    modifies fdt`shape, fdt.buf
    ensures fdt.Valid()
    ensures match FixNode(old(fdt.Img().NodeOf(tree)), old(fdt.Img().NodeOf(f)), delta)
            case Failure(e) => r == Failure(e)
            case Success(y) =>
              && r == Success(()) && IsNodeOffset(fdt.shape, tree) && Within(old(fdt.Img()), fdt.Img(), tree)
              && fdt.Img().NodeOf(tree) == y
    decreases fdt.Img().NodeOf(f)
  {
    hide Describes, Off, Stream, NodeAt, Kids, Props, StructOf, StringsOf, HeadOf, RsvCount, Within, AtNode, PathAt,
      NodeCheck, Image.NodeOf, FixProps, FixKids, FixupsFit, Separate, Apart, Disjoint, IsChild, ChildOf, ChildIs,
      ChildStepIs, IsNodeOffset, FirstChild, FixNode;
    ghost var a := fdt.Img();
    ghost var fn := a.NodeOf(f);
    ghost var pt, pf := a.PathOf(tree), a.PathOf(f);
    ghost var names := a.NodeOf(tree).children;
    ghost var want := FixNode(a.NodeOf(tree), fn, delta);
    FixParts(a.NodeOf(tree), fn, delta);
    WithinNone(a, tree);
    SeparateDisjoint(a, tree, f);
    NotAround(a, tree, f);
    r := FixProperties(fdt, tree, f, delta, a);
    if r.Failure? {
      return;
    }
    OwnApart(a, fdt.Img(), tree, f, delta);
    ghost var m := 0;
    assert fn.children[0..] == fn.children;
    var child := FirstSubnode(fdt, f);
    FirstChildIs(fdt.Img(), f, child);
    while child.Success?
      invariant fdt.Valid() && IsNodeOffset(fdt.shape, tree) && IsNodeOffset(fdt.shape, f) && Within(a, fdt.Img(), tree)
      invariant Apart(fdt.Img(), tree, f, pt, pf, fn, names) && m <= |fn.children|
      invariant IsChild(fdt.Img(), f, m, child)
      invariant FixKids(fdt.Img().NodeOf(tree), fn.children[m..], delta) == want
      decreases |fn.children| - m
    {
      ghost var c := fdt.Img();
      ChildStands(c, tree, f, pt, pf, fn, names, m, child);
      NameOfChild(c, f, m, child.value);
      ghost var fc := fn.children[m];
      KidsStep(c.NodeOf(tree), fn.children, m, delta);
      var name := GetName(fdt, child.value);
      var treeChild := SubnodeOffset(fdt, tree, name.value);
      TreeChild(c, tree, name.value, treeChild);
      if treeChild.Failure? {
        return Failure(BadOverlay);
      }
      ghost var j := FirstChild(c.NodeOf(tree).children, Some(fc.name));
      Descend(c, tree, f, pt, pf, fn, names, m, child.value, treeChild.value, j);
      r := UpdateLocalNodeReferences(fdt, treeChild.value, child.value, delta);
      if r.Failure? {
        return;
      }
      ghost var y := fdt.Img().NodeOf(treeChild.value);
      NodeKeepsName(c.NodeOf(treeChild.value), fc, delta);
      Ascend(a, c, fdt.Img(), tree, f, pt, pf, fn, names, m, child.value, treeChild.value, j, y);
      ghost var nn := child.value;
      child := NextSubnode(fdt, child.value);
      NextChildIs(fdt.Img(), f, m, nn, child);
      m := m + 1;
    }
    LastChild(fdt.Img(), tree, f, pt, pf, fn, names, m, child);
    KidsEnd(fdt.Img().NodeOf(tree), fn.children, delta);
    return Success(());
  }

  lemma FixParts(t: Node, f: Node, delta: u32)
    ensures FixProps(t, f.props, delta).Failure? ==> FixNode(t, f, delta) == Failure(FixProps(t, f.props, delta).error)
    ensures FixProps(t, f.props, delta).Success? ==>
              FixNode(t, f, delta) == FixKids(FixProps(t, f.props, delta).value, f.children, delta)
  {
    hide FixProps, FixKids;
  }

  lemma OwnApart(a: Image, b: Image, tree: nat, f: nat, delta: u32)
    requires a.Valid() && b.Valid() && IsNodeOffset(a.shape, tree) && IsNodeOffset(a.shape, f) && Separate(a, tree, f)
    requires AtNode(a, b, tree) && IsNodeOffset(b.shape, tree)
    requires FixProps(a.NodeOf(tree), a.NodeOf(f).props, delta) == Success(b.NodeOf(tree))
    ensures Apart(b, tree, f, a.PathOf(tree), a.PathOf(f), a.NodeOf(f), a.NodeOf(tree).children)
    ensures IsNodeOffset(b.shape, f)
  {
    hide Describes, PathAt, NodeAt, Kids, Props, FirstChild, Image.NodeOf, FixProps, AtNode, StringsOf, Prefix;
    NotAround(a, tree, f);
    FixupSame(a, b, tree, f);
    PropsKeepNames(a.NodeOf(tree), a.NodeOf(f).props, delta);
  }

  lemma ChildStands(c: Image, tree: nat, f: nat, pt: seq<nat>, pf: seq<nat>, fn: Node, names: seq<Node>, m: nat,
                    child: Result<nat>)
    requires c.Valid() && IsNodeOffset(c.shape, f) && Apart(c, tree, f, pt, pf, fn, names) && IsChild(c, f, m, child)
    requires child.Success?
    ensures m < |fn.children| && ChildOf(c, f, child.value, m) && IsNodeOffset(c.shape, child.value)
    ensures c.NodeOf(f) == fn && IsNodeOffset(c.shape, tree)
  {
    hide Describes, PathAt, NodeAt, Image.NodeOf;
  }

  lemma NameOfChild(c: Image, f: nat, m: nat, fc: nat)
    requires c.Valid() && ChildOf(c, f, fc, m)
    ensures IsNodeOffset(c.shape, fc) && IsNodeOffset(c.shape, f) && m < |c.NodeOf(f).children|
    ensures NodeAt(c.shape, IndexAt(c.shape, fc)).name == c.NodeOf(f).children[m].name
  {
    hide Describes, PathAt, Kids, Props;
    ChildNode(c, f, fc, m);
  }

  lemma KidsStep(t: Node, fs: seq<Node>, m: nat, delta: u32)
    requires m < |fs|
    ensures var j := FirstChild(t.children, Some(fs[m].name));
            && (j == |t.children| ==> FixKids(t, fs[m..], delta) == Failure(BadOverlay))
            && (j < |t.children| && FixNode(t.children[j], fs[m], delta).Failure? ==>
                  FixKids(t, fs[m..], delta) == Failure(FixNode(t.children[j], fs[m], delta).error))
            && (j < |t.children| && FixNode(t.children[j], fs[m], delta).Success? ==>
                  FixKids(t, fs[m..], delta)
                  == FixKids(t.(children := t.children[j := FixNode(t.children[j], fs[m], delta).value]), fs[m + 1..],
                             delta))
  {
    hide FixNode, FirstChild;
    assert fs[m..][0] == fs[m] && fs[m..][1..] == fs[m + 1..];
  }

  lemma KidsEnd(t: Node, fs: seq<Node>, delta: u32)
    ensures FixKids(t, fs[|fs|..], delta) == Success(t)
  {
  }

  lemma TreeChild(im: Image, tree: nat, name: seq<byte>, r: Result<nat>)
    requires im.Valid() && IsNodeOffset(im.shape, tree) && ChildIs(im.shape, tree, Some(name), r)
    ensures var kids := im.NodeOf(tree).children;
            var j := FirstChild(kids, Some(name));
            && (r.Failure? <==> j == |kids|)
            && (r.Success? ==> ChildOf(im, tree, r.value, j) && IsNodeOffset(im.shape, r.value))
  {
    hide Describes, PathAt, Kids, Props, FirstChild, NodeAt, StringsOf, StructOf, HeadOf, FindChild, Stream, Off;
    FindChildMeaning(NodeAt(im.shape, IndexAt(im.shape, tree)).body, StringsOf(im.hdr, im.mem), Some(name));
    if FirstChild(im.NodeOf(tree).children, Some(name)) < |im.NodeOf(tree).children| {
      ChildFound(im, tree, name, r);
    }
  }

  lemma LastChild(c: Image, tree: nat, f: nat, pt: seq<nat>, pf: seq<nat>, fn: Node, names: seq<Node>, m: nat,
                  child: Result<nat>)
    requires c.Valid() && IsNodeOffset(c.shape, f) && Apart(c, tree, f, pt, pf, fn, names) && IsChild(c, f, m, child)
    requires child.Failure?
    requires m <= |fn.children|
    ensures m == |fn.children|
  {
    hide Describes, PathAt, NodeAt, Image.NodeOf;
  }
}
