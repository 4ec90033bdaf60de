// The subnode walk (fdt.c) visits exactly the children of a node, in order.
module Siblings {
  import opened Bytes
  import opened Tokens
  import opened Structure
  import opened Scan
  import opened Blobs
  import opened Readers
  import opened Edits
  import opened Children
  import opened Walk
  import opened Paths

  function SubCount(it: Items): nat {
    match it
    case Done => 0
    case Leaf(_, rest) => SubCount(rest)
    case Sub(_, _, _, rest) => 1 + SubCount(rest)
  }

  lemma {:induction false} SubCountKids(it: Items, strs: seq<byte>)
    ensures SubCount(it) == |Kids(it, strs)|
  {
    match it
    case Done =>
    case Leaf(_, rest) => SubCountKids(rest, strs);
    case Sub(_, _, _, rest) => SubCountKids(rest, strs);
  }

  lemma {:induction false} SubCountAppend(a: Items, b: Items)
    ensures SubCount(Append(a, b)) == SubCount(a) + SubCount(b)
  {
    match a
    case Done =>
    case Leaf(_, rest) => SubCountAppend(rest, b);
    case Sub(_, _, _, rest) => SubCountAppend(rest, b);
  }

  lemma {:induction false} SubCountFrom(it: Items)
    ensures SubCount(it) > 0 <==> FromSub(it).Sub?
    ensures SubCount(it) == SubCount(FromSub(it)) && SubCount(Leaves(it)) == 0
  {
    match it
    case Leaf(_, rest) => SubCountFrom(rest);
    case _ =>
  }

  // The items up to the m-th node, and from there on.
  lemma {:induction false} NthSplit(it: Items, m: nat) returns (pre: Items, post: Items)
    requires m < SubCount(it)
    ensures it == Append(pre, post) && SubCount(pre) == m && FromSub(post).Sub?
  {
    if m == 0 {
      pre, post := Done, it;
      SubCountFrom(it);
    } else {
      match it
      case Leaf(tok, rest) =>
        var p;
        p, post := NthSplit(rest, m);
        pre := Leaf(tok, p);
      case Sub(name, npad, body, rest) =>
        var p;
        p, post := NthSplit(rest, m - 1);
        pre := Sub(name, npad, body, p);
    }
  }

  lemma {:induction false} PathBehind(pre: Items, s: Items)
    requires s.Sub?
    ensures IsNode(Append(pre, s), |Toks(pre)|) && PathAt(Append(pre, s), |Toks(pre)|) == [SubCount(pre)]
  {
    match pre
    case Done =>
    case Leaf(tok, rest) =>
      PathBehind(rest, s);
      InsideLeaf(tok, Append(rest, s), |Toks(rest)|);
    case Sub(name, npad, body, rest) =>
      PathBehind(rest, s);
      BesideSub(Sub(name, npad, body, Append(rest, s)), |Toks(rest)|);
      assert [SubCount(rest)][1..] == [];
  }

  // Where the child the walk stands on is in the tree.
  lemma ChildPosition(shape: Items, i: nat, pre: Items, it: Items)
    requires Remaining(shape, i, pre, it) && FromSub(it).Sub?
    ensures var j := Place(i, pre) + LeafCount(it);
            IsNode(shape, j) && PathAt(shape, j) == PathAt(shape, i) + [SubCount(pre)]
  {
    hide Toks, NodeAt, Append, FromSub, LeafCount, Leaves, PathAt, IsNode, SubCount;
    var lv, s := Leaves(it), FromSub(it);
    SplitLeaves(it);
    AppendAssoc(pre, lv, s);
    ToksAppend(pre, lv);
    SubCountAppend(pre, lv);
    SubCountFrom(it);
    PathBehind(Append(pre, lv), s);
    InsideNode(shape, i, |Toks(Append(pre, lv))|);
  }

  // Child m of the node, or the report that there is none.
  ghost predicate IsChild(im: Image, target: nat, m: nat, r: Result<nat>)
    requires im.Valid() && IsNodeOffset(im.shape, target)
  {
    if m < |im.NodeOf(target).children| then r.Success? && ChildOf(im, target, r.value, m) else r == Failure(NotFound)
  }

  lemma ChildWalked(im: Image, target: nat, pre: Items, it: Items, r: Result<nat>)
    requires im.Valid() && IsNodeOffset(im.shape, target) && AtChild(im.shape, IndexAt(im.shape, target), pre, it, r)
    ensures IsChild(im, target, SubCount(pre), r)
  {
    hide Describes, Stream, Off, Toks, NodeAt, Kids, Props, PathAt, StructOf, StringsOf, HeadOf, RsvCount, IsNode,
      FromSub, LeafCount, SubCount, Append, AtChild;
    var i := IndexAt(im.shape, target);
    var strs := StringsOf(im.hdr, im.mem);
    AtChildRemains(im.shape, i, pre, it, r);
    SubCountKids(NodeAt(im.shape, i).body, strs);
    SubCountAppend(pre, it);
    SubCountFrom(it);
    if FromSub(it).Sub? {
      var j := Place(i, pre) + LeafCount(it);
      ChildFacts(im.shape, i, pre, it, r);
      ChildPosition(im.shape, i, pre, it);
      NameInStream(im.shape, i);
      NameInStream(im.shape, j);
      OffMonotone(Stream(im.shape), i, j);
    }
  }

  lemma AtChildRemains(shape: Items, i: nat, pre: Items, it: Items, r: Result<nat>)
    requires AtChild(shape, i, pre, it, r)
    ensures Remaining(shape, i, pre, it) && (r.Success? <==> FromSub(it).Sub?)
    ensures (r.Failure? ==> r == Failure(NotFound))
    ensures Place(i, pre) >= i + 1
  {
  }

  lemma FirstChildIs(im: Image, target: nat, r: Result<nat>)
    requires im.Valid() && IsNodeOffset(im.shape, target)
    requires ChildStepIs(Stream(im.shape), IndexAt(im.shape, target) + 1, 0, r)
    ensures IsChild(im, target, 0, r)
  {
    hide Describes, Stream, NodeAt, AtChild, ChildStepIs, Kids, Toks;
    var i := IndexAt(im.shape, target);
    FirstChildOf(im.shape, i, r);
    ChildWalked(im, target, Done, NodeAt(im.shape, i).body, r);
  }

  lemma NextChildIs(im: Image, target: nat, m: nat, nn: nat, next: Result<nat>)
    requires im.Valid() && ChildOf(im, target, nn, m)
    requires ChildStepIs(Stream(im.shape), IndexAt(im.shape, nn) + 1, 1, next)
    ensures IsChild(im, target, m + 1, next)
  {
    hide Describes, Stream, Off, Toks, NodeAt, Kids, Props, PathAt, StructOf, StringsOf, HeadOf, RsvCount, IsNode,
      FromSub, LeafCount, SubCount, Append, AtChild, ChildStepIs, Leaves;
    var i := IndexAt(im.shape, target);
    var body := NodeAt(im.shape, i).body;
    ChildNode(im, target, nn, m);
    SubCountKids(body, StringsOf(im.hdr, im.mem));
    var pre, it := NthSplit(body, m);
    var j := Place(i, pre) + LeafCount(it);
    ChildPosition(im.shape, i, pre, it);
    PathInjective(im.shape, j, IndexAt(im.shape, nn));
    StandsAt(im.shape, i, pre, it, nn);
    var s := FromSub(it);
    NextChildOf(im.shape, i, pre, it, Success(nn), next);
    CountOn(pre, it);
    ChildWalked(im, target, Append(pre, Append(Leaves(it), Sub(s.name, s.npad, s.body, Done))), s.rest, next);
  }

  lemma StandsAt(shape: Items, i: nat, pre: Items, it: Items, nn: nat)
    requires Remaining(shape, i, pre, it) && FromSub(it).Sub? && IsNodeOffset(shape, nn)
    requires IndexAt(shape, nn) == Place(i, pre) + LeafCount(it)
    ensures AtChild(shape, i, pre, it, Success(nn))
  {
    hide Toks, NodeAt, Append, FromSub, LeafCount;
    NameInStream(shape, IndexAt(shape, nn));
  }

  lemma CountOn(pre: Items, it: Items)
    requires FromSub(it).Sub?
    ensures var s := FromSub(it);
            SubCount(Append(pre, Append(Leaves(it), Sub(s.name, s.npad, s.body, Done)))) == SubCount(pre) + 1
  {
    hide Append, FromSub, Leaves;
    var s := FromSub(it);
    var one := Sub(s.name, s.npad, s.body, Done);
    SubCountFrom(it);
    SubCountAppend(pre, Append(Leaves(it), one));
    SubCountAppend(Leaves(it), one);
  }
}
