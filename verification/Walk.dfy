// Walking over the properties and the subnodes of a node: the loops behind
// fdt_for_each_property_offset and fdt_for_each_subnode (libfdt.h). A walk stands in front
// of the items that are still to come.
module Walk {
  import opened Bytes
  import opened Tokens
  import opened Structure
  import opened Scan
  import opened Memory
  import opened Blobs
  import opened Readers
  import opened Edits
  import opened Children

  // Contents of the node at i that are still to be walked: everything from token k on.
  ghost predicate Remaining(shape: Items, i: nat, pre: Items, it: Items) {
    && IsNode(shape, i)
    && NodeAt(shape, i).body == Append(pre, it)
  }

  ghost function Place(i: nat, pre: Items): nat {
    i + 1 + |Toks(pre)|
  }

  lemma RemainingRun(shape: Items, i: nat, pre: Items, it: Items)
    requires Remaining(shape, i, pre, it)
    ensures var k := Place(i, pre);
            && At(Stream(shape), k, Toks(it))
            && k + |Toks(it)| < |Stream(shape)|
            && Stream(shape)[k + |Toks(it)|].EndNode?
            && CloseOf(Stream(shape), k, 0).Some?
  {
    hide Stream, Toks, NodeAt, At, Append, CloseOf;
    var body := NodeAt(shape, i).body;
    var ts := Stream(shape);
    NodeRun(shape, i);
    CloseOfNode(ts, i, NodeAt(shape, i));
    ToksAppend(pre, it);
    AtConcat(ts, i + 1, Toks(pre), Toks(it));
    CloseOfRun(ts, i + 1, pre, 0);
  }

  // Siblings without the leading leaves.
  function FromSub(it: Items): Items {
    match it
    case Leaf(_, rest) => FromSub(rest)
    case _ => it
  }

  lemma {:induction false} FindAnyChild(it: Items, strs: seq<byte>)
    ensures FindChild(it, None) == if FromSub(it).Sub? then Some(LeafCount(it)) else None
    ensures FromSub(it).Sub? || FromSub(it).Done?
    ensures Kids(it, strs) == Kids(FromSub(it), strs)
    ensures LeafCount(it) + |Toks(FromSub(it))| == |Toks(it)|
  {
    match it
    case Done =>
    case Leaf(_, rest) => FindAnyChild(rest, strs);
    case Sub(_, _, _, _) =>
  }

  // Leading leaves move to the part already walked, and then the first node does.
  function Leaves(it: Items): Items {
    match it
    case Leaf(tok, rest) => Leaf(tok, Leaves(rest))
    case _ => Done
  }

  lemma {:induction false} SplitLeaves(it: Items)
    ensures Append(Leaves(it), FromSub(it)) == it
    ensures |Toks(Leaves(it))| == LeafCount(it)
  {
    match it
    case Leaf(_, rest) => SplitLeaves(rest);
    case _ =>
  }

  lemma {:induction false} AppendAssoc(a: Items, b: Items, c: Items)
    ensures Append(Append(a, b), c) == Append(a, Append(b, c))
  {
    match a
    case Done =>
    case Leaf(_, rest) => AppendAssoc(rest, b, c);
    case Sub(_, _, _, rest) => AppendAssoc(rest, b, c);
  }

  lemma {:induction false} NodeBehind(pre: Items, s: Items)
    requires s.Sub?
    ensures var j := |Toks(pre)|;
            && IsNode(Append(pre, s), j)
            && NodeAt(Append(pre, s), j) == Sub(s.name, s.npad, s.body, Done)
  {
    match pre
    case Done =>
    case Leaf(tok, rest) =>
      NodeBehind(rest, s);
      InsideLeaf(tok, Append(rest, s), |Toks(rest)|);
    case Sub(name, npad, body, rest) =>
      NodeBehind(rest, s);
      BesideSub(Sub(name, npad, body, Append(rest, s)), |Toks(rest)|);
  }

  // Subnodes -------------------------------------------------------------------------------

  // What the searches for the first and the next subnode report.
  ghost predicate ChildStepIs(ts: seq<Token>, k: nat, depth: nat, r: Result<nat>) {
    match ChildAt(ts, k, depth, None)
    case None => r == Failure(NotFound)
    case Some(j) => r == Success(Off(ts, j))
  }

  lemma {:induction false} FirstStepDepth(ts: seq<Token>, k: nat, depth: nat)
    ensures var r := NextStep(ts, k, depth);
            depth == 0 ==> (r.AtNode? ==> r.depth == 1)
    decreases |ts| - k
  {
    if k < |ts| && (ts[k].Prop? || ts[k].Nop?) {
      FirstStepDepth(ts, k + 1, depth);
    }
  }

  // fdt_first_subnode
  method FirstSubnode(fdt: Blob, offset: nat) returns (r: Result<nat>)
    requires fdt.Valid() && fdt.NodeArg(offset)
    ensures IsNodeOffset(fdt.shape, offset) ==>
              ChildStepIs(Stream(fdt.shape), IndexAt(fdt.shape, offset) + 1, 0, r)
    ensures !IsNodeOffset(fdt.shape, offset) ==> r == Failure(NotFound)
  {
    hide Describes, Stream, Off, NodeCheck, NextStep, ChildAt, Toks, StructOf, StringsOf, HeadOf, RsvCount;
    if IsNodeOffset(fdt.shape, offset) {
      ChildAtStep(Stream(fdt.shape), IndexAt(fdt.shape, offset) + 1, 0, None);
      FirstStepDepth(Stream(fdt.shape), IndexAt(fdt.shape, offset) + 1, 0);
    }
    var depth;
    r, depth := NextNode(fdt, offset, 0);
    if r.Failure? || depth != 1 {
      return Failure(NotFound);
    }
  }

  // fdt_next_subnode
  method NextSubnode(fdt: Blob, offset: nat) returns (r: Result<nat>)
    requires fdt.Valid() && fdt.NodeArg(offset)
    ensures IsNodeOffset(fdt.shape, offset) ==> ChildStepIs(Stream(fdt.shape), IndexAt(fdt.shape, offset) + 1, 1, r)
    ensures !IsNodeOffset(fdt.shape, offset) ==> r == Failure(NotFound)
  {
    hide Describes, Stream, Off, NodeCheck, NextStep, ChildAt, Toks, StructOf, StringsOf, HeadOf, RsvCount;
    ghost var ts := Stream(fdt.shape);
    ghost var good := IsNodeOffset(fdt.shape, offset);
    ghost var j := if good then IndexAt(fdt.shape, offset) else 0;
    ghost var m := j;
    if good {
      NameInStream(fdt.shape, j);
    }
    var depth := 1;
    var more := true;
    r := Success(offset);
    while more
      invariant depth >= 1 && r.Success? && fdt.NodeArg(r.value)
      invariant good ==> IsNodeOffset(fdt.shape, r.value) && m == IndexAt(fdt.shape, r.value) && m < |ts|
      invariant !good ==> more && r.value == offset
      invariant good && more ==> ChildAt(ts, j + 1, 1, None) == ChildAt(ts, m + 1, depth, None)
      invariant good && !more ==> ChildAt(ts, j + 1, 1, None) == Some(m)
      decreases more, |ts| - m
    {
      if good {
        ChildAtStep(ts, m + 1, depth, None);
      }
      ghost var step := NextStep(ts, m + 1, depth);
      r, depth := NextNode(fdt, r.value, depth);
      if r.Failure? || depth < 1 {
        return Failure(NotFound);
      }
      m := step.index;
      BeginIsNode(fdt.shape, m);
      more := depth > 1;
    }
    IndexOff(fdt.shape, r.value);
  }

  lemma IndexOff(shape: Items, n: nat)
    requires IsNodeOffset(shape, n)
    ensures IndexAt(shape, n) < |Stream(shape)| && Off(Stream(shape), IndexAt(shape, n)) == n
  {
  }

  // The walk over the subnodes of node i: `it` is still to come.
  ghost predicate AtChild(shape: Items, i: nat, pre: Items, it: Items, r: Result<nat>) {
    && Remaining(shape, i, pre, it)
    && if FromSub(it).Sub? then
         var j := Place(i, pre) + LeafCount(it);
         j < |Stream(shape)| && r == Success(Off(Stream(shape), j))
       else r == Failure(NotFound)
  }

  lemma FirstChildOf(shape: Items, i: nat, r: Result<nat>)
    requires IsNode(shape, i) && ChildStepIs(Stream(shape), i + 1, 0, r)
    ensures AtChild(shape, i, Done, NodeAt(shape, i).body, r)
  {
    var body := NodeAt(shape, i).body;
    assert Toks(Done) == [] && Append(Done, body) == body;
    ChildHere(shape, i, Done, body, r);
  }

  lemma ChildHere(shape: Items, i: nat, pre: Items, it: Items, r: Result<nat>)
    requires Remaining(shape, i, pre, it) && ChildStepIs(Stream(shape), Place(i, pre), 0, r)
    ensures AtChild(shape, i, pre, it, r)
  {
    hide Stream, Toks, NodeAt, At, Append, CloseOf, ChildAt, FindChild, FromSub, LeafCount, Off, Remaining;
    RemainingRun(shape, i, pre, it);
    ChildAtRun(Stream(shape), Place(i, pre), it, None);
    FindAnyChild(it, []);
    if FromSub(it).Sub? {
      SubLength(FromSub(it));
    }
  }

  lemma SubLength(it: Items)
    requires it.Sub?
    ensures |Toks(it)| == |Toks(it.body)| + 2 + |Toks(it.rest)|
  {
  }

  // Token j begins the node s inside node i, at offset n.
  ghost predicate ChildAtIndex(shape: Items, i: nat, j: nat, s: Items, n: nat) {
    && s.Sub? && IsNode(shape, i) && IsNode(shape, j) && IsNodeOffset(shape, n) && IndexAt(shape, n) == j
    && NodeAt(shape, j) == Sub(s.name, s.npad, s.body, Done)
    && |Toks(NodeAt(shape, j))| < |Toks(NodeAt(shape, i))|
  }

  // The child the walk stands on.
  lemma ChildFacts(shape: Items, i: nat, pre: Items, it: Items, r: Result<nat>)
    requires AtChild(shape, i, pre, it, r) && r.Success?
    ensures FromSub(it).Sub?
    ensures ChildAtIndex(shape, i, Place(i, pre) + LeafCount(it), FromSub(it), r.value)
  {
    hide Stream, Toks, NodeAt, At, Append, FromSub, LeafCount, Off, Leaves, IsNode, PathAt;
    var body := NodeAt(shape, i).body;
    var s := FromSub(it);
    var lv := Leaves(it);
    SplitLeaves(it);
    AppendAssoc(pre, lv, s);
    ToksAppend(pre, lv);
    ToksAppend(pre, it);
    NodeBehind(Append(pre, lv), s);
    InsideNode(shape, i, |Toks(Append(pre, lv))|);
    IndexUnique(shape, Place(i, pre) + LeafCount(it));
    FindAnyChild(it, []);
    SubLength(s);
    SubLength(NodeAt(shape, i));
    SubLength(Sub(s.name, s.npad, s.body, Done));
    assert |Toks(Done)| == 0 by { NoToks(); }
  }

  lemma NextChildOf(shape: Items, i: nat, pre: Items, it: Items, r: Result<nat>, next: Result<nat>)
    requires AtChild(shape, i, pre, it, r) && r.Success?
    requires IsNodeOffset(shape, r.value) && ChildStepIs(Stream(shape), IndexAt(shape, r.value) + 1, 1, next)
    ensures FromSub(it).Sub?
    ensures var s := FromSub(it);
            AtChild(shape, i, Append(pre, Append(Leaves(it), Sub(s.name, s.npad, s.body, Done))), s.rest, next)
  {
    hide Stream, Toks, NodeAt, At, Append, FromSub, LeafCount, Off, Leaves, IsNode, PathAt, ChildAt, CloseOf, AtChild;
    var s := AtChildSub(shape, i, pre, it, r);
    var ts := Stream(shape);
    var one := Sub(s.name, s.npad, s.body, Done);
    var done := Append(pre, Append(Leaves(it), one));
    ChildFacts(shape, i, pre, it, r);
    AppendRegroup(pre, Leaves(it), s);
    SplitLeaves(it);
    var j := Place(i, pre) + LeafCount(it);
    NodeRun(shape, j);
    ChildAtDeep(ts, j + 1, s.body, 1, None);
    PassEnd(ts, j + 1 + |Toks(s.body)|);
    ChildHere(shape, i, done, s.rest, next);
  }

  lemma AtChildSub(shape: Items, i: nat, pre: Items, it: Items, r: Result<nat>) returns (s: Items)
    requires AtChild(shape, i, pre, it, r) && r.Success?
    ensures s.Sub? && s == FromSub(it) && Remaining(shape, i, pre, it)
  {
    s := FromSub(it);
  }

  lemma PassEnd(ts: seq<Token>, k: nat)
    requires k < |ts| && ts[k].EndNode?
    ensures ChildAt(ts, k, 1, None) == ChildAt(ts, k + 1, 0, None)
  {
  }

  lemma AppendRegroup(pre: Items, lv: Items, s: Items)
    requires s.Sub?
    ensures var one := Sub(s.name, s.npad, s.body, Done);
            && Append(Append(pre, Append(lv, one)), s.rest) == Append(pre, Append(lv, s))
            && |Toks(Append(pre, Append(lv, one)))| == |Toks(pre)| + |Toks(lv)| + |Toks(s.body)| + 2
  {
    var one := Sub(s.name, s.npad, s.body, Done);
    AppendAssoc(pre, Append(lv, one), s.rest);
    AppendAssoc(lv, one, s.rest);
    assert Append(one, s.rest) == s by { assert Append(Done, s.rest) == s.rest; }
    ToksAppend(pre, Append(lv, one));
    ToksAppend(lv, one);
    assert |Toks(Done)| == 0;
  }

  // Properties -----------------------------------------------------------------------------

  // Siblings without the leading NOPs, and the NOPs.
  function FromProp(it: Items): Items {
    match it
    case Leaf(tok, rest) => if tok.Nop? then FromProp(rest) else it
    case _ => it
  }

  function Nops(it: Items): Items {
    match it
    case Leaf(tok, rest) => if tok.Nop? then Leaf(tok, Nops(rest)) else Done
    case _ => Done
  }

  lemma {:induction false} SplitNops(it: Items, strs: seq<byte>)
    ensures Append(Nops(it), FromProp(it)) == it
    ensures Props(it, strs) == Props(FromProp(it), strs)
    ensures FromProp(it).Leaf? ==> FromProp(it).tok.Prop?
    ensures PropsFirst(it) ==> PropsFirst(FromProp(it))
    ensures Resolved(it, strs) ==> Resolved(FromProp(it), strs)
  {
    hide CStr;
    match it
    case Leaf(tok, rest) => if tok.Nop? { SplitNops(rest, strs); }
    case _ =>
  }

  lemma {:induction false} NextPropRun(ts: seq<Token>, k: nat, it: Items)
    requires At(ts, k, Toks(it)) && k + |Toks(it)| < |ts| && ts[k + |Toks(it)|].EndNode?
    ensures NextPropAt(ts, k)
         == if FromProp(it).Leaf? then Success(k + |Toks(Nops(it))|) else Failure(NotFound)
    ensures FromProp(it).Leaf? ==> k + |Toks(Nops(it))| < |ts| && ts[k + |Toks(Nops(it))|] == FromProp(it).tok
    decreases it
  {
    hide At;
    match it
    case Done =>
    case Leaf(tok, rest) =>
      LeafRun(ts, k, it);
      if tok.Nop? {
        NextPropRun(ts, k + 1, rest);
      } else {
        assert |Toks(Done)| == 0;
      }
    case Sub(_, _, _, _) =>
      SubRun(ts, k, it);
  }

  // The walk over the properties of node i: `it` is still to come.
  ghost predicate AtProperty(shape: Items, i: nat, pre: Items, it: Items, r: Result<nat>) {
    && Remaining(shape, i, pre, it)
    && if FromProp(it).Leaf? then
         var j := Place(i, pre) + |Toks(Nops(it))|;
         j < |Stream(shape)| && Stream(shape)[j] == FromProp(it).tok && r == Success(Off(Stream(shape), j))
       else r == Failure(NotFound)
  }

  lemma PropertyHere(shape: Items, i: nat, pre: Items, it: Items, r: Result<nat>)
    requires Remaining(shape, i, pre, it) && PropStepIs(Stream(shape), Place(i, pre), r)
    ensures AtProperty(shape, i, pre, it, r)
  {
    hide Stream, Toks, NodeAt, At, Append, CloseOf, FromProp, Nops, Off, Remaining, NextPropAt;
    RemainingRun(shape, i, pre, it);
    NextPropRun(Stream(shape), Place(i, pre), it);
  }

  lemma FirstPropertyOf(shape: Items, i: nat, r: Result<nat>)
    requires IsNode(shape, i) && PropStepIs(Stream(shape), i + 1, r)
    ensures AtProperty(shape, i, Done, NodeAt(shape, i).body, r)
  {
    var body := NodeAt(shape, i).body;
    assert Toks(Done) == [] && Append(Done, body) == body;
    PropertyHere(shape, i, Done, body, r);
  }

  // Behind the property the walk stands on.
  lemma NextPropertyOf(shape: Items, i: nat, pre: Items, it: Items, r: Result<nat>, next: Result<nat>)
    requires AtProperty(shape, i, pre, it, r) && r.Success?
    requires FromProp(it).Leaf? && PropStepIs(Stream(shape), Place(i, pre) + |Toks(Nops(it))| + 1, next)
    ensures AtProperty(shape, i, Append(pre, Append(Nops(it), Leaf(FromProp(it).tok, Done))), FromProp(it).rest, next)
  {
    hide Stream, NodeAt, At, FromProp, Nops, Off, NextPropAt, AtProperty, Toks, Append;
    AtPropertyRemains(shape, i, pre, it, r);
    var p := FromProp(it);
    SplitNops(it, []);
    AppendLeafRegroup(pre, Nops(it), p.tok, p.rest);
    PropertyHere(shape, i, Append(pre, Append(Nops(it), Leaf(p.tok, Done))), p.rest, next);
  }

  lemma AtPropertyRemains(shape: Items, i: nat, pre: Items, it: Items, r: Result<nat>)
    requires AtProperty(shape, i, pre, it, r)
    ensures Remaining(shape, i, pre, it)
  {
  }

  lemma AppendLeafRegroup(pre: Items, nops: Items, tok: LeafToken, rest: Items)
    ensures Append(Append(pre, Append(nops, Leaf(tok, Done))), rest) == Append(pre, Append(nops, Leaf(tok, rest)))
    ensures |Toks(Append(pre, Append(nops, Leaf(tok, Done))))| == |Toks(pre)| + |Toks(nops)| + 1
  {
    var one := Leaf(tok, Done);
    AppendAssoc(pre, Append(nops, one), rest);
    AppendAssoc(nops, one, rest);
    assert Append(one, rest) == Leaf(tok, rest) by { assert Append(Done, rest) == rest; }
    ToksAppend(pre, Append(nops, one));
    ToksAppend(nops, one);
    assert Toks(one) == [tok] by { assert Toks(Done) == []; }
  }

  // fdt_getprop_by_offset
  method GetPropByOffset(fdt: Blob, offset: nat) returns (name: Result<seq<byte>>, value: seq<byte>)
    requires fdt.Valid() && fdt.PropArg(offset)
    ensures !IsPropOffset(fdt.shape, offset) ==> name == Failure(BadOffset)
    ensures IsPropOffset(fdt.shape, offset) ==>
              var t := Stream(fdt.shape)[PropIndexAt(fdt.shape, offset)];
              && name == Success(NameOf(fdt.StringsBlock(), t.nameOff)) && value == t.value
              && |value| < fdt.hdr.totalsize && |name.value| < fdt.hdr.totalsize
  {
    hide Describes, Stream, NextTag, Off, At, Token.Enc, Token.Ok, Get32, CStr, StringLookup, RsvCount, Toks, PropCheck;
    var c := CheckPropOffset(fdt, offset);
    if c.Failure? {
      return Failure(c.error), [];
    }
    ghost var j := PropIndexAt(fdt.shape, offset);
    PropInStream(fdt.shape, j);
    PropNameThere(fdt, j);
    var len := PropLen(fdt, offset, j);
    value := fdt.StructBlock()[offset + 12..offset + 12 + len];
    var nameoff := PropNameOff(fdt, offset, j);
    StringInside(fdt.StringsBlock(), nameoff);
    StringLookupValid(fdt, nameoff);
    name := GetString(fdt, nameoff);
  }

  lemma PropNameThere(fdt: Blob, j: nat)
    requires fdt.Valid() && IsProp(fdt.shape, j)
    ensures j < |Stream(fdt.shape)| && Stream(fdt.shape)[j].Prop?
    ensures CStr(fdt.StringsBlock(), Stream(fdt.shape)[j].nameOff).Some?
  {
    hide Toks, CStr, Token.Enc;
    NameThere(fdt.shape, fdt.StringsBlock(), j);
  }

  lemma {:induction false} NameThere(it: Items, strs: seq<byte>, j: nat)
    requires Resolved(it, strs) && j < |Toks(it)| && Toks(it)[j].Prop?
    ensures CStr(strs, Toks(it)[j].nameOff).Some?
    decreases it
  {
    match it
    case Leaf(_, rest) =>
      if j > 0 { NameThere(rest, strs, j - 1); }
    case Sub(_, _, body, rest) =>
      if 1 <= j < |Toks(body)| + 1 {
        NameThere(body, strs, j - 1);
      } else if j > |Toks(body)| + 1 {
        NameThere(rest, strs, j - |Toks(body)| - 2);
      }
  }

  lemma StringInside(strs: seq<byte>, off: nat)
    requires CStr(strs, off).Some?
    ensures |CStr(strs, off).value| < |strs|
  {
  }
}
