// What an edit of the bytes of the structure block does to the device tree: a splice of the
// bytes of some tokens is a splice of the tokens, which replaces a node in the syntax, which
// replaces that node in the tree.
module Edits {
  import opened Bytes
  import opened Tokens
  import opened Structure
  import opened Scan
  import opened Blobs

  // The syntax after the contents of node i have been replaced by b.
  ghost function WithBody(shape: Items, i: nat, b: Items): Items
    requires IsNode(shape, i)
  {
    var n := NodeAt(shape, i);
    ReplaceAt(shape, i, Sub(n.name, n.npad, b, Done))
  }

  lemma StreamReplace(shape: Items, i: nat, frag: Items)
    requires IsNode(shape, i)
    ensures var n := |Toks(NodeAt(shape, i))|;
            && i + n <= |Toks(shape)|
            && Stream(shape)[i..i + n] == Toks(NodeAt(shape, i))
            && Stream(ReplaceAt(shape, i, frag)) == Splice(Stream(shape), i, i + n, Toks(frag))
  {
    hide Toks, NodeAt, ReplaceAt, Splice;
    var n := |Toks(NodeAt(shape, i))|;
    ToksReplace(shape, i, frag);
    SpliceFront(Toks(shape), [End], i, i + n, Toks(frag));
    FrontSlice(Toks(shape), [End], i, i + n);
  }

  lemma FrontSlice<T>(s: seq<T>, y: seq<T>, a: nat, b: nat)
    requires a <= b <= |s|
    ensures (s + y)[a..b] == s[a..b]
  {
  }

  // A splice of the node's contents is a splice of the stream.
  lemma StreamWithBody(shape: Items, i: nat, b: Items, a: nat, e: nat, mid: seq<Token>)
    requires IsNode(shape, i)
    requires var body := NodeAt(shape, i).body;
             a <= e <= |Toks(body)| && Toks(b) == Splice(Toks(body), a, e, mid)
    ensures i + 1 + e <= |Stream(shape)|
    ensures Stream(WithBody(shape, i, b)) == Splice(Stream(shape), i + 1 + a, i + 1 + e, mid)
  {
    hide Toks, NodeAt, ReplaceAt, Splice, Stream;
    var n := NodeAt(shape, i);
    var frag := Sub(n.name, n.npad, b, Done);
    var y := [EndNode] + Toks(Done);
    SubToks(n);
    SubToks(frag);
    StreamReplace(shape, i, frag);
    SpliceBracket(Begin(n.name, n.npad), Toks(n.body), y, a, e, mid);
    StreamLength(shape);
    SpliceTwice(Stream(shape), i, Toks(n), Toks(frag), a + 1, e + 1, mid);
  }

  lemma SpliceTwice<T>(s: seq<T>, i: nat, w: seq<T>, w': seq<T>, a: nat, b: nat, mid: seq<T>)
    requires i + |w| <= |s| && s[i..i + |w|] == w && a <= b <= |w| && w' == Splice(w, a, b, mid)
    ensures Splice(s, i, i + |w|, w') == Splice(s, i + a, i + b, mid)
  {
    SpliceNested(s, i, |w|, a, b, mid);
  }

  lemma SubToks(n: Items)
    requires n.Sub? && n.rest == Done
    ensures Toks(n) == [Begin(n.name, n.npad)] + (Toks(n.body) + ([EndNode] + Toks(Done)))
  {
  }

  lemma LeafToks(t: LeafToken)
    ensures Toks(Leaf(t, Done)) == [t]
  {
    assert Toks(Done) == [];
  }

  lemma StreamLength(shape: Items)
    ensures |Stream(shape)| == |Toks(shape)| + 1
  {
  }

  // Nodes up to and including the edited one keep their token index and their path.
  lemma NodeStable(it: Items, i: nat, frag: Items, j: nat)
    requires IsNode(it, i) && IsNode(it, j) && (j < i || (j == i && frag.Sub?))
    ensures IsNode(ReplaceAt(it, i, frag), j)
  {
    ToksReplace(it, i, frag);
    if j == i {
      assert Toks(frag)[0].Begin?;
    }
    hide Toks, ReplaceAt, NodeAt;
  }

  // Where token j of a node with siblings lies.
  lemma SubIndex(it: Items, j: nat)
    requires it.Sub? && IsNode(it, j)
    ensures 0 < j <= |Toks(it.body)| ==>
              IsNode(it.body, j - 1) && PathAt(it, j) == [0] + PathAt(it.body, j - 1)
    ensures j > |Toks(it.body)| ==>
              var k := j - |Toks(it.body)| - 2;
              k >= 0 && IsNode(it.rest, k)
              && PathAt(it, j) == [PathAt(it.rest, k)[0] + 1] + PathAt(it.rest, k)[1..]
  {
  }

  lemma {:induction false} PathStable(it: Items, i: nat, frag: Items, j: nat)
    requires IsNode(it, i) && IsNode(it, j) && (j < i || (j == i && frag.Sub?))
    requires IsNode(ReplaceAt(it, i, frag), j)
    ensures PathAt(ReplaceAt(it, i, frag), j) == PathAt(it, j)
  {
    hide Toks, PathAt, ReplaceAt, NodeAt, IsNode;
    SomeItems(it, i);
    if it.Leaf? {
      StableLeaf(it, i, frag, j);
      PathStable(it.rest, i - 1, frag, j - 1);
    } else {
      SubIndex(it, i);
      SubIndex(it, j);
      if j == 0 {
        ZeroStable(it, i, frag);
      } else if i <= |Toks(it.body)| {
        NodeStable(it.body, i - 1, frag, j - 1);
        PathStable(it.body, i - 1, frag, j - 1);
        PathStableBelow(it, i, frag, j);
      } else if |Toks(it.body)| < j {
        var m := |Toks(it.body)| + 2;
        NodeStable(it.rest, i - m, frag, j - m);
        PathStable(it.rest, i - m, frag, j - m);
        PathStableBeside(it, i, frag, j);
      } else {
        PathStableBefore(it, i, frag, j);
      }
    }
  }

  lemma SomeItems(it: Items, i: nat)
    requires IsNode(it, i)
    ensures it.Leaf? || it.Sub?
  {
  }

  lemma StableLeaf(it: Items, i: nat, frag: Items, j: nat)
    requires it.Leaf? && IsNode(it, i) && IsNode(it, j) && IsNode(ReplaceAt(it, i, frag), j)
    ensures i > 0 && j > 0 && IsNode(it.rest, i - 1) && IsNode(it.rest, j - 1)
    ensures IsNode(ReplaceAt(it.rest, i - 1, frag), j - 1)
    ensures PathAt(it, j) == PathAt(it.rest, j - 1)
    ensures PathAt(ReplaceAt(it, i, frag), j) == PathAt(ReplaceAt(it.rest, i - 1, frag), j - 1)
  {
  }

  // A node inside the first of these siblings does not see what happens to a later one.
  lemma PathStableBefore(it: Items, i: nat, frag: Items, j: nat)
    requires it.Sub? && IsNode(it, i) && IsNode(it, j) && 0 < j <= |Toks(it.body)| < i
    requires IsNode(ReplaceAt(it, i, frag), j)
    ensures PathAt(ReplaceAt(it, i, frag), j) == PathAt(it, j)
  {
  }

  lemma ZeroStable(it: Items, i: nat, frag: Items)
    requires it.Sub? && IsNode(it, i) && (0 < i || frag.Sub?)
    requires IsNode(ReplaceAt(it, i, frag), 0)
    ensures PathAt(ReplaceAt(it, i, frag), 0) == PathAt(it, 0) == [0]
  {
  }

  lemma PathStableBelow(it: Items, i: nat, frag: Items, j: nat)
    requires it.Sub? && IsNode(it, i) && IsNode(it, j) && 0 < j <= i <= |Toks(it.body)|
    requires IsNode(ReplaceAt(it, i, frag), j)
    requires IsNode(ReplaceAt(it.body, i - 1, frag), j - 1)
    requires PathAt(ReplaceAt(it.body, i - 1, frag), j - 1) == PathAt(it.body, j - 1)
    ensures PathAt(ReplaceAt(it, i, frag), j) == PathAt(it, j)
  {
    var changed := ReplaceAt(it, i, frag);
    assert changed == Sub(it.name, it.npad, ReplaceAt(it.body, i - 1, frag), it.rest);
    hide Toks, PathAt, ReplaceAt;
    SubIndex(it, j);
    SubIndex(changed, j);
  }

  lemma PathStableBeside(it: Items, i: nat, frag: Items, j: nat)
    requires it.Sub? && IsNode(it, i) && IsNode(it, j) && |Toks(it.body)| + 2 <= j <= i
    requires IsNode(ReplaceAt(it, i, frag), j)
    requires var m := |Toks(it.body)| + 2;
             && IsNode(it.rest, i - m) && IsNode(it.rest, j - m)
             && IsNode(ReplaceAt(it.rest, i - m, frag), j - m)
             && PathAt(ReplaceAt(it.rest, i - m, frag), j - m) == PathAt(it.rest, j - m)
    ensures PathAt(ReplaceAt(it, i, frag), j) == PathAt(it, j)
  {
    hide Toks, PathAt, ReplaceAt, IsNode;
    var changed := ReplaceAt(it, i, frag);
    BesideParts(it, i, frag);
    SubIndex(it, j);
    SubIndex(changed, j);
  }

  lemma {:induction false} ReplaceFound(it: Items, i: nat, frag: Items)
    requires IsNode(it, i) && frag.Sub? && frag.rest == Done
    ensures IsNode(ReplaceAt(it, i, frag), i)
    ensures NodeAt(ReplaceAt(it, i, frag), i) == frag
  {
    hide Toks, IsNode, NodeAt, ReplaceAt;
    NodeSplit(it, i);
    match it
    case Leaf(_, rest) =>
      ReplaceFound(rest, i - 1, frag);
      FoundBehind(it, i, frag);
    case Sub(_, _, body, rest) =>
      if i == 0 {
        FoundHere(it, frag);
      } else if i <= |Toks(body)| {
        ReplaceFound(body, i - 1, frag);
        FoundBelow(it, i, frag);
      } else {
        var j := i - |Toks(body)| - 2;
        ReplaceFound(rest, j, frag);
        BesideParts(it, i, frag);
        var r := Sub(it.name, it.npad, it.body, ReplaceAt(rest, j, frag));
        BesideNode(r, j);
        BesideParts(r, i, Done);
      }
  }

  lemma FoundBehind(it: Items, i: nat, frag: Items)
    requires it.Leaf? && i > 0 && IsNode(it, i) && IsNode(it.rest, i - 1) && frag.Sub? && frag.rest == Done
    requires IsNode(ReplaceAt(it.rest, i - 1, frag), i - 1)
    requires NodeAt(ReplaceAt(it.rest, i - 1, frag), i - 1) == frag
    ensures IsNode(ReplaceAt(it, i, frag), i) && NodeAt(ReplaceAt(it, i, frag), i) == frag
  {
  }

  lemma FoundHere(it: Items, frag: Items)
    requires it.Sub? && IsNode(it, 0) && frag.Sub? && frag.rest == Done
    ensures IsNode(ReplaceAt(it, 0, frag), 0) && NodeAt(ReplaceAt(it, 0, frag), 0) == frag
  {
    assert Append(frag, it.rest) == Sub(frag.name, frag.npad, frag.body, Append(Done, it.rest));
  }

  lemma FoundBelow(it: Items, i: nat, frag: Items)
    requires it.Sub? && 0 < i <= |Toks(it.body)| && IsNode(it, i) && IsNode(it.body, i - 1)
    requires frag.Sub? && frag.rest == Done
    requires IsNode(ReplaceAt(it.body, i - 1, frag), i - 1)
    requires NodeAt(ReplaceAt(it.body, i - 1, frag), i - 1) == frag
    ensures IsNode(ReplaceAt(it, i, frag), i) && NodeAt(ReplaceAt(it, i, frag), i) == frag
  {
    hide ReplaceAt;
    BelowParts(it, i, frag);
    var b := ReplaceAt(it.body, i - 1, frag);
    BelowNode(Sub(it.name, it.npad, b, it.rest), i - 1);
  }

  lemma BelowNode(it: Items, j: nat)
    requires it.Sub? && IsNode(it.body, j)
    ensures IsNode(it, j + 1) && NodeAt(it, j + 1) == NodeAt(it.body, j)
  {
  }

  // Every node offset up to n still denotes the same place in the tree.
  ghost predicate KeepsOffsets(shape: Items, shape': Items, n: nat) {
    forall m: nat | m <= n && IsNodeOffset(shape, m) ::
      IsNodeOffset(shape', m) && PathAt(shape', IndexAt(shape', m)) == PathAt(shape, IndexAt(shape, m))
  }

  lemma OffPrefix(ts: seq<Token>, ts': seq<Token>, j: nat)
    requires j <= |ts| && j <= |ts'| && ts[..j] == ts'[..j]
    ensures Off(ts, j) == Off(ts', j)
  {
  }

  lemma OffLess(ts: seq<Token>, i: nat, j: nat)
    requires i <= |ts| && j <= |ts| && Off(ts, i) <= Off(ts, j)
    ensures i <= j
  {
    hide Off;
    if j < i {
      OffMonotone(ts, j, i);
    }
  }

  lemma StableOffset(shape: Items, i: nat, frag: Items, m: nat)
    requires IsNode(shape, i) && IsNodeOffset(shape, m) && m <= Off(Stream(shape), i)
    requires frag.Sub? || m < Off(Stream(shape), i)
    ensures var s2 := ReplaceAt(shape, i, frag);
            && IsNodeOffset(s2, m)
            && IndexAt(s2, m) == IndexAt(shape, m)
            && PathAt(s2, IndexAt(s2, m)) == PathAt(shape, IndexAt(shape, m))
  {
    hide Toks, NodeAt, ReplaceAt, Off, PathAt;
    var s2 := ReplaceAt(shape, i, frag);
    var j := IndexAt(shape, m);
    StreamLength(shape);
    StreamLength(s2);
    OffLess(Stream(shape), j, i);
    NodeStable(shape, i, frag, j);
    PathStable(shape, i, frag, j);
    StreamReplace(shape, i, frag);
    assert Stream(s2)[..j] == Stream(shape)[..j];
    OffPrefix(Stream(shape), Stream(s2), j);
    IndexUnique(s2, j);
  }

  lemma ReplaceKeepsOffsets(shape: Items, i: nat, frag: Items)
    requires IsNode(shape, i) && frag.Sub?
    ensures KeepsOffsets(shape, ReplaceAt(shape, i, frag), Off(Stream(shape), i))
  {
    hide Toks, NodeAt, ReplaceAt, Off, PathAt;
    StreamLength(shape);
    forall m: nat | m <= Off(Stream(shape), i) && IsNodeOffset(shape, m)
      ensures IsNodeOffset(ReplaceAt(shape, i, frag), m)
      ensures PathAt(ReplaceAt(shape, i, frag), IndexAt(ReplaceAt(shape, i, frag), m))
              == PathAt(shape, IndexAt(shape, m))
    {
      StableOffset(shape, i, frag, m);
    }
  }

  // A node that has been cut out or blanked leaves the offsets in front of it as they were.
  lemma CutKeepsOffsets(shape: Items, i: nat, frag: Items)
    requires IsNode(shape, i) && Off(Stream(shape), i) > 0
    ensures KeepsOffsets(shape, ReplaceAt(shape, i, frag), Off(Stream(shape), i) - 1)
  {
    hide Toks, NodeAt, ReplaceAt, Off, PathAt;
    StreamLength(shape);
    forall m: nat | m < Off(Stream(shape), i) && IsNodeOffset(shape, m)
      ensures IsNodeOffset(ReplaceAt(shape, i, frag), m)
      ensures PathAt(ReplaceAt(shape, i, frag), IndexAt(ReplaceAt(shape, i, frag), m))
              == PathAt(shape, IndexAt(shape, m))
    {
      StableOffset(shape, i, frag, m);
    }
  }

  // The new bytes and strings describe the old tree with the node at i replaced by repl.
  ghost predicate Edited(shape: Items, strs: seq<byte>, i: nat, repl: seq<Node>,
                         shape': Items, st': seq<byte>, strs': seq<byte>)
  {
    && IsNode(shape, i)
    && Describes(shape', st', strs')
    && ValidPath(Kids(shape, strs), PathAt(shape, i))
    && Kids(shape', strs') == Update(Kids(shape, strs), PathAt(shape, i), repl)
  }

  lemma NodeParts(shape: Items, st: seq<byte>, strs: seq<byte>, i: nat)
    requires Describes(shape, st, strs) && IsNode(shape, i)
    ensures var n := NodeAt(shape, i);
            && WellNested(n.body, true) && PropsFirst(n.body) && Resolved(n.body, strs)
            && Begin(n.name, n.npad).Ok()
            && ValidPath(Kids(shape, strs), PathAt(shape, i))
            && Lookup(Kids(shape, strs), PathAt(shape, i)) == Meaning(n, strs)
  {
    NodeAtKeeps(shape, i, true);
    ReplaceResolved(shape, i, Done, strs);
    ReplaceMeaning(shape, i, Done, strs);
  }

  // Replacing the node at i by a run of siblings without properties.
  lemma FragmentEdit(shape: Items, st: seq<byte>, strs: seq<byte>, more: seq<byte>, i: nat, frag: Items, st': seq<byte>)
    requires Describes(shape, st, strs) && IsNode(shape, i)
    requires WellNested(frag, true) && NoProps(frag) && Resolved(frag, strs + more)
    requires st' == EncAll(Stream(ReplaceAt(shape, i, frag)))
    ensures Edited(shape, strs, i, Kids(frag, strs + more), ReplaceAt(shape, i, frag), st', strs + more)
  {
    hide EncAll, Stream, Toks, Kids, Update, Lookup, ValidPath, NodeAt, PathAt, CStr;
    MeaningExtend(shape, strs, more);
    ReplaceMeaning(shape, i, frag, strs + more);
    ReplaceKeeps(shape, i, frag, true);
    ReplaceKeepsOrder(shape, i, frag);
    ReplaceResolved(shape, i, frag, strs + more);
  }

  // Replacing the contents of the node at i.
  lemma BodyEdit(shape: Items, st: seq<byte>, strs: seq<byte>, more: seq<byte>, i: nat, b: Items,
                 a: nat, e: nat, mid: seq<Token>, st': seq<byte>)
    requires Describes(shape, st, strs) && IsNode(shape, i)
    requires WellNested(b, true) && PropsFirst(b) && Resolved(b, strs + more)
    requires var body := NodeAt(shape, i).body;
             a <= e <= |Toks(body)| && Toks(b) == Splice(Toks(body), a, e, mid)
    requires var ts := Stream(shape);
             i + 1 + e <= |ts| && Off(ts, i + 1 + a) <= Off(ts, i + 1 + e) <= |st|
             && st' == Splice(st, Off(ts, i + 1 + a), Off(ts, i + 1 + e), EncAll(mid))
    ensures var n := NodeAt(shape, i);
            Edited(shape, strs, i, [Node(n.name, Props(b, strs + more), Kids(b, strs + more))],
                   WithBody(shape, i, b), st', strs + more)
    ensures KeepsOffsets(shape, WithBody(shape, i, b), Off(Stream(shape), i))
  {
    hide EncAll, Off, Splice, WellNested, PropsFirst, Resolved, NodeAt, Toks, Stream, WithBody, Edited, KeepsOffsets;
    BodyBytes(shape, i, b, a, e, mid);
    BodyTree(shape, st, strs, more, i, b, st');
  }

  lemma BodyBytes(shape: Items, i: nat, b: Items, a: nat, e: nat, mid: seq<Token>)
    requires IsNode(shape, i)
    requires var body := NodeAt(shape, i).body;
             a <= e <= |Toks(body)| && Toks(b) == Splice(Toks(body), a, e, mid)
    ensures var ts := Stream(shape);
            && i + 1 + e <= |ts|
            && Off(ts, i + 1 + a) <= Off(ts, i + 1 + e) <= |EncAll(ts)|
            && EncAll(Stream(WithBody(shape, i, b)))
               == Splice(EncAll(ts), Off(ts, i + 1 + a), Off(ts, i + 1 + e), EncAll(mid))
  {
    hide Toks, EncAll, Off, Splice, NodeAt, ReplaceAt, Stream, WithBody;
    StreamWithBody(shape, i, b, a, e, mid);
    EncAllReplace(Stream(shape), i + 1 + a, i + 1 + e, mid);
  }

  lemma BodyTree(shape: Items, st: seq<byte>, strs: seq<byte>, more: seq<byte>, i: nat, b: Items, st': seq<byte>)
    requires Describes(shape, st, strs) && IsNode(shape, i)
    requires WellNested(b, true) && PropsFirst(b) && Resolved(b, strs + more)
    requires st' == EncAll(Stream(WithBody(shape, i, b)))
    ensures var n := NodeAt(shape, i);
            Edited(shape, strs, i, [Node(n.name, Props(b, strs + more), Kids(b, strs + more))],
                   WithBody(shape, i, b), st', strs + more)
    ensures KeepsOffsets(shape, WithBody(shape, i, b), Off(Stream(shape), i))
  {
    hide Describes, Token.Ok, CStr, Toks, EncAll, Off, Kids, Props, WellNested, PropsFirst, NoProps, Resolved, NodeAt,
      ReplaceAt, PathAt, Stream, Update, Lookup, ValidPath, KeepsOffsets, Edited;
    var n := NodeAt(shape, i);
    NodeParts(shape, st, strs, i);
    SubOk(n.name, n.npad, b, strs + more);
    var frag := Sub(n.name, n.npad, b, Done);
    FragmentEdit(shape, st, strs, more, i, frag, st');
    ReplaceKeepsOffsets(shape, i, frag);
  }

  lemma SubOk(name: seq<byte>, npad: seq<byte>, b: Items, strs: seq<byte>)
    requires Begin(name, npad).Ok() && WellNested(b, true) && PropsFirst(b) && Resolved(b, strs)
    ensures var frag := Sub(name, npad, b, Done);
            && WellNested(frag, true) && NoProps(frag) && Resolved(frag, strs)
            && Kids(frag, strs) == [Node(name, Props(b, strs), Kids(b, strs))]
  {
    assert Kids(Done, strs) == [];
    hide PropsFirst;
  }

  // The tree edits -----------------------------------------------------------------

  // fdt_setprop: the first property of that name gets the value, or a new property goes first.
  function PutProp(n: Node, name: seq<byte>, value: seq<byte>): Node {
    var m := FirstProp(n.props, name);
    if m < |n.props| then n.(props := n.props[m := Property(name, value)])
    else n.(props := [Property(name, value)] + n.props)
  }

  // The value of the first property of that name.
  function PropValue(n: Node, name: seq<byte>): Option<seq<byte>> {
    var m := FirstProp(n.props, name);
    if m < |n.props| then Some(n.props[m].value) else None
  }

  // fdt_delprop
  function DropProp(n: Node, name: seq<byte>): Node
    requires FirstProp(n.props, name) < |n.props|
  {
    var m := FirstProp(n.props, name);
    n.(props := n.props[..m] + n.props[m + 1..])
  }

  // Property k of the node at i is replaced by leaves; k is the first property of that name.
  lemma NamedPropEdit(shape: Items, st: seq<byte>, strs: seq<byte>, i: nat, name: seq<byte>, k: nat,
                      frag: Items, st': seq<byte>)
    requires Describes(shape, st, strs) && IsNode(shape, i)
    requires FindProp(NodeAt(shape, i).body, strs, name) == Some(k)
    requires OnlyLeaves(frag) && WellNested(frag, true) && Resolved(frag, strs)
    requires var ts := Stream(shape);
             i + 2 + k <= |ts| && Off(ts, i + 1 + k) <= Off(ts, i + 2 + k) <= |st|
             && st' == Splice(st, Off(ts, i + 1 + k), Off(ts, i + 2 + k), EncAll(Toks(frag)))
    ensures var body := NodeAt(shape, i).body;
            var n := Meaning(NodeAt(shape, i), strs);
            var m := FirstProp(n.props, name);
            && m < |n.props|
            && Edited(shape, strs, i, [n.(props := Splice(n.props, m, m + 1, Props(frag, strs)))],
                      WithBody(shape, i, ReplaceProp(body, k, frag)), st', strs)
    ensures KeepsOffsets(shape, WithBody(shape, i, ReplaceProp(NodeAt(shape, i).body, k, frag)), Off(Stream(shape), i))
  {
    hide EncAll, Off, Splice, WellNested, PropsFirst, Resolved, NodeAt, Toks, Stream, WithBody, Edited, KeepsOffsets,
      CStr, Describes, Props, Kids, FirstProp, FindProp, ReplaceProp, OnlyLeaves, PropRank;
    var body := NodeAt(shape, i).body;
    NodeParts(shape, st, strs, i);
    FindPropMeaning(body, strs, name);
    ReplacePropToks(body, k, frag);
    ReplacePropMeaning(body, k, frag, strs);
    ReplacePropKeeps(body, k, frag, true, strs);
    assert strs + [] == strs;
    BodyEdit(shape, st, strs, [], i, ReplaceProp(body, k, frag), k, k + 1, Toks(frag), st');
  }

  lemma NamedPropReplaced(shape: Items, st: seq<byte>, strs: seq<byte>, i: nat, name: seq<byte>, k: nat,
                          t: Token, st': seq<byte>)
    requires Describes(shape, st, strs) && IsNode(shape, i)
    requires FindProp(NodeAt(shape, i).body, strs, name) == Some(k)
    requires t.Prop? && t.Ok() && CStr(strs, t.nameOff) == Some(name)
    requires var ts := Stream(shape);
             i + 2 + k <= |ts| && Off(ts, i + 1 + k) <= Off(ts, i + 2 + k) <= |st|
             && st' == Splice(st, Off(ts, i + 1 + k), Off(ts, i + 2 + k), t.Enc())
    ensures var body := NodeAt(shape, i).body;
            Edited(shape, strs, i, [PutProp(Meaning(NodeAt(shape, i), strs), name, t.value)],
                   WithBody(shape, i, ReplaceProp(body, k, Leaf(t, Done))), st', strs)
    ensures KeepsOffsets(shape, WithBody(shape, i, ReplaceProp(NodeAt(shape, i).body, k, Leaf(t, Done))),
                         Off(Stream(shape), i))
  {
    hide EncAll, Off, Splice, WellNested, PropsFirst, Resolved, NodeAt, Toks, Stream, WithBody, Edited, KeepsOffsets,
      CStr, Describes, Props, Kids, FirstProp, FindProp, ReplaceProp, OnlyLeaves, Token.Ok, Token.Enc;
    OneLeaf(t, strs);
    NamedPropEdit(shape, st, strs, i, name, k, Leaf(t, Done), st');
    var n := Meaning(NodeAt(shape, i), strs);
    SpliceOne(n.props, FirstProp(n.props, name), Property(name, t.value));
  }

  lemma OneLeaf(t: LeafToken, strs: seq<byte>)
    requires t.Ok() && (t.Prop? ==> CStr(strs, t.nameOff).Some?)
    ensures var f := Leaf(t, Done);
            && OnlyLeaves(f) && WellNested(f, true) && Resolved(f, strs)
            && Toks(f) == [t] && EncAll(Toks(f)) == t.Enc()
            && Props(f, strs) == if t.Prop? then [Property(NameOf(strs, t.nameOff), t.value)] else []
  {
    hide CStr, Token.Ok;
    assert Toks(Done) == [] && Props(Done, strs) == [];
    assert EncAll([t]) == t.Enc() + EncAll([]);
  }

  lemma NamedPropRemoved(shape: Items, st: seq<byte>, strs: seq<byte>, i: nat, name: seq<byte>, k: nat,
                         frag: Items, st': seq<byte>)
    requires Describes(shape, st, strs) && IsNode(shape, i)
    requires FindProp(NodeAt(shape, i).body, strs, name) == Some(k)
    requires OnlyLeaves(frag) && NoProps(frag) && WellNested(frag, true) && Resolved(frag, strs)
    requires var ts := Stream(shape);
             i + 2 + k <= |ts| && Off(ts, i + 1 + k) <= Off(ts, i + 2 + k) <= |st|
             && st' == Splice(st, Off(ts, i + 1 + k), Off(ts, i + 2 + k), EncAll(Toks(frag)))
    ensures var n := Meaning(NodeAt(shape, i), strs);
            && FirstProp(n.props, name) < |n.props|
            && Edited(shape, strs, i, [DropProp(n, name)],
                      WithBody(shape, i, ReplaceProp(NodeAt(shape, i).body, k, frag)), st', strs)
  {
    hide EncAll, Off, WellNested, PropsFirst, Resolved, NodeAt, Toks, Stream, WithBody, Edited, KeepsOffsets, CStr,
      Describes, Props, Kids, FirstProp, FindProp, ReplaceProp, OnlyLeaves;
    NamedPropEdit(shape, st, strs, i, name, k, frag, st');
    NoPropsMeans(frag, strs);
    var n := Meaning(NodeAt(shape, i), strs);
    var m := FirstProp(n.props, name);
    assert Splice(n.props, m, m + 1, []) == n.props[..m] + n.props[m + 1..];
  }

  lemma PropAdded(shape: Items, st: seq<byte>, strs: seq<byte>, more: seq<byte>, i: nat, name: seq<byte>,
                  t: Token, st': seq<byte>)
    requires Describes(shape, st, strs) && IsNode(shape, i)
    requires FindProp(NodeAt(shape, i).body, strs, name) == None
    requires t.Prop? && t.Ok() && CStr(strs + more, t.nameOff) == Some(name)
    requires var ts := Stream(shape);
             i + 1 <= |ts| && Off(ts, i + 1) <= |st| && st' == Splice(st, Off(ts, i + 1), Off(ts, i + 1), t.Enc())
    ensures Edited(shape, strs, i, [PutProp(Meaning(NodeAt(shape, i), strs), name, t.value)],
                   WithBody(shape, i, Leaf(t, NodeAt(shape, i).body)), st', strs + more)
    ensures KeepsOffsets(shape, WithBody(shape, i, Leaf(t, NodeAt(shape, i).body)), Off(Stream(shape), i))
  {
    hide EncAll, Off, WellNested, PropsFirst, Resolved, NodeAt, Toks, Stream, WithBody, Edited, Splice, KeepsOffsets,
      CStr, Describes, Props, Kids, FirstProp, FindProp, Token.Ok, Token.Enc, Lookup, ValidPath, PathAt;
    var body := NodeAt(shape, i).body;
    NodeParts(shape, st, strs, i);
    OneLeaf(t, strs + more);
    LeafInFront(t, body, strs + more);
    MeaningExtend(body, strs, more);
    FindPropMeaning(body, strs, name);
    BodyEdit(shape, st, strs, more, i, Leaf(t, body), 0, 0, [t], st');
  }

  lemma LeafInFront(t: LeafToken, body: Items, strs: seq<byte>)
    requires t.Prop?
    ensures var b := Leaf(t, body);
            && Props(b, strs) == [Property(NameOf(strs, t.nameOff), t.value)] + Props(body, strs)
            && Kids(b, strs) == Kids(body, strs)
            && Toks(b) == Splice(Toks(body), 0, 0, [t])
            && (WellNested(b, true) <==> t.Ok() && WellNested(body, true))
            && (PropsFirst(b) <==> PropsFirst(body))
            && (Resolved(b, strs) <==> CStr(strs, t.nameOff).Some? && Resolved(body, strs))
  {
    hide CStr, Token.Ok;
    SpliceInsert(Toks(body), [t]);
  }
}
