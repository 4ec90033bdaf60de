// What the walking loops of libfdt compute on the token stream, and what that means for trees.
module Scan {
  import opened Bytes
  import opened Tokens
  import opened Structure

  // fdt_next_node: the next BEGIN_NODE, or the place where the depth falls below zero.
  datatype Step =
    | AtNode(index: nat, depth: int)
    | Left(index: nat, depth: int)
    | NoMore

  function NextStep(ts: seq<Token>, k: nat, depth: int): (r: Step)
    ensures r.AtNode? ==> k <= r.index < |ts| && ts[r.index].Begin?
    ensures r.Left? ==> k < r.index <= |ts| && ts[r.index - 1].EndNode? && r.depth < 0
    decreases |ts| - k
  {
    if k >= |ts| then NoMore
    else
      match ts[k]
      case Begin(_, _) => AtNode(k, depth + 1)
      case EndNode => if depth - 1 < 0 then Left(k + 1, depth - 1) else NextStep(ts, k + 1, depth - 1)
      case End => NoMore
      case _ => NextStep(ts, k + 1, depth)
  }

  // The index behind the END_NODE that closes the node whose contents start at k.
  function CloseOf(ts: seq<Token>, k: nat, depth: nat): Option<nat>
    decreases |ts| - k
  {
    if k >= |ts| then None
    else
      match ts[k]
      case Begin(_, _) => CloseOf(ts, k + 1, depth + 1)
      case EndNode => if depth == 0 then Some(k + 1) else CloseOf(ts, k + 1, depth - 1)
      case End => None
      case _ => CloseOf(ts, k + 1, depth)
  }

  lemma {:induction false} CloseOfStep(ts: seq<Token>, k: nat, depth: nat)
    ensures match NextStep(ts, k, depth)
            case AtNode(j, d) => d >= 0 && CloseOf(ts, k, depth) == CloseOf(ts, j + 1, d)
            case Left(j, d) => d == -1 && CloseOf(ts, k, depth) == Some(j)
            case NoMore => CloseOf(ts, k, depth) == None
    decreases |ts| - k
  {
    if k < |ts| {
      match ts[k]
      case Begin(_, _) =>
      case EndNode => if depth > 0 { CloseOfStep(ts, k + 1, depth - 1); }
      case End =>
      case _ => CloseOfStep(ts, k + 1, depth);
    }
  }

  // A properly nested run is passed without changing the depth.
  lemma {:induction false} CloseOfRun(ts: seq<Token>, k: nat, it: Items, depth: nat)
    requires At(ts, k, Toks(it))
    ensures CloseOf(ts, k, depth) == CloseOf(ts, k + |Toks(it)|, depth)
    decreases it
  {
    hide At, NodeNameEq;
    match it
    case Done =>
    case Leaf(tok, rest) =>
      LeafRun(ts, k, it);
      CloseOfRun(ts, k + 1, rest, depth);
    case Sub(name, npad, body, rest) =>
      SubRun(ts, k, it);
      CloseOfRun(ts, k + 1, body, depth + 1);
      CloseOfRun(ts, k + |Toks(body)| + 2, rest, depth);
  }

  lemma LeafRun(ts: seq<Token>, k: nat, it: Items)
    requires it.Leaf? && At(ts, k, Toks(it))
    ensures k < |ts| && ts[k] == it.tok && At(ts, k + 1, Toks(it.rest))
    ensures |Toks(it)| == 1 + |Toks(it.rest)|
  {
    hide At;
    AtConcat(ts, k, [it.tok], Toks(it.rest));
    AtOne(ts, k, it.tok);
  }

  lemma SubRun(ts: seq<Token>, k: nat, it: Items)
    requires it.Sub? && At(ts, k, Toks(it))
    ensures var e := k + 1 + |Toks(it.body)|;
            && e + 1 + |Toks(it.rest)| <= |ts|
            && ts[k] == Begin(it.name, it.npad)
            && At(ts, k + 1, Toks(it.body))
            && ts[e] == EndNode
            && At(ts, e + 1, Toks(it.rest))
    ensures |Toks(it)| == |Toks(it.body)| + 2 + |Toks(it.rest)|
  {
    hide At;
    AtBracket(ts, k, Begin(it.name, it.npad), Toks(it.body), EndNode, Toks(it.rest));
  }

  // fdt_node_end_offset_ on a node finds the end of the balanced subtree.
  lemma CloseOfNode(ts: seq<Token>, i: nat, n: Items)
    requires n.Sub? && n.rest == Done && At(ts, i, Toks(n))
    ensures CloseOf(ts, i + 1, 0) == Some(i + |Toks(n)|)
  {
    SubRun(ts, i, n);
    CloseOfRun(ts, i + 1, n.body, 0);
  }

  // The '@'-tolerant comparison of a node name with a search string.
  predicate NodeNameEq(name: seq<byte>, s: seq<byte>) {
    && |s| <= |name|
    && name[..|s|] == s
    && (|name| == |s| || (AT_SIGN !in s && name[|s|] == AT_SIGN))
  }

  const AT_SIGN: byte := 0x40

  // A search for a child by name, or for any child.
  predicate Matches(name: seq<byte>, want: Option<seq<byte>>) {
    want.None? || NodeNameEq(name, want.value)
  }

  // fdt_subnode_offset_namelen: the first node one level below that matches.
  function ChildAt(ts: seq<Token>, k: nat, depth: nat, want: Option<seq<byte>>): (r: Option<nat>)
    ensures r.Some? ==> k <= r.value < |ts| && ts[r.value].Begin?
    decreases |ts| - k
  {
    if k >= |ts| then None
    else
      match ts[k]
      case Begin(name, _) =>
        if depth == 0 && Matches(name, want) then Some(k) else ChildAt(ts, k + 1, depth + 1, want)
      case EndNode => if depth == 0 then None else ChildAt(ts, k + 1, depth - 1, want)
      case End => None
      case _ => ChildAt(ts, k + 1, depth, want)
  }

  lemma {:induction false} ChildAtStep(ts: seq<Token>, k: nat, depth: nat, want: Option<seq<byte>>)
    ensures match NextStep(ts, k, depth)
            case AtNode(j, d) => d >= 1 &&
              ChildAt(ts, k, depth, want)
              == (if d == 1 && Matches(ts[j].name, want) then Some(j) else ChildAt(ts, j + 1, d, want))
            case _ => ChildAt(ts, k, depth, want) == None
    decreases |ts| - k
  {
    hide Matches;
    if k < |ts| {
      if ts[k].EndNode? {
        if depth > 0 {
          ChildAtStep(ts, k + 1, depth - 1, want);
        }
      } else if ts[k].Prop? || ts[k].Nop? {
        ChildAtStep(ts, k + 1, depth, want);
      }
    }
  }

  lemma {:induction false} ChildAtDeep(ts: seq<Token>, k: nat, it: Items, depth: nat, want: Option<seq<byte>>)
    requires At(ts, k, Toks(it)) && depth > 0
    ensures ChildAt(ts, k, depth, want) == ChildAt(ts, k + |Toks(it)|, depth, want)
    decreases it
  {
    hide At, Matches;
    match it
    case Done =>
    case Leaf(tok, rest) =>
      LeafRun(ts, k, it);
      ChildAtDeep(ts, k + 1, rest, depth, want);
    case Sub(name, npad, body, rest) =>
      SubRun(ts, k, it);
      ChildAtDeep(ts, k + 1, body, depth + 1, want);
      ChildAtDeep(ts, k + |Toks(body)| + 2, rest, depth, want);
  }

  // The first matching child among siblings, as a token index.
  function FindChild(it: Items, want: Option<seq<byte>>): (r: Option<nat>)
    ensures r.Some? ==> IsNode(it, r.value)
  {
    match it
    case Done => None
    case Leaf(_, rest) =>
      (match FindChild(rest, want) case None => None case Some(k) => Some(k + 1))
    case Sub(name, _, body, rest) =>
      if Matches(name, want) then Some(0)
      else
        match FindChild(rest, want)
        case None => None
        case Some(k) => Some(k + |Toks(body)| + 2)
  }

  lemma {:induction false} ChildAtRun(ts: seq<Token>, k: nat, it: Items, want: Option<seq<byte>>)
    requires At(ts, k, Toks(it)) && k + |Toks(it)| < |ts| && ts[k + |Toks(it)|].EndNode?
    ensures ChildAt(ts, k, 0, want)
         == (match FindChild(it, want) case None => None case Some(j) => Some(k + j))
    decreases it
  {
    hide At, Matches, Toks, ChildAt;
    ChildAtOne(ts, k, 0, want);
    match it
    case Done =>
      NoTokens();
    case Leaf(tok, rest) =>
      LeafRun(ts, k, it);
      ChildAtRun(ts, k + 1, rest, want);
    case Sub(name, npad, body, rest) =>
      SubRun(ts, k, it);
      if !Matches(name, want) {
        ChildAtDeep(ts, k + 1, body, 1, want);
        ChildAtOne(ts, k + 1 + |Toks(body)|, 1, want);
        ChildAtRun(ts, k + |Toks(body)| + 2, rest, want);
      }
  }

  lemma NoTokens()
    ensures Toks(Done) == []
  {
  }

  // One token of the search.
  lemma ChildAtOne(ts: seq<Token>, k: nat, depth: nat, want: Option<seq<byte>>)
    requires k < |ts|
    ensures ts[k].Begin? ==>
              ChildAt(ts, k, depth, want)
              == if depth == 0 && Matches(ts[k].name, want) then Some(k) else ChildAt(ts, k + 1, depth + 1, want)
    ensures ts[k].EndNode? ==>
              ChildAt(ts, k, depth, want) == if depth == 0 then None else ChildAt(ts, k + 1, depth - 1, want)
    ensures ts[k].Prop? || ts[k].Nop? ==> ChildAt(ts, k, depth, want) == ChildAt(ts, k + 1, depth, want)
  {
    hide Matches;
  }

  // fdt_get_property_namelen_: the first property with the given name.
  function PropAt(ts: seq<Token>, k: nat, strs: seq<byte>, name: seq<byte>): (r: Option<nat>)
    ensures r.Some? ==> k <= r.value < |ts| && ts[r.value].Prop?
                        && CStr(strs, ts[r.value].nameOff) == Some(name)
    decreases |ts| - k
  {
    if k >= |ts| then None
    else
      match ts[k]
      case Prop(nameOff, _, _) =>
        if CStr(strs, nameOff) == Some(name) then Some(k) else PropAt(ts, k + 1, strs, name)
      case Nop => PropAt(ts, k + 1, strs, name)
      case _ => None
  }

  // nextprop_: the index of the property at or behind token k.
  function NextPropAt(ts: seq<Token>, k: nat): (r: Result<nat>)
    ensures r.Success? ==> k <= r.value < |ts| && ts[r.value].Prop?
    decreases |ts| - k
  {
    if k >= |ts| then Failure(Truncated)
    else
      match ts[k]
      case Prop(_, _, _) => Success(k)
      case Nop => NextPropAt(ts, k + 1)
      case End => Failure(BadStructure)
      case _ => Failure(NotFound)
  }

  // What the searches for the first and the next property report.
  ghost predicate PropStepIs(ts: seq<Token>, k: nat, r: Result<nat>) {
    match NextPropAt(ts, k)
    case Success(j) => r == Success(Off(ts, j))
    case Failure(e) => r == Failure(e)
  }

  // Inside a node that is closed further on, the search for properties ends properly.
  lemma {:induction false} PropAtStep(ts: seq<Token>, k: nat, strs: seq<byte>, name: seq<byte>)
    requires CloseOf(ts, k, 0).Some?
    ensures match NextPropAt(ts, k)
            case Success(j) =>
              && CloseOf(ts, j + 1, 0) == CloseOf(ts, k, 0)
              && PropAt(ts, k, strs, name)
                 == (if CStr(strs, ts[j].nameOff) == Some(name) then Some(j)
                     else PropAt(ts, j + 1, strs, name))
            case Failure(e) => e == NotFound && PropAt(ts, k, strs, name) == None
    decreases |ts| - k
  {
    hide CStr;
    if k < |ts| && ts[k].Nop? {
      PropAtStep(ts, k + 1, strs, name);
    }
  }

  function FindProp(body: Items, strs: seq<byte>, name: seq<byte>): (r: Option<nat>)
    ensures r.Some? ==> IsPropOf(body, r.value)
  {
    match body
    case Leaf(tok, rest) =>
      if tok.Prop? && CStr(strs, tok.nameOff) == Some(name) then Some(0)
      else (match FindProp(rest, strs, name) case None => None case Some(k) => Some(k + 1))
    case _ => None
  }

  lemma {:induction false} PropAtRun(ts: seq<Token>, k: nat, body: Items, strs: seq<byte>, name: seq<byte>)
    requires At(ts, k, Toks(body)) && k + |Toks(body)| < |ts| && ts[k + |Toks(body)|].EndNode?
    ensures PropAt(ts, k, strs, name)
         == (match FindProp(body, strs, name) case None => None case Some(j) => Some(k + j))
    decreases body
  {
    hide CStr, At;
    match body
    case Done =>
    case Leaf(tok, rest) =>
      LeafRun(ts, k, body);
      PropAtRun(ts, k + 1, rest, strs, name);
    case Sub(_, _, _, _) =>
      SubRun(ts, k, body);
  }

  // The position of the first property of that name, or the number of properties.
  function FirstProp(props: seq<Property>, name: seq<byte>): (r: nat)
    ensures r <= |props|
    ensures r < |props| ==> props[r].name == name
    ensures forall j :: 0 <= j < r ==> props[j].name != name
  {
    if props == [] || props[0].name == name then 0 else 1 + FirstProp(props[1..], name)
  }

  lemma FirstPropCons(p: Property, props: seq<Property>, name: seq<byte>)
    ensures FirstProp([p] + props, name) == if p.name == name then 0 else 1 + FirstProp(props, name)
  {
    assert ([p] + props)[1..] == props;
  }

  // The search in the tokens agrees with the tree.
  ghost predicate PropMeans(body: Items, strs: seq<byte>, name: seq<byte>) {
    match FindProp(body, strs, name)
    case None => FirstProp(Props(body, strs), name) == |Props(body, strs)|
    case Some(k) =>
      && PropRank(body, k) == FirstProp(Props(body, strs), name) < |Props(body, strs)|
      && k < |Toks(body)| && Toks(body)[k].Prop?
      && Props(body, strs)[PropRank(body, k)] == Property(name, Toks(body)[k].value)
  }

  lemma {:induction false} FindPropMeaning(body: Items, strs: seq<byte>, name: seq<byte>)
    requires PropsFirst(body) && Resolved(body, strs)
    ensures PropMeans(body, strs, name)
  {
    hide CStr, Toks, Props, Resolved, PropsFirst, FirstProp, NameOf, PropMeans;
    match body
    case Done =>
      NothingMeans(strs, name);
    case Leaf(tok, rest) =>
      LeafMeans(tok, rest, strs);
      FindPropMeaning(rest, strs, name);
      if !tok.Prop? {
        NopMeans(tok, rest, strs, name);
      } else if CStr(strs, tok.nameOff) == Some(name) {
        FoundMeans(tok, rest, strs, name);
      } else {
        OtherMeans(tok, rest, strs, name);
      }
    case Sub(_, _, _, _) =>
      SubMeans(body, strs, name);
  }

  lemma NopMeans(tok: LeafToken, rest: Items, strs: seq<byte>, name: seq<byte>)
    requires tok.Nop? && PropMeans(rest, strs, name)
    ensures PropMeans(Leaf(tok, rest), strs, name)
  {
    hide CStr, NameOf, FirstProp;
    assert Toks(Leaf(tok, rest)) == [tok] + Toks(rest);
  }

  lemma FoundMeans(tok: LeafToken, rest: Items, strs: seq<byte>, name: seq<byte>)
    requires tok.Prop? && CStr(strs, tok.nameOff) == Some(name)
    ensures PropMeans(Leaf(tok, rest), strs, name)
  {
    hide CStr, FirstProp;
    FirstPropCons(Property(name, tok.value), Props(rest, strs), name);
    assert Toks(Leaf(tok, rest)) == [tok] + Toks(rest);
  }

  lemma OtherMeans(tok: LeafToken, rest: Items, strs: seq<byte>, name: seq<byte>)
    requires tok.Prop? && CStr(strs, tok.nameOff).Some? && CStr(strs, tok.nameOff) != Some(name)
    requires PropMeans(rest, strs, name)
    ensures PropMeans(Leaf(tok, rest), strs, name)
  {
    hide CStr, FirstProp, Toks, Props;
    var p := Property(NameOf(strs, tok.nameOff), tok.value);
    FirstPropCons(p, Props(rest, strs), name);
    LeafParts(tok, rest, strs);
  }

  lemma LeafParts(tok: LeafToken, rest: Items, strs: seq<byte>)
    requires tok.Prop?
    ensures Toks(Leaf(tok, rest)) == [tok] + Toks(rest)
    ensures Props(Leaf(tok, rest), strs) == [Property(NameOf(strs, tok.nameOff), tok.value)] + Props(rest, strs)
  {
    hide CStr;
  }

  lemma NothingMeans(strs: seq<byte>, name: seq<byte>)
    ensures PropMeans(Done, strs, name)
  {
  }

  lemma LeafMeans(tok: LeafToken, rest: Items, strs: seq<byte>)
    requires PropsFirst(Leaf(tok, rest)) && Resolved(Leaf(tok, rest), strs)
    ensures PropsFirst(rest) && Resolved(rest, strs) && (tok.Prop? ==> CStr(strs, tok.nameOff).Some?)
  {
    hide CStr;
  }

  lemma SubMeans(body: Items, strs: seq<byte>, name: seq<byte>)
    requires body.Sub? && PropsFirst(body)
    ensures PropMeans(body, strs, name)
  {
    NoPropsMeans(body, strs);
  }

  // The position of the first matching child, or the number of children.
  function FirstChild(kids: seq<Node>, want: Option<seq<byte>>): (r: nat)
    ensures r <= |kids|
    ensures r < |kids| ==> Matches(kids[r].name, want)
    ensures forall j :: 0 <= j < r ==> !Matches(kids[j].name, want)
  {
    if kids == [] || Matches(kids[0].name, want) then 0 else 1 + FirstChild(kids[1..], want)
  }

  ghost predicate ChildMeans(it: Items, kids: seq<Node>, want: Option<seq<byte>>) {
    match FindChild(it, want)
    case None => FirstChild(kids, want) == |kids|
    case Some(k) => PathAt(it, k) == [FirstChild(kids, want)] && FirstChild(kids, want) < |kids|
  }

  lemma {:induction false} FindChildMeaning(it: Items, strs: seq<byte>, want: Option<seq<byte>>)
    ensures ChildMeans(it, Kids(it, strs), want)
  {
    match it
    case Done =>
    case Leaf(_, rest) => FindChildMeaning(rest, strs, want);
    case Sub(name, _, body, rest) =>
      FindChildMeaning(rest, strs, want);
      BesideMeans(it, Meaning(it, strs), Kids(rest, strs), want);
  }

  predicate SameNames(a: seq<Node>, b: seq<Node>) {
    |a| == |b| && forall k :: 0 <= k < |a| ==> a[k].name == b[k].name
  }

  // A search depends on the names alone.
  lemma {:induction false} SameFirst(a: seq<Node>, b: seq<Node>, want: Option<seq<byte>>)
    requires SameNames(a, b)
    ensures FirstChild(a, want) == FirstChild(b, want)
    decreases |a|
  {
    hide Matches;
    if a != [] {
      SameFirst(a[1..], b[1..], want);
    }
  }

  lemma FirstChildCons(n: Node, kids: seq<Node>, want: Option<seq<byte>>)
    ensures FirstChild([n] + kids, want) == if Matches(n.name, want) then 0 else 1 + FirstChild(kids, want)
  {
    assert ([n] + kids)[1..] == kids;
  }

  lemma PathBeside(it: Items, k: nat, x: nat)
    requires it.Sub? && IsNode(it.rest, k) && PathAt(it.rest, k) == [x]
    ensures IsNode(it, k + |Toks(it.body)| + 2)
    ensures PathAt(it, k + |Toks(it.body)| + 2) == [x + 1]
  {
    assert [x][1..] == [];
  }

  lemma BesideMeans(it: Items, n: Node, kids: seq<Node>, want: Option<seq<byte>>)
    requires it.Sub? && n.name == it.name && ChildMeans(it.rest, kids, want)
    ensures ChildMeans(it, [n] + kids, want)
  {
    hide Matches, PathAt, FirstChild, Toks;
    FirstChildCons(n, kids, want);
    var f := FindChild(it.rest, want);
    if Matches(it.name, want) {
      assert PathAt(it, 0) == [0] by { FirstPath(it); }
    } else if f.Some? {
      PathBeside(it, f.value, FirstChild(kids, want));
    }
  }

  lemma FirstPath(it: Items)
    requires it.Sub?
    ensures IsNode(it, 0) && PathAt(it, 0) == [0]
  {
  }
}
