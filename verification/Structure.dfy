// The nesting of the token stream: concrete syntax (NOPs and padding kept) and the
// device tree it stands for, with in-place replacement of a node on both levels.
module Structure {
  import opened Bytes
  import opened Tokens

  // The device tree a blob describes -------------------------------------------

  datatype Property = Property(name: seq<byte>, value: seq<byte>)

  datatype Node = Node(name: seq<byte>, props: seq<Property>, children: seq<Node>)

  // Concrete syntax ------------------------------------------------------------

  type LeafToken = t: Token | t.Prop? || t.Nop? witness Nop

  // A run of siblings. A leaf is a property or a NOP; a Sub is a node with its contents.
  datatype Items =
    | Done
    | Leaf(tok: LeafToken, rest: Items)
    | Sub(name: seq<byte>, npad: seq<byte>, body: Items, rest: Items)

  function Toks(it: Items): seq<Token> {
    match it
    case Done => []
    case Leaf(tok, rest) => [tok] + Toks(rest)
    case Sub(name, npad, body, rest) =>
      [Begin(name, npad)] + (Toks(body) + ([EndNode] + Toks(rest)))
  }

  // No property among these siblings.
  ghost predicate NoProps(it: Items) {
    match it
    case Done => true
    case Leaf(tok, rest) => !tok.Prop? && NoProps(rest)
    case Sub(_, _, _, rest) => NoProps(rest)
  }

  // Properties come before subnodes.
  ghost predicate PropsFirst(it: Items) {
    match it
    case Done => true
    case Leaf(_, rest) => PropsFirst(rest)
    case Sub(_, _, _, rest) => NoProps(rest)
  }

  // Nested tokens are well formed; with `ordered`, properties precede subnodes in every node.
  ghost predicate WellNested(it: Items, ordered: bool) {
    match it
    case Done => true
    case Leaf(tok, rest) => tok.Ok() && WellNested(rest, ordered)
    case Sub(name, npad, body, rest) =>
      && Begin(name, npad).Ok()
      && WellNested(body, ordered)
      && WellNested(rest, ordered)
      && (ordered ==> PropsFirst(body))
  }

  // Every property name resolves in the strings block.
  ghost predicate Resolved(it: Items, strs: seq<byte>) {
    match it
    case Done => true
    case Leaf(tok, rest) => (tok.Prop? ==> CStr(strs, tok.nameOff).Some?) && Resolved(rest, strs)
    case Sub(_, _, body, rest) => Resolved(body, strs) && Resolved(rest, strs)
  }

  lemma {:induction false} ToksOk(it: Items, ordered: bool)
    requires WellNested(it, ordered)
    ensures AllOk(Toks(it))
  {
    match it
    case Done =>
    case Leaf(tok, rest) => ToksOk(rest, ordered);
    case Sub(name, npad, body, rest) =>
      ToksOk(body, ordered);
      ToksOk(rest, ordered);
  }

  lemma NoPropsFirst(it: Items)
    requires NoProps(it)
    ensures PropsFirst(it)
  {
  }

  function Append(a: Items, b: Items): Items {
    match a
    case Done => b
    case Leaf(tok, rest) => Leaf(tok, Append(rest, b))
    case Sub(name, npad, body, rest) => Sub(name, npad, body, Append(rest, b))
  }

  lemma {:induction false} ToksAppend(a: Items, b: Items)
    ensures Toks(Append(a, b)) == Toks(a) + Toks(b)
  {
    match a
    case Done =>
    case Leaf(tok, rest) => ToksAppend(rest, b);
    case Sub(name, npad, body, rest) =>
      ToksAppend(rest, b);
      RegroupTail([Begin(name, npad)], Toks(body), [EndNode], Toks(rest), Toks(b));
  }

  lemma RegroupTail<T>(a: seq<T>, b: seq<T>, c: seq<T>, d: seq<T>, e: seq<T>)
    ensures (a + (b + (c + d))) + e == a + (b + (c + (d + e)))
  {
  }

  // Meaning --------------------------------------------------------------------

  function NameOf(strs: seq<byte>, nameOff: u32): seq<byte> {
    match CStr(strs, nameOff)
    case Some(n) => n
    case None => []
  }

  function Props(it: Items, strs: seq<byte>): seq<Property> {
    match it
    case Done => []
    case Leaf(tok, rest) =>
      if tok.Prop? then [Property(NameOf(strs, tok.nameOff), tok.value)] + Props(rest, strs)
      else Props(rest, strs)
    case Sub(_, _, _, rest) => Props(rest, strs)
  }

  function Kids(it: Items, strs: seq<byte>): seq<Node> {
    match it
    case Done => []
    case Leaf(_, rest) => Kids(rest, strs)
    case Sub(name, _, body, rest) =>
      [Node(name, Props(body, strs), Kids(body, strs))] + Kids(rest, strs)
  }

  lemma {:induction false} MeaningAppend(a: Items, b: Items, strs: seq<byte>)
    ensures Props(Append(a, b), strs) == Props(a, strs) + Props(b, strs)
    ensures Kids(Append(a, b), strs) == Kids(a, strs) + Kids(b, strs)
  {
    match a
    case Done =>
    case Leaf(tok, rest) => MeaningAppend(rest, b, strs);
    case Sub(name, npad, body, rest) => MeaningAppend(rest, b, strs);
  }

  lemma {:induction false} NoPropsMeans(it: Items, strs: seq<byte>)
    requires NoProps(it)
    ensures Props(it, strs) == []
  {
    match it
    case Done =>
    case Leaf(_, rest) => NoPropsMeans(rest, strs);
    case Sub(_, _, _, rest) => NoPropsMeans(rest, strs);
  }

  // A longer strings block gives every resolved name its old meaning.
  lemma {:induction false} MeaningExtend(it: Items, strs: seq<byte>, more: seq<byte>)
    requires Resolved(it, strs)
    ensures Resolved(it, strs + more)
    ensures Props(it, strs + more) == Props(it, strs)
    ensures Kids(it, strs + more) == Kids(it, strs)
  {
    hide CStr;
    match it
    case Done =>
    case Leaf(tok, rest) =>
      if tok.Prop? {
        CStrExtend([], strs, more, tok.nameOff);
        assert [] + strs + more == strs + more;
      }
      MeaningExtend(rest, strs, more);
    case Sub(_, _, body, rest) =>
      MeaningExtend(body, strs, more);
      MeaningExtend(rest, strs, more);
  }

  // Addressing a node by the index of its BEGIN_NODE token -----------------------

  ghost predicate IsNode(it: Items, i: nat) {
    i < |Toks(it)| && Toks(it)[i].Begin?
  }

  // The node whose BEGIN_NODE is token i, without its siblings.
  function NodeAt(it: Items, i: nat): (n: Items)
    requires IsNode(it, i)
    ensures n.Sub? && n.rest == Done
  {
    match it
    case Leaf(_, rest) => NodeAt(rest, i - 1)
    case Sub(name, npad, body, rest) =>
      if i == 0 then Sub(name, npad, body, Done)
      else if i <= |Toks(body)| then NodeAt(body, i - 1)
      else NodeAt(rest, i - |Toks(body)| - 2)
  }

  // Put frag in the place of that node.
  function ReplaceAt(it: Items, i: nat, frag: Items): Items
    requires IsNode(it, i)
  {
    match it
    case Leaf(tok, rest) => Leaf(tok, ReplaceAt(rest, i - 1, frag))
    case Sub(name, npad, body, rest) =>
      if i == 0 then Append(frag, rest)
      else if i <= |Toks(body)| then Sub(name, npad, ReplaceAt(body, i - 1, frag), rest)
      else Sub(name, npad, body, ReplaceAt(rest, i - |Toks(body)| - 2, frag))
  }

  // Where the node sits in the tree: child positions from the top.
  function PathAt(it: Items, i: nat): (p: seq<nat>)
    requires IsNode(it, i)
    ensures |p| > 0
  {
    match it
    case Leaf(_, rest) => PathAt(rest, i - 1)
    case Sub(_, _, body, rest) =>
      if i == 0 then [0]
      else if i <= |Toks(body)| then [0] + PathAt(body, i - 1)
      else
        var q := PathAt(rest, i - |Toks(body)| - 2);
        [q[0] + 1] + q[1..]
  }

  lemma BesideNode(it: Items, j: nat)
    requires it.Sub? && IsNode(it.rest, j)
    ensures IsNode(it, j + |Toks(it.body)| + 2)
  {
    var a, b := [Begin(it.name, it.npad)] + (Toks(it.body) + [EndNode]), Toks(it.rest);
    assert Toks(it) == a + b;
    assert (a + b)[|a| + j] == b[j];
  }

  // Where a node is: in the rest behind a leaf, or this one, below it or beside it.
  lemma NodeSplit(it: Items, i: nat)
    requires IsNode(it, i)
    ensures !it.Done?
    ensures it.Leaf? ==> i > 0 && IsNode(it.rest, i - 1)
    ensures it.Sub? && 0 < i <= |Toks(it.body)| ==> IsNode(it.body, i - 1)
    ensures it.Sub? && i > |Toks(it.body)| ==> i >= |Toks(it.body)| + 2 && IsNode(it.rest, i - |Toks(it.body)| - 2)
  {
  }

  // The tokens in front of the addressed node and behind it.
  ghost function Before(it: Items, i: nat): seq<Token>
    requires IsNode(it, i)
  {
    match it
    case Leaf(tok, rest) => [tok] + Before(rest, i - 1)
    case Sub(name, npad, body, rest) =>
      if i == 0 then []
      else if i <= |Toks(body)| then [Begin(name, npad)] + Before(body, i - 1)
      else [Begin(name, npad)] + (Toks(body) + ([EndNode] + Before(rest, i - |Toks(body)| - 2)))
  }

  ghost function After(it: Items, i: nat): seq<Token>
    requires IsNode(it, i)
  {
    match it
    case Leaf(tok, rest) => After(rest, i - 1)
    case Sub(name, npad, body, rest) =>
      if i == 0 then Toks(rest)
      else if i <= |Toks(body)| then After(body, i - 1) + ([EndNode] + Toks(rest))
      else After(rest, i - |Toks(body)| - 2)
  }

  lemma RegroupBody<T>(b: seq<T>, x: seq<T>, n: seq<T>, y: seq<T>, z: seq<T>)
    ensures b + ((x + (n + y)) + z) == (b + x) + (n + (y + z))
  {
  }

  lemma RegroupRest<T>(b: seq<T>, c: seq<T>, e: seq<T>, x: seq<T>, n: seq<T>, y: seq<T>)
    ensures b + (c + (e + (x + (n + y)))) == (b + (c + (e + x))) + (n + y)
  {
  }

  lemma RegroupLeaf<T>(t: seq<T>, x: seq<T>, n: seq<T>, y: seq<T>)
    ensures t + (x + (n + y)) == (t + x) + (n + y)
  {
  }

  lemma {:induction false} ReplaceSelf(it: Items, i: nat)
    requires IsNode(it, i)
    ensures ReplaceAt(it, i, NodeAt(it, i)) == it
  {
    match it
    case Leaf(_, rest) => ReplaceSelf(rest, i - 1);
    case Sub(_, _, body, rest) =>
      if i == 0 {
        assert Append(Done, rest) == rest;
      } else {
        if i <= |Toks(body)| {
          ReplaceSelf(body, i - 1);
        } else {
          ReplaceSelf(rest, i - |Toks(body)| - 2);
        }
      }
  }

  lemma {:induction false} BeforeLength(it: Items, i: nat)
    requires IsNode(it, i)
    ensures |Before(it, i)| == i
  {
    hide Toks, IsNode;
    NodeSplit(it, i);
    match it
    case Leaf(_, rest) => BeforeLength(rest, i - 1);
    case Sub(_, _, body, rest) =>
      if i != 0 {
        if i <= |Toks(body)| {
          BeforeLength(body, i - 1);
        } else {
          BeforeLength(rest, i - |Toks(body)| - 2);
        }
      }
  }

  lemma {:induction false} ToksReplaced(it: Items, i: nat, frag: Items)
    requires IsNode(it, i)
    ensures Toks(ReplaceAt(it, i, frag)) == Before(it, i) + (Toks(frag) + After(it, i))
  {
    hide Toks, IsNode, ReplaceAt, Before, After;
    NodeSplit(it, i);
    ReplaceCases(it, i, frag);
    var n := Toks(frag);
    match it
    case Leaf(tok, rest) =>
      ToksReplaced(rest, i - 1, frag);
      RegroupLeaf([tok], Before(rest, i - 1), n, After(rest, i - 1));
    case Sub(name, npad, body, rest) =>
      var b, z := [Begin(name, npad)], [EndNode] + Toks(rest);
      if i == 0 {
        assert [] + (n + Toks(rest)) == n + Toks(rest);
      } else if i <= |Toks(body)| {
        ToksReplaced(body, i - 1, frag);
        RegroupBody(b, Before(body, i - 1), n, After(body, i - 1), z);
      } else {
        var j := i - |Toks(body)| - 2;
        ToksReplaced(rest, j, frag);
        RegroupRest(b, Toks(body), [EndNode], Before(rest, j), n, After(rest, j));
      }
  }

  // One step of the three functions.
  lemma ReplaceCases(it: Items, i: nat, frag: Items)
    requires IsNode(it, i)
    ensures it.Leaf? && i > 0 && IsNode(it.rest, i - 1) ==>
              && Toks(ReplaceAt(it, i, frag)) == [it.tok] + Toks(ReplaceAt(it.rest, i - 1, frag))
              && Before(it, i) == [it.tok] + Before(it.rest, i - 1) && After(it, i) == After(it.rest, i - 1)
    ensures it.Sub? && i == 0 ==>
              && Toks(ReplaceAt(it, i, frag)) == Toks(frag) + Toks(it.rest)
              && Before(it, i) == [] && After(it, i) == Toks(it.rest)
    ensures it.Sub? && 0 < i <= |Toks(it.body)| && IsNode(it.body, i - 1) ==>
              var b, z := [Begin(it.name, it.npad)], [EndNode] + Toks(it.rest);
              && Toks(ReplaceAt(it, i, frag)) == b + (Toks(ReplaceAt(it.body, i - 1, frag)) + z)
              && Before(it, i) == b + Before(it.body, i - 1) && After(it, i) == After(it.body, i - 1) + z
    ensures it.Sub? && i >= |Toks(it.body)| + 2 && IsNode(it.rest, i - |Toks(it.body)| - 2) ==>
              var j, b := i - |Toks(it.body)| - 2, [Begin(it.name, it.npad)];
              && Toks(ReplaceAt(it, i, frag)) == b + (Toks(it.body) + ([EndNode] + Toks(ReplaceAt(it.rest, j, frag))))
              && Before(it, i) == b + (Toks(it.body) + ([EndNode] + Before(it.rest, j)))
              && After(it, i) == After(it.rest, j)
  {
    if it.Sub? && i == 0 {
      ToksAppend(frag, it.rest);
    }
  }

  // The tokens of the addressed node are a contiguous run, and replacing the node
  // replaces exactly that run.
  lemma ToksReplace(it: Items, i: nat, frag: Items)
    requires IsNode(it, i)
    ensures var n := |Toks(NodeAt(it, i))|;
            && i + n <= |Toks(it)|
            && Toks(it)[i..i + n] == Toks(NodeAt(it, i))
            && Toks(ReplaceAt(it, i, frag)) == Splice(Toks(it), i, i + n, Toks(frag))
  {
    hide Toks, ReplaceAt, NodeAt, Before, After, IsNode;
    BeforeLength(it, i);
    ReplaceSelf(it, i);
    ToksReplaced(it, i, NodeAt(it, i));
    ToksReplaced(it, i, frag);
    Cut(Before(it, i), Toks(NodeAt(it, i)), After(it, i));
  }

  lemma Cut<T>(a: seq<T>, n: seq<T>, b: seq<T>)
    ensures var s := a + (n + b);
            s[..|a|] == a && s[|a|..|a| + |n|] == n && s[|a| + |n|..] == b
  {
  }

  // Replacement in the tree --------------------------------------------------------

  // Places below a node.
  predicate HasPath(t: Node, p: seq<nat>) {
    p == [] || (p[0] < |t.children| && HasPath(t.children[p[0]], p[1..]))
  }

  function Down(t: Node, p: seq<nat>): Node
    requires HasPath(t, p)
  {
    if p == [] then t else Down(t.children[p[0]], p[1..])
  }

  ghost predicate ValidPath(kids: seq<Node>, path: seq<nat>)
    decreases |path|
  {
    && |path| > 0
    && path[0] < |kids|
    && (|path| > 1 ==> ValidPath(kids[path[0]].children, path[1..]))
  }

  ghost function Lookup(kids: seq<Node>, path: seq<nat>): Node
    requires ValidPath(kids, path)
    decreases |path|
  {
    if |path| == 1 then kids[path[0]] else Lookup(kids[path[0]].children, path[1..])
  }

  // The forest with the node at path replaced by a list of nodes; all else is as before.
  ghost function Update(kids: seq<Node>, path: seq<nat>, repl: seq<Node>): seq<Node>
    requires ValidPath(kids, path)
    decreases |path|
  {
    var k := path[0];
    if |path| == 1 then kids[..k] + repl + kids[k + 1..]
    else
      var n := kids[k];
      kids[k := Node(n.name, n.props, Update(n.children, path[1..], repl))]
  }

  function Meaning(n: Items, strs: seq<byte>): Node
    requires n.Sub?
  {
    Node(n.name, Props(n.body, strs), Kids(n.body, strs))
  }

  lemma UpdateBelow(n: Node, kids: seq<Node>, path: seq<nat>, repl: seq<Node>)
    requires ValidPath(n.children, path)
    ensures ValidPath([n] + kids, [0] + path)
    ensures Lookup([n] + kids, [0] + path) == Lookup(n.children, path)
    ensures Update([n] + kids, [0] + path, repl)
         == [Node(n.name, n.props, Update(n.children, path, repl))] + kids
  {
    assert ([0] + path)[1..] == path;
    assert ([n] + kids)[0] == n;
  }

  lemma UpdateBeside(n: Node, kids: seq<Node>, path: seq<nat>, repl: seq<Node>)
    requires ValidPath(kids, path)
    ensures var p := [path[0] + 1] + path[1..];
            && ValidPath([n] + kids, p)
            && Lookup([n] + kids, p) == Lookup(kids, path)
            && Update([n] + kids, p, repl) == [n] + Update(kids, path, repl)
  {
    var p := [path[0] + 1] + path[1..];
    var k := path[0];
    assert p[1..] == path[1..];
    assert ([n] + kids)[k + 1] == kids[k];
    if |path| == 1 {
      assert ([n] + kids)[..k + 1] == [n] + kids[..k] && ([n] + kids)[k + 2..] == kids[k + 1..];
      Regroup([n], kids[..k], repl, kids[k + 1..]);
    } else {
      var y := Node(kids[k].name, kids[k].props, Update(kids[k].children, path[1..], repl));
      assert ([n] + kids)[k + 1 := y] == [n] + kids[k := y];
    }
  }

  lemma Regroup<T>(a: seq<T>, b: seq<T>, c: seq<T>, d: seq<T>)
    ensures (a + b) + c + d == a + (b + c + d)
  {
  }

  lemma UpdateHere(n: Node, kids: seq<Node>, repl: seq<Node>)
    ensures ValidPath([n] + kids, [0])
    ensures Lookup([n] + kids, [0]) == n
    ensures Update([n] + kids, [0], repl) == repl + kids
  {
    var ks := [n] + kids;
    assert ks[..0] == [] && ks[1..] == kids && ks[0] == n;
    assert [] + repl == repl;
  }

  lemma {:induction false} ReplaceKeepsProps(it: Items, i: nat, frag: Items, strs: seq<byte>)
    requires IsNode(it, i) && NoProps(frag)
    ensures Props(ReplaceAt(it, i, frag), strs) == Props(it, strs)
  {
    hide Toks, IsNode;
    NodeSplit(it, i);
    match it
    case Leaf(tok, rest) =>
      ReplaceKeepsProps(rest, i - 1, frag, strs);
    case Sub(name, npad, body, rest) =>
      if i == 0 {
        MeaningAppend(frag, rest, strs);
        NoPropsMeans(frag, strs);
      } else if i > |Toks(body)| {
        ReplaceKeepsProps(rest, i - |Toks(body)| - 2, frag, strs);
      }
  }

  // Replacing the node in the concrete syntax replaces the node in the tree.
  ghost predicate ReplacedInTree(it: Items, i: nat, frag: Items, strs: seq<byte>)
    requires IsNode(it, i)
  {
    var path := PathAt(it, i);
    && ValidPath(Kids(it, strs), path)
    && Lookup(Kids(it, strs), path) == Meaning(NodeAt(it, i), strs)
    && Kids(ReplaceAt(it, i, frag), strs) == Update(Kids(it, strs), path, Kids(frag, strs))
  }

  lemma {:induction false} ReplaceMeaning(it: Items, i: nat, frag: Items, strs: seq<byte>)
    requires IsNode(it, i) && NoProps(frag)
    ensures ReplacedInTree(it, i, frag, strs)
  {
    hide ReplacedInTree, Toks, IsNode, NoProps;
    NodeSplit(it, i);
    match it
    case Leaf(tok, rest) =>
      ReplaceMeaning(rest, i - 1, frag, strs);
      ReplaceBehind(it, i, frag, strs);
    case Sub(name, npad, body, rest) =>
      if i == 0 {
        ReplaceHere(it, frag, strs);
      } else if i <= |Toks(body)| {
        ReplaceMeaning(body, i - 1, frag, strs);
        ReplaceBelow(it, i, frag, strs);
      } else {
        ReplaceMeaning(rest, i - |Toks(body)| - 2, frag, strs);
        ReplaceBeside(it, i, frag, strs);
      }
  }

  lemma ReplaceBehind(it: Items, i: nat, frag: Items, strs: seq<byte>)
    requires it.Leaf? && i > 0 && IsNode(it, i) && IsNode(it.rest, i - 1) && ReplacedInTree(it.rest, i - 1, frag, strs)
    ensures ReplacedInTree(it, i, frag, strs)
  {
    hide Update, Lookup, ValidPath, Toks, IsNode, Props;
    assert ReplaceAt(it, i, frag) == Leaf(it.tok, ReplaceAt(it.rest, i - 1, frag));
  }

  lemma ReplaceHere(it: Items, frag: Items, strs: seq<byte>)
    requires it.Sub? && NoProps(frag)
    ensures ReplacedInTree(it, 0, frag, strs)
  {
    hide Update, Lookup, ValidPath, Kids, ReplaceAt, PathAt, Toks, Props;
    var n := Meaning(it, strs);
    HereParts(it, frag, strs);
    MeaningAppend(frag, it.rest, strs);
    UpdateHere(n, Kids(it.rest, strs), Kids(frag, strs));
  }

  lemma HereParts(it: Items, frag: Items, strs: seq<byte>)
    requires it.Sub?
    ensures Kids(it, strs) == [Meaning(it, strs)] + Kids(it.rest, strs)
    ensures IsNode(it, 0) && ReplaceAt(it, 0, frag) == Append(frag, it.rest) && PathAt(it, 0) == [0]
    ensures Meaning(NodeAt(it, 0), strs) == Meaning(it, strs)
  {
    hide Props;
  }

  lemma ReplaceBelow(it: Items, i: nat, frag: Items, strs: seq<byte>)
    requires it.Sub? && IsNode(it, i) && NoProps(frag) && 0 < i <= |Toks(it.body)|
    requires IsNode(it.body, i - 1) && ReplacedInTree(it.body, i - 1, frag, strs)
    ensures ReplacedInTree(it, i, frag, strs)
  {
    hide Update, Lookup, ValidPath, Kids, ReplaceAt, PathAt, Toks, NodeAt, IsNode, Props, NoProps;
    var b := ReplaceAt(it.body, i - 1, frag);
    var changed := Sub(it.name, it.npad, b, it.rest);
    BelowParts(it, i, frag);
    SubMeaning(it, strs);
    SubMeaning(changed, strs);
    ReplaceKeepsProps(it.body, i - 1, frag, strs);
    UpdateBelow(Meaning(it, strs), Kids(it.rest, strs), PathAt(it.body, i - 1), Kids(frag, strs));
  }

  lemma BelowParts(it: Items, i: nat, frag: Items)
    requires it.Sub? && IsNode(it, i) && 0 < i <= |Toks(it.body)| && IsNode(it.body, i - 1)
    ensures ReplaceAt(it, i, frag) == Sub(it.name, it.npad, ReplaceAt(it.body, i - 1, frag), it.rest)
    ensures PathAt(it, i) == [0] + PathAt(it.body, i - 1) && NodeAt(it, i) == NodeAt(it.body, i - 1)
  {
    hide Toks, IsNode;
  }

  lemma SubMeaning(it: Items, strs: seq<byte>)
    requires it.Sub?
    ensures Kids(it, strs) == [Meaning(it, strs)] + Kids(it.rest, strs)
  {
    hide Props;
  }

  lemma ReplaceBeside(it: Items, i: nat, frag: Items, strs: seq<byte>)
    requires it.Sub? && IsNode(it, i) && NoProps(frag) && i >= |Toks(it.body)| + 2
    requires var j := i - |Toks(it.body)| - 2;
             IsNode(it.rest, j) && ReplacedInTree(it.rest, j, frag, strs)
    ensures ReplacedInTree(it, i, frag, strs)
  {
    hide Update, Lookup, ValidPath, Kids, ReplaceAt, PathAt, Toks, NodeAt, IsNode, Props, NoProps;
    var j := i - |Toks(it.body)| - 2;
    var changed := Sub(it.name, it.npad, it.body, ReplaceAt(it.rest, j, frag));
    BesideParts(it, i, frag);
    SubMeaning(it, strs);
    SubMeaning(changed, strs);
    UpdateBeside(Meaning(it, strs), Kids(it.rest, strs), PathAt(it.rest, j), Kids(frag, strs));
  }

  lemma BesideParts(it: Items, i: nat, frag: Items)
    requires it.Sub? && IsNode(it, i) && i >= |Toks(it.body)| + 2 && IsNode(it.rest, i - |Toks(it.body)| - 2)
    ensures var j := i - |Toks(it.body)| - 2;
            && ReplaceAt(it, i, frag) == Sub(it.name, it.npad, it.body, ReplaceAt(it.rest, j, frag))
            && PathAt(it, i) == [PathAt(it.rest, j)[0] + 1] + PathAt(it.rest, j)[1..]
            && NodeAt(it, i) == NodeAt(it.rest, j)
  {
    hide Toks, IsNode;
  }

  // What replacement keeps ---------------------------------------------------------

  lemma {:induction false} AppendKeeps(a: Items, b: Items, ordered: bool)
    requires NoProps(a)
    ensures NoProps(b) ==> NoProps(Append(a, b))
    ensures WellNested(a, ordered) && WellNested(b, ordered) ==> WellNested(Append(a, b), ordered)
  {
    match a
    case Done =>
    case Leaf(_, rest) => AppendKeeps(rest, b, ordered);
    case Sub(_, _, _, rest) => AppendKeeps(rest, b, ordered);
  }

  lemma {:induction false} NodeAtKeeps(it: Items, i: nat, ordered: bool)
    requires IsNode(it, i) && WellNested(it, ordered)
    ensures WellNested(NodeAt(it, i), ordered)
  {
    match it
    case Leaf(_, rest) => NodeAtKeeps(rest, i - 1, ordered);
    case Sub(_, _, body, rest) =>
      if i != 0 {
        if i <= |Toks(body)| {
          NodeAtKeeps(body, i - 1, ordered);
        } else {
          NodeAtKeeps(rest, i - |Toks(body)| - 2, ordered);
        }
      }
  }

  lemma {:induction false} ReplaceKeepsOrder(it: Items, i: nat, frag: Items)
    requires IsNode(it, i) && NoProps(frag)
    ensures NoProps(it) ==> NoProps(ReplaceAt(it, i, frag))
    ensures PropsFirst(it) ==> PropsFirst(ReplaceAt(it, i, frag))
  {
    match it
    case Leaf(_, rest) => ReplaceKeepsOrder(rest, i - 1, frag);
    case Sub(_, _, body, rest) =>
      if i == 0 {
        AppendKeeps(frag, rest, true);
        if NoProps(rest) {
          NoPropsFirst(Append(frag, rest));
        }
      } else if i > |Toks(body)| {
        ReplaceKeepsOrder(rest, i - |Toks(body)| - 2, frag);
      }
  }

  lemma {:induction false} ReplaceKeeps(it: Items, i: nat, frag: Items, ordered: bool)
    requires IsNode(it, i) && WellNested(it, ordered) && WellNested(frag, ordered) && NoProps(frag)
    ensures WellNested(ReplaceAt(it, i, frag), ordered)
  {
    hide Token.Ok, Toks, IsNode;
    NodeSplit(it, i);
    match it
    case Leaf(_, rest) => ReplaceKeeps(rest, i - 1, frag, ordered);
    case Sub(_, _, body, rest) =>
      if i == 0 {
        AppendKeeps(frag, rest, ordered);
      } else if i <= |Toks(body)| {
        ReplaceKeeps(body, i - 1, frag, ordered);
        ReplaceKeepsOrder(body, i - 1, frag);
      } else {
        ReplaceKeeps(rest, i - |Toks(body)| - 2, frag, ordered);
      }
  }

  lemma {:induction false} AppendResolved(a: Items, b: Items, strs: seq<byte>)
    ensures Resolved(Append(a, b), strs) <==> Resolved(a, strs) && Resolved(b, strs)
  {
    match a
    case Done =>
    case Leaf(_, rest) => AppendResolved(rest, b, strs);
    case Sub(_, _, _, rest) => AppendResolved(rest, b, strs);
  }

  lemma {:induction false} ReplaceResolved(it: Items, i: nat, frag: Items, strs: seq<byte>)
    requires IsNode(it, i) && Resolved(it, strs)
    ensures Resolved(NodeAt(it, i), strs)
    ensures Resolved(frag, strs) ==> Resolved(ReplaceAt(it, i, frag), strs)
  {
    hide Toks, IsNode;
    NodeSplit(it, i);
    match it
    case Leaf(_, rest) =>
      ReplaceResolved(rest, i - 1, frag, strs);
    case Sub(name, npad, body, rest) =>
      if i == 0 {
        AppendResolved(frag, rest, strs);
      } else if i <= |Toks(body)| {
        ReplaceResolved(body, i - 1, frag, strs);
      } else {
        ReplaceResolved(rest, i - |Toks(body)| - 2, frag, strs);
      }
  }

  // Editing the contents of one node ------------------------------------------------

  // Token k of the contents is a property of the node itself.
  ghost predicate IsPropOf(body: Items, k: nat) {
    match body
    case Leaf(tok, rest) => if k == 0 then tok.Prop? else IsPropOf(rest, k - 1)
    case _ => false
  }

  // The number of properties in front of token k.
  ghost function PropRank(body: Items, k: nat): nat
    requires IsPropOf(body, k)
  {
    if k == 0 then 0
    else (if body.tok.Prop? then 1 else 0) + PropRank(body.rest, k - 1)
  }

  ghost function ReplaceProp(body: Items, k: nat, frag: Items): Items
    requires IsPropOf(body, k)
  {
    if k == 0 then Append(frag, body.rest) else Leaf(body.tok, ReplaceProp(body.rest, k - 1, frag))
  }

  ghost predicate OnlyLeaves(it: Items) {
    match it
    case Done => true
    case Leaf(_, rest) => OnlyLeaves(rest)
    case Sub(_, _, _, _) => false
  }

  lemma {:induction false} AppendLeaves(a: Items, b: Items, ordered: bool, strs: seq<byte>)
    requires OnlyLeaves(a)
    ensures PropsFirst(b) ==> PropsFirst(Append(a, b))
    ensures WellNested(a, ordered) && WellNested(b, ordered) ==> WellNested(Append(a, b), ordered)
    ensures Kids(a, strs) == []
  {
    match a
    case Done =>
    case Leaf(_, rest) => AppendLeaves(rest, b, ordered, strs);
  }

  lemma {:induction false} ReplacePropToks(body: Items, k: nat, frag: Items)
    requires IsPropOf(body, k)
    ensures k < |Toks(body)| && Toks(body)[k].Prop?
    ensures Toks(ReplaceProp(body, k, frag)) == Splice(Toks(body), k, k + 1, Toks(frag))
  {
    var tok, rest := body.tok, body.rest;
    assert Toks(body) == [tok] + Toks(rest);
    hide Splice;
    if k == 0 {
      ToksAppend(frag, rest);
      SpliceHead(tok, Toks(rest), Toks(frag));
    } else {
      ReplacePropToks(rest, k - 1, frag);
      SpliceCons(tok, Toks(rest), k - 1, k, Toks(frag));
    }
  }

  lemma {:induction false} ReplacePropMeaning(body: Items, k: nat, frag: Items, strs: seq<byte>)
    requires IsPropOf(body, k) && OnlyLeaves(frag)
    ensures var m := PropRank(body, k);
            && m < |Props(body, strs)|
            && Props(ReplaceProp(body, k, frag), strs)
               == Splice(Props(body, strs), m, m + 1, Props(frag, strs))
    ensures Kids(ReplaceProp(body, k, frag), strs) == Kids(body, strs)
  {
    hide Splice;
    var tok, rest := body.tok, body.rest;
    if k == 0 {
      MeaningAppend(frag, rest, strs);
      AppendLeaves(frag, rest, true, strs);
      SpliceHead(Property(NameOf(strs, tok.nameOff), tok.value), Props(rest, strs), Props(frag, strs));
    } else {
      ReplacePropMeaning(rest, k - 1, frag, strs);
      if tok.Prop? {
        var m := PropRank(rest, k - 1);
        var p := Property(NameOf(strs, tok.nameOff), tok.value);
        SpliceCons(p, Props(rest, strs), m, m + 1, Props(frag, strs));
      }
    }
  }

  lemma {:induction false} ReplacePropKeeps(body: Items, k: nat, frag: Items, ordered: bool, strs: seq<byte>)
    requires IsPropOf(body, k) && OnlyLeaves(frag)
    requires WellNested(body, ordered) && WellNested(frag, ordered) && PropsFirst(body)
    requires Resolved(body, strs) && Resolved(frag, strs)
    ensures WellNested(ReplaceProp(body, k, frag), ordered)
    ensures PropsFirst(ReplaceProp(body, k, frag))
    ensures Resolved(ReplaceProp(body, k, frag), strs)
  {
    if k == 0 {
      AppendLeaves(frag, body.rest, ordered, strs);
      AppendResolved(frag, body.rest, strs);
    } else {
      ReplacePropKeeps(body.rest, k - 1, frag, ordered, strs);
    }
  }
}
