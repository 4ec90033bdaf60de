// fdt_check_full (fdt_check.c), and what it accepts.
module Check {
  import opened Bytes
  import opened Tokens
  import opened Structure
  import opened Memory
  import opened Blobs
  import opened Readers
  import opened Splicing
  import opened Editor
  import opened NodeEditor

  // The header --------------------------------------------------------------------------------

  predicate CheckOff(totalsize: u32, off: int) {
    HEADER_SIZE <= off <= totalsize
  }

  // check_block_, with its test for unsigned wrap-around
  predicate CheckBlock(totalsize: u32, base: u32, size: u32) {
    CheckOff(totalsize, base) && Add32(base, size) >= base && CheckOff(totalsize, Add32(base, size))
  }

  // fdt_check_header for versions of at least 17
  function HeaderCheck(h: Header): Result<()> {
    if h.magic != FDT_MAGIC then Failure(BadMagic)
    else if h.version < FIRST_SUPPORTED_VERSION || h.lastComp > LAST_SUPPORTED_VERSION then Failure(BadVersion)
    else if h.version < h.lastComp then Failure(BadVersion)
    else if h.totalsize < HEADER_SIZE || h.totalsize > INT32_MAX then Failure(Truncated)
    else if !CheckOff(h.totalsize, h.offRsv) then Failure(Truncated)
    else if !CheckBlock(h.totalsize, h.offStruct, h.sizeStruct) then Failure(Truncated)
    else if !CheckBlock(h.totalsize, h.offStrings, h.sizeStrings) then Failure(Truncated)
    else Success(())
  }

  // What a passed check means: three blocks behind the header and inside the blob, in any order.
  lemma HeaderCheckExact(h: Header)
    ensures HeaderCheck(h).Success? <==>
              (&& h.magic == FDT_MAGIC
               && FIRST_SUPPORTED_VERSION <= h.version && h.lastComp <= LAST_SUPPORTED_VERSION
               && h.lastComp <= h.version
               && HEADER_SIZE <= h.totalsize <= INT32_MAX
               && HEADER_SIZE <= h.offRsv <= h.totalsize
               && HEADER_SIZE <= h.offStruct && h.offStruct + h.sizeStruct <= h.totalsize
               && HEADER_SIZE <= h.offStrings && h.offStrings + h.sizeStrings <= h.totalsize)
    ensures HeaderCheck(h) == Failure(BadMagic) <==> h.magic != FDT_MAGIC
    ensures HeaderCheck(h) == Failure(BadVersion) <==>
              h.magic == FDT_MAGIC
              && (h.version < FIRST_SUPPORTED_VERSION || h.lastComp > LAST_SUPPORTED_VERSION || h.lastComp > h.version)
    ensures HeaderCheck(h).Failure? ==> HeaderCheck(h).error in {BadMagic, BadVersion, Truncated}
  {
    AddWraps(h.offStruct, h.sizeStruct);
    AddWraps(h.offStrings, h.sizeStrings);
  }

  // The walk ------------------------------------------------------------------------------------

  // The memory c begins with the readable bytes s; a name offset of a property on which the walk
  // stands may lie behind them, by less than two words.
  ghost predicate Reach(s: seq<byte>, c: seq<byte>) {
    |s| + 8 <= |c| && c[..|s|] == s
  }

  // What a loop without a bound comes to.
  datatype Outcome = Hangs | Returns(result: Result<()>)

  // The loop of fdt_check_full, on the readable bytes s and the strings block. Where a step goes
  // nowhere, nothing has changed when the next round begins.
  ghost function Walk(s: seq<byte>, c: seq<byte>, strs: seq<byte>, off: nat, depth: nat, expectEnd: bool): Outcome
    requires Reach(s, c) && off % 4 == 0
    decreases |s| + 8 - off
  {
    NextTagProgress(s, off);
    var t := NextTag(s, off);
    if t.next.Failure? then Returns(Failure(t.next.error))
    else if expectEnd && t.tag != END then Returns(Failure(BadStructure))
    else if t.tag == NOP then Walk(s, c, strs, t.next.value, depth, expectEnd)
    else if t.tag == END then Returns(if depth != 0 then Failure(BadStructure) else Success(()))
    else if t.tag == BEGIN_NODE then
      if depth + 1 > INT32_MAX then Returns(Failure(BadStructure))
      else if depth == 0 && s[off + 4] != 0 then Returns(Failure(BadStructure))
      else Walk(s, c, strs, t.next.value, depth + 1, expectEnd)
    else if t.tag == END_NODE then
      if depth == 0 then Returns(Failure(BadStructure))
      else Walk(s, c, strs, t.next.value, depth - 1, expectEnd || depth == 1)
    else
      var name := StringIn(strs, Get32(c, off + 8));
      if name.Failure? then Returns(Failure(name.error))
      else if StuckAt(s, off) then Hangs
      else Walk(s, c, strs, t.next.value, depth, expectEnd)
  }

  ghost predicate Passes(s: seq<byte>, c: seq<byte>, strs: seq<byte>, off: nat, depth: nat, expectEnd: bool)
    requires Reach(s, c) && off % 4 == 0
  {
    Walk(s, c, strs, off, depth, expectEnd) == Returns(Success(()))
  }

  // What passes ------------------------------------------------------------------------------------

  // How the tags of a run of siblings are nested. A Flat is a property or a NOP.
  datatype Nest = Nil | Flat(rest: Nest) | Nested(body: Nest, rest: Nest)

  // Where the tag that follows off is `tag`, the offset behind its token.
  function Past(s: seq<byte>, off: nat, tag: u32): Option<nat> {
    var t := NextTag(s, off);
    if t.next.Success? && t.tag == tag then Some(t.next.value) else None
  }

  // The offset behind a NOP, or behind a property of some extent whose name resolves.
  ghost function PastFlat(s: seq<byte>, c: seq<byte>, strs: seq<byte>, off: nat): Option<nat>
    requires Reach(s, c)
  {
    var prop := Past(s, off, PROP);
    if prop.None? then Past(s, off, NOP)
    else if !StuckAt(s, off) && StringIn(strs, Get32(c, off + 8)).Success? then prop
    else None
  }

  // The offset behind a run of siblings that is nested as n says.
  ghost function After(s: seq<byte>, c: seq<byte>, strs: seq<byte>, off: nat, n: Nest): Option<nat>
    requires Reach(s, c)
    decreases n, 0
  {
    match n
    case Nil => Some(off)
    case Flat(rest) =>
      (match PastFlat(s, c, strs, off)
       case None => None
       case Some(next) => After(s, c, strs, next, rest))
    case Nested(body, rest) =>
      (match BehindNode(s, c, strs, off, body)
       case None => None
       case Some(next) => After(s, c, strs, next, rest))
  }

  // The offset behind one node whose contents are nested as body says.
  ghost function BehindNode(s: seq<byte>, c: seq<byte>, strs: seq<byte>, off: nat, body: Nest): Option<nat>
    requires Reach(s, c)
    decreases body, 1
  {
    match Past(s, off, BEGIN_NODE)
    case None => None
    case Some(a) =>
      (match After(s, c, strs, a, body)
       case None => None
       case Some(b) => Past(s, b, END_NODE))
  }

  // Properties and NOPs, then at most one node, without a name, then FDT_END.
  ghost predicate Balanced(s: seq<byte>, c: seq<byte>, strs: seq<byte>, off: nat, n: Nest)
    requires Reach(s, c)
    decreases n
  {
    match n
    case Nil => Past(s, off, END).Some?
    case Flat(rest) =>
      var next := PastFlat(s, c, strs, off);
      next.Some? && Balanced(s, c, strs, next.value, rest)
    case Nested(body, rest) =>
      var next := BehindNode(s, c, strs, off, body);
      rest == Nil && next.Some? && s[off + 4] == 0 && Past(s, next.value, END).Some?
  }

  lemma PastWithin(s: seq<byte>, off: nat, tag: u32)
    requires off % 4 == 0 && Past(s, off, tag).Some? && (tag == PROP ==> !StuckAt(s, off))
    ensures var next := Past(s, off, tag).value; next % 4 == 0 && off + 4 <= next <= |s| + 3 && off + 4 <= |s|
    ensures tag == BEGIN_NODE ==> off + 8 <= Past(s, off, tag).value && off + 4 < |s|
  {
    hide NextTag, StuckAt;
    TagBounds(s, off);
  }

  lemma {:induction false} AfterWithin(s: seq<byte>, c: seq<byte>, strs: seq<byte>, off: nat, n: Nest)
    requires Reach(s, c) && off % 4 == 0 && After(s, c, strs, off, n).Some?
    ensures var e := After(s, c, strs, off, n).value; e % 4 == 0 && off <= e
    decreases n, 0
  {
    hide NextTag, Past, StuckAt;
    match n
    case Nil =>
    case Flat(rest) =>
      FlatWithin(s, c, strs, off);
      AfterWithin(s, c, strs, PastFlat(s, c, strs, off).value, rest);
    case Nested(body, rest) =>
      NodeWithin(s, c, strs, off, body);
      AfterWithin(s, c, strs, BehindNode(s, c, strs, off, body).value, rest);
  }

  lemma FlatWithin(s: seq<byte>, c: seq<byte>, strs: seq<byte>, off: nat)
    requires Reach(s, c) && off % 4 == 0 && PastFlat(s, c, strs, off).Some?
    ensures var e := PastFlat(s, c, strs, off).value; e % 4 == 0 && off + 4 <= e <= |s| + 3
  {
    hide NextTag, Past, StuckAt, StringIn, Get32, CStr;
    if Past(s, off, PROP).Some? { PastWithin(s, off, PROP); } else { PastWithin(s, off, NOP); }
  }

  lemma NodeWithin(s: seq<byte>, c: seq<byte>, strs: seq<byte>, off: nat, body: Nest)
    requires Reach(s, c) && off % 4 == 0 && BehindNode(s, c, strs, off, body).Some?
    ensures var a := Past(s, off, BEGIN_NODE).value;
            && a % 4 == 0 && off + 8 <= a && off + 4 < |s|
            && var b := After(s, c, strs, a, body).value;
            && b % 4 == 0 && a <= b && b + 4 <= |s| && BehindNode(s, c, strs, off, body) == Past(s, b, END_NODE)
    ensures var e := BehindNode(s, c, strs, off, body).value; e % 4 == 0 && off + 8 <= e <= |s| + 3
    decreases body, 1
  {
    hide NextTag, Past, StuckAt;
    PastWithin(s, off, BEGIN_NODE);
    var a := Past(s, off, BEGIN_NODE).value;
    AfterWithin(s, c, strs, a, body);
    PastWithin(s, After(s, c, strs, a, body).value, END_NODE);
  }

  // Nested tags pass ---------------------------------------------------------------------------------

  lemma WalkFlat(s: seq<byte>, c: seq<byte>, strs: seq<byte>, off: nat, depth: nat)
    requires Reach(s, c) && off % 4 == 0 && PastFlat(s, c, strs, off).Some?
    ensures var next := PastFlat(s, c, strs, off).value;
            next % 4 == 0 && Walk(s, c, strs, off, depth, false) == Walk(s, c, strs, next, depth, false)
  {
    hide NextTag, StuckAt, StringIn, Get32, CStr;
    FlatWithin(s, c, strs, off);
  }

  lemma WalkBegin(s: seq<byte>, c: seq<byte>, strs: seq<byte>, off: nat, depth: nat)
    requires Reach(s, c) && off % 4 == 0 && Past(s, off, BEGIN_NODE).Some? && depth < INT32_MAX
    requires depth == 0 ==> off + 4 < |s| && s[off + 4] == 0
    ensures var next := Past(s, off, BEGIN_NODE).value;
            next % 4 == 0 && Walk(s, c, strs, off, depth, false) == Walk(s, c, strs, next, depth + 1, false)
  {
    hide NextTag, StuckAt, StringIn, Get32, CStr;
    PastWithin(s, off, BEGIN_NODE);
  }

  lemma WalkEndNode(s: seq<byte>, c: seq<byte>, strs: seq<byte>, off: nat, depth: nat)
    requires Reach(s, c) && off % 4 == 0 && Past(s, off, END_NODE).Some? && depth > 0
    ensures var next := Past(s, off, END_NODE).value;
            next % 4 == 0 && Walk(s, c, strs, off, depth, false) == Walk(s, c, strs, next, depth - 1, depth == 1)
  {
    hide NextTag, StuckAt, StringIn, Get32, CStr;
    PastWithin(s, off, END_NODE);
  }

  lemma WalkEnd(s: seq<byte>, c: seq<byte>, strs: seq<byte>, off: nat, expectEnd: bool)
    requires Reach(s, c) && off % 4 == 0
    ensures expectEnd ==> (Passes(s, c, strs, off, 0, true) <==> Past(s, off, END).Some?)
    ensures Past(s, off, END).Some? ==> Passes(s, c, strs, off, 0, expectEnd)
  {
    hide NextTag, StuckAt, StringIn, Get32, CStr;
  }

  lemma {:induction false} WalkRun(s: seq<byte>, c: seq<byte>, strs: seq<byte>, off: nat, n: Nest, depth: nat)
    requires Reach(s, c) && off % 4 == 0 && |s| <= INT32_MAX && 0 < depth <= off
    requires After(s, c, strs, off, n).Some? && After(s, c, strs, off, n).value <= |s|
    ensures var e := After(s, c, strs, off, n).value;
            e % 4 == 0 && off <= e && Walk(s, c, strs, off, depth, false) == Walk(s, c, strs, e, depth, false)
    decreases n, 0
  {
    hide Walk, Past, PastFlat, Reach;
    AfterWithin(s, c, strs, off, n);
    match n
    case Nil =>
    case Flat(rest) =>
      WalkFlat(s, c, strs, off, depth);
      FlatWithin(s, c, strs, off);
      WalkRun(s, c, strs, PastFlat(s, c, strs, off).value, rest, depth);
    case Nested(body, rest) =>
      WalkNode(s, c, strs, off, body, depth);
      WalkRun(s, c, strs, BehindNode(s, c, strs, off, body).value, rest, depth);
  }

  lemma {:induction false} WalkNode(s: seq<byte>, c: seq<byte>, strs: seq<byte>, off: nat, body: Nest, depth: nat)
    requires Reach(s, c) && off % 4 == 0 && |s| <= INT32_MAX && depth <= off
    requires BehindNode(s, c, strs, off, body).Some?
    requires depth == 0 ==> off + 4 < |s| && s[off + 4] == 0
    ensures var e := BehindNode(s, c, strs, off, body).value;
            && e % 4 == 0 && off + 8 <= e
            && Walk(s, c, strs, off, depth, false) == Walk(s, c, strs, e, depth, depth == 0)
    decreases body, 1
  {
    hide Walk, Past, PastFlat, Reach, After;
    NodeWithin(s, c, strs, off, body);
    WalkBegin(s, c, strs, off, depth);
    var a := Past(s, off, BEGIN_NODE).value;
    WalkRun(s, c, strs, a, body, depth + 1);
    WalkEndNode(s, c, strs, After(s, c, strs, a, body).value, depth + 1);
  }

  lemma {:induction false} WalkTop(s: seq<byte>, c: seq<byte>, strs: seq<byte>, off: nat, n: Nest)
    requires Reach(s, c) && off % 4 == 0 && |s| <= INT32_MAX && Balanced(s, c, strs, off, n)
    ensures Passes(s, c, strs, off, 0, false)
    decreases n
  {
    hide Walk, Past, PastFlat, Reach, After;
    match n
    case Nil => WalkEnd(s, c, strs, off, false);
    case Flat(rest) =>
      WalkFlat(s, c, strs, off, 0);
      WalkTop(s, c, strs, PastFlat(s, c, strs, off).value, rest);
    case Nested(body, _) =>
      NodeWithin(s, c, strs, off, body);
      WalkNode(s, c, strs, off, body, 0);
      WalkEnd(s, c, strs, BehindNode(s, c, strs, off, body).value, true);
  }

  // What passes is nested ------------------------------------------------------------------------------

  // What one step of a walk that passes has seen, and where it goes on.
  lemma StepHere(s: seq<byte>, c: seq<byte>, strs: seq<byte>, off: nat, depth: nat) returns (tag: u32, next: nat)
    requires Reach(s, c) && off % 4 == 0 && Passes(s, c, strs, off, depth, false)
    ensures tag in {BEGIN_NODE, END_NODE, PROP, NOP, END} && Past(s, off, tag) == Some(next)
    ensures next % 4 == 0 && off + 4 <= next <= |s| + 3 && off + 4 <= |s|
    ensures tag == PROP || tag == NOP ==>
              PastFlat(s, c, strs, off) == Some(next) && Passes(s, c, strs, next, depth, false)
    ensures tag == END ==> depth == 0
    ensures tag == END_NODE ==> depth > 0 && Passes(s, c, strs, next, depth - 1, depth == 1)
    ensures tag == BEGIN_NODE ==> Passes(s, c, strs, next, depth + 1, false)
    ensures tag == BEGIN_NODE && depth == 0 ==> off + 4 < |s| && s[off + 4] == 0
  {
    hide StringIn, Get32, CStr, StuckAt, NextTag;
    tag, next := NextTag(s, off).tag, NextTag(s, off).next.value;
    TagKinds(s, off);
    PastWithin(s, off, tag);
  }

  lemma TagKinds(s: seq<byte>, off: nat)
    ensures NextTag(s, off).tag in {BEGIN_NODE, END_NODE, PROP, NOP, END}
  {
    hide NulAt, Get32;
  }

  // The contents of a node, up to the END_NODE that closes it.
  lemma {:induction false} NestBody(s: seq<byte>, c: seq<byte>, strs: seq<byte>, off: nat, depth: nat)
    returns (n: Nest, next: nat)
    requires Reach(s, c) && off % 4 == 0 && depth > 0 && Passes(s, c, strs, off, depth, false)
    ensures After(s, c, strs, off, n).Some? && Past(s, After(s, c, strs, off, n).value, END_NODE) == Some(next)
    ensures off < next && next % 4 == 0 && Passes(s, c, strs, next, depth - 1, depth == 1)
    decreases |s| + 3 - off
  {
    hide Passes, Past, PastFlat, Reach;
    var tag, a := StepHere(s, c, strs, off, depth);
    if tag == END_NODE {
      n, next := Nil, a;
    } else if tag == BEGIN_NODE {
      var body, b := NestBody(s, c, strs, a, depth + 1);
      var rest;
      rest, next := NestBody(s, c, strs, b, depth);
      n := Nested(body, rest);
    } else {
      var rest;
      rest, next := NestBody(s, c, strs, a, depth);
      n := Flat(rest);
    }
  }

  lemma {:induction false} NestTop(s: seq<byte>, c: seq<byte>, strs: seq<byte>, off: nat) returns (n: Nest)
    requires Reach(s, c) && off % 4 == 0 && Passes(s, c, strs, off, 0, false)
    ensures Balanced(s, c, strs, off, n)
    decreases |s| + 3 - off
  {
    hide Passes, Past, PastFlat, Reach;
    var tag, a := StepHere(s, c, strs, off, 0);
    if tag == END {
      n := Nil;
    } else if tag == BEGIN_NODE {
      var body, b := NestBody(s, c, strs, a, 1);
      WalkEnd(s, c, strs, b, true);
      n := Nested(body, Nil);
    } else {
      var rest := NestTop(s, c, strs, a);
      n := Flat(rest);
    }
  }

  ghost predicate BalancedTags(s: seq<byte>, c: seq<byte>, strs: seq<byte>)
    requires Reach(s, c)
  {
    exists n :: Balanced(s, c, strs, 0, n)
  }

  // On any bytes the walk succeeds exactly if the tags are balanced, with at most one root, which has
  // no name, FDT_END behind it, and names that resolve.
  lemma WalkExact(s: seq<byte>, c: seq<byte>, strs: seq<byte>)
    requires Reach(s, c) && |s| <= INT32_MAX
    ensures Passes(s, c, strs, 0, 0, false) <==> BalancedTags(s, c, strs)
  {
    hide Reach, Passes, Balanced;
    if Passes(s, c, strs, 0, 0, false) {
      var n := NestTop(s, c, strs, 0);
    }
    if n :| Balanced(s, c, strs, 0, n) {
      WalkTop(s, c, strs, 0, n);
    }
  }

  // Token streams ------------------------------------------------------------------------------------

  // No property met in going from tag to tag has a length above the largest C int.
  ghost predicate NoWrap(s: seq<byte>, off: nat)
    decreases |s| + 8 - off
  {
    NextTagProgress(s, off - off % 4);
    && off % 4 == 0
    && var t := NextTag(s, off);
       t.next.Success? && t.tag != END ==>
         && (t.tag == PROP ==> Get32(s, off + 4) <= INT32_MAX)
         && NoWrap(s, t.next.value)
  }

  // Properties and NOPs, then at most one node, without a name and with nothing behind it.
  ghost predicate TopLevel(top: Items) {
    match top
    case Done => true
    case Leaf(_, rest) => TopLevel(rest)
    case Sub(name, _, _, rest) => name == [] && rest == Done
  }

  // The bytes begin with the encoding of nested tokens and FDT_END, all property names resolve;
  // properties may also come behind subnodes.
  ghost predicate Accepted(s: seq<byte>, strs: seq<byte>, top: Items) {
    && TopLevel(top) && WellNested(top, false) && Resolved(top, strs)
    && At(s, 0, EncAll(Stream(top)))
  }

  lemma EncSub(it: Items)
    requires it.Sub?
    ensures EncAll(Toks(it))
         == Begin(it.name, it.npad).Enc() + (EncAll(Toks(it.body)) + (EndNode.Enc() + EncAll(Toks(it.rest))))
  {
    hide Token.Enc, Toks;
    var b, e := Begin(it.name, it.npad), EndNode;
    assert Toks(it) == [b] + (Toks(it.body) + ([e] + Toks(it.rest))) by { SubToksIs(it); }
    EncOne(b);
    EncOne(e);
    EncAllConcat([b], Toks(it.body) + ([e] + Toks(it.rest)));
    EncAllConcat(Toks(it.body), [e] + Toks(it.rest));
    EncAllConcat([e], Toks(it.rest));
  }

  lemma SubToksIs(it: Items)
    requires it.Sub?
    ensures Toks(it) == [Begin(it.name, it.npad)] + (Toks(it.body) + ([EndNode] + Toks(it.rest)))
  {
  }

  lemma EncLeaf(tok: LeafToken, rest: Items)
    ensures EncAll(Toks(Leaf(tok, rest))) == tok.Enc() + EncAll(Toks(rest))
  {
    hide Token.Enc;
    EncOne(tok);
    EncAllConcat([tok], Toks(rest));
  }

  lemma NoBytes()
    ensures EncAll(Toks(Done)) == []
  {
  }

  lemma SubCells(s: seq<byte>, off: nat, it: Items)
    requires it.Sub? && At(s, off, EncAll(Toks(it)))
    ensures var a := off + |Begin(it.name, it.npad).Enc()|;
            var b := a + |EncAll(Toks(it.body))|;
            && At(s, off, Begin(it.name, it.npad).Enc())
            && At(s, a, EncAll(Toks(it.body)))
            && At(s, b, EndNode.Enc()) && |EndNode.Enc()| == 4
            && At(s, b + 4, EncAll(Toks(it.rest)))
            && off + |EncAll(Toks(it))| == b + 4 + |EncAll(Toks(it.rest))|
  {
    hide EncAll, Toks, Token.Enc, At;
    EncSub(it);
    EndLength();
    AtFour(s, off, Begin(it.name, it.npad).Enc(), EncAll(Toks(it.body)), EndNode.Enc(), EncAll(Toks(it.rest)));
  }

  lemma EndLength()
    ensures |EndNode.Enc()| == 4
  {
  }

  lemma AtFour<T>(s: seq<T>, off: nat, t: seq<T>, x: seq<T>, e: seq<T>, y: seq<T>)
    ensures At(s, off, t + (x + (e + y))) <==>
              At(s, off, t) && At(s, off + |t|, x) && At(s, off + |t| + |x|, e) && At(s, off + |t| + |x| + |e|, y)
    ensures |t + (x + (e + y))| == |t| + |x| + |e| + |y|
  {
    hide At;
    AtConcat(s, off, t, x + (e + y));
    AtConcat(s, off + |t|, x, e + y);
    AtConcat(s, off + |t| + |x|, e, y);
  }

  function NestOf(it: Items): Nest {
    match it
    case Done => Nil
    case Leaf(_, rest) => Flat(NestOf(rest))
    case Sub(_, _, body, rest) => Nested(NestOf(body), NestOf(rest))
  }

  lemma ReachCell(s: seq<byte>, c: seq<byte>, off: nat)
    requires Reach(s, c) && off + 4 <= |s|
    ensures Get32(c, off) == Get32(s, off)
  {
    assert forall i :: 0 <= i < |s| ==> c[..|s|][i] == c[i];
  }

  lemma TokenPast(s: seq<byte>, off: nat, t: Token)
    requires off % 4 == 0 && t.Ok() && At(s, off, t.Enc())
    ensures Past(s, off, t.Tag()) == Some(off + |t.Enc()|) && (off + |t.Enc()|) % 4 == 0
    ensures forall tag: u32 :: tag != t.Tag() ==> Past(s, off, tag) == None
  {
    hide Token.Enc, Token.Ok, At, NextTag;
    NextTagToken(s, off, t);
    EncAligned(t);
  }

  lemma LeafPast(s: seq<byte>, c: seq<byte>, strs: seq<byte>, off: nat, t: LeafToken)
    requires Reach(s, c) && off % 4 == 0 && t.Ok() && At(s, off, t.Enc())
    requires t.Prop? ==> CStr(strs, t.nameOff).Some?
    ensures PastFlat(s, c, strs, off) == Some(off + |t.Enc()|) && (off + |t.Enc()|) % 4 == 0
  {
    hide Token.Enc, Token.Ok, At, NextTag, CStr, Get32, Reach, Past;
    TokenPast(s, off, t);
    if t.Prop? {
      PropCells(s, off, t);
      NotStuck(s, off, t);
      ReachCell(s, c, off + 8);
    }
  }

  lemma NotStuck(s: seq<byte>, off: nat, t: Token)
    requires off % 4 == 0 && t.Prop? && t.Ok() && At(s, off, t.Enc())
    ensures off + 12 <= |s| && !StuckAt(s, off)
  {
    hide Token.Enc, At, Get32;
    PropCells(s, off, t);
  }

  lemma {:induction false} EncodedNest(s: seq<byte>, c: seq<byte>, strs: seq<byte>, off: nat, it: Items)
    requires Reach(s, c) && off % 4 == 0 && At(s, off, EncAll(Toks(it))) && WellNested(it, false) && Resolved(it, strs)
    ensures After(s, c, strs, off, NestOf(it)) == Some(off + |EncAll(Toks(it))|)
    ensures (off + |EncAll(Toks(it))|) % 4 == 0
    decreases it
  {
    hide EncAll, Toks, Token.Enc, Token.Ok, At, CStr, Reach, Past, PastFlat;
    match it
    case Done => NoBytes();
    case Leaf(tok, rest) =>
      EncLeaf(tok, rest);
      AtConcat(s, off, tok.Enc(), EncAll(Toks(rest)));
      LeafPast(s, c, strs, off, tok);
      EncodedNest(s, c, strs, off + |tok.Enc()|, rest);
    case Sub(name, npad, body, rest) =>
      SubCells(s, off, it);
      EncodedNode(s, c, strs, off, it);
      EncodedNest(s, c, strs, off + |EncAll(Toks(it))| - |EncAll(Toks(rest))|, rest);
  }

  lemma {:induction false} EncodedNode(s: seq<byte>, c: seq<byte>, strs: seq<byte>, off: nat, it: Items)
    requires it.Sub? && Reach(s, c) && off % 4 == 0 && At(s, off, EncAll(Toks(it))) && WellNested(it, false)
    requires Resolved(it, strs)
    ensures var e := off + |EncAll(Toks(it))| - |EncAll(Toks(it.rest))|;
            e % 4 == 0 && e >= off && BehindNode(s, c, strs, off, NestOf(it.body)) == Some(e)
    decreases it, 0
  {
    hide EncAll, Toks, Token.Enc, Token.Ok, At, CStr, Reach, Past, PastFlat;
    SubCells(s, off, it);
    TokenPast(s, off, Begin(it.name, it.npad));
    var a := off + |Begin(it.name, it.npad).Enc()|;
    EncodedNest(s, c, strs, a, it.body);
    EndNodeOk();
    TokenPast(s, a + |EncAll(Toks(it.body))|, EndNode);
    TagNames(it.name, it.npad);
  }

  lemma EndNodeOk()
    ensures EndNode.Ok() && End.Ok()
  {
  }

  lemma TagNames(name: seq<byte>, npad: seq<byte>)
    ensures Begin(name, npad).Tag() == BEGIN_NODE && EndNode.Tag() == END_NODE && End.Tag() == END
  {
  }

  lemma NamelessHere(s: seq<byte>, off: nat, npad: seq<byte>)
    requires Begin([], npad).Ok() && At(s, off, Begin([], npad).Enc())
    ensures off + 4 < |s| && s[off + 4] == 0
  {
    hide Token.Enc, At, Get32;
    BeginCells(s, off, Begin([], npad));
  }

  lemma {:induction false} EncodedTop(s: seq<byte>, c: seq<byte>, strs: seq<byte>, off: nat, top: Items)
    requires Reach(s, c) && off % 4 == 0 && At(s, off, EncAll(Toks(top)) + End.Enc())
    requires TopLevel(top) && WellNested(top, false) && Resolved(top, strs)
    ensures Balanced(s, c, strs, off, NestOf(top))
    decreases top
  {
    hide EncAll, Toks, Token.Enc, Token.Ok, At, CStr, Reach, Past, PastFlat, BehindNode;
    AtConcat(s, off, EncAll(Toks(top)), End.Enc());
    NoBytes();
    EndNodeOk();
    TagNames([], []);
    match top
    case Done => TokenPast(s, off, End);
    case Leaf(tok, rest) =>
      EncLeaf(tok, rest);
      AtConcat(s, off, tok.Enc(), EncAll(Toks(rest)));
      LeafPast(s, c, strs, off, tok);
      AtConcat(s, off + |tok.Enc()|, EncAll(Toks(rest)), End.Enc());
      EncodedTop(s, c, strs, off + |tok.Enc()|, rest);
    case Sub(name, npad, body, rest) =>
      SubCells(s, off, top);
      NamelessHere(s, off, npad);
      EncodedNode(s, c, strs, off, top);
      TokenPast(s, off + |EncAll(Toks(top))|, End);
  }

  // Reading the tokens back --------------------------------------------------------------------------

  lemma Slices(s: seq<byte>, a: nat, b: nat)
    requires a <= b <= |s|
    ensures At(s, a, s[a..b])
  {
  }

  // Where a step over a tag ends inside the bytes, there is a token.
  lemma BeginHere(s: seq<byte>, off: nat) returns (t: Token)
    requires off % 4 == 0 && NextTag(s, off).tag == BEGIN_NODE
    requires NextTag(s, off).next.Success? && NextTag(s, off).next.value <= |s|
    ensures t.Begin? && t.Ok() && At(s, off, t.Enc()) && NextTag(s, off).next.value == off + |t.Enc()|
    ensures off + 4 < |s| && (s[off + 4] == 0 <==> t.name == [])
  {
    hide At, Get32, Put32, NextTag;
    BeginNext(s, off);
    var n, next := NulAt(s, off + 4), NextTag(s, off).next.value;
    var name, pad := s[off + 4..n], s[n + 1..next];
    t := Begin(name, pad);
    AlignShift(off + 4, |name| + 1);
    PutLength(BEGIN_NODE);
    Slices(s, off + 4, n);
    assert At(s, n, [0]) by { assert s[n..n + 1] == [0]; Slices(s, n, n + 1); }
    Slices(s, n + 1, next);
    AtConcat(s, off + 4, name, [0]);
    AtConcat(s, off + 4, name + [0], pad);
    AtConcat(s, off, Put32(BEGIN_NODE), (name + [0]) + pad);
  }

  lemma BeginNext(s: seq<byte>, off: nat)
    requires off % 4 == 0 && NextTag(s, off).tag == BEGIN_NODE && NextTag(s, off).next.Success?
    ensures off + 4 < |s| && At(s, off, Put32(BEGIN_NODE))
    ensures NulAt(s, off + 4) < |s| && NextTag(s, off).next.value == Align4(NulAt(s, off + 4) + 1)
  {
    hide At, Get32, Put32;
    GetIsAt(s, off, BEGIN_NODE);
  }

  lemma GetIsAt(s: seq<byte>, off: nat, w: u32)
    requires off + 4 <= |s| && Get32(s, off) == w
    ensures At(s, off, Put32(w))
  {
    PutGet32(s, off);
  }

  lemma PropHere(s: seq<byte>, off: nat) returns (t: Token)
    requires off % 4 == 0 && NextTag(s, off).tag == PROP && off + 8 <= |s| && Get32(s, off + 4) <= INT32_MAX
    requires NextTag(s, off).next.Success? && NextTag(s, off).next.value <= |s|
    ensures t.Prop? && t.Ok() && At(s, off, t.Enc()) && NextTag(s, off).next.value == off + |t.Enc()|
    ensures off + 12 <= |s| && t.nameOff == Get32(s, off + 8)
  {
    hide At, Get32, Put32, NextTag, Align4;
    var len, next := Get32(s, off + 4), NextTag(s, off).next.value;
    PropNext(s, off);
    AlignShift(off + 12, len);
    var value, pad := s[off + 12..off + 12 + len], s[off + 12 + len..next];
    t := Prop(Get32(s, off + 8), value, pad);
    GetIsAt(s, off, PROP);
    GetIsAt(s, off + 4, len);
    GetIsAt(s, off + 8, t.nameOff);
    Slices(s, off + 12, off + 12 + len);
    Slices(s, off + 12 + len, next);
    EncParts(s, off, t.nameOff, value, pad);
    EncLength(t);
  }

  lemma PropNext(s: seq<byte>, off: nat)
    requires NextTag(s, off).tag == PROP && off + 8 <= |s| && Get32(s, off + 4) <= INT32_MAX
    requires NextTag(s, off).next.Success?
    ensures off + 12 + Get32(s, off + 4) <= |s|
    ensures NextTag(s, off).next.value == Align4(off + 12 + Get32(s, off + 4)) && Get32(s, off) == PROP
  {
  }

  lemma TagHere(s: seq<byte>, off: nat, t: Token)
    requires t.EndNode? || t.Nop? || t.End?
    requires off % 4 == 0 && NextTag(s, off).next.Success? && NextTag(s, off).tag == t.Tag()
    ensures At(s, off, t.Enc()) && |t.Enc()| == 4 && NextTag(s, off).next.value == off + 4
  {
    hide At, Get32, Put32;
    GetIsAt(s, off, t.Tag());
  }

  lemma JoinLeaf(s: seq<byte>, off: nat, tok: LeafToken, rest: Items, tail: seq<byte>)
    requires At(s, off, tok.Enc()) && At(s, off + |tok.Enc()|, EncAll(Toks(rest)) + tail)
    ensures At(s, off, EncAll(Toks(Leaf(tok, rest))) + tail)
    ensures |EncAll(Toks(Leaf(tok, rest)))| == |tok.Enc()| + |EncAll(Toks(rest))|
  {
    hide EncAll, Toks, Token.Enc, At;
    EncLeaf(tok, rest);
    var y := EncAll(Toks(rest));
    AtConcat(s, off + |tok.Enc()|, y, tail);
    AtConcat(s, off, tok.Enc(), y);
    AtConcat(s, off, tok.Enc() + y, tail);
  }

  lemma StreamBytes(top: Items)
    ensures EncAll(Stream(top)) == EncAll(Toks(top)) + End.Enc()
  {
    hide Toks, Token.Enc;
    EncOne(End);
    EncAllConcat(Toks(top), [End]);
  }

  lemma NoWrapStep(s: seq<byte>, off: nat)
    requires NoWrap(s, off) && NextTag(s, off).next.Success?
    ensures off % 4 == 0
    ensures NextTag(s, off).tag != END ==> NoWrap(s, NextTag(s, off).next.value)
    ensures NextTag(s, off).tag == PROP ==> off + 8 <= |s| && Get32(s, off + 4) <= INT32_MAX
  {
    hide NulAt, Get32;
    if NextTag(s, off).tag == PROP { PropLong(s, off); }
  }

  lemma PropLong(s: seq<byte>, off: nat)
    requires NextTag(s, off).tag == PROP
    ensures off + 8 <= |s|
  {
  }

  lemma LeafHere(s: seq<byte>, c: seq<byte>, strs: seq<byte>, off: nat) returns (t: LeafToken)
    requires Reach(s, c) && NoWrap(s, off) && PastFlat(s, c, strs, off).Some? && PastFlat(s, c, strs, off).value <= |s|
    ensures t.Ok() && At(s, off, t.Enc()) && PastFlat(s, c, strs, off) == Some(off + |t.Enc()|) && |t.Enc()| >= 4
    ensures t.Prop? ==> CStr(strs, t.nameOff).Some?
    ensures NoWrap(s, off + |t.Enc()|)
  {
    hide NextTag, At, Token.Enc, NulAt, Get32, CStr, Token.Ok, NoWrap, Reach;
    NoWrapStep(s, off);
    NopOk();
    if Past(s, off, PROP).Some? {
      t := PropHere(s, off);
      ReachCell(s, c, off + 8);
    } else {
      t := Nop;
      TagHere(s, off, t);
    }
  }

  lemma NopOk()
    ensures Nop.Ok() && Nop.Tag() == NOP
  {
  }

  // Nested tags without a length that wraps are nested tokens.
  lemma {:induction false} ItemsOf(s: seq<byte>, c: seq<byte>, strs: seq<byte>, off: nat, n: Nest) returns (it: Items)
    requires Reach(s, c) && NoWrap(s, off) && off % 4 == 0
    requires After(s, c, strs, off, n).Some? && After(s, c, strs, off, n).value <= |s|
    ensures WellNested(it, false) && Resolved(it, strs) && At(s, off, EncAll(Toks(it)))
    ensures After(s, c, strs, off, n) == Some(off + |EncAll(Toks(it))|) && NoWrap(s, off + |EncAll(Toks(it))|)
    decreases n, 0
  {
    hide NoWrap, At, EncAll, Toks, Token.Enc, Token.Ok, CStr, PastFlat, Past, BehindNode, Reach;
    match n
    case Nil =>
      it := Done;
      NoBytes();
      AtNothing(s, off);
    case Flat(rest) =>
      FlatWithin(s, c, strs, off);
      AfterWithin(s, c, strs, PastFlat(s, c, strs, off).value, rest);
      var t := LeafHere(s, c, strs, off);
      var tail := ItemsOf(s, c, strs, off + |t.Enc()|, rest);
      it := Leaf(t, tail);
      EncLeaf(t, tail);
      AtConcat(s, off, t.Enc(), EncAll(Toks(tail)));
    case Nested(body, rest) =>
      NodeWithin(s, c, strs, off, body);
      AfterWithin(s, c, strs, BehindNode(s, c, strs, off, body).value, rest);
      var b, inner := NodeHere(s, c, strs, off, body);
      var next := BehindNode(s, c, strs, off, body).value;
      var tail := ItemsOf(s, c, strs, next, rest);
      it := Sub(b.name, b.npad, inner, tail);
      BuildSub(s, off, it);
  }

  lemma AtNothing(s: seq<byte>, off: nat)
    requires off <= |s|
    ensures At(s, off, [])
  {
  }

  lemma {:induction false} NodeHere(s: seq<byte>, c: seq<byte>, strs: seq<byte>, off: nat, body: Nest)
    returns (t: Token, inner: Items)
    requires Reach(s, c) && NoWrap(s, off) && off % 4 == 0
    requires BehindNode(s, c, strs, off, body).Some? && BehindNode(s, c, strs, off, body).value <= |s|
    ensures t.Begin? && t.Ok() && WellNested(inner, false) && Resolved(inner, strs)
    ensures off + 4 < |s| && (s[off + 4] == 0 <==> t.name == [])
    ensures NodeBytes(s, off, t, inner)
    ensures var e := BehindNode(s, c, strs, off, body).value;
            e == off + |t.Enc()| + |EncAll(Toks(inner))| + 4 && NoWrap(s, e)
    decreases body, 1
  {
    hide NoWrap, At, EncAll, Toks, Token.Enc, Token.Ok, CStr, PastFlat, After, Reach, NextTag;
    NodeWithin(s, c, strs, off, body);
    NoWrapStep(s, off);
    t := BeginHere(s, off);
    var a := off + |t.Enc()|;
    inner := ItemsOf(s, c, strs, a, body);
    var b := a + |EncAll(Toks(inner))|;
    NoWrapStep(s, b);
    EndNodeOk();
    TagNames([], []);
    TagHere(s, b, EndNode);
  }

  // The node opened by t with the contents inner, at off.
  ghost predicate NodeBytes(s: seq<byte>, off: nat, t: Token, inner: Items) {
    var a := off + |t.Enc()|;
    At(s, off, t.Enc()) && At(s, a, EncAll(Toks(inner))) && At(s, a + |EncAll(Toks(inner))|, EndNode.Enc())
  }

  lemma BuildSub(s: seq<byte>, off: nat, it: Items)
    requires it.Sub? && NodeBytes(s, off, Begin(it.name, it.npad), it.body)
    requires At(s, off + |Begin(it.name, it.npad).Enc()| + |EncAll(Toks(it.body))| + 4, EncAll(Toks(it.rest)))
    ensures At(s, off, EncAll(Toks(it)))
    ensures |EncAll(Toks(it))| == |Begin(it.name, it.npad).Enc()| + |EncAll(Toks(it.body))| + 4
            + |EncAll(Toks(it.rest))|
  {
    hide EncAll, Toks, Token.Enc, At;
    EncSub(it);
    EndLength();
    AtFour(s, off, Begin(it.name, it.npad).Enc(), EncAll(Toks(it.body)), EndNode.Enc(), EncAll(Toks(it.rest)));
  }

  lemma {:induction false} TopOf(s: seq<byte>, c: seq<byte>, strs: seq<byte>, off: nat, n: Nest) returns (top: Items)
    requires Reach(s, c) && NoWrap(s, off) && off % 4 == 0 && Balanced(s, c, strs, off, n)
    ensures TopLevel(top) && WellNested(top, false) && Resolved(top, strs)
    ensures At(s, off, EncAll(Toks(top)) + End.Enc())
    decreases n
  {
    hide NoWrap, At, EncAll, Toks, Token.Enc, Token.Ok, CStr, PastFlat, BehindNode, Reach, NextTag, After;
    NoBytes();
    match n
    case Nil =>
      top := Done;
      EndHere(s, off);
    case Flat(rest) =>
      FlatWithin(s, c, strs, off);
      BalancedWithin(s, c, strs, PastFlat(s, c, strs, off).value, rest);
      var t := LeafHere(s, c, strs, off);
      var tail := TopOf(s, c, strs, off + |t.Enc()|, rest);
      top := Leaf(t, tail);
      JoinLeaf(s, off, t, tail, End.Enc());
    case Nested(body, _) =>
      NodeWithin(s, c, strs, off, body);
      EndHere(s, BehindNode(s, c, strs, off, body).value);
      var b, inner := NodeHere(s, c, strs, off, body);
      top := Sub(b.name, b.npad, inner, Done);
      AtNothing(s, BehindNode(s, c, strs, off, body).value);
      BuildSub(s, off, top);
      AtConcat(s, off, EncAll(Toks(top)), End.Enc());
  }

  lemma EndHere(s: seq<byte>, off: nat)
    requires off % 4 == 0 && Past(s, off, END).Some?
    ensures off + 4 <= |s| && At(s, off, End.Enc()) && [] + End.Enc() == End.Enc()
  {
    hide NextTag, At;
    PastWithin(s, off, END);
    TagHere(s, off, End);
  }

  lemma BalancedWithin(s: seq<byte>, c: seq<byte>, strs: seq<byte>, off: nat, n: Nest)
    requires Reach(s, c) && off % 4 == 0 && Balanced(s, c, strs, off, n)
    ensures off + 4 <= |s|
  {
    hide PastFlat, BehindNode, Reach, NextTag, Past;
    match n
    case Nil => PastWithin(s, off, END);
    case Flat(rest) => FlatStart(s, c, strs, off);
    case Nested(body, _) => NodeWithin(s, c, strs, off, body);
  }

  lemma FlatStart(s: seq<byte>, c: seq<byte>, strs: seq<byte>, off: nat)
    requires Reach(s, c) && PastFlat(s, c, strs, off).Some?
    ensures off + 4 <= |s|
  {
    hide StringIn, Get32, CStr, StuckAt, Reach, NulAt;
  }

  // On an encoded stream all lengths fit.
  lemma {:induction false} NoWrapTokens(s: seq<byte>, ts: seq<Token>, i: nat)
    requires AllOk(ts) && At(s, 0, EncAll(ts)) && i < |ts| && ts[|ts| - 1] == End
    ensures NoWrap(s, Off(ts, i))
    decreases |ts| - i
  {
    hide At, EncAll, Token.Enc, Off, NextTag, Get32;
    NextTagAt(s, ts, i);
    if i + 1 < |ts| {
      NoWrapTokens(s, ts, i + 1);
    }
    assert ts[i].Ok();
    if ts[i].Prop? {
      PropCells(s, Off(ts, i), ts[i]);
    }
  }

  // The bytes are the encoding of an accepted structure exactly if the walk succeeds and no length
  // that it meets is above INT32_MAX.
  lemma AcceptedExact(s: seq<byte>, c: seq<byte>, strs: seq<byte>)
    requires Reach(s, c) && |s| <= INT32_MAX
    ensures (exists top :: Accepted(s, strs, top)) <==> Passes(s, c, strs, 0, 0, false) && NoWrap(s, 0)
  {
    hide Reach, Passes, Accepted, NoWrap, Balanced;
    WalkExact(s, c, strs);
    if top :| Accepted(s, strs, top) {
      AcceptedPasses(s, c, strs, top);
    }
    if n :| Balanced(s, c, strs, 0, n) && NoWrap(s, 0) {
      var top := TopOf(s, c, strs, 0, n);
      assert Accepted(s, strs, top) by { TopAccepted(s, strs, top); }
    }
  }

  lemma TopAccepted(s: seq<byte>, strs: seq<byte>, top: Items)
    requires TopLevel(top) && WellNested(top, false) && Resolved(top, strs) && At(s, 0, EncAll(Toks(top)) + End.Enc())
    ensures Accepted(s, strs, top)
  {
    hide EncAll, Toks, Token.Enc, At, Stream;
    StreamBytes(top);
  }

  lemma AcceptedPasses(s: seq<byte>, c: seq<byte>, strs: seq<byte>, top: Items)
    requires Reach(s, c) && |s| <= INT32_MAX && Accepted(s, strs, top)
    ensures Passes(s, c, strs, 0, 0, false) && NoWrap(s, 0)
  {
    hide EncAll, Toks, Token.Enc, At, Stream, Reach, Passes, NoWrap, Balanced, WellNested;
    StreamBytes(top);
    EncodedTop(s, c, strs, 0, top);
    WalkTop(s, c, strs, 0, NestOf(top));
    StreamFits(s, top);
  }

  lemma StreamFits(s: seq<byte>, top: Items)
    requires WellNested(top, false) && At(s, 0, EncAll(Stream(top)))
    ensures NoWrap(s, 0)
  {
    hide EncAll, At, NoWrap, WellNested, Toks;
    ToksOk(top, false);
    NoWrapTokens(s, Stream(top), 0);
    assert Off(Stream(top), 0) == 0 by { NothingBefore(Stream(top)); }
  }

  lemma NothingBefore(ts: seq<Token>)
    ensures Off(ts, 0) == 0
  {
  }

  // A length above INT32_MAX that passes: twelve and 0xfffffffc add up to a step of eight bytes, so
  // that the name offset of the property is read again as the tag of a NOP.
  function LongLength(): seq<byte> {
    Put32(BEGIN_NODE) + [0, 0, 0, 0] + Put32(PROP) + Put32(0xffff_fffc) + Put32(NOP) + Put32(END_NODE) + Put32(END)
  }

  lemma LongLengthPasses(c: seq<byte>)
    requires Reach(LongLength(), c)
    ensures Passes(LongLength(), c, [0, 0, 0, 0, 0], 0, 0, false)
    ensures !NoWrap(LongLength(), 0) && !exists top :: Accepted(LongLength(), [0, 0, 0, 0, 0], top)
  {
    hide Reach, Passes, Accepted, NoWrap;
    var s, strs := LongLength(), [0, 0, 0, 0, 0];
    assert |s| == 28;
    LongTags();
    LongBalanced(c);
    WalkExact(s, c, strs);
    assert !NoWrap(s, 0) by { LongWraps(); }
    AcceptedExact(s, c, strs);
  }

  lemma LongTags()
    ensures var s := LongLength();
            && |s| == 28 && s[4] == 0 && Get32(s, 12) == 0xffff_fffc && Get32(s, 16) == 4
            && NextTag(s, 0) == TagResult(BEGIN_NODE, Success(8)) && NextTag(s, 8) == TagResult(PROP, Success(16))
            && NextTag(s, 16) == TagResult(NOP, Success(20)) && NextTag(s, 20) == TagResult(END_NODE, Success(24))
            && NextTag(s, 24) == TagResult(END, Success(28))
  {
    hide Get32, LongLength;
    LongCells();
    assert NulAt(LongLength(), 4) == 4;
  }

  lemma LongCells()
    ensures var s := LongLength();
            && |s| == 28 && s[4] == 0 && Get32(s, 12) == 0xffff_fffc
            && Get32(s, 0) == BEGIN_NODE && Get32(s, 8) == PROP && Get32(s, 16) == NOP && Get32(s, 20) == END_NODE
            && Get32(s, 24) == END
  {
    var s := LongLength();
    assert s == [0, 0, 0, 1, 0, 0, 0, 0, 0, 0, 0, 3, 255, 255, 255, 252, 0, 0, 0, 4, 0, 0, 0, 2, 0, 0, 0, 9] by {
      LongWords();
    }
  }

  lemma LongWords()
    ensures Put32(BEGIN_NODE) == [0, 0, 0, 1] && Put32(PROP) == [0, 0, 0, 3]
    ensures Put32(0xffff_fffc) == [255, 255, 255, 252]
    ensures Put32(NOP) == [0, 0, 0, 4] && Put32(END_NODE) == [0, 0, 0, 2] && Put32(END) == [0, 0, 0, 9]
  {
  }

  lemma LongBalanced(c: seq<byte>)
    requires Reach(LongLength(), c)
    ensures Balanced(LongLength(), c, [0, 0, 0, 0, 0], 0, Nested(Flat(Flat(Nil)), Nil))
  {
    hide NextTag, LongLength, Get32, Reach, CStr;
    var s, strs := LongLength(), [0, 0, 0, 0, 0];
    LongTags();
    ReachCell(s, c, 16);
    LastName();
    assert PastFlat(s, c, strs, 8) == Some(16);
    assert PastFlat(s, c, strs, 16) == Some(20);
    assert After(s, c, strs, 8, Flat(Flat(Nil))) == Some(20);
  }

  lemma LastName()
    ensures CStr([0, 0, 0, 0, 0], 4).Some?
  {
  }

  lemma LongWraps()
    ensures !NoWrap(LongLength(), 0)
  {
    hide NextTag, LongLength, Get32;
    LongTags();
    assert !NoWrap(LongLength(), 8);
  }

  // The validator ------------------------------------------------------------------------------------

  // fdt_num_mem_rsv, for the blob at `at`
  method NumMemRsv(a: array<byte>, at: nat, h: Header) returns (r: Result<nat>)
    requires HEADER_SIZE <= h.totalsize <= INT32_MAX && at + h.totalsize <= a.Length
    requires h.offRsv <= h.totalsize
    ensures r == match RsvCount(a[at..at + h.totalsize], h.offRsv)
                 case None => Failure(Truncated)
                 case Some(n) => Success(n)
  {
    hide RsvCount;
    ghost var mem := a[at..at + h.totalsize];
    var i := 0;
    var abs := h.offRsv;
    while abs >= h.offRsv && abs <= h.totalsize - RSV_SIZE
      invariant abs == h.offRsv + 16 * i <= h.totalsize
      invariant RsvCount(mem, h.offRsv) == (match RsvCount(mem, abs) case None => None case Some(n) => Some(n + i))
      decreases h.totalsize - abs
    {
      RsvCountStep(mem, abs);
      assert mem[abs + 8..abs + 16] == a[at + abs + 8..at + abs + 16];
      if a[at + abs + 8..at + abs + 16] == [0, 0, 0, 0, 0, 0, 0, 0] {
        return Success(i);
      }
      i := i + 1;
      abs := Add32(h.offRsv, 16 * i);
    }
    RsvCountStep(mem, abs);
    return Failure(Truncated);
  }

  lemma RsvCountStep(mem: seq<byte>, off: nat)
    ensures RsvCount(mem, off)
         == if off + 16 > |mem| then None
            else if mem[off + 8..off + 16] == [0, 0, 0, 0, 0, 0, 0, 0] then Some(0)
            else match RsvCount(mem, off + 16) case None => None case Some(n) => Some(n + 1)
  {
  }

  // What has been found in order before the walk starts.
  predicate Checkable(h: Header, mem: seq<byte>, bufsize: nat) {
    && bufsize >= HEADER_SIZE && HeaderCheck(h).Success? && h.totalsize <= bufsize <= |mem|
    && h.offStruct + h.sizeStruct <= |mem| && h.offStrings + h.sizeStrings <= |mem|
    && RsvCount(mem[..h.totalsize], h.offRsv).Some?
  }

  // The memory from the structure block on; beyond is what follows the buffer.
  function MemFrom(h: Header, mem: seq<byte>, beyond: seq<byte>): seq<byte>
    requires h.offStruct + h.sizeStruct <= |mem|
  {
    mem[h.offStruct..] + beyond
  }

  lemma MemReach(h: Header, mem: seq<byte>, beyond: seq<byte>)
    requires h.offStruct + h.sizeStruct <= |mem| && |beyond| == 8
    ensures Reach(StructOf(h, mem), MemFrom(h, mem, beyond))
  {
  }

  // The walk over the structure block of a blob.
  ghost function WalkOf(h: Header, mem: seq<byte>, beyond: seq<byte>): Outcome
    requires h.offStruct + h.sizeStruct <= |mem| && h.offStrings + h.sizeStrings <= |mem| && |beyond| == 8
  {
    MemReach(h, mem, beyond);
    Walk(StructOf(h, mem), MemFrom(h, mem, beyond), StringsOf(h, mem), 0, 0, false)
  }

  // The tags in the structure block are balanced.
  ghost predicate BalancedIn(h: Header, mem: seq<byte>, beyond: seq<byte>)
    requires h.offStruct + h.sizeStruct <= |mem| && h.offStrings + h.sizeStrings <= |mem| && |beyond| == 8
  {
    MemReach(h, mem, beyond);
    BalancedTags(StructOf(h, mem), MemFrom(h, mem, beyond), StringsOf(h, mem))
  }

  // The structure block begins with the encoding of an accepted structure.
  ghost predicate AcceptedIn(h: Header, mem: seq<byte>)
    requires h.offStruct + h.sizeStruct <= |mem| && h.offStrings + h.sizeStrings <= |mem|
  {
    exists top :: Accepted(StructOf(h, mem), StringsOf(h, mem), top)
  }

  lemma WalkOfExact(h: Header, mem: seq<byte>, beyond: seq<byte>)
    requires h.offStruct + h.sizeStruct <= |mem| && h.offStrings + h.sizeStrings <= |mem| && |beyond| == 8
    requires h.sizeStruct <= INT32_MAX
    ensures WalkOf(h, mem, beyond) == Returns(Success(())) <==> BalancedIn(h, mem, beyond)
    ensures AcceptedIn(h, mem) <==> WalkOf(h, mem, beyond) == Returns(Success(())) && NoWrap(StructOf(h, mem), 0)
  {
    hide Walk, BalancedTags, Accepted, NoWrap, Reach;
    MemReach(h, mem, beyond);
    WalkExact(StructOf(h, mem), MemFrom(h, mem, beyond), StringsOf(h, mem));
    AcceptedExact(StructOf(h, mem), MemFrom(h, mem, beyond), StringsOf(h, mem));
  }

  // fdt_check_full, on input on which its loop ends: it succeeds exactly on a blob whose header and
  // reservation list are in order and whose tags are balanced. That is the encoding of an accepted
  // structure exactly if no property length is above INT32_MAX.
  method CheckFull(fdt: Blob, bufsize: nat, beyond: seq<byte>) returns (r: Result<()>)
    requires bufsize <= fdt.buf.Length && |beyond| == 8
    requires fdt.hdr.version >= 17 && fdt.hdr.totalsize < INT32_MAX
    requires Checkable(fdt.hdr, fdt.buf[..], bufsize) ==> WalkOf(fdt.hdr, fdt.buf[..], beyond) != Hangs
    ensures r.Success? <==> Checkable(fdt.hdr, fdt.buf[..], bufsize) && BalancedIn(fdt.hdr, fdt.buf[..], beyond)
    ensures Checkable(fdt.hdr, fdt.buf[..], bufsize) ==>
              && Returns(r) == WalkOf(fdt.hdr, fdt.buf[..], beyond)
              && (AcceptedIn(fdt.hdr, fdt.buf[..]) <==> r.Success? && NoWrap(StructOf(fdt.hdr, fdt.buf[..]), 0))
    ensures bufsize < HEADER_SIZE ==> r == Failure(Truncated)
    ensures bufsize >= HEADER_SIZE && HeaderCheck(fdt.hdr).Failure? ==> r == HeaderCheck(fdt.hdr)
    ensures bufsize >= HEADER_SIZE && HeaderCheck(fdt.hdr).Success? && !Checkable(fdt.hdr, fdt.buf[..], bufsize)
            ==> r == Failure(Truncated)
  {
    hide NoWrap, WalkOf, HeaderCheck, AcceptedIn, BalancedIn, RsvCount, CheckBlock;
    var h := fdt.hdr;
    if bufsize < 28 || bufsize < HEADER_SIZE {
      return Failure(Truncated);
    }
    HeaderCheckExact(h);
    var err := HeaderCheck(h);
    if err.Failure? {
      return err;
    }
    if bufsize < h.totalsize {
      return Failure(Truncated);
    }
    assert fdt.buf[0..0 + h.totalsize] == fdt.buf[..][..h.totalsize];
    var num := NumMemRsv(fdt.buf, 0, h);
    if num.Failure? {
      return Failure(num.error);
    }
    WalkOfExact(h, fdt.buf[..], beyond);
    r := CheckWalk(fdt, beyond);
    assert r.Success? ==> r.value == ();
  }

  lemma ReadableIs(fdt: Blob)
    requires fdt.hdr.totalsize <= fdt.buf.Length && fdt.hdr.offStruct + fdt.hdr.sizeStruct <= fdt.hdr.totalsize
    ensures fdt.Readable() == StructOf(fdt.hdr, fdt.buf[..])
  {
  }

  // fdt_get_string for the name offset of a property, which is converted to a C int
  method GetNameAt(fdt: Blob, nameoff: u32) returns (r: Result<seq<byte>>)
    requires fdt.hdr.magic == FDT_MAGIC && fdt.hdr.version >= 17 && fdt.hdr.lastComp <= LAST_SUPPORTED_VERSION
    requires fdt.hdr.offStrings + fdt.hdr.sizeStrings <= fdt.hdr.totalsize <= fdt.buf.Length
    requires fdt.hdr.totalsize < INT32_MAX
    ensures r == StringIn(StringsOf(fdt.hdr, fdt.buf[..]), nameoff)
  {
    hide StringLookup, CStr;
    StringLookupIn(fdt.hdr, fdt.buf[..], nameoff);
    if nameoff > INT32_MAX {
      FarName(fdt.hdr, fdt.buf[..], nameoff);
    }
    r := GetString(fdt, if nameoff <= INT32_MAX then nameoff else nameoff - 0x1_0000_0000);
  }

  lemma FarName(h: Header, mem: seq<byte>, nameoff: u32)
    requires h.magic == FDT_MAGIC && h.version >= 17 && h.lastComp <= LAST_SUPPORTED_VERSION
    requires h.offStrings + h.sizeStrings <= h.totalsize <= |mem| && h.totalsize < INT32_MAX && nameoff > INT32_MAX
    ensures StringLookup(h, mem, nameoff - 0x1_0000_0000) == Failure(BadOffset)
    ensures StringIn(StringsOf(h, mem), nameoff) == Failure(BadOffset)
  {
  }

  // The loop of fdt_check_full
  method CheckWalk(fdt: Blob, beyond: seq<byte>) returns (r: Result<()>)
    requires fdt.hdr.version >= 17 && fdt.hdr.totalsize < INT32_MAX && fdt.hdr.totalsize <= fdt.buf.Length
    requires HeaderCheck(fdt.hdr).Success? && |beyond| == 8
    requires fdt.hdr.offStruct + fdt.hdr.sizeStruct <= fdt.buf.Length
    requires fdt.hdr.offStrings + fdt.hdr.sizeStrings <= fdt.buf.Length
    requires WalkOf(fdt.hdr, fdt.buf[..], beyond) != Hangs
    ensures Returns(r) == WalkOf(fdt.hdr, fdt.buf[..], beyond)
  {
    hide NextTag, StringIn, StringLookup, CStr, Get32, CheckBlock, HeaderCheck;
    var h := fdt.hdr;
    HeaderCheckExact(h);
    ReadableIs(fdt);
    ghost var s, strs := fdt.Readable(), StringsOf(h, fdt.buf[..]);
    var c := fdt.buf[h.offStruct..] + beyond;
    assert c == MemFrom(h, fdt.buf[..], beyond);
    MemReach(h, fdt.buf[..], beyond);
    var nextoffset, depth, expectEnd := 0, 0, false;
    while true
      invariant nextoffset % 4 == 0 && Reach(s, c)
      invariant Walk(s, c, strs, nextoffset, depth, expectEnd) == WalkOf(h, fdt.buf[..], beyond) != Hangs
      decreases |s| + 8 - nextoffset
    {
      var offset := nextoffset;
      var tag, next := NextTagOf(fdt, offset);
      TagBounds(s, offset);
      if next.Failure? {
        return Failure(next.error);
      }
      if expectEnd && tag != END {
        return Failure(BadStructure);
      }
      if tag == END {
        if depth != 0 {
          return Failure(BadStructure);
        }
        return Success(());
      } else if tag == BEGIN_NODE {
        depth := depth + 1;
        if depth > INT32_MAX {
          return Failure(BadStructure);
        }
        if depth == 1 {
          if fdt.buf[h.offStruct + offset + 4] != 0 {
            return Failure(BadStructure);
          }
        }
      } else if tag == END_NODE {
        if depth == 0 {
          return Failure(BadStructure);
        }
        depth := depth - 1;
        if depth == 0 {
          expectEnd := true;
        }
      } else if tag == PROP {
        var nameoff := Get32(c, offset + 8);
        var name := GetNameAt(fdt, nameoff);
        if name.Failure? {
          return Failure(name.error);
        }
      }
      nextoffset := next.value;
    }
  }

  // What the validator says of a well-formed blob ------------------------------------------------------

  lemma {:induction false} RsvCountMore(mem: seq<byte>, a: nat, off: nat)
    requires a <= |mem| && RsvCount(mem[..a], off).Some?
    ensures RsvCount(mem, off) == RsvCount(mem[..a], off)
    decreases a - off
  {
    assert mem[..a][off + 8..off + 16] == mem[off + 8..off + 16];
    if mem[off + 8..off + 16] != [0, 0, 0, 0, 0, 0, 0, 0] {
      RsvCountMore(mem, a, off + 16);
    }
  }

  lemma {:induction false} OrderForgotten(it: Items)
    requires WellNested(it, true)
    ensures WellNested(it, false)
  {
    hide Token.Ok;
    match it
    case Done =>
    case Leaf(_, rest) => OrderForgotten(rest);
    case Sub(_, _, body, rest) =>
      OrderForgotten(body);
      OrderForgotten(rest);
  }

  // Every well-formed blob with one nameless root passes fdt_check_full.
  lemma ValidPasses(im: Image)
    requires im.Valid() && TopLevel(im.shape)
    ensures Checkable(im.hdr, im.mem, |im.mem|)
    ensures Accepted(StructOf(im.hdr, im.mem), StringsOf(im.hdr, im.mem), im.shape)
  {
    hide RsvCount, WellNested, Resolved, EncAll, Stream, TopLevel, HeaderCheck, NoProps;
    HeaderCheckExact(im.hdr);
    OrderForgotten(im.shape);
    var t := im.hdr.totalsize;
    assert im.mem[..t][..im.hdr.offStruct] == HeadOf(im.hdr, im.mem);
    RsvCountMore(im.mem[..t], im.hdr.offStruct, im.hdr.offRsv);
    WholeAt(StructOf(im.hdr, im.mem));
  }

  lemma ValidWalks(im: Image, beyond: seq<byte>)
    requires im.Valid() && TopLevel(im.shape) && |beyond| == 8
    ensures Checkable(im.hdr, im.mem, |im.mem|) && BalancedIn(im.hdr, im.mem, beyond)
    ensures WalkOf(im.hdr, im.mem, beyond) == Returns(Success(()))
  {
    hide Image.Valid, TopLevel, Accepted, BalancedIn, WalkOf, RsvCount, HeaderCheck;
    ValidPasses(im);
    assert AcceptedIn(im.hdr, im.mem);
    HeaderCheckExact(im.hdr);
    WalkOfExact(im.hdr, im.mem, beyond);
  }

  lemma WholeAt<T>(s: seq<T>)
    ensures At(s, 0, s)
  {
  }
}
