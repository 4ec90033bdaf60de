// The loops of fdt_next_node and nextprop_ on any bytes.
module Loops {
  import opened Bytes
  import opened Tokens
  import opened Structure
  import opened Scan
  import opened Blobs

  // The loop over nodes ------------------------------------------------------------------------------------

  // What a loop without a bound comes to.
  datatype Loop = Hangs | Ends(r: Result<nat>, depth: int)

  // The loop of fdt_next_node. At a property without extent the next round is the same again.
  ghost function NodeLoop(s: seq<byte>, off: nat, depth: int): Loop
    requires off % 4 == 0
    decreases |s| + 8 - off
  {
    NextTagProgress(s, off);
    var t := NextTag(s, off);
    if t.tag == END then Ends(if t.next.Success? then Failure(NotFound) else t.next, depth)
    else if t.tag == BEGIN_NODE then Ends(Success(off), depth + 1)
    else if t.tag == END_NODE then
      if depth - 1 < 0 then Ends(t.next, depth - 1) else NodeLoop(s, t.next.value, depth - 1)
    else if StuckAt(s, off) then Hangs
    else NodeLoop(s, t.next.value, depth)
  }

  // fdt_next_node
  ghost function NextNodeOn(s: seq<byte>, offset: int, depth: int): Loop {
    if offset < 0 then NodeLoop(s, 0, depth)
    else
      match NodeCheck(s, offset)
      case Failure(e) => Ends(Failure(e), depth)
      case Success(next) =>
        NodeCheckAligned(s, offset);
        NodeLoop(s, next, depth)
  }

  lemma NodeCheckAligned(s: seq<byte>, offset: nat)
    requires NodeCheck(s, offset).Success?
    ensures NodeCheck(s, offset).value % 4 == 0 && NodeCheck(s, offset).value >= offset + 8
  {
    hide Get32, NulAt;
    NextTagProgress(s, offset);
    TagBounds(s, offset);
  }

  // The loop hangs only at a property without extent behind its start.
  lemma {:induction false} LoopHangs(s: seq<byte>, off: nat, depth: int) returns (p: nat)
    requires off % 4 == 0 && NodeLoop(s, off, depth) == Hangs
    ensures off <= p && p % 4 == 0 && StuckAt(s, p)
    decreases |s| + 8 - off
  {
    hide NextTag, StuckAt;
    NextTagProgress(s, off);
    if StuckAt(s, off) { StuckProp(s, off); }
    var t := NextTag(s, off);
    if t.tag == END_NODE {
      p := LoopHangs(s, t.next.value, depth - 1);
    } else if StuckAt(s, off) {
      p := off;
    } else {
      p := LoopHangs(s, t.next.value, depth);
    }
  }

  // Where it ends: at the tag of a node, behind the end of one, or with an error.
  lemma {:induction false} LoopEnds(s: seq<byte>, off: nat, depth: int)
    requires off % 4 == 0 && NodeLoop(s, off, depth).Ends? && NodeLoop(s, off, depth).r.Success?
    ensures var found := NodeLoop(s, off, depth);
            && found.r.value >= off && found.r.value % 4 == 0
            && (depth >= 0 && found.depth >= 0 ==> NodeCheck(s, found.r.value).Success?)
    decreases |s| + 8 - off
  {
    hide NextTag, StuckAt;
    NextTagProgress(s, off);
    if StuckAt(s, off) { StuckProp(s, off); }
    var t := NextTag(s, off);
    if t.tag == END_NODE && depth - 1 >= 0 {
      LoopEnds(s, t.next.value, depth - 1);
    } else if t.tag != END && t.tag != BEGIN_NODE && t.tag != END_NODE && !StuckAt(s, off) {
      LoopEnds(s, t.next.value, depth);
    }
  }

  // On any bytes: without a property of no extent every call ends; and calls that go on from the result of the call
  // before come to larger and larger offsets, so that any run of them ends too.
  lemma NextNodeEnds(s: seq<byte>, offset: int, depth: int)
    ensures (forall p: nat :: p % 4 == 0 ==> !StuckAt(s, p)) ==> NextNodeOn(s, offset, depth).Ends?
    ensures var found := NextNodeOn(s, offset, depth);
            found.Ends? && found.r.Success? ==>
              && found.r.value > offset && found.r.value % 4 == 0
              && (depth >= 0 && found.depth >= 0 ==> NodeCheck(s, found.r.value).Success? && found.r.value + 4 < |s|)
  {
    hide NodeLoop, StuckAt, NodeCheck;
    var off: nat := 0;
    if offset >= 0 && NodeCheck(s, offset).Success? {
      NodeCheckAligned(s, offset);
      off := NodeCheck(s, offset).value;
    }
    if offset < 0 || NodeCheck(s, offset).Success? {
      if NodeLoop(s, off, depth) == Hangs {
        var p := LoopHangs(s, off, depth);
      } else if NodeLoop(s, off, depth).r.Success? {
        LoopEnds(s, off, depth);
        CheckedInside(s, NodeLoop(s, off, depth).r.value);
      }
    }
  }

  lemma CheckedInside(s: seq<byte>, n: nat)
    ensures NodeCheck(s, n).Success? ==> n + 4 < |s|
  {
    hide Get32;
  }

  // On an encoded stream the loop finds what the walk over its tokens finds.
  lemma {:induction false} LoopOnStream(shape: Items, st: seq<byte>, strs: seq<byte>, k: nat, depth: int)
    requires Describes(shape, st, strs) && k < |Stream(shape)|
    ensures Off(Stream(shape), k) % 4 == 0
    ensures NodeLoop(st, Off(Stream(shape), k), depth) ==
            match NextStep(Stream(shape), k, depth)
            case AtNode(j, d) => Ends(Success(Off(Stream(shape), j)), d)
            case Left(j, d) => Ends(Success(Off(Stream(shape), j)), d)
            case NoMore => Ends(Failure(NotFound), EndDepth(Stream(shape), k, depth))
    decreases |Stream(shape)| - k
  {
    hide Describes, Stream, Off, NextTag, At, Token.Enc, Token.Ok, StuckAt;
    var ts := Stream(shape);
    DescribedTag(shape, st, strs, k);
    StreamEnds(shape, k);
    if ts[k].EndNode? && depth - 1 >= 0 {
      LoopOnStream(shape, st, strs, k + 1, depth - 1);
    } else if ts[k].Prop? || ts[k].Nop? {
      NotStuckAt(st, Off(ts, k), ts[k], Off(ts, k + 1));
      LoopOnStream(shape, st, strs, k + 1, depth);
    }
  }

  // The depth at the end of the stream.
  function EndDepth(ts: seq<Token>, k: nat, depth: int): int
    decreases |ts| - k
  {
    if k >= |ts| then depth
    else if ts[k].EndNode? && depth - 1 >= 0 then EndDepth(ts, k + 1, depth - 1)
    else if ts[k].Prop? || ts[k].Nop? then EndDepth(ts, k + 1, depth)
    else depth
  }

  lemma NotStuckAt(s: seq<byte>, off: nat, t: Token, next: nat)
    requires off % 4 == 0 && t.Ok() && At(s, off, t.Enc()) && t.Tag() != BEGIN_NODE
    requires NextTag(s, off) == TagResult(t.Tag(), Success(next))
    ensures !StuckAt(s, off)
  {
    hide At, Token.Enc, Token.Ok, NextTag, StuckAt;
    NextTagToken(s, off, t);
    NextTagProgress(s, off);
  }

  // The loop over properties ----------------------------------------------------------------------------------

  // nextprop_: it only ever goes on behind a NOP, which always has an extent.
  function PropLoop(s: seq<byte>, off: nat): Result<nat>
    requires off % 4 == 0
    decreases |s| + 8 - off
  {
    NextTagProgress(s, off);
    var t := NextTag(s, off);
    if t.tag == END then (if t.next.Success? then Failure(BadStructure) else t.next)
    else if t.tag == PROP then Success(off)
    else if t.tag != NOP then Failure(NotFound)
    else
      NopLong(s, off);
      PropLoop(s, t.next.value)
  }

  lemma NopLong(s: seq<byte>, off: nat)
    requires NextTag(s, off).tag == NOP
    ensures NextTag(s, off).next.Success? && off < NextTag(s, off).next.value
  {
    hide Get32, NulAt;
  }

  // On any bytes the loop ends, at a property in front of which there are only NOPs or with an error.
  lemma {:induction false} PropLoopEnds(s: seq<byte>, off: nat)
    requires off % 4 == 0
    ensures var r := PropLoop(s, off);
            r.Success? ==> off <= r.value && PropCheck(s, r.value).Success? && r.value + 8 <= |s|
    decreases |s| + 8 - off
  {
    hide NextTag;
    NextTagProgress(s, off);
    var t := NextTag(s, off);
    if t.tag == NOP {
      NopLong(s, off);
      PropLoopEnds(s, t.next.value);
    } else if t.tag == PROP {
      PropInside(s, off);
    }
  }

  lemma PropInside(s: seq<byte>, off: nat)
    requires NextTag(s, off).tag == PROP
    ensures off + 8 <= |s| && NextTag(s, off).next.Success?
  {
    hide Get32, NulAt;
  }

  lemma {:induction false} PropsOnStream(shape: Items, st: seq<byte>, strs: seq<byte>, k: nat)
    requires Describes(shape, st, strs) && k < |Stream(shape)|
    ensures Off(Stream(shape), k) % 4 == 0
    ensures PropStepIs(Stream(shape), k, PropLoop(st, Off(Stream(shape), k)))
    decreases |Stream(shape)| - k
  {
    hide Describes, Stream, Off, NextTag, At, Token.Enc, Token.Ok;
    DescribedTag(shape, st, strs, k);
    StreamEnds(shape, k);
    if Stream(shape)[k].Nop? {
      NopLong(st, Off(Stream(shape), k));
      PropsOnStream(shape, st, strs, k + 1);
    }
  }
}
