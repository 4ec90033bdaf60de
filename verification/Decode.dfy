// The bytes of a blob determine its device tree.
module Decode {
  import opened Bytes
  import opened Tokens
  import opened Structure
  import opened Blobs
  import opened Check

  // Two tokens that encode to the beginning of the same bytes are the same token.
  lemma SameToken(s: seq<byte>, t: Token, u: Token)
    requires t.Ok() && u.Ok() && At(s, 0, t.Enc()) && At(s, 0, u.Enc())
    ensures t == u
  {
    hide Token.Enc, Token.Ok, At, Get32, NextTag;
    NextTagToken(s, 0, t);
    NextTagToken(s, 0, u);
    SameKind(t, u);
    if t.Begin? {
      BeginCells(s, 0, t);
      BeginCells(s, 0, u);
      SameBegin(s, t, u);
    } else if t.Prop? {
      PropCells(s, 0, t);
      PropCells(s, 0, u);
      SameProp(s, t, u);
    }
  }

  lemma SameKind(t: Token, u: Token)
    requires t.Tag() == u.Tag()
    ensures t.Begin? <==> u.Begin?
    ensures t.Prop? <==> u.Prop?
    ensures !t.Begin? && !t.Prop? ==> t == u
  {
  }

  lemma SameBegin(s: seq<byte>, t: Token, u: Token)
    requires t.Begin? && u.Begin? && t.name == u.name && |t.Enc()| == |u.Enc()|
    requires At(s, 0, t.Enc()) && At(s, 0, u.Enc())
    ensures t == u
  {
    hide At, Put32;
    assert t.Enc() == u.Enc() by { SameAt(s, t.Enc(), u.Enc()); }
    var front := Put32(BEGIN_NODE) + (t.name + [0]);
    assert t.Enc() == front + t.npad && u.Enc() == front + u.npad;
    assert t.npad == t.Enc()[|front|..] && u.npad == u.Enc()[|front|..];
  }

  lemma SameAt<T>(s: seq<T>, a: seq<T>, b: seq<T>)
    requires At(s, 0, a) && At(s, 0, b) && |a| == |b|
    ensures a == b
  {
  }

  lemma SameProp(s: seq<byte>, t: Token, u: Token)
    requires t.Prop? && u.Prop? && t.nameOff == u.nameOff && |t.value| == |u.value| && t.value == u.value
    requires |t.Enc()| == |u.Enc()| && At(s, 0, t.Enc()) && At(s, 0, u.Enc())
    ensures t == u
  {
    hide At, Put32;
    assert t.Enc() == u.Enc() by { SameAt(s, t.Enc(), u.Enc()); }
    var front := Put32(PROP) + (Put32(|t.value| % 0x1_0000_0000) + (Put32(t.nameOff) + t.value));
    assert t.Enc() == front + t.vpad && u.Enc() == front + u.vpad;
    assert t.vpad == t.Enc()[|front|..] && u.vpad == u.Enc()[|front|..];
  }

  lemma {:induction false} SameTokens(a: seq<Token>, b: seq<Token>)
    requires AllOk(a) && AllOk(b) && EncAll(a) == EncAll(b)
    ensures a == b
    decreases |a|
  {
    if a == [] || b == [] {
      assert a == b;
    } else {
      var s, x, y := EncAll(a), EncAll(a[1..]), EncAll(b[1..]);
      var t, u := a[0].Enc(), b[0].Enc();
      FirstPart(s, t, x);
      FirstPart(s, u, y);
      SameToken(s, a[0], b[0]);
      assert x == s[|t|..] && y == s[|u|..];
      SameTokens(a[1..], b[1..]);
      assert a == [a[0]] + a[1..] && b == [b[0]] + b[1..];
    }
  }

  lemma FirstPart<T>(s: seq<T>, t: seq<T>, x: seq<T>)
    requires s == t + x
    ensures At(s, 0, t) && s[|t|..] == x
  {
  }

  // A run of siblings and what follows it, told apart by the token that ends the run.
  lemma {:induction false} SameItems(a: Items, b: Items, e: Token, x: seq<Token>, y: seq<Token>)
    requires e.EndNode? || e.End?
    requires Toks(a) + ([e] + x) == Toks(b) + ([e] + y)
    ensures a == b && x == y
    decreases a
  {
    hide Toks;
    HeadOfRun(a, [e] + x);
    HeadOfRun(b, [e] + y);
    match a
    case Done =>
      assert b == Done;
      assert ([e] + x)[1..] == x && ([e] + y)[1..] == y;
    case Leaf(tok, rest) =>
      assert b.Leaf? && b.tok == tok;
      SameItems(rest, b.rest, e, x, y);
    case Sub(name, npad, body, rest) =>
      assert b.Sub? && b.name == name && b.npad == npad;
      SameItems(body, b.body, EndNode, Toks(rest) + ([e] + x), Toks(b.rest) + ([e] + y));
      SameItems(rest, b.rest, e, x, y);
  }

  // The first token of a run says what the run begins with.
  lemma HeadOfRun(it: Items, z: seq<Token>)
    requires z != []
    ensures var s := Toks(it) + z;
            && s != []
            && (it.Done? ==> s == z)
            && (it.Leaf? ==> s[0] == it.tok && s[1..] == Toks(it.rest) + z)
            && (it.Sub? ==> s[0] == Begin(it.name, it.npad)
                            && s[1..] == Toks(it.body) + ([EndNode] + (Toks(it.rest) + z)))
  {
    hide Toks;
    RunParts(it);
    if it.Done? {
      assert [] + z == z;
    } else if it.Leaf? {
      CutFirst(it.tok, Toks(it.rest), z);
    } else {
      var b := Begin(it.name, it.npad);
      CutFirst(b, Toks(it.body) + ([EndNode] + Toks(it.rest)), z);
      Reassociate(Toks(it.body), [EndNode], Toks(it.rest), z);
    }
  }

  lemma RunParts(it: Items)
    ensures it.Done? ==> Toks(it) == []
    ensures it.Leaf? ==> Toks(it) == [it.tok] + Toks(it.rest)
    ensures it.Sub? ==> Toks(it) == [Begin(it.name, it.npad)] + (Toks(it.body) + ([EndNode] + Toks(it.rest)))
  {
  }

  lemma CutFirst<T>(t: T, x: seq<T>, z: seq<T>)
    ensures ([t] + x + z)[0] == t && ([t] + x + z)[1..] == x + z
  {
  }

  lemma Reassociate<T>(a: seq<T>, b: seq<T>, c: seq<T>, z: seq<T>)
    ensures (a + (b + c)) + z == a + (b + (c + z))
  {
  }

  // Blobs with the same structure block have the same syntax, and so the same tree.
  lemma DecodeUnique(a: Items, b: Items, st: seq<byte>, strs: seq<byte>)
    requires Describes(a, st, strs) && Describes(b, st, strs)
    ensures a == b
  {
    hide EncAll, Toks, WellNested, NoProps, Resolved;
    StreamOk(a);
    StreamOk(b);
    SameTokens(Stream(a), Stream(b));
    assert Toks(a) + [End] == Toks(a) + ([End] + []) && Toks(b) + [End] == Toks(b) + ([End] + []);
    SameItems(a, b, End, [], []);
  }

  lemma TreeUnique(a: Image, b: Image)
    requires a.Valid() && b.Valid() && a.hdr == b.hdr && a.mem == b.mem
    ensures a.Tree() == b.Tree()
  {
    hide Describes, RsvCount;
    DecodeUnique(a.shape, b.shape, StructOf(a.hdr, a.mem), StringsOf(a.hdr, a.mem));
  }
}
