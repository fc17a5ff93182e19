/** Printing names (sprintName and its helpers, types.go): a second, separately written reader of the same escapes. */
module Printing {
  import opened Bytes
  import opened Names
  import opened NameText

  /** nextByte: the character at offset and how much text it takes; nothing at the end or at a lone final backslash. */
  function NextByte(b: Bytes, offset: nat): (r: (byte, nat))
    requires offset < |b|
    ensures r.1 <= 4 && offset + r.1 <= |b|
  {
    if b[offset] != SLASH then (b[offset], 1)
    else if |b| - offset == 1 then (0, 0)
    else if |b| - offset >= 4 && IsDigit(b[offset + 1]) && IsDigit(b[offset + 2]) && IsDigit(b[offset + 3]) then
      (DddValue(b[offset + 1], b[offset + 2], b[offset + 3]), 4)
    else if b[offset + 1] == 't' as int then (TAB, 2)
    else if b[offset + 1] == 'r' as int then (CR, 2)
    else if b[offset + 1] == 'n' as int then (LF, 2)
    else (b[offset + 1], 2)
  }

  /** The two readers of escapes agree on every character. */
  lemma NextByteHead(b: Bytes, offset: nat)
    requires offset < |b|
    ensures b[offset..] != [SLASH] ==>
              NextByte(b, offset) == (Head(b[offset..]).0.b, Head(b[offset..]).1)
    ensures b[offset..] == [SLASH] <==> NextByte(b, offset).1 == 0
  {
    hide IsDigit, DddValue;
    var s := b[offset..];
    assert |s| == |b| - offset && s[0] == b[offset];
    if s[0] == SLASH && |s| >= 2 {
      assert s[1] == b[offset + 1];
      assert |s| >= 4 ==> s[2] == b[offset + 2] && s[3] == b[offset + 3];
      HeadEscape(s);
    }
  }

  function TxtByte(b: byte): (s: Bytes)
    ensures 1 <= |s| <= 4
  {
    if b == TAB then [SLASH, 't' as int]
    else if b == CR then [SLASH, 'r' as int]
    else if b == LF then [SLASH, 'n' as int]
    else if b == QUOTE || b == SLASH then [SLASH, b]
    else if b < 32 || b > 126 then [SLASH] + Ddd(b)
    else [b]
  }

  function DomainByte(b: byte): (s: Bytes)
    ensures 1 <= |s| <= 4
  {
    if b in [DOT, ' ' as int, 39, '@' as int, ';' as int, '(' as int, ')' as int] then [SLASH, b] else TxtByte(b)
  }

  /** How sprintName writes every byte that is not a dot: itself, behind a backslash, or by three decimal digits. */
  lemma DomainByteIs(b: byte)
    ensures DomainByte(b) == [b] <==> 33 <= b <= 126 && b !in {34, 39, 40, 41, 46, 59, 64, 92}
    ensures b in {32, 34, 39, 40, 41, 46, 59, 64, 92} ==> DomainByte(b) == [92, b]
    ensures b == 9 ==> DomainByte(b) == [92, 116]
    ensures b == 10 ==> DomainByte(b) == [92, 110]
    ensures b == 13 ==> DomainByte(b) == [92, 114]
    ensures (b < 32 && b != 9 && b != 10 && b != 13) || b >= 127 ==> DomainByte(b) == [92, 48 + b / 100, 48 + b / 10 % 10, 48 + b % 10]
  {
  }

  /** What sprintName makes of one character: an escaped dot stays one, but a dot given by number loses its escape. */
  function Piece(s: Bytes): (p: Bytes)
    requires s != [] && s != [SLASH]
    ensures p != []
  {
    if |s| >= 2 && s[0] == SLASH && s[1] == DOT then [SLASH, DOT]
    else if Head(s).0.b == DOT then [DOT]
    else DomainByte(Head(s).0.b)
  }

  function Printed(s: Bytes): (p: Bytes)
    decreases |s|
  {
    if s == [] || s == [SLASH] then [] else Piece(s) + Printed(s[Head(s).1..])
  }

  method SprintName(src: Bytes) returns (dst: Bytes)
    ensures dst == Printed(src)
  {
    hide Head, NextByte, DomainByte, Printed;
    dst := [];
    var i := 0;
    assert src[0..] == src;
    while i < |src|
      invariant 0 <= i <= |src| && Printed(src) == dst + Printed(src[i..])
      decreases |src| - i
    {
      PrintStep(src, i);
      NextByteHead(src, i);
      if i + 1 < |src| && src[i] == SLASH && src[i + 1] == DOT {
        dst := dst + src[i..i + 2];
        i := i + 2;
      } else {
        var (b, n) := NextByte(src, i);
        if n == 0 {
          i := i + 1; // dangling backslash
        } else if b == DOT {
          dst := dst + [b];
        } else {
          dst := dst + DomainByte(b);
        }
        i := i + n;
      }
    }
    assert src[i..] == [];
    PrintNothing();
  }

  lemma PrintNothing()
    ensures Printed([]) == []
  {
  }

  lemma PrintStep(src: Bytes, i: nat)
    requires i < |src|
    ensures src[i..] == [SLASH] ==> Printed(src[i..]) == [] && src[i + 1..] == []
    ensures Printed([]) == []
    ensures src[i..] != [SLASH] ==>
              var n := Head(src[i..]).1;
              && i + n <= |src|
              && Printed(src[i..]) == Piece(src[i..]) + Printed(src[i + n..])
    ensures i + 1 < |src| && src[i] == SLASH && src[i + 1] == DOT ==>
              Head(src[i..]).1 == 2 && Piece(src[i..]) == src[i..i + 2]
    ensures !(i + 1 < |src| && src[i] == SLASH && src[i + 1] == DOT) && src[i..] != [SLASH] ==>
              Piece(src[i..]) == if Head(src[i..]).0.b == DOT then [DOT] else DomainByte(Head(src[i..]).0.b)
  {
    var s := src[i..];
    assert s[0] == src[i];
    if s != [SLASH] {
      assert src[i + Head(s).1..] == s[Head(s).1..];
    }
    if |s| >= 2 {
      assert s[1] == src[i + 1];
      if s[0] == SLASH && s[1] == DOT {
        HeadEscape(s);
      }
    }
    hide Printed, Head, DomainByte;
  }

  // ----- what printing keeps -----

  /** The characters of a name, each marked if it separates labels. Packing depends on nothing else. */
  function Meaning(s: Bytes): (m: seq<(byte, bool)>)
    decreases |s|
  {
    if s == [] || s == [SLASH] then [] else [(Head(s).0.b, IsSep(Head(s).0))] + Meaning(s[Head(s).1..])
  }

  /** Somewhere in s a three-digit escape stands for a dot: \046, or \302, \558, \814, whose values wrap around to 46. */
  predicate NumericDot(s: Bytes)
    decreases |s|
  {
    s != [] && s != [SLASH] && (Head(s) == (Tok(DOT, true), 4) || NumericDot(s[Head(s).1..]))
  }

  /** A printed character is read back as itself, escapes and all. */
  lemma HeadDomainByte(b: byte, rest: Bytes)
    requires b != DOT
    ensures var s := DomainByte(b) + rest;
            s != [SLASH] && Head(s).0.b == b && Head(s).1 == |DomainByte(b)|
  {
    var s := DomainByte(b) + rest;
    if b in [' ' as int, 39, '@' as int, ';' as int, '(' as int, ')' as int, QUOTE, SLASH] {
      assert s[0] == SLASH && s[1] == b;
      HeadEscape(s);
    } else if b == TAB || b == CR || b == LF {
      assert s[0] == SLASH;
      HeadEscape(s);
    } else if b < 32 || b > 126 {
      var d := Ddd(b);
      hide Ddd, DddValue, Head;
      assert s == [SLASH] + d + rest;
      assert s[0] == SLASH && s[1] == d[0] && s[2] == d[1] && s[3] == d[2];
      HeadEscape(s);
    } else {
      assert s[0] == b;
    }
  }

  /** One piece in front: its character is read back, with its role unless it is a dot given by number. */
  lemma PieceRead(s: Bytes, rest: Bytes)
    requires s != [] && s != [SLASH]
    ensures var p := Piece(s) + rest;
            && p != [SLASH] && Head(p).0.b == Head(s).0.b && Head(p).1 == |Piece(s)|
            && (IsSep(Head(p).0) <==> IsSep(Head(s).0) || Head(s) == (Tok(DOT, true), 4))
            && Piece(p) == Piece(s)
  {
    var p := Piece(s) + rest;
    if |s| >= 2 && s[0] == SLASH {
      HeadEscape(s);
    }
    if |s| >= 2 && s[0] == SLASH && s[1] == DOT {
      assert p[0] == SLASH && p[1] == DOT;
      HeadEscape(p);
    } else if Head(s).0.b == DOT {
      assert p[0] == DOT;
      assert Piece(p) == [DOT];
    } else {
      var b := Head(s).0.b;
      HeadDomainByte(b, rest);
      hide Head, DomainByte;
      assert !(|p| >= 2 && p[0] == SLASH && p[1] == DOT) by { DotPiece(p); }
    }
  }

  lemma DotPiece(p: Bytes)
    requires p != [] && p != [SLASH] && Head(p).0.b != DOT
    ensures !(|p| >= 2 && p[0] == SLASH && p[1] == DOT)
  {
    if |p| >= 2 && p[0] == SLASH && p[1] == DOT {
      HeadEscape(p);
    }
  }

  /** Main result: printing keeps every character and its role exactly when no dot is given by number. */
  lemma {:induction false} PrintedMeaning(s: Bytes)
    ensures Meaning(Printed(s)) == Meaning(s) <==> !NumericDot(s)
    ensures |Meaning(Printed(s))| == |Meaning(s)|
    decreases |s|
  {
    if s != [] && s != [SLASH] {
      hide Head, Piece;
      var rest := Printed(s[Head(s).1..]);
      PieceRead(s, rest);
      PrintedMeaning(s[Head(s).1..]);
      assert (Piece(s) + rest)[|Piece(s)|..] == rest;
      var x, y := [(Head(Printed(s)).0.b, IsSep(Head(Printed(s)).0))], [(Head(s).0.b, IsSep(Head(s).0))];
      ConsEqual(x, Meaning(rest), y, Meaning(s[Head(s).1..]));
    }
  }

  lemma ConsEqual<T>(x: seq<T>, a: seq<T>, y: seq<T>, b: seq<T>)
    requires |x| == |y| == 1
    ensures x + a == y + b <==> x == y && a == b
  {
    assert (x + a)[..1] == x && (x + a)[1..] == a && (y + b)[..1] == y && (y + b)[1..] == b;
  }

  /** Printing twice prints the same. */
  lemma {:induction false} PrintedTwice(s: Bytes)
    ensures Printed(Printed(s)) == Printed(s)
    decreases |s|
  {
    if s != [] && s != [SLASH] {
      hide Head, Piece;
      var rest := Printed(s[Head(s).1..]);
      PieceRead(s, rest);
      PrintedTwice(s[Head(s).1..]);
      assert (Piece(s) + rest)[|Piece(s)|..] == rest;
    }
  }

  /** The printed form of a name with its closing dot has one too. */
  lemma {:induction false} PrintedEnd(s: Bytes)
    requires s != [] && s[|s| - 1] == DOT
    ensures Printed(s) != [] && Printed(s)[|Printed(s)| - 1] == DOT
    decreases |s|
  {
    var n := Head(s).1;
    var rest := s[n..];
    if rest == [] {
      PieceEnd(s);
      PrintNothing();
    } else {
      PrintedEnd(rest);
    }
  }

  lemma PieceEnd(s: Bytes)
    requires s != [] && s[|s| - 1] == DOT && Head(s).1 == |s|
    ensures Piece(s)[|Piece(s)| - 1] == DOT
  {
    if |s| >= 2 && s[0] == SLASH {
      HeadEscape(s);
    }
  }

  lemma MeaningEmpty(s: Bytes)
    ensures Meaning(s) == [] <==> s == [] || s == [SLASH]
  {
  }

  /** The labels of a name depend on its meaning only. */
  lemma {:induction false} FieldsByMeaning(s: Bytes, t: Bytes, cur: Bytes)
    requires Meaning(s) == Meaning(t)
    ensures Fields(Tokens(s), cur) == Fields(Tokens(t), cur)
    decreases |s|
  {
    hide Head;
    MeaningEmpty(s);
    MeaningEmpty(t);
    if s != [] && s != [SLASH] {
      var s', t' := s[Head(s).1..], t[Head(t).1..];
      ConsEqual([(Head(s).0.b, IsSep(Head(s).0))], Meaning(s'), [(Head(t).0.b, IsSep(Head(t).0))], Meaning(t'));
      assert [(Head(s).0.b, IsSep(Head(s).0))][0] == [(Head(t).0.b, IsSep(Head(t).0))][0];
      FieldsCons(Head(s).0, Tokens(s'), cur);
      FieldsCons(Head(t).0, Tokens(t'), cur);
      FieldsByMeaning(s', t', if IsSep(Head(s).0) then [] else cur + [Head(s).0.b]);
    }
  }

  /** Every dot given by number becomes one separator more. */
  lemma {:induction false} PrintedSeparators(s: Bytes)
    ensures Separators(Tokens(Printed(s))) >= Separators(Tokens(s))
    ensures Separators(Tokens(Printed(s))) == Separators(Tokens(s)) <==> !NumericDot(s)
    decreases |s|
  {
    hide Head, Piece;
    if s != [] && s != [SLASH] {
      var tail := s[Head(s).1..];
      var rest := Printed(tail);
      PieceRead(s, rest);
      PrintedSeparators(tail);
      assert (Piece(s) + rest)[|Piece(s)|..] == rest;
      SeparatorsCons(Head(s).0, Tokens(tail));
      SeparatorsCons(Head(Piece(s) + rest).0, Tokens(rest));
    } else {
      assert Printed(s) == [] && Tokens([]) == [];
    }
  }

  lemma SeparatorsCons(t: Tok, ts: seq<Tok>)
    ensures Separators([t] + ts) == (if IsSep(t) then 1 else 0) + Separators(ts)
  {
    assert ([t] + ts)[1..] == ts;
  }

  /**
    Main result: a name with its closing dot and no dot given by number packs to the same bytes, or fails alike,
    before and after printing. A name that packs and has such a dot does not: printed, it packs to other bytes if at all.
    */
  lemma PrintedPacksAlike(s: Bytes, off: nat, lenmsg: nat, cmap: CMap)
    requires s != [] && s[|s| - 1] == DOT
    requires off + |s| + 1 <= lenmsg && off + |Printed(s)| + 1 <= lenmsg
    ensures !NumericDot(s) ==> PackName(Printed(s), off, lenmsg, cmap, false) == PackName(s, off, lenmsg, cmap, false)
    ensures var p, r := PackName(s, off, lenmsg, cmap, false), PackName(Printed(s), off, lenmsg, cmap, false);
            p.Packed? ==> (r.Packed? && r.bytes == p.bytes <==> !NumericDot(s))
  {
    hide PackName, Fields, Tokens, Printed, Meaning, NumericDot, Wire;
    PrintedEnd(s);
    PackMeaning(s, off, lenmsg, cmap);
    PackMeaning(Printed(s), off, lenmsg, cmap);
    if !NumericDot(s) {
      PrintedMeaning(s);
      FieldsByMeaning(Printed(s), s, []);
      OnlyRoot(s);
      OnlyRoot(Printed(s));
    } else {
      PrintedSeparators(s);
      FieldCount(Tokens(s), []);
      FieldCount(Tokens(Printed(s)), []);
      var fs, gs := Fields(Tokens(s), []), Fields(Tokens(Printed(s)), []);
      if Legal(fs, false) && Legal(gs, false) {
        RootHasNoNumber(s);
        assert Wire(fs) != Wire(gs) by {
          if Wire(fs) == Wire(gs) {
            WireInjective(fs, gs);
            assert false;
          }
        }
        assert (Wire(fs) + [0])[..|Wire(fs) + [0]| - 1] == Wire(fs);
        assert (Wire(gs) + [0])[..|Wire(gs) + [0]| - 1] == Wire(gs);
      }
    }
  }

  /** A name with a dot given by number is not the root, printed or not. */
  lemma RootHasNoNumber(s: Bytes)
    requires NumericDot(s) && s[|s| - 1] == DOT
    ensures s != [DOT] && Printed(s) != [DOT]
  {
    var rest := s[Head(s).1..];
    if Head(s).1 == 4 {
      HeadEscape(s);
    }
    assert rest != [] && rest[|rest| - 1] == DOT;
    MeaningEmpty(rest);
    PrintedMeaning(s);
    MeaningOfDot();
  }

  lemma MeaningOfDot()
    ensures Meaning([DOT]) == [(DOT, true)] && !NumericDot([DOT])
  {
    assert [DOT][1..] == [];
  }

  predicate Letter(b: byte) {
    'a' as int <= b <= 'z' as int
  }

  /** A label of two letters with a dot by number between them: a\046b. for the letters a and b. */
  function DottedLabel(a: byte, b: byte): (s: Bytes) {
    [a] + ([SLASH] + Ddd(DOT) + [b, DOT])
  }

  /** The name and its printed form both pack, and to different bytes. */
  ghost predicate PacksApart(s: Bytes, off: nat, lenmsg: nat, cmap: CMap) {
    var p, r := PackName(s, off, lenmsg, cmap, false), PackName(Printed(s), off, lenmsg, cmap, false);
    p.Packed? && r.Packed? && p.bytes != r.bytes
  }

  /** Printed, the dot separates: one label of three characters before, two of one character after. */
  lemma DotByNumber(a: byte, b: byte, off: nat, lenmsg: nat, cmap: CMap)
    requires Letter(a) && Letter(b) && off + 8 <= lenmsg
    ensures NumericDot(DottedLabel(a, b)) && PacksApart(DottedLabel(a, b), off, lenmsg, cmap)
  {
    hide PackName, Tokens, Fields, Wire, NumericDot, Printed, Ddd;
    var s := DottedLabel(a, b);
    DottedLabelPrinted(a, b);
    DottedLabelFields(a, b);
    assert s[|s| - 1] == DOT && |s| == 7;
    PackMeaning(s, off, lenmsg, cmap);
    PackMeaning([a, DOT, b, DOT], off, lenmsg, cmap);
    PrintedPacksAlike(s, off, lenmsg, cmap);
  }

  lemma DottedLabelPrinted(a: byte, b: byte)
    requires Letter(a) && Letter(b)
    ensures NumericDot(DottedLabel(a, b)) && Printed(DottedLabel(a, b)) == [a, DOT, b, DOT]
  {
    hide Printed, NumericDot, Ddd;
    PrintNothing();
    PrintedPlain(DOT, []);
    PrintedPlain(b, [DOT]);
    assert [DOT] + [] == [DOT] && [b] + [DOT] == [b, DOT];
    NumberPrinted([b, DOT]);
    PrintedPlain(a, [SLASH] + Ddd(DOT) + [b, DOT]);
    assert [a] + ([DOT] + [b, DOT]) == [a, DOT, b, DOT];
  }

  lemma PrintedPlain(b: byte, rest: Bytes)
    requires Letter(b) || b == DOT
    ensures Printed([b] + rest) == [b] + Printed(rest)
    ensures NumericDot(rest) ==> NumericDot([b] + rest)
  {
    assert ([b] + rest)[1..] == rest;
  }

  lemma NumberPrinted(rest: Bytes)
    ensures var s := [SLASH] + Ddd(DOT) + rest; NumericDot(s) && Printed(s) == [DOT] + Printed(rest)
  {
    hide Ddd, Head;
    HeadDdd(DOT, rest);
  }

  lemma DottedLabelTokens(a: byte, b: byte, end: seq<Tok>, tail: seq<Tok>)
    requires Letter(a) && Letter(b) && end == [Tok(DOT, false)] && tail == [Tok(b, false)] + end
    ensures Tokens(DottedLabel(a, b)) == [Tok(a, false)] + ([Tok(DOT, true)] + tail)
    ensures Tokens([a, DOT, b, DOT]) == [Tok(a, false)] + (end + tail)
  {
    hide Tokens, Ddd;
    assert [DOT] + [] == [DOT] && [b] + [DOT] == [b, DOT] && [a] + ([DOT] + [b, DOT]) == [a, DOT, b, DOT];
    TokensNil();
    assert end + [] == end;
    TokensPlain(DOT, []);
    TokensPlain(b, [DOT]);
    TokensPlain(DOT, [b, DOT]);
    TokensPlain(a, [DOT] + [b, DOT]);
    TokensDdd(DOT, [b, DOT]);
    TokensPlain(a, [SLASH] + Ddd(DOT) + [b, DOT]);
  }

  lemma DottedLabelFields(a: byte, b: byte)
    requires Letter(a) && Letter(b)
    ensures Fields(Tokens(DottedLabel(a, b)), []) == [[a, DOT, b]]
    ensures Fields(Tokens([a, DOT, b, DOT]), []) == [[a], [b]]
  {
    hide Tokens, Fields, DottedLabel;
    var end: seq<Tok> := [Tok(DOT, false)];
    var tail := [Tok(b, false)] + end;
    DottedLabelTokens(a, b, end, tail);
    FieldsOfTail(b, tail, []);
    FieldsOfTail(b, tail, [a, DOT]);
    assert [] + [a] == [a] && [a] + [DOT] == [a, DOT] && [a, DOT] + [b] == [a, DOT, b] && [] + [b] == [b];
    FieldsCons(Tok(a, false), [Tok(DOT, true)] + tail, []);
    FieldsCons(Tok(DOT, true), tail, [a]);
    FieldsCons(Tok(a, false), end + tail, []);
    FieldsCons(Tok(DOT, false), tail, [a]);
  }

  lemma FieldsOfTail(b: byte, tail: seq<Tok>, cur: Bytes)
    requires Letter(b) && tail == [Tok(b, false)] + [Tok(DOT, false)]
    ensures Fields(tail, cur) == [cur + [b]]
  {
    hide Fields;
    FieldsCons(Tok(b, false), [Tok(DOT, false)], cur);
    assert [Tok(DOT, false)] + [] == [Tok(DOT, false)];
    FieldsCons(Tok(DOT, false), [], cur + [b]);
    FieldsNil([]);
    assert [cur + [b]] + [] == [cur + [b]];
  }

  lemma TokensNil()
    ensures Tokens([]) == []
  {
  }

  /** Only the root consists of a single separator. */
  lemma OnlyRoot(s: Bytes)
    requires s != [] && s[|s| - 1] == DOT
    ensures s == [DOT] <==> Meaning(s) == [(DOT, true)]
  {
    if s == [DOT] {
      assert Meaning([]) == [] && s[1..] == [];
    } else {
      var rest := s[Head(s).1..];
      if s[0] == DOT {
        assert rest != [] && rest[|rest| - 1] == DOT;
        assert |Meaning(s)| >= 2;
      }
    }
  }
}
