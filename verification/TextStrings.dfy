/** Counted text strings: packTxt, packTxtString, unpackTxt and unpackTxtString (msg.go). */
module TextStrings {
  import Arith
  import opened Bytes
  import opened Options

  datatype TextError = NoRoom | TooLong

  datatype TextPack = TextFault(error: TextError) | TextBytes(bytes: Bytes)

  const MAX_TEXT := 1025 // the packer's scratch buffer

  // ----- specification -----

  /** The text ends in a backslash that escapes nothing. */
  function Hanging(s: Bytes): bool
    decreases |s|
  {
    if s == [] then false else if s == [SLASH] then true else Hanging(s[Head(s).1..])
  }

  function Counted(vs: Bytes): (s: Bytes)
    requires |vs| < 256
    ensures |s| == |vs| + 1
  {
    [|vs|] + vs
  }

  /** The characters of one string with their count in front; a hanging backslash wants room for a byte too. */
  function PackString(s: Bytes, off: nat, lenmsg: nat): (r: TextPack) {
    var vs := Values(Tokens(s));
    if off + 1 + |vs| + (if Hanging(s) then 1 else 0) > lenmsg then TextFault(NoRoom)
    else if |vs| > 255 then TextFault(TooLong)
    else TextBytes(Counted(vs))
  }

  function PackStrings(ss: seq<Bytes>, off: nat, lenmsg: nat): (r: TextPack) {
    if ss == [] then TextBytes([])
    else if |ss[0]| > MAX_TEXT then TextFault(NoRoom)
    else
      match PackString(ss[0], off, lenmsg)
      case TextFault(e) => TextFault(e)
      case TextBytes(b) =>
        match PackStrings(ss[1..], off + |b|, lenmsg)
        case TextFault(e) => TextFault(e)
        case TextBytes(more) => TextBytes(b + more)
  }

  /** An empty list yields no bytes, but the packer still wants room for one. */
  function PackTexts(ss: seq<Bytes>, off: nat, lenmsg: nat): (r: TextPack) {
    if ss == [] && off >= lenmsg then TextFault(NoRoom) else PackStrings(ss, off, lenmsg)
  }

  /** len of the strings: their text and one byte each. */
  function TextsLen(ss: seq<Bytes>): (n: nat) {
    if ss == [] then 0 else |ss[0]| + 1 + TextsLen(ss[1..])
  }

  /** Characters never outnumber the text they are read from. */
  lemma {:induction false} TokensShort(s: Bytes)
    ensures |Tokens(s)| + (if Hanging(s) then 1 else 0) <= |s|
    decreases |s|
  {
    if s != [] && s != [SLASH] {
      TokensShort(s[Head(s).1..]);
    }
  }

  /** With room for the text, only a string of more than 255 characters or a text too long for the scratch is refused. */
  lemma {:induction false} PackStringsFits(ss: seq<Bytes>, off: nat, lenmsg: nat)
    ensures PackStrings(ss, off, lenmsg).TextBytes? ==> |PackStrings(ss, off, lenmsg).bytes| <= TextsLen(ss)
    ensures off + TextsLen(ss) <= lenmsg && PackStrings(ss, off, lenmsg) == TextFault(NoRoom) ==>
              exists i :: 0 <= i < |ss| && |ss[i]| > MAX_TEXT
  {
    hide Tokens, Hanging;
    if ss != [] {
      TokensShort(ss[0]);
      if |ss[0]| <= MAX_TEXT && PackString(ss[0], off, lenmsg).TextBytes? {
        var off' := off + |PackString(ss[0], off, lenmsg).bytes|;
        PackStringsFits(ss[1..], off', lenmsg);
        assert forall i :: 0 <= i < |ss[1..]| ==> ss[1..][i] == ss[i + 1];
      }
    }
  }

  // ----- the packer as the source runs it -----

  /** Reading off one character keeps what is read and what is left together. */
  lemma ReadOne(s: Bytes, i: nat, ts: seq<Tok>)
    requires i < |s| && s[i..] != [SLASH]
    requires Tokens(s) == ts + Tokens(s[i..]) && Hanging(s) == Hanging(s[i..])
    ensures var (t, n) := Head(s[i..]);
            && i + n <= |s|
            && Tokens(s) == ts + [t] + Tokens(s[i + n..]) && Hanging(s) == Hanging(s[i + n..])
  {
    hide Head;
    var (t, n) := Head(s[i..]);
    assert s[i..][n..] == s[i + n..];
    assert Tokens(s[i..]) == [t] + Tokens(s[i + n..]);
  }

  /** Where the packer stands: i in the text, and the characters ts written. */
  ghost predicate Writing(s: Bytes, m: Bytes, msg: Bytes, off0: nat, i: nat, off: nat, ts: seq<Tok>) {
    && i <= |s| && Tokens(s) == ts + Tokens(s[i..]) && Hanging(s) == Hanging(s[i..])
    && off == off0 + 1 + |ts| <= |msg| == |m|
    && (forall x :: 0 <= x < off0 ==> msg[x] == m[x])
    && (forall x :: 0 <= x < |ts| ==> msg[off0 + 1 + x] == ts[x].b)
  }

  /** One character is written; its text is s[i..i + n]. */
  method WriteOne(s: Bytes, i: nat, msg: array<byte>, off: nat, ghost off0: nat, ghost m: Bytes, ghost ts: seq<Tok>)
    returns (n: nat, ghost t: Tok)
    requires Writing(s, m, msg[..], off0, i, off, ts)
    requires i < |s| && s[i..] != [SLASH] && off < msg.Length
    modifies msg
    ensures n >= 1 && i + n <= |s|
    ensures Writing(s, m, msg[..], off0, i + n, off + 1, ts + [t])
  {
    hide Tokens, Hanging, Head, DddValue, Unquote, IsDigit;
    ReadOne(s, i, ts);
    ghost var before := msg[..];
    t := Head(s[i..]).0;
    if s[i] == SLASH {
      assert i + 1 < |s|;
      HeadEscape(s[i..]);
      if i + 3 < |s| && IsDigit(s[i + 1]) && IsDigit(s[i + 2]) && IsDigit(s[i + 3]) {
        msg[off] := DddValue(s[i + 1], s[i + 2], s[i + 3]);
        n := 4;
      } else {
        msg[off] := Unquote(s[i + 1]);
        n := 2;
      }
    } else {
      HeadPlain(s[i..]);
      msg[off] := s[i];
      n := 1;
    }
    assert msg[..] == before[off := t.b];
  }

  lemma HeadPlain(s: Bytes)
    requires s != [] && s[0] != SLASH
    ensures Head(s) == (Tok(s[0], false), 1)
  {
  }

  lemma WritingStarts(s: Bytes, m: Bytes, off0: nat)
    requires off0 < |m|
    ensures Writing(s, m, m, off0, 0, off0 + 1, [])
  {
    assert s[0..] == s;
  }

  /** No room for what is left of the text. */
  lemma WritingStuck(s: Bytes, m: Bytes, msg: Bytes, off0: nat, i: nat, off: nat, ts: seq<Tok>)
    requires Writing(s, m, msg, off0, i, off, ts) && i < |s| && off >= |msg|
    ensures PackString(s, off0, |msg|) == TextFault(NoRoom)
  {
  }

  lemma WritingEnds(s: Bytes, m: Bytes, msg: Bytes, off0: nat, i: nat, off: nat, ts: seq<Tok>)
    requires Writing(s, m, msg, off0, i, off, ts) && (i == |s| || (s[i..] == [SLASH] && off < |msg|))
    ensures |ts| > 255 ==> PackString(s, off0, |msg|) == TextFault(TooLong)
    ensures |ts| <= 255 ==> PackString(s, off0, |msg|) == TextBytes(Counted(Values(ts)))
  {
    assert Tokens(s) == ts;
  }

  method PackTxtString(s: Bytes, msg: array<byte>, off0: nat) returns (off: nat, err: Option<TextError>, ghost bytes: Bytes)
    requires off0 <= msg.Length
    modifies msg
    ensures Wrote(old(msg[..]), msg[..], off0, bytes)
    ensures PackString(s, off0, msg.Length) == match err case None => TextBytes(bytes) case Some(e) => TextFault(e)
    ensures err.None? ==> off == off0 + |bytes|
  {
    assert off0 >= msg.Length ==> PackString(s, off0, msg.Length) == TextFault(NoRoom);
    hide Tokens, Hanging, Head, Writing, PackString;
    bytes := [];
    ghost var m := msg[..];
    off := off0;
    if off0 >= msg.Length {
      WroteNothing(m, off0);
      err := Some(NoRoom);
      return;
    }
    off := off + 1;
    var i: nat := 0;
    ghost var ts: seq<Tok> := [];
    WritingStarts(s, m, off0);
    while i < |s|
      invariant Writing(s, m, msg[..], off0, i, off, ts)
      invariant i <= |s|
      decreases |s| - i
    {
      if msg.Length <= off {
        WritingStuck(s, m, msg[..], off0, i, off, ts);
        WritingKeeps(s, m, msg[..], off0, i, off, ts);
        err := Some(NoRoom);
        return;
      }
      WritingFits(s, m, msg[..], off0, i, off, ts);
      if s[i] == SLASH && i + 1 == |s| {
        break;
      }
      var n;
      ghost var t;
      assert s[i..] != [SLASH] by { assert s[i..] == [s[i]] + s[i + 1..]; }
      n, t := WriteOne(s, i, msg, off, off0, m, ts);
      ts := ts + [t];
      off := off + 1;
      i := i + n;
    }
    WritingFits(s, m, msg[..], off0, i, off, ts);
    WritingKeeps(s, m, msg[..], off0, i, off, ts);
    assert i < |s| ==> s[i..] == [SLASH];
    WritingEnds(s, m, msg[..], off0, i, off, ts);
    var l := off - off0 - 1;
    if l > 255 {
      err := Some(TooLong);
      return;
    }
    WritingCount(s, m, msg[..], off0, i, off, ts);
    msg[off0] := l;
    bytes := Counted(Values(ts));
    err := None;
  }

  lemma WritingFits(s: Bytes, m: Bytes, msg: Bytes, off0: nat, i: nat, off: nat, ts: seq<Tok>)
    requires Writing(s, m, msg, off0, i, off, ts)
    ensures i <= |s| && off == off0 + 1 + |ts| <= |msg| == |m|
  {
  }

  lemma WritingKeeps(s: Bytes, m: Bytes, msg: Bytes, off0: nat, i: nat, off: nat, ts: seq<Tok>)
    requires Writing(s, m, msg, off0, i, off, ts)
    ensures Wrote(m, msg, off0, [])
  {
  }

  /** Putting the count in front completes the string. */
  lemma WritingCount(s: Bytes, m: Bytes, msg: Bytes, off0: nat, i: nat, off: nat, ts: seq<Tok>)
    requires Writing(s, m, msg, off0, i, off, ts) && |ts| <= 255
    ensures Wrote(m, msg[off0 := |ts|], off0, Counted(Values(ts)))
  {
    var c := Counted(Values(ts));
    var msg' := msg[off0 := |ts|];
    forall x | 0 <= x < |c| ensures msg'[off0 + x] == c[x] {
      assert x > 0 ==> msg[off0 + 1 + (x - 1)] == ts[x - 1].b;
    }
    WroteSome(m, msg', off0, c);
  }

  /** What PackStrings yields when the first k strings, in bytes, are done. */
  function Onward(bytes: Bytes, r: TextPack): TextPack {
    match r
    case TextFault(e) => r
    case TextBytes(more) => TextBytes(bytes + more)
  }

  lemma OnwardStep(ss: seq<Bytes>, k: nat, off: nat, lenmsg: nat, bytes: Bytes)
    requires k < |ss|
    ensures |ss[k]| > MAX_TEXT ==> PackStrings(ss[k..], off, lenmsg) == TextFault(NoRoom)
    ensures |ss[k]| <= MAX_TEXT ==>
              var r := PackString(ss[k], off, lenmsg);
              if r.TextFault? then PackStrings(ss[k..], off, lenmsg) == r
              else Onward(bytes, PackStrings(ss[k..], off, lenmsg)) ==
                   Onward(bytes + r.bytes, PackStrings(ss[k + 1..], off + |r.bytes|, lenmsg))
  {
    hide PackString;
    assert ss[k..][0] == ss[k] && ss[k..][1..] == ss[k + 1..];
    if |ss[k]| <= MAX_TEXT && PackString(ss[k], off, lenmsg).TextBytes? {
      var b := PackString(ss[k], off, lenmsg).bytes;
      var rest := PackStrings(ss[k + 1..], off + |b|, lenmsg);
      assert rest.TextBytes? ==> bytes + (b + rest.bytes) == bytes + b + rest.bytes;
    }
  }

  method PackTxt(ss: seq<Bytes>, msg: array<byte>, off0: nat) returns (off: nat, err: Option<TextError>, ghost bytes: Bytes)
    requires off0 <= msg.Length
    modifies msg
    ensures Wrote(old(msg[..]), msg[..], off0, bytes)
    ensures PackTexts(ss, off0, msg.Length) == match err case None => TextBytes(bytes) case Some(e) => TextFault(e)
    ensures err.None? ==> off == off0 + |bytes|
  {
    hide PackString, Wrote;
    ghost var m := msg[..];
    off, err, bytes := off0, None, [];
    WroteNothing(m, off0);
    if |ss| == 0 {
      if off0 >= msg.Length {
        err := Some(NoRoom);
        return;
      }
      msg[off0] := 0;
      WroteSome(m, msg[..], off0, []);
      return;
    }
    assert ss[0..] == ss;
    assert Onward([], PackStrings(ss, off0, msg.Length)) == PackStrings(ss, off0, msg.Length);
    for k := 0 to |ss|
      invariant err.None? && off == off0 + |bytes| <= msg.Length
      invariant Wrote(m, msg[..], off0, bytes)
      invariant PackStrings(ss, off0, msg.Length) == Onward(bytes, PackStrings(ss[k..], off, msg.Length))
    {
      OnwardStep(ss, k, off, msg.Length, bytes);
      if |ss[k]| > MAX_TEXT {
        err := Some(NoRoom);
        return;
      }
      ghost var more, m1 := [], msg[..];
      off, err, more := PackTxtString(ss[k], msg, off);
      WroteMore(m, m1, msg[..], off0, bytes, more);
      if err.Some? {
        bytes := [];
        return;
      }
      bytes := bytes + more;
      WroteFits(m, msg[..], off0, bytes);
    }
    assert ss[|ss|..] == [] && bytes + [] == bytes;
  }

  // ----- reading -----

  /** One byte as the unpacker prints it in a string: unlike in a name, 127 stands for itself. */
  function TextEscape(b: byte): (s: Bytes)
    ensures 1 <= |s| <= 4
  {
    if b == QUOTE || b == SLASH then [SLASH, b]
    else if b == TAB then [SLASH, 't' as int]
    else if b == CR then [SLASH, 'r' as int]
    else if b == LF then [SLASH, 'n' as int]
    else if b < 32 || b > 127 then [SLASH] + Ddd(b)
    else [b]
  }

  /** The text of every byte of a string: itself, behind a backslash, or by three decimal digits. */
  lemma TextEscapeIs(b: byte)
    ensures TextEscape(b) == [b] <==> 32 <= b <= 127 && b != 34 && b != 92
    ensures b == 34 || b == 92 ==> TextEscape(b) == [92, b]
    ensures b == 9 ==> TextEscape(b) == [92, 116]
    ensures b == 10 ==> TextEscape(b) == [92, 110]
    ensures b == 13 ==> TextEscape(b) == [92, 114]
    ensures (b < 32 && b != 9 && b != 10 && b != 13) || b > 127 ==> TextEscape(b) == [92, 48 + b / 100, 48 + b / 10 % 10, 48 + b % 10]
  {
  }

  function TextOf(bs: Bytes): (s: Bytes)
    ensures |s| <= 4 * |bs|
  {
    if bs == [] then [] else TextEscape(bs[0]) + TextOf(bs[1..])
  }

  datatype StringRead = NoString | StringAt(text: Bytes, next: nat)

  function ReadString(msg: Bytes, off: nat): (r: StringRead)
    ensures r.StringAt? ==> off < r.next <= |msg|
  {
    if off + 1 > |msg| || off + msg[off] as int + 1 > |msg| then NoString
    else StringAt(TextOf(msg[off + 1..off + 1 + msg[off] as int]), off + 1 + msg[off] as int)
  }

  datatype StringsRead = NoStrings | StringsAt(texts: seq<Bytes>, next: nat)

  function ReadStrings(msg: Bytes, off: nat, rdend: nat): (r: StringsRead)
    decreases rdend - off
  {
    if off >= rdend then StringsAt([], off)
    else
      match ReadString(msg, off)
      case NoString => NoStrings
      case StringAt(s, next) =>
        match ReadStrings(msg, next, rdend)
        case NoStrings => NoStrings
        case StringsAt(ss, end) => StringsAt([s] + ss, end)
  }

  lemma TextOfNothing()
    ensures TextOf([]) == []
  {
  }

  /** The switch over one byte. */
  method AppendEscaped(s0: Bytes, b: byte) returns (s: Bytes)
    ensures s == s0 + TextEscape(b)
  {
    hide Ddd;
    if b == QUOTE || b == SLASH {
      s := s0 + [SLASH, b];
    } else if b == TAB {
      s := s0 + [SLASH, 't' as int];
    } else if b == CR {
      s := s0 + [SLASH, 'r' as int];
    } else if b == LF {
      s := s0 + [SLASH, 'n' as int];
    } else if b < 32 || b > 127 {
      s := s0 + ([SLASH] + Ddd(b));
    } else {
      s := s0 + [b];
    }
  }

  method UnpackTxtString(msg: Bytes, off: nat) returns (r: StringRead)
    ensures r == ReadString(msg, off)
  {
    TextOfNothing();
    hide TextOf, TextEscape;
    if off + 1 > |msg| {
      return NoString;
    }
    var l := msg[off] as int;
    if off + l + 1 > |msg| {
      return NoString;
    }
    var bs := msg[off + 1..off + 1 + l];
    var s: Bytes := [];
    assert bs[..0] == [];
    for j := 0 to l
      invariant s == TextOf(bs[..j])
    {
      var b := bs[j];
      TextOfSnoc(bs[..j], b);
      assert bs[..j + 1] == bs[..j] + [b];
      s := AppendEscaped(s, b);
    }
    assert bs[..l] == bs;
    r := StringAt(s, off + 1 + l);
  }

  lemma {:induction false} TextOfAppend(a: Bytes, b: Bytes)
    ensures TextOf(a + b) == TextOf(a) + TextOf(b)
  {
    hide TextEscape;
    if a == [] {
      assert a + b == b;
    } else {
      TextOfAppend(a[1..], b);
      assert (a + b)[1..] == a[1..] + b;
      Arith.Reassociate(TextEscape(a[0]), TextOf(a[1..]), TextOf(b));
    }
  }

  lemma TextOfSnoc(a: Bytes, b: byte)
    ensures TextOf(a + [b]) == TextOf(a) + TextEscape(b)
  {
    hide TextEscape;
    TextOfAppend(a, [b]);
    assert TextOf([b]) == TextEscape(b) + TextOf([]) == TextEscape(b);
  }

  /** What reading yields when the strings read so far are put in front. */
  function Behind(ss: seq<Bytes>, r: StringsRead): StringsRead {
    match r
    case NoStrings => NoStrings
    case StringsAt(more, end) => StringsAt(ss + more, end)
  }

  lemma BehindStep(msg: Bytes, off: nat, rdend: nat, ss: seq<Bytes>)
    ensures off >= rdend ==> Behind(ss, ReadStrings(msg, off, rdend)) == StringsAt(ss, off)
    ensures off < rdend ==>
              var one := ReadString(msg, off);
              Behind(ss, ReadStrings(msg, off, rdend)) ==
              if one.NoString? then NoStrings else Behind(ss + [one.text], ReadStrings(msg, one.next, rdend))
  {
    hide ReadString;
    assert ss + [] == ss;
    if off < rdend && ReadString(msg, off).StringAt? {
      var one := ReadString(msg, off);
      var rest := ReadStrings(msg, one.next, rdend);
      assert rest.StringsAt? ==> ss + ([one.text] + rest.texts) == ss + [one.text] + rest.texts;
    }
  }

  lemma BehindNothing(r: StringsRead)
    ensures Behind([], r) == r
  {
    assert r.StringsAt? ==> [] + r.texts == r.texts;
  }

  method UnpackTxt(msg: Bytes, off0: nat, rdend: nat) returns (r: StringsRead)
    ensures r == ReadStrings(msg, off0, rdend)
  {
    var off: nat, ss := off0, [];
    BehindNothing(ReadStrings(msg, off0, rdend));
    hide ReadStrings, ReadString, Behind;
    while off < rdend
      invariant ReadStrings(msg, off0, rdend) == Behind(ss, ReadStrings(msg, off, rdend))
      decreases rdend - off
    {
      BehindStep(msg, off, rdend, ss);
      var one := UnpackTxtString(msg, off);
      if one.NoString? {
        return NoStrings;
      }
      ss, off := ss + [one.text], one.next;
    }
    BehindStep(msg, off, rdend, ss);
    r := StringsAt(ss, off);
  }

  // ----- round trip -----

  /** A printed byte is read back as that byte, whatever follows. */
  lemma EscapeHead(b: byte, rest: Bytes) returns (e: bool)
    ensures TextEscape(b) + rest != [SLASH] && Head(TextEscape(b) + rest) == (Tok(b, e), |TextEscape(b)|)
  {
    hide DddValue, Ddd;
    var s := TextEscape(b) + rest;
    e := s[0] == SLASH;
    if b < 32 || b > 127 {
      if b != TAB && b != CR && b != LF {
        assert s[1] == Ddd(b)[0] && s[2] == Ddd(b)[1] && s[3] == Ddd(b)[2];
      }
      HeadEscape(s);
    } else if e {
      assert s[1] == b;
      HeadEscape(s);
    }
  }

  lemma {:induction false} TextOfRead(bs: Bytes)
    ensures Values(Tokens(TextOf(bs))) == bs && !Hanging(TextOf(bs))
  {
    hide TextEscape, Head;
    if bs != [] {
      TextOfRead(bs[1..]);
      var rest := TextOf(bs[1..]);
      var e := EscapeHead(bs[0], rest);
      TokensCons(Tok(bs[0], e), TextEscape(bs[0]), rest);
      assert TextOf(bs)[|TextEscape(bs[0])|..] == rest;
    }
  }

  /** The unpacker's form of a string. */
  function CanonicalText(s: Bytes): (t: Bytes) {
    TextOf(Values(Tokens(s)))
  }

  /** Texts in the unpacker's form are their own canonical form. */
  lemma CanonicalTextStable(bs: Bytes)
    ensures CanonicalText(TextOf(bs)) == TextOf(bs)
  {
    TextOfRead(bs);
  }

  /** What the packer wrote is read back as the canonical form of the string. */
  lemma StringReadBack(s: Bytes, off: nat, lenmsg: nat, msg: Bytes)
    requires PackString(s, off, lenmsg).TextBytes? && At(msg, off, PackString(s, off, lenmsg).bytes)
    ensures ReadString(msg, off) == StringAt(CanonicalText(s), off + |PackString(s, off, lenmsg).bytes|)
  {
    hide Tokens, TextOf;
    var vs := Values(Tokens(s));
    AtSplit(msg, off, [|vs|], vs);
    AtByte(msg, off, |vs|);
  }

  /** Any string read from a message packs back to the bytes it was read from. */
  lemma StringPacksBack(msg: Bytes, off: nat, off': nat, lenmsg: nat)
    requires ReadString(msg, off).StringAt?
    requires off' + |ReadString(msg, off).text| + 1 <= lenmsg
    ensures PackString(ReadString(msg, off).text, off', lenmsg) == TextBytes(msg[off..ReadString(msg, off).next])
    ensures |ReadString(msg, off).text| <= MAX_TEXT
  {
    hide Tokens, TextOf, Hanging;
    var bs := msg[off + 1..off + 1 + msg[off] as int];
    TextOfRead(bs);
    TokensShort(TextOf(bs));
    assert msg[off..off + 1 + msg[off] as int] == [msg[off]] + bs;
  }

  function CanonicalTexts(ss: seq<Bytes>): (cs: seq<Bytes>)
    ensures |cs| == |ss| && forall i :: 0 <= i < |ss| ==> cs[i] == CanonicalText(ss[i])
  {
    seq(|ss|, i requires 0 <= i < |ss| => CanonicalText(ss[i]))
  }

  /** A packed list of strings is read back in canonical form, when the record ends where the list does. */
  lemma {:induction false} StringsReadBack(ss: seq<Bytes>, off: nat, lenmsg: nat, msg: Bytes)
    requires PackStrings(ss, off, lenmsg).TextBytes? && At(msg, off, PackStrings(ss, off, lenmsg).bytes)
    ensures var end := off + |PackStrings(ss, off, lenmsg).bytes|;
            ReadStrings(msg, off, end) == StringsAt(CanonicalTexts(ss), end)
    decreases |ss|
  {
    hide PackString, CanonicalText, At, ReadString;
    if ss == [] {
      assert CanonicalTexts(ss) == [];
    } else {
      var b := PackString(ss[0], off, lenmsg).bytes;
      var more := PackStrings(ss[1..], off + |b|, lenmsg).bytes;
      AtSplit(msg, off, b, more);
      StringReadBack(ss[0], off, lenmsg, msg);
      StringsReadBack(ss[1..], off + |b|, lenmsg, msg);
      assert [CanonicalText(ss[0])] + CanonicalTexts(ss[1..]) == CanonicalTexts(ss);
    }
  }
}
