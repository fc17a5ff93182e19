/** Bytes and the escapes shared by names and text strings (msg.go, types.go). */
module Bytes {
  import Arith

  type byte = b: int | 0 <= b < 256
  type Bytes = seq<byte>

  const DOT: byte := 46
  const SLASH: byte := 92   // the backslash
  const QUOTE: byte := 34
  const TAB: byte := 9
  const LF: byte := 10
  const CR: byte := 13

  predicate IsDigit(b: byte) {
    48 <= b <= 57
  }

  predicate IsDdd(s: Bytes) {
    |s| >= 3 && IsDigit(s[0]) && IsDigit(s[1]) && IsDigit(s[2])
  }

  /** Value of three digits, kept to one byte as the source does. */
  function DddToByte(s: Bytes): (b: byte)
    requires |s| >= 3
  {
    DddValue(s[0], s[1], s[2])
  }

  function DddValue(x: byte, y: byte, z: byte): byte {
    ((x as int - 48) * 100 + (y as int - 48) * 10 + (z as int - 48)) % 256
  }

  /** The three digits of b. */
  function Ddd(b: byte): (s: Bytes)
    ensures |s| == 3 && IsDigit(s[0]) && IsDigit(s[1]) && IsDigit(s[2])
    ensures DddValue(s[0], s[1], s[2]) == b
  {
    assert b == 100 * (b / 100) + 10 * (b / 10 % 10) + b % 10 by {
      assert b / 100 == b / 10 / 10;
    }
    [48 + b / 100, 48 + b / 10 % 10, 48 + b % 10]
  }

  /** The character that a backslash before b stands for, when b starts no three-digit escape. */
  function Unquote(b: byte): byte {
    if b == 't' as int then TAB
    else if b == 'r' as int then CR
    else if b == 'n' as int then LF
    else b
  }

  /** A character of a presentation-form string, and whether a backslash produced it. */
  datatype Tok = Tok(b: byte, escaped: bool)

  /** Reading off one character: its token and the length of its text. A lone final backslash is no token. */
  function Head(s: Bytes): (r: (Tok, nat))
    requires s != [] && s != [SLASH]
    ensures 1 <= r.1 <= |s|
  {
    if s[0] != SLASH then (Tok(s[0], false), 1)
    else if IsDdd(s[1..]) then (Tok(DddToByte(s[1..]), true), 4)
    else (Tok(Unquote(s[1]), true), 2)
  }

  /** Head of an escape, by indices. */
  lemma HeadEscape(s: Bytes)
    requires |s| >= 2 && s[0] == SLASH
    ensures var ddd := |s| >= 4 && IsDigit(s[1]) && IsDigit(s[2]) && IsDigit(s[3]);
            Head(s) == if ddd then (Tok(DddValue(s[1], s[2], s[3]), true), 4) else (Tok(Unquote(s[1]), true), 2)
  {
    hide DddValue, Unquote, IsDigit;
    assert |s| >= 4 ==> s[1..][0] == s[1] && s[1..][1] == s[2] && s[1..][2] == s[3];
  }

  /** The characters a presentation-form string stands for: the simple form of unescaping. */
  function Tokens(s: Bytes): (ts: seq<Tok>)
    ensures |ts| <= |s|
    decreases |s|
  {
    if s == [] || s == [SLASH] then []
    else [Head(s).0] + Tokens(s[Head(s).1..])
  }

  function Values(ts: seq<Tok>): (bs: Bytes)
    ensures |bs| == |ts|
    ensures forall i :: 0 <= i < |ts| ==> bs[i] == ts[i].b
  {
    seq(|ts|, i requires 0 <= i < |ts| => ts[i].b)
  }

  lemma TokensCons(t: Tok, text: Bytes, rest: Bytes)
    requires text != [] && text + rest != [SLASH] && Head(text + rest) == (t, |text|)
    ensures Tokens(text + rest) == [t] + Tokens(rest)
  {
    assert (text + rest)[|text|..] == rest;
  }

  /** A single character escaped with a backslash is read back as itself, whatever follows. */
  lemma TokensQuoted(b: byte, rest: Bytes)
    requires !IsDigit(b) && Unquote(b) == b
    ensures Tokens([SLASH, b] + rest) == [Tok(b, true)] + Tokens(rest)
  {
    assert ([SLASH, b] + rest)[1..] == [b] + rest;
    TokensCons(Tok(b, true), [SLASH, b], rest);
  }

  lemma TokensControl(b: byte, rest: Bytes)
    requires b == 't' as int || b == 'r' as int || b == 'n' as int
    ensures Tokens([SLASH, b] + rest) == [Tok(Unquote(b), true)] + Tokens(rest)
  {
    assert ([SLASH, b] + rest)[1..] == [b] + rest;
    TokensCons(Tok(Unquote(b), true), [SLASH, b], rest);
  }

  lemma TokensDdd(b: byte, rest: Bytes)
    ensures Tokens([SLASH] + Ddd(b) + rest) == [Tok(b, true)] + Tokens(rest)
  {
    hide Ddd, Tokens, Head;
    HeadDdd(b, rest);
    TokensCons(Tok(b, true), [SLASH] + Ddd(b), rest);
  }

  lemma HeadDdd(b: byte, rest: Bytes)
    ensures var s := [SLASH] + Ddd(b) + rest;
            |s| >= 4 && s[0] == SLASH && s[1] != DOT && s[4..] == rest && Head(s) == (Tok(b, true), 4)
  {
    hide Ddd, DddValue, Unquote, Head;
    var s := [SLASH] + Ddd(b) + rest;
    assert s[1] == Ddd(b)[0] && s[2] == Ddd(b)[1] && s[3] == Ddd(b)[2];
    HeadEscape(s);
  }

  lemma TokensPlain(b: byte, rest: Bytes)
    requires b != SLASH
    ensures Tokens([b] + rest) == [Tok(b, false)] + Tokens(rest)
  {
    assert ([b] + rest)[0] == b;
    TokensCons(Tok(b, false), [b], rest);
  }

  /** Big-endian 16 bits. */
  function U16(n: int): (s: Bytes)
    requires 0 <= n < 0x1_0000
    ensures |s| == 2
  {
    [n / 256, n % 256]
  }

  function FromU16(s: Bytes): (n: int)
    requires |s| == 2
    ensures 0 <= n < 0x1_0000
  {
    s[0] as int * 256 + s[1] as int
  }

  function U32(n: int): (s: Bytes)
    requires 0 <= n < 0x1_0000_0000
    ensures |s| == 4
  {
    [n / 0x100_0000, n / 0x1_0000 % 256, n / 256 % 256, n % 256]
  }

  function FromU32(s: Bytes): (n: int)
    requires |s| == 4
    ensures 0 <= n < 0x1_0000_0000
  {
    s[0] as int * 0x100_0000 + s[1] as int * 0x1_0000 + s[2] as int * 256 + s[3] as int
  }

  lemma U16RoundTrip(n: int)
    requires 0 <= n < 0x1_0000
    ensures FromU16(U16(n)) == n
  {
  }

  lemma U32RoundTrip(n: int)
    requires 0 <= n < 0x1_0000_0000
    ensures FromU32(U32(n)) == n
  {
    Arith.DivTwice(n, 256, 256);
    Arith.DivTwice(n, 0x1_0000, 256);
    Arith.DivMod(n, 256);
    Arith.DivMod(n / 256, 256);
    Arith.DivMod(n / 0x1_0000, 256);
  }

  /** The most significant byte comes first. */
  lemma BigEndian(n: int, s: Bytes)
    ensures 0 <= n < 0x1_0000 ==> (U16(n) == s <==> |s| == 2 && n == 256 * s[0] as int + s[1] as int)
    ensures 0 <= n < 0x1_0000_0000 ==>
              (U32(n) == s <==> |s| == 4 && n == 16777216 * s[0] as int + 65536 * s[1] as int + 256 * s[2] as int + s[3] as int)
    ensures |s| == 2 ==> FromU16(s) == 256 * s[0] as int + s[1] as int
    ensures |s| == 4 ==> FromU32(s) == 16777216 * s[0] as int + 65536 * s[1] as int + 256 * s[2] as int + s[3] as int
  {
    if 0 <= n < 0x1_0000 && |s| == 2 && n == 256 * s[0] as int + s[1] as int {
      Arith.DivUnique(n, 256, s[0] as int, s[1] as int);
    }
    if 0 <= n < 0x1_0000_0000 {
      U32RoundTrip(n);
      if |s| == 4 && n == 16777216 * s[0] as int + 65536 * s[1] as int + 256 * s[2] as int + s[3] as int {
        FourBytesUnique(U32(n), s);
      }
    }
  }

  lemma FourBytesUnique(s: Bytes, t: Bytes)
    requires |s| == |t| == 4 && FromU32(s) == FromU32(t)
    ensures s == t
  {
    assert s[3] as int % 256 == t[3] as int % 256;
    assert s[2] == t[2] && s[1] == t[1] && s[0] == t[0];
  }

  // ----- bytes in place -----

  /** bytes stand at off in msg. */
  ghost predicate At(msg: Bytes, off: nat, bytes: Bytes) {
    off + |bytes| <= |msg| && msg[off..off + |bytes|] == bytes
  }

  lemma AtSplit(msg: Bytes, off: nat, a: Bytes, b: Bytes)
    requires At(msg, off, a + b)
    ensures At(msg, off, a) && At(msg, off + |a|, b)
  {
    var n := |a + b|;
    assert msg[off..off + |a|] == msg[off..off + n][..|a|];
    assert msg[off + |a|..off + n] == msg[off..off + n][|a|..];
  }

  lemma AtByte(msg: Bytes, off: nat, b: byte)
    requires At(msg, off, [b])
    ensures off < |msg| && msg[off] == b
  {
    assert msg[off] == msg[off..off + 1][0];
  }

  // ----- writing into a buffer -----

  /** m' is m with bytes written at off and anything at all behind them; what is before off is kept. */
  ghost predicate Wrote(m: Bytes, m': Bytes, off: nat, bytes: Bytes) {
    && off + |bytes| <= |m| == |m'|
    && m'[..off] == m[..off]
    && m'[off..off + |bytes|] == bytes
  }

  lemma WroteNothing(m: Bytes, off: nat)
    requires off <= |m|
    ensures Wrote(m, m, off, [])
  {
  }

  lemma WroteSome(m: Bytes, m': Bytes, off: nat, bytes: Bytes)
    requires off + |bytes| <= |m| == |m'|
    requires forall x :: 0 <= x < off ==> m'[x] == m[x]
    requires forall x :: 0 <= x < |bytes| ==> m'[off + x] == bytes[x]
    ensures Wrote(m, m', off, bytes)
  {
  }

  lemma WroteFits(m: Bytes, m': Bytes, off: nat, bytes: Bytes)
    requires Wrote(m, m', off, bytes)
    ensures off + |bytes| <= |m| == |m'|
  {
  }

  lemma WroteMore(m: Bytes, m1: Bytes, m2: Bytes, off: nat, a: Bytes, b: Bytes)
    requires Wrote(m, m1, off, a) && Wrote(m1, m2, off + |a|, b)
    ensures Wrote(m, m2, off, a + b)
    ensures Wrote(m, m2, off, [])
  {
    var end := off + |a|;
    assert m2[..off] == m2[..end][..off] == m1[..end][..off] == m1[..off];
    assert m2[off..end] == m2[..end][off..] == m1[..end][off..] == m1[off..end];
    assert m2[off..end + |b|] == m2[off..end] + m2[end..end + |b|];
  }
}
