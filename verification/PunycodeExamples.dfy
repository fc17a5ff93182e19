/** Labels and their encoded forms, character by character: what the parameters of Bootstring amount to. */
module PunycodeExamples {
  import opened Arith
  import opened Options
  import opened PunycodeDigits
  import opened PunycodeCodec

  /** The characters of an ASCII text. */
  function Characters(s: string): (cs: seq<int>)
    ensures |cs| == |s|
  {
    seq(|s|, i requires 0 <= i < |s| => s[i] as int)
  }

  /** Code points that are not m are swept over in silence. */
  lemma {:induction false} SweepTo(b: seq<Rune>, m: int, j: int, k: int, n0: int, i0: int, bias: int)
    requires Cursor(b, m, j, n0, i0) && m <= MAXRUNE && j <= k <= |b|
    requires forall x :: j <= x < k ==> b[x] != m
    ensures Cursor(b, m, k, n0, i0)
    ensures EncodeFrom(b, m, j, n0, i0, bias) == EncodeFrom(b, m, k, n0, i0, bias)
    ensures Handled(b, m, k) == Handled(b, m, j)
    decreases k - j
  {
    hide EncodeFrom, Handled, AtMost, FitsFrom;
    if j < k {
      EncodeStep(b, m, j, n0, i0, bias);
      HandledStep(b, m, j);
      SweepTo(b, m, j + 1, k, n0, i0, bias);
    }
  }

  /** The next code point to be emitted is m, which stands at j only. */
  ghost predicate OnlyAt(b: seq<Rune>, n: int, m: int, j: nat) {
    && j < |b| && n <= m <= MAXRUNE && b[j] == m
    && (forall x :: 0 <= x < |b| && x != j ==> b[x] != m)
    && (forall x :: x in b ==> x < n || x >= m)
  }

  /** One code point is emitted: h others are handled before, idx of them in front of it. */
  lemma EmitOne(b: seq<Rune>, n: int, m: int, j: nat, n0: int, i0: int, bias: int, h: nat, idx: nat, cs: seq<int>, delta: int)
    requires Cursor(b, n, 0, n0, i0) && OnlyAt(b, n, m, j)
    requires h == |Handled(b, n, 0)| && idx == |AtMost(b[..j], m)|
    requires delta == Times(m - n0, h + 1) + idx - i0 && 0 <= delta < INT32
    requires cs == Letters(VarDigits(delta, 36, bias))
    ensures Cursor(b, m + 1, 0, m, idx + 1) && |Handled(b, m + 1, 0)| == h + 1
    ensures EncodeFrom(b, n, 0, n0, i0, bias) == Before(cs, EncodeFrom(b, m + 1, 0, m, idx + 1, Adapt(delta, h + 1, i0 == 0)))
  {
    hide EncodeFrom, Handled, AtMost, FitsFrom, Times, VarDigits, Letters, Adapt, Before;
    Jump(b, n, m, n0, i0, bias);
    SweepTo(b, m, 0, j, n0, i0, bias);
    DeltaIs(b, m, j, n0, i0, h, idx);
    WrapFits(delta);
    EncodeStep(b, m, j, n0, i0, bias);
    HandledStep(b, m, j);
    HandledBounds(b, m, j);
    SweepTo(b, m, j + 1, |b|, m, idx + 1, Adapt(delta, h + 1, i0 == 0));
    EncodePassEnd(b, m, m, idx + 1, Adapt(delta, h + 1, i0 == 0));
    HandledPass(b, m);
  }

  lemma DeltaIs(b: seq<Rune>, m: int, j: int, n0: int, i0: int, h: nat, idx: nat)
    requires 0 <= j <= |b| && h == |Handled(b, m, j)| && idx == |AtMost(b[..j], m)|
    ensures Delta(b, m, j, n0, i0) == Times(m - n0, h + 1) + idx - i0
  {
    hide Handled, AtMost, Times;
  }

  lemma Letters1(a: Digit)
    ensures Letters([a]) == [LetterCode(a)]
  {
    assert [a][1..] == [];
  }

  lemma Letters2(a: Digit, b: Digit)
    ensures Letters([a, b]) == [LetterCode(a), LetterCode(b)]
  {
    Letters1(b);
    assert [a, b][1..] == [b];
  }

  lemma Letters3(a: Digit, b: Digit, c: Digit)
    ensures Letters([a, b, c]) == [LetterCode(a), LetterCode(b), LetterCode(c)]
  {
    Letters2(b, c);
    assert [a, b, c][1..] == [b, c];
  }

  /** Nothing is left: the parts written are put together. */
  lemma Finished(b: seq<Rune>, basic: seq<int>, cs: seq<int>)
    requires basic == AtMost(b, 127) && |basic| < |b| && Cursor(b, 128, 0, 128, 0)
    requires EncodeFrom(b, 128, 0, 128, 0, 72) == Some(cs)
    ensures Encoded(b) == Some(Characters("xn--") + (if basic == [] then [] else basic + ['-' as int]) + cs)
  {
    hide EncodeFrom, AtMost, Cursor;
    assert Characters("xn--") == PREFIX;
  }

  lemma AllDone(b: seq<Rune>, n: int, n0: int, i0: int, bias: int)
    requires Cursor(b, n, 0, n0, i0) && |Handled(b, n, 0)| == |b|
    ensures EncodeFrom(b, n, 0, n0, i0, bias) == Some([])
  {
    hide EncodeFrom, Handled, AtMost, Cursor;
    NothingLeft(b, n, 0, n0, i0, bias);
  }

  lemma BeforeSome(a: seq<int>, c: seq<int>)
    ensures Before(a, Some(c)) == Some(a + c)
  {
  }

  lemma OneDigit(q: int, k: int, bias: int, d: Digit, q': int)
    requires q >= TFunc(k, bias) && d == TFunc(k, bias) + (q - TFunc(k, bias)) % (36 - TFunc(k, bias))
    requires q' == (q - TFunc(k, bias)) / (36 - TFunc(k, bias)) >= 0
    ensures VarDigits(q, k, bias) == [d] + VarDigits(q', k + 36, bias)
  {
  }

  lemma LastDigit(q: Digit, k: int, bias: int)
    requires q < TFunc(k, bias)
    ensures VarDigits(q, k, bias) == [q]
  {
  }

  // ----- two ideographs -----

  lemma ZhongguoDigits()
    ensures VarDigits(19885, 36, 72) == [5, 8, 16] && Adapt(19885, 1, true) == 21
    ensures VarDigits(4512, 36, 21) == [18, 34, 18]
  {
    hide VarDigits;
    LastDigit(16, 108, 72);
    OneDigit(568, 72, 72, 8, 16);
    OneDigit(19885, 36, 72, 5, 568);
    LastDigit(18, 108, 21);
    OneDigit(214, 72, 21, 34, 18);
    OneDigit(4512, 36, 21, 18, 214);
    assert [5] + ([8] + [16]) == [5, 8, 16] && [18] + ([34] + [18]) == [18, 34, 18];
  }

  lemma ZhongguoHandled(b: seq<Rune>)
    requires b == [0x4E2D, 0x56FD]
    ensures AtMost(b, 127) == [] && AtMost(b[..0], 0x4E2D) == [] && AtMost(b[..1], 0x56FD) == [0x4E2D]
  {
    assert b[..0] == [] && b[..1] == [0x4E2D] && b[1..] == [0x56FD] && [0x56FD][1..] == [] && [0x4E2D][1..] == [];
  }

  /** The two code points of China: the first delta is divided by 700, and the bias becomes 21. */
  lemma Zhongguo()
    ensures Encoded([0x4E2D, 0x56FD]) == Some(Characters("xn--fiqs8s"))
  {
    hide EncodeFrom, Handled, VarDigits, Letters, Adapt, Before, FitsFrom, AtMost, Cursor, Encoded;
    var b: seq<Rune> := [0x4E2D, 0x56FD];
    StartCursor(b);
    ZhongguoHandled(b);
    ZhongguoDigits();
    Letters3(5, 8, 16);
    Letters3(18, 34, 18);
    var fiq, s8s := [102, 105, 113], [115, 56, 115];
    EmitOne(b, 128, 0x4E2D, 0, 128, 0, 72, 0, 0, fiq, 19885);
    EmitOne(b, 0x4E2E, 0x56FD, 1, 0x4E2D, 1, 21, 1, 1, s8s, 4512);
    var bias := Adapt(4512, 2, false);
    AllDone(b, 0x56FE, 0x56FD, 2, bias);
    BeforeSome(s8s, []);
    BeforeSome(fiq, s8s + []);
    Finished(b, [], fiq + (s8s + []));
    assert Characters("xn--") + [] + (fiq + (s8s + [])) == Characters("xn--fiqs8s");
  }

  // ----- three letters with umlauts -----

  lemma UmlautDigits()
    ensures VarDigits(100, 36, 72) == [30, 2, 0] && Adapt(100, 1, true) == 0
    ensures VarDigits(36, 36, 0) == [26, 1] && Adapt(36, 2, false) == 14
    ensures VarDigits(18, 36, 14) == [18]
  {
    hide VarDigits;
    LastDigit(0, 108, 72);
    OneDigit(2, 72, 72, 2, 0);
    OneDigit(100, 36, 72, 30, 2);
    LastDigit(1, 72, 0);
    OneDigit(36, 36, 0, 26, 1);
    LastDigit(18, 36, 14);
    assert [30] + ([2] + [0]) == [30, 2, 0] && [26] + [1] == [26, 1];
  }

  lemma UmlautsHandled(b: seq<Rune>)
    requires b == [228, 246, 252]
    ensures AtMost(b, 127) == [] && AtMost(b[..0], 228) == [] && |AtMost(b[..1], 246)| == 1 && |AtMost(b[..2], 252)| == 2
  {
    assert b[..0] == [] && b[..1] == [228] && b[..2] == [228] + [246];
    assert b[1..] == [246, 252] && [246, 252][1..] == [252] && [252][1..] == [];
    AtMostAppend([228], [246], 252);
  }

  /** Three code points: a, o and u with umlauts. The bias becomes 0 and then 14. */
  lemma Umlauts()
    ensures Encoded([228, 246, 252]) == Some(Characters("xn--4ca0bs"))
  {
    hide EncodeFrom, Handled, VarDigits, Letters, Adapt, Before, FitsFrom, AtMost, Cursor, Encoded;
    var b: seq<Rune> := [228, 246, 252];
    StartCursor(b);
    UmlautsHandled(b);
    UmlautDigits();
    Letters3(30, 2, 0);
    Letters2(26, 1);
    Letters1(18);
    var first, second, third := [52, 99, 97], [48, 98], [115];
    EmitOne(b, 128, 228, 0, 128, 0, 72, 0, 0, first, 100);
    EmitOne(b, 229, 246, 1, 228, 1, 0, 1, 1, second, 36);
    EmitOne(b, 247, 252, 2, 246, 2, 14, 2, 2, third, 18);
    AllDone(b, 253, 252, 3, Adapt(18, 3, false));
    BeforeSome(third, []);
    BeforeSome(second, third + []);
    BeforeSome(first, second + (third + []));
    Finished(b, [], first + (second + (third + [])));
    assert Characters("xn--") + [] + (first + (second + (third + []))) == Characters("xn--4ca0bs");
  }

  // ----- a label with ASCII characters -----

  lemma BucherDigits()
    ensures VarDigits(745, 36, 72) == [10, 21, 0]
  {
    hide VarDigits;
    LastDigit(0, 108, 72);
    OneDigit(21, 72, 72, 21, 0);
    OneDigit(745, 36, 72, 10, 21);
    assert [10] + ([21] + [0]) == [10, 21, 0];
  }

  lemma BucherHandled(b: seq<Rune>, rest: seq<Rune>)
    requires rest == [99, 104, 101, 114] && b == [98] + ([252] + rest)
    ensures AtMost(b, 127) == Characters("bcher") && |AtMost(b[..1], 252)| == 1
  {
    hide AtMost;
    AtMostNothing(127);
    AtMostNothing(252);
    AtMostAll(rest, 127);
    assert [98] + [] == [98] && [252] + rest == [252] + rest;
    AtMostCons(98, [252] + rest, 127);
    AtMostCons(252, rest, 127);
    AtMostCons(98, [], 252);
    assert b[..1] == [98];
    assert [98] + ([] + rest) == Characters("bcher");
  }

  lemma AtMostNothing(n: int)
    ensures AtMost([], n) == []
  {
  }

  /** The ASCII characters come first, and then a '-'. */
  lemma Bucher()
    ensures Encoded([98, 252, 99, 104, 101, 114]) == Some(Characters("xn--bcher-kva"))
  {
    hide EncodeFrom, Handled, VarDigits, Letters, Adapt, Before, FitsFrom, AtMost, Cursor, Encoded;
    var b: seq<Rune> := [98, 252, 99, 104, 101, 114];
    assert b == [98] + ([252] + [99, 104, 101, 114]);
    BucherHandled(b, [99, 104, 101, 114]);
    StartCursor(b);
    BucherDigits();
    Letters3(10, 21, 0);
    var kva := [107, 118, 97];
    EmitOne(b, 128, 252, 1, 128, 0, 72, 5, 1, kva, 745);
    AllDone(b, 253, 252, 2, Adapt(745, 6, true));
    BeforeSome(kva, []);
    var basic := Characters("bcher");
    Finished(b, basic, kva + []);
    assert Characters("xn--") + (basic + ['-' as int]) + (kva + []) == Characters("xn--bcher-kva");
  }
}
