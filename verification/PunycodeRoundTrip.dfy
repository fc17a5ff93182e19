/**
  The round trip through the encoder and the decoder of idn/punycode.go.

  A label with a code point above 127 comes back exactly when it has no '-' and the gaps between its code points fit
  the 32-bit arithmetic. An all-ASCII label is encoded as itself; whether it comes back depends on what the decoder
  makes of it, and the decoder may panic.
  */
module PunycodeRoundTrip {
  import opened Arith
  import opened Options
  import opened PunycodeDigits
  import opened PunycodeCodec
  import opened PunycodeDecode

  // ----- the simulation -----

  /**
    With the decoder at (n0, i0) and its output equal to what the encoder has handled, replaying what the encoder still
    emits rebuilds the label exactly when every position to come fits 31 bits.
    */
  lemma {:induction false} Replay(b: seq<Rune>, n: int, j: int, n0: int, i0: int, bias: int)
    requires Cursor(b, n, j, n0, i0) && bias >= 0 && |b| < INT32 - 1
    ensures Rebuilt(b, EncodeFrom(b, n, j, n0, i0, bias), n0, i0, bias, Handled(b, n, j)) <==> FitsFrom(b, n, j, n0, i0)
    decreases MAXRUNE + 1 - n, |b| - j
  {
    hide DecodeFrom, Delta, AtMost, Handled, Adapt, EncodeFrom, FitsFrom;
    if n > MAXRUNE {
      EncodeEnd(b, n, j, n0, i0, bias);
      HandledPass(b, MAXRUNE);
      AtMostAll(b, MAXRUNE);
      NoDigits(n0, i0, bias, b);
    } else if j == |b| {
      EncodePassEnd(b, n, n0, i0, bias);
      HandledPass(b, n);
      Replay(b, n + 1, 0, n0, i0, bias);
    } else {
      HandledStep(b, n, j);
      EncodeStep(b, n, j, n0, i0, bias);
      if b[j] != n {
        Replay(b, n, j + 1, n0, i0, bias);
      } else if i0 + Delta(b, n, j, n0, i0) < INT32 {
        ReplayEmission(b, n, j, n0, i0, bias);
        Replay(b, n, j + 1, n, |AtMost(b[..j], n)| + 1, NextBias(b, n, j, n0, i0));
      } else {
        ReplayAstray(b, n, j, n0, i0, bias);
      }
    }
  }

  /** Decoding what is encoded, from the given state of the decoder on, yields the label. */
  ghost predicate Rebuilt(b: seq<int>, cs: Option<seq<int>>, n: int, i: int, bias: int, out: seq<int>) {
    cs.Some? && DecodeFrom(cs.value, n, i, bias, out) == Text(b)
  }

  ghost function NextBias(b: seq<Rune>, n: int, j: int, n0: int, i0: int): (bias: int)
    requires Cursor(b, n, j, n0, i0)
    ensures bias >= 0
  {
    DeltaNonneg(b, n, j, n0, i0);
    Adapt(Delta(b, n, j, n0, i0), |Handled(b, n, j)| + 1, i0 == 0)
  }

  /** One emission, replayed. */
  lemma ReplayEmission(b: seq<Rune>, n: int, j: int, n0: int, i0: int, bias: int)
    requires Cursor(b, n, j, n0, i0) && bias >= 0
    requires n <= MAXRUNE && j < |b| && b[j] == n && i0 + Delta(b, n, j, n0, i0) < INT32
    ensures Cursor(b, n, j + 1, n, |AtMost(b[..j], n)| + 1)
    ensures Rebuilt(b, EncodeFrom(b, n, j, n0, i0, bias), n0, i0, bias, Handled(b, n, j))
        <==> Rebuilt(b, EncodeFrom(b, n, j + 1, n, |AtMost(b[..j], n)| + 1, NextBias(b, n, j, n0, i0)),
                     n, |AtMost(b[..j], n)| + 1, NextBias(b, n, j, n0, i0), Handled(b, n, j + 1))
  {
    hide DecodeFrom, AtMost, Handled, VarDigits, Letters, Adapt, EncodeFrom, Times, TruncDiv, TruncMod, Wrap;
    CursorStep(b, n, j, n0, i0);
    DeltaNonneg(b, n, j, n0, i0);
    HandledBounds(b, n, j);
    HandledStep(b, n, j);
    EncodeStep(b, n, j, n0, i0, bias);
    var delta := Delta(b, n, j, n0, i0);
    var idx := |AtMost(b[..j], n)|;
    var out := Handled(b, n, j);
    WrapFits(delta);
    Position(delta, n - n0, |out| + 1, idx, i0);
    var tail := EncodeFrom(b, n, j + 1, n, idx + 1, NextBias(b, n, j, n0, i0));
    if tail.Some? {
      ReplayOne(delta, n0, i0, bias, out, n, idx, tail.value);
    }
  }

  lemma Position(delta: int, rounds: int, ln: int, idx: int, i0: int)
    requires delta == Times(rounds, ln) + idx - i0 && 0 <= idx < ln && i0 + delta >= 0
    ensures TruncDiv(i0 + delta, ln) == rounds && TruncMod(i0 + delta, ln) == idx
  {
    DivUnique(i0 + delta, ln, rounds, idx);
    TruncNonneg(i0 + delta, ln);
  }

  /** One emitted delta makes the decoder insert n at idx. */
  lemma ReplayOne(delta: int, n0: int, i0: int, bias: int, out: seq<int>, n: int, idx: int, tail: seq<int>)
    requires delta >= 0 && i0 >= 0 && delta + i0 < INT32 && bias >= 0
    requires 0 <= idx <= |out| && 0 <= n0 <= n <= MAXRUNE
    requires TruncDiv(i0 + delta, |out| + 1) == n - n0 && TruncMod(i0 + delta, |out| + 1) == idx
    ensures DecodeFrom(Letters(VarDigits(delta, BASE, bias)) + tail, n0, i0, bias, out)
         == DecodeFrom(tail, n, idx + 1, Adapt(delta, |out| + 1, i0 == 0), out[..idx] + [n] + out[idx..])
  {
    hide AdaptAny, Adapt, VarDigits, Letters, TruncDiv, TruncMod, Times, Wrap, ReadVar, DecodeFrom;
    ReadEmitted(delta, i0, bias, tail);
    WrapFits(i0 + delta);
    WrapFits(n);
    var cs := Letters(VarDigits(delta, BASE, bias)) + tail;
    DecodeStep(cs, n0, i0, bias, out, i0 + delta, tail, Adapt(delta, |out| + 1, i0 == 0), idx, n);
  }

  /** The decoder reads a delta the encoder wrote, and adapts to it. */
  lemma ReadEmitted(delta: int, i0: int, bias: int, tail: seq<int>)
    requires 0 <= delta < INT32 && 0 <= i0 < INT32
    ensures ReadVar(Letters(VarDigits(delta, BASE, bias)) + tail, i0, 1, BASE, bias) == Read(Wrap(i0 + delta), tail)
    ensures Wrap(Wrap(i0 + delta) - i0) == delta
    ensures Letters(VarDigits(delta, BASE, bias)) + tail != []
  {
    assert Times(delta, 1) == delta;
    hide VarDigits, Letters, Times, Wrap, ReadVar;
    ReadInvertsWrite(delta, BASE, bias, i0, 1, tail);
    WrapFits(i0);
    WrapFits(1);
    WrapFits(delta);
    WrapInner(-i0, i0 + delta);
  }

  /** One round of the decoder's loop. */
  lemma DecodeStep(cs: seq<int>, n: int, i: int, bias: int, out: seq<int>,
                   i1: int, tail: seq<int>, bias': int, idx: int, n': int)
    requires cs != [] && ReadVar(cs, i, 1, BASE, bias) == Read(i1, tail)
    requires AdaptAny(Wrap(i1 - i), |out| + 1, i == 0) == Some(bias')
    requires idx == TruncMod(i1, |out| + 1)
    requires n' == Wrap(n + TruncDiv(i1, |out| + 1))
    ensures DecodeFrom(cs, n, i, bias, out) ==
            if 0 <= idx <= |out| then DecodeFrom(tail, n', idx + 1, bias', Insert(out, idx, n')) else Panic
  {
    hide AdaptAny, TruncDiv, TruncMod, Wrap, ReadVar, Insert;
  }

  // ----- a position beyond 31 bits -----

  lemma AtMostInsert(out: seq<int>, idx: nat, x: int, m: int)
    requires idx <= |out|
    ensures |AtMost(Insert(out, idx, x), m)| == |AtMost(out, m)| + if x <= m then 1 else 0
  {
    AtMostAppend(out[..idx] + [x], out[idx..], m);
    AtMostAppend(out[..idx], [x], m);
    AtMostAppend(out[..idx], out[idx..], m);
    assert out[..idx] + out[idx..] == out;
  }

  /** The decoder takes nothing out again. */
  lemma {:induction false} DecodeKeeps(b: seq<int>, n: int, i: int, bias: int, out: seq<int>, m: int)
    ensures var r := DecodeFrom(b, n, i, bias, out); r.Text? ==> |AtMost(r.chars, m)| >= |AtMost(out, m)|
    decreases |b|
  {
    hide AdaptAny, TruncDiv, TruncMod, Wrap, ReadVar, AtMost, Insert;
    if b != [] {
      match ReadVar(b, i, 1, BASE, bias)
      case BadDigit =>
      case Read(i1, rest) =>
        var ln := |out| + 1;
        var adapted := AdaptAny(Wrap(i1 - i), ln, i == 0);
        var idx := TruncMod(i1, ln);
        if adapted.Some? && 0 <= idx < ln {
          var n' := Wrap(n + TruncDiv(i1, ln));
          DecodeKeeps(rest, n', idx + 1, adapted.value, Insert(out, idx, n'), m);
          AtMostInsert(out, idx, n', m);
        }
    }
  }

  /** What is handled has all the smaller code points of the label. */
  lemma {:induction false} AtMostTwice(b: seq<int>, n: int, m: int)
    requires m <= n
    ensures AtMost(AtMost(b, n), m) == AtMost(b, m)
  {
    if b != [] {
      AtMostTwice(b[1..], n, m);
      if b[0] <= n {
        AtMostCons(b[0], AtMost(b[1..], n), m);
      }
    }
  }

  lemma HandledBelow(b: seq<Rune>, n: int, j: int)
    requires 0 <= j <= |b|
    ensures AtMost(Handled(b, n, j), n - 1) == AtMost(b, n - 1)
  {
    hide AtMost;
    AtMostAppend(AtMost(b[..j], n), AtMost(b[j..], n - 1), n - 1);
    AtMostTwice(b[..j], n, n - 1);
    AtMostTwice(b[j..], n - 1, n - 1);
    AtMostAppend(b[..j], b[j..], n - 1);
    assert b[..j] + b[j..] == b;
  }

  /** A position that has wrapped lies before the one meant. */
  lemma WrappedPosition(far: int, rounds: int, ln: int, idx: int)
    requires far == Times(rounds, ln) + idx && 0 <= idx < ln <= INT32 && far >= INT32
    ensures TruncMod(Wrap(far), ln) >= 0 ==> -INT32 <= TruncDiv(Wrap(far), ln) < rounds
  {
    hide Times;
    var near := Wrap(far);
    assert near <= far - 2 * INT32 by {
      hide TruncDiv, TruncMod;
      assert near == far + Quotient(far) * (2 * INT32);
    }
    if near >= 0 {
      TruncNonneg(near, ln);
      NearRounds(near, far, rounds, ln, idx);
    } else {
      NegativeRounds(near, ln);
      RoundsPositive(far, rounds, ln, idx);
    }
  }

  lemma RoundsPositive(far: int, rounds: int, ln: int, idx: int)
    requires far == Times(rounds, ln) + idx && 0 <= idx < ln <= far
    ensures rounds >= 1
  {
    hide Times;
    TimesAdd(0, 0, ln);
    if rounds <= 0 {
      TimesOrder(rounds, 0, ln);
    }
  }

  lemma NearRounds(near: int, far: int, rounds: int, ln: int, idx: int)
    requires far == Times(rounds, ln) + idx && 0 <= idx < ln && 0 <= near <= far - ln
    ensures 0 <= near / ln < rounds && near / ln <= near
  {
    DivMod(near, ln);
    DivBounds(near, ln);
    var q := near / ln;
    assert Times(q, ln) <= near;
    hide Times;
    if q >= rounds {
      TimesOrder(rounds, q, ln);
    }
  }

  lemma NegativeRounds(near: int, ln: int)
    requires -INT32 <= near < 0 && ln >= 1
    ensures -INT32 <= TruncDiv(near, ln) <= 0
  {
    DivBounds(-near, ln);
  }

  /** The decoder inserts a smaller code point than the one meant, if it does not panic: the label cannot come back. */
  lemma ReplayAstray(b: seq<Rune>, n: int, j: int, n0: int, i0: int, bias: int)
    requires Cursor(b, n, j, n0, i0) && bias >= 0 && |b| < INT32 - 1
    requires n <= MAXRUNE && j < |b| && b[j] == n && i0 + Delta(b, n, j, n0, i0) >= INT32
    ensures !Rebuilt(b, EncodeFrom(b, n, j, n0, i0, bias), n0, i0, bias, Handled(b, n, j))
  {
    hide DecodeFrom, AtMost, Handled, VarDigits, Letters, Adapt, EncodeFrom, TruncDiv, TruncMod, Wrap, AdaptAny, ReadVar, Insert, Times;
    EncodeStep(b, n, j, n0, i0, bias);
    HandledBounds(b, n, j);
    HandledStep(b, n, j);
    HandledBounds(b, n, j + 1);
    var far := i0 + Delta(b, n, j, n0, i0);
    var delta := Wrap(far - i0);
    var tail := EncodeFrom(b, n, j, n0, i0, bias);
    if delta < 0 || tail.None? {
      return;
    }
    var out, idx := Handled(b, n, j), |AtMost(b[..j], n)|;
    var rest := EncodeFrom(b, n, j + 1, n, idx + 1, Adapt(delta, |out| + 1, i0 == 0)).value;
    var cs := Letters(VarDigits(delta, BASE, bias)) + rest;
    ReadEmitted(delta, i0, bias, rest);
    WrapInner(i0, far - i0);
    var i1 := Wrap(far);
    WrappedPosition(far, n - n0, |out| + 1, idx);
    var idx', n' := TruncMod(i1, |out| + 1), n0 + TruncDiv(i1, |out| + 1);
    if 0 <= idx' <= |out| {
      WrapFits(n');
      DecodeStep(cs, n0, i0, bias, out, i1, rest, Adapt(delta, |out| + 1, i0 == 0), idx', n');
      var bias' := Adapt(delta, |out| + 1, i0 == 0);
      DecodeKeeps(rest, n', idx' + 1, bias', Insert(out, idx', n'), n - 1);
      AtMostInsert(out, idx', n', n - 1);
      HandledBelow(b, n, j);
    } else {
      DecodeStep(cs, n0, i0, bias, out, i1, rest, Adapt(delta, |out| + 1, i0 == 0), idx', Wrap(n'));
    }
  }

  // ----- the round trip -----

  predicate Ascii(b: seq<Rune>) {
    forall x :: x in b ==> x < FIRST
  }

  /** Encoding and decoding the label yields the label. */
  ghost predicate ComesBack(b: seq<Rune>) {
    Encoded(b).Some? && Decoded(Encoded(b).value) == Text(b)
  }

  ghost predicate Panics(b: seq<Rune>) {
    Encoded(b).Some? && Decoded(Encoded(b).value) == Panic
  }

  predicate HasBadDigit(cs: seq<int>) {
    exists c :: c in cs && DigitVal(c) == ERRDIGIT
  }

  /**
    When the round trip succeeds: a label with a code point above 127 must have no '-' (decode cuts at the first one)
    and gaps that fit; an all-ASCII label must not look like an encoded label whose digits are all readable.
    */
  ghost predicate Recoverable(b: seq<Rune>) {
    if !Ascii(b) then DELIMITER !in b && GapsFit(b)
    else PREFIX <= b ==> Extended(b[|PREFIX|..]) == [] || HasBadDigit(Extended(b[|PREFIX|..]))
  }

  /** Readable digits in front of the first bad one that the decoder can always read without wrapping. */
  const SAFE_DIGITS: nat := 7

  /** An ASCII label that looks encoded, with a bad digit behind more than SAFE_DIGITS readable ones, if at all. */
  predicate LateBadDigit(b: seq<Rune>) {
    && Ascii(b) && PREFIX <= b
    && var e := Extended(b[|PREFIX|..]);
       !HasBadDigit(if |e| <= SAFE_DIGITS then e else e[..SAFE_DIGITS + 1])
  }

  /**
    Main result: a label comes back exactly when it is Recoverable, if it is not an ASCII label that looks encoded and
    whose first eight digits are readable. On such a label decode may panic before it sees the bad digit.
    */
  lemma RoundTrip(b: seq<Rune>)
    requires |b| < INT32 - 1
    ensures ComesBack(b) ==> Recoverable(b)
    ensures Recoverable(b) && !LateBadDigit(b) ==> ComesBack(b)
    ensures Recoverable(b) && LateBadDigit(b) ==> ComesBack(b) || Panics(b)
  {
    hide Encoded, Decoded, GapsFit, Extended, HasBadDigit;
    if Ascii(b) {
      RoundTripAscii(b);
    } else if DELIMITER in b {
      RoundTripDash(b);
    } else {
      RoundTripExtended(b);
    }
  }

  lemma {:induction false} AtMostMember(b: seq<int>, n: int, x: int)
    ensures x in AtMost(b, n) <==> x in b && x <= n
  {
    if b != [] {
      AtMostMember(b[1..], n, x);
      assert b == [b[0]] + b[1..];
      AtMostCons(b[0], b[1..], n);
      assert x in b <==> x == b[0] || x in b[1..];
    }
  }

  /** Everything the sweep emits is a readable digit. */
  lemma {:induction false} EmittedDigits(b: seq<Rune>, n: int, j: int, n0: int, i0: int, bias: int)
    requires Cursor(b, n, j, n0, i0) && EncodeFrom(b, n, j, n0, i0, bias).Some?
    ensures forall c :: c in EncodeFrom(b, n, j, n0, i0, bias).value ==> 0 <= c < 128 && c != DELIMITER && DigitVal(c) != ERRDIGIT
    decreases MAXRUNE + 1 - n, |b| - j
  {
    hide EncodeFrom, AtMost, Handled, Delta, Adapt, VarDigits, Letters, DigitVal, Wrap;
    if n > MAXRUNE {
      EncodeEnd(b, n, j, n0, i0, bias);
    } else if j == |b| {
      EncodePassEnd(b, n, n0, i0, bias);
      EmittedDigits(b, n + 1, 0, n0, i0, bias);
    } else {
      EncodeStep(b, n, j, n0, i0, bias);
      if b[j] != n {
        EmittedDigits(b, n, j + 1, n0, i0, bias);
      } else {
        var delta := Wrap(Delta(b, n, j, n0, i0));
        EmittedDigits(b, n, j + 1, n, |AtMost(b[..j], n)| + 1, Adapt(delta, |Handled(b, n, j)| + 1, i0 == 0));
        LettersReadable(VarDigits(delta, BASE, bias));
      }
    }
  }

  lemma LettersReadable(ds: seq<Digit>)
    ensures forall c :: c in Letters(ds) ==> 0 <= c < 128 && c != DELIMITER && DigitVal(c) != ERRDIGIT
  {
  }

  /** How an encoded label with a code point above 127 falls apart: literal, delimiter, digits. */
  lemma EncodedParts(b: seq<Rune>, basic: seq<int>, tail: seq<int>, p: seq<int>)
    requires !Ascii(b) && Cursor(b, FIRST, 0, FIRST, 0)
    requires basic == AtMost(b, FIRST - 1)
    requires EncodeFrom(b, FIRST, 0, FIRST, 0, FIRST_BIAS) == Some(tail)
    requires p == (if basic == [] then [] else basic + [DELIMITER]) + tail
    ensures Encoded(b) == Some(PREFIX + p) && (PREFIX + p)[|PREFIX|..] == p
    ensures DELIMITER in basic <==> DELIMITER in b
    ensures DELIMITER !in tail
    ensures forall c :: c in PREFIX + p ==> c < FIRST
  {
    hide EncodeFrom, AtMost, Cursor, DigitVal;
    AtMostAll(b, FIRST - 1);
    EmittedDigits(b, FIRST, 0, FIRST, 0, FIRST_BIAS);
    AtMostMember(b, FIRST - 1, DELIMITER);
    assert PREFIX + p == PREFIX + (if basic == [] then [] else basic + [DELIMITER]) + tail;
    forall c | c in basic ensures c < FIRST {
      AtMostMember(b, FIRST - 1, c);
    }
  }

  /** Splitting an encoded label at its first delimiter. */
  lemma SplitParts(basic: seq<int>, tail: seq<int>, p: seq<int>)
    requires p == (if basic == [] then [] else basic + [DELIMITER]) + tail
    requires DELIMITER !in basic && DELIMITER !in tail
    ensures Literal(p) == basic && Extended(p) == tail
  {
    if basic == [] {
      assert p == tail;
      FirstIs(p, |p|);
    } else {
      assert p[|basic|] == DELIMITER;
      FirstIs(p, |basic|);
      assert p[..|basic|] == basic && p[|basic| + 1..] == tail;
    }
  }

  /** The encoder panics only on a label whose gaps do not fit. */
  lemma RoundTripExtended(b: seq<Rune>)
    requires |b| < INT32 - 1 && !Ascii(b) && DELIMITER !in b
    ensures ComesBack(b) <==> GapsFit(b)
  {
    hide DecodeFrom, EncodeFrom, FitsFrom, Literal, Extended, Cursor, Handled, AtMost, Delta, GapsFit;
    StartCursor(b);
    GapsFromStart(b);
    Replay(b, FIRST, 0, FIRST, 0, FIRST_BIAS);
    AtMostAll(b, FIRST - 1);
    var basic: seq<int> := AtMost(b, FIRST - 1);
    var e := EncodeFrom(b, FIRST, 0, FIRST, 0, FIRST_BIAS);
    if e.Some? {
      var p := (if basic == [] then [] else basic + [DELIMITER]) + e.value;
      EncodedParts(b, basic, e.value, p);
      SplitParts(basic, e.value, p);
      NoDigits(FIRST, 0, FIRST_BIAS, basic);
      NotAsItIs(b, p);
    }
  }

  /** What is encoded is not the label. */
  lemma NotAsItIs(b: seq<Rune>, p: seq<int>)
    requires !Ascii(b) && forall c :: c in PREFIX + p ==> c < FIRST
    ensures PREFIX + p != b
  {
    var x :| x in b && x >= FIRST;
    assert x !in PREFIX + p;
  }

  lemma NoDigits(n: int, i: int, bias: int, out: seq<int>)
    ensures DecodeFrom([], n, i, bias, out) == Text(out)
  {
  }

  /** A '-' among the ASCII characters makes decode meet a '-' where it expects a digit. */
  lemma RoundTripDash(b: seq<Rune>)
    requires !Ascii(b) && DELIMITER in b
    ensures !ComesBack(b)
  {
    hide DecodeFrom, EncodeFrom, Literal, Extended, Cursor, Handled, AtMost, Delta;
    StartCursor(b);
    AtMostAll(b, FIRST - 1);
    var basic: seq<int> := AtMost(b, FIRST - 1);
    var e := EncodeFrom(b, FIRST, 0, FIRST, 0, FIRST_BIAS);
    if e.Some? {
      var p := (if basic == [] then [] else basic + [DELIMITER]) + e.value;
      EncodedParts(b, basic, e.value, p);
      assert p == basic + [DELIMITER] + e.value;
      DashAfterFirst(basic, p);
      BadDigitFails(Extended(p), FIRST, 0, FIRST_BIAS, Literal(p));
      NotAsItIs(b, p);
    }
  }

  lemma DashAfterFirst(basic: seq<int>, p: seq<int>)
    requires DELIMITER in basic && basic + [DELIMITER] <= p
    ensures DELIMITER in Extended(p) && DigitVal(DELIMITER) == ERRDIGIT
  {
    var k := FirstDelimiter(p);
    var q :| 0 <= q < |basic| && basic[q] == DELIMITER;
    assert p[q] == DELIMITER;
    assert p[|basic|] == DELIMITER;
    assert p[k + 1..][|basic| - k - 1] == p[|basic|];
  }

  lemma {:induction false} ReadMeetsBadDigit(b: seq<int>, i: int, w: int, k: int, bias: int)
    ensures var r := ReadVar(b, i, w, k, bias);
            if r.BadDigit? then HasBadDigit(b)
            else HasBadDigit(b) ==> HasBadDigit(r.rest)
    ensures var r := ReadVar(b, i, w, k, bias);
            r.Read? ==> forall c :: c in r.rest ==> c in b
    decreases |b|
  {
    if b != [] && DigitVal(b[0]) != ERRDIGIT {
      var digit := DigitVal(b[0]);
      var t := TFunc(k, bias);
      assert b == [b[0]] + b[1..];
      if digit >= t {
        ReadMeetsBadDigit(b[1..], Weighted(i, digit, w), NextWeight(w, t), k + BASE, bias);
      }
    }
  }

  /** decode's loop reports a bad digit exactly when there is one, unless it panics first. */
  lemma {:induction false} BadDigitFails(b: seq<int>, n: int, i: int, bias: int, out: seq<int>)
    ensures var r := DecodeFrom(b, n, i, bias, out);
            r.Malformed? ==> HasBadDigit(b)
    ensures var r := DecodeFrom(b, n, i, bias, out);
            HasBadDigit(b) ==> !r.Text?
    decreases |b|
  {
    hide AdaptAny, TruncDiv, TruncMod, Wrap, ReadVar, Insert, DigitVal;
    if b != [] {
      ReadMeetsBadDigit(b, i, 1, BASE, bias);
      match ReadVar(b, i, 1, BASE, bias)
      case BadDigit =>
      case Read(i1, rest) =>
        var ln := |out| + 1;
        var adapted := AdaptAny(Wrap(i1 - i), ln, i == 0);
        var idx := TruncMod(i1, ln);
        if adapted.Some? && 0 <= idx < ln {
          var n' := Wrap(n + TruncDiv(i1, ln));
          BadDigitFails(rest, n', idx + 1, adapted.value, Insert(out, idx, n'));
        }
    }
  }

  lemma RoundTripAscii(b: seq<Rune>)
    requires Ascii(b)
    ensures Encoded(b) == Some(b)
    ensures Decoded(b) == Text(b) ==> Recoverable(b)
    ensures Recoverable(b) && !LateBadDigit(b) ==> Decoded(b) == Text(b)
    ensures Recoverable(b) ==> Decoded(b) == Text(b) || (PREFIX <= b && Decoded(b) == Panic)
  {
    hide DecodeFrom, AtMost, EncodeFrom, Extended, Literal;
    AtMostAll(b, FIRST - 1);
    if PREFIX <= b {
      var p: seq<int> := b[|PREFIX|..];
      var e := Extended(p);
      BadDigitFails(e, FIRST, 0, FIRST_BIAS, Literal(p));
      PartsShorter(p);
      if !LateBadDigit(b) {
        var x := EarlyBadDigit(e);
        EarlyBadDigitFound(e, x, Literal(p));
      }
    }
  }

  /** What is decoded is shorter than what was encoded, so it is not that. */
  lemma PartsShorter(p: seq<int>)
    ensures |Literal(p)| + |Extended(p)| <= |p|
  {
  }

  lemma EarlyBadDigit(e: seq<int>) returns (x: nat)
    requires HasBadDigit(if |e| <= SAFE_DIGITS then e else e[..SAFE_DIGITS + 1])
    ensures x < |e| && x <= SAFE_DIGITS && DigitVal(e[x]) == ERRDIGIT
  {
    var f := if |e| <= SAFE_DIGITS then e else e[..SAFE_DIGITS + 1];
    x :| x < |f| && DigitVal(f[x]) == ERRDIGIT;
  }

  // ----- seven digits are safe -----

  /** The most that m digits from position k on can add, in units of the weight of the first. */
  function Most(m: nat, k: int, bias: int): (s: nat) {
    if m == 0 then 0 else 35 + (BASE - TFunc(k, bias)) * Most(m - 1, k + BASE, bias)
  }

  /** The most for any bias. */
  function AnyMost(m: nat): (s: nat) {
    if m == 0 then 0 else 35 + 35 * AnyMost(m - 1)
  }

  lemma {:induction false} MostBounded(m: nat, k: int, bias: int)
    ensures Most(m, k, bias) <= AnyMost(m)
  {
    if m > 0 {
      MostBounded(m - 1, k + BASE, bias);
      TimesMonotone(BASE - TFunc(k, bias), 35, Most(m - 1, k + BASE, bias), AnyMost(m - 1));
    }
  }

  lemma AnyMostTable()
    ensures AnyMost(0) == 0 && AnyMost(1) == 35 && AnyMost(2) == 1260 && AnyMost(3) == 44135 && AnyMost(4) == 1544760
    ensures AnyMost(5) == 54066635 && AnyMost(6) == 1892332260
  {
    assert AnyMost(2) == 1260;
    assert AnyMost(4) == 1544760;
  }

  /** The first number is read with the initial bias, whose thresholds keep the weights small. */
  lemma FirstMost()
    ensures Most(SAFE_DIGITS, BASE, FIRST_BIAS) == 476385385
  {
    assert Most(1, 252, FIRST_BIAS) == 35;
    assert Most(2, 216, FIRST_BIAS) == 385;
    assert Most(3, 180, FIRST_BIAS) == 3885;
    assert Most(4, 144, FIRST_BIAS) == 38885;
    assert Most(5, 108, FIRST_BIAS) == 388885;
    assert Most(6, 72, FIRST_BIAS) == 13611010;
  }

  /** What one digit takes from the budget. */
  lemma Budget(i: int, d: int, w: int, t: int, more: nat)
    requires 0 <= d <= 35 && TMIN <= t <= TMAX && w >= 1
    ensures 0 <= d * w && 1 <= w * (BASE - t) <= Times(w, 35 + (BASE - t) * more)
    ensures i + d * w + Times(w * (BASE - t), more) <= i + Times(w, 35 + (BASE - t) * more)
    ensures d * w <= Times(w, 35 + (BASE - t) * more)
  {
    var f := BASE - t;
    TimesMonotone(d, 35, w, w);
    TimesMonotone(f, 35, w, w);
    TimesMonotone(1, f, 1, w);
    TimesMonotone(0, f, 0, more);
    TimesMonotone(0, w, 0, f * more);
    assert w * (35 + f * more) == w * 35 + w * (f * more);
    assert w * (f * more) == (w * f) * more;
  }

  /** A number in front of the bad digit at m, read without wrapping: it ends at the bad digit or before. */
  lemma {:induction false} ReadBounded(b: seq<int>, m: nat, i: int, w: int, k: int, bias: int)
    requires m < |b| && DigitVal(b[m]) == ERRDIGIT
    requires i >= 0 && w >= 1 && i + Times(w, Most(m, k, bias)) < INT32
    ensures var r := ReadVar(b, i, w, k, bias);
            r.Read? ==> exists c :: 1 <= c <= m && NumberRead(b, i, w, k, bias, c)
    decreases |b|
  {
    if m > 0 && DigitVal(b[0]) != ERRDIGIT {
      hide Times, Most, DigitVal;
      var d, t := DigitVal(b[0]), TFunc(k, bias);
      ReadUnwrapped(b, m, i, w, k, bias);
      if d < t {
        MostOne(k, bias);
        Budget(i, d, w, t, 0);
        assert NumberRead(b, i, w, k, bias, 1);
      } else {
        ReadBounded(b[1..], m - 1, i + d * w, w * (BASE - t), k + BASE, bias);
        if ReadVar(b, i, w, k, bias).Read? {
          var c :| 1 <= c <= m - 1 && NumberRead(b[1..], i + d * w, w * (BASE - t), k + BASE, bias, c);
          MostMore(c + 1, k, bias);
          Budget(i, d, w, t, Most(c, k + BASE, bias));
          assert b[1..][c..] == b[c + 1..];
          assert NumberRead(b, i, w, k, bias, c + 1);
        }
      }
    }
  }

  /** The number at the front of b takes c digits and is no more than these can make it. */
  ghost predicate NumberRead(b: seq<int>, i: int, w: int, k: int, bias: int, c: nat) {
    var r := ReadVar(b, i, w, k, bias);
    c <= |b| && r.Read? && r.rest == b[c..] && i <= r.i <= i + Times(w, Most(c, k, bias))
  }

  lemma MostOne(k: int, bias: int)
    ensures Most(1, k, bias) == 35 + (BASE - TFunc(k, bias)) * 0
  {
  }

  lemma MostMore(m: nat, k: int, bias: int)
    requires m > 0
    ensures Most(m, k, bias) == 35 + (BASE - TFunc(k, bias)) * Most(m - 1, k + BASE, bias)
  {
  }

  /** One digit read without wrapping. */
  lemma ReadUnwrapped(b: seq<int>, m: nat, i: int, w: int, k: int, bias: int)
    requires 0 < m < |b| && 0 <= DigitVal(b[0]) < BASE && i >= 0 && w >= 1 && i + Times(w, Most(m, k, bias)) < INT32
    ensures var d, t := DigitVal(b[0]), TFunc(k, bias);
            && w * (BASE - t) >= 1 && i + d * w >= i
            && i + d * w + Times(w * (BASE - t), Most(m - 1, k + BASE, bias)) < INT32
            && ReadVar(b, i, w, k, bias) ==
               if d < t then Read(i + d * w, b[1..]) else ReadVar(b[1..], i + d * w, w * (BASE - t), k + BASE, bias)
  {
    hide Times, DigitVal;
    var d, t := DigitVal(b[0]), TFunc(k, bias);
    Budget(i, d, w, t, Most(m - 1, k + BASE, bias));
    hide Wrap, Most;
    MostMore(m, k, bias);
    WrapFits(d * w);
    WrapFits(i + d * w);
    WrapFits(w * (BASE - t));
  }

  /** One round in front of a bad digit. */
  lemma SafeRound(b: seq<int>, m: nat, n: int, i: int, bias: int, out: seq<int>)
    returns (c: nat, n': int, i': int, bias': int, out': seq<int>)
    requires m < |b| && DigitVal(b[m]) == ERRDIGIT
    requires i >= 0 && i + Most(m, BASE, bias) < INT32
    ensures DecodeFrom(b, n, i, bias, out) == Malformed ||
            (1 <= c <= m && 0 <= i' <= i + Most(c, BASE, bias) + 1
             && DecodeFrom(b, n, i, bias, out) == DecodeFrom(b[c..], n', i', bias', out'))
  {
    hide AdaptAny, TruncDiv, TruncMod, Wrap, ReadVar, Insert, DigitVal, Most, Times;
    TimesAdd(0, 0, Most(m, BASE, bias));
    ReadBounded(b, m, i, 1, BASE, bias);
    c, n', i', bias', out' := 0, 0, 0, 0, [];
    var r := ReadVar(b, i, 1, BASE, bias);
    if r.Read? {
      c :| 1 <= c <= m && NumberRead(b, i, 1, BASE, bias, c);
      TimesAdd(0, 0, Most(c, BASE, bias));
      var ln := |out| + 1;
      MostGrows(c, m, BASE, bias);
      WrapFits(r.i - i);
      Remainder(r.i, ln);
      bias', n', i' := AdaptAny(Wrap(r.i - i), ln, i == 0).value, Wrap(n + TruncDiv(r.i, ln)), TruncMod(r.i, ln) + 1;
      out' := Insert(out, i' - 1, n');
    }
  }

  lemma {:induction false} MostGrows(c: nat, m: nat, k: int, bias: int)
    requires c <= m
    ensures Most(c, k, bias) <= Most(m, k, bias)
  {
    if c > 0 {
      MostGrows(c - 1, m - 1, k + BASE, bias);
      var f := BASE - TFunc(k, bias);
      TimesMonotone(f, f, Most(c - 1, k + BASE, bias), Most(m - 1, k + BASE, bias));
    }
  }

  lemma Remainder(a: int, ln: int)
    requires a >= 0 && ln >= 1
    ensures 0 <= TruncMod(a, ln) < ln && TruncMod(a, ln) <= a
  {
    TruncNonneg(a, ln);
    DivMod(a, ln);
    DivBounds(a, ln);
    assert (a / ln) * ln >= 0;
  }

  /** Six digits together are safe, wherever numbers end. */
  lemma {:induction false} SixSafe(b: seq<int>, m: nat, n: int, i: int, bias: int, out: seq<int>)
    requires m < |b| && DigitVal(b[m]) == ERRDIGIT && m < SAFE_DIGITS
    requires i >= 0 && (m == 0 || i + AnyMost(m) < INT32)
    ensures DecodeFrom(b, n, i, bias, out) == Malformed
    decreases m
  {
    hide DecodeFrom, Most, DigitVal, AnyMost;
    if m == 0 {
      BadFirst(b, n, i, bias, out);
    } else {
      MostBounded(m, BASE, bias);
      var c, n', i', bias', out' := SafeRound(b, m, n, i, bias, out);
      if DecodeFrom(b, n, i, bias, out) != Malformed {
        MostBounded(c, BASE, bias);
        AnyMostTable();
        SixSafe(b[c..], m - c, n', i', bias', out');
      }
    }
  }

  lemma BadFirst(b: seq<int>, n: int, i: int, bias: int, out: seq<int>)
    requires b != [] && DigitVal(b[0]) == ERRDIGIT
    ensures DecodeFrom(b, n, i, bias, out) == Malformed
  {
    hide AdaptAny, TruncDiv, TruncMod, Wrap, DigitVal;
  }

  /** A bad digit behind at most seven readable ones is found: nothing wraps before. */
  lemma EarlyBadDigitFound(e: seq<int>, x: nat, out: seq<int>)
    requires x < |e| && x <= SAFE_DIGITS && DigitVal(e[x]) == ERRDIGIT
    ensures DecodeFrom(e, FIRST, 0, FIRST_BIAS, out) == Malformed
  {
    hide DecodeFrom, Most, DigitVal, AnyMost;
    AnyMostTable();
    if x < SAFE_DIGITS {
      SixSafe(e, x, FIRST, 0, FIRST_BIAS, out);
    } else {
      FirstMost();
      var c, n', i', bias', out' := SafeRound(e, x, FIRST, 0, FIRST_BIAS, out);
      if DecodeFrom(e, FIRST, 0, FIRST_BIAS, out) != Malformed {
        MostGrows(c, x, BASE, FIRST_BIAS);
        MostBounded(c, BASE, FIRST_BIAS);
        SixSafe(e[c..], x - c, n', i', bias', out');
      }
    }
  }

  // ----- eight are not -----

  const PANICKING: seq<Rune> := PREFIX + ['a' as int, DELIMITER] + EIGHT + ['!' as int]
  const EIGHT: seq<Rune> := ['r' as int, 'g' as int, '0' as int, '8' as int, '5' as int, '3' as int, '4' as int, 's' as int]

  /** An ASCII label with a bad digit behind eight readable ones, on which decode panics. */
  lemma EightDigitsPanic()
    ensures Ascii(PANICKING) && Recoverable(PANICKING) && LateBadDigit(PANICKING) && Panics(PANICKING)
  {
    hide DecodeFrom, ReadVar, EncodeFrom, AtMost, Literal, Extended, DigitVal, HasBadDigit;
    var p: seq<int> := PANICKING[|PREFIX|..];
    var e: seq<int> := EIGHT + ['!' as int];
    PanickingParts(p, e);
    BadMark(e);
    AtMostAll(PANICKING, FIRST - 1);
    EightDigitsWrap(['!' as int]);
    DecodePanics(e, ['!' as int]);
  }

  lemma PanickingParts(p: seq<int>, e: seq<int>)
    requires p == PANICKING[|PREFIX|..] && e == EIGHT + ['!' as int]
    ensures PREFIX <= PANICKING && Literal(p) == ['a' as int] && Extended(p) == e
  {
    hide FirstDelimiter;
    assert p == ['a' as int, DELIMITER] + e;
    FirstIs(p, 1);
  }

  lemma BadMark(e: seq<int>)
    requires e == EIGHT + ['!' as int]
    ensures HasBadDigit(e) && |e| == 9 && !HasBadDigit(e[..8])
  {
    assert e[8] in e && e[..8] == EIGHT;
  }

  lemma DecodePanics(e: seq<int>, rest: seq<int>)
    requires e != [] && ReadVar(e, 0, 1, BASE, FIRST_BIAS) == Read(-1682696219, rest)
    ensures DecodeFrom(e, FIRST, 0, FIRST_BIAS, ['a' as int]) == Panic
  {
    hide ReadVar, AdaptAny;
  }

  lemma ReadDigit(b: seq<int>, d: int, i: int, w: int, k: int, bias: int, i': int, w': int)
    requires b != [] && DigitVal(b[0]) == d < BASE && i' == Wrap(i + Wrap(d * w)) && w' == Wrap(w * (BASE - TFunc(k, bias)))
    ensures ReadVar(b, i, w, k, bias) ==
            if d < TFunc(k, bias) then Read(i', b[1..]) else ReadVar(b[1..], i', w', k + BASE, bias)
  {
    hide Wrap, DigitVal;
  }

  lemma EightDigitsWrap(rest: seq<int>)
    ensures ReadVar(EIGHT + rest, 0, 1, BASE, FIRST_BIAS) == Read(-1682696219, rest)
  {
    hide ReadVar;
    var b: seq<int> := EIGHT + rest;
    ReadDigit(b, 17, 0, 1, 36, FIRST_BIAS, 17, 35);
    ReadDigit(b[1..], 6, 17, 35, 72, FIRST_BIAS, 227, 1225);
    ReadDigit(b[2..], 26, 227, 1225, 108, FIRST_BIAS, 32077, 12250);
    ReadDigit(b[3..], 34, 32077, 12250, 144, FIRST_BIAS, 448577, 122500);
    ReadDigit(b[4..], 31, 448577, 122500, 180, FIRST_BIAS, 4246077, 1225000);
    ReadDigit(b[5..], 29, 4246077, 1225000, 216, FIRST_BIAS, 39771077, 12250000);
    ReadDigit(b[6..], 30, 39771077, 12250000, 252, FIRST_BIAS, 407271077, 122500000);
    ReadDigit(b[7..], 18, 407271077, 122500000, 288, FIRST_BIAS, -1682696219, 1225000000);
    assert b[8..] == rest;
  }
}
