/**
  Bootstring digits, weights and bias adaptation (idn/punycode.go), after sections 6.1 to 6.3 of RFC 3492.
  Labels are sequences of code points; characters of an encoded label are code points below 128.
  */
module PunycodeDigits {
  import opened Arith
  import opened Options

  const BASE := 36
  const TMIN := 1
  const TMAX := 26
  const SKEW := 38
  const DAMP := 700
  const ERRDIGIT := 0xffff

  type Digit = d: int | 0 <= d < 36

  /** Value of a base-36 character, ERRDIGIT for every other character. */
  function DigitVal(code: int): (digit: int)
    ensures 0 <= digit < BASE || digit == ERRDIGIT
  {
    if 'A' as int <= code <= 'Z' as int then code - 'A' as int
    else if 'a' as int <= code <= 'z' as int then code - 'a' as int
    else if '0' as int <= code <= '9' as int then code - '0' as int + 26
    else ERRDIGIT
  }

  /** Character of a digit. The source panics outside 0..36, and accepts 36 although it is no base-36 digit. */
  function LetterCode(digit: int): (code: int)
    requires 0 <= digit <= 36
  {
    if digit <= 25 then digit + 'a' as int else digit - 26 + '0' as int
  }

  /** LetterCode is inverted by DigitVal on exactly the base-36 digits, and never yields the delimiter. */
  lemma LetterCodeInverse(digit: int)
    requires 0 <= digit <= 36
    ensures DigitVal(LetterCode(digit)) == digit <==> digit < BASE
    ensures 0 <= LetterCode(digit) < 128 && LetterCode(digit) != '-' as int
  {
  }

  /** Weight threshold of the digit at position k. */
  function TFunc(k: int, bias: int): (t: int)
    ensures TMIN <= t <= TMAX
  {
    if k <= bias then TMIN
    else if k >= bias + TMAX then TMAX
    else k - bias
  }

  // ----- 32-bit arithmetic -----

  const INT32 := 0x8000_0000

  /** The value a 32-bit signed variable holds after being assigned x. */
  function Wrap(x: int): (r: int)
    ensures -INT32 <= r < INT32
    ensures -INT32 <= x < INT32 ==> r == x
  {
    (x + INT32) % (2 * INT32) - INT32
  }

  predicate Fits(x: int) {
    -INT32 <= x < INT32
  }

  lemma WrapFits(x: int)
    requires Fits(x)
    ensures Wrap(x) == x
  {
  }

  lemma WrapShift(x: int, c: int)
    ensures Wrap(x + c * (2 * INT32)) == Wrap(x)
  {
  }

  /** Wrapping a weight before it is used changes nothing as long as the sum it contributes to fits. */
  lemma WrapProduct(i: int, digit: int, w: int)
    ensures Wrap(i + Wrap(digit * Wrap(w))) == Wrap(i + digit * w)
  {
    var m := 2 * INT32;
    var c := Quotient(w);
    assert Wrap(w) == w + c * m;
    assert digit * Wrap(w) == digit * w + (digit * c) * m by {
      assert digit * (w + c * m) == digit * w + digit * (c * m);
      assert digit * (c * m) == (digit * c) * m;
    }
    WrapShift(digit * w, digit * c);
    WrapInner(i, digit * w);
  }

  lemma WrapInner(i: int, x: int)
    ensures Wrap(i + Wrap(x)) == Wrap(i + x)
  {
    WrapShift(i + x, Quotient(x));
    assert i + Wrap(x) == i + x + Quotient(x) * (2 * INT32);
  }

  /** The multiple of 2^32 that Wrap adds to x. */
  ghost function Quotient(x: int): (c: int)
    ensures Wrap(x) == x + c * (2 * INT32)
  {
    -((x + INT32) / (2 * INT32))
  }

  lemma WrapFactor(w: int, f: int)
    ensures Wrap(Wrap(w) * f) == Wrap(w * f)
  {
    WrapProduct(0, f, w);
    assert f * Wrap(w) == Wrap(w) * f;
    assert f * w == w * f;
  }

  /** Quotient and remainder rounding toward zero. */
  function TruncDiv(a: int, b: int): int
    requires b != 0
  {
    if (a >= 0) == (b > 0) then Abs(a) / Abs(b) else -(Abs(a) / Abs(b))
  }

  function TruncMod(a: int, b: int): int
    requires b != 0
  {
    a - TruncDiv(a, b) * b
  }

  lemma TruncNonneg(a: int, b: int)
    requires a >= 0 && b > 0
    ensures TruncDiv(a, b) == a / b && TruncMod(a, b) == a % b
  {
    DivMod(a, b);
  }

  function Abs(a: int): nat {
    if a < 0 then -a else a
  }

  // ----- bias adaptation -----

  /** The reduction loop of adapt: the position reached and what is left of delta. */
  function Reduce(delta: int, k: int): (r: (int, int))
    requires k >= 0
    ensures delta >= 0 ==> 0 <= r.1 <= 455
    ensures delta < 0 ==> r == (k, delta)
    ensures r.0 >= k
    decreases delta
  {
    if delta > (BASE - TMIN) * TMAX / 2 then Reduce(delta / (BASE - TMIN), k + BASE) else (k, delta)
  }

  /** delta scaled down and spread over the points, before the reduction loop. */
  function Damped(delta: int, numpoints: nat, firsttime: bool): (d: int)
    requires delta >= 0 && numpoints >= 1
    ensures 0 <= d <= delta
  {
    var d := if firsttime then delta / DAMP else delta / 2;
    DivBounds(d, numpoints);
    d + d / numpoints
  }

  function Skewed(k: int, r: int): (bias: int)
    requires k >= 0 && r >= 0
    ensures bias >= 0
  {
    DivBounds((BASE - TMIN + 1) * r, r + SKEW);
    k + (BASE - TMIN + 1) * r / (r + SKEW)
  }

  /** The bias after a delta, for the deltas of a correct run (none is negative). */
  function Adapt(delta: int, numpoints: nat, firsttime: bool): (bias: int)
    requires delta >= 0 && numpoints >= 1
    ensures bias >= 0
  {
    var (k, r) := Reduce(Damped(delta, numpoints, firsttime), 0);
    Skewed(k, r)
  }

  /**
    adapt on every 32-bit delta, None where the final division is by zero.
    A negative delta arises only from inputs on which the decoder's arithmetic has wrapped.
    */
  function AdaptAny(delta: int, numpoints: nat, firsttime: bool): (bias: Option<int>)
    requires numpoints >= 1
    ensures delta >= 0 ==> bias == Some(Adapt(delta, numpoints, firsttime))
  {
    if delta >= 0 then Some(Adapt(delta, numpoints, firsttime))
    else
      var d := TruncDiv(delta, if firsttime then DAMP else 2);
      var r := Wrap(d + TruncDiv(d, numpoints));
      if r + SKEW == 0 then None
      else Some(TruncDiv(Wrap((BASE - TMIN + 1) * r), Wrap(r + SKEW)))
  }

  // ----- what the bias is -----

  function Pow35(j: nat): (p: nat)
    ensures p >= 1
  {
    if j == 0 then 1 else 35 * Pow35(j - 1)
  }

  lemma {:induction false} ReduceIs(d: int, k: int) returns (j: nat)
    requires d >= 0 && k >= 0
    ensures Reduce(d, k) == (k + 36 * j, d / Pow35(j))
    ensures d / Pow35(j) <= 455 && (j > 0 ==> d / Pow35(j - 1) > 455)
    decreases d
  {
    if d <= 455 {
      j := 0;
    } else {
      DivBounds(d, 35);
      var rest := ReduceIs(d / 35, k + 36);
      j := rest + 1;
      DivTwice(d, 35, Pow35(rest));
      if rest > 0 {
        DivTwice(d, 35, Pow35(rest - 1));
      }
    }
  }

  /**
    The bias after a delta: the delta is divided by 700 the first time and by 2 later, spread over the points, and then
    divided by 35 as often as it exceeds 455, j times (section 6.1 of RFC 3492).
    */
  lemma AdaptIs(delta: int, numpoints: nat, firsttime: bool) returns (j: nat)
    requires delta >= 0 && numpoints >= 1
    ensures var h := if firsttime then delta / 700 else delta / 2;
            var d := h + h / numpoints;
            var r := d / Pow35(j);
            && 0 <= r <= 455 && (j > 0 ==> d / Pow35(j - 1) > 455)
            && Adapt(delta, numpoints, firsttime) == 36 * j + 36 * r / (r + 38)
  {
    hide Reduce;
    var h := if firsttime then delta / 700 else delta / 2;
    DivBounds(h, numpoints);
    j := ReduceIs(h + h / numpoints, 0);
    DivBounds(h + h / numpoints, Pow35(j));
  }

  /** A wrapped, negative delta is not reduced; all divisions round toward zero, and the last may be by zero. */
  lemma AdaptNegative(delta: int, numpoints: nat, firsttime: bool)
    requires -INT32 <= delta < 0 && numpoints >= 1
    ensures var h := -(-delta / (if firsttime then 700 else 2));
            var d := h - -h / numpoints;
            AdaptAny(delta, numpoints, firsttime) == if d == -38 then None else Some(TruncDiv(Wrap(36 * d), d + 38))
  {
    var h := -(-delta / (if firsttime then 700 else 2));
    DivBounds(-h, numpoints);
    assert -INT32 <= h <= 0 && TruncDiv(h, numpoints) == -(-h / numpoints);
  }

  /** Digits are read in either case, and the other 191 byte values are no digits. */
  lemma DigitCases(code: int)
    ensures 65 <= code <= 90 ==> DigitVal(code) == DigitVal(code + 32) == code - 65
    ensures 48 <= code <= 57 ==> DigitVal(code) == code - 22
    ensures DigitVal(code) == 0xffff <==> !(65 <= code <= 90 || 97 <= code <= 122 || 48 <= code <= 57)
  {
  }

  /** adapt as the source runs it, with every intermediate inside 32 bits for a 32-bit delta. */
  method RunAdapt(delta0: int, numpoints: nat, firsttime: bool) returns (bias: int)
    requires delta0 >= 0 && numpoints >= 1
    ensures bias == Adapt(delta0, numpoints, firsttime)
  {
    var delta := delta0;
    if firsttime {
      delta := delta / DAMP;
    } else {
      delta := delta / 2;
    }
    assert delta + delta / numpoints == Damped(delta0, numpoints, firsttime);
    delta := delta + delta / numpoints;
    assert Fits(delta0) ==> Fits(delta);
    var k := 0;
    ghost var start := delta;
    while delta > (BASE - TMIN) * TMAX / 2
      invariant delta >= 0 && k >= 0
      invariant Reduce(delta, k) == Reduce(start, 0)
      decreases delta
    {
      delta := delta / (BASE - TMIN);
      k := k + BASE;
    }
    assert Fits((BASE - TMIN + 1) * delta);
    bias := k + ((BASE - TMIN + 1) * delta) / (delta + SKEW);
  }

  // ----- variable-length integers -----

  /** The digits the encoder emits for q, starting at position k (section 3.3 of RFC 3492). */
  function VarDigits(q: int, k: int, bias: int): (ds: seq<Digit>)
    requires q >= 0
    ensures |ds| > 0
    decreases q
  {
    var t := TFunc(k, bias);
    if q < t then [q]
    else
      DivBounds(q - t, BASE - t);
      [t + (q - t) % (BASE - t)] + VarDigits((q - t) / (BASE - t), k + BASE, bias)
  }

  /** Characters of a digit sequence. */
  function Letters(ds: seq<Digit>): (cs: seq<int>)
    ensures |cs| == |ds|
    ensures forall c :: c in cs ==> 0 <= c < 128 && c != '-' as int && DigitVal(c) != ERRDIGIT
  {
    if ds == [] then [] else
      LetterCodeInverse(ds[0]);
      [LetterCode(ds[0])] + Letters(ds[1..])
  }

  /** i after a digit of weight w. */
  function Weighted(i: int, digit: int, w: int): int {
    Wrap(i + Wrap(digit * w))
  }

  /** The weight after a digit with threshold t. */
  function NextWeight(w: int, t: int): int {
    Wrap(w * (BASE - t))
  }

  datatype ReadResult = BadDigit | Read(i: int, rest: seq<int>)

  /** The decoder's digit loop: adds weighted digits to i until one falls below its threshold or input ends. */
  function ReadVar(b: seq<int>, i: int, w: int, k: int, bias: int): (r: ReadResult)
    ensures r.Read? ==> |r.rest| <= |b| && (b != [] ==> |r.rest| < |b|)
    decreases |b|
  {
    if b == [] then Read(i, b)
    else
      var digit := DigitVal(b[0]);
      if digit == ERRDIGIT then BadDigit
      else
        var i' := Weighted(i, digit, w);
        var t := TFunc(k, bias);
        if digit < t then Read(i', b[1..])
        else ReadVar(b[1..], i', NextWeight(w, t), k + BASE, bias)
  }

  /**
    Reading back what was written: the decoder's digit loop adds exactly q, modulo 2^32, whatever follows, and stops
    at the last digit. Sums and weights may wrap on the way.
    */
  lemma {:induction false} ReadInvertsWrite(q: int, k: int, bias: int, i: int, w: int, tail: seq<int>)
    requires q >= 0
    ensures ReadVar(Letters(VarDigits(q, k, bias)) + tail, Wrap(i), Wrap(w), k, bias) == Read(Wrap(i + Times(q, w)), tail)
    decreases q
  {
    hide Times, Weighted, NextWeight, Wrap, Letters, ReadVar;
    var t := TFunc(k, bias);
    if q < t {
      ReadLast(q, k, bias, i, w, tail);
    } else {
      var m := BASE - t;
      var d, q' := t + (q - t) % m, (q - t) / m;
      DivBounds(q - t, m);
      Regroup(d, q', q, t, w, i);
      var rest := Letters(VarDigits(q', k + BASE, bias)) + tail;
      ReadInvertsWrite(q', k + BASE, bias, i + Times(d, w), Times(w, m), tail);
      ReadStep(d, k, bias, i, w, rest);
      LettersStep(q, k, bias, tail);
    }
  }

  /** The characters of q, digit by digit. */
  lemma LettersStep(q: int, k: int, bias: int, tail: seq<int>)
    requires q >= TFunc(k, bias)
    ensures var t := TFunc(k, bias);
            && (q - t) / (BASE - t) >= 0
            && Letters(VarDigits(q, k, bias)) + tail
            == [LetterCode(t + (q - t) % (BASE - t))] + (Letters(VarDigits((q - t) / (BASE - t), k + BASE, bias)) + tail)
  {
    var t := TFunc(k, bias);
    DivBounds(q - t, BASE - t);
    var d: Digit := t + (q - t) % (BASE - t);
    var ds := VarDigits((q - t) / (BASE - t), k + BASE, bias);
    assert VarDigits(q, k, bias) == [d] + ds;
    assert Letters([d] + ds) == [LetterCode(d)] + Letters(ds) by {
      assert ([d] + ds)[1..] == ds;
    }
    assert [LetterCode(d)] + Letters(ds) + tail == [LetterCode(d)] + (Letters(ds) + tail);
  }

  /** What one digit adds to i. */
  lemma Contribution(i: int, d: int, w: int)
    ensures Weighted(Wrap(i), d, Wrap(w)) == Wrap(i + Times(d, w))
  {
    WrapProduct(Wrap(i), d, w);
    WrapInner(d * w, i);
  }

  lemma ReadLast(d: int, k: int, bias: int, i: int, w: int, tail: seq<int>)
    requires 0 <= d < TFunc(k, bias)
    ensures ReadVar(Letters([d]) + tail, Wrap(i), Wrap(w), k, bias) == Read(Wrap(i + Times(d, w)), tail)
  {
    hide Times, Weighted, NextWeight, Wrap;
    LetterCodeInverse(d);
    Contribution(i, d, w);
    var b := [LetterCode(d)] + tail;
    assert Letters([d]) == [LetterCode(d)];
    assert b[1..] == tail && b[0] == LetterCode(d);
  }

  lemma ReadStep(d: int, k: int, bias: int, i: int, w: int, rest: seq<int>)
    requires TFunc(k, bias) <= d < BASE
    ensures ReadVar([LetterCode(d)] + rest, Wrap(i), Wrap(w), k, bias)
         == ReadVar(rest, Wrap(i + Times(d, w)), Wrap(Times(w, BASE - TFunc(k, bias))), k + BASE, bias)
  {
    LetterCodeInverse(d);
    Contribution(i, d, w);
    assert NextWeight(Wrap(w), TFunc(k, bias)) == Wrap(Times(w, BASE - TFunc(k, bias))) by {
      WrapFactor(w, BASE - TFunc(k, bias));
    }
    hide Times, Weighted, NextWeight, Wrap;
    var b := [LetterCode(d)] + rest;
    assert b[1..] == rest && b[0] == LetterCode(d);
  }

  lemma Regroup(d: int, q': int, q: int, t: int, w: int, i: int)
    requires 1 <= t <= 26 && q >= t
    requires d == t + (q - t) % (BASE - t) && q' == (q - t) / (BASE - t)
    ensures i + Times(q, w) == (i + Times(d, w)) + Times(q', Times(w, BASE - t))
  {
    var m := BASE - t;
    DivMod(q - t, m);
    assert q == d + q' * m;
    TimesAdd(d, q' * m, w);
    assert (q' * m) * w == q' * (w * m) by {
      assert (q' * m) * w == q' * (m * w);
    }
  }
}
