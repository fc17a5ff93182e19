/**
  The decoder of idn/punycode.go.

  Characters are code points; the arithmetic on them is 32-bit, and the run-time panics that wrapped values can
  cause (a negative insertion index, a zero divisor in adapt) are an outcome of their own.
  */
module PunycodeDecode {
  import opened PunycodeDigits
  import opened PunycodeCodec

  datatype Outcome = Text(chars: seq<int>) | Malformed | Panic

  function Insert(out: seq<int>, idx: int, n: int): (r: seq<int>)
    requires 0 <= idx <= |out|
    ensures |r| == |out| + 1
  {
    out[..idx] + [n] + out[idx..]
  }

  /** Replays insertions from state (n, i) into out until the characters are used up. */
  function DecodeFrom(b: seq<int>, n: int, i: int, bias: int, out: seq<int>): (r: Outcome)
    ensures r.Text? ==> |r.chars| <= |out| + |b|
    decreases |b|
  {
    if b == [] then Text(out)
    else
      match ReadVar(b, i, 1, BASE, bias)
      case BadDigit => Malformed
      case Read(i1, rest) =>
        var ln := |out| + 1;
        match AdaptAny(Wrap(i1 - i), ln, i == 0)
        case None => Panic
        case Some(bias') =>
          var idx := TruncMod(i1, ln);
          if idx < 0 || idx >= ln then Panic
          else DecodeFrom(rest, Wrap(n + TruncDiv(i1, ln)), idx + 1, bias', Insert(out, idx, Wrap(n + TruncDiv(i1, ln))))
  }

  /** Index of the first delimiter, or the length when there is none. */
  function FirstDelimiter(p: seq<int>): (k: nat)
    ensures k <= |p| && forall x :: 0 <= x < k ==> p[x] != DELIMITER
    ensures k < |p| ==> p[k] == DELIMITER
  {
    if p == [] then 0
    else if p[0] == DELIMITER then 0
    else
      1 + FirstDelimiter(p[1..])
  }

  /** Literal characters of an encoded label after the prefix. */
  function Literal(p: seq<int>): seq<int> {
    var k := FirstDelimiter(p);
    if k < |p| then p[..k] else []
  }

  /** Digit characters of an encoded label after the prefix. */
  function Extended(p: seq<int>): seq<int> {
    var k := FirstDelimiter(p);
    if k < |p| then p[k + 1..] else p
  }

  /** decode on any characters: malformed input is returned as it is. */
  function Decoded(b: seq<int>): (r: Outcome)
    ensures !r.Malformed?
  {
    if !(PREFIX <= b) then Text(b)
    else
      var p := b[|PREFIX|..];
      if Extended(p) == [] then Text(b)
      else
        var r := DecodeFrom(Extended(p), FIRST, 0, FIRST_BIAS, Literal(p));
        if r.Malformed? then Text(b) else r
  }

  // ----- the decoder as the source runs it -----

  /** One variable-length integer off the front of the input. */
  method ReadInteger(b0: seq<int>, i0: int, bias: int) returns (ok: bool, i: int, b: seq<int>)
    ensures ReadVar(b0, i0, 1, BASE, bias) == if ok then Read(i, b) else BadDigit
  {
    var w, k := 1, BASE;
    i, b, ok := i0, b0, true;
    while |b| > 0
      invariant ReadVar(b0, i0, 1, BASE, bias) == ReadVar(b, i, w, k, bias)
      decreases |b|
    {
      var digit := DigitVal(b[0]);
      if digit == ERRDIGIT {
        return false, i, b;
      }
      b := b[1..];
      i := Weighted(i, digit, w);
      var t := TFunc(k, bias);
      if digit < t {
        return true, i, b;
      }
      w := NextWeight(w, t);
      k := k + BASE;
    }
  }

  /** The loop that cuts the literal part off at the first delimiter. */
  method SplitLiteral(p: seq<int>) returns (out: seq<int>, b: seq<int>)
    ensures out == Literal(p) && b == Extended(p)
  {
    out, b := [], p;
    for pos := 0 to |p|
      invariant out == [] && b == p
      invariant forall x :: 0 <= x < pos ==> p[x] != DELIMITER
    {
      if p[pos] == DELIMITER {
        FirstIs(p, pos);
        return p[..pos], p[pos + 1..];
      }
    }
    FirstIs(p, |p|);
  }

  method Decode(src: seq<int>) returns (r: Outcome)
    ensures r == Decoded(src)
  {
    hide AdaptAny, Adapt, ReadVar, TruncDiv, TruncMod, Wrap, FirstDelimiter;
    var n, bias := FIRST, FIRST_BIAS;
    if !(PREFIX <= src) {
      return Text(src);
    }
    var out: seq<int> := [];
    var b := src[|PREFIX|..];
    ghost var p := b;
    out, b := SplitLiteral(b);
    if |b| == 0 {
      return Text(src);
    }
    var i := 0;
    while |b| > 0
      invariant DecodeFrom(Extended(p), FIRST, 0, FIRST_BIAS, Literal(p)) == DecodeFrom(b, n, i, bias, out)
      decreases |b|
    {
      var oldi := i;
      var ok;
      ghost var before := b;
      ok, i, b := ReadInteger(b, i, bias);
      if !ok {
        return Text(src);
      }
      assert |b| < |before|;
      var ln := |out| + 1;
      var adapted := AdaptAny(Wrap(i - oldi), ln, oldi == 0);
      if adapted.None? {
        return Panic;
      }
      bias := adapted.value;
      n := Wrap(n + TruncDiv(i, ln));
      i := TruncMod(i, ln);
      if i < 0 || i >= ln {
        return Panic;
      }
      out := Insert(out, i, n);
      i := i + 1;
    }
    r := Text(out);
  }

  lemma {:induction false} FirstIs(p: seq<int>, k: nat)
    requires k <= |p| && (k < |p| ==> p[k] == DELIMITER)
    requires forall x :: 0 <= x < k ==> p[x] != DELIMITER
    ensures FirstDelimiter(p) == k
  {
    var f := FirstDelimiter(p);
    assert f < |p| ==> p[f] == DELIMITER;
  }
}
