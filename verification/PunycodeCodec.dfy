/**
  Bootstring encoding and decoding of one label (idn/punycode.go).

  The reference form of the encoder, EncodeFrom, sweeps every code point from 128 upwards over the whole label and
  computes each delta from positions. The method Encode, like the source, jumps to the next occurring code point and
  accumulates the delta in 32-bit arithmetic. A delta that has wrapped to a negative number makes the source panic: no
  text is the outcome None.
  */
module PunycodeCodec {
  import opened Arith
  import opened Options
  import opened PunycodeDigits

  type Rune = r: int | 0 <= r <= 0x10FFFF

  const MAXRUNE: int := 0x10FFFF
  const FIRST: int := 128
  const FIRST_BIAS: int := 72
  const DELIMITER: int := '-' as int
  const PREFIX: seq<int> := ['x' as int, 'n' as int, '-' as int, '-' as int]

  // ----- subsequences by code point -----

  /** The code points of b that are at most n, in order. */
  function AtMost(b: seq<int>, n: int): (s: seq<int>)
    ensures |s| <= |b|
  {
    if b == [] then []
    else if b[0] <= n then [b[0]] + AtMost(b[1..], n)
    else AtMost(b[1..], n)
  }

  lemma {:induction false} AtMostAppend(a: seq<int>, b: seq<int>, n: int)
    ensures AtMost(a + b, n) == AtMost(a, n) + AtMost(b, n)
  {
    if a == [] {
      assert a + b == b;
    } else {
      hide AtMost;
      AtMostAppend(a[1..], b, n);
      AtMostCons(a[0], a[1..] + b, n);
      AtMostCons(a[0], a[1..], n);
      Reassociate([a[0]], a[1..], b);
      assert a == [a[0]] + a[1..];
    }
  }

  lemma AtMostCons(x: int, b: seq<int>, n: int)
    ensures AtMost([x] + b, n) == (if x <= n then [x] else []) + AtMost(b, n)
  {
    assert ([x] + b)[1..] == b;
  }

  lemma {:induction false} AtMostAll(b: seq<int>, n: int)
    ensures |AtMost(b, n)| == |b| <==> (forall x :: x in b ==> x <= n)
    ensures |AtMost(b, n)| == |b| ==> AtMost(b, n) == b
  {
    if b != [] {
      AtMostAll(b[1..], n);
      assert b == [b[0]] + b[1..];
      AtMostCons(b[0], b[1..], n);
      assert b[0] in b && (forall x :: x in b[1..] ==> x in b);
    }
  }

  /** What has been handled when the sweep for code point n stands before index j. */
  function Handled(b: seq<Rune>, n: int, j: int): (s: seq<int>)
    requires 0 <= j <= |b|
  {
    AtMost(b[..j], n) + AtMost(b[j..], n - 1)
  }

  /** One step of the sweep: nothing changes unless b[j] is n, which is then inserted after the handled part of b[..j]. */
  lemma HandledStep(b: seq<Rune>, n: int, j: int)
    requires 0 <= j < |b|
    ensures b[j] != n ==> Handled(b, n, j + 1) == Handled(b, n, j)
    ensures var idx := |AtMost(b[..j], n)|;
            b[j] == n ==> Handled(b, n, j + 1) == Handled(b, n, j)[..idx] + [n] + Handled(b, n, j)[idx..]
    ensures |AtMost(b[..j + 1], n)| == |AtMost(b[..j], n)| + if b[j] <= n then 1 else 0
  {
    assert b[..j + 1] == b[..j] + [b[j]];
    AtMostAppend(b[..j], [b[j]], n);
    assert b[j..] == [b[j]] + b[j + 1..];
    assert AtMost([b[j]], n) == if b[j] <= n then [b[j]] else [];
  }

  lemma HandledPass(b: seq<Rune>, n: int)
    ensures Handled(b, n + 1, 0) == Handled(b, n, |b|) == AtMost(b, n)
  {
    assert b[..|b|] == b && b[0..] == b && b[|b|..] == [] && b[..0] == [];
  }

  lemma HandledBounds(b: seq<Rune>, n: int, j: int)
    requires 0 <= j <= |b|
    ensures |AtMost(b[..j], n)| <= |Handled(b, n, j)| <= |b|
  {
    assert |AtMost(b[..j], n)| <= j && |AtMost(b[j..], n - 1)| <= |b| - j;
  }

  // ----- reference encoder -----

  /** (n0, i0) is where the decoder stands, (n, j) where the sweep stands, and nothing between them is to be inserted. */
  ghost predicate Cursor(b: seq<Rune>, n: int, j: int, n0: int, i0: int) {
    && 0 <= j <= |b|
    && FIRST <= n0 <= n <= MAXRUNE + 1
    && (n == MAXRUNE + 1 ==> j == 0)
    && 0 <= i0 <= |Handled(b, n, j)|
    && (n == n0 ==> i0 <= |AtMost(b[..j], n)|)
  }

  /** Distance, in decoder states, from (n0, i0) to inserting n before index j of the label. */
  ghost function Delta(b: seq<Rune>, n: int, j: int, n0: int, i0: int): (d: int)
    requires 0 <= j <= |b|
  {
    Times(n - n0, |Handled(b, n, j)| + 1) + |AtMost(b[..j], n)| - i0
  }

  lemma CursorStep(b: seq<Rune>, n: int, j: int, n0: int, i0: int)
    requires Cursor(b, n, j, n0, i0) && j < |b| && n <= MAXRUNE
    ensures b[j] != n ==> Cursor(b, n, j + 1, n0, i0)
    ensures b[j] == n ==> Cursor(b, n, j + 1, n, |AtMost(b[..j], n)| + 1)
    ensures b[j] < n ==> Delta(b, n, j + 1, n0, i0) == Delta(b, n, j, n0, i0) + 1
    ensures b[j] > n ==> Delta(b, n, j + 1, n0, i0) == Delta(b, n, j, n0, i0)
    ensures b[j] == n ==> Delta(b, n, j + 1, n, |AtMost(b[..j], n)| + 1) == 0
  {
    hide Times, Handled, AtMost;
    HandledStep(b, n, j);
    HandledBounds(b, n, j);
    HandledBounds(b, n, j + 1);
    TimesAdd(0, 0, |Handled(b, n, j + 1)| + 1);
  }

  lemma CursorPass(b: seq<Rune>, n: int, n0: int, i0: int)
    requires Cursor(b, n, |b|, n0, i0) && n <= MAXRUNE
    ensures Cursor(b, n + 1, 0, n0, i0)
    ensures Delta(b, n + 1, 0, n0, i0) == Delta(b, n, |b|, n0, i0) + 1
  {
    HandledPass(b, n);
    hide Times;
    assert b[..|b|] == b && b[..0] == [];
    TimesAdd(n - n0, 1, |AtMost(b, n)| + 1);
    assert n - n0 + 1 == n + 1 - n0;
  }

  lemma DeltaNonneg(b: seq<Rune>, n: int, j: int, n0: int, i0: int)
    requires Cursor(b, n, j, n0, i0)
    ensures Delta(b, n, j, n0, i0) >= 0
  {
    hide Times, AtMost, Handled;
    HandledBounds(b, n, j);
    var h := |Handled(b, n, j)|;
    if n > n0 {
      TimesMonotone(1, n - n0, h + 1, h + 1);
    }
    TimesAdd(0, 0, h + 1);
  }

  /** Characters in front of what is written next, if anything is. */
  function Before(cs: seq<int>, rest: Option<seq<int>>): (r: Option<seq<int>>) {
    if rest.None? then None else Some(cs + rest.value)
  }

  lemma BeforeTwice(a: seq<int>, b: seq<int>, rest: Option<seq<int>>)
    ensures Before(a, Before(b, rest)) == Before(a + b, rest)
    ensures Before([], rest) == rest && Before(a, None) == None
  {
    if rest.Some? {
      Reassociate(a, b, rest.value);
      assert [] + rest.value == rest.value;
    }
  }

  /** Characters emitted from cursor (n, j) on, when the decoder stands at (n0, i0). */
  ghost function EncodeFrom(b: seq<Rune>, n: int, j: int, n0: int, i0: int, bias: int): (cs: Option<seq<int>>)
    requires Cursor(b, n, j, n0, i0)
    decreases MAXRUNE + 1 - n, |b| - j
  {
    if n > MAXRUNE then Some([])
    else if j == |b| then
      CursorPass(b, n, n0, i0);
      EncodeFrom(b, n + 1, 0, n0, i0, bias)
    else if b[j] != n then
      CursorStep(b, n, j, n0, i0);
      EncodeFrom(b, n, j + 1, n0, i0, bias)
    else
      CursorStep(b, n, j, n0, i0);
      var delta := Wrap(Delta(b, n, j, n0, i0));
      if delta < 0 then None
      else
        var bias' := Adapt(delta, |Handled(b, n, j)| + 1, i0 == 0);
        Before(Letters(VarDigits(delta, BASE, bias)), EncodeFrom(b, n, j + 1, n, |AtMost(b[..j], n)| + 1, bias'))
  }

  lemma StartCursor(b: seq<Rune>)
    ensures Cursor(b, FIRST, 0, FIRST, 0)
    ensures Handled(b, FIRST, 0) == AtMost(b, FIRST - 1)
    ensures Delta(b, FIRST, 0, FIRST, 0) == 0
  {
    HandledPass(b, FIRST - 1);
    assert b[..0] == [];
  }

  /** What the encoder makes of a lower-cased label. */
  ghost function Encoded(b: seq<Rune>): (cs: Option<seq<int>>) {
    var basic := AtMost(b, FIRST - 1);
    StartCursor(b);
    if |basic| == |b| then Some(basic)
    else Before(PREFIX + (if basic == [] then [] else basic + [DELIMITER]), EncodeFrom(b, FIRST, 0, FIRST, 0, FIRST_BIAS))
  }

  lemma AllHandledStep(b: seq<Rune>, n: int, j: int)
    requires 0 <= j < |b| && |Handled(b, n, j)| == |b|
    ensures b[j] != n && |Handled(b, n, j + 1)| == |b|
  {
    HandledStep(b, n, j);
    HandledBounds(b, n, j + 1);
  }

  /** Once everything is handled the sweep emits nothing more. */
  lemma {:induction false} NothingLeft(b: seq<Rune>, n: int, j: int, n0: int, i0: int, bias: int)
    requires Cursor(b, n, j, n0, i0)
    requires |Handled(b, n, j)| == |b|
    ensures EncodeFrom(b, n, j, n0, i0, bias) == Some([])
    decreases MAXRUNE + 1 - n, |b| - j
  {
    if n <= MAXRUNE {
      if j == |b| {
        CursorPass(b, n, n0, i0);
        HandledPass(b, n);
        NothingLeft(b, n + 1, 0, n0, i0, bias);
      } else {
        CursorStep(b, n, j, n0, i0);
        AllHandledStep(b, n, j);
        NothingLeft(b, n, j + 1, n0, i0, bias);
      }
    }
  }

  /** A code point that does not occur in the rest of the label is swept over in silence. */
  lemma {:induction false} SilentPass(b: seq<Rune>, n: int, j: int, n0: int, i0: int, bias: int)
    requires Cursor(b, n, j, n0, i0) && n <= MAXRUNE
    requires n !in b[j..]
    ensures Cursor(b, n + 1, 0, n0, i0)
    ensures EncodeFrom(b, n, j, n0, i0, bias) == EncodeFrom(b, n + 1, 0, n0, i0, bias)
    ensures FitsFrom(b, n, j, n0, i0) == FitsFrom(b, n + 1, 0, n0, i0)
    ensures Handled(b, n, j) == Handled(b, n + 1, 0)
    decreases |b| - j
  {
    if j == |b| {
      CursorPass(b, n, n0, i0);
      HandledPass(b, n);
    } else {
      assert b[j] in b[j..];
      CursorStep(b, n, j, n0, i0);
      HandledStep(b, n, j);
      assert forall x :: x in b[j + 1..] ==> x in b[j..];
      SilentPass(b, n, j + 1, n0, i0, bias);
    }
  }

  /** Jumping to the next occurring code point refines sweeping one code point at a time. */
  lemma {:induction false} Jump(b: seq<Rune>, n: int, m: int, n0: int, i0: int, bias: int)
    requires Cursor(b, n, 0, n0, i0) && n <= m <= MAXRUNE
    requires forall x :: x in b ==> x < n || x >= m
    ensures Cursor(b, m, 0, n0, i0)
    ensures EncodeFrom(b, n, 0, n0, i0, bias) == EncodeFrom(b, m, 0, n0, i0, bias)
    ensures FitsFrom(b, n, 0, n0, i0) == FitsFrom(b, m, 0, n0, i0)
    ensures Handled(b, m, 0) == Handled(b, n, 0)
    ensures Delta(b, m, 0, n0, i0) == Delta(b, n, 0, n0, i0) + Times(m - n, |Handled(b, n, 0)| + 1)
    decreases m - n
  {
    hide Times, AtMost, Handled;
    if n < m {
      SilentPass(b, n, 0, n0, i0, bias);
      Jump(b, n + 1, m, n0, i0, bias);
      JumpDelta(b, n, m, n0, i0);
    } else {
      TimesAdd(0, 0, |Handled(b, n, 0)| + 1);
    }
  }

  lemma JumpDelta(b: seq<Rune>, n: int, m: int, n0: int, i0: int)
    requires Handled(b, n + 1, 0) == Handled(b, n, 0) == Handled(b, m, 0)
    requires Delta(b, m, 0, n0, i0) == Delta(b, n + 1, 0, n0, i0) + Times(m - (n + 1), |Handled(b, n + 1, 0)| + 1)
    ensures Delta(b, m, 0, n0, i0) == Delta(b, n, 0, n0, i0) + Times(m - n, |Handled(b, n, 0)| + 1)
  {
    var h := |Handled(b, n, 0)| + 1;
    assert b[..0] == [];
    TimesAdd(n - n0, 1, h);
    TimesAdd(m - n - 1, 1, h);
  }

  // ----- deltas that fit -----

  /** No position that is left to be emitted lies beyond 31 bits for the decoder. */
  ghost predicate FitsFrom(b: seq<Rune>, n: int, j: int, n0: int, i0: int)
    requires Cursor(b, n, j, n0, i0)
    decreases MAXRUNE + 1 - n, |b| - j
  {
    if n > MAXRUNE then true
    else if j == |b| then
      CursorPass(b, n, n0, i0);
      FitsFrom(b, n + 1, 0, n0, i0)
    else if b[j] != n then
      CursorStep(b, n, j, n0, i0);
      FitsFrom(b, n, j + 1, n0, i0)
    else
      CursorStep(b, n, j, n0, i0);
      i0 + Delta(b, n, j, n0, i0) < INT32 && FitsFrom(b, n, j + 1, n, |AtMost(b[..j], n)| + 1)
  }

  /** One step of the sweep, for the characters and for the condition on deltas. */
  lemma EncodeStep(b: seq<Rune>, n: int, j: int, n0: int, i0: int, bias: int)
    requires Cursor(b, n, j, n0, i0) && n <= MAXRUNE && j < |b|
    ensures b[j] != n ==> Cursor(b, n, j + 1, n0, i0)
                          && EncodeFrom(b, n, j, n0, i0, bias) == EncodeFrom(b, n, j + 1, n0, i0, bias)
                          && FitsFrom(b, n, j, n0, i0) == FitsFrom(b, n, j + 1, n0, i0)
    ensures var delta, idx := Wrap(Delta(b, n, j, n0, i0)), |AtMost(b[..j], n)|;
            b[j] == n ==> Cursor(b, n, j + 1, n, idx + 1)
                          && (FitsFrom(b, n, j, n0, i0) <==> i0 + Delta(b, n, j, n0, i0) < INT32 && FitsFrom(b, n, j + 1, n, idx + 1))
                          && EncodeFrom(b, n, j, n0, i0, bias) ==
                             if delta < 0 then None
                             else Before(Letters(VarDigits(delta, BASE, bias)),
                                         EncodeFrom(b, n, j + 1, n, idx + 1, Adapt(delta, |Handled(b, n, j)| + 1, i0 == 0)))
  {
    hide AtMost, Handled, Delta, Adapt, VarDigits, Letters, Wrap, Before;
    CursorStep(b, n, j, n0, i0);
  }

  lemma EncodePassEnd(b: seq<Rune>, n: int, n0: int, i0: int, bias: int)
    requires Cursor(b, n, |b|, n0, i0) && n <= MAXRUNE
    ensures Cursor(b, n + 1, 0, n0, i0)
    ensures EncodeFrom(b, n, |b|, n0, i0, bias) == EncodeFrom(b, n + 1, 0, n0, i0, bias)
    ensures FitsFrom(b, n, |b|, n0, i0) == FitsFrom(b, n + 1, 0, n0, i0)
  {
    CursorPass(b, n, n0, i0);
  }

  lemma EncodeEnd(b: seq<Rune>, n: int, j: int, n0: int, i0: int, bias: int)
    requires Cursor(b, n, j, n0, i0) && n > MAXRUNE
    ensures EncodeFrom(b, n, j, n0, i0, bias) == Some([]) && FitsFrom(b, n, j, n0, i0)
  {
  }

  /** Where the decoder has no code points to pass. */
  lemma NearDelta(b: seq<Rune>, n: int, j: int, i0: int)
    requires Cursor(b, n, j, n, i0)
    ensures i0 + Delta(b, n, j, n, i0) <= |b|
  {
    hide AtMost, Handled;
    HandledBounds(b, n, j);
  }

  /** Until the last code point is emitted, the delta that is accumulated stays within 31 bits (section 6.4 of RFC 3492). */
  lemma {:induction false} DeltaFits(b: seq<Rune>, n: int, j: int, n0: int, i0: int)
    requires Cursor(b, n, j, n0, i0) && FitsFrom(b, n, j, n0, i0) && |Handled(b, n, j)| < |b|
    ensures 0 <= Delta(b, n, j, n0, i0) && i0 + Delta(b, n, j, n0, i0) < INT32
    decreases MAXRUNE + 1 - n, |b| - j
  {
    hide Delta, AtMost, Handled;
    DeltaNonneg(b, n, j, n0, i0);
    if n > MAXRUNE {
      HandledPass(b, MAXRUNE);
      AtMostAll(b, MAXRUNE);
    } else if j == |b| {
      CursorPass(b, n, n0, i0);
      HandledPass(b, n);
      DeltaFits(b, n + 1, 0, n0, i0);
    } else {
      CursorStep(b, n, j, n0, i0);
      HandledStep(b, n, j);
      if b[j] != n {
        DeltaFits(b, n, j + 1, n0, i0);
      }
    }
  }

  /** The largest code point of b from 128 to below n, 128 when there is none. */
  function Below(b: seq<Rune>, n: int): (m: int)
    ensures FIRST <= m <= MAXRUNE && (m == FIRST || (m in b && m < n))
    ensures forall x :: x in b && x < n ==> x <= m
  {
    if b == [] then FIRST
    else
      var m := Below(b[1..], n);
      assert b == [b[0]] + b[1..];
      if m < b[0] < n then b[0] else m
  }

  /** How far the decoder moves for the code point at j, the first of its kind: one step for every position in every label in between. */
  function Gap(b: seq<Rune>, j: nat): (d: int)
    requires j < |b|
  {
    var n: int := b[j];
    Times(n - Below(b, n), |AtMost(b, n - 1)| + 1) + |AtMost(b[..j], n - 1)|
  }

  ghost predicate FirstOfKind(b: seq<Rune>, j: nat) {
    j < |b| && b[j] >= FIRST && b[j] !in b[..j]
  }

  /** Every gap between consecutive code points of the label fits 31 bits. */
  ghost predicate GapsFit(b: seq<Rune>) {
    forall j: nat :: FirstOfKind(b, j) ==> Gap(b, j) < INT32
  }

  ghost predicate GapsFitFrom(b: seq<Rune>, n: int, i: int) {
    forall j: nat :: FirstOfKind(b, j) && (b[j] > n || (b[j] == n && j >= i)) ==> Gap(b, j) < INT32
  }

  lemma {:induction false} AtMostNotThere(b: seq<int>, n: int)
    requires n !in b
    ensures AtMost(b, n) == AtMost(b, n - 1)
  {
    if b != [] {
      assert b[0] in b && forall x :: x in b[1..] ==> x in b;
      AtMostNotThere(b[1..], n);
    }
  }

  /** Where the decoder stands when the sweep is at (n, j). */
  ghost function LastInserted(b: seq<Rune>, n: int, j: int): (n0: int)
    requires 0 <= j <= |b|
  {
    if n in b[..j] then n else Below(b, n)
  }

  /** What the decoder counts to for the first code point of a kind is its gap. */
  lemma FirstGap(b: seq<Rune>, j: nat, n0: int, i0: int)
    requires FirstOfKind(b, j) && Cursor(b, b[j], j, n0, i0) && n0 == LastInserted(b, b[j], j)
    ensures i0 + Delta(b, b[j], j, n0, i0) == Gap(b, j)
  {
    hide AtMost, Times;
    var n := b[j];
    AtMostNotThere(b[..j], n);
    AtMostAppend(b[..j], b[j..], n - 1);
    assert b[..j] + b[j..] == b;
  }

  /** Checking gaps of the label is checking deltas of the sweep. */
  lemma {:induction false} GapsAreDeltas(b: seq<Rune>, n: int, j: int, n0: int, i0: int)
    requires |b| < INT32 && Cursor(b, n, j, n0, i0) && n0 == LastInserted(b, n, j)
    ensures FitsFrom(b, n, j, n0, i0) <==> GapsFitFrom(b, n, j)
    decreases MAXRUNE + 1 - n, |b| - j
  {
    hide AtMost, Handled, Delta, Gap, Below;
    if n > MAXRUNE {
    } else if j == |b| {
      CursorPass(b, n, n0, i0);
      assert b[..|b|] == b && b[..0] == [];
      assert Below(b, n + 1) == n0;
      GapsAreDeltas(b, n + 1, 0, n0, i0);
      NextPass(b, n);
    } else {
      CursorStep(b, n, j, n0, i0);
      assert b[..j + 1] == b[..j] + [b[j]];
      if b[j] != n {
        GapsAreDeltas(b, n, j + 1, n0, i0);
      } else {
        GapsAreDeltas(b, n, j + 1, n, |AtMost(b[..j], n)| + 1);
        if n in b[..j] {
          NearDelta(b, n, j, i0);
        } else {
          FirstGap(b, j, n0, i0);
        }
      }
    }
  }

  lemma NextPass(b: seq<Rune>, n: int)
    ensures GapsFitFrom(b, n, |b|) <==> GapsFitFrom(b, n + 1, 0)
  {
    hide Gap;
  }

  /** The condition on the label is the condition on the encoder's run. */
  lemma GapsFromStart(b: seq<Rune>)
    requires |b| < INT32
    ensures Cursor(b, FIRST, 0, FIRST, 0) && (FitsFrom(b, FIRST, 0, FIRST, 0) <==> GapsFit(b))
  {
    hide Gap, AtMost, FitsFrom;
    StartCursor(b);
    assert b[..0] == [];
    GapsAreDeltas(b, FIRST, 0, FIRST, 0);
  }

  const MAX_LABEL: int := 1927

  /** Labels of at most MAX_LABEL code points fit, whatever they are. */
  lemma ShortLabelsFit(b: seq<Rune>)
    requires |b| <= MAX_LABEL
    ensures GapsFit(b)
  {
    assert Times(MAXRUNE - FIRST, MAX_LABEL) == 2146645241;
    forall j: nat | FirstOfKind(b, j)
      ensures Gap(b, j) < INT32
    {
      hide Times, AtMost;
      OneLess(b, j);
      var n: int := b[j];
      TimesMonotone(n - Below(b, n), MAXRUNE - FIRST, |AtMost(b, n - 1)| + 1, MAX_LABEL);
    }
  }

  /** A code point is not among those below it. */
  lemma OneLess(b: seq<Rune>, j: nat)
    requires j < |b|
    ensures var n: int := b[j]; |AtMost(b, n - 1)| < |b|
  {
    var n: int := b[j];
    assert n in b;
    AtMostAll(b, n - 1);
  }

  /** One code point more is too much: the last of 1928 may lie too far. */
  lemma LongLabelDoesNot()
    ensures var b := seq(MAX_LABEL, _ => 'a' as int) + [MAXRUNE]; |b| == MAX_LABEL + 1 && !GapsFit(b)
  {
    var as_: seq<Rune> := seq(MAX_LABEL, _ => 'a' as int);
    var b := as_ + [MAXRUNE];
    AtMostAll(as_, MAXRUNE - 1);
    AtMostAppend(as_, [MAXRUNE], MAXRUNE - 1);
    assert AtMost([MAXRUNE], MAXRUNE - 1) == [];
    assert b[..MAX_LABEL] == as_;
    assert Below(b, MAXRUNE) == FIRST;
    assert FirstOfKind(b, MAX_LABEL);
    assert Gap(b, MAX_LABEL) == (MAXRUNE - FIRST) * (MAX_LABEL + 1) + MAX_LABEL;
  }

  // ----- the encoder as the source runs it -----

  /** next: the least code point at or above boundary, when there is one. */
  method Next(b: seq<Rune>, boundary: int) returns (m: Rune)
    requires |b| > 0
    ensures m in b
    ensures (exists x :: x in b && x >= boundary) ==> m >= boundary
    ensures forall x :: x in b && x >= boundary ==> m <= x
  {
    m := b[0];
    for i := 1 to |b|
      invariant m in b
      invariant (exists x :: x in b[..i] && x >= boundary) ==> m >= boundary
      invariant forall x :: x in b[..i] && x >= boundary ==> m <= x
    {
      var x := b[i];
      assert b[..i + 1] == b[..i] + [x];
      if x >= boundary && (m < boundary || x < m) {
        m := x;
      }
    }
    assert b[..|b|] == b;
  }

  /** The digit loop of the encoder, for a delta that may have wrapped. */
  method EmitDigits(delta: int, bias: int) returns (cs: Option<seq<int>>)
    requires bias >= 0
    ensures cs == if delta < 0 then None else Some(Letters(VarDigits(delta, BASE, bias)))
  {
    hide VarDigits, Letters, TFunc;
    var q, k := delta, BASE;
    var out: seq<int> := [];
    while true
      invariant delta < 0 ==> q == delta
      invariant delta >= 0 ==> 0 <= q <= delta
      invariant delta >= 0 ==> Letters(VarDigits(delta, BASE, bias)) == out + Letters(VarDigits(q, k, bias))
      decreases q
    {
      var t := TFunc(k, bias);
      if q < t {
        break;
      }
      DivBounds(q - t, BASE - t);
      DigitsStep(q, k, bias);
      var cp := t + (q - t) % (BASE - t);
      out := out + [LetterCode(cp)];
      q := (q - t) / (BASE - t);
      k := k + BASE;
    }
    if q < 0 {
      return None;
    }
    DigitsEnd(q, k, bias);
    cs := Some(out + [LetterCode(q)]);
  }

  lemma DigitsStep(q: int, k: int, bias: int)
    requires q >= TFunc(k, bias)
    ensures var t := TFunc(k, bias);
            && 0 <= (q - t) / (BASE - t) < q && 0 <= t + (q - t) % (BASE - t) < BASE
            && Letters(VarDigits(q, k, bias))
               == [LetterCode(t + (q - t) % (BASE - t))] + Letters(VarDigits((q - t) / (BASE - t), k + BASE, bias))
  {
    DivBounds(q - TFunc(k, bias), BASE - TFunc(k, bias));
    LettersStep(q, k, bias, []);
  }

  lemma DigitsEnd(q: int, k: int, bias: int)
    requires 0 <= q < TFunc(k, bias)
    ensures Letters(VarDigits(q, k, bias)) == [LetterCode(q)]
  {
  }

  /** preprune applied to a whole label; the case table is a parameter. */
  function Lowered(lower: Rune -> Rune, input: seq<Rune>): (b: seq<Rune>) {
    seq(|input|, i requires 0 <= i < |input| => lower(input[i]))
  }

  /** encode. */
  method Encode(lower: Rune -> Rune, input: seq<Rune>) returns (out: Option<seq<int>>)
    ensures out == Encoded(Lowered(lower, input))
  {
    hide AtMost, EncodeFrom, Lowered, Before;
    var b := Lowered(lower, input);
    var basic: seq<int> := [];
    for i := 0 to |b|
      invariant basic == AtMost(b[..i], FIRST - 1)
    {
      HandledAppendOne(b, i);
      if b[i] <= 0x7f {
        basic := basic + [b[i]];
      }
    }
    assert b[..|b|] == b;
    if |basic| == |b| {
      return Some(basic);
    }
    var text := PREFIX;
    if |basic| > 0 {
      text := text + basic + [DELIMITER];
    }
    StartText(basic, text);
    StartCursor(b);
    out := EncodeDeltas(b, |basic|, text);
  }

  /** The main loop of encode. While the gaps fit, the 32-bit delta is the true one: no operation on it wraps. */
  method EncodeDeltas(b: seq<Rune>, basiclen: nat, text0: seq<int>) returns (out: Option<seq<int>>)
    requires basiclen == |AtMost(b, FIRST - 1)| < |b| && Cursor(b, FIRST, 0, FIRST, 0)
    ensures out == Before(text0, EncodeFrom(b, FIRST, 0, FIRST, 0, FIRST_BIAS))
  {
    hide AtMost, Handled, Delta, EncodeFrom, FitsFrom, Wrap, Before, Times, Cursor;
    var n, bias := FIRST, FIRST_BIAS;
    var text, delta, h := text0, 0, basiclen;
    ghost var n0, i0 := FIRST, 0;
    StartCursor(b);
    ghost var fit := FitsFrom(b, FIRST, 0, FIRST, 0) && |b| < INT32 - 1;
    ghost var all := Before(text0, EncodeFrom(b, FIRST, 0, FIRST, 0, FIRST_BIAS));
    while h < |b|
      invariant Cursor(b, n, 0, n0, i0) && bias >= 0 && FIRST <= n <= MAXRUNE + 1
      invariant basiclen <= h == |Handled(b, n, 0)| <= |b|
      invariant i0 == 0 <==> h == basiclen
      invariant delta == Wrap(Delta(b, n, 0, n0, i0))
      invariant all == Before(text, EncodeFrom(b, n, 0, n0, i0, bias))
      invariant fit ==> FitsFrom(b, n, 0, n0, i0)
      decreases MAXRUNE + 1 - n
    {
      SomethingLeft(b, n);
      var nextltr := Next(b, n);
      Jump(b, n, nextltr, n0, i0, bias);
      WrapSum(Delta(b, n, 0, n0, i0), nextltr - n, h + 1);
      delta, n := Wrap(delta + Wrap(Times(nextltr - n, h + 1))), nextltr;
      var cs;
      cs, h, delta, bias, n0, i0 := EncodePass(b, n, basiclen, h, delta, bias, n0, i0, fit);
      if cs.None? {
        BeforeTwice(text, [], None);
        return None;
      }
      NextRound(b, n, n0, i0, bias, text, cs.value);
      text := text + cs.value;
      n, delta := n + 1, Wrap(delta + 1);
    }
    NothingLeft(b, n, 0, n0, i0, bias);
    BeforeNothing(text);
    out := Some(text);
  }

  /** From the end of a pass to the start of the next. */
  lemma NextRound(b: seq<Rune>, n: int, n0: int, i0: int, bias: int, text: seq<int>, cs: seq<int>)
    requires Cursor(b, n, |b|, n0, i0) && n <= MAXRUNE
    ensures Cursor(b, n + 1, 0, n0, i0) && Handled(b, n, |b|) == Handled(b, n + 1, 0) && |Handled(b, n, |b|)| <= |b|
    ensures Before(text, Before(cs, EncodeFrom(b, n, |b|, n0, i0, bias)))
         == Before(text + cs, EncodeFrom(b, n + 1, 0, n0, i0, bias))
    ensures FitsFrom(b, n, |b|, n0, i0) == FitsFrom(b, n + 1, 0, n0, i0)
    ensures Wrap(Wrap(Delta(b, n, |b|, n0, i0)) + 1) == Wrap(Delta(b, n + 1, 0, n0, i0))
  {
    hide AtMost, Handled, Delta, Wrap, Before;
    CursorPass(b, n, n0, i0);
    EncodePassEnd(b, n, n0, i0, bias);
    HandledPass(b, n);
    HandledBounds(b, n, |b|);
    BeforeTwice(text, cs, EncodeFrom(b, n, |b|, n0, i0, bias));
    WrapSum(Delta(b, n, |b|, n0, i0), 1, 1);
  }

  lemma StartText(basic: seq<int>, text: seq<int>)
    requires text == if |basic| > 0 then PREFIX + basic + [DELIMITER] else PREFIX
    ensures text == PREFIX + (if basic == [] then [] else basic + [DELIMITER])
  {
  }

  lemma BeforeNothing(cs: seq<int>)
    ensures Before(cs, Some([])) == Some(cs)
  {
    assert cs + [] == cs;
  }

  /** Adding a product to a delta, both in 32 bits. */
  lemma WrapSum(delta: int, x: int, y: int)
    ensures Wrap(Wrap(delta) + Wrap(Times(x, y))) == Wrap(delta + Times(x, y))
    ensures Wrap(Wrap(delta) + 1) == Wrap(delta + 1)
  {
    hide Wrap, Times;
    WrapInner(Wrap(delta), Times(x, y));
    WrapInner(Times(x, y), delta);
    WrapInner(1, delta);
  }

  /** The delta that a run with fitting gaps accumulates is a 31-bit number. */
  lemma DeltaExact(b: seq<Rune>, n: int, j: int, n0: int, i0: int)
    requires Cursor(b, n, j, n0, i0) && FitsFrom(b, n, j, n0, i0) && |b| < INT32 - 1
    requires |Handled(b, n, j)| < |b| || n == n0
    ensures 0 <= Delta(b, n, j, n0, i0) < INT32 && Wrap(Delta(b, n, j, n0, i0)) == Delta(b, n, j, n0, i0)
  {
    hide AtMost, Handled, FitsFrom, Delta, Wrap;
    DeltaNonneg(b, n, j, n0, i0);
    if |Handled(b, n, j)| < |b| {
      DeltaFits(b, n, j, n0, i0);
    } else {
      NearDelta(b, n, j, i0);
    }
    WrapFits(Delta(b, n, j, n0, i0));
  }

  /** The encoder's inner loop: one pass over the label for code point n. */
  method EncodePass(b: seq<Rune>, n: int, basiclen: nat, h0: nat, delta0: int, bias0: int, ghost n0: int, ghost i0: int, ghost fit: bool)
    returns (out: Option<seq<int>>, h: nat, delta: int, bias: int, ghost n1: int, ghost i1: int)
    requires n <= MAXRUNE && Cursor(b, n, 0, n0, i0) && bias0 >= 0
    requires basiclen <= h0 == |Handled(b, n, 0)| < |b|
    requires i0 == 0 <==> h0 == basiclen
    requires delta0 == Wrap(Delta(b, n, 0, n0, i0))
    requires fit ==> FitsFrom(b, n, 0, n0, i0) && |b| < INT32 - 1
    ensures out.None? ==> EncodeFrom(b, n, 0, n0, i0, bias0) == None
    ensures out.Some? ==>
              && Cursor(b, n, |b|, n1, i1) && bias >= 0
              && basiclen <= h == |Handled(b, n, |b|)|
              && (i1 == 0 <==> h == basiclen)
              && delta == Wrap(Delta(b, n, |b|, n1, i1))
              && EncodeFrom(b, n, 0, n0, i0, bias0) == Before(out.value, EncodeFrom(b, n, |b|, n1, i1, bias))
              && (fit ==> FitsFrom(b, n, |b|, n1, i1) && delta == Delta(b, n, |b|, n1, i1))
    ensures fit ==> out.Some?
  {
    hide AtMost, Handled, Delta, Adapt, VarDigits, Letters, EncodeFrom, FitsFrom, Wrap, Before;
    h, delta, bias := h0, delta0, bias0;
    n1, i1 := n0, i0;
    var text: seq<int> := [];
    BeforeTwice([], [], EncodeFrom(b, n, 0, n0, i0, bias0));
    for j := 0 to |b|
      invariant Cursor(b, n, j, n1, i1) && bias >= 0
      invariant basiclen <= h == |Handled(b, n, j)|
      invariant i1 == 0 <==> h == basiclen
      invariant h == h0 || n1 == n
      invariant delta == Wrap(Delta(b, n, j, n1, i1))
      invariant EncodeFrom(b, n, 0, n0, i0, bias0) == Before(text, EncodeFrom(b, n, j, n1, i1, bias))
      invariant fit ==> FitsFrom(b, n, j, n1, i1)
    {
      var ltr := b[j];
      if fit {
        DeltaExact(b, n, j, n1, i1);
      }
      assert fit ==> delta == Delta(b, n, j, n1, i1);
      CursorStep(b, n, j, n1, i1);
      HandledStep(b, n, j);
      HandledBounds(b, n, j);
      EncodeStep(b, n, j, n1, i1, bias);
      if ltr < n {
        WrapSum(Delta(b, n, j, n1, i1), 1, 1);
        delta := Wrap(delta + 1);
      }
      if ltr == n {
        var cs := EmitDigits(delta, bias);
        if cs.None? {
          BeforeTwice(text, [], None);
          return None, h, delta, bias, n1, i1;
        }
        BeforeTwice(text, cs.value, EncodeFrom(b, n, j + 1, n, |AtMost(b[..j], n)| + 1, Adapt(delta, h + 1, i1 == 0)));
        text := text + cs.value;
        bias := RunAdapt(delta, h + 1, h == basiclen);
        n1, i1 := n, |AtMost(b[..j], n)| + 1;
        h, delta := h + 1, 0;
      }
    }
    if fit {
      DeltaExact(b, n, |b|, n1, i1);
    }
    out := Some(text);
  }

  lemma HandledAppendOne(b: seq<Rune>, i: int)
    requires 0 <= i < |b|
    ensures AtMost(b[..i + 1], FIRST - 1) == AtMost(b[..i], FIRST - 1) + if b[i] < FIRST then [b[i]] else []
  {
    assert b[..i + 1] == b[..i] + [b[i]];
    AtMostAppend(b[..i], [b[i]], FIRST - 1);
  }

  lemma SomethingLeft(b: seq<Rune>, n: int)
    requires FIRST <= n && |Handled(b, n, 0)| < |b|
    ensures exists x :: x in b && x >= n
  {
    HandledPass(b, n - 1);
    AtMostAll(b, n - 1);
  }
}
