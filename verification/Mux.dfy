/** Dispatch of queries to registered zones (ServeMux, server.go). */
module Mux {
  import opened Bytes
  import opened Labels
  import opened Options

  function LowerByte(b: byte): byte {
    if 'A' as int <= b <= 'Z' as int then b + 32 else b
  }

  function Lower(s: Name): (t: Name)
    ensures |t| == |s|
  {
    seq(|s|, i requires 0 <= i < |s| => LowerByte(s[i]))
  }

  /** Offsets at which the dispatcher looks a query up: its start and every label start behind it. */
  function Offsets(q: Name): (idx: seq<nat>)
    ensures |idx| >= 1
    ensures forall k :: 0 <= k < |idx| ==> idx[k] <= |q|
  {
    [0] + StartsAfter(q, 0)
  }

  /** The first registered suffix from index k on. */
  function FirstHit<H>(z: map<Name, H>, q: Name, k: nat): (r: Option<H>)
    requires k <= |Offsets(q)|
    decreases |Offsets(q)| - k
  {
    if k == |Offsets(q)| then None
    else
      var key := Lower(q[Offsets(q)[k]..]);
      if key in z then Some(z[key]) else FirstHit(z, q, k + 1)
  }

  /** The last registered suffix from index k on. */
  function LastHit<H>(z: map<Name, H>, q: Name, k: nat): (r: Option<H>)
    requires k <= |Offsets(q)|
    decreases |Offsets(q)| - k
  {
    if k == |Offsets(q)| then None
    else
      var later, key := LastHit(z, q, k + 1), Lower(q[Offsets(q)[k]..]);
      if later.Some? then later else if key in z then Some(z[key]) else None
  }

  /** The handler for a query: the longest registered suffix, or the root; DS queries go to the shortest instead. */
  function Found<H>(z: map<Name, H>, q: Name, ds: bool): (r: Option<H>) {
    if !ds && FirstHit(z, q, 0).Some? then FirstHit(z, q, 0)
    else if [DOT] in z then Some(z[[DOT]])
    else if ds then LastHit(z, q, 0) else None
  }

  class ServeMux<H(==)> {
    var z: map<Name, H>

    /** Every pattern is registered with its closing dot. */
    ghost predicate Valid()
      reads this
    {
      forall key :: key in z ==> IsFqdn(key)
    }

    constructor ()
      ensures Valid() && z == map[]
    {
      z := map[];
    }

    /** Registers a handler. The source panics on an empty pattern. */
    method Handle(pattern: Name, handler: H)
      requires Valid() && pattern != []
      modifies this
      ensures Valid() && z == old(z)[Fqdn(pattern) := handler]
    {
      z := z[Fqdn(pattern) := handler];
    }

    method HandleRemove(pattern: Name)
      requires Valid() && pattern != []
      modifies this
      ensures Valid() && z == old(z) - {Fqdn(pattern)}
    {
      z := z - {Fqdn(pattern)};
    }

    /** match: lower-cases one suffix of the query after the other into the same buffer. */
    method Match(q: Name, ds: bool) returns (r: Option<H>)
      ensures r == Found(z, q, ds)
    {
      hide NextFrom, Lower, FirstHit, LastHit, Offsets;
      var handler: Option<H> := None;
      var b := new byte[|q|];
      var off, end := 0, false;
      ghost var k := 0;
      OffsetsStep(q, 0);
      while true
        invariant k < |Offsets(q)| && off == Offsets(q)[k]
        invariant !ds ==> handler == None && FirstHit(z, q, 0) == FirstHit(z, q, k)
        invariant ds ==> LastHit(z, q, 0) == if LastHit(z, q, k).Some? then LastHit(z, q, k) else handler
        decreases |Offsets(q)| - k
      {
        var l := |q[off..]|;
        LowerInto(b, q, off, l);
        HitStep(z, q, k);
        OffsetsStep(q, k);
        if b[..l] in z {
          if !ds {
            return Some(z[b[..l]]);
          }
          // A DS query goes on to see whether a parent is registered too.
          handler := Some(z[b[..l]]);
        }
        off, end := NextLabel(q, off);
        if end {
          break;
        }
        k := k + 1;
      }
      if [DOT] in z {
        return Some(z[[DOT]]);
      }
      return handler;
    }
  }

  /** Lower-cases the suffix of q at off into the front of b. */
  method LowerInto(b: array<byte>, q: Name, off: nat, l: nat)
    requires off <= |q| && l == |q| - off <= b.Length
    modifies b
    ensures b[..l] == Lower(q[off..])
  {
    for i := 0 to l
      invariant forall x :: 0 <= x < i ==> b[x] == LowerByte(q[off + x])
    {
      b[i] := q[off + i];
      if 'A' as int <= b[i] <= 'Z' as int {
        b[i] := b[i] + 32;
      }
    }
  }

  lemma OffsetsStep(q: Name, k: nat)
    requires k < |Offsets(q)|
    ensures var (n, end) := NextFrom(q, Offsets(q)[k], false);
            (end <==> k + 1 == |Offsets(q)|) && (!end ==> Offsets(q)[k + 1] == n)
    ensures Offsets(q)[0] == 0
  {
    hide NextFrom;
    OffsetsTail(q, 0, k);
    var off := Offsets(q)[k];
    assert |Offsets(q)[k..]| == |Offsets(q)| - k;
    assert k + 1 < |Offsets(q)| ==> Offsets(q)[k + 1] == Offsets(q)[k..][1] == StartsAfter(q, off)[0];
  }

  lemma HitStep<H>(z: map<Name, H>, q: Name, k: nat)
    requires k < |Offsets(q)|
    ensures var key := Lower(q[Offsets(q)[k]..]);
            && FirstHit(z, q, k) == (if key in z then Some(z[key]) else FirstHit(z, q, k + 1))
            && LastHit(z, q, k) == (if LastHit(z, q, k + 1).Some? then LastHit(z, q, k + 1) else if key in z then Some(z[key]) else None)
    ensures FirstHit(z, q, |Offsets(q)|) == None && LastHit(z, q, |Offsets(q)|) == None
  {
    hide Lower, Offsets;
  }

  // ----- dispatch as a choice among zones -----

  /** The suffix looked up in round k. */
  function Candidate(q: Name, k: nat): (c: Name)
    requires k < |Offsets(q)|
  {
    Lower(q[Offsets(q)[k]..])
  }

  lemma {:induction false} NextLower(q: Name, i: nat, quote: bool)
    ensures NextFrom(Lower(q), i, quote) == NextFrom(q, i, quote)
    decreases |q| - i
  {
    if i + 1 < |q| {
      NextLower(q, i + 1, !quote);
      NextLower(q, i + 1, false);
    }
  }

  lemma {:induction false} StartsLower(q: Name, off: nat)
    ensures StartsAfter(Lower(q), off) == StartsAfter(q, off)
    decreases |q| - off
  {
    hide NextFrom, Lower;
    NextLower(q, off, false);
    var (n, end) := NextFrom(q, off, false);
    if !end {
      StartsLower(q, n);
    }
  }

  lemma LowerFacts(q: Name, off: nat)
    requires off <= |q|
    ensures Lower(q[off..]) == Lower(q)[off..]
    ensures Lower(Lower(q)) == Lower(q)
    ensures IsFqdn(q) ==> IsFqdn(Lower(q))
  {
  }

  /** Looking up a lower-cased query tries the same suffixes. */
  lemma CandidateLower(q: Name, k: nat)
    requires k < |Offsets(q)|
    ensures Offsets(Lower(q)) == Offsets(q)
    ensures Candidate(Lower(q), k) == Candidate(q, k) == Lower(q)[Offsets(q)[k]..]
  {
    hide Lower;
    StartsLower(q, 0);
    LowerFacts(q, Offsets(q)[k]);
    LowerFacts(Lower(q), Offsets(q)[k]);
  }

  lemma {:induction false} OffsetsTail(s: Name, off: nat, k: nat)
    requires k < |[off] + StartsAfter(s, off)|
    ensures var idx := [off] + StartsAfter(s, off);
            idx[k..] == [idx[k]] + StartsAfter(s, idx[k])
    decreases k
  {
    hide NextFrom;
    if k > 0 {
      var n := NextFrom(s, off, false).0;
      OffsetsTail(s, n, k - 1);
      var tail := [n] + StartsAfter(s, n);
      assert [off] + StartsAfter(s, off) == [off] + tail;
      assert ([off] + tail)[k..] == tail[k - 1..];
    }
  }

  /** The labels of the suffix at round k are the last labels of the name. */
  lemma CutTail(s: Name, k: nat)
    requires s != [] && k < |Offsets(s)|
    ensures Offsets(s)[k] < |s| && |Cut(s)| == |Offsets(s)|
    ensures Cut(s)[k..] == Cut(s[Offsets(s)[k]..])
  {
    hide NextFrom, StartsAfter, Cut, Sliced;
    var idx := Offsets(s);
    CutSlices(s, 0);
    assert s[0..] == s;
    SliceAt(s, idx, Cut(s), k);
    CutSlices(s, idx[k]);
    OffsetsTail(s, 0, k);
    SlicedTail(s, idx, Cut(s), k, Cut(s[idx[k]..]));
  }

  lemma SlicedTail(s: Name, idx: seq<nat>, ps: seq<Bytes>, k: nat, qs: seq<Bytes>)
    requires Sliced(s, idx, ps) && k < |idx| && Sliced(s, idx[k..], qs)
    ensures ps[k..] == qs
  {
    hide Sliced;
    SlicedLength(s, idx, ps);
    SlicedLength(s, idx[k..], qs);
    forall j | 0 <= j < |qs|
      ensures ps[k..][j] == qs[j]
    {
      SliceAt(s, idx, ps, k + j);
      SliceAt(s, idx[k..], qs, j);
    }
  }

  /** The suffixes tried are exactly the ancestors of the lower-cased query, the longest first. */
  lemma CandidateIsAncestor(q: Name, key: Name, k: nat)
    requires IsFqdn(q) && IsFqdn(key) && key != [DOT]
    requires k < |Offsets(q)| && Candidate(q, k) == key
    ensures Below(key, Lower(q)) && |Pieces(key)| == |Offsets(q)| - k
  {
    hide NextFrom, StartsAfter, Cut, Lower;
    var n := Lower(q);
    CandidateLower(q, k);
    LowerFacts(q, 0);
    CutTail(n, k);
  }

  lemma AncestorIsCandidate(q: Name, key: Name) returns (k: nat)
    requires IsFqdn(q) && IsFqdn(key) && key != [DOT] && Below(key, Lower(q))
    ensures k < |Offsets(q)| && Candidate(q, k) == key
  {
    hide NextFrom, StartsAfter, Cut, Lower, Below;
    var n := Lower(q);
    LowerFacts(q, 0);
    BelowCut(key, n);
    CandidateLower(q, 0);
    CutTail(n, 0);
    k := |Cut(n)| - |Cut(key)|;
    CutTail(n, k);
    CandidateLower(q, k);
    JoinCut(key);
    JoinCut(n[Offsets(n)[k]..]);
  }

  lemma BelowCut(key: Name, n: Name)
    requires IsFqdn(key) && IsFqdn(n) && key != [DOT] && Below(key, n)
    ensures |Cut(key)| <= |Cut(n)| && Cut(n)[|Cut(n)| - |Cut(key)|..] == Cut(key)
  {
    hide Cut;
  }

  lemma {:induction false} FirstHitIs<H>(z: map<Name, H>, q: Name, k: nat) returns (j: nat)
    requires k <= |Offsets(q)|
    ensures FirstHit(z, q, k).None? ==> forall i :: k <= i < |Offsets(q)| ==> Candidate(q, i) !in z
    ensures FirstHit(z, q, k).Some? ==>
              && k <= j < |Offsets(q)| && Candidate(q, j) in z && FirstHit(z, q, k).value == z[Candidate(q, j)]
              && forall i :: k <= i < j ==> Candidate(q, i) !in z
    decreases |Offsets(q)| - k
  {
    hide Lower, Offsets;
    j := k;
    if k < |Offsets(q)| && Candidate(q, k) !in z {
      j := FirstHitIs(z, q, k + 1);
    }
  }

  lemma {:induction false} LastHitIs<H>(z: map<Name, H>, q: Name, k: nat) returns (j: nat)
    requires k <= |Offsets(q)|
    ensures LastHit(z, q, k).None? ==> forall i :: k <= i < |Offsets(q)| ==> Candidate(q, i) !in z
    ensures LastHit(z, q, k).Some? ==>
              && k <= j < |Offsets(q)| && Candidate(q, j) in z && LastHit(z, q, k).value == z[Candidate(q, j)]
              && forall i :: j < i < |Offsets(q)| ==> Candidate(q, i) !in z
    decreases |Offsets(q)| - k
  {
    hide Lower, Offsets;
    j := k;
    if k < |Offsets(q)| {
      var later := LastHitIs(z, q, k + 1);
      if LastHit(z, q, k + 1).Some? {
        j := later;
      }
    }
  }

  /** key is a registered zone that contains the query. */
  ghost predicate Serves<H>(z: map<Name, H>, q: Name, key: Name) {
    key in z && Below(key, Lower(q))
  }

  lemma RootServes<H>(z: map<Name, H>, q: Name)
    requires [DOT] in z
    ensures Serves(z, q, [DOT]) && |Pieces([DOT])| == 0
  {
  }

  /**
    Main result: a query other than for DS gets the handler of the registered zone with the most labels that contains
    it, letter case aside, and none exactly when there is no such zone.
    */
  lemma Dispatch<H>(z: map<Name, H>, q: Name) returns (zone: Name)
    requires IsFqdn(q) && forall key :: key in z ==> IsFqdn(key)
    ensures Found(z, q, false).None? ==> forall key :: !Serves(z, q, key)
    ensures Found(z, q, false).Some? ==>
              && Serves(z, q, zone) && Found(z, q, false) == Some(z[zone])
              && forall key :: Serves(z, q, key) ==> |Pieces(key)| <= |Pieces(zone)|
  {
    hide Lower, Offsets, Pieces, FirstHit, LastHit, Candidate, Below;
    var j := FirstHitIs(z, q, 0);
    zone := if FirstHit(z, q, 0).Some? then Candidate(q, j) else [DOT];
    if [DOT] in z {
      RootServes(z, q);
    }
    if FirstHit(z, q, 0).Some? && zone != [DOT] {
      CandidateIsAncestor(q, zone, j);
    }
    forall key | Serves(z, q, key)
      ensures Found(z, q, false).Some? && |Pieces(key)| <= |Pieces(zone)|
    {
      if key != [DOT] {
        var k := AncestorIsCandidate(q, key);
        CandidateIsAncestor(q, key, k);
        assert FirstHit(z, q, 0).Some?;
        if zone == [DOT] {
          RootCandidate(q, j, k);
        }
      }
    }
  }

  /** A suffix that is the root is the last one tried. */
  lemma RootCandidate(q: Name, j: nat, k: nat)
    requires IsFqdn(q) && j < |Offsets(q)| && k < |Offsets(q)| && Candidate(q, j) == [DOT]
    ensures Candidate(q, k) == [DOT] || k < j
  {
    hide NextFrom, Lower;
    if k >= j {
      OffsetsTail(q, 0, j);
      var o := Offsets(q)[j];
      LowerLength(q[o..]);
      assert NextFrom(q, o, false).1 by { LastByte(q, o); }
      assert Offsets(q)[j..] == [o];
      assert |Offsets(q)[j..]| == |Offsets(q)| - j;
    }
  }

  lemma LowerLength(q: Name)
    ensures |Lower(q)| == |q|
  {
  }

  lemma LastByte(q: Name, o: nat)
    requires o + 1 >= |q|
    ensures NextFrom(q, o, false).1
  {
  }

  /** DS queries go the other way: to the registered zone with the fewest labels that contains the name. */
  lemma DispatchDS<H>(z: map<Name, H>, q: Name) returns (zone: Name)
    requires IsFqdn(q) && forall key :: key in z ==> IsFqdn(key)
    ensures Found(z, q, true).None? ==> forall key :: !Serves(z, q, key)
    ensures Found(z, q, true).Some? ==>
              && Serves(z, q, zone) && Found(z, q, true) == Some(z[zone])
              && forall key :: Serves(z, q, key) ==> |Pieces(zone)| <= |Pieces(key)|
  {
    hide Lower, Offsets, Pieces, FirstHit, LastHit, Candidate, Below;
    var j := LastHitIs(z, q, 0);
    zone := if [DOT] !in z && LastHit(z, q, 0).Some? then Candidate(q, j) else [DOT];
    if [DOT] in z {
      RootServes(z, q);
    } else {
      if LastHit(z, q, 0).Some? {
        CandidateIsAncestor(q, zone, j);
      }
      forall key | Serves(z, q, key)
        ensures LastHit(z, q, 0).Some? && |Pieces(zone)| <= |Pieces(key)|
      {
        var k := AncestorIsCandidate(q, key);
        CandidateIsAncestor(q, key, k);
      }
    }
  }

  // ----- letter case -----

  /** The same character, or a letter A to Z and the same letter 32 above it. */
  predicate SameLetter(a: byte, b: byte) {
    a == b || (65 <= a <= 90 && b == a + 32) || (65 <= b <= 90 && a == b + 32)
  }

  predicate SameButCase(s: Name, t: Name) {
    |s| == |t| && forall i :: 0 <= i < |s| ==> SameLetter(s[i], t[i])
  }

  predicate NoCapitals(s: Name) {
    forall i :: 0 <= i < |s| ==> !(65 <= s[i] <= 90)
  }

  /** Lower-casing takes names together exactly when they differ in letter case at most. */
  lemma LowerIs(s: Name, t: Name)
    ensures Lower(s) == Lower(t) <==> SameButCase(s, t)
    ensures SameButCase(Lower(s), s) && NoCapitals(Lower(s))
    ensures NoCapitals(s) ==> Lower(s) == s
  {
    hide SameLetter, LowerByte;
    forall i | 0 <= i < |s|
      ensures SameLetter(Lower(s)[i], s[i]) && !(65 <= Lower(s)[i] <= 90) && (65 <= s[i] <= 90 || Lower(s)[i] == s[i])
    {
      LowerByteIs(s[i], s[i]);
    }
    if SameButCase(s, t) {
      forall i | 0 <= i < |s| ensures Lower(s)[i] == Lower(t)[i] {
        LowerByteIs(s[i], t[i]);
      }
    }
    if Lower(s) == Lower(t) {
      LowerLength(s);
      LowerLength(t);
      forall i | 0 <= i < |s| ensures SameLetter(s[i], t[i]) {
        assert Lower(s)[i] == Lower(t)[i];
        LowerByteIs(s[i], t[i]);
      }
    }
  }

  lemma LowerByteIs(a: byte, b: byte)
    ensures LowerByte(a) == LowerByte(b) <==> SameLetter(a, b)
    ensures SameLetter(LowerByte(a), a) && !(65 <= LowerByte(a) <= 90) && (65 <= a <= 90 || LowerByte(a) == a)
  {
  }

  /** Queries that differ in letter case at most go to the same handler. */
  lemma DispatchIgnoresCase<H>(z: map<Name, H>, q: Name, p: Name, ds: bool)
    requires SameButCase(q, p)
    ensures Found(z, q, ds) == Found(z, p, ds)
  {
    hide FirstHit, LastHit, Lower;
    LowerIs(q, p);
    HitsLower(z, q, 0);
    HitsLower(z, p, 0);
  }

  /** A zone in lower case serves its own name, however that is written. */
  lemma ZoneServesItself<H>(z: map<Name, H>, zone: Name, q: Name)
    requires zone in z && NoCapitals(zone) && SameButCase(q, zone)
    ensures Found(z, q, false) == Some(z[zone])
  {
    hide FirstHit, Lower, NextFrom;
    LowerIs(q, zone);
    LowerIs(zone, zone);
    HitStep(z, q, 0);
    assert q[Offsets(q)[0]..] == q;
  }

  lemma {:induction false} HitsLower<H>(z: map<Name, H>, q: Name, k: nat)
    requires k <= |Offsets(q)|
    ensures Offsets(Lower(q)) == Offsets(q)
    ensures FirstHit(z, Lower(q), k) == FirstHit(z, q, k) && LastHit(z, Lower(q), k) == LastHit(z, q, k)
    decreases |Offsets(q)| - k
  {
    hide Lower, Offsets;
    CandidateLower(q, 0);
    if k < |Offsets(q)| {
      CandidateLower(q, k);
      HitsLower(z, q, k + 1);
    }
  }
}
