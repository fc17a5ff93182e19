/** Label scanning and comparison on names in text form (labels.go, defaults.go). */
module Labels {
  import opened Bytes

  type Name = Bytes

  // ----- scanning -----

  /** NextLabel from index i on: where the next label starts, or that there is none. quote: an odd run of backslashes ends before i. */
  function NextFrom(s: Name, i: nat, quote: bool): (r: (nat, bool))
    ensures r.0 > i
    ensures !r.1 ==> r.0 < |s| && s[r.0 - 1] == DOT
    decreases |s| - i
  {
    if i + 1 >= |s| then (i + 1, true)
    else if s[i] == SLASH then NextFrom(s, i + 1, !quote)
    else if s[i] == DOT && !quote then (i + 1, false)
    else NextFrom(s, i + 1, false)
  }

  method NextLabel(s: Name, offset: nat) returns (i: nat, end: bool)
    ensures (i, end) == NextFrom(s, offset, false)
  {
    var quote := false;
    i := offset;
    while i + 1 < |s|
      invariant NextFrom(s, offset, false) == NextFrom(s, i, quote)
      decreases |s| - i
    {
      if s[i] == SLASH {
        quote := !quote;
      } else if s[i] == DOT {
        if !quote {
          return i + 1, false;
        }
        quote := false;
      } else {
        quote := false;
      }
      i := i + 1;
    }
    return i + 1, true;
  }

  /** Starts of the labels behind the one at off. */
  function StartsAfter(s: Name, off: nat): (idx: seq<nat>)
    ensures forall k :: 0 <= k < |idx| ==> off < idx[k] < |s|
    decreases |s| - off
  {
    var (n, end) := NextFrom(s, off, false);
    if end then [] else [n] + StartsAfter(s, n)
  }

  /** The label starts of a name; none for the root. */
  function Starts(s: Name): (idx: seq<nat>) {
    if s == [DOT] then [] else [0] + StartsAfter(s, 0)
  }

  method Split(s: Name) returns (idx: seq<nat>)
    ensures idx == Starts(s)
  {
    if s == [DOT] {
      return [];
    }
    idx := [0];
    var off, end := 0, false;
    while true
      invariant idx + StartsAfter(s, off) == Starts(s)
      decreases |s| - off
    {
      off, end := NextLabel(s, off);
      if end {
        return;
      }
      idx := idx + [off];
    }
  }

  method CountLabel(s: Name) returns (labels: nat)
    ensures labels == |Starts(s)|
  {
    labels := 0;
    if s == [DOT] {
      return;
    }
    var off, end := 0, false;
    while true
      invariant labels + 1 + |StartsAfter(s, off)| == |Starts(s)|
      decreases |s| - off
    {
      off, end := NextLabel(s, off);
      labels := labels + 1;
      if end {
        return;
      }
    }
  }

  // ----- names as lists of labels -----

  /** A name cut behind every dot that separates labels, each piece with its dot. */
  function Cut(s: Name): (ps: seq<Bytes>)
    requires s != []
    ensures |ps| >= 1
    decreases |s|
  {
    var (n, end) := NextFrom(s, 0, false);
    if end then [s] else [s[..n]] + Cut(s[n..])
  }

  function Pieces(s: Name): (ps: seq<Bytes>)
    requires s != []
  {
    if s == [DOT] then [] else Cut(s)
  }

  function Join(ps: seq<Bytes>): (s: Bytes) {
    if ps == [] then [] else ps[0] + Join(ps[1..])
  }

  /** Scanning from n on is scanning the rest of the name. */
  lemma {:induction false} NextShift(s: Name, n: nat, i: nat, quote: bool)
    requires n <= |s|
    ensures var (a, e) := NextFrom(s[n..], i, quote); NextFrom(s, n + i, quote) == (n + a, e)
    decreases |s| - n - i
  {
    hide NextFrom;
    NextStep(s, n + i, quote);
    NextStep(s[n..], i, quote);
    if n + i + 1 < |s| {
      assert s[n..][i] == s[n + i];
      if s[n + i] == SLASH {
        NextShift(s, n, i + 1, !quote);
      } else if quote || s[n + i] != DOT {
        NextShift(s, n, i + 1, false);
      }
    }
  }

  lemma NextStep(s: Name, i: nat, quote: bool)
    ensures NextFrom(s, i, quote) ==
            if i + 1 >= |s| then (i + 1, true)
            else if s[i] == SLASH then NextFrom(s, i + 1, !quote)
            else if s[i] == DOT && !quote then (i + 1, false)
            else NextFrom(s, i + 1, false)
  {
  }

  // ----- which dot ends a label -----

  /** How many backslashes stand directly in front of index j, not counting any before from. */
  function Backslashes(s: Name, from: nat, j: nat): (n: nat)
    requires j <= |s|
    decreases j
  {
    if j > from && s[j - 1] == 92 then 1 + Backslashes(s, from, j - 1) else 0
  }

  /** A dot with an even number of backslashes in front of it. */
  predicate FreeDot(s: Name, from: nat, j: nat) {
    j < |s| && s[j] == 46 && Backslashes(s, from, j) % 2 == 0
  }

  /**
    The next label starts behind the first free dot that is not the last character; there is none exactly when there
    is no such dot.
    */
  lemma {:induction false} NextIs(s: Name, from: nat, i: nat, quote: bool)
    requires from <= i <= |s| && (quote <==> Backslashes(s, from, i) % 2 == 1)
    ensures var (n, end) := NextFrom(s, i, quote);
            if end then forall j :: i <= j < |s| - 1 ==> !FreeDot(s, from, j)
            else i < n < |s| && FreeDot(s, from, n - 1) && forall j :: i <= j < n - 1 ==> !FreeDot(s, from, j)
    decreases |s| - i
  {
    hide NextFrom;
    NextStep(s, i, quote);
    if i + 1 < |s| {
      if s[i] == SLASH {
        NextIs(s, from, i + 1, !quote);
      } else if quote || s[i] != DOT {
        NextIs(s, from, i + 1, false);
      }
    }
  }

  /** Positions in s, ascending, each but the first behind a dot. */
  ghost predicate Ascending(s: Name, idx: seq<nat>) {
    forall k :: 0 <= k < |idx| ==> AscendingAt(s, idx, k)
  }

  ghost predicate AscendingAt(s: Name, idx: seq<nat>, k: nat)
    requires k < |idx|
  {
    idx[k] < |s| && (k > 0 ==> idx[k - 1] < idx[k] && s[idx[k] - 1] == DOT)
  }

  /** The part of s from the k-th position to the next. */
  function Slice(s: Name, idx: seq<nat>, k: nat): Bytes
    requires Ascending(s, idx) && k < |idx|
  {
    assert AscendingAt(s, idx, k) && (k + 1 < |idx| ==> AscendingAt(s, idx, k + 1));
    if k + 1 < |idx| then s[idx[k]..idx[k + 1]] else s[idx[k]..]
  }

  /** ps are the slices of s at idx. */
  ghost predicate Sliced(s: Name, idx: seq<nat>, ps: seq<Bytes>) {
    && Ascending(s, idx) && |ps| == |idx|
    && forall k :: 0 <= k < |idx| ==> ps[k] == Slice(s, idx, k)
  }

  lemma SlicedCons(s: Name, off: nat, idx: seq<nat>, ps: seq<Bytes>)
    requires Sliced(s, idx, ps) && |idx| > 0 && off < idx[0] < |s| && s[idx[0] - 1] == DOT
    ensures Sliced(s, [off] + idx, [s[off..idx[0]]] + ps)
  {
    hide Ascending, AscendingAt, Slice;
    AscendingCons(s, off, idx);
    forall k | 0 <= k < |[off] + idx|
      ensures ([s[off..idx[0]]] + ps)[k] == Slice(s, [off] + idx, k)
    {
      SliceCons(s, off, idx, k);
    }
  }

  lemma AscendingCons(s: Name, off: nat, idx: seq<nat>)
    requires Ascending(s, idx) && |idx| > 0 && off < idx[0] < |s| && s[idx[0] - 1] == DOT
    ensures Ascending(s, [off] + idx)
  {
    forall k | 0 <= k < |[off] + idx|
      ensures AscendingAt(s, [off] + idx, k)
    {
      if k > 0 {
        assert AscendingAt(s, idx, k - 1);
      }
    }
  }

  /** The first slice is new, the others are those there were. */
  lemma SliceCons(s: Name, off: nat, idx: seq<nat>, k: nat)
    requires Ascending(s, idx) && |idx| > 0 && off < idx[0] < |s| && Ascending(s, [off] + idx) && k <= |idx|
    ensures Slice(s, [off] + idx, k) == if k == 0 then s[off..idx[0]] else Slice(s, idx, k - 1)
  {
  }

  /** Cutting is slicing at the label starts. */
  lemma {:induction false} CutSlices(s: Name, off: nat)
    requires off < |s|
    ensures Sliced(s, [off] + StartsAfter(s, off), Cut(s[off..]))
    decreases |s| - off
  {
    hide NextFrom, Sliced, Cut, StartsAfter;
    var (n, end) := NextFrom(s, off, false);
    NextBounds(s, off);
    CutStep(s, off, n, end);
    StartsFirst(s, off);
    if end {
      SlicedOne(s, off);
      assert [off] + [] == [off];
    } else {
      CutSlices(s, n);
      SlicedCons(s, off, [n] + StartsAfter(s, n), Cut(s[n..]));
    }
  }

  /** One label off the front. */
  lemma CutStep(s: Name, off: nat, n: nat, end: bool)
    requires off < |s| && (n, end) == NextFrom(s, off, false) && off < n && (!end ==> n < |s|)
    ensures Cut(s[off..]) == if end then [s[off..]] else [s[off..n]] + Cut(s[n..])
  {
    hide NextFrom, Cut;
    NextShift(s, off, 0, false);
    CutFirst(s[off..]);
    var (a, e) := NextFrom(s[off..], 0, false);
    assert a == n - off && e == end;
    if !end {
      SliceTwice(s, off, n);
    }
  }

  lemma SliceTwice(s: Name, off: nat, n: nat)
    requires off <= n <= |s|
    ensures s[off..][n - off..] == s[n..] && s[off..][..n - off] == s[off..n]
  {
  }

  lemma NextBounds(s: Name, off: nat)
    ensures var (n, end) := NextFrom(s, off, false); off < n && (!end ==> n < |s| && s[n - 1] == DOT)
  {
  }

  lemma CutFirst(s: Name)
    requires s != []
    ensures var (n, end) := NextFrom(s, 0, false);
            (!end ==> n < |s|) && Cut(s) == if end then [s] else [s[..n]] + Cut(s[n..])
  {
    hide NextFrom;
    NextBounds(s, 0);
  }

  lemma StartsFirst(s: Name, off: nat)
    ensures var (n, end) := NextFrom(s, off, false); StartsAfter(s, off) == if end then [] else [n] + StartsAfter(s, n)
  {
    hide NextFrom;
  }

  lemma SlicedOne(s: Name, off: nat)
    requires off < |s|
    ensures Sliced(s, [off], [s[off..]])
  {
    assert AscendingAt(s, [off], 0);
  }

  lemma {:induction false} JoinCut(s: Name)
    requires s != []
    ensures Join(Cut(s)) == s
    decreases |s|
  {
    hide NextFrom;
    var (n, end) := NextFrom(s, 0, false);
    if end {
      assert [s][1..] == [];
    } else {
      JoinCut(s[n..]);
      assert ([s[..n]] + Cut(s[n..]))[1..] == Cut(s[n..]);
    }
  }

  /** Different names have different labels. */
  lemma PiecesInjective(s: Name, t: Name)
    requires s != [] && t != [] && Pieces(s) == Pieces(t)
    ensures s == t
  {
    if s != [DOT] {
      JoinCut(s);
    }
    if t != [DOT] {
      JoinCut(t);
    }
  }

  // ----- fully qualified names -----

  predicate IsFqdn(s: Name) {
    s != [] && s[|s| - 1] == DOT
  }

  function Fqdn(s: Name): (t: Name)
    ensures IsFqdn(t) && (IsFqdn(s) ==> t == s)
  {
    if IsFqdn(s) then s else s + [DOT]
  }

  /** A dot added at the end starts no new label. */
  lemma {:induction false} NextWithDot(s: Name, i: nat, quote: bool)
    requires s != [] && s[|s| - 1] != DOT
    ensures i < |s| ==>
              var (a, e) := NextFrom(s, i, quote); var (a', e') := NextFrom(s + [DOT], i, quote);
              e == e' && (!e ==> a == a')
    decreases |s| - i
  {
    var t := s + [DOT];
    if i < |s| {
      assert t[i] == s[i];
      if i + 1 < |s| {
        NextWithDot(s, i + 1, !quote);
        NextWithDot(s, i + 1, false);
      }
    }
  }

  lemma {:induction false} StartsWithDot(s: Name, off: nat)
    requires s != [] && s[|s| - 1] != DOT && off < |s|
    ensures StartsAfter(s + [DOT], off) == StartsAfter(s, off)
    decreases |s| - off
  {
    hide NextFrom;
    NextWithDot(s, off, false);
    var (n, end) := NextFrom(s, off, false);
    if !end {
      StartsWithDot(s, n);
    }
  }

  /** Main result: the labels of a non-empty name are counted alike with and without its closing dot. */
  lemma CountWithDot(s: Name)
    requires s != []
    ensures Starts(Fqdn(s)) == Starts(s)
    ensures |Starts(s)| == |Pieces(Fqdn(s))|
  {
    hide NextFrom, StartsAfter, Cut;
    if !IsFqdn(s) {
      StartsWithDot(s, 0);
    }
    var t := Fqdn(s);
    if t != [DOT] {
      CutSlices(t, 0);
      assert t[0..] == t;
    }
  }

  /** The labels of a name are its slices at the label starts. */
  lemma PiecesSliced(s: Name)
    requires s != []
    ensures Sliced(s, Starts(s), Pieces(s))
  {
    hide NextFrom, StartsAfter, Cut;
    CutSlices(s, 0);
    assert s[0..] == s;
  }

  lemma SliceAt(s: Name, idx: seq<nat>, ps: seq<Bytes>, k: nat)
    requires Sliced(s, idx, ps) && k < |idx|
    ensures |ps| == |idx| && idx[k] < |s|
    ensures k + 1 < |idx| ==> idx[k] < idx[k + 1] < |s| && ps[k] == s[idx[k]..idx[k + 1]]
    ensures k + 1 == |idx| ==> ps[k] == s[idx[k]..]
    ensures k > 0 ==> idx[k] > 0 && s[idx[k] - 1] == DOT
  {
    assert AscendingAt(s, idx, k) && (k + 1 < |idx| ==> AscendingAt(s, idx, k + 1));
    assert ps[k] == Slice(s, idx, k);
  }

  /** The labels without their dots. */
  method SplitDomainName(s: Name) returns (labels: seq<Bytes>)
    ensures s == [] ==> labels == []
    ensures s != [] ==>
              && |labels| == |Pieces(Fqdn(s))|
              && forall k :: 0 <= k < |labels| ==> labels[k] + [DOT] == Pieces(Fqdn(s))[k]
  {
    hide Starts, Pieces, Sliced, Fqdn;
    labels := [];
    if |s| == 0 {
      return;
    }
    var idx := Split(s);
    var begin := 0;
    var fqdnEnd := if s[|s| - 1] == DOT then |s| - 1 else |s|;
    ghost var t := Fqdn(s);
    CountWithDot(s);
    PiecesSliced(t);
    if |idx| == 0 {
      return;
    }
    FirstStart(s);
    for i := 1 to |idx|
      invariant |labels| == i - 1 && begin == idx[i - 1]
      invariant forall k :: 0 <= k < |labels| ==> labels[k] + [DOT] == Pieces(t)[k]
    {
      var end := idx[i];
      LabelSlice(s, idx, Pieces(t), i - 1);
      labels := labels + [s[begin..end - 1]];
      begin := end;
    }
    LabelSlice(s, idx, Pieces(t), |idx| - 1);
    labels := labels + [s[begin..fqdnEnd]];
  }

  lemma FirstStart(s: Name)
    requires Starts(s) != []
    ensures Starts(s)[0] == 0
  {
    hide StartsAfter;
  }

  lemma LabelSlice(s: Name, idx: seq<nat>, ps: seq<Bytes>, k: nat)
    requires s != [] && Sliced(Fqdn(s), idx, ps) && k < |idx|
    ensures |ps| == |idx|
    ensures k + 1 < |idx| ==> idx[k] < idx[k + 1] <= |s| && s[idx[k]..idx[k + 1] - 1] + [DOT] == ps[k]
    ensures k + 1 == |idx| ==> var end := if s[|s| - 1] == DOT then |s| - 1 else |s|;
                               idx[k] <= end && s[idx[k]..end] + [DOT] == ps[k]
  {
    hide Sliced;
    SliceAt(Fqdn(s), idx, ps, k);
    SliceAt(Fqdn(s), idx, ps, if k + 1 < |idx| then k + 1 else k);
  }

  // ----- comparison -----

  /** Length of the longest common suffix. */
  function CommonSuffix(a: seq<Bytes>, b: seq<Bytes>): (n: nat)
    ensures n <= |a| && n <= |b|
    decreases |a|
  {
    if a == [] || b == [] || a[|a| - 1] != b[|b| - 1] then 0
    else 1 + CommonSuffix(a[..|a| - 1], b[..|b| - 1])
  }

  /** CommonSuffix is what its name says: m labels are common to both ends exactly when m is at most it. */
  lemma {:induction false} CommonSuffixIs(a: seq<Bytes>, b: seq<Bytes>, m: nat)
    requires m <= |a| && m <= |b|
    ensures m <= CommonSuffix(a, b) <==> a[|a| - m..] == b[|b| - m..]
    decreases |a|
  {
    if m > 0 {
      var a', b' := a[..|a| - 1], b[..|b| - 1];
      assert a[|a| - m..] == a'[|a'| - (m - 1)..] + [a[|a| - 1]];
      assert b[|b| - m..] == b'[|b'| - (m - 1)..] + [b[|b| - 1]];
      if a[|a| - 1] == b[|b| - 1] {
        CommonSuffixIs(a', b', m - 1);
      } else {
        assert a[|a| - m..][m - 1] != b[|b| - m..][m - 1];
      }
    }
  }

  method CompareDomainName(n1: Name, n2: Name) returns (n: nat)
    ensures n == CommonSuffix(Pieces(Fqdn(n1)), Pieces(Fqdn(n2)))
  {
    hide Starts, Pieces, Fqdn, Sliced, CommonSuffix;
    n := 0;
    var s1, s2 := Fqdn(n1), Fqdn(n2);
    var l1 := Split(s1);
    var l2 := Split(s2);
    ghost var p1, p2 := Pieces(s1), Pieces(s2);
    PiecesSliced(s1);
    PiecesSliced(s2);
    SlicedLength(s1, l1, p1);
    SlicedLength(s2, l2, p2);
    CommonNone(p1, p2);
    if |l1| == 0 || |l2| == 0 {
      return;
    }
    var j1, i1: int := |l1| - 1, |l1| - 2;
    var j2, i2: int := |l2| - 1, |l2| - 2;
    SliceAt(s1, l1, p1, j1);
    SliceAt(s2, l2, p2, j2);
    CommonStep(p1, |p1|, p2, |p2|);
    assert p1[..|p1|] == p1 && p2[..|p2|] == p2;
    if s1[l1[j1]..] == s2[l2[j2]..] {
      n := n + 1;
    } else {
      return;
    }
    while true
      invariant j1 == i1 + 1 && j2 == i2 + 1 && 0 <= j1 < |l1| && 0 <= j2 < |l2|
      invariant CommonSuffix(p1, p2) == n + CommonSuffix(p1[..j1], p2[..j2])
      decreases j1
    {
      CommonNone(p1[..j1], p2[..j2]);
      if i1 < 0 || i2 < 0 {
        break;
      }
      SliceAt(s1, l1, p1, i1);
      SliceAt(s2, l2, p2, i2);
      CommonStep(p1, j1, p2, j2);
      if s1[l1[i1]..l1[j1]] == s2[l2[i2]..l2[j2]] {
        n := n + 1;
      } else {
        break;
      }
      j1, i1, j2, i2 := j1 - 1, i1 - 1, j2 - 1, i2 - 1;
    }
  }

  lemma SlicedLength(s: Name, idx: seq<nat>, ps: seq<Bytes>)
    requires Sliced(s, idx, ps)
    ensures |ps| == |idx|
  {
  }

  lemma CommonNone(a: seq<Bytes>, b: seq<Bytes>)
    ensures a == [] || b == [] ==> CommonSuffix(a, b) == 0
  {
  }

  lemma CommonStep(a: seq<Bytes>, i: nat, b: seq<Bytes>, j: nat)
    requires 1 <= i <= |a| && 1 <= j <= |b|
    ensures CommonSuffix(a[..i], b[..j]) ==
            if a[i - 1] == b[j - 1] then 1 + CommonSuffix(a[..i - 1], b[..j - 1]) else 0
  {
    assert a[..i][..i - 1] == a[..i - 1] && b[..j][..j - 1] == b[..j - 1];
  }

  /** b is at the end of a. */
  predicate IsSuffix(b: seq<Bytes>, a: seq<Bytes>) {
    |b| <= |a| && a[|a| - |b|..] == b
  }

  /** parent is not empty and its labels end those of child. */
  predicate Below(parent: Name, child: Name) {
    parent != [] && IsSuffix(Pieces(Fqdn(parent)), Pieces(Fqdn(child)))
  }

  method IsSubDomain(parent: Name, child: Name) returns (r: bool)
    ensures r <==> Below(parent, child)
  {
    hide Pieces;
    var n := CompareDomainName(parent, child);
    var c := CountLabel(parent);
    r := n == c;
    EmptyPieces();
    if parent != [] {
      CountWithDot(parent);
      SuffixByCommon(Pieces(Fqdn(parent)), Pieces(Fqdn(child)));
    }
  }

  lemma EmptyPieces()
    ensures Fqdn([]) == [DOT] && Pieces([DOT]) == [] && |Starts([])| == 1
  {
    assert NextFrom([], 0, false) == (1, true);
  }

  lemma SuffixByCommon(b: seq<Bytes>, a: seq<Bytes>)
    ensures CommonSuffix(b, a) == |b| <==> IsSuffix(b, a)
  {
    hide CommonSuffix;
    if |b| <= |a| {
      CommonSuffixIs(b, a, |b|);
      CommonSuffixShort(b, a);
      assert b[|b| - |b|..] == b;
    } else {
      CommonSuffixShort(b, a);
    }
  }

  lemma {:induction false} CommonSuffixShort(a: seq<Bytes>, b: seq<Bytes>)
    ensures CommonSuffix(a, b) <= |a| && CommonSuffix(a, b) <= |b|
    decreases |a|
  {
    if a != [] && b != [] {
      CommonSuffixShort(a[..|a| - 1], b[..|b| - 1]);
    }
  }

  /** Main result: being a subdomain is a partial order on non-empty names, up to the closing dot. */
  lemma SubDomainOrder(a: Name, b: Name, c: Name)
    ensures a != [] ==> Below(a, a)
    ensures Below(a, b) && Below(b, c) ==> Below(a, c)
    ensures Below(a, b) && Below(b, a) ==> Fqdn(a) == Fqdn(b)
  {
    hide Pieces;
    var pa, pb, pc := Pieces(Fqdn(a)), Pieces(Fqdn(b)), Pieces(Fqdn(c));
    if Below(a, b) && Below(b, c) {
      assert pc[|pc| - |pa|..] == pc[|pc| - |pb|..][|pb| - |pa|..];
    }
    if Below(a, b) && Below(b, a) {
      assert pa == pb;
      PiecesInjective(Fqdn(a), Fqdn(b));
    }
  }
}
