/**
  The exponentially-decaying reservoir (go-metrics, sample.go): a bounded min-heap of samples kept in an array.

  Keys are reals. Each sample's key and each rescaling factor, which the code computes with math.Exp and a random
  number, are parameters; a factor is only known not to be negative.
  */
module Reservoir {
  datatype Sample = Sample(k: real, v: int)

  const RESCALE_THRESHOLD: int := 3_600_000_000_000 // one hour, in nanoseconds

  /** Division by two as the source language does it, towards zero. */
  function Half(n: int): int {
    if n < 0 then -((-n) / 2) else n / 2
  }

  /** (j - 1) / 2: the root is its own parent. */
  function Parent(j: nat): (i: nat)
    ensures i <= j && (i == j <==> j == 0)
    ensures j > 0 ==> j == 2 * i + 1 || j == 2 * i + 2
  {
    Half(j - 1)
  }

  function Swap(s: seq<Sample>, i: nat, j: nat): (r: seq<Sample>)
    requires i < |s| && j < |s|
    ensures |r| == |s|
  {
    s[i := s[j]][j := s[i]]
  }

  function Up(s: seq<Sample>, j: nat): (r: seq<Sample>)
    requires j < |s|
    ensures |r| == |s|
    decreases j
  {
    var i := Parent(j);
    if i == j || !(s[j].k < s[i].k) then s else Up(Swap(s, i, j), i)
  }

  /** The child of i that down compares: the right one unless the left one is smaller. */
  function Child(s: seq<Sample>, i: nat, n: nat): (j: nat)
    requires n <= |s| && 2 * i + 1 < n
    ensures j < n && (j == 2 * i + 1 || j == 2 * i + 2)
  {
    var j1 := 2 * i + 1;
    if j1 + 1 < n && !(s[j1].k < s[j1 + 1].k) then j1 + 1 else j1
  }

  function Down(s: seq<Sample>, i: nat, n: nat): (r: seq<Sample>)
    requires n <= |s| && i < |s|
    ensures |r| == |s|
    decreases |s| - i
  {
    if 2 * i + 1 >= n then s
    else
      var j := Child(s, i, n);
      if !(s[j].k < s[i].k) then s else Down(Swap(s, i, j), j, n)
  }

  /** What Push leaves in the array. */
  function Pushed(s: seq<Sample>, x: Sample): (r: seq<Sample>)
    ensures |r| == |s| + 1
  {
    Up(s + [x], |s|)
  }

  /** What Pop leaves in the array; the sample it returns is the old root. */
  function Popped(s: seq<Sample>): (r: seq<Sample>)
    requires s != []
    ensures |r| == |s| - 1
  {
    var n := |s| - 1;
    Down(Swap(s, 0, n), 0, n)[..n]
  }

  // ----- heap order -----

  predicate OrderAt(s: seq<Sample>, j: nat)
    requires j < |s|
  {
    s[Parent(j)].k <= s[j].k
  }

  /** Every sample's key is at least its parent's. */
  ghost predicate HeapOrder(s: seq<Sample>) {
    forall j :: 0 <= j < |s| ==> OrderAt(s, j)
  }

  /** Heap order but for j and its parent; j's children are in order with j's parent. */
  ghost predicate UpOrder(s: seq<Sample>, j: nat)
    requires j < |s|
  {
    && (forall c :: 0 <= c < |s| && c != j ==> OrderAt(s, c))
    && (forall c :: 0 <= c < |s| && Parent(c) == j && c != j ==> s[Parent(j)].k <= s[c].k)
  }

  /** Heap order among the first n, but for i and its children, which are in order with i's parent. */
  ghost predicate DownOrder(s: seq<Sample>, i: nat, n: nat)
    requires n <= |s|
  {
    && (forall c :: 0 <= c < n && Parent(c) != i ==> OrderAt(s, c))
    && (forall c :: 0 <= c < n && Parent(c) == i && c != i && 0 < i < n ==> s[Parent(i)].k <= s[c].k)
  }

  lemma SwapKeeps(s: seq<Sample>, i: nat, j: nat)
    requires i < |s| && j < |s|
    ensures multiset(Swap(s, i, j)) == multiset(s)
  {
  }

  lemma {:induction false} UpOrders(s: seq<Sample>, j: nat)
    requires j < |s| && UpOrder(s, j)
    ensures HeapOrder(Up(s, j))
    ensures multiset(Up(s, j)) == multiset(s)
    decreases j
  {
    var i := Parent(j);
    if i != j && s[j].k < s[i].k {
      var t := Swap(s, i, j);
      forall c | 0 <= c < |t| && c != i ensures OrderAt(t, c) {
        assert c != j ==> OrderAt(s, c);
      }
      forall c | 0 <= c < |t| && Parent(c) == i && c != i ensures t[Parent(i)].k <= t[c].k {
        assert OrderAt(s, i);
        assert c != j ==> OrderAt(s, c);
      }
      UpOrders(t, i);
      SwapKeeps(s, i, j);
    } else {
      assert forall c :: 0 <= c < |s| ==> OrderAt(s, c);
    }
  }

  lemma DownStep(s: seq<Sample>, i: nat, n: nat)
    requires n <= |s| && i < |s| && DownOrder(s, i, n)
    requires 2 * i + 1 < n && s[Child(s, i, n)].k < s[i].k
    ensures var j := Child(s, i, n); DownOrder(Swap(s, i, j), j, n)
  {
    var j := Child(s, i, n);
    ParentIs(i, j);
    forall c | 0 <= c < n && Parent(c) != j ensures OrderAt(Swap(s, i, j), c) {
      DownStepAt(s, i, n, c);
    }
    forall c | 0 <= c < n && Parent(c) == j && c != j ensures Swap(s, i, j)[Parent(j)].k <= Swap(s, i, j)[c].k {
      assert OrderAt(s, c);
    }
  }

  lemma ParentIs(i: nat, j: nat)
    requires j == 2 * i + 1 || j == 2 * i + 2
    ensures Parent(j) == i
  {
  }

  lemma DownStepAt(s: seq<Sample>, i: nat, n: nat, c: nat)
    requires n <= |s| && i < |s| && DownOrder(s, i, n)
    requires 2 * i + 1 < n && s[Child(s, i, n)].k < s[i].k
    requires c < n && Parent(c) != Child(s, i, n)
    ensures OrderAt(Swap(s, i, Child(s, i, n)), c)
  {
    var j := Child(s, i, n);
    ParentIs(i, j);
    hide Parent, Child, DownOrder;
    if c == i {
      OrderAbove(s, i, n, j);
    } else if Parent(c) == i {
      ChildLeast(s, i, n, c);
    } else {
      OrderApart(s, i, n, c);
    }
  }

  /** The child chosen is the least. */
  lemma ChildLeast(s: seq<Sample>, i: nat, n: nat, c: nat)
    requires n <= |s| && 2 * i + 1 < n && c < n && c > 0 && Parent(c) == i
    ensures s[Child(s, i, n)].k <= s[c].k
  {
    assert c == 2 * i + 1 || c == 2 * i + 2;
  }

  lemma OrderAbove(s: seq<Sample>, i: nat, n: nat, j: nat)
    requires n <= |s| && i < j < n && DownOrder(s, i, n) && Parent(j) == i
    ensures i > 0 ==> s[Parent(i)].k <= s[j].k
    ensures Parent(i) <= i && (i == Parent(i) <==> i == 0)
  {
  }

  lemma OrderApart(s: seq<Sample>, i: nat, n: nat, c: nat)
    requires n <= |s| && c < n && DownOrder(s, i, n) && Parent(c) != i
    ensures s[Parent(c)].k <= s[c].k && Parent(c) <= c
  {
    assert OrderAt(s, c);
  }

  lemma SwapWithin(s: seq<Sample>, i: nat, j: nat, n: nat)
    requires i < n <= |s| && j < n
    ensures forall c :: n <= c < |s| ==> Swap(s, i, j)[c] == s[c]
  {
  }

  /** Where down stops, the first n are in order. */
  lemma DownStops(s: seq<Sample>, i: nat, n: nat)
    requires n <= |s| && i < |s| && DownOrder(s, i, n)
    requires 2 * i + 1 < n ==> s[i].k <= s[Child(s, i, n)].k
    ensures forall c :: 0 <= c < n ==> OrderAt(s, c)
  {
    forall c | 0 <= c < n ensures OrderAt(s, c) {
      if c > 0 && Parent(c) == i {
        assert c == 2 * i + 1 || c == 2 * i + 2;
      }
    }
  }

  lemma {:induction false} DownOrders(s: seq<Sample>, i: nat, n: nat)
    requires n <= |s| && i < |s| && DownOrder(s, i, n)
    ensures forall c :: 0 <= c < n ==> OrderAt(Down(s, i, n), c)
    ensures multiset(Down(s, i, n)) == multiset(s)
    ensures forall c :: n <= c < |s| && i < n ==> Down(s, i, n)[c] == s[c]
    decreases |s| - i
  {
    hide DownOrder, OrderAt, Parent, Child, Swap;
    if 2 * i + 1 < n && s[Child(s, i, n)].k < s[i].k {
      var j := Child(s, i, n);
      DownStep(s, i, n);
      DownOrders(Swap(s, i, j), j, n);
      SwapKeeps(s, i, j);
      SwapWithin(s, i, j, n);
    } else {
      DownStops(s, i, n);
    }
  }

  lemma PushOrders(s: seq<Sample>, x: Sample)
    requires HeapOrder(s)
    ensures HeapOrder(Pushed(s, x))
    ensures multiset(Pushed(s, x)) == multiset(s) + multiset{x}
  {
    hide Up;
    var t := s + [x];
    forall c | 0 <= c < |t| && c != |s| ensures OrderAt(t, c) {
      assert OrderAt(s, c);
    }
    UpOrders(t, |s|);
  }

  /** The root has the least key. */
  lemma {:induction false} RootIsLeast(s: seq<Sample>, j: nat)
    requires HeapOrder(s) && j < |s|
    ensures s[0].k <= s[j].k
    decreases j
  {
    if j > 0 {
      assert OrderAt(s, j);
      RootIsLeast(s, Parent(j));
    }
  }

  lemma PopOrders(s: seq<Sample>)
    requires HeapOrder(s) && s != []
    ensures HeapOrder(Popped(s))
    ensures multiset(Popped(s)) + multiset{s[0]} == multiset(s)
    ensures forall x :: x in Popped(s) ==> s[0].k <= x.k
  {
    hide Down;
    var n := |s| - 1;
    var t := Swap(s, 0, n);
    forall c | 0 <= c < n && Parent(c) != 0 ensures OrderAt(t, c) {
      assert OrderAt(s, c);
    }
    DownOrders(t, 0, n);
    var d := Down(t, 0, n);
    forall c | 0 <= c < n ensures OrderAt(d[..n], c) {
      assert OrderAt(d, c);
    }
    SwapKeeps(s, 0, n);
    if n == 0 {
      assert s == [s[0]] && d[..n] == [];
      assert multiset(s) == multiset{s[0]};
    } else {
      assert d[n] == s[0] && d == d[..n] + [d[n]];
    }
    forall x | x in d[..n] ensures s[0].k <= x.k {
      assert x in multiset(d[..n]) && x in multiset(s);
      var j :| 0 <= j < |s| && s[j] == x;
      RootIsLeast(s, j);
    }
  }

  // ----- rescaling -----

  function Scale(x: Sample, f: real): Sample {
    x.(k := x.k * f)
  }

  function Scaled(s: seq<Sample>, f: real): (r: seq<Sample>)
    ensures |r| == |s| && forall i :: 0 <= i < |s| ==> r[i] == Scale(s[i], f)
  {
    seq(|s|, i requires 0 <= i < |s| => Scale(s[i], f))
  }

  /** A new heap that has had the samples of rest, scaled, pushed after those in filled. */
  function Refill(filled: seq<Sample>, rest: seq<Sample>, f: real): (r: seq<Sample>)
    ensures |r| == |filled| + |rest|
    decreases |rest|
  {
    if rest == [] then filled else Refill(Pushed(filled, Scale(rest[0], f)), rest[1..], f)
  }

  lemma RefillStart(rest: seq<Sample>, f: real)
    ensures Refill([], rest[0..], f) == Refill([], rest, f)
  {
    assert rest[0..] == rest;
  }

  lemma RefillStep(filled: seq<Sample>, rest: seq<Sample>, i: nat, f: real)
    requires i < |rest|
    ensures Refill(filled, rest[i..], f) == Refill(Pushed(filled, Scale(rest[i], f)), rest[i + 1..], f)
  {
    hide Pushed;
    assert rest[i..][0] == rest[i] && rest[i..][1..] == rest[i + 1..];
  }

  lemma RefillEnd(filled: seq<Sample>, rest: seq<Sample>, f: real)
    ensures Refill(filled, rest[|rest|..], f) == filled
  {
  }

  lemma ScaleKeepsOrder(a: Sample, b: Sample, f: real)
    requires a.k <= b.k && f >= 0.0
    ensures Scale(a, f).k <= Scale(b, f).k
  {
    assert (b.k - a.k) * f >= 0.0;
  }

  lemma {:induction false} RefillStays(s: seq<Sample>, n: nat, f: real)
    requires HeapOrder(s) && f >= 0.0 && n <= |s|
    ensures Refill(Scaled(s[..n], f), s[n..], f) == Scaled(s, f)
    decreases |s| - n
  {
    if n == |s| {
      assert s[..n] == s;
    } else {
      var x := s[n];
      var filled := Scaled(s[..n], f);
      assert OrderAt(s, n);
      ScaleKeepsOrder(s[Parent(n)], x, f);
      assert Pushed(filled, Scale(x, f)) == filled + [Scale(x, f)];
      assert filled + [Scale(x, f)] == Scaled(s[..n + 1], f);
      assert s[n..][0] == x && s[n..][1..] == s[n + 1..];
      RefillStays(s, n + 1, f);
    }
  }

  /** Rescaling: pushing the scaled samples into an empty heap puts every sample back in its place. */
  lemma RescaleStays(s: seq<Sample>, f: real)
    requires HeapOrder(s) && f >= 0.0
    ensures Refill([], s, f) == Scaled(s, f) && HeapOrder(Scaled(s, f))
  {
    RefillStays(s, 0, f);
    assert Scaled(s[..0], f) == [] && s[0..] == s;
    forall j | 0 <= j < |s| ensures OrderAt(Scaled(s, f), j) {
      assert OrderAt(s, j);
      ScaleKeepsOrder(s[Parent(j)], s[j], f);
    }
  }

  // ----- permutations -----

  function Without(s: seq<Sample>, p: nat): (r: seq<Sample>)
    requires p < |s|
    ensures |r| == |s| - 1
  {
    s[..p] + s[p + 1..]
  }

  lemma WithoutOne(s: seq<Sample>, p: nat)
    requires p < |s|
    ensures multiset(s) == multiset(Without(s, p)) + multiset{s[p]}
  {
    assert s == s[..p] + ([s[p]] + s[p + 1..]);
  }

  lemma ScaledWithout(s: seq<Sample>, p: nat, f: real)
    requires p < |s|
    ensures Without(Scaled(s, f), p) == Scaled(Without(s, p), f)
  {
    hide Scale;
  }

  lemma Cancel(a: multiset<Sample>, b: multiset<Sample>, x: Sample)
    requires a + multiset{x} == b + multiset{x}
    ensures a == b
  {
    assert a == (a + multiset{x}) - multiset{x};
    assert b == (b + multiset{x}) - multiset{x};
  }

  lemma {:induction false} ScalePermutes(a: seq<Sample>, b: seq<Sample>, f: real)
    requires multiset(a) == multiset(b)
    ensures multiset(Scaled(a, f)) == multiset(Scaled(b, f))
    decreases |a|
  {
    hide Without, Scale;
    if a == [] {
      assert |multiset(b)| == 0;
      assert b == [];
    } else {
      var x := a[0];
      assert x in multiset(b);
      var p :| 0 <= p < |b| && b[p] == x;
      WithoutOne(a, 0);
      WithoutOne(b, p);
      Cancel(multiset(Without(a, 0)), multiset(Without(b, p)), x);
      ScalePermutes(Without(a, 0), Without(b, p), f);
      ScaledWithout(a, 0, f);
      ScaledWithout(b, p, f);
      WithoutOne(Scaled(a, f), 0);
      WithoutOne(Scaled(b, f), p);
    }
  }

  lemma ScaleConcat(a: seq<Sample>, b: seq<Sample>, f: real)
    ensures Scaled(a + b, f) == Scaled(a, f) + Scaled(b, f)
  {
  }

  // ----- the reservoir -----

  /** The fields of ExpDecaySample; kept is what the heap's array holds. */
  datatype State = State(count: nat, t0: int, t1: int, kept: seq<Sample>)

  /** One call of update: the time, the value, the key computed for it and the factor a rescale would use. */
  datatype Tick = Tick(t: int, key: real, v: int, factor: real)

  function Updated(capacity: nat, st: State, tick: Tick): (st': State)
    requires 1 <= capacity && |st.kept| <= capacity
    ensures |st'.kept| <= capacity
  {
    var room := if |st.kept| == capacity then Popped(st.kept) else st.kept;
    var kept := Pushed(room, Sample(tick.key, tick.v));
    if tick.t > st.t1 then State(st.count + 1, tick.t, tick.t + RESCALE_THRESHOLD, Refill([], kept, tick.factor))
    else State(st.count + 1, st.t0, st.t1, kept)
  }

  /**
    What one update changes: it counts one more; in a full reservoir a least sample goes; the new sample comes in. An
    update later than t1 also multiplies every key by the factor, leaving the samples in their places, and starts a
    new hour.
    */
  lemma UpdateIs(capacity: nat, st: State, tick: Tick)
    requires 1 <= capacity && |st.kept| <= capacity && HeapOrder(st.kept) && tick.factor >= 0.0
    ensures var st' := Updated(capacity, st, tick);
            var room := if |st.kept| == capacity then Popped(st.kept) else st.kept;
            var kept := Pushed(room, Sample(tick.key, tick.v));
            && st'.count == st.count + 1
            && (|st.kept| == capacity ==> multiset(room) == multiset(st.kept) - multiset{st.kept[0]})
            && multiset(kept) == multiset(room) + multiset{Sample(tick.key, tick.v)}
            && (tick.t <= st.t1 ==> st'.t0 == st.t0 && st'.t1 == st.t1 && st'.kept == kept)
            && (tick.t > st.t1 ==>
                  && st'.t0 == tick.t && st'.t1 == tick.t + 3_600_000_000_000 && |st'.kept| == |kept|
                  && forall i :: 0 <= i < |kept| ==> st'.kept[i] == Sample(kept[i].k * tick.factor, kept[i].v))
  {
    hide Popped, Pushed, Refill, HeapOrder, Scaled;
    var room := if |st.kept| == capacity then Popped(st.kept) else st.kept;
    if |st.kept| == capacity {
      PopLeaves(st.kept);
    }
    PushOrders(room, Sample(tick.key, tick.v));
    var kept := Pushed(room, Sample(tick.key, tick.v));
    RescaleStays(kept, tick.factor);
    ScaledIs(kept, tick.factor);
  }

  lemma PopLeaves(s: seq<Sample>)
    requires HeapOrder(s) && s != []
    ensures HeapOrder(Popped(s)) && multiset(Popped(s)) == multiset(s) - multiset{s[0]}
  {
    hide Popped, HeapOrder;
    PopOrders(s);
  }

  lemma ScaledIs(s: seq<Sample>, f: real)
    ensures |Scaled(s, f)| == |s| && forall i :: 0 <= i < |s| ==> Scaled(s, f)[i] == Sample(s[i].k * f, s[i].v)
  {
  }

  /**
    A whole run: the state, the samples evicted so far and the samples inserted so far, both with their keys rescaled
    along with the keys of the samples that were kept.
    */
  datatype History = History(st: State, evicted: seq<Sample>, inserted: seq<Sample>)

  function Fresh(now: int): (h: History) {
    History(State(0, now, now + RESCALE_THRESHOLD, []), [], [])
  }

  function Next(capacity: nat, h: History, tick: Tick): (h': History)
    requires 1 <= capacity && |h.st.kept| <= capacity
    ensures |h'.st.kept| <= capacity
  {
    var evicted := if |h.st.kept| == capacity then h.evicted + [h.st.kept[0]] else h.evicted;
    var inserted := h.inserted + [Sample(tick.key, tick.v)];
    var st := Updated(capacity, h.st, tick);
    if tick.t > h.st.t1 then History(st, Scaled(evicted, tick.factor), Scaled(inserted, tick.factor))
    else History(st, evicted, inserted)
  }

  function Run(capacity: nat, now: int, ticks: seq<Tick>): (h: History)
    requires 1 <= capacity
    ensures |h.st.kept| <= capacity
    decreases |ticks|
  {
    if ticks == [] then Fresh(now)
    else Next(capacity, Run(capacity, now, ticks[..|ticks| - 1]), ticks[|ticks| - 1])
  }

  /** No sample left out but the newest has a smaller key than an evicted one. */
  ghost predicate Dominates(kept: seq<Sample>, newest: Sample, evicted: seq<Sample>) {
    && newest in kept
    && forall x, e :: x in multiset(kept) - multiset{newest} && e in evicted ==> e.k <= x.k
  }

  /** What holds after every update. */
  ghost predicate Retains(h: History, capacity: nat) {
    && HeapOrder(h.st.kept)
    && multiset(h.st.kept) + multiset(h.evicted) == multiset(h.inserted)
    && h.st.count == |h.inserted|
    && |h.st.kept| == (if |h.inserted| <= capacity then |h.inserted| else capacity)
    && (h.inserted != [] ==> Dominates(h.st.kept, h.inserted[|h.inserted| - 1], h.evicted))
  }

  /** Before the push: everything that stays has a key at least as large as everything evicted. */
  lemma PopDominates(kept: seq<Sample>, newest: Sample, evicted: seq<Sample>)
    requires HeapOrder(kept) && kept != [] && Dominates(kept, newest, evicted)
    ensures forall x, e :: x in Popped(kept) && e in evicted + [kept[0]] ==> e.k <= x.k
  {
    hide Popped, HeapOrder;
    PopOrders(kept);
    var least := kept[0];
    forall x, e | x in Popped(kept) && e in evicted + [least] ensures e.k <= x.k {
      assert least.k <= x.k;
      assert x in multiset(Popped(kept));
      if e in evicted {
        if least == newest {
          assert multiset(kept) - multiset{newest} == multiset(Popped(kept));
        } else {
          assert least in multiset(kept) - multiset{newest};
        }
      }
    }
  }

  lemma PushDominates(room: seq<Sample>, newest: Sample, evicted: seq<Sample>)
    requires HeapOrder(room)
    requires forall x, e :: x in room && e in evicted ==> e.k <= x.k
    ensures Dominates(Pushed(room, newest), newest, evicted)
  {
    hide Pushed, HeapOrder;
    PushOrders(room, newest);
    var kept := Pushed(room, newest);
    assert newest in multiset(kept);
    assert multiset(kept) - multiset{newest} == multiset(room);
  }

  /** Another way to put Dominates: rest is kept without one newest. */
  lemma RestDominates(kept: seq<Sample>, rest: seq<Sample>, newest: Sample, evicted: seq<Sample>)
    requires multiset(kept) == multiset(rest) + multiset{newest}
    ensures Dominates(kept, newest, evicted) <==> forall x, e :: x in rest && e in evicted ==> e.k <= x.k
  {
    assert newest in multiset(kept);
    assert multiset(kept) - multiset{newest} == multiset(rest);
    assert forall x :: x in rest <==> x in multiset(rest);
  }

  lemma ScaledAbove(rest: seq<Sample>, evicted: seq<Sample>, f: real)
    requires f >= 0.0 && forall x, e :: x in rest && e in evicted ==> e.k <= x.k
    ensures forall x, e :: x in Scaled(rest, f) && e in Scaled(evicted, f) ==> e.k <= x.k
  {
    hide Scale;
    forall x, e | x in Scaled(rest, f) && e in Scaled(evicted, f) ensures e.k <= x.k {
      var i :| 0 <= i < |rest| && Scaled(rest, f)[i] == x;
      var j :| 0 <= j < |evicted| && Scaled(evicted, f)[j] == e;
      assert rest[i] in rest && evicted[j] in evicted;
      ScaleKeepsOrder(evicted[j], rest[i], f);
    }
  }

  lemma ScaleDominates(kept: seq<Sample>, newest: Sample, evicted: seq<Sample>, f: real)
    requires Dominates(kept, newest, evicted) && f >= 0.0
    ensures Dominates(Scaled(kept, f), Scale(newest, f), Scaled(evicted, f))
  {
    hide Scale, Without;
    var p :| 0 <= p < |kept| && kept[p] == newest;
    var rest := Without(kept, p);
    WithoutOne(kept, p);
    RestDominates(kept, rest, newest, evicted);
    hide Dominates;
    ScaledAbove(rest, evicted, f);
    ScaledWithout(kept, p, f);
    WithoutOne(Scaled(kept, f), p);
    RestDominates(Scaled(kept, f), Scaled(rest, f), Scale(newest, f), Scaled(evicted, f));
  }

  /** A pop and a push on a full heap. */
  lemma EvictRetains(h: History, capacity: nat, x: Sample)
    requires 1 <= capacity == |h.st.kept| && Retains(h, capacity)
    ensures var kept, evicted := Pushed(Popped(h.st.kept), x), h.evicted + [h.st.kept[0]];
            && HeapOrder(kept) && Dominates(kept, x, evicted)
            && multiset(kept) + multiset(evicted) == multiset(h.inserted + [x])
  {
    hide Popped, Pushed, HeapOrder, Dominates;
    var kept := h.st.kept;
    PopOrders(kept);
    PopDominates(kept, h.inserted[|h.inserted| - 1], h.evicted);
    PushOrders(Popped(kept), x);
    PushDominates(Popped(kept), x, h.evicted + [kept[0]]);
    assert multiset(h.evicted + [kept[0]]) == multiset(h.evicted) + multiset{kept[0]};
    assert multiset(h.inserted + [x]) == multiset(h.inserted) + multiset{x};
  }

  /** What the pop and the push keep, without the rescale. */
  lemma InsertRetains(capacity: nat, h: History, tick: Tick)
    requires 1 <= capacity && Retains(h, capacity) && tick.t <= h.st.t1
    ensures Retains(Next(capacity, h, tick), capacity)
  {
    hide Popped, Pushed, HeapOrder, Dominates, Scaled;
    var kept, x := h.st.kept, Sample(tick.key, tick.v);
    if |kept| == capacity {
      EvictRetains(h, capacity, x);
    } else {
      PushOrders(kept, x);
      NothingEvicted(h, capacity);
      PushDominates(kept, x, h.evicted);
      assert multiset(h.inserted + [x]) == multiset(h.inserted) + multiset{x};
    }
  }

  lemma NothingEvicted(h: History, capacity: nat)
    requires Retains(h, capacity) && |h.st.kept| < capacity
    ensures h.evicted == []
  {
    assert |multiset(h.st.kept)| + |multiset(h.evicted)| == |multiset(h.inserted)|;
  }

  lemma RescaleRetains(h: History, capacity: nat, f: real, t: int)
    requires Retains(h, capacity) && f >= 0.0 && h.inserted != []
    ensures Retains(History(State(h.st.count, t, t + RESCALE_THRESHOLD, Refill([], h.st.kept, f)),
                            Scaled(h.evicted, f), Scaled(h.inserted, f)), capacity)
  {
    hide HeapOrder, Dominates, Refill;
    RescaleStays(h.st.kept, f);
    ScaleConcat(h.st.kept, h.evicted, f);
    assert multiset(h.st.kept + h.evicted) == multiset(h.inserted);
    ScalePermutes(h.st.kept + h.evicted, h.inserted, f);
    ScaleDominates(h.st.kept, h.inserted[|h.inserted| - 1], h.evicted, f);
  }

  lemma RetainsLater(h: History, capacity: nat, t1: int)
    requires Retains(h, capacity)
    ensures Retains(h.(st := h.st.(t1 := t1)), capacity)
  {
  }

  lemma FreshRetains(now: int, capacity: nat)
    ensures Retains(Fresh(now), capacity)
  {
  }

  lemma NextRetains(capacity: nat, h: History, tick: Tick)
    requires 1 <= capacity && Retains(h, capacity) && tick.factor >= 0.0
    ensures Retains(Next(capacity, h, tick), capacity)
  {
    hide Retains, Popped, Pushed, Refill;
    if tick.t <= h.st.t1 {
      InsertRetains(capacity, h, tick);
    } else {
      // As though the rescale came late, then the rescale.
      var calm := h.(st := h.st.(t1 := tick.t));
      RetainsLater(h, capacity, tick.t);
      InsertRetains(capacity, calm, tick);
      RescaleRetains(Next(capacity, calm, tick), capacity, tick.factor, tick.t);
    }
  }

  /**
    Main result, over every run of updates, rescales included: the array is a heap, what is kept and what was evicted
    are exactly what was inserted, the size is the smaller of the capacity and the number of updates, and no key kept,
    but for the newest sample's, is below an evicted one.
    */
  lemma {:induction false} RunRetains(capacity: nat, now: int, ticks: seq<Tick>)
    requires 1 <= capacity && forall i :: 0 <= i < |ticks| ==> ticks[i].factor >= 0.0
    ensures Retains(Run(capacity, now, ticks), capacity)
    decreases |ticks|
  {
    hide Retains, Next;
    if ticks == [] {
      FreshRetains(now, capacity);
    } else {
      var before := ticks[..|ticks| - 1];
      RunRetains(capacity, now, before);
      NextRetains(capacity, Run(capacity, now, before), ticks[|ticks| - 1]);
    }
  }

  /** The values inserted are those of the updates, in order. */
  lemma {:induction false} RunInserts(capacity: nat, now: int, ticks: seq<Tick>)
    requires 1 <= capacity
    ensures var inserted := Run(capacity, now, ticks).inserted;
            && |inserted| == |ticks|
            && forall i :: 0 <= i < |ticks| ==> inserted[i].v == ticks[i].v
    decreases |ticks|
  {
    hide Updated;
    if ticks != [] {
      RunInserts(capacity, now, ticks[..|ticks| - 1]);
    }
  }

  /** Without a rescale their keys are those of the updates too. */
  lemma {:induction false} RunKeepsKeys(capacity: nat, now: int, ticks: seq<Tick>)
    requires 1 <= capacity && forall i :: 0 <= i < |ticks| ==> ticks[i].t <= now + RESCALE_THRESHOLD
    ensures var h := Run(capacity, now, ticks);
            && h.st.t1 == now + RESCALE_THRESHOLD
            && |h.inserted| == |ticks|
            && forall i :: 0 <= i < |ticks| ==> h.inserted[i] == Sample(ticks[i].key, ticks[i].v)
    decreases |ticks|
  {
    hide Popped, Pushed, Refill, Scaled;
    if ticks != [] {
      RunKeepsKeys(capacity, now, ticks[..|ticks| - 1]);
    }
  }

  // ----- the code -----

  class ExpDecaySampleHeap {
    const s: array<Sample>
    var size: nat

    ghost predicate Valid()
      reads this
    {
      size <= s.Length
    }

    ghost function Contents(): (c: seq<Sample>)
      requires Valid()
      reads this, s
      ensures |c| == size
    {
      s[..size]
    }

    constructor (reservoirSize: nat)
      ensures Valid() && Contents() == [] && s.Length == reservoirSize && fresh(s)
    {
      s := new Sample[reservoirSize](_ => Sample(0.0, 0));
      size := 0;
    }

    /** The slice has room for one more, or the code panics. */
    method Push(x: Sample)
      requires Valid() && size < s.Length
      modifies this, s
      ensures Valid() && Contents() == Pushed(old(Contents()), x)
    {
      var n := size;
      size := n + 1;
      s[n] := x;
      assert Contents() == old(Contents()) + [x];
      SiftUp(n);
    }

    /** An empty heap makes the code panic. */
    method Pop() returns (x: Sample)
      requires Valid() && size > 0
      modifies this, s
      ensures Valid() && x == old(Contents())[0] && Contents() == Popped(old(Contents()))
    {
      var n := size - 1;
      s[0], s[n] := s[n], s[0];
      ghost var c := Contents();
      assert c == Swap(old(Contents()), 0, n);
      SiftDown(0, n);
      DownKeepsRest(c, 0, n);
      n := size;
      x := s[n - 1];
      assert x == Contents()[n - 1];
      size := n - 1;
    }

    method SiftUp(start: nat)
      requires Valid() && start < size
      modifies s
      ensures Contents() == Up(old(Contents()), start)
    {
      var j: nat := start;
      while true
        invariant j < size && Valid() && Up(Contents(), j) == Up(old(Contents()), start)
        decreases j
      {
        var i := Parent(j);
        if i == j || !(s[j].k < s[i].k) {
          break;
        }
        ghost var before := Contents();
        s[i], s[j] := s[j], s[i];
        assert Contents() == Swap(before, i, j);
        j := i;
      }
    }

    method SiftDown(start: nat, n: nat)
      requires Valid() && n <= size && start < size
      modifies s
      ensures Contents() == Down(old(Contents()), start, n)
    {
      var i: nat := start;
      while true
        invariant i < size && Valid() && Down(Contents(), i, n) == Down(old(Contents()), start, n)
        decreases size - i
      {
        var j1 := 2 * i + 1;
        if j1 >= n {
          break;
        }
        var j := j1;
        var j2 := j1 + 1;
        if j2 < n && !(s[j1].k < s[j2].k) {
          j := j2;
        }
        assert j == Child(Contents(), i, n);
        if !(s[j].k < s[i].k) {
          break;
        }
        ghost var before := Contents();
        s[i], s[j] := s[j], s[i];
        assert Contents() == Swap(before, i, j);
        i := j;
      }
    }
  }

  lemma {:induction false} DownKeepsRest(s: seq<Sample>, i: nat, n: nat)
    requires n <= |s| && i < |s| && (i < n || i == 0)
    ensures Down(s, i, n)[n..] == s[n..]
    decreases |s| - i
  {
    if 2 * i + 1 < n {
      var j := Child(s, i, n);
      if s[j].k < s[i].k {
        DownKeepsRest(Swap(s, i, j), j, n);
      }
    }
  }

  class ExpDecaySample {
    const reservoirSize: nat
    var count: nat
    var t0: int
    var t1: int
    var values: ExpDecaySampleHeap

    ghost predicate Valid()
      reads this, values
    {
      && 1 <= reservoirSize == values.s.Length
      && values.Valid()
    }

    ghost function Now(): (st: State)
      requires Valid()
      reads this, values, values.s
      ensures |st.kept| <= reservoirSize
    {
      State(count, t0, t1, values.Contents())
    }

    constructor (reservoirSize: nat, now: int)
      requires reservoirSize >= 1
      ensures Valid() && Now() == Fresh(now).st && this.reservoirSize == reservoirSize
      ensures fresh(values) && fresh(values.s)
    {
      this.reservoirSize := reservoirSize;
      count, t0, t1 := 0, now, now + RESCALE_THRESHOLD;
      values := new ExpDecaySampleHeap(reservoirSize);
    }

    method Update(tick: Tick)
      requires Valid()
      modifies this, values, values.s
      ensures Valid() && Now() == Updated(reservoirSize, old(Now()), tick)
      ensures values == old(values) || (fresh(values) && fresh(values.s))
    {
      hide Pushed, Popped, Refill;
      count := count + 1;
      if values.size == reservoirSize {
        var _ := values.Pop();
      }
      values.Push(Sample(tick.key, tick.v));
      if tick.t > t1 {
        ghost var kept := values.Contents();
        var vals := values.s[..values.size];
        values := new ExpDecaySampleHeap(reservoirSize);
        t0 := tick.t;
        t1 := t0 + RESCALE_THRESHOLD;
        RefillStart(vals, tick.factor);
        var i := 0;
        while i < |vals|
          invariant 0 <= i <= |vals|
          invariant fresh(values) && fresh(values.s) && values.s.Length == reservoirSize
          invariant values.Valid() && values.size == i
          invariant Refill(values.Contents(), vals[i..], tick.factor) == Refill([], vals, tick.factor)
          modifies values, values.s
        {
          RefillStep(values.Contents(), vals, i, tick.factor);
          values.Push(Scale(vals[i], tick.factor));
          i := i + 1;
        }
        RefillEnd(values.Contents(), vals, tick.factor);
      }
    }
  }
}
