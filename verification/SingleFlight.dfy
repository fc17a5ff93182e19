/**
  Duplicate suppression (singleflight.Do, singleinflight.go).

  Any number of callers run Do, each with its own key. Every section under the lock, the call of fn, wg.Done and the
  end of wg.Wait is one atomic step; a run is any sequence of enabled steps.
  */
module SingleFlight {
  import opened Options

  /** An in-flight or completed call: what fn returned, whether wg still blocks, and the caller that made the call. */
  datatype Call<V> = Call(val: Option<V>, blocked: bool, dups: nat, leader: nat)

  datatype Phase<V> =
    | Idle                   // not inside Do
    | Running(c: nat)        // leads call c, fn is running
    | Published(c: nat)      // fn has returned and its results are stored
    | Released(c: nat)       // wg.Done has been called
    | Deleted(c: nat)        // the key is out of the map
    | Waiting(c: nat)        // follows call c, in wg.Wait
    | Returned(c: nat, v: V, shared: bool)

  datatype Caller<K, V> = Caller(key: K, phase: Phase<V>)

  datatype State<K, V> = State(callers: seq<Caller<K, V>>, calls: seq<Call<V>>, m: map<K, nat>)

  datatype Step<V> =
    | Enter(i: nat)
    | Publish(i: nat, v: V)
    | Release(i: nat)
    | Delete(i: nat)
    | Return(i: nat)
    | Wake(i: nat)

  function Start<K, V>(keys: seq<K>): (st: State<K, V>) {
    State(seq(|keys|, i requires 0 <= i < |keys| => Caller(keys[i], Idle)), [], map[])
  }

  predicate Enabled<K, V>(st: State<K, V>, step: Step<V>) {
    && step.i < |st.callers|
    && var phase := st.callers[step.i].phase;
    && (phase.Idle? || phase.c < |st.calls|)
    && match step
       case Enter(i) => phase.Idle? && (st.callers[i].key in st.m ==> st.m[st.callers[i].key] < |st.calls|)
       case Publish(_, _) => phase.Running?
       case Release(_) => phase.Published?
       case Delete(_) => phase.Released?
       case Return(_) => phase.Deleted? && st.calls[phase.c].val.Some?
       case Wake(_) => phase.Waiting? && !st.calls[phase.c].blocked && st.calls[phase.c].val.Some?
  }

  function SetPhase<K, V>(st: State<K, V>, i: nat, phase: Phase<V>): State<K, V>
    requires i < |st.callers|
  {
    st.(callers := st.callers[i := st.callers[i].(phase := phase)])
  }

  function SetCall<K, V>(st: State<K, V>, c: nat, call: Call<V>): State<K, V>
    requires c < |st.calls|
  {
    st.(calls := st.calls[c := call])
  }

  function Apply<K, V>(st: State<K, V>, step: Step<V>): (st': State<K, V>)
    requires Enabled(st, step)
  {
    var key, phase := st.callers[step.i].key, st.callers[step.i].phase;
    match step
    case Enter(i) =>
      if key in st.m then
        var c := st.m[key];
        SetPhase(SetCall(st, c, st.calls[c].(dups := st.calls[c].dups + 1)), i, Waiting(c))
      else
        var c := |st.calls|;
        SetPhase(st.(calls := st.calls + [Call(None, true, 0, i)], m := st.m[key := c]), i, Running(c))
    case Publish(i, v) => SetPhase(SetCall(st, phase.c, st.calls[phase.c].(val := Some(v))), i, Published(phase.c))
    case Release(i) => SetPhase(SetCall(st, phase.c, st.calls[phase.c].(blocked := false)), i, Released(phase.c))
    case Delete(i) => SetPhase(st.(m := st.m - {key}), i, Deleted(phase.c))
    case Return(i) => SetPhase(st, i, Returned(phase.c, st.calls[phase.c].val.value, st.calls[phase.c].dups > 0))
    case Wake(i) => SetPhase(st, i, Returned(phase.c, st.calls[phase.c].val.value, true))
  }

  ghost predicate IsRun<K, V>(st: State<K, V>, steps: seq<Step<V>>)
    decreases |steps|
  {
    steps == [] || (Enabled(st, steps[0]) && IsRun(Apply(st, steps[0]), steps[1..]))
  }

  ghost function After<K, V>(st: State<K, V>, steps: seq<Step<V>>): State<K, V>
    requires IsRun(st, steps)
    decreases |steps|
  {
    if steps == [] then st else After(Apply(st, steps[0]), steps[1..])
  }

  // ----- the invariant -----

  /** The phases in which a leader's call is in the map. */
  predicate InFlight<V>(phase: Phase<V>) {
    phase.Running? || phase.Published? || phase.Released?
  }

  /** Caller i follows call c: it joined it and did not make it. */
  predicate Follows<K, V>(st: State<K, V>, i: nat, c: nat)
    requires c < |st.calls|
  {
    && i < |st.callers| && !st.callers[i].phase.Idle? && st.callers[i].phase.c == c
    && st.calls[c].leader != i
  }

  /** Caller i is in step with the call it belongs to. */
  ghost predicate CallerFits<K, V>(st: State<K, V>, i: nat)
    requires i < |st.callers|
  {
    var phase := st.callers[i].phase;
    phase.Idle? ||
    (&& phase.c < |st.calls|
     && var call := st.calls[phase.c];
     && call.leader < |st.callers|
     && st.callers[i].key == st.callers[call.leader].key
     && (if call.leader == i then
           && !phase.Waiting?
           && (InFlight(phase) ==> st.callers[i].key in st.m && st.m[st.callers[i].key] == phase.c)
           && (call.val.None? <==> phase.Running?)
           && (call.blocked <==> phase.Running? || phase.Published?)
           && (phase.Returned? ==> phase.shared == (call.dups > 0))
         else
           && (phase.Waiting? || (phase.Returned? && phase.shared)))
     && (phase.Returned? ==> call.val == Some(phase.v)))
  }

  /** Call c has a leader, which has not entered another call. */
  ghost predicate CallFits<K, V>(st: State<K, V>, c: nat)
    requires c < |st.calls|
  {
    && st.calls[c].leader < |st.callers|
    && !st.callers[st.calls[c].leader].phase.Idle?
    && st.callers[st.calls[c].leader].phase.c == c
    && st.calls[c].dups == Followers(st.callers, c, st.calls[c].leader)
  }

  /** The map holds calls that are in flight, under their leader's key. */
  ghost predicate EntryFits<K, V>(st: State<K, V>, k: K)
    requires k in st.m
  {
    && st.m[k] < |st.calls|
    && var leader := st.calls[st.m[k]].leader;
    && leader < |st.callers| && st.callers[leader].key == k && InFlight(st.callers[leader].phase)
    && st.callers[leader].phase.c == st.m[k]
  }

  ghost predicate Inv<K, V>(st: State<K, V>) {
    && (forall i :: 0 <= i < |st.callers| ==> CallerFits(st, i))
    && (forall c :: 0 <= c < |st.calls| ==> CallFits(st, c))
    && (forall k :: k in st.m ==> EntryFits(st, k))
  }

  /** How many callers are in call c without leading it. */
  function Followers<K, V>(callers: seq<Caller<K, V>>, c: nat, leader: nat): (n: nat) {
    if callers == [] then 0
    else
      var last := |callers| - 1;
      Followers(callers[..last], c, leader)
      + (if !callers[last].phase.Idle? && callers[last].phase.c == c && last != leader then 1 else 0)
  }

  predicate Counts<K, V>(caller: Caller<K, V>, i: nat, c: nat, leader: nat) {
    !caller.phase.Idle? && caller.phase.c == c && i != leader
  }

  lemma {:induction false} FollowersUpdate<K, V>(callers: seq<Caller<K, V>>, i: nat, w: Caller<K, V>, c: nat, leader: nat)
    requires i < |callers|
    ensures Followers(callers[i := w], c, leader) + (if Counts(callers[i], i, c, leader) then 1 else 0)
         == Followers(callers, c, leader) + (if Counts(w, i, c, leader) then 1 else 0)
  {
    var last := |callers| - 1;
    if i == last {
      assert callers[i := w][..last] == callers[..last];
    } else {
      FollowersUpdate(callers[..last], i, w, c, leader);
      assert callers[i := w][..last] == callers[..last][i := w];
    }
  }

  lemma {:induction false} FollowersPositive<K, V>(callers: seq<Caller<K, V>>, c: nat, leader: nat)
    ensures Followers(callers, c, leader) > 0 <==> exists i :: 0 <= i < |callers| && Counts(callers[i], i, c, leader)
  {
    if callers != [] {
      var last := |callers| - 1;
      var before := callers[..last];
      FollowersPositive(before, c, leader);
      forall i | 0 <= i < last ensures Counts(before[i], i, c, leader) == Counts(callers[i], i, c, leader) {
      }
    }
  }

  // ----- every step keeps the invariant -----

  lemma StartInv<K, V>(keys: seq<K>)
    ensures Inv(Start<K, V>(keys))
  {
  }

  /** Steps that leave callers in their calls keep every count. */
  lemma FollowersSame<K, V>(callers: seq<Caller<K, V>>, i: nat, w: Caller<K, V>)
    requires i < |callers| && !callers[i].phase.Idle? && !w.phase.Idle? && w.phase.c == callers[i].phase.c
    ensures forall c: nat, leader: nat :: Followers(callers[i := w], c, leader) == Followers(callers, c, leader)
  {
    forall c: nat, leader: nat ensures Followers(callers[i := w], c, leader) == Followers(callers, c, leader) {
      FollowersUpdate(callers, i, w, c, leader);
    }
  }

  lemma JoinKeeps<K, V>(st: State<K, V>, i: nat)
    requires Inv(st) && Enabled(st, Enter(i)) && st.callers[i].key in st.m
    ensures Inv(Apply(st, Enter(i)))
  {
    hide Followers;
    var st' := Apply(st, Enter(i));
    var key := st.callers[i].key;
    assert EntryFits(st, key);
    forall c | 0 <= c < |st'.calls| ensures CallFits(st', c) {
      assert CallFits(st, c);
      FollowersUpdate(st.callers, i, st'.callers[i], c, st.calls[c].leader);
    }
    forall j | 0 <= j < |st'.callers| ensures CallerFits(st', j) {
      assert CallerFits(st, j);
    }
    forall k | k in st'.m ensures EntryFits(st', k) {
      assert EntryFits(st, k);
    }
  }

  lemma {:induction false} NoneFollow<K, V>(callers: seq<Caller<K, V>>, c: nat, leader: nat)
    requires forall i :: 0 <= i < |callers| ==> !Counts(callers[i], i, c, leader)
    ensures Followers(callers, c, leader) == 0
  {
    FollowersPositive(callers, c, leader);
  }

  lemma LeadKeeps<K, V>(st: State<K, V>, i: nat)
    requires Inv(st) && Enabled(st, Enter(i)) && st.callers[i].key !in st.m
    ensures Inv(Apply(st, Enter(i)))
  {
    hide Followers;
    var st' := Apply(st, Enter(i));
    var n := |st.calls|;
    forall j | 0 <= j < |st'.callers| ensures !Counts(st'.callers[j], j, n, i) {
      assert CallerFits(st, j);
    }
    NoneFollow(st'.callers, n, i);
    forall c | 0 <= c < |st'.calls| ensures CallFits(st', c) {
      if c < n {
        assert CallFits(st, c);
        FollowersUpdate(st.callers, i, st'.callers[i], c, st.calls[c].leader);
      }
    }
    forall j | 0 <= j < |st'.callers| ensures CallerFits(st', j) {
      assert CallerFits(st, j);
    }
    forall k | k in st'.m ensures EntryFits(st', k) {
      if k != st.callers[i].key {
        assert EntryFits(st, k);
      }
    }
  }

  lemma OtherKeeps<K, V>(st: State<K, V>, step: Step<V>)
    requires Inv(st) && Enabled(st, step) && !step.Enter?
    ensures Inv(Apply(st, step))
  {
    hide Followers;
    var st' := Apply(st, step);
    forall c | 0 <= c < |st'.calls| ensures CallFits(st', c) {
      OtherKeepsCall(st, step, c);
    }
    forall j | 0 <= j < |st'.callers| ensures CallerFits(st', j) {
      OtherKeepsCaller(st, step, j);
    }
    forall k | k in st'.m ensures EntryFits(st', k) {
      assert EntryFits(st, k) && CallerFits(st, step.i);
    }
  }

  lemma OtherKeepsCaller<K, V>(st: State<K, V>, step: Step<V>, j: nat)
    requires Inv(st) && Enabled(st, step) && !step.Enter? && j < |Apply(st, step).callers|
    ensures CallerFits(Apply(st, step), j)
  {
    hide Followers;
    assert CallerFits(st, j) && CallerFits(st, step.i);
    assert CallFits(st, st.callers[step.i].phase.c);
  }

  lemma OtherKeepsCall<K, V>(st: State<K, V>, step: Step<V>, c: nat)
    requires Inv(st) && Enabled(st, step) && !step.Enter? && c < |Apply(st, step).calls|
    ensures CallFits(Apply(st, step), c)
  {
    hide Followers;
    var st' := Apply(st, step);
    assert CallerFits(st, step.i) && CallFits(st, c);
    FollowersSame(st.callers, step.i, st'.callers[step.i]);
  }

  lemma StepInv<K, V>(st: State<K, V>, step: Step<V>)
    requires Inv(st) && Enabled(st, step)
    ensures Inv(Apply(st, step))
  {
    hide Inv, Apply;
    if !step.Enter? {
      OtherKeeps(st, step);
    } else if st.callers[step.i].key in st.m {
      JoinKeeps(st, step.i);
    } else {
      LeadKeeps(st, step.i);
    }
  }

  lemma {:induction false} RunInv<K, V>(st: State<K, V>, steps: seq<Step<V>>)
    requires Inv(st) && IsRun(st, steps)
    ensures Inv(After(st, steps))
    decreases |steps|
  {
    hide Inv, Enabled, Apply;
    if steps != [] {
      StepInv(st, steps[0]);
      RunInv(Apply(st, steps[0]), steps[1..]);
    }
  }

  // ----- main results -----

  /** No two callers run fn under one key. */
  ghost predicate OneRunPerKey<K, V>(st: State<K, V>) {
    forall i, j :: 0 <= i < j < |st.callers| && st.callers[i].phase.Running? && st.callers[j].phase.Running? ==>
      st.callers[i].key != st.callers[j].key
  }

  /**
    What a caller that has returned may rely on: its call has one leader with the same key, every caller that returned
    from that call has the same value, a follower is told the value is shared, and the leader is told so exactly when
    it has a follower.
    */
  ghost predicate ReturnedWell<K, V>(st: State<K, V>, i: nat)
    requires i < |st.callers| && st.callers[i].phase.Returned?
  {
    var Returned(c, v, shared) := st.callers[i].phase;
    && c < |st.calls|
    && var leader := st.calls[c].leader;
    && leader < |st.callers| && st.callers[leader].key == st.callers[i].key
    && st.calls[c].val == Some(v) && !st.callers[leader].phase.Running?
    && (forall j :: 0 <= j < |st.callers| && st.callers[j].phase.Returned? && st.callers[j].phase.c == c ==>
          st.callers[j].phase.v == v)
    && (shared <==> (i != leader || exists j :: Follows(st, j, c)))
  }

  lemma InvReturnedWell<K, V>(st: State<K, V>, i: nat)
    requires Inv(st) && i < |st.callers| && st.callers[i].phase.Returned?
    ensures ReturnedWell(st, i)
  {
    hide Followers;
    var c := st.callers[i].phase.c;
    assert CallerFits(st, i);
    var leader := st.calls[c].leader;
    assert CallFits(st, c) && CallerFits(st, leader);
    FollowersPositive(st.callers, c, leader);
    forall j | 0 <= j < |st.callers| ensures Follows(st, j, c) == Counts(st.callers[j], j, c, leader) {
    }
    forall j | 0 <= j < |st.callers| && st.callers[j].phase.Returned? && st.callers[j].phase.c == c
      ensures st.callers[j].phase.v == st.callers[i].phase.v
    {
      assert CallerFits(st, j);
    }
  }

  lemma InvOneRun<K, V>(st: State<K, V>)
    requires Inv(st)
    ensures OneRunPerKey(st)
  {
    hide Followers;
    forall i, j | 0 <= i < j < |st.callers| && st.callers[i].phase.Running? && st.callers[j].phase.Running?
      ensures st.callers[i].key != st.callers[j].key
    {
      assert CallerFits(st, i) && CallerFits(st, j);
    }
  }

  /** Main result, safety over every run of any number of callers. */
  lemma Safe<K, V>(keys: seq<K>, steps: seq<Step<V>>)
    requires IsRun(Start<K, V>(keys), steps)
    ensures var st := After(Start<K, V>(keys), steps);
            && OneRunPerKey(st)
            && forall i :: 0 <= i < |st.callers| && st.callers[i].phase.Returned? ==> ReturnedWell(st, i)
  {
    hide Inv, Start, IsRun, After, OneRunPerKey, ReturnedWell;
    StartInv<K, V>(keys);
    RunInv(Start(keys), steps);
    var st := After(Start(keys), steps);
    InvOneRun(st);
    forall i | 0 <= i < |st.callers| && st.callers[i].phase.Returned? ensures ReturnedWell(st, i) {
      InvReturnedWell(st, i);
    }
  }

  /** Once a leader has deleted its key, nobody joins its call any more. */
  lemma DupsFixedAfterDelete<K, V>(st: State<K, V>, step: Step<V>, c: nat)
    requires Inv(st) && Enabled(st, step) && c < |st.calls|
    requires st.calls[c].leader < |st.callers| && !InFlight(st.callers[st.calls[c].leader].phase)
    ensures Apply(st, step).calls[c].dups == st.calls[c].dups
  {
    hide Followers;
    assert CallFits(st, c);
    if step.Enter? && st.callers[step.i].key in st.m {
      assert EntryFits(st, st.callers[step.i].key);
    }
  }

  // ----- progress -----

  predicate AllReturned<K, V>(st: State<K, V>) {
    forall i :: 0 <= i < |st.callers| ==> st.callers[i].phase.Returned?
  }

  /** Main result, no deadlock: when no fn is running, some caller can move until all have returned. */
  lemma NoDeadlock<K, V>(st: State<K, V>) returns (step: Step<V>)
    requires Inv(st) && !AllReturned(st)
    requires forall i :: 0 <= i < |st.callers| ==> !st.callers[i].phase.Running?
    ensures Enabled(st, step) && !step.Publish?
  {
    hide Followers;
    var i :| 0 <= i < |st.callers| && !st.callers[i].phase.Returned?;
    assert CallerFits(st, i);
    match st.callers[i].phase
    case Idle =>
      if st.callers[i].key in st.m {
        assert EntryFits(st, st.callers[i].key);
      }
      step := Enter(i);
    case Published(c) => step := Release(i);
    case Released(c) => step := Delete(i);
    case Deleted(c) =>
      assert CallFits(st, c);
      step := Return(i);
    case Waiting(c) =>
      var leader := st.calls[c].leader;
      assert CallFits(st, c) && CallerFits(st, leader);
      step := if st.callers[leader].phase.Published? then Release(leader) else Wake(i);
  }

  function Left<V>(phase: Phase<V>): (n: nat) {
    match phase
    case Idle => 5
    case Running(_) => 4
    case Published(_) => 3
    case Released(_) => 2
    case Deleted(_) => 1
    case Waiting(_) => 1
    case Returned(_, _, _) => 0
  }

  /** The steps that all callers together can still take. */
  function Budget<K, V>(callers: seq<Caller<K, V>>): (n: nat) {
    if callers == [] then 0 else Budget(callers[..|callers| - 1]) + Left(callers[|callers| - 1].phase)
  }

  lemma {:induction false} BudgetUpdate<K, V>(callers: seq<Caller<K, V>>, i: nat, w: Caller<K, V>)
    requires i < |callers|
    ensures Budget(callers[i := w]) + Left(callers[i].phase) == Budget(callers) + Left(w.phase)
  {
    var last := |callers| - 1;
    if i == last {
      assert callers[i := w][..last] == callers[..last];
    } else {
      BudgetUpdate(callers[..last], i, w);
      assert callers[i := w][..last] == callers[..last][i := w];
    }
  }

  lemma StepBudget<K, V>(st: State<K, V>, step: Step<V>)
    requires Enabled(st, step)
    ensures Budget(Apply(st, step).callers) < Budget(st.callers)
  {
    hide Budget;
    BudgetUpdate(st.callers, step.i, Apply(st, step).callers[step.i]);
  }

  /** No run is longer than five steps a caller. */
  lemma {:induction false} RunsAreShort<K, V>(st: State<K, V>, steps: seq<Step<V>>)
    requires IsRun(st, steps)
    ensures |steps| <= Budget(st.callers)
    decreases |steps|
  {
    hide Budget, Enabled, Apply;
    if steps != [] {
      StepBudget(st, steps[0]);
      RunsAreShort(Apply(st, steps[0]), steps[1..]);
    }
  }

  /** Main result: from every state reached, once every fn that runs returns, every caller can return. */
  lemma {:induction false} EveryoneCanReturn<K, V>(st: State<K, V>, fn: K -> V) returns (steps: seq<Step<V>>)
    requires Inv(st)
    ensures IsRun(st, steps) && AllReturned(After(st, steps))
    decreases Budget(st.callers)
  {
    hide Budget, Inv, Enabled, Apply;
    if AllReturned(st) {
      return [];
    }
    var step: Step<V>;
    if i: nat :| i < |st.callers| && st.callers[i].phase.Running? {
      step := Publish(i, fn(st.callers[i].key));
      RunningCanPublish(st, i, fn(st.callers[i].key));
    } else {
      step := NoDeadlock(st);
    }
    StepInv(st, step);
    StepBudget(st, step);
    var rest := EveryoneCanReturn(Apply(st, step), fn);
    steps := [step] + rest;
    assert steps[1..] == rest;
  }

  lemma RunningCanPublish<K, V>(st: State<K, V>, i: nat, v: V)
    requires Inv(st) && i < |st.callers| && st.callers[i].phase.Running?
    ensures Enabled(st, Publish(i, v))
  {
    assert CallerFits(st, i);
  }

  // ----- the code's own steps -----

  /** The fields that the goroutines share, with one method for each atomic section of Do. */
  class Group<K(==), V(==)> {
    var m: map<K, nat>
    var calls: seq<Call<V>>
    var callers: seq<Caller<K, V>>

    ghost function Now(): State<K, V>
      reads this
    {
      State(callers, calls, m)
    }

    constructor (keys: seq<K>)
      ensures Now() == Start(keys)
    {
      m, calls := map[], [];
      callers := seq(|keys|, i requires 0 <= i < |keys| => Caller(keys[i], Idle));
    }

    /** The critical section at the start of Do: under the lock, join the call for the key or make one. */
    method Enter(i: nat) returns (joined: bool)
      requires Enabled(Now(), Step<V>.Enter(i))
      modifies this
      ensures Now() == Apply(old(Now()), Step<V>.Enter(i))
      ensures joined == (old(callers[i].key) in old(m))
    {
      var key := callers[i].key;
      joined := key in m;
      if joined {
        var c := m[key];
        calls := calls[c := calls[c].(dups := calls[c].dups + 1)];
        callers := callers[i := Caller(key, Waiting(c))];
      } else {
        m := m[key := |calls|];
        callers := callers[i := Caller(key, Running(|calls|))];
        calls := calls + [Call(None, true, 0, i)];
      }
    }

    method Publish(i: nat, v: V)
      requires Enabled(Now(), Step.Publish(i, v))
      modifies this
      ensures Now() == Apply(old(Now()), Step.Publish(i, v))
    {
      var c := callers[i].phase.c;
      calls := calls[c := calls[c].(val := Some(v))];
      callers := callers[i := callers[i].(phase := Published(c))];
    }

    method Release(i: nat)
      requires Enabled(Now(), Step<V>.Release(i))
      modifies this
      ensures Now() == Apply(old(Now()), Step<V>.Release(i))
    {
      var c := callers[i].phase.c;
      calls := calls[c := calls[c].(blocked := false)];
      callers := callers[i := callers[i].(phase := Released(c))];
    }

    method Delete(i: nat)
      requires Enabled(Now(), Step<V>.Delete(i))
      modifies this
      ensures Now() == Apply(old(Now()), Step<V>.Delete(i))
    {
      m := m - {callers[i].key};
      callers := callers[i := callers[i].(phase := Deleted(callers[i].phase.c))];
    }

    method Return(i: nat) returns (v: V, shared: bool)
      requires Enabled(Now(), Step<V>.Return(i))
      modifies this
      ensures Now() == Apply(old(Now()), Step<V>.Return(i))
      ensures callers[i].phase == Returned(old(callers[i].phase.c), v, shared)
    {
      var c := callers[i].phase.c;
      v, shared := calls[c].val.value, calls[c].dups > 0;
      callers := callers[i := callers[i].(phase := Returned(c, v, shared))];
    }

    method Wake(i: nat) returns (v: V, shared: bool)
      requires Enabled(Now(), Step<V>.Wake(i))
      modifies this
      ensures Now() == Apply(old(Now()), Step<V>.Wake(i))
      ensures callers[i].phase == Returned(old(callers[i].phase.c), v, shared)
    {
      var c := callers[i].phase.c;
      v, shared := calls[c].val.value, true;
      callers := callers[i := callers[i].(phase := Returned(c, v, shared))];
    }
  }
}
