/**
  Collecting answers over channels (AnswerQuestion and gatherFromChannels, resolver.go).

  Any number of producer goroutines send answers and errors on two unbuffered channels, a closer waits for all of them
  and closes the channels one after the other, and a gatherer selects until it has counted two closed receives.
  Every atomic action is a step; a run is any sequence of enabled steps.
  */
module Gather {
  datatype Item<A, E> = Answer(answer: A) | Failure(error: E)

  /** What a producer still has to send, and whether it has called Done. */
  datatype Producer<A, E> = Producer(items: seq<Item<A, E>>, finished: bool)

  /** lost: an item met a closed channel; the send panics and the producer's recover swallows the panic. */
  datatype State<A, E> = State(
    producers: seq<Producer<A, E>>, waiting: int,
    answersClosed: bool, errorsClosed: bool,
    rrs: seq<A>, errs: seq<E>, done: nat, lost: bool)

  datatype Step =
    | Transfer(i: nat)        // producer i and the gatherer meet on a channel
    | Finish(i: nat)          // producer i calls Done
    | CloseAnswers            // the closer, after Wait has returned
    | CloseErrors
    | SendOnClosed(i: nat)    // producer i sends on a channel that is closed
    | SeeAnswersClosed        // the gatherer receives from a closed channel
    | SeeErrorsClosed

  function Start<A, E>(work: seq<seq<Item<A, E>>>): (st: State<A, E>) {
    State(seq(|work|, i requires 0 <= i < |work| => Producer(work[i], false)), |work|, false, false, [], [], 0, false)
  }

  /** Producer i has something to send, and its channel is closed or open as asked. */
  predicate Sends<A, E>(st: State<A, E>, i: nat, closed: bool) {
    && i < |st.producers| && !st.producers[i].finished && st.producers[i].items != []
    && closed == (if st.producers[i].items[0].Answer? then st.answersClosed else st.errorsClosed)
  }

  predicate Enabled<A, E>(st: State<A, E>, step: Step) {
    match step
    case Transfer(i) => st.done < 2 && Sends(st, i, false)
    case SendOnClosed(i) => Sends(st, i, true)
    case Finish(i) => i < |st.producers| && !st.producers[i].finished && st.producers[i].items == []
    case CloseAnswers => st.waiting == 0 && !st.answersClosed
    case CloseErrors => st.answersClosed && !st.errorsClosed
    case SeeAnswersClosed => st.done < 2 && st.answersClosed
    case SeeErrorsClosed => st.done < 2 && st.errorsClosed
  }

  function Apply<A, E>(st: State<A, E>, step: Step): (st': State<A, E>)
    requires Enabled(st, step)
  {
    match step
    case Transfer(i) =>
      var p := st.producers[i];
      var rest := st.(producers := st.producers[i := p.(items := p.items[1..])]);
      (match p.items[0]
       case Answer(a) => rest.(rrs := st.rrs + [a])
       case Failure(e) => rest.(errs := st.errs + [e]))
    case SendOnClosed(i) =>
      // The deferred Done still runs; what was left to send is gone.
      st.(producers := st.producers[i := Producer([], true)], waiting := st.waiting - 1, lost := true)
    case Finish(i) =>
      st.(producers := st.producers[i := st.producers[i].(finished := true)], waiting := st.waiting - 1)
    case CloseAnswers => st.(answersClosed := true)
    case CloseErrors => st.(errorsClosed := true)
    case SeeAnswersClosed => st.(done := st.done + 1)
    case SeeErrorsClosed => st.(done := st.done + 1)
  }

  /** steps can be taken one after the other. */
  ghost predicate IsRun<A, E>(st: State<A, E>, steps: seq<Step>)
    decreases |steps|
  {
    steps == [] || (Enabled(st, steps[0]) && IsRun(Apply(st, steps[0]), steps[1..]))
  }

  ghost function After<A, E>(st: State<A, E>, steps: seq<Step>): State<A, E>
    requires IsRun(st, steps)
    decreases |steps|
  {
    if steps == [] then st else After(Apply(st, steps[0]), steps[1..])
  }

  // ----- what is sent -----

  function AnswersIn<A, E>(items: seq<Item<A, E>>): (s: seq<A>) {
    if items == [] then []
    else if items[0].Answer? then [items[0].answer] + AnswersIn(items[1..])
    else AnswersIn(items[1..])
  }

  function ErrorsIn<A, E>(items: seq<Item<A, E>>): (s: seq<E>) {
    if items == [] then []
    else if items[0].Failure? then [items[0].error] + ErrorsIn(items[1..])
    else ErrorsIn(items[1..])
  }

  ghost function AllAnswers<A, E>(ps: seq<Producer<A, E>>): (m: multiset<A>) {
    if ps == [] then multiset{} else multiset(AnswersIn(ps[0].items)) + AllAnswers(ps[1..])
  }

  ghost function AllErrors<A, E>(ps: seq<Producer<A, E>>): (m: multiset<E>) {
    if ps == [] then multiset{} else multiset(ErrorsIn(ps[0].items)) + AllErrors(ps[1..])
  }

  ghost function Unfinished<A, E>(ps: seq<Producer<A, E>>): (n: nat) {
    if ps == [] then 0 else (if ps[0].finished then 0 else 1) + Unfinished(ps[1..])
  }

  ghost function Unsent<A, E>(ps: seq<Producer<A, E>>): (n: nat) {
    if ps == [] then 0 else |ps[0].items| + Unsent(ps[1..])
  }

  function Others<A, E>(ps: seq<Producer<A, E>>, i: nat): (r: seq<Producer<A, E>>)
    requires i < |ps|
  {
    ps[..i] + ps[i + 1..]
  }

  lemma Unfold<A, E>(ps: seq<Producer<A, E>>)
    requires ps != []
    ensures AllAnswers(ps) == multiset(AnswersIn(ps[0].items)) + AllAnswers(ps[1..])
    ensures AllErrors(ps) == multiset(ErrorsIn(ps[0].items)) + AllErrors(ps[1..])
    ensures Unfinished(ps) == (if ps[0].finished then 0 else 1) + Unfinished(ps[1..])
    ensures Unsent(ps) == |ps[0].items| + Unsent(ps[1..])
  {
  }

  lemma Associates<T>(a: multiset<T>, b: multiset<T>, c: multiset<T>)
    ensures a + (b + c) == (a + b) + c && a + b == b + a
  {
  }

  /** Each total is what the others make up plus producer i's own part. */
  lemma {:induction false} Apart<A, E>(ps: seq<Producer<A, E>>, i: nat)
    requires i < |ps|
    ensures AllAnswers(ps) == AllAnswers(Others(ps, i)) + multiset(AnswersIn(ps[i].items))
    ensures AllErrors(ps) == AllErrors(Others(ps, i)) + multiset(ErrorsIn(ps[i].items))
    ensures Unfinished(ps) == Unfinished(Others(ps, i)) + (if ps[i].finished then 0 else 1)
    ensures Unsent(ps) == Unsent(Others(ps, i)) + |ps[i].items|
  {
    hide AnswersIn, ErrorsIn, AllAnswers, AllErrors, Unfinished, Unsent;
    Unfold(ps);
    if i == 0 {
      assert Others(ps, 0) == ps[1..];
      Associates(AllAnswers(ps[1..]), multiset(AnswersIn(ps[0].items)), multiset{});
      Associates(AllErrors(ps[1..]), multiset(ErrorsIn(ps[0].items)), multiset{});
    } else {
      Apart(ps[1..], i - 1);
      var rest := Others(ps[1..], i - 1);
      assert Others(ps, i)[0] == ps[0] && Others(ps, i)[1..] == rest;
      Unfold(Others(ps, i));
      hide Others;
      Associates(multiset(AnswersIn(ps[0].items)), AllAnswers(rest), multiset(AnswersIn(ps[i].items)));
      Associates(multiset(ErrorsIn(ps[0].items)), AllErrors(rest), multiset(ErrorsIn(ps[i].items)));
    }
  }

  /** The same with producer i replaced by p. */
  lemma Replaced<A, E>(ps: seq<Producer<A, E>>, i: nat, p: Producer<A, E>)
    requires i < |ps|
    ensures var ps', rest := ps[i := p], Others(ps, i);
            && AllAnswers(ps) == AllAnswers(rest) + multiset(AnswersIn(ps[i].items))
            && AllAnswers(ps') == AllAnswers(rest) + multiset(AnswersIn(p.items))
            && AllErrors(ps) == AllErrors(rest) + multiset(ErrorsIn(ps[i].items))
            && AllErrors(ps') == AllErrors(rest) + multiset(ErrorsIn(p.items))
            && Unfinished(ps) == Unfinished(rest) + (if ps[i].finished then 0 else 1)
            && Unfinished(ps') == Unfinished(rest) + (if p.finished then 0 else 1)
            && Unsent(ps) == Unsent(rest) + |ps[i].items|
            && Unsent(ps') == Unsent(rest) + |p.items|
  {
    hide AnswersIn, ErrorsIn, AllAnswers, AllErrors, Unfinished, Unsent;
    Apart(ps, i);
    Apart(ps[i := p], i);
    assert Others(ps[i := p], i) == Others(ps, i);
  }

  lemma {:induction false} NoneUnfinished<A, E>(ps: seq<Producer<A, E>>)
    ensures Unfinished(ps) == 0 <==> forall i :: 0 <= i < |ps| ==> ps[i].finished
  {
    if ps != [] {
      NoneUnfinished(ps[1..]);
      if forall i :: 0 <= i < |ps| ==> ps[i].finished {
        assert forall i :: 0 <= i < |ps[1..]| ==> ps[1..][i] == ps[i + 1];
      } else if ps[0].finished {
        assert forall i :: 1 <= i < |ps| ==> ps[i] == ps[1..][i - 1];
      }
    }
  }

  lemma {:induction false} NothingUnsent<A, E>(ps: seq<Producer<A, E>>)
    requires forall i :: 0 <= i < |ps| ==> ps[i].items == []
    ensures AllAnswers(ps) == multiset{} && AllErrors(ps) == multiset{}
  {
    if ps != [] {
      NothingUnsent(ps[1..]);
    }
  }

  // ----- what every step keeps -----

  /**
    Nothing is lost: what has been gathered and what is still to be sent make up the totals. The channels close only
    after every producer is done, first answers, then errors; and the gatherer counts no close before the first.
    */
  ghost predicate Inv<A, E>(st: State<A, E>, answers: multiset<A>, errors: multiset<E>) {
    && multiset(st.rrs) + AllAnswers(st.producers) == answers
    && multiset(st.errs) + AllErrors(st.producers) == errors
    && (forall i :: 0 <= i < |st.producers| && st.producers[i].finished ==> st.producers[i].items == [])
    && st.waiting == Unfinished(st.producers)
    && (st.answersClosed ==> st.waiting == 0)
    && (st.errorsClosed ==> st.answersClosed)
    && (st.done > 0 ==> st.answersClosed)
    && st.done <= 2
    && !st.lost
  }

  lemma {:induction false} StartProducers<A, E>(work: seq<seq<Item<A, E>>>)
    ensures Unfinished(Start(work).producers) == |work|
  {
    var ps := Start(work).producers;
    if work != [] {
      StartProducers(work[1..]);
      assert ps[1..] == Start(work[1..]).producers;
    }
  }

  lemma StartInv<A, E>(work: seq<seq<Item<A, E>>>)
    ensures var st := Start(work); Inv(st, AllAnswers(st.producers), AllErrors(st.producers))
  {
    StartProducers(work);
  }

  /** No producer ever meets a closed channel. */
  lemma NoSendOnClosed<A, E>(st: State<A, E>, answers: multiset<A>, errors: multiset<E>, i: nat)
    requires Inv(st, answers, errors)
    ensures !Enabled(st, SendOnClosed(i))
  {
    NoneUnfinished(st.producers);
  }

  lemma StepInv<A, E>(st: State<A, E>, step: Step, answers: multiset<A>, errors: multiset<E>)
    requires Inv(st, answers, errors) && Enabled(st, step)
    ensures Inv(Apply(st, step), answers, errors)
  {
    hide AllAnswers, AllErrors, Unfinished, Unsent;
    NoneUnfinished(st.producers);
    match step
    case Transfer(i) =>
      var p := st.producers[i];
      var p' := p.(items := p.items[1..]);
      Replaced(st.producers, i, p');
      TransferKeeps(st, i, answers, errors);
    case Finish(i) =>
      Replaced(st.producers, i, st.producers[i].(finished := true));
    case SendOnClosed(i) =>
    case CloseAnswers =>
    case CloseErrors =>
    case SeeAnswersClosed =>
    case SeeErrorsClosed =>
  }

  lemma TransferKeeps<A, E>(st: State<A, E>, i: nat, answers: multiset<A>, errors: multiset<E>)
    requires Inv(st, answers, errors) && Enabled(st, Transfer(i))
    ensures var st' := Apply(st, Transfer(i));
            && multiset(st'.rrs) + AllAnswers(st'.producers) == answers
            && multiset(st'.errs) + AllErrors(st'.producers) == errors
  {
    hide AllAnswers, AllErrors, Unfinished, Unsent;
    var p := st.producers[i];
    var p' := p.(items := p.items[1..]);
    Replaced(st.producers, i, p');
    var rest := Others(st.producers, i);
    hide Others;
    match p.items[0]
    case Answer(a) =>
      assert AnswersIn(p.items) == [a] + AnswersIn(p'.items) && ErrorsIn(p.items) == ErrorsIn(p'.items);
      MoveOne(AllAnswers(rest), AnswersIn(p'.items), st.rrs, a);
    case Failure(e) =>
      assert ErrorsIn(p.items) == [e] + ErrorsIn(p'.items) && AnswersIn(p.items) == AnswersIn(p'.items);
      MoveOne(AllErrors(rest), ErrorsIn(p'.items), st.errs, e);
  }

  lemma MoveOne<T>(others: multiset<T>, rest: seq<T>, got: seq<T>, x: T)
    ensures multiset(got + [x]) + (others + multiset(rest)) == multiset(got) + (others + multiset([x] + rest))
  {
    assert multiset([x] + rest) == multiset{x} + multiset(rest);
    assert multiset(got + [x]) == multiset(got) + multiset{x};
  }

  lemma {:induction false} RunInv<A, E>(st: State<A, E>, steps: seq<Step>, answers: multiset<A>, errors: multiset<E>)
    requires Inv(st, answers, errors) && IsRun(st, steps)
    ensures Inv(After(st, steps), answers, errors)
    decreases |steps|
  {
    hide Inv, Enabled, Apply;
    if steps != [] {
      StepInv(st, steps[0], answers, errors);
      RunInv(Apply(st, steps[0]), steps[1..], answers, errors);
    }
  }

  // ----- main results -----

  /**
    Main result, safety: whatever the interleaving, no send meets a closed channel, and once the gatherer has counted
    two closed receives, even of the same channel, it holds exactly what the producers had to send. No producer is
    left waiting for a gatherer that has gone.
    */
  lemma GathersEverything<A, E>(work: seq<seq<Item<A, E>>>, steps: seq<Step>)
    requires IsRun(Start(work), steps)
    ensures var st := After(Start(work), steps);
            && !st.lost
            && (st.done > 0 ==> forall i :: 0 <= i < |st.producers| ==> st.producers[i].finished)
            && (st.done == 2 ==>
                  && multiset(st.rrs) == AllAnswers(Start(work).producers)
                  && multiset(st.errs) == AllErrors(Start(work).producers))
  {
    hide IsRun, After, Start;
    var answers, errors := AllAnswers(Start(work).producers), AllErrors(Start(work).producers);
    StartInv(work);
    RunInv(Start(work), steps, answers, errors);
    var st := After(Start(work), steps);
    NoneUnfinished(st.producers);
    if st.done == 2 {
      NothingUnsent(st.producers);
    }
  }

  /** Main result, no deadlock: until the gatherer has returned, some step is possible. */
  lemma NoDeadlock<A, E>(st: State<A, E>, answers: multiset<A>, errors: multiset<E>) returns (step: Step)
    requires Inv(st, answers, errors) && st.done < 2
    ensures Enabled(st, step)
  {
    NoneUnfinished(st.producers);
    if st.answersClosed {
      step := SeeAnswersClosed;
    } else if st.waiting == 0 {
      step := CloseAnswers;
    } else {
      var i :| 0 <= i < |st.producers| && !st.producers[i].finished;
      step := if st.producers[i].items == [] then Finish(i) else Transfer(i);
    }
  }

  /** Steps still possible at most. */
  ghost function Budget<A, E>(st: State<A, E>): (n: int) {
    Unsent(st.producers) + Unfinished(st.producers)
    + (if st.answersClosed then 0 else 1) + (if st.errorsClosed then 0 else 1) + (2 - st.done)
  }

  lemma StepBudget<A, E>(st: State<A, E>, step: Step, answers: multiset<A>, errors: multiset<E>)
    requires Inv(st, answers, errors) && Enabled(st, step)
    ensures 0 <= Budget(Apply(st, step)) < Budget(st)
  {
    hide AllAnswers, AllErrors, Unfinished, Unsent;
    NoneUnfinished(st.producers);
    match step
    case Transfer(i) =>
      Replaced(st.producers, i, st.producers[i].(items := st.producers[i].items[1..]));
    case Finish(i) =>
      Replaced(st.producers, i, st.producers[i].(finished := true));
    case SendOnClosed(i) =>
    case CloseAnswers =>
    case CloseErrors =>
    case SeeAnswersClosed =>
    case SeeErrorsClosed =>
  }

  /** Main result, termination: no run is longer than the items to send, the producers and four more steps. */
  lemma {:induction false} RunsAreShort<A, E>(st: State<A, E>, steps: seq<Step>, answers: multiset<A>, errors: multiset<E>)
    requires Inv(st, answers, errors) && IsRun(st, steps)
    ensures |steps| <= Budget(st)
    decreases |steps|
  {
    hide Enabled, Apply, Budget;
    if steps != [] {
      hide Inv;
      StepInv(st, steps[0], answers, errors);
      StepBudget(st, steps[0], answers, errors);
      RunsAreShort(Apply(st, steps[0]), steps[1..], answers, errors);
    } else {
      assert Budget(st) >= 0 by { BudgetPositive(st, answers, errors); }
    }
  }

  lemma BudgetPositive<A, E>(st: State<A, E>, answers: multiset<A>, errors: multiset<E>)
    requires Inv(st, answers, errors)
    ensures Budget(st) >= 0
  {
  }

  /** What the gatherer holds of a single producer's work, followed by what is still to be sent. */
  ghost predicate InOrder<A, E>(st: State<A, E>, answers: seq<A>, errors: seq<E>) {
    && |st.producers| == 1
    && st.rrs + AnswersIn(st.producers[0].items) == answers
    && st.errs + ErrorsIn(st.producers[0].items) == errors
  }

  lemma StepInOrder<A, E>(st: State<A, E>, step: Step, answers: seq<A>, errors: seq<E>)
    requires Enabled(st, step) && InOrder(st, answers, errors) && !step.SendOnClosed?
    ensures InOrder(Apply(st, step), answers, errors)
  {
    if step.Transfer? {
      var items := st.producers[0].items;
      assert AnswersIn(items) == (if items[0].Answer? then [items[0].answer] else []) + AnswersIn(items[1..]);
      assert ErrorsIn(items) == (if items[0].Failure? then [items[0].error] else []) + ErrorsIn(items[1..]);
    }
  }

  /** A single producer's answers and errors arrive in the order it sends them. */
  lemma {:induction false} OneProducerInOrder<A, E>(st: State<A, E>, steps: seq<Step>, answers: seq<A>, errors: seq<E>)
    requires Inv(st, multiset(answers), multiset(errors)) && IsRun(st, steps)
    requires InOrder(st, answers, errors)
    ensures var st' := After(st, steps); st'.done == 2 ==> st'.rrs == answers && st'.errs == errors
    decreases |steps|
  {
    hide AllAnswers, AllErrors, Unfinished, Enabled, Apply;
    NoneUnfinished(st.producers);
    if steps == [] {
      assert st.done == 2 ==> st.producers[0].items == [];
      assert st.rrs + [] == st.rrs && st.errs + [] == st.errs;
    } else {
      hide Inv, InOrder;
      StepInv(st, steps[0], multiset(answers), multiset(errors));
      if steps[0].SendOnClosed? {
        NoSendOnClosed(st, multiset(answers), multiset(errors), steps[0].i);
      }
      StepInOrder(st, steps[0], answers, errors);
      OneProducerInOrder(Apply(st, steps[0]), steps[1..], answers, errors);
    }
  }

  // ----- the gatherer -----

  /**
    gatherFromChannels together with the goroutines that feed it: the scheduler picks any step that is possible, until
    two closed receives have been counted.
    */
  method GatherFromChannels<A, E>(work: seq<seq<Item<A, E>>>) returns (rrs: seq<A>, errs: seq<E>)
    ensures multiset(rrs) == AllAnswers(Start(work).producers)
    ensures multiset(errs) == AllErrors(Start(work).producers)
  {
    var st := Start(work);
    ghost var answers, errors := AllAnswers(st.producers), AllErrors(st.producers);
    StartInv(work);
    hide AllAnswers, AllErrors, Unfinished, Unsent, Start;
    while st.done < 2
      invariant Inv(st, answers, errors)
      decreases Budget(st)
    {
      ghost var possible := NoDeadlock(st, answers, errors);
      var step: Step := CloseAnswers;
      if {
        case exists i :: 0 <= i < |st.producers| && Enabled(st, Transfer(i)) =>
          var i :| 0 <= i < |st.producers| && Enabled(st, Transfer(i));
          step := Transfer(i);
        case exists i :: 0 <= i < |st.producers| && Enabled(st, Finish(i)) =>
          var i :| 0 <= i < |st.producers| && Enabled(st, Finish(i));
          step := Finish(i);
        case Enabled(st, CloseAnswers) => step := CloseAnswers;
        case Enabled(st, CloseErrors) => step := CloseErrors;
        case Enabled(st, SeeAnswersClosed) => step := SeeAnswersClosed;
        case Enabled(st, SeeErrorsClosed) => step := SeeErrorsClosed;
      }
      StepInv(st, step, answers, errors);
      StepBudget(st, step, answers, errors);
      st := Apply(st, step);
    }
    NoneUnfinished(st.producers);
    NothingUnsent(st.producers);
    return st.rrs, st.errs;
  }
}
