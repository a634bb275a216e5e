/** When the user callbacks of a batch of writes run (block.c, bdrv_aio_multiwrite and
    multiwrite_cb). Submissions and completions interleave in any way, a completion
    may come during its own submission, and any submission may fail. */
module Completion {

  const EIO := 5

  /** The submit loop before request i, after a failed submission, after the loop, and
      given up because the very first submission failed. */
  datatype Phase = Submitting(i: nat) | Closing | Ended | Failed

  /** n requests; num is num_requests, rounds what each run of the user callbacks was
      told, seen the results handed to multiwrite_cb, in order. */
  datatype State = State(n: nat, phase: Phase, inFlight: nat, num: int, error: int, freed: bool, rounds: seq<int>,
                         seen: seq<int>)

  datatype Event = Submit(ok: bool) | Close | Complete(ret: int)

  function Initial(n: nat): State { State(n, Submitting(0), 0, 1, 0, false, [], []) }

  /** multiwrite_cb. */
  function Callback(s: State, ret: int): State {
    var error := if ret < 0 && s.error == 0 then ret else s.error;
    var num := s.num - 1;
    s.(error := error, num := num, seen := s.seen + [ret],
       rounds := if num == 0 then s.rounds + [error] else s.rounds, freed := s.freed || num == 0)
  }

  predicate Enabled(s: State, e: Event) {
    match e
    case Submit(_) => s.phase.Submitting? && s.phase.i < s.n
    case Close => s.phase == Submitting(s.n) || s.phase == Closing
    case Complete(_) => s.inFlight > 0
  }

  function Apply(s: State, e: Event): State
    requires Enabled(s, e)
  {
    match e
    case Submit(true) => s.(num := s.num + 1, inFlight := s.inFlight + 1, phase := Submitting(s.phase.i + 1))
    case Submit(false) =>
      if s.phase.i == 0 then s.(num := s.num + 1, phase := Failed, freed := true)
      else Callback(s.(num := s.num + 1), -EIO).(phase := Closing)
    case Close => Callback(s, 0).(phase := Ended)
    case Complete(ret) => Callback(s.(inFlight := s.inFlight - 1), ret)
  }

  /** The first failure among results. */
  function FirstError(seen: seq<int>): int {
    if seen == [] then 0 else if seen[0] < 0 then seen[0] else FirstError(seen[1..])
  }

  lemma {:induction false} FirstErrorCat(seen: seq<int>, ret: int)
    ensures FirstError(seen + [ret]) == if FirstError(seen) == 0 && ret < 0 then ret else FirstError(seen)
    ensures FirstError(seen) <= 0
  {
    if seen == [] {
      assert seen + [ret] == [ret] && [ret][1..] == [];
    } else {
      assert (seen + [ret])[1..] == seen[1..] + [ret];
      FirstErrorCat(seen[1..], ret);
    }
  }

  ghost predicate Inv(s: State) {
    && s.error == FirstError(s.seen)
    && match s.phase
       case Submitting(i) => i <= s.n && (i == 0 ==> s.inFlight == 0 && s.seen == []) && !s.freed && s.rounds == []
         && s.num == s.inFlight + 1
       case Closing => !s.freed && s.rounds == [] && s.num == s.inFlight + 1
       case Ended => s.num == s.inFlight && (s.freed <==> s.inFlight == 0)
         && s.rounds == if s.inFlight == 0 then [s.error] else []
       case Failed => s.freed && s.inFlight == 0 && s.rounds == [] && s.seen == []
  }

  /** Every event finds the structure still allocated, and keeps the invariant. */
  lemma StepKeeps(s: State, e: Event)
    requires Inv(s) && Enabled(s, e)
    ensures !s.freed && Inv(Apply(s, e))
  {
    match e
    case Submit(ok) => FirstErrorCat(s.seen, -EIO);
    case Close => FirstErrorCat(s.seen, 0);
    case Complete(ret) => FirstErrorCat(s.seen, ret);
  }

  ghost predicate Run(s: State, events: seq<Event>, s': State)
    decreases |events|
  {
    if events == [] then s' == s else Enabled(s, events[0]) && Run(Apply(s, events[0]), events[1..], s')
  }

  lemma {:induction false} RunKeeps(s: State, events: seq<Event>, s': State)
    requires Inv(s) && Run(s, events, s')
    ensures Inv(s')
    decreases |events|
  {
    if events != [] {
      StepKeeps(s, events[0]);
      RunKeeps(Apply(s, events[0]), events[1..], s');
    }
  }

  /** Over every run: the callbacks run at most once, only after the submit loop has
      ended and everything submitted has completed, and then are told the first error
      seen; once both have happened they have run; after a failed first submission
      they never do. */
  lemma CallbacksOnce(n: nat, events: seq<Event>, s: State)
    requires n > 0 && Run(Initial(n), events, s)
    ensures |s.rounds| <= 1
    ensures s.rounds != [] <==> s.phase == Ended && s.inFlight == 0
    ensures s.rounds != [] ==> s.rounds[0] == FirstError(s.seen)
    ensures s.phase == Failed ==> s.rounds == [] && s.seen == [] && forall e :: !Enabled(s, e)
  {
    RunKeeps(Initial(n), events, s);
  }

  // ------------------------------------------------------------ told by the events

  /** The results of the parts of a batch: what each completion brings, and an I/O error for a
      submission that failed. */
  ghost function Results(events: seq<Event>): seq<int>
    decreases |events|
  {
    if events == [] then [] else Result(events[0]) + Results(events[1..])
  }

  ghost function Result(e: Event): seq<int> {
    match e
    case Complete(ret) => [ret]
    case Submit(ok) => if ok then [] else [-5]
    case Close => [0]
  }

  ghost function Submits(events: seq<Event>): nat
    decreases |events|
  {
    if events == [] then 0 else (if events[0].Submit? then 1 else 0) + Submits(events[1..])
  }

  /** How many parts have been submitted and have not completed. */
  ghost function Pending(events: seq<Event>): int
    decreases |events|
  {
    if events == [] then 0 else Change(events[0]) + Pending(events[1..])
  }

  ghost function Change(e: Event): int {
    match e
    case Complete(_) => -1
    case Submit(ok) => if ok then 1 else 0
    case Close => 0
  }

  lemma HistoryStep(s: State, e: Event)
    requires Inv(s) && Enabled(s, e) && (s.phase.Submitting? ==> s.phase.i > 0)
    ensures var t := Apply(s, e);
            && t.n == s.n && t.phase != Failed && (t.phase.Submitting? ==> s.phase.Submitting? && t.phase.i > 0)
            && t.seen == s.seen + Result(e) && t.inFlight == s.inFlight + Change(e)
            && (t.phase == Ended <==> s.phase == Ended || e == Close)
            && (t.phase.Submitting? ==> t.phase.i == s.phase.i + if e.Submit? then 1 else 0)
            && (e == Close && s.phase.Submitting? ==> s.phase.i == s.n)
            && (t.phase == Closing <==> (s.phase == Closing && e != Close) || e == Submit(false))
            && (e.Submit? ==> s.phase.Submitting?)
  {
  }

  lemma {:induction false} History(s: State, events: seq<Event>, s': State)
    requires Inv(s) && Run(s, events, s') && (s.phase.Submitting? ==> s.phase.i > 0)
    ensures s'.phase != Failed || s.phase == Failed
    ensures s'.seen == s.seen + Results(events) && s'.inFlight == s.inFlight + Pending(events)
    ensures s'.phase == Ended <==> s.phase == Ended || Close in events
    ensures s.phase.Submitting? && Close in events && Submit(false) !in events ==> s.phase.i + Submits(events) == s.n
    ensures !s.phase.Submitting? ==> Submits(events) == 0
    decreases |events|
  {
    hide Inv, Result, Change;
    if events == [] {
      assert s.seen + [] == s.seen;
    } else {
      var e, rest := events[0], events[1..];
      StepKeeps(s, e);
      HistoryStep(s, e);
      var t := Apply(s, e);
      hide Apply, Enabled;
      History(t, rest, s');
      assert events == [e] + rest;
      Joined(s.seen, Result(e), Results(rest));
    }
  }

  lemma Joined(a: seq<int>, b: seq<int>, c: seq<int>)
    ensures a + (b + c) == (a + b) + c
  {
  }

  /** Over every run, by the events alone: a batch is refused exactly if its first submission
      fails. Otherwise the callbacks run once the loop has ended and every submitted part has
      completed, and are told the first error among the parts, a failed submission being one. */
  lemma CallbacksTold(n: nat, events: seq<Event>, s: State)
    requires n > 0 && Run(Initial(n), events, s)
    ensures s.phase == Failed <==> events != [] && events[0] == Submit(false)
    ensures s.phase == Failed ==> |events| == 1 && s.rounds == []
    ensures s.phase != Failed ==>
              s.rounds == if Close in events && Pending(events) == 0 then [FirstError(Results(events))] else []
    ensures Close in events ==> Submits(events) == n || Submit(false) in events
  {
    if events != [] {
      var t := Apply(Initial(n), events[0]);
      StepKeeps(Initial(n), events[0]);
      RunKeeps(t, events[1..], s);
      if t.phase == Failed {
        assert events[1..] == [];
      } else {
        History(t, events[1..], s);
        assert events == [events[0]] + events[1..];
        assert [] + Results(events[1..]) == Results(events[1..]);
      }
    }
  }

  /** How many events can still come at most. */
  ghost function Left(s: State): nat
    requires Inv(s)
  {
    match s.phase
    case Submitting(i) => 2 * (s.n - i) + 1 + s.inFlight
    case Closing => 1 + s.inFlight
    case _ => s.inFlight
  }

  lemma {:induction false} LeftFalls(s: State, events: seq<Event>, s': State)
    requires Inv(s) && Run(s, events, s')
    ensures Inv(s') && Left(s') + |events| <= Left(s)
    decreases |events|
  {
    if events != [] {
      StepKeeps(s, events[0]);
      LeftFalls(Apply(s, events[0]), events[1..], s');
    }
  }

  /** Every run ends, after at most a submission and a completion for each request and the
      end of the loop. At the end, the callbacks have run once or the batch was refused. */
  lemma RunEnds(n: nat, events: seq<Event>, s: State)
    requires n > 0 && Run(Initial(n), events, s)
    ensures |events| <= 2 * n + 1
    ensures (forall e :: !Enabled(s, e)) <==> s.phase == Failed || |s.rounds| == 1
  {
    LeftFalls(Initial(n), events, s);
    CallbacksOnce(n, events, s);
    NoDeadlock(n, events, s);
  }

  /** A run can always be brought to its end. */
  lemma NoDeadlock(n: nat, events: seq<Event>, s: State)
    requires n > 0 && Run(Initial(n), events, s)
    ensures s.phase == Failed || (s.phase == Ended && s.rounds != []) || exists e :: Enabled(s, e)
  {
    RunKeeps(Initial(n), events, s);
    if s.inFlight > 0 {
      assert Enabled(s, Complete(0));
    } else if s.phase.Submitting? && s.phase.i < s.n {
      assert Enabled(s, Submit(true));
    } else if s.phase.Submitting? || s.phase == Closing {
      assert Enabled(s, Close);
    }
  }
}
