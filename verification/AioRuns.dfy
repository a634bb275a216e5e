/** What every run of the thread-pool AIO protocol does, told by its steps: whom callbacks are
    made for and what they are told, the order of service, and that no request gets stuck. */
module AioRuns {
  import opened Chains
  import opened Aio

  // ------------------------------------------------------------ whole runs

  ghost predicate Goes(s: State, x: Step, s': State) { Enabled(s, x) && s' == Apply(s, x) }

  /** The states ss that the steps of a run lead through. */
  ghost predicate Trace(ss: seq<State>, run: seq<Step>) {
    |ss| == |run| + 1 && forall i :: 0 <= i < |run| ==> Goes(ss[i], run[i], ss[i + 1])
  }

  lemma {:induction false} RunKeeps(ss: seq<State>, run: seq<Step>, n: nat)
    requires Trace(ss, run) && Inv(ss[0]) && n <= |run|
    ensures Inv(ss[n])
  {
    hide Inv;
    if n > 0 {
      RunKeeps(ss, run, n - 1);
      assert Goes(ss[n - 1], run[n - 1], ss[n]);
      StepKeeps(ss[n - 1], run[n - 1]);
    }
  }

  lemma InitInv()
    ensures Inv(INIT)
  {
    assert Idlers(map[]) == {};
  }

  // ------------------------------------------------------------ what is told

  /** How a request went: submitted, served by a worker, processed. */
  datatype Story = Story(submit: nat, context: nat, bytes: int, tid: Tid, finish: nat, worker: Tid, ret: int,
                         process: nat)

  ghost predicate Submitted(run: seq<Step>, n: nat, id: Id, h: Story) {
    h.submit < n <= |run| && run[h.submit] == Submit(id, h.context, h.bytes, h.tid)
  }

  ghost predicate Reported(ss: seq<State>, run: seq<Step>, n: nat, id: Id, h: Story)
    requires |ss| == |run| + 1
  {
    h.submit < h.finish < n <= |run| && run[h.finish] == Finish(h.worker, h.ret)
    && Serves(ss[h.finish].workers, h.worker, id)
  }

  /** A request is as it was submitted, and has the result its worker reported. */
  ghost predicate ReqStory(ss: seq<State>, run: seq<Step>, n: nat, id: Id, r: Req, h: Story)
    requires |ss| == |run| + 1
  {
    && Submitted(run, n, id, h) && r.context == h.context && r.bytes == h.bytes
    && (r.active && r.ret != -EINPROGRESS ==> Reported(ss, run, n, id, h) && r.ret == h.ret)
  }

  ghost predicate ReqsTold(ss: seq<State>, run: seq<Step>, n: nat)
    requires |ss| == |run| + 1 && n <= |run|
  {
    forall id :: id in ss[n].reqs ==> HasStory(ss, run, n, id, ss[n].reqs[id])
  }

  ghost predicate HasStory(ss: seq<State>, run: seq<Step>, n: nat, id: Id, r: Req)
    requires |ss| == |run| + 1
  {
    exists h :: ReqStory(ss, run, n, id, r, h)
  }

  /** What posix_aio_process_queue makes of a result. */
  ghost predicate Told(ret: int, bytes: int, told: int) {
    && (0 <= ret == bytes ==> told == 0)
    && (0 <= ret != bytes ==> told == -22)
    && (ret < 0 ==> told == ret)
  }

  ghost predicate CallStory(ss: seq<State>, run: seq<Step>, n: nat, c: Call, h: Story)
    requires |ss| == |run| + 1
  {
    && Submitted(run, n, c.id, h) && Reported(ss, run, n, c.id, h) && h.ret != -ECANCELED
    && h.finish < h.process < n && run[h.process] == Process(h.context, c.id) && Told(h.ret, h.bytes, c.ret)
  }

  ghost predicate CallsTold(ss: seq<State>, run: seq<Step>, n: nat)
    requires |ss| == |run| + 1 && n <= |run|
  {
    forall i :: 0 <= i < |ss[n].calls| ==> WasTold(ss, run, n, ss[n].calls[i])
  }

  ghost predicate WasTold(ss: seq<State>, run: seq<Step>, n: nat, c: Call)
    requires |ss| == |run| + 1
  {
    exists h :: CallStory(ss, run, n, c, h)
  }

  /** Which requests a step changes, and how. */
  lemma ReqChange(s: State, x: Step, id: Id)
    requires Inv(s) && Enabled(s, x) && id in Apply(s, x).reqs
    ensures var r' := Apply(s, x).reqs[id];
            if id !in s.reqs then x.Submit? && x.id == id && r' == Req(x.context, x.bytes, -EINPROGRESS, false)
            else
              var r := s.reqs[id];
              && r'.context == r.context && r'.bytes == r.bytes
              && (r' == r || !r'.active || r'.ret == -EINPROGRESS ||
                   (x.Finish? && Serves(s.workers, x.t, id) && r'.ret == x.ret))
  {
    if x.Check? && s.queue != [] { TakeQueue(s.reqs, s.queue, s.outstanding); }
  }

  lemma ReqStep(ss: seq<State>, run: seq<Step>, n: nat, id: Id)
    requires Trace(ss, run) && n < |run| && Inv(ss[n]) && ReqsTold(ss, run, n) && id in ss[n + 1].reqs
    ensures HasStory(ss, run, n + 1, id, ss[n + 1].reqs[id])
  {
    hide Inv, Apply, Enabled, Serves, HasStory;
    var s, x := ss[n], run[n];
    assert Goes(s, x, ss[n + 1]);
    ReqChange(s, x, id);
    if id !in s.reqs {
      StoryBegins(ss, run, n, id);
    } else {
      assert HasStory(ss, run, n, id, s.reqs[id]);
      StoryGoesOn(ss, run, n, id, s.reqs[id], ss[n + 1].reqs[id]);
    }
  }

  lemma StoryBegins(ss: seq<State>, run: seq<Step>, n: nat, id: Id)
    requires |ss| == |run| + 1 && n < |run| && run[n].Submit? && run[n].id == id
    ensures HasStory(ss, run, n + 1, id, Req(run[n].context, run[n].bytes, -EINPROGRESS, false))
  {
    var x := run[n];
    assert ReqStory(ss, run, n + 1, id, Req(x.context, x.bytes, -EINPROGRESS, false),
                    Story(n, x.context, x.bytes, x.tid, 0, 0, 0, 0));
  }

  lemma StoryGoesOn(ss: seq<State>, run: seq<Step>, n: nat, id: Id, r: Req, r': Req)
    requires |ss| == |run| + 1 && n < |run| && HasStory(ss, run, n, id, r)
    requires r'.context == r.context && r'.bytes == r.bytes
    requires r' == r || !r'.active || r'.ret == -EINPROGRESS ||
             (run[n].Finish? && Serves(ss[n].workers, run[n].t, id) && r'.ret == run[n].ret)
    ensures HasStory(ss, run, n + 1, id, r')
  {
    hide Serves;
    var x := run[n];
    var h :| ReqStory(ss, run, n, id, r, h);
    if x.Finish? && Serves(ss[n].workers, x.t, id) && r'.ret == x.ret {
      assert ReqStory(ss, run, n + 1, id, r', h.(finish := n, worker := x.t, ret := x.ret));
    } else {
      assert ReqStory(ss, run, n + 1, id, r', h);
    }
  }

  /** A step adds at most one call, for the request that is processed. */
  lemma CallChange(s: State, x: Step)
    requires Inv(s) && Enabled(s, x)
    ensures Apply(s, x).calls == s.calls || (
              && x.Process? && x.id in s.reqs && s.reqs[x.id].context == x.context
              && s.reqs[x.id].active && s.reqs[x.id].ret != -EINPROGRESS && s.reqs[x.id].ret != -ECANCELED
              && exists told ::
                   && Apply(s, x).calls == s.calls + [Call(x.id, told)]
                   && Told(s.reqs[x.id].ret, s.reqs[x.id].bytes, told))
  {
    if x.Process? && Apply(s, x).calls != s.calls {
      var r := s.reqs[x.id];
      assert Told(r.ret, r.bytes, Outcome(r.ret, r.bytes));
    }
  }

  lemma CallStep(ss: seq<State>, run: seq<Step>, n: nat, i: nat)
    requires Trace(ss, run) && n < |run| && Inv(ss[n]) && ReqsTold(ss, run, n) && CallsTold(ss, run, n)
    requires i < |ss[n + 1].calls|
    ensures WasTold(ss, run, n + 1, ss[n + 1].calls[i])
  {
    hide Inv, Apply, Serves, Told, Enabled, HasStory, WasTold, ReqStory, CallStory;
    var s, x := ss[n], run[n];
    assert Goes(s, x, ss[n + 1]);
    CallChange(s, x);
    var c := ss[n + 1].calls[i];
    if i < |s.calls| {
      assert c == s.calls[i] && WasTold(ss, run, n, c);
      ToldLater(ss, run, n, c);
    } else {
      assert HasStory(ss, run, n, x.id, s.reqs[x.id]);
      ToldNow(ss, run, n, s.reqs[x.id], c);
    }
  }

  lemma ToldLater(ss: seq<State>, run: seq<Step>, n: nat, c: Call)
    requires |ss| == |run| + 1 && n < |run| && WasTold(ss, run, n, c)
    ensures WasTold(ss, run, n + 1, c)
  {
    var h :| CallStory(ss, run, n, c, h);
    assert CallStory(ss, run, n + 1, c, h);
  }

  lemma ToldNow(ss: seq<State>, run: seq<Step>, n: nat, r: Req, c: Call)
    requires |ss| == |run| + 1 && n < |run| && HasStory(ss, run, n, c.id, r) && run[n] == Process(r.context, c.id)
    requires r.active && r.ret != -EINPROGRESS && r.ret != -ECANCELED && Told(r.ret, r.bytes, c.ret)
    ensures WasTold(ss, run, n + 1, c)
  {
    var h :| ReqStory(ss, run, n, c.id, r, h);
    assert CallStory(ss, run, n + 1, c, h.(process := n));
  }

  /** Over all runs, by the steps alone: whoever is called back submitted the request, a worker
      that had it reported a result, the request was processed after that in the context it was
      submitted in, and the callback is told the result, an error for a short transfer. */
  lemma {:induction false} TruthTold(ss: seq<State>, run: seq<Step>, n: nat)
    requires Trace(ss, run) && ss[0] == INIT && n <= |run|
    ensures ReqsTold(ss, run, n) && CallsTold(ss, run, n)
  {
    InitInv();
    hide Inv, HasStory, WasTold;
    if n > 0 {
      TruthTold(ss, run, n - 1);
      RunKeeps(ss, run, n - 1);
      forall id | id in ss[n].reqs
        ensures HasStory(ss, run, n, id, ss[n].reqs[id])
      {
        ReqStep(ss, run, n - 1, id);
      }
      forall i | 0 <= i < |ss[n].calls|
        ensures WasTold(ss, run, n, ss[n].calls[i])
      {
        CallStep(ss, run, n - 1, i);
      }
    }
  }

  /** Processing a finished request of the context calls back; nothing else is touched. */
  lemma ProcessCalls(s: State, context: nat, id: Id)
    requires Inv(s) && Enabled(s, Process(context, id))
    ensures var s', r := Apply(s, Process(context, id)), s.reqs[id];
            var ended := r.context == context && r.ret != -EINPROGRESS;
            && (exists told :: Told(r.ret, r.bytes, told) &&
                  s'.calls == if ended && r.ret != -ECANCELED then s.calls + [Call(id, told)] else s.calls)
            && (forall x :: x in s'.outstanding <==> x in s.outstanding && !(ended && x == id))
            && s' == s.(calls := s'.calls, outstanding := s'.outstanding)
  {
    var r := s.reqs[id];
    assert Told(r.ret, r.bytes, Outcome(r.ret, r.bytes));
    forall x ensures x in Minus(s.outstanding, id) <==> x in s.outstanding && x != id {
      MinusMembers(s.outstanding, id, x);
    }
    hide Minus, Outcome;
  }

  // ------------------------------------------------------------ order

  /** x was submitted before y. */
  ghost predicate Precedes(run: seq<Step>, n: nat, x: Id, y: Id) {
    exists i, j :: 0 <= i < j < n <= |run| && IsSubmit(run[i], x) && IsSubmit(run[j], y)
  }

  ghost predicate IsSubmit(x: Step, id: Id) { x.Submit? && x.id == id }

  ghost predicate InOrder(run: seq<Step>, n: nat, s: seq<Id>) {
    forall p, q :: 0 <= p < q < |s| ==> Precedes(run, n, s[p], s[q])
  }

  ghost predicate Reversed(run: seq<Step>, n: nat, s: seq<Id>) {
    forall p, q :: 0 <= p < q < |s| ==> Precedes(run, n, s[q], s[p])
  }

  lemma {:induction false} MinusPlaces(s: seq<Id>, x: Id, p: nat, q: nat)
    requires p < q < |Minus(s, x)|
    ensures exists i, j :: 0 <= i < j < |s| && s[i] == Minus(s, x)[p] && s[j] == Minus(s, x)[q]
  {
    MinusAt(s, x, p);
    MinusAt(s, x, q);
    hide Minus, IndexOf;
    var k := if x in s then IndexOf(s, x) else |s|;
    var i, j := if p < k then p else p + 1, if q < k then q else q + 1;
    assert s[i] == Minus(s, x)[p] && s[j] == Minus(s, x)[q];
  }

  lemma MinusAt(s: seq<Id>, x: Id, p: nat)
    requires p < |Minus(s, x)|
    ensures var k := if x in s then IndexOf(s, x) else |s|;
            var i := if p < k then p else p + 1; i < |s| && s[i] == Minus(s, x)[p]
  {
    hide IndexOf;
  }

  lemma OrderedLess(run: seq<Step>, n: nat, s: seq<Id>, x: Id)
    ensures InOrder(run, n, s) ==> InOrder(run, n, Minus(s, x))
    ensures Reversed(run, n, s) ==> Reversed(run, n, Minus(s, x))
  {
    hide Precedes, Minus;
    forall p, q | 0 <= p < q < |Minus(s, x)|
      ensures InOrder(run, n, s) ==> Precedes(run, n, Minus(s, x)[p], Minus(s, x)[q])
      ensures Reversed(run, n, s) ==> Precedes(run, n, Minus(s, x)[q], Minus(s, x)[p])
    {
      MinusPlaces(s, x, p, q);
    }
  }

  lemma OrderedLater(run: seq<Step>, n: nat, s: seq<Id>)
    requires n < |run|
    ensures InOrder(run, n, s) ==> InOrder(run, n + 1, s)
    ensures Reversed(run, n, s) ==> Reversed(run, n + 1, s)
  {
    forall x, y | Precedes(run, n, x, y)
      ensures Precedes(run, n + 1, x, y)
    {
    }
    hide Precedes;
  }

  lemma SubmitsBefore(ss: seq<State>, run: seq<Step>, n: nat, x: Id, y: Id)
    requires |ss| == |run| + 1 && n < |run| && ReqsTold(ss, run, n) && x in ss[n].reqs && IsSubmit(run[n], y)
    ensures Precedes(run, n + 1, x, y)
  {
    assert HasStory(ss, run, n, x, ss[n].reqs[x]);
    var h :| ReqStory(ss, run, n, x, ss[n].reqs[x], h);
    assert IsSubmit(run[h.submit], x);
  }

  lemma QueueStep(s: State, x: Step)
    requires Enabled(s, x)
    ensures var q := Apply(s, x).queue;
            if x.Submit? then q == s.queue + [x.id]
            else q == s.queue || (s.queue != [] && q == s.queue[1..]) || exists id :: q == Minus(s.queue, id)
    ensures var o := Apply(s, x).outstanding;
            if x.Submit? then o == [x.id] + s.outstanding
            else o == s.outstanding || exists id :: o == Minus(s.outstanding, id)
  {
  }

  /** Over all runs requests wait, and are taken, in the order they were submitted in; the
      list of outstanding ones has the newest first. */
  lemma {:induction false} Fifo(ss: seq<State>, run: seq<Step>, n: nat)
    requires Trace(ss, run) && ss[0] == INIT && n <= |run|
    ensures InOrder(run, n, ss[n].queue) && Reversed(run, n, ss[n].outstanding)
    ensures forall t :: n < |run| && run[n] == Check(t) && ss[n].queue != [] ==>
              && ss[n + 1].workers == ss[n].workers[t := Busy(ss[n].queue[0])]
              && forall id :: id in ss[n].queue && id != ss[n].queue[0] ==> Precedes(run, n, ss[n].queue[0], id)
  {
    InitInv();
    hide Inv, Precedes;
    if n > 0 {
      Fifo(ss, run, n - 1);
      TruthTold(ss, run, n - 1);
      RunKeeps(ss, run, n - 1);
      FifoStep(ss, run, n - 1);
    }
    assert n < |run| ==> Goes(ss[n], run[n], ss[n + 1]);
  }

  lemma QueuedReqs(s: State)
    requires Inv(s)
    ensures forall y :: y in s.queue || y in s.outstanding ==> y in s.reqs
  {
  }

  lemma OrderedTail(run: seq<Step>, n: nat, s: seq<Id>)
    requires s != []
    ensures InOrder(run, n, s) ==> InOrder(run, n, s[1..])
  {
    hide Precedes;
  }

  lemma NewestLast(run: seq<Step>, n: nat, s: seq<Id>, x: Id)
    requires InOrder(run, n, s) && forall y :: y in s ==> Precedes(run, n, y, x)
    ensures InOrder(run, n, s + [x])
  {
    hide Precedes;
  }

  lemma NewestFirst(run: seq<Step>, n: nat, s: seq<Id>, x: Id)
    requires Reversed(run, n, s) && forall y :: y in s ==> Precedes(run, n, y, x)
    ensures Reversed(run, n, [x] + s)
  {
    hide Precedes;
  }

  lemma FifoStep(ss: seq<State>, run: seq<Step>, n: nat)
    requires Trace(ss, run) && n < |run| && Inv(ss[n]) && ReqsTold(ss, run, n)
    requires InOrder(run, n, ss[n].queue) && Reversed(run, n, ss[n].outstanding)
    ensures InOrder(run, n + 1, ss[n + 1].queue) && Reversed(run, n + 1, ss[n + 1].outstanding)
  {
    hide Precedes, Inv, Apply, Minus, ReqsTold, Enabled, InOrder, Reversed;
    var s, x := ss[n], run[n];
    assert Goes(s, x, ss[n + 1]);
    QueueStep(s, x);
    OrderedLater(run, n, s.queue);
    OrderedLater(run, n, s.outstanding);
    QueuedReqs(s);
    if s.queue != [] { OrderedTail(run, n + 1, s.queue); }
    if x.Submit? {
      forall y | y in s.reqs ensures Precedes(run, n + 1, y, x.id) { SubmitsBefore(ss, run, n, y, x.id); }
      NewestLast(run, n + 1, s.queue, x.id);
      NewestFirst(run, n + 1, s.outstanding, x.id);
    } else {
      if id :| ss[n + 1].queue == Minus(s.queue, id) { OrderedLess(run, n + 1, s.queue, id); }
      if id :| ss[n + 1].outstanding == Minus(s.outstanding, id) { OrderedLess(run, n + 1, s.outstanding, id); }
    }
  }

  // ------------------------------------------------------------ threads

  /** A thread is made only when none is idle and there are fewer than 64; it leaves only when
      it has timed out with nothing to do. */
  lemma Threads(s: State, x: Step)
    requires Inv(s) && Enabled(s, x)
    ensures Apply(s, x).workers.Keys ==
            if x.Submit? && |s.workers| < 64 && (forall t :: t in s.workers ==> s.workers[t].Busy?)
            then s.workers.Keys + {x.tid}
            else if x.Check? && s.queue == [] && s.workers[x.t] == Polling(true) then s.workers.Keys - {x.t}
            else s.workers.Keys
  {
    if x.Submit? {
      assert (forall t :: t in s.workers ==> s.workers[t].Busy?) <==> Idlers(s.workers) == {} by {
        if Idlers(s.workers) == {} {
          forall t | t in s.workers ensures s.workers[t].Busy? { assert t !in Idlers(s.workers); }
        }
      }
    }
  }

  // ------------------------------------------------------------ walking the list

  lemma {:induction false} UncancelledIn(reqs: map<Id, Req>, context: nat, s: seq<Id>, x: Id)
    requires x in Uncancelled(reqs, context, s)
    ensures x in s
  {
    var n := |s| - 1;
    if x in Uncancelled(reqs, context, s[..n]) { UncancelledIn(reqs, context, s[..n], x); }
  }

  lemma MinusBehind(kept: seq<Id>, s: seq<Id>, k: nat)
    requires k < |s| && s[k] !in kept
    ensures Minus(kept + s[k..], s[k]) == kept + s[k + 1..]
    decreases |kept|
  {
    var all := kept + s[k..];
    assert all[|kept|] == s[k];
    var i := IndexOf(all, s[k]);
    FirstAt(all, s[k], |kept|);
  }

  lemma {:induction false} FirstAt(s: seq<Id>, x: Id, k: nat)
    requires k < |s| && s[k] == x && x !in s[..k]
    ensures IndexOf(s, x) == k
  {
    if k > 0 {
      assert s[0] in s[..k];
      assert s[1..][..k - 1] == s[..k][1..];
      FirstAt(s[1..], x, k - 1);
    }
  }

  /** Processing the requests of the list one after the other, as long as none has ended,
      only takes out those that were cancelled. */
  lemma {:induction false} WalkSteps(s: State, context: nat, k: nat) returns (ss: seq<State>, run: seq<Step>)
    requires Inv(s) && s.main == Free && k <= |s.outstanding| && NoneDone(s.reqs, context, s.outstanding[..k])
    ensures Trace(ss, run) && ss[0] == s && |run| == k
    ensures forall i :: 0 <= i < k ==> run[i] == Process(context, s.outstanding[i])
    ensures ss[k] == s.(outstanding := Uncancelled(s.reqs, context, s.outstanding[..k]) + s.outstanding[k..])
  {
    hide Inv, Goes, Apply, Enabled, Done, Uncancelled;
    var o := s.outstanding;
    if k == 0 {
      ss, run := [s], [];
      NoneYet(s.reqs, context, o);
      assert [] + o[0..] == o;
    } else {
      assert o[..k][..k - 1] == o[..k - 1] && o[..k][k - 1] == o[k - 1];
      ss, run := WalkSteps(s, context, k - 1);
      var t, x := ss[k - 1], Process(context, o[k - 1]);
      WalkOne(s, context, k - 1, t);
      TraceOn(ss, run, x);
      ss, run := ss + [Apply(t, x)], run + [x];
    }
  }

  lemma TraceOn(ss: seq<State>, run: seq<Step>, x: Step)
    requires Trace(ss, run) && Enabled(ss[|run|], x)
    ensures Trace(ss + [Apply(ss[|run|], x)], run + [x])
  {
    hide Goes;
    var all, steps := ss + [Apply(ss[|run|], x)], run + [x];
    assert Goes(all[|run|], x, all[|run| + 1]) by {
      assert Apply(ss[|run|], x) == all[|run| + 1];
      TakesStep(ss[|run|], x);
    }
    forall i | 0 <= i < |steps|
      ensures Goes(all[i], steps[i], all[i + 1])
    {
      if i < |run| { assert Goes(ss[i], run[i], ss[i + 1]); }
    }
  }

  lemma TakesStep(s: State, x: Step)
    requires Enabled(s, x)
    ensures Goes(s, x, Apply(s, x))
  {
  }

  lemma WalkOne(s: State, context: nat, k: nat, t: State)
    requires Inv(s) && s.main == Free && k < |s.outstanding| && !Done(s.reqs, context, s.outstanding[k])
    requires t == s.(outstanding := Uncancelled(s.reqs, context, s.outstanding[..k]) + s.outstanding[k..])
    ensures Enabled(t, Process(context, s.outstanding[k]))
    ensures Apply(t, Process(context, s.outstanding[k])) ==
            s.(outstanding := Uncancelled(s.reqs, context, s.outstanding[..k + 1]) + s.outstanding[k + 1..])
  {
    hide Inv, Uncancelled, Minus, Done;
    var o := s.outstanding;
    var kept := Uncancelled(s.reqs, context, o[..k]);
    UncancelledMore(s.reqs, context, o, k);
    KeptApart(s, context, k);
    MinusBehind(kept, o, k);
    Ended(s.reqs, context, o[k]);
    assert kept + [o[k]] + o[k + 1..] == kept + o[k..];
    assert kept + [] == kept;
  }

  /** What a request that has not ended is. */
  lemma Ended(reqs: map<Id, Req>, context: nat, id: Id)
    requires id in reqs && !Done(reqs, context, id)
    ensures reqs[id].context != context || reqs[id].ret == -EINPROGRESS || reqs[id].ret == -ECANCELED
    ensures Cancelled(reqs, context, id) <==> reqs[id].context == context && reqs[id].ret == -ECANCELED
  {
  }

  lemma KeptApart(s: State, context: nat, k: nat)
    requires Inv(s) && k < |s.outstanding|
    ensures var o := s.outstanding;
            && o[k] in s.reqs && o[k] !in Uncancelled(s.reqs, context, o[..k])
            && o[k] in Uncancelled(s.reqs, context, o[..k]) + o[k..]
  {
    var o := s.outstanding;
    var kept := Uncancelled(s.reqs, context, o[..k]);
    assert QueueOk(s.reqs, s.queue, o);
    assert o[k] in o;
    if o[k] in kept { UncancelledIn(s.reqs, context, o[..k], o[k]); }
    assert (kept + o[k..])[|kept|] == o[k];
  }

  /** The walk of Outstanding.FindDone is a run of the protocol: it stops at the first request
      that has ended, whose callback is made, and the list is then as the walk leaves it. */
  lemma WalkRuns(s: State, context: nat, k: nat) returns (ss: seq<State>, run: seq<Step>, told: int)
    requires Inv(s) && s.main == Free && k < |s.outstanding| && NoneDone(s.reqs, context, s.outstanding[..k])
    requires Done(s.reqs, context, s.outstanding[k])
    ensures Trace(ss, run) && ss[0] == s && |run| == k + 1
    ensures forall i :: 0 <= i <= k ==> run[i] == Process(context, s.outstanding[i])
    ensures var id := s.outstanding[k];
            && id in s.reqs && Told(s.reqs[id].ret, s.reqs[id].bytes, told)
            && ss[k + 1] == s.(calls := s.calls + [Call(id, told)],
                               outstanding := Uncancelled(s.reqs, context, s.outstanding[..k]) + s.outstanding[k + 1..])
  {
    hide Inv, Uncancelled, Minus;
    ss, run := WalkSteps(s, context, k);
    var o, t := s.outstanding, ss[k];
    var kept := Uncancelled(s.reqs, context, o[..k]);
    var x := Process(context, o[k]);
    KeptApart(s, context, k);
    MinusBehind(kept, o, k);
    told := Outcome(s.reqs[o[k]].ret, s.reqs[o[k]].bytes);
    TraceOn(ss, run, x);
    ss, run := ss + [Apply(t, x)], run + [x];
  }

  // ------------------------------------------------------------ cancelling

  /** A request that no worker has, or that has ended, is cancelled at once; for one that is
      being served the main thread waits. */
  lemma CancelNow(s: State, id: Id)
    requires Inv(s) && Enabled(s, Cancel(id))
    ensures var s', r := Apply(s, Cancel(id)), s.reqs[id];
            if r.active && r.ret == -EINPROGRESS then s' == s.(main := Cancelling(id))
            else id !in s'.outstanding && id !in s'.queue && id in s'.cancelled && s'.main == Free
  {
    MinusMembers(s.outstanding, id, id);
    MinusMembers(s.queue, id, id);
    hide Minus;
  }

  ghost predicate Withdrawn(s: State, id: Id) { id in s.cancelled || s.main == Cancelling(id) }

  /** Once a request has been cancelled it is never called back. */
  lemma {:induction false} NeverAfterCancel(ss: seq<State>, run: seq<Step>, i: nat, n: nat, id: Id)
    requires Trace(ss, run) && ss[0] == INIT && i < n <= |run| && run[i] == Cancel(id)
    ensures Withdrawn(ss[n], id) && !Called(ss[n].calls, id)
  {
    hide Inv, Apply, Withdrawn, Called, Enabled;
    InitInv();
    RunKeeps(ss, run, n);
    RunKeeps(ss, run, n - 1);
    assert Goes(ss[n - 1], run[n - 1], ss[n]);
    if i < n - 1 { NeverAfterCancel(ss, run, i, n - 1, id); }
    WithdrawnStep(ss[n - 1], run[n - 1], id);
    NotCalled(ss[n], id);
  }

  lemma WithdrawnStep(s: State, x: Step, id: Id)
    requires Enabled(s, x) && (x == Cancel(id) || Withdrawn(s, id))
    ensures Withdrawn(Apply(s, x), id)
  {
  }

  lemma NotCalled(s: State, id: Id)
    requires Inv(s) && Withdrawn(s, id)
    ensures !Called(s.calls, id)
  {
  }

  // ------------------------------------------------------------ progress

  ghost function Busies(workers: map<Tid, Worker>): set<Tid> { set t | t in workers && workers[t].Busy? }

  ghost function Sleepers(workers: map<Tid, Worker>): set<Tid> { set t | t in workers && workers[t].Sleeping? }

  /** What is left to do. */
  ghost function Work(s: State): nat {
    10 * |s.outstanding| + 4 * |s.queue| + 3 * |Busies(s.workers)| + |Sleepers(s.workers)|
  }

  lemma WorkersSet(workers: map<Tid, Worker>, t: Tid, w: Worker)
    requires t in workers
    ensures |Busies(workers[t := w])| == |Busies(workers)| - (if workers[t].Busy? then 1 else 0)
                                         + (if w.Busy? then 1 else 0)
    ensures |Sleepers(workers[t := w])| == |Sleepers(workers)| - (if workers[t].Sleeping? then 1 else 0)
                                           + (if w.Sleeping? then 1 else 0)
  {
    hide Busies, Sleepers;
    BusiesSet(workers, t, w);
    SleepersSet(workers, t, w);
    SetSize(Busies(workers), t);
    SetSize(Sleepers(workers), t);
  }

  lemma BusiesSet(workers: map<Tid, Worker>, t: Tid, w: Worker)
    requires t in workers
    ensures Busies(workers[t := w]) == if w.Busy? then Busies(workers) + {t} else Busies(workers) - {t}
    ensures t in Busies(workers) <==> workers[t].Busy?
  {
  }

  lemma SleepersSet(workers: map<Tid, Worker>, t: Tid, w: Worker)
    requires t in workers
    ensures Sleepers(workers[t := w]) == if w.Sleeping? then Sleepers(workers) + {t} else Sleepers(workers) - {t}
    ensures t in Sleepers(workers) <==> workers[t].Sleeping?
  {
  }

  lemma SetSize(s: set<Tid>, t: Tid)
    ensures |s + {t}| == if t in s then |s| else |s| + 1
    ensures |s - {t}| == if t in s then |s| - 1 else |s|
  {
    if t in s { assert s + {t} == s; } else { assert s - {t} == s; }
  }

  lemma MinusSize(s: seq<Id>, x: Id)
    ensures |Minus(s, x)| == if x in s then |s| - 1 else |s|
  {
  }

  lemma WorkLess(s: State, x: Step)
    requires Inv(s) && Enabled(s, x)
    ensures x.Finish? ==> Work(Apply(s, x)) < Work(s)
    ensures x.Wake? ==> Work(Apply(s, x)) < Work(s)
    ensures x.Check? && s.queue != [] ==> Work(Apply(s, x)) < Work(s)
    ensures x.Spin? && s.reqs[s.main.id].ret != -EINPROGRESS ==> Work(Apply(s, x)) < Work(s)
    ensures x.Process? && s.reqs[x.id].context == x.context && s.reqs[x.id].ret != -EINPROGRESS ==>
              Work(Apply(s, x)) < Work(s)
  {
    hide Busies, Sleepers, Minus;
    if x.Finish? || x.Wake? || x.Check? { WorkersSet(s.workers, x.t, Polling(false)); }
    if x.Wake? { WorkersSet(s.workers, x.t, Polling(x.late)); }
    if x.Check? && s.queue != [] { WorkersSet(s.workers, x.t, Busy(s.queue[0])); }
    if x.Spin? { MinusSize(s.outstanding, s.main.id); }
    if x.Process? { MinusSize(s.outstanding, x.id); }
  }

  /** While a request is outstanding there is something to do that gets on with it, whatever
      result each worker comes to. */
  lemma NextStep(s: State, result: Id -> int) returns (x: Step)
    requires Inv(s) && s.outstanding != [] && forall id :: result(id) != -EINPROGRESS
    ensures Enabled(s, x) && Work(Apply(s, x)) < Work(s) && !x.Submit? && !x.Cancel?
    ensures x.Finish? ==> x.ret == result(s.workers[x.t].id)
  {
    var id := if s.main.Cancelling? then s.main.id else s.outstanding[0];
    var r := s.reqs[id];
    if r.ret != -EINPROGRESS {
      x := if s.main.Cancelling? then Spin else Process(r.context, id);
    } else if r.active {
      assert Served(s.reqs, s.outstanding, id);
      var t :| Serves(s.workers, t, id);
      x := Finish(t, result(id));
    } else {
      assert id in s.queue;
      x := Attend(s, result);
    }
    WorkLess(s, x);
  }

  /** A waiting request gets attention. */
  lemma Attend(s: State, result: Id -> int) returns (x: Step)
    requires Inv(s) && s.queue != [] && forall id :: result(id) != -EINPROGRESS
    ensures Enabled(s, x) && (x.Wake? || x.Finish? || (x.Check? && s.queue != []))
    ensures x.Finish? ==> x.ret == result(s.workers[x.t].id)
  {
    assert s.workers.Keys != {};
    var t :| t in s.workers;
    if s.workers[t].Polling? {
      x := Check(t);
    } else if s.workers[t].Sleeping? {
      x := Wake(t, false);
    } else {
      assert Serves(s.workers, t, s.workers[t].id);
      x := Finish(t, result(s.workers[t].id));
    }
  }

  /** No request gets stuck: from wherever a run has got to, there is a way on, without any
      further submission or cancellation, after which every request has been accounted for. */
  lemma {:induction false} NoneStuck(s: State, result: Id -> int) returns (ss: seq<State>, run: seq<Step>)
    requires Inv(s) && forall id :: result(id) != -EINPROGRESS
    ensures Trace(ss, run) && ss[0] == s && Inv(ss[|run|]) && ss[|run|].outstanding == []
    ensures forall i :: 0 <= i < |run| ==> !run[i].Submit? && !run[i].Cancel?
    ensures forall id :: id in s.outstanding ==>
              && id in ss[|run|].reqs
              && (Called(ss[|run|].calls, id) || id in ss[|run|].cancelled || ss[|run|].reqs[id].ret == -ECANCELED)
    decreases Work(s)
  {
    hide Inv, Work, Apply, Called, Enabled;
    if s.outstanding == [] {
      ss, run := [s], [];
    } else {
      var x := NextStep(s, result);
      StepKeeps(s, x);
      var rest, steps := NoneStuck(Apply(s, x), result);
      ss, run := [s] + rest, [x] + steps;
      TraceMore(s, x, rest, steps);
      AccountedAtEnd(ss, run);
    }
  }

  lemma TraceMore(s: State, x: Step, ss: seq<State>, run: seq<Step>)
    requires Trace(ss, run) && Goes(s, x, ss[0])
    ensures Trace([s] + ss, [x] + run) && ([s] + ss)[|run| + 1] == ss[|run|]
  {
    hide Goes;
    var all, steps := [s] + ss, [x] + run;
    forall i | 0 <= i < |steps|
      ensures Goes(all[i], steps[i], all[i + 1])
    {
      if i > 0 { assert Goes(ss[i - 1], run[i - 1], ss[i]); }
    }
  }

  lemma {:induction false} ReqsStay(ss: seq<State>, run: seq<Step>, n: nat, id: Id)
    requires Trace(ss, run) && n <= |run| && id in ss[0].reqs
    ensures id in ss[n].reqs
  {
    if n > 0 {
      ReqsStay(ss, run, n - 1, id);
      assert Goes(ss[n - 1], run[n - 1], ss[n]);
    }
  }

  lemma AccountedAtEnd(ss: seq<State>, run: seq<Step>)
    requires Trace(ss, run) && Inv(ss[0]) && Inv(ss[|run|]) && ss[|run|].outstanding == []
    ensures forall id :: id in ss[0].outstanding ==>
              && id in ss[|run|].reqs
              && (Called(ss[|run|].calls, id) || id in ss[|run|].cancelled || ss[|run|].reqs[id].ret == -ECANCELED)
  {
    forall id | id in ss[0].outstanding
      ensures id in ss[|run|].reqs && Accounted(ss[|run|].reqs[id], [], ss[|run|].calls, ss[|run|].cancelled, id)
    {
      ReqsStay(ss, run, |run|, id);
    }
  }

  // ------------------------------------------------------------ the protocol

  /** Over all runs from the start: no request is called back twice, or after it
      was cancelled; counters and queue agree with the workers and the requests. */
  lemma Protocol(ss: seq<State>, run: seq<Step>, n: nat)
    requires Trace(ss, run) && ss[0] == INIT && n <= |run|
    ensures var s := ss[n];
            && (forall i, j :: 0 <= i < j < |s.calls| ==> s.calls[i].id != s.calls[j].id)
            && (forall id :: id in s.queue <==> id in s.outstanding && id in s.reqs && !s.reqs[id].active)
            && s.cur == |s.workers| && 0 <= s.idle <= s.cur <= 64 && (s.queue != [] ==> |s.workers| > 0)
            && (forall id :: id in s.reqs ==>
                  id in s.outstanding || Called(s.calls, id) || id in s.cancelled || s.reqs[id].ret == -ECANCELED)
    ensures forall i, id :: 0 <= i < n && run[i] == Cancel(id) ==> !Called(ss[n].calls, id)
  {
    InitInv();
    RunKeeps(ss, run, n);
    var s := ss[n];
    forall id | id in s.reqs
      ensures id in s.outstanding || Called(s.calls, id) || id in s.cancelled || s.reqs[id].ret == -ECANCELED
    {
      assert Accounted(s.reqs[id], s.outstanding, s.calls, s.cancelled, id);
    }
    forall i, id | 0 <= i < n && run[i] == Cancel(id)
      ensures !Called(ss[n].calls, id)
    {
      NeverAfterCancel(ss, run, i, n, id);
    }
  }
}
