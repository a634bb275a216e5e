/** The thread-pool AIO protocol (posix-aio-compat.c): the main thread submits,
    cancels and completes requests while workers take them off a shared list. Each
    step is one critical section, or one uninterrupted piece of main-thread code. */
module Aio {
  import opened Chains
  import Sets

  const EINVAL := 22
  const EINPROGRESS := 115
  const ECANCELED := 125
  const MAX_THREADS := 64

  type Id = nat
  type Tid = nat

  datatype Req = Req(context: nat, bytes: int, ret: int, active: bool)

  /** Where a worker stands: about to look at the list, waiting for a signal or a
      timeout, or serving a request with the lock released. */
  datatype Worker = Polling(timedOut: bool) | Sleeping | Busy(id: Id)

  /** The main thread, waiting in paio_cancel for a request a worker is serving, or not. */
  datatype Main = Free | Cancelling(id: Id)

  datatype Call = Call(id: Id, ret: int)

  /** calls and cancelled record what has happened. */
  datatype State = State(reqs: map<Id, Req>, queue: seq<Id>, outstanding: seq<Id>, workers: map<Tid, Worker>,
                         cur: int, idle: int,
                         main: Main, calls: seq<Call>, cancelled: set<Id>)

  datatype Step =
    | Submit(id: Id, context: nat, bytes: int, tid: Tid)
    | Check(t: Tid)
    | Wake(t: Tid, late: bool)
    | Finish(t: Tid, ret: int)
    | Cancel(id: Id)
    | Spin
    | Process(context: nat, id: Id)

  const INIT := State(map[], [], [], map[], 0, 0, Free, [], {})

  /** Steps that can happen. A new request and a new thread have fresh names; a
      request that is cancelled is outstanding; a worker's result is final. */
  ghost predicate Enabled(s: State, x: Step) {
    match x
    case Submit(id, _, _, tid) => s.main == Free && id !in s.reqs && tid !in s.workers
    case Check(t) => t in s.workers && s.workers[t].Polling?
    case Wake(t, _) => t in s.workers && s.workers[t].Sleeping?
    case Finish(t, ret) => t in s.workers && s.workers[t].Busy? && s.workers[t].id in s.reqs && ret != -EINPROGRESS
    case Cancel(id) => s.main == Free && id in s.outstanding && id in s.reqs
    case Spin => s.main.Cancelling? && s.main.id in s.reqs
    case Process(_, id) => s.main == Free && id in s.outstanding && id in s.reqs
  }

  /** paio_submit and qemu_paio_submit. */
  function ApplySubmit(s: State, id: Id, context: nat, bytes: int, tid: Tid): State {
    var spawn := s.idle == 0 && s.cur < MAX_THREADS;
    s.(reqs := s.reqs[id := Req(context, bytes, -EINPROGRESS, false)],
       outstanding := [id] + s.outstanding,
       workers := if spawn then s.workers[tid := Polling(false)] else s.workers,
       cur := if spawn then s.cur + 1 else s.cur,
       idle := if spawn then s.idle + 1 else s.idle,
       queue := s.queue + [id])
  }

  /** aio_thread with the lock: take a request, wait, or leave. */
  ghost function ApplyCheck(s: State, t: Tid): State
    requires Enabled(s, Check(t))
  {
    if s.queue != [] then
      var id := s.queue[0];
      s.(queue := s.queue[1..], reqs := if id in s.reqs then s.reqs[id := s.reqs[id].(active := true)]
        else s.reqs, idle := s.idle - 1,
         workers := s.workers[t := Busy(id)])
    else if s.workers[t].timedOut then s.(workers := s.workers - {t}, idle := s.idle - 1, cur := s.cur - 1)
    else s.(workers := s.workers[t := Sleeping])
  }

  ghost function ApplyFinish(s: State, t: Tid, ret: int): State
    requires Enabled(s, Finish(t, ret))
  {
    var id := s.workers[t].id;
    s.(reqs := s.reqs[id := s.reqs[id].(ret := ret)], idle := s.idle + 1, workers := s.workers[t := Polling(false)])
  }

  /** paio_remove. */
  ghost function Forget(s: State, id: Id): State {
    s.(outstanding := Minus(s.outstanding, id), cancelled := s.cancelled + {id}, main := Free)
  }

  ghost function ApplyCancel(s: State, id: Id): State
    requires Enabled(s, Cancel(id))
  {
    if !s.reqs[id].active then
      Forget(s.(queue := Minus(s.queue, id), reqs := s.reqs[id := s.reqs[id].(ret := -ECANCELED)]), id)
    else if s.reqs[id].ret == -EINPROGRESS then s.(main := Cancelling(id))
    else Forget(s, id)
  }

  ghost function ApplySpin(s: State): State
    requires Enabled(s, Spin)
  {
    if s.reqs[s.main.id].ret == -EINPROGRESS then s else Forget(s, s.main.id)
  }

  /** What the callback is told. */
  function Outcome(ret: int, bytes: int): int { if ret >= 0 then (if ret == bytes then 0 else -EINVAL) else ret }

  /** posix_aio_process_queue at one request of its list. */
  ghost function ApplyProcess(s: State, context: nat, id: Id): State
    requires Enabled(s, Process(context, id))
  {
    var r := s.reqs[id];
    if r.context != context || r.ret == -EINPROGRESS then s
    else if r.ret == -ECANCELED then s.(outstanding := Minus(s.outstanding, id))
    else s.(outstanding := Minus(s.outstanding, id), calls := s.calls + [Call(id, Outcome(r.ret, r.bytes))])
  }

  ghost function Apply(s: State, x: Step): State
    requires Enabled(s, x)
  {
    match x
    case Submit(id, context, bytes, tid) => ApplySubmit(s, id, context, bytes, tid)
    case Check(t) => ApplyCheck(s, t)
    case Wake(t, late) => s.(workers := s.workers[t := Polling(late)])
    case Finish(t, ret) => ApplyFinish(s, t, ret)
    case Cancel(id) => ApplyCancel(s, id)
    case Spin => ApplySpin(s)
    case Process(context, id) => ApplyProcess(s, context, id)
  }

  // ------------------------------------------------------------ the invariant

  /** A queued request is exactly an outstanding one that no worker has taken. */
  ghost predicate QueueOk(reqs: map<Id, Req>, queue: seq<Id>, outstanding: seq<Id>) {
    && Unique(queue) && Unique(outstanding)
    && (forall id :: id in outstanding ==> id in reqs)
    && (forall id :: id in queue <==> id in outstanding && !reqs[id].active)
    && (forall id :: id in queue ==> reqs[id].ret == -EINPROGRESS)
  }

  ghost predicate Served(reqs: map<Id, Req>, outstanding: seq<Id>, id: Id) {
    id in outstanding && id in reqs && reqs[id].active && reqs[id].ret == -EINPROGRESS
  }

  ghost predicate Serves(workers: map<Tid, Worker>, t: Tid, id: Id) { t in workers && workers[t] == Busy(id) }

  /** A taken request in progress is exactly one that one worker is serving. */
  ghost predicate BusyOk(reqs: map<Id, Req>, outstanding: seq<Id>, workers: map<Tid, Worker>) {
    && (forall t, id :: Serves(workers, t, id) ==> Served(reqs, outstanding, id))
    && (forall id :: Served(reqs, outstanding, id) ==> exists t :: Serves(workers, t, id))
    && (forall t, u, id :: Serves(workers, t, id) && Serves(workers, u, id) ==> t == u)
  }

  ghost function Idlers(workers: map<Tid, Worker>): set<Tid> { set t | t in workers && !workers[t].Busy? }

  /** The counters count, and a waiting request has a worker to look at the list. */
  ghost predicate CountOk(workers: map<Tid, Worker>, cur: int, idle: int, queue: seq<Id>) {
    cur == |workers| && idle == |Idlers(workers)| && idle <= cur <= MAX_THREADS && (queue != [] ==> cur > 0)
  }

  /** A request has been called back or cancelled at most once, and is then gone. */
  ghost predicate LogOk(reqs: map<Id, Req>, outstanding: seq<Id>, calls: seq<Call>, cancelled: set<Id>) {
    && (forall i :: 0 <= i < |calls| ==>
          calls[i].id in reqs && calls[i].id !in outstanding && calls[i].id !in cancelled)
    && (forall i, j :: 0 <= i < j < |calls| ==> calls[i].id != calls[j].id)
    && (forall id :: id in cancelled ==> id in reqs && id !in outstanding)
  }

  /** A callback was told the outcome of what its worker reported, once it had. */
  ghost predicate CallsTrue(reqs: map<Id, Req>, calls: seq<Call>) {
    forall i :: 0 <= i < |calls| ==> TrueCall(reqs, calls[i])
  }

  ghost predicate TrueCall(reqs: map<Id, Req>, c: Call) {
    c.id in reqs &&
    var r := reqs[c.id];
    r.active && r.ret != -EINPROGRESS && r.ret != -ECANCELED && c.ret == Outcome(r.ret, r.bytes)
  }

  /** No request is lost: it is outstanding, called back, cancelled, or its worker
      reported ECANCELED. */
  ghost predicate AllAccounted(reqs: map<Id, Req>, outstanding: seq<Id>, calls: seq<Call>, cancelled: set<Id>) {
    forall id :: id in reqs ==> Accounted(reqs[id], outstanding, calls, cancelled, id)
  }

  ghost predicate Accounted(r: Req, outstanding: seq<Id>, calls: seq<Call>, cancelled: set<Id>, id: Id) {
    id in outstanding || Called(calls, id) || id in cancelled || r.ret == -ECANCELED
  }

  ghost predicate Called(calls: seq<Call>, id: Id) { exists i :: 0 <= i < |calls| && calls[i].id == id }

  ghost predicate MainOk(reqs: map<Id, Req>, outstanding: seq<Id>, main: Main) {
    main.Cancelling? ==> main.id in outstanding && main.id in reqs && reqs[main.id].active
  }

  ghost predicate Inv(s: State) {
    && QueueOk(s.reqs, s.queue, s.outstanding) && BusyOk(s.reqs, s.outstanding, s.workers)
    && CountOk(s.workers, s.cur, s.idle, s.queue) && LogOk(s.reqs, s.outstanding, s.calls, s.cancelled)
    && MainOk(s.reqs, s.outstanding, s.main)
    && CallsTrue(s.reqs, s.calls) && AllAccounted(s.reqs, s.outstanding, s.calls, s.cancelled)
  }

  // ------------------------------------------------------------ counting

  lemma MapSize<K, V>(m: map<K, V>, k: K, v: V)
    ensures |m[k := v]| == if k in m then |m| else |m| + 1
    ensures k in m ==> |m - {k}| == |m| - 1
  {
    assert m[k := v].Keys == m.Keys + {k};
    if k in m { assert (m - {k}).Keys == m.Keys - {k}; }
  }

  lemma IdlersSet(workers: map<Tid, Worker>, t: Tid, w: Worker)
    ensures Idlers(workers[t := w]) == if w.Busy? then Idlers(workers) - {t} else Idlers(workers) + {t}
    ensures Idlers(workers - {t}) == Idlers(workers) - {t}
  {
  }

  /** A worker changes what it does. */
  lemma CountSet(workers: map<Tid, Worker>, t: Tid, w: Worker)
    requires t in workers
    ensures |workers[t := w]| == |workers|
    ensures |Idlers(workers[t := w])| == |Idlers(workers)|
            + (if workers[t].Busy? && !w.Busy? then 1 else if !workers[t].Busy? && w.Busy? then -1 else 0)
  {
    MapSize(workers, t, w);
    IdlersSet(workers, t, w);
    if !workers[t].Busy? { assert Idlers(workers) == Idlers(workers) - {t} + {t}; }
  }

  lemma CountNew(workers: map<Tid, Worker>, t: Tid)
    requires t !in workers
    ensures |workers[t := Polling(false)]| == |workers| + 1
            && |Idlers(workers[t := Polling(false)])| == |Idlers(workers)| + 1
  {
    MapSize(workers, t, Polling(false));
    IdlersSet(workers, t, Polling(false));
  }

  lemma CountGone(workers: map<Tid, Worker>, t: Tid)
    requires t in workers && !workers[t].Busy?
    ensures |workers - {t}| == |workers| - 1 && |Idlers(workers - {t})| == |Idlers(workers)| - 1
  {
    MapSize(workers, t, Sleeping);
    IdlersSet(workers, t, Sleeping);
  }

  lemma IdlersBound(workers: map<Tid, Worker>)
    ensures |Idlers(workers)| <= |workers|
  {
    Sets.SubsetSize(Idlers(workers), workers.Keys);
  }

  // ------------------------------------------------------------ frames

  lemma BusyFrame(reqs: map<Id, Req>, outstanding: seq<Id>, workers: map<Tid, Worker>, reqs': map<Id, Req>,
                  outstanding': seq<Id>, workers': map<Tid, Worker>)
    requires BusyOk(reqs, outstanding, workers)
    requires forall t, id :: Serves(workers', t, id) <==> Serves(workers, t, id)
    requires forall id :: Served(reqs', outstanding', id) <==> Served(reqs, outstanding, id)
    ensures BusyOk(reqs', outstanding', workers')
  {
    hide Serves, Served;
    forall id | Served(reqs', outstanding', id) ensures exists t :: Serves(workers', t, id) {
      assert Served(reqs, outstanding, id);
      var t :| Serves(workers, t, id);
      assert Serves(workers', t, id);
    }
  }

  /** A request that no worker serves leaves the list of outstanding ones. */
  lemma Leave(reqs: map<Id, Req>, queue: seq<Id>, outstanding: seq<Id>, workers: map<Tid, Worker>, id: Id)
    requires QueueOk(reqs, queue, outstanding) && BusyOk(reqs, outstanding, workers)
    requires id in outstanding && reqs[id].active && reqs[id].ret != -EINPROGRESS
    ensures QueueOk(reqs, queue, Minus(outstanding, id)) && BusyOk(reqs, Minus(outstanding, id), workers)
  {
    MinusUnique(outstanding, id);
    forall x ensures x in Minus(outstanding, id) <==> x in outstanding && x != id { MinusMembers(outstanding, id, x); }
    hide Minus, Unique;
    BusyFrame(reqs, outstanding, workers, reqs, Minus(outstanding, id), workers);
  }

  lemma MinusUnique(s: seq<Id>, x: Id)
    requires Unique(s)
    ensures Unique(Minus(s, x))
  {
  }

  /** A queued request is taken back. */
  lemma TakeBack(reqs: map<Id, Req>, queue: seq<Id>, outstanding: seq<Id>, workers: map<Tid, Worker>, id: Id, ret: int)
    requires QueueOk(reqs, queue, outstanding) && BusyOk(reqs, outstanding, workers) && id in outstanding
             && !reqs[id].active
    ensures var reqs' := reqs[id := reqs[id].(ret := ret)];
            QueueOk(reqs', Minus(queue, id), Minus(outstanding, id)) && BusyOk(reqs', Minus(outstanding, id), workers)
  {
    MinusUnique(outstanding, id);
    MinusUnique(queue, id);
    forall x ensures x in Minus(outstanding, id) <==> x in outstanding && x != id { MinusMembers(outstanding, id, x); }
    forall x ensures x in Minus(queue, id) <==> x in queue && x != id { MinusMembers(queue, id, x); }
    hide Minus, Unique;
    BusyFrame(reqs, outstanding, workers, reqs[id := reqs[id].(ret := ret)], Minus(outstanding, id), workers);
  }

  lemma LogLeaves(reqs: map<Id, Req>, outstanding: seq<Id>, calls: seq<Call>, cancelled: set<Id>, id: Id,
                  reqs': map<Id, Req>)
    requires LogOk(reqs, outstanding, calls, cancelled) && Unique(outstanding) && id in outstanding && id in reqs
             && reqs'.Keys >= reqs.Keys
    ensures LogOk(reqs', Minus(outstanding, id), calls, cancelled)
    ensures LogOk(reqs', Minus(outstanding, id), calls, cancelled + {id})
    ensures forall ret :: LogOk(reqs', Minus(outstanding, id), calls + [Call(id, ret)], cancelled)
  {
    forall x ensures x in Minus(outstanding, id) <==> x in outstanding && x != id { MinusMembers(outstanding, id, x); }
    hide Minus, Unique;
  }

  /** Outstanding requests may change; the calls were made for others. */
  lemma CallsFrame(reqs: map<Id, Req>, outstanding: seq<Id>, calls: seq<Call>, cancelled: set<Id>, id: Id, r: Req)
    requires LogOk(reqs, outstanding, calls, cancelled) && CallsTrue(reqs, calls) && (id in outstanding || id !in reqs)
    ensures CallsTrue(reqs[id := r], calls)
  {
    hide Outcome;
    forall i | 0 <= i < |calls| ensures TrueCall(reqs[id := r], calls[i]) { assert TrueCall(reqs, calls[i]); }
  }

  lemma CalledMore(calls: seq<Call>, c: Call, id: Id)
    ensures Called(calls + [c], id) <==> Called(calls, id) || id == c.id
  {
    if Called(calls, id) {
      var i :| 0 <= i < |calls| && calls[i].id == id;
      assert (calls + [c])[i].id == id;
    }
    if id == c.id { assert (calls + [c])[|calls|].id == id; }
  }

  /** What leaves the list of outstanding requests is accounted for. */
  lemma StillAccounted(reqs: map<Id, Req>, outstanding: seq<Id>, calls: seq<Call>, cancelled: set<Id>, id: Id, ret: int)
    requires AllAccounted(reqs, outstanding, calls, cancelled) && Unique(outstanding) && id in outstanding && id in reqs
    ensures AllAccounted(reqs, Minus(outstanding, id), calls, cancelled + {id})
    ensures AllAccounted(reqs, Minus(outstanding, id), calls + [Call(id, ret)], cancelled)
    ensures reqs[id].ret == -ECANCELED ==> AllAccounted(reqs, Minus(outstanding, id), calls, cancelled)
  {
    hide Called, Minus, Unique;
    forall x | x in reqs
      ensures Accounted(reqs[x], Minus(outstanding, id), calls, cancelled + {id}, x)
      ensures Accounted(reqs[x], Minus(outstanding, id), calls + [Call(id, ret)], cancelled, x)
      ensures reqs[id].ret == -ECANCELED ==> Accounted(reqs[x], Minus(outstanding, id), calls, cancelled, x)
    {
      assert Accounted(reqs[x], outstanding, calls, cancelled, x);
      MinusMembers(outstanding, id, x);
      CalledMore(calls, Call(id, ret), x);
    }
  }

  /** An outstanding request may change, or a new one come. */
  lemma AccountedFrame(reqs: map<Id, Req>, outstanding: seq<Id>, calls: seq<Call>, cancelled: set<Id>, id: Id,
                       r: Req, outstanding': seq<Id>)
    requires AllAccounted(reqs, outstanding, calls, cancelled) && id in outstanding' && forall x :: x in outstanding ==>
               x in outstanding'
    ensures AllAccounted(reqs[id := r], outstanding', calls, cancelled)
  {
    hide Called;
    var reqs' := reqs[id := r];
    forall x | x in reqs' ensures Accounted(reqs'[x], outstanding', calls, cancelled, x) {
      if x != id { assert Accounted(reqs[x], outstanding, calls, cancelled, x); }
    }
  }

  // ------------------------------------------------------------ the steps

  lemma SubmitKeeps(s: State, id: Id, context: nat, bytes: int, tid: Tid)
    requires Inv(s) && Enabled(s, Submit(id, context, bytes, tid))
    ensures Inv(ApplySubmit(s, id, context, bytes, tid))
  {
    var s' := ApplySubmit(s, id, context, bytes, tid);
    var r := Req(context, bytes, -EINPROGRESS, false);
    hide CallsTrue, AllAccounted, Idlers;
    CallsFrame(s.reqs, s.outstanding, s.calls, s.cancelled, id, r);
    AccountedFrame(s.reqs, s.outstanding, s.calls, s.cancelled, id, r, s'.outstanding);
    SubmitQueue(s.reqs, s.queue, s.outstanding, id, r);
    hide QueueOk;
    CountNew(s.workers, tid);
    IdlersBound(s'.workers);
    forall x ensures Served(s'.reqs, s'.outstanding, x) <==> Served(s.reqs, s.outstanding, x) {}
    hide CountOk, LogOk;
    BusyFrame(s.reqs, s.outstanding, s.workers, s'.reqs, s'.outstanding, s'.workers);
  }

  lemma SubmitQueue(reqs: map<Id, Req>, queue: seq<Id>, outstanding: seq<Id>, id: Id, r: Req)
    requires QueueOk(reqs, queue, outstanding) && id !in reqs && !r.active && r.ret == -EINPROGRESS
    ensures QueueOk(reqs[id := r], queue + [id], [id] + outstanding)
  {
  }

  lemma TakeQueue(reqs: map<Id, Req>, queue: seq<Id>, outstanding: seq<Id>)
    requires QueueOk(reqs, queue, outstanding) && queue != []
    ensures queue[0] in reqs && queue[0] in outstanding && reqs[queue[0]].ret == -EINPROGRESS && !reqs[queue[0]].active
    ensures QueueOk(reqs[queue[0] := reqs[queue[0]].(active := true)], queue[1..], outstanding)
  {
    var id := queue[0];
    assert queue == [id] + queue[1..];
    assert id in queue;
    forall x ensures x in queue[1..] <==> x in queue && x != id {
      if x in queue && x != id {
        var i :| 0 <= i < |queue| && queue[i] == x;
        assert queue[1..][i - 1] == x;
      }
    }
  }

  lemma TakeBusy(reqs: map<Id, Req>, outstanding: seq<Id>, workers: map<Tid, Worker>, t: Tid, id: Id)
    requires BusyOk(reqs, outstanding, workers) && id in outstanding && id in reqs && !reqs[id].active
             && reqs[id].ret == -EINPROGRESS
    requires t in workers && !workers[t].Busy?
    ensures BusyOk(reqs[id := reqs[id].(active := true)], outstanding, workers[t := Busy(id)])
  {
    var reqs', workers' := reqs[id := reqs[id].(active := true)], workers[t := Busy(id)];
    forall u, x ensures Serves(workers', u, x) <==> Serves(workers, u, x) || (u == t && x == id) {}
    forall x ensures Served(reqs', outstanding, x) <==> Served(reqs, outstanding, x) || x == id {}
    assert !Served(reqs, outstanding, id);
    hide Serves, Served;
    forall x | Served(reqs', outstanding, x) ensures exists u :: Serves(workers', u, x) {
      if x == id {
        assert Serves(workers', t, id);
      } else {
        var u :| Serves(workers, u, x);
        assert Serves(workers', u, x);
      }
    }
  }

  lemma CheckKeeps(s: State, t: Tid)
    requires Inv(s) && Enabled(s, Check(t))
    ensures Inv(ApplyCheck(s, t))
  {
    var s' := ApplyCheck(s, t);
    hide Idlers, CallsTrue, AllAccounted, BusyOk;
    IdlersBound(s'.workers);
    if s.queue != [] {
      TakeQueue(s.reqs, s.queue, s.outstanding);
      var id := s.queue[0];
      CountSet(s.workers, t, Busy(id));
      TakeBusy(s.reqs, s.outstanding, s.workers, t, id);
      CallsFrame(s.reqs, s.outstanding, s.calls, s.cancelled, id, s.reqs[id].(active := true));
      AccountedFrame(s.reqs, s.outstanding, s.calls, s.cancelled, id, s.reqs[id].(active := true), s.outstanding);
    } else if s.workers[t].timedOut {
      CountGone(s.workers, t);
      BusyFrame(s.reqs, s.outstanding, s.workers, s'.reqs, s'.outstanding, s'.workers);
    } else {
      CountSet(s.workers, t, Sleeping);
      BusyFrame(s.reqs, s.outstanding, s.workers, s'.reqs, s'.outstanding, s'.workers);
    }
  }

  lemma WakeKeeps(s: State, t: Tid, late: bool)
    requires Inv(s) && Enabled(s, Wake(t, late))
    ensures Inv(Apply(s, Wake(t, late)))
  {
    var s' := Apply(s, Wake(t, late));
    hide Idlers, CallsTrue, AllAccounted, BusyOk, QueueOk, LogOk;
    CountSet(s.workers, t, Polling(late));
    BusyFrame(s.reqs, s.outstanding, s.workers, s'.reqs, s'.outstanding, s'.workers);
  }

  lemma FinishBusy(reqs: map<Id, Req>, outstanding: seq<Id>, workers: map<Tid, Worker>, t: Tid, id: Id, ret: int)
    requires BusyOk(reqs, outstanding, workers) && Serves(workers, t, id) && id in reqs && ret != -EINPROGRESS
    ensures Served(reqs, outstanding, id)
    ensures BusyOk(reqs[id := reqs[id].(ret := ret)], outstanding, workers[t := Polling(false)])
  {
    var reqs', workers' := reqs[id := reqs[id].(ret := ret)], workers[t := Polling(false)];
    forall u, x ensures Serves(workers', u, x) <==> Serves(workers, u, x) && x != id {
      if Serves(workers, u, x) && x == id { assert u == t; }
    }
    forall x ensures Served(reqs', outstanding, x) <==> Served(reqs, outstanding, x) && x != id {}
    hide Serves, Served;
    forall x | Served(reqs', outstanding, x) ensures exists u :: Serves(workers', u, x) {
      var u :| Serves(workers, u, x);
      assert Serves(workers', u, x);
    }
  }

  lemma FinishKeeps(s: State, t: Tid, ret: int)
    requires Inv(s) && Enabled(s, Finish(t, ret))
    ensures Inv(ApplyFinish(s, t, ret))
  {
    var s', id := ApplyFinish(s, t, ret), s.workers[t].id;
    hide Idlers, CallsTrue, AllAccounted, BusyOk;
    assert Serves(s.workers, t, id);
    FinishBusy(s.reqs, s.outstanding, s.workers, t, id, ret);
    CountSet(s.workers, t, Polling(false));
    IdlersBound(s'.workers);
    CallsFrame(s.reqs, s.outstanding, s.calls, s.cancelled, id, s.reqs[id].(ret := ret));
    AccountedFrame(s.reqs, s.outstanding, s.calls, s.cancelled, id, s.reqs[id].(ret := ret), s.outstanding);
  }

  /** Taking a finished request off the list. */
  lemma ForgetKeeps(s: State, id: Id)
    requires Inv(s) && id in s.outstanding && id in s.reqs && s.reqs[id].active && s.reqs[id].ret != -EINPROGRESS
    ensures Inv(Forget(s, id))
  {
    Leave(s.reqs, s.queue, s.outstanding, s.workers, id);
    LogLeaves(s.reqs, s.outstanding, s.calls, s.cancelled, id, s.reqs);
    StillAccounted(s.reqs, s.outstanding, s.calls, s.cancelled, id, 0);
  }

  lemma CancelKeeps(s: State, id: Id)
    requires Inv(s) && Enabled(s, Cancel(id))
    ensures Inv(ApplyCancel(s, id))
  {
    hide CallsTrue, AllAccounted, BusyOk, CountOk, Minus;
    if !s.reqs[id].active {
      CancelQueued(s, id);
    } else if s.reqs[id].ret != -EINPROGRESS {
      ForgetKeeps(s, id);
    }
  }

  lemma CancelQueued(s: State, id: Id)
    requires Inv(s) && Enabled(s, Cancel(id)) && !s.reqs[id].active
    ensures Inv(ApplyCancel(s, id))
  {
    var r := s.reqs[id].(ret := -ECANCELED);
    hide CallsTrue, AllAccounted, BusyOk, Minus;
    TakeBack(s.reqs, s.queue, s.outstanding, s.workers, id, -ECANCELED);
    LogLeaves(s.reqs, s.outstanding, s.calls, s.cancelled, id, s.reqs[id := r]);
    CallsFrame(s.reqs, s.outstanding, s.calls, s.cancelled, id, r);
    AccountedFrame(s.reqs, s.outstanding, s.calls, s.cancelled, id, r, s.outstanding);
    StillAccounted(s.reqs[id := r], s.outstanding, s.calls, s.cancelled, id, 0);
    MinusEmpty(s.queue, id);
  }

  lemma MinusEmpty(s: seq<Id>, x: Id)
    ensures s == [] ==> Minus(s, x) == []
  {
  }

  lemma ProcessKeeps(s: State, context: nat, id: Id)
    requires Inv(s) && Enabled(s, Process(context, id))
    ensures Inv(ApplyProcess(s, context, id))
  {
    var r := s.reqs[id];
    hide CountOk, BusyOk, Minus, AllAccounted;
    if r.context == context && r.ret != -EINPROGRESS {
      Leave(s.reqs, s.queue, s.outstanding, s.workers, id);
      LogLeaves(s.reqs, s.outstanding, s.calls, s.cancelled, id, s.reqs);
      StillAccounted(s.reqs, s.outstanding, s.calls, s.cancelled, id, Outcome(r.ret, r.bytes));
    }
  }

  /** Every step keeps the invariant. */
  lemma StepKeeps(s: State, x: Step)
    requires Inv(s) && Enabled(s, x)
    ensures Inv(Apply(s, x))
  {
    hide Inv, ApplySubmit, ApplyCheck, ApplyFinish, ApplyCancel, ApplyProcess;
    match x
    case Submit(id, context, bytes, tid) => SubmitKeeps(s, id, context, bytes, tid);
    case Check(t) => CheckKeeps(s, t);
    case Wake(t, late) => WakeKeeps(s, t, late);
    case Finish(t, ret) => FinishKeeps(s, t, ret);
    case Cancel(id) => CancelKeeps(s, id);
    case Spin => SpinKeeps(s);
    case Process(context, id) => ProcessKeeps(s, context, id);
  }

  lemma SpinKeeps(s: State)
    requires Inv(s) && Enabled(s, Spin)
    ensures Inv(ApplySpin(s))
  {
    if s.reqs[s.main.id].ret != -EINPROGRESS { ForgetKeeps(s, s.main.id); }
  }

  // ------------------------------------------------------------ the list of outstanding requests

  /** PosixAioState: request 0 stands for the null pointer. */
  class Outstanding {
    var first: Id
    var next: map<Id, Id>
    ghost var list: seq<Id>

    ghost predicate Valid()
      reads this
    {
      IsChain(next, 0, first, list)
    }

    constructor ()
      ensures Valid() && list == []
    {
      first, next, list := 0, map[], [];
    }

    /** The insertion of paio_submit. */
    method Add(id: Id)
      requires Valid() && id != 0 && id !in list
      modifies this
      ensures Valid() && list == [id] + old(list)
    {
      InsertAt(next, 0, first, list, 0, id);
      assert list[..0] + [id] + list[0..] == [id] + list;
      next := next[id := first];
      first := id;
      list := [id] + list;
    }

    /** paio_remove. */
    method Remove(id: Id) returns (found: bool)
      requires Valid()
      modifies this
      ensures Valid() && found == (id in old(list)) && list == Minus(old(list), id)
    {
      ghost var k := 0;
      var prev, at := 0, first;
      while at != 0 && at != id
        invariant k <= |list| && at == At(list, 0, k) && prev == (if k == 0 then 0 else list[k - 1])
        invariant id !in list[..k]
        decreases |list| - k
      {
        assert list[..k + 1] == list[..k] + [at];
        prev, at := at, next[at];
        k := k + 1;
      }
      if at == 0 {
        assert list[..k] == list;
        return false;
      }
      RemoveAt(next, 0, first, list, k);
      IndexOfUnique(list, k);
      if prev == 0 { first := next[id]; } else { next := next[prev := next[id]]; }
      list := Without(list, k);
      return true;
    }

    /** The inner walk of posix_aio_process_queue: it takes the cancelled requests of this
        context off the list up to the first that is done, and that one too. */
    method FindDone(context: nat, reqs: map<Id, Req>) returns (id: Id, ghost k: nat)
      requires Valid() && forall x :: x in list ==> x in reqs
      modifies this
      ensures Valid() && k <= |old(list)| && id == At(old(list), 0, k)
      ensures NoneDone(reqs, context, old(list)[..k])
      ensures k < |old(list)| ==> Done(reqs, context, old(list)[k])
      ensures list == Uncancelled(reqs, context, old(list)[..k]) + if k < |old(list)| then old(list)[k + 1..] else []
    {
      hide IsChain, Done, NoneDone, Cancelled, Without, Uncancelled, Walked;
      ghost var s, kept: seq<Id> := list, [];
      NoneYet(reqs, context, s);
      var prev := 0;
      id, k := first, 0;
      WalkedFirst(next, first, list);
      while id != 0 && !Done(reqs, context, id)
        invariant k <= |s| && Valid() && Walked(list, prev, id, kept, s, k)
                  && kept == Uncancelled(reqs, context, s[..k])
        invariant NoneDone(reqs, context, s[..k])
        decreases |s| - k
      {
        WalkedAt(list, prev, id, kept, s, k);
        UncancelledMore(reqs, context, s, k);
        if Cancelled(reqs, context, id) {
          id := Drop(prev, id, kept, s, k);
        } else {
          prev, id, kept := Pass(prev, id, kept, s, k);
        }
        k := k + 1;
      }
      WalkedAt(list, prev, id, kept, s, k);
      if id != 0 {
        var after := Drop(prev, id, kept, s, k);
        WalkedList(list, prev, after, kept, s, k + 1);
      }
    }

    /** The request the walk is at leaves the list. */
    method Drop(prev: Id, id: Id, ghost kept: seq<Id>, ghost s: seq<Id>, ghost k: nat) returns (after: Id)
      requires Valid() && Walked(list, prev, id, kept, s, k) && id != 0
      modifies this
      ensures Valid() && Walked(list, prev, after, kept, s, k + 1)
    {
      hide IsChain, Without;
      WalkedAt(list, prev, id, kept, s, k);
      Ahead(next, first, list, kept, s, k);
      Middle(kept, s, k);
      after := Unlink(prev, |kept|);
    }

    /** The walk goes past it. */
    method Pass(prev: Id, id: Id, ghost kept: seq<Id>, ghost s: seq<Id>, ghost k: nat)
                returns (prev': Id, id': Id, ghost kept': seq<Id>)
      requires Valid() && Walked(list, prev, id, kept, s, k) && id != 0
      ensures Walked(list, prev', id', kept', s, k + 1) && kept' == kept + [id]
    {
      hide IsChain;
      WalkedAt(list, prev, id, kept, s, k);
      Ahead(next, first, list, kept, s, k);
      Middle(kept, s, k);
      prev', id', kept' := id, next[id], kept + [id];
    }

    /** *pacb = acb->next, for the k-th request of the list. */
    method Unlink(prev: Id, ghost k: nat) returns (after: Id)
      requires Valid() && k < |list| && prev == if k == 0 then 0 else list[k - 1]
      modifies this
      ensures Valid() && list == Without(old(list), k) && after == At(old(list), 0, k + 1)
    {
      RemoveAt(next, 0, first, list, k);
      AtNext(next, first, list, k);
      var id := if prev == 0 then first else next[prev];
      after := next[id];
      if prev == 0 { first := after; } else { next := next[prev := after]; }
      list := Without(list, k);
    }
  }

  predicate Cancelled(reqs: map<Id, Req>, context: nat, id: Id) {
    id in reqs && reqs[id].context == context && reqs[id].ret == -ECANCELED
  }

  /** Finished, and not by a cancellation. */
  predicate Done(reqs: map<Id, Req>, context: nat, id: Id) {
    id in reqs && reqs[id].context == context && reqs[id].ret != -EINPROGRESS && reqs[id].ret != -ECANCELED
  }

  ghost predicate NoneDone(reqs: map<Id, Req>, context: nat, s: seq<Id>) {
    forall i :: 0 <= i < |s| ==> !Done(reqs, context, s[i])
  }

  ghost function Uncancelled(reqs: map<Id, Req>, context: nat, s: seq<Id>): seq<Id> {
    if s == [] then []
    else
      var n := |s| - 1;
      Uncancelled(reqs, context, s[..n]) + if Cancelled(reqs, context, s[n]) then [] else [s[n]]
  }

  lemma NoneYet(reqs: map<Id, Req>, context: nat, s: seq<Id>)
    ensures Uncancelled(reqs, context, s[..0]) == [] && NoneDone(reqs, context, s[..0])
  {
  }

  lemma UncancelledMore(reqs: map<Id, Req>, context: nat, s: seq<Id>, k: nat)
    requires k < |s|
    ensures Uncancelled(reqs, context, s[..k + 1]) ==
            Uncancelled(reqs, context, s[..k]) + if Cancelled(reqs, context, s[k]) then [] else [s[k]]
    ensures NoneDone(reqs, context, s[..k]) && !Done(reqs, context, s[k]) ==> NoneDone(reqs, context, s[..k + 1])
  {
    assert s[..k + 1][..k] == s[..k];
  }

  /** The walk is at the k-th request of s, and the list is what was kept and the rest. */
  ghost predicate Walked(list: seq<Id>, prev: Id, id: Id, kept: seq<Id>, s: seq<Id>, k: nat) {
    && k <= |s| && list == kept + s[k..] && prev == (if kept == [] then 0 else kept[|kept| - 1])
    && id == At(s, 0, k) && forall x :: x in s ==> x != 0
  }

  lemma WalkedAt(list: seq<Id>, prev: Id, id: Id, kept: seq<Id>, s: seq<Id>, k: nat)
    requires Walked(list, prev, id, kept, s, k)
    ensures id == 0 ==> k == |s| && list == kept + []
    ensures id != 0 ==>
              k < |s| && id == s[k] && list == kept + s[k..] && prev == if kept == [] then 0 else kept[|kept| - 1]
    ensures forall x :: x in s ==> x != 0
  {
    if k < |s| { assert s[k] in s; }
  }

  lemma WalkedFirst(next: map<Id, Id>, first: Id, list: seq<Id>)
    requires IsChain(next, 0, first, list)
    ensures Walked(list, 0, first, [], list, 0)
  {
  }

  lemma WalkedList(list: seq<Id>, prev: Id, id: Id, kept: seq<Id>, s: seq<Id>, k: nat)
    requires Walked(list, prev, id, kept, s, k)
    ensures k <= |s| && list == kept + s[k..]
  {
  }

  /** What the next pointer of the request behind the kept ones leads to. */
  lemma Ahead(next: map<Id, Id>, first: Id, list: seq<Id>, kept: seq<Id>, s: seq<Id>, k: nat)
    requires IsChain(next, 0, first, list) && k <= |s| && list == kept + s[k..]
    ensures k < |s| ==> s[k] in next && next[s[k]] == At(s, 0, k + 1) == At(list, 0, |kept| + 1)
    ensures kept == [] ==> first == At(s, 0, k)
    ensures forall x :: x in list ==> x != 0
  {
    if k < |s| { assert list[|kept|] == s[k]; }
  }

  lemma AtNext(next: map<Id, Id>, first: Id, list: seq<Id>, k: nat)
    requires IsChain(next, 0, first, list) && k < |list|
    ensures list[k] in next && next[list[k]] == At(list, 0, k + 1) && list[k] != 0
    ensures k == 0 ==> first == list[0]
    ensures k > 0 ==> list[k - 1] in next && next[list[k - 1]] == list[k] && list[k - 1] != 0
  {
  }
}
