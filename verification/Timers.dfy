/** Timer lists (qemu-timer.c): timers on a singly linked list sorted by deadline. */
module Timers {
  import opened Machine
  import opened Chains
  import Sets

  /** Sorted by deadline. Of two timers with the same one, the one armed later stands
      behind the other if and only if the deadline it was armed with is not negative. */
  ghost predicate InOrder(list: seq<Ptr>, expire: map<Ptr, int>, asked: map<Ptr, int>, stamp: map<Ptr, nat>) {
    forall i, j :: 0 <= i < j < |list| ==> Ordered(list[i], list[j], expire, asked, stamp)
  }

  ghost predicate Ordered(t: Ptr, u: Ptr, expire: map<Ptr, int>, asked: map<Ptr, int>, stamp: map<Ptr, nat>) {
    && t in expire && u in expire && t in asked && u in asked && t in stamp && u in stamp && expire[t] <= expire[u]
    && (expire[t] == expire[u] ==>
          stamp[t] != stamp[u] && (stamp[t] < stamp[u] <==> LaterAsked(t, u, asked, stamp) >= 0))
  }

  /** The deadline that the one armed later asked for. */
  ghost function LaterAsked(t: Ptr, u: Ptr, asked: map<Ptr, int>, stamp: map<Ptr, nat>): int
    requires t in asked && u in asked && t in stamp && u in stamp
  {
    if stamp[t] < stamp[u] then asked[u] else asked[t]
  }

  /** Every armed timer, and no other, has a deadline that is not negative. */
  ghost predicate Marked(list: seq<Ptr>, expire: map<Ptr, int>) {
    && NULL !in expire && (forall t :: t in list ==> t in expire)
    && (forall t :: t in expire ==> (t in list <==> expire[t] >= 0) && expire[t] >= -1)
  }

  /** A pending deadline is the one asked for, or 0 for a negative one. */
  ghost predicate Stamped(expire: map<Ptr, int>, asked: map<Ptr, int>, stamp: map<Ptr, nat>, clock: nat) {
    forall t :: t in expire ==>
      t in asked && t in stamp && stamp[t] < clock && (expire[t] == -1 || expire[t] == Max(asked[t], 0))
  }

  /** The timers that are due. */
  ghost function Due(list: seq<Ptr>, expire: map<Ptr, int>, now: int): set<Ptr> {
    set t | t in list && t in expire && expire[t] <= now
  }

  function Max(a: int, b: int): int { if a > b then a else b }

  /** When arming order holds, for all lists: t, armed before u, stands ahead of u if and only
      if its deadline is earlier, or the same and u did not ask for a negative one. */
  lemma ArmingOrder(list: seq<Ptr>, expire: map<Ptr, int>, asked: map<Ptr, int>, stamp: map<Ptr, nat>, clock: nat,
                    i: nat, j: nat)
    requires InOrder(list, expire, asked, stamp) && Marked(list, expire) && Stamped(expire, asked, stamp, clock)
    requires i < |list| && j < |list| && list[i] in expire && list[j] in expire
    requires stamp[list[i]] < stamp[list[j]]
    ensures i < j <==>
            expire[list[i]] < expire[list[j]] || (expire[list[i]] == expire[list[j]] && asked[list[j]] >= 0)
    ensures expire[list[i]] == expire[list[j]] && j < i ==> expire[list[j]] == 0
  {
    if i < j { assert Ordered(list[i], list[j], expire, asked, stamp); }
    if j < i { assert Ordered(list[j], list[i], expire, asked, stamp); }
    assert list[j] in list;
  }

  /** A timer armed with a negative deadline goes to the front, whatever is pending. */
  lemma NegativeFirst(list: seq<Ptr>, expire: map<Ptr, int>, e: int, k: nat)
    requires Marked(list, expire) && e < 0
    ensures Place(list, expire, e, k) <==> k == 0
  {
    forall i | 0 <= i < |list| ensures list[i] in expire && expire[list[i]] >= 0 { assert list[i] in list; }
    if list != [] { assert list[0] in expire; }
  }

  lemma DropOrder(list: seq<Ptr>, expire: map<Ptr, int>, asked: map<Ptr, int>, stamp: map<Ptr, nat>, k: nat)
    requires InOrder(list, expire, asked, stamp) && k < |list| && Unique(list)
    ensures InOrder(Without(list, k), expire[list[k] := -1], asked, stamp)
  {
    var w := Without(list, k);
    forall i, j | 0 <= i < j < |w| ensures Ordered(w[i], w[j], expire[list[k] := -1], asked, stamp) {
      var i', j' := if i < k then i else i + 1, if j < k then j else j + 1;
      assert w[i] == list[i'] && w[j] == list[j'] && list[i'] != list[k] && list[j'] != list[k];
      assert Ordered(list[i'], list[j'], expire, asked, stamp);
    }
  }

  lemma DropMarked(list: seq<Ptr>, expire: map<Ptr, int>, k: nat)
    requires Marked(list, expire) && k < |list| && Unique(list)
    ensures Marked(Without(list, k), expire[list[k] := -1])
  {
    hide Without, Unique;
    forall t ensures t in Without(list, k) <==> t in list && t != list[k] { WithoutMembers(list, k, t); }
  }

  /** The place timer_mod_ns_locked finds: behind everything not later than e. */
  ghost predicate Place(list: seq<Ptr>, expire: map<Ptr, int>, e: int, k: nat) {
    && k <= |list| && (forall i :: 0 <= i < |list| ==> list[i] in expire)
    && (forall i :: 0 <= i < k ==> expire[list[i]] <= e) && (k < |list| ==> expire[list[k]] > e)
  }

  ghost function Put(list: seq<Ptr>, k: nat, t: Ptr): seq<Ptr>
    requires k <= |list|
  {
    list[..k] + [t] + list[k..]
  }

  lemma PutOrder(list: seq<Ptr>, expire: map<Ptr, int>, asked: map<Ptr, int>, stamp: map<Ptr, nat>, clock: nat,
                 t: Ptr, e: int, k: nat)
    requires InOrder(list, expire, asked, stamp) && Marked(list, expire) && Stamped(expire, asked, stamp, clock)
             && t in expire && t !in list && Place(list, expire, e, k)
    ensures InOrder(Put(list, k, t), expire[t := Max(e, 0)], asked[t := e], stamp[t := clock])
  {
    hide Ordered, Marked, Stamped, Place;
    PlaceIn(list, expire, e, k);
    var w, expire', asked', stamp' := Put(list, k, t), expire[t := Max(e, 0)], asked[t := e], stamp[t := clock];
    forall i, j | 0 <= i < j < |w| ensures Ordered(w[i], w[j], expire', asked', stamp') {
      if i != k && j != k {
        var i', j' := if i < k then i else i - 1, if j < k then j else j - 1;
        assert w[i] == list[i'] && w[j] == list[j'];
        OrderedStay(list, expire, asked, stamp, clock, t, e, i', j');
      } else if i == k {
        assert w[j] == list[j - 1];
        LaterAll(list, expire, asked, stamp, e, k, j - 1);
        OrderedBefore(list, expire, asked, stamp, clock, t, e, j - 1);
      } else {
        assert w[i] == list[i];
        OrderedBehind(list, expire, asked, stamp, clock, t, e, k, i);
      }
    }
  }

  /** Two timers of the list do not notice the new one, */
  lemma OrderedStay(list: seq<Ptr>, expire: map<Ptr, int>, asked: map<Ptr, int>, stamp: map<Ptr, nat>, clock: nat,
                    t: Ptr, e: int, i: nat, j: nat)
    requires InOrder(list, expire, asked, stamp) && t !in list && i < j < |list|
    ensures Ordered(list[i], list[j], expire[t := Max(e, 0)], asked[t := e], stamp[t := clock])
  {
    assert Ordered(list[i], list[j], expire, asked, stamp);
    assert list[i] in list && list[j] in list;
  }

  /** it goes before those that are later than asked for, */
  lemma OrderedBefore(list: seq<Ptr>, expire: map<Ptr, int>, asked: map<Ptr, int>, stamp: map<Ptr, nat>, clock: nat,
                      t: Ptr, e: int, j: nat)
    requires Marked(list, expire) && Stamped(expire, asked, stamp, clock) && t !in list && j < |list|
    requires list[j] in expire && expire[list[j]] > e
    ensures Ordered(t, list[j], expire[t := Max(e, 0)], asked[t := e], stamp[t := clock])
  {
    assert list[j] in list;
  }

  /** and behind those that are not. */
  lemma OrderedBehind(list: seq<Ptr>, expire: map<Ptr, int>, asked: map<Ptr, int>, stamp: map<Ptr, nat>, clock: nat,
                      t: Ptr, e: int, k: nat, i: nat)
    requires Marked(list, expire) && Stamped(expire, asked, stamp, clock) && t !in list
    requires Place(list, expire, e, k) && i < k
    ensures Ordered(list[i], t, expire[t := Max(e, 0)], asked[t := e], stamp[t := clock])
  {
    assert list[i] in list;
  }

  lemma LaterAll(list: seq<Ptr>, expire: map<Ptr, int>, asked: map<Ptr, int>, stamp: map<Ptr, nat>, e: int, k: nat,
                 j: nat)
    requires InOrder(list, expire, asked, stamp) && Place(list, expire, e, k) && k <= j < |list|
    ensures list[j] in expire && expire[list[j]] > e
  {
    if k < j { assert Ordered(list[k], list[j], expire, asked, stamp); }
  }

  lemma PutMarked(list: seq<Ptr>, expire: map<Ptr, int>, t: Ptr, e: int, k: nat)
    requires Marked(list, expire) && t in expire && t !in list && k <= |list|
    ensures Marked(Put(list, k, t), expire[t := Max(e, 0)])
  {
    assert list == list[..k] + list[k..];
  }

  class TimerList {
    var head: Ptr
    var next: map<Ptr, Ptr>
    /** expire_time of every timer of this list, armed or not. */
    var expire: map<Ptr, int>
    var enabled: bool

    ghost var list: seq<Ptr>
    /** The deadline last asked for, and a counter of armings. */
    ghost var asked: map<Ptr, int>
    ghost var stamp: map<Ptr, nat>
    ghost var clock: nat

    ghost predicate Valid()
      reads this
    {
      && IsChain(next, NULL, head, list) && Marked(list, expire)
      && InOrder(list, expire, asked, stamp) && Stamped(expire, asked, stamp, clock)
    }

    ghost function Orders(): Book
      reads this
    {
      Book(expire, asked, stamp)
    }

    constructor (enabled: bool)
      ensures Valid() && list == [] && expire == map[] && this.enabled == enabled
    {
      head, next, expire, list, asked, stamp, clock := NULL, map[], map[], [], map[], map[], 0;
      this.enabled := enabled;
    }

    /** timer_init. */
    method Init(t: Ptr)
      requires Valid() && t !in expire && t != NULL
      modifies this
      ensures Valid() && list == old(list) && expire == old(expire)[t := -1] && enabled == old(enabled)
    {
      hide IsChain;
      NewTimer(list, expire, asked, stamp, clock, t);
      asked, stamp, clock := asked[t := -1], stamp[t := clock], clock + 1;
      expire := expire[t := -1];
      hide InOrder, Marked, Stamped;
    }

    /** The walk of timer_del_locked: the link that leads to t, if one does. */
    method Find(t: Ptr) returns (prev: Ptr, found: bool, ghost k: nat)
      requires IsChain(next, NULL, head, list) && t != NULL
      ensures found == (t in list)
      ensures found ==>
                k < |list| && list[k] == t && prev == (if k == 0 then NULL else list[k - 1]) && (k > 0 ==> prev != NULL)
    {
      hide IsChain;
      var at := head;
      prev, k := NULL, 0;
      ChainStart(next, NULL, head, list);
      while at != NULL && at != t
        invariant k <= |list| && at == At(list, NULL, k) && prev == (if k == 0 then NULL else list[k - 1])
                  && t !in list[..k]
        decreases |list| - k
      {
        ChainAt(next, NULL, head, list, k);
        assert list[..k + 1] == list[..k] + [at];
        prev, at := at, next[at];
        k := k + 1;
      }
      if k > 0 { ChainAt(next, NULL, head, list, k - 1); }
      if k < |list| { ChainAt(next, NULL, head, list, k); }
      found := at == t;
      if !found { assert list[..k] == list; }
    }

    /** *pt = v. */
    method Link(prev: Ptr, v: Ptr)
      modifies this`head, this`next
      ensures head == if prev == NULL then v else old(head)
      ensures next == if prev == NULL then old(next) else old(next)[prev := v]
    {
      if prev == NULL { head := v; } else { next := next[prev := v]; }
    }

    /** timer_del_locked. */
    method Del(t: Ptr)
      requires Valid() && t in expire
      modifies this`head, this`next, this`expire, this`list
      ensures Valid() && list == Minus(old(list), t) && expire == old(expire)[t := -1]
    {
      hide IsChain, InOrder, Marked, Stamped, Without, Minus;
      TimerFacts(list, expire, t);
      var prev, found;
      ghost var k;
      prev, found, k := Find(t);
      expire := expire[t := -1];
      if found {
        Dropped(next, head, list, old(expire), asked, stamp, clock, k);
        Link(prev, next[t]);
        list := Without(list, k);
      } else {
        MinusNone(list, t);
        assert expire == old(expire);
      }
    }

    /** The walk of timer_mod_ns_locked. */
    method FindPlace(e: int) returns (prev: Ptr, at: Ptr, ghost k: nat)
      requires IsChain(next, NULL, head, list) && forall i :: 0 <= i < |list| ==> list[i] in expire
      ensures Place(list, expire, e, k) && at == At(list, NULL, k) && prev == (if k == 0 then NULL else list[k - 1])
              && (k > 0 ==> prev != NULL)
    {
      hide IsChain;
      ChainStart(next, NULL, head, list);
      prev, at, k := NULL, head, 0;
      while at != NULL && expire[at] <= e
        invariant k <= |list| && at == At(list, NULL, k) && prev == (if k == 0 then NULL else list[k - 1])
        invariant forall i :: 0 <= i < k ==> expire[list[i]] <= e
        decreases |list| - k
      {
        ChainAt(next, NULL, head, list, k);
        prev, at := at, next[at];
        k := k + 1;
      }
      if k > 0 { ChainAt(next, NULL, head, list, k - 1); }
      if k < |list| { ChainAt(next, NULL, head, list, k); }
    }

    /** timer_mod_ns_locked, for a timer that is not armed. */
    method Insert(t: Ptr, e: int) returns (first: bool, ghost k: nat)
      requires Valid() && t in expire && t !in list
      modifies this`head, this`next, this`expire, this`list, this`asked, this`stamp, this`clock
      ensures Valid() && Place(old(list), old(expire), e, k) && list == Put(old(list), k, t) && first == (k == 0)
      ensures expire == old(expire)[t := Max(e, 0)] && asked == old(asked)[t := e]
              && stamp == old(stamp)[t := old(clock)] && clock == old(clock) + 1
    {
      hide IsChain, InOrder, Marked, Stamped, Place, Put;
      TimerFacts(list, expire, t);
      var prev, at;
      prev, at, k := FindPlace(e);
      PlaceIn(list, expire, e, k);
      Inserted(next, head, list, expire, asked, stamp, clock, t, e, k);
      expire := expire[t := Max(e, 0)];
      next := next[t := at];
      Link(prev, t);
      list := Put(list, k, t);
      asked, stamp, clock := asked[t := e], stamp[t := clock], clock + 1;
      first := prev == NULL;
    }

    /** timer_mod_ns; the result says whether the next deadline changed to this one. */
    method Mod(t: Ptr, e: int) returns (rearm: bool, ghost k: nat)
      requires Valid() && t in expire
      modifies this`head, this`next, this`expire, this`list, this`asked, this`stamp, this`clock
      ensures Valid() && expire == old(expire)[t := Max(e, 0)] && rearm == (k == 0)
      ensures Place(Minus(old(list), t), old(expire)[t := -1], e, k) && list == Put(Minus(old(list), t), k, t)
      ensures asked == old(asked)[t := e] && stamp == old(stamp)[t := old(clock)]
    {
      hide IsChain, InOrder, Stamped, Place, Put, Minus;
      Del(t);
      TimerGone(list, expire, t);
      rearm, k := Insert(t, e);
    }

    /** timer_mod_anticipate_ns. */
    method ModAnticipate(t: Ptr, e: int) returns (rearm: bool, ghost k: nat)
      requires Valid() && t in expire
      modifies this`head, this`next, this`expire, this`list, this`asked, this`stamp, this`clock
      ensures Valid() && (forall x :: x in expire && x != t ==> x in old(expire) && expire[x] == old(expire)[x])
              && t in expire
      ensures old(expire)[t] == -1 ==> expire[t] == Max(e, 0)
      ensures old(expire)[t] != -1 ==> expire[t] == (if Max(e, 0) < old(expire)[t] then Max(e, 0) else old(expire)[t])
      ensures if -1 != old(expire)[t] <= e then !rearm && list == old(list) && Orders() == old(Orders())
              else
                && Place(Minus(old(list), t), old(expire)[t := -1], e, k) && list == Put(Minus(old(list), t), k, t)
                && rearm == (k == 0) && expire == old(expire)[t := Max(e, 0)]
                && asked == old(asked)[t := e] && stamp == old(stamp)[t := old(clock)]
    {
      hide IsChain, InOrder, Stamped, Place, Put, Minus;
      rearm, k := false, 0;
      TimerFacts(list, expire, t);
      assert expire[t] >= -1;
      if expire[t] == -1 || expire[t] > e {
        if expire[t] != -1 {
          Del(t);
          TimerGone(list, expire, t);
        } else {
          TimerGone(list, expire, t);
          NotListed(list, t);
          assert expire[t := -1] == expire;
        }
        rearm, k := Insert(t, e);
      }
    }

    /** timerlist_deadline_ns: the time to the earliest of all pending deadlines. */
    method Deadline(now: int) returns (delta: int)
      requires Valid()
      ensures delta == -1 <==> !enabled || list == []
      ensures enabled && list != [] ==>
                exists t :: t in list && IsMin(list, expire, t) && delta == Max(expire[t] - now, 0)
    {
      if !enabled || head == NULL {
        return -1;
      }
      HeadMin(list, expire, asked, stamp);
      delta := expire[head] - now;
      if delta <= 0 { delta := 0; }
    }

    /** What a callback does to the list. */
    method Callback(ops: seq<Op>, ghost now: int)
      requires Valid() && Known(ops, expire)
      modifies this`head, this`next, this`expire, this`list, this`asked, this`stamp, this`clock
      ensures Valid() && expire.Keys == old(expire).Keys
      ensures Beyond(ops, now) ==> Due(list, expire, now) == Due(old(list), old(expire), now) - Targets(ops)
      ensures SameExcept(old(Orders()), Orders(), Targets(ops))
    {
      hide IsChain, InOrder, Marked, Stamped, Place, Put, Minus, Due, Known, Beyond, SameExcept;
      IsComplete(Orders(), clock);
      SameAll(Orders(), Targets(ops[..0]));
      for k := 0 to |ops|
        invariant Valid() && expire.Keys == old(expire).Keys
        invariant Beyond(ops, now) ==> Due(list, expire, now) == Due(old(list), old(expire), now) - Targets(ops[..k])
        invariant SameExcept(old(Orders()), Orders(), Targets(ops[..k]))
      {
        OpKnown(ops, old(expire), now, k);
        TargetsMore(ops, k);
        ghost var list0, o := list, Orders();
        IsComplete(o, clock);
        ChainUnique(next, NULL, head, list);
        match ops[k] {
          case Arm(t, e) =>
            ghost var p;
            var rearm;
            rearm, p := Mod(t, e);
            if Beyond(ops, now) { DueArm(list0, o.expire, now, t, e, p); }
            SameMore(old(Orders()), o, Orders(), Targets(ops[..k]), t);
          case Cancel(t) =>
            Del(t);
            DueCancel(list0, o.expire, now, t);
            SameMore(old(Orders()), o, Orders(), Targets(ops[..k]), t);
        }
      }
      assert ops[..|ops|] == ops;
    }

    /** The head comes off the list before its callback runs. */
    method TakeFirst() returns (t: Ptr)
      requires Valid() && list != []
      modifies this`head, this`next, this`expire, this`list
      ensures Valid() && t == old(list)[0] && t in old(expire) && list == old(list)[1..]
              && expire == old(expire)[t := -1]
    {
      hide InOrder, Marked, Stamped, Without, Minus;
      t := head;
      HeadMin(list, expire, asked, stamp);
      Dropped(next, head, list, expire, asked, stamp, clock, 0);
      Detached(next, head, list);
      head := next[t];
      next := next[t := NULL];
      expire := expire[t := -1];
      list := list[1..];
    }

    /** timerlist_run_timers. The n-th callback, of timer t, does script(t, n). The run need
        not end unless, from some callback on, timers are armed beyond the sampled time. */
    method Run(now: int, script: (Ptr, nat) -> seq<Op>, ghost limit: nat) returns (progress: bool, fired: seq<Fire>)
      requires Valid() && forall t, n :: Known(script(t, n), expire)
      requires forall t, n :: n >= limit ==> Beyond(script(t, n), now)
      modifies this`head, this`next, this`expire, this`list, this`asked, this`stamp, this`clock
      ensures Valid() && expire.Keys == old(expire).Keys && progress == (fired != [])
      ensures !enabled ==> fired == [] && list == old(list) && expire == old(expire)
      ensures enabled ==> Due(list, expire, now) == {} && AllDue(fired, now)
      ensures enabled && limit == 0 ==>
                var due := Due(old(list), old(expire), now);
                FiredOk(due, old(Orders()), fired) && AllHandled(due, fired, script)
    {
      hide IsChain, InOrder, Marked, Stamped, Known, Beyond, SameExcept, FiredOk, AllHandled, RunOk, Due, Unique, IsMin;
      progress, fired := false, [];
      if !enabled { return; }
      ghost var dueA, oA := Due(list, expire, now), Orders();
      IsComplete(oA, clock);
      RunStart(list, oA, now, script);
      HeadKnown(next, head, list, expire);
      while head != NULL && expire[head] <= now
        invariant Valid() && expire.Keys == old(expire).Keys && progress == (fired != [])
        invariant (head != NULL ==> head in expire && list != [] && head == list[0]) && Unique(list)
        invariant AllDue(fired, now)
        invariant limit == 0 ==> RunOk(dueA, oA, Due(list, expire, now), Orders(), fired, script)
        decreases if |fired| < limit then limit - |fired| else 0, |Due(list, expire, now)|
      {
        ghost var due0, o0, n := Due(list, expire, now), Orders(), |fired|;
        HeadMin(list, expire, asked, stamp);
        DueMin(list, expire, asked, stamp, now);
        FirstGone(list, expire, now);
        var d := expire[head];
        var t := TakeFirst();
        KnownStay(script(t, |fired|), old(expire), expire);
        Callback(script(t, |fired|), now);
        if limit == 0 {
          RunStep(dueA, oA, due0, o0, Due(list, expire, now), Orders(), fired, script, t);
        }
        if |fired| >= limit { Smaller(Due(list, expire, now), due0, t); }
        HeadKnown(next, head, list, expire);
        DueMore(fired, Fire(t, d), now);
        fired := fired + [Fire(t, d)];
        progress := true;
      }
      NoneDue(next, head, list, expire, asked, stamp, now);
      if limit == 0 { RunEnd(dueA, oA, Orders(), fired, script); }
    }
  }

  /** Everything the order of the list depends on. */
  datatype Book = Book(expire: map<Ptr, int>, asked: map<Ptr, int>, stamp: map<Ptr, nat>)

  ghost predicate Complete(o: Book) { forall t :: t in o.expire ==> t in o.asked && t in o.stamp }

  lemma IsComplete(o: Book, clock: nat)
    requires Stamped(o.expire, o.asked, o.stamp, clock)
    ensures Complete(o)
  {
  }

  ghost predicate AllDue(fired: seq<Fire>, now: int) { forall i :: 0 <= i < |fired| ==> fired[i].deadline <= now }

  lemma DueMore(fired: seq<Fire>, f: Fire, now: int)
    requires AllDue(fired, now) && f.deadline <= now
    ensures AllDue(fired + [f], now)
  {
  }

  /** Arming order fails here: with timer 1 pending at 0, arming 2 for -1 puts it ahead of 1,
      also at 0; arming 3 for -1 puts it ahead of both. */
  lemma Overtaken(k: nat, n: nat)
    requires Place(Minus([1], 2), map[1 := 0, 2 := -1, 3 := -1], -1, k)
    requires Place(Minus([2, 1], 3), map[1 := 0, 2 := 0, 3 := -1], -1, n)
    ensures Put(Minus([1], 2), k, 2) == [2, 1] && Put(Minus([2, 1], 3), n, 3) == [3, 2, 1]
  {
    MinusNone([1], 2);
    MinusNone([2, 1], 3);
    NegativeFirst([1], map[1 := 0, 2 := -1, 3 := -1], -1, k);
    NegativeFirst([2, 1], map[1 := 0, 2 := 0, 3 := -1], -1, n);
  }

  /** What callbacks may do: arm a timer of this list, or stop one. */
  datatype Op = Arm(t: Ptr, e: int) | Cancel(t: Ptr)

  datatype Fire = Fire(t: Ptr, deadline: int)

  /** Timers fire once each, when due, with their deadlines, in the order of the list. */
  ghost predicate FiredOk(due: set<Ptr>, o: Book, fired: seq<Fire>) {
    && (forall i :: 0 <= i < |fired| ==>
          fired[i].t in due && fired[i].t in o.expire && fired[i].deadline == o.expire[fired[i].t])
    && (forall i, j :: 0 <= i < j < |fired| ==>
          fired[i].t != fired[j].t && Ordered(fired[i].t, fired[j].t, o.expire, o.asked, o.stamp))
  }

  /** Timer t has fired, or an earlier callback of the run has changed it. */
  ghost predicate Handled(fired: seq<Fire>, script: (Ptr, nat) -> seq<Op>, t: Ptr) {
    exists i :: 0 <= i < |fired| && (fired[i].t == t || t in Targets(script(fired[i].t, i)))
  }

  ghost predicate AllHandled(due: set<Ptr>, fired: seq<Fire>, script: (Ptr, nat) -> seq<Op>) {
    forall t :: t in due ==> Handled(fired, script, t)
  }

  /** Midway: what is due now was due at the start with the same deadline, not before
      what has fired; the rest of what was due has been dealt with. */
  ghost predicate RunOk(dueA: set<Ptr>, oA: Book, due: set<Ptr>, o: Book, fired: seq<Fire>,
                        script: (Ptr, nat) -> seq<Op>) {
    && FiredOk(dueA, oA, fired)
    && (forall t :: t in due ==> t in dueA && SameOrders(oA, o, t) && AfterAll(fired, t, oA))
    && (forall t :: t in dueA ==> t in due || Handled(fired, script, t))
  }

  /** t has not fired, and may fire next. */
  ghost predicate AfterAll(fired: seq<Fire>, t: Ptr, o: Book) {
    forall i :: 0 <= i < |fired| ==> fired[i].t != t && Ordered(fired[i].t, t, o.expire, o.asked, o.stamp)
  }

  lemma RunStart(list: seq<Ptr>, o: Book, now: int, script: (Ptr, nat) -> seq<Op>)
    requires Complete(o)
    ensures var due := Due(list, o.expire, now); RunOk(due, o, due, o, [], script)
  {
  }

  lemma KnownStay(ops: seq<Op>, expire: map<Ptr, int>, expire': map<Ptr, int>)
    requires Known(ops, expire) && expire.Keys == expire'.Keys
    ensures Known(ops, expire')
  {
  }

  lemma HandledMore(fired: seq<Fire>, f: Fire, script: (Ptr, nat) -> seq<Op>, t: Ptr)
    ensures Handled(fired + [f], script, t) <==>
              Handled(fired, script, t) || f.t == t || t in Targets(script(f.t, |fired|))
  {
    var all := fired + [f];
    if Handled(fired, script, t) {
      var i :| 0 <= i < |fired| && (fired[i].t == t || t in Targets(script(fired[i].t, i)));
      assert all[i] == fired[i];
    }
    assert all[|fired|] == f;
  }

  /** One timer fired: it is no longer due, and its callback has changed its targets. */
  lemma RunStep(dueA: set<Ptr>, oA: Book, due0: set<Ptr>, o0: Book, due: set<Ptr>, o: Book,
                fired: seq<Fire>, script: (Ptr, nat) -> seq<Op>, t: Ptr)
    requires RunOk(dueA, oA, due0, o0, fired, script) && t in due0 && t in o0.expire
    requires forall x :: x in due0 && x != t ==> Ordered(t, x, o0.expire, o0.asked, o0.stamp)
    requires due == due0 - {t} - Targets(script(t, |fired|))
    requires SameExcept(o0.(expire := o0.expire[t := -1]), o, Targets(script(t, |fired|)))
    ensures RunOk(dueA, oA, due, o, fired + [Fire(t, o0.expire[t])], script)
  {
    var f := Fire(t, o0.expire[t]);
    var all := fired + [f];
    hide Handled, Targets, Ordered;
    assert SameOrders(oA, o0, t) && AfterAll(fired, t, oA);
    assert FiredOk(dueA, oA, all);
    forall x | x in due ensures x in dueA && SameOrders(oA, o, x) && AfterAll(all, x, oA) {
      assert AfterAll(fired, x, oA) && SameOrders(oA, o0, x);
      OrderedSame(oA, o0, t, x);
    }
    forall x | x in dueA ensures x in due || Handled(all, script, x) { HandledMore(fired, f, script, x); }
  }

  lemma OrderedSame(o: Book, o': Book, t: Ptr, u: Ptr)
    requires SameOrders(o, o', t) && SameOrders(o, o', u)
    ensures Ordered(t, u, o.expire, o.asked, o.stamp) <==> Ordered(t, u, o'.expire, o'.asked, o'.stamp)
  {
  }

  lemma DueMin(list: seq<Ptr>, expire: map<Ptr, int>, asked: map<Ptr, int>, stamp: map<Ptr, nat>, now: int)
    requires list != [] && IsMin(list, expire, list[0]) && expire[list[0]] <= now && InOrder(list, expire, asked, stamp)
    ensures list[0] in Due(list, expire, now)
    ensures forall x :: x in Due(list, expire, now) && x != list[0] ==> Ordered(list[0], x, expire, asked, stamp)
  {
    assert list[0] in list;
    hide Ordered, IsMin;
    forall x | x in list && x != list[0] ensures Ordered(list[0], x, expire, asked, stamp) {
      var i :| 0 <= i < |list| && list[i] == x;
    }
  }

  lemma FirstGone(list: seq<Ptr>, expire: map<Ptr, int>, now: int)
    requires list != [] && Unique(list)
    ensures Due(list[1..], expire[list[0] := -1], now) == Due(list, expire, now) - {list[0]}
  {
    assert list == [list[0]] + list[1..];
  }

  lemma Smaller(a: set<Ptr>, b: set<Ptr>, x: Ptr)
    requires x in b && a <= b - {x}
    ensures |a| < |b|
  {
    Sets.SubsetSize(a, b - {x});
  }

  lemma NoneDue(next: map<Ptr, Ptr>, head: Ptr, list: seq<Ptr>, expire: map<Ptr, int>, asked: map<Ptr, int>,
                stamp: map<Ptr, nat>, now: int)
    requires IsChain(next, NULL, head, list) && Marked(list, expire) && InOrder(list, expire, asked, stamp)
    requires head == NULL || head !in expire || expire[head] > now
    ensures Due(list, expire, now) == {}
  {
    if list != [] { HeadMin(list, expire, asked, stamp); }
  }

  lemma RunEnd(dueA: set<Ptr>, oA: Book, o: Book, fired: seq<Fire>, script: (Ptr, nat) -> seq<Op>)
    requires RunOk(dueA, oA, {}, o, fired, script)
    ensures FiredOk(dueA, oA, fired) && AllHandled(dueA, fired, script)
  {
  }

  lemma HeadKnown(next: map<Ptr, Ptr>, head: Ptr, list: seq<Ptr>, expire: map<Ptr, int>)
    requires IsChain(next, NULL, head, list) && Marked(list, expire)
    ensures head != NULL ==> head in expire && list != [] && head == list[0]
    ensures Unique(list)
  {
    if head != NULL { assert head in list; }
  }

  /** Only timers of this list are armed or stopped. */
  ghost predicate Known(ops: seq<Op>, expire: map<Ptr, int>) { forall k :: 0 <= k < |ops| ==> ops[k].t in expire }

  /** Timers are armed beyond now only. */
  ghost predicate Beyond(ops: seq<Op>, now: int) { forall k :: 0 <= k < |ops| && ops[k].Arm? ==> ops[k].e > now }

  ghost function Targets(ops: seq<Op>): set<Ptr> { set k | 0 <= k < |ops| :: ops[k].t }

  ghost predicate SameAt<V>(m: map<Ptr, V>, m': map<Ptr, V>, t: Ptr) { t in m && t in m' && m[t] == m'[t] }

  ghost predicate SameOrders(o: Book, o': Book, t: Ptr) {
    SameAt(o.expire, o'.expire, t) && SameAt(o.asked, o'.asked, t) && SameAt(o.stamp, o'.stamp, t)
  }

  /** What the list depends on has changed at ts only. */
  ghost predicate SameExcept(o: Book, o': Book, ts: set<Ptr>) {
    o'.expire.Keys == o.expire.Keys && forall t :: t in o.expire && t !in ts ==> SameOrders(o, o', t)
  }

  lemma OpKnown(ops: seq<Op>, expire: map<Ptr, int>, now: int, k: nat)
    requires Known(ops, expire) && k < |ops|
    ensures ops[k].t in expire && (Beyond(ops, now) && ops[k].Arm? ==> ops[k].e > now)
  {
  }

  lemma TargetsMore(ops: seq<Op>, k: nat)
    requires k < |ops|
    ensures Targets(ops[..k + 1]) == Targets(ops[..k]) + {ops[k].t}
  {
    assert ops[..k + 1][k] == ops[k];
    forall t | t in Targets(ops[..k]) ensures t in Targets(ops[..k + 1]) {
      var i :| 0 <= i < k && ops[..k][i].t == t;
      assert ops[..k + 1][i].t == t;
    }
    forall t | t in Targets(ops[..k + 1]) ensures t in Targets(ops[..k]) + {ops[k].t} {
      var i :| 0 <= i < k + 1 && ops[..k + 1][i].t == t;
      if i < k { assert ops[..k][i].t == t; }
    }
  }

  lemma SameAll(o: Book, ts: set<Ptr>)
    requires Complete(o)
    ensures SameExcept(o, o, ts)
  {
  }

  ghost predicate SameBut<V>(m: map<Ptr, V>, m': map<Ptr, V>, t: Ptr) {
    forall x :: x in m && x != t ==> x in m' && m'[x] == m[x]
  }

  lemma SameMore(o0: Book, o1: Book, o2: Book, ts: set<Ptr>, t: Ptr)
    requires SameExcept(o0, o1, ts) && Complete(o1) && t in o1.expire
    requires o2.expire.Keys == o1.expire.Keys && SameBut(o1.expire, o2.expire, t)
    requires SameBut(o1.asked, o2.asked, t) && SameBut(o1.stamp, o2.stamp, t)
    ensures SameExcept(o0, o2, ts + {t})
  {
  }

  lemma DueCancel(list: seq<Ptr>, expire: map<Ptr, int>, now: int, t: Ptr)
    requires Unique(list)
    ensures Due(Minus(list, t), expire[t := -1], now) == Due(list, expire, now) - {t}
  {
    hide Minus, Unique;
    forall x ensures x in Minus(list, t) <==> x in list && x != t { MinusMembers(list, t, x); }
  }

  lemma DueArm(list: seq<Ptr>, expire: map<Ptr, int>, now: int, t: Ptr, e: int, k: nat)
    requires Unique(list) && e > now && Place(Minus(list, t), expire[t := -1], e, k)
    ensures Due(Put(Minus(list, t), k, t), expire[t := Max(e, 0)], now) == Due(list, expire, now) - {t}
  {
    hide Minus, Unique;
    var m := Minus(list, t);
    forall x ensures x in m <==> x in list && x != t { MinusMembers(list, t, x); }
    assert m == m[..k] + m[k..];
  }

  /** A node off the list may be written. */
  lemma Detached(next: map<Ptr, Ptr>, head: Ptr, list: seq<Ptr>)
    requires IsChain(next, NULL, head, list) && list != []
    ensures Without(list, 0) == list[1..] && list[0] in next
            && IsChain(next[list[0] := NULL], NULL, next[list[0]], list[1..])
  {
    RemoveAt(next, NULL, head, list, 0);
    assert Without(list, 0) == list[1..];
    ChainFrame(next, next[list[0] := NULL], NULL, next[list[0]], list[1..]);
  }

  /** No pending timer is earlier than t. */
  ghost predicate IsMin(list: seq<Ptr>, expire: map<Ptr, int>, t: Ptr) {
    t in expire && forall u :: u in list ==> u in expire && expire[t] <= expire[u]
  }

  lemma HeadMin(list: seq<Ptr>, expire: map<Ptr, int>, asked: map<Ptr, int>, stamp: map<Ptr, nat>)
    requires Marked(list, expire) && InOrder(list, expire, asked, stamp) && list != []
    ensures list[0] in list && IsMin(list, expire, list[0])
  {
    forall u | u in list ensures u in expire && expire[list[0]] <= expire[u] {
      var i :| 0 <= i < |list| && list[i] == u;
      if i > 0 { assert Ordered(list[0], list[i], expire, asked, stamp); }
    }
  }

  lemma NotListed(list: seq<Ptr>, t: Ptr)
    requires t !in list
    ensures Minus(list, t) == list
  {
  }

  lemma TimerGone(list: seq<Ptr>, expire: map<Ptr, int>, t: Ptr)
    requires Marked(list, expire) && t in expire && expire[t] == -1
    ensures t !in list
  {
  }

  lemma NewTimer(list: seq<Ptr>, expire: map<Ptr, int>, asked: map<Ptr, int>, stamp: map<Ptr, nat>, clock: nat, t: Ptr)
    requires Marked(list, expire) && InOrder(list, expire, asked, stamp) && Stamped(expire, asked, stamp, clock)
             && t !in expire && t != NULL
    ensures Marked(list, expire[t := -1]) && InOrder(list, expire[t := -1], asked[t := -1], stamp[t := clock])
    ensures Stamped(expire[t := -1], asked[t := -1], stamp[t := clock], clock + 1)
  {
    forall i, j | 0 <= i < j < |list|
      ensures Ordered(list[i], list[j], expire[t := -1], asked[t := -1], stamp[t := clock])
    {
      assert Ordered(list[i], list[j], expire, asked, stamp);
      assert list[i] in list && list[j] in list;
    }
  }

  lemma TimerFacts(list: seq<Ptr>, expire: map<Ptr, int>, t: Ptr)
    requires Marked(list, expire) && t in expire
    ensures t != NULL && (t !in list ==> expire[t] == -1) && forall i :: 0 <= i < |list| ==> list[i] in expire
  {
    forall i | 0 <= i < |list| ensures list[i] in expire { assert list[i] in list; }
  }

  lemma MinusNone(list: seq<Ptr>, t: Ptr)
    requires t !in list
    ensures Minus(list, t) == list
  {
  }

  lemma Dropped(next: map<Ptr, Ptr>, head: Ptr, list: seq<Ptr>, expire: map<Ptr, int>, asked: map<Ptr, int>,
                stamp: map<Ptr, nat>, clock: nat, k: nat)
    requires IsChain(next, NULL, head, list) && Marked(list, expire) && InOrder(list, expire, asked, stamp)
             && Stamped(expire, asked, stamp, clock) && k < |list|
    ensures list[k] in next && Without(list, k) == Minus(list, list[k])
    ensures IsChain(WriteNext(next, list, k, next[list[k]]), NULL, WriteHead(head, k, next[list[k]]), Without(list, k))
    ensures Marked(Without(list, k), expire[list[k] := -1])
            && InOrder(Without(list, k), expire[list[k] := -1], asked, stamp)
    ensures Stamped(expire[list[k] := -1], asked, stamp, clock)
  {
    RemoveAt(next, NULL, head, list, k);
    IndexOfUnique(list, k);
    assert list[k] in list;
    assert Stamped(expire[list[k] := -1], asked, stamp, clock);
    DropMarked(list, expire, k);
    DropOrder(list, expire, asked, stamp, k);
  }

  lemma PlaceIn(list: seq<Ptr>, expire: map<Ptr, int>, e: int, k: nat)
    requires Place(list, expire, e, k)
    ensures k <= |list|
  {
  }

  lemma Inserted(next: map<Ptr, Ptr>, head: Ptr, list: seq<Ptr>, expire: map<Ptr, int>, asked: map<Ptr, int>,
                 stamp: map<Ptr, nat>, clock: nat, t: Ptr, e: int, k: nat)
    requires IsChain(next, NULL, head, list) && Marked(list, expire) && InOrder(list, expire, asked, stamp)
             && Stamped(expire, asked, stamp, clock)
    requires t in expire && t !in list && Place(list, expire, e, k)
    ensures IsChain(WriteNext(next[t := At(list, NULL, k)], list, k, t), NULL, WriteHead(head, k, t), Put(list, k, t))
    ensures Marked(Put(list, k, t), expire[t := Max(e, 0)])
            && InOrder(Put(list, k, t), expire[t := Max(e, 0)], asked[t := e], stamp[t := clock])
    ensures Stamped(expire[t := Max(e, 0)], asked[t := e], stamp[t := clock], clock + 1)
  {
    hide IsChain, InOrder, Place;
    assert t != NULL && k <= |list| by { PlaceIn(list, expire, e, k); }
    InsertAt(next, NULL, head, list, k, t);
    assert Stamped(expire[t := Max(e, 0)], asked[t := e], stamp[t := clock], clock + 1);
    hide Marked, Stamped;
    PutMarked(list, expire, t, e, k);
    PutOrder(list, expire, asked, stamp, clock, t, e, k);
  }
}
