/** Merging a batch of writes (block.c, multiwrite_merge). A request writes the bytes
    of its buffers from its start sector on. */
module Multiwrite {
  import opened Bytes

  const SECTOR := 512
  const IOV_MAX := 1024

  datatype Req = Req(sector: nat, count: nat, iov: seq<seq<Byte>>)

  function Flat(iov: seq<seq<Byte>>): seq<Byte> { if iov == [] then [] else iov[0] + Flat(iov[1..]) }

  ghost predicate Valid(r: Req) { |Flat(r.iov)| == r.count * SECTOR }

  function Start(r: Req): nat { r.sector * SECTOR }

  function End(r: Req): nat { (r.sector + r.count) * SECTOR }

  ghost predicate In(r: Req, x: nat) { Start(r) <= x < End(r) }

  // ------------------------------------------------------------ buffers

  lemma {:induction false} FlatCat(a: seq<seq<Byte>>, b: seq<seq<Byte>>)
    ensures Flat(a + b) == Flat(a) + Flat(b)
  {
    if a == [] {
      assert a + b == b;
    } else {
      assert (a + b)[1..] == a[1..] + b;
      FlatCat(a[1..], b);
      Assoc(a[0], Flat(a[1..]), Flat(b));
    }
  }

  /** qemu_iovec_concat onto an empty vector: the buffers of the first n bytes. */
  function Concat(iov: seq<seq<Byte>>, n: nat): (r: seq<seq<Byte>>)
    ensures |r| <= |iov| && forall k :: 0 <= k < |r| ==> r[k] != []
  {
    if n == 0 || iov == [] then []
    else if iov[0] == [] then Concat(iov[1..], n)
    else var len := Min(|iov[0]|, n); [iov[0][..len]] + Concat(iov[1..], n - len)
  }

  lemma {:induction false} ConcatTakes(iov: seq<seq<Byte>>, n: nat)
    ensures Flat(Concat(iov, n)) == Flat(iov)[..Min(n, |Flat(iov)|)]
  {
    if n > 0 && iov != [] {
      if iov[0] == [] {
        ConcatTakes(iov[1..], n);
        assert [] + Flat(iov[1..]) == Flat(iov[1..]);
      } else {
        ConcatTakes(iov[1..], n - Min(|iov[0]|, n));
        assert iov == [iov[0]] + iov[1..];
        ConcatMore(iov[0], iov[1..], n);
      }
    }
    hide Flat;
  }

  lemma ConcatMore(a: seq<Byte>, rest: seq<seq<Byte>>, n: nat)
    requires a != [] && n > 0
    requires var k := n - Min(|a|, n); Flat(Concat(rest, k)) == Flat(rest)[..Min(k, |Flat(rest)|)]
    ensures Flat(Concat([a] + rest, n)) == Flat([a] + rest)[..Min(n, |Flat([a] + rest)|)]
  {
    var len := Min(|a|, n);
    assert ([a] + rest)[1..] == rest;
    assert Concat([a] + rest, n) == [a[..len]] + Concat(rest, n - len);
    hide Flat, Concat;
    FlatCons(a, rest);
    FlatCons(a[..len], Concat(rest, n - len));
    TakeTwo(a, Flat(rest), n);
  }

  lemma FlatCons(a: seq<Byte>, rest: seq<seq<Byte>>)
    ensures Flat([a] + rest) == a + Flat(rest)
  {
    assert ([a] + rest)[1..] == rest;
  }

  lemma TakeTwo(a: seq<Byte>, b: seq<Byte>, n: nat)
    ensures var len := Min(|a|, n); (a + b)[..Min(n, |a + b|)] == a[..len] + b[..Min(n - len, |b|)]
  {
  }

  // ------------------------------------------------------------ one merge

  function Zeros(n: nat): (s: seq<Byte>)
    ensures |s| == n
  {
    seq(n, _ => 0)
  }

  /** The merged request: the first one up to where the second begins, zeros over a gap
      between them, and the second. */
  function Join(cur: Req, r: Req): Req {
    var gap := if Start(r) > End(cur) then [Zeros(Start(r) - End(cur))] else [];
    var iov := Concat(cur.iov, if Start(r) >= Start(cur) then Start(r) - Start(cur) else 0) + gap
        + Concat(r.iov, |Flat(r.iov)|);
    Req(cur.sector, |Flat(iov)| / SECTOR, iov)
  }

  /** The driver is asked about gaps only; too many buffers are never merged. */
  predicate Joins(cur: Req, r: Req, driver: (Req, Req) -> bool) {
    (r.sector <= cur.sector + cur.count || driver(cur, r)) && |cur.iov| + |r.iov| + 1 <= IOV_MAX
  }

  lemma FlatThree(a: seq<seq<Byte>>, gap: nat, b: seq<seq<Byte>>)
    ensures Flat(a + (if gap > 0 then [Zeros(gap)] else []) + b) == Flat(a) + Zeros(gap) + Flat(b)
  {
    var z := if gap > 0 then [Zeros(gap)] else [];
    FlatCat(a + z, b);
    FlatCat(a, z);
    if gap > 0 { assert z[1..] == [] && z[0] + [] == z[0]; } else { assert Zeros(0) == []; }
  }

  lemma JoinData(cur: Req, r: Req)
    requires Valid(cur) && Valid(r) && cur.sector <= r.sector
    ensures var j := Join(cur, r);
            && Valid(j) && Start(j) == Start(cur) && End(j) == End(r)
            && Flat(j.iov) == Flat(cur.iov)[..Min(Start(r) - Start(cur), |Flat(cur.iov)|)]
                              + Zeros(if Start(r) > End(cur) then Start(r) - End(cur) else 0) + Flat(r.iov)
  {
    hide Concat, Flat;
    var gap := if Start(r) > End(cur) then Start(r) - End(cur) else 0;
    var head, tail := Concat(cur.iov, Start(r) - Start(cur)), Concat(r.iov, |Flat(r.iov)|);
    ConcatTakes(cur.iov, Start(r) - Start(cur));
    ConcatTakes(r.iov, |Flat(r.iov)|);
    assert Flat(r.iov)[..|Flat(r.iov)|] == Flat(r.iov);
    FlatThree(head, gap, tail);
    assert Join(cur, r).iov == head + (if gap > 0 then [Zeros(gap)] else []) + tail;
    hide Zeros, Join;
    JoinSize(cur, r, |Flat(head)|, gap, |Flat(tail)|);
  }

  lemma JoinSize(cur: Req, r: Req, head: nat, gap: nat, tail: nat)
    requires cur.sector <= r.sector && tail == r.count * SECTOR
             && head == Min(Start(r) - Start(cur), cur.count * SECTOR)
    requires gap == if Start(r) > End(cur) then Start(r) - End(cur) else 0
    ensures head + gap + tail == (r.sector + r.count - cur.sector) * SECTOR
  {
  }

  /** The byte a request writes at x. */
  ghost function Data(r: Req, x: nat): Byte
    requires Valid(r) && In(r, x)
  {
    Flat(r.iov)[x - Start(r)]
  }

  /** Byte by byte: the second request wins, then the first, then the gap. */
  lemma JoinAt(cur: Req, r: Req, x: nat)
    requires Valid(cur) && Valid(r) && cur.sector <= r.sector
    ensures var j := Join(cur, r);
            && Valid(j) && (In(j, x) <==> Start(cur) <= x < End(r))
            && (In(j, x) ==> Data(j, x) == if In(r, x) then Data(r, x) else if In(cur, x) then Data(cur, x) else 0)
  {
    JoinData(cur, r);
  }

  // ------------------------------------------------------------ the whole batch

  datatype Gap = Gap(from: nat, to: nat)

  /** Finished requests, the one still growing, and the gaps filled with zeros. */
  datatype Merge = Merge(done: seq<Req>, cur: Req, gaps: seq<Gap>)

  function Step(m: Merge, r: Req, driver: (Req, Req) -> bool): Merge {
    if Joins(m.cur, r, driver) then
      Merge(m.done, Join(m.cur, r), m.gaps + if Start(r) > End(m.cur) then [Gap(End(m.cur), Start(r))] else [])
    else Merge(m.done + [m.cur], r, m.gaps)
  }

  function UpTo(reqs: seq<Req>, n: nat, driver: (Req, Req) -> bool): Merge
    requires 0 < n <= |reqs|
  {
    if n == 1 then Merge([], reqs[0], []) else Step(UpTo(reqs, n - 1, driver), reqs[n - 1], driver)
  }

  ghost function Outs(m: Merge): seq<Req> { m.done + [m.cur] }

  ghost predicate AllValid(reqs: seq<Req>) { forall i :: 0 <= i < |reqs| ==> Valid(reqs[i]) }

  ghost predicate Sorted(reqs: seq<Req>) { forall i, j :: 0 <= i < j < |reqs| ==> reqs[i].sector <= reqs[j].sector }

  /** The byte at x after the requests have been written in order. */
  ghost function Content(reqs: seq<Req>, disk: nat -> Byte, x: nat): Byte
    requires AllValid(reqs)
  {
    if reqs == [] then disk(x) else
      var n := |reqs| - 1;
      if In(reqs[n], x) then Data(reqs[n], x) else Content(reqs[..n], disk, x)
  }

  ghost predicate Covered(reqs: seq<Req>, x: nat) { exists i :: 0 <= i < |reqs| && In(reqs[i], x) }

  ghost predicate InGap(gaps: seq<Gap>, x: nat) { exists i :: 0 <= i < |gaps| && gaps[i].from <= x < gaps[i].to }

  /** Wherever a request reaches past the end of a later one, a request after that
      one writes the place again. Ends in order are the plain case. */
  ghost predicate TailsCovered(reqs: seq<Req>) {
    forall i, j, x :: 0 <= i < j < |reqs| && In(reqs[i], x) && End(reqs[j]) <= x ==> WrittenAfter(reqs, j, x)
  }

  ghost predicate WrittenAfter(reqs: seq<Req>, j: nat, x: nat) { exists k :: j < k < |reqs| && In(reqs[k], x) }

  lemma EndsInOrder(reqs: seq<Req>)
    requires forall i, j :: 0 <= i < j < |reqs| ==> End(reqs[i]) <= End(reqs[j])
    ensures TailsCovered(reqs)
  {
  }

  lemma ContentCat(a: seq<Req>, r: Req, disk: nat -> Byte, x: nat)
    requires AllValid(a) && Valid(r)
    ensures AllValid(a + [r])
    ensures Content(a + [r], disk, x) == if In(r, x) then Data(r, x) else Content(a, disk, x)
    ensures Covered(a + [r], x) <==> Covered(a, x) || In(r, x)
  {
    assert (a + [r])[..|a|] == a;
    if Covered(a, x) {
      var i :| 0 <= i < |a| && In(a[i], x);
      assert In((a + [r])[i], x);
    }
    if In(r, x) { assert In((a + [r])[|a|], x); }
  }

  lemma {:induction false} ContentElsewhere(a: seq<Req>, disk: nat -> Byte, x: nat)
    requires AllValid(a) && !Covered(a, x)
    ensures Content(a, disk, x) == disk(x)
  {
    if a != [] {
      var n := |a| - 1;
      assert !In(a[n], x);
      assert a == a[..n] + [a[n]];
      ContentCat(a[..n], a[n], disk, x);
      ContentElsewhere(a[..n], disk, x);
    }
  }

  lemma GapCat(gaps: seq<Gap>, g: Gap, x: nat)
    ensures InGap(gaps + [g], x) <==> InGap(gaps, x) || g.from <= x < g.to
  {
    if InGap(gaps, x) {
      var i :| 0 <= i < |gaps| && gaps[i].from <= x < gaps[i].to;
      assert (gaps + [g])[i].from <= x < (gaps + [g])[i].to;
    }
    if g.from <= x < g.to { assert (gaps + [g])[|gaps|] == g; }
  }

  /** Past the end of a request and before the next nothing was ever written. */
  lemma Untouched(reqs: seq<Req>, n: nat, x: nat)
    requires Sorted(reqs) && TailsCovered(reqs) && 0 < n <= |reqs| && End(reqs[n - 1]) <= x
             && (n < |reqs| ==> x < Start(reqs[n]))
    ensures !Covered(reqs, x) && !Covered(reqs[..n], x)
  {
    forall k | n <= k < |reqs| ensures !In(reqs[k], x) { assert k > n ==> reqs[n].sector <= reqs[k].sector; }
    assert !WrittenAfter(reqs, n - 1, x);
    forall i | 0 <= i < n ensures !In(reqs[i], x) && reqs[..n][i] == reqs[i] {}
  }

  /** The merge so far is made of valid requests and ends where the last one read does. */
  ghost predicate Shape(reqs: seq<Req>, n: nat, m: Merge)
    requires 0 < n <= |reqs|
  {
    AllValid(m.done) && Valid(m.cur) && m.cur.sector <= reqs[n - 1].sector && End(m.cur) == End(reqs[n - 1])
  }

  lemma {:induction false} Shaped(reqs: seq<Req>, n: nat, driver: (Req, Req) -> bool)
    requires AllValid(reqs) && Sorted(reqs) && 0 < n <= |reqs|
    ensures Shape(reqs, n, UpTo(reqs, n, driver))
  {
    if n > 1 {
      Shaped(reqs, n - 1, driver);
      assert reqs[n - 2].sector <= reqs[n - 1].sector;
      JoinData(UpTo(reqs, n - 1, driver).cur, reqs[n - 1]);
      hide Join, Flat;
    }
  }

  /** At byte x: outputs cover only what requests or gaps cover; gaps are places no
      request writes; and up to the end of the last request read, the outputs leave
      what the requests do. */
  ghost predicate PointOk(reqs: seq<Req>, n: nat, m: Merge, disk: nat -> Byte, x: nat)
    requires AllValid(reqs) && 0 < n <= |reqs| && Shape(reqs, n, m)
  {
    && (Covered(Outs(m), x) ==> Covered(reqs[..n], x) || InGap(m.gaps, x))
    && (InGap(m.gaps, x) ==> x < Start(reqs[n - 1]) && !Covered(reqs, x))
    && (x < End(reqs[n - 1]) ==>
          Content(Outs(m), disk, x) == if InGap(m.gaps, x) then 0 else Content(reqs[..n], disk, x))
  }

  lemma {:induction false} Points(reqs: seq<Req>, n: nat, driver: (Req, Req) -> bool, disk: nat -> Byte, x: nat)
    requires AllValid(reqs) && Sorted(reqs) && TailsCovered(reqs) && 0 < n <= |reqs|
    ensures Shape(reqs, n, UpTo(reqs, n, driver)) && PointOk(reqs, n, UpTo(reqs, n, driver), disk, x)
  {
    hide PointOk, Shape, Sorted, TailsCovered, Joins, Step;
    Shaped(reqs, n, driver);
    if n == 1 {
      FirstPoint(reqs, driver, disk, x);
    } else {
      Points(reqs, n - 1, driver, disk, x);
      var m, r := UpTo(reqs, n - 1, driver), reqs[n - 1];
      assert UpTo(reqs, n, driver) == Step(m, r, driver);
      if Joins(m.cur, r, driver) {
        JoinPoint(reqs, n - 1, m, driver, disk, x);
      } else {
        PushPoint(reqs, n - 1, m, driver, disk, x);
      }
    }
  }

  lemma FirstPoint(reqs: seq<Req>, driver: (Req, Req) -> bool, disk: nat -> Byte, x: nat)
    requires AllValid(reqs) && reqs != [] && Shape(reqs, 1, UpTo(reqs, 1, driver))
    ensures PointOk(reqs, 1, UpTo(reqs, 1, driver), disk, x)
  {
    assert reqs[..1] == [reqs[0]] == Outs(UpTo(reqs, 1, driver));
  }

  lemma JoinPoint(reqs: seq<Req>, n: nat, m: Merge, driver: (Req, Req) -> bool, disk: nat -> Byte, x: nat)
    requires AllValid(reqs) && Sorted(reqs) && TailsCovered(reqs) && 0 < n < |reqs| && Shape(reqs, n, m)
             && PointOk(reqs, n, m, disk, x)
    requires Joins(m.cur, reqs[n], driver) && Shape(reqs, n + 1, Step(m, reqs[n], driver))
    ensures PointOk(reqs, n + 1, Step(m, reqs[n], driver), disk, x)
  {
    var r, m' := reqs[n], Step(m, reqs[n], driver);
    assert reqs[n - 1].sector <= r.sector;
    assert reqs[..n + 1] == reqs[..n] + [r];
    ContentCat(reqs[..n], r, disk, x);
    JoinAt(m.cur, r, x);
    ContentCat(m.done, m.cur, disk, x);
    ContentCat(m.done, m'.cur, disk, x);
    if End(m.cur) <= x < Start(r) { Untouched(reqs, n, x); }
    if Start(r) > End(m.cur) { GapCat(m.gaps, Gap(End(m.cur), Start(r)), x); } else { assert m'.gaps == m.gaps; }
    if In(r, x) { assert Covered(reqs, x); }
    hide Covered, Content, InGap, Flat, Join;
  }

  lemma PushPoint(reqs: seq<Req>, n: nat, m: Merge, driver: (Req, Req) -> bool, disk: nat -> Byte, x: nat)
    requires AllValid(reqs) && Sorted(reqs) && TailsCovered(reqs) && 0 < n < |reqs| && Shape(reqs, n, m)
             && PointOk(reqs, n, m, disk, x)
    requires !Joins(m.cur, reqs[n], driver) && Shape(reqs, n + 1, Step(m, reqs[n], driver))
    ensures PointOk(reqs, n + 1, Step(m, reqs[n], driver), disk, x)
  {
    var r, m' := reqs[n], Step(m, reqs[n], driver);
    assert reqs[n - 1].sector <= r.sector;
    assert reqs[..n + 1] == reqs[..n] + [r];
    ContentCat(reqs[..n], r, disk, x);
    ContentCat(m.done, m.cur, disk, x);
    assert Outs(m') == Outs(m) + [r];
    ContentCat(Outs(m), r, disk, x);
    if In(r, x) { assert Covered(reqs, x); }
    if End(reqs[n - 1]) <= x < Start(r) {
      Untouched(reqs, n, x);
      ContentElsewhere(Outs(m), disk, x);
      ContentElsewhere(reqs[..n], disk, x);
    }
    hide Covered, Content, InGap, Flat;
  }

  /** The merged requests leave the disk as the sorted originals do, except that gaps
      the driver chose to merge across are zeroed; no original writes there. */
  lemma MergeKeeps(reqs: seq<Req>, driver: (Req, Req) -> bool, disk: nat -> Byte, x: nat)
    requires AllValid(reqs) && Sorted(reqs) && TailsCovered(reqs) && reqs != []
    ensures var m := UpTo(reqs, |reqs|, driver);
            && AllValid(Outs(m)) && (InGap(m.gaps, x) ==> !Covered(reqs, x))
            && Content(Outs(m), disk, x) == if InGap(m.gaps, x) then 0 else Content(reqs, disk, x)
  {
    var n, m := |reqs|, UpTo(reqs, |reqs|, driver);
    Points(reqs, n, driver, disk, x);
    assert reqs[..n] == reqs;
    if x >= End(reqs[n - 1]) {
      Untouched(reqs, n, x);
      ContentElsewhere(reqs, disk, x);
      ContentElsewhere(Outs(m), disk, x);
    }
  }

  // ------------------------------------------------------------ what is merged

  /** r could not join o: it begins behind a gap that the driver would not merge, or together
      they would have more than 1024 buffers. */
  ghost predicate Separate(o: Req, r: Req, driver: (Req, Req) -> bool) {
    (r.sector > o.sector + o.count && !driver(o, r)) || |o.iov| + |r.iov| + 1 > 1024
  }

  /** Request k begins output o, and could not join the output before it. */
  ghost predicate Parted(reqs: seq<Req>, n: nat, before: Req, o: Req, driver: (Req, Req) -> bool) {
    exists k :: 0 < k < n <= |reqs| && reqs[k].sector == o.sector && Separate(before, reqs[k], driver)
  }

  ghost predicate AllParted(reqs: seq<Req>, n: nat, outs: seq<Req>, driver: (Req, Req) -> bool) {
    forall i :: 0 < i < |outs| ==> Parted(reqs, n, outs[i - 1], outs[i], driver)
  }

  /** Gap g was before request k, and the driver merged across it. */
  ghost predicate Asked(reqs: seq<Req>, n: nat, g: Gap, driver: (Req, Req) -> bool) {
    exists k, o :: 0 < k < n <= |reqs| && driver(o, reqs[k]) && g == Gap(End(o), Start(reqs[k])) && g.from < g.to
  }

  ghost predicate AllAsked(reqs: seq<Req>, n: nat, gaps: seq<Gap>, driver: (Req, Req) -> bool) {
    forall i :: 0 <= i < |gaps| ==> Asked(reqs, n, gaps[i], driver)
  }

  ghost predicate FewBuffers(reqs: seq<Req>) { forall i :: 0 <= i < |reqs| ==> |reqs[i].iov| <= 1024 }

  /** Whatever can be merged is, gaps are merged only when the driver asks for it, and no
      request gets more buffers than the limit, if none had. */
  lemma {:induction false} MergesAll(reqs: seq<Req>, n: nat, driver: (Req, Req) -> bool)
    requires 0 < n <= |reqs|
    ensures var m := UpTo(reqs, n, driver);
            && AllParted(reqs, n, Outs(m), driver) && AllAsked(reqs, n, m.gaps, driver)
            && (FewBuffers(reqs) ==> FewBuffers(Outs(m)))
  {
    if n > 1 {
      MergesAll(reqs, n - 1, driver);
      MergesMore(reqs, n - 1, UpTo(reqs, n - 1, driver), driver);
    }
  }

  lemma MergesMore(reqs: seq<Req>, n: nat, m: Merge, driver: (Req, Req) -> bool)
    requires 0 < n < |reqs| && AllParted(reqs, n, Outs(m), driver) && AllAsked(reqs, n, m.gaps, driver)
    requires FewBuffers(reqs) ==> FewBuffers(Outs(m))
    ensures var m' := Step(m, reqs[n], driver);
            && AllParted(reqs, n + 1, Outs(m'), driver) && AllAsked(reqs, n + 1, m'.gaps, driver)
            && (FewBuffers(reqs) ==> FewBuffers(Outs(m')))
  {
    var r, m' := reqs[n], Step(m, reqs[n], driver);
    JoinBuffers(m.cur, r);
    hide Join, Flat;
    PartedLater(reqs, n, Outs(m), driver);
    AskedLater(reqs, n, m.gaps, driver);
    if Joins(m.cur, r, driver) {
      hide Separate;
      forall i | 0 < i < |Outs(m')| ensures Parted(reqs, n + 1, Outs(m')[i - 1], Outs(m')[i], driver) {
        assert Parted(reqs, n + 1, Outs(m)[i - 1], Outs(m)[i], driver);
      }
      assert forall i :: 0 <= i < |Outs(m)| - 1 ==> Outs(m')[i] == Outs(m)[i];
      if Start(r) > End(m.cur) { assert Asked(reqs, n + 1, Gap(End(m.cur), Start(r)), driver); }
    } else {
      assert Separate(m.cur, r, driver);
      assert Parted(reqs, n + 1, m.cur, r, driver);
      assert Outs(m') == Outs(m) + [r];
    }
  }

  lemma JoinBuffers(cur: Req, r: Req)
    ensures Join(cur, r).sector == cur.sector && |Join(cur, r).iov| <= |cur.iov| + |r.iov| + 1
  {
  }

  lemma PartedLater(reqs: seq<Req>, n: nat, outs: seq<Req>, driver: (Req, Req) -> bool)
    requires n < |reqs| && AllParted(reqs, n, outs, driver)
    ensures AllParted(reqs, n + 1, outs, driver)
  {
    hide Separate;
    forall i | 0 < i < |outs| ensures Parted(reqs, n + 1, outs[i - 1], outs[i], driver) {
      assert Parted(reqs, n, outs[i - 1], outs[i], driver);
    }
  }

  lemma AskedLater(reqs: seq<Req>, n: nat, gaps: seq<Gap>, driver: (Req, Req) -> bool)
    requires n < |reqs| && AllAsked(reqs, n, gaps, driver)
    ensures AllAsked(reqs, n + 1, gaps, driver)
  {
    forall i | 0 <= i < |gaps| ensures Asked(reqs, n + 1, gaps[i], driver) { assert Asked(reqs, n, gaps[i], driver); }
  }

  // ------------------------------------------------------------ when tails are lost

  function Buffers(reqs: seq<Req>): nat {
    if reqs == [] then 0 else Buffers(reqs[..|reqs| - 1]) + |reqs[|reqs| - 1].iov|
  }

  lemma {:induction false} BuffersFit(reqs: seq<Req>, n: nat, driver: (Req, Req) -> bool)
    requires 0 < n <= |reqs| && forall a, b :: !driver(a, b)
    ensures var m := UpTo(reqs, n, driver); |m.cur.iov| <= Buffers(reqs[..n]) && m.gaps == []
  {
    assert reqs[..n][..n - 1] == reqs[..n - 1];
    if n > 1 { BuffersFit(reqs, n - 1, driver); }
  }

  lemma {:induction false} BuffersMore(reqs: seq<Req>, n: nat)
    requires n <= |reqs|
    ensures Buffers(reqs[..n]) <= Buffers(reqs)
    decreases |reqs|
  {
    if n < |reqs| {
      var k := |reqs| - 1;
      assert reqs[..k][..n] == reqs[..n];
      BuffersMore(reqs[..k], n);
    } else {
      assert reqs[..n] == reqs;
    }
  }

  /** With few buffers and a driver that never merges across gaps, requests merge
      exactly when they touch. */
  ghost predicate Simple(reqs: seq<Req>, driver: (Req, Req) -> bool) {
    Buffers(reqs) + 1 <= IOV_MAX && forall a, b :: !driver(a, b)
  }

  lemma JoinsTouching(reqs: seq<Req>, n: nat, driver: (Req, Req) -> bool)
    requires Simple(reqs, driver) && 0 < n < |reqs|
    ensures var cur := UpTo(reqs, n, driver).cur;
            Joins(cur, reqs[n], driver) <==> reqs[n].sector <= cur.sector + cur.count
  {
    BuffersFit(reqs, n, driver);
    BuffersMore(reqs, n + 1);
    assert reqs[..n + 1][..n] == reqs[..n];
  }

  /** Finished requests lie before the growing one. */
  lemma {:induction false} DoneBefore(reqs: seq<Req>, n: nat, driver: (Req, Req) -> bool, x: nat)
    requires AllValid(reqs) && Sorted(reqs) && Simple(reqs, driver) && 0 < n <= |reqs|
             && Covered(UpTo(reqs, n, driver).done, x)
    ensures x < Start(UpTo(reqs, n, driver).cur)
  {
    if n > 1 {
      var m, r := UpTo(reqs, n - 1, driver), reqs[n - 1];
      Shaped(reqs, n - 1, driver);
      JoinsTouching(reqs, n - 1, driver);
      assert reqs[n - 2].sector <= r.sector;
      if Covered(m.done, x) { DoneBefore(reqs, n - 1, driver, x); }
      if !Joins(m.cur, r, driver) { ContentCat(m.done, m.cur, _ => 0, x); }
    }
  }

  lemma LostStep(m: Merge, r: Req, driver: (Req, Req) -> bool, x: nat)
    requires AllValid(m.done) && Valid(m.cur) && Valid(r) && m.cur.sector <= r.sector && !In(r, x)
    requires Joins(m.cur, r, driver) <==> r.sector <= m.cur.sector + m.cur.count
    requires !Covered(m.done, x) && (In(m.cur, x) ==> End(r) <= x)
    ensures !Covered(Outs(Step(m, r, driver)), x)
  {
    JoinAt(m.cur, r, x);
    hide Flat, Join, Joins, Covered;
    if Joins(m.cur, r, driver) {
      ContentCat(m.done, Join(m.cur, r), _ => 0, x);
    } else {
      ContentCat(m.done, m.cur, _ => 0, x);
      ContentCat(m.done + [m.cur], r, _ => 0, x);
    }
  }

  /** A byte past the end of request j that nothing after j writes is in no output. */
  lemma {:induction false} Lost(reqs: seq<Req>, n: nat, driver: (Req, Req) -> bool, j: nat, x: nat)
    requires AllValid(reqs) && Sorted(reqs) && Simple(reqs, driver) && 0 < j < n <= |reqs| && End(reqs[j]) <= x
             && !WrittenAfter(reqs, j, x)
    ensures !Covered(Outs(UpTo(reqs, n, driver)), x)
  {
    hide Flat, Joins, Covered, Step, Simple, UpTo, Valid, WrittenAfter;
    var m, r := UpTo(reqs, n - 1, driver), reqs[n - 1];
    Shaped(reqs, n - 1, driver);
    JoinsTouching(reqs, n - 1, driver);
    assert reqs[n - 2].sector <= r.sector;
    NotAfter(reqs, j, n - 1, x);
    UpToStep(reqs, n, driver);
    if n - 1 > j {
      Lost(reqs, n - 1, driver, j, x);
      Parts(m, x);
    } else if Covered(m.done, x) {
      DoneBefore(reqs, n - 1, driver, x);
      assert false;
    }
    LostStep(m, r, driver, x);
  }

  lemma NotAfter(reqs: seq<Req>, j: nat, k: nat, x: nat)
    requires j <= k < |reqs| && End(reqs[j]) <= x && !WrittenAfter(reqs, j, x)
    ensures !In(reqs[k], x)
  {
  }

  lemma Parts(m: Merge, x: nat)
    requires !Covered(Outs(m), x)
    ensures !Covered(m.done, x) && !In(m.cur, x)
  {
    assert Outs(m)[|m.done|] == m.cur;
    forall i | 0 <= i < |m.done| ensures !In(m.done[i], x) { assert Outs(m)[i] == m.done[i]; }
  }

  lemma UpToStep(reqs: seq<Req>, n: nat, driver: (Req, Req) -> bool)
    requires 1 < n <= |reqs|
    ensures UpTo(reqs, n, driver) == Step(UpTo(reqs, n - 1, driver), reqs[n - 1], driver)
  {
  }

  lemma UpToOne(reqs: seq<Req>, driver: (Req, Req) -> bool)
    requires reqs != []
    ensures UpTo(reqs, 1, driver) == Merge([], reqs[0], [])
  {
  }

  lemma ExactLoses(reqs: seq<Req>, driver: (Req, Req) -> bool, i: nat, j: nat, x: nat) returns (disk: nat -> Byte)
    requires AllValid(reqs) && Sorted(reqs) && Simple(reqs, driver) && i < j < |reqs|
    requires In(reqs[i], x) && End(reqs[j]) <= x && !WrittenAfter(reqs, j, x)
             && AllValid(Outs(UpTo(reqs, |reqs|, driver)))
    ensures Content(Outs(UpTo(reqs, |reqs|, driver)), disk, x) != Content(reqs, disk, x)
  {
    assert Covered(reqs, x);
    Lost(reqs, |reqs|, driver, j, x);
    hide AllValid, Covered, Content, UpTo;
    var b := Content(reqs, _ => 0, x);
    disk := _ => if b == 0 then 1 else 0;
    ContentElsewhere(Outs(UpTo(reqs, |reqs|, driver)), disk, x);
    ContentCovered(reqs, disk, _ => 0, x);
  }

  ghost predicate SameAlways(a: seq<Req>, b: seq<Req>)
    requires AllValid(a) && AllValid(b)
  {
    forall disk: nat -> Byte, x: nat :: Content(a, disk, x) == Content(b, disk, x)
  }

  /** So, for such drivers, merging keeps what the batch writes on every disk if and
      only if the tails that reach past later requests are written again. */
  lemma MergeExact(reqs: seq<Req>, driver: (Req, Req) -> bool)
    requires AllValid(reqs) && Sorted(reqs) && Simple(reqs, driver) && reqs != []
    ensures AllValid(Outs(UpTo(reqs, |reqs|, driver)))
    ensures TailsCovered(reqs) <==> SameAlways(Outs(UpTo(reqs, |reqs|, driver)), reqs)
  {
    hide Content, UpTo, In, WrittenAfter, Sorted, Simple, Shape, SameAlways, TailsCovered;
    Shaped(reqs, |reqs|, driver);
    OutsValid(reqs, |reqs|, UpTo(reqs, |reqs|, driver));
    if TailsCovered(reqs) { ExactKeeps(reqs, driver); } else { ExactFails(reqs, driver); }
  }

  lemma OutsValid(reqs: seq<Req>, n: nat, m: Merge)
    requires 0 < n <= |reqs| && Shape(reqs, n, m)
    ensures AllValid(Outs(m))
  {
  }

  lemma ExactKeeps(reqs: seq<Req>, driver: (Req, Req) -> bool)
    requires AllValid(reqs) && Sorted(reqs) && Simple(reqs, driver) && reqs != [] && TailsCovered(reqs)
    requires AllValid(Outs(UpTo(reqs, |reqs|, driver)))
    ensures SameAlways(Outs(UpTo(reqs, |reqs|, driver)), reqs)
  {
    hide Content, UpTo, AllValid, Sorted, TailsCovered, Covered, Outs;
    BuffersFit(reqs, |reqs|, driver);
    hide Simple;
    forall disk: nat -> Byte, x: nat
      ensures Content(Outs(UpTo(reqs, |reqs|, driver)), disk, x) == Content(reqs, disk, x)
    {
      MergeKeeps(reqs, driver, disk, x);
    }
  }

  lemma ExactFails(reqs: seq<Req>, driver: (Req, Req) -> bool)
    requires AllValid(reqs) && Sorted(reqs) && Simple(reqs, driver) && reqs != [] && !TailsCovered(reqs)
    requires AllValid(Outs(UpTo(reqs, |reqs|, driver)))
    ensures !SameAlways(Outs(UpTo(reqs, |reqs|, driver)), reqs)
  {
    hide Content, UpTo, In, WrittenAfter, AllValid, Sorted, Simple, Outs, End;
    var i, j, x :| 0 <= i < j < |reqs| && In(reqs[i], x) && End(reqs[j]) <= x && !WrittenAfter(reqs, j, x);
    var disk := ExactLoses(reqs, driver, i, j, x);
  }

  lemma {:induction false} ContentCovered(reqs: seq<Req>, d: nat -> Byte, e: nat -> Byte, x: nat)
    requires AllValid(reqs) && Covered(reqs, x)
    ensures Content(reqs, d, x) == Content(reqs, e, x)
  {
    var n := |reqs| - 1;
    assert reqs == reqs[..n] + [reqs[n]];
    ContentCat(reqs[..n], reqs[n], d, x);
    if !In(reqs[n], x) { ContentCovered(reqs[..n], d, e, x); }
  }

  // ------------------------------------------------------------ where each byte comes from

  /** A byte comes from the disk, from a filled gap, or from request k. */
  datatype Source = Disk | Filled | From(k: nat)

  /** Where byte x comes from in the finished requests, and in the growing one if it has it. */
  datatype Trace = Trace(done: Source, cur: Option<Source>)

  ghost function Top(t: Trace): Source { if t.cur.Some? then t.cur.value else t.done }

  ghost function TraceOf(reqs: seq<Req>, n: nat, driver: (Req, Req) -> bool, x: nat): Trace
    requires 0 < n <= |reqs|
  {
    if n == 1 then Trace(Disk, if In(reqs[0], x) then Some(From(0)) else None)
    else TraceStep(TraceOf(reqs, n - 1, driver, x), UpTo(reqs, n - 1, driver).cur, n - 1, reqs[n - 1], driver, x)
  }

  ghost function TraceStep(t: Trace, cur: Req, k: nat, r: Req, driver: (Req, Req) -> bool, x: nat): Trace {
    if !Joins(cur, r, driver) then Trace(Top(t), if In(r, x) then Some(From(k)) else None)
    else Trace(t.done, if In(r, x) then Some(From(k))
                       else if x >= Start(r) then None
                       else if t.cur.None? && End(cur) <= x then Some(Filled)
                       else t.cur)
  }

  /** The last of the first n requests that writes byte x. */
  ghost function Last(reqs: seq<Req>, n: nat, x: nat): Source
    requires n <= |reqs|
  {
    if n == 0 then Disk else if In(reqs[n - 1], x) then From(n - 1) else Last(reqs, n - 1, x)
  }

  ghost function ValueOf(reqs: seq<Req>, src: Source, disk: nat -> Byte, x: nat): Byte {
    match src
    case Disk => disk(x)
    case Filled => 0
    case From(k) => if k < |reqs| && Valid(reqs[k]) && In(reqs[k], x) then Data(reqs[k], x) else 0
  }

  ghost predicate SourceOk(reqs: seq<Req>, n: nat, src: Source, x: nat) {
    src.From? ==> src.k < n <= |reqs| && In(reqs[src.k], x)
  }

  /** The trace is right: it says what the merged requests write at x. */
  ghost predicate TraceOk(reqs: seq<Req>, n: nat, m: Merge, t: Trace, disk: nat -> Byte, x: nat) {
    && 0 < n <= |reqs| && AllValid(m.done) && Valid(m.cur)
    && Content(m.done, disk, x) == ValueOf(reqs, t.done, disk, x) && SourceOk(reqs, n - 1, t.done, x)
    && (t.cur.Some? <==> In(m.cur, x))
    && (t.cur.Some? ==> Data(m.cur, x) == ValueOf(reqs, t.cur.value, disk, x) && SourceOk(reqs, n, t.cur.value, x))
  }

  lemma {:induction false} Traced(reqs: seq<Req>, n: nat, driver: (Req, Req) -> bool, disk: nat -> Byte, x: nat)
    requires AllValid(reqs) && Sorted(reqs) && 0 < n <= |reqs|
    ensures TraceOk(reqs, n, UpTo(reqs, n, driver), TraceOf(reqs, n, driver, x), disk, x)
  {
    if n > 1 {
      Traced(reqs, n - 1, driver, disk, x);
      Shaped(reqs, n - 1, driver);
      assert reqs[n - 2].sector <= reqs[n - 1].sector;
      TracedStep(reqs, n - 1, UpTo(reqs, n - 1, driver), TraceOf(reqs, n - 1, driver, x), driver, disk, x);
    }
  }

  lemma TracedStep(reqs: seq<Req>, n: nat, m: Merge, t: Trace, driver: (Req, Req) -> bool, disk: nat -> Byte, x: nat)
    requires AllValid(reqs) && n < |reqs| && TraceOk(reqs, n, m, t, disk, x) && m.cur.sector <= reqs[n].sector
    ensures TraceOk(reqs, n + 1, Step(m, reqs[n], driver), TraceStep(t, m.cur, n, reqs[n], driver, x), disk, x)
  {
    var r := reqs[n];
    JoinAt(m.cur, r, x);
    ContentCat(m.done, m.cur, disk, x);
    hide Flat, Join, Joins, Content, Covered;
  }

  lemma {:induction false} LastContent(reqs: seq<Req>, n: nat, disk: nat -> Byte, x: nat)
    requires AllValid(reqs) && n <= |reqs|
    ensures Content(reqs[..n], disk, x) == ValueOf(reqs, Last(reqs, n, x), disk, x)
    ensures SourceOk(reqs, n, Last(reqs, n, x), x) && Last(reqs, n, x) != Filled
  {
    if n > 0 {
      LastContent(reqs, n - 1, disk, x);
      assert reqs[..n] == reqs[..n - 1] + [reqs[n - 1]];
      ContentCat(reqs[..n - 1], reqs[n - 1], disk, x);
    }
  }

  /** Every byte comes from where it comes from without merging. */
  ghost predicate SameSources(reqs: seq<Req>, driver: (Req, Req) -> bool) {
    forall x :: reqs != [] ==> Top(TraceOf(reqs, |reqs|, driver, x)) == Last(reqs, |reqs|, x)
  }

  lemma ContentTraced(reqs: seq<Req>, driver: (Req, Req) -> bool, disk: nat -> Byte, x: nat)
    requires AllValid(reqs) && Sorted(reqs) && reqs != []
    ensures var outs, t := Outs(UpTo(reqs, |reqs|, driver)), TraceOf(reqs, |reqs|, driver, x);
            AllValid(outs) && Content(outs, disk, x) == ValueOf(reqs, Top(t), disk, x)
    ensures Content(reqs, disk, x) == ValueOf(reqs, Last(reqs, |reqs|, x), disk, x)
    ensures SourceOk(reqs, |reqs|, Top(TraceOf(reqs, |reqs|, driver, x)), x)
    ensures SourceOk(reqs, |reqs|, Last(reqs, |reqs|, x), x) && Last(reqs, |reqs|, x) != Filled
  {
    var m := UpTo(reqs, |reqs|, driver);
    Traced(reqs, |reqs|, driver, disk, x);
    LastContent(reqs, |reqs|, disk, x);
    assert reqs[..|reqs|] == reqs;
    ContentCat(m.done, m.cur, disk, x);
  }

  // ------------------------------------------------------------ the exact condition

  /** Request n joins what was merged before it. */
  ghost predicate Joined(reqs: seq<Req>, n: nat, driver: (Req, Req) -> bool) {
    0 < n < |reqs| && Joins(UpTo(reqs, n, driver).cur, reqs[n], driver)
  }

  /** Requests i to j end up in one merged request. */
  ghost predicate Together(reqs: seq<Req>, i: nat, j: nat, driver: (Req, Req) -> bool) {
    forall k :: i < k <= j ==> Joined(reqs, k, driver)
  }

  /** No request joined across a gap. */
  ghost predicate Touching(reqs: seq<Req>, driver: (Req, Req) -> bool) {
    forall n :: 0 < n < |reqs| && Joined(reqs, n, driver) ==> Start(reqs[n]) <= End(reqs[n - 1])
  }

  /** Wherever a request reaches past the end of a later one that it is merged with, a
      request after that one writes the place again. */
  ghost predicate TailsKept(reqs: seq<Req>, driver: (Req, Req) -> bool) {
    forall i, j, x :: 0 <= i < j < |reqs| && Together(reqs, i, j, driver) && In(reqs[i], x) && End(reqs[j]) <= x ==>
      WrittenAfter(reqs, j, x)
  }

  ghost predicate WrittenFrom(reqs: seq<Req>, n: nat, x: nat) { exists k :: n <= k < |reqs| && In(reqs[k], x) }

  /** What the growing request holds comes from the requests merged in it. */
  ghost predicate OfRun(reqs: seq<Req>, n: nat, src: Source, driver: (Req, Req) -> bool, x: nat) {
    match src
    case Disk => false
    case Filled => !Touching(reqs, driver)
    case From(k) => k < n <= |reqs| && In(reqs[k], x) && Together(reqs, k, n - 1, driver)
  }

  lemma {:induction false} CurFrom(reqs: seq<Req>, n: nat, driver: (Req, Req) -> bool, x: nat)
    requires AllValid(reqs) && Sorted(reqs) && 0 < n <= |reqs|
    ensures var t := TraceOf(reqs, n, driver, x);
            (t.cur.Some? ==> OfRun(reqs, n, t.cur.value, driver, x)) && (t.done.From? ==> t.done.k < n - 1)
  {
    hide Joins, UpTo, TraceOf, OfRun, AllValid, Sorted, Shape, Joined, In, Start, End;
    if n > 1 {
      CurFrom(reqs, n - 1, driver, x);
      Shaped(reqs, n - 1, driver);
      ShapeEnd(reqs, n - 1, UpTo(reqs, n - 1, driver));
      var t, cur := TraceOf(reqs, n - 1, driver, x), UpTo(reqs, n - 1, driver).cur;
      TraceNext(reqs, n, driver, x);
      JoinedIs(reqs, n - 1, driver);
      if Joins(cur, reqs[n - 1], driver) {
        if t.cur.Some? { RunMore(reqs, n - 1, t.cur.value, driver, x); }
        if End(reqs[n - 2]) <= x < Start(reqs[n - 1]) { RunFilled(reqs, n - 1, driver, x); }
      }
      RunLast(reqs, n, driver, x);
      RunBelow(reqs, n - 1, t, driver, x);
    } else {
      RunLast(reqs, n, driver, x);
      TraceOne(reqs, driver, x);
    }
  }

  lemma TraceOne(reqs: seq<Req>, driver: (Req, Req) -> bool, x: nat)
    requires reqs != []
    ensures TraceOf(reqs, 1, driver, x) == Trace(Disk, if In(reqs[0], x) then Some(From(0)) else None)
  {
  }

  lemma JoinedIs(reqs: seq<Req>, n: nat, driver: (Req, Req) -> bool)
    requires 0 < n < |reqs|
    ensures Joined(reqs, n, driver) <==> Joins(UpTo(reqs, n, driver).cur, reqs[n], driver)
  {
  }

  lemma RunMore(reqs: seq<Req>, n: nat, src: Source, driver: (Req, Req) -> bool, x: nat)
    requires n < |reqs| && OfRun(reqs, n, src, driver, x) && Joined(reqs, n, driver)
    ensures OfRun(reqs, n + 1, src, driver, x)
  {
    hide Joined;
  }

  lemma RunFilled(reqs: seq<Req>, n: nat, driver: (Req, Req) -> bool, x: nat)
    requires 0 < n < |reqs| && Joined(reqs, n, driver) && End(reqs[n - 1]) <= x < Start(reqs[n])
    ensures OfRun(reqs, n + 1, Filled, driver, x)
  {
    hide Joined;
  }

  lemma RunLast(reqs: seq<Req>, n: nat, driver: (Req, Req) -> bool, x: nat)
    requires 0 < n <= |reqs|
    ensures In(reqs[n - 1], x) ==> OfRun(reqs, n, From(n - 1), driver, x)
  {
  }

  lemma RunBelow(reqs: seq<Req>, n: nat, t: Trace, driver: (Req, Req) -> bool, x: nat)
    requires (t.cur.Some? ==> OfRun(reqs, n, t.cur.value, driver, x)) && (t.done.From? ==> t.done.k < n)
    ensures Top(t).From? ==> Top(t).k < n
  {
  }

  lemma {:induction false} SourcesKept(reqs: seq<Req>, n: nat, driver: (Req, Req) -> bool, x: nat)
    requires AllValid(reqs) && Sorted(reqs) && 0 < n <= |reqs| && Touching(reqs, driver) && TailsKept(reqs, driver)
    ensures Top(TraceOf(reqs, n, driver, x)) == Last(reqs, n, x) || WrittenFrom(reqs, n, x)
  {
    if n > 1 {
      SourcesKept(reqs, n - 1, driver, x);
      CurFrom(reqs, n - 1, driver, x);
      Shaped(reqs, n - 1, driver);
      SourceKept(reqs, n - 1, UpTo(reqs, n - 1, driver), TraceOf(reqs, n - 1, driver, x), driver, x);
    }
  }

  lemma SourceKept(reqs: seq<Req>, n: nat, m: Merge, t: Trace, driver: (Req, Req) -> bool, x: nat)
    requires Sorted(reqs) && Touching(reqs, driver) && TailsKept(reqs, driver) && 0 < n < |reqs|
             && m == UpTo(reqs, n, driver)
    requires Shape(reqs, n, m) && (Top(t) == Last(reqs, n, x) || WrittenFrom(reqs, n, x))
    requires t.cur.Some? ==> OfRun(reqs, n, t.cur.value, driver, x)
    ensures Top(TraceStep(t, m.cur, n, reqs[n], driver, x)) == Last(reqs, n + 1, x) || WrittenFrom(reqs, n + 1, x)
  {
    hide Joins, UpTo, Flat, Shape;
    var r := reqs[n];
    assert Joins(m.cur, r, driver) <==> Joined(reqs, n, driver);
    assert End(m.cur) == End(reqs[n - 1]) by { ShapeEnd(reqs, n, m); }
    if Joined(reqs, n, driver) && t.cur.Some? && End(r) <= x {
      assert Together(reqs, t.cur.value.k, n, driver);
      assert WrittenAfter(reqs, n, x);
    }
    if WrittenFrom(reqs, n, x) && !In(r, x) {
      var k :| n <= k < |reqs| && In(reqs[k], x);
      assert n + 1 <= k;
    }
  }

  lemma ShapeEnd(reqs: seq<Req>, n: nat, m: Merge)
    requires 0 < n <= |reqs| && Shape(reqs, n, m)
    ensures End(m.cur) == End(reqs[n - 1])
  {
  }

  /** A filled gap stays where nothing later is written. */
  lemma {:induction false} FilledStays(reqs: seq<Req>, n: nat, n': nat, driver: (Req, Req) -> bool, x: nat)
    requires Sorted(reqs) && 0 < n <= n' <= |reqs| && x < Start(reqs[n - 1])
             && Top(TraceOf(reqs, n, driver, x)) == Filled
    ensures Top(TraceOf(reqs, n', driver, x)) == Filled
  {
    hide Joins, UpTo, Flat, TraceOf, End;
    if n < n' {
      FilledStays(reqs, n, n' - 1, driver, x);
      assert reqs[n - 1].sector <= reqs[n' - 1].sector;
      TraceNext(reqs, n', driver, x);
    }
  }

  /** A byte of request l that request j cut off and nothing after j writes stays lost. */
  lemma {:induction false} CutStays(reqs: seq<Req>, n: nat, driver: (Req, Req) -> bool, i: nat, j: nat, l: nat, x: nat)
    requires AllValid(reqs) && Sorted(reqs) && i <= l && i < j < n <= |reqs| && Together(reqs, i, j, driver)
    requires End(reqs[j]) <= x && !WrittenAfter(reqs, j, x) && l < j
    ensures Top(TraceOf(reqs, n, driver, x)) != From(l) && TraceOf(reqs, n, driver, x).done != From(l)
  {
    hide Joins, UpTo, Flat, AllValid, Sorted, WrittenAfter, TraceOf;
    TraceNext(reqs, n, driver, x);
    if n - 1 > j {
      CutStays(reqs, n - 1, driver, i, j, l, x);
      NotAfter(reqs, j, n - 1, x);
    } else {
      SameDone(reqs, i, j, driver, x);
      CurFrom(reqs, i + 1, driver, x);
      assert Joined(reqs, j, driver);
    }
  }

  lemma TraceNext(reqs: seq<Req>, n: nat, driver: (Req, Req) -> bool, x: nat)
    requires 1 < n <= |reqs|
    ensures TraceOf(reqs, n, driver, x) ==
            TraceStep(TraceOf(reqs, n - 1, driver, x), UpTo(reqs, n - 1, driver).cur, n - 1, reqs[n - 1], driver, x)
  {
  }

  /** Joining leaves the finished requests alone. */
  lemma {:induction false} SameDone(reqs: seq<Req>, i: nat, j: nat, driver: (Req, Req) -> bool, x: nat)
    requires i <= j < |reqs| && Together(reqs, i, j, driver)
    ensures TraceOf(reqs, j + 1, driver, x).done == TraceOf(reqs, i + 1, driver, x).done
  {
    if i < j {
      SameDone(reqs, i, j - 1, driver, x);
      assert Joined(reqs, j, driver);
    }
  }

  /** The condition on places is exact. */
  lemma SourcesExact(reqs: seq<Req>, driver: (Req, Req) -> bool)
    requires AllValid(reqs) && Sorted(reqs) && reqs != []
    ensures SameSources(reqs, driver) <==> Touching(reqs, driver) && TailsKept(reqs, driver)
  {
    hide TraceOf, Last, Sorted, AllValid, UpTo, Joins;
    if Touching(reqs, driver) && TailsKept(reqs, driver) {
      forall x ensures Top(TraceOf(reqs, |reqs|, driver, x)) ==
        Last(reqs, |reqs|, x) { SourcesKept(reqs, |reqs|, driver, x); }
    }
    if !Touching(reqs, driver) {
      var n :| 0 < n < |reqs| && Joined(reqs, n, driver) && Start(reqs[n]) > End(reqs[n - 1]);
      GapWrong(reqs, driver, n);
    }
    if !TailsKept(reqs, driver) {
      var i, j, x :| 0 <= i < j < |reqs| && Together(reqs, i, j, driver) && In(reqs[i], x) && End(reqs[j]) <= x
          && !WrittenAfter(reqs, j, x);
      TailWrong(reqs, driver, i, j, x);
    }
  }

  lemma GapWrong(reqs: seq<Req>, driver: (Req, Req) -> bool, n: nat)
    requires AllValid(reqs) && Sorted(reqs) && Joined(reqs, n, driver) && Start(reqs[n]) > End(reqs[n - 1])
    ensures !SameSources(reqs, driver)
  {
    var x := End(reqs[n - 1]);
    Shaped(reqs, n, driver);
    Traced(reqs, n, driver, _ => 0, x);
    hide Joins, UpTo, Flat, Last, Content;
    assert TraceOf(reqs, n + 1, driver, x).cur == Some(Filled);
    FilledStays(reqs, n + 1, |reqs|, driver, x);
    LastContent(reqs, |reqs|, _ => 0, x);
  }

  lemma TailWrong(reqs: seq<Req>, driver: (Req, Req) -> bool, i: nat, j: nat, x: nat)
    requires AllValid(reqs) && Sorted(reqs) && i < j < |reqs| && Together(reqs, i, j, driver)
    requires In(reqs[i], x) && End(reqs[j]) <= x && !WrittenAfter(reqs, j, x)
    ensures !SameSources(reqs, driver)
  {
    hide TraceOf, UpTo, Joins;
    var l := LastIs(reqs, |reqs|, i, j, x);
    CutStays(reqs, |reqs|, driver, i, j, l, x);
  }

  lemma {:induction false} LastIs(reqs: seq<Req>, n: nat, i: nat, j: nat, x: nat) returns (l: nat)
    requires i < j < |reqs| && i < n <= |reqs| && In(reqs[i], x) && End(reqs[j]) <= x && !WrittenAfter(reqs, j, x)
    ensures i <= l < j && Last(reqs, n, x) == From(l)
  {
    if In(reqs[n - 1], x) {
      l := n - 1;
    } else {
      l := LastIs(reqs, n - 1, i, j, x);
    }
  }

  // ------------------------------------------------------------ other contents

  /** Buffers of the same sizes. */
  ghost predicate SameSizes(a: seq<seq<Byte>>, b: seq<seq<Byte>>) {
    |a| == |b| && forall i :: 0 <= i < |a| ==> |a[i]| == |b[i]|
  }

  /** The same request but for the contents. */
  ghost predicate Like(a: Req, b: Req) { a.sector == b.sector && a.count == b.count && SameSizes(a.iov, b.iov) }

  ghost predicate Alike(a: seq<Req>, b: seq<Req>) { |a| == |b| && forall i :: 0 <= i < |a| ==> Like(a[i], b[i]) }

  /** The driver decides by place and size alone. */
  ghost predicate Blind(driver: (Req, Req) -> bool) {
    forall a, b, a', b' :: Like(a, a') && Like(b, b') ==> driver(a, b) == driver(a', b')
  }

  lemma {:induction false} FlatLike(a: seq<seq<Byte>>, b: seq<seq<Byte>>)
    requires SameSizes(a, b)
    ensures |Flat(a)| == |Flat(b)|
  {
    if a != [] { FlatLike(a[1..], b[1..]); }
  }

  lemma {:induction false} ConcatLike(a: seq<seq<Byte>>, b: seq<seq<Byte>>, n: nat)
    requires SameSizes(a, b)
    ensures SameSizes(Concat(a, n), Concat(b, n))
  {
    if n > 0 && a != [] {
      ConcatLike(a[1..], b[1..], n - if a[0] == [] then 0 else Min(|a[0]|, n));
    }
  }

  lemma JoinLike(cur: Req, r: Req, cur': Req, r': Req)
    requires Like(cur, cur') && Like(r, r')
    ensures Like(Join(cur, r), Join(cur', r'))
  {
    FlatLike(r.iov, r'.iov);
    ConcatLike(cur.iov, cur'.iov, if Start(r) >= Start(cur) then Start(r) - Start(cur) else 0);
    ConcatLike(r.iov, r'.iov, |Flat(r.iov)|);
    FlatLike(Join(cur, r).iov, Join(cur', r').iov);
  }

  lemma JoinsLike(cur: Req, r: Req, cur': Req, r': Req, driver: (Req, Req) -> bool)
    requires Like(cur, cur') && Like(r, r') && Blind(driver)
    ensures Joins(cur, r, driver) <==> Joins(cur', r', driver)
  {
  }

  /** Whatever the contents, the same requests merge and each byte has the same source. */
  lemma {:induction false} TraceLike(a: seq<Req>, b: seq<Req>, n: nat, driver: (Req, Req) -> bool, x: nat)
    requires Alike(a, b) && Blind(driver) && 0 < n <= |a|
    ensures Like(UpTo(a, n, driver).cur, UpTo(b, n, driver).cur)
    ensures TraceOf(a, n, driver, x) == TraceOf(b, n, driver, x) && Last(a, n, x) == Last(b, n, x)
  {
    hide Blind, Join, Joins, Flat, SameSizes;
    assert Like(a[n - 1], b[n - 1]);
    if n > 1 {
      TraceLike(a, b, n - 1, driver, x);
      var c, c' := UpTo(a, n - 1, driver).cur, UpTo(b, n - 1, driver).cur;
      JoinsLike(c, a[n - 1], c', b[n - 1], driver);
      JoinLike(c, a[n - 1], c', b[n - 1]);
    }
  }

  lemma AlikeValid(a: seq<Req>, b: seq<Req>)
    requires Alike(a, b) && AllValid(a) && Sorted(a)
    ensures AllValid(b) && Sorted(b)
  {
    forall i | 0 <= i < |b| ensures Valid(b[i]) {
      assert Like(a[i], b[i]);
      FlatLike(a[i].iov, b[i].iov);
    }
    assert forall i :: 0 <= i < |b| ==> Like(a[i], b[i]);
  }

  /** The request with one byte throughout. */
  ghost function Paint(r: Req, b: Byte): (p: Req)
    ensures Like(r, p)
  {
    r.(iov := seq(|r.iov|, i requires 0 <= i < |r.iov| => seq(|r.iov[i]|, _ => b)))
  }

  ghost predicate All(s: seq<Byte>, b: Byte) { forall i :: 0 <= i < |s| ==> s[i] == b }

  lemma {:induction false} FlatAll(iov: seq<seq<Byte>>, b: Byte)
    requires forall i :: 0 <= i < |iov| ==> All(iov[i], b)
    ensures All(Flat(iov), b)
  {
    if iov != [] { FlatAll(iov[1..], b); }
  }

  /** Request l is painted 1, all others 2. */
  ghost function Painted(reqs: seq<Req>, l: nat): (ps: seq<Req>)
    ensures Alike(reqs, ps) && forall k :: 0 <= k < |reqs| ==> ps[k] == Paint(reqs[k], if k == l then 1 else 2)
  {
    seq(|reqs|, k requires 0 <= k < |reqs| => Paint(reqs[k], if k == l then 1 else 2))
  }

  lemma PaintedValue(reqs: seq<Req>, l: nat, src: Source, x: nat)
    requires AllValid(Painted(reqs, l)) && SourceOk(Painted(reqs, l), |reqs|, src, x)
    ensures ValueOf(Painted(reqs, l), src, _ => 3, x) ==
            match src { case Disk => 3 case Filled => 0 case From(k) => if k == l then 1 else 2 }
  {
    if src.From? {
      var p := Painted(reqs, l)[src.k];
      FlatAll(p.iov, if src.k == l then 1 else 2);
      assert Valid(p);
    }
  }

  /** The merged requests write the same as the batch, on every disk and for all contents. */
  ghost predicate SameForAll(reqs: seq<Req>, driver: (Req, Req) -> bool)
    requires AllValid(reqs) && Sorted(reqs) && reqs != []
  {
    forall bs :: Alike(reqs, bs) ==> AllValid(bs) && SameFor(bs, driver)
  }

  ghost predicate SameFor(reqs: seq<Req>, driver: (Req, Req) -> bool) {
    && AllValid(reqs) && reqs != [] && AllValid(Outs(UpTo(reqs, |reqs|, driver)))
    && SameAlways(Outs(UpTo(reqs, |reqs|, driver)), reqs)
  }

  lemma SameIf(reqs: seq<Req>, bs: seq<Req>, driver: (Req, Req) -> bool)
    requires AllValid(reqs) && Sorted(reqs) && reqs != [] && Blind(driver) && SameSources(reqs, driver)
             && Alike(reqs, bs)
    ensures AllValid(bs) && SameFor(bs, driver)
  {
    hide Blind, UpTo, Content, TraceOf, Last, Valid, Like, ValueOf, Outs;
    AlikeValid(reqs, bs);
    forall disk: nat -> Byte, x: nat
      ensures AllValid(Outs(UpTo(bs, |bs|, driver)))
              && Content(Outs(UpTo(bs, |bs|, driver)), disk, x) == Content(bs, disk, x)
    {
      TraceLike(reqs, bs, |reqs|, driver, x);
      ContentTraced(bs, driver, disk, x);
    }
    ContentTraced(bs, driver, _ => 0, 0);
  }

  lemma SameOnlyIf(reqs: seq<Req>, driver: (Req, Req) -> bool)
    requires AllValid(reqs) && Sorted(reqs) && reqs != [] && Blind(driver) && SameForAll(reqs, driver)
    ensures SameSources(reqs, driver)
  {
    hide Blind, UpTo, Content, TraceOf, Last, Valid, Like, ValueOf, Outs, Sorted, SourceOk;
    forall x ensures Top(TraceOf(reqs, |reqs|, driver, x)) == Last(reqs, |reqs|, x) {
      var last := Last(reqs, |reqs|, x);
      var l := if last.From? then last.k else |reqs|;
      var ps := Painted(reqs, l);
      AlikeValid(reqs, ps);
      TraceLike(reqs, ps, |reqs|, driver, x);
      ContentTraced(ps, driver, _ => 3, x);
      assert SameFor(ps, driver);
      PaintedValue(reqs, l, last, x);
      PaintedValue(reqs, l, Top(TraceOf(ps, |ps|, driver, x)), x);
    }
  }

  /** For every batch and every driver that does not look at contents: merging keeps what the
      batch writes, on every disk and for all contents, if and only if nothing was merged
      across a gap and every tail cut off by a merge is written again. */
  lemma MergeExactAll(reqs: seq<Req>, driver: (Req, Req) -> bool)
    requires AllValid(reqs) && Sorted(reqs) && reqs != [] && Blind(driver)
    ensures SameForAll(reqs, driver) <==> Touching(reqs, driver) && TailsKept(reqs, driver)
  {
    hide SameForAll, SameSources, Touching, TailsKept, Blind, Sorted, AllValid;
    SourcesExact(reqs, driver);
    if SameSources(reqs, driver) { AllSame(reqs, driver); }
    if SameForAll(reqs, driver) { SameOnlyIf(reqs, driver); }
  }

  lemma AllSame(reqs: seq<Req>, driver: (Req, Req) -> bool)
    requires AllValid(reqs) && Sorted(reqs) && reqs != [] && Blind(driver) && SameSources(reqs, driver)
    ensures SameForAll(reqs, driver)
  {
    hide SameSources, Blind, Sorted, SameFor, Alike;
    forall bs | Alike(reqs, bs) ensures AllValid(bs) && SameFor(bs, driver) { SameIf(reqs, bs, driver); }
  }

  // ------------------------------------------------------------ in place

  /** multiwrite_merge, after the sort: the array's first out entries are the merged
      requests. */
  method MergeInPlace(reqs: array<Req>, driver: (Req, Req) -> bool) returns (out: nat)
    requires reqs.Length > 0
    modifies reqs
    ensures 0 < out <= reqs.Length && reqs[..out] == Outs(UpTo(old(reqs[..]), reqs.Length, driver))
  {
    hide Join, Flat, Joins, UpTo;
    var outidx, i := 0, 1;
    ghost var all := reqs[..];
    UpToOne(all, driver);
    while i < reqs.Length
      invariant outidx < i <= reqs.Length && reqs[i..] == all[i..]
      invariant reqs[..outidx] == UpTo(all, i, driver).done && reqs[outidx] == UpTo(all, i, driver).cur
    {
      assert reqs[i] == all[i] by { assert reqs[i..][0] == all[i..][0]; }
      UpToStep(all, i + 1, driver);
      if Joins(reqs[outidx], reqs[i], driver) {
        reqs[outidx] := Join(reqs[outidx], reqs[i]);
      } else {
        assert reqs[..outidx + 1] == reqs[..outidx] + [reqs[outidx]];
        outidx := outidx + 1;
        reqs[outidx] := reqs[i];
      }
      i := i + 1;
      assert reqs[i..] == all[i..];
    }
    assert reqs[..outidx + 1] == reqs[..outidx] + [reqs[outidx]];
    return outidx + 1;
  }

  /** A long write and then a short one at the same place: the long one's tail is lost, also
      for a driver that never merges across gaps. */
  lemma TailLost(driver: (Req, Req) -> bool)
    requires forall a, b :: !driver(a, b)
    ensures var reqs := [Req(0, 2, [Zeros(1024)]), Req(0, 1, [Zeros(512)])];
            && AllValid(reqs) && Sorted(reqs) && AllValid(Outs(UpTo(reqs, 2, driver)))
            && !SameAlways(Outs(UpTo(reqs, 2, driver)), reqs)
  {
    var reqs := [Req(0, 2, [Zeros(1024)]), Req(0, 1, [Zeros(512)])];
    assert Flat(reqs[0].iov) == Zeros(1024) + Flat([]) && Flat(reqs[1].iov) == Zeros(512) + Flat([]);
    assert In(reqs[0], 512) && End(reqs[1]) <= 512 && !WrittenAfter(reqs, 1, 512);
    assert Buffers(reqs) == 2 by {
      assert reqs[..1] == [reqs[0]] && reqs[..1][..0] == [];
      assert Buffers(reqs[..1]) == 1;
    }
    hide Flat, Zeros, UpTo, Content, Buffers, WrittenAfter, Valid;
    assert !TailsCovered(reqs);
    MergeExact(reqs, driver);
  }
}
