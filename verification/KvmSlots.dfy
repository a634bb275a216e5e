/** KVM memory slots (kvm-all.c): a fixed table of slots holding a partial map
    from guest physical pages to RAM offsets, and the splitter that overrides
    one address range of that map. */
module KvmSlots {
  import opened Machine

  const SLOTS := 32
  const IO_MEM_ROM := 8
  const IO_MEM_UNASSIGNED := 16

  datatype Slot = Slot(start: nat, size: nat, phys: nat)

  /** Slots 8..11 belong to KVM and are never handed out. */
  predicate Private(i: int) { 8 <= i < 12 }

  predicate Covers(m: Slot, a: nat) { m.start <= a < m.start + m.size }

  /** The RAM offset n bytes on from p, in its 64 bits. */
  function Offset(p: int, n: int): (r: nat)
    ensures r < WORD64
  {
    (p + n) % WORD64
  }

  lemma OffsetAdd(p: int, n: int, k: int)
    ensures Offset(Offset(p, n), k) == Offset(p, n + k)
  {
    var q := (p + n) / WORD64;
    assert p + n + k == (p + n) % WORD64 + k + q * WORD64;
    SameRest((p + n) % WORD64 + k, q);
  }

  lemma SameRest(a: int, q: int)
    ensures (a + q * WORD64) % WORD64 == a % WORD64
  {
    var b := a / WORD64;
    assert a + q * WORD64 == a % WORD64 + (b + q) * WORD64;
  }

  lemma OffsetZero(p: nat)
    requires p < WORD64
    ensures Offset(p, 0) == p
  {
  }

  /** The RAM offset behind address a, when phys is behind address start. */
  function Back(start: int, phys: int, a: int): (r: nat) { Offset(phys, a - start) }

  lemma BackStart(start: int, phys: nat)
    requires phys < WORD64
    ensures Back(start, phys, start) == phys
  {
  }

  lemma BackShift(start: int, phys: int, n: int)
    ensures forall a: nat :: Back(start + n, Offset(phys, n), a) == Back(start, phys, a)
  {
    forall a: nat
      ensures Back(start + n, Offset(phys, n), a) == Back(start, phys, a)
    {
      OffsetAdd(phys, n, a - (start + n));
    }
  }

  /** The guest address a is backed by RAM offset p. */
  ghost predicate MapsTo(s: seq<Slot>, a: nat, p: int) {
    exists i :: 0 <= i < |s| && Covers(s[i], a) && p == Back(s[i].start, s[i].phys, a)
  }

  ghost predicate Disjoint(s: seq<Slot>) {
    forall i, j, a: nat :: 0 <= i < |s| && 0 <= j < |s| && Covers(s[i], a) && Covers(s[j], a) ==> i == j
  }

  ghost predicate WellFormed(s: seq<Slot>) {
    && |s| == SLOTS
    && (forall i :: 0 <= i < |s| && Private(i) ==> s[i].size == 0)
    && (forall i :: 0 <= i < |s| ==> s[i].start + s[i].size < WORD64 && s[i].phys < WORD64)
    && Disjoint(s)
  }

  /** How many of the slots from i on could be handed out. */
  function Free(s: seq<Slot>, i: nat): nat
    requires i <= |s|
    decreases |s| - i
  {
    if i == |s| then 0
    else (if !Private(i) && s[i].size == 0 then 1 else 0) + Free(s, i + 1)
  }

  lemma {:induction false} FreeUpdate(s: seq<Slot>, k: nat, m: Slot, i: nat)
    requires k < |s| && i <= |s|
    ensures Free(s[k := m], i) ==
            Free(s, i)
            + (if i <= k && !Private(k) && m.size == 0 then 1 else 0)
            - (if i <= k && !Private(k) && s[k].size == 0 then 1 else 0)
    decreases |s| - i
  {
    if i < |s| { FreeUpdate(s, k, m, i + 1); }
  }

  lemma {:induction false} FreeZero(s: seq<Slot>, i: nat)
    requires i <= |s|
    requires forall j :: i <= j < |s| && !Private(j) ==> s[j].size != 0
    ensures Free(s, i) == 0
    decreases |s| - i
  {
    if i < |s| { FreeZero(s, i + 1); }
  }

  /** The overlap test of the lookup, written without wrapping additions. */
  predicate Overlaps(m: Slot, start: nat, size: nat) {
    m.size != 0 &&
    if start <= m.start then m.start - start < size else start - m.start < m.size
  }

  /** How many slots overlap the range: the variant of the splitter's loop. */
  ghost function Overlapping(s: seq<Slot>, start: nat, size: nat): set<int> {
    set i | 0 <= i < |s| && Overlaps(s[i], start, size)
  }

  /** What one call must turn the map into: the new mapping inside the range
      (nothing there for non-memory), the old one elsewhere. */
  ghost predicate Overridden(s0: seq<Slot>, s: seq<Slot>, start: nat, size: nat, phys: int, isMem: bool) {
    forall a: nat, p: int ::
      MapsTo(s, a, p) <==>
      if start <= a < start + size then isMem && p == Back(start, phys, a) else MapsTo(s0, a, p)
  }

  /** The map outside the range is the old one. */
  ghost predicate SameOutside(s0: seq<Slot>, s: seq<Slot>, start: nat, size: nat) {
    forall a: nat, p: int :: !(start <= a < start + size) ==> (MapsTo(s, a, p) <==> MapsTo(s0, a, p))
  }

  /** Registering m in the empty slot k adds exactly m's mapping. */
  lemma MapsToSet(s: seq<Slot>, k: nat, m: Slot)
    requires k < |s| && s[k].size == 0
    ensures forall a: nat, p: int ::
              MapsTo(s[k := m], a, p) <==> (MapsTo(s, a, p) || (Covers(m, a) && p == Back(m.start, m.phys, a)))
  {
    var t := s[k := m];
    forall a: nat, p: int
      ensures MapsTo(t, a, p) <==> (MapsTo(s, a, p) || (Covers(m, a) && p == Back(m.start, m.phys, a)))
    {
      if MapsTo(s, a, p) {
        var i :| 0 <= i < |s| && Covers(s[i], a) && p == Back(s[i].start, s[i].phys, a);
        assert i != k;
        assert t[i] == s[i];
      }
      if Covers(m, a) && p == Back(m.start, m.phys, a) { assert t[k] == m; }
    }
  }

  /** ... and keeps the slots disjoint when nothing was mapped there. */
  lemma DisjointSet(s: seq<Slot>, k: nat, m: Slot)
    requires k < |s| && Disjoint(s) && s[k].size == 0
    requires forall a: nat, p: int :: Covers(m, a) ==> !MapsTo(s, a, p)
    ensures Disjoint(s[k := m])
  {
    forall i, a: nat | 0 <= i < |s| && i != k && Covers(s[i], a)
      ensures !Covers(m, a)
    {
      assert MapsTo(s, a, Back(s[i].start, s[i].phys, a));
    }
  }

  /** Unregistering slot k removes exactly its mapping. */
  lemma MapsToClear(s: seq<Slot>, k: nat)
    requires k < |s| && Disjoint(s)
    ensures forall a: nat, p: int ::
              MapsTo(s[k := s[k].(size := 0)], a, p) <==> (MapsTo(s, a, p) && !Covers(s[k], a))
  {
    var t := s[k := s[k].(size := 0)];
    forall a: nat, p: int
      ensures MapsTo(t, a, p) <==> (MapsTo(s, a, p) && !Covers(s[k], a))
    {
      if MapsTo(s, a, p) && !Covers(s[k], a) {
        var i :| 0 <= i < |s| && Covers(s[i], a) && p == Back(s[i].start, s[i].phys, a);
        assert t[i] == s[i];
      }
      if MapsTo(t, a, p) {
        var i :| 0 <= i < |t| && Covers(t[i], a) && p == Back(t[i].start, t[i].phys, a);
        assert i != k && s[i] == t[i];
      }
    }
  }

  predicate IsMemory(physOffset: nat) { physOffset % PAGE < IO_MEM_UNASSIGNED }

  /** physOffset with the IO_MEM_ROM bit cleared. */
  function WithoutRom(physOffset: nat): (r: nat)
    ensures r <= physOffset
  {
    if physOffset / IO_MEM_ROM % 2 == 1 then physOffset - IO_MEM_ROM else physOffset
  }

  /** On how many sides a slot sticks out of the range. */
  function Sticks(m: Slot, start: nat, size: nat): nat {
    (if m.start < start then 1 else 0) + (if m.start + m.size > start + size then 1 else 0)
  }

  ghost predicate Straddled(s: seq<Slot>, start: nat, size: nat) {
    exists i :: 0 <= i < |s| && Overlaps(s[i], start, size) && Sticks(s[i], start, size) == 2
  }

  lemma NoOverlap(s: seq<Slot>, start: nat, size: nat)
    requires Overlapping(s, start, size) == {}
    ensures MapsNone(s, start, size)
  {
    forall i | 0 <= i < |s|
      ensures !Overlaps(s[i], start, size)
    {
      assert i !in Overlapping(s, start, size);
    }
  }

  lemma NothingInside(s: seq<Slot>, start: nat, size: nat)
    requires forall i :: 0 <= i < |s| ==> !Overlaps(s[i], start, size)
    ensures MapsNone(s, start, size)
  {
  }

  ghost predicate MapsNone(s: seq<Slot>, start: nat, size: nat) {
    forall a: nat, p: int :: start <= a < start + size ==> !MapsTo(s, a, p)
  }

  /** A slot that sticks out on both sides is the only overlapping one. */
  lemma StraddlerAlone(s: seq<Slot>, k: nat, start: nat, size: nat)
    requires Disjoint(s) && k < |s| && Overlaps(s[k], start, size)
    ensures Sticks(s[k], start, size) == 2 ==> Overlapping(s, start, size) == {k}
  {
    forall i | Sticks(s[k], start, size) == 2 && 0 <= i < |s| && Overlaps(s[i], start, size)
      ensures i == k
    {
      var a := if s[i].start <= start then start else s[i].start;
      assert Covers(s[i], a) && Covers(s[k], a);
    }
  }

  /** The end of a range, in the 64 bits the code computes it in. */
  function EndOf(start: nat, size: nat): (r: nat) { (start + size) % WORD64 }

  /** The test of the code that the range lies in slot m, with the same displacement. */
  predicate Fits(m: Slot, start: nat, size: nat, phys: nat) {
    && m.start <= start && EndOf(start, size) <= EndOf(m.start, m.size)
    && (phys - start) % WORD64 == (m.phys - m.start) % WORD64
  }

  /** One slot holds the whole range already, with the same displacement. */
  ghost predicate Held(s: seq<Slot>, start: nat, size: nat, phys: nat) {
    exists k :: 0 <= k < |s| && Holds(s[k], start, size, phys)
  }

  ghost predicate Holds(m: Slot, start: nat, size: nat, phys: nat) {
    && 0 < size && m.start <= start && start + size <= m.start + m.size
    && (phys - start) % WORD64 == (m.phys - m.start) % WORD64
  }

  lemma HeldOverlaps(s: seq<Slot>, start: nat, size: nat, phys: nat)
    requires Held(s, start, size, phys)
    ensures exists k :: 0 <= k < |s| && Overlaps(s[k], start, size)
  {
    var k :| 0 <= k < |s| && Holds(s[k], start, size, phys);
    assert Overlaps(s[k], start, size);
  }

  /** Then that slot is the one that is looked at, and it fits. */
  lemma HeldFits(s: seq<Slot>, k: nat, start: nat, size: nat, phys: nat)
    requires WellFormed(s) && k < |s| && Overlaps(s[k], start, size) && Held(s, start, size, phys)
    ensures start + size < WORD64 && Fits(s[k], start, size, phys)
  {
    var i :| 0 <= i < |s| && Holds(s[i], start, size, phys);
    var a := if s[k].start <= start then start else s[k].start;
    assert Covers(s[i], a) && Covers(s[k], a);
    EndsOf(s[i], start, size);
  }

  /** Ranges that end at 2^64 are told apart wrongly: the range of the last two pages passes
      for a part of a slot that is only the first of them, and the call returns with the
      second page unmapped. */
  lemma EndWraps()
    ensures var s := OneSlot(Slot(WORD64 - 2 * PAGE, PAGE, 0));
            && WellFormed(s) && Overlapping(s, s[0].start, 2 * PAGE) == {0} && Fits(s[0], s[0].start, 2 * PAGE, 0)
            && !Overridden(s, s, s[0].start, 2 * PAGE, 0, true)
  {
    var s := OneSlot(Slot(WORD64 - 2 * PAGE, PAGE, 0));
    assert WellFormed(s);
    TopUnmapped(s, s[0].start, 2 * PAGE, 0);
  }

  /** No slot reaches the end of the address space, so no range that does is mapped. */
  lemma TopUnmapped(s: seq<Slot>, start: nat, size: nat, phys: int)
    requires WellFormed(s) && size > 0 && start + size == WORD64
    ensures forall s0 :: !Overridden(s0, s, start, size, phys, true)
  {
    forall s0
      ensures !Overridden(s0, s, start, size, phys, true)
    {
      assert !MapsTo(s, WORD64 - 1, Back(start, phys, WORD64 - 1));
    }
  }

  lemma FitsAlready(s: seq<Slot>, k: nat, start: nat, size: nat, phys: nat)
    requires WellFormed(s) && k < |s|
    requires Fits(s[k], start, size, phys) && start + size < WORD64
    ensures !Leads(s[k], start, size)
    ensures MapsRange(s, start, size, phys)
  {
    hide Fits, WellFormed, MapsTo, Disjoint, Offset, Back;
    WellFormedAt(s, k);
    FitsMeans(s[k], start, size, phys);
  }

  lemma FitsMeans(m: Slot, start: nat, size: nat, phys: nat)
    requires m.start + m.size < WORD64 && start + size < WORD64 && Fits(m, start, size, phys)
    ensures m.start <= start && start + size <= m.start + m.size
    ensures forall a: nat :: Back(start, phys, a) == Back(m.start, m.phys, a)
  {
    EndsOf(m, start, size);
    hide EndOf;
    forall a: nat
      ensures Back(start, phys, a) == Back(m.start, m.phys, a)
    {
      SameOffset(phys - start, m.phys - m.start, a);
    }
  }

  lemma SameOffset(p: int, q: int, a: nat)
    requires p % WORD64 == q % WORD64
    ensures (p + a) % WORD64 == (q + a) % WORD64
  {
    OffsetAdd(p, 0, a);
    OffsetAdd(q, 0, a);
  }

  /** Inside slot k only slot k speaks. */
  lemma MapsToOwn(s: seq<Slot>, k: nat)
    requires k < |s| && Disjoint(s)
    ensures forall a: nat, p: int :: Covers(s[k], a) ==> (MapsTo(s, a, p) <==> p == Back(s[k].start, s[k].phys, a))
  {
  }

  /** At most one slot of the f0 free ones is spent, and none of them while a
      slot straddles the range. */
  ghost predicate Budget(s: seq<Slot>, start: nat, size: nat, f0: int) {
    Free(s, 0) >= f0 || (Free(s, 0) >= f0 - 1 && !Straddled(s, start, size))
  }

  lemma BudgetKept(s: seq<Slot>, t: seq<Slot>, k: nat, start: nat, size: nat, f0: int)
    requires |s| == |t| && Disjoint(s) && k < |s| && Overlaps(s[k], start, size)
    requires Budget(s, start, size, f0)
    requires Free(t, 0) == Free(s, 0) + 1 - Sticks(s[k], start, size)
    requires Overlapping(t, start, size) == Overlapping(s, start, size) - {k}
    requires forall i :: i in Overlapping(t, start, size) ==> t[i] == s[i]
    ensures Budget(t, start, size, f0)
    ensures |Overlapping(t, start, size)| < |Overlapping(s, start, size)|
  {
    assert k in Overlapping(s, start, size);
    StraddlerAlone(s, k, start, size);
    if Straddled(t, start, size) {
      var i :| 0 <= i < |t| && Overlaps(t[i], start, size) && Sticks(t[i], start, size) == 2;
      assert i in Overlapping(t, start, size);
      StraddlerAlone(s, i, start, size);
      assert false;
    }
  }

  lemma WellFormedAt(s: seq<Slot>, k: nat)
    requires WellFormed(s) && k < |s|
    ensures |s| == SLOTS && Disjoint(s)
    ensures s[k].start + s[k].size < WORD64 && s[k].phys < WORD64
    ensures forall a: nat, p: int :: Covers(s[k], a) ==> (MapsTo(s, a, p) <==> p == Back(s[k].start, s[k].phys, a))
  {
  }

  /** The mapping loses exactly what slot k held inside the range. */
  ghost predicate Trimmed(s0: seq<Slot>, s: seq<Slot>, k: nat, start: nat, size: nat)
    requires k < |s0|
  {
    forall a: nat, p: int ::
      MapsTo(s, a, p) <==> (MapsTo(s0, a, p) && !(Covers(s0[k], a) && start <= a < start + size))
  }

  /** The mapping gains exactly slot m's (nothing when m is empty). */
  ghost predicate Added(s: seq<Slot>, t: seq<Slot>, m: Slot) {
    forall a: nat, p: int :: MapsTo(t, a, p) <==> (MapsTo(s, a, p) || (Covers(m, a) && p == Back(m.start, m.phys, a)))
  }

  /** t is s with m in one of the empty slots, or s itself when m is empty. */
  ghost predicate Filled(s: seq<Slot>, t: seq<Slot>, m: Slot) {
    && |t| == |s|
    && (if m.size == 0 then t == s else exists j :: 0 <= j < |s| && s[j].size == 0 && t == s[j := m])
    && Free(t, 0) == Free(s, 0) - (if m.size == 0 then 0 else 1)
    && Added(s, t, m)
  }

  lemma FilledNone(s: seq<Slot>, m: Slot)
    ensures m.size == 0 ==> Filled(s, s, m)
  {
  }

  lemma FilledOutside(s: seq<Slot>, t: seq<Slot>, m: Slot, start: nat, size: nat)
    requires Filled(s, t, m) && !Overlaps(m, start, size)
    ensures Overlapping(t, start, size) == Overlapping(s, start, size)
    ensures forall i :: i in Overlapping(t, start, size) ==> t[i] == s[i]
  {
    hide Free, Added, Overlaps;
    if m.size > 0 {
      var j :| 0 <= j < |s| && s[j].size == 0 && t == s[j := m];
      EmptyOut(s[j], start, size);
      assert forall i :: 0 <= i < |s| && i != j ==> t[i] == s[i];
    }
  }

  lemma EmptyOut(m: Slot, start: nat, size: nat)
    ensures m.size == 0 ==> !Overlaps(m, start, size)
  {
  }

  lemma OverlapsUsed(m: Slot, start: nat, size: nat)
    requires Overlaps(m, start, size)
    ensures m.size > 0 && m.start <= start + size && start < m.start + m.size
  {
  }

  lemma FilledBottom(s: seq<Slot>, t: seq<Slot>, m: Slot, start: nat, size: nat)
    requires Filled(s, t, m) && m.start == 0 && 0 < start < m.size
    ensures BottomOverlaps(t, start, size)
  {
    hide Free, Added;
    var j :| 0 <= j < |s| && s[j].size == 0 && t == s[j := m];
    assert t[j] == m && Overlaps(m, start, size);
  }

  lemma PrefixFree(s0: seq<Slot>, s1: seq<Slot>, m: Slot, start: nat)
    requires Removed(s0, s1, m) && m.start < start < m.start + m.size < WORD64
    ensures Prefix(m, start) == Slot(m.start, start - m.start, m.phys)
    ensures !Refused(s1, Prefix(m, start))
  {
    hide MapsTo, Refused;
    RefusedMeans(s1, Prefix(m, start));
  }

  /** What is registered behind the range finds its place free, unless the range ends at
      2^64 and there is a prefix. */
  lemma SuffixFree(s0: seq<Slot>, s1: seq<Slot>, s2: seq<Slot>, m: Slot, start: nat, size: nat)
    requires Removed(s0, s1, m) && Filled(s1, s2, Prefix(m, start))
    requires m.start + m.size < WORD64 && start < WORD64 && start + size <= WORD64 && Overlaps(m, start, size)
    ensures start + size < m.start + m.size ==> !Refused(s2, Rest(m, EndOf(start, size)))
    ensures start + size == WORD64 && m.start < start ==> Refused(s2, Rest(m, EndOf(start, size)))
  {
    hide MapsTo, Free, Offset, Back, Rest, EndOf, Removed, Refused;
    EndsOf(m, start, size);
    RestIs(m, start, size);
    OverlapsUsed(m, start, size);
    if start + size < m.start + m.size { SuffixVacant(s0, s1, s2, m, start, start + size); }
    if start + size == WORD64 && m.start < start { MeetsPrefix(s1, s2, m, start); }
  }

  lemma SuffixVacant(s0: seq<Slot>, s1: seq<Slot>, s2: seq<Slot>, m: Slot, start: nat, end: nat)
    requires Removed(s0, s1, m) && Added(s1, s2, Prefix(m, start))
    requires m.start <= end && start <= end < m.start + m.size < WORD64
    ensures !Refused(s2, Suffix(m, end))
  {
    hide MapsTo, Refused, Offset, Back;
    RefusedMeans(s2, Suffix(m, end));
  }

  lemma MeetsPrefix(s1: seq<Slot>, s2: seq<Slot>, m: Slot, start: nat)
    requires Filled(s1, s2, Prefix(m, start)) && m.start < start < m.start + m.size
    ensures forall r: Slot :: r.start == 0 && r.size == m.start + m.size ==> Refused(s2, r)
  {
    hide Free, Added;
    var pre := Prefix(m, start);
    var j :| 0 <= j < |s1| && s1[j].size == 0 && s2 == s1[j := pre];
    assert Overlaps(s2[j], 0, m.start + m.size);
  }

  lemma EndsOf(m: Slot, start: nat, size: nat)
    requires m.start + m.size < WORD64 && start + size <= WORD64
    ensures EndOf(m.start, m.size) == m.start + m.size
    ensures EndOf(start, size) == if start + size == WORD64 then 0 else start + size
  {
  }

  lemma ApartBy(s0: seq<Slot>, s1: seq<Slot>, s2: seq<Slot>, s3: seq<Slot>, k: nat, start: nat, size: nat)
    requires k < |s0| && Disjoint(s0) && Overlaps(s0[k], start, size)
    requires s1 == s0[k := s0[k].(size := 0)] && Free(s1, 0) == Free(s0, 0) + 1 && Removed(s0, s1, s0[k])
    requires Filled(s1, s2, Prefix(s0[k], start)) && Filled(s2, s3, Suffix(s0[k], start + size))
    ensures |s3| == |s0| && TakenApart(s0, s3, k, start, size)
  {
    hide MapsTo, Free, Offset, Back, Removed, Added;
    EmptyOut(s1[k], start, size);
    assert Overlapping(s1, start, size) == Overlapping(s0, start, size) - {k};
    FilledOutside(s1, s2, Prefix(s0[k], start), start, size);
    FilledOutside(s2, s3, Suffix(s0[k], start + size), start, size);
    MapsToOwn(s0, k);
    TrimmedBy(s0, s1, s2, s3, k, start, size);
  }

  /** Slot k is taken apart: its overlap with the range goes, what sticks out stays in
      slots of its own, and no other overlapping slot changes. */
  ghost predicate TakenApart(s: seq<Slot>, t: seq<Slot>, k: nat, start: nat, size: nat)
    requires k < |s| == |t|
  {
    && Free(t, 0) == Free(s, 0) + 1 - Sticks(s[k], start, size)
    && Overlapping(t, start, size) == Overlapping(s, start, size) - {k}
    && (forall i :: i in Overlapping(t, start, size) ==> t[i] == s[i])
    && Trimmed(s, t, k, start, size)
  }

  ghost predicate Removed(s: seq<Slot>, t: seq<Slot>, m: Slot) {
    forall a: nat, p: int :: MapsTo(t, a, p) <==> (MapsTo(s, a, p) && !Covers(m, a))
  }

  /** What sticks out of the range below and above. */
  function Prefix(m: Slot, start: nat): Slot { Slot(m.start, if m.start < start then start - m.start else 0, m.phys) }

  function Suffix(m: Slot, end: nat): Slot {
    if m.start + m.size > end && end >= m.start then
      Slot(end, m.start + m.size - end, Offset(m.phys, end - m.start))
    else Slot(end, 0, m.phys)
  }

  /** What the code registers again of m from the end of the range on. */
  function Rest(m: Slot, end: nat): Slot {
    var delta := (end - m.start) % WORD64;
    Slot(end, (m.size - delta) % WORD64, Offset(m.phys, delta))
  }

  /** It is what sticks out, unless the range ends at 2^64: then it is everything below. */
  lemma RestIs(m: Slot, start: nat, size: nat)
    requires m.start + m.size < WORD64 && start + size <= WORD64 && Overlaps(m, start, size)
    ensures start + size < m.start + m.size ==> Rest(m, start + size) == Suffix(m, start + size)
    ensures m.start + m.size <= start + size ==> Suffix(m, start + size).size == 0
    ensures start + size < m.start + m.size ==> Rest(m, start + size).size > 0 && Rest(m, start + size).phys < WORD64
    ensures Rest(m, 0).phys < WORD64
    ensures Rest(m, 0).start == 0 && (start + size == WORD64 ==> Rest(m, 0).size == m.start + m.size)
  {
    hide Offset, Back;
    var d := start + size - m.start;
    if start + size < m.start + m.size {
      assert d % WORD64 == d && (m.size - d) % WORD64 == m.size - d;
    }
    if m.start > 0 { assert (0 - m.start) % WORD64 == WORD64 - m.start; }
    assert (m.size - (WORD64 - m.start)) % WORD64 == m.start + m.size by { SameRest(m.size + m.start, -1); }
  }

  /** Some slot from address 0 on reaches into the range. */
  ghost predicate BottomOverlaps(s: seq<Slot>, start: nat, size: nat) {
    exists i :: 0 <= i < |s| && s[i].start == 0 && Overlaps(s[i], start, size)
  }

  lemma TrimmedBy(s0: seq<Slot>, s1: seq<Slot>, s2: seq<Slot>, s3: seq<Slot>, k: nat, start: nat, size: nat)
    requires k < |s0| && Overlaps(s0[k], start, size)
    requires forall a: nat, p: int :: Covers(s0[k], a) ==> (MapsTo(s0, a, p) <==> p == Back(s0[k].start, s0[k].phys, a))
    requires Removed(s0, s1, s0[k])
    requires Added(s1, s2, Prefix(s0[k], start)) && Added(s2, s3, Suffix(s0[k], start + size))
    ensures Trimmed(s0, s3, k, start, size)
  {
    hide MapsTo, Offset, Back;
    var m := s0[k];
    BackShift(m.start, m.phys, start + size - m.start);
  }

  /** A free place for m: nothing is mapped there. */
  ghost predicate Vacant(s: seq<Slot>, m: Slot) {
    forall a: nat, p: int :: Covers(m, a) ==> !MapsTo(s, a, p)
  }

  /** KVM refuses a slot whose end passes the last address or that meets another slot. */
  predicate Refused(s: seq<Slot>, m: Slot) {
    m.start + m.size >= WORD64 || exists i :: 0 <= i < |s| && Overlaps(s[i], m.start, m.size)
  }

  lemma RefusedMeans(s: seq<Slot>, m: Slot)
    requires m.size > 0
    ensures Refused(s, m) <==> m.start + m.size >= WORD64 || !Vacant(s, m)
  {
    if i :| 0 <= i < |s| && Overlaps(s[i], m.start, m.size) {
      var a := if s[i].start <= m.start then m.start else s[i].start;
      assert Covers(m, a) && Covers(s[i], a);
      assert MapsTo(s, a, Back(s[i].start, s[i].phys, a));
    }
  }

  /** The slots in use, wherever they stand in the table. */
  ghost function Pieces(s: seq<Slot>): set<Slot> { set i | 0 <= i < |s| && s[i].size > 0 :: s[i] }

  /** m begins the range and ends before it does. */
  ghost predicate Leads(m: Slot, start: nat, size: nat) { m.start == start && 0 < m.size < size }

  ghost predicate Led(ps: set<Slot>, start: nat, size: nat) { exists m :: m in ps && Leads(m, start, size) }

  ghost function Leader(ps: set<Slot>, start: nat, size: nat): (m: Slot)
    requires Led(ps, start, size)
    ensures m in ps && Leads(m, start, size)
  {
    var m :| m in ps && Leads(m, start, size);
    m
  }

  /** How many bytes at the start of the range the workaround for older KVM versions
      leaves as they are: those of the adjacent slots that lead it. */
  ghost function Kept(ps: set<Slot>, start: nat, size: nat): (n: nat)
    ensures n <= size
    decreases size
  {
    if Led(ps, start, size) then
      var m := Leader(ps, start, size);
      m.size + Kept(ps, start + m.size, size - m.size)
    else 0
  }

  /** Those slots already hold what the call asks for. */
  ghost predicate KeptRight(ps: set<Slot>, start: nat, size: nat, phys: nat)
    decreases size
  {
    Led(ps, start, size) ==>
      var m := Leader(ps, start, size);
      m.phys == phys && KeptRight(ps, start + m.size, size - m.size, Offset(phys, m.size))
  }

  /** On the range s maps a to phys + (a - start). */
  ghost predicate MapsRange(s: seq<Slot>, start: nat, size: nat, phys: int) {
    forall a: nat, p: int :: start <= a < start + size ==> (MapsTo(s, a, p) <==> p == Back(start, phys, a))
  }

  lemma PieceMaps(s: seq<Slot>, m: Slot)
    requires Disjoint(s) && m in Pieces(s)
    ensures forall a: nat, p: int :: Covers(m, a) ==> (MapsTo(s, a, p) <==> p == Back(m.start, m.phys, a))
  {
    var k :| 0 <= k < |s| && s[k] == m;
    MapsToOwn(s, k);
  }

  /** The condition of the workaround, read off the slots, is that the map is right there. */
  lemma {:induction false} KeptRightMeans(s: seq<Slot>, start: nat, size: nat, phys: nat)
    requires Disjoint(s) && phys < WORD64 && forall m :: m in Pieces(s) ==> m.phys < WORD64
    ensures KeptRight(Pieces(s), start, size, phys) <==> MapsRange(s, start, Kept(Pieces(s), start, size), phys)
    decreases size
  {
    hide MapsTo, Disjoint, Pieces, Offset, Back;
    var ps := Pieces(s);
    if Led(ps, start, size) {
      var m := Leader(ps, start, size);
      PieceMaps(s, m);
      KeptRightMeans(s, start + m.size, size - m.size, Offset(phys, m.size));
      MapsRangeSplit(s, m, start, Kept(ps, start, size), phys);
    }
  }

  lemma MapsRangeSplit(s: seq<Slot>, m: Slot, start: nat, size: nat, phys: nat)
    requires m.start == start && 0 < m.size <= size && m.phys < WORD64 && phys < WORD64
    requires forall a: nat, p: int :: Covers(m, a) ==> (MapsTo(s, a, p) <==> p == Back(m.start, m.phys, a))
    ensures MapsRange(s, start, size, phys) <==>
              m.phys == phys && MapsRange(s, start + m.size, size - m.size, Offset(phys, m.size))
  {
    hide MapsTo, Offset, Back;
    assert Covers(m, start);
    BackStart(start, m.phys);
    BackStart(start, phys);
    assert MapsRange(s, start, size, phys) ==> MapsTo(s, start, Back(start, phys, start)) && m.phys == phys;
    BackShift(start, phys, m.size);
  }

  lemma SamePieces(s: seq<Slot>, t: seq<Slot>)
    requires Pieces(s) == Pieces(t)
    ensures forall a: nat, p: int :: MapsTo(s, a, p) <==> MapsTo(t, a, p)
  {
    forall a: nat, p: int
      ensures MapsTo(s, a, p) <==> MapsTo(t, a, p)
    {
      MapsPieces(s, a, p);
      MapsPieces(t, a, p);
    }
  }

  lemma MapsPieces(s: seq<Slot>, a: nat, p: int)
    ensures MapsTo(s, a, p) <==> exists m :: m in Pieces(s) && Covers(m, a) && p == Back(m.start, m.phys, a)
  {
    if MapsTo(s, a, p) {
      var i :| 0 <= i < |s| && Covers(s[i], a) && p == Back(s[i].start, s[i].phys, a);
      assert s[i] in Pieces(s);
    }
  }

  lemma MovedPieces(s: seq<Slot>, k: nat, j: nat)
    requires k < |s| && j < |s| && s[k := s[k].(size := 0)][j].size == 0 && s[k].size > 0
    ensures Pieces(s[k := s[k].(size := 0)][j := s[k]]) == Pieces(s)
  {
    var t := s[k := s[k].(size := 0)][j := s[k]];
    forall m | m in Pieces(s)
      ensures m in Pieces(t)
    {
      var i :| 0 <= i < |s| && s[i].size > 0 && s[i] == m;
      assert t[if i == k then j else i] == m;
    }
    forall m | m in Pieces(t)
      ensures m in Pieces(s)
    {
      var i :| 0 <= i < |t| && t[i].size > 0 && t[i] == m;
      assert s[if i == j then k else i] == m;
    }
  }

  /** If the lowest overlapping slot does not lead the range, none does. */
  lemma NotLed(s: seq<Slot>, k: int, start: nat, size: nat)
    requires Disjoint(s) && -1 <= k < |s|
    requires forall i :: 0 <= i < |s| && Overlaps(s[i], start, size) ==> k != -1 && s[k].start <= s[i].start
    requires k != -1 ==> Overlaps(s[k], start, size) && !Leads(s[k], start, size)
    ensures !Led(Pieces(s), start, size)
    ensures forall i :: 0 <= i < |s| && i != k && Overlaps(s[i], start, size) ==> s[i].start != start
  {
    forall i | 0 <= i < |s| && i != k && Overlaps(s[i], start, size)
      ensures s[i].start != start
    {
      assert Covers(s[k], start) ==> !Covers(s[i], start);
    }
    if m :| m in Pieces(s) && Leads(m, start, size) {
      var i :| 0 <= i < |s| && s[i] == m;
      assert Overlaps(s[i], start, size);
      assert false;
    }
  }

  /** The state of the splitter's loop: start, size and phys are what is left to do of
      start0, size0 and phys0. Either only leading slots were met, and the slots are the
      old ones; or the range no longer has a leading slot. */
  ghost predicate Working(s0: seq<Slot>, s: seq<Slot>, start0: nat, size0: nat, phys0: nat,
                          start: nat, size: nat, phys: nat, keeps: bool) {
    && start0 <= start && start + size == start0 + size0 && phys == Offset(phys0, start - start0)
    && SameOutside(s0, s, start, size)
    && Budget(s, start, size, Free(s0, 0))
    && (!keeps ==> start == start0)
    && (keeps ==> || Chained(s0, s, start0, size0, start, size)
                  || (start - start0 == Kept(Pieces(s0), start0, size0) && NoneStarts(s, start, size)))
  }

  ghost predicate Chained(s0: seq<Slot>, s: seq<Slot>, start0: nat, size0: nat, start: nat, size: nat) {
    && Pieces(s) == Pieces(s0) && Free(s, 0) == Free(s0, 0)
    && Kept(Pieces(s0), start0, size0) == start - start0 + Kept(Pieces(s0), start, size)
  }

  lemma KeepWorks(s0: seq<Slot>, s: seq<Slot>, t: seq<Slot>, k: nat, start0: nat, size0: nat, phys0: nat,
                  start: nat, size: nat, phys: nat)
    requires Working(s0, s, start0, size0, phys0, start, size, phys, true)
    requires Disjoint(s) && k < |s| && Overlaps(s[k], start, size) && Leads(s[k], start, size)
    requires Pieces(t) == Pieces(s) && Free(t, 0) == Free(s, 0)
    ensures Working(s0, t, start0, size0, phys0, start + s[k].size, size - s[k].size, Offset(phys, s[k].size), true)
  {
    hide MapsTo, Free, Offset, Back;
    OffsetAdd(phys0, start - start0, s[k].size);
    var m := s[k];
    assert m in Pieces(s);
    assert Leader(Pieces(s), start, size) == m by { LeaderIs(s, k, start, size); }
    SamePieces(s0, t);
  }

  lemma LeaderIs(s: seq<Slot>, k: nat, start: nat, size: nat)
    requires Disjoint(s) && k < |s| && Leads(s[k], start, size)
    ensures Led(Pieces(s), start, size) && Leader(Pieces(s), start, size) == s[k]
  {
    assert s[k] in Pieces(s);
    var m := Leader(Pieces(s), start, size);
    var i :| 0 <= i < |s| && s[i] == m;
    assert Covers(s[i], start) && Covers(s[k], start);
  }

  /** When the lowest overlapping slot does not lead the range, what is spared is settled. */
  lemma Settled(s0: seq<Slot>, s: seq<Slot>, k: int, start0: nat, size0: nat, phys0: nat,
                start: nat, size: nat, phys: nat, keeps: bool)
    requires Working(s0, s, start0, size0, phys0, start, size, phys, keeps)
    requires Disjoint(s) && -1 <= k < |s|
    requires forall i :: 0 <= i < |s| && Overlaps(s[i], start, size) ==> k != -1 && s[k].start <= s[i].start
    requires k != -1 ==> Overlaps(s[k], start, size)
    requires keeps && k != -1 ==> !Leads(s[k], start, size)
    ensures start == start0 + Spared(s0, start0, size0, keeps)
    ensures SameOutside(s0, s, start, size) && Free(s, 0) >= Free(s0, 0) - 1
  {
    hide MapsTo, Free, Disjoint, SameOutside;
    if keeps { NotLed(s, k, start, size); }
  }

  lemma WorkStarts(s: seq<Slot>, start: nat, size: nat, phys: nat, keeps: bool)
    requires phys < WORD64
    ensures Working(s, s, start, size, phys, start, size, phys, keeps)
  {
    hide MapsTo, Free;
  }

  /** A split that finds no free slot was short of slots from the beginning. */
  lemma ShortOfSlots(s0: seq<Slot>, s: seq<Slot>, k: nat, start0: nat, size0: nat, phys0: nat,
                     start: nat, size: nat, phys: nat, keeps: bool)
    requires Working(s0, s, start0, size0, phys0, start, size, phys, keeps)
    requires k < |s| && Overlaps(s[k], start, size)
    requires Free(s, 0) == 0 || (Free(s, 0) == 1 && Sticks(s[k], start, size) == 2)
    ensures Free(s0, 0) < 2
  {
    hide MapsTo, Free;
  }

  lemma SplitWorks(s0: seq<Slot>, s: seq<Slot>, t: seq<Slot>, k: nat, start0: nat, size0: nat, phys0: nat,
                   start: nat, size: nat, phys: nat, keeps: bool)
    requires Working(s0, s, start0, size0, phys0, start, size, phys, keeps)
    requires Disjoint(s) && k < |s| && |s| == |t|
    requires forall i :: 0 <= i < |s| && Overlaps(s[i], start, size) ==> s[k].start <= s[i].start
    requires Overlaps(s[k], start, size) && (keeps ==> !Leads(s[k], start, size))
    requires TakenApart(s, t, k, start, size)
    ensures Working(s0, t, start0, size0, phys0, start, size, phys, keeps)
    ensures |Overlapping(t, start, size)| < |Overlapping(s, start, size)|
  {
    hide MapsTo, Free, Disjoint, Budget;
    BudgetKept(s, t, k, start, size, Free(s0, 0));
    Settled(s0, s, k, start0, size0, phys0, start, size, phys, keeps);
    if keeps {
      NotLed(s, k, start, size);
      forall i | 0 <= i < |t| && Overlaps(t[i], start, size)
        ensures t[i].start != start
      {
        assert i in Overlapping(t, start, size);
        assert i in Overlapping(s, start, size);
      }
    }
  }

  ghost predicate NoneStarts(s: seq<Slot>, start: nat, size: nat) {
    forall i :: 0 <= i < |s| && Overlaps(s[i], start, size) ==> s[i].start != start
  }

  /** What one call of kvm_set_phys_mem leaves untouched at the start of the range. */
  ghost function Spared(s: seq<Slot>, start: nat, size: nat, keeps: bool): (n: nat)
    ensures n <= size
  {
    if keeps then Kept(Pieces(s), start, size) else 0
  }

  datatype Outcome = Done | Aborted

  class KvmState {
    const slots: array<Slot>
    /** Whether this KVM cannot join slots. */
    const broken: bool

    constructor (broken: bool)
      ensures this.broken == broken
      ensures slots.Length == SLOTS && fresh(slots) && WellFormed(slots[..])
      ensures Free(slots[..], 0) == 28 && forall a: nat, p: int :: !MapsTo(slots[..], a, p)
    {
      this.broken := broken;
      slots := new Slot[SLOTS](_ => Slot(0, 0, 0));
      new;
      var s := slots[..];
      FreeAll(s, 0);
    }

    ghost predicate Valid()
      reads slots
    {
      slots.Length == SLOTS && WellFormed(slots[..])
    }

    /** kvm_alloc_slot: the first usable empty slot; none means the source aborts. */
    method AllocSlot() returns (k: int)
      requires slots.Length == SLOTS
      ensures k == -1 ==> Free(slots[..], 0) == 0
      ensures k != -1 ==>
                && 0 <= k < SLOTS && !Private(k) && slots[k].size == 0
                && forall j :: 0 <= j < k ==> Private(j) || slots[j].size != 0
    {
      for i := 0 to SLOTS
        invariant forall j :: 0 <= j < i ==> Private(j) || slots[j].size != 0
      {
        if !Private(i) && slots[i].size == 0 { return i; }
      }
      FreeZero(slots[..], 0);
      return -1;
    }

    /** kvm_lookup_overlapping_slot: the overlapping slot of lowest start. */
    method LookupOverlapping(start: nat, size: nat) returns (k: int)
      requires slots.Length == SLOTS
      ensures k == -1 ==> forall i :: 0 <= i < SLOTS ==> !Overlaps(slots[i], start, size)
      ensures k != -1 ==>
                && 0 <= k < SLOTS && Overlaps(slots[k], start, size)
                && forall i :: 0 <= i < SLOTS && Overlaps(slots[i], start, size) ==> slots[k].start <= slots[i].start
    {
      k := -1;
      for i := 0 to SLOTS
        invariant k == -1 ==> forall j :: 0 <= j < i ==> !Overlaps(slots[j], start, size)
        invariant k != -1 ==>
                    && 0 <= k < i && Overlaps(slots[k], start, size)
                    && forall j :: 0 <= j < i && Overlaps(slots[j], start, size) ==> slots[k].start <= slots[j].start
      {
        if slots[i].size == 0 { continue; }
        if start <= slots[i].start {
          if slots[i].start - start >= size { continue; }
        } else if start - slots[i].start >= slots[i].size { continue; }
        if k != -1 && slots[k].start < slots[i].start { continue; }
        k := i;
      }
    }

    /** Fill one usable empty slot with m, if KVM takes it. */
    method Register(m: Slot) returns (r: Outcome)
      requires Valid()
      requires m.size > 0 && m.phys < WORD64
      modifies slots
      ensures Valid()
      ensures r == Aborted <==> old(Free(slots[..], 0)) == 0 || Refused(old(slots[..]), m)
      ensures r == Aborted ==> slots[..] == old(slots[..])
      ensures r == Done ==> Filled(old(slots[..]), slots[..], m)
    {
      var j := AllocSlot();
      if j == -1 || Refused(slots[..], m) { return Aborted; }
      ghost var s := slots[..];
      RefusedMeans(s, m);
      slots[j] := m;
      assert slots[..] == s[j := m];
      FreeUpdate(s, j, m, 0);
      MapsToSet(s, j, m);
      DisjointSet(s, j, m);
      return Done;
    }

    /** Empty slot k. */
    method Unregister(k: nat)
      requires Valid() && k < SLOTS && slots[k].size != 0
      modifies slots
      ensures Valid()
      ensures slots[..] == old(slots[..])[k := old(slots[k]).(size := 0)]
      ensures Free(slots[..], 0) == old(Free(slots[..], 0)) + 1
      ensures Removed(old(slots[..]), slots[..], old(slots[k]))
    {
      var was := slots[k];
      ghost var s := slots[..];
      slots[k] := was.(size := 0);
      assert slots[..] == s[k := was.(size := 0)];
      FreeUpdate(s, k, was.(size := 0), 0);
      MapsToClear(s, k);
    }

    /** One turn of the splitter's loop: unregister the overlapping slot k and
        register again what sticks out of the range on either side. For a range that ends
        at 2^64 the end wraps to 0, and what is registered again reaches from there. */
    method Split(k: nat, start: nat, size: nat) returns (r: Outcome)
      requires Valid() && k < SLOTS && start < WORD64 && size < WORD64 && start + size <= WORD64
      requires Overlaps(slots[k], start, size)
      modifies slots
      ensures Valid()
      ensures start + size < WORD64 ==>
                (r == Aborted <==> old(Free(slots[..], 0)) == 0 && Sticks(old(slots[k]), start, size) == 2)
      ensures r == Done && start + size < WORD64 ==> TakenApart(old(slots[..]), slots[..], k, start, size)
      ensures r == Done && start + size == WORD64 ==>
                start <= old(slots[k]).start && BottomOverlaps(slots[..], start, size)
    {
      hide WellFormed, MapsTo, Free, EndOf, Offset, Back, Refused, Overlaps, Overlapping, Disjoint, Filled, Removed,
           TakenApart, BottomOverlaps, Rest, Suffix;
      ghost var s0 := slots[..];
      var was := slots[k];
      assert WellFormed(s0);
      WellFormedAt(s0, k);
      OverlapsUsed(was, start, size);
      EndsOf(was, start, size);
      RestIs(was, start, size);
      Unregister(k);
      ghost var s1 := slots[..];
      r := Done;
      if was.start < start {
        PrefixFree(s0, s1, was, start);
        r := Register(Slot(was.start, start - was.start, was.phys));
      }
      ghost var s2 := slots[..];
      FilledNone(s1, Prefix(was, start));
      if EndOf(was.start, was.size) > EndOf(start, size) {
        SuffixFree(s0, s1, s2, was, start, size);
        r := Register(Rest(was, EndOf(start, size)));
        if r == Aborted { return; }
      }
      if start + size < WORD64 {
        FilledNone(s2, Suffix(was, start + size));
        ApartBy(s0, s1, s2, slots[..], k, start, size);
      } else {
        FilledBottom(s2, slots[..], Rest(was, 0), start, size);
      }
    }

    /** The workaround for older KVM versions: a slot is registered again as it was. */
    method Keep(k: nat)
      requires Valid() && k < SLOTS && slots[k].size > 0
      modifies slots
      ensures Valid()
      ensures Pieces(slots[..]) == Pieces(old(slots[..])) && Free(slots[..], 0) == Free(old(slots[..]), 0)
    {
      hide WellFormed, MapsTo, Free;
      ghost var s := slots[..];
      var was := slots[k];
      assert WellFormed(s);
      WellFormedAt(s, k);
      Unregister(k);
      RefusedMeans(slots[..], was);
      var r := Register(was);
      assert r == Done;
      ghost var j :| 0 <= j < SLOTS && s[k := was.(size := 0)][j].size == 0 &&
        slots[..] == s[k := was.(size := 0)][j := was];
      MovedPieces(s, k, j);
    }

    /** The loop of kvm_set_phys_mem: clear the range, unless what is left of it fits
        into an existing slot with identical parameters. */
    method ClearRange(start0: nat, size0: nat, phys0: nat, isMem: bool)
      returns (r: Outcome, fits: bool, start: nat, size: nat, phys: nat)
      requires Valid()
      requires start0 < WORD64 && size0 < WORD64 && start0 + size0 <= WORD64 && phys0 < WORD64
      modifies slots
      ensures Valid()
      ensures start0 <= start && start + size == start0 + size0 && phys == Offset(phys0, start - start0)
      ensures start0 + size0 == WORD64 ==> size > 0
      ensures isMem && Held(old(slots[..]), start0, size0, phys0) ==> r == Done && fits && slots[..] == old(slots[..])
      ensures start0 + size0 == WORD64 && !isMem ==>
                && (r == Done <==> Overlapping(old(slots[..]), start0, size0) == {})
                && (r == Done ==> !fits && slots[..] == old(slots[..]))
      ensures start0 + size0 < WORD64 && r == Aborted ==> old(Free(slots[..], 0)) < 2
      ensures start0 + size0 < WORD64 && r == Done ==>
                && Free(slots[..], 0) >= old(Free(slots[..], 0)) - 1
                && start == start0 + Spared(old(slots[..]), start0, size0, isMem && broken)
                && SameOutside(old(slots[..]), slots[..], start, size)
                && if fits then isMem && MapsRange(slots[..], start, size, phys) else MapsNone(slots[..], start, size)
    {
      hide WellFormed, MapsTo, Free, Working, SameOutside, Spared, Disjoint, Trimmed, Fits, MapsRange, MapsNone,
           Sticks, Pieces, TakenApart, Offset, Back, Overlaps, Held;
      ghost var s0 := slots[..];
      ghost var top := start0 + size0 == WORD64;
      ghost var below := false;
      start, size, phys := start0, size0, phys0;
      OffsetZero(phys0);
      WorkStarts(s0, start0, size0, phys0, isMem && broken);
      while true
        invariant Valid()
        invariant start0 <= start && start + size == start0 + size0 && phys == Offset(phys0, start - start0)
        invariant !top ==> !below && Working(s0, slots[..], start0, size0, phys0, start, size, phys, isMem && broken)
        invariant top ==> start > 0 && size > 0
        invariant top && !isMem ==> start == start0 && (below || slots[..] == s0)
        invariant isMem && Held(s0, start0, size0, phys0) ==>
                    slots[..] == s0 && start == start0 && size == size0 && phys == phys0
        invariant below ==> BottomOverlaps(slots[..], start, size)
        invariant below && !isMem ==> Overlapping(s0, start0, size0) != {}
        decreases size, !below, |Overlapping(slots[..], start, size)|
      {
        ghost var s := slots[..];
        assert WellFormed(s);
        WellFormedAt(s, 0);
        var k := LookupOverlapping(start, size);
        if isMem && Held(s0, start0, size0, phys0) {
          if k == -1 { HeldOverlaps(s, start, size, phys); } else { HeldFits(s, k, start, size, phys); }
        }
        if k == -1 {
          NothingInside(s, start, size);
          if !top { Settled(s0, s, k, start0, size0, phys0, start, size, phys, isMem && broken); }
          return Done, false, start, size, phys;
        }
        assert k in Overlapping(s, start, size);
        var mem := slots[k];
        if isMem && Fits(mem, start, size, phys) {
          if !top {
            FitsAlready(s, k, start, size, phys);
            Settled(s0, s, k, start0, size0, phys0, start, size, phys, isMem && broken);
          }
          return Done, true, start, size, phys;
        }
        if broken && mem.start == start && mem.size < size && isMem {
          Keep(k);
          if !top { KeepWorks(s0, s, slots[..], k, start0, size0, phys0, start, size, phys); }
          OffsetAdd(phys0, start - start0, mem.size);
          start, phys, size := start + mem.size, Offset(phys, mem.size), size - mem.size;
          continue;
        }
        r := Split(k, start, size);
        if r == Aborted {
          if !top { ShortOfSlots(s0, s, k, start0, size0, phys0, start, size, phys, isMem && broken); }
          return r, false, start, size, phys;
        }
        if !top {
          SplitWorks(s0, s, slots[..], k, start0, size0, phys0, start, size, phys, isMem && broken);
        } else {
          below := true;
        }
      }
    }

    /** kvm_set_phys_mem. `physOffset` carries the memory type in its low bits. A range of
        RAM that ends at 2^64 is never put in place. */
    method SetPhysMem(start0: nat, size0: nat, physOffset: nat) returns (r: Outcome)
      requires Valid()
      requires start0 < WORD64 && size0 < WORD64 && start0 + size0 <= WORD64 && physOffset < WORD64
      modifies slots
      ensures Valid()
      ensures old(Free(slots[..], 0)) >= 2 && start0 % PAGE == 0 && start0 + size0 < WORD64 ==> r == Done
      ensures r == Done && start0 + size0 < WORD64 ==> Free(slots[..], 0) >= old(Free(slots[..], 0)) - 2
      ensures r == Done && start0 % PAGE == 0 && start0 + size0 < WORD64 ==>
                var isMem := physOffset % 4096 < 16;
                var phys := if physOffset / 8 % 2 == 1 then physOffset - 8 else physOffset;
                var n := Spared(old(slots[..]), start0, size0, isMem && broken);
                Overridden(old(slots[..]), slots[..], start0 + n, size0 - n, Offset(phys, n), isMem)
      ensures r == Done ==>
                var isMem := physOffset % 4096 < 16;
                var phys := if physOffset / 8 % 2 == 1 then physOffset - 8 else physOffset;
                Overridden(old(slots[..]), slots[..], start0, size0, phys, isMem) <==>
                (isMem ==>
                  && start0 + size0 < WORD64
                  && (broken ==> KeptRight(Pieces(old(slots[..])), start0, size0, phys)))
      ensures var phys := if physOffset / 8 % 2 == 1 then physOffset - 8 else physOffset;
              start0 % PAGE == 0 && physOffset % 4096 < 16 && Held(old(slots[..]), start0, size0, phys) ==>
              r == Done && slots[..] == old(slots[..])
      ensures start0 + size0 == WORD64 && physOffset % 4096 >= 16 ==>
                (r == Done <==> Overlapping(old(slots[..]), start0, size0) == {})
      ensures start0 % PAGE != 0 ==>
                && slots[..] == old(slots[..])
                && (r == Done <==> physOffset % 4096 >= 16 && Overlapping(slots[..], start0, size0) == {})
    {
      hide WellFormed, MapsTo, Free;
      ghost var s0 := slots[..];
      var isMem := IsMemory(physOffset);
      if start0 % PAGE != 0 {
        if !isMem {
          var k := LookupOverlapping(start0, size0);
          if k == -1 {
            NothingInside(slots[..], start0, size0);
            return Done;
          }
          assert k in Overlapping(slots[..], start0, size0);
        }
        return Aborted;
      }
      var phys0 := WithoutRom(physOffset);
      var fits, start, size, phys;
      r, fits, start, size, phys := ClearRange(start0, size0, phys0, isMem);
      if r == Aborted { return; }
      if !fits && size != 0 && isMem {
        RefusedMeans(slots[..], Slot(start, size, phys));
        r := Register(Slot(start, size, phys));
      }
      if r == Done {
        ghost var s := slots[..];
        assert WellFormed(s0) && WellFormed(s);
        if start0 + size0 < WORD64 {
          OverrideSpared(s0, s, start0, size0, phys0, isMem, broken);
        } else if isMem {
          TopUnmapped(s, start0, size0, phys0);
        } else {
          NoOverlap(s, start0, size0);
        }
      }
    }
  }

  /** Overriding what the workaround does not spare is overriding the whole range
      exactly when what it spares was right already. */
  lemma OverrideSpared(s0: seq<Slot>, s: seq<Slot>, start: nat, size: nat, phys: nat, isMem: bool, broken: bool)
    requires WellFormed(s0) && phys < WORD64
    requires var n := Spared(s0, start, size, isMem && broken);
             Overridden(s0, s, start + n, size - n, Offset(phys, n), isMem)
    ensures Overridden(s0, s, start, size, phys, isMem) <==>
            (broken && isMem ==> KeptRight(Pieces(s0), start, size, phys))
  {
    assert forall m :: m in Pieces(s0) ==> m.phys < WORD64;
    hide MapsTo, Disjoint, Pieces, Offset, Back;
    KeptRightMeans(s0, start, size, phys);
    var n := Spared(s0, start, size, isMem && broken);
    BackShift(start, phys, n);
    assert isMem && Overridden(s0, s, start, size, phys, isMem) ==> MapsRange(s0, start, n, phys) by {
      if isMem && Overridden(s0, s, start, size, phys, isMem) {
        forall a: nat, p: int | start <= a < start + n
          ensures MapsTo(s0, a, p) <==> p == Back(start, phys, a)
        {
          assert MapsTo(s, a, p) <==> MapsTo(s0, a, p);
        }
      }
    }
  }

  /** The workaround leaves a wrong mapping: two pages are put over one page of other
      memory, and every table the call can end with still maps the first page as before. */
  lemma SparedWrong()
    ensures forall t :: Overridden(OneSlot(Slot(0, PAGE, 0)), t, PAGE, PAGE, 2 * PAGE, true) ==>
              MapsTo(t, 0, 0) && !Overridden(OneSlot(Slot(0, PAGE, 0)), t, 0, 2 * PAGE, PAGE, true)
    ensures WellFormed(OneSlot(Slot(0, PAGE, 0))) && Spared(OneSlot(Slot(0, PAGE, 0)), 0, 2 * PAGE, true) == PAGE
    ensures !KeptRight(Pieces(OneSlot(Slot(0, PAGE, 0))), 0, 2 * PAGE, PAGE)
  {
    var s := OneSlot(Slot(0, PAGE, 0));
    LeaderIs(s, 0, 0, 2 * PAGE);
    var ps := Pieces(s);
    assert s[0] == Slot(0, PAGE, 0);
    assert !Led(ps, PAGE, PAGE);
    assert Kept(ps, PAGE, PAGE) == 0;
    assert Kept(ps, 0, 2 * PAGE) == s[0].size + Kept(ps, s[0].size, 2 * PAGE - s[0].size);
    assert WellFormed(s);
    assert Covers(s[0], 0) && MapsTo(s, 0, 0);
    hide MapsTo;
    forall t | Overridden(s, t, PAGE, PAGE, 2 * PAGE, true)
      ensures MapsTo(t, 0, 0) && !Overridden(s, t, 0, 2 * PAGE, PAGE, true)
    {
      OverrideSpared(s, t, 0, 2 * PAGE, PAGE, true, true);
    }
  }

  /** A table that holds one slot. */
  ghost function OneSlot(m: Slot): (s: seq<Slot>)
    ensures |s| == SLOTS && s[0] == m && forall i :: 0 < i < SLOTS ==> s[i].size == 0
  {
    seq(SLOTS, i => if i == 0 then m else Slot(0, 0, 0))
  }

  lemma {:induction false} FreeAll(s: seq<Slot>, i: nat)
    requires |s| == SLOTS && i <= SLOTS && forall j :: 0 <= j < SLOTS ==> s[j].size == 0
    ensures Free(s, i) == (if i <= 8 then 28 - i else if i <= 12 then 20 else 32 - i)
    decreases SLOTS - i
  {
    if i < SLOTS { FreeAll(s, i + 1); }
  }
}
