/** Self-modifying code, end to end: every block that is run, whether it was looked up or
    reached by chained jumps, was translated from the bytes that are now at its address. Memory
    contents and what each block was translated from are kept beside the model. */
module FreshCode {
  import opened Machine
  import opened TbCache
  import TbExec
  import CodeBitmap
  import opened Tlb
  import JumpCache

  /** The byte at each RAM address. */
  type Ram = nat -> nat

  ghost function Written(ram: Ram, start: nat, s: seq<nat>): Ram {
    (a: nat) => if start <= a < start + |s| then s[a - start] else ram(a)
  }

  /** The bytes that block i covers. */
  ghost function Code(i: Info, ram: Ram): (s: seq<nat>)
    requires Sized(i)
    ensures |s| == i.size
  {
    seq(i.size, j requires 0 <= j < i.size => ByteOf(i, ram, j))
  }

  ghost function ByteOf(i: Info, ram: Ram, j: nat): nat
    requires Sized(i) && j < i.size
  {
    CodeBitmap.BytePlace(i, j);
    ram(CodeBitmap.ByteAt(i, j))
  }

  /** Every live block was translated from what its pages hold. */
  ghost predicate Fresh(info: map<Ptr, Info>, live: set<Ptr>, from: map<Ptr, seq<nat>>, ram: Ram)
    requires AllSized(info, live)
  {
    forall b :: b in live ==> b in from && from[b] == Code(info[b], ram)
  }

  /** Where byte j of the code at pc is: on the page pc leads to, or on the one behind it. */
  ghost function Where(w: JumpCache.Walk, pc: nat, j: nat): int {
    var v := JumpCache.PageAt(pc);
    var o := pc % PAGE + j;
    var at := w(if o < PAGE then v else JumpCache.Behind(v));
    if at.Mapped? then at.page * PAGE + o % PAGE else -1
  }

  /** The block is a translation of the bytes that are at its address now. */
  ghost predicate Current(i: Info, s: seq<nat>, w: JumpCache.Walk, ram: Ram) {
    |s| == i.size && forall j :: 0 <= j < i.size ==> var a := Where(w, i.pc, j); a >= 0 && s[j] == ram(a)
  }

  lemma FreshRuns(w: JumpCache.Walk, large: set<Span>, i: Info, s: seq<nat>, ram: Ram)
    requires Sized(i) && JumpCache.BlockAgrees(w, large, i) && s == Code(i, ram)
    ensures Current(i, s, w, ram)
  {
    hide Where, JumpCache.BlockAgrees, Sized;
    forall j | 0 <= j < i.size
      ensures Where(w, i.pc, j) >= 0 && s[j] == ram(Where(w, i.pc, j))
    {
      ByteRuns(w, large, i, j);
    }
  }

  lemma ByteRuns(w: JumpCache.Walk, large: set<Span>, i: Info, j: nat)
    requires Sized(i) && JumpCache.BlockAgrees(w, large, i) && j < i.size
    ensures Where(w, i.pc, j) == CodeBitmap.ByteAt(i, j) >= 0
  {
    hide JumpCache.Behind, JumpCache.Remembered, JumpCache.PageAt;
    CodeBitmap.BytePlace(i, j);
    var o := i.pc % PAGE + j;
    assert o >= PAGE ==> o % PAGE == o - PAGE;
  }

  // ------------------------------------------------------------ stores

  /** A store that hits no live block leaves all code as it was. */
  lemma Missed(info: map<Ptr, Info>, live: set<Ptr>, from: map<Ptr, seq<nat>>, ram: Ram, start: nat, s: seq<nat>)
    requires AllSized(info, live) && Fresh(info, live, from, ram)
    requires forall b :: b in live ==> !CodeBitmap.Hits(info[b], start, start + |s|)
    ensures Fresh(info, live, from, Written(ram, start, s))
  {
    forall b | b in live
      ensures Code(info[b], Written(ram, start, s)) == Code(info[b], ram)
    {
      var i := info[b];
      forall j | 0 <= j < i.size
        ensures !(start <= CodeBitmap.ByteAt(i, j) < start + |s|)
      {
        assert !CodeBitmap.Hits(i, start, start + |s|);
      }
    }
  }

  lemma FewerFresh(info: map<Ptr, Info>, live: set<Ptr>, live': set<Ptr>, from: map<Ptr, seq<nat>>, ram: Ram)
    requires AllSized(info, live) && live' <= live && Fresh(info, live, from, ram)
    ensures AllSized(info, live') && Fresh(info, live', from, ram)
  {
  }

  lemma AfterStore(info: map<Ptr, Info>, live: set<Ptr>, live': set<Ptr>, from: map<Ptr, seq<nat>>, ram: Ram,
                   start: nat, s: seq<nat>)
    requires AllSized(info, live) && Fresh(info, live, from, ram)
    requires live' == CodeBitmap.Unhit(info, live, start, start + |s|)
    ensures AllSized(info, live') && Fresh(info, live', from, Written(ram, start, s))
  {
    FewerFresh(info, live, live', from, ram);
    Missed(info, live', from, ram, start, s);
  }

  /** A store of one byte by the guest, through an entry of its TLB that leads to RAM page r:
      straight to memory, or trapped first. */
  method StoreByte(m: Memory, cpu: nat, mode: nat, vaddr: bv32, r: nat, offset: nat, value: nat,
                   ghost ws: seq<JumpCache.Walk>, ghost from: map<Ptr, seq<nat>>, ghost ram: Ram)
    returns (ghost ram': Ram)
    requires m.Valid() && JumpCache.Agreed(m, ws) && cpu < m.cpus && mode < MODES && offset < PAGE
    requires AllSized(m.tb.info, m.tb.live) && Fresh(m.tb.info, m.tb.live, from, ram)
    requires Place(cpu, mode, IndexOf(vaddr)) in m.table && r in m.host
    requires var e := m.table[Place(cpu, mode, IndexOf(vaddr))];
             e.write.Tag? && e.write.addr == PageOf(vaddr) && !e.write.mmio && e.host == m.host[r]
    modifies m, m.tb
    ensures ram' == Written(ram, r * PAGE + offset, [value])
    ensures m.Sound() && JumpCache.Agreed(m, ws) && m.tb.info == old(m.tb.info)
    ensures AllSized(m.tb.info, m.tb.live) && Fresh(m.tb.info, m.tb.live, from, ram')
    ensures m.Valid() <==>
              || !old(m.table)[Place(cpu, mode, IndexOf(vaddr))].write.notDirty
              || m.IsClean(r) || Harmless(old(m.table), m.host, m.Clean(), cpu, PageOf(vaddr))
  {
    hide TbContext.Valid, Tracked, Homes, Regions, Injective, Everywhere, JumpCache.Agreed, Harmless, PageOf, IndexOf,
         CodeBitmap.Unhit, AllSized, Fresh, CodeBitmap.Hits;
    var pl := Place(cpu, mode, IndexOf(vaddr));
    var a := r * PAGE + offset;
    ghost var info, live := m.tb.info, m.tb.live;
    assert a / PAGE == r;
    if m.table[pl].write.notDirty {
      JumpCache.NotDirtyWrite(m, cpu, vaddr, a, ws);
      AfterStore(info, live, m.tb.live, from, ram, a, [value]);
    } else {
      PlainMisses(m, pl, r, a);
      Missed(info, live, from, ram, a, [value]);
    }
    ram' := Written(ram, a, [value]);
  }

  /** A store that is not trapped is to a page without code. */
  lemma PlainMisses(m: Memory, pl: Place, r: nat, a: nat)
    requires m.Valid() && AllSized(m.tb.info, m.tb.live) && pl in m.table && Plain(m.table[pl].write)
    requires r in m.host && m.host[r] == m.table[pl].host && a / PAGE == r
    ensures forall b :: b in m.tb.live ==> !CodeBitmap.Hits(m.tb.info[b], a, a + 1)
  {
    hide TbContext.Valid, Tracked, Homes, Regions, Injective, Everywhere;
    forall b | b in m.tb.live
      ensures !CodeBitmap.Hits(m.tb.info[b], a, a + 1)
    {
      StoreSafe(m, pl, r, b);
      NotOn(m.tb.info[b], a);
    }
  }

  lemma NotOn(i: Info, a: nat)
    requires Sized(i) && a / PAGE !in Pages(i)
    ensures !CodeBitmap.Hits(i, a, a + 1)
  {
    forall j | 0 <= j < i.size
      ensures CodeBitmap.ByteAt(i, j) != a
    {
      CodeBitmap.BytePlace(i, j);
    }
  }

  /** A store by a device. */
  method DeviceStore(m: Memory, addr: nat, data: seq<nat>, ghost ws: seq<JumpCache.Walk>,
                     ghost from: map<Ptr, seq<nat>>, ghost ram: Ram)
    returns (ghost ram': Ram)
    requires m.Valid() && JumpCache.Agreed(m, ws) && data != [] && addr % PAGE + |data| <= PAGE
    requires AllSized(m.tb.info, m.tb.live) && Fresh(m.tb.info, m.tb.live, from, ram)
    modifies m`vgaClean, m`migrationClean, m.tb
    ensures ram' == Written(ram, addr, data) && m.Valid() && JumpCache.Agreed(m, ws) && m.tb.info == old(m.tb.info)
    ensures AllSized(m.tb.info, m.tb.live) && Fresh(m.tb.info, m.tb.live, from, ram')
  {
    hide TbContext.Valid, Tracked, Homes, Regions, Injective, Everywhere, JumpCache.Agreed, CodeBitmap.Unhit, AllSized,
         Fresh;
    ghost var info, live := m.tb.info, m.tb.live;
    JumpCache.DeviceStore(m, addr, |data|, ws);
    AfterStore(info, live, m.tb.live, from, ram, addr, data);
    ram' := Written(ram, addr, data);
  }

  // ------------------------------------------------------------ running

  /** One turn of the execution loop: the block about to run is a translation of the bytes
      that pc leads to now. */
  method NextBlock(m: Memory, cpu: nat, mode: nat, last: Ref, pc: nat, csBase: nat, flags: nat, w: JumpCache.Walk,
                   phys0: Phys, phys1: Phys, read: bool, write: bool, watch: bool, nb: Ptr, size: nat, full: bool,
                   ghost ws: seq<JumpCache.Walk>, ghost from: map<Ptr, seq<nat>>, ghost ram: Ram)
    returns (tb: Ptr, next: Ref, ghost from': map<Ptr, seq<nat>>)
    requires m.Valid() && JumpCache.Agreed(m, ws) && cpu < m.cpus && mode < MODES && ws[cpu] == w && JumpCache.WalkOk(w)
    requires nb != NULL && (full || nb !in m.tb.known) && 0 < size <= PAGE && JumpCache.Apart(pc, size, phys0, phys1)
    requires JumpCache.Fetchable(m, w, JumpCache.PageAt(pc), phys0)
    requires JumpCache.RunsOn(m.tb.info, m.tb.live, pc, csBase, flags, size) ==>
               JumpCache.Fetchable(m, w, JumpCache.Behind(JumpCache.PageAt(pc)), phys1)
    requires last != NIL ==> JumpCache.MayChain(m, w, cpu, last, pc)
    requires AllSized(m.tb.info, m.tb.live) && Fresh(m.tb.info, m.tb.live, from, ram)
    modifies m, m.tb
    ensures m.Valid() && JumpCache.Agreed(m, ws) && tb in m.tb.live && tb in m.tb.info && tb in from'
    ensures AllSized(m.tb.info, m.tb.live) && Fresh(m.tb.info, m.tb.live, from', ram)
    ensures TbExec.Keyed(m.tb.info[tb], pc, csBase, flags) && Current(m.tb.info[tb], from'[tb], w, ram)
  {
    hide TbContext.Valid, Tracked, Homes, Regions, Injective, Everywhere, JumpCache.Agreed, AllSized, Fresh, Current,
         JumpCache.Apart, JumpCache.RunsOn, JumpCache.MayChain, JumpCache.Fetchable, JumpCache.BlockAgrees,
         JumpCache.WalkOk, JumpCache.Looked, TbExec.Keyed;
    ghost var info, live := m.tb.info, m.tb.live;
    tb, next := JumpCache.NextBlock(m, cpu, mode, last, pc, csBase, flags, w, phys0, phys1, read, write, watch, nb,
                                    size, full, ws);
    from' := Noted(info, live, m.tb.info, m.tb.live, nb, tb, from, ram);
    FreshOf(m.tb.info, m.tb.live, from', ram, tb);
    FreshRuns(w, m.large[cpu], m.tb.info[tb], from'[tb], ram);
  }

  /** A new block is noted with the bytes it is translated from. */
  lemma Noted(info: map<Ptr, Info>, live: set<Ptr>, info': map<Ptr, Info>, live': set<Ptr>, nb: Ptr, tb: Ptr,
              from: map<Ptr, seq<nat>>, ram: Ram)
    returns (from': map<Ptr, seq<nat>>)
    requires JumpCache.Looked(info, live, info', live', nb, tb) && tb in live'
    requires AllSized(info, live) && AllSized(info', live') && Fresh(info, live, from, ram)
    ensures Fresh(info', live', from', ram)
  {
    from' := if info' == info && live' == live then from else from[nb := Code(info'[nb], ram)];
  }

  lemma FreshOf(info: map<Ptr, Info>, live: set<Ptr>, from: map<Ptr, seq<nat>>, ram: Ram, b: Ptr)
    requires AllSized(info, live) && Fresh(info, live, from, ram) && b in live
    ensures b in info && Sized(info[b]) && b in from && from[b] == Code(info[b], ram)
  {
  }

  /** And so is every block that chained jumps lead to from there. */
  lemma ChainsRunCurrent(m: Memory, ws: seq<JumpCache.Walk>, cpu: nat, b: Ptr, exits: seq<nat>, e: Ptr,
                         from: map<Ptr, seq<nat>>, ram: Ram)
    requires m.Valid() && JumpCache.Agreed(m, ws) && cpu < m.cpus && b in m.tb.live && b in m.tb.info
    requires JumpCache.BlockAgrees(ws[cpu], m.large[cpu], m.tb.info[b]) && JumpCache.Runs(m.tb.goes, b, exits, e)
    requires AllSized(m.tb.info, m.tb.live) && Fresh(m.tb.info, m.tb.live, from, ram)
    ensures e in m.tb.live && e in m.tb.info && e in from && Current(m.tb.info[e], from[e], ws[cpu], ram)
  {
    hide TbContext.Valid, Tracked, Homes, Regions, Injective, Everywhere, JumpCache.BlockAgrees, JumpCache.Runs, Fresh,
         AllSized, Current;
    JumpCache.JumpsLead(m, ws, cpu, b, exits, e);
    FreshOf(m.tb.info, m.tb.live, from, ram, e);
    FreshRuns(ws[cpu], m.large[cpu], m.tb.info[e], from[e], ram);
  }
}
