/** The software TLB and dirty tracking (cputlb.c, exec.c): which stores go
    straight to memory, and what a page flush must reach when large pages are
    mapped. Virtual addresses are 32 bits wide. */
module Tlb {
  import opened Machine
  import opened TbCache
  import TbExec
  import CodeBitmap

  const MODES := 2
  const TLB_SIZE := 256
  const PAGE_MASK: bv32 := 0xffff_f000
  const NONE: bv32 := 0xffff_ffff

  /** An address tag of an entry: -1, or a page address with two flag bits. */
  datatype Tag = NoTag | Tag(addr: bv32, mmio: bool, notDirty: bool)

  /** host is the host address of the page: the entry's addend plus the page address. */
  datatype Entry = Entry(read: Tag, write: Tag, code: Tag, host: nat)

  const EMPTY := Entry(NoTag, NoTag, NoTag, 0)

  /** Where an entry stands: tlb_table[mode][index] of a CPU. */
  datatype Place = Place(cpu: nat, mode: nat, index: nat)

  /** A mapped page of any size: the addresses a with a & mask == addr & mask. */
  datatype Span = Span(addr: bv32, mask: bv32)

  /** What is mapped: phys_offset's page, with its kind in the low bits. */
  datatype Phys = Ram(page: nat) | Rom(page: nat) | Romd(page: nat) | Io

  function IndexOf(addr: bv32): (i: nat)
    ensures i < TLB_SIZE
  {
    IndexSmall(addr);
    Number(IndexBits(addr))
  }

  function IndexBits(addr: bv32): bv32 { (addr >> 12) & 0xff }

  lemma IndexSmall(addr: bv32)
    ensures Number(IndexBits(addr)) < TLB_SIZE
  {
    var b := IndexBits(addr);
    assert b <= 0xff;
    NumberSmall(b);
  }

  lemma NumberSmall(b: bv32)
    requires b <= 0xff
    ensures Number(b) <= 255
  {
  }

  /** The pages of a megabyte have entries of their own. */
  lemma IndexSpread(a: bv32, b: bv32)
    requires a >> 20 == b >> 20 && a >> 12 != b >> 12
    ensures IndexOf(a) != IndexOf(b)
  {
    IndexBitsApart(a, b);
    hide IndexBits;
    NumberInjective(IndexBits(a), IndexBits(b));
  }

  lemma IndexBitsApart(a: bv32, b: bv32)
    requires a >> 20 == b >> 20 && a >> 12 != b >> 12
    ensures IndexBits(a) != IndexBits(b)
  {
  }

  lemma NumberInjective(a: bv32, b: bv32)
    requires a != b
    ensures Number(a) != Number(b)
  {
    hide Number;
    NumberBack(a);
    NumberBack(b);
  }

  lemma NumberBack(a: bv32)
    ensures Number(a) < 0x1_0000_0000 && Number(a) as bv32 == a
  {
  }

  predicate Blank(e: Entry) { e.read == NoTag && e.write == NoTag && e.code == NoTag }

  /** A write tag that lets stores through without a trap. */
  predicate Plain(t: Tag) { t.Tag? && !t.mmio && !t.notDirty }

  // ------------------------------------------------------------ large pages

  /** The bits of n are among those of m. */
  ghost predicate Within(n: bv32, m: bv32) { m & n == n }

  /** a and b agree where m has ones. */
  ghost predicate Agree(a: bv32, b: bv32, m: bv32) { a & m == b & m }

  ghost predicate In(s: Span, a: bv32) { Agree(a, s.addr, s.mask) }

  /** A mask that shifting left only takes bits from, and that is not all ones: true
      of the mask of every power of two above one. */
  ghost predicate Closed(mask: bv32) { (mask << 1) & mask == mask << 1 && mask & 1 == 0 }

  ghost predicate PowerOfTwo(size: bv32) { size != 0 && size & (size - 1) == 0 }

  /** The region addr/mask covers a page. */
  ghost predicate CoversSpan(addr: bv32, mask: bv32, s: Span) { Within(mask, s.mask) && Agree(s.addr, addr, mask) }

  /** The one region kept for a CPU covers every large page. */
  ghost predicate RegionOk(large: set<Span>, addr: bv32, mask: bv32) {
    if large == {} then addr == NONE && mask == 0
    else Closed(mask) && Within(addr, mask) && forall s :: s in large ==> CoversSpan(addr, mask, s)
  }

  lemma Coarser(a: bv32, b: bv32, m: bv32, n: bv32)
    requires Within(n, m) && Agree(a, b, m)
    ensures Agree(a, b, n)
  {
  }

  lemma AgreeTrans(a: bv32, b: bv32, c: bv32, m: bv32)
    requires Agree(a, b, m) && Agree(b, c, m)
    ensures Agree(a, c, m)
  {
  }

  lemma WithinTrans(k: bv32, n: bv32, m: bv32)
    requires Within(k, n) && Within(n, m)
    ensures Within(k, m)
  {
  }

  lemma ClosedShift(m: bv32)
    requires Closed(m)
    ensures Closed(m << 1) && Within(m << 1, m) && (m != 0 ==> m << 1 < m)
  {
  }

  lemma ClosedAnd(m: bv32, n: bv32)
    requires Closed(m) && Closed(n)
    ensures Closed(And(m, n)) && Within(And(m, n), m) && Within(And(m, n), n)
  {
  }

  lemma ClosedSize(size: bv32)
    requires PowerOfTwo(size) && size != 1
    ensures Closed(!(size - 1))
  {
  }

  /** The masked address stands for the address. */
  lemma Masked(a: bv32, m: bv32)
    ensures Within(And(a, m), m) && Agree(And(a, m), a, m) && Agree(a, And(a, m), m)
  {
  }

  lemma Xor(a: bv32, b: bv32, m: bv32)
    requires (a ^ b) & m == 0
    ensures Agree(b, a, m)
  {
  }

  /** The test of tlb_flush_page. */
  lemma RegionTest(a: bv32, addr: bv32, mask: bv32)
    requires Within(addr, mask)
    ensures a & mask == addr <==> Agree(a, addr, mask)
  {
  }

  /** An address in a large page is in the region. */
  lemma InRegion(large: set<Span>, addr: bv32, mask: bv32, s: Span, a: bv32)
    requires RegionOk(large, addr, mask) && s in large && In(s, a)
    ensures a & mask == addr
  {
    hide Agree, Within, Closed;
    Coarser(a, s.addr, s.mask, mask);
    AgreeTrans(a, s.addr, addr, mask);
    RegionTest(a, addr, mask);
  }

  /** The widened region covers the old pages and the new one. */
  lemma Widened(large: set<Span>, addr: bv32, mask: bv32, s: Span, mask': bv32)
    requires RegionOk(large, addr, mask) && large != {} && Closed(mask')
    requires Within(mask', s.mask) && Within(mask', mask) && Agree(s.addr, addr, mask')
    ensures RegionOk(large + {s}, And(addr, mask'), mask')
  {
    hide Agree, Within, Closed, And;
    var addr' := And(addr, mask');
    Masked(addr, mask');
    forall t | t in large + {s} ensures CoversSpan(addr', mask', t) {
      if t in large {
        WithinTrans(mask', mask, t.mask);
        Coarser(t.addr, addr, mask, mask');
      }
      AgreeTrans(t.addr, addr, addr', mask');
    }
  }

  lemma FirstLarge(s: Span)
    requires Closed(s.mask)
    ensures RegionOk({s}, And(s.addr, s.mask), s.mask)
  {
    Masked(s.addr, s.mask);
    SelfWithin(s.mask);
    hide Agree, Within, Closed, And;
  }

  lemma SelfWithin(m: bv32)
    ensures Within(m, m)
  {
  }

  lemma NotNone(large: set<Span>, addr: bv32, mask: bv32)
    requires RegionOk(large, addr, mask)
    ensures addr == NONE <==> large == {}
  {
    if large != {} { NotOnes(addr, mask); }
  }

  lemma NotOnes(addr: bv32, mask: bv32)
    requires Closed(mask) && Within(addr, mask)
    ensures addr != NONE
  {
  }

  // ------------------------------------------------------------ the table

  /** Where the entry at a place came from: its address, and its page's size. An entry
      of a large page belongs to one of the CPU's large pages. */
  ghost predicate HomeOk(e: Entry, home: Span, large: set<Span>, index: nat) {
    && (e.read.Tag? ==>
          e.read.addr == home.addr) && (e.write.Tag? ==> e.write.addr == home.addr)
          && (e.code.Tag? ==> e.code.addr == home.addr)
    && (!Blank(e) ==>
          PageOf(home.addr) == home.addr && IndexOf(home.addr) == index && (home.mask == PAGE_MASK || home in large))
  }

  /** A store that is not trapped goes to RAM with every dirty bit set. */
  ghost predicate EntryOk(e: Entry, host: map<nat, nat>, clean: set<nat>) {
    && (e.write.Tag? && !e.write.mmio ==> e.host in host.Values)
    && (Plain(e.write) ==> forall r :: r in clean && r in host ==> host[r] != e.host)
  }

  /** RAM pages have distinct host addresses. */
  ghost predicate Injective(host: map<nat, nat>) {
    (forall r, s :: r in host && s in host && host[r] == host[s] ==> r == s)
      && forall r :: r in host ==> host[r] + PAGE <= WORD64
  }

  ghost predicate Tracked(table: map<Place, Entry>, host: map<nat, nat>, clean: set<nat>) {
    forall pl :: pl in table ==> EntryOk(table[pl], host, clean)
  }

  ghost predicate Homes(table: map<Place, Entry>, home: map<Place, Span>, large: seq<set<Span>>) {
    forall pl :: pl in table ==> pl.cpu < |large| && pl in home && HomeOk(table[pl], home[pl], large[pl.cpu], pl.index)
  }

  ghost predicate Regions(large: seq<set<Span>>, flushAddr: seq<bv32>, flushMask: seq<bv32>) {
    |flushAddr| == |flushMask| == |large|
      && forall c :: 0 <= c < |large| ==> RegionOk(large[c], flushAddr[c], flushMask[c])
  }

  ghost predicate Everywhere(table: map<Place, Entry>, cpus: nat) {
    forall pl :: pl in table <==> pl.cpu < cpus && pl.mode < MODES && pl.index < TLB_SIZE
  }

  /** Entries before pl in the order of the loops over CPUs, modes and indices. */
  ghost predicate Before(pl: Place, c: nat, m: nat, i: nat) {
    pl.cpu < c || (pl.cpu == c && (pl.mode < m || (pl.mode == m && pl.index < i)))
  }

  // ------------------------------------------------------------ resetting dirty bits

  /** tlb_reset_dirty_range: the subtraction wraps as the source's does. */
  function ResetEntry(e: Entry, start: nat, length: nat): (r: Entry) {
    if Plain(e.write) && (e.host - start) % WORD64 < length then e.(write := e.write.(notDirty := true)) else e
  }

  ghost function ResetAll(table: map<Place, Entry>, start: nat, length: nat): map<Place, Entry> {
    map pl | pl in table :: ResetEntry(table[pl], start, length)
  }

  function Ceil(n: nat): nat { (n + PAGE - 1) / PAGE }

  /** The pages whose bits are cleared for a byte range. */
  function PagesOf(start: nat, length: nat): (r: set<nat>)
    ensures length > 0 ==> forall p: nat :: p in r <==> HasByte(start, length, p)
  {
    PagesMean(start, length);
    hide HasByte;
    set p: nat | start / PAGE <= p < Ceil(start + length) && Touched(p, start, length)
  }

  predicate ByteOn(x: nat, p: nat) { x / PAGE == p }

  /** A byte of the range lies on the page. */
  ghost predicate HasByte(start: nat, length: nat, p: nat) { exists x :: start <= x < start + length && ByteOn(x, p) }

  lemma PagesMean(start: nat, length: nat)
    ensures length > 0 ==>
              forall p: nat :: Touched(p, start, length) <==> HasByte(start, length, p)
  {
    if length > 0 {
      forall p: nat
        ensures Touched(p, start, length) <==> HasByte(start, length, p)
      {
        if Touched(p, start, length) {
          var x := if p == start / PAGE then start else p * PAGE;
          assert start <= x < start + length && ByteOn(x, p);
        }
        if x :| start <= x < start + length && ByteOn(x, p) { Below(start, x, start + length); }
      }
    }
  }

  lemma Below(a: nat, x: nat, b: nat)
    requires a <= x < b
    ensures a / PAGE <= x / PAGE < Ceil(b)
  {
  }

  predicate Touched(p: nat, start: nat, length: nat) { start / PAGE <= p < Ceil(start + length) }

  /** The range lies in one RAM block: host addresses run along with RAM addresses. */
  ghost predicate InBlock(host: map<nat, nat>, start: nat, length: nat) {
    forall p :: start / PAGE <= p < Ceil(start + length) ==>
      && p in host && start / PAGE in host
      && host[p] == host[start / PAGE] + (p - start / PAGE) * PAGE && host[p] + PAGE <= WORD64
  }

  /** The length alone reaches as many pages as the range does. */
  predicate Rounds(start: nat, length: nat) { Ceil(start % PAGE + length) == Ceil(length) }

  lemma PageCount(start: nat, length: nat)
    ensures Ceil(start + length) == start / PAGE + Ceil(start % PAGE + length)
    ensures Ceil(length) <= Ceil(start % PAGE + length) <= Ceil(length) + 1
  {
    var q, o := start / PAGE, start % PAGE;
    assert start + length + PAGE - 1 == q * PAGE + (o + length + PAGE - 1);
  }

  /** Host page k of the range is within length bytes exactly for k below Ceil(length). */
  lemma WithinLength(k: nat, length: nat)
    ensures k * PAGE < length <==> k < Ceil(length)
  {
  }

  /** The last page of a range. */
  ghost function LastPage(start: nat, length: nat): int { Ceil(start + length) - 1 }

  /** The entry lets stores through to the page that the length alone does not reach. */
  ghost predicate Missed(e: Entry, host: map<nat, nat>, start: nat, length: nat) {
    !Rounds(start, length) && Plain(e.write) && LastPage(start, length) in host
      && e.host == host[LastPage(start, length)]
  }

  lemma ResetOne(e: Entry, host: map<nat, nat>, clean: set<nat>, start: nat, length: nat)
    requires EntryOk(e, host, clean) && Injective(host) && InBlock(host, start, length) && length > 0
             && start / PAGE in host
    requires !Missed(e, host, start, length)
    ensures EntryOk(ResetEntry(e, host[start / PAGE], length), host, clean + PagesOf(start, length))
  {
    var e' := ResetEntry(e, host[start / PAGE], length);
    if Plain(e'.write) {
      forall r | r in clean + PagesOf(start, length) && r in host ensures host[r] != e.host {
        if r in PagesOf(start, length) && host[r] == e.host {
          PageCount(start, length);
          WithinLength(r - start / PAGE, length);
          assert false;
        }
      }
    }
  }

  ghost predicate NoneMissed(table: map<Place, Entry>, host: map<nat, nat>, start: nat, length: nat) {
    forall pl :: pl in table ==> !Missed(table[pl], host, start, length)
  }

  /** Clearing bits of a range and resetting the entries by its length keeps every untrapped
      store on pages with all bits set if and only if no entry is missed; none is when the
      length reaches all pages. */
  lemma ResetKeeps(table: map<Place, Entry>, host: map<nat, nat>, clean: set<nat>, start: nat, length: nat)
    requires Tracked(table, host, clean) && Injective(host) && InBlock(host, start, length) && length > 0
             && start / PAGE in host
    ensures Tracked(ResetAll(table, host[start / PAGE], length), host, clean + PagesOf(start, length)) <==>
            NoneMissed(table, host, start, length)
    ensures Rounds(start, length) ==> NoneMissed(table, host, start, length)
  {
    hide EntryOk, ResetEntry, Injective, InBlock, PagesOf;
    if NoneMissed(table, host, start, length) {
      forall pl | pl in table
        ensures EntryOk(ResetEntry(table[pl], host[start / PAGE], length), host, clean + PagesOf(start, length))
      {
        ResetOne(table[pl], host, clean, start, length);
      }
    } else {
      var pl :| pl in table && Missed(table[pl], host, start, length);
      ResetMisses(table, host, clean, start, length, pl);
    }
  }

  /** Otherwise a plain entry for the last page stays plain. */
  lemma ResetMisses(table: map<Place, Entry>, host: map<nat, nat>, clean: set<nat>, start: nat, length: nat, pl: Place)
    requires InBlock(host, start, length) && length > 0 && start / PAGE in host && !Rounds(start, length)
    requires pl in table && Plain(table[pl].write) && Ceil(start + length) - 1 in host
             && table[pl].host == host[Ceil(start + length) - 1]
    ensures !Tracked(ResetAll(table, host[start / PAGE], length), host, clean + PagesOf(start, length))
  {
    PageCount(start, length);
    var last := Ceil(start + length) - 1;
    WithinLength(last - start / PAGE, length);
    assert last in PagesOf(start, length);
    var e := ResetEntry(table[pl], host[start / PAGE], length);
    assert e == table[pl];
    assert !EntryOk(e, host, clean + PagesOf(start, length));
    assert ResetAll(table, host[start / PAGE], length)[pl] == e;
  }

  /** A table that the TLBs of so many CPUs can hold: an entry at every place, and each where
      its address belongs. */
  ghost predicate Possible(table: map<Place, Entry>, cpus: nat) {
    Everywhere(table, cpus) && exists home, large :: |large| == cpus && Homes(table, home, large)
  }

  /** So the reset is sound for every table if and only if the length rounds up to as
      many pages as the range touches; page-aligned starts always do. */
  lemma ResetSound(host: map<nat, nat>, clean: set<nat>, start: nat, length: nat, cpus: nat)
    requires Injective(host) && InBlock(host, start, length) && length > 0 && start / PAGE in host && cpus > 0
    requires Ceil(start + length) - 1 in host && Ceil(start + length) - 1 !in clean
    ensures Rounds(start, length) <==>
            forall table :: Possible(table, cpus) && Tracked(table, host, clean) ==>
              Tracked(ResetAll(table, host[start / PAGE], length), host, clean + PagesOf(start, length))
    ensures start % PAGE == 0 ==> Rounds(start, length)
  {
    hide Tracked, ResetAll, InBlock, PagesOf, Possible;
    if Rounds(start, length) {
      forall table | Possible(table, cpus) && Tracked(table, host, clean)
        ensures Tracked(ResetAll(table, host[start / PAGE], length), host, clean + PagesOf(start, length))
      {
        ResetKeeps(table, host, clean, start, length);
      }
    } else {
      var last := Ceil(start + length) - 1;
      var e := Entry(NoTag, Tag(0, false, false), NoTag, host[last]);
      var table := Everyplace(cpus, EMPTY)[Place(0, 0, 0) := e];
      OnePossible(cpus, 0, e);
      OneTracked(cpus, e, host, clean, last);
      ResetMisses(table, host, clean, start, length, Place(0, 0, 0));
    }
  }

  /** Two bytes across the end of page 0: for some table of one CPU an untrapped store to page 1
      is left although the page's bit has been cleared. */
  lemma UnalignedReset()
    ensures var host := map[0 := 0, 1 := PAGE];
            exists table :: Possible(table, 1) && Tracked(table, host, {})
                            && !Tracked(ResetAll(table, host[0], 2), host, {} + PagesOf(4095, 2))
  {
    assert 4095 / PAGE == 0 && Ceil(4095 + 2) == 2 && !Rounds(4095, 2);
    hide Tracked, ResetAll, PagesOf, Rounds, Possible;
    ResetSound(map[0 := 0, 1 := PAGE], {}, 4095, 2, 1);
  }

  lemma OneTracked(cpus: nat, e: Entry, host: map<nat, nat>, clean: set<nat>, r: nat)
    requires Injective(host) && r in host && r !in clean && e.host == host[r]
    ensures Tracked(Everyplace(cpus, EMPTY)[Place(0, 0, 0) := e], host, clean)
  {
    hide Everyplace;
  }

  /** Entries for the first virtual page may stand at place 0 of each mode. */
  lemma OnePossible(cpus: nat, mode: nat, e: Entry)
    requires cpus > 0 && mode < MODES && AtZero(e)
    ensures Possible(Everyplace(cpus, EMPTY)[Place(0, mode, 0) := e], cpus)
  {
    ZeroPossible(Everyplace(cpus, EMPTY)[Place(0, mode, 0) := e], cpus);
  }

  ghost predicate AtZero(e: Entry) {
    (e.read.Tag? ==> e.read.addr == 0) && (e.write.Tag? ==> e.write.addr == 0) && (e.code.Tag? ==> e.code.addr == 0)
  }

  lemma ZeroPossible(table: map<Place, Entry>, cpus: nat)
    requires Everywhere(table, cpus)
    requires forall pl :: pl in table ==> AtZero(table[pl]) && (pl.index == 0 || Blank(table[pl]))
    ensures Possible(table, cpus)
  {
    hide PageOf, IndexOf, Everyplace;
    ZeroIndex();
    var home, large := Everyplace(cpus, Span(0, PAGE_MASK)), seq<set<Span>>(cpus, _ => {});
    assert Homes(table, home, large);
  }

  // ------------------------------------------------------------ the operations

  /** tlb_flush_entry. */
  function FlushEntry(e: Entry, page: bv32): (r: Entry) {
    if (e.read.Tag? && e.read.addr == page) || (e.write.Tag? && e.write.addr == page)
      || (e.code.Tag? && e.code.addr == page) then EMPTY else e
  }

  /** One of the entry's tags is the page's. */
  ghost predicate Tagged(e: Entry, page: bv32) {
    exists t :: t in {e.read, e.write, e.code} && t.Tag? && t.addr == page
  }

  lemma FlushesTagged(e: Entry, page: bv32)
    ensures FlushEntry(e, page) == e || Tagged(e, page)
  {
    assert e.read in {e.read, e.write, e.code} && e.write in {e.read, e.write, e.code};
    assert e.code in {e.read, e.write, e.code};
  }

  /** Only entries for the page have changed. */
  ghost predicate OnlyPage(table: map<Place, Entry>, table': map<Place, Entry>, cpu: nat, page: bv32) {
    && table'.Keys == table.Keys
    && forall pl :: pl in table ==> table'[pl] == table[pl] || (pl.cpu == cpu && Tagged(table[pl], page))
  }

  lemma RangeTest(a: bv32, flushAddr: seq<bv32>, flushMask: seq<bv32>, cpu: nat)
    ensures cpu < |flushAddr| && cpu < |flushMask| ==>
              (InRange(a, flushAddr[cpu], flushMask[cpu]) <==> And(a, flushMask[cpu]) == flushAddr[cpu])
  {
  }

  /** tlb_set_dirty1. */
  function DirtyEntry(e: Entry, page: bv32): (r: Entry) {
    if e.write == Tag(page, false, true) then e.(write := Tag(page, false, false)) else e
  }

  /** The entry tlb_set_page writes. */
  function NewEntry(vaddr: bv32, phys: Phys, read: bool, write: bool, exec: bool, watch: bool, clean: bool,
                    host: nat): (e: Entry) {
    var io := phys.Io?;
    Entry(if read then Tag(vaddr, io || watch, false) else NoTag,
          if !write then NoTag
          else if phys.Rom? || phys.Romd? then Tag(vaddr, true, false)
          else Tag(vaddr, io || watch, phys.Ram? && clean),
          if exec then Tag(vaddr, io, false) else NoTag,
          host)
  }

  lemma RegionCount(large: seq<set<Span>>, flushAddr: seq<bv32>, flushMask: seq<bv32>)
    requires Regions(large, flushAddr, flushMask)
    ensures |flushAddr| == |flushMask| == |large|
  {
  }

  /** One CPU's region changes. */
  lemma Regioned(large: seq<set<Span>>, flushAddr: seq<bv32>, flushMask: seq<bv32>, cpu: nat, l: set<Span>, a: bv32,
                 m: bv32)
    requires Regions(large, flushAddr, flushMask) && cpu < |large| && RegionOk(l, a, m)
    ensures Regions(large[cpu := l], flushAddr[cpu := a], flushMask[cpu := m])
  {
    hide RegionOk;
  }

  lemma Emptied(table: map<Place, Entry>, table': map<Place, Entry>, host: map<nat, nat>, clean: set<nat>,
                home: map<Place, Span>, large: seq<set<Span>>, cpu: nat)
    requires Tracked(table, host, clean) && Homes(table, home, large) && cpu < |large| && table'.Keys == table.Keys
    requires forall pl :: pl in table' ==> table'[pl] == if pl.cpu == cpu then EMPTY else table[pl]
    ensures Tracked(table', host, clean) && Homes(table', home, large[cpu := {}])
  {
  }

  /** One value at every place. */
  function Everyplace<V>(cpus: nat, v: V): (t: map<Place, V>)
    ensures forall pl :: pl in t <==> pl.cpu < cpus && pl.mode < MODES && pl.index < TLB_SIZE
    ensures forall pl :: pl in t ==> t[pl] == v
  {
    map c, m, i | 0 <= c < cpus && 0 <= m < MODES && 0 <= i < TLB_SIZE :: Place(c, m, i) := v
  }

  lemma NoEntries(table: map<Place, Entry>, host: map<nat, nat>, clean: set<nat>, home: map<Place, Span>,
                  large: seq<set<Span>>)
    requires forall pl :: pl in table ==> table[pl] == EMPTY && pl.cpu < |large| && pl in home
    ensures Tracked(table, host, clean) && Homes(table, home, large)
  {
  }

  lemma NothingYet(cpus: nat)
    ensures Regions(seq(cpus, _ => {}), seq(cpus, _ => NONE), seq(cpus, _ => 0))
  {
  }

  class Memory {
    const tb: TbContext
    /** Host address of each RAM page. */
    const host: map<nat, nat>
    const cpus: nat
    var table: map<Place, Entry>
    var flushAddr: seq<bv32>
    var flushMask: seq<bv32>
    /** Pages whose display and migration dirty bits are clear; the code bit is tb's. */
    var vgaClean: set<nat>
    var migrationClean: set<nat>

    /** Large pages installed since the CPU's last full flush, and each entry's page. */
    ghost var large: seq<set<Span>>
    ghost var home: map<Place, Span>

    ghost function Clean(): set<nat>
      reads this, tb
    {
      vgaClean + migrationClean + tb.watched
    }

    /** cpu_physical_memory_is_clean. */
    predicate IsClean(r: nat)
      reads this, tb
    {
      r in vgaClean || r in migrationClean || r in tb.watched
    }

    ghost predicate TableOk()
      reads this
    {
      Everywhere(table, cpus) && |large| == cpus && Homes(table, home, large) && Regions(large, flushAddr, flushMask)
    }

    ghost predicate Valid()
      reads this, tb
    {
      Sound() && Tracked(table, host, Clean())
    }

    /** All of Valid but the tracking of stores. */
    ghost predicate Sound()
      reads this, tb
    {
      tb.Valid() && Injective(host) && TableOk() && |tb.cache| == cpus
    }

    /** No entries, and every dirty bit set but those of the pages with code. */
    constructor (tb: TbContext, host: map<nat, nat>, cpus: nat)
      requires tb.Valid() && Injective(host) && |tb.cache| == cpus
      ensures Valid() && this.tb == tb && this.host == host && this.cpus == cpus
      ensures forall pl :: pl in table ==> table[pl] == EMPTY && pl in home
      ensures vgaClean == {} && migrationClean == {}
    {
      this.tb, this.host, this.cpus := tb, host, cpus;
      table := Everyplace(cpus, EMPTY);
      flushAddr, flushMask := seq(cpus, _ => NONE), seq(cpus, _ => 0);
      vgaClean, migrationClean := {}, {};
      large := seq(cpus, _ => {});
      home := Everyplace(cpus, Span(0, 0));
      new;
      hide TbContext.Valid, Injective, Everyplace, Regions, Homes, Tracked;
      NothingYet(cpus);
      NoEntries(table, host, Clean(), home, large);
    }

    /** tlb_flush. */
    method Flush(cpu: nat)
      requires Valid() && cpu < cpus
      modifies this`table, this`flushAddr, this`flushMask, this`large, tb`cache
      ensures Valid() && large == old(large)[cpu := {}]
      ensures tb.cache == old(tb.cache)[cpu := TbExec.Erased(old(tb.cache)[cpu], 0, |old(tb.cache)[cpu]|)]
      ensures table.Keys == old(table).Keys && forall pl :: pl in table ==>
                table[pl] == if pl.cpu == cpu then EMPTY else old(table)[pl]
    {
      hide TbContext.Valid, Tracked, Homes, Regions, Injective, TbExec.Erased;
      ghost var large0 := large;
      assert |large| == |flushAddr| == |flushMask| by { RegionCount(large, flushAddr, flushMask); }
      EmptyEntries(cpu);
      TbExec.Forget(tb, cpu, 0, |tb.cache[cpu]|);
      flushAddr, flushMask := flushAddr[cpu := NONE], flushMask[cpu := 0];
      large := large[cpu := {}];
      Emptied(old(table), table, host, Clean(), home, large0, cpu);
      Regioned(large0, old(flushAddr), old(flushMask), cpu, {}, NONE, 0);
    }

    method EmptyEntries(cpu: nat)
      requires Everywhere(table, cpus) && cpu < cpus
      modifies this`table
      ensures table.Keys == old(table).Keys && forall pl :: pl in table ==>
                table[pl] == if pl.cpu == cpu then EMPTY else old(table)[pl]
    {
      for i := 0 to TLB_SIZE
        invariant table.Keys == old(table).Keys
        invariant forall pl :: pl in table ==>
                    table[pl] == if pl.cpu == cpu && pl.index < i then EMPTY else old(table)[pl]
      {
        for mode := 0 to MODES
          invariant table.Keys == old(table).Keys
          invariant forall pl :: pl in table ==>
                      table[pl] == if pl.cpu == cpu && (pl.index < i || (pl.index == i && pl.mode < mode)) then EMPTY
                                   else old(table)[pl]
        {
          table := table[Place(cpu, mode, i) := EMPTY];
        }
      }
    }

    /** tlb_flush_page: no entry of the CPU that a falls in is left, whatever the size
        of the page it was installed for. */
    method FlushPage(cpu: nat, a: bv32)
      requires Valid() && cpu < cpus
      modifies this`table, this`flushAddr, this`flushMask, this`large, tb`cache
      ensures Valid()
      ensures Thinner(old(table), table, cpu)
      ensures Unmapped(table, home, cpu, a) && NoneIn(large[cpu], a)
      ensures JumpsForgotten(old(tb.cache), tb.cache, cpu, a, old(large), large)
      ensures |old(flushAddr)| == |old(flushMask)| == cpus
      ensures And(a, old(flushMask)[cpu]) != old(flushAddr)[cpu] ==>
                OnlyPage(old(table), table, cpu, PageOf(a)) && large == old(large)
    {
      hide TbContext.Valid, Tracked, Homes, Regions, Injective, NoneIn, Unmapped, InRange, PageOf, IndexOf, Thinner,
           TbExec.Erased, PageSlot, FlushEntry, And, Tagged;
      RangeTest(a, flushAddr, flushMask, cpu);
      RegionCount(large, flushAddr, flushMask);
      if InRange(a, flushAddr[cpu], flushMask[cpu]) {
        Flush(cpu);
        AllGone(old(table), table, home, cpu, a);
        return;
      }
      var page := PageOf(a);
      var i := IndexOf(page);
      for mode := 0 to MODES
        invariant table.Keys == old(table).Keys
        invariant forall pl :: pl in table ==>
                    table[pl] == if pl.cpu == cpu && pl.index == i && pl.mode < mode
                      then FlushEntry(old(table)[pl], page) else old(table)[pl]
        modifies this`table
      {
        table := table[Place(cpu, mode, i) := FlushEntry(table[Place(cpu, mode, i)], page)];
      }
      FlushJumps(cpu, page);
      OutsideRegion(large, flushAddr, flushMask, cpu, a);
      PageFlushed(old(table), table, host, Clean(), home, large, cpu, a);
      forall e: Entry ensures FlushEntry(e, page) == e || Tagged(e, page) { FlushesTagged(e, page); }
    }

    /** tb_flush_jmp_cache: a block that has code on the page begins on it or on the one before. */
    method FlushJumps(cpu: nat, page: bv32)
      requires tb.Valid() && cpu < |tb.cache|
      modifies tb`cache
      ensures tb.Valid() && tb.cache == old(tb.cache)[cpu := WithoutPage(old(tb.cache)[cpu], page)]
    {
      hide TbContext.Valid, TbExec.Erased, PageSlot;
      TbExec.Forget(tb, cpu, PageSlot(page - 4096), JUMP_PAGE);
      TbExec.Forget(tb, cpu, PageSlot(page), JUMP_PAGE);
    }

    /** tlb_add_large_page. */
    method AddLargePage(cpu: nat, vaddr: bv32, size: bv32)
      requires Regions(large, flushAddr, flushMask) && cpu < |large| && PowerOfTwo(size) && size != 1
      modifies this`flushAddr, this`flushMask, this`large
      ensures Regions(large, flushAddr, flushMask)
              && large == old(large)[cpu := old(large)[cpu] + {SpanOf(vaddr, size)}]
    {
      hide Regions, RegionOk, PowerOfTwo, SpanOf;
      RegionCount(large, flushAddr, flushMask);
      RegionOf(large, flushAddr, flushMask, cpu);
      var a, m := Extend(flushAddr[cpu], flushMask[cpu], vaddr, size, large[cpu]);
      Regioned(large, flushAddr, flushMask, cpu, large[cpu] + {SpanOf(vaddr, size)}, a, m);
      flushAddr, flushMask := flushAddr[cpu := a], flushMask[cpu := m];
      large := large[cpu := large[cpu] + {SpanOf(vaddr, size)}];
    }

    /** tlb_set_page. */
    method SetPage(cpu: nat, mode: nat, vaddr: bv32, phys: Phys, read: bool, write: bool, exec: bool, size: bv32,
                   watch: bool)
      requires Valid() && cpu < cpus && mode < MODES && PageOf(vaddr) == vaddr && PowerOfTwo(size) && size >= 4096
      requires phys.Ram? ==> phys.page in host
      modifies this`table, this`flushAddr, this`flushMask, this`large, this`home
      ensures Valid()
      ensures var pl := Place(cpu, mode, IndexOf(vaddr));
              && home == old(home)[pl := SpanOf(vaddr, size)]
              && pl in table && table == old(table)[pl := table[pl]]
              && table[pl].write.Tag? == write && table[pl].read.Tag? == read && table[pl].code.Tag? == exec
              && (Plain(table[pl].write) <==> write && !watch && phys.Ram? && !IsClean(phys.page))
              && (write ==> table[pl].write == Tag(vaddr, watch || !phys.Ram?, phys.Ram? && IsClean(phys.page)))
              && (Plain(table[pl].read) <==> read && !watch && !phys.Io?)
              && (read ==> table[pl].read.addr == vaddr && !table[pl].read.notDirty)
              && (!phys.Io? && phys.page in host ==> table[pl].host == host[phys.page])
              && (exec ==> table[pl].code == Tag(vaddr, phys.Io?, false))
      ensures large == old(large)[cpu := old(large)[cpu] + if size == 4096 then {} else {SpanOf(vaddr, size)}]
    {
      hide TbContext.Valid, Regions, Injective, PowerOfTwo, Tracked, Homes, PageOf, IndexOf, SpanOf, NewEntry,
           EntryOk, HomeOk, Plain;
      if size != 4096 {
        AddLargePage(cpu, vaddr, size);
      } else {
        assert large[cpu] + {} == large[cpu];
      }
      var at := if !phys.Io? && phys.page in host then host[phys.page] else 0;
      var e := NewEntry(vaddr, phys, read, write, exec, watch, phys.Ram? && IsClean(phys.page), at);
      var pl := Place(cpu, mode, IndexOf(vaddr));
      NewOk(e, vaddr, phys, read, write, exec, watch, host, Clean());
      NewHome(e, vaddr, size, large[cpu]);
      Installed(table, host, Clean(), home, old(large), large, pl, e, SpanOf(vaddr, size));
      table := table[pl := e];
      home := home[pl := SpanOf(vaddr, size)];
    }

    /** tlb_set_dirty. It lets stores through in all modes; that is right if and only if no
        mode maps the virtual page to another page that is clean. */
    method SetDirty(cpu: nat, vaddr: bv32)
      requires Valid() && cpu < cpus
      modifies this`table
      ensures Sound() && (Valid() <==> Harmless(old(table), host, Clean(), cpu, PageOf(vaddr)))
      ensures AllDirtied(old(table), table, cpu, PageOf(vaddr))
    {
      hide TbContext.Valid, Tracked, Homes, Regions, Injective, Harmless, PageOf, IndexOf, DirtyEntry;
      var page := PageOf(vaddr);
      var i := IndexOf(page);
      for mode := 0 to MODES
        invariant table.Keys == old(table).Keys
        invariant forall pl :: pl in table ==>
                    table[pl] == if pl.cpu == cpu && pl.index == i && pl.mode < mode
                      then DirtyEntry(old(table)[pl], page) else old(table)[pl]
        modifies this`table
      {
        table := table[Place(cpu, mode, i) := DirtyEntry(table[Place(cpu, mode, i)], page)];
      }
      Dirtied(old(table), table, host, Clean(), home, large, cpu, page);
    }

    /** cpu_tlb_reset_dirty_all. */
    method ResetTable(start: nat, length: nat)
      requires TableOk()
      modifies this`table
      ensures table == ResetAll(old(table), start, length) && TableOk()
    {
      hide Homes, Regions, ResetEntry;
      for c := 0 to cpus
        invariant table.Keys == old(table).Keys && Partly(old(table), table, start, length, c, 0, 0)
        modifies this`table
      {
        for mode := 0 to MODES
          invariant table.Keys == old(table).Keys && Partly(old(table), table, start, length, c, mode, 0)
          modifies this`table
        {
          for i := 0 to TLB_SIZE
            invariant table.Keys == old(table).Keys && Partly(old(table), table, start, length, c, mode, i)
            modifies this`table
          {
            var pl := Place(c, mode, i);
            table := table[pl := ResetEntry(table[pl], start, length)];
          }
        }
      }
      HomesReset(old(table), home, large, start, length);
    }

    /** cpu_physical_memory_reset_dirty for the display or the migration bits. */
    method ResetDirty(start: nat, length: nat, migration: bool)
      requires Valid() && InBlock(host, start, length)
      modifies this`table, this`vgaClean, this`migrationClean
      ensures Sound() && (Valid() <==> length == 0 || NoneMissed(old(table), host, start, length))
      ensures Rounds(start, length) ==> Valid()
      ensures SameCode(old(table), table)
      ensures migrationClean == old(migrationClean) + if migration && length > 0 then PagesOf(start, length) else {}
      ensures vgaClean == old(vgaClean) + if migration || length == 0 then {} else PagesOf(start, length)
    {
      hide TbContext.Valid, Tracked, Homes, Regions, Injective, ResetAll, InBlock, Rounds, PagesOf, NoneMissed;
      if length == 0 {
        return;
      }
      BlockStart(host, start, length);
      SameReset(table, host[start / PAGE], length);
      ResetKeeps(table, host, Clean(), start, length);
      if migration {
        migrationClean := migrationClean + PagesOf(start, length);
      } else {
        vgaClean := vgaClean + PagesOf(start, length);
      }
      ResetTable(host[start / PAGE], length);
      assert Clean() == old(Clean()) + PagesOf(start, length);
    }

    /** The reset of tlb_protect_code for one page. */
    method ProtectCode(p: nat, ghost clean: set<nat>)
      requires TableOk() && Injective(host) && Tracked(table, host, clean) && p in host
      modifies this`table
      ensures TableOk() && Tracked(table, host, clean + {p}) && SameCode(old(table), table)
    {
      hide Tracked, Homes, Regions, Injective, ResetAll;
      ResetPage(table, host, clean, p);
      SameReset(table, host[p], PAGE);
      ResetTable(host[p], PAGE);
    }

    predicate HasCode(p: nat)
      reads tb
    {
      p in tb.pageFirst && tb.pageFirst[p] != NIL
    }

    /** tb_link_page, with the TLB reset that protects each page that had no code. */
    method LinkBlock(b: Ptr, i: Info)
      requires Valid() && b !in tb.known && b != NULL && i.page1 >= -1 && Pages(i) <= host.Keys
      modifies this`table, tb
      ensures Valid() && tb.live == old(tb.live) + {b} && tb.info == old(tb.info)[b := i]
    {
      hide TbContext.Valid, Tracked, Homes, Regions, Injective, TbExec.Linked;
      var first0 := !HasCode(i.page0);
      var first1 := i.page1 != -1 && i.page1 != i.page0 && !HasCode(i.page1);
      ghost var clean := Clean();
      EmptyLists(tb, i.page0);
      if i.page1 != -1 { EmptyLists(tb, i.page1); }
      TbExec.Link(tb, b, i);
      if first0 {
        ProtectCode(i.page0, clean);
        clean := clean + {i.page0};
      }
      if first1 {
        ProtectCode(i.page1, clean);
        clean := clean + {i.page1};
      }
      assert Clean() == clean;
    }

    /** notdirty_mem_writeb: a trapped store of one byte. */
    method NotDirtyWrite(cpu: nat, vaddr: bv32, ram: nat)
      requires Valid() && cpu < cpus && AllSized(tb.info, tb.live)
      modifies this, tb
      ensures Sound() && tb.info == old(tb.info) && AllSized(tb.info, tb.live)
      ensures Valid() <==> IsClean(ram / PAGE) || Harmless(old(table), host, Clean(), cpu, PageOf(vaddr))
      ensures ram / PAGE in host && Sole(old(table), host, cpu, PageOf(vaddr), ram / PAGE) ==> Valid()
      ensures tb.live == CodeBitmap.Unhit(tb.info, old(tb.live), ram, ram + 1)
      ensures vgaClean == old(vgaClean) - {ram / PAGE} && migrationClean == old(migrationClean) - {ram / PAGE}
      ensures tb.watched <= old(tb.watched) && tb.known == old(tb.known)
      ensures Shrunk(old(tb.cache), tb.cache) && Unchained(old(tb.target), tb.target)
      ensures SameCode(old(table), table) && home == old(home) && large == old(large)
    {
      hide TbContext.Valid, Tracked, Homes, Regions, Injective, Sole, Harmless, CodeBitmap.Unhit, AllSized;
      var r := ram / PAGE;
      if r in tb.watched {
        CodeBitmap.InvalidateFast(tb, ram, 1);
      } else {
        NoCode(tb, ram);
      }
      vgaClean, migrationClean := vgaClean - {r}, migrationClean - {r};
      FewerClean(table, host, old(Clean()), Clean());
      if !IsClean(r) {
        SoleHarmless(table, host, Clean(), cpu, PageOf(vaddr), r);
        SetDirty(cpu, vaddr);
      }
    }

    /** invalidate_and_set_dirty: a store by a device. */
    method InvalidateAndSetDirty(addr: nat, length: nat)
      requires Valid() && length > 0 && addr % PAGE + length <= PAGE && AllSized(tb.info, tb.live)
      modifies this`vgaClean, this`migrationClean, tb
      ensures Valid() && tb.info == old(tb.info) && AllSized(tb.info, tb.live)
      ensures tb.live == CodeBitmap.Unhit(tb.info, old(tb.live), addr, addr + length)
      ensures vgaClean == old(vgaClean) - {addr / PAGE} && migrationClean == old(migrationClean) - {addr / PAGE}
      ensures tb.watched == old(tb.watched) && tb.known == old(tb.known)
      ensures Shrunk(old(tb.cache), tb.cache) && Unchained(old(tb.target), tb.target)
    {
      hide TbContext.Valid, Tracked, Homes, Regions, Injective, CodeBitmap.Unhit, AllSized;
      OnePageRange(addr, length);
      if IsClean(addr / PAGE) {
        CodeBitmap.InvalidateRange(tb, addr, addr + length, false);
        vgaClean := vgaClean - {addr / PAGE};
        migrationClean := migrationClean - {addr / PAGE};
        FewerClean(table, host, old(Clean()), Clean());
      } else {
        NoCodeRange(tb, addr, length);
      }
    }
  }

  /** Entries for code fetches are as they were. */
  ghost predicate SameCode(table: map<Place, Entry>, table': map<Place, Entry>) {
    table'.Keys == table.Keys && forall pl :: pl in table ==>
      table'[pl].code == table[pl].code && table'[pl].host == table[pl].host
  }

  lemma SameReset(table: map<Place, Entry>, start: nat, length: nat)
    ensures SameCode(table, ResetAll(table, start, length))
  {
  }

  lemma BlockStart(host: map<nat, nat>, start: nat, length: nat)
    requires InBlock(host, start, length) && length > 0
    ensures start / PAGE in host
  {
    PageCount(start, length);
  }

  lemma ResetPage(table: map<Place, Entry>, host: map<nat, nat>, clean: set<nat>, p: nat)
    requires Tracked(table, host, clean) && Injective(host) && p in host
    ensures Tracked(ResetAll(table, host[p], PAGE), host, clean + {p})
  {
    hide Tracked, ResetAll;
    assert PagesOf(p * PAGE, PAGE) == {p} by {
      assert p * PAGE / PAGE == p && Ceil(p * PAGE + PAGE) == p + 1;
      assert Touched(p, p * PAGE, PAGE);
    }
    ResetKeeps(table, host, clean, p * PAGE, PAGE);
  }

  lemma FewerClean(table: map<Place, Entry>, host: map<nat, nat>, clean: set<nat>, clean': set<nat>)
    requires Tracked(table, host, clean) && clean' <= clean
    ensures Tracked(table, host, clean')
  {
  }

  lemma EmptyLists(c: TbContext, p: nat)
    requires c.Valid()
    ensures ListOf(c.lists, p) == [] <==> !(p in c.pageFirst && c.pageFirst[p] != NIL)
  {
    TbExec.PageKeys(c.info, c.pageFirst, c.pageNext, c.lists, c.live, {}, p);
  }

  lemma OnePageRange(addr: nat, length: nat)
    requires addr % PAGE + length <= PAGE
    ensures CodeBitmap.Clip(addr, addr + length) == addr + length
  {
  }

  /** A page that is not watched has no code, so no block is hit. */
  lemma NoCodeRange(c: TbContext, addr: nat, length: nat)
    requires c.Valid() && AllSized(c.info, c.live) && addr / PAGE !in c.watched && length > 0
             && addr % PAGE + length <= PAGE
    ensures CodeBitmap.Unhit(c.info, c.live, addr, addr + length) == c.live
  {
    hide AllSized, CodeBitmap.Unhit, CodeBitmap.Struck, PageOk, CodeBitmap.Clip, BitmapsOk, HashOk,
         JumpOk, GoesOk, CacheOk;
    OnePageRange(addr, length);
    CodeBitmap.StruckHits(c.info, c.pageFirst, c.pageNext, c.lists, c.live, addr, addr + length);
    CodeBitmap.StruckNone(c.info, [], addr, addr + length);
  }

  lemma NoCode(c: TbContext, ram: nat)
    requires c.Valid() && AllSized(c.info, c.live) && ram / PAGE !in c.watched
    ensures CodeBitmap.Unhit(c.info, c.live, ram, ram + 1) == c.live
  {
    NoCodeRange(c, ram, 1);
  }

  /** In every state, a store that the TLB lets through goes to a page with all dirty
      bits set and no translated code on it. */
  lemma StoreSafe(m: Memory, pl: Place, r: nat, b: Ptr)
    requires m.Valid() && pl in m.table && Plain(m.table[pl].write) && r in m.host && m.host[r] == m.table[pl].host
    ensures r !in m.vgaClean && r !in m.migrationClean && ListOf(m.tb.lists, r) == []
    ensures b in m.tb.live ==> b in m.tb.info && r !in Pages(m.tb.info[b])
  {
    hide HashOk, PageOk, JumpOk, GoesOk, CacheOk, BitmapsOk, Homes, Regions, Everywhere, Injective;
    assert EntryOk(m.table[pl], m.host, m.Clean());
    if b in m.tb.live {
      LiveInfo(m.tb.info, m.tb.hashHead, m.tb.hashNext, m.tb.chains, m.tb.live, b);
      if r in Pages(m.tb.info[b]) { HasCode(m.tb.info, m.tb.pageFirst, m.tb.pageNext, m.tb.lists, m.tb.live, b, r); }
    }
  }

  lemma HasCode(info: map<Ptr, Info>, first: map<nat, Ref>, next: map<Ref, Ref>, lists: map<nat, seq<Ref>>,
                live: set<Ptr>, b: Ptr, r: nat)
    requires PageOk(info, first, next, lists, live, {}) && b in live && b in info && r in Pages(info[b])
    ensures ListOf(lists, r) != []
  {
    assert Listed(info[b].page0, lists, {}, Ref(b, 0));
    if info[b].page1 != -1 { assert Listed(info[b].page1, lists, {}, Ref(b, 1)); }
  }

  /** The entries before a place have been reset. */
  ghost predicate Partly(table: map<Place, Entry>, table': map<Place, Entry>, start: nat, length: nat, c: nat,
                         m: nat, i: nat) {
    forall pl :: pl in table && pl in table' ==>
      table'[pl] == if Before(pl, c, m, i) then ResetEntry(table[pl], start, length) else table[pl]
  }

  lemma HomesReset(table: map<Place, Entry>, home: map<Place, Span>, large: seq<set<Span>>, start: nat, length: nat)
    requires Homes(table, home, large)
    ensures Homes(ResetAll(table, start, length), home, large)
  {
    hide IndexOf, PageOf;
  }

  /** The CPU's trapped entries for a virtual page all map RAM page r. */
  ghost predicate Sole(table: map<Place, Entry>, host: map<nat, nat>, cpu: nat, page: bv32, r: nat) {
    forall pl :: pl in table && pl.cpu == cpu && table[pl].write == Tag(page, false, true) ==>
      r in host && table[pl].host == host[r]
  }

  /** None of the CPU's trapped entries for a virtual page maps a clean page. */
  ghost predicate Harmless(table: map<Place, Entry>, host: map<nat, nat>, clean: set<nat>, cpu: nat, page: bv32) {
    forall pl, r ::
      pl in table && pl.cpu == cpu && table[pl].write == Tag(page, false, true) && r in clean && r in host ==>
      table[pl].host != host[r]
  }

  lemma SoleHarmless(table: map<Place, Entry>, host: map<nat, nat>, clean: set<nat>, cpu: nat, page: bv32, r: nat)
    requires Injective(host) && r !in clean
    ensures r in host && Sole(table, host, cpu, page, r) ==> Harmless(table, host, clean, cpu, page)
  {
  }

  /** One CPU whose two modes map the first virtual page to RAM pages 1 and 2, both trapped. */
  ghost function TwoModeTable(): map<Place, Entry> {
    var e := Entry(NoTag, Tag(0, false, true), NoTag, 4096);
    Everyplace(1, EMPTY)[Place(0, 0, 0) := e][Place(0, 1, 0) := e.(host := 8192)]
  }

  /** A store to page 1 lets stores to page 2, which has code, through untrapped. */
  lemma TwoModes(table: map<Place, Entry>)
    requires AllDirtied(TwoModeTable(), table, 0, 0)
    ensures var host := map[1 := 4096, 2 := 8192];
            && Possible(TwoModeTable(), 1) && Tracked(TwoModeTable(), host, {2})
            && !Tracked(table, host, {2}) && Plain(table[Place(0, 1, 0)].write)
  {
    hide Possible, Everyplace, IndexOf, Tracked;
    TwoModesTracked();
    assert IndexOf(0) == 0 by { ZeroIndex(); }
    var pl, host := Place(0, 1, 0), map[1 := 4096, 2 := 8192];
    assert table[pl] == DirtyEntry(TwoModeTable()[pl], 0);
    Untracked(table, pl, host, {2}, 2);
  }

  lemma ZeroIndex()
    ensures IndexOf(0) == 0 && PageOf(0) == 0
  {
  }

  lemma TwoModesTracked()
    ensures Possible(TwoModeTable(), 1) && Tracked(TwoModeTable(), map[1 := 4096, 2 := 8192], {2})
  {
    var host := map[1 := 4096, 2 := 8192];
    assert host[1] in host.Values && host[2] in host.Values;
    hide Everyplace, Possible;
    ZeroPossible(TwoModeTable(), 1);
  }

  lemma Untracked(table: map<Place, Entry>, pl: Place, host: map<nat, nat>, clean: set<nat>, r: nat)
    requires pl in table && Plain(table[pl].write) && r in clean && r in host && table[pl].host == host[r]
    ensures !Tracked(table, host, clean)
  {
    assert !EntryOk(table[pl], host, clean);
  }

  /** tlb_set_dirty1 on the CPU's entries for a page in all modes. */
  ghost predicate AllDirtied(table: map<Place, Entry>, table': map<Place, Entry>, cpu: nat, page: bv32) {
    && table'.Keys == table.Keys
    && forall pl :: pl in table' ==>
         table'[pl] == if pl.cpu == cpu && pl.index == IndexOf(page) then DirtyEntry(table[pl], page) else table[pl]
  }

  lemma Dirtied(table: map<Place, Entry>, table': map<Place, Entry>, host: map<nat, nat>, clean: set<nat>,
                home: map<Place, Span>, large: seq<set<Span>>, cpu: nat, page: bv32)
    requires Tracked(table, host, clean) && Homes(table, home, large) && AllDirtied(table, table', cpu, page)
    ensures Homes(table', home, large) && (Tracked(table', host, clean) <==> Harmless(table, host, clean, cpu, page))
  {
    hide IndexOf, PageOf;
    forall pl | pl in table
      ensures HomeOk(table'[pl], home[pl], large[pl.cpu], pl.index)
      ensures EntryOk(table'[pl], host, clean) <==>
              (pl.cpu == cpu && table[pl].write == Tag(page, false, true) ==>
                forall r :: r in clean && r in host ==> host[r] != table[pl].host)
    {
      assert EntryOk(table[pl], host, clean) && HomeOk(table[pl], home[pl], large[pl.cpu], pl.index);
    }
    hide EntryOk, HomeOk;
  }

  function PageOf(a: bv32): bv32 { a & PAGE_MASK }

  function And(a: bv32, b: bv32): bv32 { a & b }

  function MaskFor(size: bv32): bv32 { !(size - 1) }

  function SpanOf(vaddr: bv32, size: bv32): Span { Span(vaddr, MaskFor(size)) }

  /** The test of tlb_flush_page. */
  predicate InRange(a: bv32, addr: bv32, mask: bv32) { a & mask == addr }

  /** One CPU's entries may have been dropped; nothing else changed. */
  ghost predicate Thinner(table: map<Place, Entry>, table': map<Place, Entry>, cpu: nat) {
    && table'.Keys == table.Keys
    && forall pl :: pl in table ==> table'[pl] == table[pl] || (pl.cpu == cpu && table'[pl] == EMPTY)
  }

  ghost predicate NoneIn(large: set<Span>, a: bv32) { forall s :: s in large ==> !In(s, a) }

  /** No entry of the CPU stands for a page that a falls in. */
  ghost predicate Unmapped(table: map<Place, Entry>, home: map<Place, Span>, cpu: nat, a: bv32) {
    forall pl :: pl in table && pl.cpu == cpu && pl in home ==> Blank(table[pl]) || !In(home[pl], a)
  }

  /** After a page flush the CPU's jump cache is empty, and so is its large-page region; or
      it has lost the entries that blocks on the page of a can be in. */
  ghost predicate JumpsForgotten(cache: seq<seq<Ptr>>, cache': seq<seq<Ptr>>, cpu: nat, a: bv32,
                                 large: seq<set<Span>>, large': seq<set<Span>>) {
    cpu < |cache| && cpu < |large| &&
    (   (cache' == cache[cpu := TbExec.Erased(cache[cpu], 0, |cache[cpu]|)] && large' == large[cpu := {}])
     || (cache' == cache[cpu := WithoutPage(cache[cpu], PageOf(a))] && large' == large))
  }

  const JUMP_PAGE := 64

  /** tb_jmp_cache_hash_page: the first of the entries for addresses on a page. */
  function PageSlot(a: bv32): (i: nat) { Number(PageBits(a)) }

  function Number(b: bv32): nat { b as nat }

  function PageBits(a: bv32): bv32 { ((a ^ (a >> 6)) >> 6) & 0xfc0 }

  function WithoutPage(row: seq<Ptr>, page: bv32): (r: seq<Ptr>) {
    TbExec.Erased(TbExec.Erased(row, PageSlot(page - 4096), JUMP_PAGE), PageSlot(page), JUMP_PAGE)
  }

  lemma AllGone(table: map<Place, Entry>, table': map<Place, Entry>, home: map<Place, Span>, cpu: nat, a: bv32)
    requires table'.Keys == table.Keys && forall pl :: pl in table' ==>
               table'[pl] == if pl.cpu == cpu then EMPTY else table[pl]
    ensures Thinner(table, table', cpu) && Unmapped(table', home, cpu, a) && NoneIn({}, a)
  {
    hide In;
  }

  /** The region after one more large page. */
  method Extend(addr: bv32, mask: bv32, vaddr: bv32, size: bv32, ghost large: set<Span>)
                returns (addr': bv32, mask': bv32)
    requires RegionOk(large, addr, mask) && PowerOfTwo(size) && size != 1
    ensures RegionOk(large + {SpanOf(vaddr, size)}, addr', mask')
  {
    hide RegionOk, Closed, Within, Agree, PowerOfTwo, And, SpanOf;
    ghost var s := SpanOf(vaddr, size);
    SpanParts(vaddr, size);
    NotNone(large, addr, mask);
    if addr == NONE {
      FirstLarge(s);
      assert large + {s} == {s};
      return And(vaddr, MaskFor(size)), MaskFor(size);
    }
    RegionClosed(large, addr, mask);
    ClosedAnd(s.mask, mask);
    mask' := Widen(addr, vaddr, And(MaskFor(size), mask));
    WithinTrans(mask', And(s.mask, mask), s.mask);
    WithinTrans(mask', And(s.mask, mask), mask);
    Widened(large, addr, mask, s, mask');
    addr' := And(addr, mask');
  }

  lemma SpanParts(vaddr: bv32, size: bv32)
    requires PowerOfTwo(size) && size != 1
    ensures SpanOf(vaddr, size) == Span(vaddr, MaskFor(size)) && Closed(MaskFor(size))
  {
    ClosedSize(size);
  }

  /** The widening loop. */
  method Widen(a: bv32, v: bv32, m: bv32) returns (mask: bv32)
    requires Closed(m)
    ensures Closed(mask) && Agree(v, a, mask) && Within(mask, m)
  {
    mask := m;
    while (a ^ v) & mask != 0
      invariant Closed(mask) && Within(mask, m)
      decreases mask
    {
      ClosedShift(mask);
      WithinTrans(mask << 1, mask, m);
      mask := mask << 1;
    }
    Xor(a, v, mask);
  }

  lemma RegionOf(large: seq<set<Span>>, flushAddr: seq<bv32>, flushMask: seq<bv32>, cpu: nat)
    requires Regions(large, flushAddr, flushMask) && cpu < |large|
    ensures RegionOk(large[cpu], flushAddr[cpu], flushMask[cpu])
  {
  }

  lemma RegionClosed(large: set<Span>, addr: bv32, mask: bv32)
    requires RegionOk(large, addr, mask) && large != {}
    ensures Closed(mask)
  {
  }

  lemma OutsideRegion(large: seq<set<Span>>, flushAddr: seq<bv32>, flushMask: seq<bv32>, cpu: nat, a: bv32)
    requires Regions(large, flushAddr, flushMask) && cpu < |large| && !InRange(a, flushAddr[cpu], flushMask[cpu])
    ensures NoneIn(large[cpu], a)
  {
    hide RegionOk, In;
    forall s | s in large[cpu] ensures !In(s, a) {
      if In(s, a) { InRegion(large[cpu], flushAddr[cpu], flushMask[cpu], s, a); }
    }
  }

  lemma FlushEntryOk(e: Entry, host: map<nat, nat>, clean: set<nat>, h: Span, large: set<Span>, index: nat, page: bv32)
    requires EntryOk(e, host, clean) && HomeOk(e, h, large, index)
    ensures EntryOk(FlushEntry(e, page), host, clean) && HomeOk(FlushEntry(e, page), h, large, index)
    ensures Blank(FlushEntry(e, page)) || h.addr != page
    ensures FlushEntry(e, page) == e || FlushEntry(e, page) == EMPTY
  {
    hide IndexOf;
  }

  lemma PageFlushed(table: map<Place, Entry>, table': map<Place, Entry>, host: map<nat, nat>, clean: set<nat>,
                    home: map<Place, Span>, large: seq<set<Span>>,
                    cpu: nat, a: bv32)
    requires Tracked(table, host, clean) && Homes(table, home, large) && table'.Keys == table.Keys && cpu < |large|
             && NoneIn(large[cpu], a)
    requires forall pl :: pl in table ==> pl.mode < MODES
    requires forall pl :: pl in table' ==>
               table'[pl] == if pl.cpu == cpu && pl.index == IndexOf(PageOf(a)) && pl.mode < MODES
                 then FlushEntry(table[pl], PageOf(a)) else table[pl]
    ensures Tracked(table', host, clean) && Homes(table', home, large) && Thinner(table, table', cpu)
            && Unmapped(table', home, cpu, a)
  {
    hide FlushEntry, EntryOk, HomeOk, Blank, NoneIn, In, PageOf, IndexOf;
    forall pl | pl in table
      ensures EntryOk(table'[pl], host, clean) && HomeOk(table'[pl], home[pl], large[pl.cpu], pl.index)
      ensures table'[pl] == table[pl] || (pl.cpu == cpu && table'[pl] == EMPTY)
      ensures pl.cpu == cpu ==> Blank(table'[pl]) || !In(home[pl], a)
    {
      FlushEntryOk(table[pl], host, clean, home[pl], large[pl.cpu], pl.index, PageOf(a));
      if pl.cpu == cpu { NotIn(table'[pl], home[pl], large[cpu], pl.index, a); }
    }
  }

  /** What the page of a, and the large pages, rule out. */
  lemma NotIn(e: Entry, home: Span, large: set<Span>, index: nat, a: bv32)
    requires HomeOk(e, home, large, index) && NoneIn(large, a)
    requires index == IndexOf(PageOf(a)) ==> Blank(e) || home.addr != PageOf(a)
    ensures Blank(e) || !In(home, a)
  {
    hide In, IndexOf, Blank, PageOf;
    if home.mask == PAGE_MASK && PageOf(home.addr) == home.addr { SmallPage(home, a); }
  }

  lemma SmallPage(home: Span, a: bv32)
    requires home.mask == PAGE_MASK && PageOf(home.addr) == home.addr
    ensures In(home, a) <==> home.addr == PageOf(a)
  {
    SmallAgree(a, home.addr, PAGE_MASK);
    hide Agree;
  }

  lemma SmallAgree(a: bv32, b: bv32, m: bv32)
    requires b & m == b
    ensures Agree(a, b, m) <==> b == a & m
  {
  }

  lemma NewOk(e: Entry, vaddr: bv32, phys: Phys, read: bool, write: bool, exec: bool, watch: bool,
              host: map<nat, nat>, clean: set<nat>)
    requires Injective(host) && (phys.Ram? ==> phys.page in host)
    requires e == NewEntry(vaddr, phys, read, write, exec, watch, phys.Ram?
             && phys.page in clean, if !phys.Io? && phys.page in host then host[phys.page] else 0)
    ensures EntryOk(e, host, clean)
    ensures e.write.Tag? == write && e.read.Tag? == read && e.code.Tag? == exec
    ensures Plain(e.write) <==> write && !watch && phys.Ram? && phys.page !in clean
    ensures (e.read.Tag? ==> e.read.addr == vaddr) && (e.write.Tag? ==> e.write.addr == vaddr)
            && (e.code.Tag? ==> e.code.addr == vaddr)
    ensures !phys.Io? && phys.page in host ==> e.host == host[phys.page]
    ensures exec ==> e.code == Tag(vaddr, phys.Io?, false)
    ensures write ==> e.write == Tag(vaddr, watch || !phys.Ram?, phys.Ram? && phys.page in clean)
    ensures (Plain(e.read) <==> read && !watch && !phys.Io?) && (read ==> !e.read.notDirty)
  {
  }

  lemma NewHome(e: Entry, vaddr: bv32, size: bv32, large: set<Span>)
    requires (e.read.Tag? ==> e.read.addr == vaddr) && (e.write.Tag? ==> e.write.addr == vaddr)
             && (e.code.Tag? ==> e.code.addr == vaddr)
    requires PageOf(vaddr) == vaddr && (size == 4096 || SpanOf(vaddr, size) in large)
    ensures HomeOk(e, SpanOf(vaddr, size), large, IndexOf(vaddr))
  {
    hide IndexOf;
  }

  lemma Installed(table: map<Place, Entry>, host: map<nat, nat>, clean: set<nat>, home: map<Place, Span>,
                  large: seq<set<Span>>, large': seq<set<Span>>,
                  pl: Place, e: Entry, span: Span)
    requires Tracked(table, host, clean) && Homes(table, home, large) && EntryOk(e, host, clean)
    requires |large'| == |large| && pl.cpu < |large| && forall c :: 0 <= c < |large| ==> large[c] <= large'[c]
    requires HomeOk(e, span, large'[pl.cpu], pl.index)
    ensures Tracked(table[pl := e], host, clean) && Homes(table[pl := e], home[pl := span], large')
  {
    hide EntryOk;
    forall q | q in table && q != pl ensures q in home && HomeOk(table[q], home[q], large'[q.cpu], q.index) {
      assert HomeOk(table[q], home[q], large[q.cpu], q.index);
    }
  }
}
