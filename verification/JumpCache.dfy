/** The jump caches and the guest's translation (cpu-exec.c, cputlb.c, translate-all.c): a
    CPU's jump cache is looked up by virtual address alone, so whatever changes where an
    address leads must take out the blocks found through it. */
module JumpCache {
  import opened Machine
  import opened TbCache
  import TbExec
  import opened Tlb
  import CodeBitmap

  const JUMP_SIZE := 4096
  const SPACE := 0x1_0000_0000

  /** What the guest's page tables say of a virtual page: the RAM page it leads to, and the
      size of the mapping it is part of. */
  datatype Mapping = Unmapped | Mapped(size: bv32, page: nat)

  type Walk = bv32 -> Mapping

  function Word(a: nat): bv32 { (a % SPACE) as bv32 }

  /** The virtual page of an address, and the one behind it. */
  function PageAt(a: nat): bv32 { PageOf(Word(a)) }

  function Behind(page: bv32): bv32 { page + 4096 }

  /** tb_jmp_cache_hash_func. */
  function SlotOf(a: bv32): (i: nat)
    ensures i < JUMP_SIZE
  {
    SlotBits(a);
    Number(Or(PageBits(a), LowBits(a)))
  }

  function Or(a: bv32, b: bv32): bv32 { a | b }

  function LowBits(a: bv32): bv32 { (a ^ (a >> 6)) & 0x3f }

  lemma SlotBits(a: bv32)
    ensures PageBits(PageOf(a)) == PageBits(a) && PageBits(a) & 0x3f == 0 && PageBits(a) < 4096 && LowBits(a) < 64
    ensures Or(PageBits(a), LowBits(a)) < 4096
  {
  }

  // ------------------------------------------------------------ agreement

  ghost predicate WalkOk(w: Walk) {
    forall v :: w(v).Mapped? ==> PowerOfTwo(w(v).size) && w(v).size >= 4096
  }

  /** The mapping at v is of one small page, or the CPU has it down as a large one. */
  ghost predicate Remembered(large: set<Span>, v: bv32, size: bv32) { size == 4096 || SpanOf(v, size) in large }

  ghost predicate PageAgrees(w: Walk, large: set<Span>, v: bv32, page: int) {
    w(v).Mapped? && w(v).page == page && Remembered(large, v, w(v).size)
  }

  /** The block's code is where its address leads now. */
  ghost predicate BlockAgrees(w: Walk, large: set<Span>, i: Info) {
    && PageAgrees(w, large, PageAt(i.pc), i.page0)
    && (i.page1 != -1 ==> PageAgrees(w, large, Behind(PageAt(i.pc)), i.page1))
  }

  ghost predicate RowAgrees(info: map<Ptr, Info>, row: seq<Ptr>, w: Walk, large: set<Span>) {
    forall i :: 0 <= i < |row| && row[i] != NULL ==> row[i] in info && BlockAgrees(w, large, info[row[i]])
  }

  /** An entry for code fetches leads where the guest's tables do. */
  ghost predicate EntryAgrees(e: Entry, home: Span, w: Walk, host: map<nat, nat>) {
    e.code.Tag? && !e.code.mmio ==>
      var m := w(e.code.addr);
      m.Mapped? && home == SpanOf(e.code.addr, m.size) && m.page in host && e.host == host[m.page]
  }

  ghost predicate TableAgrees(table: map<Place, Entry>, home: map<Place, Span>, ws: seq<Walk>, host: map<nat, nat>) {
    forall pl :: pl in table && pl.cpu < |ws| ==> pl in home && EntryAgrees(table[pl], home[pl], ws[pl.cpu], host)
  }

  ghost predicate CachesAgree(info: map<Ptr, Info>, cache: seq<seq<Ptr>>, ws: seq<Walk>, large: seq<set<Span>>) {
    |cache| == |ws| == |large| && forall c :: 0 <= c < |ws| ==> RowAgrees(info, cache[c], ws[c], large[c])
  }

  /** The caches have the size and the hash function of the source. */
  ghost predicate Hashed(slot: nat -> nat, cache: seq<seq<Ptr>>) {
    (forall pc: nat :: slot(pc) == SlotOf(Word(pc))) && forall c :: 0 <= c < |cache| ==> |cache[c]| == JUMP_SIZE
  }

  /** Block b lies in the page that block a begins in, both virtually and in RAM. */
  ghost predicate OnPageOf(a: Info, b: Info) { PageAt(b.pc) == PageAt(a.pc) && b.page0 == a.page0 && b.page1 == -1 }

  ghost predicate Chained(target: map<Ref, Ptr>, known: set<Ptr>, r: Ref) {
    r in target && target[r] != NULL && r.tb in known && r.tag < 2
  }

  /** Chained jumps stay in their page. */
  ghost predicate ChainsLocal(info: map<Ptr, Info>, target: map<Ref, Ptr>, known: set<Ptr>) {
    forall r :: Chained(target, known, r) ==> r.tb in info && target[r] in info && OnPageOf(info[r.tb], info[target[r]])
  }

  /** Every block in a jump cache and every TLB entry for code of every CPU agrees with the
      CPU's page tables ws; chained jumps stay in their page. */
  ghost predicate Agreed(m: Memory, ws: seq<Walk>)
    reads m, m.tb
  {
    && |ws| == m.cpus && |m.large| == m.cpus && Hashed(m.tb.slot, m.tb.cache)
    && CachesAgree(m.tb.info, m.tb.cache, ws, m.large) && TableAgrees(m.table, m.home, ws, m.host)
    && ChainsLocal(m.tb.info, m.tb.target, m.tb.known)
  }

  // ------------------------------------------------------------ slots

  /** The addresses of a page have their entries in one run of the table. */
  lemma SlotOnPage(a: bv32)
    ensures PageSlot(PageOf(a)) <= SlotOf(a) < PageSlot(PageOf(a)) + JUMP_PAGE
  {
    hide PageBits, LowBits, PageOf, Number, Or;
    SlotBits(a);
    OrAdds(PageBits(a), LowBits(a));
  }

  lemma OrAdds(p: bv32, low: bv32)
    requires p & 0x3f == 0 && p < 4096 && low < 64
    ensures Number(Or(p, low)) == Number(p) + Number(low) && Number(low) < 64
  {
    assert (p | low) == p + low;
  }

  /** Addresses in one run of 64 bytes of a page have entries of their own. */
  lemma SlotSpread(a: bv32, b: bv32)
    requires a != b && a >> 6 == b >> 6
    ensures SlotOf(a) != SlotOf(b)
  {
    hide Number;
    SlotBits(a);
    SlotBits(b);
    SpreadBits(a, b);
    NumberInjective(Or(PageBits(a), LowBits(a)), Or(PageBits(b), LowBits(b)));
  }

  lemma SpreadBits(a: bv32, b: bv32)
    requires a != b && a >> 6 == b >> 6
    ensures Or(PageBits(a), LowBits(a)) != Or(PageBits(b), LowBits(b))
  {
    SlotBits(a);
    SlotBits(b);
    LowApart(a, b);
    OrApart(PageBits(a), LowBits(a), LowBits(b));
    hide PageBits, LowBits, Or;
  }

  lemma LowApart(a: bv32, b: bv32)
    requires a != b && a >> 6 == b >> 6
    ensures PageBits(a) == PageBits(b) && LowBits(a) != LowBits(b)
  {
  }

  lemma OrApart(p: bv32, x: bv32, y: bv32)
    requires p & 0x3f == 0 && x < 64 && y < 64 && x != y
    ensures Or(p, x) != Or(p, y)
  {
  }

  // ------------------------------------------------------------ changed translations

  /** The tables change only where nothing was mapped, or within the mapping that a is in: what
      a guest may do before it flushes the page of a. */
  ghost predicate Edited(w: Walk, w': Walk, a: bv32) {
    forall v :: PageOf(v) == v && w(v) != w'(v) ==> w(v).Unmapped? || Agree(a, v, MaskFor(w(v).size))
  }

  /** An agreeing page outside all large ones stays right, unless it is the page of a. */
  lemma PageStays(w: Walk, w': Walk, large: set<Span>, v: bv32, page: int, a: bv32)
    requires PageAgrees(w, large, v, page) && NoneIn(large, a) && Edited(w, w', a) && PageOf(v) == v
    ensures PageAgrees(w', large, v, page) || v == PageOf(a)
  {
    hide PageOf, Agree, MaskFor;
    if w(v) != w'(v) {
      if w(v).size == 4096 { SmallUnit(a, v); }
    }
  }

  lemma SmallUnit(a: bv32, v: bv32)
    requires PageOf(v) == v && Agree(a, v, MaskFor(4096))
    ensures v == PageOf(a)
  {
  }

  lemma PageAligned(a: nat)
    ensures PageOf(PageAt(a)) == PageAt(a) && PageOf(Behind(PageAt(a))) == Behind(PageAt(a))
  {
    Aligned(Word(a));
    hide Word, PageOf;
  }

  lemma Aligned(a: bv32)
    ensures PageOf(PageOf(a)) == PageOf(a) && PageOf(Behind(PageOf(a))) == Behind(PageOf(a))
  {
  }

  lemma BehindBefore(v: bv32, u: bv32)
    ensures Behind(v) == u ==> v == u - 4096
  {
  }

  /** A block that keeps its entry when the page of a is flushed has no code there. */
  lemma BlockStays(w: Walk, w': Walk, large: set<Span>, i: Info, a: bv32)
    requires BlockAgrees(w, large, i) && NoneIn(large, a) && Edited(w, w', a)
    requires var s := SlotOf(Word(i.pc));
             && !(PageSlot(PageOf(a)) <= s < PageSlot(PageOf(a)) + JUMP_PAGE)
             && !(PageSlot(PageOf(a) - 4096) <= s < PageSlot(PageOf(a) - 4096) + JUMP_PAGE)
    ensures BlockAgrees(w', large, i)
  {
    hide PageOf, SlotOf, PageSlot, Word, Behind, PageAgrees, Edited;
    PageAligned(i.pc);
    SlotOnPage(Word(i.pc));
    PageStays(w, w', large, PageAt(i.pc), i.page0, a);
    if i.page1 != -1 {
      PageStays(w, w', large, Behind(PageAt(i.pc)), i.page1, a);
      BehindBefore(PageAt(i.pc), PageOf(a));
    }
  }

  lemma RowStays(info: map<Ptr, Info>, row: seq<Ptr>, slot: nat -> nat, w: Walk, w': Walk, large: set<Span>, a: bv32)
    requires RowAgrees(info, row, w, large) && NoneIn(large, a) && Edited(w, w', a)
    requires forall pc: nat :: slot(pc) == SlotOf(Word(pc))
    requires forall i :: 0 <= i < |row| && row[i] != NULL && row[i] in info ==> slot(info[row[i]].pc) == i
    ensures RowAgrees(info, WithoutPage(row, PageOf(a)), w', large)
  {
    hide BlockAgrees, NoneIn, Edited, SlotOf, PageSlot, PageOf, Word;
    var row' := WithoutPage(row, PageOf(a));
    forall i | 0 <= i < |row'| && row'[i] != NULL ensures row'[i] in info && BlockAgrees(w', large, info[row'[i]]) {
      assert row'[i] == row[i];
      BlockStays(w, w', large, info[row[i]], a);
    }
  }

  lemma RowEmpty(info: map<Ptr, Info>, row: seq<Ptr>, w: Walk, large: set<Span>)
    ensures RowAgrees(info, TbExec.Erased(row, 0, |row|), w, large)
  {
  }

  lemma CachesWith(info: map<Ptr, Info>, cache: seq<seq<Ptr>>, ws: seq<Walk>, large: seq<set<Span>>, cpu: nat,
                   row: seq<Ptr>, w: Walk, l: set<Span>)
    requires CachesAgree(info, cache, ws, large) && cpu < |ws| && RowAgrees(info, row, w, l)
    ensures CachesAgree(info, cache[cpu := row], ws[cpu := w], large[cpu := l])
  {
    hide RowAgrees;
  }

  lemma HashedWith(slot: nat -> nat, cache: seq<seq<Ptr>>, cpu: nat, row: seq<Ptr>)
    requires Hashed(slot, cache) && cpu < |cache| && |row| == |cache[cpu]|
    ensures Hashed(slot, cache[cpu := row])
  {
  }

  /** Entries that are left stand for mappings that a is not in. */
  lemma TableStays(table: map<Place, Entry>, table': map<Place, Entry>, home: map<Place, Span>, ws: seq<Walk>,
                   host: map<nat, nat>,
                   large: seq<set<Span>>, cpu: nat, w: Walk, a: bv32)
    requires TableAgrees(table, home, ws, host) && Thinner(table, table', cpu) && cpu < |ws|
             && Homes(table', home, large)
    requires Tlb.Unmapped(table', home, cpu, a) && Edited(ws[cpu], w, a)
    ensures TableAgrees(table', home, ws[cpu := w], host)
  {
    forall pl | pl in table' && pl.cpu < |ws|
      ensures pl in home && EntryAgrees(table'[pl], home[pl], ws[cpu := w][pl.cpu], host)
    {
      if pl.cpu == cpu && table'[pl] != EMPTY {
        EntryStays(table'[pl], home[pl], ws[cpu], w, host, large[cpu], pl.index, a);
      }
    }
  }

  lemma EntryStays(e: Entry, home: Span, w: Walk, w': Walk, host: map<nat, nat>, large: set<Span>, index: nat, a: bv32)
    requires EntryAgrees(e, home, w, host) && HomeOk(e, home, large, index) && (Blank(e) || !In(home, a))
             && Edited(w, w', a)
    ensures EntryAgrees(e, home, w', host)
  {
    hide PageOf, IndexOf, Agree, MaskFor;
  }

  /** tlb_flush: the guest's tables may change in any way. */
  method Flush(m: Memory, cpu: nat, ghost ws: seq<Walk>, ghost w: Walk)
    requires m.Valid() && cpu < m.cpus && Agreed(m, ws)
    modifies m`table, m`flushAddr, m`flushMask, m`large, m.tb`cache
    ensures m.Valid() && Agreed(m, ws[cpu := w])
  {
    hide TbContext.Valid, Tracked, Homes, Regions, Injective, Everywhere, CachesAgree, Hashed, TbExec.Erased;
    ghost var cache := m.tb.cache;
    m.Flush(cpu);
    RowEmpty(m.tb.info, cache[cpu], w, {});
    CachesWith(m.tb.info, cache, ws, old(m.large), cpu, TbExec.Erased(cache[cpu], 0, |cache[cpu]|), w, {});
    HashedWith(m.tb.slot, cache, cpu, TbExec.Erased(cache[cpu], 0, |cache[cpu]|));
    TableEmptied(old(m.table), m.table, m.home, ws, m.host, cpu, w);
  }

  lemma TableEmptied(table: map<Place, Entry>, table': map<Place, Entry>, home: map<Place, Span>, ws: seq<Walk>,
                     host: map<nat, nat>,
                     cpu: nat, w: Walk)
    requires TableAgrees(table, home, ws, host) && table'.Keys == table.Keys && cpu < |ws|
    requires forall pl :: pl in table' ==> table'[pl] == if pl.cpu == cpu then EMPTY else table[pl]
    ensures TableAgrees(table', home, ws[cpu := w], host)
  {
  }

  /** tlb_flush_page: the guest's tables may change within the mapping that a is in. */
  method FlushPage(m: Memory, cpu: nat, a: bv32, ghost ws: seq<Walk>, ghost w: Walk)
    requires m.Valid() && cpu < m.cpus && Agreed(m, ws) && Edited(ws[cpu], w, a)
    modifies m`table, m`flushAddr, m`flushMask, m`large, m.tb`cache
    ensures m.Valid() && Agreed(m, ws[cpu := w])
  {
    hide BitmapsOk, HashOk, PageOk, JumpOk, GoesOk, WatchOk, CacheOk, Tracked, Homes, Regions, Injective, Everywhere,
         CachesAgree, Hashed,
         TbExec.Erased, TableAgrees, Edited, Thinner, Tlb.Unmapped, NoneIn, PageOf;
    ghost var c, cache, large := m.tb, m.tb.cache, m.large;
    m.FlushPage(cpu, a);
    TableStays(old(m.table), m.table, m.home, ws, m.host, m.large, cpu, w, a);
    CachesFlushed(c.info, cache, c.cache, c.slot, c.live, ws, large, m.large, cpu, w, a);
  }

  lemma CachesFlushed(info: map<Ptr, Info>, cache: seq<seq<Ptr>>, cache': seq<seq<Ptr>>, slot: nat -> nat,
                      live: set<Ptr>, ws: seq<Walk>,
                      large: seq<set<Span>>, large': seq<set<Span>>, cpu: nat, w: Walk, a: bv32)
    requires CachesAgree(info, cache, ws, large) && Hashed(slot, cache) && CacheOk(info, cache, slot, live)
    requires JumpsForgotten(cache, cache', cpu, a, large, large') && NoneIn(large'[cpu], a) && cpu < |ws|
             && Edited(ws[cpu], w, a)
    ensures CachesAgree(info, cache', ws[cpu := w], large') && Hashed(slot, cache')
  {
    hide RowAgrees, NoneIn, Edited, SlotOf, PageSlot, PageOf, Word;
    if large' == large[cpu := {}] && cache' == cache[cpu := TbExec.Erased(cache[cpu], 0, |cache[cpu]|)] {
      RowEmpty(info, cache[cpu], w, {});
      CachesWith(info, cache, ws, large, cpu, TbExec.Erased(cache[cpu], 0, |cache[cpu]|), w, {});
    } else {
      RowStays(info, cache[cpu], slot, ws[cpu], w, large[cpu], a);
      CachesWith(info, cache, ws, large, cpu, WithoutPage(cache[cpu], PageOf(a)), w, large[cpu]);
      assert large[cpu := large[cpu]] == large;
    }
  }

  /** A page that was not mapped needs no flush to become so. */
  lemma MapMore(m: Memory, ws: seq<Walk>, cpu: nat, w: Walk)
    requires Agreed(m, ws) && cpu < m.cpus && forall v :: ws[cpu](v) != w(v) ==> ws[cpu](v).Unmapped?
    ensures Agreed(m, ws[cpu := w])
  {
    forall pl | pl in m.table && pl.cpu == cpu ensures pl in m.home && EntryAgrees(m.table[pl], m.home[pl], w, m.host) {
      assert EntryAgrees(m.table[pl], m.home[pl], ws[cpu], m.host);
    }
    assert RowAgrees(m.tb.info, m.tb.cache[cpu], ws[cpu], m.large[cpu]);
    assert RowAgrees(m.tb.info, m.tb.cache[cpu], w, m.large[cpu]);
  }

  // ------------------------------------------------------------ the lookup

  ghost predicate Grown(large: seq<set<Span>>, large': seq<set<Span>>) {
    |large'| == |large| && forall c :: 0 <= c < |large| ==> large[c] <= large'[c]
  }

  lemma CachesGrown(info: map<Ptr, Info>, cache: seq<seq<Ptr>>, ws: seq<Walk>, large: seq<set<Span>>,
                    large': seq<set<Span>>)
    requires CachesAgree(info, cache, ws, large) && Grown(large, large')
    ensures CachesAgree(info, cache, ws, large')
  {
    forall c | 0 <= c < |ws| ensures RowAgrees(info, cache[c], ws[c], large'[c]) {
      assert RowAgrees(info, cache[c], ws[c], large[c]);
    }
  }

  /** tlb_set_page, called for a miss: an entry for code is what the guest's tables say. */
  method SetPage(m: Memory, cpu: nat, mode: nat, vaddr: bv32, phys: Phys, read: bool, write: bool, exec: bool,
                 size: bv32, watch: bool,
                 ghost ws: seq<Walk>)
    requires m.Valid() && cpu < m.cpus == |ws| && mode < MODES && PageOf(vaddr) == vaddr && PowerOfTwo(size)
             && size >= 4096
    requires (phys.Ram? ==> phys.page in m.host) && TableAgrees(m.table, m.home, ws, m.host)
    requires exec && !phys.Io? ==> phys.page in m.host && ws[cpu](vaddr) == Mapped(size, phys.page)
    modifies m`table, m`flushAddr, m`flushMask, m`large, m`home
    ensures m.Valid() && TableAgrees(m.table, m.home, ws, m.host) && Grown(old(m.large), m.large)
    ensures var pl := Place(cpu, mode, IndexOf(vaddr));
            pl in m.table && (exec ==> m.table[pl].code == Tag(vaddr, phys.Io?, false))
    ensures size != 4096 ==> SpanOf(vaddr, size) in m.large[cpu]
  {
    hide TbContext.Valid, Tracked, Homes, Regions, Injective, Everywhere, PowerOfTwo, PageOf, IndexOf, SpanOf, Plain;
    m.SetPage(cpu, mode, vaddr, phys, read, write, exec, size, watch);
    ghost var pl := Place(cpu, mode, IndexOf(vaddr));
    TableWith(old(m.table), old(m.home), ws, m.host, pl, m.table[pl], SpanOf(vaddr, size));
  }

  lemma TableWith(table: map<Place, Entry>, home: map<Place, Span>, ws: seq<Walk>, host: map<nat, nat>, pl: Place,
                  e: Entry, h: Span)
    requires TableAgrees(table, home, ws, host) && pl.cpu < |ws| && EntryAgrees(e, h, ws[pl.cpu], host)
    ensures TableAgrees(table[pl := e], home[pl := h], ws, host)
  {
  }

  /** The TLB has an entry for code on page v. */
  ghost predicate CodeHit(table: map<Place, Entry>, cpu: nat, mode: nat, v: bv32) {
    var pl := Place(cpu, mode, IndexOf(v));
    pl in table && table[pl].code == Tag(v, false, false)
  }

  /** get_page_addr_code: the RAM page that code at a is on, by way of the TLB. */
  method PageAddrCode(m: Memory, cpu: nat, mode: nat, a: bv32, w: Walk, phys: Phys, read: bool, write: bool,
                      watch: bool,
                      ghost ws: seq<Walk>)
    returns (page: nat)
    requires m.Valid() && cpu < m.cpus == |ws| && mode < MODES && ws[cpu] == w && WalkOk(w)
    requires TableAgrees(m.table, m.home, ws, m.host)
    requires !phys.Io? && phys.page in m.host && w(PageOf(a)).Mapped? && w(PageOf(a)).page == phys.page
    modifies m`table, m`flushAddr, m`flushMask, m`large, m`home
    ensures m.Valid() && TableAgrees(m.table, m.home, ws, m.host) && Grown(old(m.large), m.large)
    ensures page == w(PageOf(a)).page && cpu < |m.large| && Remembered(m.large[cpu], PageOf(a), w(PageOf(a)).size)
    ensures CodeHit(old(m.table), cpu, mode, PageOf(a)) ==> m.table == old(m.table) && m.large == old(m.large)
  {
    hide TbContext.Valid, Tracked, Regions, PowerOfTwo, PageOf, IndexOf, SpanOf, MaskFor, Homes;
    var v := PageOf(a);
    assert PageOf(v) == v by { Aligned(a); }
    var pl := Place(cpu, mode, IndexOf(v));
    assert pl in m.table;
    if m.table[pl].code != Tag(v, false, false) {
      SetPage(m, cpu, mode, v, phys, read, write, true, w(v).size, watch, ws);
    }
    assert EntryAgrees(m.table[pl], m.home[pl], w, m.host);
    CodeRemembered(m.table, m.home, m.large, pl, v, w(v).size);
    page :| page in m.host && m.host[page] == m.table[pl].host;
  }

  lemma CodeRemembered(table: map<Place, Entry>, home: map<Place, Span>, large: seq<set<Span>>, pl: Place, v: bv32,
                       size: bv32)
    requires Homes(table, home, large) && pl in table && pl in home && home[pl] == SpanOf(v, size)
             && table[pl].code.Tag?
    ensures pl.cpu < |large| && Remembered(large[pl.cpu], v, size)
  {
    hide PageOf, IndexOf;
    assert HomeOk(table[pl], home[pl], large[pl.cpu], pl.index);
    SmallMask(size);
    hide MaskFor;
  }

  lemma SmallMask(size: bv32)
    ensures MaskFor(size) == PAGE_MASK ==> size == 4096
  {
  }

  /** A block made from pc runs on to the next page, or the one to be made does. */
  ghost predicate RunsOn(info: map<Ptr, Info>, live: set<Ptr>, pc: nat, csBase: nat, flags: nat, size: nat) {
    || pc % PAGE + size > PAGE
    || exists b :: b in live && b in info && TbExec.Keyed(info[b], pc, csBase, flags) && info[b].page1 != -1
  }

  /** Where the two pages lead. */
  function Pair(pc: nat, p0: nat, p1: nat): nat -> nat { (a: nat) => if a / PAGE == pc / PAGE then p0 else p1 }

  lemma PairPages(i: Info, pc: nat, csBase: nat, flags: nat, p0: nat, p1: nat)
    requires TbExec.Fits(i, pc, csBase, flags, Pair(pc, p0, p1))
    ensures i.pc == pc && i.page0 == p0 && (i.page1 == -1 || i.page1 == p1)
  {
  }

  lemma Crossing(pc: nat, csBase: nat, flags: nat, size: nat, page: nat -> nat, info: map<Ptr, Info>, live: set<Ptr>)
    requires 0 < size <= PAGE
    ensures TbExec.Translated(pc, csBase, flags, size, page).page1 != -1 ==> RunsOn(info, live, pc, csBase, flags, size)
  {
  }

  /** Pages that have become watched trap stores from now on. */
  method Protect(m: Memory, i: Info, before: set<nat>)
    requires m.Sound() && Tracked(m.table, m.host, m.vgaClean + m.migrationClean + before) && Pages(i) <= m.host.Keys
    requires TbExec.Watches(before, m.tb.watched, Pages(i))
    modifies m`table
    ensures m.Valid() && SameCode(old(m.table), m.table)
  {
    hide TbContext.Valid, Tracked, Homes, Regions, Injective, Everywhere;
    ghost var now := m.vgaClean + m.migrationClean + before;
    if i.page0 in m.tb.watched && i.page0 !in before {
      m.ProtectCode(i.page0, now);
      now := now + {i.page0};
    }
    if i.page1 >= 0 && i.page1 in m.tb.watched && i.page1 !in before {
      m.ProtectCode(i.page1, now);
      now := now + {i.page1};
    }
    FewerClean(m.table, m.host, now, m.Clean());
  }

  /** What the lookup leaves in the jump caches agrees. */
  lemma CachesFilled(info: map<Ptr, Info>, info': map<Ptr, Info>, cache: seq<seq<Ptr>>, cache': seq<seq<Ptr>>,
                     slot: nat -> nat, live: set<Ptr>, known: set<Ptr>, flushed: bool,
                     ws: seq<Walk>, large: seq<set<Span>>, cpu: nat, i: nat, tb: Ptr)
    requires CachesAgree(info, cache, ws, large) && CacheOk(info, cache, slot, live) && cpu < |ws|
    requires TbExec.Filled(cache, cache', flushed, cpu, i, tb)
    requires live <= known && (!flushed ==> InfoKept(info, info', known))
    requires tb in info' && BlockAgrees(ws[cpu], large[cpu], info'[tb])
    ensures CachesAgree(info', cache', ws, large)
  {
    hide BlockAgrees;
    forall c | 0 <= c < |ws| ensures RowAgrees(info', cache'[c], ws[c], large[c]) {
      assert RowAgrees(info, cache[c], ws[c], large[c]);
    }
  }

  lemma HashedFilled(slot: nat -> nat, cache: seq<seq<Ptr>>, cache': seq<seq<Ptr>>, flushed: bool, cpu: nat, i: nat,
                     tb: Ptr)
    requires Hashed(slot, cache) && TbExec.Filled(cache, cache', flushed, cpu, i, tb)
    ensures Hashed(slot, cache') && |cache'| == |cache|
  {
  }

  lemma TableSame(table: map<Place, Entry>, table': map<Place, Entry>, home: map<Place, Span>, ws: seq<Walk>,
                  host: map<nat, nat>)
    requires TableAgrees(table, home, ws, host) && SameCode(table, table')
    ensures TableAgrees(table', home, ws, host)
  {
  }

  ghost predicate Fetchable(m: Memory, w: Walk, v: bv32, phys: Phys) {
    !phys.Io? && phys.page in m.host && w(v).Mapped? && w(v).page == phys.page
  }

  /** The blocks that were there are as they were. */
  ghost predicate InfoKept(info: map<Ptr, Info>, info': map<Ptr, Info>, known: set<Ptr>) {
    forall b :: b in known && b in info ==> b in info' && info'[b] == info[b]
  }

  /** No jump of a block that is still there has been chained. */
  ghost predicate ChainsKept(target: map<Ref, Ptr>, target': map<Ref, Ptr>, known: set<Ptr>, known': set<Ptr>) {
    forall r :: Chained(target', known', r) ==> Chained(target, known, r) && target'[r] == target[r]
  }

  lemma LocalKept(info: map<Ptr, Info>, info': map<Ptr, Info>, target: map<Ref, Ptr>, target': map<Ref, Ptr>,
                  goes: map<Ref, Ptr>, known: set<Ptr>, known': set<Ptr>, live: set<Ptr>, flushed: bool)
    requires ChainsLocal(info, target, known) && GoesOk(goes, target, known, live) && live <= known
    requires ChainsKept(target, target', known, known')
    requires if flushed then forall r :: !Chained(target', known', r) else InfoKept(info, info', known)
    ensures ChainsLocal(info', target', known')
  {
    hide OnPageOf;
    forall r | Chained(target', known', r)
      ensures r.tb in info' && target'[r] in info' && OnPageOf(info'[r.tb], info'[target'[r]])
    {
      assert GoOk(goes, target, live, r);
    }
  }

  lemma LocalUnchained(info: map<Ptr, Info>, target: map<Ref, Ptr>, target': map<Ref, Ptr>, known: set<Ptr>)
    requires ChainsLocal(info, target, known) && Unchained(target, target')
    ensures ChainsLocal(info, target', known)
  {
    hide OnPageOf;
    forall r | Chained(target', known, r)
      ensures r.tb in info && target'[r] in info && OnPageOf(info[r.tb], info[target'[r]])
    {
      assert Chained(target, known, r);
    }
  }

  lemma NextNeeded(info: map<Ptr, Info>, live: set<Ptr>, tb: Ptr, pc: nat, csBase: nat, flags: nat, size: nat)
    requires tb in live && tb in info && TbExec.Keyed(info[tb], pc, csBase, flags) && info[tb].page1 != -1
    ensures RunsOn(info, live, pc, csBase, flags, size)
  {
  }

  /** The lookup by physical address, for code on pages p0 and p1. */
  method Lookup(c: TbContext, cpu: nat, pc: nat, csBase: nat, flags: nat, p0: nat, p1: nat, nb: Ptr, size: nat,
                full: bool)
    returns (tb: Ptr)
    requires c.Valid() && cpu < |c.cache| && c.slot(pc) < |c.cache[cpu]|
    requires nb != NULL && (full || nb !in c.known) && 0 < size <= PAGE
    modifies c
    ensures c.Valid() && tb in c.live && tb in c.info && TbExec.Keyed(c.info[tb], pc, csBase, flags)
    ensures c.info[tb].page0 == p0 && (c.info[tb].page1 == -1 || c.info[tb].page1 == p1)
    ensures c.info[tb].page1 != -1 ==> RunsOn(old(c.info), old(c.live), pc, csBase, flags, size)
    ensures !c.invalidated ==> InfoKept(old(c.info), c.info, old(c.known)) && old(c.known) <= c.known
    ensures ChainsKept(old(c.target), c.target, old(c.known), c.known)
    ensures c.invalidated ==> forall r :: !Chained(c.target, c.known, r)
    ensures TbExec.Filled(old(c.cache), c.cache, c.invalidated, cpu, c.slot(pc), tb)
    ensures TbExec.Watches(old(c.watched), c.watched, Pages(c.info[tb]))
    ensures c.invalidated || tb !in old(c.known) ==>
              tb == nb && MadeOf(c.info[tb], pc, size)
    ensures AllSized(old(c.info), old(c.live)) && PagesApart(pc, size, p0, p1) ==> AllSized(c.info, c.live)
    ensures Looked(old(c.info), old(c.live), c.info, c.live, nb, tb)
    ensures (!full ==> !c.invalidated) && TargetsKept(old(c.target), c.target, nb)
  {
    hide BitmapsOk, HashOk, PageOk, JumpOk, GoesOk, CacheOk, WatchOk, TbExec.Fits, TbExec.Available,
         TbExec.Translated, TbExec.Filled, TbExec.Watches, Pages, Pair, RunsOn, ChainsKept, InfoKept, Chained,
         TbExec.Unset, AllSized, TbExec.TwoPages;
    if PagesApart(pc, size, p0, p1) { PairApart(pc, size, p0, p1); }
    LiveKnown(c);
    tb := TbExec.FindSlow(c, cpu, pc, csBase, flags, Pair(pc, p0, p1), nb, size, full);
    PairPages(c.info[tb], pc, csBase, flags, p0, p1);
    KeyOf(c.info[tb], pc, csBase, flags, Pair(pc, p0, p1));
    if TbExec.Available(old(c.info), old(c.live), pc, csBase, flags, Pair(pc, p0, p1)) {
      if c.info[tb].page1 != -1 { NextNeeded(old(c.info), old(c.live), tb, pc, csBase, flags, size); }
      KeptSame(c.info, c.target, c.known);
    } else {
      Crossing(pc, csBase, flags, size, Pair(pc, p0, p1), old(c.info), old(c.live));
      KeptNew(old(c.info), c.info[nb], old(c.target), old(c.known), nb, full);
    }
  }

  lemma LiveKnown(c: TbContext)
    requires c.Valid()
    ensures c.live <= c.known
  {
  }

  /** The block has size bytes of code from pc on, and a second page exactly if they run on to it. */
  ghost predicate MadeOf(i: Info, pc: nat, size: nat) {
    i.size == size && (i.page1 == -1 <==> pc % PAGE + size <= PAGE)
  }

  /** Nothing has changed, or tb is the new block nb and at most that has been added. */
  ghost predicate Looked(info: map<Ptr, Info>, live: set<Ptr>, info': map<Ptr, Info>, live': set<Ptr>, nb: Ptr,
                         tb: Ptr) {
    || (info' == info && live' == live)
    || (tb == nb && live' <= live + {nb} && nb in info' && info' == info[nb := info'[nb]])
  }

  /** At most the exits of nb have been reset. */
  ghost predicate TargetsKept(target: map<Ref, Ptr>, target': map<Ref, Ptr>, nb: Ptr) {
    target' == target || target' == TbExec.Unset(target, nb)
  }

  ghost predicate PagesApart(pc: nat, size: nat, p0: nat, p1: nat) { pc % PAGE + size > PAGE ==> p0 != p1 }

  /** Code that runs on to a second page is on two different pages of RAM. */
  ghost predicate Apart(pc: nat, size: nat, phys0: Phys, phys1: Phys) {
    pc % PAGE + size > PAGE ==> !phys0.Io? && !phys1.Io? && phys0.page != phys1.page
  }

  lemma ApartPages(pc: nat, size: nat, phys0: Phys, phys1: Phys, p0: nat, p1: nat)
    requires !phys0.Io? && p0 == phys0.page && (!phys1.Io? ==> p1 == phys1.page)
    ensures Apart(pc, size, phys0, phys1) ==> PagesApart(pc, size, p0, p1)
  {
  }

  lemma PairApart(pc: nat, size: nat, p0: nat, p1: nat)
    requires PagesApart(pc, size, p0, p1)
    ensures TbExec.TwoPages(pc, size, Pair(pc, p0, p1))
  {
  }

  lemma KeptSame(info: map<Ptr, Info>, target: map<Ref, Ptr>, known: set<Ptr>)
    ensures ChainsKept(target, target, known, known) && InfoKept(info, info, known)
  {
  }

  lemma KeptNew(info: map<Ptr, Info>, i: Info, target: map<Ref, Ptr>, known: set<Ptr>, nb: Ptr, full: bool)
    requires full || nb !in known
    ensures var known' := (if full then {} else known) + {nb};
            && ChainsKept(target, TbExec.Unset(target, nb), known, known')
            && if full then forall r :: !Chained(TbExec.Unset(target, nb), known', r)
               else InfoKept(info, info[nb := i], known)
  {
  }

  lemma KeyOf(i: Info, pc: nat, csBase: nat, flags: nat, page: nat -> nat)
    requires TbExec.Fits(i, pc, csBase, flags, page)
    ensures TbExec.Keyed(i, pc, csBase, flags)
  {
  }

  lemma SlotFits(slot: nat -> nat, cache: seq<seq<Ptr>>, cpu: nat, pc: nat)
    requires Hashed(slot, cache) && cpu < |cache|
    ensures slot(pc) < |cache[cpu]|
  {
  }

  lemma PagesKnown(i: Info, host: map<nat, nat>, p0: nat, p1: nat)
    requires i.page0 == p0 && p0 in host && (i.page1 == -1 || (i.page1 == p1 && p1 in host))
    ensures Pages(i) <= host.Keys
  {
  }

  lemma BlockOn(w: Walk, large: set<Span>, i: Info, p0: nat, p1: nat)
    requires i.page0 == p0 && PageAgrees(w, large, PageAt(i.pc), p0)
    requires i.page1 == -1 || (i.page1 == p1 && PageAgrees(w, large, Behind(PageAt(i.pc)), p1))
    ensures BlockAgrees(w, large, i)
  {
  }

  /** tb_find_slow, with the translation of the block's pages by way of the TLB and the
      protection of pages that get their first code. phys0 and phys1 are what is mapped at pc
      and behind it. */
  method FindSlow(m: Memory, cpu: nat, mode: nat, pc: nat, csBase: nat, flags: nat, w: Walk, phys0: Phys, phys1: Phys,
                  read: bool, write: bool, watch: bool, nb: Ptr, size: nat, full: bool, ghost ws: seq<Walk>)
    returns (tb: Ptr)
    requires m.Valid() && Agreed(m, ws) && cpu < m.cpus && mode < MODES && ws[cpu] == w && WalkOk(w)
    requires nb != NULL && (full || nb !in m.tb.known) && 0 < size <= PAGE
    requires Fetchable(m, w, PageAt(pc), phys0)
    requires RunsOn(m.tb.info, m.tb.live, pc, csBase, flags, size) ==> Fetchable(m, w, Behind(PageAt(pc)), phys1)
    modifies m, m.tb
    ensures m.Valid() && Agreed(m, ws) && tb in m.tb.live && tb in m.tb.info
    ensures TbExec.Keyed(m.tb.info[tb], pc, csBase, flags) && BlockAgrees(w, m.large[cpu], m.tb.info[tb])
    ensures !m.tb.invalidated ==> InfoKept(old(m.tb.info), m.tb.info, old(m.tb.known)) && old(m.tb.known) <= m.tb.known
    ensures m.tb.invalidated || tb !in old(m.tb.known) ==>
              tb == nb && MadeOf(m.tb.info[tb], pc, size)
    ensures AllSized(old(m.tb.info), old(m.tb.live)) && Apart(pc, size, phys0, phys1) ==>
              AllSized(m.tb.info, m.tb.live)
    ensures Looked(old(m.tb.info), old(m.tb.live), m.tb.info, m.tb.live, nb, tb)
    ensures (!full ==> !m.tb.invalidated) && TargetsKept(old(m.tb.target), m.tb.target, nb)
  {
    hide BitmapsOk, HashOk, PageOk, JumpOk, GoesOk, CacheOk, WatchOk, Tracked, Homes, Regions, Injective, Everywhere,
         WalkOk, PageOf, Word, CachesAgree, TableAgrees, Hashed, TbExec.Filled, TbExec.Watches, RunsOn, Pages,
         InfoKept, ChainsKept, ChainsLocal, Chained, Grown, Remembered, SameCode, BlockAgrees, AllSized, Apart,
         PagesApart, MadeOf, Looked, TargetsKept, CodeHit;
    SlotFits(m.tb.slot, m.tb.cache, cpu, pc);
    var p0 := PageAddrCode(m, cpu, mode, Word(pc), w, phys0, read, write, watch, ws);
    CachesGrown(m.tb.info, m.tb.cache, ws, old(m.large), m.large);
    ApartPages(pc, size, phys0, phys1, p0, if phys1.Io? then 0 else phys1.page);
    tb := FindAt(m, cpu, mode, pc, csBase, flags, w, p0, phys1, read, write, watch, nb, size, full, ws);
  }

  /** The same once the page at pc is known. */
  method FindAt(m: Memory, cpu: nat, mode: nat, pc: nat, csBase: nat, flags: nat, w: Walk, p0: nat, phys1: Phys,
                read: bool, write: bool, watch: bool, nb: Ptr, size: nat, full: bool, ghost ws: seq<Walk>)
    returns (tb: Ptr)
    requires m.Valid() && Agreed(m, ws) && cpu < m.cpus && mode < MODES && ws[cpu] == w && WalkOk(w)
    requires nb != NULL && (full || nb !in m.tb.known) && 0 < size <= PAGE
    requires m.tb.slot(pc) < |m.tb.cache[cpu]| && PageAgrees(w, m.large[cpu], PageAt(pc), p0) && p0 in m.host
    requires RunsOn(m.tb.info, m.tb.live, pc, csBase, flags, size) ==> Fetchable(m, w, Behind(PageAt(pc)), phys1)
    modifies m, m.tb
    ensures m.Valid() && Agreed(m, ws) && tb in m.tb.live && tb in m.tb.info
    ensures TbExec.Keyed(m.tb.info[tb], pc, csBase, flags) && BlockAgrees(w, m.large[cpu], m.tb.info[tb])
    ensures !m.tb.invalidated ==> InfoKept(old(m.tb.info), m.tb.info, old(m.tb.known)) && old(m.tb.known) <= m.tb.known
    ensures m.tb.invalidated || tb !in old(m.tb.known) ==> tb == nb && MadeOf(m.tb.info[tb], pc, size)
    ensures var p1 := if phys1.Io? then 0 else phys1.page;
            AllSized(old(m.tb.info), old(m.tb.live)) && PagesApart(pc, size, p0, p1) ==> AllSized(m.tb.info, m.tb.live)
    ensures Looked(old(m.tb.info), old(m.tb.live), m.tb.info, m.tb.live, nb, tb)
    ensures (!full ==> !m.tb.invalidated) && TargetsKept(old(m.tb.target), m.tb.target, nb)
  {
    hide BitmapsOk, HashOk, PageOk, JumpOk, GoesOk, CacheOk, WatchOk, Tracked, Homes, Regions, Injective, Everywhere,
         WalkOk, PageOf, Word, CachesAgree, TableAgrees, Hashed, TbExec.Filled, TbExec.Watches, RunsOn, Pages,
         InfoKept, ChainsKept, ChainsLocal, Chained, Grown, Remembered, SameCode, BlockAgrees, AllSized,
         PagesApart, MadeOf, Looked, TargetsKept;
    var c := m.tb;
    ghost var info, cache, live, known, target, goes := c.info, c.cache, c.live, c.known, c.target, c.goes;
    var before := c.watched;
    var p1 := if phys1.Io? then 0 else phys1.page;
    ghost var large := m.large;
    tb := Lookup(c, cpu, pc, csBase, flags, p0, p1, nb, size, full);
    HashedFilled(c.slot, cache, c.cache, c.invalidated, cpu, c.slot(pc), tb);
    LocalKept(info, c.info, target, c.target, goes, known, c.known, live, c.invalidated);
    PagesKnown(c.info[tb], m.host, p0, p1);
    FetchBehind(m, cpu, mode, pc, w, phys1, read, write, watch, c.info[tb], before, ws);
    CachesGrown(info, cache, ws, large, m.large);
    Still(large, m.large, cpu, PageAt(pc), w(PageAt(pc)).size);
    BlockOn(w, m.large[cpu], c.info[tb], p0, p1);
    CachesFilled(info, c.info, cache, c.cache, c.slot, live, known, c.invalidated, ws, m.large, cpu, c.slot(pc), tb);
  }

  /** The block's pages are protected, and the page behind fetched if the block runs on to it. */
  method FetchBehind(m: Memory, cpu: nat, mode: nat, pc: nat, w: Walk, phys1: Phys, read: bool, write: bool,
                     watch: bool, i: Info, before: set<nat>, ghost ws: seq<Walk>)
    requires m.Sound() && Tracked(m.table, m.host, m.vgaClean + m.migrationClean + before) && Pages(i) <= m.host.Keys
    requires TbExec.Watches(before, m.tb.watched, Pages(i)) && TableAgrees(m.table, m.home, ws, m.host)
    requires cpu < m.cpus == |ws| && mode < MODES && ws[cpu] == w && WalkOk(w)
    requires i.page1 != -1 ==> Fetchable(m, w, Behind(PageAt(pc)), phys1)
    modifies m`table, m`flushAddr, m`flushMask, m`large, m`home
    ensures m.Valid() && TableAgrees(m.table, m.home, ws, m.host) && Grown(old(m.large), m.large)
    ensures i.page1 != -1 ==> var v := Behind(PageAt(pc)); cpu < |m.large| && Remembered(m.large[cpu], v, w(v).size)
  {
    hide TbContext.Valid, Tracked, Homes, Regions, Injective, Everywhere, WalkOk, PageOf, Word, TableAgrees, Grown,
         Remembered, CodeHit, SameCode, Pages, TbExec.Watches;
    Protect(m, i, before);
    TableSame(old(m.table), m.table, m.home, ws, m.host);
    if i.page1 != -1 {
      PageAligned(pc);
      var p := PageAddrCode(m, cpu, mode, Behind(PageAt(pc)), w, phys1, read, write, watch, ws);
    } else {
      GrownSame(m.large);
    }
  }

  lemma GrownSame(large: seq<set<Span>>)
    ensures Grown(large, large)
  {
  }

  lemma Still(large: seq<set<Span>>, large': seq<set<Span>>, cpu: nat, v: bv32, size: bv32)
    requires Grown(large, large') && cpu < |large| && Remembered(large[cpu], v, size)
    ensures cpu < |large'| && Remembered(large'[cpu], v, size)
  {
  }

  /** tb_find_fast: whatever has happened to the guest's tables, the block found is one whose
      code is where pc leads now. */
  method FindFast(m: Memory, cpu: nat, mode: nat, pc: nat, csBase: nat, flags: nat, w: Walk, phys0: Phys, phys1: Phys,
                  read: bool, write: bool, watch: bool, nb: Ptr, size: nat, full: bool, ghost ws: seq<Walk>)
    returns (tb: Ptr)
    requires m.Valid() && Agreed(m, ws) && cpu < m.cpus && mode < MODES && ws[cpu] == w && WalkOk(w)
    requires nb != NULL && (full || nb !in m.tb.known) && 0 < size <= PAGE
    requires Fetchable(m, w, PageAt(pc), phys0)
    requires RunsOn(m.tb.info, m.tb.live, pc, csBase, flags, size) ==> Fetchable(m, w, Behind(PageAt(pc)), phys1)
    modifies m, m.tb
    ensures m.Valid() && Agreed(m, ws) && tb in m.tb.live && tb in m.tb.info
    ensures TbExec.Keyed(m.tb.info[tb], pc, csBase, flags) && BlockAgrees(w, m.large[cpu], m.tb.info[tb])
    ensures !m.tb.invalidated ==> InfoKept(old(m.tb.info), m.tb.info, old(m.tb.known)) && old(m.tb.known) <= m.tb.known
    ensures tb !in old(m.tb.known) ==>
              tb == nb && MadeOf(m.tb.info[tb], pc, size)
    ensures AllSized(old(m.tb.info), old(m.tb.live)) && Apart(pc, size, phys0, phys1) ==>
              AllSized(m.tb.info, m.tb.live)
    ensures Looked(old(m.tb.info), old(m.tb.live), m.tb.info, m.tb.live, nb, tb)
    ensures (!full && !old(m.tb.invalidated) ==> !m.tb.invalidated)
            && TargetsKept(old(m.tb.target), m.tb.target, nb)
    ensures var i := m.tb.slot(pc);
            cpu < |old(m.tb.cache)| && i < |old(m.tb.cache)[cpu]| &&
            (var hit := old(m.tb.cache)[cpu][i];
             hit != NULL && hit in old(m.tb.info) && TbExec.Keyed(old(m.tb.info)[hit], pc, csBase, flags)) ==>
              && tb == old(m.tb.cache)[cpu][i] && m.table == old(m.table) && m.tb.info == old(m.tb.info)
              && m.tb.live == old(m.tb.live) && m.tb.cache == old(m.tb.cache)
  {
    hide BitmapsOk, HashOk, PageOk, JumpOk, GoesOk, CacheOk, WatchOk, Tracked, Homes, Regions, Injective, Everywhere,
         WalkOk, PageOf, Word,
         CachesAgree, TableAgrees, Hashed, RunsOn, BlockAgrees, InfoKept, ChainsLocal, AllSized, Apart, MadeOf;
    KeptSame(m.tb.info, m.tb.target, m.tb.known);
    SlotFits(m.tb.slot, m.tb.cache, cpu, pc);
    tb := m.tb.cache[cpu][m.tb.slot(pc)];
    if tb != NULL { CachedAgrees(m.tb.info, m.tb.cache, m.tb.slot, m.tb.live, ws, m.large, cpu, m.tb.slot(pc)); }
    if tb == NULL || !TbExec.Keyed(m.tb.info[tb], pc, csBase, flags) {
      tb := FindSlow(m, cpu, mode, pc, csBase, flags, w, phys0, phys1, read, write, watch, nb, size, full, ws);
    }
  }

  lemma CachedAgrees(info: map<Ptr, Info>, cache: seq<seq<Ptr>>, slot: nat -> nat, live: set<Ptr>, ws: seq<Walk>,
                     large: seq<set<Span>>,
                     cpu: nat, i: nat)
    requires CachesAgree(info, cache, ws, large) && CacheOk(info, cache, slot, live) && cpu < |ws|
             && i < |cache[cpu]| && cache[cpu][i] != NULL
    ensures cache[cpu][i] in live && cache[cpu][i] in info && BlockAgrees(ws[cpu], large[cpu], info[cache[cpu][i]])
  {
    assert RowAgrees(info, cache[cpu], ws[cpu], large[cpu]);
  }

  // ------------------------------------------------------------ chained jumps

  /** The exit taken last was one that its block may chain: to an address in its own page, as
      gen_goto_tb sees to, from code that is where its address leads. */
  ghost predicate MayChain(m: Memory, w: Walk, cpu: nat, last: Ref, pc: nat)
    requires cpu < |m.large|
    reads m, m.tb
  {
    && last.tb in m.tb.known && last.tag < 2 && last.tb in m.tb.info
    && PageAt(pc) == PageAt(m.tb.info[last.tb].pc) && BlockAgrees(w, m.large[cpu], m.tb.info[last.tb])
  }

  /** One turn of the execution loop: the next block, and the last exit chained to it. */
  method NextBlock(m: Memory, cpu: nat, mode: nat, last: Ref, pc: nat, csBase: nat, flags: nat, w: Walk, phys0: Phys,
                   phys1: Phys, read: bool, write: bool, watch: bool, nb: Ptr, size: nat, full: bool,
                   ghost ws: seq<Walk>)
    returns (tb: Ptr, next: Ref)
    requires m.Valid() && Agreed(m, ws) && cpu < m.cpus && mode < MODES && ws[cpu] == w && WalkOk(w)
    requires nb != NULL && (full || nb !in m.tb.known) && 0 < size <= PAGE
    requires Fetchable(m, w, PageAt(pc), phys0)
    requires RunsOn(m.tb.info, m.tb.live, pc, csBase, flags, size) ==> Fetchable(m, w, Behind(PageAt(pc)), phys1)
    requires last != NIL ==> MayChain(m, w, cpu, last, pc)
    modifies m, m.tb
    ensures m.Valid() && Agreed(m, ws) && !m.tb.invalidated && tb in m.tb.live && tb in m.tb.info
    ensures TbExec.Keyed(m.tb.info[tb], pc, csBase, flags) && BlockAgrees(w, m.large[cpu], m.tb.info[tb])
    ensures next == last || next == NIL
    ensures next != NIL && m.tb.info[tb].page1 == -1 ==> Chained(m.tb.target, m.tb.known, next)
    ensures tb !in old(m.tb.known) ==>
              tb == nb && MadeOf(m.tb.info[tb], pc, size)
    ensures AllSized(old(m.tb.info), old(m.tb.live)) && Apart(pc, size, phys0, phys1) ==>
              AllSized(m.tb.info, m.tb.live)
    ensures Looked(old(m.tb.info), old(m.tb.live), m.tb.info, m.tb.live, nb, tb)
    ensures !full && !old(m.tb.invalidated) ==> next == last
    ensures next != NIL && !full && m.tb.info[tb].page1 == -1 && next in old(m.tb.target)
            && old(m.tb.target)[next] == NULL ==>
              next in m.tb.target && m.tb.target[next] == tb
  {
    hide BitmapsOk, HashOk, PageOk, JumpOk, GoesOk, CacheOk, WatchOk, Tracked, Homes, Regions, Injective, Everywhere,
         WalkOk, PageOf, Word, CachesAgree, TableAgrees, Hashed, RunsOn, InfoKept, ChainsLocal, BlockAgrees,
         AllSized, Apart, MadeOf, Looked;
    ghost var info, known := m.tb.info, m.tb.known;
    tb := FindFast(m, cpu, mode, pc, csBase, flags, w, phys0, phys1, read, write, watch, nb, size, full, ws);
    next := last;
    if m.tb.invalidated {
      next := NIL;
      m.tb.invalidated := false;
    }
    if next != NIL && m.tb.info[tb].page1 == -1 {
      Local(info, m.tb.info, known, last.tb, m.tb.info[tb], pc, w, old(m.large)[cpu], m.large[cpu]);
      Chain(m, next, tb, ws);
    }
  }

  /** tb_add_jump, when the block to go to lies on the page of the exit's own. */
  method Chain(m: Memory, next: Ref, tb: Ptr, ghost ws: seq<Walk>)
    requires m.Valid() && Agreed(m, ws) && next.tb in m.tb.known && next.tag < 2 && tb in m.tb.live
    requires next.tb in m.tb.info && tb in m.tb.info && OnPageOf(m.tb.info[next.tb], m.tb.info[tb])
    modifies m.tb`jmp, m.tb`goes, m.tb`target, m.tb`rings
    ensures m.Valid() && Agreed(m, ws) && Chained(m.tb.target, m.tb.known, next)
    ensures next in old(m.tb.target) && old(m.tb.target)[next] == NULL ==>
              next in m.tb.target && m.tb.target[next] == tb
  {
    hide BitmapsOk, HashOk, PageOk, JumpOk, GoesOk, CacheOk, WatchOk, Tracked, Homes, Regions, Injective, Everywhere,
         CachesAgree, TableAgrees, Hashed, ChainsLocal, OnPageOf;
    LiveInfo(m.tb.info, m.tb.hashHead, m.tb.hashNext, m.tb.chains, m.tb.live, tb);
    TbExec.AddJump(m.tb, next, tb);
    LocalMore(m.tb.info, old(m.tb.target), m.tb.target, m.tb.known, next, tb);
  }

  lemma Local(info: map<Ptr, Info>, info': map<Ptr, Info>, known: set<Ptr>, b: Ptr, i: Info, pc: nat, w: Walk,
              large: set<Span>, large': set<Span>)
    requires InfoKept(info, info', known) && b in known && b in info && PageAt(pc) == PageAt(info[b].pc)
    requires BlockAgrees(w, large, info[b]) && BlockAgrees(w, large', i) && i.pc == pc && i.page1 == -1
    ensures b in info' && OnPageOf(info'[b], i)
  {
    hide PageOf, Word;
  }

  lemma LocalMore(info: map<Ptr, Info>, target: map<Ref, Ptr>, target': map<Ref, Ptr>, known: set<Ptr>, r: Ref, t: Ptr)
    requires ChainsLocal(info, target, known) && r.tb in info && t in info && OnPageOf(info[r.tb], info[t])
    requires target' == target || target' == target[r := t]
    ensures ChainsLocal(info, target', known)
  {
    hide OnPageOf;
    forall q | Chained(target', known, q)
      ensures q.tb in info && target'[q] in info && OnPageOf(info[q.tb], info[target'[q]])
    {
      if target'[q] != t || q != r { assert Chained(target, known, q); }
    }
  }

  /** Running from block b by these exits, without leaving generated code, comes to block e. */
  ghost predicate Runs(goes: map<Ref, Ptr>, b: Ptr, exits: seq<nat>, e: Ptr)
    decreases |exits|
  {
    if exits == [] then e == b
    else
      var r := Ref(b, exits[0]);
      r.tag < 2 && r in goes && goes[r] != NULL && Runs(goes, goes[r], exits[1..], e)
  }

  /** However far chained jumps lead from a block whose code is where its address leads now,
      every block they come to is live and its code is where its own address leads now. */
  lemma {:induction false} JumpsLead(m: Memory, ws: seq<Walk>, cpu: nat, b: Ptr, exits: seq<nat>, e: Ptr)
    requires m.Valid() && Agreed(m, ws) && cpu < m.cpus && b in m.tb.live && b in m.tb.info
    requires BlockAgrees(ws[cpu], m.large[cpu], m.tb.info[b]) && Runs(m.tb.goes, b, exits, e)
    ensures e in m.tb.live && e in m.tb.info && BlockAgrees(ws[cpu], m.large[cpu], m.tb.info[e])
    ensures exits != [] ==> OnPageOf(m.tb.info[b], m.tb.info[e])
    decreases |exits|
  {
    hide BitmapsOk, HashOk, PageOk, JumpOk, CacheOk, WatchOk, Tracked, Homes, Regions, Injective, Everywhere, PageOf,
         Word, CachesAgree, TableAgrees, Hashed, BlockAgrees;
    if exits != [] {
      var r := Ref(b, exits[0]);
      assert GoOk(m.tb.goes, m.tb.target, m.tb.live, r);
      assert Chained(m.tb.target, m.tb.known, r);
      StaysThere(ws[cpu], m.large[cpu], m.tb.info[b], m.tb.info[m.tb.goes[r]]);
      JumpsLead(m, ws, cpu, m.tb.goes[r], exits[1..], e);
    }
  }

  lemma StaysThere(w: Walk, large: set<Span>, a: Info, b: Info)
    requires BlockAgrees(w, large, a) && OnPageOf(a, b)
    ensures BlockAgrees(w, large, b)
  {
    hide PageOf, Word;
  }

  // ------------------------------------------------------------ everything else

  /** At the start nothing is cached, so any page tables agree. */
  method Start(host: map<nat, nat>, cpus: nat, ghost ws: seq<Walk>) returns (m: Memory)
    requires Injective(host) && |ws| == cpus
    ensures m.Valid() && m.cpus == cpus && m.host == host && Agreed(m, ws)
  {
    hide TbContext.Valid, Injective, Tracked, SlotOf, Word;
    var tb := new TbContext((pc: nat) => SlotOf(Word(pc)), cpus, JUMP_SIZE);
    m := new Memory(tb, host, cpus);
    NoneCached(tb);
  }

  lemma NoneCached(c: TbContext)
    requires c.Valid() && c.live == {}
    ensures forall k, i :: 0 <= k < |c.cache| && 0 <= i < |c.cache[k]| ==> c.cache[k][i] == NULL
  {
  }

  /** Taking blocks out of the jump caches, and letting stores through or not, keeps agreement. */
  lemma AgreedShrunk(info: map<Ptr, Info>, cache: seq<seq<Ptr>>, cache': seq<seq<Ptr>>, slot: nat -> nat,
                     ws: seq<Walk>, large: seq<set<Span>>)
    requires CachesAgree(info, cache, ws, large) && Hashed(slot, cache) && Shrunk(cache, cache')
    ensures CachesAgree(info, cache', ws, large) && Hashed(slot, cache')
  {
    hide BlockAgrees, SlotOf, Word;
    forall c | 0 <= c < |ws| ensures RowAgrees(info, cache'[c], ws[c], large[c]) {
      assert RowAgrees(info, cache[c], ws[c], large[c]);
    }
  }

  /** A trapped store. */
  method NotDirtyWrite(m: Memory, cpu: nat, vaddr: bv32, ram: nat, ghost ws: seq<Walk>)
    requires m.Valid() && Agreed(m, ws) && cpu < m.cpus && AllSized(m.tb.info, m.tb.live)
    modifies m, m.tb
    ensures m.Sound() && Agreed(m, ws)
    ensures m.Valid() <==> m.IsClean(ram / PAGE) || Harmless(old(m.table), m.host, m.Clean(), cpu, PageOf(vaddr))
    ensures AllSized(m.tb.info, m.tb.live) && m.tb.info == old(m.tb.info)
            && m.tb.live == CodeBitmap.Unhit(m.tb.info, old(m.tb.live), ram, ram + 1)
  {
    hide TbContext.Valid, Tracked, Homes, Regions, Injective, Everywhere, CachesAgree, TableAgrees, Hashed,
         AllSized,
         CodeBitmap.Unhit, Harmless, PageOf, Shrunk, SameCode, ChainsLocal, Unchained;
    ghost var cache, target, table := m.tb.cache, m.tb.target, m.table;
    m.NotDirtyWrite(cpu, vaddr, ram);
    AgreedShrunk(m.tb.info, cache, m.tb.cache, m.tb.slot, ws, m.large);
    LocalUnchained(m.tb.info, target, m.tb.target, m.tb.known);
    TableSame(table, m.table, m.home, ws, m.host);
  }

  /** A store by a device. */
  method DeviceStore(m: Memory, addr: nat, length: nat, ghost ws: seq<Walk>)
    requires m.Valid() && Agreed(m, ws) && length > 0 && addr % PAGE + length <= PAGE
             && AllSized(m.tb.info, m.tb.live)
    modifies m`vgaClean, m`migrationClean, m.tb
    ensures m.Valid() && Agreed(m, ws)
    ensures AllSized(m.tb.info, m.tb.live) && m.tb.info == old(m.tb.info)
            && m.tb.live == CodeBitmap.Unhit(m.tb.info, old(m.tb.live), addr, addr + length)
  {
    hide TbContext.Valid, Tracked, Homes, Regions, Injective, Everywhere, CachesAgree, TableAgrees, Hashed,
         AllSized,
         CodeBitmap.Unhit, Shrunk, ChainsLocal, Unchained;
    ghost var cache, target := m.tb.cache, m.tb.target;
    m.InvalidateAndSetDirty(addr, length);
    AgreedShrunk(m.tb.info, cache, m.tb.cache, m.tb.slot, ws, m.large);
    LocalUnchained(m.tb.info, target, m.tb.target, m.tb.known);
  }
}
