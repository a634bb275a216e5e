/** Looking blocks up, translating and linking new ones, chaining jumps and
    flushing (cpu-exec.c, translate-all.c), over the cache of TbCache. */
module TbExec {
  import opened Machine
  import opened Chains
  import opened TbCache

  // ------------------------------------------------------------ chaining

  /** tb_add_jump. */
  method AddJump(c: TbContext, r: Ref, t: Ptr)
    requires c.Valid() && r.tb in c.known && r.tag < 2 && t in c.live
    modifies c`jmp, c`goes, c`target, c`rings
    ensures c.Valid() && r in old(c.target) && t in old(c.rings)
    ensures old(c.target)[r] != NULL ==>
              c.target == old(c.target) && c.goes == old(c.goes) && c.rings == old(c.rings)
    ensures old(c.target)[r] == NULL ==>
              && c.target == old(c.target)[r := t] && c.goes == old(c.goes)[r := t]
              && c.rings == old(c.rings)[t := [Ref(t, 2), r] + old(c.rings)[t][1..]]
  {
    hide BitmapsOk, HashOk, PageOk, JumpOk, GoesOk, CacheOk, WatchOk, Detachable, IsRing, RingOf;
    ghost var k := Place(c.jmp, c.target, c.rings, c.known, r);
    RingFacts(c.jmp, c.target, c.rings, c.known, t);
    Ring0(c.jmp, c.target, c.known, t, c.rings[t]);
    if c.jmp[r] == NIL {
      Attach(c.jmp, c.target, c.rings, c.known, r, t);
      GoesMore(c.goes, c.target, c.known, c.live, r, t);
      c.goes := c.goes[r := t];
      c.jmp := c.jmp[r := c.jmp[Ref(t, 2)]];
      c.jmp := c.jmp[Ref(t, 2) := r];
      c.target, c.rings := c.target[r := t], c.rings[t := [c.rings[t][0], r] + c.rings[t][1..]];
    } else {
      DetachableTarget(c.jmp, c.target, c.rings, c.known, r, k);
    }
  }

  lemma DetachableTarget(jmp: map<Ref, Ref>, target: map<Ref, Ptr>, rings: map<Ptr, seq<Ref>>, known: set<Ptr>,
                         r: Ref, k: nat)
    requires Detachable(jmp, target, rings, known, r, k)
    ensures r in target && target[r] != NULL
  {
  }

  lemma GoesMore(goes: map<Ref, Ptr>, target: map<Ref, Ptr>, known: set<Ptr>, live: set<Ptr>, r: Ref, t: Ptr)
    requires GoesOk(goes, target, known, live) && t in live
    ensures GoesOk(goes[r := t], target[r := t], known, live)
  {
    forall q: Ref | q.tb in known && q.tag < 2 ensures GoOk(goes[r := t], target[r := t], live, q) {
      assert GoOk(goes, target, live, q);
    }
  }

  // ------------------------------------------------------------ linking

  lemma HashAdd(info: map<Ptr, Info>, head: seq<Ptr>, next: map<Ptr, Ptr>, chains: seq<seq<Ptr>>, live: set<Ptr>,
                tb: Ptr, i: Info)
    requires HashOk(info, head, next, chains, live) && tb !in live && tb != NULL
    ensures var h := HashOf(i);
            HashOk(info[tb := i], head[h := tb], next[tb := head[h]], chains[h := [tb] + chains[h]], live + {tb})
  {
    HashAddChains(info, head, next, chains, live, tb, HashOf(i));
    HashAddMembers(info, chains, live, tb, i);
  }

  lemma HashAddChains(info: map<Ptr, Info>, head: seq<Ptr>, next: map<Ptr, Ptr>, chains: seq<seq<Ptr>>,
                      live: set<Ptr>, tb: Ptr, h: nat)
    requires HashOk(info, head, next, chains, live) && tb !in live && tb != NULL && h < HASH_SIZE
    ensures HashChains(head[h := tb], next[tb := head[h]], chains[h := [tb] + chains[h]])
  {
    var s, next' := chains[h], next[tb := head[h]];
    assert IsChain(next, NULL, head[h], s);
    InsertAt(next, NULL, head[h], s, 0, tb);
    assert s[..0] + [tb] + s[0..] == [tb] + s;
    hide IsChain, HashOf;
    forall g | 0 <= g < HASH_SIZE && g != h ensures IsChain(next', NULL, head[g], chains[g]) {
      ChainFrame(next, next', NULL, head[g], chains[g]);
    }
  }

  lemma HashAddMembers(info: map<Ptr, Info>, chains: seq<seq<Ptr>>, live: set<Ptr>, tb: Ptr, i: Info)
    requires HashMembers(info, chains, live) && tb !in live && tb != NULL
    ensures HashMembers(info[tb := i], chains[HashOf(i) := [tb] + chains[HashOf(i)]], live + {tb})
  {
    hide HashOf;
  }

  /** page_find_alloc: an empty list for a page that had no descriptor. */
  lemma PageAlloc(info: map<Ptr, Info>, first: map<nat, Ref>, next: map<Ref, Ref>, lists: map<nat, seq<Ref>>,
                  live: set<Ptr>, gone: set<Ref>, p: nat)
    requires PageOk(info, first, next, lists, live, gone) && p !in lists
    ensures PageOk(info, first[p := NIL], next, lists[p := []], live, gone)
  {
  }

  /** A block that is on no list yet. */
  lemma PageNew(info: map<Ptr, Info>, first: map<nat, Ref>, next: map<Ref, Ref>, lists: map<nat, seq<Ref>>,
                live: set<Ptr>, tb: Ptr, i: Info)
    requires PageOk(info, first, next, lists, live, {}) && tb !in live && tb != NULL && i.page1 >= -1
    ensures PageOk(info[tb := i], first, next, lists, live + {tb}, {Ref(tb, 0), Ref(tb, 1)})
  {
    hide IsChain;
    var info', live', gone := info[tb := i], live + {tb}, {Ref(tb, 0), Ref(tb, 1)};
    forall b | b in live' ensures Listed(info'[b].page0, lists, gone, Ref(b, 0)) {
      if b != tb { assert Listed(info[b].page0, lists, {}, Ref(b, 0)); }
    }
    forall b | b in live' && info'[b].page1 != -1 ensures Listed(info'[b].page1, lists, gone, Ref(b, 1)) {
      if b != tb { assert Listed(info[b].page1, lists, {}, Ref(b, 1)); }
    }
  }

  /** A reference that is due goes to the head of its page's list. */
  lemma PagePut(info: map<Ptr, Info>, first: map<nat, Ref>, next: map<Ref, Ref>, lists: map<nat, seq<Ref>>,
                live: set<Ptr>, gone: set<Ref>, p: nat, r: Ref)
    requires PageOk(info, first, next, lists, live, gone) && p in lists && r in gone && r.tb in live
             && OnPage(info[r.tb], r.tag, p)
    ensures PageOk(info, first[p := r], next[r := first[p]], lists[p := [r] + lists[p]], live, gone - {r})
  {
    hide PageMembers, AllListed;
    PagePutChains(info, first, next, lists, live, gone, p, r);
    PagePutMembers(info, lists, live, gone, p, r);
    PagePutListed(info, lists, live, gone, p, r);
  }

  lemma PagePutChains(info: map<Ptr, Info>, first: map<nat, Ref>, next: map<Ref, Ref>, lists: map<nat, seq<Ref>>,
                      live: set<Ptr>, gone: set<Ref>, p: nat, r: Ref)
    requires PageChains(first, next, lists) && PageMembers(info, lists, live, gone) && p in lists && r in gone
             && r.tb in live
    ensures PageChains(first[p := r], next[r := first[p]], lists[p := [r] + lists[p]])
  {
    var s, next' := lists[p], next[r := first[p]];
    assert IsChain(next, NIL, first[p], s);
    InsertAt(next, NIL, first[p], s, 0, r);
    assert s[..0] + [r] + s[0..] == [r] + s;
    hide IsChain;
    forall q | q in lists && q != p ensures IsChain(next', NIL, first[q], lists[q]) {
      ChainFrame(next, next', NIL, first[q], lists[q]);
    }
  }

  lemma PagePutMembers(info: map<Ptr, Info>, lists: map<nat, seq<Ref>>, live: set<Ptr>, gone: set<Ref>, p: nat, r: Ref)
    requires PageMembers(info, lists, live, gone) && p in lists && r in gone && r.tb in live
             && OnPage(info[r.tb], r.tag, p)
    ensures PageMembers(info, lists[p := [r] + lists[p]], live, gone - {r})
  {
  }

  lemma PagePutListed(info: map<Ptr, Info>, lists: map<nat, seq<Ref>>, live: set<Ptr>, gone: set<Ref>, p: nat, r: Ref)
    requires AllListed(info, lists, live, gone) && p in lists && r in gone && r.tb in live
             && OnPage(info[r.tb], r.tag, p)
    ensures AllListed(info, lists[p := [r] + lists[p]], live, gone - {r})
  {
    var lists', gone' := lists[p := [r] + lists[p]], gone - {r};
    forall b | b in live ensures Listed(info[b].page0, lists', gone', Ref(b, 0)) {
      assert Listed(info[b].page0, lists, gone, Ref(b, 0));
    }
    forall b | b in live && info[b].page1 != -1 ensures Listed(info[b].page1, lists', gone', Ref(b, 1)) {
      assert Listed(info[b].page1, lists, gone, Ref(b, 1));
    }
  }

  /** A block in one page has no second reference to wait for. */
  lemma PageDone(info: map<Ptr, Info>, first: map<nat, Ref>, next: map<Ref, Ref>, lists: map<nat, seq<Ref>>,
                 live: set<Ptr>, tb: Ptr)
    requires PageOk(info, first, next, lists, live, {Ref(tb, 1)}) && tb in live && info[tb].page1 == -1
    ensures PageOk(info, first, next, lists, live, {})
  {
    hide IsChain;
    forall b | b in live ensures Listed(info[b].page0, lists, {}, Ref(b, 0)) {
      assert Listed(info[b].page0, lists, {Ref(tb, 1)}, Ref(b, 0));
    }
    forall b | b in live && info[b].page1 != -1 ensures Listed(info[b].page1, lists, {}, Ref(b, 1)) {
      assert Listed(info[b].page1, lists, {Ref(tb, 1)}, Ref(b, 1));
    }
  }

  /** tb_alloc_page. */
  method AllocPage(c: TbContext, r: Ref, p: nat, ghost live: set<Ptr>, ghost gone: set<Ref>)
    requires PageOk(c.info, c.pageFirst, c.pageNext, c.lists, live, gone) && WatchOk(c.lists, c.watched)
    requires r in gone && r.tb in live && r.tb in c.info && OnPage(c.info[r.tb], r.tag, p)
    modifies c`pageFirst, c`pageNext, c`lists, c`bitmaps, c`writes, c`watched
    ensures PageOk(c.info, c.pageFirst, c.pageNext, c.lists, live, gone - {r}) && WatchOk(c.lists, c.watched)
    ensures c.lists == old(c.lists)[p := [r] + ListOf(old(c.lists), p)]
    ensures c.bitmaps == old(c.bitmaps) - {p} && c.writes == old(c.writes) - {p}
    ensures c.watched == old(c.watched) + if ListOf(old(c.lists), p) == [] then {p} else {}
  {
    hide PageOk;
    PageKeys(c.info, c.pageFirst, c.pageNext, c.lists, live, gone, p);
    if p !in c.pageFirst {
      PageAlloc(c.info, c.pageFirst, c.pageNext, c.lists, live, gone, p);
      c.pageFirst, c.lists := c.pageFirst[p := NIL], c.lists[p := []];
      PageKeys(c.info, c.pageFirst, c.pageNext, c.lists, live, gone, p);
    }
    PagePut(c.info, c.pageFirst, c.pageNext, c.lists, live, gone, p, r);
    c.pageNext := c.pageNext[r := c.pageFirst[p]];
    var protectedBefore := c.pageFirst[p] != NIL;
    c.pageFirst, c.lists := c.pageFirst[p := r], c.lists[p := [r] + c.lists[p]];
    c.DropBitmap(p);
    if !protectedBefore {
      c.watched := c.watched + {p};
    }
  }

  lemma PageKeys(info: map<Ptr, Info>, first: map<nat, Ref>, next: map<Ref, Ref>, lists: map<nat, seq<Ref>>,
                 live: set<Ptr>, gone: set<Ref>, p: nat)
    requires PageOk(info, first, next, lists, live, gone)
    ensures p in first <==> p in lists
    ensures p in lists ==> (first[p] == NIL <==> lists[p] == [])
  {
  }

  /** The jump fields of a new block: its list is itself, its jumps are unchained. */
  ghost function NewJmp(jmp: map<Ref, Ref>, tb: Ptr): map<Ref, Ref> {
    jmp[Ref(tb, 2) := Ref(tb, 2)][Ref(tb, 0) := NIL][Ref(tb, 1) := NIL]
  }

  ghost function Unset(m: map<Ref, Ptr>, tb: Ptr): map<Ref, Ptr> { m[Ref(tb, 0) := NULL][Ref(tb, 1) := NULL] }

  lemma JumpNew(jmp: map<Ref, Ref>, target: map<Ref, Ptr>, rings: map<Ptr, seq<Ref>>, known: set<Ptr>, tb: Ptr)
    requires JumpOk(jmp, target, rings, known) && tb !in known && tb != NULL
    ensures JumpOk(NewJmp(jmp, tb), Unset(target, tb), rings[tb := [Ref(tb, 2)]], known + {tb})
  {
    hide RingOf, SlotsOk, NewJmp, Unset;
    NewRings(jmp, target, rings, known, tb);
    NewSlots(jmp, target, rings, known, tb);
  }

  lemma NewRings(jmp: map<Ref, Ref>, target: map<Ref, Ptr>, rings: map<Ptr, seq<Ref>>, known: set<Ptr>, tb: Ptr)
    requires RingsOk(jmp, target, rings, known) && tb !in known
    ensures RingsOk(NewJmp(jmp, tb), Unset(target, tb), rings[tb := [Ref(tb, 2)]], known + {tb})
  {
    NewRing(NewJmp(jmp, tb), Unset(target, tb), known + {tb}, tb);
    hide RingOf, NewJmp, Unset;
    forall t | t in known ensures RingOf(NewJmp(jmp, tb), Unset(target, tb), known + {tb}, t, rings[t]) {
      OldRing(jmp, target, known, t, rings[t], tb);
    }
  }

  lemma NewSlots(jmp: map<Ref, Ref>, target: map<Ref, Ptr>, rings: map<Ptr, seq<Ref>>, known: set<Ptr>, tb: Ptr)
    requires SlotsOk(jmp, target, rings, known) && rings.Keys == known && tb !in known
    ensures SlotsOk(NewJmp(jmp, tb), Unset(target, tb), rings[tb := [Ref(tb, 2)]], known + {tb})
  {
    hide SlotOk, NewJmp, Unset;
    forall t | t in known + {tb}
      ensures SlotOk(NewJmp(jmp, tb), Unset(target, tb), rings[tb := [Ref(tb, 2)]], Ref(t, 0))
           && SlotOk(NewJmp(jmp, tb), Unset(target, tb), rings[tb := [Ref(tb, 2)]], Ref(t, 1))
    {
      NewSlot(jmp, target, rings, tb, Ref(t, 0));
      NewSlot(jmp, target, rings, tb, Ref(t, 1));
    }
  }

  lemma NewRing(jmp: map<Ref, Ref>, target: map<Ref, Ptr>, known: set<Ptr>, tb: Ptr)
    requires Ref(tb, 2) in jmp && jmp[Ref(tb, 2)] == Ref(tb, 2)
    ensures RingOf(jmp, target, known, tb, [Ref(tb, 2)])
  {
  }

  lemma OldRing(jmp: map<Ref, Ref>, target: map<Ref, Ptr>, known: set<Ptr>, t: Ptr, s: seq<Ref>, tb: Ptr)
    requires RingOf(jmp, target, known, t, s) && tb !in known && t in known
    ensures RingOf(NewJmp(jmp, tb), Unset(target, tb), known + {tb}, t, s)
  {
    forall x | x in s ensures x.tb != tb { OneRing(jmp, target, known, t, s, x); }
    RingFrame(jmp, NewJmp(jmp, tb), s);
  }

  lemma NewSlot(jmp: map<Ref, Ref>, target: map<Ref, Ptr>, rings: map<Ptr, seq<Ref>>, tb: Ptr, q: Ref)
    requires (q.tb != tb ==> SlotOk(jmp, target, rings, q)) && q.tag < 2 && tb !in rings
    ensures SlotOk(NewJmp(jmp, tb), Unset(target, tb), rings[tb := [Ref(tb, 2)]], q)
  {
  }

  lemma GoesNew(goes: map<Ref, Ptr>, target: map<Ref, Ptr>, known: set<Ptr>, live: set<Ptr>, tb: Ptr)
    requires GoesOk(goes, target, known, live) && tb !in known
    ensures GoesOk(Unset(goes, tb), Unset(target, tb), known + {tb}, live + {tb})
  {
    var goes', target' := Unset(goes, tb), Unset(target, tb);
    forall q: Ref | q.tb in known + {tb} && q.tag < 2 ensures GoOk(goes', target', live + {tb}, q) {
      if q.tb == tb { assert q == Ref(tb, 0) || q == Ref(tb, 1); } else { assert GoOk(goes, target, live, q); }
    }
  }

  /** What linking tb adds to the page lists: its first page, then its second. */
  ghost function Linked(lists: map<nat, seq<Ref>>, tb: Ptr, i: Info): map<nat, seq<Ref>> {
    var m := lists[i.page0 := [Ref(tb, 0)] + ListOf(lists, i.page0)];
    if i.page1 < 0 then m else m[i.page1 := [Ref(tb, 1)] + ListOf(m, i.page1)]
  }

  /** tb_link_page. */
  method Link(c: TbContext, tb: Ptr, i: Info)
    requires c.Valid() && tb !in c.known && tb != NULL && i.page1 >= -1
    modifies c
    ensures c.Valid() && c.live == old(c.live) + {tb} && c.known == old(c.known) + {tb}
            && c.info == old(c.info)[tb := i]
    ensures c.chains == old(c.chains)[HashOf(i) := [tb] + old(c.chains)[HashOf(i)]]
    ensures c.lists == Linked(old(c.lists), tb, i)
    ensures c.bitmaps == old(c.bitmaps) - Pages(i) && c.writes == old(c.writes) - Pages(i)
    ensures c.watched == old(c.watched) + set p | p in Pages(i) && ListOf(old(c.lists), p) == []
    ensures c.rings == old(c.rings)[tb := [Ref(tb, 2)]]
    ensures c.target == Unset(old(c.target), tb) && c.goes == Unset(old(c.goes), tb)
    ensures c.cache == old(c.cache) && c.invalidated == old(c.invalidated)
    ensures c.hashHead == old(c.hashHead)[HashOf(i) := tb]
            && c.hashNext == old(c.hashNext)[tb := old(c.hashHead)[HashOf(i)]]
  {
    hide BitmapsOk, HashOk, PageOk, JumpOk, GoesOk, CacheOk, WatchOk, HashOf, Linked, NewJmp, Unset, Pages;
    LinkLists(c, tb, i);
    LinkJumps(c, tb);
    c.live, c.known := c.live + {tb}, c.known + {tb};
  }

  /** The hash chain and the page lists. */
  method LinkLists(c: TbContext, tb: Ptr, i: Info)
    requires HashOk(c.info, c.hashHead, c.hashNext, c.chains, c.live) && CacheOk(c.info, c.cache, c.slot, c.live)
    requires PageOk(c.info, c.pageFirst, c.pageNext, c.lists, c.live, {}) && WatchOk(c.lists, c.watched)
             && BitmapsOk(c.info, c.lists, c.bitmaps)
    requires tb !in c.live && tb != NULL && i.page1 >= -1
    modifies c`info, c`hashHead, c`hashNext, c`chains, c`pageFirst, c`pageNext, c`lists, c`bitmaps, c`writes, c`watched
    ensures HashOk(c.info, c.hashHead, c.hashNext, c.chains, c.live + {tb})
            && CacheOk(c.info, c.cache, c.slot, c.live + {tb})
    ensures PageOk(c.info, c.pageFirst, c.pageNext, c.lists, c.live + {tb}, {}) && WatchOk(c.lists, c.watched)
            && BitmapsOk(c.info, c.lists, c.bitmaps)
    ensures c.info == old(c.info)[tb := i] && |old(c.hashHead)| == |old(c.chains)| == HASH_SIZE
    ensures c.chains == old(c.chains)[HashOf(i) := [tb] + old(c.chains)[HashOf(i)]]
    ensures c.hashHead == old(c.hashHead)[HashOf(i) := tb]
            && c.hashNext == old(c.hashNext)[tb := old(c.hashHead)[HashOf(i)]]
    ensures c.lists == Linked(old(c.lists), tb, i)
    ensures c.bitmaps == old(c.bitmaps) - Pages(i) && c.writes == old(c.writes) - Pages(i)
    ensures c.watched == old(c.watched) + set p | p in Pages(i) && ListOf(old(c.lists), p) == []
  {
    hide BitmapsOk, HashOk, PageOk, CacheOk, WatchOk, HashOf, Linked, Pages;
    HashSizes(c.info, c.hashHead, c.hashNext, c.chains, c.live);
    HashAdd(c.info, c.hashHead, c.hashNext, c.chains, c.live, tb, i);
    PageNew(c.info, c.pageFirst, c.pageNext, c.lists, c.live, tb, i);
    CacheMore(c.info, c.cache, c.slot, c.live, tb, i);
    BitmapsMore(c.info, c.pageFirst, c.pageNext, c.lists, c.bitmaps, c.live, tb, i);
    c.info := c.info[tb := i];
    var h := HashOf(i);
    c.hashNext := c.hashNext[tb := c.hashHead[h]];
    c.hashHead, c.chains := c.hashHead[h := tb], c.chains[h := [tb] + c.chains[h]];
    LinkPages(c, tb, i, c.live + {tb});
  }

  method LinkPages(c: TbContext, tb: Ptr, i: Info, ghost live: set<Ptr>)
    requires PageOk(c.info, c.pageFirst, c.pageNext, c.lists, live, {Ref(tb, 0), Ref(tb, 1)})
             && WatchOk(c.lists, c.watched)
    requires tb in live && tb in c.info && c.info[tb] == i && i.page1 >= -1
    modifies c`pageFirst, c`pageNext, c`lists, c`bitmaps, c`writes, c`watched
    ensures PageOk(c.info, c.pageFirst, c.pageNext, c.lists, live, {}) && WatchOk(c.lists, c.watched)
    ensures c.lists == Linked(old(c.lists), tb, i)
    ensures c.bitmaps == old(c.bitmaps) - Pages(i) && c.writes == old(c.writes) - Pages(i)
    ensures c.watched == old(c.watched) + set p | p in Pages(i) && ListOf(old(c.lists), p) == []
  {
    hide PageOk, WatchOk;
    AllocPage(c, Ref(tb, 0), i.page0, live, {Ref(tb, 0), Ref(tb, 1)});
    assert {Ref(tb, 0), Ref(tb, 1)} - {Ref(tb, 0)} == {Ref(tb, 1)};
    if i.page1 != -1 {
      AllocPage(c, Ref(tb, 1), i.page1, live, {Ref(tb, 1)});
      assert {Ref(tb, 1)} - {Ref(tb, 1)} == {};
    } else {
      PageDone(c.info, c.pageFirst, c.pageNext, c.lists, live, tb);
    }
  }

  method LinkJumps(c: TbContext, tb: Ptr)
    requires JumpOk(c.jmp, c.target, c.rings, c.known) && GoesOk(c.goes, c.target, c.known, c.live) && tb !in c.known
             && tb != NULL
    modifies c`jmp, c`goes, c`target, c`rings
    ensures JumpOk(c.jmp, c.target, c.rings, c.known + {tb}) && GoesOk(c.goes, c.target, c.known + {tb}, c.live + {tb})
    ensures c.rings == old(c.rings)[tb := [Ref(tb, 2)]]
    ensures c.target == Unset(old(c.target), tb) && c.goes == Unset(old(c.goes), tb)
  {
    hide JumpOk, GoesOk;
    JumpNew(c.jmp, c.target, c.rings, c.known, tb);
    GoesNew(c.goes, c.target, c.known, c.live, tb);
    c.jmp := c.jmp[Ref(tb, 2) := Ref(tb, 2)];
    c.jmp := c.jmp[Ref(tb, 0) := NIL];
    c.jmp := c.jmp[Ref(tb, 1) := NIL];
    c.goes := c.goes[Ref(tb, 0) := NULL];
    c.goes := c.goes[Ref(tb, 1) := NULL];
    c.target, c.rings := Unset(c.target, tb), c.rings[tb := [Ref(tb, 2)]];
  }

  lemma BitmapsMore(info: map<Ptr, Info>, first: map<nat, Ref>, next: map<Ref, Ref>, lists: map<nat, seq<Ref>>,
                    bitmaps: map<nat, seq<bv8>>,
                    live: set<Ptr>, tb: Ptr, i: Info)
    requires PageOk(info, first, next, lists, live, {}) && tb !in live && BitmapsOk(info, lists, bitmaps)
    ensures BitmapsOk(info[tb := i], Linked(lists, tb, i), bitmaps - Pages(i))
  {
    hide IsBitmap, IsChain;
    forall p | p in bitmaps - Pages(i)
      ensures p in Linked(lists, tb, i) && IsBitmap(info[tb := i], Linked(lists, tb, i)[p], bitmaps[p])
    {
      assert Linked(lists, tb, i)[p] == lists[p];
      BitmapOther(info, lists[p], bitmaps[p], tb, i);
    }
  }

  lemma BitmapOther(info: map<Ptr, Info>, s: seq<Ref>, bm: seq<bv8>, tb: Ptr, i: Info)
    requires IsBitmap(info, s, bm) && forall r :: r in s ==> r.tb != tb
    ensures IsBitmap(info[tb := i], s, bm)
  {
    hide BitAt, Covers;
    forall o | 0 <= o < PAGE ensures BitAt(bm, o) <==> Covered(info[tb := i], s, o) {
      assert BitAt(bm, o) <==> Covered(info, s, o);
    }
  }

  lemma HashSizes(info: map<Ptr, Info>, head: seq<Ptr>, next: map<Ptr, Ptr>, chains: seq<seq<Ptr>>, live: set<Ptr>)
    requires HashOk(info, head, next, chains, live)
    ensures |head| == |chains| == HASH_SIZE
  {
  }

  lemma CacheMore(info: map<Ptr, Info>, cache: seq<seq<Ptr>>, slot: nat -> nat, live: set<Ptr>, tb: Ptr, i: Info)
    requires CacheOk(info, cache, slot, live) && tb !in live
    ensures CacheOk(info[tb := i], cache, slot, live + {tb})
  {
  }

  // ------------------------------------------------------------ flushing

  function NoHeads(): seq<Ptr> { seq(HASH_SIZE, _ => NULL) }

  ghost function NoChains(): seq<seq<Ptr>> { seq(HASH_SIZE, _ => []) }

  function NoFirsts(first: map<nat, Ref>): map<nat, Ref> { map p | p in first :: NIL }

  ghost function NoRefs(lists: map<nat, seq<Ref>>): map<nat, seq<Ref>> { map p | p in lists :: [] }

  function NoBlocks(row: seq<Ptr>): seq<Ptr> { seq(|row|, _ => NULL) }

  lemma HashEmpty(info: map<Ptr, Info>, next: map<Ptr, Ptr>)
    ensures HashOk(info, NoHeads(), next, NoChains(), {})
  {
  }

  lemma PageEmpty(info: map<Ptr, Info>, first: map<nat, Ref>, next: map<Ref, Ref>, lists: map<nat, seq<Ref>>,
                  watched: set<nat>)
    requires first.Keys == lists.Keys
    ensures PageOk(info, NoFirsts(first), next, NoRefs(lists), {}, {}) && WatchOk(NoRefs(lists), watched)
            && BitmapsOk(info, NoRefs(lists), map[])
  {
  }

  lemma JumpEmpty(jmp: map<Ref, Ref>, target: map<Ref, Ptr>, goes: map<Ref, Ptr>)
    ensures JumpOk(jmp, target, map[], {}) && GoesOk(goes, target, {}, {})
  {
  }

  /** Rows of the same length, all null. */
  ghost predicate Cleared(cache: seq<seq<Ptr>>, cache': seq<seq<Ptr>>) {
    |cache'| == |cache| && forall k :: 0 <= k < |cache| ==> cache'[k] == NoBlocks(cache[k])
  }

  lemma CacheEmpty(info: map<Ptr, Info>, cache: seq<seq<Ptr>>, cache': seq<seq<Ptr>>, slot: nat -> nat)
    requires Cleared(cache, cache')
    ensures CacheOk(info, cache', slot, {})
  {
  }

  /** tb_flush. */
  method Flush(c: TbContext)
    requires c.Valid()
    modifies c`cache, c`hashHead, c`pageFirst, c`bitmaps, c`writes, c`live, c`known, c`rings, c`chains, c`lists
    ensures c.Valid() && c.live == {} && c.known == {} && c.bitmaps == map[]
    ensures c.hashHead == NoHeads() && Cleared(old(c.cache), c.cache)
  {
    hide BitmapsOk, HashOk, PageOk, JumpOk, GoesOk, CacheOk, WatchOk, NoHeads, Cleared;
    ClearRows(c);
    EmptyLists(c);
    CacheEmpty(c.info, old(c.cache), c.cache, c.slot);
  }

  /** The hash heads and the page lists are emptied. */
  method EmptyLists(c: TbContext)
    requires PageOk(c.info, c.pageFirst, c.pageNext, c.lists, c.live, {})
    modifies c`hashHead, c`pageFirst, c`bitmaps, c`writes, c`live, c`known, c`rings, c`chains, c`lists
    ensures HashOk(c.info, c.hashHead, c.hashNext, c.chains, c.live)
            && PageOk(c.info, c.pageFirst, c.pageNext, c.lists, c.live, {})
    ensures JumpOk(c.jmp, c.target, c.rings, c.known) && GoesOk(c.goes, c.target, c.known, c.live)
    ensures WatchOk(c.lists, c.watched) && BitmapsOk(c.info, c.lists, c.bitmaps)
    ensures c.live == {} && c.known == {} && c.bitmaps == map[] && c.hashHead == NoHeads()
  {
    hide BitmapsOk, HashOk, PageOk, JumpOk, GoesOk, WatchOk, NoHeads, NoChains, NoFirsts, NoRefs;
    PageNoKeys(c.info, c.pageFirst, c.pageNext, c.lists, c.live);
    HashEmpty(c.info, c.hashNext);
    PageEmpty(c.info, c.pageFirst, c.pageNext, c.lists, c.watched);
    JumpEmpty(c.jmp, c.target, c.goes);
    c.hashHead := NoHeads();
    c.pageFirst := NoFirsts(c.pageFirst);
    c.bitmaps, c.writes := map[], map[];
    c.live, c.known, c.rings, c.chains, c.lists := {}, {}, map[], NoChains(), NoRefs(c.lists);
  }

  /** The jump caches of all CPUs are cleared. */
  method ClearRows(c: TbContext)
    modifies c`cache
    ensures Cleared(old(c.cache), c.cache)
  {
    hide NoBlocks;
    for k := 0 to |c.cache|
      invariant |c.cache| == |old(c.cache)|
      invariant forall i :: 0 <= i < |c.cache| ==>
                  c.cache[i] == if i < k then NoBlocks(old(c.cache)[i]) else old(c.cache)[i]
    {
      c.cache := c.cache[k := NoBlocks(c.cache[k])];
    }
  }

  // ------------------------------------------------------------ looking up

  /** The block was made from this virtual address and CPU state. */
  predicate Keyed(i: Info, pc: nat, csBase: nat, flags: nat) { i.pc == pc && i.csBase == csBase && i.flags == flags }

  /** Its code is where the address translates to now: page gives physical pages. */
  predicate Located(i: Info, page: nat -> nat) {
    i.page0 == page(i.pc) && (i.page1 == -1 || i.page1 == page(i.pc - i.pc % PAGE + PAGE))
  }

  predicate Fits(i: Info, pc: nat, csBase: nat, flags: nat, page: nat -> nat) {
    Keyed(i, pc, csBase, flags) && Located(i, page)
  }

  /** No block of s fits. */
  ghost predicate NoneFits(info: map<Ptr, Info>, s: seq<Ptr>, pc: nat, csBase: nat, flags: nat, page: nat -> nat) {
    forall b :: b in s && b in info ==> !Fits(info[b], pc, csBase, flags, page)
  }

  ghost predicate AllIn(s: seq<Ptr>, live: set<Ptr>, info: map<Ptr, Info>) {
    forall k :: 0 <= k < |s| ==> s[k] in live && s[k] in info
  }

  lemma NoneMore(info: map<Ptr, Info>, s: seq<Ptr>, k: nat, pc: nat, csBase: nat, flags: nat, page: nat -> nat)
    requires k < |s| && NoneFits(info, s[..k], pc, csBase, flags, page) && s[k] in info
             && !Fits(info[s[k]], pc, csBase, flags, page)
    ensures NoneFits(info, s[..k + 1], pc, csBase, flags, page)
  {
    assert s[..k + 1] == s[..k] + [s[k]];
  }

  /** The chain walk of tb_find_slow: prev is the block whose link was followed last. */
  method Walk(c: TbContext, h: nat, pc: nat, csBase: nat, flags: nat, page: nat -> nat)
              returns (prev: Ptr, tb: Ptr, ghost k: nat)
    requires HashOk(c.info, c.hashHead, c.hashNext, c.chains, c.live) && h < HASH_SIZE
    ensures |c.chains| == HASH_SIZE && k <= |c.chains[h]| && prev == (if k == 0 then NULL else c.chains[h][k - 1])
    ensures tb == At(c.chains[h], NULL, k) && NoneFits(c.info, c.chains[h][..k], pc, csBase, flags, page)
    ensures tb == NULL <==> k == |c.chains[h]|
    ensures tb != NULL ==> tb in c.live && tb in c.info && Fits(c.info[tb], pc, csBase, flags, page)
  {
    hide HashOk, Fits, NoneFits;
    InChain(c.info, c.hashHead, c.hashNext, c.chains, c.live, h);
    ghost var s := c.chains[h];
    NoneFitsNone(c.info, s, pc, csBase, flags, page);
    k, prev, tb := 0, NULL, c.hashHead[h];
    while tb != NULL && !Fits(c.info[tb], pc, csBase, flags, page)
      invariant k <= |s| && prev == (if k == 0 then NULL else s[k - 1]) && tb == At(s, NULL, k)
      invariant NoneFits(c.info, s[..k], pc, csBase, flags, page)
      decreases |s| - k
    {
      NoneMore(c.info, s, k, pc, csBase, flags, page);
      prev, tb := tb, c.hashNext[tb];
      k := k + 1;
    }
  }

  lemma NoneFitsNone(info: map<Ptr, Info>, s: seq<Ptr>, pc: nat, csBase: nat, flags: nat, page: nat -> nat)
    ensures NoneFits(info, s[..0], pc, csBase, flags, page)
  {
  }

  lemma InChain(info: map<Ptr, Info>, head: seq<Ptr>, next: map<Ptr, Ptr>, chains: seq<seq<Ptr>>, live: set<Ptr>,
                h: nat)
    requires HashOk(info, head, next, chains, live) && h < HASH_SIZE
    ensures |chains| == |head| == HASH_SIZE && IsChain(next, NULL, head[h], chains[h]) && AllIn(chains[h], live, info)
  {
    hide IsChain, HashOf;
    forall k | 0 <= k < |chains[h]| ensures chains[h][k] in live && chains[h][k] in info {
      var tb := chains[h][k];
      assert tb in chains[h];
      assert tb in live;
    }
  }

  /** A live block that fits is on the chain that is walked. */
  lemma FitsChain(info: map<Ptr, Info>, head: seq<Ptr>, next: map<Ptr, Ptr>, chains: seq<seq<Ptr>>, live: set<Ptr>,
                  b: Ptr,
                  pc: nat, csBase: nat, flags: nat, page: nat -> nat)
    requires HashOk(info, head, next, chains, live) && b in live && b in info
    ensures |chains| == HASH_SIZE && (Fits(info[b], pc, csBase, flags, page) ==> b in chains[Bucket(pc, page)])
  {
    assert b in chains[HashOf(info[b])];
  }

  /** The hash of a physical address. */
  function Bucket(pc: nat, page: nat -> nat): (h: nat)
    ensures h < HASH_SIZE
  {
    (page(pc) * PAGE + pc % PAGE) / 4 % HASH_SIZE
  }

  lemma FitsBucket(i: Info, pc: nat, csBase: nat, flags: nat, page: nat -> nat)
    requires Fits(i, pc, csBase, flags, page)
    ensures HashOf(i) == Bucket(pc, page)
  {
  }

  lemma ToFront(info: map<Ptr, Info>, head: seq<Ptr>, next: map<Ptr, Ptr>, chains: seq<seq<Ptr>>, live: set<Ptr>,
                h: nat, tb: Ptr, k: nat)
    requires HashOk(info, head, next, chains, live) && tb in live && tb in info && h == HashOf(info[tb])
    requires |chains| == |head| == HASH_SIZE && k < |chains[h]| && chains[h][k] == tb
    ensures tb in next
    ensures var s := chains[h];
            var v, next1 := WriteHead(head[h], k, next[tb]), WriteNext(next, s, k, next[tb]);
            HashOk(info, head[h := tb], next1[tb := v], chains[h := [tb] + Without(s, k)], live)
  {
    HashDrop(info, head, next, chains, live, tb, k);
    hide HashOk, HashOf, Without;
    var s := chains[h];
    var v, next1 := WriteHead(head[h], k, next[tb]), WriteNext(next, s, k, next[tb]);
    HashAdd(info, head[h := v], next1, chains[h := Without(s, k)], live - {tb}, tb, info[tb]);
    assert info[tb := info[tb]] == info && live - {tb} + {tb} == live;
    assert head[h := v][h := tb] == head[h := tb]
           && chains[h := Without(s, k)][h := [tb] + Without(s, k)] == chains[h := [tb] + Without(s, k)];
  }

  /** The block at place k of its chain goes to the front of it. */
  method MoveToFront(c: TbContext, h: nat, prev: Ptr, tb: Ptr, ghost k: nat)
    requires HashOk(c.info, c.hashHead, c.hashNext, c.chains, c.live) && tb in c.live && tb in c.info
             && h == HashOf(c.info[tb])
    requires |c.chains| == |c.hashHead| == HASH_SIZE
    requires k < |c.chains[h]| && c.chains[h][k] == tb && prev == (if k == 0 then NULL else c.chains[h][k - 1])
    modifies c`hashHead, c`hashNext, c`chains
    ensures HashOk(c.info, c.hashHead, c.hashNext, c.chains, c.live)
    ensures c.chains == old(c.chains)[h := [tb] + Without(old(c.chains)[h], k)]
  {
    hide HashOk, HashOf, Without;
    ghost var s := c.chains[h];
    assert k > 0 ==> prev != NULL by { InChain(c.info, c.hashHead, c.hashNext, c.chains, c.live, h); }
    ToFront(c.info, c.hashHead, c.hashNext, c.chains, c.live, h, tb, k);
    WriteHash(c, h, prev, c.hashNext[tb]);
    c.hashNext := c.hashNext[tb := c.hashHead[h]];
    c.hashHead := c.hashHead[h := tb];
    c.chains := c.chains[h := [tb] + Without(s, k)];
    assert c.hashHead == old(c.hashHead)[h := tb];
  }

  /** *ptb1 = v. */
  method WriteHash(c: TbContext, h: nat, prev: Ptr, v: Ptr)
    requires h < |c.hashHead|
    modifies c`hashHead, c`hashNext
    ensures c.hashHead == if prev == NULL then old(c.hashHead)[h := v] else old(c.hashHead)
    ensures c.hashNext == if prev == NULL then old(c.hashNext) else old(c.hashNext)[prev := v]
  {
    if prev == NULL {
      c.hashHead := c.hashHead[h := v];
    } else {
      c.hashNext := c.hashNext[prev := v];
    }
  }

  /** tb_gen_code: a new block, in a flushed cache when the block table is full. */
  method GenCode(c: TbContext, i: Info, tb: Ptr, full: bool)
    requires c.Valid() && tb != NULL && (full || tb !in c.known) && i.page1 >= -1
    modifies c
    ensures c.Valid() && c.info == old(c.info)[tb := i]
    ensures c.live == (if full then {} else old(c.live)) + {tb} && c.known == (if full then {} else old(c.known)) + {tb}
    ensures c.invalidated == (full || old(c.invalidated))
    ensures if full then Cleared(old(c.cache), c.cache) else c.cache == old(c.cache)
    ensures Watches(old(c.watched), c.watched, Pages(i)) && c.target == Unset(old(c.target), tb)
    ensures |c.hashHead| == HASH_SIZE && c.hashHead[HashOf(i)] == tb && tb in c.hashNext
    ensures full ==> c.hashNext == old(c.hashNext)[tb := NULL]
    ensures !full ==> |old(c.hashHead)| == HASH_SIZE && c.hashNext == old(c.hashNext)[tb := old(c.hashHead)[HashOf(i)]]
  {
    hide BitmapsOk, HashOk, PageOk, JumpOk, GoesOk, CacheOk, WatchOk, HashOf, Linked, Unset, Cleared, Pages;
    HashSizes(c.info, c.hashHead, c.hashNext, c.chains, c.live);
    if full {
      Flush(c);
      c.invalidated := true;
    }
    HashSizes(c.info, c.hashHead, c.hashNext, c.chains, c.live);
    Link(c, tb, i);
  }

  /** No more than these pages are watched in addition. */
  ghost predicate Watches(watched: set<nat>, watched': set<nat>, pages: set<nat>) {
    watched <= watched' <= watched + pages
  }

  /** Some live block fits. */
  ghost predicate Available(info: map<Ptr, Info>, live: set<Ptr>, pc: nat, csBase: nat, flags: nat, page: nat -> nat) {
    exists b :: b in live && b in info && Fits(info[b], pc, csBase, flags, page)
  }

  /** The walk ends at a block exactly when one fits. */
  lemma Decided(info: map<Ptr, Info>, head: seq<Ptr>, next: map<Ptr, Ptr>, chains: seq<seq<Ptr>>, live: set<Ptr>,
                k: nat, tb: Ptr,
                pc: nat, csBase: nat, flags: nat, page: nat -> nat)
    requires HashOk(info, head, next, chains, live) && |chains| == HASH_SIZE && k <= |chains[Bucket(pc, page)]|
    requires NoneFits(info, chains[Bucket(pc, page)][..k], pc, csBase, flags, page)
             && (tb == NULL <==> k == |chains[Bucket(pc, page)]|)
    requires tb != NULL ==> tb in live && tb in info && Fits(info[tb], pc, csBase, flags, page)
    ensures tb != NULL <==> Available(info, live, pc, csBase, flags, page)
  {
    hide HashOk, Fits, Bucket;
    if tb == NULL {
      assert chains[Bucket(pc, page)][..k] == chains[Bucket(pc, page)];
      forall b | b in live && b in info ensures !Fits(info[b], pc, csBase, flags, page) {
        FitsChain(info, head, next, chains, live, b, pc, csBase, flags, page);
      }
    }
  }

  /** The block translated at pc: size bytes of guest code. */
  function Translated(pc: nat, csBase: nat, flags: nat, size: nat, page: nat -> nat): (i: Info)
    requires 0 < size <= PAGE
    ensures Fits(i, pc, csBase, flags, page) && i.page1 >= -1
    ensures i.size == size && (i.page1 == -1 <==> pc % PAGE + size <= PAGE)
  {
    var last := pc + size - 1;
    Info(pc, csBase, flags, size, page(pc),
         if last - last % PAGE != pc - pc % PAGE then page(last - last % PAGE) else -1)
  }

  /** If the block to be made runs on to a second page, that is another physical page. */
  ghost predicate TwoPages(pc: nat, size: nat, page: nat -> nat) {
    pc % PAGE + size > PAGE ==> page(pc) != page(pc - pc % PAGE + PAGE)
  }

  lemma Made(info: map<Ptr, Info>, live: set<Ptr>, nb: Ptr, full: bool, pc: nat, csBase: nat, flags: nat, size: nat,
             page: nat -> nat)
    requires 0 < size <= PAGE
    ensures var i := Translated(pc, csBase, flags, size, page);
            && i.size == size && i.page0 == page(pc)
            && i.page1 == (if pc % PAGE + size <= PAGE then -1 else page(pc - pc % PAGE + PAGE))
            && (TwoPages(pc, size, page) && AllSized(info, live) ==>
                 AllSized(info[nb := i], (if full then {} else live) + {nb}))
  {
  }

  /** tb stands at place k of chain h, where prev's link leads; or prev's link is null. */
  ghost predicate Linkable(next: map<Ptr, Ptr>, s: seq<Ptr>, prev: Ptr, tb: Ptr, k: nat) {
    || (k < |s| && s[k] == tb && prev == if k == 0 then NULL else s[k - 1])
    || (prev != NULL && prev in next && next[prev] == NULL && s != [] && s[0] == tb)
  }

  /** The end of tb_find_slow: whatever *ptb1 leads to moves to the front. */
  method Promote(c: TbContext, h: nat, prev: Ptr, tb: Ptr, ghost k: nat)
    requires HashOk(c.info, c.hashHead, c.hashNext, c.chains, c.live) && tb in c.live && tb in c.info
             && h == HashOf(c.info[tb])
    requires |c.chains| == |c.hashHead| == HASH_SIZE && Linkable(c.hashNext, c.chains[h], prev, tb, k)
    modifies c`hashHead, c`hashNext, c`chains
    ensures HashOk(c.info, c.hashHead, c.hashNext, c.chains, c.live)
    ensures forall g :: 0 <= g < HASH_SIZE && g != h ==> |c.chains| == HASH_SIZE && c.chains[g] == old(c.chains)[g]
    ensures |c.chains| == HASH_SIZE && c.chains[h] != [] && c.chains[h][0] == tb
  {
    hide HashOk, HashOf, Without;
    InChain(c.info, c.hashHead, c.hashNext, c.chains, c.live, h);
    var link := if prev == NULL then c.hashHead[h] else c.hashNext[prev];
    if link != NULL {
      MoveToFront(c, h, prev, tb, k);
    }
  }

  /** One entry of one row holds tb; the others are as before, or null after a flush. */
  ghost predicate Filled(cache: seq<seq<Ptr>>, cache': seq<seq<Ptr>>, flushed: bool, cpu: nat, i: nat, tb: Ptr) {
    && |cache'| == |cache|
    && (forall k :: 0 <= k < |cache| ==> |cache'[k]| == |cache[k]|)
    && forall k, j :: 0 <= k < |cache| && 0 <= j < |cache[k]| ==>
         cache'[k][j] == if k == cpu && j == i then tb else if flushed then NULL else cache[k][j]
  }

  lemma FilledFlushed(cache: seq<seq<Ptr>>, mid: seq<seq<Ptr>>, cache': seq<seq<Ptr>>, cpu: nat, i: nat, tb: Ptr)
    requires Cleared(cache, mid) && Filled(mid, cache', false, cpu, i, tb)
    ensures Filled(cache, cache', true, cpu, i, tb)
  {
  }

  lemma ClearedShape(cache: seq<seq<Ptr>>, mid: seq<seq<Ptr>>, cpu: nat)
    requires Cleared(cache, mid) && cpu < |cache|
    ensures |mid| == |cache| && |mid[cpu]| == |cache[cpu]|
  {
  }

  method Fill(c: TbContext, cpu: nat, tb: Ptr)
    requires CacheOk(c.info, c.cache, c.slot, c.live) && tb in c.live && tb in c.info
    requires cpu < |c.cache| && c.slot(c.info[tb].pc) < |c.cache[cpu]|
    modifies c`cache
    ensures CacheOk(c.info, c.cache, c.slot, c.live)
            && Filled(old(c.cache), c.cache, false, cpu, c.slot(c.info[tb].pc), tb)
  {
    var row: seq<Ptr> := c.cache[cpu][c.slot(c.info[tb].pc) := tb];
    c.cache := c.cache[cpu := row];
  }

  lemma LastLink(info: map<Ptr, Info>, head: seq<Ptr>, next: map<Ptr, Ptr>, chains: seq<seq<Ptr>>, live: set<Ptr>,
                 h: nat)
    requires HashOk(info, head, next, chains, live) && h < HASH_SIZE
    ensures |chains| == |head| == HASH_SIZE
    ensures var s := chains[h]; s != [] ==>
            s[|s| - 1] in live && s[|s| - 1] != NULL && s[|s| - 1] in next && next[s[|s| - 1]] == NULL
  {
    InChain(info, head, next, chains, live, h);
  }

  lemma HeadFirst(info: map<Ptr, Info>, head: seq<Ptr>, next: map<Ptr, Ptr>, chains: seq<seq<Ptr>>, live: set<Ptr>,
                  h: nat)
    requires HashOk(info, head, next, chains, live) && h < HASH_SIZE
    ensures |chains| == |head| == HASH_SIZE
    ensures head[h] != NULL ==> chains[h] != [] && chains[h][0] == head[h]
  {
    InChain(info, head, next, chains, live, h);
  }

  /** The not-found path: the new block is in place, and prev's link is where it was. */
  method Generate(c: TbContext, h: nat, prev: Ptr, pc: nat, csBase: nat, flags: nat, page: nat -> nat, tb: Ptr,
                  size: nat, full: bool)
    requires c.Valid() && tb != NULL && (full || tb !in c.known) && 0 < size <= PAGE && h == Bucket(pc, page)
             && |c.chains| == HASH_SIZE
    requires prev == if c.chains[h] == [] then NULL else c.chains[h][|c.chains[h]| - 1]
    modifies c
    ensures c.Valid() && c.info == old(c.info)[tb := Translated(pc, csBase, flags, size, page)]
    ensures c.live == (if full then {} else old(c.live)) + {tb} && c.known == (if full then {} else old(c.known)) + {tb}
    ensures c.invalidated == (full || old(c.invalidated))
    ensures if full then Cleared(old(c.cache), c.cache) else c.cache == old(c.cache)
    ensures |c.chains| == |c.hashHead| == HASH_SIZE && Linkable(c.hashNext, c.chains[h], prev, tb, 0)
    ensures Watches(old(c.watched), c.watched, Pages(c.info[tb])) && c.target == Unset(old(c.target), tb)
  {
    hide BitmapsOk, HashOk, PageOk, JumpOk, GoesOk, CacheOk, WatchOk, HashOf, Bucket, Cleared, Fits, Translated,
         Watches, Pages, Unset;
    LastLink(c.info, c.hashHead, c.hashNext, c.chains, c.live, h);
    var i := Translated(pc, csBase, flags, size, page);
    FitsBucket(i, pc, csBase, flags, page);
    GenCode(c, i, tb, full);
    HeadFirst(c.info, c.hashHead, c.hashNext, c.chains, c.live, h);
  }

  /** The block that fits, found or made, and where it stands in its chain. */
  method Obtain(c: TbContext, cpu: nat, pc: nat, csBase: nat, flags: nat, page: nat -> nat, nb: Ptr, size: nat,
                full: bool) returns (tb: Ptr, h: nat, prev: Ptr, ghost k: nat)
    requires c.Valid() && !c.invalidated && cpu < |c.cache|
    requires nb != NULL && (full || nb !in c.known) && 0 < size <= PAGE
    modifies c
    ensures c.Valid() && tb in c.live && tb in c.info && Fits(c.info[tb], pc, csBase, flags, page)
    ensures Available(old(c.info), old(c.live), pc, csBase, flags, page) ==>
              && c.live == old(c.live) && c.known == old(c.known) && c.info == old(c.info) && !c.invalidated
              && c.target == old(c.target)
    ensures !Available(old(c.info), old(c.live), pc, csBase, flags, page) ==>
              && tb == nb && c.info == old(c.info)[nb := Translated(pc, csBase, flags, size, page)]
              && c.invalidated == full && c.live == (if full then {} else old(c.live)) + {nb}
              && c.known == (if full then {} else old(c.known)) + {nb} && c.target == Unset(old(c.target), nb)
    ensures if c.invalidated then Cleared(old(c.cache), c.cache) else c.cache == old(c.cache)
    ensures cpu < |c.cache| && |c.cache[cpu]| == |old(c.cache)[cpu]|
    ensures |c.chains| == |c.hashHead| == HASH_SIZE && h < HASH_SIZE && Linkable(c.hashNext, c.chains[h], prev, tb, k)
    ensures h == HashOf(c.info[tb]) && c.info[tb].pc == pc
    ensures Watches(old(c.watched), c.watched, Pages(c.info[tb]))
  {
    hide BitmapsOk, HashOk, PageOk, JumpOk, GoesOk, CacheOk, WatchOk, HashOf, Fits, NoneFits, Bucket, Cleared,
         Linkable, Available, Translated, Watches, Pages, Unset;
    WatchesSame(c.watched);
    h := Bucket(pc, page);
    prev, tb, k := Walk(c, h, pc, csBase, flags, page);
    Decided(c.info, c.hashHead, c.hashNext, c.chains, c.live, k, tb, pc, csBase, flags, page);
    HashSizes(c.info, c.hashHead, c.hashNext, c.chains, c.live);
    if tb == NULL {
      tb, k := nb, 0;
      Generate(c, h, prev, pc, csBase, flags, page, nb, size, full);
      if full { ClearedShape(old(c.cache), c.cache, cpu); }
    } else {
      LinkableAt(c.hashNext, c.chains[h], prev, tb, k);
    }
    FitsBucket(c.info[tb], pc, csBase, flags, page);
    FitsPc(c.info[tb], pc, csBase, flags, page);
  }

  /** tb_find_slow. The new block, if one is needed, is nb with size bytes of code;
      full says that the block table or the code buffer is. */
  method FindSlow(c: TbContext, cpu: nat, pc: nat, csBase: nat, flags: nat, page: nat -> nat, nb: Ptr, size: nat,
                  full: bool) returns (tb: Ptr)
    requires c.Valid() && cpu < |c.cache| && c.slot(pc) < |c.cache[cpu]|
    requires nb != NULL && (full || nb !in c.known) && 0 < size <= PAGE
    modifies c
    ensures c.Valid() && tb in c.live && tb in c.info && Fits(c.info[tb], pc, csBase, flags, page)
    ensures Available(old(c.info), old(c.live), pc, csBase, flags, page) ==>
              && c.live == old(c.live) && c.known == old(c.known) && c.info == old(c.info) && !c.invalidated
              && c.target == old(c.target)
    ensures !Available(old(c.info), old(c.live), pc, csBase, flags, page) ==>
              && tb == nb && c.info == old(c.info)[nb := Translated(pc, csBase, flags, size, page)]
              && c.invalidated == full && c.live == (if full then {} else old(c.live)) + {nb}
              && c.known == (if full then {} else old(c.known)) + {nb} && c.target == Unset(old(c.target), nb)
              && c.info[nb].size == size && c.info[nb].page0 == page(pc)
              && c.info[nb].page1 == if pc % PAGE + size <= PAGE then -1 else page(pc - pc % PAGE + PAGE)
    ensures AllSized(old(c.info), old(c.live)) && TwoPages(pc, size, page) ==> AllSized(c.info, c.live)
    ensures Filled(old(c.cache), c.cache, c.invalidated, cpu, c.slot(pc), tb)
    ensures var h := HashOf(c.info[tb]); |c.chains| == HASH_SIZE && c.chains[h] != [] && c.chains[h][0] == tb
    ensures Watches(old(c.watched), c.watched, Pages(c.info[tb]))
  {
    hide BitmapsOk, HashOk, PageOk, JumpOk, GoesOk, CacheOk, WatchOk, HashOf, Fits, Cleared, Filled, Linkable,
         Available, Translated, Watches, Pages, Unset, AllSized, TwoPages;
    c.invalidated := false;
    var h, prev;
    ghost var k;
    tb, h, prev, k := Obtain(c, cpu, pc, csBase, flags, page, nb, size, full);
    Settle(c, cpu, h, prev, tb, k, old(c.cache));
    Made(old(c.info), old(c.live), nb, full, pc, csBase, flags, size, page);
  }

  /** The found block moves to the front of its chain and into the jump cache. */
  method Settle(c: TbContext, cpu: nat, h: nat, prev: Ptr, tb: Ptr, ghost k: nat, ghost before: seq<seq<Ptr>>)
    requires HashOk(c.info, c.hashHead, c.hashNext, c.chains, c.live) && CacheOk(c.info, c.cache, c.slot, c.live)
    requires tb in c.live && tb in c.info && h == HashOf(c.info[tb]) && cpu < |c.cache|
             && c.slot(c.info[tb].pc) < |c.cache[cpu]|
    requires |c.chains| == |c.hashHead| == HASH_SIZE && Linkable(c.hashNext, c.chains[h], prev, tb, k)
    requires if c.invalidated then Cleared(before, c.cache) else c.cache == before
    modifies c`hashHead, c`hashNext, c`chains, c`cache
    ensures HashOk(c.info, c.hashHead, c.hashNext, c.chains, c.live) && CacheOk(c.info, c.cache, c.slot, c.live)
    ensures Filled(before, c.cache, c.invalidated, cpu, c.slot(c.info[tb].pc), tb)
    ensures |c.chains| == HASH_SIZE && c.chains[h] != [] && c.chains[h][0] == tb
  {
    hide HashOk, CacheOk, HashOf, Cleared, Filled, Linkable;
    ghost var mid := c.cache;
    Promote(c, h, prev, tb, k);
    Fill(c, cpu, tb);
    if c.invalidated { FilledFlushed(before, mid, c.cache, cpu, c.slot(c.info[tb].pc), tb); }
  }

  lemma WatchesSame(watched: set<nat>)
    ensures forall pages :: Watches(watched, watched, pages)
  {
  }

  lemma LinkableAt(next: map<Ptr, Ptr>, s: seq<Ptr>, prev: Ptr, tb: Ptr, k: nat)
    requires k < |s| && s[k] == tb && prev == if k == 0 then NULL else s[k - 1]
    ensures Linkable(next, s, prev, tb, k)
  {
  }

  lemma FitsPc(i: Info, pc: nat, csBase: nat, flags: nat, page: nat -> nat)
    requires Fits(i, pc, csBase, flags, page)
    ensures i.pc == pc
  {
  }

  /** Every block in a CPU's jump cache is where its address translates to now. */
  ghost predicate CacheAgrees(info: map<Ptr, Info>, row: seq<Ptr>, page: nat -> nat) {
    forall i :: 0 <= i < |row| && row[i] != NULL && row[i] in info ==> Located(info[row[i]], page)
  }

  /** tb_find_fast. */
  method FindFast(c: TbContext, cpu: nat, pc: nat, csBase: nat, flags: nat, page: nat -> nat, nb: Ptr, size: nat,
                  full: bool) returns (tb: Ptr)
    requires c.Valid() && cpu < |c.cache| && c.slot(pc) < |c.cache[cpu]|
    requires nb != NULL && (full || nb !in c.known) && 0 < size <= PAGE
    modifies c
    ensures c.Valid() && tb in c.live && tb in c.info && Keyed(c.info[tb], pc, csBase, flags)
    ensures CacheAgrees(old(c.info), old(c.cache)[cpu], page) ==>
              Fits(c.info[tb], pc, csBase, flags, page) && cpu < |c.cache| && CacheAgrees(c.info, c.cache[cpu], page)
    ensures !c.invalidated ==> c.known >= old(c.known)
    ensures var hit := old(c.cache)[cpu][c.slot(pc)];
            hit != NULL && hit in old(c.info) && Keyed(old(c.info)[hit], pc, csBase, flags) ==>
              && tb == hit && c.info == old(c.info) && c.live == old(c.live) && c.cache == old(c.cache)
              && c.target == old(c.target) && c.invalidated == old(c.invalidated)
    ensures !old(c.invalidated) && !full ==> !c.invalidated
    ensures c.target == old(c.target) || (tb == nb && c.target == Unset(old(c.target), nb))
    ensures tb == nb && c.target != old(c.target) ==> c.invalidated == full
    ensures AllSized(old(c.info), old(c.live)) && TwoPages(pc, size, page) ==> AllSized(c.info, c.live)
  {
    hide BitmapsOk, HashOk, PageOk, JumpOk, GoesOk, WatchOk, Located, Available, Translated, AllSized, TwoPages,
         Unset, HashOf;
    tb := c.cache[cpu][c.slot(pc)];
    if tb == NULL || !Keyed(c.info[tb], pc, csBase, flags) {
      tb := FindSlow(c, cpu, pc, csBase, flags, page, nb, size, full);
    }
  }

  /** One turn of the execution loop up to running the block: find it, forget the
      previous block when something was invalidated meanwhile, and chain the exit
      the previous block took to it. */
  method NextBlock(c: TbContext, cpu: nat, last: Ref, pc: nat, csBase: nat, flags: nat, page: nat -> nat, nb: Ptr,
                   size: nat, full: bool)
    returns (tb: Ptr, next: Ref)
    requires c.Valid() && cpu < |c.cache| && c.slot(pc) < |c.cache[cpu]|
    requires nb != NULL && (full || nb !in c.known) && 0 < size <= PAGE
    requires last != NIL ==> last.tb in c.known && last.tag < 2
    modifies c
    ensures c.Valid() && !c.invalidated && tb in c.live && tb in c.info && Keyed(c.info[tb], pc, csBase, flags)
    ensures next == last || next == NIL
    ensures !old(c.invalidated) && !full ==> next == last
    ensures next != NIL && c.info[tb].page1 == -1 && next in old(c.target) && old(c.target)[next] == NULL ==>
              next in c.target && c.target[next] == tb
    ensures next != NIL ==>
              next.tb in c.known && next in c.target && next in c.goes
              && (c.info[tb].page1 == -1 ==> c.target[next] != NULL)
    ensures next != NIL && c.target[next] != NULL ==> c.goes[next] == c.target[next] && c.goes[next] in c.live
    ensures AllSized(old(c.info), old(c.live)) && TwoPages(pc, size, page) ==> AllSized(c.info, c.live)
  {
    hide BitmapsOk, HashOk, PageOk, JumpOk, CacheOk, WatchOk, Fits, Keyed, Located, Available, CacheAgrees, AllSized,
         TwoPages;
    tb := FindFast(c, cpu, pc, csBase, flags, page, nb, size, full);
    LiveInfo(c.info, c.hashHead, c.hashNext, c.chains, c.live, tb);
    next := last;
    if c.invalidated {
      next := NIL;
      c.invalidated := false;
    }
    if next != NIL && c.info[tb].page1 == -1 {
      AddJump(c, next, tb);
    }
    if next != NIL { assert GoOk(c.goes, c.target, c.live, next); }
  }

  // ------------------------------------------------------------ forgetting

  /** A row without the n entries from the given one on. */
  function Erased(row: seq<Ptr>, from: nat, n: nat): (r: seq<Ptr>)
    ensures |r| == |row| && forall i :: 0 <= i < |row| ==> r[i] == if from <= i < from + n then NULL else row[i]
  {
    seq(|row|, i requires 0 <= i < |row| => if from <= i < from + n then NULL else row[i])
  }

  /** A CPU's jump cache loses the n entries from the given one on. */
  method Forget(c: TbContext, cpu: nat, from: nat, n: nat)
    requires c.Valid() && cpu < |c.cache|
    modifies c`cache
    ensures c.Valid() && c.cache == old(c.cache)[cpu := Erased(old(c.cache)[cpu], from, n)]
  {
    hide BitmapsOk, HashOk, PageOk, JumpOk, GoesOk, CacheOk, WatchOk, Erased;
    CacheErased(c.info, c.cache, c.slot, c.live, cpu, from, n);
    c.cache := c.cache[cpu := Erased(c.cache[cpu], from, n)];
  }

  lemma CacheErased(info: map<Ptr, Info>, cache: seq<seq<Ptr>>, slot: nat -> nat, live: set<Ptr>, cpu: nat,
                    from: nat, n: nat)
    requires CacheOk(info, cache, slot, live) && cpu < |cache|
    ensures CacheOk(info, cache[cpu := Erased(cache[cpu], from, n)], slot, live)
  {
  }
}
