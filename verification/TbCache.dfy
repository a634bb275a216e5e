/** The translation-block cache (translate-all.c, cpu-exec.c): one set of blocks
    threaded through hash chains, per-page lists, circular jump lists and the
    CPUs' jump caches. Pointer fields are kept one map per field; a Ref is a block
    pointer with the tag held in its two low bits. */
module TbCache {
  import opened Machine
  import opened Chains
  import Bytes

  const HASH_SIZE := 0x8000

  datatype Ref = Ref(tb: Ptr, tag: nat)
  const NIL: Ref := Ref(NULL, 0)

  /** What identifies a block: page1 is -1 when it lies in one page. */
  datatype Info = Info(pc: nat, csBase: nat, flags: nat, size: nat, page0: nat, page1: int)

  /** tb_phys_hash_func of the block's physical address. */
  function HashOf(i: Info): (h: nat)
    ensures h < HASH_SIZE
  {
    (i.page0 * PAGE + i.pc % PAGE) / 4 % HASH_SIZE
  }

  /** The block is on page p's list with this tag. */
  predicate OnPage(i: Info, tag: nat, p: nat) { (tag == 0 && i.page0 == p) || (tag == 1 && i.page1 == p) }

  /** The pages the block has code on. */
  function Pages(i: Info): set<nat> { if i.page1 >= 0 then {i.page0, i.page1} else {i.page0} }

  /** A block of at most a page of code; page1 is its second page, if it has one. */
  ghost predicate Sized(i: Info) {
    0 < i.size <= PAGE && i.page1 >= -1 && i.page1 != i.page0 && (i.page1 == -1 <==> i.pc % PAGE + i.size <= PAGE)
  }

  ghost predicate AllSized(info: map<Ptr, Info>, live: set<Ptr>) {
    forall tb :: tb in live ==> tb in info && Sized(info[tb])
  }

  // ------------------------------------------------------------ the structures

  /** Every chain holds exactly the live blocks that hash to it. */
  ghost predicate HashOk(info: map<Ptr, Info>, head: seq<Ptr>, next: map<Ptr, Ptr>, chains: seq<seq<Ptr>>,
                         live: set<Ptr>) {
    HashChains(head, next, chains) && HashMembers(info, chains, live)
  }

  ghost predicate HashChains(head: seq<Ptr>, next: map<Ptr, Ptr>, chains: seq<seq<Ptr>>) {
    |head| == |chains| == HASH_SIZE && forall h :: 0 <= h < HASH_SIZE ==> IsChain(next, NULL, head[h], chains[h])
  }

  ghost predicate HashMembers(info: map<Ptr, Info>, chains: seq<seq<Ptr>>, live: set<Ptr>) {
    && |chains| == HASH_SIZE && live <= info.Keys && NULL !in live
    && (forall h, tb :: 0 <= h < HASH_SIZE && tb in chains[h] ==> tb in live && HashOf(info[tb]) == h)
    && (forall tb :: tb in live ==> tb in chains[HashOf(info[tb])])
  }

  /** Every page's list holds exactly the live blocks with code on it, tagged with
      which of their two pages it is; references in `gone` are already off. */
  ghost predicate PageOk(info: map<Ptr, Info>, first: map<nat, Ref>, next: map<Ref, Ref>, lists: map<nat, seq<Ref>>,
                         live: set<Ptr>, gone: set<Ref>) {
    PageChains(first, next, lists) && PageMembers(info, lists, live, gone) && AllListed(info, lists, live, gone)
  }

  ghost predicate PageChains(first: map<nat, Ref>, next: map<Ref, Ref>, lists: map<nat, seq<Ref>>) {
    first.Keys == lists.Keys && forall p :: p in lists ==> IsChain(next, NIL, first[p], lists[p])
  }

  ghost predicate PageMembers(info: map<Ptr, Info>, lists: map<nat, seq<Ref>>, live: set<Ptr>, gone: set<Ref>) {
    && live <= info.Keys && NULL !in live
    && forall p, r :: p in lists && r in lists[p] ==> r.tb in live && OnPage(info[r.tb], r.tag, p) && r !in gone
  }

  ghost predicate AllListed(info: map<Ptr, Info>, lists: map<nat, seq<Ref>>, live: set<Ptr>, gone: set<Ref>) {
    && live <= info.Keys
    && (forall tb :: tb in live ==> Listed(info[tb].page0, lists, gone, Ref(tb, 0)))
    && (forall tb :: tb in live && info[tb].page1 != -1 ==> Listed(info[tb].page1, lists, gone, Ref(tb, 1)))
  }

  ghost predicate Listed(p: int, lists: map<nat, seq<Ref>>, gone: set<Ref>, r: Ref) {
    p >= 0 && (r !in gone ==> p in lists && r in lists[p])
  }

  /** A circular list: tag 2 goes through jmp_first, tags 0 and 1 through jmp_next. */
  ghost predicate IsRing(jmp: map<Ref, Ref>, s: seq<Ref>) {
    && |s| > 0 && Unique(s)
    && forall i :: 0 <= i < |s| ==> s[i] in jmp && jmp[s[i]] == Succ(s, i)
  }

  ghost function Succ(s: seq<Ref>, i: nat): Ref
    requires |s| > 0
  {
    if i + 1 < |s| then s[i + 1] else s[0]
  }

  /** Block t's ring: itself, then every jump chained to it. */
  ghost predicate RingOf(jmp: map<Ref, Ref>, target: map<Ref, Ptr>, known: set<Ptr>, t: Ptr, s: seq<Ref>) {
    && IsRing(jmp, s) && s[0] == Ref(t, 2)
    && forall i :: 0 < i < |s| ==> s[i].tag < 2 && s[i].tb in known && s[i] in target && target[s[i]] == t
  }

  /** Each jump of a live block is on the ring of the block it is chained to, or
      its link is null. */
  ghost predicate SlotOk(jmp: map<Ref, Ref>, target: map<Ref, Ptr>, rings: map<Ptr, seq<Ref>>, r: Ref) {
    && r in jmp && r in target
    && (target[r] == NULL ==> jmp[r] == NIL)
    && (target[r] != NULL ==> target[r] in rings && r in rings[target[r]])
  }

  ghost predicate JumpOk(jmp: map<Ref, Ref>, target: map<Ref, Ptr>, rings: map<Ptr, seq<Ref>>, known: set<Ptr>) {
    NULL !in known && RingsOk(jmp, target, rings, known) && SlotsOk(jmp, target, rings, known)
  }

  /** A chained jump leads to its target, which is live; a live block's other jumps
      leave the generated code. (Removing a block unchains its jumps but does not
      reset them.) */
  ghost predicate GoesOk(goes: map<Ref, Ptr>, target: map<Ref, Ptr>, known: set<Ptr>, live: set<Ptr>) {
    forall r: Ref :: r.tb in known && r.tag < 2 ==> GoOk(goes, target, live, r)
  }

  ghost predicate GoOk(goes: map<Ref, Ptr>, target: map<Ref, Ptr>, live: set<Ptr>, r: Ref) {
    && r in goes && r in target
    && (target[r] != NULL ==> target[r] in live)
    && (target[r] != NULL || r.tb in live ==> goes[r] == target[r])
  }

  /** The jump caches point to live blocks, each in the slot of its pc. */
  ghost predicate CacheOk(info: map<Ptr, Info>, cache: seq<seq<Ptr>>, slot: nat -> nat, live: set<Ptr>) {
    forall c, i :: 0 <= c < |cache| && 0 <= i < |cache[c]| && cache[c][i] != NULL ==>
      cache[c][i] in live && cache[c][i] in info && slot(info[cache[c][i]].pc) == i
  }

  /** A page with code on it is watched. */
  ghost predicate WatchOk(lists: map<nat, seq<Ref>>, watched: set<nat>) {
    forall p :: p in lists && lists[p] != [] ==> p in watched
  }

  /** The block has a byte at offset o of the page it lists with this tag. */
  predicate Covers(i: Info, tag: nat, o: nat) {
    if tag == 0 then i.pc % PAGE <= o < i.pc % PAGE + i.size else o < (i.pc + i.size) % PAGE
  }

  predicate Bit(b: bv8, k: nat)
    requires k < 8
  {
    (b >> k) & 1 == 1
  }

  /** Bit o of a bitmap. */
  predicate BitAt(bm: seq<bv8>, o: nat) { o / 8 < |bm| && Bit(bm[o / 8], o % 8) }

  ghost predicate Covered(info: map<Ptr, Info>, s: seq<Ref>, o: nat) {
    exists r :: r in s && r.tb in info && Covers(info[r.tb], r.tag, o)
  }

  /** Exactly the offsets with code on them are marked. */
  ghost predicate IsBitmap(info: map<Ptr, Info>, s: seq<Ref>, bm: seq<bv8>) {
    |bm| == PAGE / 8 && forall o :: 0 <= o < PAGE ==> (BitAt(bm, o) <==> Covered(info, s, o))
  }

  ghost predicate BitmapsOk(info: map<Ptr, Info>, lists: map<nat, seq<Ref>>, bitmaps: map<nat, seq<bv8>>) {
    forall p :: p in bitmaps ==> p in lists && IsBitmap(info, lists[p], bitmaps[p])
  }

  // ------------------------------------------------------------ rings

  /** A ring without its k-th element (k > 0). */
  lemma RingRemove(jmp: map<Ref, Ref>, s: seq<Ref>, k: nat)
    requires IsRing(jmp, s) && 0 < k < |s|
    ensures s[k] in jmp
    ensures IsRing(jmp[s[k - 1] := jmp[s[k]]][s[k] := NIL], Without(s, k))
  {
    var t := Without(s, k);
    var jmp' := jmp[s[k - 1] := jmp[s[k]]][s[k] := NIL];
    WithoutUnique(s, k);
    forall i | 0 <= i < |t|
      ensures t[i] in jmp' && jmp'[t[i]] == Succ(t, i)
    {
      RingRemoveAt(jmp, s, k, i);
    }
  }

  lemma RingRemoveAt(jmp: map<Ref, Ref>, s: seq<Ref>, k: nat, i: nat)
    requires IsRing(jmp, s) && 0 < k < |s| && i + 1 < |s|
    ensures s[k] in jmp
    ensures var t, jmp' := Without(s, k), jmp[s[k - 1] := jmp[s[k]]][s[k] := NIL];
            t[i] in jmp' && jmp'[t[i]] == Succ(t, i)
  {
    var t, j := Without(s, k), if i < k then i else i + 1;
    assert t[i] == s[j] && s[j] != s[k];
    assert jmp[s[j]] == Succ(s, j) && jmp[s[k]] == Succ(s, k);
    if i != k - 1 { assert s[j] != s[k - 1]; }
  }

  /** A ring with x right after its first element. */
  lemma RingInsert(jmp: map<Ref, Ref>, s: seq<Ref>, x: Ref)
    requires IsRing(jmp, s) && x !in s
    ensures IsRing(jmp[x := jmp[s[0]]][s[0] := x], [s[0], x] + s[1..])
  {
    var t := [s[0], x] + s[1..];
    var jmp' := jmp[x := jmp[s[0]]][s[0] := x];
    forall i | 0 <= i < |t|
      ensures t[i] in jmp' && jmp'[t[i]] == Succ(t, i)
    {
      if i >= 2 {
        assert t[i] == s[i - 1] && s[i - 1] != s[0];
        assert jmp'[t[i]] == Succ(s, i - 1);
      } else {
        assert jmp[s[0]] == Succ(s, 0);
      }
    }
    forall i, j | 0 <= i < j < |t| ensures t[i] != t[j] {
      if i >= 2 { assert t[i] == s[i - 1]; }
      if j >= 2 { assert t[j] == s[j - 1]; }
    }
  }

  lemma RingFrame(jmp: map<Ref, Ref>, jmp': map<Ref, Ref>, s: seq<Ref>)
    requires IsRing(jmp, s)
    requires forall x :: x in s && x in jmp ==> x in jmp' && jmp'[x] == jmp[x]
    ensures IsRing(jmp', s)
  {
  }

  /** A jump is on the ring of its own target only. */
  lemma OneRing(jmp: map<Ref, Ref>, target: map<Ref, Ptr>, known: set<Ptr>, t: Ptr, s: seq<Ref>, r: Ref)
    requires RingOf(jmp, target, known, t, s)
    ensures r in s ==> r == Ref(t, 2) || (r.tag < 2 && r in target && target[r] == t)
  {
  }

  /** Another block's ring does not notice. */
  lemma OtherRing(jmp: map<Ref, Ref>, target: map<Ref, Ptr>, known: set<Ptr>, t: Ptr, s: seq<Ref>, u: Ptr, w: seq<Ref>,
                  jmp': map<Ref, Ref>, target': map<Ref, Ptr>)
    requires RingOf(jmp, target, known, t, s) && RingOf(jmp, target, known, u, w) && u != t
    requires forall x :: x in jmp && x !in s ==> x in jmp' && jmp'[x] == jmp[x]
    requires forall x :: x in target && x !in s ==> x in target' && target'[x] == target[x]
    ensures RingOf(jmp', target', known, u, w)
  {
    forall x | x in w ensures x !in s {
      OneRing(jmp, target, known, u, w, x);
      OneRing(jmp, target, known, t, s, x);
    }
    RingFrame(jmp, jmp', w);
  }

  lemma ShorterRing(jmp: map<Ref, Ref>, target: map<Ref, Ptr>, known: set<Ptr>, t: Ptr, s: seq<Ref>, k: nat)
    requires RingOf(jmp, target, known, t, s) && 0 < k < |s|
    ensures s[k - 1] in jmp && s[k] in jmp
    ensures RingOf(jmp[s[k - 1] := jmp[s[k]]][s[k] := NIL], target[s[k] := NULL], known, t, Without(s, k))
  {
    RingRemove(jmp, s, k);
    var w := Without(s, k);
    assert w[0] == s[0];
    forall i | 0 < i < |w|
      ensures w[i].tag < 2 && w[i].tb in known && w[i] in target && target[w[i]] == t && w[i] != s[k]
    {
      assert w[i] == s[if i < k then i else i + 1];
    }
  }

  lemma OtherSlot(jmp: map<Ref, Ref>, target: map<Ref, Ptr>, rings: map<Ptr, seq<Ref>>, known: set<Ptr>, r: Ref,
                  k: nat, q: Ref)
    requires target.Keys >= {r} && target[r] in rings && 0 < k < |rings[target[r]]| && rings[target[r]][k] == r
    requires RingOf(jmp, target, known, target[r], rings[target[r]]) && r in jmp && rings[target[r]][k - 1] in jmp
    requires SlotOk(jmp, target, rings, q) && target[r] != NULL && q.tag < 2
    ensures var t, s := target[r], rings[target[r]];
            SlotOk(jmp[s[k - 1] := jmp[r]][r := NIL], target[r := NULL], rings[t := Without(s, k)], q)
  {
    var t, s := target[r], rings[target[r]];
    if q != r && target[q] == t { WithoutMembers(s, k, q); }
    if q != r && target[q] == NULL { OneRing(jmp, target, known, t, s, s[k - 1]); }
  }

  ghost predicate RingsOk(jmp: map<Ref, Ref>, target: map<Ref, Ptr>, rings: map<Ptr, seq<Ref>>, known: set<Ptr>) {
    rings.Keys == known && forall t :: t in known ==> RingOf(jmp, target, known, t, rings[t])
  }

  ghost predicate SlotsOk(jmp: map<Ref, Ref>, target: map<Ref, Ptr>, rings: map<Ptr, seq<Ref>>, known: set<Ptr>) {
    forall tb :: tb in known ==> SlotOk(jmp, target, rings, Ref(tb, 0)) && SlotOk(jmp, target, rings, Ref(tb, 1))
  }

  /** Detaching jump r at place k of its target's ring. */
  ghost predicate Detachable(jmp: map<Ref, Ref>, target: map<Ref, Ptr>, rings: map<Ptr, seq<Ref>>, known: set<Ptr>,
                             r: Ref, k: nat) {
    && r.tb in known && r.tag < 2 && r in target && target[r] != NULL && r in jmp
    && target[r] in rings && 0 < k < |rings[target[r]]| && rings[target[r]][k] == r && rings[target[r]][k - 1] in jmp
  }

  lemma DetachOther(jmp: map<Ref, Ref>, target: map<Ref, Ptr>, known: set<Ptr>, t: Ptr, s: seq<Ref>, k: nat, u: Ptr,
                    w: seq<Ref>)
    requires RingOf(jmp, target, known, t, s) && RingOf(jmp, target, known, u, w) && u != t && 0 < k < |s|
             && s[k] in jmp && s[k - 1] in jmp
    ensures RingOf(jmp[s[k - 1] := jmp[s[k]]][s[k] := NIL], target[s[k] := NULL], known, u, w)
  {
    hide RingOf;
    assert s[k - 1] in s && s[k] in s;
    OtherRing(jmp, target, known, t, s, u, w, jmp[s[k - 1] := jmp[s[k]]][s[k] := NIL], target[s[k] := NULL]);
  }

  lemma DetachRings(jmp: map<Ref, Ref>, target: map<Ref, Ptr>, rings: map<Ptr, seq<Ref>>, known: set<Ptr>, r: Ref,
                    k: nat)
    requires RingsOk(jmp, target, rings, known) && Detachable(jmp, target, rings, known, r, k)
    ensures var t, s := target[r], rings[target[r]];
            RingsOk(jmp[s[k - 1] := jmp[r]][r := NIL], target[r := NULL], rings[t := Without(s, k)], known)
  {
    hide RingOf, Without;
    var t, s := target[r], rings[target[r]];
    var jmp', target' := jmp[s[k - 1] := jmp[r]][r := NIL], target[r := NULL];
    ShorterRing(jmp, target, known, t, s, k);
    forall u | u in known && u != t ensures RingOf(jmp', target', known, u, rings[u]) {
      DetachOther(jmp, target, known, t, s, k, u, rings[u]);
    }
  }

  lemma DetachSlots(jmp: map<Ref, Ref>, target: map<Ref, Ptr>, rings: map<Ptr, seq<Ref>>, known: set<Ptr>, r: Ref,
                    k: nat)
    requires RingsOk(jmp, target, rings, known) && SlotsOk(jmp, target, rings, known)
             && Detachable(jmp, target, rings, known, r, k)
    ensures var t, s := target[r], rings[target[r]];
            SlotsOk(jmp[s[k - 1] := jmp[r]][r := NIL], target[r := NULL], rings[t := Without(s, k)], known)
  {
    var t, s := target[r], rings[target[r]];
    var jmp', target', rings' := jmp[s[k - 1] := jmp[r]][r := NIL], target[r := NULL], rings[t := Without(s, k)];
    hide RingOf, SlotOk, Without;
    forall tb | tb in known
      ensures SlotOk(jmp', target', rings', Ref(tb, 0)) && SlotOk(jmp', target', rings', Ref(tb, 1))
    {
      OtherSlot(jmp, target, rings, known, r, k, Ref(tb, 0));
      OtherSlot(jmp, target, rings, known, r, k, Ref(tb, 1));
    }
  }

  /** Taking jump r off the ring of its target, as tb_jmp_remove does. */
  lemma Detach(jmp: map<Ref, Ref>, target: map<Ref, Ptr>, rings: map<Ptr, seq<Ref>>, known: set<Ptr>, r: Ref, k: nat)
    requires JumpOk(jmp, target, rings, known) && Detachable(jmp, target, rings, known, r, k)
    ensures var t, s := target[r], rings[target[r]];
            JumpOk(jmp[s[k - 1] := jmp[r]][r := NIL], target[r := NULL], rings[t := Without(s, k)], known)
  {
    hide RingOf, SlotOk, Without;
    DetachRings(jmp, target, rings, known, r, k);
    DetachSlots(jmp, target, rings, known, r, k);
  }

  // ------------------------------------------------------------ chaining a jump

  ghost predicate Attachable(jmp: map<Ref, Ref>, target: map<Ref, Ptr>, known: set<Ptr>, r: Ref, t: Ptr) {
    r.tb in known && r.tag < 2 && r in target && target[r] == NULL && r in jmp && t in known && Ref(t, 2) in jmp
  }

  lemma LongerRing(jmp: map<Ref, Ref>, target: map<Ref, Ptr>, known: set<Ptr>, r: Ref, t: Ptr, s: seq<Ref>)
    requires RingOf(jmp, target, known, t, s) && Attachable(jmp, target, known, r, t) && NULL !in known
    ensures r !in s
    ensures RingOf(jmp[r := jmp[Ref(t, 2)]][Ref(t, 2) := r], target[r := t], known, t, [s[0], r] + s[1..])
  {
    OneRing(jmp, target, known, t, s, r);
    RingInsert(jmp, s, r);
    var w := [s[0], r] + s[1..];
    forall i | 0 < i < |w|
      ensures w[i].tag < 2 && w[i].tb in known && (w[i] == r || (w[i] in target && target[w[i]] == t))
    {
      if i >= 2 { assert w[i] == s[i - 1]; }
    }
  }

  lemma AttachSlot(jmp: map<Ref, Ref>, target: map<Ref, Ptr>, rings: map<Ptr, seq<Ref>>, known: set<Ptr>, r: Ref,
                   t: Ptr, q: Ref)
    requires Attachable(jmp, target, known, r, t) && t in rings && |rings[t]| > 0 && NULL !in known
    requires SlotOk(jmp, target, rings, q) && q.tag < 2
    ensures SlotOk(jmp[r := jmp[Ref(t, 2)]][Ref(t, 2) := r], target[r := t],
            rings[t := [rings[t][0], r] + rings[t][1..]], q)
  {
    var s := rings[t];
    var w := [s[0], r] + s[1..];
    if q == r {
      assert w[1] == r;
    } else if target[q] == t {
      var i :| 0 <= i < |s| && s[i] == q;
      assert w[if i == 0 then 0 else i + 1] == q;
    }
  }

  /** tb_add_jump keeps every ring. */
  lemma Attach(jmp: map<Ref, Ref>, target: map<Ref, Ptr>, rings: map<Ptr, seq<Ref>>, known: set<Ptr>, r: Ref, t: Ptr)
    requires JumpOk(jmp, target, rings, known) && Attachable(jmp, target, known, r, t)
    ensures t in rings && |rings[t]| > 0
    ensures JumpOk(jmp[r := jmp[Ref(t, 2)]][Ref(t, 2) := r], target[r := t],
            rings[t := [rings[t][0], r] + rings[t][1..]], known)
  {
    assert RingOf(jmp, target, known, t, rings[t]);
    AttachRings(jmp, target, rings, known, r, t);
    AttachSlots(jmp, target, rings, known, r, t);
  }

  lemma AttachOther(jmp: map<Ref, Ref>, target: map<Ref, Ptr>, known: set<Ptr>, r: Ref, t: Ptr, u: Ptr, w: seq<Ref>)
    requires RingOf(jmp, target, known, u, w) && Attachable(jmp, target, known, r, t) && u != t && u != NULL
    ensures RingOf(jmp[r := jmp[Ref(t, 2)]][Ref(t, 2) := r], target[r := t], known, u, w)
  {
    forall x | x in w ensures x != r && x != Ref(t, 2) { OneRing(jmp, target, known, u, w, x); }
    RingFrame(jmp, jmp[r := jmp[Ref(t, 2)]][Ref(t, 2) := r], w);
    hide IsRing;
  }

  lemma AttachRings(jmp: map<Ref, Ref>, target: map<Ref, Ptr>, rings: map<Ptr, seq<Ref>>, known: set<Ptr>, r: Ref,
                    t: Ptr)
    requires JumpOk(jmp, target, rings, known) && Attachable(jmp, target, known, r, t) && |rings[t]| > 0
    ensures RingsOk(jmp[r := jmp[Ref(t, 2)]][Ref(t, 2) := r], target[r := t],
            rings[t := [rings[t][0], r] + rings[t][1..]], known)
  {
    hide SlotsOk, RingOf;
    var jmp', target' := jmp[r := jmp[Ref(t, 2)]][Ref(t, 2) := r], target[r := t];
    LongerRing(jmp, target, known, r, t, rings[t]);
    forall u | u in known && u != t ensures RingOf(jmp', target', known, u, rings[u]) {
      AttachOther(jmp, target, known, r, t, u, rings[u]);
    }
  }

  lemma AttachSlots(jmp: map<Ref, Ref>, target: map<Ref, Ptr>, rings: map<Ptr, seq<Ref>>, known: set<Ptr>, r: Ref,
                    t: Ptr)
    requires JumpOk(jmp, target, rings, known) && Attachable(jmp, target, known, r, t) && |rings[t]| > 0
    ensures SlotsOk(jmp[r := jmp[Ref(t, 2)]][Ref(t, 2) := r], target[r := t],
            rings[t := [rings[t][0], r] + rings[t][1..]], known)
  {
    var s := rings[t];
    var jmp', target', rings' := jmp[r := jmp[Ref(t, 2)]][Ref(t, 2) := r], target[r := t],
        rings[t := [s[0], r] + s[1..]];
    hide SlotOk, RingOf;
    forall tb | tb in known
      ensures SlotOk(jmp', target', rings', Ref(tb, 0)) && SlotOk(jmp', target', rings', Ref(tb, 1))
    {
      AttachSlot(jmp, target, rings, known, r, t, Ref(tb, 0));
      AttachSlot(jmp, target, rings, known, r, t, Ref(tb, 1));
    }
  }

  // ------------------------------------------------------------ cutting a block's ring

  /** All jumps on the ring s have been cut: their links and the block's own are reset. */
  ghost predicate Drained(jmp: map<Ref, Ref>, target: map<Ref, Ptr>, s: seq<Ref>, jmp': map<Ref, Ref>,
                          target': map<Ref, Ptr>) {
    && |s| > 0 && jmp'.Keys == jmp.Keys && target'.Keys == target.Keys
    && (forall x :: x in jmp ==> jmp'[x] == if x in s[1..] then NIL else if x == s[0] then s[0] else jmp[x])
    && (forall x :: x in target ==> target'[x] == if x in s[1..] then NULL else target[x])
  }

  lemma NotInTail(s: seq<Ref>, x: Ref)
    requires x !in s && |s| > 0
    ensures x !in s[1..] && x != s[0]
  {
  }

  lemma RingTail(s: seq<Ref>, q: Ref)
    requires |s| > 0 && q in s && q != s[0]
    ensures q in s[1..]
  {
    var i :| 0 <= i < |s| && s[i] == q;
    assert s[1..][i - 1] == q;
  }

  lemma CutSlot(jmp: map<Ref, Ref>, target: map<Ref, Ptr>, rings: map<Ptr, seq<Ref>>, known: set<Ptr>, tb: Ptr, q: Ref,
                jmp': map<Ref, Ref>, target': map<Ref, Ptr>)
    requires tb in rings && RingOf(jmp, target, known, tb, rings[tb]) && Drained(jmp, target, rings[tb], jmp', target')
    requires SlotOk(jmp, target, rings, q) && q.tag < 2 && tb != NULL
    ensures SlotOk(jmp', target', rings[tb := [Ref(tb, 2)]], q)
  {
    if q !in rings[tb][1..] && target[q] == tb { RingTail(rings[tb], q); }
  }

  lemma CutOther(jmp: map<Ref, Ref>, target: map<Ref, Ptr>, known: set<Ptr>, tb: Ptr, s: seq<Ref>, u: Ptr, w: seq<Ref>,
                 jmp': map<Ref, Ref>, target': map<Ref, Ptr>)
    requires RingOf(jmp, target, known, tb, s) && RingOf(jmp, target, known, u, w) && u != tb
             && Drained(jmp, target, s, jmp', target')
    ensures RingOf(jmp', target', known, u, w)
  {
    hide RingOf;
    forall x | x !in s ensures x !in s[1..] && x != s[0] { NotInTail(s, x); }
    OtherRing(jmp, target, known, tb, s, u, w, jmp', target');
  }

  lemma CutOwn(jmp: map<Ref, Ref>, target: map<Ref, Ptr>, known: set<Ptr>, tb: Ptr, s: seq<Ref>, jmp': map<Ref, Ref>,
               target': map<Ref, Ptr>)
    requires RingOf(jmp, target, known, tb, s) && Drained(jmp, target, s, jmp', target')
    ensures RingOf(jmp', target', known, tb, [Ref(tb, 2)])
  {
    Ring0(jmp, target, known, tb, s);
  }

  lemma CutRings(jmp: map<Ref, Ref>, target: map<Ref, Ptr>, rings: map<Ptr, seq<Ref>>, known: set<Ptr>, tb: Ptr,
                 jmp': map<Ref, Ref>, target': map<Ref, Ptr>)
    requires JumpOk(jmp, target, rings, known) && tb in known && Drained(jmp, target, rings[tb], jmp', target')
    ensures RingsOk(jmp', target', rings[tb := [Ref(tb, 2)]], known)
  {
    hide SlotsOk, RingOf, Drained;
    CutOwn(jmp, target, known, tb, rings[tb], jmp', target');
    forall u | u in known && u != tb ensures RingOf(jmp', target', known, u, rings[u]) {
      CutOther(jmp, target, known, tb, rings[tb], u, rings[u], jmp', target');
    }
  }

  lemma CutSlots(jmp: map<Ref, Ref>, target: map<Ref, Ptr>, rings: map<Ptr, seq<Ref>>, known: set<Ptr>, tb: Ptr,
                 jmp': map<Ref, Ref>, target': map<Ref, Ptr>)
    requires JumpOk(jmp, target, rings, known) && tb in known && Drained(jmp, target, rings[tb], jmp', target')
    ensures SlotsOk(jmp', target', rings[tb := [Ref(tb, 2)]], known)
  {
    hide SlotOk, RingOf, Drained;
    var rings' := rings[tb := [Ref(tb, 2)]];
    forall b | b in known ensures SlotOk(jmp', target', rings', Ref(b, 0)) && SlotOk(jmp', target', rings', Ref(b, 1)) {
      CutSlot(jmp, target, rings, known, tb, Ref(b, 0), jmp', target');
      CutSlot(jmp, target, rings, known, tb, Ref(b, 1), jmp', target');
    }
  }

  /** A drained block's ring is the block alone; every other ring stands. */
  lemma Cut(jmp: map<Ref, Ref>, target: map<Ref, Ptr>, rings: map<Ptr, seq<Ref>>, known: set<Ptr>, tb: Ptr,
            jmp': map<Ref, Ref>, target': map<Ref, Ptr>)
    requires JumpOk(jmp, target, rings, known) && tb in known && Drained(jmp, target, rings[tb], jmp', target')
    ensures JumpOk(jmp', target', rings[tb := [Ref(tb, 2)]], known)
  {
    CutRings(jmp, target, rings, known, tb, jmp', target');
    CutSlots(jmp, target, rings, known, tb, jmp', target');
  }

  // ------------------------------------------------------------ lists without a block

  /** The references in s to blocks other than tb, in order. */
  ghost function DropTb(s: seq<Ref>, tb: Ptr): seq<Ref> {
    if s == [] then [] else (if s[0].tb == tb then [] else [s[0]]) + DropTb(s[1..], tb)
  }

  lemma {:induction false} DropTbCat(a: seq<Ref>, b: seq<Ref>, tb: Ptr)
    ensures DropTb(a + b, tb) == DropTb(a, tb) + DropTb(b, tb)
  {
    if a == [] {
      assert a + b == b;
    } else {
      var front := if a[0].tb == tb then [] else [a[0]];
      DropTbCat(a[1..], b, tb);
      assert (a + b)[1..] == a[1..] + b && (a + b)[0] == a[0];
      Bytes.Assoc(front, DropTb(a[1..], tb), DropTb(b, tb));
    }
  }

  lemma DropTbWithout(s: seq<Ref>, k: nat, tb: Ptr)
    requires k < |s| && s[k].tb == tb
    ensures DropTb(Without(s, k), tb) == DropTb(s, tb)
  {
    assert s == s[..k] + ([s[k]] + s[k + 1..]);
    DropTbCat(s[..k], [s[k]] + s[k + 1..], tb);
    DropTbCat([s[k]], s[k + 1..], tb);
    DropTbCat(s[..k], s[k + 1..], tb);
    assert DropTb([s[k]], tb) == [];
  }

  lemma {:induction false} DropTbNone(s: seq<Ref>, tb: Ptr)
    requires forall r :: r in s ==> r.tb != tb
    ensures DropTb(s, tb) == s
  {
    if s != [] { DropTbNone(s[1..], tb); }
  }

  // ------------------------------------------------------------ hash chains

  lemma HashDropChains(info: map<Ptr, Info>, head: seq<Ptr>, next: map<Ptr, Ptr>, chains: seq<seq<Ptr>>,
                       live: set<Ptr>, h: nat, k: nat)
    requires HashOk(info, head, next, chains, live) && h < HASH_SIZE && k < |chains[h]|
    ensures chains[h][k] in next
    ensures var v := next[chains[h][k]];
            HashChains(head[h := WriteHead(head[h], k, v)], WriteNext(next, chains[h], k, v),
              chains[h := Without(chains[h], k)])
  {
    var s := chains[h];
    RemoveAt(next, NULL, head[h], s, k);
    var v := next[s[k]];
    var head', next', chains' := head[h := WriteHead(head[h], k, v)], WriteNext(next, s, k, v),
        chains[h := Without(s, k)];
    hide IsChain, HashOf;
    forall g | 0 <= g < HASH_SIZE ensures IsChain(next', NULL, head'[g], chains'[g]) {
      if g != h {
        if k > 0 {
          var x := s[k - 1];
          assert x in chains[h] && HashOf(info[x]) == h;
        }
        ChainFrame(next, next', NULL, head[g], chains[g]);
      }
    }
  }

  lemma HashDropMembers(info: map<Ptr, Info>, chains: seq<seq<Ptr>>, live: set<Ptr>, tb: Ptr, k: nat)
    requires HashMembers(info, chains, live) && tb in live && Unique(chains[HashOf(info[tb])])
    requires k < |chains[HashOf(info[tb])]| && chains[HashOf(info[tb])][k] == tb
    ensures HashMembers(info, chains[HashOf(info[tb]) := Without(chains[HashOf(info[tb])], k)], live - {tb})
  {
    var h := HashOf(info[tb]);
    var s := chains[h];
    var chains' := chains[h := Without(s, k)];
    hide HashOf, Unique, Without;
    forall x ensures x in chains'[h] <==> x in s && x != tb { WithoutMembers(s, k, x); }
  }

  /** The block's chain without it, all other chains as they were. */
  lemma HashDrop(info: map<Ptr, Info>, head: seq<Ptr>, next: map<Ptr, Ptr>, chains: seq<seq<Ptr>>, live: set<Ptr>,
                 tb: Ptr, k: nat)
    requires HashOk(info, head, next, chains, live) && tb in live
    requires k < |chains[HashOf(info[tb])]| && chains[HashOf(info[tb])][k] == tb
    ensures var h := HashOf(info[tb]);
            && tb in next
            && HashOk(info, head[h := WriteHead(head[h], k, next[tb])], WriteNext(next, chains[h], k, next[tb]),
                      chains[h := Without(chains[h], k)], live - {tb})
  {
    var h := HashOf(info[tb]);
    ChainUnique(next, NULL, head[h], chains[h]);
    HashDropChains(info, head, next, chains, live, h, k);
    HashDropMembers(info, chains, live, tb, k);
  }

  // ------------------------------------------------------------ page lists

  /** A page's list without its k-th reference. */
  lemma PageDrop(info: map<Ptr, Info>, first: map<nat, Ref>, next: map<Ref, Ref>, lists: map<nat, seq<Ref>>,
                 live: set<Ptr>, gone: set<Ref>,
                 p: nat, k: nat)
    requires PageOk(info, first, next, lists, live, gone) && p in lists && k < |lists[p]|
    ensures lists[p][k] in next
    ensures var s := lists[p];
            PageOk(info, first[p := WriteHead(first[p], k, next[s[k]])], WriteNext(next, s, k, next[s[k]]),
                   lists[p := Without(s, k)], live, gone + {s[k]})
  {
    var s := lists[p];
    RemoveAt(next, NIL, first[p], s, k);
    PageDropChains(info, first, next, lists, live, gone, p, k);
    ChainUnique(next, NIL, first[p], s);
    assert s[k] in lists[p];
    hide IsChain, Without, Unique;
    PageDropMembers(info, lists, live, gone, p, k);
    PageDropListed(info, lists, live, gone, p, k);
  }

  lemma PageDropMembers(info: map<Ptr, Info>, lists: map<nat, seq<Ref>>, live: set<Ptr>, gone: set<Ref>, p: nat, k: nat)
    requires PageMembers(info, lists, live, gone) && p in lists && k < |lists[p]| && Unique(lists[p])
    ensures PageMembers(info, lists[p := Without(lists[p], k)], live, gone + {lists[p][k]})
  {
    var s := lists[p];
    hide Unique, Without;
    var lists' := lists[p := Without(s, k)];
    assert s[k] in lists[p];
    forall q: nat, r: Ref | q in lists' && r in lists'[q]
      ensures r.tb in live && OnPage(info[r.tb], r.tag, q) && r !in gone + {s[k]}
    {
      if q == p { WithoutMembers(s, k, r); } else { OnePage(info, s[k], p, q); }
    }
  }

  lemma PageDropListed(info: map<Ptr, Info>, lists: map<nat, seq<Ref>>, live: set<Ptr>, gone: set<Ref>, p: nat, k: nat)
    requires AllListed(info, lists, live, gone) && p in lists && k < |lists[p]| && Unique(lists[p])
    ensures AllListed(info, lists[p := Without(lists[p], k)], live, gone + {lists[p][k]})
  {
    var s := lists[p];
    hide Unique, Without;
    var lists' := lists[p := Without(s, k)];
    forall r: Ref, q: int | Listed(q, lists, gone, r) ensures Listed(q, lists', gone + {s[k]}, r) {
      if q == p { WithoutMembers(s, k, r); }
    }
  }

  /** A reference belongs to one page. */
  lemma OnePage(info: map<Ptr, Info>, r: Ref, p: nat, q: nat)
    requires r.tb in info && OnPage(info[r.tb], r.tag, p) && p != q
    ensures !OnPage(info[r.tb], r.tag, q)
  {
  }

  lemma PageDropChains(info: map<Ptr, Info>, first: map<nat, Ref>, next: map<Ref, Ref>, lists: map<nat, seq<Ref>>,
                       live: set<Ptr>, gone: set<Ref>,
                       p: nat, k: nat)
    requires PageOk(info, first, next, lists, live, gone) && p in lists && k < |lists[p]| && lists[p][k] in next
    ensures var s := lists[p];
            forall q :: q in lists && q != p ==> IsChain(WriteNext(next, s, k, next[s[k]]), NIL, first[q], lists[q])
  {
    var s := lists[p];
    hide IsChain;
    forall q | q in lists && q != p ensures IsChain(WriteNext(next, s, k, next[s[k]]), NIL, first[q], lists[q]) {
      if k > 0 {
        assert s[k - 1] in lists[p];
        OnePage(info, s[k - 1], p, q);
        assert s[k - 1] !in lists[q];
      }
      ChainFrame(next, WriteNext(next, s, k, next[s[k]]), NIL, first[q], lists[q]);
    }
  }

  /** When both references of tb are off, tb can be dropped. */
  lemma PageDropped(info: map<Ptr, Info>, first: map<nat, Ref>, next: map<Ref, Ref>, lists: map<nat, seq<Ref>>,
                    live: set<Ptr>, gone: set<Ref>, tb: Ptr)
    requires PageOk(info, first, next, lists, live, gone) && tb in live
    requires Ref(tb, 0) in gone && (info[tb].page1 != -1 ==> Ref(tb, 1) in gone) && forall r :: r in gone ==> r.tb == tb
    ensures PageOk(info, first, next, lists, live - {tb}, {})
    ensures forall p, r :: p in lists && r in lists[p] ==> r.tb != tb
  {
    hide IsChain;
    forall p, r | p in lists && r in lists[p] ensures r.tb != tb {
      assert OnPage(info[r.tb], r.tag, p) && (r == Ref(r.tb, 0) || r == Ref(r.tb, 1));
    }
  }

  // ------------------------------------------------------------ the cache itself

  class TbContext {
    /** tb_jmp_cache_hash_func. */
    const slot: nat -> nat
    var info: map<Ptr, Info>
    var hashHead: seq<Ptr>
    var hashNext: map<Ptr, Ptr>
    var pageFirst: map<nat, Ref>
    var pageNext: map<Ref, Ref>
    /** jmp_next for tags 0 and 1, jmp_first for tag 2. */
    var jmp: map<Ref, Ref>
    /** The block that generated jump n of a block leads to, or NULL. */
    var goes: map<Ref, Ptr>
    /** The pages' code bitmaps, where one has been built. */
    var bitmaps: map<nat, seq<bv8>>
    /** code_write_count, where it is not zero. */
    var writes: map<nat, nat>
    /** Pages whose stores trap: their code-dirty flag is clear. */
    var watched: set<nat>
    var cache: seq<seq<Ptr>>
    /** tb_invalidated_flag. */
    var invalidated: bool

    /** The blocks that lookups can find, and all those made since the last flush. */
    ghost var live: set<Ptr>
    ghost var known: set<Ptr>
    ghost var chains: seq<seq<Ptr>>
    ghost var lists: map<nat, seq<Ref>>
    ghost var rings: map<Ptr, seq<Ref>>
    ghost var target: map<Ref, Ptr>

    ghost predicate Valid()
      reads this
    {
      && HashOk(info, hashHead, hashNext, chains, live)
      && PageOk(info, pageFirst, pageNext, lists, live, {})
      && live <= known && JumpOk(jmp, target, rings, known) && GoesOk(goes, target, known, live)
      && CacheOk(info, cache, slot, live)
      && WatchOk(lists, watched) && BitmapsOk(info, lists, bitmaps)
    }

    /** An empty cache, with a row of null entries for each CPU. */
    constructor (slot: nat -> nat, rows: nat, width: nat)
      ensures Valid() && live == {} && known == {} && this.slot == slot && !invalidated
      ensures |cache| == rows && forall c :: 0 <= c < rows ==> |cache[c]| == width
    {
      this.slot := slot;
      info, hashNext, pageFirst, pageNext, jmp, goes, bitmaps, writes, watched, invalidated := map[], map[], map[],
        map[], map[], map[], map[], map[], {}, false;
      hashHead := seq(HASH_SIZE, _ => NULL);
      cache := seq(rows, _ => seq(width, _ => NULL));
      live, known, chains, lists, rings, target := {}, {}, seq(HASH_SIZE, _ => []), map[], map[], map[];
    }

    /** tb_hash_remove. */
    method HashRemove(h: nat, tb: Ptr)
      requires HashOk(info, hashHead, hashNext, chains, live) && tb in live && h == HashOf(info[tb])
      modifies this`hashHead, this`hashNext, this`chains
      ensures HashOk(info, hashHead, hashNext, chains, live - {tb})
      ensures chains == old(chains)[h := Minus(old(chains)[h], tb)]
    {
      ghost var s, k := chains[h], 0;
      ghost var at := IndexOf(s, tb);
      ChainUnique(hashNext, NULL, hashHead[h], s);
      var prev, tb1 := NULL, hashHead[h];
      while tb1 != tb
        invariant k <= at && tb1 == s[k] && prev == (if k == 0 then NULL else s[k - 1])
        decreases at - k
      {
        prev, tb1 := tb1, hashNext[tb1];
        k := k + 1;
      }
      assert k == at by { IndexOfUnique(s, k); }
      HashDrop(info, hashHead, hashNext, chains, live, tb, k);
      if prev == NULL {
        hashHead := hashHead[h := hashNext[tb1]];
      } else {
        hashNext := hashNext[prev := hashNext[tb1]];
      }
      chains := chains[h := Without(s, k)];
    }

    /** The walk of tb_page_remove: the link that leads to the first reference to tb. */
    method FindOnPage(p: nat, tb: Ptr, ghost s: seq<Ref>) returns (prev: Ref, tb1: Ref, ghost k: nat)
      requires p in pageFirst && IsChain(pageNext, NIL, pageFirst[p], s) && Mentions(s, tb)
      ensures k < |s| && tb1 == s[k] && tb1.tb == tb && prev == (if k == 0 then NIL else s[k - 1])
      ensures forall i :: 0 <= i < k ==> s[i].tb != tb
      ensures k > 0 ==> prev != NIL
    {
      ghost var at := FirstMention(s, tb);
      hide Mentions, Unique;
      k := 0;
      prev, tb1 := NIL, pageFirst[p];
      while tb1.tb != tb
        invariant k <= at && tb1 == s[k] && prev == (if k == 0 then NIL else s[k - 1])
        invariant forall i :: 0 <= i < k ==> s[i].tb != tb
        decreases at - k
      {
        prev, tb1 := tb1, pageNext[tb1];
        k := k + 1;
      }
    }

    /** tb_page_remove: the first reference to tb goes, whatever its tag. */
    method PageRemove(p: nat, tb: Ptr, ghost gone: set<Ref>) returns (ghost r: Ref)
      requires PageOk(info, pageFirst, pageNext, lists, live, gone) && p in lists && Mentions(lists[p], tb)
      requires tb in info
      modifies this`pageFirst, this`pageNext, this`lists
      ensures r.tb == tb && r in old(lists)[p] && r !in gone && OnPage(info[tb], r.tag, p)
              && PageOk(info, pageFirst, pageNext, lists, live, gone + {r})
      ensures AllSameBut(old(lists), lists, tb)
    {
      hide PageOk, PageChains, PageMembers, AllListed, IsChain, Without, AllSameBut, Mentions, Listed;
      ghost var s := lists[p];
      PageChain(info, pageFirst, pageNext, lists, live, gone, p);
      var prev, tb1;
      ghost var k;
      prev, tb1, k := FindOnPage(p, tb, s);
      PageMember(info, pageFirst, pageNext, lists, live, gone, p, k);
      PageDrop(info, pageFirst, pageNext, lists, live, gone, p, k);
      SameButOne(lists, p, k, tb);
      assert pageFirst[p := pageFirst[p]] == pageFirst;
      WritePage(p, prev, pageNext[tb1]);
      r := s[k];
      lists := lists[p := Without(s, k)];
    }

    /** *ptb = v, where ptb is the list head of page p or the link of prev. */
    method WritePage(p: nat, prev: Ref, v: Ref)
      modifies this`pageFirst, this`pageNext
      ensures pageFirst == if prev == NIL then old(pageFirst)[p := v] else old(pageFirst)
      ensures pageNext == if prev == NIL then old(pageNext) else old(pageNext)[prev := v]
    {
      if prev == NIL {
        pageFirst := pageFirst[p := v];
      } else {
        pageNext := pageNext[prev := v];
      }
    }

    /** The jump caches forget tb. */
    method ClearCaches(tb: Ptr)
      requires tb in info && CacheOk(info, cache, slot, live)
      modifies this`cache
      ensures CacheOk(info, cache, slot, live - {tb})
      ensures Forgotten(old(cache), cache, tb)
    {
      var h := slot(info[tb].pc);
      for c := 0 to |cache|
        invariant |cache| == |old(cache)|
        invariant forall d :: 0 <= d < |cache| ==> |cache[d]| == |old(cache)[d]|
        invariant forall d, i :: c <= d < |cache| && 0 <= i < |cache[d]| ==> cache[d][i] == old(cache)[d][i]
        invariant forall d, i :: 0 <= d < c && 0 <= i < |cache[d]| ==>
                    cache[d][i] == if old(cache)[d][i] == tb then NULL else old(cache)[d][i]
      {
        if h < |cache[c]| && cache[c][h] == tb {
          var row: seq<Ptr> := cache[c][h := NULL];
          cache := cache[c := row];
        }
      }
    }

    /** The walk of tb_jmp_remove: round the ring from r to the link that leads to r. */
    method FindInRing(r: Ref, ghost s: seq<Ref>, ghost k: nat) returns (cur: Ref)
      requires IsRing(jmp, s) && 0 < k < |s| && s[k] == r
      ensures cur == s[k - 1]
    {
      ghost var i := k;
      cur := r;
      while jmp[cur] != r
        invariant i < |s| && cur == s[i]
        decreases if i >= k then |s| - i + k else k - i
      {
        cur := jmp[cur];
        i := if i + 1 < |s| then i + 1 else 0;
      }
      Predecessor(jmp, s, k, i);
    }

    /** tb_jmp_remove: jump n of tb leaves the circular list it is on. */
    method JmpRemove(tb: Ptr, n: nat)
      requires JumpOk(jmp, target, rings, known) && tb in known && n < 2
      modifies this`jmp, this`target, this`rings
      ensures JumpOk(jmp, target, rings, known)
      ensures Ref(tb, n) in old(target) && target == old(target)[Ref(tb, n) := NULL]
      ensures AllSameBut(old(rings), rings, tb)
    {
      var r := Ref(tb, n);
      ghost var k := Place(jmp, target, rings, known, r);
      if jmp[r] != NIL {
        Unlink(r, k);
      } else {
        SameButAll(rings, tb);
      }
    }

    method Unlink(r: Ref, ghost k: nat)
      requires JumpOk(jmp, target, rings, known) && Detachable(jmp, target, rings, known, r, k)
      requires IsRing(jmp, rings[target[r]]) && rings.Keys == known
      modifies this`jmp, this`target, this`rings
      ensures JumpOk(jmp, target, rings, known)
      ensures target == old(target)[r := NULL]
      ensures AllSameBut(old(rings), rings, r.tb)
    {
      hide JumpOk, RingsOk, SlotsOk, RingOf, IsRing, AllSameBut, Without, SlotOk, SameBut, DropTb;
      ghost var t, s := target[r], rings[target[r]];
      Detach(jmp, target, rings, known, r, k);
      SameButOne(rings, t, k, r.tb);
      var cur := FindInRing(r, s, k);
      jmp := jmp[cur := jmp[r]][r := NIL];
      target, rings := target[r := NULL], rings[t := Without(s, k)];
    }

    /** The last loop of tb_phys_invalidate: every jump chained to tb is reset. */
    method Drain(tb: Ptr, ghost s: seq<Ref>)
      requires RingOf(jmp, target, known, tb, s)
      modifies this`jmp, this`goes
      ensures jmp == Clear(old(jmp), s[1..], NIL)[Ref(tb, 2) := Ref(tb, 2)]
      ensures goes == Clear(old(goes), s[1..], NULL)
    {
      Ring0(jmp, target, known, tb, s);
      hide RingOf, Clear;
      ghost var i := 1;
      var tb1 := jmp[Ref(tb, 2)];
      ClearNone(jmp, goes);
      while tb1.tag != 2
        invariant 1 <= i <= |s| && tb1 == Succ(s, i - 1) && (tb1.tag == 2 <==> i == |s|)
        invariant jmp == Clear(old(jmp), s[1..i], NIL) && goes == Clear(old(goes), s[1..i], NULL)
        decreases |s| - i
      {
        RingStep(old(jmp), target, known, tb, s, i);
        ClearOther(old(jmp), s[1..i], NIL, s[i]);
        ClearMore(old(jmp), old(goes), s, i);
        var tb2 := jmp[tb1];
        goes := goes[tb1 := NULL];
        jmp := jmp[tb1 := NIL];
        tb1 := tb2;
        i := i + 1;
      }
      assert s[1..i] == s[1..];
      jmp := jmp[Ref(tb, 2) := Ref(tb, 2)];
    }

    /** invalidate_page_bitmap. */
    method DropBitmap(p: nat)
      modifies this`bitmaps, this`writes
      ensures bitmaps == old(bitmaps) - {p} && writes == old(writes) - {p}
    {
      bitmaps, writes := bitmaps - {p}, writes - {p};
    }

    /** Both references of tb leave the page lists, and the pages their bitmaps. */
    method UnlistPages(tb: Ptr)
      requires PageOk(info, pageFirst, pageNext, lists, live, {}) && tb in live && WatchOk(lists, watched)
               && BitmapsOk(info, lists, bitmaps)
      modifies this`pageFirst, this`pageNext, this`lists, this`bitmaps, this`writes
      ensures PageOk(info, pageFirst, pageNext, lists, live - {tb}, {}) && WatchOk(lists, watched)
              && BitmapsOk(info, lists, bitmaps)
      ensures AllWithout(old(lists), lists, tb)
      ensures bitmaps == old(bitmaps) - Pages(info[tb]) && writes == old(writes) - Pages(info[tb])
    {
      hide PageOk, PageChains, PageMembers, AllListed, AllSameBut, AllWithout, Mentions, Listed, WatchOk, BitmapsOk;
      ghost var r0, r1 := Ref(tb, 0), Ref(tb, 1);
      HasReference(info, pageFirst, pageNext, lists, live, {}, tb);
      var p := info[tb].page0;
      r0 := PageRemove(p, tb, {});
      DropBitmap(p);
      ghost var mid := lists;
      SecondReference(info, pageFirst, pageNext, lists, live, tb, r0);
      if info[tb].page1 != -1 {
        var p1: nat := info[tb].page1;
        r1 := PageRemove(p1, tb, {r0});
        DropBitmap(p1);
        SameButTrans(old(lists), mid, lists, tb);
      }
      BothGone(info, pageFirst, pageNext, lists, live, tb, r0, r1);
      NoneLeft(old(lists), lists, tb);
      assert bitmaps == old(bitmaps) - Pages(info[tb]);
      WatchFewer(old(lists), lists, watched, tb);
      BitmapsFewer(info, old(pageFirst), old(pageNext), old(lists), lists, old(bitmaps), live, tb);
    }

    /** The jumps of tb leave their lists, and all jumps chained to tb are reset. */
    method CutJumps(tb: Ptr)
      requires JumpOk(jmp, target, rings, known) && tb in live && live <= known && GoesOk(goes, target, known, live)
      modifies this`jmp, this`goes, this`target, this`rings
      ensures JumpOk(jmp, target, rings, known) && GoesOk(goes, target, known, live - {tb})
      ensures RingsCut(old(rings), rings, known, tb)
      ensures JumpsReset(old(goes), goes, old(target), known, tb)
      ensures Unchained(old(target), target)
    {
      hide JumpOk, RingOf, GoesOk, Drained, AllSameBut, RingsCut, JumpsReset, Clear, Unchained;
      JmpRemove(tb, 0);
      ghost var mid := rings;
      JmpRemove(tb, 1);
      SameButTrans(old(rings), mid, rings, tb);
      RingFacts(jmp, target, rings, known, tb);
      ghost var s := rings[tb];
      RingsAfter(old(rings), jmp, target, rings, known, tb);
      GoesAfter(jmp, old(target), target, rings, goes, known, live, tb);
      ClearDrains(jmp, target, known, tb, s);
      Cut(jmp, target, rings, known, tb, Clear(jmp, s[1..], NIL)[Ref(tb, 2) := Ref(tb, 2)],
          Clear(target, s[1..], NULL));
      Drain(tb, s);
      ClearUnchains(old(target), target, tb, s[1..]);
      target, rings := Clear(target, s[1..], NULL), rings[tb := [Ref(tb, 2)]];
    }

    /** tb leaves the hash chain, the page lists and the jump caches. */
    method Withdraw(tb: Ptr)
      requires HashOk(info, hashHead, hashNext, chains, live) && tb in live && tb in info && |chains| == HASH_SIZE
      requires PageOk(info, pageFirst, pageNext, lists, live, {}) && WatchOk(lists, watched)
               && BitmapsOk(info, lists, bitmaps)
      requires CacheOk(info, cache, slot, live)
      modifies this`hashHead, this`hashNext, this`chains, this`pageFirst, this`pageNext, this`lists, this`bitmaps,
               this`writes, this`invalidated, this`cache
      ensures HashOk(info, hashHead, hashNext, chains, live - {tb})
      ensures PageOk(info, pageFirst, pageNext, lists, live - {tb}, {}) && WatchOk(lists, watched)
              && BitmapsOk(info, lists, bitmaps)
      ensures CacheOk(info, cache, slot, live - {tb})
      ensures var h := HashOf(info[tb]); chains == old(chains)[h := Minus(old(chains)[h], tb)]
      ensures AllWithout(old(lists), lists, tb) && Forgotten(old(cache), cache, tb)
      ensures bitmaps == old(bitmaps) - Pages(info[tb]) && writes == old(writes) - Pages(info[tb])
      ensures invalidated
    {
      hide BitmapsOk, WatchOk, HashOk, PageOk, CacheOk, AllWithout, Minus, HashOf, Forgotten, Pages;
      HashRemove(HashOf(info[tb]), tb);
      UnlistPages(tb);
      invalidated := true;
      ClearCaches(tb);
    }

    /** tb_phys_invalidate(tb, -1). */
    method Invalidate(tb: Ptr)
      requires Valid() && tb in live
      modifies this`hashHead, this`hashNext, this`chains, this`pageFirst, this`pageNext, this`lists, this`bitmaps,
               this`writes, this`invalidated,
               this`cache, this`jmp, this`goes, this`target, this`rings, this`live
      ensures Valid() && live == old(live) - {tb}
      ensures var h := HashOf(info[tb]); chains == old(chains)[h := Minus(old(chains)[h], tb)]
      ensures AllWithout(old(lists), lists, tb)
      ensures RingsCut(old(rings), rings, known, tb)
      ensures JumpsReset(old(goes), goes, old(target), known, tb)
      ensures Forgotten(old(cache), cache, tb) && Unchained(old(target), target)
      ensures bitmaps == old(bitmaps) - Pages(info[tb]) && writes == old(writes) - Pages(info[tb])
      ensures invalidated
    {
      hide BitmapsOk, WatchOk, HashOk, PageOk, JumpOk, GoesOk, CacheOk, AllWithout, RingsCut, JumpsReset, Minus,
           HashOf, Forgotten, Pages, Unchained;
      LiveInfo(info, hashHead, hashNext, chains, live, tb);
      Withdraw(tb);
      CutJumps(tb);
      live := live - {tb};
    }
  }

  lemma WatchFewer(m0: map<nat, seq<Ref>>, m1: map<nat, seq<Ref>>, watched: set<nat>, tb: Ptr)
    requires WatchOk(m0, watched) && AllWithout(m0, m1, tb)
    ensures WatchOk(m1, watched)
  {
  }

  lemma NotOnPage(info: map<Ptr, Info>, first: map<nat, Ref>, next: map<Ref, Ref>, lists: map<nat, seq<Ref>>,
                  live: set<Ptr>, tb: Ptr, p: nat)
    requires PageOk(info, first, next, lists, live, {}) && tb in info && p in lists && p !in Pages(info[tb])
    ensures forall r :: r in lists[p] ==> r.tb != tb
  {
    hide IsChain;
  }

  lemma BitmapsFewer(info: map<Ptr, Info>, first: map<nat, Ref>, next: map<Ref, Ref>, m0: map<nat, seq<Ref>>,
                     m1: map<nat, seq<Ref>>,
                     bitmaps: map<nat, seq<bv8>>, live: set<Ptr>, tb: Ptr)
    requires PageOk(info, first, next, m0, live, {}) && tb in info && AllWithout(m0, m1, tb)
             && BitmapsOk(info, m0, bitmaps)
    ensures BitmapsOk(info, m1, bitmaps - Pages(info[tb]))
  {
    hide IsBitmap, PageOk, Pages;
    forall p | p in bitmaps - Pages(info[tb]) ensures p in m1 && IsBitmap(info, m1[p], bitmaps[p]) {
      NotOnPage(info, first, next, m0, live, tb, p);
      DropTbNone(m0[p], tb);
    }
  }

  /** Jump caches without tb. */
  ghost predicate Forgotten(cache: seq<seq<Ptr>>, cache': seq<seq<Ptr>>, tb: Ptr) {
    && |cache'| == |cache|
    && (forall c :: 0 <= c < |cache| ==> |cache'[c]| == |cache[c]|)
    && forall c, i :: 0 <= c < |cache| && 0 <= i < |cache[c]| ==>
       cache'[c][i] == if cache[c][i] == tb then NULL else cache[c][i]
  }

  /** Jump caches may have lost blocks, and have no others. */
  ghost predicate Shrunk(cache: seq<seq<Ptr>>, cache': seq<seq<Ptr>>) {
    && |cache'| == |cache|
    && (forall c :: 0 <= c < |cache| ==> |cache'[c]| == |cache[c]|)
    && forall c, i :: 0 <= c < |cache| && 0 <= i < |cache[c]| ==> cache'[c][i] == cache[c][i] || cache'[c][i] == NULL
  }

  lemma ShrunkSame(cache: seq<seq<Ptr>>)
    ensures Shrunk(cache, cache)
  {
  }

  /** Jumps may have been unchained, and none chained. */
  ghost predicate Unchained(target: map<Ref, Ptr>, target': map<Ref, Ptr>) {
    forall r :: r in target' && target'[r] != NULL ==> r in target && target'[r] == target[r]
  }

  lemma UnchainedOn(a: map<Ref, Ptr>, b: map<Ref, Ptr>, c: map<Ref, Ptr>)
    requires Unchained(a, b) && Unchained(b, c)
    ensures Unchained(a, c)
  {
  }

  lemma UnchainedSame(target: map<Ref, Ptr>)
    ensures Unchained(target, target)
  {
  }

  lemma {:induction false} ClearUnchained(m: map<Ref, Ptr>, s: seq<Ref>)
    ensures Unchained(m, Clear(m, s, NULL))
  {
    if s != [] { ClearUnchained(m, s[..|s| - 1]); }
  }

  lemma ClearUnchains(m: map<Ref, Ptr>, n: map<Ref, Ptr>, tb: Ptr, s: seq<Ref>)
    requires n == m[Ref(tb, 0) := NULL][Ref(tb, 1) := NULL]
    ensures Unchained(m, Clear(n, s, NULL))
  {
    ClearUnchained(n, s);
    hide Clear;
  }

  lemma ShrunkOn(a: seq<seq<Ptr>>, b: seq<seq<Ptr>>, c: seq<seq<Ptr>>)
    requires Shrunk(a, b) && Shrunk(b, c)
    ensures Shrunk(a, c)
  {
  }

  lemma ShrunkMore(a: seq<seq<Ptr>>, b: seq<seq<Ptr>>, c: seq<seq<Ptr>>, tb: Ptr)
    requires Shrunk(a, b) && Forgotten(b, c, tb)
    ensures Shrunk(a, c)
  {
  }

  lemma LiveInfo(info: map<Ptr, Info>, head: seq<Ptr>, next: map<Ptr, Ptr>, chains: seq<seq<Ptr>>, live: set<Ptr>,
                 tb: Ptr)
    requires HashOk(info, head, next, chains, live) && tb in live
    ensures tb in info && tb != NULL && |chains| == |head| == HASH_SIZE
  {
  }

  /** tb's ring is tb alone, and no other ring has a jump of tb. */
  ghost predicate RingsCut(m0: map<Ptr, seq<Ref>>, m1: map<Ptr, seq<Ref>>, known: set<Ptr>, tb: Ptr) {
    && m0.Keys == m1.Keys == known
    && forall t :: t in known ==> m1[t] == if t == tb then [Ref(tb, 2)] else DropTb(m0[t], tb)
  }

  /** Exactly the jumps of other blocks that were chained to tb are reset. */
  ghost predicate JumpsReset(goes: map<Ref, Ptr>, goes': map<Ref, Ptr>, target: map<Ref, Ptr>, known: set<Ptr>,
                             tb: Ptr) {
    forall r: Ref :: r.tb in known && r.tag < 2 ==> JumpReset(goes, goes', target, tb, r)
  }

  /** No sequence mentions tb any more; everything else is where it was. */
  ghost predicate AllWithout(lists: map<nat, seq<Ref>>, lists': map<nat, seq<Ref>>, tb: Ptr) {
    lists.Keys == lists'.Keys && forall q :: q in lists ==> lists'[q] == DropTb(lists[q], tb)
  }

  lemma NoneLeft(m0: map<nat, seq<Ref>>, m1: map<nat, seq<Ref>>, tb: Ptr)
    requires AllSameBut(m0, m1, tb) && forall q, r :: q in m1 && r in m1[q] ==> r.tb != tb
    ensures AllWithout(m0, m1, tb)
  {
    forall q | q in m0 ensures m1[q] == DropTb(m0[q], tb) { DropTbNone(m1[q], tb); }
  }

  ghost predicate Mentions(s: seq<Ref>, tb: Ptr) { exists q :: q in s && q.tb == tb }

  lemma FirstMention(s: seq<Ref>, tb: Ptr) returns (at: nat)
    requires Mentions(s, tb)
    ensures at < |s| && s[at].tb == tb
  {
    var x :| x in s && x.tb == tb;
    at := IndexOf(s, x);
  }

  ghost function ListOf(lists: map<nat, seq<Ref>>, p: nat): seq<Ref> { if p in lists then lists[p] else [] }

  lemma PageNoKeys(info: map<Ptr, Info>, first: map<nat, Ref>, next: map<Ref, Ref>, lists: map<nat, seq<Ref>>,
                   live: set<Ptr>)
    requires PageOk(info, first, next, lists, live, {})
    ensures first.Keys == lists.Keys
  {
  }

  lemma PageChain(info: map<Ptr, Info>, first: map<nat, Ref>, next: map<Ref, Ref>, lists: map<nat, seq<Ref>>,
                  live: set<Ptr>, gone: set<Ref>, p: nat)
    requires PageOk(info, first, next, lists, live, gone) && p in lists
    ensures p in first && IsChain(next, NIL, first[p], lists[p])
  {
  }

  lemma PageMember(info: map<Ptr, Info>, first: map<nat, Ref>, next: map<Ref, Ref>, lists: map<nat, seq<Ref>>,
                   live: set<Ptr>, gone: set<Ref>, p: nat, k: nat)
    requires PageOk(info, first, next, lists, live, gone) && p in lists && k < |lists[p]|
    ensures var r := lists[p][k]; r !in gone && r.tb in info && OnPage(info[r.tb], r.tag, p)
  {
    assert lists[p][k] in lists[p];
  }

  lemma HasReference(info: map<Ptr, Info>, first: map<nat, Ref>, next: map<Ref, Ref>, lists: map<nat, seq<Ref>>,
                     live: set<Ptr>, gone: set<Ref>, tb: Ptr)
    requires PageOk(info, first, next, lists, live, gone) && tb in live
    ensures tb in info && (Ref(tb, 0) !in gone ==> info[tb].page0 in lists && Mentions(lists[info[tb].page0], tb))
    ensures info[tb].page1 != -1 ==> info[tb].page1 >= 0
    ensures info[tb].page1 != -1 && Ref(tb, 1) !in gone ==>
              info[tb].page1 in lists && Mentions(lists[info[tb].page1], tb)
  {
    assert Listed(info[tb].page0, lists, gone, Ref(tb, 0));
    if info[tb].page1 != -1 { assert Listed(info[tb].page1, lists, gone, Ref(tb, 1)); }
  }

  /** After one reference is off, the other one is still on its page. */
  lemma SecondReference(info: map<Ptr, Info>, first: map<nat, Ref>, next: map<Ref, Ref>, lists: map<nat, seq<Ref>>,
                        live: set<Ptr>, tb: Ptr, r0: Ref)
    requires PageOk(info, first, next, lists, live, {} + {r0}) && tb in live && r0.tb == tb
             && OnPage(info[tb], r0.tag, info[tb].page0)
    ensures {} + {r0} == {r0}
    ensures info[tb].page1 != -1 ==>
              info[tb].page1 >= 0 && info[tb].page1 in lists && Mentions(lists[info[tb].page1], tb)
  {
    HasReference(info, first, next, lists, live, {r0}, tb);
    if r0 == Ref(tb, 1) { assert Ref(tb, 0) !in {r0}; }
  }

  lemma BothGone(info: map<Ptr, Info>, first: map<nat, Ref>, next: map<Ref, Ref>, lists: map<nat, seq<Ref>>,
                 live: set<Ptr>, tb: Ptr, r0: Ref, r1: Ref)
    requires tb in live && tb in info && r0.tb == tb && r1.tb == tb
    requires if info[tb].page1 != -1 then PageOk(info, first, next, lists, live, {r0} + {r1})
             else PageOk(info, first, next, lists, live, {r0})
    requires OnPage(info[tb], r0.tag, info[tb].page0)
    requires info[tb].page1 != -1 ==> info[tb].page1 >= 0 && OnPage(info[tb], r1.tag, info[tb].page1) && r1 != r0
    ensures PageOk(info, first, next, lists, live - {tb}, {})
    ensures forall q, r :: q in lists && r in lists[q] ==> r.tb != tb
  {
    var gone := if info[tb].page1 != -1 then {r0} + {r1} else {r0};
    assert Ref(tb, 0) in gone && (info[tb].page1 != -1 ==> Ref(tb, 1) in gone);
    PageDropped(info, first, next, lists, live, gone, tb);
  }

  /** m with every key in s set to v. */
  ghost function Clear<V>(m: map<Ref, V>, s: seq<Ref>, v: V): map<Ref, V> {
    if s == [] then m else Clear(m, s[..|s| - 1], v)[s[|s| - 1] := v]
  }

  lemma ClearNone(jmp: map<Ref, Ref>, goes: map<Ref, Ptr>)
    ensures Clear(jmp, [], NIL) == jmp && Clear(goes, [], NULL) == goes
  {
  }

  lemma ClearMore(jmp: map<Ref, Ref>, goes: map<Ref, Ptr>, s: seq<Ref>, i: nat)
    requires 1 <= i < |s|
    ensures Clear(jmp, s[1..i + 1], NIL) == Clear(jmp, s[1..i], NIL)[s[i] := NIL]
    ensures Clear(goes, s[1..i + 1], NULL) == Clear(goes, s[1..i], NULL)[s[i] := NULL]
  {
    assert s[1..i + 1] == s[1..i] + [s[i]];
  }

  lemma {:induction false} ClearOther<V>(m: map<Ref, V>, s: seq<Ref>, v: V, x: Ref)
    ensures x in Clear(m, s, v) <==> x in m || x in s
    ensures x in s ==> Clear(m, s, v)[x] == v
    ensures x !in s && x in m ==> Clear(m, s, v)[x] == m[x]
  {
    if s != [] {
      ClearOther(m, s[..|s| - 1], v, x);
      assert s == s[..|s| - 1] + [s[|s| - 1]];
    }
  }

  lemma ClearDrains(jmp: map<Ref, Ref>, target: map<Ref, Ptr>, known: set<Ptr>, tb: Ptr, s: seq<Ref>)
    requires RingOf(jmp, target, known, tb, s)
    ensures Drained(jmp, target, s, Clear(jmp, s[1..], NIL)[Ref(tb, 2) := Ref(tb, 2)], Clear(target, s[1..], NULL))
  {
    var jmp', target' := Clear(jmp, s[1..], NIL), Clear(target, s[1..], NULL);
    Ring0(jmp, target, known, tb, s);
    forall x | x in s[1..] ensures x in jmp && x in target { RingMember(jmp, target, known, tb, s, x); }
    hide RingOf, Clear;
    forall x ensures x in jmp' <==> x in jmp { ClearOther(jmp, s[1..], NIL, x); }
    forall x ensures x in target' <==> x in target { ClearOther(target, s[1..], NULL, x); }
    forall x | x in jmp ensures jmp'[x] == if x in s[1..] then NIL else jmp[x] { ClearOther(jmp, s[1..], NIL, x); }
    forall x | x in target
      ensures target'[x] == if x in s[1..] then NULL else target[x]
    {
      ClearOther(target, s[1..], NULL, x);
    }
  }

  lemma RingMember(jmp: map<Ref, Ref>, target: map<Ref, Ptr>, known: set<Ptr>, t: Ptr, s: seq<Ref>, x: Ref)
    requires RingOf(jmp, target, known, t, s) && x in s[1..]
    ensures x.tag < 2 && x.tb in known && x in target && target[x] == t && x in s && x in jmp && x != s[0]
  {
    var i :| 0 <= i < |s| - 1 && s[1..][i] == x;
    assert s[i + 1] == x;
  }

  lemma Ring0(jmp: map<Ref, Ref>, target: map<Ref, Ptr>, known: set<Ptr>, t: Ptr, s: seq<Ref>)
    requires RingOf(jmp, target, known, t, s)
    ensures |s| > 0 && s[0] == Ref(t, 2) && s[0] in jmp && s[0] !in s[1..] && jmp[s[0]] == Succ(s, 0)
    ensures |s| > 1 ==> s[1].tag < 2
  {
  }

  /** What the draining loop reads at the i-th jump. */
  lemma RingStep(jmp: map<Ref, Ref>, target: map<Ref, Ptr>, known: set<Ptr>, t: Ptr, s: seq<Ref>, i: nat)
    requires RingOf(jmp, target, known, t, s) && 1 <= i < |s|
    ensures s[i] in jmp && s[i] !in s[1..i] && s[i].tag < 2
    ensures jmp[s[i]] == if i + 1 < |s| then s[i + 1] else s[0]
    ensures i + 1 < |s| ==> s[i + 1].tag < 2
    ensures s[0] == Ref(t, 2)
  {
    assert jmp[s[i]] == Succ(s, i);
  }

  /** Every sequence lost at most references to tb. */
  ghost predicate AllSameBut(lists: map<nat, seq<Ref>>, lists': map<nat, seq<Ref>>, tb: Ptr) {
    lists.Keys == lists'.Keys && forall q :: q in lists ==> SameBut(lists[q], lists'[q], tb)
  }

  lemma SameButOne(m: map<nat, seq<Ref>>, p: nat, k: nat, tb: Ptr)
    requires p in m && k < |m[p]| && m[p][k].tb == tb
    ensures AllSameBut(m, m[p := Without(m[p], k)], tb)
  {
    SameButWithout(m[p], k, tb);
  }

  lemma SameButAll(m: map<nat, seq<Ref>>, tb: Ptr)
    ensures AllSameBut(m, m, tb)
  {
  }

  lemma SameButTrans(m0: map<nat, seq<Ref>>, m1: map<nat, seq<Ref>>, m2: map<nat, seq<Ref>>, tb: Ptr)
    requires AllSameBut(m0, m1, tb) && AllSameBut(m1, m2, tb)
    ensures AllSameBut(m0, m2, tb)
  {
  }

  /** t is s less some references to tb. */
  ghost predicate SameBut(s: seq<Ref>, t: seq<Ref>, tb: Ptr) {
    DropTb(t, tb) == DropTb(s, tb) && forall r :: r in t ==> r in s
  }

  lemma SameButWithout(s: seq<Ref>, k: nat, tb: Ptr)
    requires k < |s| && s[k].tb == tb
    ensures SameBut(s, Without(s, k), tb)
  {
    DropTbWithout(s, k, tb);
  }

  lemma RingFacts(jmp: map<Ref, Ref>, target: map<Ref, Ptr>, rings: map<Ptr, seq<Ref>>, known: set<Ptr>, t: Ptr)
    requires JumpOk(jmp, target, rings, known) && t in known
    ensures rings.Keys == known && RingOf(jmp, target, known, t, rings[t]) && |rings[t]| > 0
  {
  }

  /** Jump r is chained to t exactly when it is on t's ring. */
  lemma OnRing(jmp: map<Ref, Ref>, target: map<Ref, Ptr>, rings: map<Ptr, seq<Ref>>, known: set<Ptr>, t: Ptr, r: Ref)
    requires JumpOk(jmp, target, rings, known) && t in known && r.tb in known && r.tag < 2
    ensures rings.Keys == known && r in target
    ensures r in rings[t][1..] <==> target[r] == t
  {
    var s := rings[t];
    assert RingOf(jmp, target, known, t, s);
    assert SlotOk(jmp, target, rings, Ref(r.tb, 0)) && SlotOk(jmp, target, rings, Ref(r.tb, 1));
    assert r == Ref(r.tb, 0) || r == Ref(r.tb, 1);
    if target[r] == t { RingTail(s, r); }
    if r in s[1..] { RingMember(jmp, target, known, t, s, r); }
  }

  lemma RingClean(jmp: map<Ref, Ref>, target: map<Ref, Ptr>, known: set<Ptr>, t: Ptr, s: seq<Ref>, tb: Ptr, r: Ref)
    requires RingOf(jmp, target, known, t, s) && t != tb && t != NULL && r in s
    requires forall n :: 0 <= n < 2 ==> Ref(tb, n) in target && target[Ref(tb, n)] == NULL
    ensures r.tb != tb
  {
    OneRing(jmp, target, known, t, s, r);
    assert r == Ref(r.tb, r.tag);
  }

  ghost predicate JumpReset(goes: map<Ref, Ptr>, goes': map<Ref, Ptr>, target: map<Ref, Ptr>, tb: Ptr, r: Ref) {
    && r in goes && r in goes' && r in target
    && goes'[r] == if r.tb != tb && target[r] == tb then NULL else goes[r]
  }

  lemma GoAfter(jmp: map<Ref, Ref>, target0: map<Ref, Ptr>, target: map<Ref, Ptr>, rings: map<Ptr, seq<Ref>>,
                goes: map<Ref, Ptr>,
                known: set<Ptr>, live: set<Ptr>, tb: Ptr, r: Ref)
    requires GoOk(goes, target0, live, r) && JumpOk(jmp, target, rings, known) && tb in live && live <= known
             && r.tb in known && r.tag < 2
    requires r in target && target[r] == if r.tb == tb then NULL else target0[r]
    ensures tb in rings
    ensures var s := rings[tb][1..];
            && GoOk(Clear(goes, s, NULL), Clear(target, s, NULL), live - {tb}, r)
            && JumpReset(goes, Clear(goes, s, NULL), target0, tb, r)
  {
    OnRing(jmp, target, rings, known, tb, r);
    ClearOther(goes, rings[tb][1..], NULL, r);
    ClearOther(target, rings[tb][1..], NULL, r);
    assert NULL !in known;
    hide Clear, JumpOk;
  }

  lemma GoesAfter(jmp: map<Ref, Ref>, target0: map<Ref, Ptr>, target: map<Ref, Ptr>, rings: map<Ptr, seq<Ref>>,
                  goes: map<Ref, Ptr>,
                  known: set<Ptr>, live: set<Ptr>, tb: Ptr)
    requires GoesOk(goes, target0, known, live) && JumpOk(jmp, target, rings, known) && tb in live && live <= known
    requires Ref(tb, 0) in target0 && Ref(tb, 1) in target0 && target == target0[Ref(tb, 0) := NULL][Ref(tb, 1) := NULL]
    ensures tb in rings
    ensures var s := rings[tb][1..];
            && GoesOk(Clear(goes, s, NULL), Clear(target, s, NULL), known, live - {tb})
            && JumpsReset(goes, Clear(goes, s, NULL), target0, known, tb)
  {
    hide Clear, JumpOk, GoOk, JumpReset, RingOf;
    RingFacts(jmp, target, rings, known, tb);
    var s := rings[tb][1..];
    forall r: Ref | r.tb in known && r.tag < 2
      ensures GoOk(Clear(goes, s, NULL), Clear(target, s, NULL), live - {tb}, r)
              && JumpReset(goes, Clear(goes, s, NULL), target0, tb, r)
    {
      GoIn(goes, target0, live, r);
      TwoUnset(target0, target, tb, r);
      GoAfter(jmp, target0, target, rings, goes, known, live, tb, r);
    }
  }

  lemma TwoUnset(target0: map<Ref, Ptr>, target: map<Ref, Ptr>, tb: Ptr, r: Ref)
    requires target == target0[Ref(tb, 0) := NULL][Ref(tb, 1) := NULL] && r.tag < 2 && r in target0
    ensures r in target && target[r] == if r.tb == tb then NULL else target0[r]
  {
    if r.tb == tb { assert r == Ref(tb, 0) || r == Ref(tb, 1); }
  }

  lemma GoIn(goes: map<Ref, Ptr>, target: map<Ref, Ptr>, live: set<Ptr>, r: Ref)
    requires GoOk(goes, target, live, r)
    ensures r in target && r in goes
  {
  }

  lemma RingsAfter(m0: map<Ptr, seq<Ref>>, jmp: map<Ref, Ref>, target: map<Ref, Ptr>, rings: map<Ptr, seq<Ref>>,
                   known: set<Ptr>, tb: Ptr)
    requires AllSameBut(m0, rings, tb) && JumpOk(jmp, target, rings, known) && tb in known
    requires forall n :: 0 <= n < 2 ==> Ref(tb, n) in target && target[Ref(tb, n)] == NULL
    ensures RingsCut(m0, rings[tb := [Ref(tb, 2)]], known, tb)
  {
    hide RingOf, SlotsOk;
    forall t | t in known && t != tb ensures rings[t] == DropTb(m0[t], tb) {
      forall r | r in rings[t] ensures r.tb != tb { RingClean(jmp, target, known, t, rings[t], tb, r); }
      DropTbNone(rings[t], tb);
    }
  }

  /** Where a chained jump stands on its target's ring. */
  lemma Place(jmp: map<Ref, Ref>, target: map<Ref, Ptr>, rings: map<Ptr, seq<Ref>>, known: set<Ptr>, r: Ref)
              returns (k: nat)
    requires JumpOk(jmp, target, rings, known) && r.tb in known && r.tag < 2
    ensures r in jmp && r in target && rings.Keys == known
    ensures jmp[r] == NIL ==> target[r] == NULL
    ensures jmp[r] != NIL ==> Detachable(jmp, target, rings, known, r, k) && IsRing(jmp, rings[target[r]])
  {
    assert SlotOk(jmp, target, rings, Ref(r.tb, 0)) && SlotOk(jmp, target, rings, Ref(r.tb, 1));
    assert r == Ref(r.tb, 0) || r == Ref(r.tb, 1);
    k := 0;
    if target[r] != NULL {
      var s := rings[target[r]];
      assert RingOf(jmp, target, known, target[r], s);
      k := IndexOf(s, r);
      NotNil(jmp, target, known, target[r], s, k);
    }
  }

  lemma NotNil(jmp: map<Ref, Ref>, target: map<Ref, Ptr>, known: set<Ptr>, t: Ptr, s: seq<Ref>, k: nat)
    requires RingOf(jmp, target, known, t, s) && k < |s| && NULL !in known
    ensures jmp[s[k]] != NIL
  {
    assert jmp[s[k]] == Succ(s, k);
  }

  lemma Predecessor(jmp: map<Ref, Ref>, s: seq<Ref>, k: nat, i: nat)
    requires IsRing(jmp, s) && 0 < k < |s| && i < |s| && jmp[s[i]] == s[k]
    ensures i == k - 1
  {
    assert jmp[s[i]] == Succ(s, i);
  }
}
