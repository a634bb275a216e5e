/** Self-modifying code (translate-all.c): a page's code bitmap, the walk that
    invalidates the blocks a store hits, and the fast test in front of it. */
module CodeBitmap {
  import opened Machine
  import opened Chains
  import opened TbCache

  // ------------------------------------------------------------ setting bits

  /** 0xff << k, and its complement. */
  lemma HighMask(k: nat, j: nat)
    requires k < 8 && j < 8
    ensures Bit(0xff << k, j) <==> k <= j
    ensures Bit(!(0xff << k), j) <==> j < k
  {
    var b: bv8 := 0xff;
    if k == 0 {
      Each(b << 0);
    } else if k == 1 {
      Each(b << 1);
    } else if k == 2 {
      Each(b << 2);
    } else if k == 3 {
      Each(b << 3);
    } else if k == 4 {
      Each(b << 4);
    } else if k == 5 {
      Each(b << 5);
    } else if k == 6 {
      Each(b << 6);
    } else {
      Each(b << 7);
    }
  }

  /** Bit by bit. */
  lemma Each(b: bv8)
    ensures Bit(b, 0) == (b & 1 == 1) && Bit(b, 1) == (b & 2 == 2) && Bit(b, 2) == (b & 4 == 4)
            && Bit(b, 3) == (b & 8 == 8)
    ensures Bit(b, 4) == (b & 16 == 16) && Bit(b, 5) == (b & 32 == 32) && Bit(b, 6) == (b & 64 == 64)
            && Bit(b, 7) == (b & 128 == 128)
  {
  }

  lemma BitOr(a: bv8, b: bv8, j: nat)
    requires j < 8
    ensures Bit(a | b, j) <==> Bit(a, j) || Bit(b, j)
  {
    Each(a);
    Each(b);
    Each(a | b);
    hide Bit;
    if j == 0 {} else if j == 1 {} else if j == 2 {} else if j == 3 {} else if j == 4 {} else if j == 5 {}
      else if j == 6 {} else {}
  }

  lemma BitAnd(a: bv8, b: bv8, j: nat)
    requires j < 8
    ensures Bit(a & b, j) <==> Bit(a, j) && Bit(b, j)
  {
    Each(a);
    Each(b);
    Each(a & b);
    hide Bit;
    if j == 0 {} else if j == 1 {} else if j == 2 {} else if j == 3 {} else if j == 4 {} else if j == 5 {}
      else if j == 6 {} else {}
  }

  lemma BitConst(j: nat)
    requires j < 8
    ensures Bit(0xff, j) && !Bit(0, j)
  {
    Each(0xff);
    Each(0);
  }

  lemma Low2(b: bv8, k: nat)
    requires k == 0 || k == 2 || k == 4 || k == 6
    ensures (b >> k) & 3 != 0 <==> Bit(b, k) || Bit(b, k + 1)
  {
    Each(b);
    hide Bit;
    if k == 0 { assert (b >> 0) & 3 == b & 3; } else if k == 2 {} else if k == 4 {} else {}
  }

  lemma Low4(b: bv8, k: nat)
    requires k == 0 || k == 4
    ensures (b >> k) & 15 != 0 <==> Bit(b, k) || Bit(b, k + 1) || Bit(b, k + 2) || Bit(b, k + 3)
  {
    Each(b);
    hide Bit;
    if k == 0 {} else {}
  }

  lemma Low8(b: bv8)
    ensures b != 0 <==>
              Bit(b, 0) || Bit(b, 1) || Bit(b, 2) || Bit(b, 3) || Bit(b, 4) || Bit(b, 5) || Bit(b, 6) || Bit(b, 7)
  {
    Each(b);
    hide Bit;
  }

  /** Some bit from lo to hi is set. */
  ghost predicate AnyBit(b: bv8, lo: nat, hi: nat) { exists i :: lo <= i < hi && i < 8 && Bit(b, i) }

  /** What the fast path tests: len bits from k on. */
  function TestBits(b: bv8, k: nat, len: nat): bool
    requires len <= 8 && k < 8
  {
    (b >> k) & ((1 << len) - 1) != 0
  }

  lemma LowMask(b: bv8, k: nat, len: nat)
    requires (len == 1 || len == 2 || len == 4 || len == 8) && k < 8 && k % len == 0
    ensures TestBits(b, k, len) <==> AnyBit(b, k, k + len)
  {
    if len == 1 {
      Masks(b, k);
      assert TestBits(b, k, 1) <==> Bit(b, k);
      hide Bit, TestBits;
    } else if len == 2 {
      Masks(b, k);
      Low2(b, k);
      hide Bit;
      assert TestBits(b, k, 2) <==> Bit(b, k) || Bit(b, k + 1);
    } else if len == 4 {
      Masks(b, k);
      Low4(b, k);
      hide Bit;
      assert TestBits(b, k, 4) <==> Bit(b, k) || Bit(b, k + 1) || Bit(b, k + 2) || Bit(b, k + 3);
    } else {
      Masks(b, k);
      Low8(b);
      hide Bit;
    }
  }

  lemma Masks(b: bv8, k: nat)
    requires k < 8
    ensures (1 as bv8 << 1) - 1 == 1 && (1 as bv8 << 2) - 1 == 3 && (1 as bv8 << 4) - 1 == 15
            && (1 as bv8 << 8) - 1 == 255
    ensures b >> 0 == b && b & 255 == b
  {
  }

  /** s1 is s0 with the bits from lo to hi set. */
  ghost predicate Marks(s0: seq<bv8>, s1: seq<bv8>, lo: nat, hi: nat) {
    |s1| == |s0| && forall o :: 0 <= o < 8 * |s0| ==> (BitAt(s1, o) <==> BitAt(s0, o) || lo <= o < hi)
  }

  /** The bits of one byte that lie between lo and hi. */
  ghost predicate MaskOf(mask: bv8, t: nat, lo: nat, hi: nat) {
    forall j :: 0 <= j < 8 ==> (Bit(mask, j) <==> lo <= 8 * t + j < hi)
  }

  /** Replacing byte t by b, which has the bits from lo to hi set besides the old ones. */
  lemma MarkWith(s: seq<bv8>, t: nat, b: bv8, lo: nat, hi: nat)
    requires t < |s| && 8 * t <= lo <= hi <= 8 * t + 8
    requires forall j :: 0 <= j < 8 ==> (Bit(b, j) <==> Bit(s[t], j) || lo <= 8 * t + j < hi)
    ensures Marks(s, s[t := b], lo, hi)
  {
    hide Bit;
    var s' := s[t := b];
    forall o | 0 <= o < 8 * |s| ensures BitAt(s', o) <==> BitAt(s, o) || lo <= o < hi {
      Split(o);
    }
  }

  lemma Split(o: nat)
    ensures o == 8 * (o / 8) + o % 8
  {
  }

  lemma MarkByte(s: seq<bv8>, t: nat, mask: bv8, lo: nat, hi: nat)
    requires t < |s| && MaskOf(mask, t, lo, hi) && 8 * t <= lo <= hi <= 8 * t + 8
    ensures Marks(s, s[t := s[t] | mask], lo, hi)
  {
    hide Bit;
    var b := s[t] | mask;
    forall j | 0 <= j < 8 ensures Bit(b, j) <==> Bit(s[t], j) || lo <= 8 * t + j < hi { BitOr(s[t], mask, j); }
    MarkWith(s, t, b, lo, hi);
  }

  lemma MarkWhole(s: seq<bv8>, t: nat)
    requires t < |s|
    ensures Marks(s, s[t := 0xff], 8 * t, 8 * t + 8)
  {
    hide Bit;
    forall j | 0 <= j < 8 ensures Bit(0xff, j) { BitConst(j); }
    MarkWith(s, t, 0xff, 8 * t, 8 * t + 8);
  }

  lemma MarksTrans(s0: seq<bv8>, s1: seq<bv8>, s2: seq<bv8>, lo: nat, mid: nat, hi: nat)
    requires Marks(s0, s1, lo, mid) && Marks(s1, s2, mid, hi) && lo <= mid <= hi
    ensures Marks(s0, s2, lo, hi)
  {
    hide BitAt;
  }

  lemma FirstMask(start: nat)
    ensures MaskOf(0xff << (start % 8), start / 8, start, 8 * (start / 8) + 8)
  {
    hide Bit;
    var mask: bv8 := 0xff << (start % 8);
    forall j | 0 <= j < 8 ensures Bit(mask, j) <==> start <= 8 * (start / 8) + j { HighMask(start % 8, j); }
  }

  lemma LastMask(end: nat)
    ensures MaskOf(!(0xff << (end % 8)), end / 8, 8 * (end / 8), end)
  {
    hide Bit;
    var mask: bv8 := !(0xff << (end % 8));
    forall j | 0 <= j < 8 ensures Bit(mask, j) <==> 8 * (end / 8) + j < end { HighMask(end % 8, j); }
  }

  lemma BothMask(start: nat, end: nat)
    requires start / 8 == end / 8
    ensures MaskOf((0xff << (start % 8)) & !(0xff << (end % 8)), start / 8, start, end)
  {
    FirstMask(start);
    LastMask(end);
    hide Bit;
    var mask: bv8 := (0xff << (start % 8)) & !(0xff << (end % 8));
    forall j | 0 <= j < 8 ensures Bit(mask, j) <==> start <= 8 * (start / 8) + j < end {
      BitAnd(0xff << (start % 8), !(0xff << (end % 8)), j);
    }
  }

  /** set_bits. */
  method SetBits(tab: array<bv8>, start: nat, len: nat)
    requires start + len <= 8 * tab.Length
    modifies tab
    ensures Marks(old(tab[..]), tab[..], start, start + len)
  {
    hide Bit, BitAt, Marks, MaskOf;
    var end := start + len;
    if start / 8 == end / 8 {
      if start < end {
        BothMask(start, end);
        OrByte(tab, start / 8, (0xff << (start % 8)) & !(0xff << (end % 8)), start, end);
      } else {
        NoMarks(tab[..], start);
      }
    } else {
      FirstMask(start);
      OrByte(tab, start / 8, 0xff << (start % 8), start, 8 * (start / 8) + 8);
      ghost var first := tab[..];
      var t := WholeBytes(tab, start / 8 + 1, end / 8);
      MarksTrans(old(tab[..]), first, tab[..], start, 8 * (start / 8) + 8, 8 * t);
      if 8 * t < end {
        ghost var whole := tab[..];
        LastMask(end);
        OrByte(tab, t, !(0xff << (end % 8)), 8 * t, end);
        MarksTrans(old(tab[..]), whole, tab[..], start, 8 * t, end);
      }
    }
  }

  /** The bits of one byte. */
  method OrByte(tab: array<bv8>, t: nat, mask: bv8, ghost start: nat, ghost end: nat)
    requires t < tab.Length && 8 * t <= start <= end <= 8 * t + 8 && MaskOf(mask, t, start, end)
    modifies tab
    ensures Marks(old(tab[..]), tab[..], start, end)
  {
    hide Bit, BitAt, Marks, MaskOf;
    MarkByte(tab[..], t, mask, start, end);
    tab[t] := tab[t] | mask;
    assert tab[..] == old(tab[..])[t := tab[t]];
  }

  /** All bits of the bytes from one to another. */
  method WholeBytes(tab: array<bv8>, from: nat, to: nat) returns (t: nat)
    requires from <= to <= tab.Length
    modifies tab
    ensures t == to && Marks(old(tab[..]), tab[..], 8 * from, 8 * to)
  {
    hide Bit, BitAt, Marks;
    t := from;
    NoMarks(tab[..], 8 * from);
    while t < to
      invariant from <= t <= to && Marks(old(tab[..]), tab[..], 8 * from, 8 * t)
    {
      MarkWhole(tab[..], t);
      MarksTrans(old(tab[..]), tab[..], tab[..][t := 0xff], 8 * from, 8 * t, 8 * t + 8);
      tab[t] := 0xff;
      t := t + 1;
    }
  }

  lemma NoMarks(s: seq<bv8>, o: nat)
    ensures Marks(s, s, o, o)
  {
  }

  // ------------------------------------------------------------ building a bitmap

  /** The offsets set_bits is asked to mark are the covered ones. */
  function SpanStart(i: Info, tag: nat): (o: nat)
    ensures o <= PAGE
  {
    if tag == 0 then i.pc % PAGE else 0
  }

  function SpanEnd(i: Info, tag: nat): (o: nat)
    ensures o <= PAGE
  {
    if tag == 0 then (if i.pc % PAGE + i.size > PAGE then PAGE else i.pc % PAGE + i.size) else (i.pc + i.size) % PAGE
  }

  lemma CoverMore(info: map<Ptr, Info>, s: seq<Ref>, r: Ref, bm: seq<bv8>, bm': seq<bv8>)
    requires IsBitmap(info, s, bm) && r.tb in info
             && Marks(bm, bm', SpanStart(info[r.tb], r.tag), SpanEnd(info[r.tb], r.tag))
    ensures IsBitmap(info, s + [r], bm')
  {
    hide BitAt;
    forall o | 0 <= o < PAGE ensures BitAt(bm', o) <==> Covered(info, s + [r], o) {
      CoveredMore(info, s, r, o);
      assert BitAt(bm, o) <==> Covered(info, s, o);
    }
  }

  lemma CoveredMore(info: map<Ptr, Info>, s: seq<Ref>, r: Ref, o: nat)
    requires r.tb in info
    ensures Covered(info, s + [r], o) <==> Covered(info, s, o) || Covers(info[r.tb], r.tag, o)
  {
    hide Covers;
    assert r in s + [r];
  }

  lemma CoverNone(info: map<Ptr, Info>, bm: seq<bv8>)
    requires |bm| == PAGE / 8 && forall t :: 0 <= t < |bm| ==> bm[t] == 0
    ensures IsBitmap(info, [], bm)
  {
    hide Bit;
    forall o | 0 <= o < PAGE ensures !BitAt(bm, o) { BitConst(o % 8); }
  }

  /** build_page_bitmap. */
  method BuildBitmap(c: TbContext, p: nat)
    requires c.Valid() && p in c.lists
    modifies c`bitmaps
    ensures c.Valid() && c.bitmaps.Keys == old(c.bitmaps).Keys + {p}
    ensures forall q :: q in old(c.bitmaps) && q != p ==> c.bitmaps[q] == old(c.bitmaps)[q]
  {
    hide BitmapsOk, HashOk, PageOk, JumpOk, GoesOk, CacheOk, WatchOk, IsBitmap;
    var bm := DrawBitmap(c, p);
    OneBitmap(c.info, c.lists, c.bitmaps, p, bm);
    c.bitmaps := c.bitmaps[p := bm];
  }

  /** The loop over the page's blocks. */
  method DrawBitmap(c: TbContext, p: nat) returns (bm: seq<bv8>)
    requires PageOk(c.info, c.pageFirst, c.pageNext, c.lists, c.live, {}) && p in c.lists
    ensures IsBitmap(c.info, c.lists[p], bm)
  {
    hide PageOk, IsBitmap, Marks, SpanStart, SpanEnd;
    var tab := new bv8[PAGE / 8](_ => 0);
    CoverNone(c.info, tab[..]);
    PageChain(c.info, c.pageFirst, c.pageNext, c.lists, c.live, {}, p);
    ghost var s, k := c.lists[p], 0;
    var r := c.pageFirst[p];
    while r != NIL
      invariant k <= |s| && r == At(s, NIL, k) && tab.Length == PAGE / 8 && IsBitmap(c.info, s[..k], tab[..])
      decreases |s| - k
      modifies tab
    {
      PageMember(c.info, c.pageFirst, c.pageNext, c.lists, c.live, {}, p, k);
      ghost var before := tab[..];
      var i := c.info[r.tb];
      SpanOrder(i, r.tag);
      SetBits(tab, SpanStart(i, r.tag), SpanEnd(i, r.tag) - SpanStart(i, r.tag));
      CoverMore(c.info, s[..k], r, before, tab[..]);
      assert s[..k + 1] == s[..k] + [r];
      r := c.pageNext[r];
      k := k + 1;
    }
    assert s[..k] == s;
    return tab[..];
  }

  lemma OneBitmap(info: map<Ptr, Info>, lists: map<nat, seq<Ref>>, bitmaps: map<nat, seq<bv8>>, p: nat, bm: seq<bv8>)
    requires BitmapsOk(info, lists, bitmaps) && p in lists && IsBitmap(info, lists[p], bm)
    ensures BitmapsOk(info, lists, bitmaps[p := bm])
  {
  }

  lemma SpanOrder(i: Info, tag: nat)
    ensures SpanStart(i, tag) <= SpanEnd(i, tag) <= PAGE
  {
  }

  // ------------------------------------------------------------ which blocks a store hits

  /** The physical address of byte j of a block. */
  ghost function ByteAt(i: Info, j: nat): int {
    (if i.pc % PAGE + j < PAGE then i.page0 else i.page1) * PAGE + (i.pc + j) % PAGE
  }

  /** The block has a byte in [start, end). */
  ghost predicate Hits(i: Info, start: int, end: int) { exists j :: 0 <= j < i.size && start <= ByteAt(i, j) < end }

  /** The overlap test of the walk, from the page the reference is listed on. */
  predicate Overlap(i: Info, tag: nat, start: nat, end: nat) {
    var first := if tag == 0 then i.page0 * PAGE + i.pc % PAGE else i.page1 * PAGE;
    var last := if tag == 0 then first + i.size else first + (i.pc + i.size) % PAGE;
    !(last <= start || first >= end)
  }

  function Clip(start: nat, end: nat): (e: nat) {
    var top := (start / PAGE + 1) * PAGE;
    if end < top then end else top
  }

  /** Byte j's place: its page and its offset on it. */
  lemma BytePlace(i: Info, j: nat)
    requires Sized(i) && j < i.size
    ensures i.pc % PAGE + j < PAGE ==> ByteAt(i, j) == i.page0 * PAGE + i.pc % PAGE + j
    ensures i.pc % PAGE + j >= PAGE ==> i.page1 >= 0 && ByteAt(i, j) == i.page1 * PAGE + (i.pc % PAGE + j - PAGE)
  {
    var q, o := i.pc / PAGE, i.pc % PAGE;
    assert i.pc + j == q * PAGE + (o + j);
    if o + j < PAGE {
      assert (i.pc + j) % PAGE == o + j;
    } else {
      assert i.pc + j == (q + 1) * PAGE + (o + j - PAGE);
      assert (i.pc + j) % PAGE == o + j - PAGE;
    }
  }

  lemma SecondPart(i: Info)
    requires Sized(i) && i.page1 != -1
    ensures (i.pc + i.size) % PAGE == i.pc % PAGE + i.size - PAGE
  {
    BytePlace(i, i.size - 1);
    var q, o := i.pc / PAGE, i.pc % PAGE;
    assert i.pc + i.size == (q + 1) * PAGE + (o + i.size - PAGE);
  }

  lemma OverlapFirst(i: Info, start: nat, end: nat)
    requires Sized(i) && start / PAGE == i.page0 && start < end
    ensures Overlap(i, 0, start, end) <==> Hits(i, start, Clip(start, end))
  {
    var first := i.page0 * PAGE + i.pc % PAGE;
    if Overlap(i, 0, start, end) {
      var a := if first < start then start else first;
      BytePlace(i, a - first);
      assert start <= ByteAt(i, a - first) < Clip(start, end);
    }
    if Hits(i, start, Clip(start, end)) {
      var j :| 0 <= j < i.size && start <= ByteAt(i, j) < Clip(start, end);
      BytePlace(i, j);
    }
  }

  lemma OverlapSecond(i: Info, start: nat, end: nat)
    requires Sized(i) && start / PAGE == i.page1 && start < end
    ensures Overlap(i, 1, start, end) <==> Hits(i, start, Clip(start, end))
  {
    SecondPart(i);
    var j0 := PAGE - i.pc % PAGE + (start - i.page1 * PAGE);
    if Overlap(i, 1, start, end) {
      BytePlace(i, j0);
      assert start <= ByteAt(i, j0) < Clip(start, end);
    }
    if Hits(i, start, Clip(start, end)) {
      var j :| 0 <= j < i.size && start <= ByteAt(i, j) < Clip(start, end);
      BytePlace(i, j);
    }
  }

  /** On the page of start, the walk's test finds exactly the blocks that are hit. */
  lemma OverlapHits(i: Info, tag: nat, p: nat, start: nat, end: nat)
    requires Sized(i) && OnPage(i, tag, p) && start / PAGE == p && start < end
    ensures Overlap(i, tag, start, end) <==> Hits(i, start, Clip(start, end))
  {
    if tag == 0 { OverlapFirst(i, start, end); } else { OverlapSecond(i, start, end); }
  }

  /** A block that is hit lists the page of start. */
  lemma HitsPage(i: Info, start: nat, end: nat)
    requires Sized(i) && Hits(i, start, Clip(start, end))
    ensures i.page0 == start / PAGE || i.page1 == start / PAGE
  {
    var j :| 0 <= j < i.size && start <= ByteAt(i, j) < Clip(start, end);
    BytePlace(i, j);
  }

  // ------------------------------------------------------------ the walk

  /** The blocks whose references in s overlap the range. */
  ghost function Struck(info: map<Ptr, Info>, s: seq<Ref>, start: nat, end: nat): set<Ptr> {
    if s == [] then {} else
      var r := s[|s| - 1];
      Struck(info, s[..|s| - 1], start, end) + if r.tb in info && Overlap(info[r.tb], r.tag, start, end) then {r.tb}
        else {}
  }

  lemma {:induction false} StruckIff(info: map<Ptr, Info>, s: seq<Ref>, start: nat, end: nat, tb: Ptr)
    ensures tb in Struck(info, s, start, end) <==>
              exists r :: r in s && r.tb == tb && tb in info && Overlap(info[tb], r.tag, start, end)
  {
    hide Overlap;
    if s != [] {
      StruckIff(info, s[..|s| - 1], start, end, tb);
      assert s == s[..|s| - 1] + [s[|s| - 1]];
    }
  }

  lemma StruckMore(info: map<Ptr, Info>, s: seq<Ref>, k: nat, start: nat, end: nat)
    requires k < |s| && s[k].tb in info
    ensures Struck(info, s[..k + 1], start, end)
         == Struck(info, s[..k], start, end) + if Overlap(info[s[k].tb], s[k].tag, start, end) then {s[k].tb} else {}
  {
    assert s[..k + 1][..k] == s[..k];
  }

  /** A page lists a block once. */
  lemma OneReference(info: map<Ptr, Info>, first: map<nat, Ref>, next: map<Ref, Ref>, lists: map<nat, seq<Ref>>,
                     live: set<Ptr>, p: nat, k: nat)
    requires PageOk(info, first, next, lists, live, {}) && AllSized(info, live) && p in lists && k < |lists[p]|
    ensures DropTb(lists[p], lists[p][k].tb) == Without(lists[p], k)
  {
    var s, tb := lists[p], lists[p][k].tb;
    forall j | 0 <= j < |s| && j != k ensures s[j].tb != tb {
      PageMember(info, first, next, lists, live, {}, p, j);
      PageMember(info, first, next, lists, live, {}, p, k);
      PageChain(info, first, next, lists, live, {}, p);
      assert s[j] != s[k];
      assert s[j] in s && s[k] in s;
    }
    hide PageOk, AllSized, IsChain;
    var w := Without(s, k);
    forall r | r in w ensures r.tb != tb {
      var j :| 0 <= j < |w| && w[j] == r;
      assert w[j] == s[if j < k then j else j + 1];
    }
    DropTbWithout(s, k, tb);
    DropTbNone(w, tb);
  }

  /** Invalidating the block of the k-th reference of a page. */
  method Strike(c: TbContext, p: nat, r: Ref, ghost k: nat)
    requires c.Valid() && AllSized(c.info, c.live) && p in c.lists && k < |c.lists[p]| && c.lists[p][k] == r
    modifies c
    ensures c.Valid() && AllSized(c.info, c.live) && c.info == old(c.info) && c.known == old(c.known)
            && c.watched == old(c.watched)
    ensures c.live == old(c.live) - {r.tb} && p in c.lists && c.lists[p] == Without(old(c.lists)[p], k)
    ensures Forgotten(old(c.cache), c.cache, r.tb) && Unchained(old(c.target), c.target)
  {
    hide BitmapsOk, HashOk, PageOk, JumpOk, GoesOk, CacheOk, WatchOk, AllSized, AllWithout, Without, DropTb,
         RingsCut, JumpsReset, Forgotten,
         Minus, HashOf;
    OneReference(c.info, c.pageFirst, c.pageNext, c.lists, c.live, p, k);
    MemberLive(c.info, c.pageFirst, c.pageNext, c.lists, c.live, p, k);
    c.Invalidate(r.tb);
    ListAfter(old(c.lists), c.lists, r.tb, p);
    FewerSized(c.info, old(c.live), c.live);
  }

  /** The loop of tb_invalidate_phys_page_range. */
  method WalkPage(c: TbContext, p: nat, start: nat, end: nat)
    requires c.Valid() && AllSized(c.info, c.live) && p in c.lists
    modifies c
    ensures c.Valid() && c.info == old(c.info) && c.known == old(c.known) && c.watched == old(c.watched) && p in c.lists
    ensures c.live == old(c.live) - Struck(c.info, old(c.lists)[p], start, end)
    ensures Shrunk(old(c.cache), c.cache) && Unchained(old(c.target), c.target)
  {
    hide BitmapsOk, HashOk, PageOk, JumpOk, GoesOk, CacheOk, WatchOk, Overlap, Struck, AllSized, Without, IsChain,
         Forgotten, Shrunk, Unchained;
    ShrunkSame(c.cache);
    UnchainedSame(c.target);
    ghost var s, a: seq<Ref>, k := c.lists[p], [], 0;
    PageHead(c.info, c.pageFirst, c.pageNext, c.lists, c.live, {}, p);
    var r := c.pageFirst[p];
    StruckNone(c.info, s, start, end);
    assert [] + s[0..] == s;
    while r != NIL
      invariant c.Valid() && c.info == old(c.info) && c.known == old(c.known) && c.watched == old(c.watched)
                && AllSized(c.info, c.live)
      invariant k <= |s| && r == At(s, NIL, k) && p in c.lists && c.lists[p] == a + s[k..]
      invariant c.live == old(c.live) - Struck(c.info, s[..k], start, end)
      invariant Shrunk(old(c.cache), c.cache) && Unchained(old(c.target), c.target)
      decreases |s| - k
    {
      ghost var cache, target := c.cache, c.target;
      r, a := WalkOne(c, p, r, a, s, k, start, end);
      StruckMore(c.info, s, k, start, end);
      ShrunkOn(old(c.cache), cache, c.cache);
      UnchainedOn(old(c.target), target, c.target);
      k := k + 1;
    }
    assert s[..k] == s;
  }

  /** One turn of it: the next reference is read before the block of this one may go. */
  method WalkOne(c: TbContext, p: nat, r: Ref, ghost a: seq<Ref>, ghost s: seq<Ref>, ghost k: nat, start: nat, end: nat)
    returns (next: Ref, ghost a': seq<Ref>)
    requires c.Valid() && AllSized(c.info, c.live) && p in c.lists
    requires k < |s| && r == s[k] && c.lists[p] == a + s[k..]
    modifies c
    ensures c.Valid() && c.info == old(c.info) && c.known == old(c.known) && c.watched == old(c.watched)
    ensures AllSized(c.info, c.live) && r.tb in c.info
    ensures Shrunk(old(c.cache), c.cache) && Unchained(old(c.target), c.target)
    ensures next == At(s, NIL, k + 1) && p in c.lists && c.lists[p] == a' + s[k + 1..]
    ensures c.live == old(c.live) - if Overlap(c.info[r.tb], r.tag, start, end) then {r.tb} else {}
  {
    hide BitmapsOk, HashOk, PageOk, JumpOk, GoesOk, CacheOk, WatchOk, Overlap, AllSized, Without, IsChain, Forgotten,
         Shrunk, Unchained;
    ShrunkSame(c.cache);
    UnchainedSame(c.target);
    WalkStep(c.info, c.pageFirst, c.pageNext, c.lists, c.live, p, a, s, k);
    next, a' := c.pageNext[r], a;
    if Overlap(c.info[r.tb], r.tag, start, end) {
      ghost var cache := c.cache;
      Strike(c, p, r, |a|);
      ShrunkMore(old(c.cache), cache, c.cache, r.tb);
    } else {
      a' := a + [r];
    }
  }

  lemma PageHead(info: map<Ptr, Info>, first: map<nat, Ref>, next: map<Ref, Ref>, lists: map<nat, seq<Ref>>,
                 live: set<Ptr>, gone: set<Ref>, p: nat)
    requires PageOk(info, first, next, lists, live, gone) && p in lists
    ensures p in first && first[p] == At(lists[p], NIL, 0) && forall j :: 0 <= j < |lists[p]| ==> lists[p][j] != NIL
  {
  }

  /** What the walk reads at the k-th of the references it started with. */
  lemma WalkStep(info: map<Ptr, Info>, first: map<nat, Ref>, next: map<Ref, Ref>, lists: map<nat, seq<Ref>>,
                 live: set<Ptr>, p: nat,
                 a: seq<Ref>, s: seq<Ref>, k: nat)
    requires PageOk(info, first, next, lists, live, {}) && p in lists && k < |s| && lists[p] == a + s[k..]
    ensures lists[p][|a|] == s[k] && s[k] in next && next[s[k]] == At(s, NIL, k + 1) && s[k].tb in info
    ensures Without(lists[p], |a|) == a + s[k + 1..] && lists[p] == (a + [s[k]]) + s[k + 1..]
  {
    hide PageOk, IsChain;
    PageChain(info, first, next, lists, live, {}, p);
    Middle(a, s, k);
    PageMember(info, first, next, lists, live, {}, p, |a|);
    NextOf(next, first[p], a, s, k);
  }

  lemma StruckNone(info: map<Ptr, Info>, s: seq<Ref>, start: nat, end: nat)
    ensures Struck(info, s[..0], start, end) == {}
  {
  }

  lemma NextOf(next: map<Ref, Ref>, head: Ref, a: seq<Ref>, s: seq<Ref>, k: nat)
    requires k < |s| && IsChain(next, NIL, head, a + s[k..])
    ensures s[k] in next && next[s[k]] == At(s, NIL, k + 1)
  {
    assert (a + s[k..])[|a|] == s[k];
    assert k + 1 < |s| ==> (a + s[k..])[|a| + 1] == s[k + 1];
  }

  lemma MemberLive(info: map<Ptr, Info>, first: map<nat, Ref>, next: map<Ref, Ref>, lists: map<nat, seq<Ref>>,
                   live: set<Ptr>, p: nat, k: nat)
    requires PageOk(info, first, next, lists, live, {}) && p in lists && k < |lists[p]|
    ensures lists[p][k].tb in live
  {
    assert lists[p][k] in lists[p];
  }

  lemma ListAfter(m0: map<nat, seq<Ref>>, m1: map<nat, seq<Ref>>, tb: Ptr, p: nat)
    requires AllWithout(m0, m1, tb) && p in m0
    ensures p in m1 && m1[p] == DropTb(m0[p], tb)
  {
  }

  lemma FewerSized(info: map<Ptr, Info>, live: set<Ptr>, live': set<Ptr>)
    requires AllSized(info, live) && live' <= live
    ensures AllSized(info, live')
  {
  }

  const THRESHOLD := 10

  /** The live blocks with no byte in [start, end). */
  ghost function Unhit(info: map<Ptr, Info>, live: set<Ptr>, start: int, end: int): set<Ptr> {
    set tb | tb in live && tb in info && !Hits(info[tb], start, end)
  }

  /** What the walk strikes on the page of start is what the range hits. */
  lemma StruckHits(info: map<Ptr, Info>, first: map<nat, Ref>, next: map<Ref, Ref>, lists: map<nat, seq<Ref>>,
                   live: set<Ptr>, start: nat, end: nat)
    requires PageOk(info, first, next, lists, live, {}) && AllSized(info, live) && start < end
    ensures Unhit(info, live, start, Clip(start, end)) == live - Struck(info, ListOf(lists, start / PAGE), start, end)
  {
    hide Overlap, Hits, IsChain, Sized;
    var p := start / PAGE;
    forall tb | tb in live
      ensures tb in Struck(info, ListOf(lists, p), start, end) <==> Hits(info[tb], start, Clip(start, end))
    {
      StruckIff(info, ListOf(lists, p), start, end, tb);
      HitListed(info, first, next, lists, live, start, end, tb);
    }
  }

  /** Where a live block that is hit is listed. */
  lemma ListedAt(info: map<Ptr, Info>, first: map<nat, Ref>, next: map<Ref, Ref>, lists: map<nat, seq<Ref>>,
                 live: set<Ptr>, p: nat, r: Ref)
    requires PageOk(info, first, next, lists, live, {}) && r.tb in live && r.tb in info && OnPage(info[r.tb], r.tag, p)
    ensures r in ListOf(lists, p)
  {
    assert Listed(p, lists, {}, r);
  }

  lemma ListedOn(info: map<Ptr, Info>, first: map<nat, Ref>, next: map<Ref, Ref>, lists: map<nat, seq<Ref>>,
                 live: set<Ptr>, p: nat, r: Ref)
    requires PageOk(info, first, next, lists, live, {}) && r in ListOf(lists, p)
    ensures r.tb in info && OnPage(info[r.tb], r.tag, p)
  {
  }

  lemma HitListed(info: map<Ptr, Info>, first: map<nat, Ref>, next: map<Ref, Ref>, lists: map<nat, seq<Ref>>,
                  live: set<Ptr>, start: nat, end: nat, tb: Ptr)
    requires PageOk(info, first, next, lists, live, {}) && tb in info && Sized(info[tb]) && tb in live && start < end
    ensures Hits(info[tb], start, Clip(start, end))
       <==> exists r :: r in ListOf(lists, start / PAGE) && r.tb == tb && Overlap(info[tb], r.tag, start, end)
  {
    hide PageOk, Hits, Overlap, Sized, Clip, ListOf;
    var p, i := start / PAGE, info[tb];
    if Hits(i, start, Clip(start, end)) {
      HitsPage(i, start, end);
      var r := if i.page0 == p then Ref(tb, 0) else Ref(tb, 1);
      ListedAt(info, first, next, lists, live, p, r);
      OverlapHits(i, r.tag, p, start, end);
    }
    if r :| r in ListOf(lists, p) && r.tb == tb && Overlap(i, r.tag, start, end) {
      ListedOn(info, first, next, lists, live, p, r);
      OverlapHits(i, r.tag, p, start, end);
    }
  }

  /** tb_invalidate_phys_page_range. */
  method InvalidateRange(c: TbContext, start: nat, end: nat, isWrite: bool)
    requires c.Valid() && AllSized(c.info, c.live) && start < end
    modifies c
    ensures c.Valid() && AllSized(c.info, c.live) && c.info == old(c.info) && c.known == old(c.known)
    ensures c.live == Unhit(c.info, old(c.live), start, Clip(start, end))
    ensures Shrunk(old(c.cache), c.cache) && Unchained(old(c.target), c.target)
    ensures var p := start / PAGE;
            c.watched == old(c.watched) - if isWrite && p in c.lists && c.lists[p] == [] then {p} else {}
    ensures start / PAGE in c.lists && c.lists[start / PAGE] == [] ==>
              start / PAGE !in c.bitmaps && start / PAGE !in c.writes
  {
    hide BitmapsOk, HashOk, PageOk, JumpOk, GoesOk, CacheOk, WatchOk, Struck, AllSized, Unhit, Clip, Shrunk, Unchained;
    ShrunkSame(c.cache);
    UnchainedSame(c.target);
    var p := start / PAGE;
    StruckHits(c.info, c.pageFirst, c.pageNext, c.lists, c.live, start, end);
    PageNoKeys(c.info, c.pageFirst, c.pageNext, c.lists, c.live);
    if p !in c.pageFirst {
      StruckNone(c.info, [], start, end);
      return;
    }
    Count(c, p, isWrite);
    WalkPage(c, p, start, end);
    FewerSized(c.info, old(c.live), c.live);
    LeavePage(c, p, isWrite);
  }

  /** A page without code loses its bitmap, and after a store it need not be watched. */
  method LeavePage(c: TbContext, p: nat, isWrite: bool)
    requires c.Valid() && p in c.lists
    modifies c`bitmaps, c`writes, c`watched
    ensures c.Valid() && c.watched == old(c.watched) - if isWrite && c.lists[p] == [] then {p} else {}
    ensures c.lists[p] == [] ==> p !in c.bitmaps && p !in c.writes
  {
    hide BitmapsOk, HashOk, PageOk, JumpOk, GoesOk, CacheOk, WatchOk;
    PageChain(c.info, c.pageFirst, c.pageNext, c.lists, c.live, {}, p);
    if c.pageFirst[p] == NIL {
      FewerBitmaps(c.info, c.lists, c.bitmaps, p);
      WatchEmpty(c.lists, c.watched, p);
      c.DropBitmap(p);
      if isWrite {
        c.watched := c.watched - {p};
      }
    }
  }

  /** Enough stores to a page without a bitmap, and it gets one. */
  method Count(c: TbContext, p: nat, isWrite: bool)
    requires c.Valid() && p in c.lists
    modifies c`bitmaps, c`writes
    ensures c.Valid()
    ensures p in old(c.bitmaps) ==> c.bitmaps == old(c.bitmaps) && c.writes == old(c.writes)
    ensures p !in old(c.bitmaps) ==>
              && c.writes == old(c.writes)[p := (if p in old(c.writes) then old(c.writes)[p] else 0) + 1]
              && c.bitmaps.Keys == old(c.bitmaps).Keys + if isWrite && c.writes[p] >= 10 then {p} else {}
  {
    hide BitmapsOk, HashOk, PageOk, JumpOk, GoesOk, CacheOk, WatchOk;
    if p !in c.bitmaps {
      c.writes := c.writes[p := Writes(c.writes, p) + 1];
      if c.writes[p] >= THRESHOLD && isWrite {
        BuildBitmap(c, p);
      }
    }
  }

  function Writes(writes: map<nat, nat>, p: nat): nat { if p in writes then writes[p] else 0 }

  lemma FewerBitmaps(info: map<Ptr, Info>, lists: map<nat, seq<Ref>>, bitmaps: map<nat, seq<bv8>>, p: nat)
    requires BitmapsOk(info, lists, bitmaps)
    ensures BitmapsOk(info, lists, bitmaps - {p})
  {
  }

  lemma WatchEmpty(lists: map<nat, seq<Ref>>, watched: set<nat>, p: nat)
    requires WatchOk(lists, watched) && (p in lists ==> lists[p] == [])
    ensures WatchOk(lists, watched - {p})
  {
  }

  /** tb_invalidate_phys_range. */
  method InvalidateSpan(c: TbContext, start: nat, end: nat, isWrite: bool)
    requires c.Valid() && AllSized(c.info, c.live)
    modifies c
    ensures c.Valid() && AllSized(c.info, c.live) && c.info == old(c.info) && c.known == old(c.known)
    ensures c.live == Unhit(c.info, old(c.live), start, end)
  {
    hide BitmapsOk, HashOk, PageOk, JumpOk, GoesOk, CacheOk, WatchOk, AllSized, Unhit, Clip;
    UnhitNone(c.info, c.live, start, start);
    var at := start;
    while at < end
      invariant c.Valid() && AllSized(c.info, c.live) && c.info == old(c.info) && c.known == old(c.known)
      invariant start <= at && (start < end || at == start)
      invariant c.live == Unhit(c.info, old(c.live), start, if at < end then at else if start < end then end else start)
      decreases end - at
    {
      ClipNext(at, end);
      UnhitMore(c.info, old(c.live), start, at, Clip(at, end));
      InvalidateRange(c, at, end, isWrite);
      at := at - at % PAGE + PAGE;
    }
    if start >= end { UnhitNone(c.info, old(c.live), start, end); }
  }

  lemma UnhitNone(info: map<Ptr, Info>, live: set<Ptr>, start: int, end: int)
    requires end <= start && AllSized(info, live)
    ensures Unhit(info, live, start, end) == live
  {
  }

  lemma ClipNext(at: nat, end: nat)
    requires at < end
    ensures var next := at - at % PAGE + PAGE; at < next && at < Clip(at, end) == if next < end then next else end
  {
  }

  /** Sparing a range piece by piece. */
  lemma UnhitMore(info: map<Ptr, Info>, live: set<Ptr>, a: int, b: int, c: int)
    requires a <= b <= c
    ensures Unhit(info, Unhit(info, live, a, b), b, c) == Unhit(info, live, a, c)
  {
    hide Hits;
    forall tb | tb in live && tb in info
      ensures Hits(info[tb], a, c) <==> Hits(info[tb], a, b) || Hits(info[tb], b, c)
    {
      HitsMore(info[tb], a, b, c);
    }
  }

  lemma HitsMore(i: Info, a: int, b: int, c: int)
    requires a <= b <= c
    ensures Hits(i, a, c) <==> Hits(i, a, b) || Hits(i, b, c)
  {
    hide ByteAt;
  }

  // ------------------------------------------------------------ the fast path

  /** A byte of a block is covered through one of its references. */
  lemma ByteCovered(i: Info, j: nat) returns (tag: nat)
    requires Sized(i) && j < i.size
    ensures ByteAt(i, j) >= 0 && OnPage(i, tag, ByteAt(i, j) / PAGE) && Covers(i, tag, ByteAt(i, j) % PAGE)
  {
    BytePlace(i, j);
    if i.pc % PAGE + j < PAGE {
      tag := 0;
    } else {
      SecondPart(i);
      tag := 1;
    }
  }

  /** The tested bits are the bits of the stored-to bytes. */
  lemma TestCovers(bm: seq<bv8>, offset: nat, len: nat)
    requires (len == 1 || len == 2 || len == 4 || len == 8) && offset % len == 0 && offset / 8 < |bm|
             && !TestBits(bm[offset / 8], offset % 8, len)
    ensures forall o :: offset <= o < offset + len ==> !BitAt(bm, o)
  {
    assert offset % 8 % len == 0 && offset % 8 + len <= 8;
    LowMask(bm[offset / 8], offset % 8, len);
    hide Bit, TestBits;
    forall o | offset <= o < offset + len ensures !BitAt(bm, o) {
      assert o / 8 == offset / 8 && o % 8 == offset % 8 + (o - offset);
    }
  }

  /** Clear bits: no block is hit. */
  lemma ClearUnhit(info: map<Ptr, Info>, first: map<nat, Ref>, next: map<Ref, Ref>, lists: map<nat, seq<Ref>>,
                   live: set<Ptr>,
                   bm: seq<bv8>, start: nat, len: nat, tb: Ptr)
    requires PageOk(info, first, next, lists, live, {}) && tb in live && tb in info && Sized(info[tb])
    requires IsBitmap(info, ListOf(lists, start / PAGE), bm) && start % PAGE + len <= PAGE
    requires forall o :: start % PAGE <= o < start % PAGE + len ==> !BitAt(bm, o)
    ensures !Hits(info[tb], start, start + len)
  {
    hide BitAt, ByteAt, Covered, PageOk, ListOf, Sized;
    forall j | 0 <= j < info[tb].size ensures !(start <= ByteAt(info[tb], j) < start + len) {
      CoveredByte(info, first, next, lists, live, tb, j);
      SamePage(ByteAt(info[tb], j), start, len);
    }
  }

  /** Every byte of a live block is covered on its page. */
  lemma CoveredByte(info: map<Ptr, Info>, first: map<nat, Ref>, next: map<Ref, Ref>, lists: map<nat, seq<Ref>>,
                    live: set<Ptr>, tb: Ptr, j: nat)
    requires PageOk(info, first, next, lists, live, {}) && tb in live && tb in info && Sized(info[tb])
             && j < info[tb].size
    ensures var a := ByteAt(info[tb], j); a >= 0 && Covered(info, ListOf(lists, a / PAGE), a % PAGE)
  {
    hide ByteAt, Covers, PageOk, ListOf, Sized;
    var tag := ByteCovered(info[tb], j);
    ListedAt(info, first, next, lists, live, ByteAt(info[tb], j) / PAGE, Ref(tb, tag));
  }

  lemma SamePage(a: nat, start: nat, len: nat)
    requires start % PAGE + len <= PAGE
    ensures start <= a < start + len ==> a / PAGE == start / PAGE && start % PAGE <= a % PAGE < start % PAGE + len
  {
  }

  lemma AllUnhit(info: map<Ptr, Info>, live: set<Ptr>, start: nat, end: nat)
    requires forall tb :: tb in live ==> tb in info && !Hits(info[tb], start, end)
    ensures Unhit(info, live, start, end) == live
  {
  }

  lemma Aligned(start: nat, len: nat)
    requires (len == 1 || len == 2 || len == 4 || len == 8) && start % len == 0
    ensures start % PAGE + len <= PAGE && start % PAGE % len == 0 && Clip(start, start + len) == start + len
  {
    AlignedOffset(start / PAGE, start % PAGE, len);
    ClipInside(start, len);
  }

  lemma AlignedOffset(q: nat, o: nat, len: nat)
    requires (len == 1 || len == 2 || len == 4 || len == 8) && o < PAGE && (q * PAGE + o) % len == 0
    ensures o % len == 0 && o + len <= PAGE
  {
    if len == 8 {
      EightRest(512 * q, o);
    } else if len == 4 {
      FourRest(1024 * q, o);
    } else if len == 2 {
      TwoRest(2048 * q, o);
    }
  }

  lemma EightRest(m: nat, o: nat)
    ensures (8 * m + o) % 8 == o % 8
  {
  }

  lemma FourRest(m: nat, o: nat)
    ensures (4 * m + o) % 4 == o % 4
  {
  }

  lemma TwoRest(m: nat, o: nat)
    ensures (2 * m + o) % 2 == o % 2
  {
  }

  lemma ClipInside(start: nat, len: nat)
    requires start % PAGE + len <= PAGE
    ensures Clip(start, start + len) == start + len
  {
  }

  /** tb_invalidate_phys_page_fast: the same blocks go as in the walk over the range. */
  method InvalidateFast(c: TbContext, start: nat, len: nat)
    requires c.Valid() && AllSized(c.info, c.live) && (len == 1 || len == 2 || len == 4 || len == 8) && start % len == 0
    modifies c
    ensures c.Valid() && AllSized(c.info, c.live) && c.info == old(c.info) && c.known == old(c.known)
    ensures c.live == Unhit(c.info, old(c.live), start, start + len) && c.watched <= old(c.watched)
            && Shrunk(old(c.cache), c.cache) && Unchained(old(c.target), c.target)
  {
    hide BitmapsOk, HashOk, PageOk, JumpOk, GoesOk, CacheOk, WatchOk, Struck, AllSized, Unhit, Clip, TestBits,
         IsBitmap, Shrunk, Unchained;
    ShrunkSame(c.cache);
    UnchainedSame(c.target);
    var p := start / PAGE;
    Aligned(start, len);
    PageNoKeys(c.info, c.pageFirst, c.pageNext, c.lists, c.live);
    if p !in c.pageFirst {
      StruckHits(c.info, c.pageFirst, c.pageNext, c.lists, c.live, start, start + len);
      StruckNone(c.info, [], start, start + len);
      return;
    }
    if p in c.bitmaps {
      var offset := start % PAGE;
      BitmapOf(c.info, c.lists, c.bitmaps, p);
      if TestBits(c.bitmaps[p][offset / 8], offset % 8, len) {
        InvalidateRange(c, start, start + len, true);
      } else {
        TestCovers(c.bitmaps[p], offset, len);
        FastMiss(c.info, c.pageFirst, c.pageNext, c.lists, c.live, c.bitmaps[p], start, len);
      }
    } else {
      InvalidateRange(c, start, start + len, true);
    }
  }

  lemma BitmapOf(info: map<Ptr, Info>, lists: map<nat, seq<Ref>>, bitmaps: map<nat, seq<bv8>>, p: nat)
    requires BitmapsOk(info, lists, bitmaps) && p in bitmaps
    ensures |bitmaps[p]| == PAGE / 8 && IsBitmap(info, ListOf(lists, p), bitmaps[p])
  {
  }

  lemma FastMiss(info: map<Ptr, Info>, first: map<nat, Ref>, next: map<Ref, Ref>, lists: map<nat, seq<Ref>>,
                 live: set<Ptr>,
                 bm: seq<bv8>, start: nat, len: nat)
    requires PageOk(info, first, next, lists, live, {}) && AllSized(info, live) && start % PAGE + len <= PAGE
    requires IsBitmap(info, ListOf(lists, start / PAGE), bm) && forall o :: start % PAGE <= o < start % PAGE + len ==>
               !BitAt(bm, o)
    ensures Unhit(info, live, start, start + len) == live
  {
    hide PageOk, IsBitmap, Hits, Sized;
    forall tb | tb in live ensures tb in info && !Hits(info[tb], start, start + len) {
      ClearUnhit(info, first, next, lists, live, bm, start, len, tb);
    }
    AllUnhit(info, live, start, start + len);
  }

  // ------------------------------------------------------------ stores wider than the handler says

  /** The block's code on page p begins inside (addr, addr + n). */
  ghost predicate BeginsWithin(i: Info, addr: nat, n: nat) {
    exists tag :: OnPage(i, tag, addr / PAGE) && addr < addr / PAGE * PAGE + SpanStart(i, tag) < addr + n
  }

  lemma SpareOne(i: Info, addr: nat, n: nat)
    requires Sized(i) && 0 < n && addr % PAGE + n <= PAGE
    ensures Hits(i, addr, addr + n) && !Hits(i, addr, addr + 1) <==> BeginsWithin(i, addr, n)
  {
    var p := addr / PAGE;
    assert Clip(addr, addr + n) == addr + n && Clip(addr, addr + 1) == addr + 1;
    if Hits(i, addr, addr + n) && !Hits(i, addr, addr + 1) {
      HitsPage(i, addr, addr + n);
      var tag := if i.page0 == p then 0 else 1;
      OverlapHits(i, tag, p, addr, addr + n);
      OverlapHits(i, tag, p, addr, addr + 1);
      assert OnPage(i, tag, p) && addr < p * PAGE + SpanStart(i, tag) < addr + n;
    }
    if tag :| OnPage(i, tag, p) && addr < p * PAGE + SpanStart(i, tag) < addr + n {
      OverlapHits(i, tag, p, addr, addr + n);
      OverlapHits(i, tag, p, addr, addr + 1);
      if tag == 1 { SecondPart(i); }
    }
  }

  /** The handlers for two and four bytes invalidate as for one byte. That removes
      every block the store overwrites if and only if no live block's code begins
      between its first byte and its end. */
  lemma WideStore(info: map<Ptr, Info>, live: set<Ptr>, addr: nat, n: nat)
    requires AllSized(info, live) && 0 < n && addr % PAGE + n <= PAGE
    ensures Unhit(info, live, addr, addr + 1) == Unhit(info, live, addr, addr + n)
       <==> forall tb :: tb in live && tb in info ==> !BeginsWithin(info[tb], addr, n)
  {
    hide Hits, BeginsWithin, Sized;
    forall tb | tb in live
      ensures Hits(info[tb], addr, addr + n) && !Hits(info[tb], addr, addr + 1) <==> BeginsWithin(info[tb], addr, n)
    {
      SpareOne(info[tb], addr, n);
    }
    forall tb | tb in live ensures Hits(info[tb], addr, addr + 1) ==> Hits(info[tb], addr, addr + n) {
      HitsMore(info[tb], addr, addr + 1, addr + n);
    }
    assert forall tb :: tb in live ==>
      (tb in Unhit(info, live, addr, addr + 1) && tb !in Unhit(info, live, addr, addr + n) <==>
        BeginsWithin(info[tb], addr, n));
  }

  /** A four-byte store over the first instruction of a block two bytes further on. */
  lemma WideStoreMisses()
    ensures var i := Info(2, 0, 0, 4, 0, -1);
            && Sized(i) && 1 in Unhit(map[1 := i], {1}, 0, 1) && 1 !in Unhit(map[1 := i], {1}, 0, 4)
  {
    var i := Info(2, 0, 0, 4, 0, -1);
    assert BeginsWithin(i, 0, 4) by { assert OnPage(i, 0, 0 / PAGE) && 0 < 0 / PAGE * PAGE + SpanStart(i, 0) < 4; }
    SpareOne(i, 0, 4);
    hide Hits, BeginsWithin;
  }
}
