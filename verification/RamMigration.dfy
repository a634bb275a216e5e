/** Live RAM save and restore (arch_init.c). Addresses are counted in target
    pages: every address the code handles is page aligned. */
module RamMigration {
  import opened Machine
  import opened Bytes
  import Sets

  const MAX_PAGES := 0x10_0000_0000_0000 // byte sizes fit 64 bits
  const COMPRESS := 0x02
  const MEM_SIZE := 0x04
  const FULL_PAGE := 0x08
  const EOS := 0x10
  const CONTINUE := 0x20

  type Id = seq<Byte>
  type Page = p: seq<Byte> | |p| == PAGE witness seq(PAGE, _ => 0)

  /** A RAM block: its name, its first page number and how many pages it has. */
  datatype Block = Block(id: Id, first: nat, pages: nat)

  /** The sending side: RAM, its migration dirty bits and the scan cursor. */
  datatype Source = Source(blocks: seq<Block>, ram: map<nat, Page>, dirty: set<nat>, last: Option<nat>, lastPage: nat)

  /** The receiving side: block contents by name and the block remembered
      between records. */
  datatype Dest = Dest(mem: map<Id, seq<Page>>, cur: Option<Id>)

  // ---------------------------------------------------------------- blocks

  /** Number of pages in the first i blocks. */
  function Start(blocks: seq<Block>, i: nat): nat
    requires i <= |blocks|
  {
    if i == 0 then 0 else Start(blocks, i - 1) + blocks[i - 1].pages
  }

  lemma {:induction false} StartMonotone(blocks: seq<Block>, i: nat, k: nat)
    requires i < k <= |blocks|
    ensures Start(blocks, i) + blocks[i].pages <= Start(blocks, k)
    decreases k
  {
    if i < k - 1 { StartMonotone(blocks, i, k - 1); }
  }

  ghost predicate WfBlock(b: Block) { b.pages > 0 && |b.id| < 256 && NoZero(b.id) }

  predicate Apart(a: Block, b: Block) {
    a.id != b.id && (a.first + a.pages <= b.first || b.first + b.pages <= a.first)
  }

  ghost predicate WfBlocks(blocks: seq<Block>) {
    && |blocks| > 0
    && (forall i :: 0 <= i < |blocks| ==> WfBlock(blocks[i]))
    && (forall i, k :: 0 <= i < k < |blocks| ==> Apart(blocks[i], blocks[k]))
    && Start(blocks, |blocks|) < MAX_PAGES
  }

  ghost predicate HasPage(blocks: seq<Block>, b: int, j: int) { 0 <= b < |blocks| && 0 <= j < blocks[b].pages }

  function PageAt(blocks: seq<Block>, b: nat, j: nat): nat
    requires b < |blocks|
  {
    blocks[b].first + j
  }

  ghost predicate WfSource(s: Source) {
    && WfBlocks(s.blocks)
    && (forall b, j :: HasPage(s.blocks, b, j) ==> PageAt(s.blocks, b, j) in s.ram)
    && (s.last.Some? ==> HasPage(s.blocks, s.last.value, s.lastPage))
    && (s.last.None? ==> s.lastPage == 0)
  }

  /** The cursor was reset and no record has been sent since: then every page is
      still dirty. This keeps the scan from following a null last_block. */
  ghost predicate CursorSafe(s: Source) {
    s.last.None? ==> forall b, j :: HasPage(s.blocks, b, j) ==> PageAt(s.blocks, b, j) in s.dirty
  }

  lemma PageAtInjective(blocks: seq<Block>, b: nat, j: nat, b': nat, j': nat)
    requires WfBlocks(blocks) && HasPage(blocks, b, j) && HasPage(blocks, b', j')
    requires PageAt(blocks, b, j) == PageAt(blocks, b', j')
    ensures b == b' && j == j'
  {
  }

  // ---------------------------------------------------------------- scanning

  /** The page after (b, j), wrapping from the last block to the first. */
  function NextPos(blocks: seq<Block>, b: nat, j: nat): (nat, nat)
    requires b < |blocks|
  {
    if j + 1 < blocks[b].pages then (b, j + 1)
    else if b + 1 < |blocks| then (b + 1, 0)
    else (0, 0)
  }

  /** Position of page (b, j) in list order. */
  function Linear(blocks: seq<Block>, b: nat, j: nat): nat
    requires b < |blocks|
  {
    Start(blocks, b) + j
  }

  lemma LinearInjective(blocks: seq<Block>, b: nat, j: nat, b': nat, j': nat)
    requires HasPage(blocks, b, j) && HasPage(blocks, b', j')
    requires Linear(blocks, b, j) == Linear(blocks, b', j')
    ensures b == b' && j == j'
  {
    if b < b' { StartMonotone(blocks, b, b'); }
    if b' < b { StartMonotone(blocks, b', b); }
  }

  lemma LinearBound(blocks: seq<Block>, b: nat, j: nat)
    requires HasPage(blocks, b, j)
    ensures Linear(blocks, b, j) < Start(blocks, |blocks|)
  {
    StartMonotone(blocks, b, |blocks|);
  }

  lemma LinearNext(blocks: seq<Block>, b: nat, j: nat)
    requires HasPage(blocks, b, j) && forall i :: 0 <= i < |blocks| ==> blocks[i].pages > 0
    ensures var (b', j') := NextPos(blocks, b, j);
            && HasPage(blocks, b', j')
            && Linear(blocks, b', j') ==
               if Linear(blocks, b, j) + 1 == Start(blocks, |blocks|) then 0 else Linear(blocks, b, j) + 1
  {
    if j + 1 < blocks[b].pages {
      LinearBound(blocks, b, j + 1);
    } else if b + 1 < |blocks| {
      LinearBound(blocks, b + 1, 0);
    }
  }

  /** The first dirty page among `left` pages from (b, j) on, in cyclic order. */
  function Scan(s: Source, b: nat, j: nat, left: nat): Option<(nat, nat)>
    requires b < |s.blocks|
    decreases left
  {
    if left == 0 then None
    else if PageAt(s.blocks, b, j) in s.dirty then Some((b, j))
    else
      var (b', j') := NextPos(s.blocks, b, j);
      Scan(s, b', j', left - 1)
  }

  /** Page (b', j') is one of the `left` pages from (b, j) on. */
  ghost predicate Ahead(blocks: seq<Block>, b: nat, j: nat, left: nat, b': nat, j': nat)
    requires b < |blocks| && b' < |blocks|
  {
    var k, k', n := Linear(blocks, b, j), Linear(blocks, b', j'), Start(blocks, |blocks|);
    k <= k' < k + left || k' + n < k + left
  }

  lemma {:induction false} ScanResult(s: Source, b: nat, j: nat, left: nat)
    requires WfBlocks(s.blocks) && HasPage(s.blocks, b, j) && left <= Start(s.blocks, |s.blocks|)
    ensures Scan(s, b, j, left).Some? ==>
              var (b', j') := Scan(s, b, j, left).value;
              HasPage(s.blocks, b', j') && PageAt(s.blocks, b', j') in s.dirty
    ensures Scan(s, b, j, left).None? ==>
              forall b', j' :: HasPage(s.blocks, b', j') && Ahead(s.blocks, b, j, left, b', j') ==>
                PageAt(s.blocks, b', j') !in s.dirty
    decreases left
  {
    LinearBound(s.blocks, b, j);
    if left > 0 && PageAt(s.blocks, b, j) !in s.dirty {
      var (c, k) := NextPos(s.blocks, b, j);
      LinearNext(s.blocks, b, j);
      ScanResult(s, c, k, left - 1);
      forall b', j' | HasPage(s.blocks, b', j') && Ahead(s.blocks, b, j, left, b', j')
                      && Scan(s, b, j, left).None?
        ensures PageAt(s.blocks, b', j') !in s.dirty
      {
        LinearBound(s.blocks, b', j');
        if Linear(s.blocks, b', j') == Linear(s.blocks, b, j) {
          LinearInjective(s.blocks, b', j', b, j);
        } else {
          assert Ahead(s.blocks, c, k, left - 1, b', j');
        }
      }
    }
  }

  ghost predicate AllClean(s: Source) {
    forall b, j :: HasPage(s.blocks, b, j) ==> PageAt(s.blocks, b, j) !in s.dirty
  }

  function ScanAll(s: Source): Option<(nat, nat)>
    requires |s.blocks| > 0
    requires s.last.Some? ==> s.last.value < |s.blocks|
  {
    Scan(s, if s.last.Some? then s.last.value else 0, s.lastPage, Start(s.blocks, |s.blocks|))
  }

  /** A full scan comes back empty exactly when no page is dirty. */
  lemma ScanAllEmpty(s: Source)
    requires WfSource(s)
    ensures ScanAll(s).None? <==> AllClean(s)
    ensures ScanAll(s).Some? ==>
              var (b, j) := ScanAll(s).value; HasPage(s.blocks, b, j) && PageAt(s.blocks, b, j) in s.dirty
  {
    var b := if s.last.Some? then s.last.value else 0;
    ScanResult(s, b, s.lastPage, Start(s.blocks, |s.blocks|));
    forall b', j' | ScanAll(s).None? && HasPage(s.blocks, b', j')
      ensures PageAt(s.blocks, b', j') !in s.dirty
    {
      LinearBound(s.blocks, b', j');
      assert Ahead(s.blocks, b, s.lastPage, Start(s.blocks, |s.blocks|), b', j');
    }
  }

  // ---------------------------------------------------------------- saving

  ghost predicate Uniform(p: Page) { forall i :: 0 <= i < PAGE ==> p[i] == p[0] }

  /** A name on the wire: its length as one byte, then its bytes. */
  function Name(id: Id): seq<Byte> { [|id| % 256] + id }

  /** Header flags of the record for page (b, j). */
  ghost function Flags(s: Source, b: nat, j: nat): nat
    requires b < |s.blocks| && PageAt(s.blocks, b, j) in s.ram
  {
    (if s.last == Some(b) then CONTINUE else 0) +
    (if Uniform(s.ram[PageAt(s.blocks, b, j)]) then COMPRESS else FULL_PAGE)
  }

  /** What follows the header: the block's name unless the record continues the
      last one, then one byte for a uniform page and the whole page otherwise. */
  ghost function Body(s: Source, b: nat, j: nat): seq<Byte>
    requires b < |s.blocks| && PageAt(s.blocks, b, j) in s.ram
  {
    var p := s.ram[PageAt(s.blocks, b, j)];
    (if s.last == Some(b) then [] else Name(s.blocks[b].id)) + (if Uniform(p) then [p[0]] else p)
  }

  ghost function Record(s: Source, b: nat, j: nat): seq<Byte>
    requires b < |s.blocks| && PageAt(s.blocks, b, j) in s.ram
  {
    BigEndian(j * PAGE + Flags(s, b, j), 8) + Body(s, b, j)
  }

  ghost predicate Wf(s: Source) { WfSource(s) && CursorSafe(s) }

  /** ram_save_block: send the first dirty page from the cursor on. */
  ghost function SaveBlock(s: Source): (Source, seq<Byte>) {
    if !Wf(s) then (s, [])
    else
      ScanAllEmpty(s);
      match ScanAll(s)
      case None => (s, [])
      case Some((b, j)) =>
        (s.(dirty := s.dirty - {PageAt(s.blocks, b, j)}, last := Some(b), lastPage := j), Record(s, b, j))
  }

  lemma SaveBlockWf(s: Source)
    requires Wf(s)
    ensures Wf(SaveBlock(s).0)
    ensures SaveBlock(s).0.blocks == s.blocks && SaveBlock(s).0.ram == s.ram
    ensures SaveBlock(s).1 == [] <==> AllClean(s)
    ensures SaveBlock(s).1 != [] ==> SaveBlock(s).0.dirty < s.dirty
    ensures SaveBlock(s).1 == [] ==> SaveBlock(s).0 == s
  {
    ScanAllEmpty(s);
  }

  /** The rate-limited loop: at most n records. */
  ghost function SaveSome(s: Source, n: nat): (Source, seq<Byte>)
    decreases n
  {
    var (s1, r) := SaveBlock(s);
    if n == 0 || r == [] then (s, [])
    else
      var (s2, rest) := SaveSome(s1, n - 1);
      (s2, r + rest)
  }

  /** The final loop: everything that is still dirty. It terminates because each
      record clears a dirty bit. */
  ghost function SaveRest(s: Source): (Source, seq<Byte>)
    decreases |s.dirty|
  {
    var (s1, r) := SaveBlock(s);
    if !Wf(s) || r == [] then (s, [])
    else
      SaveBlockWf(s);
      SubsetSmaller(s1.dirty, s.dirty);
      var (s2, rest) := SaveRest(s1);
      (s2, r + rest)
  }

  lemma SubsetSmaller(a: set<nat>, b: set<nat>)
    requires a < b
    ensures |a| < |b|
  {
    var x :| x in b && x !in a;
    assert a <= b - {x};
    Sets.SubsetSize(a, b - {x});
  }

  // ---------------------------------------------------------------- sorting

  /** Where b goes in a list ordered by offset. */
  function InsertAt(b: Block, s: seq<Block>): (k: nat)
    ensures k <= |s|
    ensures forall i :: 0 <= i < k ==> s[i].first < b.first
    ensures k < |s| ==> b.first <= s[k].first
  {
    if s == [] || b.first <= s[0].first then 0 else 1 + InsertAt(b, s[1..])
  }

  function SortBlocks(s: seq<Block>): seq<Block> {
    if s == [] then []
    else
      var t := SortBlocks(s[1..]);
      var k := InsertAt(s[0], t);
      Inserted(t, k, s[0])
  }

  ghost predicate Ordered(s: seq<Block>) { forall i, k :: 0 <= i < k < |s| ==> s[i].first <= s[k].first }

  ghost predicate Pairwise(s: seq<Block>) {
    && (forall i :: 0 <= i < |s| ==> WfBlock(s[i]))
    && (forall i, k :: 0 <= i < k < |s| ==> Apart(s[i], s[k]))
  }

  function Inserted(t: seq<Block>, k: nat, b: Block): (r: seq<Block>)
    requires k <= |t|
    ensures |r| == |t| + 1
    ensures forall i :: 0 <= i < |r| ==> r[i] == if i < k then t[i] else if i == k then b else t[i - 1]
  {
    t[..k] + [b] + t[k..]
  }

  lemma InsertedMultiset(t: seq<Block>, k: nat, b: Block)
    requires k <= |t|
    ensures multiset(Inserted(t, k, b)) == multiset(t) + multiset{b}
  {
    assert t == t[..k] + t[k..];
  }

  lemma InsertedOrdered(t: seq<Block>, b: Block)
    requires Ordered(t)
    ensures Ordered(Inserted(t, InsertAt(b, t), b))
  {
  }

  lemma InsertedPairwise(t: seq<Block>, k: nat, b: Block)
    requires k <= |t| && Pairwise(t) && WfBlock(b)
    requires forall i :: 0 <= i < |t| ==> Apart(b, t[i])
    ensures Pairwise(Inserted(t, k, b))
  {
    var r := Inserted(t, k, b);
    forall i, m | 0 <= i < m < |r|
      ensures Apart(r[i], r[m])
    {
      if i == k { assert Apart(b, t[m - 1]); }
      else if m == k { assert Apart(b, t[i]); }
    }
  }

  /** sort_ram_list: the same blocks by increasing offset. */
  lemma {:induction false} SortBlocksResult(s: seq<Block>)
    ensures Ordered(SortBlocks(s))
    ensures multiset(SortBlocks(s)) == multiset(s)
  {
    if s != [] {
      SortBlocksResult(s[1..]);
      var t := SortBlocks(s[1..]);
      InsertedOrdered(t, s[0]);
      InsertedMultiset(t, InsertAt(s[0], t), s[0]);
      assert s == [s[0]] + s[1..];
    }
  }

  lemma SameMembers(s: seq<Block>, t: seq<Block>)
    requires multiset(s) == multiset(t)
    ensures |s| == |t| && forall b :: b in s <==> b in t
  {
    assert |multiset(s)| == |multiset(t)|;
    forall b ensures b in s <==> b in t {
      assert b in s <==> b in multiset(s);
      assert b in t <==> b in multiset(t);
    }
  }

  lemma {:induction false} SortKeepsPairwise(s: seq<Block>)
    requires Pairwise(s)
    ensures Pairwise(SortBlocks(s))
  {
    if s != [] {
      SortKeepsPairwise(s[1..]);
      var t := SortBlocks(s[1..]);
      SortBlocksResult(s[1..]);
      SameMembers(s[1..], t);
      forall i | 0 <= i < |t|
        ensures Apart(s[0], t[i])
      {
        assert t[i] in s[1..];
      }
      InsertedPairwise(t, InsertAt(s[0], t), s[0]);
    }
  }

  lemma {:induction false} StartOfInsert(t: seq<Block>, k: nat, b: Block, i: nat)
    requires k <= |t| && i <= |t| + 1
    ensures Start(Inserted(t, k, b), i) == if i <= k then Start(t, i) else Start(t, i - 1) + b.pages
  {
    if i > 0 { StartOfInsert(t, k, b, i - 1); }
  }

  lemma {:induction false} StartOfTail(s: seq<Block>, i: nat)
    requires 0 < i <= |s|
    ensures Start(s, i) == s[0].pages + Start(s[1..], i - 1)
  {
    if i > 1 { StartOfTail(s, i - 1); }
  }

  lemma {:induction false} SortKeepsTotal(s: seq<Block>)
    ensures |SortBlocks(s)| == |s| && Start(SortBlocks(s), |s|) == Start(s, |s|)
  {
    if s != [] {
      SortKeepsTotal(s[1..]);
      StartOfTail(s, |s|);
      var t := SortBlocks(s[1..]);
      StartOfInsert(t, InsertAt(s[0], t), s[0], |s|);
    }
  }

  lemma SortKeepsWf(s: seq<Block>)
    requires WfBlocks(s)
    ensures WfBlocks(SortBlocks(s)) && forall b :: b in SortBlocks(s) <==> b in s
  {
    SortBlocksResult(s);
    SortKeepsPairwise(s);
    SortKeepsTotal(s);
    SameMembers(s, SortBlocks(s));
  }

  // ---------------------------------------------------------------- stages

  /** The first k pages of a block. */
  ghost function FirstPages(b: Block, k: nat): set<nat> {
    if k == 0 then {} else FirstPages(b, k - 1) + {b.first + (k - 1)}
  }

  /** The pages of the first i blocks. */
  ghost function PagesUpTo(blocks: seq<Block>, i: nat): set<nat>
    requires i <= |blocks|
  {
    if i == 0 then {} else PagesUpTo(blocks, i - 1) + FirstPages(blocks[i - 1], blocks[i - 1].pages)
  }

  ghost function AllPages(blocks: seq<Block>): set<nat> { PagesUpTo(blocks, |blocks|) }

  lemma {:induction false} FirstPagesHas(b: Block, k: nat, j: nat)
    requires j < k
    ensures b.first + j in FirstPages(b, k)
  {
    if j < k - 1 { FirstPagesHas(b, k - 1, j); }
  }

  lemma {:induction false} PagesUpToHas(blocks: seq<Block>, i: nat, b: nat, j: nat)
    requires i <= |blocks| && b < i && j < blocks[b].pages
    ensures PageAt(blocks, b, j) in PagesUpTo(blocks, i)
  {
    if b < i - 1 { PagesUpToHas(blocks, i - 1, b, j); } else { FirstPagesHas(blocks[b], blocks[b].pages, j); }
  }

  /** The start of stage 1: cursor reset, list sorted, every page dirty. */
  ghost function Begin(s: Source): Source {
    var blocks := SortBlocks(s.blocks);
    s.(blocks := blocks, dirty := s.dirty + AllPages(blocks), last := None, lastPage := 0)
  }

  lemma BeginWf(s: Source)
    requires WfSource(s)
    ensures Wf(Begin(s))
  {
    SortKeepsWf(s.blocks);
    var t := Begin(s);
    forall b, j | HasPage(t.blocks, b, j)
      ensures PageAt(t.blocks, b, j) in t.ram && PageAt(t.blocks, b, j) in AllPages(t.blocks)
    {
      PagesUpToHas(t.blocks, |t.blocks|, b, j);
      assert t.blocks[b] in s.blocks;
      var k :| 0 <= k < |s.blocks| && s.blocks[k] == t.blocks[b];
      assert HasPage(s.blocks, k, j);
      assert PageAt(s.blocks, k, j) == PageAt(t.blocks, b, j);
    }
  }

  // ---------------------------------------------------------------- progress

  ghost predicate IsPage(blocks: seq<Block>, a: nat) {
    exists b, j :: HasPage(blocks, b, j) && PageAt(blocks, b, j) == a
  }

  /** The pages that are still to be sent. */
  ghost function Pending(s: Source): set<nat> { set a | a in s.dirty && IsPage(s.blocks, a) }

  lemma SaveBlockPending(s: Source)
    requires Wf(s)
    ensures var t := SaveBlock(s).0;
            if Pending(s) == {} then t == s && SaveBlock(s).1 == []
            else exists a :: a in Pending(s) && t.dirty == s.dirty - {a} && Pending(t) == Pending(s) - {a}
    ensures SaveBlock(s).1 == [] <==> Pending(s) == {}
  {
    SaveBlockWf(s);
    ScanAllEmpty(s);
    if ScanAll(s).None? {
      assert Pending(s) == {};
    } else {
      var (b, j) := ScanAll(s).value;
      var a := PageAt(s.blocks, b, j);
      assert IsPage(s.blocks, a) && a in Pending(s);
      assert Pending(SaveBlock(s).0) == Pending(s) - {a};
    }
  }

  /** A stage sends as many of the pending pages as the rate limit lets through. */
  lemma {:induction false} SaveSomePending(s: Source, n: nat)
    requires Wf(s)
    ensures var t := SaveSome(s, n).0;
            && Pending(t) <= Pending(s) && t.dirty <= s.dirty
            && |Pending(t)| == if |Pending(s)| <= n then 0 else |Pending(s)| - n
    decreases n
  {
    hide Wf, SaveBlock, Pending;
    SaveBlockWf(s);
    SaveBlockPending(s);
    if n > 0 && SaveBlock(s).1 != [] { SaveSomePending(SaveBlock(s).0, n - 1); }
  }

  lemma {:induction false} SaveRestPending(s: Source)
    requires Wf(s)
    ensures var t := SaveRest(s).0; Pending(t) == {} && t.dirty <= s.dirty
    decreases |s.dirty|
  {
    hide Wf, SaveBlock, Pending;
    SaveBlockWf(s);
    SaveBlockPending(s);
    if SaveBlock(s).1 != [] {
      SubsetSmaller(SaveBlock(s).0.dirty, s.dirty);
      SaveRestPending(SaveBlock(s).0);
    }
  }

  lemma {:induction false} FirstPagesAre(b: Block, k: nat)
    ensures |FirstPages(b, k)| == k && forall a :: a in FirstPages(b, k) <==> b.first <= a < b.first + k
  {
    if k > 0 { FirstPagesAre(b, k - 1); }
  }

  ghost predicate InSome(blocks: seq<Block>, i: nat, a: nat)
    requires i <= |blocks|
  {
    exists b :: 0 <= b < i && InRange(blocks[b], a)
  }

  ghost predicate InRange(b: Block, a: nat) { b.first <= a < b.first + b.pages }

  lemma InSomeMore(blocks: seq<Block>, i: nat, a: nat)
    requires i < |blocks|
    ensures InSome(blocks, i + 1, a) <==> InSome(blocks, i, a) || InRange(blocks[i], a)
  {
  }

  lemma InSomeApart(blocks: seq<Block>, i: nat, a: nat)
    requires WfBlocks(blocks) && i < |blocks|
    ensures !(InSome(blocks, i, a) && InRange(blocks[i], a))
  {
    if InSome(blocks, i, a) {
      var b :| 0 <= b < i && InRange(blocks[b], a);
      assert Apart(blocks[b], blocks[i]);
    }
  }

  lemma {:induction false} PagesUpToAre(blocks: seq<Block>, i: nat)
    requires WfBlocks(blocks) && i <= |blocks|
    ensures |PagesUpTo(blocks, i)| == Start(blocks, i)
    ensures forall a :: a in PagesUpTo(blocks, i) <==> InSome(blocks, i, a)
  {
    hide WfBlocks, FirstPages, InSome;
    if i == 0 {
      NoneIn(blocks);
    } else {
      var b := blocks[i - 1];
      PagesUpToAre(blocks, i - 1);
      FirstPagesAre(b, b.pages);
      forall a
        ensures InSome(blocks, i, a) <==> InSome(blocks, i - 1, a) || InRange(b, a)
        ensures !(InSome(blocks, i - 1, a) && InRange(b, a))
      {
        InSomeMore(blocks, i - 1, a);
        InSomeApart(blocks, i - 1, a);
      }
      assert forall a :: a in FirstPages(b, b.pages) <==> InRange(b, a);
      assert PagesUpTo(blocks, i - 1) !! FirstPages(b, b.pages);
    }
  }

  lemma NoneIn(blocks: seq<Block>)
    ensures forall a :: !InSome(blocks, 0, a)
  {
  }

  lemma InSomeIsPage(blocks: seq<Block>, a: nat)
    ensures InSome(blocks, |blocks|, a) <==> IsPage(blocks, a)
  {
    if InSome(blocks, |blocks|, a) {
      var b :| 0 <= b < |blocks| && InRange(blocks[b], a);
      assert HasPage(blocks, b, a - blocks[b].first);
    }
    if IsPage(blocks, a) {
      var b, j :| HasPage(blocks, b, j) && PageAt(blocks, b, j) == a;
      assert InRange(blocks[b], a);
    }
  }

  lemma BeginPending(s: Source)
    requires WfSource(s)
    ensures Pending(Begin(s)) == AllPages(Begin(s).blocks)
    ensures |Pending(Begin(s))| == Start(s.blocks, |s.blocks|)
  {
    var t := Begin(s);
    SortKeepsWf(s.blocks);
    SortKeepsTotal(s.blocks);
    PagesUpToAre(t.blocks, |t.blocks|);
    hide WfBlocks, PagesUpTo, InSome, IsPage, SortBlocks;
    forall a
      ensures a in AllPages(t.blocks) <==> IsPage(t.blocks, a)
    {
      InSomeIsPage(t.blocks, a);
    }
  }

  /** The block list announced in stage 1, from block i on. */
  function Entries(blocks: seq<Block>, i: nat): seq<Byte>
    requires i <= |blocks|
    decreases |blocks| - i
  {
    if i == |blocks| then []
    else Name(blocks[i].id) + BigEndian(blocks[i].pages * PAGE, 8) + Entries(blocks, i + 1)
  }

  function Announce(blocks: seq<Block>): seq<Byte> {
    BigEndian(Start(blocks, |blocks|) * PAGE + MEM_SIZE, 8) + Entries(blocks, 0)
  }

  lemma {:induction false} SaveSomeWf(s: Source, n: nat)
    requires Wf(s)
    ensures var t := SaveSome(s, n).0; Wf(t) && t.blocks == s.blocks && t.ram == s.ram
    decreases n
  {
    hide Wf, SaveBlock;
    SaveBlockWf(s);
    if n > 0 && SaveBlock(s).1 != [] { SaveSomeWf(SaveBlock(s).0, n - 1); }
  }

  lemma {:induction false} SaveRestWf(s: Source)
    requires Wf(s)
    ensures var t := SaveRest(s).0; Wf(t) && t.blocks == s.blocks && t.ram == s.ram && AllClean(t)
    decreases |s.dirty|
  {
    SaveBlockWf(s);
    if SaveBlock(s).1 != [] {
      SubsetSmaller(SaveBlock(s).0.dirty, s.dirty);
      SaveRestWf(SaveBlock(s).0);
    }
  }

  datatype Stage = First | Middle | Last

  /** ram_save_live: what the stage writes when the rate limit lets n records
      through, and the state it leaves. */
  ghost function SaveLive(s: Source, stage: Stage, n: nat): (Source, seq<Byte>) {
    var s0 := if stage == First then Begin(s) else s;
    var head := if stage == First then Announce(s0.blocks) else [];
    var (s1, out1) := SaveSome(s0, n);
    var (s2, out2) := if stage == Last then SaveRest(s1) else (s1, []);
    (s2, head + out1 + out2 + BigEndian(EOS, 8))
  }

  /** How far each stage gets: the first marks all pages and sends n of them, the others send
      n of those pending, and the last leaves none. */
  lemma StageProgress(s: Source, stage: Stage, n: nat)
    requires WfSource(s) && (CursorSafe(s) || stage == First)
    ensures var t := SaveLive(s, stage, n).0;
            var before := if stage == First then Start(s.blocks, |s.blocks|) else |Pending(s)|;
            |Pending(t)| == if stage == Last || before <= n then 0 else before - n
  {
    hide Pending;
    if stage == First {
      BeginWf(s);
      BeginPending(s);
    }
    var s0 := if stage == First then Begin(s) else s;
    SaveSomeWf(s0, n);
    SaveSomePending(s0, n);
    if stage == Last { SaveRestPending(SaveSome(s0, n).0); }
  }
}
