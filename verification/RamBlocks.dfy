/** Guest RAM blocks (exec.c): placing new blocks, freeing them, and looking up the
    block of an address with a most-recently-used hint. Addresses are 64 bits wide. */
module RamBlocks {
  import opened Machine
  import opened Bytes

  const MAX := WORD64 - 1

  datatype Block = Block(offset: nat, length: nat, host: nat)

  function End(b: Block): nat { b.offset + b.length }

  /** The source's test, with its unsigned subtraction. */
  predicate Has(b: Block, addr: int) { (addr - b.offset) % WORD64 < b.length }

  ghost predicate BlockOk(b: Block) { 0 < b.length && End(b) <= MAX }

  ghost predicate Apart(a: Block, b: Block) { End(a) <= b.offset || End(b) <= a.offset }

  /** Blocks do not overlap, lie in range, and are listed from biggest to smallest. */
  ghost predicate BlocksOk(blocks: seq<Block>) {
    && (forall i :: 0 <= i < |blocks| ==> BlockOk(blocks[i]))
    && (forall i, j :: 0 <= i < j < |blocks| ==> Apart(blocks[i], blocks[j]) && blocks[i].length >= blocks[j].length)
  }

  lemma HasIn(b: Block, addr: nat)
    requires BlockOk(b) && addr <= MAX
    ensures Has(b, addr) <==> b.offset <= addr < End(b)
  {
  }

  /** The least offset at or above end, or MAX. */
  ghost function NextStart(blocks: seq<Block>, end: nat): nat {
    if blocks == [] then MAX else
      var n := NextStart(blocks[..|blocks| - 1], end);
      var b := blocks[|blocks| - 1];
      if b.offset >= end && b.offset < n then b.offset else n
  }

  lemma {:induction false} NextStartLeast(blocks: seq<Block>, end: nat)
    ensures NextStart(blocks, end) <= MAX
    ensures forall i :: 0 <= i < |blocks| && blocks[i].offset >= end ==> NextStart(blocks, end) <= blocks[i].offset
    ensures NextStart(blocks, end) == MAX
            || exists i :: 0 <= i < |blocks| && blocks[i].offset == NextStart(blocks, end) >= end
  {
    if blocks != [] {
      var k := |blocks| - 1;
      NextStartLeast(blocks[..k], end);
      if NextStart(blocks, end) != blocks[k].offset && NextStart(blocks, end) != MAX {
        var i :| 0 <= i < k && blocks[..k][i].offset == NextStart(blocks[..k], end) >= end;
        assert blocks[i].offset == NextStart(blocks, end);
      }
      forall i | 0 <= i < |blocks| && blocks[i].offset >= end ensures NextStart(blocks, end) <= blocks[i].offset {
        if i < k { assert blocks[..k][i] == blocks[i]; }
      }
    }
  }

  /** The free space after block i. */
  ghost function Gap(blocks: seq<Block>, i: nat): int
    requires i < |blocks|
  {
    NextStart(blocks, End(blocks[i])) - End(blocks[i])
  }

  /** Behind block i is the smallest space that is large enough. */
  ghost predicate BestFit(blocks: seq<Block>, size: nat, i: nat) {
    && i < |blocks| && Gap(blocks, i) >= size
    && forall j :: 0 <= j < |blocks| && Gap(blocks, j) >= size ==> Gap(blocks, i) <= Gap(blocks, j)
  }

  /** A block that fits there keeps clear of all others and of the end. */
  lemma FitsApart(blocks: seq<Block>, i: nat, b: Block, j: nat)
    requires BlocksOk(blocks) && i < |blocks| && j < |blocks| && b.offset == End(blocks[i])
             && 0 < b.length <= Gap(blocks, i)
    ensures BlockOk(b) && Apart(b, blocks[j])
  {
    NextStartLeast(blocks, End(blocks[i]));
    if j < i { assert Apart(blocks[j], blocks[i]); }
    if i < j { assert Apart(blocks[i], blocks[j]); }
  }

  /** TARGET_PAGE_ALIGN, in 64 bits. */
  function Align(size: nat): (r: nat)
    ensures r < WORD64 && r % PAGE == 0
    ensures size + PAGE <= WORD64 ==> size <= r < size + PAGE
    ensures WORD64 < size + PAGE <= WORD64 + PAGE ==> r == 0
  {
    Pages((size + PAGE - 1) / PAGE);
    (size + PAGE - 1) / PAGE * PAGE % WORD64
  }

  /** A whole number of pages stays one when it wraps: 2^64 is one itself. */
  lemma Pages(q: nat)
    ensures q * PAGE % WORD64 == q % (WORD64 / PAGE) * PAGE < WORD64
    ensures q * PAGE % WORD64 % PAGE == 0
  {
    var n, k := WORD64 / PAGE, q / (WORD64 / PAGE);
    var r := q % n;
    assert q == k * n + r;
    assert q * PAGE == k * WORD64 + r * PAGE;
    Remainder(k, r * PAGE);
    Multiple(r);
  }

  lemma Remainder(k: nat, r: nat)
    requires r < WORD64
    ensures (k * WORD64 + r) % WORD64 == r
  {
  }

  lemma Multiple(r: nat)
    ensures r * PAGE % PAGE == 0
  {
  }

  lemma InsertMore(s: seq<Block>, k: nat, b: Block)
    requires k <= |s|
    ensures multiset(s[..k] + [b] + s[k..]) == multiset(s) + multiset{b}
  {
    assert s == s[..k] + s[k..];
  }

  lemma {:induction false} InsertOk(blocks: seq<Block>, k: nat, b: Block)
    requires BlocksOk(blocks) && k <= |blocks| && BlockOk(b) && forall j :: 0 <= j < |blocks| ==> Apart(b, blocks[j])
    requires (forall j :: 0 <= j < k ==> blocks[j].length >= b.length) && (k < |blocks| ==> blocks[k].length < b.length)
    ensures BlocksOk(blocks[..k] + [b] + blocks[k..])
  {
    var w := blocks[..k] + [b] + blocks[k..];
    assert forall i :: 0 <= i < |w| ==> BlockOk(w[i]);
    hide Apart, BlockOk;
    forall i, j | 0 <= i < j < |w| ensures Apart(w[i], w[j]) && w[i].length >= w[j].length {
      InsertedAt(blocks, k, b, i);
      InsertedAt(blocks, k, b, j);
      if i != k && j != k {
        assert Apart(blocks[if i < k then i else i - 1], blocks[if j < k then j else j - 1]);
      } else if i == k {
        assert Apart(b, blocks[j - 1]);
        if k < j - 1 { assert blocks[k].length >= blocks[j - 1].length; }
      } else {
        ApartBoth(b, blocks[i]);
      }
    }
  }

  lemma InsertedAt(s: seq<Block>, k: nat, b: Block, i: nat)
    requires k <= |s| && i <= |s|
    ensures (s[..k] + [b] + s[k..])[i] == if i < k then s[i] else if i == k then b else s[i - 1]
  {
  }

  lemma ApartBoth(b: Block, c: Block)
    ensures Apart(b, c) <==> Apart(c, b)
  {
  }

  lemma RemoveOk(blocks: seq<Block>, k: nat)
    requires BlocksOk(blocks) && k < |blocks|
    ensures BlocksOk(blocks[..k] + blocks[k + 1..])
  {
    var w := blocks[..k] + blocks[k + 1..];
    forall i, j | 0 <= i < j < |w| ensures Apart(w[i], w[j]) && w[i].length >= w[j].length {
      assert w[i] == blocks[if i < k then i else i + 1] && w[j] == blocks[if j < k then j else j + 1];
    }
  }

  /** At most one block has an address. */
  lemma OneBlock(blocks: seq<Block>, i: nat, j: nat, addr: nat)
    requires BlocksOk(blocks) && i < |blocks| && j < |blocks| && addr <= MAX && Has(blocks[i], addr)
             && Has(blocks[j], addr)
    ensures i == j
  {
    HasIn(blocks[i], addr);
    HasIn(blocks[j], addr);
    hide Has;
    var a, b := blocks[i], blocks[j];
    assert i != j ==> Apart(a, b) || Apart(b, a);
  }

  class RamList {
    var blocks: seq<Block>
    var mru: Option<Block>
    var version: nat

    ghost predicate Valid()
      reads this
    {
      BlocksOk(blocks) && (mru.Some? ==> mru.value in blocks)
    }

    constructor ()
      ensures Valid() && blocks == []
    {
      blocks, mru, version := [], None, 0;
    }

    /** find_ram_offset; None where the source aborts. */
    method FindOffset(size: nat) returns (offset: Option<nat>)
      requires Valid() && size < WORD64
      ensures size == 0 ==> offset == None
      ensures size > 0 && blocks == [] ==> offset == Some(0)
      ensures size > 0 && blocks != [] && offset.Some? ==>
                exists i: nat :: BestFit(blocks, size, i) && offset.value == End(blocks[i])
      ensures size > 0 && blocks != [] && offset.None? ==> forall i :: 0 <= i < |blocks| ==> Gap(blocks, i) < size
    {
      if size == 0 { return None; }
      if blocks == [] { return Some(0); }
      var best, mingap := MAX, MAX;
      ghost var at := 0;
      for i := 0 to |blocks|
        invariant best == MAX ==> mingap == MAX && forall j :: 0 <= j < i ==> Gap(blocks, j) < size
        invariant best != MAX ==> at < i && best == End(blocks[at]) && mingap == Gap(blocks, at) >= size
                                  && forall j :: 0 <= j < i && Gap(blocks, j) >= size ==> mingap <= Gap(blocks, j)
      {
        hide Gap;
        var end := End(blocks[i]);
        assert BlockOk(blocks[i]);
        var next := FindNext(end);
        GapIs(blocks, i);
        if next - end >= size && next - end < mingap {
          best, mingap, at := end, next - end, i;
        }
      }
      if best == MAX { return None; }
      assert BestFit(blocks, size, at);
      return Some(best);
    }

    /** The inner loop. */
    method FindNext(end: nat) returns (next: nat)
      ensures next == NextStart(blocks, end)
    {
      next := MAX;
      for j := 0 to |blocks|
        invariant next == NextStart(blocks[..j], end)
      {
        assert blocks[..j + 1][..j] == blocks[..j];
        if blocks[j].offset >= end && blocks[j].offset < next { next := blocks[j].offset; }
      }
      assert blocks[..|blocks|] == blocks;
    }

    /** qemu_ram_alloc_from_ptr; None where the source aborts. */
    method Alloc(size: nat, host: nat) returns (offset: Option<nat>)
      requires Valid() && size < WORD64
      modifies this
      ensures Valid()
      ensures offset.None? ==>
                blocks == old(blocks) && (Align(size) == 0
                || (old(blocks) != [] && forall i :: 0 <= i < |old(blocks)| ==> Gap(old(blocks), i) < Align(size)))
      ensures offset.Some? ==>
                Align(size) > 0 && multiset(blocks) == multiset(old(blocks))
                + multiset{Block(offset.value, Align(size), host)}
      ensures offset.Some? && old(blocks) == [] ==> offset.value == 0
      ensures offset.Some? && old(blocks) != [] ==>
                exists i: nat :: BestFit(old(blocks), Align(size), i) && offset.value == End(old(blocks)[i])
      ensures offset.Some? ==> mru == None && version == old(version) + 1
    {
      hide Gap, BestFit, Align, BlocksOk, Apart;
      AlignBound(size);
      var length := Align(size);
      offset := FindOffset(length);
      if offset.None? { return; }
      var b := Block(offset.value, length, host);
      NewApart(blocks, b, length);
      Insert(b);
    }

    /** The list stays sorted from biggest to smallest, and forgets its hint. */
    method Insert(b: Block)
      requires Valid() && BlockOk(b) && forall j :: 0 <= j < |blocks| ==> Apart(b, blocks[j])
      modifies this
      ensures Valid() && multiset(blocks) == multiset(old(blocks)) + multiset{b} && mru == None
              && version == old(version) + 1
    {
      hide BlocksOk, Apart, BlockOk;
      var k := 0;
      while k < |blocks| && blocks[k].length >= b.length
        invariant k <= |blocks| && forall j :: 0 <= j < k ==> blocks[j].length >= b.length
      {
        k := k + 1;
      }
      InsertOk(blocks, k, b);
      InsertMore(blocks, k, b);
      blocks := blocks[..k] + [b] + blocks[k..];
      mru := None;
      version := version + 1;
    }

    /** qemu_ram_free_from_ptr. */
    method Free(addr: nat)
      requires Valid()
      modifies this
      ensures Valid()
      ensures (forall i :: 0 <= i < |old(blocks)| ==> old(blocks)[i].offset != addr) ==>
                blocks == old(blocks) && mru == old(mru) && version == old(version)
      ensures forall i :: 0 <= i < |old(blocks)| && old(blocks)[i].offset == addr ==>
                blocks == old(blocks)[..i] + old(blocks)[i + 1..] && mru == None && version == old(version) + 1
    {
      for k := 0 to |blocks|
        invariant Valid() && blocks == old(blocks) && mru == old(mru) && version == old(version)
        invariant forall i :: 0 <= i < k ==> blocks[i].offset != addr
      {
        if addr == blocks[k].offset {
          RemoveOk(blocks, k);
          OneOffset(blocks, k);
          blocks := blocks[..k] + blocks[k + 1..];
          mru := None;
          version := version + 1;
          return;
        }
      }
    }

    /** qemu_get_ram_block: with any hint, the block a full scan finds; None where the
        source aborts. */
    method Get(addr: nat) returns (b: Option<Block>)
      requires Valid() && addr <= MAX
      modifies this`mru
      ensures Valid()
      ensures b.Some? ==> b.value in blocks && b.value.offset <= addr < End(b.value) && mru == b
      ensures b.Some? ==> forall c :: c in blocks && c.offset <= addr < End(c) ==> c == b.value
      ensures b.None? ==> mru == old(mru) && forall c :: c in blocks ==> !(c.offset <= addr < End(c))
    {
      if mru.Some? && Has(mru.value, addr) {
        b := mru;
        Unique(blocks, b.value, addr);
        return;
      }
      for k := 0 to |blocks|
        invariant forall i :: 0 <= i < k ==> !Has(blocks[i], addr)
      {
        if Has(blocks[k], addr) {
          mru := Some(blocks[k]);
          Unique(blocks, blocks[k], addr);
          return Some(blocks[k]);
        }
      }
      NoBlock(blocks, addr);
      return None;
    }
  }

  lemma AlignBound(size: nat)
    requires size < WORD64
    ensures Align(size) < WORD64 && (Align(size) > 0 ==> Align(size) <= MAX)
  {
  }

  lemma NewApart(blocks: seq<Block>, b: Block, size: nat)
    requires BlocksOk(blocks) && 0 < size == b.length <= MAX
    requires if blocks == [] then b.offset == 0
             else exists i: nat :: BestFit(blocks, size, i) && b.offset == End(blocks[i])
    ensures BlockOk(b) && forall j :: 0 <= j < |blocks| ==> Apart(b, blocks[j])
  {
    if blocks != [] {
      var i: nat :| BestFit(blocks, size, i) && b.offset == End(blocks[i]);
      FitsApart(blocks, i, b, 0);
      forall j | 0 <= j < |blocks| ensures Apart(b, blocks[j]) { FitsApart(blocks, i, b, j); }
    }
  }

  lemma OneOffset(blocks: seq<Block>, k: nat)
    requires BlocksOk(blocks) && k < |blocks|
    ensures forall i :: 0 <= i < |blocks| && blocks[i].offset == blocks[k].offset ==> i == k
  {
    forall i | 0 <= i < |blocks| ensures blocks[i].offset == blocks[k].offset ==> i == k {
      var a, b := blocks[i], blocks[k];
      assert i != k ==> Apart(a, b) || Apart(b, a);
    }
  }

  lemma Unique(blocks: seq<Block>, b: Block, addr: nat)
    requires BlocksOk(blocks) && b in blocks && addr <= MAX && Has(b, addr)
    ensures b.offset <= addr < End(b) && forall c :: c in blocks && c.offset <= addr < End(c) ==> c == b
  {
    var i :| 0 <= i < |blocks| && blocks[i] == b;
    HasIn(b, addr);
    hide Has;
    forall c | c in blocks && c.offset <= addr < End(c) ensures c == b {
      var j :| 0 <= j < |blocks| && blocks[j] == c;
      HasIn(c, addr);
      OneBlock(blocks, i, j, addr);
    }
  }

  lemma NoBlock(blocks: seq<Block>, addr: nat)
    requires BlocksOk(blocks) && addr <= MAX && forall i :: 0 <= i < |blocks| ==> !Has(blocks[i], addr)
    ensures forall c :: c in blocks ==> !(c.offset <= addr < End(c))
  {
    forall c | c in blocks ensures !(c.offset <= addr < End(c)) {
      var i :| 0 <= i < |blocks| && blocks[i] == c;
      HasIn(blocks[i], addr);
    }
  }

  lemma GapIs(blocks: seq<Block>, i: nat)
    requires i < |blocks|
    ensures Gap(blocks, i) == NextStart(blocks, End(blocks[i])) - End(blocks[i])
            && (BlockOk(blocks[i]) ==> Gap(blocks, i) < MAX) && NextStart(blocks, End(blocks[i])) <= MAX
  {
    NextStartLeast(blocks, End(blocks[i]));
  }
}
