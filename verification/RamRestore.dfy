/** ram_load (arch_init.c, version_id 3), and what it makes of the stream that
    RamMigration writes: after a quiescent last stage the two RAMs are equal. */
module RamRestore {
  import opened Machine
  import opened Bytes
  import opened RamMigration

  predicate Bit(flags: nat, mask: nat)
    requires mask > 0
  {
    flags / mask % 2 == 1
  }

  /** A length-prefixed name at the head of the stream. */
  function ReadName(s: seq<Byte>): (r: Option<(Id, seq<Byte>)>)
    ensures r.Some? ==> |r.value.1| < |s|
  {
    if |s| == 0 then None
    else
      var end: nat := s[0] as int + 1;
      if |s| < end then None else Some((CString(s[1..end]), s[end..]))
  }

  function ReadBe64(s: seq<Byte>): (r: Option<(nat, seq<Byte>)>)
    ensures r.Some? ==> |r.value.1| < |s|
  {
    if |s| < 8 then None else Some((Value(s[..8]), s[8..]))
  }

  /** Unsigned 64-bit subtraction. */
  function Sub64(a: nat, b: nat): (r: nat)
    ensures a < WORD64 ==> r < WORD64 && (r + b) % WORD64 == a
  {
    if a >= b then a - b else (a - b) % WORD64
  }

  /** The announced block list, checked against the local one until the
      announced total is used up. */
  function CheckBlocks(d: Dest, s: seq<Byte>, total: nat): (r: Option<seq<Byte>>)
    ensures r.Some? ==> |r.value| <= |s|
    decreases |s|
  {
    if total == 0 then Some(s)
    else
      match ReadName(s)
      case None => None
      case Some((id, s1)) =>
        match ReadBe64(s1)
        case None => None
        case Some((length, s2)) =>
          if id !in d.mem || |d.mem[id]| * PAGE != length then None
          else CheckBlocks(d, s2, Sub64(total, length))
  }

  /** host_from_stream_offset: the block a record is for, and what follows. */
  function HostBlock(d: Dest, s: seq<Byte>, flags: nat): (r: Option<(Id, seq<Byte>)>)
    ensures r.Some? ==> |r.value.1| <= |s|
  {
    if Bit(flags, CONTINUE) then
      if d.cur.None? then None else Some((d.cur.value, s))
    else
      match ReadName(s)
      case None => None
      case Some((id, rest)) => if id in d.mem then Some((id, rest)) else None
  }

  function Store(d: Dest, id: Id, j: nat, p: Page): Dest
    requires id in d.mem && j < |d.mem[id]|
  {
    var pages: seq<Page> := d.mem[id][j := p];
    d.(mem := d.mem[id := pages], cur := Some(id))
  }

  datatype Read = Read(d: Dest, rest: seq<Byte>, eos: bool)

  /** What follows the header word of a record for page j. Offsets outside the
      named block, which the code does not check, are failures here. */
  function ReadBody(d: Dest, flags: nat, j: nat, s: seq<Byte>): (r: Option<Read>)
    ensures r.Some? ==> |r.value.rest| <= |s|
  {
    var eos := Bit(flags, EOS);
    if Bit(flags, MEM_SIZE) then
      match CheckBlocks(d, s, j * PAGE)
      case None => None
      case Some(rest) => Some(Read(d, rest, eos))
    else if Bit(flags, COMPRESS) || Bit(flags, FULL_PAGE) then
      match HostBlock(d, s, flags)
      case None => None
      case Some((id, s2)) =>
        if id !in d.mem || j >= |d.mem[id]| then None
        else if Bit(flags, COMPRESS) then
          if |s2| < 1 then None
          else Some(Read(Store(d, id, j, seq(PAGE, _ => s2[0])), s2[1..], eos))
        else
          if |s2| < PAGE then None
          else Some(Read(Store(d, id, j, s2[..PAGE]), s2[PAGE..], eos))
    else Some(Read(d, s, eos))
  }

  /** One turn of ram_load's loop. */
  function ReadRecord(d: Dest, s: seq<Byte>): (r: Option<Read>)
    ensures r.Some? ==> |r.value.rest| < |s|
  {
    match ReadBe64(s)
    case None => None
    case Some((v, rest)) => ReadBody(d, v % PAGE, v / PAGE, rest)
  }

  /** ram_load: records up to and including the first with the EOS flag. */
  function Load(d: Dest, s: seq<Byte>): Option<(Dest, seq<Byte>)>
    decreases |s|
  {
    match ReadRecord(d, s)
    case None => None
    case Some(r) => if r.eos then Some((r.d, r.rest)) else Load(r.d, r.rest)
  }

  // ------------------------------------------------------------ replaying

  /** Reading s in state d leaves the loader in state e, whatever follows s. */
  ghost predicate Leads(d: Dest, s: seq<Byte>, e: Dest) {
    forall t: seq<Byte> :: Load(d, s + t) == Load(e, t)
  }

  lemma LeadsNothing(d: Dest)
    ensures Leads(d, [], d)
  {
    forall t: seq<Byte> ensures Load(d, [] + t) == Load(d, t) { assert [] + t == t; }
  }

  lemma LeadsThen(d: Dest, s: seq<Byte>, e: Dest, t: seq<Byte>, f: Dest)
    requires Leads(d, s, e) && Leads(e, t, f)
    ensures Leads(d, s + t, f)
  {
    forall u: seq<Byte> ensures Load(d, s + t + u) == Load(f, u) {
      Assoc(s, t, u);
    }
  }

  lemma ReadBe64Of(v: nat, t: seq<Byte>)
    requires v < WORD64
    ensures ReadBe64(BigEndian(v, 8) + t) == Some((v, t))
  {
    Pow256Values();
    ValueBigEndian(v, 8);
    assert (BigEndian(v, 8) + t)[..8] == BigEndian(v, 8);
    assert (BigEndian(v, 8) + t)[8..] == t;
  }

  lemma ReadNameOf(id: Id, t: seq<Byte>)
    requires |id| < 256 && NoZero(id)
    ensures ReadName(Name(id) + t) == Some((id, t))
  {
    var s := Name(id) + t;
    CStringNoZero(id);
    assert s[1..|id| + 1] == id;
    assert s[|id| + 1..] == t;
  }

  /** The destination has the source's blocks, by name and size. */
  ghost predicate Matches(s: Source, d: Dest) {
    forall b :: b in s.blocks ==> b.id in d.mem && |d.mem[b.id]| == b.pages
  }

  predicate InBlock(b: Block, j: int) { 0 <= j < b.pages }

  /** Page j of block b is the same on both sides. */
  ghost predicate SamePage(s: Source, d: Dest, b: Block, j: nat) {
    && b.first + j in s.ram && b.id in d.mem && j < |d.mem[b.id]|
    && d.mem[b.id][j] == s.ram[b.first + j]
  }

  /** The invariant of the protocol: a page is dirty or already the same on both
      sides, and the loader remembers the block of the last record. */
  ghost predicate Synced(s: Source, d: Dest) {
    && Matches(s, d)
    && (forall b, j :: b in s.blocks && InBlock(b, j) ==> b.first + j in s.dirty || SamePage(s, d, b, j))
    && (s.last.Some? ==> s.last.value < |s.blocks| && d.cur == Some(s.blocks[s.last.value].id))
  }

  ghost predicate SameRam(s: Source, d: Dest) {
    && Matches(s, d)
    && forall b, j :: b in s.blocks && InBlock(b, j) ==> SamePage(s, d, b, j)
  }

  lemma CheckBlocksStep(d: Dest, b: Block, rest: seq<Byte>, total: nat)
    requires WfBlock(b) && b.pages * PAGE <= total < WORD64
    ensures CheckBlocks(d, Name(b.id) + BigEndian(b.pages * PAGE, 8) + rest, total) ==
            if Has(d, b) then CheckBlocks(d, rest, total - b.pages * PAGE) else None
  {
    hide Bytes.BigEndian, Bytes.Value, Bytes.CString, ReadName, ReadBe64, Name;
    var s1 := BigEndian(b.pages * PAGE, 8) + rest;
    Assoc(Name(b.id), BigEndian(b.pages * PAGE, 8), rest);
    ReadNameOf(b.id, s1);
    ReadBe64Of(b.pages * PAGE, rest);
  }

  lemma CheckBlocksDone(d: Dest, s: seq<Byte>)
    ensures CheckBlocks(d, s, 0) == Some(s)
  {
  }

  /** The destination has block b, at its size. */
  ghost predicate Has(d: Dest, b: Block) { b.id in d.mem && |d.mem[b.id]| == b.pages }

  ghost predicate HasFrom(blocks: seq<Block>, i: nat, d: Dest) { forall k :: i <= k < |blocks| ==> Has(d, blocks[k]) }

  /** An announced list is accepted, and exactly it is read, if the destination has all its
      blocks at their sizes; otherwise it is refused. */
  lemma {:induction false} CheckBlocksOf(blocks: seq<Block>, d: Dest, i: nat, total: nat, t: seq<Byte>)
    requires WfBlocks(blocks) && i <= |blocks|
    requires total == (Start(blocks, |blocks|) - Start(blocks, i)) * PAGE
    ensures CheckBlocks(d, Entries(blocks, i) + t, total) ==
            if HasFrom(blocks, i, d) then Some(t) else None
    decreases |blocks| - i
  {
    hide Bytes.BigEndian, CheckBlocks, Name, Has;
    if i == |blocks| {
      assert Entries(blocks, i) + t == t;
      CheckBlocksDone(d, t);
    } else {
      var b := blocks[i];
      StartMonotone(blocks, i, |blocks|);
      var rest := Entries(blocks, i + 1) + t;
      Assoc(Name(b.id) + BigEndian(b.pages * PAGE, 8), Entries(blocks, i + 1), t);
      CheckBlocksStep(d, b, rest, total);
      CheckBlocksOf(blocks, d, i + 1, total - b.pages * PAGE, t);
    }
  }

  /** A header word splits into its flags and its page number. */
  lemma ReadHeader(d: Dest, v: nat, j: nat, flags: nat, t: seq<Byte>)
    requires flags < PAGE && v == j * PAGE + flags && v < WORD64
    ensures ReadRecord(d, BigEndian(v, 8) + t) == ReadBody(d, flags, j, t)
  {
    ReadBe64Of(v, t);
    assert v % PAGE == flags && v / PAGE == j;
  }

  lemma AnnounceBody(d: Dest, n: nat, s: seq<Byte>)
    ensures ReadBody(d, MEM_SIZE, n, s) ==
            match CheckBlocks(d, s, n * PAGE) { case None => None case Some(t) => Some(Read(d, t, false)) }
  {
    assert Bit(MEM_SIZE, MEM_SIZE) && !Bit(MEM_SIZE, EOS);
  }

  lemma ReadAnnounce(s: Source, d: Dest, t: seq<Byte>)
    requires WfBlocks(s.blocks)
    ensures ReadRecord(d, Announce(s.blocks) + t) == if Matches(s, d) then Some(Read(d, t, false)) else None
  {
    hide ReadRecord, ReadBody, Bytes.BigEndian;
    var n := Start(s.blocks, |s.blocks|);
    var list := Entries(s.blocks, 0);
    CheckBlocksOf(s.blocks, d, 0, n * PAGE, t);
    MatchesAll(s, d);
    AnnounceBody(d, n, list + t);
    var v := n * PAGE + MEM_SIZE;
    assert v < WORD64;
    ReadHeader(d, v, n, MEM_SIZE, list + t);
    Assoc(BigEndian(v, 8), list, t);
  }

  lemma MatchesAll(s: Source, d: Dest)
    ensures Matches(s, d) <==> HasFrom(s.blocks, 0, d)
  {
    if HasFrom(s.blocks, 0, d) {
      forall b | b in s.blocks
        ensures b.id in d.mem && |d.mem[b.id]| == b.pages
      {
        var k :| 0 <= k < |s.blocks| && s.blocks[k] == b;
        assert Has(d, s.blocks[k]);
      }
    }
  }

  lemma LeadsAnnounce(s: Source, d: Dest)
    requires WfBlocks(s.blocks) && Matches(s, d)
    ensures Leads(d, Announce(s.blocks), d)
  {
    forall t: seq<Byte> ensures Load(d, Announce(s.blocks) + t) == Load(d, t) {
      ReadAnnounce(s, d, t);
    }
  }

  lemma HostBlockOf(s: Source, d: Dest, b: nat, j: nat, t: seq<Byte>)
    requires WfSource(s) && Synced(s, d) && HasPage(s.blocks, b, j)
    ensures HostBlock(d, (if s.last == Some(b) then [] else Name(s.blocks[b].id)) + t, Flags(s, b, j)) ==
            Some((s.blocks[b].id, t))
  {
    var blk := s.blocks[b];
    assert blk in s.blocks && WfBlock(blk);
    if s.last == Some(b) {
      assert [] + t == t;
      assert Bit(CONTINUE + COMPRESS, CONTINUE) && Bit(CONTINUE + FULL_PAGE, CONTINUE);
    } else {
      ReadNameOf(blk.id, t);
      assert !Bit(COMPRESS, CONTINUE) && !Bit(FULL_PAGE, CONTINUE);
    }
  }

  lemma UniformBody(d: Dest, s: seq<Byte>, flags: nat, id: Id, j: nat, ch: Byte, t: seq<Byte>)
    requires flags == COMPRESS || flags == CONTINUE + COMPRESS
    requires HostBlock(d, s, flags) == Some((id, [ch] + t)) && id in d.mem && j < |d.mem[id]|
    ensures ReadBody(d, flags, j, s) == Some(Read(Store(d, id, j, seq(PAGE, _ => ch)), t, false))
  {
    var rest := [ch] + t;
    assert rest[0] == ch && rest[1..] == t;
    assert seq(PAGE, _ => rest[0]) == seq(PAGE, _ => ch);
    assert Bit(flags, COMPRESS) && !Bit(flags, MEM_SIZE) && !Bit(flags, EOS);
  }

  lemma FullBody(d: Dest, s: seq<Byte>, flags: nat, id: Id, j: nat, p: Page, t: seq<Byte>)
    requires flags == FULL_PAGE || flags == CONTINUE + FULL_PAGE
    requires HostBlock(d, s, flags) == Some((id, p + t)) && id in d.mem && j < |d.mem[id]|
    ensures ReadBody(d, flags, j, s) == Some(Read(Store(d, id, j, p), t, false))
  {
    var rest := p + t;
    assert rest[..PAGE] == p && rest[PAGE..] == t;
    assert Bit(flags, FULL_PAGE) && !Bit(flags, COMPRESS) && !Bit(flags, MEM_SIZE) && !Bit(flags, EOS);
  }

  lemma ReadBodyOf(s: Source, d: Dest, b: nat, j: nat, t: seq<Byte>)
    requires WfSource(s) && Synced(s, d) && HasPage(s.blocks, b, j)
    ensures s.blocks[b].id in d.mem && |d.mem[s.blocks[b].id]| == s.blocks[b].pages
    ensures ReadBody(d, Flags(s, b, j), j, Body(s, b, j) + t) ==
            Some(Read(Store(d, s.blocks[b].id, j, s.ram[PageAt(s.blocks, b, j)]), t, false))
  {
    hide ReadBody, HostBlock;
    var blk := s.blocks[b];
    assert blk in s.blocks;
    var p := s.ram[PageAt(s.blocks, b, j)];
    var name := if s.last == Some(b) then [] else Name(blk.id);
    var flags, all := Flags(s, b, j), Body(s, b, j) + t;
    if Uniform(p) {
      Assoc(name, [p[0]], t);
      HostBlockOf(s, d, b, j, [p[0]] + t);
      UniformBody(d, all, flags, blk.id, j, p[0], t);
      assert seq(PAGE, _ => p[0]) == p;
    } else {
      Assoc(name, p, t);
      HostBlockOf(s, d, b, j, p + t);
      FullBody(d, all, flags, blk.id, j, p, t);
    }
  }

  lemma ReadRecordOf(s: Source, d: Dest, b: nat, j: nat, t: seq<Byte>)
    requires WfSource(s) && Synced(s, d) && HasPage(s.blocks, b, j)
    ensures s.blocks[b].id in d.mem && |d.mem[s.blocks[b].id]| == s.blocks[b].pages
    ensures ReadRecord(d, Record(s, b, j) + t) ==
            Some(Read(Store(d, s.blocks[b].id, j, s.ram[PageAt(s.blocks, b, j)]), t, false))
  {
    hide ReadBody, ReadRecord, Bytes.BigEndian;
    LinearBound(s.blocks, b, j);
    var v := j * PAGE + Flags(s, b, j);
    Assoc(BigEndian(v, 8), Body(s, b, j), t);
    ReadHeader(d, v, j, Flags(s, b, j), Body(s, b, j) + t);
    ReadBodyOf(s, d, b, j, t);
  }

  // ------------------------------------------------------------ the protocol

  /** Storing the page just cleared keeps every page dirty or equal. */
  lemma SyncedStore(s: Source, d: Dest, b: nat, j: nat)
    requires WfSource(s) && Synced(s, d) && HasPage(s.blocks, b, j)
    requires s.blocks[b].id in d.mem && |d.mem[s.blocks[b].id]| == s.blocks[b].pages
    ensures Synced(s.(dirty := s.dirty - {PageAt(s.blocks, b, j)}, last := Some(b), lastPage := j),
                   Store(d, s.blocks[b].id, j, s.ram[PageAt(s.blocks, b, j)]))
  {
    var blk := s.blocks[b];
    var a := PageAt(s.blocks, b, j);
    var t := s.(dirty := s.dirty - {a}, last := Some(b), lastPage := j);
    var e := Store(d, blk.id, j, s.ram[a]);
    forall c, k | c in s.blocks && InBlock(c, k)
      ensures c.first + k in t.dirty || SamePage(t, e, c, k)
    {
      var i :| 0 <= i < |s.blocks| && s.blocks[i] == c;
      assert HasPage(s.blocks, i, k) && PageAt(s.blocks, i, k) == c.first + k;
      if c.first + k == a {
        PageAtInjective(s.blocks, i, k, b, j);
      } else if c.first + k !in s.dirty {
        assert SamePage(s, d, c, k);
      }
    }
  }

  /** Page k of block id is one whose bit has gone since s. */
  ghost predicate Sent(s: Source, t: Source, id: Id, k: nat) {
    exists b :: b in s.blocks && b.id == id && InBlock(b, k) && b.first + k in s.dirty && b.first + k !in t.dirty
  }

  ghost predicate SameSizes(d: Dest, e: Dest) {
    e.mem.Keys == d.mem.Keys && forall id :: id in d.mem ==> |e.mem[id]| == |d.mem[id]|
  }

  /** The destination has changed only in the pages that were sent. */
  ghost predicate OnlySent(s: Source, t: Source, d: Dest, e: Dest) {
    && SameSizes(d, e)
    && forall id, k :: id in d.mem && 0 <= k < |d.mem[id]| ==> e.mem[id][k] == d.mem[id][k] || Sent(s, t, id, k)
  }

  lemma OnlySentThen(s: Source, t: Source, u: Source, d: Dest, e: Dest, f: Dest)
    requires OnlySent(s, t, d, e) && OnlySent(t, u, e, f)
    requires t.blocks == s.blocks && u.dirty <= t.dirty <= s.dirty
    ensures OnlySent(s, u, d, f)
  {
    forall id, k | id in d.mem && 0 <= k < |d.mem[id]|
      ensures f.mem[id][k] == d.mem[id][k] || Sent(s, u, id, k)
    {
      if Sent(s, t, id, k) {
        var b :| b in s.blocks && b.id == id && InBlock(b, k) && b.first + k in s.dirty && b.first + k !in t.dirty;
        assert b.first + k !in u.dirty;
      }
      if Sent(t, u, id, k) {
        var b :| b in t.blocks && b.id == id && InBlock(b, k) && b.first + k in t.dirty && b.first + k !in u.dirty;
        assert b.first + k in s.dirty;
      }
    }
  }

  lemma ReplaySaveBlock(s: Source, d: Dest) returns (e: Dest)
    requires Wf(s) && Synced(s, d)
    ensures Leads(d, SaveBlock(s).1, e) && Synced(SaveBlock(s).0, e) && OnlySent(s, SaveBlock(s).0, d, e)
  {
    ScanAllEmpty(s);
    if ScanAll(s).None? {
      LeadsNothing(d);
      e := d;
    } else {
      var (b, j) := ScanAll(s).value;
      ReadRecordOf(s, d, b, j, []);
      e := Store(d, s.blocks[b].id, j, s.ram[PageAt(s.blocks, b, j)]);
      forall t: seq<Byte> ensures Load(d, Record(s, b, j) + t) == Load(e, t) {
        ReadRecordOf(s, d, b, j, t);
      }
      SyncedStore(s, d, b, j);
      StoreSent(s, d, b, j);
    }
    hide Sent, Synced, Load, Record;
  }

  lemma StoreSent(s: Source, d: Dest, b: nat, j: nat)
    requires HasPage(s.blocks, b, j) && PageAt(s.blocks, b, j) in s.dirty && PageAt(s.blocks, b, j) in s.ram
    requires s.blocks[b].id in d.mem && j < |d.mem[s.blocks[b].id]|
    ensures OnlySent(s, s.(dirty := s.dirty - {PageAt(s.blocks, b, j)}, last := Some(b), lastPage := j), d,
                     Store(d, s.blocks[b].id, j, s.ram[PageAt(s.blocks, b, j)]))
  {
    var t := s.(dirty := s.dirty - {PageAt(s.blocks, b, j)}, last := Some(b), lastPage := j);
    assert s.blocks[b] in s.blocks && InBlock(s.blocks[b], j);
    assert Sent(s, t, s.blocks[b].id, j);
    hide Sent;
  }

  lemma {:induction false} ReplaySaveSome(s: Source, d: Dest, n: nat) returns (e: Dest)
    requires Wf(s) && Synced(s, d)
    ensures Leads(d, SaveSome(s, n).1, e) && Synced(SaveSome(s, n).0, e) && OnlySent(s, SaveSome(s, n).0, d, e)
    decreases n
  {
    hide RamMigration.SaveBlock, Leads, Synced, Sent;
    SaveBlockWf(s);
    if n == 0 || SaveBlock(s).1 == [] {
      LeadsNothing(d);
      e := d;
    } else {
      var e1 := ReplaySaveBlock(s, d);
      var s1 := SaveBlock(s).0;
      e := ReplaySaveSome(s1, e1, n - 1);
      SaveSomePending(s1, n - 1);
      OnlySentThen(s, s1, SaveSome(s1, n - 1).0, d, e1, e);
      LeadsThen(d, SaveBlock(s).1, e1, SaveSome(s1, n - 1).1, e);
    }
  }

  lemma {:induction false} ReplaySaveRest(s: Source, d: Dest) returns (e: Dest)
    requires Wf(s) && Synced(s, d)
    ensures Leads(d, SaveRest(s).1, e) && Synced(SaveRest(s).0, e) && OnlySent(s, SaveRest(s).0, d, e)
    decreases |s.dirty|
  {
    hide RamMigration.SaveBlock, Leads, Synced, Sent;
    SaveBlockWf(s);
    if SaveBlock(s).1 == [] {
      LeadsNothing(d);
      e := d;
    } else {
      var e1 := ReplaySaveBlock(s, d);
      var s1 := SaveBlock(s).0;
      SubsetSmaller(s1.dirty, s.dirty);
      e := ReplaySaveRest(s1, e1);
      SaveRestPending(s1);
      OnlySentThen(s, s1, SaveRest(s1).0, d, e1, e);
      LeadsThen(d, SaveBlock(s).1, e1, SaveRest(s1).1, e);
    }
  }

  lemma LoadEos(d: Dest, t: seq<Byte>)
    ensures Load(d, BigEndian(EOS, 8) + t) == Some((d, t))
  {
    ReadHeader(d, EOS, 0, EOS, t);
    assert Bit(EOS, EOS) && !Bit(EOS, MEM_SIZE) && !Bit(EOS, COMPRESS) && !Bit(EOS, FULL_PAGE);
  }

  lemma AllPagesHas(blocks: seq<Block>, b: Block, j: nat)
    requires b in blocks && j < b.pages
    ensures b.first + j in AllPages(blocks)
  {
    var i :| 0 <= i < |blocks| && blocks[i] == b;
    PagesUpToHas(blocks, |blocks|, i, j);
  }

  lemma BeginSynced(s: Source, d: Dest)
    requires WfSource(s) && Matches(s, d)
    ensures Synced(Begin(s), d)
  {
    SortKeepsWf(s.blocks);
    var blocks := SortBlocks(s.blocks);
    var pages := AllPages(blocks);
    forall b, j | b in blocks && InBlock(b, j)
      ensures b.first + j in pages
    {
      AllPagesHas(blocks, b, j);
    }
  }

  /** ram_load accepts exactly the bytes a stage wrote and keeps the invariant;
      after the last stage the two RAMs are equal. */
  lemma ReplaySaveLive(s: Source, d: Dest, stage: Stage, n: nat) returns (e: Dest)
    requires WfSource(s)
    requires if stage == First then Matches(s, d) else CursorSafe(s) && Synced(s, d)
    ensures Load(d, SaveLive(s, stage, n).1) == Some((e, []))
    ensures var t := SaveLive(s, stage, n).0; Wf(t) && Synced(t, e)
    ensures SaveLive(s, stage, n).0.ram == s.ram
    ensures SaveLive(s, stage, n).0.blocks == if stage == First then SortBlocks(s.blocks) else s.blocks
    ensures OnlySent(if stage == First then Begin(s) else s, SaveLive(s, stage, n).0, d, e)
    ensures stage == Last ==> SameRam(SaveLive(s, stage, n).0, e)
  {
    if stage == First { BeginWf(s); }
    var s0 := if stage == First then Begin(s) else s;
    var head := if stage == First then Announce(s0.blocks) else [];
    if stage == First {
      BeginSynced(s, d);
      LeadsAnnounce(s0, d);
    } else {
      LeadsNothing(d);
    }
    SaveSomeWf(s0, n);
    var (s1, out1) := SaveSome(s0, n);
    var e1 := ReplaySaveSome(s0, d, n);
    LeadsThen(d, head, d, out1, e1);
    SaveSomePending(s0, n);
    var (s2, out2) := if stage == Last then SaveRest(s1) else (s1, []);
    if stage == Last {
      SaveRestWf(s1);
      e := ReplaySaveRest(s1, e1);
      CleanSynced(s2, e);
      SaveRestPending(s1);
      OnlySentThen(s0, s1, s2, d, e1, e);
    } else {
      LeadsNothing(e1);
      e := e1;
    }
    LeadsThen(d, head + out1, e1, out2, e);
    LoadEos(e, []);
    assert BigEndian(EOS, 8) + [] == BigEndian(EOS, 8);
    assert Load(d, head + out1 + out2 + BigEndian(EOS, 8)) == Load(e, BigEndian(EOS, 8));
  }

  lemma CleanSynced(s: Source, d: Dest)
    requires Synced(s, d) && AllClean(s)
    ensures SameRam(s, d)
  {
    forall b, j | b in s.blocks && InBlock(b, j)
      ensures b.first + j !in s.dirty
    {
      var i :| 0 <= i < |s.blocks| && s.blocks[i] == b;
      assert HasPage(s.blocks, i, j) && PageAt(s.blocks, i, j) == b.first + j;
    }
  }

  // ------------------------------------------------------------ whole runs

  /** What can happen during a migration: the guest stores into a page, which sets
      the page's migration bit, or a stage runs and its chunk is loaded. */
  datatype Event = Write(a: nat, data: Page) | Save(stage: Stage, n: nat)

  ghost function GuestWrite(s: Source, a: nat, data: Page): Source {
    s.(ram := s.ram[a := data], dirty := s.dirty + {a})
  }

  /** What page a holds after the events: what the guest stored there last. */
  ghost function LastWritten(events: seq<Event>, a: nat, was: Page): Page {
    if events == [] then was
    else
      var n := |events| - 1;
      if events[n].Write? && events[n].a == a then events[n].data else LastWritten(events[..n], a, was)
  }

  lemma {:induction false} LastWrittenAfter(e: Event, rest: seq<Event>, a: nat, was: Page)
    ensures LastWritten([e] + rest, a, was) ==
            LastWritten(rest, a, if e.Write? && e.a == a then e.data else was)
    decreases |rest|
  {
    var all := [e] + rest;
    if rest == [] {
      assert all[..0] == [];
    } else {
      var n := |rest| - 1;
      assert all[..n + 1] == [e] + rest[..n];
      LastWrittenAfter(e, rest[..n], a, was);
    }
  }

  lemma GuestWriteKeeps(s: Source, d: Dest, a: nat, data: Page)
    requires WfSource(s) && a in s.ram
    ensures WfSource(GuestWrite(s, a, data))
    ensures CursorSafe(s) ==> CursorSafe(GuestWrite(s, a, data))
    ensures Synced(s, d) ==> Synced(GuestWrite(s, a, data), d)
    ensures Matches(s, d) ==> Matches(GuestWrite(s, a, data), d)
  {
  }

  /** Running the events; None when a load fails or leaves bytes unread, or when
      a stage would follow a null last_block. */
  ghost function Run(s: Source, d: Dest, events: seq<Event>): Option<(Source, Dest)>
    decreases |events|
  {
    if events == [] then Some((s, d))
    else
      match events[0]
      case Write(a, data) => Run(GuestWrite(s, a, data), d, events[1..])
      case Save(stage, n) =>
        if !(WfSource(s) && (CursorSafe(s) || stage == First)) then None
        else
          var (t, chunk) := SaveLive(s, stage, n);
          match Load(d, chunk)
          case None => None
          case Some((e, rest)) => if rest == [] then Run(t, e, events[1..]) else None
  }

  ghost predicate WritesRam(s: Source, events: seq<Event>) {
    forall i :: 0 <= i < |events| && events[i].Write? ==> events[i].a in s.ram
  }

  /** t has the RAM of s, with what the events stored. */
  ghost predicate Holds(s: Source, events: seq<Event>, t: Source) {
    && t.ram.Keys == s.ram.Keys && (forall b :: b in t.blocks <==> b in s.blocks)
    && forall a :: a in s.ram ==> t.ram[a] == LastWritten(events, a, s.ram[a])
  }

  /** Blocks that the source does not have are as they were. */
  ghost predicate OthersSame(s: Source, d: Dest, e: Dest) {
    SameSizes(d, e) && forall id :: id in d.mem && (forall b :: b in s.blocks ==> b.id != id) ==> e.mem[id] == d.mem[id]
  }

  lemma HoldsAfter(s: Source, e: Event, t: Source, rest: seq<Event>, u: Source)
    requires Holds(t, rest, u)
    requires if e.Write? then e.a in s.ram && t.ram == s.ram[e.a := e.data] && t.blocks == s.blocks
             else t.ram == s.ram && forall b :: b in t.blocks <==> b in s.blocks
    ensures Holds(s, [e] + rest, u)
  {
    forall a | a in s.ram
      ensures u.ram[a] == LastWritten([e] + rest, a, s.ram[a])
    {
      LastWrittenAfter(e, rest, a, s.ram[a]);
    }
  }

  lemma SentOthers(s: Source, t: Source, d: Dest, e: Dest)
    requires OnlySent(s, t, d, e)
    ensures OthersSame(s, d, e)
  {
    forall id | id in d.mem && forall b :: b in s.blocks ==> b.id != id
      ensures e.mem[id] == d.mem[id]
    {
      forall k | 0 <= k < |d.mem[id]|
        ensures e.mem[id][k] == d.mem[id][k]
      {
        assert !Sent(s, t, id, k);
      }
    }
  }

  lemma OthersThen(s: Source, t: Source, d: Dest, e: Dest, f: Dest)
    requires OthersSame(s, d, e) && OthersSame(t, e, f) && forall b :: b in t.blocks <==> b in s.blocks
    ensures OthersSame(s, d, f)
  {
  }

  /** Once stage 1 has run, the invariant survives every further interleaving of
      guest writes and stages. */
  lemma {:induction false} RunKeepsSynced(s: Source, d: Dest, events: seq<Event>)
    requires Wf(s) && Synced(s, d) && WritesRam(s, events)
    ensures Run(s, d, events).Some?
    ensures var (t, e) := Run(s, d, events).value;
            Wf(t) && Synced(t, e) && Holds(s, events, t) && OthersSame(s, d, e)
    ensures |events| > 0 && events[|events| - 1].Save? && events[|events| - 1].stage == Last ==>
              var (t, e) := Run(s, d, events).value; SameRam(t, e)
    decreases |events|
  {
    hide RamMigration.SaveLive, Load, SameRam, Synced, Holds, OthersSame, OnlySent;
    if events == [] {
      NothingYet(s, d);
    } else {
      assert events == [events[0]] + events[1..];
      match events[0] {
        case Write(a, data) =>
          GuestWriteKeeps(s, d, a, data);
          var t := GuestWrite(s, a, data);
          RunKeepsSynced(t, d, events[1..]);
          HoldsAfter(s, events[0], t, events[1..], Run(t, d, events[1..]).value.0);
          NothingYet(s, d);
          OthersThen(s, t, d, d, Run(t, d, events[1..]).value.1);
        case Save(stage, n) =>
          SyncedMatches(s, d);
          var e := ReplaySaveLive(s, d, stage, n);
          var t := SaveLive(s, stage, n).0;
          StageBlocks(s, stage, n, t, d, e);
          RunKeepsSynced(t, e, events[1..]);
          HoldsAfter(s, events[0], t, events[1..], Run(t, e, events[1..]).value.0);
          OthersThen(s, t, d, e, Run(t, e, events[1..]).value.1);
      }
    }
  }

  lemma NothingYet(s: Source, d: Dest)
    ensures Holds(s, [], s) && OthersSame(s, d, d)
  {
  }

  lemma StageBlocks(s: Source, stage: Stage, n: nat, t: Source, d: Dest, e: Dest)
    requires WfBlocks(s.blocks) && t.blocks == if stage == First then SortBlocks(s.blocks) else s.blocks
    requires OnlySent(if stage == First then Begin(s) else s, t, d, e)
    ensures (forall b :: b in t.blocks <==> b in s.blocks) && OthersSame(s, d, e)
  {
    hide OthersSame, OnlySent;
    SortKeepsWf(s.blocks);
    var s0 := if stage == First then Begin(s) else s;
    SentOthers(s0, t, d, e);
    SameOthers(s0, s, d, e);
  }

  lemma SameOthers(s: Source, t: Source, d: Dest, e: Dest)
    requires OthersSame(s, d, e) && forall b :: b in t.blocks <==> b in s.blocks
    ensures OthersSame(t, d, e)
  {
  }

  lemma SyncedMatches(s: Source, d: Dest)
    requires Synced(s, d)
    ensures Matches(s, d)
  {
  }

  /** Every page of every block of s is, at the destination, what the guest stored there
      last during the events, or what it was if the guest stored nothing. */
  ghost predicate Arrived(s: Source, events: seq<Event>, e: Dest) {
    forall b, j :: b in s.blocks && InBlock(b, j) ==>
      && b.first + j in s.ram && b.id in e.mem && j < |e.mem[b.id]|
      && e.mem[b.id][j] == LastWritten(events, b.first + j, s.ram[b.first + j])
  }

  /** Migration is correct: whatever the destination held and whatever the guest
      writes between stages, a run that starts with stage 1 and ends with stage 3
      loads without error exactly if the destination has the source's blocks, and then
      the destination has in them what the guest stored last, and the rest as before. */
  lemma MigrationCorrect(s: Source, d: Dest, n: nat, middle: seq<Event>, m: nat)
    requires WfSource(s) && WritesRam(s, middle)
    ensures var events := [Save(First, n)] + middle + [Save(Last, m)];
            && (Run(s, d, events).Some? <==> Matches(s, d))
            && (Matches(s, d) ==>
                 var (t, e) := Run(s, d, events).value;
                 SameRam(t, e) && Holds(s, middle, t) && Arrived(s, middle, e) && OthersSame(s, d, e))
  {
    hide RamMigration.SaveLive, Load, Run, Synced, SameRam, Holds, Arrived, OthersSame, OnlySent, Matches;
    var t := SaveLive(s, First, n).0;
    var rest := middle + [Save(Last, m)];
    assert [Save(First, n)] + middle + [Save(Last, m)] == [Save(First, n)] + rest;
    RunFirst(s, d, n, rest);
    if !Matches(s, d) {
      Refused(s, d, n);
    } else {
      var e := ReplaySaveLive(s, d, First, n);
      StageBlocks(s, First, n, t, d, e);
      RunKeepsSynced(t, e, rest);
      var (u, f) := Run(t, e, rest).value;
      HoldsMiddle(s, t, middle, m, u);
      ArrivedBy(s, middle, u, f);
      OthersThen(s, t, d, e, f);
    }
  }

  lemma RunFirst(s: Source, d: Dest, n: nat, rest: seq<Event>)
    requires WfSource(s)
    ensures var l := Load(d, SaveLive(s, First, n).1);
            Run(s, d, [Save(First, n)] + rest)
            == if l.Some? && l.value.1 == [] then Run(SaveLive(s, First, n).0, l.value.0, rest) else None
  {
    hide Load, RamMigration.SaveLive;
    assert ([Save(First, n)] + rest)[1..] == rest;
  }

  /** A destination that lacks a block, or has it at another size, refuses stage 1. */
  lemma Refused(s: Source, d: Dest, n: nat)
    requires WfSource(s) && !Matches(s, d)
    ensures Load(d, SaveLive(s, First, n).1) == None
  {
    hide SaveSome, Bytes.BigEndian, Announce, ReadRecord;
    BeginWf(s);
    SortKeepsWf(s.blocks);
    var s0 := Begin(s);
    assert !Matches(s0, d);
    var head, out := Announce(s0.blocks), SaveSome(s0, n).1;
    ReadAnnounce(s0, d, out + [] + BigEndian(EOS, 8));
    assert head + out + [] + BigEndian(EOS, 8) == head + (out + [] + BigEndian(EOS, 8));
  }

  lemma HoldsMiddle(s: Source, t: Source, middle: seq<Event>, m: nat, u: Source)
    requires Holds(t, middle + [Save(Last, m)], u) && t.ram == s.ram && forall b :: b in t.blocks <==> b in s.blocks
    ensures Holds(s, middle, u)
  {
    assert (middle + [Save(Last, m)])[..|middle|] == middle;
  }

  lemma ArrivedBy(s: Source, events: seq<Event>, t: Source, e: Dest)
    requires WfSource(s) && Holds(s, events, t) && SameRam(t, e)
    ensures Arrived(s, events, e)
  {
    hide LastWritten;
    forall b, j | b in s.blocks && InBlock(b, j)
      ensures b.first + j in s.ram && SamePage(t, e, b, j)
    {
      var i :| 0 <= i < |s.blocks| && s.blocks[i] == b;
      assert HasPage(s.blocks, i, j) && PageAt(s.blocks, i, j) == b.first + j;
    }
  }
}
