/** The two ends of a migration as the code runs them: static cursors, a dirty
    bitmap cleared in the scan loop, and RAM updated record by record. */
module RamDevice {
  import opened Machine
  import opened Bytes
  import opened RamMigration
  import opened RamRestore
  import RamFlat

  /** The 32-bit little-endian word at byte 4 * i of a page. */
  function Word(p: Page, i: nat): nat
    requires i < PAGE / 4
  {
    var b0: int, b1: int, b2: int, b3: int := p[4 * i], p[4 * i + 1], p[4 * i + 2], p[4 * i + 3];
    b0 + 0x100 * b1 + 0x1_0000 * b2 + 0x100_0000 * b3
  }

  /** is_dup_page: comparing words of four equal bytes finds exactly the pages
      that repeat their first byte. */
  method IsDupPage(p: Page) returns (dup: bool)
    ensures dup <==> Uniform(p)
  {
    var ch: int := p[0];
    var val := ch * 0x1_0000 * 0x100 + ch * 0x1_0000 + ch * 0x100 + ch;
    for i := 0 to PAGE / 4
      invariant forall k :: 0 <= k < 4 * i ==> p[k] == p[0]
    {
      if Word(p, i) != val {
        return false;
      }
      assert p[4 * i] == ch && p[4 * i + 1] == ch && p[4 * i + 2] == ch && p[4 * i + 3] == ch;
    }
    return true;
  }

  /** c clean pages were passed on the way from the cursor to (b, j). */
  ghost predicate Scanning(s: Source, b: nat, j: nat, c: nat)
    requires WfSource(s)
  {
    var n := Start(s.blocks, |s.blocks|);
    var k := Linear(s.blocks, if s.last.Some? then s.last.value else 0, s.lastPage) + c;
    && c < n && HasPage(s.blocks, b, j)
    && Linear(s.blocks, b, j) == (if k < n then k else k - n)
    && ScanAll(s) == Scan(s, b, j, n - c)
  }

  /** One more clean page: the scan goes on, or it is back where it started and
      nothing is dirty. */
  lemma ScanStep(s: Source, b: nat, j: nat, c: nat)
    requires WfSource(s) && CursorSafe(s) && Scanning(s, b, j, c) && PageAt(s.blocks, b, j) !in s.dirty
    ensures s.last.Some?
    ensures var (b', j') := NextPos(s.blocks, b, j);
            && HasPage(s.blocks, b', j')
            && if b' == s.last.value && j' == s.lastPage then ScanAll(s).None?
               else Scanning(s, b', j', c + 1)
  {
    var n := Start(s.blocks, |s.blocks|);
    assert s.last.Some?;
    forall i | 0 <= i < |s.blocks| ensures s.blocks[i].pages > 0 { assert WfBlock(s.blocks[i]); }
    LinearNext(s.blocks, b, j);
    LinearBound(s.blocks, s.last.value, s.lastPage);
    var (b', j') := NextPos(s.blocks, b, j);
    if c + 1 == n {
      LinearInjective(s.blocks, b', j', s.last.value, s.lastPage);
    }
  }

  ghost function After(out: seq<Byte>, r: (Source, seq<Byte>)): (Source, seq<Byte>) { (r.0, out + r.1) }

  lemma SaveSomeStep(s: Source, n: nat, out: seq<Byte>)
    requires Wf(s)
    ensures var (t, rec) := SaveBlock(s);
            && Wf(t)
            && (n > 0 && rec != [] ==> After(out, SaveSome(s, n)) == After(out + rec, SaveSome(t, n - 1)))
            && (n == 0 || rec == [] ==> After(out, SaveSome(s, n)) == (s, out))
            && (rec == [] ==> t == s)
  {
    SaveBlockWf(s);
    var (t, rec) := SaveBlock(s);
    assert out + [] == out;
    if n > 0 && rec != [] {
      var rest := SaveSome(t, n - 1).1;
      Assoc(out, rec, rest);
    }
  }

  lemma SaveRestStep(s: Source, out: seq<Byte>)
    requires Wf(s)
    ensures var (t, rec) := SaveBlock(s);
            && Wf(t)
            && (rec != [] ==> After(out, SaveRest(s)) == After(out + rec, SaveRest(t)) && |t.dirty| < |s.dirty|)
            && (rec == [] ==> After(out, SaveRest(s)) == (s, out) && t == s)
  {
    SaveBlockWf(s);
    var (t, rec) := SaveBlock(s);
    assert out + [] == out;
    if rec != [] {
      SubsetSmaller(t.dirty, s.dirty);
      var rest := SaveRest(t).1;
      Assoc(out, rec, rest);
    }
  }

  class Saver {
    var blocks: seq<Block>
    var ram: map<nat, Page>
    var dirty: set<nat>
    var lastBlock: Option<nat>
    var lastPage: nat

    ghost function State(): Source
      reads this
    {
      Source(blocks, ram, dirty, lastBlock, lastPage)
    }

    constructor (blocks: seq<Block>, ram: map<nat, Page>)
      ensures State() == Source(blocks, ram, {}, None, 0)
    {
      this.blocks, this.ram, dirty, lastBlock, lastPage := blocks, ram, {}, None, 0;
    }

    /** A store by the guest, with its migration bit. */
    method Write(a: nat, data: Page)
      modifies this
      ensures State() == GuestWrite(old(State()), a, data)
      ensures State() == old(State()).(ram := old(ram)[a := data], dirty := old(dirty) + {a})
    {
      ram := ram[a := data];
      dirty := dirty + {a};
    }

    /** The do loop of ram_save_block: stop at a dirty page or back at the start. */
    method FindDirty() returns (b: nat, j: nat, found: bool)
      requires Wf(State())
      ensures ScanAll(State()) == if found then Some((b, j)) else None
      ensures !found ==> lastBlock == Some(b) && lastPage == j
    {
      ghost var s := State();
      ghost var c := 0;
      b, j := if lastBlock.None? then 0 else lastBlock.value, lastPage;
      LinearBound(blocks, b, j);
      while PageAt(blocks, b, j) !in dirty
        invariant Scanning(s, b, j, c)
        decreases Start(blocks, |blocks|) - c
      {
        ScanStep(s, b, j, c);
        var next := NextPos(blocks, b, j);
        b, j := next.0, next.1;
        if PageAt(blocks, b, j) == PageAt(blocks, lastBlock.value, lastPage) {
          PageAtInjective(blocks, b, j, lastBlock.value, lastPage);
          return b, j, false;
        }
        c := c + 1;
      }
      return b, j, true;
    }

    /** ram_save_block: returns 0 only when nothing is dirty. */
    method SaveBlock() returns (sent: nat, out: seq<Byte>)
      requires Wf(State())
      modifies this
      ensures (State(), out) == RamMigration.SaveBlock(old(State()))
      ensures sent == 0 <==> out == []
    {
      ScanAllEmpty(State());
      var b, j, found := FindDirty();
      if found {
        sent, out := SendPage(b, j);
      } else {
        sent, out := 0, [];
        lastBlock, lastPage := Some(b), j;
      }
    }

    /** Clear the page's bit, write its record and move the cursor to it. */
    method SendPage(b: nat, j: nat) returns (sent: nat, out: seq<Byte>)
      requires WfSource(State()) && HasPage(blocks, b, j)
      modifies this
      ensures State() == old(State().(dirty := dirty - {PageAt(blocks, b, j)}, last := Some(b), lastPage := j))
      ensures out == Record(old(State()), b, j) && out != []
      ensures sent == if Uniform(ram[PageAt(blocks, b, j)]) then 1 else PAGE
    {
      var a := PageAt(blocks, b, j);
      var cont := if lastBlock == Some(b) then CONTINUE else 0;
      dirty := dirty - {a};
      var p := ram[a];
      var dup := IsDupPage(p);
      if dup {
        out := BigEndian(j * PAGE + (cont + COMPRESS), 8);
        if cont == 0 { out := out + Name(blocks[b].id); }
        out := out + [p[0]];
        sent := 1;
      } else {
        out := BigEndian(j * PAGE + (cont + FULL_PAGE), 8);
        if cont == 0 { out := out + Name(blocks[b].id); }
        out := out + p;
        sent := PAGE;
      }
      lastBlock, lastPage := Some(b), j;
    }

    /** Set the migration bit of every page. */
    method MarkAllDirty()
      modifies this`dirty
      ensures dirty == old(dirty) + AllPages(blocks)
    {
      for i := 0 to |blocks|
        invariant dirty == old(dirty) + PagesUpTo(blocks, i)
      {
        for j := 0 to blocks[i].pages
          invariant dirty == old(dirty) + PagesUpTo(blocks, i) + FirstPages(blocks[i], j)
        {
          if PageAt(blocks, i, j) !in dirty {
            dirty := dirty + {PageAt(blocks, i, j)};
          }
        }
      }
    }

    /** The block list written in stage 1. */
    method WriteAnnounce() returns (out: seq<Byte>)
      ensures out == Announce(blocks)
    {
      out := BigEndian(Start(blocks, |blocks|) * PAGE + MEM_SIZE, 8);
      for i := 0 to |blocks|
        invariant out + Entries(blocks, i) == Announce(blocks)
      {
        var entry := Name(blocks[i].id) + BigEndian(blocks[i].pages * PAGE, 8);
        Assoc(out, entry, Entries(blocks, i + 1));
        out := out + entry;
      }
    }

    /** The rate-limited loop, when the limit lets n records through. */
    method SendSome(n: nat) returns (out: seq<Byte>)
      requires Wf(State())
      modifies this
      ensures (State(), out) == SaveSome(old(State()), n)
    {
      hide Wf, SaveSome, RamMigration.SaveBlock;
      ghost var s := State();
      out := [];
      assert out + SaveSome(s, n).1 == SaveSome(s, n).1;
      for k := 0 to n
        invariant Wf(State())
        invariant SaveSome(s, n) == After(out, SaveSome(State(), n - k))
      {
        SaveSomeStep(State(), n - k, out);
        var sent, rec := SaveBlock();
        if sent == 0 { return; }
        out := out + rec;
      }
      SaveSomeStep(State(), 0, out);
    }

    /** The last stage's loop; every turn clears a dirty bit. */
    method SendRest() returns (out: seq<Byte>)
      requires Wf(State())
      modifies this
      ensures (State(), out) == SaveRest(old(State()))
    {
      hide Wf, SaveRest, RamMigration.SaveBlock;
      ghost var s := State();
      out := [];
      assert out + SaveRest(s).1 == SaveRest(s).1;
      while true
        invariant Wf(State())
        invariant SaveRest(s) == After(out, SaveRest(State()))
        decreases |dirty|
      {
        SaveRestStep(State(), out);
        var sent, rec := SaveBlock();
        if sent == 0 { break; }
        out := out + rec;
      }
    }

    /** ram_save_live. */
    method SaveLive(stage: Stage, n: nat) returns (out: seq<Byte>)
      requires WfSource(State()) && (CursorSafe(State()) || stage == First)
      modifies this
      ensures (State(), out) == RamMigration.SaveLive(old(State()), stage, n)
    {
      ghost var s := State();
      if stage == First { BeginWf(s); }
      out := [];
      if stage == First {
        lastBlock, lastPage := None, 0;
        blocks := SortBlocks(blocks);
        MarkAllDirty();
        assert State() == Begin(s);
        out := WriteAnnounce();
      }
      SaveSomeWf(State(), n);
      var some := SendSome(n);
      var rest: seq<Byte> := [];
      if stage == Last { rest := SendRest(); }
      out := out + some + rest + BigEndian(EOS, 8);
    }
  }

  class Loader {
    var mem: map<Id, seq<Page>>
    var cur: Option<Id>

    ghost function State(): Dest
      reads this
    {
      Dest(mem, cur)
    }

    constructor (mem: map<Id, seq<Page>>)
      ensures State() == Dest(mem, None)
    {
      this.mem, cur := mem, None;
    }

    /** The loop that checks the announced block list. */
    method Check(s: seq<Byte>, total: nat) returns (r: Option<seq<Byte>>)
      ensures r == CheckBlocks(State(), s, total)
    {
      var rest: seq<Byte>, left: nat := s, total;
      while left != 0
        invariant CheckBlocks(State(), s, total) == CheckBlocks(State(), rest, left)
        decreases |rest|
      {
        var name := ReadName(rest);
        if name.None? { return None; }
        var word := ReadBe64(name.value.1);
        if word.None? { return None; }
        var (id, length) := (name.value.0, word.value.0);
        if id !in mem || |mem[id]| * PAGE != length { return None; }
        left := Sub64(left, length);
        rest := word.value.1;
      }
      return Some(rest);
    }

    /** One record: the block list, a uniform page or a whole page. */
    method Read(s: seq<Byte>) returns (r: Option<(seq<Byte>, bool)>)
      modifies this
      ensures match ReadRecord(old(State()), s)
              case None => r == None && State() == old(State())
              case Some(x) => r == Some((x.rest, x.eos)) && State() == x.d
    {
      var word := ReadBe64(s);
      if word.None? { return None; }
      var (flags, j) := (word.value.0 % PAGE, word.value.0 / PAGE);
      var eos := Bit(flags, EOS);
      if Bit(flags, MEM_SIZE) {
        var c := Check(word.value.1, j * PAGE);
        if c.None? { return None; }
        return Some((c.value, eos));
      } else if Bit(flags, COMPRESS) || Bit(flags, FULL_PAGE) {
        var host := HostBlock(Dest(mem, cur), word.value.1, flags);
        if host.None? { return None; }
        var (id, body) := host.value;
        var size := if Bit(flags, COMPRESS) then 1 else PAGE;
        if id !in mem || j >= |mem[id]| || |body| < size { return None; }
        var p: Page := if Bit(flags, COMPRESS) then seq(PAGE, _ => body[0]) else body[..PAGE];
        var pages: seq<Page> := mem[id][j := p];
        mem, cur := mem[id := pages], Some(id);
        return Some((body[size..], eos));
      }
      return Some((word.value.1, eos));
    }

    /** One record of version 4. */
    method ReadFlat(s: seq<Byte>, flat: RamFlat.Flat) returns (r: Option<(seq<Byte>, bool)>)
      modifies this
      ensures match RamFlat.ReadFlat(old(State()), s, flat)
              case None => r == None && State() == old(State())
              case Some(x) => r == Some((x.rest, x.eos)) && State() == x.d
    {
      var word := ReadBe64(s);
      if word.None? { return None; }
      var (flags, j, body) := (word.value.0 % PAGE, word.value.0 / PAGE, word.value.1);
      var eos := Bit(flags, EOS);
      if Bit(flags, MEM_SIZE) {
        if j * PAGE != flat.total { return None; }
        return Some((body, eos));
      } else if Bit(flags, COMPRESS) || Bit(flags, FULL_PAGE) {
        var at := flat.place(j);
        if at.None? { return None; }
        var (id, k) := at.value;
        var size := if Bit(flags, COMPRESS) then 1 else PAGE;
        if id !in mem || k >= |mem[id]| || |body| < size { return None; }
        var p: Page := if Bit(flags, COMPRESS) then seq(PAGE, _ => body[0]) else body[..PAGE];
        var pages: seq<Page> := mem[id][k := p];
        mem := mem[id := pages];
        return Some((body[size..], eos));
      }
      return Some((body, eos));
    }

    /** ram_load. flat is how version 4 finds its pages. */
    method RamLoad(s: seq<Byte>, version: int, flat: RamFlat.Flat) returns (r: Option<seq<Byte>>)
      modifies this
      ensures version < 3 || version > 4 ==> r == None && State() == old(State())
      ensures version == 3 ==> Loaded(Load(old(State()), s), r, State())
      ensures version == 4 ==> Loaded(RamFlat.LoadFlat(old(State()), s, flat), r, State())
    {
      if version < 3 || version > 4 { return None; }
      var rest := s;
      while true
        invariant version == 3 ==> Load(old(State()), s) == Load(State(), rest)
        invariant version == 4 ==> RamFlat.LoadFlat(old(State()), s, flat) == RamFlat.LoadFlat(State(), rest, flat)
        decreases |rest|
      {
        var x;
        if version == 3 { x := Read(rest); } else { x := ReadFlat(rest, flat); }
        if x.None? { return None; }
        rest := x.value.0;
        if x.value.1 { return Some(rest); }
      }
    }
  }

  /** The outcome, and the state if it succeeds, are what was to be. */
  ghost predicate Loaded(spec: Option<(Dest, seq<Byte>)>, r: Option<seq<Byte>>, d: Dest) {
    match spec
    case None => r == None
    case Some((e, rest)) => r == Some(rest) && d == e
  }
}
