/** ram_load for streams of version 4 (arch_init.c): records name their pages by RAM address.
    What such a stream holds is told apart from where it goes. */
module RamFlat {
  import opened Machine
  import opened Bytes
  import opened RamMigration
  import opened RamRestore

  /** What a version-4 stream needs to know: the size of RAM, and which page of which block is
      at a page of the RAM address space. */
  datatype Flat = Flat(total: nat, place: nat -> Option<(Id, nat)>)

  /** Records of version 4 carry no names and no block list; an address outside RAM, on which
      the code aborts, is a failure here. */
  function ReadFlatBody(d: Dest, flags: nat, j: nat, s: seq<Byte>, flat: Flat): (r: Option<Read>)
    ensures r.Some? ==> |r.value.rest| <= |s|
  {
    var eos := Bit(flags, EOS);
    if Bit(flags, MEM_SIZE) then
      if j * PAGE != flat.total then None else Some(Read(d, s, eos))
    else if Bit(flags, COMPRESS) || Bit(flags, FULL_PAGE) then
      match flat.place(j)
      case None => None
      case Some((id, k)) =>
        if id !in d.mem || k >= |d.mem[id]| then None
        else if Bit(flags, COMPRESS) then
          if |s| < 1 then None
          else Some(Read(Store(d, id, k, seq(PAGE, _ => s[0])).(cur := d.cur), s[1..], eos))
        else
          if |s| < PAGE then None
          else Some(Read(Store(d, id, k, s[..PAGE]).(cur := d.cur), s[PAGE..], eos))
    else Some(Read(d, s, eos))
  }

  function ReadFlat(d: Dest, s: seq<Byte>, flat: Flat): (r: Option<Read>)
    ensures r.Some? ==> |r.value.rest| < |s|
  {
    match ReadBe64(s)
    case None => None
    case Some((v, rest)) => ReadFlatBody(d, v % PAGE, v / PAGE, rest, flat)
  }

  function LoadFlat(d: Dest, s: seq<Byte>, flat: Flat): Option<(Dest, seq<Byte>)>
    decreases |s|
  {
    match ReadFlat(d, s, flat)
    case None => None
    case Some(r) => if r.eos then Some((r.d, r.rest)) else LoadFlat(r.d, r.rest, flat)
  }

  /** A record that is not a block list is read alike in both versions if it holds no page, or
      goes on with the block read last and that block's pages are at the same numbers in RAM. */
  lemma FlatAlike(d: Dest, flags: nat, j: nat, s: seq<Byte>, flat: Flat)
    requires !Bit(flags, MEM_SIZE)
    requires Bit(flags, COMPRESS) || Bit(flags, FULL_PAGE) ==>
               Bit(flags, CONTINUE) && d.cur.Some? && flat.place(j) == Some((d.cur.value, j))
    ensures ReadBody(d, flags, j, s) == ReadFlatBody(d, flags, j, s, flat)
  {
  }

  // ------------------------------------------------------------ what a stream holds

  /** A page and its number in the RAM address space. */
  datatype Rec = Rec(j: nat, page: Page)

  /** What one record holds, none or one page, and what follows it. */
  datatype Item = Item(recs: seq<Rec>, rest: seq<Byte>, eos: bool)

  function ParseItem(s: seq<Byte>, total: nat): (r: Option<Item>)
    ensures r.Some? ==> |r.value.rest| < |s|
  {
    match ReadBe64(s)
    case None => None
    case Some((v, body)) =>
      var flags, j := v % PAGE, v / PAGE;
      var eos := Bit(flags, EOS);
      if Bit(flags, MEM_SIZE) then if j * PAGE == total then Some(Item([], body, eos)) else None
      else if Bit(flags, COMPRESS) then
        if |body| < 1 then None else Some(Item([Rec(j, seq(PAGE, _ => body[0]))], body[1..], eos))
      else if Bit(flags, FULL_PAGE) then
        if |body| < PAGE then None else Some(Item([Rec(j, body[..PAGE])], body[PAGE..], eos))
      else Some(Item([], body, eos))
  }

  /** All pages up to the end mark. */
  function Parse(s: seq<Byte>, total: nat): (r: Option<(seq<Rec>, seq<Byte>)>)
    decreases |s|
  {
    match ParseItem(s, total)
    case None => None
    case Some(i) =>
      if i.eos then Some((i.recs, i.rest))
      else
        match Parse(i.rest, total)
        case None => None
        case Some((recs, rest)) => Some((i.recs + recs, rest))
  }

  // ------------------------------------------------------------ where it goes

  ghost predicate InRam(d: Dest, at: Option<(Id, nat)>) {
    at.Some? && at.value.0 in d.mem && at.value.1 < |d.mem[at.value.0]|
  }

  ghost function Put(d: Dest, r: Rec, flat: Flat): Dest
    requires InRam(d, flat.place(r.j))
  {
    var (id, k) := flat.place(r.j).value;
    Store(d, id, k, r.page).(cur := d.cur)
  }

  ghost function PutAll(d: Dest, recs: seq<Rec>, flat: Flat): Option<Dest>
    decreases |recs|
  {
    if recs == [] then Some(d)
    else if !InRam(d, flat.place(recs[0].j)) then None
    else PutAll(Put(d, recs[0], flat), recs[1..], flat)
  }

  lemma {:induction false} PutAllCat(d: Dest, a: seq<Rec>, b: seq<Rec>, flat: Flat)
    ensures PutAll(d, a + b, flat) ==
            match PutAll(d, a, flat) { case None => None case Some(e) => PutAll(e, b, flat) }
    decreases |a|
  {
    if a == [] {
      assert a + b == b;
    } else {
      assert (a + b)[1..] == a[1..] + b;
      if InRam(d, flat.place(a[0].j)) { PutAllCat(Put(d, a[0], flat), a[1..], b, flat); }
    }
  }

  lemma ItemRead(d: Dest, s: seq<Byte>, flat: Flat)
    ensures ReadFlat(d, s, flat) ==
            match ParseItem(s, flat.total)
            case None => None
            case Some(i) =>
              match PutAll(d, i.recs, flat)
              case None => None
              case Some(e) => Some(Read(e, i.rest, i.eos))
  {
    var i := ParseItem(s, flat.total);
    if i.Some? && i.value.recs != [] { assert i.value.recs[1..] == []; }
  }

  /** Loading a stream puts the pages it holds in their places, in order, and fails exactly
      when the stream does not parse or a page has no place. */
  lemma {:induction false} LoadFlatIs(d: Dest, s: seq<Byte>, flat: Flat)
    ensures LoadFlat(d, s, flat) ==
            match Parse(s, flat.total)
            case None => None
            case Some((recs, rest)) =>
              match PutAll(d, recs, flat)
              case None => None
              case Some(e) => Some((e, rest))
    decreases |s|
  {
    hide ReadFlat, ParseItem, PutAll;
    ItemRead(d, s, flat);
    var i := ParseItem(s, flat.total);
    if i.Some? && !i.value.eos {
      var p := Parse(i.value.rest, flat.total);
      if p.Some? { PutAllCat(d, i.value.recs, p.value.0, flat); }
      var e := PutAll(d, i.value.recs, flat);
      if e.Some? { LoadFlatIs(e.value, i.value.rest, flat); }
    }
  }

  /** The page that the last record for a place holds, or the one that was there. */
  ghost function LastFor(recs: seq<Rec>, flat: Flat, id: Id, k: nat, was: Page): Page {
    if recs == [] then was
    else
      var n := |recs| - 1;
      if flat.place(recs[n].j) == Some((id, k)) then recs[n].page else LastFor(recs[..n], flat, id, k, was)
  }

  ghost predicate SameShape(d: Dest, e: Dest) {
    e.cur == d.cur && e.mem.Keys == d.mem.Keys && forall id :: id in d.mem ==> |e.mem[id]| == |d.mem[id]|
  }

  /** So the memory it yields has, at every place, the last page sent for it. */
  lemma {:induction false} PutAllYields(d: Dest, recs: seq<Rec>, flat: Flat, e: Dest)
    requires PutAll(d, recs, flat) == Some(e)
    ensures SameShape(d, e)
    ensures forall id, k :: id in d.mem && 0 <= k < |d.mem[id]| ==>
              e.mem[id][k] == LastFor(recs, flat, id, k, d.mem[id][k])
    decreases |recs|
  {
    if recs != [] {
      var n := |recs| - 1;
      assert recs == recs[..n] + [recs[n]];
      PutAllCat(d, recs[..n], [recs[n]], flat);
      var mid := PutAll(d, recs[..n], flat).value;
      PutAllYields(d, recs[..n], flat, mid);
      LastPut(mid, recs[n], flat, e);
    }
  }

  lemma LastPut(d: Dest, r: Rec, flat: Flat, e: Dest)
    requires PutAll(d, [r], flat) == Some(e)
    ensures SameShape(d, e)
    ensures forall id, k :: id in d.mem && 0 <= k < |d.mem[id]| ==>
              e.mem[id][k] == if flat.place(r.j) == Some((id, k)) then r.page else d.mem[id][k]
  {
    assert [r][1..] == [];
    assert e == Put(d, r, flat);
  }

  /** A version-4 load that succeeds, all in one. */
  lemma FlatYields(d: Dest, s: seq<Byte>, flat: Flat, e: Dest, rest: seq<Byte>)
    requires LoadFlat(d, s, flat) == Some((e, rest))
    ensures Parse(s, flat.total).Some? && Parse(s, flat.total).value.1 == rest && SameShape(d, e)
    ensures forall id, k :: id in d.mem && 0 <= k < |d.mem[id]| ==>
              e.mem[id][k] == LastFor(Parse(s, flat.total).value.0, flat, id, k, d.mem[id][k])
  {
    hide LoadFlat, Parse, PutAll, LastFor;
    LoadFlatIs(d, s, flat);
    PutAllYields(d, Parse(s, flat.total).value.0, flat, e);
  }

  // ------------------------------------------------------------ a stream for given pages

  /** The pages as version-4 records: a header word, and the page or its one repeated byte. */
  ghost function Encode(recs: seq<Rec>): seq<Byte> {
    if recs == [] then BigEndian(EOS, 8)
    else if Uniform(recs[0].page) then
      BigEndian(recs[0].j * PAGE + COMPRESS, 8) + [recs[0].page[0]] + Encode(recs[1..])
    else BigEndian(recs[0].j * PAGE + FULL_PAGE, 8) + recs[0].page + Encode(recs[1..])
  }

  ghost predicate Addressable(recs: seq<Rec>) { forall i :: 0 <= i < |recs| ==> (recs[i].j + 1) * PAGE <= WORD64 }

  lemma {:induction false} ParseBack(recs: seq<Rec>, total: nat, tail: seq<Byte>)
    requires Addressable(recs)
    ensures Parse(Encode(recs) + tail, total) == Some((recs, tail))
  {
    hide ParseItem, Bytes.BigEndian;
    if recs == [] {
      EndBack(total, tail);
    } else {
      var r := recs[0];
      RecBack(r, total, Encode(recs[1..]) + tail);
      ParseBack(recs[1..], total, tail);
      assert recs == [r] + recs[1..];
      if Uniform(r.page) {
        Assoc4(BigEndian(r.j * PAGE + COMPRESS, 8), [r.page[0]], Encode(recs[1..]), tail);
      } else {
        Assoc4(BigEndian(r.j * PAGE + FULL_PAGE, 8), r.page, Encode(recs[1..]), tail);
      }
    }
  }

  lemma Assoc4(h: seq<Byte>, a: seq<Byte>, b: seq<Byte>, tail: seq<Byte>)
    ensures h + a + b + tail == h + (a + (b + tail))
  {
  }

  lemma EndBack(total: nat, tail: seq<Byte>)
    ensures ParseItem(BigEndian(EOS, 8) + tail, total) == Some(Item([], tail, true))
  {
    ReadBe64Of(EOS, tail);
    assert Bit(EOS, EOS) && !Bit(EOS, MEM_SIZE) && !Bit(EOS, COMPRESS) && !Bit(EOS, FULL_PAGE);
  }

  lemma RecBack(r: Rec, total: nat, rest: seq<Byte>)
    requires (r.j + 1) * PAGE <= WORD64
    ensures Uniform(r.page) ==>
              ParseItem(BigEndian(r.j * PAGE + COMPRESS, 8) + ([r.page[0]] + rest), total) ==
              Some(Item([r], rest, false))
    ensures ParseItem(BigEndian(r.j * PAGE + FULL_PAGE, 8) + (r.page + rest), total) == Some(Item([r], rest, false))
  {
    hide ParseItem;
    if Uniform(r.page) { ByteBack(r, total, rest); }
    PageBack(r, total, rest);
  }

  lemma ByteBack(r: Rec, total: nat, rest: seq<Byte>)
    requires (r.j + 1) * PAGE <= WORD64 && Uniform(r.page)
    ensures ParseItem(BigEndian(r.j * PAGE + COMPRESS, 8) + ([r.page[0]] + rest), total) ==
            Some(Item([r], rest, false))
  {
    assert Bit(COMPRESS, COMPRESS) && !Bit(COMPRESS, MEM_SIZE) && !Bit(COMPRESS, EOS);
    hide ReadBe64, Bytes.BigEndian, Bit;
    HeaderBack(r.j, COMPRESS, [r.page[0]] + rest);
    assert ([r.page[0]] + rest)[1..] == rest;
    assert seq(PAGE, _ => r.page[0]) == r.page;
  }

  lemma PageBack(r: Rec, total: nat, rest: seq<Byte>)
    requires (r.j + 1) * PAGE <= WORD64
    ensures ParseItem(BigEndian(r.j * PAGE + FULL_PAGE, 8) + (r.page + rest), total) == Some(Item([r], rest, false))
  {
    assert Bit(FULL_PAGE, FULL_PAGE) && !Bit(FULL_PAGE, COMPRESS) && !Bit(FULL_PAGE, MEM_SIZE) && !Bit(FULL_PAGE, EOS);
    hide ReadBe64, Bytes.BigEndian, Bit;
    HeaderBack(r.j, FULL_PAGE, r.page + rest);
    assert (r.page + rest)[..PAGE] == r.page && (r.page + rest)[PAGE..] == rest;
  }

  lemma HeaderBack(j: nat, flags: nat, rest: seq<Byte>)
    requires (j + 1) * PAGE <= WORD64 && flags < PAGE
    ensures var v := j * PAGE + flags;
            v < WORD64 && v % PAGE == flags && v / PAGE == j && ReadBe64(BigEndian(v, 8) + rest) == Some((v, rest))
  {
    hide ReadBe64, Bytes.BigEndian;
    ReadBe64Of(j * PAGE + flags, rest);
  }
}
