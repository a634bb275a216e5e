/** Versioned device state (savevm.c): the recursive serializer, and the parser
    that tells subsections apart by looking ahead. Objects are modelled by value:
    each field offset holds its elements, and a nested structure its own object. */
module VmState {
  import opened Bytes

  const SUBSECTION: Byte := 5
  const EINVAL := 22
  const ENOENT := 2

  datatype Val = Num(n: nat) | Raw(bytes: seq<Byte>) | Struct(obj: Obj)
  datatype Obj = Obj(cells: map<nat, seq<Val>>)

  /** Uint is an integer of so many bytes; VBuffer takes its size from another field. */
  datatype Kind = Uint(width: nat) | Buffer(size: nat) | VBuffer(sizeAt: nat, scale: nat) | Nested(desc: Desc)
  datatype Count = Fixed(n: nat) | Var(at: nat)

  /** A field is there from a version on, or when its own test says so. */
  datatype Test = Since(version: int) | When(p: (Obj, int) -> bool)
  datatype Field = Field(offset: nat, kind: Kind, count: Count, test: Test)
  datatype Sub = Sub(desc: Desc, needed: Obj -> bool)
  datatype Desc = Desc(name: seq<Byte>, version: nat, minimum: nat, minimumOld: nat, fields: seq<Field>, subs: seq<Sub>)

  datatype Result = Ok(obj: Obj, rest: seq<Byte>) | Fail(error: int)

  // ------------------------------------------------------------ reading an object

  function Elem(o: Obj, at: nat, i: nat): Val { if at in o.cells && i < |o.cells[at]| then o.cells[at][i] else Num(0) }

  function NumAt(o: Obj, at: nat): nat { var v := Elem(o, at, 0); if v.Num? then v.n else 0 }

  function ObjOf(v: Val): Obj { if v.Struct? then v.obj else Obj(map[]) }

  /** A 32-bit number in a C int: a negative one counts as nothing. */
  function Signed(n: nat): nat { var m := n % 0x1_0000_0000; if m < 0x8000_0000 then m else 0 }

  /** The number of elements. */
  function CountOf(f: Field, o: Obj): nat {
    match f.count
    case Fixed(n) => n
    case Var(at) => Signed(NumAt(o, at))
  }

  /** The bytes one element takes, for the buffer kinds. */
  function SizeOf(f: Field, o: Obj): nat {
    match f.kind
    case Buffer(size) => size
    case VBuffer(at, scale) => Signed(NumAt(o, at) * scale)
    case _ => 0
  }

  /** Exactly n bytes of a buffer. */
  function Padded(v: Val, n: nat): (s: seq<Byte>)
    ensures |s| == n
  {
    var b := if v.Raw? then v.bytes else [];
    seq(n, i requires 0 <= i < n => if i < |b| then b[i] else 0)
  }

  predicate SavedAt(f: Field, o: Obj, version: nat) { f.test.When? ==> f.test.p(o, version) }

  predicate LoadedAt(f: Field, o: Obj, version: nat) {
    if f.test.When? then f.test.p(o, version) else f.test.version <= version
  }

  // ------------------------------------------------------------ saving

  function SaveElem(k: Kind, size: nat, v: Val): seq<Byte>
    decreases k, 0
  {
    match k
    case Uint(width) => BigEndian(if v.Num? then v.n else 0, width)
    case Buffer(_) => Padded(v, size)
    case VBuffer(_, _) => Padded(v, size)
    case Nested(d) => Save(d, ObjOf(v))
  }

  function SaveElems(f: Field, o: Obj, i: nat): seq<Byte>
    requires i <= CountOf(f, o)
    decreases f.kind, 1, CountOf(f, o) - i
  {
    if i == CountOf(f, o) then [] else SaveElem(f.kind, SizeOf(f, o), Elem(o, f.offset, i)) + SaveElems(f, o, i + 1)
  }

  function SaveFields(d: Desc, o: Obj, k: nat): seq<Byte>
    requires k <= |d.fields|
    decreases d, 1, |d.fields| - k
  {
    if k == |d.fields| then []
    else (if SavedAt(d.fields[k], o, d.version) then SaveElems(d.fields[k], o, 0) else []) + SaveFields(d, o, k + 1)
  }

  /** What announces a subsection. */
  function HeaderOf(d: Desc): seq<Byte> {
    [SUBSECTION, |d.name| % 256] + d.name[..|d.name| % 256] + BigEndian(d.version, 4)
  }

  function SaveSubs(d: Desc, o: Obj, j: nat): seq<Byte>
    requires j <= |d.subs|
    decreases d, 1, |d.subs| - j
  {
    if j == |d.subs| then []
    else
      var sub := if d.subs[j].needed(o) then HeaderOf(d.subs[j].desc) + Save(d.subs[j].desc, o) else [];
      sub + SaveSubs(d, o, j + 1)
  }

  /** vmstate_save_state. */
  function Save(d: Desc, o: Obj): seq<Byte>
    decreases d, 2
  {
    SaveFields(d, o, 0) + SaveSubs(d, o, 0)
  }

  // ------------------------------------------------------------ loading

  /** The next n bytes; past the end of the stream, zeros. */
  function Take(input: seq<Byte>, n: nat): (s: seq<Byte>)
    ensures |s| == n
  {
    seq(n, i requires 0 <= i < n => if i < |input| then input[i] else 0)
  }

  function Skip(input: seq<Byte>, n: nat): (s: seq<Byte>)
    ensures |s| <= |input|
  {
    if n < |input| then input[n..] else []
  }

  /** Reading into a buffer leaves what the stream does not reach. */
  function ReadRaw(input: seq<Byte>, n: nat, before: Val): seq<Byte> {
    var was := Padded(before, n);
    if n <= |input| then input[..n] else input + was[|input|..]
  }

  function SetElem(o: Obj, at: nat, i: nat, v: Val): Obj
  {
    var s := if at in o.cells then o.cells[at] else [];
    var padded := if i < |s| then s else s + seq(i + 1 - |s|, _ => Num(0));
    Obj(o.cells[at := padded[i := v]])
  }

  datatype Loaded = Got(val: Val, left: seq<Byte>) | Bad(code: int)

  function LoadElem(k: Kind, size: nat, v: Val, input: seq<Byte>): (r: Loaded)
    ensures if r.Got? then |r.left| <= |input| else r.code < 0
    decreases k, 0
  {
    match k
    case Uint(width) => Got(Num(Value(Take(input, width))), Skip(input, width))
    case Buffer(_) => Got(Raw(ReadRaw(input, size, v)), Skip(input, size))
    case VBuffer(_, _) => Got(Raw(ReadRaw(input, size, v)), Skip(input, size))
    case Nested(d) =>
      match Load(d, ObjOf(v), d.version, input)
      case Ok(o, rest) => Got(Struct(o), rest)
      case Fail(error) => Bad(error)
  }

  /** The count and the size are read once, before the elements. */
  function LoadElems(f: Field, o: Obj, n: nat, size: nat, i: nat, input: seq<Byte>): (r: Result)
    requires i <= n
    ensures if r.Ok? then |r.rest| <= |input| else r.error < 0
    decreases f.kind, 1, n - i
  {
    if i == n then Ok(o, input) else
      match LoadElem(f.kind, size, Elem(o, f.offset, i), input)
      case Got(v, left) => LoadElems(f, SetElem(o, f.offset, i, v), n, size, i + 1, left)
      case Bad(code) => Fail(code)
  }

  function LoadFields(d: Desc, o: Obj, version: nat, k: nat, input: seq<Byte>): (r: Result)
    requires k <= |d.fields|
    ensures if r.Ok? then |r.rest| <= |input| else r.error < 0
    decreases d, 2, |d.fields| - k
  {
    if k == |d.fields| then Ok(o, input) else
      var f := d.fields[k];
      if LoadedAt(f, o, version) then
        match LoadElems(f, o, CountOf(f, o), SizeOf(f, o), 0, input)
        case Ok(o', rest) => LoadFields(d, o', version, k + 1, rest)
        case Fail(error) => Fail(error)
      else LoadFields(d, o, version, k + 1, input)
  }

  function PeekByte(input: seq<Byte>, i: nat): Byte { if i < |input| then input[i] else 0 }

  /** The look-ahead: the stream goes on with a subsection whose name has d's in front. */
  predicate Announced(d: Desc, input: seq<Byte>) {
    && PeekByte(input, 0) == SUBSECTION
    && var len := PeekByte(input, 1);
       && |d.name| + 1 <= len && 2 + len <= |input| && input[2..2 + |d.name|] == d.name
  }

  function FindSub(subs: seq<Sub>, name: seq<Byte>): (r: Option<Desc>)
    ensures r.Some? ==> exists j :: 0 <= j < |subs| && r.value == subs[j].desc
  {
    if subs == [] then None else if subs[0].desc.name == name then Some(subs[0].desc) else
      var r := FindSub(subs[1..], name);
      assert r.Some? ==> exists j :: 0 <= j < |subs[1..]| && r.value == subs[1..][j].desc;
      assert forall j :: 0 <= j < |subs[1..]| ==> subs[1..][j] == subs[j + 1];
      r
  }

  /** vmstate_subsection_load. */
  function LoadSubs(d: Desc, o: Obj, input: seq<Byte>): (r: Result)
    ensures if r.Ok? then |r.rest| <= |input| else r.error < 0
    decreases d, 1, |input|
  {
    if !Announced(d, input) then Ok(o, input) else
      var len := PeekByte(input, 1);
      match FindSub(d.subs, CString(input[2..2 + len]))
      case None => Fail(-ENOENT)
      case Some(sub) =>
        var left := input[2 + len..];
        assert exists j :: 0 <= j < |d.subs| && sub == d.subs[j].desc;
        match Load(sub, o, Value(Take(left, 4)) % 256, Skip(left, 4))
        case Ok(o', rest) => LoadSubs(d, o', rest)
        case Fail(error) => Fail(error)
  }

  /** vmstate_load_state. Versions that need a description's own old loader fail. */
  function Load(d: Desc, o: Obj, version: nat, input: seq<Byte>): (r: Result)
    ensures if r.Ok? then |r.rest| <= |input| else r.error < 0
    decreases d, 3
  {
    if version > d.version || version < d.minimumOld || version < d.minimum then Fail(-EINVAL) else
      match LoadFields(d, o, version, 0, input)
      case Ok(o', rest) => LoadSubs(d, o', rest)
      case Fail(error) => Fail(error)
  }

  // ------------------------------------------------------------ agreement

  /** b holds what a's saved fields hold. */
  ghost predicate AgreeElem(k: Kind, size: nat, a: Val, b: Val)
    decreases k, 0
  {
    match k
    case Uint(_) => a.Num? && a == b
    case Buffer(_) => Padded(a, size) == Padded(b, size)
    case VBuffer(_, _) => Padded(a, size) == Padded(b, size)
    case Nested(d) => Agrees(d, ObjOf(a), ObjOf(b))
  }

  ghost predicate AgreeElems(f: Field, size: nat, n: nat, a: Obj, b: Obj)
    decreases f.kind, 1
  {
    forall i :: 0 <= i < n ==> AgreeElem(f.kind, size, Elem(a, f.offset, i), Elem(b, f.offset, i))
  }

  /** The same presence, count and size. */
  ghost predicate SameShape(f: Field, version: nat, a: Obj, b: Obj) {
    SavedAt(f, a, version) == SavedAt(f, b, version) && CountOf(f, a) == CountOf(f, b) && SizeOf(f, a) == SizeOf(f, b)
  }

  ghost predicate AgreeField(f: Field, version: nat, a: Obj, b: Obj)
    decreases f.kind, 2
  {
    SameShape(f, version, a, b) && (SavedAt(f, a, version) ==> AgreeElems(f, SizeOf(f, a), CountOf(f, a), a, b))
  }

  ghost predicate AgreesUpTo(d: Desc, k: nat, a: Obj, b: Obj)
    requires k <= |d.fields|
    decreases d, 1
  {
    forall j :: 0 <= j < k ==> AgreeField(d.fields[j], d.version, a, b)
  }

  ghost predicate AgreeSubs(d: Desc, from: nat, a: Obj, b: Obj)
    decreases d, 1
  {
    forall j :: from <= j < |d.subs| && d.subs[j].needed(a) ==> Agrees(d.subs[j].desc, a, b)
  }

  ghost predicate Agrees(d: Desc, a: Obj, b: Obj)
    decreases d, 2
  {
    AgreesUpTo(d, |d.fields|, a, b) && AgreeSubs(d, 0, a, b)
  }

  // ------------------------------------------------------------ well-formed descriptions

  /** Presence, count and size of a field follow from the fields before it. */
  ghost predicate Depends(d: Desc, k: nat)
    requires k < |d.fields|
  {
    forall a, b :: AgreesUpTo(d, k, a, b) ==> SameShape(d.fields[k], d.version, a, b)
  }

  ghost predicate NameOk(name: seq<Byte>) { |name| < 256 && NoZero(name) }

  ghost predicate Extends(name: seq<Byte>, prefix: seq<Byte>) { |prefix| < |name| && name[..|prefix|] == prefix }

  ghost function FieldOffsets(fields: seq<Field>): set<nat> { set k | 0 <= k < |fields| :: fields[k].offset }

  /** Every offset a description's fields or its subsections' fields use. */
  ghost function Offsets(d: Desc): set<nat>
    decreases d
  {
    FieldOffsets(d.fields) + set j, x | 0 <= j < |d.subs| && x in Offsets(d.subs[j].desc) :: x
  }

  ghost predicate DescOk(d: Desc)
    decreases d
  {
    && NameOk(d.name) && d.version < 256 && d.minimum <= d.version && d.minimumOld <= d.version
    && (forall k :: 0 <= k < |d.fields| ==>
          Depends(d, k) && (d.fields[k].test.Since? ==> d.fields[k].test.version <= d.version))
    && (forall k :: 0 <= k < |d.fields| && d.fields[k].kind.Nested? ==> DescOk(d.fields[k].kind.desc))
    && (forall j, k :: 0 <= j < k < |d.fields| ==> d.fields[j].offset != d.fields[k].offset)
    && (forall j :: 0 <= j < |d.subs| ==>
          DescOk(d.subs[j].desc) && Extends(d.subs[j].desc.name, d.name)
          && Offsets(d.subs[j].desc) !! FieldOffsets(d.fields))
    && (forall i, j :: 0 <= i < |d.subs| && 0 <= j < |d.subs| && i != j ==>
          Offsets(d.subs[i].desc) !! Offsets(d.subs[j].desc) && !(d.subs[i].desc.name <= d.subs[j].desc.name))
  }

  /** The object has the integers a description saves, in range. */
  ghost predicate TypedElem(k: Kind, v: Val)
    decreases k, 0
  {
    match k
    case Uint(width) => v.Num? && v.n < Pow256(width)
    case Nested(d) => Typed(d, ObjOf(v))
    case _ => true
  }

  ghost predicate TypedElems(f: Field, o: Obj)
    decreases f.kind, 1
  {
    forall i :: 0 <= i < CountOf(f, o) ==> TypedElem(f.kind, Elem(o, f.offset, i))
  }

  ghost predicate Typed(d: Desc, o: Obj)
    decreases d
  {
    && (forall k :: 0 <= k < |d.fields| && SavedAt(d.fields[k], o, d.version) ==> TypedElems(d.fields[k], o))
    && (forall j :: 0 <= j < |d.subs| && d.subs[j].needed(o) ==> Typed(d.subs[j].desc, o))
  }

  // ------------------------------------------------------------ what may follow

  /** The bytes after each structure cannot be taken for one of its subsections. */
  ghost predicate ClearElem(k: Kind, v: Val, tail: seq<Byte>)
    decreases k, 0
  {
    k.Nested? ==> Clear(k.desc, ObjOf(v), tail)
  }

  ghost predicate ClearElems(f: Field, o: Obj, i: nat, tail: seq<Byte>)
    requires i <= CountOf(f, o)
    decreases f.kind, 1, CountOf(f, o) - i
  {
    i < CountOf(f, o) ==>
      ClearElem(f.kind, Elem(o, f.offset, i), SaveElems(f, o, i + 1) + tail) && ClearElems(f, o, i + 1, tail)
  }

  ghost predicate ClearFields(d: Desc, o: Obj, k: nat, tail: seq<Byte>)
    requires k <= |d.fields|
    decreases d, 1, |d.fields| - k
  {
    k < |d.fields| ==>
      && (SavedAt(d.fields[k], o, d.version) ==> ClearElems(d.fields[k], o, 0, SaveFields(d, o, k + 1) + tail))
      && ClearFields(d, o, k + 1, tail)
  }

  ghost predicate ClearSubs(d: Desc, o: Obj, j: nat, tail: seq<Byte>)
    requires j <= |d.subs|
    decreases d, 1, |d.subs| - j
  {
    j < |d.subs| ==>
      && (d.subs[j].needed(o) ==> Clear(d.subs[j].desc, o, SaveSubs(d, o, j + 1) + tail))
      && ClearSubs(d, o, j + 1, tail)
  }

  ghost predicate Clear(d: Desc, o: Obj, tail: seq<Byte>)
    decreases d, 2
  {
    ClearFields(d, o, 0, SaveSubs(d, o, 0) + tail) && ClearSubs(d, o, 0, tail) && !Announced(d, tail)
  }

  // ------------------------------------------------------------ frames

  ghost function Cell(o: Obj, x: nat): seq<Val> { if x in o.cells then o.cells[x] else [] }

  ghost predicate SameOn(a: Obj, b: Obj, xs: set<nat>) { forall x :: x in xs ==> Cell(a, x) == Cell(b, x) }

  ghost predicate SameOff(a: Obj, b: Obj, xs: set<nat>) { forall x :: x !in xs ==> Cell(a, x) == Cell(b, x) }

  lemma ElemCell(a: Obj, b: Obj, x: nat, i: nat)
    requires Cell(a, x) == Cell(b, x)
    ensures Elem(a, x, i) == Elem(b, x, i)
  {
  }

  lemma {:induction false} UpToFrame(d: Desc, k: nat, a: Obj, b: Obj, b': Obj)
    requires DescOk(d) && k <= |d.fields| && AgreesUpTo(d, k, a, b) && SameOn(b, b', FieldOffsets(d.fields[..k]))
    ensures AgreesUpTo(d, k, a, b')
  {
    if k > 0 {
      var f := d.fields[k - 1];
      OffsetsMore(d.fields, k - 1);
      UpToFrame(d, k - 1, a, b, b');
      assert Depends(d, k - 1) && AgreeField(f, d.version, a, b);
      FieldFrame(f, d.version, a, b, b');
    }
  }

  lemma FieldFrame(f: Field, version: nat, a: Obj, b: Obj, b': Obj)
    requires AgreeField(f, version, a, b) && SameShape(f, version, a, b') && Cell(b, f.offset) == Cell(b', f.offset)
    ensures AgreeField(f, version, a, b')
  {
    hide AgreeElem;
    if SavedAt(f, a, version) {
      forall i | 0 <= i < CountOf(f, a)
        ensures AgreeElem(f.kind, SizeOf(f, a), Elem(a, f.offset, i), Elem(b', f.offset, i))
      {
        ElemCell(b, b', f.offset, i);
      }
    }
  }

  lemma OffsetsMore(fields: seq<Field>, k: nat)
    requires k < |fields|
    ensures FieldOffsets(fields[..k + 1]) == FieldOffsets(fields[..k]) + {fields[k].offset}
  {
    assert fields[..k + 1][k] == fields[k];
    forall x | x in FieldOffsets(fields[..k]) ensures x in FieldOffsets(fields[..k + 1]) {
      var j :| 0 <= j < k && fields[..k][j].offset == x;
      assert fields[..k + 1][j].offset == x;
    }
    forall x | x in FieldOffsets(fields[..k + 1]) ensures x in FieldOffsets(fields[..k]) + {fields[k].offset} {
      var j :| 0 <= j < k + 1 && fields[..k + 1][j].offset == x;
      if j < k { assert fields[..k][j].offset == x; }
    }
  }

  lemma {:induction false} AgreesFrame(d: Desc, a: Obj, b: Obj, b': Obj)
    requires DescOk(d) && Agrees(d, a, b) && SameOn(b, b', Offsets(d))
    ensures Agrees(d, a, b')
    decreases d
  {
    assert d.fields[..|d.fields|] == d.fields;
    UpToFrame(d, |d.fields|, a, b, b');
    forall j | 0 <= j < |d.subs| && d.subs[j].needed(a) ensures Agrees(d.subs[j].desc, a, b') {
      assert SameOn(b, b', Offsets(d.subs[j].desc));
      AgreesFrame(d.subs[j].desc, a, b, b');
    }
  }

  // ------------------------------------------------------------ the round trip

  lemma TakeSkip(a: seq<Byte>, tail: seq<Byte>)
    ensures Take(a + tail, |a|) == a && Skip(a + tail, |a|) == tail
  {
    assert (a + tail)[|a|..] == tail;
  }

  lemma ReadBack(v: Val, n: nat, was: Val, tail: seq<Byte>)
    ensures ReadRaw(Padded(v, n) + tail, n, was) == Padded(v, n)
    ensures Padded(Raw(Padded(v, n)), n) == Padded(v, n)
  {
    assert (Padded(v, n) + tail)[..n] == Padded(v, n);
  }

  lemma {:induction false} ElemLoaded(k: Kind, size: nat, v: Val, was: Val, tail: seq<Byte>)
    requires (k.Nested? ==> DescOk(k.desc)) && TypedElem(k, v) && ClearElem(k, v, tail)
    ensures var r := LoadElem(k, size, was, SaveElem(k, size, v) + tail);
            r.Got? && r.left == tail && AgreeElem(k, size, v, r.val)
    decreases k, 0
  {
    match k
    case Uint(width) =>
      TakeSkip(BigEndian(v.n, width), tail);
      ValueBigEndian(v.n, width);
    case Buffer(_) =>
      TakeSkip(Padded(v, size), tail);
      ReadBack(v, size, was, tail);
    case VBuffer(_, _) =>
      TakeSkip(Padded(v, size), tail);
      ReadBack(v, size, was, tail);
    case Nested(d) =>
      RoundTrip(d, ObjOf(v), ObjOf(was), tail);
  }

  lemma SetElemCell(o: Obj, at: nat, i: nat, v: Val)
    ensures SameOff(o, SetElem(o, at, i, v), {at}) && Elem(SetElem(o, at, i, v), at, i) == v
    ensures forall j :: 0 <= j < i ==> Elem(SetElem(o, at, i, v), at, j) == Elem(o, at, j)
  {
  }

  lemma {:induction false} ElemsLoaded(f: Field, src: Obj, o: Obj, i: nat, tail: seq<Byte>)
    requires (f.kind.Nested? ==> DescOk(f.kind.desc)) && TypedElems(f, src) && i <= CountOf(f, src)
             && ClearElems(f, src, i, tail)
    requires AgreeElems(f, SizeOf(f, src), i, src, o)
    ensures var r := LoadElems(f, o, CountOf(f, src), SizeOf(f, src), i, SaveElems(f, src, i) + tail);
            r.Ok? && r.rest == tail && AgreeElems(f, SizeOf(f, src), CountOf(f, src), src, r.obj)
              && SameOff(o, r.obj, {f.offset})
    decreases f.kind, 1, CountOf(f, src) - i
  {
    var n, size := CountOf(f, src), SizeOf(f, src);
    if i == n {
      assert SaveElems(f, src, i) + tail == tail;
    } else {
      var v := Elem(src, f.offset, i);
      var rest := SaveElems(f, src, i + 1) + tail;
      Assoc(SaveElem(f.kind, size, v), SaveElems(f, src, i + 1), tail);
      ElemLoaded(f.kind, size, v, Elem(o, f.offset, i), rest);
      var w := LoadElem(f.kind, size, Elem(o, f.offset, i), SaveElem(f.kind, size, v) + rest).val;
      var o' := SetElem(o, f.offset, i, w);
      SetElemCell(o, f.offset, i, w);
      hide SetElem, LoadElem, SaveElem, AgreeElem, DescOk;
      assert AgreeElems(f, size, i + 1, src, o');
      ElemsLoaded(f, src, o', i + 1, tail);
    }
  }

  /** After the field at k, the object agrees one field further. */
  lemma OneMore(d: Desc, k: nat, src: Obj, o: Obj, o': Obj)
    requires DescOk(d) && k < |d.fields| && AgreesUpTo(d, k, src, o) && SameOff(o, o', {d.fields[k].offset})
    requires SavedAt(d.fields[k], src, d.version) ==>
               AgreeElems(d.fields[k], SizeOf(d.fields[k], src), CountOf(d.fields[k], src), src, o')
    ensures AgreesUpTo(d, k + 1, src, o')
  {
    assert d.fields[k].offset !in FieldOffsets(d.fields[..k]);
    UpToFrame(d, k, src, o, o');
    assert Depends(d, k);
  }

  lemma {:induction false} FieldsLoaded(d: Desc, src: Obj, o: Obj, k: nat, tail: seq<Byte>)
    requires DescOk(d) && Typed(d, src) && k <= |d.fields| && AgreesUpTo(d, k, src, o) && ClearFields(d, src, k, tail)
    ensures var r := LoadFields(d, o, d.version, k, SaveFields(d, src, k) + tail);
            r.Ok? && r.rest == tail && AgreesUpTo(d, |d.fields|, src, r.obj)
              && SameOff(o, r.obj, FieldOffsets(d.fields))
    decreases d, 2, |d.fields| - k
  {
    if k == |d.fields| {
      assert SaveFields(d, src, k) + tail == tail;
    } else {
      var f := d.fields[k];
      assert Depends(d, k);
      assert LoadedAt(f, o, d.version) == SavedAt(f, src, d.version);
      assert f.offset in FieldOffsets(d.fields);
      if SavedAt(f, src, d.version) {
        var rest := SaveFields(d, src, k + 1) + tail;
        Assoc(SaveElems(f, src, 0), SaveFields(d, src, k + 1), tail);
        ElemsLoaded(f, src, o, 0, rest);
        var o' := LoadElems(f, o, CountOf(f, src), SizeOf(f, src), 0, SaveElems(f, src, 0) + rest).obj;
        OneMore(d, k, src, o, o');
        FieldsLoaded(d, src, o', k + 1, tail);
      } else {
        assert [] + SaveFields(d, src, k + 1) == SaveFields(d, src, k + 1);
        OneMore(d, k, src, o, o);
        FieldsLoaded(d, src, o, k + 1, tail);
      }
    }
  }

  lemma HeaderParts(name: seq<Byte>, version: seq<Byte>, tail: seq<Byte>)
    requires |name| < 256 && |version| == 4
    ensures var input := [SUBSECTION, |name|] + name + version + tail;
            && |input| >= 2 + |name| && input[0] == SUBSECTION && input[1] == |name| && input[2..2 + |name|] == name
            && input[2 + |name|..] == version + tail
            && forall n :: 0 <= n <= |name| ==> input[2..2 + n] == name[..n]
  {
  }

  ghost function HeaderBytes(name: seq<Byte>, version: seq<Byte>): seq<Byte>
    requires |name| < 256
  {
    [SUBSECTION, |name|] + name + version
  }

  lemma HeaderForm(d: Desc)
    requires |d.name| < 256
    ensures HeaderOf(d) == HeaderBytes(d.name, BigEndian(d.version, 4))
  {
    assert d.name[..|d.name|] == d.name;
  }

  lemma HeaderAnnounces(d: Desc, name: seq<Byte>, version: seq<Byte>, tail: seq<Byte>)
    requires |name| < 256 && |version| == 4 && Extends(name, d.name)
    ensures Announced(d, HeaderBytes(name, version) + tail)
  {
    HeaderParts(name, version, tail);
  }

  lemma VersionBack(version: nat, tail: seq<Byte>)
    requires version < 256
    ensures Value(Take(BigEndian(version, 4) + tail, 4)) % 256 == version
            && Skip(BigEndian(version, 4) + tail, 4) == tail
  {
    TakeSkip(BigEndian(version, 4), tail);
    Pow256Values();
    ValueBigEndian(version, 4);
  }

  /** A header is read back as the subsection it was written for. */
  lemma HeaderRead(d: Desc, j: nat, tail: seq<Byte>)
    requires DescOk(d) && j < |d.subs|
    ensures var sub := d.subs[j].desc; var input := HeaderOf(sub) + tail; var len := PeekByte(input, 1);
            && Announced(d, input) && 2 + len <= |input| && FindSub(d.subs, CString(input[2..2 + len])) == Some(sub)
            && Value(Take(input[2 + len..], 4)) % 256 == sub.version && Skip(input[2 + len..], 4) == tail
  {
    hide DescOk, FindSub, Value, BigEndian, Pow256, Take, Skip, CString, Announced, HeaderOf, Extends;
    var sub := d.subs[j].desc;
    SubName(d, j);
    FindIt(d.subs, j);
    HeaderForm(sub);
    var version := BigEndian(sub.version, 4);
    HeaderAnnounces(d, sub.name, version, tail);
    HeaderParts(sub.name, version, tail);
    CStringNoZero(sub.name);
    VersionBack(sub.version, tail);
  }

  lemma SubName(d: Desc, j: nat)
    requires DescOk(d) && j < |d.subs|
    ensures var sub := d.subs[j].desc;
            && |sub.name| < 256 && sub.version < 256 && Extends(sub.name, d.name) && NoZero(sub.name)
            && (forall i :: 0 <= i < |d.subs| && i != j ==> !(d.subs[i].desc.name <= sub.name))
  {
    assert DescOk(d.subs[j].desc);
  }

  lemma {:induction false} FindIt(subs: seq<Sub>, j: nat)
    requires j < |subs| && forall i :: 0 <= i < |subs| && i != j ==> !(subs[i].desc.name <= subs[j].desc.name)
    ensures FindSub(subs, subs[j].desc.name) == Some(subs[j].desc)
  {
    if j > 0 {
      assert subs[0].desc.name != subs[j].desc.name;
      FindIt(subs[1..], j - 1);
    }
  }

  ghost function SubOffsets(d: Desc, from: nat): set<nat> {
    set j, x | from <= j < |d.subs| && x in Offsets(d.subs[j].desc) :: x
  }

  /** One turn of the loader's loop over a header it knows. */
  lemma LoadSubsStep(d: Desc, j: nat, o: Obj, x: seq<Byte>)
    requires DescOk(d) && j < |d.subs| && Load(d.subs[j].desc, o, d.subs[j].desc.version, x).Ok?
    ensures var r := Load(d.subs[j].desc, o, d.subs[j].desc.version, x);
            LoadSubs(d, o, HeaderOf(d.subs[j].desc) + x) == LoadSubs(d, r.obj, r.rest)
  {
    HeaderRead(d, j, x);
    hide DescOk, HeaderOf, Announced, FindSub, CString, Value, Take, Skip;
  }

  /** The loader gets past what was saved to whatever follows, with the state restored. */
  lemma {:induction false} SubsLoaded(d: Desc, src: Obj, o: Obj, j: nat, tail: seq<Byte>) returns (r: Obj)
    requires DescOk(d) && Typed(d, src) && j <= |d.subs| && ClearSubs(d, src, j, tail)
    ensures LoadSubs(d, o, SaveSubs(d, src, j) + tail) == LoadSubs(d, r, tail)
    ensures AgreeSubs(d, j, src, r) && SameOff(o, r, SubOffsets(d, j))
    decreases d, 2, |d.subs| - j
  {
    hide LoadSubs, Load, HeaderOf, Save, SaveSubs, Clear, ClearSubs, DescOk, Typed, Agrees, AgreeSubs, SameOff, Offsets;
    if j == |d.subs| {
      NoSubs(d, src, o, tail);
      r := o;
    } else {
      SubFacts(d, src, j, tail);
      var sub := d.subs[j].desc;
      var rest := SaveSubs(d, src, j + 1) + tail;
      var o' := o;
      if d.subs[j].needed(src) {
        Regroup(HeaderOf(sub), Save(sub, src), SaveSubs(d, src, j + 1), tail);
        RoundTrip(sub, src, o, rest);
        LoadSubsStep(d, j, o, Save(sub, src) + rest);
        o' := Load(sub, o, sub.version, Save(sub, src) + rest).obj;
      }
      r := SubsLoaded(d, src, o', j + 1, tail);
      SubsMore(d, src, o, o', r, j);
    }
  }

  lemma NoSubs(d: Desc, src: Obj, o: Obj, tail: seq<Byte>)
    ensures SaveSubs(d, src, |d.subs|) + tail == tail
    ensures AgreeSubs(d, |d.subs|, src, o) && SameOff(o, o, SubOffsets(d, |d.subs|))
  {
    assert SaveSubs(d, src, |d.subs|) == [];
  }

  /** What holds of a description holds of its j-th subsection. */
  lemma SubFacts(d: Desc, src: Obj, j: nat, tail: seq<Byte>)
    requires DescOk(d) && Typed(d, src) && j < |d.subs| && ClearSubs(d, src, j, tail)
    ensures var sub, rest := d.subs[j].desc, SaveSubs(d, src, j + 1);
            && ClearSubs(d, src, j + 1, tail)
            && if d.subs[j].needed(src) then
                 && DescOk(sub) && Typed(sub, src) && Clear(sub, src, rest + tail)
                 && SaveSubs(d, src, j) == HeaderOf(sub) + Save(sub, src) + rest
               else SaveSubs(d, src, j) == rest
  {
    hide HeaderOf, Save, Clear;
    assert [] + SaveSubs(d, src, j + 1) == SaveSubs(d, src, j + 1);
  }

  lemma SubsMore(d: Desc, src: Obj, o: Obj, o': Obj, r: Obj, j: nat)
    requires DescOk(d) && j < |d.subs| && AgreeSubs(d, j + 1, src, r) && SameOff(o', r, SubOffsets(d, j + 1))
    requires d.subs[j].needed(src) ==> Agrees(d.subs[j].desc, src, o') && SameOff(o, o', Offsets(d.subs[j].desc))
    requires !d.subs[j].needed(src) ==> o' == o
    ensures AgreeSubs(d, j, src, r) && SameOff(o, r, SubOffsets(d, j))
  {
    if d.subs[j].needed(src) { SubKept(d, j, src, o', r); }
    hide Agrees, DescOk, Cell;
  }

  lemma Regroup(h: seq<Byte>, a: seq<Byte>, b: seq<Byte>, tail: seq<Byte>)
    ensures (h + a) + b + tail == h + (a + (b + tail))
  {
  }

  /** Later subsections leave an earlier one alone. */
  lemma SubKept(d: Desc, j: nat, src: Obj, o: Obj, o': Obj)
    requires DescOk(d) && j < |d.subs| && Agrees(d.subs[j].desc, src, o) && SameOff(o, o', SubOffsets(d, j + 1))
    ensures Agrees(d.subs[j].desc, src, o')
  {
    AgreesFrame(d.subs[j].desc, src, o, o');
  }

  /** Loading what was saved restores every saved field, through nested structures,
      arrays and subsections, reads exactly those bytes and touches nothing else. */
  lemma {:induction false} RoundTrip(d: Desc, src: Obj, dst: Obj, tail: seq<Byte>)
    requires DescOk(d) && Typed(d, src) && Clear(d, src, tail)
    ensures var r := Load(d, dst, d.version, Save(d, src) + tail);
            r.Ok? && r.rest == tail && Agrees(d, src, r.obj) && SameOff(dst, r.obj, Offsets(d))
    decreases d, 3
  {
    var rest := SaveSubs(d, src, 0) + tail;
    Assoc(SaveFields(d, src, 0), SaveSubs(d, src, 0), tail);
    FieldsLoaded(d, src, dst, 0, rest);
    var o := LoadFields(d, dst, d.version, 0, SaveFields(d, src, 0) + rest).obj;
    var r := SubsLoaded(d, src, o, 0, tail);
    FieldsKept(d, src, o, r);
  }

  lemma FieldsKept(d: Desc, src: Obj, o: Obj, o': Obj)
    requires DescOk(d) && AgreesUpTo(d, |d.fields|, src, o) && SameOff(o, o', SubOffsets(d, 0))
    ensures AgreesUpTo(d, |d.fields|, src, o')
  {
    assert d.fields[..|d.fields|] == d.fields;
    UpToFrame(d, |d.fields|, src, o, o');
  }

  /** With all structures inside clear, the load stops where the save did if and only
      if the bytes after it do not look like one more subsection. */
  lemma RoundTripIff(d: Desc, src: Obj, dst: Obj, tail: seq<Byte>)
    requires DescOk(d) && Typed(d, src) && ClearFields(d, src, 0, SaveSubs(d, src, 0) + tail)
             && ClearSubs(d, src, 0, tail)
    ensures var r := Load(d, dst, d.version, Save(d, src) + tail);
            r.Ok? && r.rest == tail <==>
            !(|tail| >= 2 && tail[0] == 5 && |d.name| < tail[1] <= |tail| - 2 && d.name <= tail[2..])
  {
    var rest := SaveSubs(d, src, 0) + tail;
    Assoc(SaveFields(d, src, 0), SaveSubs(d, src, 0), tail);
    FieldsLoaded(d, src, dst, 0, rest);
    var o := LoadFields(d, dst, d.version, 0, SaveFields(d, src, 0) + rest).obj;
    var r := SubsLoaded(d, src, o, 0, tail);
    LooksLike(d, tail);
    if Announced(d, tail) { Consumes(d, r, tail); }
  }

  /** What a stream looks like to go on with a subsection. */
  lemma LooksLike(d: Desc, tail: seq<Byte>)
    ensures Announced(d, tail) <==>
            |tail| >= 2 && tail[0] == 5 && |d.name| < tail[1] <= |tail| - 2 && d.name <= tail[2..]
  {
    if |tail| >= 2 + |d.name| { assert tail[2..][..|d.name|] == tail[2..2 + |d.name|]; }
  }

  lemma Consumes(d: Desc, o: Obj, input: seq<Byte>)
    requires Announced(d, input)
    ensures var r := LoadSubs(d, o, input); r.Ok? ==> |r.rest| < |input|
  {
  }

  // ------------------------------------------------------------ names that keep subsections apart

  ghost predicate StructSubs(d: Desc, o: Obj, j: nat, tail: seq<Byte>)
    requires j <= |d.subs|
    decreases d, 1, |d.subs| - j
  {
    j < |d.subs| ==>
      && (d.subs[j].needed(o) ==> StructsClear(d.subs[j].desc, o, SaveSubs(d, o, j + 1) + tail))
      && StructSubs(d, o, j + 1, tail)
  }

  /** The condition on the structures among the fields alone. */
  ghost predicate StructsClear(d: Desc, o: Obj, tail: seq<Byte>)
    decreases d, 2
  {
    ClearFields(d, o, 0, SaveSubs(d, o, 0) + tail) && StructSubs(d, o, 0, tail)
  }

  /** The bytes after everything announce nothing to d or to its subsections. */
  ghost predicate TailClear(d: Desc, tail: seq<Byte>)
    decreases d
  {
    !Announced(d, tail) && forall j :: 0 <= j < |d.subs| ==> TailClear(d.subs[j].desc, tail)
  }

  /** A sibling's header is not a subsection of x, when x's name does not start it. */
  lemma SiblingHeader(x: Desc, sub: Desc, tail: seq<Byte>)
    requires |sub.name| < 256 && !(x.name <= sub.name)
    ensures !Announced(x, HeaderOf(sub) + tail)
  {
    HeaderForm(sub);
    HeaderParts(sub.name, BigEndian(sub.version, 4), tail);
    hide HeaderOf, BigEndian;
    var input := HeaderOf(sub) + tail;
    assert |x.name| <= |sub.name| ==> input[2..2 + |x.name|] == sub.name[..|x.name|];
  }

  lemma SubOk(d: Desc, j: nat)
    requires DescOk(d) && j < |d.subs|
    ensures DescOk(d.subs[j].desc) && d.name <= d.subs[j].desc.name
  {
  }

  lemma NotPrefix(d: Desc, j: nat, k: nat, name: seq<Byte>)
    requires DescOk(d) && j < |d.subs| && k < |d.subs| && j != k && d.subs[j].desc.name <= name
    ensures !(name <= d.subs[k].desc.name)
  {
    SubName(d, k);
    hide DescOk;
    PrefixTrans(d.subs[j].desc.name, name, d.subs[k].desc.name);
  }

  lemma PrefixTrans(a: seq<Byte>, b: seq<Byte>, c: seq<Byte>)
    requires a <= b
    ensures b <= c ==> a <= c
  {
  }

  lemma {:induction false} SiblingsClear(d: Desc, j: nat, k: nat, x: Desc, o: Obj, tail: seq<Byte>)
    requires DescOk(d) && j < k <= |d.subs| && DescOk(x) && d.subs[j].desc.name <= x.name && TailClear(x, tail)
    ensures TailClear(x, SaveSubs(d, o, k) + tail)
    decreases |d.subs| - k, x
  {
    hide DescOk, HeaderOf, Save, Announced;
    if k == |d.subs| {
      assert SaveSubs(d, o, k) + tail == tail;
    } else if !d.subs[k].needed(o) {
      assert [] + SaveSubs(d, o, k + 1) == SaveSubs(d, o, k + 1);
      SiblingsClear(d, j, k + 1, x, o, tail);
    } else {
      var sub := d.subs[k].desc;
      SubName(d, k);
      NotPrefix(d, j, k, x.name);
      Regroup(HeaderOf(sub), Save(sub, o), SaveSubs(d, o, k + 1), tail);
      SiblingHeader(x, sub, Save(sub, o) + (SaveSubs(d, o, k + 1) + tail));
      forall i | 0 <= i < |x.subs| ensures TailClear(x.subs[i].desc, SaveSubs(d, o, k) + tail) {
        SubOk(x, i);
        SiblingsClear(d, j, k, x.subs[i].desc, o, tail);
      }
    }
  }

  lemma {:induction false} SubsByNames(d: Desc, o: Obj, j: nat, tail: seq<Byte>)
    requires DescOk(d) && j <= |d.subs| && StructSubs(d, o, j, tail) && TailClear(d, tail)
    ensures ClearSubs(d, o, j, tail)
    decreases d, 1, |d.subs| - j
  {
    if j < |d.subs| {
      if d.subs[j].needed(o) {
        SiblingsClear(d, j, j + 1, d.subs[j].desc, o, tail);
        ClearByNames(d.subs[j].desc, o, SaveSubs(d, o, j + 1) + tail);
      }
      SubsByNames(d, o, j + 1, tail);
    }
  }

  /** When subsection names extend their parent's and no sibling's name starts
      another's, only structures among the fields and the very end need care. */
  lemma {:induction false} ClearByNames(d: Desc, o: Obj, tail: seq<Byte>)
    requires DescOk(d) && StructsClear(d, o, tail) && TailClear(d, tail)
    ensures Clear(d, o, tail)
    decreases d, 2
  {
    SubsByNames(d, o, 0, tail);
  }

  // ------------------------------------------------------------ counts from earlier fields

  lemma SameNumber(f: Field, version: nat, a: Obj, b: Obj)
    requires AgreeField(f, version, a, b) && f.kind.Uint? && f.test.Since? && f.count == Fixed(1)
    ensures NumAt(a, f.offset) == NumAt(b, f.offset)
  {
    assert AgreeElems(f, SizeOf(f, a), 1, a, b);
    assert AgreeElem(f.kind, SizeOf(f, a), Elem(a, f.offset, 0), Elem(b, f.offset, 0));
  }

  /** A count or size that stands in an earlier unconditional integer field follows
      from the fields before. */
  lemma EarlierCount(d: Desc, j: nat, k: nat)
    requires j < k < |d.fields| && d.fields[j].kind.Uint? && d.fields[j].test.Since? && d.fields[j].count == Fixed(1)
    requires d.fields[k].test.Since? && (d.fields[k].count.Var? ==> d.fields[k].count.at == d.fields[j].offset)
    requires d.fields[k].kind.VBuffer? ==> d.fields[k].kind.sizeAt == d.fields[j].offset
    ensures Depends(d, k)
  {
    forall a, b | AgreesUpTo(d, k, a, b) ensures SameShape(d.fields[k], d.version, a, b) {
      var f := d.fields[j];
      assert AgreeField(f, d.version, a, b);
      SameNumber(f, d.version, a, b);
    }
  }

  ghost function Inner(): Desc { Desc([1], 0, 0, 0, [], []) }

  ghost function Outer(): Desc {
    Desc([2], 0, 0, 0, [Field(0, Nested(Inner()), Fixed(1), Since(0)), Field(1, Uint(4), Fixed(1), Since(0))], [])
  }

  ghost function Unlucky(): Obj { Obj(map[1 := [Num(0x0502_0101)]]) }

  lemma UnluckyBytes()
    ensures Save(Outer(), Unlucky()) == [5, 2, 1, 1]
  {
    var d, o := Outer(), Unlucky();
    var f0, f1 := d.fields[0], d.fields[1];
    var bytes := BigEndian(0x0502_0101, 4);
    assert bytes == [5, 2, 1, 1];
    assert SaveElems(f1, o, 0) == bytes + SaveElems(f1, o, 1) == bytes;
    assert Save(Inner(), Obj(map[])) == [];
    assert SaveElems(f0, o, 0) == [] + SaveElems(f0, o, 1) == [];
    assert SaveFields(d, o, 1) == bytes + SaveFields(d, o, 2) == bytes;
  }

  lemma InnerFails()
    ensures Load(Inner(), Obj(map[]), 0, [5, 2, 1, 1]) == Fail(-ENOENT)
  {
    assert Announced(Inner(), [5, 2, 1, 1]);
    assert LoadSubs(Inner(), Obj(map[]), [5, 2, 1, 1]) == Fail(-ENOENT);
  }

  lemma OuterOk()
    ensures DescOk(Outer())
  {
    var d := Outer();
    assert DescOk(Inner());
    assert Depends(d, 0) && Depends(d, 1) by { hide AgreesUpTo, Agrees, DescOk; }
    hide Depends;
  }

  lemma UnluckyTyped()
    ensures Typed(Outer(), Unlucky())
  {
    var d, o := Outer(), Unlucky();
    var f0, f1 := d.fields[0], d.fields[1];
    assert Pow256(4) == 0x1_0000_0000 by { Pow256Values(); }
    hide Bytes.Pow256;
    assert Typed(Inner(), ObjOf(Elem(o, 0, 0)));
    assert TypedElems(f0, o);
    assert TypedElems(f1, o);
    hide TypedElems;
  }

  /** The condition on structures is needed: here an empty structure is followed by an
      integer whose bytes look like a subsection of it, and the load fails. */
  lemma StructNeedsCare()
    ensures DescOk(Outer()) && Typed(Outer(), Unlucky())
    ensures Load(Outer(), Unlucky(), 0, Save(Outer(), Unlucky())) == Fail(-ENOENT)
  {
    UnluckyBytes();
    InnerFails();
    OuterOk();
    UnluckyTyped();
    hide Save, DescOk, Typed, Bytes.Pow256;
    var d, o := Outer(), Unlucky();
    var f0 := d.fields[0];
    assert LoadElem(f0.kind, 0, Num(0), [5, 2, 1, 1]) == Bad(-ENOENT);
    assert LoadElems(f0, o, 1, 0, 0, [5, 2, 1, 1]) == Fail(-ENOENT);
  }
}
