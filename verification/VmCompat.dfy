/** What the device state format promises, said of cells and bytes: which elements come back,
    where they stand in the stream, and that streams of older versions still load. */
module VmCompat {
  import opened Bytes
  import opened VmState

  // ------------------------------------------------------------ what comes back

  /** The number in the first element of a cell, as a C int: none if it is negative. */
  ghost predicate IntAt(o: Obj, at: nat, scale: nat, n: nat) {
    && Cell(o, at) != [] && Cell(o, at)[0].Num?
    && n == Cell(o, at)[0].n * scale % 0x1_0000_0000 && n < 0x8000_0000
  }

  /** Element i is one of the field's. */
  ghost predicate HasElem(f: Field, o: Obj, i: nat) {
    match f.count
    case Fixed(n) => i < n
    case Var(at) => exists n :: IntAt(o, at, 1, n) && i < n
  }

  /** Byte j is one of each element's, for buffers. */
  ghost predicate HasByte(k: Kind, o: Obj, j: nat) {
    match k
    case Buffer(size) => j < size
    case VBuffer(at, scale) => exists n :: IntAt(o, at, scale, n) && j < n
    case _ => false
  }

  ghost predicate Present(f: Field, o: Obj, version: nat) {
    match f.test
    case Since(_) => true
    case When(p) => p(o, version)
  }

  ghost function ByteOf(v: Val, j: nat): Byte { if v.Raw? && j < |v.bytes| then v.bytes[j] else 0 }

  ghost predicate ElemRestored(f: Field, o: Obj, a: Val, b: Val)
    decreases f.kind, 0
  {
    match f.kind
    case Uint(_) => b == a
    case Nested(d) => Restored(d, ObjOf(a), ObjOf(b))
    case _ => forall j: nat :: HasByte(f.kind, o, j) ==> ByteOf(b, j) == ByteOf(a, j)
  }

  ghost predicate FieldRestored(f: Field, a: Obj, b: Obj)
    decreases f.kind, 1
  {
    forall i: nat :: HasElem(f, a, i) ==> ElemRestored(f, a, Elem(a, f.offset, i), Elem(b, f.offset, i))
  }

  /** b has every element that d saves of a: all of an array, all of a buffer, all structures
      and all subsections that a needs. */
  ghost predicate Restored(d: Desc, a: Obj, b: Obj)
    decreases d
  {
    && (forall k :: 0 <= k < |d.fields| && Present(d.fields[k], a, d.version) ==> FieldRestored(d.fields[k], a, b))
    && (forall j :: 0 <= j < |d.subs| && d.subs[j].needed(a) ==> Restored(d.subs[j].desc, a, b))
  }

  lemma CountIs(f: Field, o: Obj, i: nat)
    ensures HasElem(f, o, i) <==> i < CountOf(f, o)
  {
    if f.count.Var? && i < CountOf(f, o) {
      var n := Cell(o, f.count.at)[0].n * 1 % 0x1_0000_0000;
      assert IntAt(o, f.count.at, 1, n) && i < n;
    }
  }

  lemma ZeroScaled(n: nat, scale: nat)
    ensures n == 0 ==> n * scale == 0
  {
  }

  lemma SizeIs(f: Field, o: Obj, j: nat)
    requires f.kind.Buffer? || f.kind.VBuffer?
    ensures HasByte(f.kind, o, j) <==> j < SizeOf(f, o)
  {
    if f.kind.VBuffer? {
      var at, scale := f.kind.sizeAt, f.kind.scale;
      if j < SizeOf(f, o) {
        ZeroScaled(NumAt(o, at), scale);
        var n := Cell(o, at)[0].n * scale % 0x1_0000_0000;
        assert IntAt(o, at, scale, n) && j < n;
      }
    }
  }

  lemma PaddedByte(v: Val, n: nat, j: nat)
    requires j < n
    ensures Padded(v, n)[j] == ByteOf(v, j)
  {
  }

  lemma {:induction false} ElemMeans(f: Field, o: Obj, a: Val, b: Val)
    requires AgreeElem(f.kind, SizeOf(f, o), a, b)
    ensures ElemRestored(f, o, a, b)
    decreases f.kind, 0
  {
    match f.kind
    case Uint(_) =>
    case Nested(d) => Means(d, ObjOf(a), ObjOf(b));
    case _ =>
      forall j: nat | HasByte(f.kind, o, j) ensures ByteOf(b, j) == ByteOf(a, j) {
        SizeIs(f, o, j);
        PaddedByte(a, SizeOf(f, o), j);
        PaddedByte(b, SizeOf(f, o), j);
      }
  }

  lemma {:induction false} FieldMeans(f: Field, version: nat, a: Obj, b: Obj)
    requires AgreeField(f, version, a, b) && Present(f, a, version)
    ensures FieldRestored(f, a, b)
    decreases f.kind, 2
  {
    forall i: nat | HasElem(f, a, i) ensures ElemRestored(f, a, Elem(a, f.offset, i), Elem(b, f.offset, i)) {
      CountIs(f, a, i);
      assert AgreeElems(f, SizeOf(f, a), CountOf(f, a), a, b);
      ElemMeans(f, a, Elem(a, f.offset, i), Elem(b, f.offset, i));
    }
  }

  lemma {:induction false} Means(d: Desc, a: Obj, b: Obj)
    requires Agrees(d, a, b)
    ensures Restored(d, a, b)
    decreases d
  {
    forall k | 0 <= k < |d.fields| && Present(d.fields[k], a, d.version)
      ensures FieldRestored(d.fields[k], a, b)
    {
      assert AgreeField(d.fields[k], d.version, a, b);
      FieldMeans(d.fields[k], d.version, a, b);
    }
    forall j | 0 <= j < |d.subs| && d.subs[j].needed(a) ensures Restored(d.subs[j].desc, a, b) {
      Means(d.subs[j].desc, a, b);
    }
  }

  /** Saving and loading gives everything back, reads just what was saved and touches no cell
      that no field names. */
  lemma RoundTripRestores(d: Desc, src: Obj, dst: Obj, tail: seq<Byte>)
    requires DescOk(d) && Typed(d, src) && Clear(d, src, tail)
    ensures var r := Load(d, dst, d.version, Save(d, src) + tail);
            && r.Ok? && r.rest == tail && Restored(d, src, r.obj)
            && forall x :: x !in Offsets(d) ==> Cell(r.obj, x) == Cell(dst, x)
  {
    RoundTrip(d, src, dst, tail);
    Means(d, src, Load(d, dst, d.version, Save(d, src) + tail).obj);
  }

  // ------------------------------------------------------------ where it stands in the stream

  /** How long each element is, for integers and buffers. */
  ghost predicate ElemLength(f: Field, o: Obj, n: nat) {
    match f.kind
    case Uint(width) => n == width
    case Buffer(size) => n == size
    case VBuffer(at, scale) => IntAt(o, at, scale, n)
    case Nested(_) => false
  }

  /** The bytes of element i. */
  ghost function ElemBytes(f: Field, o: Obj, n: nat, i: nat): (s: seq<Byte>)
    requires ElemLength(f, o, n)
    ensures |s| == n
  {
    var v := Elem(o, f.offset, i);
    if f.kind.Uint? then BigEndian(if v.Num? then v.n else 0, n)
    else seq(n, j requires 0 <= j < n => ByteOf(v, j))
  }

  lemma ElemIs(f: Field, o: Obj, n: nat, i: nat)
    requires ElemLength(f, o, n)
    ensures SaveElem(f.kind, SizeOf(f, o), Elem(o, f.offset, i)) == ElemBytes(f, o, n, i)
  {
    if !f.kind.Uint? {
      var v := Elem(o, f.offset, i);
      forall j | 0 <= j < n ensures Padded(v, n)[j] == ByteOf(v, j) { PaddedByte(v, n, j); }
    }
  }

  /** A field takes up as many bytes as its elements have together. */
  lemma {:induction false} Length(f: Field, o: Obj, n: nat, from: nat)
    requires ElemLength(f, o, n) && from <= CountOf(f, o)
    ensures |SaveElems(f, o, from)| == (CountOf(f, o) - from) * n
    decreases CountOf(f, o) - from
  {
    hide ElemLength, ElemBytes, SaveElem;
    if from < CountOf(f, o) {
      ElemIs(f, o, n, from);
      Length(f, o, n, from + 1);
      MulStep(CountOf(f, o) - from - 1, n);
    }
  }

  ghost function Times(p: nat, n: nat): nat { p * n }

  lemma MulStep(p: nat, n: nat)
    ensures (p + 1) * n == p * n + n && Times(p + 1, n) == Times(p, n) + n && Times(0, n) == 0
  {
  }

  /** The elements of a field stand one behind the other, all of them, each at its full length. */
  lemma {:induction false} Layout(f: Field, o: Obj, n: nat, from: nat, i: nat)
    requires ElemLength(f, o, n) && from <= i && HasElem(f, o, i)
    ensures from <= CountOf(f, o)
    ensures var p := Times(i - from, n);
            p + n <= |SaveElems(f, o, from)| && SaveElems(f, o, from)[p..p + n] == ElemBytes(f, o, n, i)
    decreases i - from
  {
    hide ElemLength, ElemBytes, SaveElem, HasElem, Times, CountOf, SizeOf;
    CountIs(f, o, i);
    MulStep(0, n);
    var head, rest := SaveElem(f.kind, SizeOf(f, o), Elem(o, f.offset, from)), SaveElems(f, o, from + 1);
    ElemIs(f, o, n, from);
    if i > from {
      Layout(f, o, n, from + 1, i);
      var p := Times(i - (from + 1), n);
      MulStep(i - (from + 1), n);
      Behind(head, rest, p, p + n);
    } else {
      assert (head + rest)[..n] == head;
    }
  }

  lemma Behind(a: seq<Byte>, b: seq<Byte>, x: nat, y: nat)
    requires x <= y <= |b|
    ensures (a + b)[|a| + x..|a| + y] == b[x..y]
  {
  }

  /** A stream that has ended gives zeros for integers and leaves buffers as they are. */
  lemma Ended(k: Kind, size: nat, v: Val)
    ensures k.Uint? ==> LoadElem(k, size, v, []) == Got(Num(0), [])
    ensures k.Buffer? || k.VBuffer? ==>
              var r := LoadElem(k, size, v, []);
              r.Got? && r.left == [] && forall j :: 0 <= j < size ==> ByteOf(r.val, j) == ByteOf(v, j)
  {
    if k.Uint? { ZeroValue(Take([], k.width)); }
    if k.Buffer? || k.VBuffer? { assert [] + Padded(v, size)[0..] == Padded(v, size); }
  }

  lemma {:induction false} ZeroValue(s: seq<Byte>)
    requires forall i :: 0 <= i < |s| ==> s[i] == 0
    ensures Value(s) == 0
  {
    if s != [] { ZeroValue(s[..|s| - 1]); }
  }

  // ------------------------------------------------------------ older versions

  /** The field was there in that version. */
  predicate Had(f: Field, version: nat) { f.test.Since? ==> f.test.version <= version }

  function FieldsAt(fields: seq<Field>, version: nat): (r: seq<Field>)
    ensures forall f :: f in r <==> f in fields && (f.test.Since? ==> f.test.version <= version)
  {
    if fields == [] then []
    else (if Had(fields[0], version) then [fields[0]] else []) + FieldsAt(fields[1..], version)
  }

  /** The description as it was in an older version: without the fields that came later. */
  function Older(d: Desc, version: nat): Desc { d.(version := version, fields := FieldsAt(d.fields, version)) }

  lemma {:induction false} OlderFields(d: Desc, prior: Desc, o: Obj, version: nat, k: nat, j: nat, input: seq<Byte>)
    requires k <= |d.fields| && j <= |prior.fields| && prior.fields[j..] == FieldsAt(d.fields[k..], version)
    ensures LoadFields(d, o, version, k, input) == LoadFields(prior, o, version, j, input)
    decreases |d.fields| - k
  {
    hide LoadElems, CountOf, SizeOf;
    if k < |d.fields| {
      var f := d.fields[k];
      assert d.fields[k..][0] == f && d.fields[k..][1..] == d.fields[k + 1..];
      if Had(f, version) {
        assert prior.fields[j] == prior.fields[j..][0] == f;
        assert prior.fields[j + 1..] == prior.fields[j..][1..] == FieldsAt(d.fields[k + 1..], version);
        var r := LoadElems(f, o, CountOf(f, o), SizeOf(f, o), 0, input);
        if r.Ok? { OlderFields(d, prior, r.obj, version, k + 1, j + 1, r.rest); }
        OlderFields(d, prior, o, version, k + 1, j + 1, input);
      } else {
        assert prior.fields[j..] == FieldsAt(d.fields[k + 1..], version);
        OlderFields(d, prior, o, version, k + 1, j, input);
      }
    }
  }

  lemma {:induction false} OlderSubs(d: Desc, prior: Desc, o: Obj, input: seq<Byte>)
    requires prior.name == d.name && prior.subs == d.subs
    ensures LoadSubs(d, o, input) == LoadSubs(prior, o, input)
    decreases |input|
  {
    hide Load, FindSub, CString, Take, Skip, Value;
    if Announced(d, input) {
      var len := PeekByte(input, 1);
      var sub := FindSub(d.subs, CString(input[2..2 + len]));
      if sub.Some? {
        var left := input[2 + len..];
        var r := Load(sub.value, o, Value(Take(left, 4)) % 256, Skip(left, 4));
        if r.Ok? { OlderSubs(d, prior, r.obj, r.rest); }
      }
    }
  }

  /** A load at an older version is a load with the description of that version; versions
      that are too new or too old are refused. */
  lemma LoadOlder(d: Desc, o: Obj, version: nat, input: seq<Byte>)
    ensures Load(d, o, version, input) ==
            if d.minimumOld <= version <= d.version && d.minimum <= version
            then Load(Older(d, version), o, version, input) else Fail(-22)
  {
    if d.minimumOld <= version <= d.version && d.minimum <= version {
      var prior := Older(d, version);
      assert d.fields[0..] == d.fields && prior.fields[0..] == prior.fields;
      OlderFields(d, prior, o, version, 0, 0, input);
      var r := LoadFields(d, o, version, 0, input);
      if r.Ok? { OlderSubs(d, prior, r.obj, r.rest); }
    }
  }

  /** What an older version of a device saved is loaded by a newer one: all of it comes back, and
      the fields that came later are left as they are. */
  lemma OlderRestores(d: Desc, version: nat, src: Obj, dst: Obj, tail: seq<Byte>)
    requires d.minimumOld <= version <= d.version && d.minimum <= version
    requires var prior := Older(d, version); DescOk(prior) && Typed(prior, src) && Clear(prior, src, tail)
    ensures var prior := Older(d, version);
            var r := Load(d, dst, version, Save(prior, src) + tail);
            && r.Ok? && r.rest == tail && Restored(prior, src, r.obj)
            && forall x :: x !in Offsets(prior) ==> Cell(r.obj, x) == Cell(dst, x)
  {
    LoadOlder(d, dst, version, Save(Older(d, version), src) + tail);
    RoundTripRestores(Older(d, version), src, dst, tail);
  }
}
