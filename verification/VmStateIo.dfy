/** The loops of vmstate_save_state and vmstate_load_state over a stream, against
    the functions of VmState. */
module VmStateIo {
  import opened Bytes
  import opened VmState

  class Stream {
    var bytes: seq<Byte>

    constructor (s: seq<Byte>)
      ensures bytes == s
    {
      bytes := s;
    }

    /** vmstate_save_state. */
    method SaveState(d: Desc, o: Obj)
      modifies this
      ensures bytes == old(bytes) + Save(d, o)
      decreases d, 2
    {
      var k := 0;
      while k < |d.fields|
        invariant k <= |d.fields| && bytes + SaveFields(d, o, k) == old(bytes) + SaveFields(d, o, 0)
      {
        var f := d.fields[k];
        ghost var before, more := bytes, SaveFields(d, o, k + 1);
        if SavedAt(f, o, d.version) {
          SaveField(f, o);
          Assoc(before, SaveElems(f, o, 0), more);
        }
        k := k + 1;
      }
      assert bytes == old(bytes) + SaveFields(d, o, 0);
      Assoc(old(bytes), SaveFields(d, o, 0), SaveSubs(d, o, 0));
      SaveSubsections(d, o);
    }

    /** The elements of one field. */
    method SaveField(f: Field, o: Obj)
      modifies this
      ensures bytes == old(bytes) + SaveElems(f, o, 0)
      decreases f.kind, 1
    {
      var size, n := SizeOf(f, o), CountOf(f, o);
      var i := 0;
      while i < n
        invariant i <= n && bytes + SaveElems(f, o, i) == old(bytes) + SaveElems(f, o, 0)
      {
        var v := Elem(o, f.offset, i);
        Assoc(bytes, SaveElem(f.kind, size, v), SaveElems(f, o, i + 1));
        if f.kind.Nested? {
          SaveState(f.kind.desc, ObjOf(v));
        } else {
          bytes := bytes + SaveElem(f.kind, size, v);
        }
        i := i + 1;
      }
    }

    /** vmstate_subsection_save. */
    method SaveSubsections(d: Desc, o: Obj)
      modifies this
      ensures bytes == old(bytes) + SaveSubs(d, o, 0)
      decreases d, 1
    {
      var j := 0;
      while j < |d.subs|
        invariant j <= |d.subs| && bytes + SaveSubs(d, o, j) == old(bytes) + SaveSubs(d, o, 0)
      {
        ghost var before, more := bytes, SaveSubs(d, o, j + 1);
        if d.subs[j].needed(o) {
          var sub := d.subs[j].desc;
          bytes := bytes + HeaderOf(sub);
          SaveState(sub, o);
          Assoc(before, HeaderOf(sub), Save(sub, o));
          Assoc(before, HeaderOf(sub) + Save(sub, o), more);
        }
        j := j + 1;
      }
    }

    /** vmstate_load_state: the object afterwards, or an error and whatever was read. */
    method LoadState(d: Desc, o: Obj, version: nat) returns (ret: int, obj: Obj)
      modifies this
      ensures var r := Load(d, o, version, old(bytes));
              if r.Ok? then ret == 0 && obj == r.obj && bytes == r.rest else ret == r.error && ret < 0
      decreases d, 3
    {
      obj := o;
      if version > d.version || version < d.minimumOld || version < d.minimum {
        return -EINVAL, o;
      }
      var k := 0;
      while k < |d.fields|
        invariant k <= |d.fields| && LoadFields(d, obj, version, k, bytes) == LoadFields(d, o, version, 0, old(bytes))
      {
        var f := d.fields[k];
        if LoadedAt(f, obj, version) {
          ret, obj := LoadField(f, obj);
          if ret != 0 {
            return;
          }
        }
        k := k + 1;
      }
      ret, obj := LoadSubsections(d, obj);
    }

    /** The elements of one field. */
    method LoadField(f: Field, o: Obj) returns (ret: int, obj: Obj)
      modifies this
      ensures var r := LoadElems(f, o, CountOf(f, o), SizeOf(f, o), 0, old(bytes));
              if r.Ok? then ret == 0 && obj == r.obj && bytes == r.rest else ret == r.error && ret < 0
      decreases f.kind, 1
    {
      var size, n := SizeOf(f, o), CountOf(f, o);
      var i := 0;
      ret, obj := 0, o;
      while i < n
        invariant i <= n && ret == 0 && LoadElems(f, obj, n, size, i, bytes) == LoadElems(f, o, n, size, 0, old(bytes))
      {
        var v := Elem(obj, f.offset, i);
        if f.kind.Nested? {
          var x;
          ret, x := LoadState(f.kind.desc, ObjOf(v), f.kind.desc.version);
          if ret < 0 {
            return;
          }
          obj := SetElem(obj, f.offset, i, Struct(x));
        } else {
          var got := LoadElem(f.kind, size, v, bytes);
          obj, bytes := SetElem(obj, f.offset, i, got.val), got.left;
        }
        i := i + 1;
      }
    }

    /** vmstate_subsection_load. */
    method LoadSubsections(d: Desc, o: Obj) returns (ret: int, obj: Obj)
      modifies this
      ensures var r := LoadSubs(d, o, old(bytes));
              if r.Ok? then ret == 0 && obj == r.obj && bytes == r.rest else ret == r.error && ret < 0
      decreases d, 1
    {
      hide Value, Take, Skip, CString;
      ret, obj := 0, o;
      while Announced(d, bytes)
        invariant ret == 0 && LoadSubs(d, obj, bytes) == LoadSubs(d, o, old(bytes))
        decreases |bytes|
      {
        var len := PeekByte(bytes, 1);
        var sub := FindSub(d.subs, CString(bytes[2..2 + len]));
        if sub.None? {
          return -ENOENT, obj;
        }
        ghost var before := bytes;
        var left := bytes[2 + len..];
        bytes := Skip(left, 4);
        ret, obj := LoadState(sub.value, obj, Value(Take(left, 4)) % 256);
        if ret != 0 {
          return;
        }
      }
    }
  }
}
