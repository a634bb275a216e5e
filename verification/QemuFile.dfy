/** Buffered streams (savevm.c): a writer over a plain or a vectored backend, and a
    reader over a backend that may return fewer bytes than asked for. */
module QemuFile {
  import opened Bytes

  const IO_BUF_SIZE := 32768
  const MAX_IOV_SIZE := 64
  const EIO := 5

  /** A pointer into the file's own buffer, or into memory a caller handed over. */
  datatype Base = Own(at: nat) | Ext(id: nat, at: nat)

  datatype Iov = Iov(base: Base, len: nat)

  function Plus(b: Base, n: nat): Base { b.(at := b.at + n) }

  /** The piece lies below index in the buffer, or inside its caller's memory. */
  predicate PieceOk(v: Iov, index: nat, size: nat, ext: map<nat, seq<Byte>>) {
    match v.base
    case Own(at) => at + v.len <= index <= size
    case Ext(id, at) => id in ext && at + v.len <= |ext[id]|
  }

  ghost function Piece(v: Iov, buf: seq<Byte>, ext: map<nat, seq<Byte>>): seq<Byte> {
    match v.base
    case Own(at) => if at + v.len <= |buf| then buf[at..at + v.len] else []
    case Ext(id, at) => if id in ext && at + v.len <= |ext[id]| then ext[id][at..at + v.len] else []
  }

  ghost function Gather(iov: seq<Iov>, buf: seq<Byte>, ext: map<nat, seq<Byte>>): seq<Byte> {
    if iov == [] then [] else Gather(iov[..|iov| - 1], buf, ext) + Piece(iov[|iov| - 1], buf, ext)
  }

  ghost predicate AllOk(iov: seq<Iov>, index: nat, size: nat, ext: map<nat, seq<Byte>>) {
    forall i :: 0 <= i < |iov| ==> PieceOk(iov[i], index, size, ext)
  }

  lemma SamePart(buf: seq<Byte>, buf': seq<Byte>, index: nat, from: nat, to: nat)
    requires from <= to <= index <= |buf| && |buf'| == |buf| && buf[..index] == buf'[..index]
    ensures buf[from..to] == buf'[from..to]
  {
    assert buf[from..to] == buf[..index][from..to] && buf'[from..to] == buf'[..index][from..to];
  }

  lemma PieceFrame(v: Iov, index: nat, buf: seq<Byte>, buf': seq<Byte>, ext: map<nat, seq<Byte>>)
    requires PieceOk(v, index, |buf|, ext) && |buf'| == |buf| && index <= |buf| && buf[..index] == buf'[..index]
    ensures Piece(v, buf, ext) == Piece(v, buf', ext)
  {
    if v.base.Own? { SamePart(buf, buf', index, v.base.at, v.base.at + v.len); }
  }

  /** Bytes from index on do not matter. */
  lemma {:induction false} GatherFrame(iov: seq<Iov>, index: nat, buf: seq<Byte>, buf': seq<Byte>,
                                       ext: map<nat, seq<Byte>>)
    requires AllOk(iov, index, |buf|, ext) && |buf'| == |buf| && index <= |buf| && buf[..index] == buf'[..index]
    ensures Gather(iov, buf, ext) == Gather(iov, buf', ext)
  {
    hide Piece, PieceOk;
    if iov != [] {
      PieceFrame(iov[|iov| - 1], index, buf, buf', ext);
      GatherFrame(iov[..|iov| - 1], index, buf, buf', ext);
    }
  }

  lemma GatherMore(iov: seq<Iov>, v: Iov, buf: seq<Byte>, ext: map<nat, seq<Byte>>)
    ensures Gather(iov + [v], buf, ext) == Gather(iov, buf, ext) + Piece(v, buf, ext)
  {
    assert (iov + [v])[..|iov|] == iov;
  }

  lemma OkAt(iov: seq<Iov>, i: nat, index: nat, ext: map<nat, seq<Byte>>)
    requires AllOk(iov, index, IO_BUF_SIZE, ext) && i < |iov|
    ensures PieceOk(iov[i], index, IO_BUF_SIZE, ext)
  {
  }

  lemma PieceIs(v: Iov, buf: seq<Byte>, ext: map<nat, seq<Byte>>, piece: seq<Byte>)
    requires PieceOk(v, |buf|, |buf|, ext)
    requires piece == if v.base.Own? then buf[v.base.at..v.base.at + v.len]
                      else ext[v.base.id][v.base.at..v.base.at + v.len]
    ensures piece == Piece(v, buf, ext)
  {
  }

  lemma GatherNext(before: seq<Byte>, iov: seq<Iov>, i: nat, buf: seq<Byte>, ext: map<nat, seq<Byte>>)
    requires i < |iov|
    ensures before + Gather(iov[..i], buf, ext) + Piece(iov[i], buf, ext) == before + Gather(iov[..i + 1], buf, ext)
  {
    assert iov[..i + 1] == iov[..i] + [iov[i]];
    GatherMore(iov[..i], iov[i], buf, ext);
    Assoc(before, Gather(iov[..i], buf, ext), Piece(iov[i], buf, ext));
  }

  lemma PieceJoin(v: Iov, size: nat, index: nat, buf: seq<Byte>, ext: map<nat, seq<Byte>>)
    requires PieceOk(v, index, |buf|, ext) && PieceOk(Iov(Plus(v.base, v.len), size), index, |buf|, ext)
    ensures PieceOk(v.(len := v.len + size), index, |buf|, ext)
    ensures Piece(v.(len := v.len + size), buf, ext) == Piece(v, buf, ext)
            + Piece(Iov(Plus(v.base, v.len), size), buf, ext)
  {
  }

  /** An adjacent piece can be joined to the last one. */
  lemma GatherJoin(iov: seq<Iov>, size: nat, index: nat, buf: seq<Byte>, ext: map<nat, seq<Byte>>)
    requires iov != [] && AllOk(iov, index, |buf|, ext)
    requires var last := iov[|iov| - 1]; PieceOk(Iov(Plus(last.base, last.len), size), index, |buf|, ext)
    ensures var n, last := |iov| - 1, iov[|iov| - 1];
            && PieceOk(last.(len := last.len + size), index, |buf|, ext)
            && Gather(iov[n := last.(len := last.len + size)], buf, ext) == Gather(iov, buf, ext)
               + Piece(Iov(Plus(last.base, last.len), size), buf, ext)
  {
    var n, last := |iov| - 1, iov[|iov| - 1];
    var more := last.(len := last.len + size);
    assert PieceOk(last, index, |buf|, ext);
    PieceJoin(last, size, index, buf, ext);
    hide Piece, PieceOk;
    assert iov[n := more][..n] == iov[..n];
    Assoc(Gather(iov[..n], buf, ext), Piece(last, buf, ext), Piece(Iov(Plus(last.base, last.len), size), buf, ext));
  }

  // ------------------------------------------------------------ writing

  /** The error is what the backend answered to its last call, if that failed; none before
      it did. */
  ghost predicate Answered(answer: nat -> int, calls: nat, error: int) {
    && (forall k :: 1 <= k < calls ==> answer(k) >= 0)
    && error == if calls > 0 && answer(calls) < 0 then answer(calls) else 0
  }

  class Writer {
    /** The backend takes vectors; the memory callers hand over; what the backend
        answers to its k-th call: an error, or not negative for everything written. */
    const vectored: bool
    const ext: map<nat, seq<Byte>>
    const answer: nat -> int
    const buf: array<Byte>
    var index: nat
    var iov: seq<Iov>
    var pos: nat
    var error: int
    var calls: nat
    /** What the backend has got, and what callers have put. */
    var sent: seq<Byte>
    ghost var put: seq<Byte>

    ghost function Pending(): seq<Byte>
      reads this, buf
    {
      if vectored then Gather(iov, buf[..], ext) else if index <= buf.Length then buf[..index] else []
    }

    ghost predicate Valid()
      reads this, buf
    {
      && buf.Length == IO_BUF_SIZE && index < IO_BUF_SIZE && |iov| < MAX_IOV_SIZE && AllOk(iov, index, IO_BUF_SIZE, ext)
      && (!vectored ==> iov == []) && sent <= put && pos == |sent| && error <= 0 && Answered(answer, calls, error)
      && (if error == 0 then sent + Pending() == put else Pending() == [] && iov == [] && (!vectored ==> index == 0))
    }

    constructor (vectored: bool, ext: map<nat, seq<Byte>>, answer: nat -> int)
      ensures Valid() && fresh(buf) && put == [] && error == 0 && calls == 0
      ensures this.vectored == vectored && this.ext == ext && this.answer == answer
    {
      this.vectored, this.ext, this.answer := vectored, ext, answer;
      buf := new Byte[IO_BUF_SIZE](_ => 0);
      index, iov, pos, error, calls, sent, put := 0, [], 0, 0, 0, [], [];
    }

    /** What flushing leaves: everything sent, or an error and the rest lost. */
    method Flush()
      requires buf.Length == IO_BUF_SIZE && index <= IO_BUF_SIZE && |iov| <= MAX_IOV_SIZE
               && AllOk(iov, IO_BUF_SIZE, IO_BUF_SIZE, ext)
      requires pos == |sent| && error <= 0 && Answered(answer, calls, error)
      requires error != 0 ==> if vectored then iov == [] else index == 0
      modifies this`index, this`iov, this`pos, this`error, this`calls, this`sent
      ensures Answered(answer, calls, error)
      ensures calls == old(calls) + if old(if vectored then iov == [] else index == 0) then 0 else 1
      ensures index == 0 && iov == [] && pos == |sent| && error <= 0 && (old(error) != 0 ==> error == old(error))
      ensures sent == old(sent) || sent == old(sent + Pending())
      ensures error == 0 ==> sent == old(sent + Pending())
    {
      var ret := 0;
      if vectored {
        if |iov| > 0 {
          ret := Writev();
        } else {
          assert Pending() == [];
        }
      } else if index > 0 {
        ret := PutOut();
      }
      assert ret >= 0 ==> sent == old(sent + Pending());
      if ret >= 0 { pos := pos + ret; }
      index, iov := 0, [];
      if ret < 0 && error == 0 { error := ret; }
    }

    /** The backend's writev_buffer. */
    method Writev() returns (ret: int)
      requires vectored && buf.Length == IO_BUF_SIZE && AllOk(iov, IO_BUF_SIZE, IO_BUF_SIZE, ext)
      modifies this`calls, this`sent
      ensures if ret < 0 then sent == old(sent) else sent == old(sent + Pending()) && ret == |sent| - |old(sent)|
      ensures calls == old(calls) + 1 && if answer(calls) < 0 then ret == answer(calls) else ret >= 0
    {
      calls := calls + 1;
      if answer(calls) < 0 { return answer(calls); }
      var before, i := sent, 0;
      NoneOk(ext, 0);
      hide AllOk, Gather, Piece;
      while i < |iov|
        invariant i <= |iov| && sent == before + Gather(iov[..i], buf[..], ext)
        modifies this`sent
      {
        var v := iov[i];
        OkAt(iov, i, IO_BUF_SIZE, ext);
        var piece := if v.base.Own? then buf[v.base.at..v.base.at + v.len]
                     else ext[v.base.id][v.base.at..v.base.at + v.len];
        PieceIs(v, buf[..], ext, piece);
        GatherNext(before, iov, i, buf[..], ext);
        sent := sent + piece;
        i := i + 1;
      }
      assert iov[..i] == iov;
      ret := |sent| - |before|;
    }

    /** The backend's put_buffer. */
    method PutOut() returns (ret: int)
      requires !vectored && index <= buf.Length
      modifies this`calls, this`sent
      ensures if ret < 0 then sent == old(sent) else sent == old(sent + Pending()) && ret == |sent| - |old(sent)|
      ensures calls == old(calls) + 1 && if answer(calls) < 0 then ret == answer(calls) else ret >= 0
    {
      calls := calls + 1;
      if answer(calls) < 0 { return answer(calls); }
      sent := sent + buf[..index];
      ret := index;
    }

    /** add_to_iovec: one more piece, in the buffer from index on or a caller's; the
        flush when the vector is full leaves index at zero. */
    method AddToIovec(base: Base, size: nat)
      requires vectored && buf.Length == IO_BUF_SIZE && index <= IO_BUF_SIZE && |iov| < MAX_IOV_SIZE && pos == |sent|
               && error == 0 && Answered(answer, calls, error)
      requires Reach(base, index, size) <= IO_BUF_SIZE
      requires AllOk(iov, index, IO_BUF_SIZE, ext) && (base.Own? ==> base.at == index)
               && PieceOk(Iov(base, size), Reach(base, index, size), IO_BUF_SIZE, ext)
      modifies this`index, this`iov, this`pos, this`error, this`calls, this`sent
      ensures Answered(answer, calls, error) && (|old(iov)| + 1 < MAX_IOV_SIZE ==> calls == old(calls))
      ensures |iov| < MAX_IOV_SIZE && pos == |sent| && error <= 0
              && (index == old(index) || (index == 0 && iov == [])) && (error != 0 ==> iov == [])
      ensures AllOk(iov, Reach(base, index, size), IO_BUF_SIZE, ext)
      ensures var all := old(sent + Pending()) + Piece(Iov(base, size), buf[..], ext);
              (sent == old(sent) || sent == all) && (error == 0 ==> sent + Pending() == all)
    {
      hide AllOk, Gather, PieceOk, Piece;
      ghost var piece := Piece(Iov(base, size), buf[..], ext);
      Joined(iov, base, size, index, buf[..], ext);
      Assoc(sent, Gather(iov, buf[..], ext), piece);
      if |iov| > 0 && base == Plus(iov[|iov| - 1].base, iov[|iov| - 1].len) {
        iov := iov[|iov| - 1 := iov[|iov| - 1].(len := iov[|iov| - 1].len + size)];
      } else {
        iov := iov + [Iov(base, size)];
      }
      assert Pending() == old(Pending()) + piece;
      if |iov| >= MAX_IOV_SIZE {
        AllOkMore(iov, Reach(base, index, size), IO_BUF_SIZE, ext);
        Flush();
        NoneOk(ext, Reach(base, index, size));
      }
    }

    /** The body qemu_put_byte and qemu_put_buffer share: bytes that fit the buffer. */
    method Append(s: seq<Byte>)
      requires Valid() && error == 0 && 0 < |s| <= IO_BUF_SIZE - index
      modifies this, buf
      ensures Valid() && put == old(put) + s
    {
      hide AllOk, Gather, PieceOk;
      var at := index;
      CopyIn(at, s);
      Copied(old(buf[..]), buf[..], at, s, ext, iov);
      NoneOk(ext, at + |s|);
      Assoc(sent, Pending(), s);
      put := put + s;
      if vectored {
        OwnPiece(at, |s|, ext);
        AddToIovec(Own(at), |s|);
      }
      index := index + |s|;
      NoneOk(ext, index);
      assert error == 0 ==> sent + Pending() == put;
      assert error != 0 ==> sent <= put && sent + Pending() == sent;
      if index == IO_BUF_SIZE {
        Flush();
        NoneOk(ext, index);
        assert sent <= put;
        assert Pending() == [];
      }
    }

    method CopyIn(at: nat, s: seq<Byte>)
      requires at + |s| <= buf.Length
      modifies buf
      ensures buf[..at] == old(buf[..at]) && buf[at..at + |s|] == s
    {
      for i := 0 to |s|
        invariant buf[..at] == old(buf[..at]) && buf[at..at + i] == s[..i]
      {
        buf[at + i] := s[i];
        assert s[..i + 1] == s[..i] + [s[i]];
      }
    }

    /** qemu_put_byte. */
    method PutByte(v: Byte)
      requires Valid()
      modifies this, buf
      ensures Valid() && put == old(put) + if old(error) == 0 then [v] else []
      ensures old(error) != 0 ==> error == old(error) && sent == old(sent)
    {
      if error == 0 {
        Append([v]);
      }
    }

    /** qemu_put_buffer: unless an error stops it, all of s. */
    method PutBuffer(s: seq<Byte>)
      requires Valid()
      modifies this, buf
      ensures Valid() && old(put) <= put <= old(put) + s
      ensures error == 0 ==> put == old(put) + s
      ensures old(error) != 0 ==> error == old(error) && sent == old(sent) && put == old(put)
    {
      hide AllOk, Gather, Pending;
      if error != 0 { return; }
      var done := 0;
      while done < |s|
        invariant done <= |s| && Valid() && put == old(put) + s[..done] && error == 0
      {
        var l := IO_BUF_SIZE - index;
        if l > |s| - done { l := |s| - done; }
        Append(s[done..done + l]);
        Assoc(old(put), s[..done], s[done..done + l]);
        assert s[..done + l] == s[..done] + s[done..done + l];
        done := done + l;
        if error != 0 { break; }
      }
      assert error == 0 ==> s[..done] == s;
    }

    /** qemu_put_buffer_async, for memory that stays as it is until the next flush. */
    method PutBufferAsync(id: nat, at: nat, size: nat)
      requires Valid() && id in ext && at + size <= |ext[id]|
      modifies this, buf
      ensures Valid() && old(put) <= put <= old(put) + ext[id][at..at + size]
      ensures error == 0 ==> put == old(put) + ext[id][at..at + size]
      ensures old(error) != 0 ==> error == old(error) && sent == old(sent) && put == old(put)
    {
      if !vectored {
        PutBuffer(ext[id][at..at + size]);
        return;
      }
      if error != 0 { return; }
      hide AllOk, Gather;
      put := put + ext[id][at..at + size];
      AddToIovec(Ext(id, at), size);
      NoneOk(ext, index);
    }

    /** qemu_put_be16, be32 and be64, for width 2, 4 and 8. */
    method PutBe(v: nat, width: nat)
      requires Valid()
      modifies this, buf
      ensures Valid() && old(put) <= put <= old(put) + BigEndian(v, width)
      ensures error == 0 ==> put == old(put) + BigEndian(v, width)
      ensures old(error) != 0 ==> error == old(error)
    {
      hide Valid, BigEndian;
      var s, i := BigEndian(v, width), 0;
      while i < width
        invariant i <= width && Valid() && old(put) <= put <= old(put) + s[..i]
                  && (error == 0 ==> put == old(put) + s[..i])
        invariant old(error) != 0 ==> error == old(error)
      {
        PutByte(s[i]);
        assert s[..i + 1] == s[..i] + [s[i]];
        Assoc(old(put), s[..i], [s[i]]);
        i := i + 1;
      }
      assert s[..i] == s;
    }

    /** qemu_fflush between operations: without an error the backend has it all. */
    method Sync()
      requires Valid()
      modifies this
      ensures Valid() && put == old(put) && (error == 0 ==> sent == put) && (old(error) != 0 ==> error == old(error))
    {
      AllOkMore(iov, index, IO_BUF_SIZE, ext);
      Flush();
      NoneOk(ext, index);
    }
  }

  /** How far pieces may reach after one more. */
  function Reach(base: Base, index: nat, size: nat): nat { if base.Own? then index + size else index }

  lemma NoneOk(ext: map<nat, seq<Byte>>, index: nat)
    ensures AllOk([], index, IO_BUF_SIZE, ext) && forall buf: seq<Byte> :: Gather([], buf, ext) == []
  {
  }

  /** The vector with one more piece, joined to the last one when they touch. */
  lemma Joined(iov: seq<Iov>, base: Base, size: nat, index: nat, buf: seq<Byte>, ext: map<nat, seq<Byte>>)
    requires |buf| == IO_BUF_SIZE && AllOk(iov, index, IO_BUF_SIZE, ext)
             && PieceOk(Iov(base, size), Reach(base, index, size), IO_BUF_SIZE, ext)
    requires index <= IO_BUF_SIZE
    ensures var n := |iov| - 1;
            var iov' := if n >= 0 && base == Plus(iov[n].base, iov[n].len)
                then iov[n := iov[n].(len := iov[n].len + size)] else iov + [Iov(base, size)];
            && AllOk(iov', Reach(base, index, size), IO_BUF_SIZE, ext)
            && Gather(iov', buf, ext) == Gather(iov, buf, ext) + Piece(Iov(base, size), buf, ext)
  {
    var bound := if Reach(base, index, size) <= IO_BUF_SIZE then Reach(base, index, size) else IO_BUF_SIZE;
    AllOkMore(iov, index, bound, ext);
    hide Gather;
    if iov != [] && base == Plus(iov[|iov| - 1].base, iov[|iov| - 1].len) {
      GatherJoin(iov, size, bound, buf, ext);
    } else {
      GatherMore(iov, Iov(base, size), buf, ext);
    }
  }

  lemma AllOkMore(iov: seq<Iov>, index: nat, index': nat, ext: map<nat, seq<Byte>>)
    requires AllOk(iov, index, IO_BUF_SIZE, ext) && index <= index' <= IO_BUF_SIZE
    ensures AllOk(iov, index', IO_BUF_SIZE, ext)
  {
  }

  lemma OwnPiece(at: nat, size: nat, ext: map<nat, seq<Byte>>)
    requires at + size <= IO_BUF_SIZE
    ensures PieceOk(Iov(Own(at), size), at + size, IO_BUF_SIZE, ext)
  {
  }

  /** What copying s behind index does to what is pending. */
  lemma Copied(buf: seq<Byte>, buf': seq<Byte>, at: nat, s: seq<Byte>, ext: map<nat, seq<Byte>>, iov: seq<Iov>)
    requires |buf| == |buf'| == IO_BUF_SIZE && at + |s| <= IO_BUF_SIZE && buf'[..at] == buf[..at]
             && buf'[at..at + |s|] == s && AllOk(iov, at, IO_BUF_SIZE, ext)
    ensures Gather(iov, buf', ext) == Gather(iov, buf, ext) && Piece(Iov(Own(at), |s|), buf', ext) == s
    ensures buf'[..at + |s|] == buf[..at] + s
  {
    GatherFrame(iov, at, buf, buf', ext);
  }

  // ------------------------------------------------------------ reading

  /** What the backend supplied, behind what was pending, continues the stream. */
  lemma Refilled(buf: seq<Byte>, pending: nat, len: nat, before: seq<Byte>, after: seq<Byte>)
    requires pending + len <= |buf| && len <= |before| && buf[pending..pending + len] == before[..len]
             && after == before[len..]
    ensures buf[0..pending + len] + after == buf[..pending] + before
  {
    assert before == before[..len] + after;
    assert buf[0..pending + len] == buf[..pending] + buf[pending..pending + len];
  }

  class Reader {
    /** How many bytes the backend would like to return on its k-th call. */
    const pace: nat -> nat
    const buf: array<Byte>
    var index: nat
    var size: nat
    var pos: nat
    var error: int
    var calls: nat
    /** What the backend has not returned yet. */
    var stream: seq<Byte>

    ghost predicate Valid()
      reads this, buf
    {
      buf.Length == IO_BUF_SIZE && index <= size <= IO_BUF_SIZE
    }

    /** Everything still to be read. */
    ghost function Rest(): seq<Byte>
      requires Valid()
      reads this, buf
    {
      buf[index..size] + stream
    }

    constructor (stream: seq<Byte>, pace: nat -> nat)
      ensures Valid() && fresh(buf) && Rest() == stream && error == 0 && pos == 0 && this.pace == pace
    {
      this.pace, this.stream := pace, stream;
      buf := new Byte[IO_BUF_SIZE](_ => 0);
      index, size, pos, error, calls := 0, 0, 0, 0, 0;
    }

    /** The backend's get_buffer: at least a byte while there are any, at most n. */
    method Supply(n: nat) returns (len: nat)
      requires buf.Length == IO_BUF_SIZE && n <= IO_BUF_SIZE
      modifies this`calls, this`stream, buf
      ensures len == Min(n, |old(stream)|) || 0 < len == pace(calls) < Min(n, |old(stream)|)
      ensures calls == old(calls) + 1
      ensures len <= n && len <= |old(stream)| && (len == 0 <==> n == 0 || old(stream) == [])
              && stream == old(stream)[len..]
      ensures buf[..IO_BUF_SIZE - n] == old(buf[..IO_BUF_SIZE - n])
              && buf[IO_BUF_SIZE - n..IO_BUF_SIZE - n + len] == old(stream)[..len]
    {
      calls := calls + 1;
      len := Min(n, |stream|);
      if 0 < pace(calls) < len { len := pace(calls); }
      var at := IO_BUF_SIZE - n;
      for i := 0 to len
        invariant buf[..at] == old(buf[..at]) && buf[at..at + i] == stream[..i]
        modifies buf
      {
        buf[at + i] := stream[i];
      }
      stream := stream[len..];
    }

    /** qemu_fill_buffer: what is pending moves to the front, more is read behind it. */
    method FillBuffer()
      requires Valid()
      modifies this, buf
      ensures Valid() && Rest() == old(Rest()) && index == 0
      ensures size == old(size - index) + |old(stream)| - |stream| && |stream| <= |old(stream)|
      ensures old(stream) != [] && old(size - index) < IO_BUF_SIZE ==> size > old(size - index) && error == old(error)
      ensures old(stream) == [] ==> error == if old(error) == 0 then -5 else old(error)
      ensures pos == old(pos) + |old(stream)| - |stream|
    {
      var pending := size - index;
      MoveDown(pending);
      assert buf[..pending] == old(buf[index..size]);
      index, size := 0, pending;
      var len := Supply(IO_BUF_SIZE - pending);
      Refilled(buf[..], pending, len, old(stream), stream);
      if len > 0 {
        size := size + len;
        pos := pos + len;
      } else if error == 0 {
        error := -EIO;
      }
    }

    method MoveDown(n: nat)
      requires Valid() && index + n <= size
      modifies buf
      ensures buf[..n] == old(buf[index..index + n])
    {
      for i := 0 to n
        invariant forall k :: 0 <= k < i ==> buf[k] == old(buf[index + k])
        invariant forall k :: i <= k < IO_BUF_SIZE ==> buf[k] == old(buf[k])
      {
        buf[i] := buf[index + i];
      }
    }

    /** qemu_peek_buffer at offset 0, and the skip over what it returned. */
    method ReadSome(n: nat) returns (s: seq<Byte>)
      requires Valid() && n > 0
      modifies this, buf
      ensures Valid() && old(Rest()) == s + Rest() && |s| <= n
      ensures s == [] <==> old(Rest()) == []
      ensures n <= IO_BUF_SIZE && |old(Rest())| >= n ==> error == old(error)
    {
      var pending := size - index;
      if pending < n {
        FillBuffer();
        pending := size - index;
      }
      var len := Min(n, pending);
      s := buf[index..index + len];
      assert buf[index..size] == s + buf[index + len..size];
      Assoc(s, buf[index + len..size], stream);
      index := index + len;
    }

    /** qemu_get_buffer: the next n bytes, or what there is, for any pace of the backend;
        no error as long as n fits the buffer and there is enough. */
    method GetBuffer(n: nat) returns (s: seq<Byte>)
      requires Valid()
      modifies this, buf
      ensures Valid() && old(Rest()) == s + Rest() && |s| == Min(n, |old(Rest())|)
      ensures n <= IO_BUF_SIZE && |old(Rest())| >= n ==> error == old(error)
    {
      s := [];
      while |s| < n
        invariant Valid() && old(Rest()) == s + Rest() && |s| <= n
        invariant n <= IO_BUF_SIZE && |old(Rest())| >= n ==> error == old(error)
        decreases n - |s|
      {
        var t := ReadSome(n - |s|);
        if t == [] { return; }
        Assoc(s, t, Rest());
        s := s + t;
      }
    }

    /** qemu_get_byte: zero past the end. */
    method GetByte() returns (b: Byte)
      requires Valid()
      modifies this, buf
      ensures Valid()
      ensures if old(Rest()) == [] then b == 0 && Rest() == [] else old(Rest()) == [b] + Rest() && error == old(error)
    {
      if index >= size {
        FillBuffer();
        if index >= size { return 0; }
      }
      b := buf[index];
      assert buf[index..size] == [b] + buf[index + 1..size];
      Assoc([b], buf[index + 1..size], stream);
      index := index + 1;
    }

    /** qemu_get_be16, be32 and be64, for width 2, 4 and 8. */
    method GetBe(width: nat) returns (v: nat)
      requires Valid()
      modifies this, buf
      ensures Valid()
      ensures |old(Rest())| >= width ==>
                v == Value(old(Rest())[..width]) && Rest() == old(Rest())[width..] && error == old(error)
    {
      v := 0;
      ghost var all := Rest();
      assert all[..0] == [] && all[0..] == all;
      for i := 0 to width
        invariant Valid() && (|all| >= width ==> v == Value(all[..i]) && Rest() == all[i..] && error == old(error))
      {
        hide Reader.Rest, Value;
        var b := GetByte();
        if |all| >= width { BeStep(all, i, b, Rest()); }
        v := 256 * v + b;
      }
    }
  }

  lemma BeStep(all: seq<Byte>, i: nat, b: Byte, rest: seq<Byte>)
    requires i < |all| && all[i..] == [b] + rest
    ensures rest == all[i + 1..] && Value(all[..i + 1]) == 256 * Value(all[..i]) + b
  {
    assert all[i] == all[i..][0] && all[i + 1..] == all[i..][1..];
    var s := all[..i + 1];
    assert s[..|s| - 1] == all[..i];
  }

  /** What was put as an integer is read back as that integer, whatever follows. */
  lemma IntegerBack(v: nat, width: nat, rest: seq<Byte>)
    requires v < Pow256(width)
    ensures Value((BigEndian(v, width) + rest)[..width]) == v && (BigEndian(v, width) + rest)[width..] == rest
  {
    ValueBigEndian(v, width);
    assert (BigEndian(v, width) + rest)[..width] == BigEndian(v, width);
  }

  // ------------------------------------------------------------ there and back

  datatype Item = Int(v: nat, width: nat) | Buf(bytes: seq<Byte>)

  ghost function Encode(item: Item): seq<Byte> { if item.Int? then BigEndian(item.v, item.width) else item.bytes }

  ghost function EncodeAll(items: seq<Item>): seq<Byte> {
    if items == [] then [] else Encode(items[0]) + EncodeAll(items[1..])
  }

  lemma {:induction false} EncodeCat(items: seq<Item>, item: Item)
    ensures EncodeAll(items + [item]) == EncodeAll(items) + Encode(item)
  {
    if items == [] {
      assert [item][1..] == [] && Encode(item) + [] == Encode(item);
    } else {
      assert (items + [item])[1..] == items[1..] + [item];
      EncodeCat(items[1..], item);
      Assoc(Encode(items[0]), EncodeAll(items[1..]), Encode(item));
    }
  }

  method WriteAll(w: Writer, items: seq<Item>)
    requires w.Valid() && w.put == [] && w.error == 0
    modifies w, w.buf
    ensures w.Valid() && (w.error == 0 ==> w.sent == w.put == EncodeAll(items))
  {
    hide Writer.Valid;
    for k := 0 to |items|
      invariant w.Valid() && (w.error == 0 ==> w.put == EncodeAll(items[..k]))
    {
      EncodeCat(items[..k], items[k]);
      assert items[..k + 1] == items[..k] + [items[k]];
      match items[k]
      case Int(v, width) => w.PutBe(v, width);
      case Buf(bytes) => w.PutBuffer(bytes);
    }
    assert items[..|items|] == items;
    w.Sync();
  }

  /** Reading the same items off a stream that begins with them. */
  method ReadAll(r: Reader, items: seq<Item>, ghost tail: seq<Byte>) returns (back: seq<Item>)
    requires r.Valid() && r.Rest() == EncodeAll(items) + tail
    requires forall k :: 0 <= k < |items| && items[k].Int? ==> items[k].v < Pow256(items[k].width)
    modifies r, r.buf
    ensures r.Valid() && r.Rest() == tail && back == items
    ensures (forall k :: 0 <= k < |items| && items[k].Buf? ==> |items[k].bytes| <= IO_BUF_SIZE) ==>
              r.error == old(r.error)
  {
    hide Reader.Rest, Reader.Valid, Value, BigEndian, Pow256;
    back := [];
    assert items[..0] == [] && items[0..] == items;
    for k := 0 to |items|
      invariant r.Valid() && back == items[..k] && r.Rest() == EncodeAll(items[k..]) + tail
      invariant (forall i :: 0 <= i < k && items[i].Buf? ==> |items[i].bytes| <= IO_BUF_SIZE) ==>
                  r.error == old(r.error)
    {
      ghost var rest := EncodeAll(items[k + 1..]) + tail;
      assert items[k..][1..] == items[k + 1..];
      Assoc(Encode(items[k]), EncodeAll(items[k + 1..]), tail);
      match items[k] {
        case Int(v, width) =>
          IntegerBack(v, width, rest);
          var u := r.GetBe(width);
          back := back + [Int(u, width)];
        case Buf(bytes) =>
          var s := r.GetBuffer(|bytes|);
          SameFront(bytes, rest, s, r.Rest());
          back := back + [Buf(s)];
      }
    }
  }

  lemma SameFront(a: seq<Byte>, b: seq<Byte>, c: seq<Byte>, d: seq<Byte>)
    requires a + b == c + d && |a| == |c|
    ensures a == c && b == d
  {
    assert (a + b)[..|a|] == a && (c + d)[..|a|] == c && (a + b)[|a|..] == b && (c + d)[|a|..] == d;
  }
}
