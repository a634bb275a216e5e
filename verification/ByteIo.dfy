/** Byte-granular access on a device of sectors (block.c, bdrv_pread and bdrv_pwrite). */
module ByteIo {
  import opened Bytes

  const SECTOR := 512

  /** d with s written over it from offset on. */
  ghost function Overlay(d: seq<Byte>, offset: nat, s: seq<Byte>): (r: seq<Byte>)
    requires offset + |s| <= |d|
    ensures |r| == |d|
  {
    d[..offset] + s + d[offset + |s|..]
  }

  /** Writing a string in two pieces. */
  lemma OverlayCat(d: seq<Byte>, offset: nat, s: seq<Byte>, t: seq<Byte>)
    requires offset + |s| + |t| <= |d|
    ensures Overlay(Overlay(d, offset, s), offset + |s|, t) == Overlay(d, offset, s + t)
  {
  }

  /** Two states differ inside a range only. */
  ghost predicate SameOutside(d: seq<Byte>, e: seq<Byte>, from: nat, to: nat) {
    |d| == |e| && forall i :: 0 <= i < |d| && !(from <= i < to) ==> d[i] == e[i]
  }

  /** Sectors of a device of this size that can be transferred. */
  predicate Reachable(size: nat, bad: set<nat>, sector: nat, n: nat) {
    (sector + n) * SECTOR <= size && forall i :: sector <= i < sector + n ==> i !in bad
  }

  /** Every sector the bytes lie in can be transferred. */
  ghost predicate Accessible(size: nat, bad: set<nat>, offset: nat, count: nat) {
    count > 0 ==> Reachable(size, bad, offset / SECTOR, (offset + count - 1) / SECTOR + 1 - offset / SECTOR)
  }

  /** Every byte lies on the device, in a sector that can be transferred. */
  ghost predicate InReach(size: nat, bad: set<nat>, offset: nat, count: nat) {
    forall x :: offset <= x < offset + count ==> ByteReachable(size, bad, x)
  }

  ghost predicate ByteReachable(size: nat, bad: set<nat>, x: nat) { x < size && x / SECTOR !in bad }

  lemma AccessibleMeans(size: nat, bad: set<nat>, offset: nat, count: nat)
    requires size % SECTOR == 0
    ensures Accessible(size, bad, offset, count) <==> InReach(size, bad, offset, count)
  {
    if count > 0 {
      var first, last := offset / SECTOR, (offset + count - 1) / SECTOR;
      if Accessible(size, bad, offset, count) {
        forall x | offset <= x < offset + count
          ensures ByteReachable(size, bad, x)
        {
          Between(offset, x, offset + count - 1);
        }
      }
      if InReach(size, bad, offset, count) {
        forall i | first <= i < last + 1
          ensures i !in bad
        {
          var x := if i == first then offset else i * SECTOR;
          InSector(offset, count, i);
          assert ByteReachable(size, bad, x);
        }
        assert ByteReachable(size, bad, offset + count - 1);
        WholeSectors(size, offset + count - 1);
      }
    }
  }

  lemma Between(a: nat, x: nat, b: nat)
    requires a <= x <= b
    ensures a / SECTOR <= x / SECTOR <= b / SECTOR && x < (b / SECTOR + 1) * SECTOR
  {
  }

  lemma InSector(offset: nat, count: nat, i: nat)
    requires count > 0 && offset / SECTOR <= i <= (offset + count - 1) / SECTOR
    ensures i == offset / SECTOR || (offset <= i * SECTOR < offset + count && i * SECTOR / SECTOR == i)
  {
  }

  lemma WholeSectors(size: nat, x: nat)
    requires size % SECTOR == 0 && x < size
    ensures (x / SECTOR + 1) * SECTOR <= size
  {
  }

  lemma AccessSplit(size: nat, bad: set<nat>, offset: nat, len: nat, count: nat)
    requires offset % SECTOR > 0 && offset % SECTOR + len <= SECTOR && 0 < len < count && (offset + len) % SECTOR == 0
    ensures Accessible(size, bad, offset, count) <==>
              Reachable(size, bad, offset / SECTOR, 1) && Accessible(size, bad, offset + len, count - len)
    ensures (offset + len) / SECTOR == offset / SECTOR + 1
  {
    Joined(size, bad, offset / SECTOR, 1, (offset + count - 1) / SECTOR - offset / SECTOR);
  }

  lemma AccessOne(size: nat, bad: set<nat>, offset: nat, count: nat)
    requires 0 < count && offset % SECTOR + count <= SECTOR
    ensures Accessible(size, bad, offset, count) <==> Reachable(size, bad, offset / SECTOR, 1)
  {
    assert (offset + count - 1) / SECTOR == offset / SECTOR;
  }

  /** From a sector boundary on: whole sectors, and a part of one more. */
  lemma AccessAligned(size: nat, bad: set<nat>, sector: nat, count: nat)
    ensures count >= SECTOR ==>
              (Accessible(size, bad, sector * SECTOR, count) <==>
                Reachable(size, bad, sector, count / SECTOR)
                && Accessible(size, bad, (sector + count / SECTOR) * SECTOR, count % SECTOR))
    ensures count > 0 ==> sector * SECTOR / SECTOR == sector
  {
    var n, m := count / SECTOR, count % SECTOR;
    if n > 0 {
      var last := (sector * SECTOR + count - 1) / SECTOR;
      assert last + 1 - sector == if m == 0 then n else n + 1;
      if m > 0 { Joined(size, bad, sector, n, 1); }
    }
  }

  lemma Joined(size: nat, bad: set<nat>, sector: nat, n: nat, m: nat)
    requires n > 0 && m > 0
    ensures Reachable(size, bad, sector, n + m) <==>
              Reachable(size, bad, sector, n) && Reachable(size, bad, sector + n, m)
  {
  }

  class Device {
    var data: seq<Byte>
    /** Sectors whose transfers fail. */
    const bad: set<nat>

    ghost predicate Valid()
      reads this
    {
      |data| % SECTOR == 0
    }

    constructor (data: seq<Byte>, bad: set<nat>)
      requires |data| % SECTOR == 0
      ensures Valid() && this.data == data && this.bad == bad
    {
      this.data, this.bad := data, bad;
    }

    /** bdrv_read. */
    method Read(sector: nat, n: nat) returns (ret: int, buf: seq<Byte>)
      requires Valid()
      ensures if Reachable(|data|, bad, sector, n) then ret == 0
              && buf == data[sector * SECTOR..(sector + n) * SECTOR] else ret < 0
    {
      if Reachable(|data|, bad, sector, n) {
        return 0, data[sector * SECTOR..(sector + n) * SECTOR];
      }
      return -5, [];
    }

    /** bdrv_write. */
    method Write(sector: nat, buf: seq<Byte>, n: nat) returns (ret: int)
      requires Valid() && |buf| == n * SECTOR
      modifies this
      ensures Valid()
      ensures if Reachable(|old(data)|, bad, sector, n) then ret == 0
              && data == Overlay(old(data), sector * SECTOR, buf) else ret < 0 && data == old(data)
    {
      if Reachable(|data|, bad, sector, n) {
        data := data[..sector * SECTOR] + buf + data[(sector + n) * SECTOR..];
        return 0;
      }
      return -5;
    }

    /** bdrv_pread. */
    method Pread(offset: nat, count1: nat) returns (ret: int, buf: seq<Byte>)
      requires Valid()
      ensures ret >= 0 <==> InReach(|data|, bad, offset, count1)
      ensures ret >= 0 ==> ret == count1 == |buf| && (count1 > 0 ==> Holds(data, offset, buf))
    {
      AccessibleMeans(|data|, bad, offset, count1);
      hide Holds, InReach, Accessible, FirstLen;
      var count, tmp := count1, [];
      buf := [];
      var len := FirstLen(offset, count);
      var sector := offset / SECTOR;
      if len > 0 {
        ret, tmp := Read(sector, 1);
        if len == count {
          AccessOne(|data|, bad, offset, count);
        } else {
          AccessSplit(|data|, bad, offset, len, count);
        }
        if ret < 0 { return; }
        buf := tmp[offset % SECTOR..offset % SECTOR + len];
        HoldsPart(data, sector, offset % SECTOR, len);
        count := count - len;
        if count == 0 { return count1, buf; }
        sector := sector + 1;
      }
      ret, tmp := ReadOn(sector, count);
      if ret < 0 { return; }
      if count > 0 { HoldsMore(data, offset, buf, tmp); }
      return count1, buf + tmp;
    }

    /** The whole sectors and the rest. */
    method ReadOn(sector1: nat, count1: nat) returns (ret: int, buf: seq<Byte>)
      requires Valid()
      ensures ret >= 0 <==> Accessible(|data|, bad, sector1 * SECTOR, count1)
      ensures ret >= 0 ==> ret == count1 == |buf| && (count1 > 0 ==> Holds(data, sector1 * SECTOR, buf))
    {
      hide Holds;
      var sector, count, tmp := sector1, count1, [];
      buf := [];
      AccessAligned(|data|, bad, sector, count);
      var n := count / SECTOR;
      if n > 0 {
        ret, tmp := Read(sector, n);
        if ret < 0 { return; }
        HoldsWhole(data, sector, n);
        buf := tmp;
        sector := sector + n;
        count := count - n * SECTOR;
      }
      if count > 0 {
        ret, tmp := ReadTail(sector, count);
        if ret < 0 { return; }
        HoldsMore(data, sector1 * SECTOR, buf, tmp);
        buf := buf + tmp;
      }
      return count1, buf;
    }

    /** The first bytes of one sector. */
    method ReadTail(sector: nat, count: nat) returns (ret: int, buf: seq<Byte>)
      requires Valid() && 0 < count < SECTOR
      ensures ret >= 0 <==> Accessible(|data|, bad, sector * SECTOR, count)
      ensures ret >= 0 ==> |buf| == count && Holds(data, sector * SECTOR, buf)
    {
      AccessOne(|data|, bad, sector * SECTOR, count);
      ret, buf := Read(sector, 1);
      if ret >= 0 {
        HoldsPart(data, sector, 0, count);
        buf := buf[..count];
      }
    }

    /** Bytes within one sector: it is read, changed and written back. */
    method Patch(sector: nat, from: nat, s: seq<Byte>) returns (ret: int)
      requires Valid() && from + |s| <= SECTOR
      modifies this
      ensures Valid() && |data| == |old(data)| && (ret >= 0 <==> Reachable(|old(data)|, bad, sector, 1))
      ensures if ret >= 0 then Written(old(data), data, sector * SECTOR + from, s) else data == old(data)
    {
      hide Overlay;
      var tmp;
      ret, tmp := Read(sector, 1);
      if ret < 0 { return; }
      Patched(data, sector, from, tmp, s);
      ret := Write(sector, tmp[..from] + s + tmp[from + |s|..], 1);
      WrittenBy(old(data), data, sector * SECTOR + from, s);
    }

    /** The bytes before the first sector boundary. */
    method WriteFirst(offset: nat, s: seq<Byte>) returns (ret: int)
      requires Valid() && offset % SECTOR + |s| <= SECTOR
      modifies this
      ensures Valid() && |data| == |old(data)| && (ret >= 0 <==> Reachable(|old(data)|, bad, offset / SECTOR, 1))
      ensures if ret >= 0 then Written(old(data), data, offset, s) else data == old(data)
    {
      hide Written, Reachable;
      ret := Patch(offset / SECTOR, offset % SECTOR, s);
    }

    /** bdrv_pwrite. */
    method Pwrite(offset: nat, buf1: seq<Byte>) returns (ret: int)
      requires Valid()
      modifies this
      ensures Valid() && |data| == |old(data)|
      ensures ret >= 0 <==> InReach(|old(data)|, bad, offset, |buf1|)
      ensures ret >= 0 ==> ret == |buf1| && Written(old(data), data, offset, buf1)
      ensures ret < 0 ==> SameOutside(old(data), data, offset, offset + |buf1|)
    {
      AccessibleMeans(|data|, bad, offset, |buf1|);
      hide Overlay, InReach, Accessible, Written, SameOutside, Reachable, FirstLen;
      SameAnyway(data, offset, offset + |buf1|);
      var buf := buf1;
      var len := FirstLen(offset, |buf|);
      if len > 0 {
        if len == |buf| {
          AccessOne(|data|, bad, offset, |buf|);
        } else {
          AccessSplit(|data|, bad, offset, len, |buf|);
        }
        ret := WriteFirst(offset, buf[..len]);
        if ret < 0 { return; }
        if len == |buf| {
          assert buf[..len] == buf;
          return |buf1|;
        }
        buf := buf[len..];
      }
      ghost var mid := data;
      ret := WriteRest(offset + len, buf);
      if len > 0 { Both(old(data), mid, data, offset, buf1, len); }
      if ret >= 0 { ret := |buf1|; }
    }

    /** The bytes from a sector boundary on, if there are any. */
    method WriteRest(offset: nat, buf: seq<Byte>) returns (ret: int)
      requires Valid() && (buf == [] || offset % SECTOR == 0)
      modifies this
      ensures Valid() && |data| == |old(data)|
      ensures ret >= 0 <==> Accessible(|old(data)|, bad, offset, |buf|)
      ensures ret >= 0 ==> Written(old(data), data, offset, buf)
      ensures ret < 0 ==> SameOutside(old(data), data, offset, offset + |buf|)
    {
      hide Overlay;
      ret := WriteOn(offset / SECTOR, buf);
    }

    /** The whole sectors and the rest. */
    method WriteOn(sector1: nat, buf1: seq<Byte>) returns (ret: int)
      requires Valid()
      modifies this
      ensures Valid() && |data| == |old(data)|
      ensures ret >= 0 <==> Accessible(|old(data)|, bad, sector1 * SECTOR, |buf1|)
      ensures ret >= 0 ==> Written(old(data), data, sector1 * SECTOR, buf1)
      ensures ret < 0 ==> SameOutside(old(data), data, sector1 * SECTOR, sector1 * SECTOR + |buf1|)
    {
      hide Overlay;
      var sector, buf := sector1, buf1;
      AccessAligned(|data|, bad, sector, |buf|);
      var n := |buf| / SECTOR;
      ret := 0;
      if n > 0 {
        ret := Write(sector, buf[..n * SECTOR], n);
        if ret < 0 { return; }
        sector := sector + n;
        buf := buf[n * SECTOR..];
      }
      ghost var mid := data;
      if |buf| > 0 {
        ret := WriteTail(sector, buf);
      }
      if n > 0 {
        Both(old(data), mid, data, sector1 * SECTOR, buf1, n * SECTOR);
      }
    }

    /** The first bytes of one sector. */
    method WriteTail(sector: nat, buf: seq<Byte>) returns (ret: int)
      requires Valid() && 0 < |buf| < SECTOR
      modifies this
      ensures Valid() && |data| == |old(data)|
      ensures ret >= 0 <==> Accessible(|old(data)|, bad, sector * SECTOR, |buf|)
      ensures ret >= 0 ==> Written(old(data), data, sector * SECTOR, buf)
      ensures ret < 0 ==> data == old(data)
    {
      AccessOne(|data|, bad, sector * SECTOR, |buf|);
      ret := Patch(sector, 0, buf);
    }
  }

  /** The bytes of buf and no others. */
  ghost predicate Written(d: seq<Byte>, e: seq<Byte>, offset: nat, buf: seq<Byte>) {
    if buf == [] then e == d else offset + |buf| <= |d| && e == Overlay(d, offset, buf)
  }

  lemma SameAnyway(d: seq<Byte>, from: nat, to: nat)
    ensures SameOutside(d, d, from, to)
  {
  }

  lemma WrittenBy(d: seq<Byte>, e: seq<Byte>, offset: nat, s: seq<Byte>)
    requires offset + |s| <= |d| && e == Overlay(d, offset, s)
    ensures Written(d, e, offset, s)
  {
    assert s == [] ==> Overlay(d, offset, s) == d;
  }

  /** Writing back a patched sector patches the device. */
  lemma Patched(d: seq<Byte>, sector: nat, from: nat, tmp: seq<Byte>, s: seq<Byte>)
    requires (sector + 1) * SECTOR <= |d| && tmp == d[sector * SECTOR..(sector + 1) * SECTOR] && from + |s| <= SECTOR
    ensures Overlay(d, sector * SECTOR, tmp[..from] + s + tmp[from + |s|..]) == Overlay(d, sector * SECTOR + from, s)
  {
  }

  /** Two writes in a row, the second perhaps cut short. */
  lemma Both(d0: seq<Byte>, d1: seq<Byte>, d2: seq<Byte>, offset: nat, buf: seq<Byte>, len: nat)
    requires 0 < len <= |buf| && Written(d0, d1, offset, buf[..len]) && |d2| == |d1|
    ensures Written(d1, d2, offset + len, buf[len..]) ==> Written(d0, d2, offset, buf)
    ensures SameOutside(d1, d2, offset + len, offset + |buf|) ==> SameOutside(d0, d2, offset, offset + |buf|)
  {
    hide Overlay, SameOutside;
    var a, b := buf[..len], buf[len..];
    assert buf == a + b;
    assert b == [] ==> a == buf;
    OverlaySame(d0, offset, a);
    if b != [] && Written(d1, d2, offset + len, b) { OverlayCat(d0, offset, a, b); }
    if SameOutside(d1, d2, offset + len, offset + |buf|) {
      SameTwice(d0, d1, d2, offset, offset + len, offset + |buf|);
    }
  }

  lemma OverlaySame(d: seq<Byte>, offset: nat, s: seq<Byte>)
    requires offset + |s| <= |d|
    ensures SameOutside(d, Overlay(d, offset, s), offset, offset + |s|)
  {
  }

  lemma SameTwice(d: seq<Byte>, e: seq<Byte>, f: seq<Byte>, a: nat, b: nat, c: nat)
    requires SameOutside(d, e, a, b) && SameOutside(e, f, b, c) && a <= b <= c
    ensures SameOutside(d, f, a, c)
  {
  }

  /** A read after a write returns what was written, and other bytes as before. */
  lemma ReadAfterWrite(d: seq<Byte>, e: seq<Byte>, offset: nat, buf: seq<Byte>, at: nat, n: nat)
    requires buf != [] && Written(d, e, offset, buf) && at + n <= |d|
    ensures Holds(e, offset, buf)
    ensures at + n <= offset || offset + |buf| <= at ==> e[at..at + n] == d[at..at + n]
  {
    assert e[offset..offset + |buf|] == buf;
  }

  /** buf is what stands in d from offset on. */
  ghost predicate Holds(d: seq<Byte>, offset: nat, buf: seq<Byte>) {
    offset + |buf| <= |d| && d[offset..offset + |buf|] == buf
  }

  lemma HoldsWhole(d: seq<Byte>, sector: nat, n: nat)
    requires (sector + n) * SECTOR <= |d|
    ensures Holds(d, sector * SECTOR, d[sector * SECTOR..(sector + n) * SECTOR])
  {
  }

  lemma HoldsPart(d: seq<Byte>, sector: nat, from: nat, len: nat)
    requires (sector + 1) * SECTOR <= |d| && from + len <= SECTOR
    ensures var tmp := d[sector * SECTOR..(sector + 1) * SECTOR];
            Holds(d, sector * SECTOR + from, tmp[from..from + len])
  {
    SlicePart(d, sector * SECTOR, (sector + 1) * SECTOR, from, len);
  }

  lemma SlicePart(d: seq<Byte>, lo: nat, hi: nat, from: nat, len: nat)
    requires lo + from + len <= hi <= |d|
    ensures d[lo..hi][from..from + len] == d[lo + from..lo + from + len]
  {
    var tmp := d[lo..hi];
    var a, b := tmp[from..from + len], d[lo + from..lo + from + len];
    forall i | 0 <= i < len ensures a[i] == b[i] {
      assert a[i] == tmp[from + i] == d[lo + (from + i)];
    }
  }

  lemma HoldsMore(d: seq<Byte>, offset: nat, a: seq<Byte>, b: seq<Byte>)
    requires (a != [] ==> Holds(d, offset, a)) && Holds(d, offset + |a|, b)
    ensures Holds(d, offset, a + b)
  {
    assert d[offset..offset + |a + b|] == d[offset..offset + |a|] + d[offset + |a|..offset + |a| + |b|];
  }

  /** The bytes up to the next sector boundary. */
  function FirstLen(offset: nat, count: nat): (len: nat)
    ensures len <= count && (len > 0 ==> offset % SECTOR + len <= SECTOR && offset % SECTOR > 0)
    ensures len == count || (offset + len) % SECTOR == 0
    ensures 0 < len < count ==> (offset / SECTOR + 1) * SECTOR == offset + len
    ensures len == 0 < count ==> offset / SECTOR * SECTOR == offset
    ensures offset / SECTOR * SECTOR + offset % SECTOR == offset
  {
    var len := (SECTOR - offset % SECTOR) % SECTOR;
    if len > count then count else len
  }
}
