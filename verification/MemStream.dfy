/** The callbacks of open_memstream: a buffer that grows by doubling, behind the caller's pointer and
    size. Sizes are 32-bit numbers. */
module MemStream {
  import opened Bytes
  import opened Common

  const SIZE_LIMIT: nat := 0x1_0000_0000
  const HALF: nat := 0x8000_0000

  // ---------- The file that the buffer stands for ----------

  datatype File = File(content: seq<Byte>, pos: nat)

  /** Bytes are put at the position; a gap between the end and the position reads as zero. */
  function Written(f: File, data: seq<Byte>): (r: File)
    requires data != []
    ensures r.pos == f.pos + |data|
    ensures |r.content| == if |f.content| > r.pos then |f.content| else r.pos
    ensures r.content[f.pos..r.pos] == data
    ensures forall i :: 0 <= i < |r.content| && !(f.pos <= i < r.pos) ==>
      r.content[i] == if i < |f.content| then f.content[i] else 0
  {
    var size := if |f.content| > f.pos + |data| then |f.content| else f.pos + |data|;
    var padded := f.content + Zeros(size - |f.content|);
    File(padded[..f.pos] + data + padded[f.pos + |data|..], f.pos + |data|)
  }

  const SEEK_SET: int := 0
  const SEEK_CUR: int := 1
  const SEEK_END: int := 2

  /** The place an offset counts from. */
  function Base(f: File, whence: int): Option<nat>
  {
    if whence == SEEK_SET then Some(0)
    else if whence == SEEK_CUR then Some(f.pos)
    else if whence == SEEK_END then Some(|f.content|)
    else None
  }

  // ---------- Capacities ----------

  /** 128 doubled some number of times. */
  predicate IsCap(c: nat)
  {
    c == 128 || (c > 128 && c % 2 == 0 && IsCap(c / 2))
  }

  function Cap(j: nat): nat
  {
    if j == 0 then 128 else 2 * Cap(j - 1)
  }

  lemma CapTwice(c: nat)
    requires IsCap(c)
    ensures IsCap(2 * c) && c >= 128
  {
    assert 2 * c / 2 == c && 2 * c % 2 == 0;
  }

  lemma {:induction false} CapIsCap(j: nat)
    ensures IsCap(Cap(j)) && Cap(j) >= 128
  {
    if j > 0 {
      CapIsCap(j - 1);
      CapTwice(Cap(j - 1));
    }
  }

  lemma HalfIsCap()
    ensures IsCap(HALF)
  {
    CapIsCap(24);
    assert Cap(2) == 0x200 && Cap(4) == 0x800 && Cap(6) == 0x2000;
    assert Cap(8) == 0x8000 && Cap(10) == 0x2_0000 && Cap(12) == 0x8_0000;
    assert Cap(14) == 0x20_0000 && Cap(16) == 0x80_0000 && Cap(18) == 0x200_0000;
    assert Cap(20) == 0x800_0000 && Cap(22) == 0x2000_0000 && Cap(24) == HALF;
  }

  lemma {:induction false} NextCap(c: nat, d: nat)
    requires IsCap(c) && IsCap(d) && c < d
    ensures 2 * c <= d && IsCap(2 * c)
  {
    if c > 128 {
      NextCap(c / 2, d / 2);
    }
  }

  /** newcap after k turns of the loop, in 32 bits. */
  function Doubled(c: nat, k: nat): (r: nat)
    ensures c < SIZE_LIMIT ==> r < SIZE_LIMIT
  {
    if k == 0 then c else Doubled(c, k - 1) * 2 % SIZE_LIMIT
  }

  lemma NextCapacityStep(cap: nat, need: nat)
    requires 0 < cap < need <= HALF
    ensures NextCapacity(cap, need) == NextCapacity(2 * cap, need)
  {
  }

  lemma NextCapacityEnds(cap: nat, need: nat)
    ensures need <= cap ==> NextCapacity(cap, need) == cap
  {
  }

  /** One turn of the loop: on to the next capacity, and from the largest one to zero. */
  lemma DoubleOnce(d: nat)
    requires d == 0 || (IsCap(d) && d <= HALF)
    ensures d * 2 % SIZE_LIMIT == 0 || (IsCap(d * 2 % SIZE_LIMIT) && d * 2 % SIZE_LIMIT <= HALF)
  {
    hide IsCap;
    HalfIsCap();
    if 0 < d < HALF {
      NextCap(d, HALF);
    }
  }

  lemma {:induction false} DoubledStaysCap(c: nat, k: nat)
    requires IsCap(c) && c <= HALF
    ensures Doubled(c, k) == 0 || (IsCap(Doubled(c, k)) && Doubled(c, k) <= HALF)
  {
    hide IsCap;
    if k > 0 {
      DoubledStaysCap(c, k - 1);
      DoubleOnce(Doubled(c, k - 1));
    }
  }

  lemma {:induction false} DoubledReaches(c: nat) returns (k: nat)
    requires IsCap(c) && c <= HALF
    ensures Doubled(c, k) == HALF
    decreases HALF - c
  {
    if c == HALF {
      k := 0;
    } else {
      HalfIsCap();
      NextCap(c, HALF);
      k := DoubledReaches(2 * c);
      DoubledShift(c, k);
      k := k + 1;
    }
  }

  lemma {:induction false} DoubledShift(c: nat, k: nat)
    requires 2 * c < SIZE_LIMIT
    ensures Doubled(c, k + 1) == Doubled(2 * c, k)
  {
    if k > 0 {
      DoubledShift(c, k - 1);
    }
  }

  /** The capacity that the loop stops at, for needs up to 2^31. */
  function NextCapacity(cap: nat, need: nat): nat
    decreases HALF - cap
  {
    if need <= cap || cap == 0 || cap >= HALF then cap else NextCapacity(2 * cap, need)
  }

  /** The doubling loop ends exactly for needs up to 2^31: beyond, the capacity wraps to zero and
      never gets there. */
  lemma GrowthEndsExactly(cap: nat, need: nat)
    requires IsCap(cap) && cap <= HALF
    ensures (exists k: nat :: Doubled(cap, k) >= need) <==> need <= HALF
  {
    if need <= HALF {
      var k := DoubledReaches(cap);
      assert Doubled(cap, k) >= need;
    } else {
      forall k: nat ensures Doubled(cap, k) < need {
        DoubledStaysCap(cap, k);
      }
    }
  }

  /** The loop ends with room for the bytes and the NUL exactly when they fit into 2^31 bytes: beyond that
      it does not end, or the need itself has wrapped and the buffer is too small for the copy. */
  lemma WriteFitsExactly(cap: nat, pos: nat, nbytes: nat)
    requires IsCap(cap) && cap <= HALF && pos < SIZE_LIMIT && 0 < nbytes < HALF
    ensures (exists k: nat :: Doubled(cap, k) >= (pos + nbytes + 1) % SIZE_LIMIT && Doubled(cap, k) > pos + nbytes)
      <==> pos + nbytes + 1 <= HALF
  {
    hide IsCap, Doubled;
    if pos + nbytes + 1 <= HALF {
      var k := DoubledReaches(cap);
      assert Doubled(cap, k) == HALF;
    } else {
      forall k: nat ensures Doubled(cap, k) <= pos + nbytes {
        DoubledStaysCap(cap, k);
      }
    }
  }

  lemma AddMod(a: nat, offset: int)
    ensures (a + offset % SIZE_LIMIT) % SIZE_LIMIT == (a + offset) % SIZE_LIMIT
  {
    assert offset == offset / SIZE_LIMIT * SIZE_LIMIT + offset % SIZE_LIMIT;
  }

  // ---------- The stream ----------

  /** The file and the capacity of its buffer, on which it depends whether a write needs memory. */
  datatype Stream = Stream(file: File, cap: nat)

  const INITIAL := Stream(File([], 0), 128)

  predicate Succeeds(s: Stream, data: seq<Byte>, room: bool)
  {
    data != [] && (s.file.pos + |data| + 1 <= s.cap || room)
  }

  function AfterPut(s: Stream, data: seq<Byte>, room: bool): Stream
  {
    if Succeeds(s, data, room) then Stream(Written(s.file, data), NextCapacity(s.cap, s.file.pos + |data| + 1)) else s
  }

  function AfterMove(s: Stream, offset: int, whence: int): Stream
  {
    match Base(s.file, whence)
    case None => s
    case Some(base) => s.(file := s.file.(pos := (base + offset) % SIZE_LIMIT))
  }

  /** A write of nothing does nothing. Otherwise, with n the end of the bytes and a NUL, the file is written if
      n fits into the capacity, or if there is memory, and then the capacity has been doubled just as often
      as needed for n; if there is none nothing happens. */
  lemma PutExactly(s: Stream, data: seq<Byte>, room: bool, n: nat)
    requires IsCap(s.cap) && n == s.file.pos + |data| + 1 <= 0x8000_0000
    ensures var t := AfterPut(s, data, room);
      if data == [] || (n > s.cap && !room) then t == s
      else
        && t.file == Written(s.file, data) && n <= t.cap
        && if n <= s.cap then t.cap == s.cap
           else t.cap < 2 * n && exists k: nat :: t.cap == Doubled(s.cap, k)
  {
    if data != [] && n > s.cap && room {
      NextCapacityExactly(s.cap, n);
    }
  }

  lemma {:induction false} NextCapacityExactly(cap: nat, need: nat)
    requires IsCap(cap) && need <= HALF && cap <= HALF
    ensures need <= NextCapacity(cap, need) && (need <= cap ==> NextCapacity(cap, need) == cap)
    ensures need > cap ==> NextCapacity(cap, need) < 2 * need
    ensures exists k: nat :: NextCapacity(cap, need) == Doubled(cap, k)
    decreases HALF - cap
  {
    if need <= cap {
      assert NextCapacity(cap, need) == Doubled(cap, 0);
    } else {
      CapTwice(cap);
      HalfIsCap();
      NextCap(cap, HALF);
      NextCapacityExactly(2 * cap, need);
      var k: nat :| NextCapacity(2 * cap, need) == Doubled(2 * cap, k);
      DoubledShift(cap, k);
      assert NextCapacity(cap, need) == Doubled(cap, k + 1);
    }
  }

  /** whence 0 counts from the beginning, 1 from the position, 2 from the end, and no other is known. */
  lemma MoveExactly(s: Stream, offset: int, whence: int)
    ensures var f := s.file;
      AfterMove(s, offset, whence) ==
        if whence == 0 then Stream(File(f.content, offset % 0x1_0000_0000), s.cap)
        else if whence == 1 then Stream(File(f.content, (f.pos + offset) % 0x1_0000_0000), s.cap)
        else if whence == 2 then Stream(File(f.content, (|f.content| + offset) % 0x1_0000_0000), s.cap)
        else s
  {
  }

  class MemStream {
    var buf: array<Byte>
    var len: nat
    var cap: nat
    var pos: nat
    var bufp: array<Byte>
    var sizep: nat

    /** The buffer has a spare byte, everything behind the length is zero, and the caller's pointer
        and size are the current ones. */
    ghost predicate Valid()
      reads this, buf
    {
      && cap == buf.Length && IsCap(cap) && cap <= HALF
      && len < cap && pos < SIZE_LIMIT
      && (forall i :: len <= i < cap ==> buf[i] == 0)
      && bufp == buf && sizep == len
    }

    ghost function Contents(): File
      reads this, buf
      requires Valid()
    {
      File(buf[..len], pos)
    }

    ghost function State(): Stream
      reads this, buf
      requires Valid()
    {
      Stream(Contents(), cap)
    }

    /** As open_memstream sets it up. */
    constructor ()
      ensures Valid() && fresh(buf) && State() == INITIAL && State() == Stream(File([], 0), 128)
    {
      var zeros := new Byte[128](i => 0);
      buf, bufp, cap := zeros, zeros, 128;
      len, pos, sizep := 0, 0, 0;
    }

    /** room: whether realloc finds memory. What it hands out beyond the old size is arbitrary. */
    method Grow(need: nat, room: bool) returns (ok: bool)
      requires Valid() && need <= HALF
      modifies this`buf, this`cap, this`bufp
      ensures Valid() && Contents() == old(Contents())
      ensures ok <==> (need <= old(cap) || room)
      ensures ok ==> need <= cap == NextCapacity(old(cap), need)
      ensures buf == old(buf) || fresh(buf)
      ensures need <= old(cap) || !ok ==> buf == old(buf) && cap == old(cap)
    {
      hide IsCap, NextCapacity;
      NextCapacityEnds(cap, need);
      if need <= cap {
        return true;
      }
      HalfIsCap();
      var newcap := if cap != 0 then cap else 128;
      while newcap < need
        invariant IsCap(newcap) && cap <= newcap <= HALF && newcap > 0
        invariant NextCapacity(newcap, need) == NextCapacity(cap, need)
        modifies {}
        decreases HALF - newcap
      {
        NextCap(newcap, HALF);
        NextCapacityStep(newcap, need);
        newcap := newcap * 2 % SIZE_LIMIT;
      }
      NextCapacityEnds(newcap, need);
      if !room {
        return false;
      }
      var newbuf := new Byte[newcap];
      forall i | 0 <= i < cap {
        newbuf[i] := buf[i];
      }
      forall i | cap <= i < newcap {
        newbuf[i] := 0;
      }
      assert newbuf[..len] == buf[..len];
      buf := newbuf;
      cap := newcap;
      bufp := buf;
      ok := true;
    }

    method Write(data: seq<Byte>, nbytes: int, room: bool) returns (r: int)
      requires Valid() && nbytes <= |data|
      requires nbytes > 0 ==> pos + nbytes + 1 <= HALF
      modifies this, buf
      ensures Valid() && (buf == old(buf) || fresh(buf))
      ensures r == if nbytes <= 0 then 0 else if old(pos) + nbytes + 1 > old(cap) && !room then -1 else nbytes
      ensures Contents() == if r <= 0 then old(Contents()) else Written(old(Contents()), data[..nbytes])
      ensures State() == if nbytes <= 0 then old(State()) else AfterPut(old(State()), data[..nbytes], room)
    {
      hide IsCap, Written, Splice, NextCapacity;
      if nbytes <= 0 {
        return 0;
      }
      var need := pos + nbytes + 1;
      var ok := Grow(need, room);
      if !ok {
        return -1;
      }
      Store(data[..nbytes]);
      r := nbytes;
    }

    /** The part of ms_write behind the call of ms_grow. */
    method Store(data: seq<Byte>)
      requires Valid() && data != [] && pos + |data| + 1 <= cap
      modifies this`pos, this`len, this`sizep, this`bufp, buf
      ensures Valid() && buf == old(buf) && cap == old(cap)
      ensures Contents() == Written(old(Contents()), data)
    {
      hide IsCap, Written, Splice;
      ghost var before, was := Contents(), buf[..];
      Put(data);
      SplicedFile(was, len, pos, data);
      pos := pos + |data|;
      if pos > len {
        len := pos;
      }
      buf[len] := 0;
      assert buf[..] == Splice(was, before.pos, data);
      assert buf[..len] == buf[..][..len];
      sizep := len;
      bufp := buf;
    }

    /** memcpy(buf + pos, data, |data|) */
    method Put(data: seq<Byte>)
      requires pos + |data| <= buf.Length
      modifies buf
      ensures buf[..] == Splice(old(buf[..]), pos, data)
    {
      ghost var was := buf[..];
      forall i | 0 <= i < |data| {
        buf[pos + i] := data[i];
      }
      assert buf[pos..pos + |data|] == data;
      assert buf[..] == was[..pos] + buf[pos..pos + |data|] + was[pos + |data|..];
    }

    method Seek(offset: int, whence: int) returns (r: int)
      requires Valid()
      modifies this`pos
      ensures Valid() && State() == AfterMove(old(State()), offset, whence)
      ensures match Base(old(Contents()), whence)
              case None => r == -1 && pos == old(pos)
              case Some(base) => r == pos == (base + offset) % SIZE_LIMIT
    {
      hide IsCap;
      var newpos: nat;
      if whence == SEEK_SET {
        newpos := offset % SIZE_LIMIT;
      } else if whence == SEEK_CUR {
        AddMod(pos, offset);
        newpos := (pos + offset % SIZE_LIMIT) % SIZE_LIMIT;
      } else if whence == SEEK_END {
        AddMod(len, offset);
        newpos := (len + offset % SIZE_LIMIT) % SIZE_LIMIT;
      } else {
        return -1;
      }
      pos := newpos;
      r := pos;
    }

    /** What the caller is left with: the content, a size that says where it ends, and a NUL there. */
    method Close()
      requires Valid()
      modifies this, buf
      ensures bufp == old(buf) && sizep == |old(Contents()).content| < bufp.Length
      ensures bufp[..sizep] == old(Contents()).content && bufp[sizep] == 0
    {
      var ok := Grow(len + 1, false);
      if ok {
        buf[len] := 0;
      }
      bufp := buf;
      sizep := len;
    }
  }

  /** Bytes put into a buffer that is zero behind the length give the file with the bytes written,
      and a buffer that is zero behind the new length. */
  lemma SplicedFile(was: seq<Byte>, len: nat, pos: nat, data: seq<Byte>)
    requires data != [] && len < |was| && pos + |data| < |was| && forall i :: len <= i < |was| ==> was[i] == 0
    ensures var f := Written(File(was[..len], pos), data);
      |f.content| < |was| && f.content == Splice(was, pos, data)[..|f.content|]
      && forall i :: |f.content| <= i < |was| ==> Splice(was, pos, data)[i] == 0
  {
    var f, now := Written(File(was[..len], pos), data), Splice(was, pos, data);
    forall i | 0 <= i < |f.content| ensures f.content[i] == now[i] {
      if pos <= i < pos + |data| {
        assert now[i] == now[pos..pos + |data|][i - pos];
        assert f.content[i] == f.content[pos..f.pos][i - pos];
      }
    }
  }

  // ---------- Runs of writes and seeks ----------

  /** A write, with what realloc would answer, or a seek. */
  datatype Call = Put(data: seq<Byte>, room: bool) | Move(offset: int, whence: int)

  function After(calls: seq<Call>): Stream
  {
    if calls == [] then INITIAL
    else
      var s := After(calls[..|calls| - 1]);
      match calls[|calls| - 1]
      case Put(data, room) => AfterPut(s, data, room)
      case Move(offset, whence) => AfterMove(s, offset, whence)
  }

  /** The byte that the last successful write over a place put there, if any did. */
  function LastPut(calls: seq<Call>, i: nat): Option<Byte>
  {
    if calls == [] then None
    else
      var front, last := calls[..|calls| - 1], calls[|calls| - 1];
      var s := After(front);
      if last.Put? && Succeeds(s, last.data, last.room) && s.file.pos <= i < s.file.pos + |last.data|
      then Some(last.data[i - s.file.pos])
      else LastPut(front, i)
  }

  /** After every run each byte is the one last written there, zero where none was; and the file ends
      behind the last byte that was ever written. */
  lemma {:induction false} ReadsWhatWasWritten(calls: seq<Call>, i: nat)
    ensures var content := After(calls).file.content;
      && (i < |content| ==> content[i] == match LastPut(calls, i) case None => 0 case Some(b) => b)
      && (i >= |content| ==> LastPut(calls, i) == None)
      && (i + 1 == |content| ==> LastPut(calls, i).Some?)
    decreases |calls|
  {
    hide NextCapacity;
    if calls != [] {
      var front, last := calls[..|calls| - 1], calls[|calls| - 1];
      ReadsWhatWasWritten(front, i);
      if last.Put? && Succeeds(After(front), last.data, last.room) {
        var f := After(front).file;
        var w := Written(f, last.data);
        if f.pos <= i < w.pos {
          assert w.content[i] == w.content[f.pos..w.pos][i - f.pos];
        }
      }
    }
  }

  /** Every write fits into 2^31 bytes. */
  ghost predicate InRange(calls: seq<Call>)
  {
    forall k :: 0 <= k < |calls| ==> calls[k].Put? && calls[k].data != [] ==>
        After(calls[..k]).file.pos + |calls[k].data| + 1 <= HALF
  }

  /** The stream goes through any run like the file, whichever writes find no memory. */
  method Replay(ms: MemStream, calls: seq<Call>)
    requires ms.Valid() && ms.State() == INITIAL && InRange(calls)
    modifies ms, ms.buf
    ensures ms.Valid() && ms.State() == After(calls)
  {
    hide IsCap, Written, NextCapacity, AfterPut, AfterMove;
    for i := 0 to |calls|
      invariant ms.Valid() && ms.State() == After(calls[..i]) && (ms.buf == old(ms.buf) || fresh(ms.buf))
    {
      assert calls[..i + 1][..i] == calls[..i];
      match calls[i] {
        case Put(data, room) =>
          assert data[..|data|] == data;
          PutNothing(ms.State(), room);
          var r := ms.Write(data, |data|, room);
        case Move(offset, whence) =>
          var r := ms.Seek(offset, whence);
      }
    }
    assert calls[..|calls|] == calls;
  }

  lemma PutNothing(s: Stream, room: bool)
    ensures AfterPut(s, [], room) == s
  {
  }
}
