/** Removing unwanted program headers from an ELF file, and zeroing one section header. */
module Fixup {
  import opened Bytes
  import opened Common
  import Elf

  const SHT_MIPS_ABIFLAGS: nat := 0x7000002a
  const PT_MIPS_ABIFLAGS: nat := 0x70000003
  const PT_PHDR: nat := 6
  const E_PHNUM: nat := 44

  /** The bytes of a table entry, and whether it has a type that is to go. */
  datatype Entry = Entry(bytes: seq<Byte>, marked: bool)

  datatype Outcome = Refused | Raised | Done

  // ---------- Tables of entries ----------

  ghost predicate Sized(T: seq<Entry>, es: nat)
  {
    forall i :: 0 <= i < |T| ==> |T[i].bytes| == es
  }

  function Flat(T: seq<Entry>): seq<Byte>
  {
    if T == [] then [] else T[0].bytes + Flat(T[1..])
  }

  lemma {:induction false} FlatLength(T: seq<Entry>, es: nat)
    requires Sized(T, es)
    ensures |Flat(T)| == |T| * es
  {
    if T != [] {
      FlatLength(T[1..], es);
      assert |T| * es == (|T| - 1) * es + es;
    }
  }

  lemma {:induction false} FlatAppend(A: seq<Entry>, B: seq<Entry>)
    ensures Flat(A + B) == Flat(A) + Flat(B)
  {
    if A == [] {
      assert A + B == B;
    } else {
      FlatAppend(A[1..], B);
      assert (A + B)[1..] == A[1..] + B && (A + B)[0] == A[0];
      Regroup(A[0].bytes, Flat(A[1..]), Flat(B));
    }
  }

  lemma Regroup(x: seq<Byte>, y: seq<Byte>, z: seq<Byte>)
    ensures x + (y + z) == x + y + z
  {
  }

  function ZeroEntry(es: nat): Entry
  {
    Entry(Zeros(es), false)
  }

  function ZeroEntries(n: nat, es: nat): (r: seq<Entry>)
    ensures |r| == n && Sized(r, es)
  {
    seq(n, _ => ZeroEntry(es))
  }

  /** The entries that stay, in their order. */
  function Keep(T: seq<Entry>): seq<Entry>
  {
    if T == [] then [] else (if T[0].marked then [] else [T[0]]) + Keep(T[1..])
  }

  lemma {:induction false} KeepFits(T: seq<Entry>, es: nat)
    requires Sized(T, es)
    ensures |Keep(T)| <= |T| && Sized(Keep(T), es)
    ensures forall i :: 0 <= i < |Keep(T)| ==> Keep(T)[i] in T && !Keep(T)[i].marked
  {
    if T != [] {
      KeepFits(T[1..], es);
      assert forall x :: x in T[1..] ==> x in T;
    }
  }

  /** The filter keeps the order and looks at each entry by itself. */
  lemma {:induction false} KeepAppend(A: seq<Entry>, B: seq<Entry>)
    ensures Keep(A + B) == Keep(A) + Keep(B)
  {
    if A == [] {
      assert A + B == B;
    } else {
      assert (A + B)[1..] == A[1..] + B;
      KeepAppend(A[1..], B);
    }
  }

  lemma KeepOne(x: Entry)
    ensures Keep([x]) == if x.marked then [] else [x]
  {
  }

  lemma {:induction false} KeepUnmarked(A: seq<Entry>, B: seq<Entry>)
    requires forall i :: 0 <= i < |A| ==> !A[i].marked
    ensures Keep(A + B) == A + Keep(B)
  {
    if A == [] {
      assert A + B == B;
    } else {
      assert (A + B)[1..] == A[1..] + B;
      KeepUnmarked(A[1..], B);
    }
  }

  lemma SizedTail(T: seq<Entry>, b: nat, es: nat)
    requires Sized(T, es) && b <= |T|
    ensures Sized(T[b..], es)
  {
  }

  lemma KeepMarked(T: seq<Entry>, idx: nat)
    requires idx < |T| && T[idx].marked
    ensures Keep(T[idx..]) == Keep(T[idx + 1..])
  {
    assert T[idx..][1..] == T[idx + 1..];
    assert [] + Keep(T[idx + 1..]) == Keep(T[idx + 1..]);
  }

  /** The table after the entries from b on have been dealt with. */
  function Partly(T: seq<Entry>, b: nat, es: nat): seq<Entry>
    requires b <= |T| && |Keep(T[b..])| <= |T| - b
  {
    T[..b] + Keep(T[b..]) + ZeroEntries(|T| - b - |Keep(T[b..])|, es)
  }

  /** Taking entry idx out and appending zeros after the cur live entries. */
  function Shift(C: seq<Entry>, idx: nat, cur: nat, es: nat): seq<Entry>
    requires idx < cur <= |C|
  {
    C[..idx] + C[idx + 1..cur] + [ZeroEntry(es)] + C[cur..]
  }

  /** Removing the last marked entry before b from a table that is dealt with from b on. */
  lemma ShiftPartly(T: seq<Entry>, idx: nat, b: nat, es: nat)
    requires Sized(T, es) && idx < b <= |T| && T[idx].marked && forall i :: idx < i < b ==> !T[i].marked
    ensures |Keep(T[b..])| <= |T| - b && |Keep(T[idx..])| <= |T| - idx
    ensures |Keep(T[idx..])| == b - idx - 1 + |Keep(T[b..])|
    ensures Shift(Partly(T, b, es), idx, b + |Keep(T[b..])|, es) == Partly(T, idx, es)
  {
    hide Keep, Sized;
    SizedTail(T, b, es);
    SizedTail(T, idx, es);
    KeepFits(T[b..], es);
    KeepFits(T[idx..], es);
    var mid := T[idx + 1..b];
    assert T[idx + 1..] == mid + T[b..];
    KeepMarked(T, idx);
    KeepUnmarked(mid, T[b..]);
    var C, cur := Partly(T, b, es), b + |Keep(T[b..])|;
    assert C[..idx] == T[..idx];
    assert C[idx + 1..cur] == mid + Keep(T[b..]);
    assert C[cur..] == ZeroEntries(|C| - cur, es);
    assert [ZeroEntry(es)] + ZeroEntries(|C| - cur, es) == ZeroEntries(|C| - cur + 1, es);
  }

  // ---------- The bytes of the table ----------

  /** data[dst:dst+n] = data[src:src+n] */
  method MoveSlice(a: array<Byte>, dst: nat, src: nat, n: nat)
    requires dst + n <= a.Length && src + n <= a.Length
    modifies a
    ensures a[..] == Splice(old(a[..]), dst, old(a[src..src + n]))
  {
    ghost var d := a[..];
    forall j | 0 <= j < n {
      a[dst + j] := a[src + j];
    }
    ghost var s := d[src..src + n];
    ghost var e := Splice(d, dst, s);
    hide Splice;
    forall k | 0 <= k < a.Length ensures a[k] == e[k] {
      if dst <= k < dst + n {
        assert e[dst..dst + n][k - dst] == s[k - dst] == d[src + (k - dst)];
      }
    }
  }

  method ZeroFill(a: array<Byte>, off: nat, n: nat)
    requires off + n <= a.Length
    modifies a
    ensures a[..] == Splice(old(a[..]), off, Zeros(n))
  {
    ghost var d := a[..];
    for j := 0 to n
      invariant forall k :: 0 <= k < a.Length ==> a[k] == if off <= k < off + j then 0 else d[k]
    {
      a[off + j] := 0;
    }
    ghost var e := Splice(d, off, Zeros(n));
    forall k | 0 <= k < a.Length ensures a[k] == e[k] {
      if off <= k < off + n {
        assert e[off..off + n][k - off] == 0;
      }
    }
  }

  lemma TwoSplices(d: seq<Byte>, dst: nat, m: seq<Byte>, z: seq<Byte>)
    requires dst + |m| + |z| <= |d|
    ensures Splice(Splice(d, dst, m), dst + |m|, z) == d[..dst] + m + z + d[dst + |m| + |z|..]
  {
  }

  /** One removal as the original does it: move the entries behind idx down by one and zero the last. */
  method RemoveEntry(a: array<Byte>, phoff: nat, es: nat, idx: nat, cur: nat, ghost C: seq<Entry>,
                     ghost pre: seq<Byte>, ghost post: seq<Byte>)
    requires a[..] == pre + Flat(C) + post && |pre| == phoff && Sized(C, es) && idx < cur <= |C|
    modifies a
    ensures a[..] == pre + Flat(Shift(C, idx, cur, es)) + post
  {
    hide Sized, Flat, Shift, Splice, Zeros, Extent;
    ghost var d := a[..];
    RemovalBounds(pre, C, post, es, idx, cur);
    var src, dst, last := phoff + Extent(idx + 1, es), phoff + Extent(idx, es), phoff + Extent(cur - 1, es);
    var remaining := Extent(cur - idx - 1, es);
    assert |d| == a.Length;
    if remaining > 0 {
      MoveSlice(a, dst, src, remaining);
    } else {
      SpliceNothing(d, dst, src);
    }
    ZeroFill(a, last, es);
    Removal(d, pre, C, post, es, idx, cur);
  }

  lemma RemovalBounds(pre: seq<Byte>, C: seq<Entry>, post: seq<Byte>, es: nat, idx: nat, cur: nat)
    requires Sized(C, es) && idx < cur <= |C|
    ensures Extent(idx, es) + es == Extent(idx + 1, es) <= Extent(cur, es) == Extent(cur - 1, es) + es <= |Flat(C)|
    ensures Extent(cur - idx - 1, es) == Extent(cur - 1, es) - Extent(idx, es)
  {
    hide Flat, Sized;
    SliceBounds(pre, C, post, es, idx, cur);
  }

  lemma Removal(d: seq<Byte>, pre: seq<Byte>, C: seq<Entry>, post: seq<Byte>, es: nat, idx: nat, cur: nat)
    requires d == pre + Flat(C) + post && Sized(C, es) && idx < cur <= |C|
    ensures Extent(idx, es) + es == Extent(idx + 1, es) <= Extent(cur, es) <= |Flat(C)|
    ensures Extent(cur - idx - 1, es) + Extent(idx, es) + es == Extent(cur, es)
    ensures var src, dst, n := |pre| + Extent(idx + 1, es), |pre| + Extent(idx, es), Extent(cur - idx - 1, es);
      Splice(Splice(d, dst, d[src..src + n]), dst + n, Zeros(es)) == pre + Flat(Shift(C, idx, cur, es)) + post
  {
    hide Flat, Sized, Shift, Splice, Zeros;
    SliceBounds(pre, C, post, es, idx, cur);
    SplitFlat(C, es, idx, cur);
    RemovalBytes(d, pre, C, post, es, idx, cur, idx * es, cur * es);
  }

  /** p and r are the places in the table of the entry to go and of the end of the live entries. */
  lemma RemovalBytes(d: seq<Byte>, pre: seq<Byte>, C: seq<Entry>, post: seq<Byte>, es: nat, idx: nat, cur: nat,
                     p: nat, r: nat)
    requires idx < cur <= |C| && |Flat(C[..idx])| == p && |C[idx].bytes| == es && p + es + |Flat(C[idx + 1..cur])| == r
    requires Flat(C) == Flat(C[..idx]) + C[idx].bytes + Flat(C[idx + 1..cur]) + Flat(C[cur..])
    requires d == pre + Flat(C) + post
    ensures r <= |Flat(C)| && |Zeros(es)| == es
    ensures Splice(Splice(d, |pre| + p, d[|pre| + p + es..|pre| + r]), |pre| + r - es, Zeros(es))
         == pre + Flat(Shift(C, idx, cur, es)) + post
  {
    hide Flat, Shift, Splice, Zeros;
    ZerosLength(es);
    SliceFacts(d, pre, C, post, es, idx, cur, p, r);
    var m, z := d[|pre| + p + es..|pre| + r], Zeros(es);
    TwoSplices(d, |pre| + p, m, z);
    assert |m| + es == r - p && |z| == es;
    ShiftBytes(C, idx, cur, es);
    Join(pre, Flat(C[..idx]), Flat(C[idx + 1..cur]), Zeros(es), Flat(C[cur..]), post);
  }

  lemma ZerosLength(n: nat)
    ensures |Zeros(n)| == n
  {
  }

  lemma SpliceNothing(d: seq<Byte>, dst: nat, src: nat)
    requires dst <= |d| && src <= |d|
    ensures Splice(d, dst, d[src..src]) == d
  {
  }

  lemma Join(pre: seq<Byte>, A: seq<Byte>, M: seq<Byte>, Z: seq<Byte>, B: seq<Byte>, post: seq<Byte>)
    ensures (pre + A) + M + Z + (B + post) == pre + (A + M + Z + B) + post
  {
  }

  lemma SliceBounds(pre: seq<Byte>, C: seq<Entry>, post: seq<Byte>, es: nat, idx: nat, cur: nat)
    requires Sized(C, es) && idx < cur <= |C|
    ensures idx * es + es == (idx + 1) * es <= cur * es == (cur - 1) * es + es <= |Flat(C)|
    ensures (cur - idx - 1) * es == (cur - 1) * es - idx * es
  {
    FlatLength(C, es);
    Products(idx, cur, |C|, es);
  }

  lemma SliceFacts(d: seq<Byte>, pre: seq<Byte>, C: seq<Entry>, post: seq<Byte>, es: nat, idx: nat, cur: nat, p: nat,
                   r: nat)
    requires idx < cur <= |C| && |Flat(C[..idx])| == p && |C[idx].bytes| == es && p + es + |Flat(C[idx + 1..cur])| == r
    requires Flat(C) == Flat(C[..idx]) + C[idx].bytes + Flat(C[idx + 1..cur]) + Flat(C[cur..])
    requires d == pre + Flat(C) + post
    ensures |pre| + r <= |d|
    ensures d[..|pre| + p] == pre + Flat(C[..idx])
    ensures d[|pre| + p + es..|pre| + r] == Flat(C[idx + 1..cur])
    ensures d[|pre| + r..] == Flat(C[cur..]) + post
  {
    hide Flat;
    var A, M, B := Flat(C[..idx]), Flat(C[idx + 1..cur]), Flat(C[cur..]);
    assert d == pre + (A + C[idx].bytes + M + B) + post;
  }

  lemma SplitFlat(C: seq<Entry>, es: nat, idx: nat, cur: nat)
    requires Sized(C, es) && idx < cur <= |C|
    ensures Flat(C) == Flat(C[..idx]) + C[idx].bytes + Flat(C[idx + 1..cur]) + Flat(C[cur..])
    ensures |Flat(C[..idx])| == idx * es && |C[idx].bytes| == es
    ensures |Flat(C[..idx])| + |C[idx].bytes| + |Flat(C[idx + 1..cur])| == cur * es
  {
    var A, M, B := C[..idx], C[idx + 1..cur], C[cur..];
    assert C == A + [C[idx]] + M + B;
    FlatAppend(A + [C[idx]] + M, B);
    FlatAppend(A + [C[idx]], M);
    FlatAppend(A, [C[idx]]);
    assert Flat([C[idx]]) == C[idx].bytes;
    FlatLength(A, es);
    FlatLength(M, es);
    Products(idx, cur, |C|, es);
  }

  lemma Products(idx: nat, cur: nat, n: nat, es: nat)
    requires idx < cur <= n
    ensures idx * es + es == (idx + 1) * es <= cur * es == (cur - 1) * es + es <= n * es
    ensures (cur - idx - 1) * es == (cur - 1) * es - idx * es
  {
  }

  lemma ShiftBytes(C: seq<Entry>, idx: nat, cur: nat, es: nat)
    requires idx < cur <= |C|
    ensures Flat(Shift(C, idx, cur, es)) == Flat(C[..idx]) + Flat(C[idx + 1..cur]) + Zeros(es) + Flat(C[cur..])
  {
    FlatAppend(C[..idx] + C[idx + 1..cur] + [ZeroEntry(es)], C[cur..]);
    FlatAppend(C[..idx] + C[idx + 1..cur], [ZeroEntry(es)]);
    FlatAppend(C[..idx], C[idx + 1..cur]);
    assert Flat([ZeroEntry(es)]) == Zeros(es);
  }

  // ---------- The whole file ----------

  /** The fields of the ELF header that the tool uses; all of them are big-endian. */
  datatype Header = Header(phoff: nat, shoff: nat, phentsize: nat, phnum: nat, shentsize: nat, shnum: nat)

  function ReadHeader(d: seq<Byte>): Header
    requires |d| >= 50
  {
    Header(Read(d, 28, 4, true), Read(d, 32, 4, true), Read(d, 42, 2, true), Read(d, 44, 2, true),
        Read(d, 46, 2, true), Read(d, 48, 2, true))
  }

  predicate Accepts(d: seq<Byte>)
  {
    |d| >= 50 && d[..4] == MAGIC && d[5] == 2
  }

  /** Where the program headers begin; of no account when there are none. */
  function Ph(h: Header): nat
  {
    if h.phnum == 0 then 0 else h.phoff
  }

  /** Where the section headers begin; of no account when there are none. */
  function Sh(h: Header): nat
  {
    if h.shnum == 0 then 0 else h.shoff
  }

  /** The size of a table. */
  function Extent(n: nat, es: nat): nat
  {
    n * es
  }

  lemma ExtentStep(n: nat, es: nat)
    ensures Extent(0, es) == 0
    ensures n > 0 ==> Extent(n, es) == Extent(n - 1, es) + es
  {
  }

  predicate IsUnwanted(type_: nat)
  {
    type_ == PT_MIPS_ABIFLAGS || type_ == PT_PHDR
  }

  /** The type of entry i can be read. */
  predicate TypeIn(d: seq<Byte>, off: nat, es: nat, i: nat)
  {
    off + Extent(i, es) + 4 <= |d|
  }

  /** The types of n entries can be read: that of the last one can. */
  predicate TypesIn(d: seq<Byte>, off: nat, es: nat, n: nat)
  {
    n > 0 ==> TypeIn(d, off, es, n - 1)
  }

  predicate Unwanted(d: seq<Byte>, off: nat, es: nat, i: nat)
    requires TypeIn(d, off, es, i)
  {
    IsUnwanted(Read(d, off + Extent(i, es), 4, true))
  }

  lemma EarlierTypeIn(d: seq<Byte>, off: nat, es: nat, n: nat, i: nat)
    requires TypesIn(d, off, es, n) && i < n
    ensures TypeIn(d, off, es, i)
  {
    Products(i, n, n, es);
  }

  lemma TypesInNext(d: seq<Byte>, off: nat, es: nat, n: nat)
    requires TypesIn(d, off, es, n) && n > 0
    ensures off + 4 <= |d| && TypesIn(d, off + es, es, n - 1)
  {
    hide Extent;
    EarlierTypeIn(d, off, es, n, 0);
    ExtentStep(n - 1, es);
  }

  /** The n entries of es bytes from off on. A type takes 4 bytes, also where the entries are smaller. */
  function Entries(d: seq<Byte>, off: nat, es: nat, n: nat): (T: seq<Entry>)
    requires off + Extent(n, es) <= |d| && TypesIn(d, off, es, n)
    ensures |T| == n && Sized(T, es)
    decreases n
  {
    if n == 0 then []
    else
      ExtentStep(n, es);
      TypesInNext(d, off, es, n);
      [Entry(d[off..off + es], IsUnwanted(Read(d, off, 4, true)))] + Entries(d, off + es, es, n - 1)
  }

  lemma {:induction false} EntriesBytes(d: seq<Byte>, off: nat, es: nat, n: nat)
    requires off + Extent(n, es) <= |d| && TypesIn(d, off, es, n)
    ensures d == d[..off] + Flat(Entries(d, off, es, n)) + d[off + Extent(n, es)..]
    decreases n
  {
    hide Extent, TypesIn, BigEndian;
    ExtentStep(n, es);
    if n > 0 {
      TypesInNext(d, off, es, n);
      EntriesBytes(d, off + es, es, n - 1);
      assert d[..off + es] == d[..off] + d[off..off + es];
    }
  }

  lemma {:induction false} EntryAt(d: seq<Byte>, off: nat, es: nat, n: nat, i: nat)
    requires off + Extent(n, es) <= |d| && TypesIn(d, off, es, n) && i < n
    ensures off + Extent(i, es) + es <= off + Extent(n, es) && TypeIn(d, off, es, i)
    ensures Entries(d, off, es, n)[i].bytes == d[off + Extent(i, es)..off + Extent(i, es) + es]
    ensures Entries(d, off, es, n)[i].marked == Unwanted(d, off, es, i)
    decreases n
  {
    hide Extent, TypesIn, BigEndian;
    ExtentStep(n, es);
    ExtentStep(i, es);
    TypesInNext(d, off, es, n);
    ExtentAtLeast(n - 1, es);
    if i > 0 {
      EntryAt(d, off + es, es, n - 1, i - 1);
    }
  }

  lemma ExtentAtLeast(n: nat, es: nat)
    ensures Extent(n, es) >= 0
  {
  }

  /** The type of section header j can be read. */
  predicate SectionTypeIn(d: seq<Byte>, h: Header, j: nat)
  {
    Sh(h) + Extent(j, h.shentsize) + 8 <= |d|
  }

  function SectionType(d: seq<Byte>, h: Header, j: nat): nat
    requires SectionTypeIn(d, h, j)
  {
    Read(d, Sh(h) + Extent(j, h.shentsize) + 4, 4, true)
  }

  /** The first section header of the unwanted type from the i-th on, or shnum; None if reading a type
      fails before. */
  function FindSection(d: seq<Byte>, h: Header, i: nat): Option<nat>
    requires i <= h.shnum
    decreases h.shnum - i
  {
    if i == h.shnum then Some(i)
    else if !SectionTypeIn(d, h, i) then None
    else if SectionType(d, h, i) == SHT_MIPS_ABIFLAGS then Some(i)
    else FindSection(d, h, i + 1)
  }

  /** The table of program headers lies inside the file. */
  predicate Inside(d: seq<Byte>, h: Header)
  {
    Ph(h) + Extent(h.phnum, h.phentsize) <= |d|
  }

  ghost predicate NoneUnwanted(d: seq<Byte>, off: nat, es: nat, n: nat)
  {
    forall i: nat :: i < n && TypeIn(d, off, es, i) ==> !Unwanted(d, off, es, i)
  }

  /** Every type that is read lies inside the file, and so do the program headers if one has to go and
      the section header if it has to be zeroed. */
  ghost predicate TablesFit(d: seq<Byte>, h: Header)
  {
    && TypesIn(d, Ph(h), h.phentsize, h.phnum)
    && (Inside(d, h) || NoneUnwanted(d, Ph(h), h.phentsize, h.phnum))
    && FindSection(d, h, 0).Some?
    && var s := FindSection(d, h, 0).value;
       s < h.shnum ==> Sh(h) + Extent(s, h.shentsize) + h.shentsize <= |d|
  }

  /** The files on which the original does not raise. */
  ghost predicate Fits(d: seq<Byte>)
  {
    |d| >= 4 && d[..4] == MAGIC ==> |d| >= 6 && (d[5] == 2 ==> |d| >= 50 && TablesFit(d, ReadHeader(d)))
  }

  function Be16(v: nat): (r: seq<Byte>)
    requires v < 0x1_0000
    ensures |r| == 2
  {
    [v / 256, v % 256]
  }

  /** The table with the marked entries gone and zeros at its end. */
  function FixedTable(T: seq<Entry>, es: nat): seq<Entry>
    requires |Keep(T)| <= |T|
  {
    Keep(T) + ZeroEntries(|T| - |Keep(T)|, es)
  }

  /** marks lists the unwanted entries before i in ascending order. */
  ghost predicate MarksUpTo(marks: seq<nat>, d: seq<Byte>, off: nat, es: nat, i: nat)
  {
    && (forall j, k :: 0 <= j < k < |marks| ==> marks[j] < marks[k])
    && (forall m: nat :: m in marks <==> m < i && TypeIn(d, off, es, m) && Unwanted(d, off, es, m))
  }

  lemma MarksGrow(marks: seq<nat>, d: seq<Byte>, off: nat, es: nat, i: nat)
    requires MarksUpTo(marks, d, off, es, i) && TypeIn(d, off, es, i)
    ensures MarksUpTo(if Unwanted(d, off, es, i) then marks + [i] else marks, d, off, es, i + 1)
  {
    hide Unwanted, TypeIn;
    if Unwanted(d, off, es, i) {
      var more := marks + [i];
      forall j, k | 0 <= j < k < |more| ensures more[j] < more[k] {
        if k == |marks| { assert marks[j] in marks; }
      }
      forall m: nat ensures m in more <==> m in marks || m == i {
        if m == i { assert more[|marks|] == m; }
      }
    }
  }

  /** The loop stops with an error at the first type beyond the end of the file. */
  method FindMarked(a: array<Byte>, h: Header) returns (ok: bool, marks: seq<nat>)
    ensures ok <==> TypesIn(a[..], Ph(h), h.phentsize, h.phnum)
    ensures ok ==> MarksUpTo(marks, a[..], Ph(h), h.phentsize, h.phnum)
  {
    hide Extent, Unwanted, MarksUpTo, BigEndian;
    marks := [];
    NoMarks(a[..], Ph(h), h.phentsize);
    for i := 0 to h.phnum
      invariant TypesIn(a[..], Ph(h), h.phentsize, i)
      invariant MarksUpTo(marks, a[..], Ph(h), h.phentsize, i)
    {
      var at := Ph(h) + Extent(i, h.phentsize);
      if at + 4 > a.Length {
        if TypesIn(a[..], Ph(h), h.phentsize, h.phnum) {
          EarlierTypeIn(a[..], Ph(h), h.phentsize, h.phnum, i);
        }
        return false, marks;
      }
      MarksGrow(marks, a[..], Ph(h), h.phentsize, i);
      TypeMeans(a[..], Ph(h), h.phentsize, i);
      var type_ := Read(a[..], at, 4, true);
      if type_ == PT_MIPS_ABIFLAGS {
        marks := marks + [i];
      } else if type_ == PT_PHDR {
        marks := marks + [i];
      }
    }
    ok := true;
  }

  lemma TypeMeans(d: seq<Byte>, off: nat, es: nat, i: nat)
    requires TypeIn(d, off, es, i)
    ensures Unwanted(d, off, es, i) <==> Read(d, off + Extent(i, es), 4, true) in {PT_MIPS_ABIFLAGS, PT_PHDR}
  {
  }

  lemma NoMarks(d: seq<Byte>, off: nat, es: nat)
    ensures MarksUpTo([], d, off, es, 0)
  {
  }

  lemma NoneMarked(marks: seq<nat>, d: seq<Byte>, off: nat, es: nat, n: nat)
    requires MarksUpTo(marks, d, off, es, n)
    ensures marks == [] <==> NoneUnwanted(d, off, es, n)
  {
    hide Unwanted, TypeIn;
    if marks != [] { assert marks[0] in marks; }
  }

  ghost predicate IsMarkList(marks: seq<nat>, T: seq<Entry>)
  {
    && (forall j, k :: 0 <= j < k < |marks| ==> marks[j] < marks[k])
    && (forall k :: 0 <= k < |marks| ==> marks[k] < |T| && T[marks[k]].marked)
    && (forall m :: 0 <= m < |T| && T[m].marked ==> m in marks)
  }

  lemma MarksOfTable(marks: seq<nat>, d: seq<Byte>, off: nat, es: nat, n: nat)
    requires off + Extent(n, es) <= |d| && TypesIn(d, off, es, n) && MarksUpTo(marks, d, off, es, n)
    ensures IsMarkList(marks, Entries(d, off, es, n))
  {
    hide Unwanted, TypeIn, TypesIn, Extent, Entries, Sized;
    var T := Entries(d, off, es, n);
    forall m: nat | m < n ensures T[m].marked <==> m in marks {
      EntryAt(d, off, es, n, m);
    }
    forall k | 0 <= k < |marks| ensures marks[k] < n && T[marks[k]].marked {
      assert marks[k] in marks;
    }
  }

  /** Where the table starts to be dealt with when the last |marks| - k marked entries are removed. */
  function Front(marks: seq<nat>, n: nat, k: nat): nat
    requires k <= |marks|
  {
    if k == |marks| then n else marks[k]
  }

  lemma NoneBetween(marks: seq<nat>, T: seq<Entry>, k: nat)
    requires IsMarkList(marks, T) && k < |marks|
    ensures marks[k] < Front(marks, |T|, k + 1) <= |T| && T[marks[k]].marked
    ensures forall i :: marks[k] < i < Front(marks, |T|, k + 1) ==> !T[i].marked
  {
  }

  lemma NoneBefore(marks: seq<nat>, T: seq<Entry>)
    requires IsMarkList(marks, T)
    ensures Front(marks, |T|, 0) <= |T| && forall i :: 0 <= i < Front(marks, |T|, 0) ==> !T[i].marked
  {
    assert forall i :: 0 <= i < Front(marks, |T|, 0) ==> i !in marks;
  }

  lemma AllDealtWith(T: seq<Entry>, b: nat, es: nat)
    requires Sized(T, es) && b <= |T| && forall i :: 0 <= i < b ==> !T[i].marked
    ensures |Keep(T)| <= |T| && |Keep(T[b..])| <= |T| - b && |Keep(T)| == b + |Keep(T[b..])|
    ensures Partly(T, b, es) == FixedTable(T, es)
  {
    hide ZeroEntries, Keep, Sized;
    KeepFits(T, es);
    SizedTail(T, b, es);
    KeepFits(T[b..], es);
    assert T == T[..b] + T[b..];
    KeepUnmarked(T[..b], T[b..]);
  }

  /** Remove the marked entries, last one first. */
  method RemoveMarked(a: array<Byte>, phoff: nat, es: nat, n: nat, marks: seq<nat>) returns (left: nat)
    requires phoff + Extent(n, es) <= a.Length && TypesIn(a[..], phoff, es, n)
    requires IsMarkList(marks, Entries(a[..], phoff, es, n))
    modifies a
    ensures var T := Entries(old(a[..]), phoff, es, n);
      |Keep(T)| <= |T| && left == |Keep(T)|
      && a[..] == old(a[..phoff]) + Flat(FixedTable(T, es)) + old(a[phoff + Extent(n, es)..])
  {
    hide Flat, IsMarkList, Entries, Extent, Keep, Partly, Shift, FixedTable, Sized, TypesIn;
    ghost var T, pre, post := Entries(a[..], phoff, es, n), a[..phoff], a[phoff + Extent(n, es)..];
    EntriesBytes(a[..], phoff, es, n);
    var k: nat := |marks|;
    left := n;
    NothingRemoved(T, es);
    while k > 0
      invariant k <= |marks| && Front(marks, n, k) <= n
      invariant |Keep(T[Front(marks, n, k)..])| <= n - Front(marks, n, k)
      invariant left == Front(marks, n, k) + |Keep(T[Front(marks, n, k)..])|
      invariant a[..] == pre + Flat(Partly(T, Front(marks, n, k), es)) + post
    {
      ghost var b := Front(marks, n, k);
      k := k - 1;
      NoneBetween(marks, T, k);
      ShiftPartly(T, marks[k], b, es);
      PartlySized(T, b, es);
      RemoveEntry(a, phoff, es, marks[k], left, Partly(T, b, es), pre, post);
      left := left - 1;
    }
    NoneBefore(marks, T);
    AllDealtWith(T, Front(marks, n, 0), es);
  }

  lemma NothingRemoved(T: seq<Entry>, es: nat)
    ensures Keep(T[|T|..]) == [] && Partly(T, |T|, es) == T
  {
    assert T[|T|..] == [];
    assert ZeroEntries(0, es) == [];
  }

  lemma PartlySized(T: seq<Entry>, b: nat, es: nat)
    requires Sized(T, es) && b <= |T| && |Keep(T[b..])| <= |T| - b
    ensures Sized(Partly(T, b, es), es) && |Partly(T, b, es)| == |T|
  {
    KeepFits(T[b..], es);
  }

  method FindAbiflags(a: array<Byte>, h: Header) returns (section: Option<nat>)
    ensures section == FindSection(a[..], h, 0)
    ensures section.Some? ==> IsFirstSection(a[..], h, 0, section.value)
  {
    hide Extent, BigEndian, IsFirstSection;
    forall s: nat {
      SectionIsFirst(a[..], h, 0, s);
    }
    var i := 0;
    while i < h.shnum
      invariant i <= h.shnum && FindSection(a[..], h, 0) == FindSection(a[..], h, i)
    {
      var at := Sh(h) + Extent(i, h.shentsize);
      if at + 8 > a.Length {
        return None;
      }
      if Read(a[..], at + 4, 4, true) == SHT_MIPS_ABIFLAGS {
        return Some(i);
      }
      i := i + 1;
    }
    section := Some(i);
  }

  /** s is the first header of the type from the i-th on, or shnum if there is none, and the types up to
      there can be read. */
  ghost predicate IsFirstSection(d: seq<Byte>, h: Header, i: nat, s: nat)
  {
    && i <= s <= h.shnum
    && (forall j: nat :: i <= j < s ==> SectionTypeIn(d, h, j) && SectionType(d, h, j) != SHT_MIPS_ABIFLAGS)
    && (s < h.shnum ==> SectionTypeIn(d, h, s) && SectionType(d, h, s) == SHT_MIPS_ABIFLAGS)
  }

  /** This determines what is found; nothing is if there is no such s. */
  lemma {:induction false} SectionIsFirst(d: seq<Byte>, h: Header, i: nat, s: nat)
    requires i <= h.shnum
    ensures FindSection(d, h, i) == Some(s) <==> IsFirstSection(d, h, i, s)
    decreases h.shnum - i
  {
    hide SectionType, SectionTypeIn;
    if i < h.shnum {
      SectionIsFirst(d, h, i + 1, s);
    }
  }

  /** The bytes with the program headers fixed. */
  function WithTable(d: seq<Byte>, h: Header): (r: seq<Byte>)
    requires Inside(d, h) && TypesIn(d, Ph(h), h.phentsize, h.phnum)
    requires |Keep(Entries(d, Ph(h), h.phentsize, h.phnum))| <= h.phnum
  {
    d[..Ph(h)] + Flat(FixedTable(Entries(d, Ph(h), h.phentsize, h.phnum), h.phentsize))
        + d[Ph(h) + Extent(h.phnum, h.phentsize)..]
  }

  /** e is d with the program headers fixed, e_phnum counting those that are left, and the section
      header, if there is one, zeroed. A table that reaches beyond the file has nothing to fix. */
  ghost predicate FixesUp(d: seq<Byte>, e: seq<Byte>)
    requires Accepts(d) && Fits(d)
  {
    var h := ReadHeader(d);
    if Inside(d, h) then
      var T := Entries(d, Ph(h), h.phentsize, h.phnum);
      |Keep(T)| <= h.phnum && |WithTable(d, h)| == |d| && Zeroed(d, h, WithTable(d, h), |Keep(T)|, e)
    else
      Zeroed(d, h, d, h.phnum, e)
  }

  /** table with the number of program headers put in and the section header of d zeroed. */
  ghost predicate Zeroed(d: seq<Byte>, h: Header, table: seq<Byte>, left: nat, e: seq<Byte>)
    requires |d| >= 50 && |table| == |d| && TablesFit(d, h)
  {
    var s := FindSection(d, h, 0).value;
    left < 0x1_0000 &&
    var counted := Splice(table, E_PHNUM, Be16(left));
    e == if s < h.shnum then Splice(counted, Sh(h) + Extent(s, h.shentsize), Zeros(h.shentsize)) else counted
  }

  lemma FixedLength(d: seq<Byte>, h: Header)
    requires Inside(d, h) && TypesIn(d, Ph(h), h.phentsize, h.phnum)
    ensures |Keep(Entries(d, Ph(h), h.phentsize, h.phnum))| <= h.phnum && |WithTable(d, h)| == |d|
  {
    var T := Entries(d, Ph(h), h.phentsize, h.phnum);
    KeepFits(T, h.phentsize);
    FlatLength(FixedTable(T, h.phentsize), h.phentsize);
  }

  lemma PhnumFits(d: seq<Byte>)
    requires |d| >= 50
    ensures ReadHeader(d).phnum < 0x1_0000 && d[44..46] == Be16(ReadHeader(d).phnum)
  {
    var s := d[44..46];
    assert s[..1] == [s[0]] && s[..1][..0] == [];
    assert BigEndian(s[..1]) == s[0];
    assert BigEndian(s) == (s[0] as int) * 256 + s[1] as int;
  }

  lemma NothingMarked(d: seq<Byte>, h: Header)
    requires Inside(d, h) && TypesIn(d, Ph(h), h.phentsize, h.phnum) && MarksUpTo([], d, Ph(h), h.phentsize, h.phnum)
    ensures |Keep(Entries(d, Ph(h), h.phentsize, h.phnum))| == h.phnum && WithTable(d, h) == d
  {
    hide BigEndian, Flat, Entries, Extent, TypesIn, Keep, FixedTable, MarksUpTo, IsMarkList;
    var T := Entries(d, Ph(h), h.phentsize, h.phnum);
    FixedLength(d, h);
    MarksOfTable([], d, Ph(h), h.phentsize, h.phnum);
    NoneBefore([], T);
    AllDealtWith(T, |T|, h.phentsize);
    NothingRemoved(T, h.phentsize);
    EntriesBytes(d, Ph(h), h.phentsize, h.phnum);
  }

  lemma SamePhnum(d: seq<Byte>)
    requires |d| >= 50
    ensures ReadHeader(d).phnum < 0x1_0000 && Splice(d, E_PHNUM, Be16(ReadHeader(d).phnum)) == d
  {
    PhnumFits(d);
    hide BigEndian, Be16;
    assert Splice(d, 44, d[44..46]) == d;
  }

  /** Raised stands for the error on which the original stops without writing a file. */
  method FixupElf(a: array<Byte>) returns (o: Outcome)
    modifies a
    ensures o.Raised? <==> !Fits(old(a[..]))
    ensures o.Done? <==> Accepts(old(a[..])) && Fits(old(a[..]))
    ensures o.Done? ==> FixesUp(old(a[..]), a[..])
    ensures o.Refused? ==> a[..] == old(a[..])
  {
    hide BigEndian, Flat, Entries, Extent, MarksUpTo, IsMarkList, NoneUnwanted, Keep, FindSection, Splice, FixedTable;
    hide TypesIn, WithTable;
    if a.Length < 4 || a[..4] != MAGIC {
      return Refused;
    }
    if a.Length < 6 {
      return Raised;
    }
    if a[5] != 2 {
      return Refused;
    }
    if a.Length < 50 {
      return Raised;
    }
    ghost var d := a[..];
    var h := ReadHeader(a[..]);
    var ok, marks := FindMarked(a, h);
    if !ok {
      return Raised;
    }
    var found := FindAbiflags(a, h);
    if found.None? {
      return Raised;
    }
    var section := found.value;
    SectionIsFirst(d, h, 0, section);
    NoneMarked(marks, d, Ph(h), h.phentsize, h.phnum);
    SamePhnum(d);
    if marks == [] && Inside(d, h) {
      NothingMarked(d, h);
    }
    if marks == [] && section == h.shnum {
      return Done;
    }
    var left := h.phnum;
    if marks != [] {
      // Zeroing the last entry runs off the end of the data.
      if Ph(h) + Extent(h.phnum, h.phentsize) > a.Length {
        return Raised;
      }
      MarksOfTable(marks, d, Ph(h), h.phentsize, h.phnum);
      FixedLength(d, h);
      left := RemoveMarked(a, Ph(h), h.phentsize, h.phnum, marks);
      assert a[..] == WithTable(d, h) by { WithTableIs(d, h); }
    }
    PutPhnum(a, left);
    if section < h.shnum {
      var from := Sh(h) + Extent(section, h.shentsize);
      if from + h.shentsize > a.Length {
        return Raised;
      }
      ZeroFill(a, from, h.shentsize);
    }
    o := Done;
  }

  lemma WithTableIs(d: seq<Byte>, h: Header)
    requires Inside(d, h) && TypesIn(d, Ph(h), h.phentsize, h.phnum)
    requires |Keep(Entries(d, Ph(h), h.phentsize, h.phnum))| <= h.phnum
    ensures WithTable(d, h) == d[..Ph(h)] + Flat(FixedTable(Entries(d, Ph(h), h.phentsize, h.phnum), h.phentsize))
      + d[Ph(h) + Extent(h.phnum, h.phentsize)..]
  {
  }

  /** write_u16(data, E_PHNUM, v) */
  method PutPhnum(a: array<Byte>, v: nat)
    requires a.Length >= 50 && v < 0x1_0000
    modifies a
    ensures a[..] == Splice(old(a[..]), E_PHNUM, Be16(v))
  {
    ghost var d := a[..];
    a[E_PHNUM], a[E_PHNUM + 1] := v / 256, v % 256;
    assert a[..E_PHNUM] == d[..E_PHNUM] && a[E_PHNUM + 2..] == d[E_PHNUM + 2..];
    assert a[..] == a[..E_PHNUM] + a[E_PHNUM..E_PHNUM + 2] + a[E_PHNUM + 2..];
  }

  // ---------- What the fixed file says ----------

  /** The program headers and the section header to be zeroed, where there are any, lie apart from the
      ELF header and from each other. */
  ghost predicate Apart(d: seq<Byte>)
    requires Accepts(d) && Fits(d)
  {
    var h := ReadHeader(d);
    var s := FindSection(d, h, 0).value;
    (h.phnum > 0 ==> 50 <= h.phoff) &&
    (s < h.shnum ==>
      var from := Sh(h) + Extent(s, h.shentsize);
      50 <= from && (from + h.shentsize <= Ph(h) || Ph(h) + Extent(h.phnum, h.phentsize) <= from))
  }

  /** The number of program headers that are left. */
  ghost function Left(d: seq<Byte>): nat
    requires Accepts(d) && Fits(d)
  {
    var h := ReadHeader(d);
    if Inside(d, h) then |Keep(Entries(d, Ph(h), h.phentsize, h.phnum))| else h.phnum
  }

  lemma Be16Reads(v: nat)
    requires v < 0x1_0000
    ensures BigEndian(Be16(v)) == v
  {
    var s := Be16(v);
    assert s[..1] == [s[0]] && s[..1][..0] == [];
    assert BigEndian(s[..1]) == s[0];
  }

  /** No byte changes outside e_phnum, the program headers and the zeroed section header. */
  lemma OtherBytesStay(d: seq<Byte>, e: seq<Byte>, k: nat)
    requires Accepts(d) && Fits(d) && FixesUp(d, e) && k < |d|
    requires !(44 <= k < 46)
    requires var h := ReadHeader(d); Inside(d, h) ==> !(Ph(h) <= k < Ph(h) + Extent(h.phnum, h.phentsize))
    requires var h := ReadHeader(d); var s := FindSection(d, h, 0).value;
      s < h.shnum ==> !(Sh(h) + Extent(s, h.shentsize) <= k < Sh(h) + Extent(s, h.shentsize) + h.shentsize)
    ensures |e| == |d| && e[k] == d[k]
  {
    hide Flat, Entries, Keep, FindSection, Extent, BigEndian, FixedTable, Splice, Zeros, Be16, ReadHeader, TypesIn,
      NoneUnwanted;
    var h := ReadHeader(d);
    if Inside(d, h) {
      FixedLength(d, h);
      assert WithTable(d, h)[k] == d[k];
    }
  }

  /** The header of the result differs from that of the file in e_phnum only, which counts the entries
      that are kept; its table is these entries followed by zeros. */
  lemma FixedTableReads(d: seq<Byte>, e: seq<Byte>)
    requires Accepts(d) && Fits(d) && FixesUp(d, e) && Apart(d)
    ensures var h := ReadHeader(d);
      && |e| == |d| && Accepts(e) && ReadHeader(e) == h.(phnum := Left(d))
      && if Inside(d, h) then
           var T := Entries(d, Ph(h), h.phentsize, h.phnum);
           |Keep(T)| <= |T| && TableIs(e, Ph(h), h.phentsize, FixedTable(T, h.phentsize))
         else Ph(h) <= |d| && e[Ph(h)..] == d[Ph(h)..]
  {
    hide Flat, Keep, FindSection, Extent, BigEndian, Entries, FixedTable, FixesUp, Apart, TablesFit, TypesIn, TableIs;
    HeaderReads(d, e);
    var h := ReadHeader(d);
    if Inside(d, h) {
      TypesFit(d, h);
      TableReads(d, e, h, Entries(d, Ph(h), h.phentsize, h.phnum));
    } else {
      TableStays(d, e, h);
    }
  }

  lemma TypesFit(d: seq<Byte>, h: Header)
    requires TablesFit(d, h)
    ensures TypesIn(d, Ph(h), h.phentsize, h.phnum)
  {
  }

  /** The bytes at off are those of the entries of F. */
  ghost predicate TableIs(e: seq<Byte>, off: nat, es: nat, F: seq<Entry>)
  {
    forall i: nat :: i < |F| ==>
      off + Extent(i, es) + es <= |e| && e[off + Extent(i, es)..off + Extent(i, es) + es] == F[i].bytes
  }

  lemma HeaderReads(d: seq<Byte>, e: seq<Byte>)
    requires Accepts(d) && Fits(d) && FixesUp(d, e) && Apart(d)
    ensures |e| == |d| && Accepts(e) && ReadHeader(e) == ReadHeader(d).(phnum := Left(d))
  {
    hide Flat, Entries, Keep, FindSection, Extent, BigEndian, FixedTable, TypesIn, NoneUnwanted;
    var h := ReadHeader(d);
    ExtentStep(0, h.phentsize);
    forall k | 0 <= k < 50 && k != 44 && k != 45 ensures |e| == |d| && e[k] == d[k] {
      OtherBytesStay(d, e, k);
    }
    assert e[0] == d[0] && e[..4] == d[..4];
    ReadSame(d, e, 28, 4, true);
    ReadSame(d, e, 32, 4, true);
    ReadSame(d, e, 42, 2, true);
    ReadSame(d, e, 46, 2, true);
    ReadSame(d, e, 48, 2, true);
    assert e[44..46] == Be16(Left(d));
    Be16Reads(Left(d));
  }

  lemma TableReads(d: seq<Byte>, e: seq<Byte>, h: Header, T: seq<Entry>)
    requires Accepts(d) && Fits(d) && FixesUp(d, e) && Apart(d) && h == ReadHeader(d) && |e| == |d|
    requires Inside(d, h) && TypesIn(d, Ph(h), h.phentsize, h.phnum) && T == Entries(d, Ph(h), h.phentsize, h.phnum)
    ensures |Keep(T)| <= |T| && TableIs(e, Ph(h), h.phentsize, FixedTable(T, h.phentsize))
  {
    hide Flat, Keep, FindSection, Extent, BigEndian, Entries, FixesUp, Apart, TablesFit, TypesIn, TableIs;
    KeepFits(T, h.phentsize);
    var F, es := FixedTable(T, h.phentsize), h.phentsize;
    FlatLength(F, es);
    var end := Ph(h) + Extent(h.phnum, es);
    assert Extent(h.phnum, es) == |Flat(F)| by { ExtentIs(h.phnum, es); }
    TableBytes(d, e, h, T, F, end);
    TableOfFlat(e, Ph(h), es, F);
  }

  lemma TableBytes(d: seq<Byte>, e: seq<Byte>, h: Header, T: seq<Entry>, F: seq<Entry>, end: nat)
    requires Accepts(d) && Fits(d) && FixesUp(d, e) && Apart(d) && h == ReadHeader(d) && |e| == |d|
    requires Inside(d, h) && TypesIn(d, Ph(h), h.phentsize, h.phnum)
    requires T == Entries(d, Ph(h), h.phentsize, h.phnum) && |Keep(T)| <= |T| && F == FixedTable(T, h.phentsize)
    requires end == Ph(h) + Extent(h.phnum, h.phentsize) == Ph(h) + |Flat(F)|
    ensures e[Ph(h)..end] == Flat(F)
  {
    hide Flat, Keep, FindSection, Extent, BigEndian, Entries, FixedTable, ReadHeader, Zeros, Be16, TypesIn,
      NoneUnwanted;
    ExtentStep(0, h.phentsize);
    assert WithTable(d, h)[Ph(h)..end] == Flat(F);
    forall k | Ph(h) <= k < end ensures e[k] == WithTable(d, h)[k] {
    }
    assert e[Ph(h)..end] == WithTable(d, h)[Ph(h)..end];
  }

  lemma TableStays(d: seq<Byte>, e: seq<Byte>, h: Header)
    requires Accepts(d) && Fits(d) && FixesUp(d, e) && Apart(d) && h == ReadHeader(d) && |e| == |d| && !Inside(d, h)
    ensures Ph(h) <= |d| && e[Ph(h)..] == d[Ph(h)..]
  {
    hide FindSection, Extent, BigEndian, FixesUp, ReadHeader, NoneUnwanted;
    ExtentStep(0, h.phentsize);
    forall k | Ph(h) <= k < |d| ensures e[k] == d[k] {
      OtherBytesStay(d, e, k);
    }
  }

  lemma ExtentIs(n: nat, es: nat)
    ensures Extent(n, es) == n * es
  {
  }

  lemma {:induction false} FlatAt(F: seq<Entry>, es: nat, i: nat)
    requires Sized(F, es) && i < |F|
    ensures Extent(i, es) + es <= |Flat(F)| && Flat(F)[Extent(i, es)..Extent(i, es) + es] == F[i].bytes
  {
    hide Extent;
    ExtentStep(i, es);
    var rest := Flat(F[1..]);
    if i > 0 {
      FlatAt(F[1..], es, i - 1);
      var at := Extent(i - 1, es);
      assert (F[0].bytes + rest)[at + es..at + es + es] == rest[at..at + es];
    } else {
      assert (F[0].bytes + rest)[..es] == F[0].bytes;
    }
  }

  lemma SliceOfSlice(e: seq<Byte>, off: nat, n: nat, at: nat, es: nat)
    requires off + n <= |e| && at + es <= n
    ensures e[off..off + n][at..at + es] == e[off + at..off + at + es]
  {
    var p, q := e[off..off + n][at..at + es], e[off + at..off + at + es];
    forall k | 0 <= k < es ensures p[k] == q[k] {
      assert p[k] == e[off..off + n][at + k] == e[off + at + k];
    }
    assert p == q;
  }

  lemma TableOfFlat(e: seq<Byte>, off: nat, es: nat, F: seq<Entry>)
    requires Sized(F, es) && off + |Flat(F)| <= |e| && e[off..off + |Flat(F)|] == Flat(F)
    ensures TableIs(e, off, es, F)
  {
    hide Extent, Flat, Sized;
    forall i: nat | i < |F|
      ensures off + Extent(i, es) + es <= |e| && e[off + Extent(i, es)..off + Extent(i, es) + es] == F[i].bytes
    {
      FlatAt(F, es, i);
      SliceOfSlice(e, off, |Flat(F)|, Extent(i, es), es);
    }
  }

  /** An entry of 4 bytes or more holds its type. */
  lemma OwnType(d: seq<Byte>, off: nat, es: nat, n: nat, m: nat)
    requires off + Extent(n, es) <= |d| && TypesIn(d, off, es, n) && m < n && 4 <= es
    ensures var x := Entries(d, off, es, n)[m]; |x.bytes| == es && x.marked == IsUnwanted(BigEndian(x.bytes[..4]))
  {
    hide Extent, TypesIn, BigEndian, Entries;
    EntryAt(d, off, es, n, m);
    var at := off + Extent(m, es);
    assert d[at..at + es][..4] == d[at..at + 4];
  }

  /** Nothing unwanted is left among the entries the fixed header counts. */
  lemma NothingMarkedLeft(d: seq<Byte>, e: seq<Byte>, i: nat)
    requires Accepts(d) && Fits(d) && FixesUp(d, e) && Apart(d) && |e| == |d| && i < ReadHeader(e).phnum
    requires 4 <= ReadHeader(d).phentsize
    ensures var h := ReadHeader(d);
      i < h.phnum && TypeIn(e, Ph(h), h.phentsize, i) && !Unwanted(e, Ph(h), h.phentsize, i)
  {
    hide FixesUp, Apart, BigEndian, Extent, Entries, FindSection, Keep, FixedTable, ReadHeader, Flat, TypesIn;
    FixedTableReads(d, e);
    var h := ReadHeader(d);
    var off, es := Ph(h), h.phentsize;
    if Inside(d, h) {
      KeptIsWanted(d, off, es, h.phnum, i);
      var at, x := off + Extent(i, es), Keep(Entries(d, off, es, h.phnum))[i];
      assert e[at..at + es] == x.bytes;
      assert e[at..at + 4] == x.bytes[..4];
    } else {
      EarlierTypeIn(d, off, es, h.phnum, i);
      ReadSame(d, e, off + Extent(i, es), 4, true) by { SameBehind(d, e, off, off + Extent(i, es)); }
    }
  }

  lemma SameBehind(d: seq<Byte>, e: seq<Byte>, off: nat, at: nat)
    requires off <= at && at + 4 <= |d| == |e| && e[off..] == d[off..]
    ensures forall k :: at <= k < at + 4 ==> d[k] == e[k]
  {
    forall k | at <= k < at + 4 ensures d[k] == e[k] {
      assert d[k] == d[off..][k - off] && e[k] == e[off..][k - off];
    }
  }

  lemma KeptIsWanted(d: seq<Byte>, off: nat, es: nat, n: nat, i: nat)
    requires off + Extent(n, es) <= |d| && TypesIn(d, off, es, n) && 4 <= es
    requires i < |Keep(Entries(d, off, es, n))|
    ensures var T := Entries(d, off, es, n);
      |Keep(T)| <= n && i < |FixedTable(T, es)| && FixedTable(T, es)[i] == Keep(T)[i] && |Keep(T)[i].bytes| == es
      && !IsUnwanted(BigEndian(Keep(T)[i].bytes[..4]))
  {
    hide BigEndian, Extent, Entries, Keep, TypesIn, IsUnwanted;
    var T := Entries(d, off, es, n);
    KeepFits(T, es);
    var m :| 0 <= m < |T| && T[m] == Keep(T)[i];
    OwnType(d, off, es, n, m);
  }

  // ---------- In bytes ----------

  /** The tool accepts what has the magic number and the byte order 2, and reads the fields of a 32-bit
      ELF header. */
  lemma HeaderIsLaidOut(d: seq<Byte>)
    requires |d| >= 50
    ensures Accepts(d) <==>
      d[0] == 0x7f && d[1] == 'E' as int && d[2] == 'L' as int && d[3] == 'F' as int && d[5] == 2
    ensures var h, f := ReadHeader(d), Elf.FileHeader(4);
      && Elf.Start(f, Elf.PHOFF) + 4 <= |d| && Elf.Start(f, Elf.SHOFF) + 4 <= |d|
      && Elf.Start(f, Elf.PHENTSIZE) + 2 <= |d| && Elf.Start(f, Elf.PHNUM) + 2 <= |d|
      && Elf.Start(f, Elf.SHENTSIZE) + 2 <= |d| && Elf.Start(f, Elf.SHNUM) + 2 <= |d|
      && h.phoff == Elf.Field(d, 0, f, Elf.PHOFF, true) && h.shoff == Elf.Field(d, 0, f, Elf.SHOFF, true)
      && h.phentsize == Elf.Field(d, 0, f, Elf.PHENTSIZE, true) && h.phnum == Elf.Field(d, 0, f, Elf.PHNUM, true)
      && h.shentsize == Elf.Field(d, 0, f, Elf.SHENTSIZE, true) && h.shnum == Elf.Field(d, 0, f, Elf.SHNUM, true)
  {
    hide Read;
    Elf.FileHeaderStarts(4);
    assert d[..4] == [d[0], d[1], d[2], d[3]];
  }

  /** What has to lie in the file: the types of all program headers and, if one of them has to go, the whole
      table; the types of the section headers up to the one that is found, and that header. */
  lemma TablesFitExactly(d: seq<Byte>, h: Header)
    ensures TablesFit(d, h) <==>
      && (h.phnum > 0 ==> h.phoff + (h.phnum - 1) * h.phentsize + 4 <= |d|)
      && (h.phnum == 0 || h.phoff + h.phnum * h.phentsize <= |d| || NoneUnwanted(d, h.phoff, h.phentsize, h.phnum))
      && exists s: nat :: IsFirstSection(d, h, 0, s) && (s < h.shnum ==> h.shoff + s * h.shentsize + h.shentsize <= |d|)
  {
    hide FindSection, NoneUnwanted, IsFirstSection;
    assert h.phnum == 0 ==> NoneUnwanted(d, Ph(h), h.phentsize, h.phnum) by { NoneOfNone(d, Ph(h), h.phentsize); }
    forall s: nat {
      SectionIsFirst(d, h, 0, s);
    }
    if FindSection(d, h, 0).Some? {
      assert IsFirstSection(d, h, 0, FindSection(d, h, 0).value);
    }
  }

  lemma NoneOfNone(d: seq<Byte>, off: nat, es: nat)
    ensures NoneUnwanted(d, off, es, 0)
  {
  }

  lemma FourIs(d: seq<Byte>, at: nat, a: Byte, b: Byte, c: Byte, e: Byte)
    requires at + 4 <= |d|
    ensures Read(d, at, 4, true) == Four(a, b, c, e) <==> d[at..at + 4] == [a, b, c, e]
  {
    hide BigEndian, Four;
    FourBytes(a, b, c, e);
    OneRepresentation(d[at..at + 4], [a, b, c, e]);
  }

  /** A program header has to go if its type is 0x70000003 or 6. */
  lemma UnwantedExactly(d: seq<Byte>, off: nat, es: nat, i: nat)
    requires off + i * es + 4 <= |d|
    ensures TypeIn(d, off, es, i)
    ensures var t := d[off + i * es..off + i * es + 4];
      Unwanted(d, off, es, i) <==> t == [0x70, 0, 0, 3] || t == [0, 0, 0, 6]
  {
    hide Read;
    FourIs(d, off + i * es, 0x70, 0, 0, 3);
    FourIs(d, off + i * es, 0, 0, 0, 6);
  }

  /** The type of section header i is 0x7000002a. */
  ghost predicate IsAbiflags(d: seq<Byte>, shoff: nat, es: nat, i: nat)
  {
    shoff + i * es + 8 <= |d| && d[shoff + i * es + 4..shoff + i * es + 8] == [0x70, 0, 0, 0x2a]
  }

  lemma SectionTypeExactly(d: seq<Byte>, h: Header, i: nat)
    requires i < h.shnum
    ensures SectionTypeIn(d, h, i) && SectionType(d, h, i) == SHT_MIPS_ABIFLAGS <==>
      IsAbiflags(d, h.shoff, h.shentsize, i)
  {
    hide Read;
    if h.shoff + i * h.shentsize + 8 <= |d| {
      FourIs(d, h.shoff + i * h.shentsize + 4, 0x70, 0, 0, 0x2a);
    }
  }

  /** With es and n the values of e_shentsize and e_shnum, section header i < n is the first of that type, and
      it begins at from. */
  ghost predicate AbiflagsAt(d: seq<Byte>, shoff: nat, es: nat, i: nat, from: nat)
  {
    && |d| >= 50 && shoff == Four(d[32], d[33], d[34], d[35]) && es == Two(d[46], d[47])
    && i < Two(d[48], d[49]) && from == shoff + i * es
    && IsAbiflags(d, shoff, es, i) && forall j: nat :: j < i ==> !IsAbiflags(d, shoff, es, j)
  }

  ghost predicate AllZero(e: seq<Byte>, from: nat, n: nat)
  {
    from + n <= |e| && forall k :: from <= k < from + n ==> e[k] == 0
  }

  /** All es bytes of it are zero afterwards. */
  lemma SectionIsZeroed(d: seq<Byte>, e: seq<Byte>, shoff: nat, es: nat, i: nat, from: nat)
    requires Accepts(d) && Fits(d) && FixesUp(d, e) && AbiflagsAt(d, shoff, es, i, from)
    ensures |e| == |d| && AllZero(e, from, es)
  {
    var h := ReadHeader(d);
    SectionFields(d);
    hide Two, Four, ReadHeader, IsAbiflags, FixesUp, Fits, IsFirstSection;
    var s := FoundSection(d, h);
    SectionFound(d, h, i, s);
    ZeroedBytes(d, e, h, s);
  }

  lemma SectionFields(d: seq<Byte>)
    requires |d| >= 50
    ensures var h := ReadHeader(d);
      h.shoff == Four(d[32], d[33], d[34], d[35]) && h.shentsize == Two(d[46], d[47]) && h.shnum == Two(d[48], d[49])
  {
    hide Read;
    ReadsFour(d, 32);
    ReadsTwo(d, 46);
    ReadsTwo(d, 48);
  }

  lemma FoundSection(d: seq<Byte>, h: Header) returns (s: nat)
    requires Accepts(d) && Fits(d) && h == ReadHeader(d)
    ensures FindSection(d, h, 0) == Some(s) && IsFirstSection(d, h, 0, s) && s <= h.shnum
  {
    hide ReadHeader, FindSection, NoneUnwanted, TypesIn, SectionType, SectionTypeIn;
    s := FindSection(d, h, 0).value;
    SectionIsFirst(d, h, 0, s);
  }

  lemma SectionFound(d: seq<Byte>, h: Header, i: nat, s: nat)
    requires IsFirstSection(d, h, 0, s) && i < h.shnum && IsAbiflags(d, h.shoff, h.shentsize, i)
    requires forall j: nat :: j < i ==> !IsAbiflags(d, h.shoff, h.shentsize, j)
    ensures s == i
  {
    hide SectionType, SectionTypeIn, IsAbiflags;
    SectionTypeExactly(d, h, i);
    if s < h.shnum {
      SectionTypeExactly(d, h, s);
    }
  }

  lemma ZeroedBytes(d: seq<Byte>, e: seq<Byte>, h: Header, s: nat)
    requires Accepts(d) && Fits(d) && FixesUp(d, e) && h == ReadHeader(d)
    requires FindSection(d, h, 0) == Some(s) && s < h.shnum
    ensures |e| == |d| && AllZero(e, h.shoff + s * h.shentsize, h.shentsize)
  {
    hide ReadHeader, FindSection, WithTable, Entries, Keep, NoneUnwanted, TypesIn;
    var from := h.shoff + s * h.shentsize;
    forall k | from <= k < from + h.shentsize ensures e[k] == 0 {
      assert e[k] == e[from..from + h.shentsize][k - from];
    }
  }

  // ---------- Entries smaller than a type ----------

  function TinyByte(i: nat, count: Byte): Byte
  {
    match i
    case 0 => 0x7f
    case 1 => 0x45
    case 2 => 0x4c
    case 3 => 0x46
    case 4 => 1
    case 5 => 2
    case 31 => 52
    case 43 => 1
    case 45 => count
    case 56 => 6
    case _ => 0
  }

  /** A file with count program headers of one byte at 52. */
  function Tiny(count: Byte): (d: seq<Byte>)
    ensures |d| == 58 && forall i :: 0 <= i < 58 ==> d[i] == TinyByte(i, count)
  {
    seq(58, i requires 0 <= i < 58 => TinyByte(i, count))
  }

  lemma TinyField(count: Byte, off: nat, width: nat)
    requires 0 < width && off + width <= 58 && forall i :: off <= i < off + width - 1 ==> TinyByte(i, count) == 0
    ensures Read(Tiny(count), off, width, true) == TinyByte(off + width - 1, count)
  {
    var d := Tiny(count);
    assert d[off..off + width] == Zeros(width - 1) + [TinyByte(off + width - 1, count)];
    BigEndianSmall(TinyByte(off + width - 1, count), width - 1);
  }

  lemma TinyFields(count: Byte)
    ensures var d := Tiny(count);
      && ReadHeader(d) == Header(52, 0, 1, count, 0, 0)
      && Read(d, 52, 4, true) == 0 && Read(d, 53, 4, true) == 6
  {
    hide Read, Tiny;
    TinyField(count, 28, 4);
    TinyField(count, 32, 4);
    TinyField(count, 42, 2);
    TinyField(count, 44, 2);
    TinyField(count, 46, 2);
    TinyField(count, 48, 2);
    TinyField(count, 52, 4);
    TinyField(count, 53, 4);
  }

  lemma TinyStart(count: Byte)
    ensures Accepts(Tiny(count)) && Tiny(count)[54..58] == [0, 0, 6, 0] && Tiny(count)[52..55] == [0, 0, 0]
  {
  }

  lemma TinyTable(d: seq<Byte>)
    requires d == Tiny(3)
    ensures TypesIn(d, 52, 1, 3)
    ensures Entries(d, 52, 1, 3) == [Entry([0], false), Entry([0], true), Entry([0], false)]
  {
    TinyFields(3);
    TinyStart(3);
    hide Read, Tiny, TinyByte;
    var last := d[54..58];
    assert Read(d, 54, 4, true) == 0x600 by { LastType(d); }
    assert d[52..53] == d[53..54] == d[54..55] == [0] by {
      assert d[52..53] == d[52..55][..1] && d[53..54] == d[52..55][1..2] && d[54..55] == d[52..55][2..];
    }
    assert Entries(d, 55, 1, 0) == [];
    assert Entries(d, 54, 1, 1) == [Entry([0], false)];
    assert Entries(d, 53, 1, 2) == [Entry([0], true)] + Entries(d, 54, 1, 1);
    assert Entries(d, 52, 1, 3) == [Entry([0], false)] + Entries(d, 53, 1, 2);
  }

  lemma LastType(d: seq<Byte>)
    requires |d| == 58 && d[54..58] == [0, 0, 6, 0]
    ensures Read(d, 54, 4, true) == 0x600
  {
    var z: seq<Byte> := [0, 0];
    ZerosAreZero(2);
    assert BigEndian(z) == 0 by { assert z == Zeros(2); }
    assert BigEndian(z + [6]) == 6 by { assert (z + [6])[..2] == z; }
    var s := z + [6] + [0];
    assert s[..3] == z + [6];
    assert d[54..58] == s;
  }

  /** Types of entries smaller than 4 bytes overlap: taking one entry out of three leaves a type that
      is to go among the two that are counted. */
  lemma TinyEntriesKeepType(d: seq<Byte>, e: seq<Byte>)
    requires d == Tiny(3) && e == Tiny(2)
    ensures Accepts(d) && Fits(d) && Apart(d) && FixesUp(d, e)
    ensures ReadHeader(e).phnum == 2 && TypeIn(e, 52, 1, 1) && Unwanted(e, 52, 1, 1)
  {
    TinyStart(3);
    TinyFields(3);
    TinyFields(2);
    TinyTable(d);
    var h := ReadHeader(d);
    var T: seq<Entry> := [Entry([0], false), Entry([0], true), Entry([0], false)];
    TinyKept(T);
    assert WithTable(d, h) == d by {
      assert d[..52] + [0, 0, 0] + d[55..] == d;
    }
    assert e == Splice(d, E_PHNUM, Be16(2));
    assert FindSection(d, h, 0) == Some(0);
  }

  lemma TinyKept(T: seq<Entry>)
    requires T == [Entry([0], false), Entry([0], true), Entry([0], false)]
    ensures |Keep(T)| == 2 && Flat(FixedTable(T, 1)) == [0, 0, 0]
  {
    var a, z := Entry([0], false), ZeroEntry(1);
    assert T[1..][1..] == [a] && [a][1..] == [];
    assert Keep([a]) == [a];
    assert Keep(T[1..]) == [a];
    assert Keep(T) == [a, a];
    assert ZeroEntries(1, 1) == [z];
    var F := [a, a, z];
    assert FixedTable(T, 1) == F;
    assert F[1..] == [a, z] && [a, z][1..] == [z] && [z][1..] == [];
    assert Zeros(1) == [0];
    assert Flat([z]) == [0];
    assert Flat([a, z]) == [0, 0];
  }
}
