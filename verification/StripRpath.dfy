/** Taking DT_RPATH and DT_RUNPATH out of the dynamic section of an ELF file in place. */
module StripRpath {
  import opened Bytes
  import opened Common
  import Elf

  const DT_RPATH: nat := 15
  const DT_RUNPATH: nat := 29
  const DT_DEBUG: Byte := 21
  const PT_DYNAMIC: nat := 2

  predicate IsRpath(tag: nat)
  {
    tag == DT_RPATH || tag == DT_RUNPATH
  }

  // ---------- The dynamic table ----------

  /** A table of (tag, value) pairs of w-byte words. */
  datatype Table = Table(start: nat, end: nat, w: nat, big: bool)

  function Debug(w: nat, big: bool): (r: seq<Byte>)
    requires w > 0
    ensures |r| == 2 * w
  {
    Small(DT_DEBUG, w, big) + Small(0, w, big)
  }

  function Tag(d: seq<Byte>, pos: nat, t: Table): nat
    requires pos + t.w <= |d|
  {
    Read(d, pos, t.w, t.big)
  }

  /** The bytes with every RPATH entry from pos on replaced, up to DT_NULL or the end of the
      table; None when an entry lies beyond the end of the file. */
  function StripFrom(d: seq<Byte>, pos: nat, t: Table): Option<seq<Byte>>
    requires t.w > 0
    decreases t.end - pos
  {
    if pos + 2 * t.w > t.end then Some(d)
    else if pos + 2 * t.w > |d| then None
    else if Tag(d, pos, t) == 0 then Some(d)
    else if IsRpath(Tag(d, pos, t)) then StripFrom(Splice(d, pos, Debug(t.w, t.big)), pos + 2 * t.w, t)
    else StripFrom(d, pos + 2 * t.w, t)
  }

  method WriteDebug(a: array<Byte>, pos: nat, t: Table)
    requires t.w > 0 && pos + 2 * t.w <= a.Length
    modifies a
    ensures a[..] == Splice(old(a[..]), pos, Debug(t.w, t.big))
  {
    var entry := Debug(t.w, t.big);
    forall j | 0 <= j < |entry| {
      a[pos + j] := entry[j];
    }
    ghost var d := old(a[..]);
    assert a[..pos] == d[..pos];
    assert a[pos..pos + |entry|] == entry;
    assert a[pos + |entry|..] == d[pos + |entry|..];
    assert a[..] == a[..pos] + a[pos..pos + |entry|] + a[pos + |entry|..];
  }

  /** Scan the table and overwrite its RPATH entries. */
  method StripTable(a: array<Byte>, t: Table) returns (crashed: bool, modified: bool)
    requires t.w > 0
    modifies a
    ensures crashed <==> StripFrom(old(a[..]), t.start, t).None?
    ensures !crashed ==> a[..] == StripFrom(old(a[..]), t.start, t).value
    ensures modified <==> a[..] != old(a[..])
  {
    hide Tag, Debug, Splice;
    crashed, modified := false, false;
    var pos := t.start;
    while pos + 2 * t.w <= t.end
      invariant StripFrom(old(a[..]), t.start, t) == StripFrom(a[..], pos, t)
      invariant !modified ==> a[..] == old(a[..])
      invariant modified ==> exists k :: 0 <= k < a.Length && k < pos && a[k] != old(a[k])
      invariant forall k :: pos <= k < a.Length ==> a[k] == old(a[k])
      decreases t.end - pos
    {
      if pos + 2 * t.w > a.Length {
        return true, modified;
      }
      var tag := Tag(a[..], pos, t);
      if tag == 0 {
        return;
      }
      if IsRpath(tag) {
        ghost var d := a[..];
        WriteDebug(a, pos, t);
        modified := true;
        ghost var k := DebugDiffers(d, pos, t);
        assert d[k] == old(a[k]);
      }
      pos := pos + 2 * t.w;
    }
  }

  /** Replacing an RPATH entry changes some byte of it. */
  lemma DebugDiffers(d: seq<Byte>, pos: nat, t: Table) returns (k: nat)
    requires t.w > 0 && pos + 2 * t.w <= |d| && IsRpath(Tag(d, pos, t))
    ensures pos <= k < pos + 2 * t.w && Splice(d, pos, Debug(t.w, t.big))[k] != d[k]
  {
    var e := Splice(d, pos, Debug(t.w, t.big));
    DebugTag(d, pos, t);
    if forall k :: pos <= k < pos + 2 * t.w ==> e[k] == d[k] {
      ReadSame(d, e, pos, t.w, t.big);
    }
    k :| pos <= k < pos + 2 * t.w && e[k] != d[k];
  }

  // ---------- What the scan does ----------

  /** pos is the position of an entry that the scan gets to: no DT_NULL comes before it or at it. */
  ghost predicate Live(d: seq<Byte>, from: nat, t: Table, pos: nat)
    requires t.w > 0
    decreases t.end - from
  {
    from + 2 * t.w <= t.end && from + 2 * t.w <= |d| && Tag(d, from, t) != 0
    && (pos == from || Live(d, from + 2 * t.w, t, pos))
  }

  /** The bytes of the entry at pos. */
  function Entry(d: seq<Byte>, pos: nat, t: Table): seq<Byte>
    requires pos + 2 * t.w <= |d|
  {
    d[pos..pos + 2 * t.w]
  }

  lemma {:induction false} LiveFits(d: seq<Byte>, from: nat, t: Table, pos: nat)
    requires t.w > 0 && Live(d, from, t, pos)
    ensures from <= pos && pos + 2 * t.w <= t.end && pos + 2 * t.w <= |d|
    decreases t.end - from
  {
    if pos != from {
      LiveFits(d, from + 2 * t.w, t, pos);
    }
  }

  /** Changing bytes below from does not matter to the scan from there. */
  lemma {:induction false} LiveSame(d: seq<Byte>, e: seq<Byte>, from: nat, t: Table, pos: nat)
    requires t.w > 0 && |d| == |e| && forall k :: from <= k < |d| ==> d[k] == e[k]
    ensures Live(d, from, t, pos) <==> Live(e, from, t, pos)
    decreases t.end - from
  {
    if from + 2 * t.w <= t.end && from + 2 * t.w <= |d| {
      ReadSame(d, e, from, t.w, t.big);
      LiveSame(d, e, from + 2 * t.w, t, pos);
    }
  }

  /** Every live RPATH entry becomes (DT_DEBUG, 0), every other byte stays. */
  ghost predicate Stripped(d: seq<Byte>, e: seq<Byte>, from: nat, t: Table)
    requires t.w > 0
  {
    && |e| == |d|
    && (forall pos: nat {:trigger Live(d, from, t, pos)} ::
          Live(d, from, t, pos) && pos + 2 * t.w <= |d| && IsRpath(Tag(d, pos, t))
          ==> Entry(e, pos, t) == Debug(t.w, t.big))
    && (forall k :: 0 <= k < |d| && e[k] != d[k] ==>
          exists pos: nat ::
            Live(d, from, t, pos) && pos + 2 * t.w <= |d| && IsRpath(Tag(d, pos, t)) && pos <= k < pos + 2 * t.w)
  }

  /** The scan gets past the entry at from. */
  ghost predicate Passes(d: seq<Byte>, from: nat, t: Table)
    requires t.w > 0
  {
    from + 2 * t.w <= t.end && from + 2 * t.w <= |d| && Tag(d, from, t) != 0
  }

  /** The bytes when it has. */
  function AfterOne(d: seq<Byte>, from: nat, t: Table): (m: seq<Byte>)
    requires t.w > 0 && from + 2 * t.w <= |d|
    ensures |m| == |d| && forall k :: 0 <= k < |d| && !(from <= k < from + 2 * t.w) ==> m[k] == d[k]
    ensures m != d ==> IsRpath(Tag(d, from, t))
  {
    if IsRpath(Tag(d, from, t)) then Splice(d, from, Debug(t.w, t.big)) else d
  }

  lemma StripStep(d: seq<Byte>, from: nat, t: Table)
    requires t.w > 0 && StripFrom(d, from, t).Some?
    ensures StripFrom(d, from, t)
         == if Passes(d, from, t) then StripFrom(AfterOne(d, from, t), from + 2 * t.w, t) else Some(d)
  {
  }

  lemma {:induction false} StripKeepsBelow(d: seq<Byte>, from: nat, t: Table)
    requires t.w > 0 && StripFrom(d, from, t).Some?
    ensures |StripFrom(d, from, t).value| == |d|
    ensures forall k :: 0 <= k < from && k < |d| ==> StripFrom(d, from, t).value[k] == d[k]
    decreases t.end - from
  {
    if Passes(d, from, t) {
      StripKeepsBelow(AfterOne(d, from, t), from + 2 * t.w, t);
    }
  }

  /** The entries that are still to come are live before and after the one at from is dealt with. */
  lemma LiveAfterOne(d: seq<Byte>, from: nat, t: Table, pos: nat)
    requires t.w > 0 && Passes(d, from, t)
    ensures var m, next := AfterOne(d, from, t), from + 2 * t.w;
      (Live(d, from, t, pos) && pos != from) <==> Live(m, next, t, pos)
    ensures Live(d, from, t, pos) && pos != from ==>
      from + 2 * t.w <= pos && pos + 2 * t.w <= |d| && Tag(AfterOne(d, from, t), pos, t) == Tag(d, pos, t)
  {
    var m, next := AfterOne(d, from, t), from + 2 * t.w;
    LiveSame(d, m, next, t, pos);
    if Live(m, next, t, pos) {
      LiveFits(m, next, t, pos);
      ReadSame(d, m, pos, t.w, t.big);
    }
  }

  /** A live RPATH entry becomes (DT_DEBUG, 0). */
  lemma {:induction false} EntryReplaced(d: seq<Byte>, from: nat, t: Table, pos: nat)
    requires t.w > 0 && StripFrom(d, from, t).Some?
    requires Live(d, from, t, pos) && pos + 2 * t.w <= |d| && IsRpath(Tag(d, pos, t))
    ensures |StripFrom(d, from, t).value| == |d| && Entry(StripFrom(d, from, t).value, pos, t) == Debug(t.w, t.big)
    decreases t.end - from
  {
    var m, next := AfterOne(d, from, t), from + 2 * t.w;
    StripKeepsBelow(m, next, t);
    if pos == from {
      assert Entry(StripFrom(d, from, t).value, from, t) == Entry(m, from, t);
    } else {
      LiveAfterOne(d, from, t, pos);
      EntryReplaced(m, next, t, pos);
    }
  }

  /** A byte that changes belongs to a live RPATH entry. */
  lemma {:induction false} ChangedByte(d: seq<Byte>, from: nat, t: Table, k: nat) returns (pos: nat)
    requires t.w > 0 && StripFrom(d, from, t).Some? && k < |d| == |StripFrom(d, from, t).value|
    requires StripFrom(d, from, t).value[k] != d[k]
    ensures Live(d, from, t, pos) && pos + 2 * t.w <= |d| && IsRpath(Tag(d, pos, t)) && pos <= k < pos + 2 * t.w
    decreases t.end - from
  {
    hide StripFrom, AfterOne, Tag;
    StripStep(d, from, t);
    var m, next := AfterOne(d, from, t), from + 2 * t.w;
    if m[k] != d[k] {
      pos := from;
    } else {
      StripKeepsBelow(m, next, t);
      pos := ChangedByte(m, next, t, k);
      LiveAfterOne(d, from, t, pos);
    }
  }

  /** What stripping does to a table, for every word size and byte order. */
  lemma StripStrips(d: seq<Byte>, from: nat, t: Table)
    requires t.w > 0 && StripFrom(d, from, t).Some?
    ensures Stripped(d, StripFrom(d, from, t).value, from, t)
  {
    hide StripFrom, Live, Debug;
    var e := StripFrom(d, from, t).value;
    StripKeepsBelow(d, from, t);
    forall pos: nat | Live(d, from, t, pos) && pos + 2 * t.w <= |d| && IsRpath(Tag(d, pos, t))
      ensures Entry(e, pos, t) == Debug(t.w, t.big)
    {
      EntryReplaced(d, from, t, pos);
    }
    forall k | 0 <= k < |d| && e[k] != d[k]
      ensures exists pos: nat ::
        Live(d, from, t, pos) && pos + 2 * t.w <= |d| && IsRpath(Tag(d, pos, t)) && pos <= k < pos + 2 * t.w
    {
      var pos := ChangedByte(d, from, t, k);
    }
  }

  lemma DebugTag(d: seq<Byte>, pos: nat, t: Table)
    requires t.w > 0 && pos + 2 * t.w <= |d|
    ensures Tag(Splice(d, pos, Debug(t.w, t.big)), pos, t) == DT_DEBUG
  {
    hide Small;
    var e := Splice(d, pos, Debug(t.w, t.big));
    assert e[pos..pos + t.w] == Small(DT_DEBUG, t.w, t.big) by {
      assert e[pos..pos + 2 * t.w] == Debug(t.w, t.big);
      assert e[pos..pos + t.w] == e[pos..pos + 2 * t.w][..t.w];
    }
    SmallReads(DT_DEBUG, t.w, t.big);
    assert Small(DT_DEBUG, t.w, t.big)[0..t.w] == Small(DT_DEBUG, t.w, t.big);
  }

  /** Some entry that the scan gets to is an RPATH. */
  ghost predicate LiveRpath(d: seq<Byte>, from: nat, t: Table)
    requires t.w > 0
  {
    exists pos: nat {:trigger Live(d, from, t, pos)} ::
      Live(d, from, t, pos) && pos + 2 * t.w <= |d| && IsRpath(Tag(d, pos, t))
  }

  /** A table stays as it is exactly when the scan gets to no RPATH. */
  lemma StripKeepsExactly(d: seq<Byte>, from: nat, t: Table)
    requires t.w > 0 && StripFrom(d, from, t).Some?
    ensures StripFrom(d, from, t) == Some(d) <==> !LiveRpath(d, from, t)
  {
    hide StripFrom, Live, Tag, Debug;
    var e := StripFrom(d, from, t).value;
    StripStrips(d, from, t);
    if LiveRpath(d, from, t) {
      var pos: nat :| Live(d, from, t, pos) && pos + 2 * t.w <= |d| && IsRpath(Tag(d, pos, t));
      assert Splice(d, pos, Debug(t.w, t.big))[pos..pos + 2 * t.w] == Entry(e, pos, t);
      DebugTag(d, pos, t);
      EntryTag(e, Splice(d, pos, Debug(t.w, t.big)), pos, t);
    } else {
      assert e == d;
    }
  }

  lemma EntryTag(d: seq<Byte>, e: seq<Byte>, pos: nat, t: Table)
    requires t.w > 0 && pos + 2 * t.w <= |d| && pos + 2 * t.w <= |e| && Entry(d, pos, t) == Entry(e, pos, t)
    ensures Tag(d, pos, t) == Tag(e, pos, t)
  {
    assert d[pos..pos + t.w] == Entry(d, pos, t)[..t.w] == Entry(e, pos, t)[..t.w] == e[pos..pos + t.w];
  }

  /** What the scan leaves at its current position: a tag that is neither DT_NULL nor an RPATH. */
  lemma AfterEntry(d: seq<Byte>, from: nat, t: Table)
    requires t.w > 0 && StripFrom(d, from, t).Some?
    requires from + 2 * t.w <= t.end && from + 2 * t.w <= |d| && Tag(d, from, t) != 0
    ensures from + 2 * t.w <= |StripFrom(d, from, t).value|
    ensures Tag(StripFrom(d, from, t).value, from, t) == if IsRpath(Tag(d, from, t)) then DT_DEBUG else Tag(d, from, t)
  {
    var m := AfterOne(d, from, t);
    StripKeepsBelow(m, from + 2 * t.w, t);
    ReadSame(m, StripFrom(d, from, t).value, from, t.w, t.big);
    if IsRpath(Tag(d, from, t)) {
      DebugTag(d, from, t);
    }
  }

  /** Stripping a stripped table changes nothing. */
  lemma {:induction false} StripTwice(d: seq<Byte>, from: nat, t: Table)
    requires t.w > 0 && StripFrom(d, from, t).Some?
    ensures StripFrom(StripFrom(d, from, t).value, from, t) == StripFrom(d, from, t)
    decreases t.end - from
  {
    if from + 2 * t.w <= t.end && from + 2 * t.w <= |d| && Tag(d, from, t) != 0 {
      AfterEntry(d, from, t);
      StripTwice(AfterOne(d, from, t), from + 2 * t.w, t);
    }
  }

  /** In numbers: an entry that the scan gets to with the tag 15 or 29 has the tag 21 and the value 0
      afterwards, and one with another tag keeps its bytes. */
  lemma ReplacedReads(d: seq<Byte>, from: nat, t: Table, pos: nat)
    requires t.w > 0 && StripFrom(d, from, t).Some? && Live(d, from, t, pos) && pos + 2 * t.w <= |d|
    ensures var e, tag := StripFrom(d, from, t).value, Read(d, pos, t.w, t.big);
      && |e| == |d|
      && if tag == 15 || tag == 29 then Read(e, pos, t.w, t.big) == 21 && Read(e, pos + t.w, t.w, t.big) == 0
         else e[pos..pos + 2 * t.w] == d[pos..pos + 2 * t.w]
  {
    hide StripFrom, Live, Debug, Read;
    StripKeepsBelow(d, from, t);
    if IsRpath(Tag(d, pos, t)) {
      EntryReplaced(d, from, t, pos);
      DebugReads(StripFrom(d, from, t).value, pos, t);
    } else {
      OthersStay(d, from, t, pos);
    }
  }

  lemma DebugReads(e: seq<Byte>, pos: nat, t: Table)
    requires t.w > 0 && pos + 2 * t.w <= |e| && Entry(e, pos, t) == Debug(t.w, t.big)
    ensures Read(e, pos, t.w, t.big) == 21 && Read(e, pos + t.w, t.w, t.big) == 0
  {
    hide Small, Read;
    var s := Entry(e, pos, t);
    assert e[pos..pos + t.w] == s[..t.w] == Small(21, t.w, t.big);
    assert e[pos + t.w..pos + t.w + t.w] == s[t.w..] == Small(0, t.w, t.big);
    SmallReads(21, t.w, t.big);
    SmallReads(0, t.w, t.big);
    SameBytes(e, pos, Small(21, t.w, t.big), t.w, t.big);
    SameBytes(e, pos + t.w, Small(0, t.w, t.big), t.w, t.big);
  }

  lemma SameBytes(e: seq<Byte>, off: nat, s: seq<Byte>, w: nat, big: bool)
    requires off + w <= |e| && |s| == w && e[off..off + w] == s
    ensures Read(e, off, w, big) == Read(s, 0, w, big)
  {
    assert s[0..w] == s;
  }

  /** Entries do not overlap. */
  lemma {:induction false} LiveApart(d: seq<Byte>, from: nat, t: Table, p: nat, q: nat)
    requires t.w > 0 && Live(d, from, t, p) && Live(d, from, t, q) && p < q
    ensures p + 2 * t.w <= q
    decreases t.end - from
  {
    if p == from {
      LiveFits(d, from + 2 * t.w, t, q);
    } else {
      LiveFits(d, from, t, p);
      LiveApart(d, from + 2 * t.w, t, p, q);
    }
  }

  lemma OthersStay(d: seq<Byte>, from: nat, t: Table, pos: nat)
    requires t.w > 0 && StripFrom(d, from, t).Some? && Live(d, from, t, pos) && pos + 2 * t.w <= |d|
    requires !IsRpath(Tag(d, pos, t)) && |StripFrom(d, from, t).value| == |d|
    ensures Entry(StripFrom(d, from, t).value, pos, t) == Entry(d, pos, t)
  {
    hide StripFrom, Live, Debug, Tag;
    var e := StripFrom(d, from, t).value;
    forall k | pos <= k < pos + 2 * t.w ensures e[k] == d[k] {
      if e[k] != d[k] {
        var p := ChangedByte(d, from, t, k);
        if p < pos {
          LiveApart(d, from, t, p, pos);
        } else if pos < p {
          LiveApart(d, from, t, pos, p);
        }
      }
    }
  }

  // ---------- The check that reads the result ----------

  /** The checker scans while the position, not the whole entry, is inside the table: it also
      looks at a partial entry at the end. None when it reads beyond the file. */
  function FindsRpath(d: seq<Byte>, pos: nat, t: Table): Option<bool>
    requires t.w > 0
    decreases t.end - pos
  {
    if pos >= t.end then Some(false)
    else if pos + 2 * t.w > |d| then None
    else if Tag(d, pos, t) == 0 then Some(false)
    else if IsRpath(Tag(d, pos, t)) then
      (match FindsRpath(d, pos + 2 * t.w, t) case None => None case Some(_) => Some(true))
    else FindsRpath(d, pos + 2 * t.w, t)
  }

  /** The table ends with a partial entry, not preceded by DT_NULL, that has an RPATH tag. */
  predicate PartialRpath(d: seq<Byte>, pos: nat, t: Table)
    requires t.w > 0
    decreases t.end - pos
  {
    pos < t.end && pos + 2 * t.w <= |d| && Tag(d, pos, t) != 0
    && if pos + 2 * t.w <= t.end then PartialRpath(d, pos + 2 * t.w, t) else IsRpath(Tag(d, pos, t))
  }

  lemma {:induction false} PartialSame(d: seq<Byte>, e: seq<Byte>, pos: nat, t: Table)
    requires t.w > 0 && |d| == |e| && forall k :: pos <= k < |d| ==> d[k] == e[k]
    ensures PartialRpath(d, pos, t) <==> PartialRpath(e, pos, t)
    decreases t.end - pos
  {
    if pos < t.end && pos + 2 * t.w <= |d| {
      ReadSame(d, e, pos, t.w, t.big);
      if pos + 2 * t.w <= t.end {
        PartialSame(d, e, pos + 2 * t.w, t);
      }
    }
  }

  /** The check finds an RPATH in a stripped table exactly when there is a partial RPATH entry at its end. */
  lemma {:induction false} CheckAfterStrip(d: seq<Byte>, from: nat, t: Table)
    requires t.w > 0 && StripFrom(d, from, t).Some?
    requires FindsRpath(StripFrom(d, from, t).value, from, t).Some?
    ensures FindsRpath(StripFrom(d, from, t).value, from, t).value <==> PartialRpath(d, from, t)
    decreases t.end - from
  {
    StripStrips(d, from, t);
    if from + 2 * t.w <= t.end && from + 2 * t.w <= |d| && Tag(d, from, t) != 0 {
      AfterEntry(d, from, t);
      var m := if IsRpath(Tag(d, from, t)) then Splice(d, from, Debug(t.w, t.big)) else d;
      CheckAfterStrip(m, from + 2 * t.w, t);
      PartialSame(d, m, from + 2 * t.w, t);
    }
  }

  /** There is none when the table holds a whole number n of entries. */
  lemma {:induction false} WholeTableHasNoPartial(d: seq<Byte>, pos: nat, t: Table, n: nat)
    requires t.w > 0 && t.end == pos + n * (2 * t.w)
    ensures !PartialRpath(d, pos, t)
    decreases n
  {
    if n > 0 {
      assert n * (2 * t.w) == (n - 1) * (2 * t.w) + 2 * t.w;
      WholeTableHasNoPartial(d, pos + 2 * t.w, t, n - 1);
    }
  }

  // ---------- Whole files ----------

  datatype Header = NotElf | Truncated | Header(w: nat, big: bool, phoff: nat, phentsize: nat, phnum: nat)

  function ReadHeader(d: seq<Byte>): (h: Header)
    ensures h.Header? ==> h.w == 4 || h.w == 8
  {
    if |d| < 4 || d[..4] != MAGIC then NotElf
    else if |d| < 6 then Truncated
    else
      var big := d[5] == 2;
      if d[4] == 1 then
        if |d| < 46 then Truncated else Header(4, big, Read(d, 28, 4, big), Read(d, 42, 2, big), Read(d, 44, 2, big))
      else if d[4] == 2 then
        if |d| < 58 then Truncated else Header(8, big, Read(d, 32, 8, big), Read(d, 54, 2, big), Read(d, 56, 2, big))
      else NotElf
  }

  datatype Dynamic = Absent | OutOfFile | At(table: Table)

  function Ph(h: Header, i: nat): nat
    requires h.Header?
  {
    h.phoff + i * h.phentsize
  }

  /** The dynamic table that the program header at ph describes. */
  function TableAt(d: seq<Byte>, h: Header, ph: nat): Dynamic
    requires h.Header? && (h.w == 4 || h.w == 8)
  {
    var atOff, atSize := h.w, h.w * 4;
    if ph + atSize + h.w > |d| then OutOfFile
    else
      var off := Read(d, ph + atOff, h.w, h.big);
      At(Table(off, off + Read(d, ph + atSize, h.w, h.big), h.w, h.big))
  }

  /** The first PT_DYNAMIC program header from the i-th on. */
  function FirstDynamic(d: seq<Byte>, h: Header, i: nat): (r: Dynamic)
    requires h.Header? && (h.w == 4 || h.w == 8)
    ensures r.At? ==> r.table.w == h.w
    decreases h.phnum - i
  {
    if i >= h.phnum then Absent
    else if Ph(h, i) + 4 > |d| then OutOfFile
    else if Read(d, Ph(h, i), 4, h.big) == PT_DYNAMIC then TableAt(d, h, Ph(h, i))
    else FirstDynamic(d, h, i + 1)
  }

  /** The header has the layout of its class: a file with the magic number, of class 1 or 2, that reaches to
      the end of e_phnum, and no other file has one. */
  lemma HeaderIsLaidOut(d: seq<Byte>)
    ensures ReadHeader(d).Header? <==>
      && |d| >= 6 && d[0] == 0x7f && d[1] == 'E' as int && d[2] == 'L' as int && d[3] == 'F' as int
      && (d[4] == 1 || d[4] == 2)
      && Elf.Start(Elf.FileHeader(if d[4] == 1 then 4 else 8), Elf.SHENTSIZE) <= |d|
    ensures ReadHeader(d).NotElf? <==>
      || |d| < 4 || d[0] != 0x7f || d[1] != 'E' as int || d[2] != 'L' as int || d[3] != 'F' as int
      || (|d| >= 6 && d[4] != 1 && d[4] != 2)
    ensures var h := ReadHeader(d); h.Header? ==>
      var f := Elf.FileHeader(h.w);
      && h.w == (if d[4] == 1 then 4 else 8) && h.big == (d[5] == 2)
      && Elf.Start(f, Elf.PHOFF) + h.w <= |d| && Elf.Start(f, Elf.PHNUM) + 2 <= |d|
      && Elf.Start(f, Elf.PHENTSIZE) + 2 <= |d|
      && h.phoff == Elf.Field(d, 0, f, Elf.PHOFF, h.big) && h.phentsize == Elf.Field(d, 0, f, Elf.PHENTSIZE, h.big)
      && h.phnum == Elf.Field(d, 0, f, Elf.PHNUM, h.big)
  {
    hide Read, Elf.Start;
    Elf.FileHeaderStarts(4);
    Elf.FileHeaderStarts(8);
    if |d| >= 4 {
      assert d[..4] == [d[0], d[1], d[2], d[3]];
    }
  }

  /** The table is given by p_offset and p_filesz of the program header at ph. */
  lemma TableIsLaidOut(d: seq<Byte>, h: Header, ph: nat)
    requires h.Header? && (h.w == 4 || h.w == 8)
    ensures var f, offset, filesz := Elf.ProgramHeader(h.w), if h.w == 4 then 1 else 2, if h.w == 4 then 4 else 5;
      && ph + Elf.Start(f, offset) + h.w <= ph + Elf.Start(f, filesz) + h.w
      && TableAt(d, h, ph) == if ph + Elf.Start(f, filesz) + h.w > |d| then OutOfFile else
           var start := Elf.Field(d, ph, f, offset, h.big);
           At(Table(start, start + Elf.Field(d, ph, f, filesz, h.big), h.w, h.big))
  {
    hide Read;
    Elf.ProgramHeaderStarts(h.w);
  }

  /** The type of program header j is not in the file, or it is 2. */
  predicate StopsAt(d: seq<Byte>, h: Header, j: nat)
    requires h.Header?
  {
    var ph := h.phoff + j * h.phentsize;
    ph + 4 > |d| || Read(d, ph, 4, h.big) == 2
  }

  /** The first program header at which the search stops decides: its table, if it has the type 2. */
  lemma {:induction false} FirstDynamicExactly(d: seq<Byte>, h: Header, i: nat, k: nat)
    requires h.Header? && (h.w == 4 || h.w == 8) && i <= k <= h.phnum
    requires (forall j: nat :: i <= j < k ==> !StopsAt(d, h, j)) && (k < h.phnum ==> StopsAt(d, h, k))
    ensures FirstDynamic(d, h, i) ==
      if k == h.phnum then Absent
      else
        var ph := h.phoff + k * h.phentsize;
        if ph + 4 > |d| then OutOfFile else TableAt(d, h, ph)
    decreases h.phnum - i
  {
    hide Read, TableAt;
    if i < k {
      assert !StopsAt(d, h, i);
      FirstDynamicExactly(d, h, i + 1, k);
    }
  }

  /** The file after stripping; None when the parser runs off its end, and the file stays as it is. */
  function StripFile(d: seq<Byte>): Option<seq<Byte>>
  {
    var h := ReadHeader(d);
    if h.NotElf? then Some(d)
    else if h.Truncated? then None
    else
      match FirstDynamic(d, h, 0)
      case Absent => Some(d)
      case OutOfFile => None
      case At(t) => if t.start == 0 then Some(d) else StripFrom(d, t.start, t)
  }

  method FindDynamic(a: array<Byte>, h: Header) returns (r: Dynamic)
    requires h.Header? && (h.w == 4 || h.w == 8)
    ensures r == FirstDynamic(a[..], h, 0)
  {
    var i := 0;
    while i < h.phnum
      invariant FirstDynamic(a[..], h, 0) == FirstDynamic(a[..], h, i)
      decreases h.phnum - i
    {
      if Ph(h, i) + 4 > a.Length {
        return OutOfFile;
      }
      if Read(a[..], Ph(h, i), 4, h.big) == PT_DYNAMIC {
        return TableAt(a[..], h, Ph(h, i));
      }
      i := i + 1;
    }
    r := Absent;
  }

  /** Strip one library; the caller writes the bytes back if they were modified. */
  method StripLibrary(a: array<Byte>) returns (crashed: bool, modified: bool)
    modifies a
    ensures crashed <==> StripFile(old(a[..])).None?
    ensures !crashed ==> a[..] == StripFile(old(a[..])).value
    ensures modified <==> a[..] != old(a[..])
  {
    crashed, modified := false, false;
    var h := ReadHeader(a[..]);
    if h.NotElf? {
      return;
    }
    if h.Truncated? {
      return true, false;
    }
    var dyn := FindDynamic(a, h);
    match dyn
    case Absent =>
    case OutOfFile =>
      crashed := true;
    case At(t) =>
      if t.start != 0 {
        crashed, modified := StripTable(a, t);
      }
  }

  /** The dynamic table lies apart from the ELF header and from what is read of the program headers,
      which is five words. */
  ghost predicate Apart(h: Header, t: Table)
    requires h.Header? && (h.w == 4 || h.w == 8)
  {
    && t.start >= (if h.w == 4 then 52 else 64)
    && forall i: nat {:trigger Ph(h, i)} :: i < h.phnum ==> Ph(h, i) + h.w * 5 <= t.start || t.end <= Ph(h, i)
  }

  /** e differs from d only inside the table. */
  ghost predicate SameOutside(d: seq<Byte>, e: seq<Byte>, t: Table)
  {
    |e| == |d| && forall k :: 0 <= k < |d| && !(t.start <= k < t.end) ==> e[k] == d[k]
  }

  lemma StripStaysInside(d: seq<Byte>, t: Table)
    requires t.w > 0 && StripFrom(d, t.start, t).Some?
    ensures SameOutside(d, StripFrom(d, t.start, t).value, t)
  {
    var e := StripFrom(d, t.start, t).value;
    StripStrips(d, t.start, t);
    forall k | 0 <= k < |d| && e[k] != d[k] ensures t.start <= k < t.end {
      var pos: nat :| Live(d, t.start, t, pos) && pos + 2 * t.w <= |d| && IsRpath(Tag(d, pos, t))
          && pos <= k < pos + 2 * t.w;
      LiveFits(d, t.start, t, pos);
    }
  }

  lemma HeaderSame(d: seq<Byte>, e: seq<Byte>, t: Table)
    requires SameOutside(d, e, t) && ReadHeader(d).Header? && t.start >= (if ReadHeader(d).w == 4 then 52 else 64)
    ensures ReadHeader(e) == ReadHeader(d)
  {
    var h := ReadHeader(d);
    assert e[..4] == d[..4];
    if h.w == 4 {
      ReadSame(d, e, 28, 4, h.big);
      ReadSame(d, e, 42, 2, h.big);
      ReadSame(d, e, 44, 2, h.big);
    } else {
      ReadSame(d, e, 32, 8, h.big);
      ReadSame(d, e, 54, 2, h.big);
      ReadSame(d, e, 56, 2, h.big);
    }
  }

  lemma {:induction false} DynamicSame(d: seq<Byte>, e: seq<Byte>, h: Header, t: Table, i: nat)
    requires h.Header? && (h.w == 4 || h.w == 8) && SameOutside(d, e, t) && Apart(h, t)
    ensures FirstDynamic(e, h, i) == FirstDynamic(d, h, i)
    decreases h.phnum - i
  {
    if i < h.phnum && Ph(h, i) + 4 <= |d| {
      var ph := Ph(h, i);
      ReadSame(d, e, ph, 4, h.big);
      if ph + h.w * 5 <= |d| {
        ReadSame(d, e, ph + h.w, h.w, h.big);
        ReadSame(d, e, ph + h.w * 4, h.w, h.big);
      }
      DynamicSame(d, e, h, t, i + 1);
    }
  }

  /** Stripping a stripped file changes nothing, for both classes and byte orders. */
  lemma StripFileTwice(d: seq<Byte>)
    requires StripFile(d).Some?
    requires ReadHeader(d).Header? && FirstDynamic(d, ReadHeader(d), 0).At? ==>
      Apart(ReadHeader(d), FirstDynamic(d, ReadHeader(d), 0).table)
    ensures StripFile(StripFile(d).value) == StripFile(d)
  {
    var h := ReadHeader(d);
    if h.Header? && FirstDynamic(d, h, 0).At? {
      var t := FirstDynamic(d, h, 0).table;
      if t.start != 0 {
        var e := StripFile(d).value;
        StripStaysInside(d, t);
        HeaderSame(d, e, t);
        DynamicSame(d, e, h, t, 0);
        StripTwice(d, t.start, t);
      }
    }
  }

  /** The parser gets through the file, and the table that it finds has no live RPATH. */
  ghost predicate Clean(d: seq<Byte>)
  {
    var h := ReadHeader(d);
    h.NotElf? || (h.Header? &&
      match FirstDynamic(d, h, 0)
      case Absent => true
      case OutOfFile => false
      case At(t) => t.start == 0 || (StripFrom(d, t.start, t).Some? && !LiveRpath(d, t.start, t)))
  }

  /** The files that stripping leaves as they are, wherever their tables lie. */
  lemma StripLeavesExactly(d: seq<Byte>)
    ensures StripFile(d) == Some(d) <==> Clean(d)
  {
    var h := ReadHeader(d);
    if h.Header? && FirstDynamic(d, h, 0).At? {
      var t := FirstDynamic(d, h, 0).table;
      if t.start != 0 && StripFrom(d, t.start, t).Some? {
        StripKeepsExactly(d, t.start, t);
      }
    }
  }

  /** So a second run changes nothing exactly when the first one leaves a clean file. It does when the
      table lies apart from the headers; StripsAgain is a file on which it does not. */
  lemma StripFileTwiceExactly(d: seq<Byte>)
    requires StripFile(d).Some?
    ensures StripFile(StripFile(d).value) == StripFile(d) <==> Clean(StripFile(d).value)
    ensures (ReadHeader(d).Header? && FirstDynamic(d, ReadHeader(d), 0).At? ==>
      Apart(ReadHeader(d), FirstDynamic(d, ReadHeader(d), 0).table)) ==> Clean(StripFile(d).value)
  {
    hide Clean, StripFile, ReadHeader, FirstDynamic, Apart;
    StripLeavesExactly(StripFile(d).value);
    if ReadHeader(d).Header? && FirstDynamic(d, ReadHeader(d), 0).At? ==>
      Apart(ReadHeader(d), FirstDynamic(d, ReadHeader(d), 0).table)
    {
      StripFileTwice(d);
    }
  }

  // ---------- A table that lies over its own program header ----------

  /** The place of the table is 15 and the file has it at 63, where the scan from 15 reads it as an RPATH. */
  function OverlapByte(i: nat, place: Byte): Byte
  {
    match i
    case 0 => 0x7f
    case 1 => 0x45
    case 2 => 0x4c
    case 3 => 0x46
    case 4 => 1
    case 5 => 2
    case 18 => 1
    case 24 => 15
    case 31 => 59
    case 41 => 52
    case 43 => 32
    case 45 => 1
    case 50 => 1
    case 58 => 1
    case 62 => 2
    case 66 => place
    case 78 => 64
    case _ => 0
  }

  function Overlap(place: Byte): (d: seq<Byte>)
    ensures |d| == 79 && forall i :: 0 <= i < 79 ==> d[i] == OverlapByte(i, place)
  {
    seq(79, i requires 0 <= i < 79 => OverlapByte(i, place))
  }

  lemma OverlapField(place: Byte, off: nat, width: nat)
    requires 0 < width && off + width <= 79 && forall i :: off <= i < off + width - 1 ==> OverlapByte(i, place) == 0
    ensures Read(Overlap(place), off, width, true) == OverlapByte(off + width - 1, place)
  {
    var d := Overlap(place);
    assert d[off..off + width] == Zeros(width - 1) + [OverlapByte(off + width - 1, place)];
    BigEndianSmall(OverlapByte(off + width - 1, place), width - 1);
  }

  lemma {:induction false} Positive(s: seq<Byte>, i: nat)
    requires i < |s| && s[i] > 0
    ensures BigEndian(s) > 0 && (i < |s| - 1 ==> BigEndian(s) >= 256)
  {
    if i < |s| - 1 {
      Positive(s[..|s| - 1], i);
    }
  }

  lemma OverlapTag(place: Byte, off: nat, i: nat)
    requires off + 4 <= 79 && off <= i < off + 3 && OverlapByte(i, place) > 0
    ensures Read(Overlap(place), off, 4, true) >= 256
  {
    var s := Overlap(place)[off..off + 4];
    assert s[i - off] == Overlap(place)[i];
    Positive(s, i - off);
  }

  lemma OverlapFields(place: Byte)
    ensures var d := Overlap(place);
      ReadHeader(d) == Header(4, true, 59, 32, 1)
      && FirstDynamic(d, ReadHeader(d), 0) == At(Table(place, place + 64, 4, true))
  {
    var d := Overlap(place);
    assert d[..4] == MAGIC && d[4] == 1 && d[5] == 2;
    OverlapField(place, 28, 4);
    OverlapField(place, 42, 2);
    OverlapField(place, 44, 2);
    OverlapField(place, 59, 4);
    OverlapField(place, 63, 4);
    OverlapField(place, 75, 4);
    hide Read, OverlapByte;
    assert Ph(ReadHeader(d), 0) == 59;
  }

  lemma OverlapTags(d: seq<Byte>)
    requires d == Overlap(15)
    ensures Read(d, 15, 4, true) == 1 && Read(d, 23, 4, true) >= 256 && Read(d, 31, 4, true) >= 256
    ensures Read(d, 39, 4, true) >= 256 && Read(d, 47, 4, true) == 1 && Read(d, 55, 4, true) == 1
    ensures Read(d, 63, 4, true) == 15 && Read(d, 71, 4, true) == 0
  {
    hide Read, Overlap;
    OverlapField(15, 15, 4);
    OverlapTag(15, 23, 24);
    OverlapTag(15, 31, 31);
    OverlapTag(15, 39, 41);
    OverlapField(15, 47, 4);
    OverlapField(15, 55, 4);
    OverlapField(15, 63, 4);
    OverlapField(15, 71, 4);
  }

  /** Replacing the entry at 63 moves the table to 21. */
  lemma OverlapMoves(d: seq<Byte>, e: seq<Byte>)
    requires d == Overlap(15) && e == Overlap(21)
    ensures Splice(d, 63, Debug(4, true)) == e
  {
    var s := Debug(4, true);
    assert Zeros(3) == [0, 0, 0] && Zeros(4) == [0, 0, 0, 0];
    assert s == [0, 0, 0, 21, 0, 0, 0, 0];
    var f := Splice(d, 63, s);
    assert f[63..71] == s;
    forall k | 0 <= k < 79 ensures f[k] == e[k] {
      if 63 <= k < 71 {
        assert f[k] == f[63..71][k - 63];
      }
    }
  }

  lemma FirstRun(d: seq<Byte>, e: seq<Byte>, t: Table)
    requires d == Overlap(15) && e == Overlap(21) && t == Table(15, 79, 4, true)
    ensures StripFrom(d, 15, t) == Some(e)
  {
    OverlapTags(d);
    OverlapMoves(d, e);
    OverlapField(21, 71, 4);
    hide Read, Overlap, OverlapByte, Splice, Debug, StripFrom;
    forall i | 0 <= i < 6 ensures Tag(d, 15 + 8 * i, t) == 1 || Tag(d, 15 + 8 * i, t) >= 256 {
    }
    OverlapScan(d, e, t);
  }

  lemma SecondRun(e: seq<Byte>, u: Table)
    requires e == Overlap(21) && u == Table(21, 85, 4, true)
    ensures LiveRpath(e, 21, u)
  {
    OverlapField(21, 21, 4);
    hide Read, Overlap, OverlapByte;
    assert Live(e, 21, u, 21);
  }

  /** Stripping this file moves its table, and there the second run finds another RPATH. */
  lemma StripsAgain(d: seq<Byte>, e: seq<Byte>)
    requires d == Overlap(15) && e == Overlap(21)
    ensures StripFile(d) == Some(e) && !Clean(e) && StripFile(e) != Some(e)
  {
    hide Overlap, Clean, ReadHeader, FirstDynamic, StripFrom, LiveRpath;
    OverlapFields(15);
    OverlapFields(21);
    FirstRun(d, e, Table(15, 79, 4, true));
    SecondRun(e, Table(21, 85, 4, true));
    NotClean(e, Table(21, 85, 4, true));
    StripLeavesExactly(e);
  }

  lemma OverlapScan(d: seq<Byte>, e: seq<Byte>, t: Table)
    requires |d| == |e| == 79 && t == Table(15, 79, 4, true)
    requires forall i :: 0 <= i < 6 ==> Tag(d, 15 + 8 * i, t) == 1 || Tag(d, 15 + 8 * i, t) >= 256
    requires Tag(d, 63, t) == 15 && Tag(e, 71, t) == 0 && Splice(d, 63, Debug(4, true)) == e
    ensures StripFrom(d, 15, t) == Some(e)
  {
    hide Tag, Splice, Debug;
    assert StripFrom(e, 71, t) == Some(e);
    assert StripFrom(d, 63, t) == Some(e);
    for i := 0 to 6
      invariant StripFrom(d, 63 - 8 * i, t) == Some(e)
    {
      assert Tag(d, 15 + 8 * (5 - i), t) !in {0, 15, 29};
    }
  }

  lemma NotClean(e: seq<Byte>, u: Table)
    requires ReadHeader(e).Header? && FirstDynamic(e, ReadHeader(e), 0) == At(u) && u.start > 0
      && LiveRpath(e, u.start, u)
    ensures !Clean(e)
  {
  }
}
