/** The static check of 32-bit big-endian MIPS libraries for leftover RPATHs. */
module MipsElfCheck {
  import opened Bytes
  import opened Common
  import opened StripRpath
  import Elf

  /** A file the check accepts: 32-bit, big-endian, executable or shared. */
  predicate Accepts(d: seq<Byte>)
  {
    |d| >= 52 && d[..4] == MAGIC && d[4] == 1 && d[5] == 2 && (Read(d, 16, 2, true) == 3 || Read(d, 16, 2, true) == 2)
  }

  /** The last PT_DYNAMIC program header from the i-th on, or the one found before. */
  function LastDynamic(d: seq<Byte>, h: Header, i: nat, found: Dynamic): Dynamic
    requires h.Header? && h.w == 4
    decreases h.phnum - i
  {
    if i >= h.phnum then found
    else if Ph(h, i) + 28 > |d| then OutOfFile
    else LastDynamic(d, h, i + 1, if Read(d, Ph(h, i), 4, h.big) == PT_DYNAMIC then TableAt(d, h, Ph(h, i)) else found)
  }

  // ---------- Section headers ----------

  const SHT_DYNSYM: nat := 11
  const GOT_NAME: seq<Byte> := [0x2e, 0x67, 0x6f, 0x74]
  const STUBS_NAME: seq<Byte> := [0x2e, 0x4d, 0x49, 0x50, 0x53, 0x2e, 0x73, 0x74, 0x75, 0x62, 0x73]

  datatype Sections = Sections(shoff: nat, shentsize: nat, shnum: nat, shstrndx: nat)

  function ReadSectionHeader(d: seq<Byte>): Sections
    requires |d| >= 52
  {
    Sections(Read(d, 32, 4, true), Read(d, 46, 2, true), Read(d, 48, 2, true), Read(d, 50, 2, true))
  }

  /** Section header i. */
  function Sh(s: Sections, i: nat): nat
  {
    s.shoff + i * s.shentsize
  }

  /** The string at off ends in the file and is the given one. */
  predicate Named(d: seq<Byte>, off: nat, name: seq<Byte>)
  {
    off + |name| < |d| && d[off..off + |name|] == name && d[off + |name|] == 0
  }

  /** Where the name of section i begins. */
  function NameOf(d: seq<Byte>, s: Sections, i: nat): nat
    requires Sh(s, s.shstrndx) + 20 <= |d| && Sh(s, i) + 40 <= |d|
  {
    Read(d, Sh(s, s.shstrndx) + 16, 4, true) + Read(d, Sh(s, i), 4, true)
  }

  /** Section i is taken for the dynamic symbol table: by its type, unless its name is one that is
      looked at before. */
  predicate IsDynsym(d: seq<Byte>, s: Sections, i: nat)
    requires Sh(s, s.shstrndx) + 20 <= |d| && Sh(s, i) + 40 <= |d|
  {
    Read(d, Sh(s, i) + 4, 4, true) == SHT_DYNSYM && !Named(d, NameOf(d, s, i), GOT_NAME)
        && !Named(d, NameOf(d, s, i), STUBS_NAME)
  }

  /** The section header that a dynamic symbol table links to. */
  function Linked(d: seq<Byte>, s: Sections, i: nat): nat
    requires Sh(s, i) + 40 <= |d|
  {
    Sh(s, Read(d, Sh(s, i) + 24, 4, true))
  }

  /** Section header i can be read, and what it links to if that is followed. */
  predicate ReadableAt(d: seq<Byte>, s: Sections, i: nat)
    requires Sh(s, s.shstrndx) + 20 <= |d|
  {
    Sh(s, i) + 40 <= |d| && (IsDynsym(d, s, i) ==> Linked(d, s, i) + 20 <= |d|)
  }

  /** No read of the section headers runs off the end of the file. */
  predicate Readable(d: seq<Byte>)
    requires |d| >= 52
  {
    var s := ReadSectionHeader(d);
    s.shoff > 0 && s.shnum > 0 ==>
      Sh(s, s.shstrndx) + 20 <= |d| && forall i :: 0 <= i < s.shnum ==> ReadableAt(d, s, i)
  }

  /** The string table of the last dynamic symbol table among the first n sections, 0 without one. */
  function StringTable(d: seq<Byte>, s: Sections, n: nat): nat
    requires Sh(s, s.shstrndx) + 20 <= |d| && forall i :: 0 <= i < n ==> ReadableAt(d, s, i)
  {
    if n == 0 then 0
    else
      assert ReadableAt(d, s, n - 1);
      if IsDynsym(d, s, n - 1) then Read(d, Linked(d, s, n - 1) + 16, 4, true)
      else StringTable(d, s, n - 1)
  }

  // ---------- The whole file ----------

  /** Whether the check finds an RPATH; None when it runs off the end of the file. */
  function CheckFile(d: seq<Byte>): Option<bool>
  {
    if !Accepts(d) then Some(false)
    else if !LastDynamic(d, ReadHeader(d), 0, Absent).OutOfFile? && !Readable(d) then None
    else
      match LastDynamic(d, ReadHeader(d), 0, Absent)
      case Absent => Some(false)
      case OutOfFile => None
      case At(t) => if t.start > 0 && t.w > 0 then FindsRpath(d, t.start, t) else Some(false)
  }

  /** m holds exactly the tags of the list, each with the value of its first entry. */
  ghost predicate FirstValues(list: seq<(nat, nat)>, m: map<nat, nat>)
  {
    && (forall k :: 0 <= k < |list| ==> list[k].0 in m)
    && (forall tag :: tag in m ==> HoldsFirst(list, tag, m[tag]))
  }

  ghost predicate HoldsFirst(list: seq<(nat, nat)>, tag: nat, val: nat)
  {
    exists k :: 0 <= k < |list| && list[k] == (tag, val) && forall j :: 0 <= j < k ==> list[j].0 != tag
  }

  lemma NoTags()
    ensures FirstValues([], map[])
  {
  }

  lemma AddTag(list: seq<(nat, nat)>, m: map<nat, nat>, tag: nat, val: nat)
    requires FirstValues(list, m)
    ensures FirstValues(list + [(tag, val)], if tag in m then m else m[tag := val])
  {
    var more, n := list + [(tag, val)], if tag in m then m else m[tag := val];
    forall t | t in n ensures HoldsFirst(more, t, n[t]) {
      if t in m {
        var k :| 0 <= k < |list| && list[k] == (t, m[t]) && forall j :: 0 <= j < k ==> list[j].0 != t;
        assert more[k] == (t, n[t]) && forall j :: 0 <= j < k ==> more[j].0 != t;
      } else {
        assert more[|list|] == (t, n[t]) && forall j :: 0 <= j < |list| ==> more[j].0 != t;
      }
    }
  }

  class MipsElf {
    const data: seq<Byte>
    var valid: bool
    var strtabOffset: nat
    var dynamicTagList: seq<(nat, nat)>
    var dynamicTags: map<nat, nat>   // the first value of each tag

    constructor (data: seq<Byte>)
      ensures this.data == data && !valid && strtabOffset == 0 && dynamicTagList == [] && dynamicTags == map[]
    {
      this.data, valid, strtabOffset, dynamicTagList, dynamicTags := data, false, 0, [], map[];
    }

    predicate HasRpath()
      reads this
    {
      DT_RPATH in dynamicTags || DT_RUNPATH in dynamicTags
    }

    /** Read the section headers; ok is false when a read runs off the end of the file. */
    method ReadSections() returns (ok: bool)
      requires |data| >= 52 && strtabOffset == 0
      modifies this`strtabOffset
      ensures ok <==> Readable(data)
      ensures var s := ReadSectionHeader(data);
        ok && s.shoff > 0 && s.shnum > 0 ==> strtabOffset == StringTable(data, s, s.shnum)
    {
      hide Read, Named;
      var s := ReadSectionHeader(data);
      if s.shoff > 0 && s.shnum > 0 {
        if Sh(s, s.shstrndx) + 20 > |data| {
          return false;
        }
        var i := 0;
        while i < s.shnum
          invariant i <= s.shnum && forall j :: 0 <= j < i ==> ReadableAt(data, s, j)
          invariant strtabOffset == StringTable(data, s, i)
        {
          if Sh(s, i) + 40 > |data| {
            assert !ReadableAt(data, s, i);
            return false;
          }
          if IsDynsym(data, s, i) {
            if Linked(data, s, i) + 20 > |data| {
              assert !ReadableAt(data, s, i);
              return false;
            }
            strtabOffset := Read(data, Linked(data, s, i) + 16, 4, true);
          }
          i := i + 1;
        }
      }
      ok := true;
    }

    /** Read the entries of the dynamic table; ok is false when the file ends inside the table. */
    method ReadTable(t: Table) returns (ok: bool)
      requires t.w > 0 && dynamicTagList == [] && dynamicTags == map[]
      modifies this`dynamicTagList, this`dynamicTags
      ensures ok <==> FindsRpath(data, t.start, t).Some?
      ensures ok ==> HasRpath() == FindsRpath(data, t.start, t).value
      ensures FirstValues(dynamicTagList, dynamicTags)
    {
      hide FirstValues, Tag;
      NoTags();
      var pos := t.start;
      while pos < t.end
        invariant FindsRpath(data, t.start, t).Some? <==> FindsRpath(data, pos, t).Some?
        invariant FindsRpath(data, pos, t).Some? ==>
          (FindsRpath(data, t.start, t).value <==> HasRpath() || FindsRpath(data, pos, t).value)
        invariant FirstValues(dynamicTagList, dynamicTags)
        decreases t.end - pos
      {
        if pos + 2 * t.w > |data| {
          return false;
        }
        var tag, val := Tag(data, pos, t), Read(data, pos + t.w, t.w, t.big);
        if tag == 0 {
          break;
        }
        AddTag(dynamicTagList, dynamicTags, tag, val);
        dynamicTagList := dynamicTagList + [(tag, val)];
        if tag !in dynamicTags {
          dynamicTags := dynamicTags[tag := val];
        }
        pos := pos + 2 * t.w;
      }
      ok := true;
    }

    /** Read the program headers; OutOfFile when a read runs off the end of the file. */
    method ReadSegments(h: Header) returns (dyn: Dynamic)
      requires h.Header? && h.w == 4
      ensures dyn == LastDynamic(data, h, 0, Absent) && (dyn.At? ==> dyn.table.w == 4)
    {
      hide Read;
      dyn := Absent;
      var i := 0;
      while i < h.phnum
        invariant LastDynamic(data, h, 0, Absent) == LastDynamic(data, h, i, dyn)
        invariant !dyn.OutOfFile? && (dyn.At? ==> dyn.table.w == 4)
        decreases h.phnum - i
      {
        if Ph(h, i) + 28 > |data| {
          return OutOfFile;
        }
        if Read(data, Ph(h, i), 4, h.big) == PT_DYNAMIC {
          dyn := TableAt(data, h, Ph(h, i));
        }
        i := i + 1;
      }
    }

    method Parse() returns (ok: bool)
      requires strtabOffset == 0 && dynamicTagList == [] && dynamicTags == map[]
      modifies this
      ensures ok <==> CheckFile(data).Some?
      ensures ok ==> valid == Accepts(data) && HasRpath() == CheckFile(data).value
      ensures ok ==> FirstValues(dynamicTagList, dynamicTags)
    {
      hide Readable, FindsRpath, StringTable, LastDynamic, FirstValues, Read;
      NoTags();
      valid := Accepts(data);
      if !valid {
        return true;
      }
      var dyn := ReadSegments(ReadHeader(data));
      if dyn.OutOfFile? {
        return false;
      }
      ok := ReadSections();
      if ok && dyn.At? && dyn.table.start > 0 {
        ok := ReadTable(dyn.table);
      }
    }
  }

  // ---------- The layout of the file ----------

  /** The check accepts what has the magic number, class 1, byte order 2, and e_type 2 or 3. */
  lemma AcceptsExactly(d: seq<Byte>)
    requires |d| >= 52
    ensures Accepts(d) <==>
      && d[0] == 0x7f && d[1] == 'E' as int && d[2] == 'L' as int && d[3] == 'F' as int && d[4] == 1 && d[5] == 2
      && d[16] == 0 && (d[17] == 2 || d[17] == 3)
  {
    hide Read;
    ReadsTwo(d, 16);
    assert d[..4] == [d[0], d[1], d[2], d[3]];
  }

  /** The section headers are where the ELF header says. */
  lemma SectionsAreLaidOut(d: seq<Byte>)
    requires |d| >= 52
    ensures var s, f := ReadSectionHeader(d), Elf.FileHeader(4);
      && Elf.Start(f, Elf.SHSTRNDX) + 2 <= |d| && Elf.Start(f, Elf.SHOFF) + 4 <= |d|
      && Elf.Start(f, Elf.SHENTSIZE) + 2 <= |d| && Elf.Start(f, Elf.SHNUM) + 2 <= |d|
      && s.shoff == Elf.Field(d, 0, f, Elf.SHOFF, true) && s.shentsize == Elf.Field(d, 0, f, Elf.SHENTSIZE, true)
      && s.shnum == Elf.Field(d, 0, f, Elf.SHNUM, true) && s.shstrndx == Elf.Field(d, 0, f, Elf.SHSTRNDX, true)
  {
    hide Read;
    Elf.FileHeaderStarts(4);
  }

  /** sh_offset of section header n. */
  ghost function OffsetOf(d: seq<Byte>, s: Sections, n: nat): nat
    requires s.shoff + n * s.shentsize + 20 <= |d|
  {
    Elf.SectionHeaderStarts();
    Elf.Field(d, s.shoff + n * s.shentsize, Elf.SectionHeader(), 4, true)
  }

  /** The name of section i is the string text. */
  ghost predicate HasName(d: seq<Byte>, s: Sections, i: nat, text: string)
    requires s.shoff + s.shstrndx * s.shentsize + 20 <= |d| && s.shoff + i * s.shentsize + 40 <= |d|
  {
    Elf.SectionHeaderStarts();
    var at := OffsetOf(d, s, s.shstrndx) + Elf.Field(d, s.shoff + i * s.shentsize, Elf.SectionHeader(), 0, true);
    at + |text| < |d| && (forall k :: 0 <= k < |text| ==> d[at + k] == text[k] as int) && d[at + |text|] == 0
  }

  /** A dynamic symbol table has the type 11 and neither of the two names; its string table is the section
      that sh_link says. */
  lemma DynsymIsLaidOut(d: seq<Byte>, s: Sections, i: nat)
    requires s.shoff + s.shstrndx * s.shentsize + 20 <= |d| && s.shoff + i * s.shentsize + 40 <= |d|
    ensures var f, sh := Elf.SectionHeader(), s.shoff + i * s.shentsize;
      && sh + Elf.Start(f, 6) + 4 <= |d| && sh + Elf.Start(f, 1) + 4 <= |d|
      && (IsDynsym(d, s, i) <==>
           Elf.Field(d, sh, f, 1, true) == 11 && !HasName(d, s, i, ".got") && !HasName(d, s, i, ".MIPS.stubs"))
      && Linked(d, s, i) == s.shoff + Elf.Field(d, sh, f, 6, true) * s.shentsize
  {
    hide Read, Named, Elf.Start;
    Elf.SectionHeaderStarts();
    NamedExactly(d, NameOf(d, s, i), GOT_NAME, ".got");
    NamedExactly(d, NameOf(d, s, i), STUBS_NAME, ".MIPS.stubs");
  }

  lemma NamedExactly(d: seq<Byte>, at: nat, name: seq<Byte>, text: string)
    requires |name| == |text| && forall k :: 0 <= k < |text| ==> name[k] == text[k] as int
    ensures Named(d, at, name) <==>
      at + |text| < |d| && (forall k :: 0 <= k < |text| ==> d[at + k] == text[k] as int) && d[at + |text|] == 0
  {
    if at + |text| < |d| && forall k :: 0 <= k < |text| ==> d[at + k] == text[k] as int {
      assert d[at..at + |name|] == name;
    }
    if Named(d, at, name) {
      forall k | 0 <= k < |text| ensures d[at + k] == text[k] as int {
        assert d[at..at + |name|][k] == name[k];
      }
    }
  }

  /** The last program header of type 2 decides, if all of them can be read up to p_flags. */
  lemma {:induction false} LastDynamicExactly(d: seq<Byte>, h: Header, i: nat, found: Dynamic, k: nat)
    requires h.Header? && h.w == 4 && i <= h.phnum
    requires forall j: nat :: i <= j < h.phnum ==> h.phoff + j * h.phentsize + 28 <= |d|
    requires k < h.phnum ==> i <= k && Read(d, h.phoff + k * h.phentsize, 4, h.big) == 2
    requires k >= h.phnum ==> k == h.phnum
    requires forall j: nat :: i <= j < h.phnum && (j > k || k == h.phnum) ==>
      Read(d, h.phoff + j * h.phentsize, 4, h.big) != 2
    ensures LastDynamic(d, h, i, found) == if k < h.phnum then TableAt(d, h, h.phoff + k * h.phentsize) else found
    decreases h.phnum - i
  {
    hide Read, TableAt;
    if i < h.phnum {
      assert Ph(h, i) == h.phoff + i * h.phentsize;
      if i == k {
        LastDynamicExactly(d, h, i + 1, TableAt(d, h, Ph(h, i)), h.phnum);
      } else if i < k < h.phnum {
        LastDynamicExactly(d, h, i + 1, if Read(d, Ph(h, i), 4, h.big) == 2 then TableAt(d, h, Ph(h, i)) else found, k);
      } else {
        LastDynamicExactly(d, h, i + 1, found, k);
      }
    }
  }

  /** It is an error when one of them can not. */
  lemma {:induction false} LastDynamicFails(d: seq<Byte>, h: Header, i: nat, found: Dynamic)
    requires h.Header? && h.w == 4 && !found.OutOfFile?
    ensures LastDynamic(d, h, i, found).OutOfFile? <==>
      exists j: nat {:trigger Ph(h, j)} :: i <= j < h.phnum && Ph(h, j) + 28 > |d|
    decreases h.phnum - i
  {
    hide Read;
    if i < h.phnum && Ph(h, i) + 28 <= |d| {
      var here := TableAt(d, h, Ph(h, i));
      LastDynamicFails(d, h, i + 1, if Read(d, Ph(h, i), 4, h.big) == PT_DYNAMIC then here else found);
    }
  }

  /** The section headers are read if e_shoff and e_shnum are not 0: from the one with the names the sh_offset,
      and each up to its 40th byte, and of what a dynamic symbol table links to the sh_offset. */
  lemma ReadableExactly(d: seq<Byte>)
    requires |d| >= 52
    ensures var s := ReadSectionHeader(d);
      Readable(d) <==>
        || s.shoff == 0 || s.shnum == 0
        || (s.shoff + s.shstrndx * s.shentsize + 20 <= |d| && forall i: nat :: i < s.shnum ==> HeaderReadable(d, s, i))
  {
    hide IsDynsym, Linked, ReadSectionHeader, Read;
    var s := ReadSectionHeader(d);
    if s.shoff + s.shstrndx * s.shentsize + 20 <= |d| {
      forall i: nat | i < s.shnum ensures ReadableAt(d, s, i) <==> HeaderReadable(d, s, i) {
      }
    }
  }

  ghost predicate HeaderReadable(d: seq<Byte>, s: Sections, i: nat)
    requires s.shoff + s.shstrndx * s.shentsize + 20 <= |d|
  {
    s.shoff + i * s.shentsize + 40 <= |d| && (IsDynsym(d, s, i) ==> Linked(d, s, i) + 20 <= |d|)
  }

  /** Without one there is none. */
  lemma {:induction false} NoStringTable(d: seq<Byte>, s: Sections, n: nat)
    requires Sh(s, s.shstrndx) + 20 <= |d| && forall i :: 0 <= i < n ==> ReadableAt(d, s, i)
    requires forall j :: 0 <= j < n ==> ReadableAt(d, s, j) && !IsDynsym(d, s, j)
    ensures StringTable(d, s, n) == 0
  {
    hide Read, Named, IsDynsym, Linked;
    if n > 0 {
      NoStringTable(d, s, n - 1);
    }
  }

  /** The string table is that of the last section taken for a dynamic symbol table. */
  lemma {:induction false} StringTableExactly(d: seq<Byte>, s: Sections, n: nat, k: nat)
    requires Sh(s, s.shstrndx) + 20 <= |d| && forall i :: 0 <= i < n ==> ReadableAt(d, s, i)
    requires k < n && ReadableAt(d, s, k) && IsDynsym(d, s, k)
    requires forall j :: k < j < n ==> ReadableAt(d, s, j) && !IsDynsym(d, s, j)
    ensures Linked(d, s, k) + 20 <= |d| && StringTable(d, s, n) == Read(d, Linked(d, s, k) + 16, 4, true)
  {
    hide Read, Named, IsDynsym, Linked;
    assert ReadableAt(d, s, k);
    if k < n - 1 {
      StringTableExactly(d, s, n - 1, k);
    }
  }

  // ---------- The check after stripping ----------

  ghost predicate IsDynamic(d: seq<Byte>, h: Header, i: nat)
    requires h.Header?
  {
    i < h.phnum && Ph(h, i) + 4 <= |d| && Read(d, Ph(h, i), 4, h.big) == PT_DYNAMIC
  }

  /** At most one program header is PT_DYNAMIC. */
  ghost predicate OneDynamic(d: seq<Byte>, h: Header)
    requires h.Header?
  {
    forall i: nat, j: nat {:trigger IsDynamic(d, h, i), IsDynamic(d, h, j)} ::
      IsDynamic(d, h, i) && IsDynamic(d, h, j) ==> i == j
  }

  lemma {:induction false} LastIsFound(d: seq<Byte>, h: Header, i: nat, found: Dynamic, k: nat)
    requires h.Header? && h.w == 4 && OneDynamic(d, h) && k < i && IsDynamic(d, h, k)
    ensures LastDynamic(d, h, i, found) in {found, OutOfFile}
    decreases h.phnum - i
  {
    if i < h.phnum && Ph(h, i) + 28 <= |d| {
      assert !IsDynamic(d, h, i);
      LastIsFound(d, h, i + 1, found, k);
    }
  }

  /** With one PT_DYNAMIC the first and the last are the same. */
  lemma {:induction false} FirstIsLast(d: seq<Byte>, h: Header, i: nat)
    requires h.Header? && h.w == 4 && OneDynamic(d, h) && !LastDynamic(d, h, i, Absent).OutOfFile?
    ensures LastDynamic(d, h, i, Absent) == FirstDynamic(d, h, i)
    decreases h.phnum - i
  {
    if i < h.phnum && Ph(h, i) + 28 <= |d| {
      if IsDynamic(d, h, i) {
        LastIsFound(d, h, i + 1, TableAt(d, h, Ph(h, i)), i);
      } else {
        FirstIsLast(d, h, i + 1);
      }
    }
  }

  lemma DynamicsKept(d: seq<Byte>, e: seq<Byte>, h: Header, t: Table)
    requires h.Header? && h.w == 4 && SameOutside(d, e, t) && Apart(h, t) && OneDynamic(d, h)
    ensures OneDynamic(e, h)
  {
    forall i: nat | IsDynamic(e, h, i) ensures IsDynamic(d, h, i) {
      ReadSame(d, e, Ph(h, i), 4, h.big);
    }
  }

  /** The check finds an RPATH in a table exactly when its scan gets to one or the table ends in a partial
      entry with such a tag. */
  lemma {:induction false} FindsExactly(d: seq<Byte>, from: nat, t: Table)
    requires t.w > 0 && FindsRpath(d, from, t).Some?
    ensures FindsRpath(d, from, t).value <==> LiveRpath(d, from, t) || PartialRpath(d, from, t)
    decreases t.end - from
  {
    hide Tag;
    var next := from + 2 * t.w;
    if next <= t.end && next <= |d| && Tag(d, from, t) != 0 {
      FindsExactly(d, next, t);
      LiveRpathNext(d, from, t);
    }
  }

  lemma LiveRpathNext(d: seq<Byte>, from: nat, t: Table)
    requires t.w > 0 && Passes(d, from, t)
    ensures LiveRpath(d, from, t) <==> IsRpath(Tag(d, from, t)) || LiveRpath(d, from + 2 * t.w, t)
  {
    hide Tag;
    var next := from + 2 * t.w;
    if IsRpath(Tag(d, from, t)) {
      assert Live(d, from, t, from);
    }
    if pos: nat :| Live(d, next, t, pos) && pos + 2 * t.w <= |d| && IsRpath(Tag(d, pos, t)) {
      assert Live(d, from, t, pos);
    }
    if pos: nat :| pos != from && Live(d, from, t, pos) && pos + 2 * t.w <= |d| && IsRpath(Tag(d, pos, t)) {
      assert Live(d, next, t, pos);
    }
  }

  /** The scan reads beyond the file exactly when it gets to such an entry. */
  lemma {:induction false} FindsFails(d: seq<Byte>, from: nat, t: Table)
    requires t.w > 0
    ensures FindsRpath(d, from, t).None? <==> exists n: nat :: FailsAt(d, from, t, n)
    decreases t.end - from
  {
    hide Tag, FailsAt;
    var next := from + 2 * t.w;
    forall n: nat {
      FailsNext(d, from, t, n);
    }
    if from < t.end && next <= |d| && Tag(d, from, t) != 0 {
      FindsFails(d, next, t);
      if n: nat :| FailsAt(d, next, t, n) {
        assert FailsAt(d, from, t, n + 1);
      }
      if n: nat :| FailsAt(d, from, t, n) {
        assert FailsAt(d, next, t, n - 1);
      }
    } else if from < t.end && next > |d| {
      assert FailsAt(d, from, t, 0);
    }
  }

  /** Entry n begins in the table and the file does not have it to its end, and the scan gets to it. */
  ghost predicate FailsAt(d: seq<Byte>, from: nat, t: Table, n: nat)
    requires t.w > 0
  {
    from + n * (2 * t.w) < t.end && from + n * (2 * t.w) + 2 * t.w > |d| && NoNull(d, from, t, n)
  }

  lemma FailsNext(d: seq<Byte>, from: nat, t: Table, n: nat)
    requires t.w > 0
    ensures n == 0 ==> (FailsAt(d, from, t, n) <==> from < t.end && from + 2 * t.w > |d|)
    ensures n > 0 ==> (FailsAt(d, from, t, n) <==>
      from + 2 * t.w <= |d| && Tag(d, from, t) != 0 && FailsAt(d, from + 2 * t.w, t, n - 1))
    ensures from >= t.end ==> !FailsAt(d, from, t, n)
  {
    hide Tag;
    if n > 0 {
      assert n * (2 * t.w) == (n - 1) * (2 * t.w) + 2 * t.w;
    }
  }

  /** The n entries from there on lie in the file, and none has the tag 0. */
  ghost predicate NoNull(d: seq<Byte>, from: nat, t: Table, n: nat)
    requires t.w > 0
    decreases n
  {
    n == 0 || (from + 2 * t.w <= |d| && Tag(d, from, t) != 0 && NoNull(d, from + 2 * t.w, t, n - 1))
  }

  /** On which files the check stops with an error. */
  lemma CheckFailsExactly(d: seq<Byte>)
    ensures CheckFile(d).None? <==>
      Accepts(d) &&
      (LastDynamic(d, ReadHeader(d), 0, Absent).OutOfFile? || !Readable(d)
       || (LastDynamic(d, ReadHeader(d), 0, Absent).At?
           && var t := LastDynamic(d, ReadHeader(d), 0, Absent).table;
              t.start > 0 && t.w > 0 && FindsRpath(d, t.start, t).None?))
  {
    hide LastDynamic, FindsRpath, Readable, Read;
  }

  /** What the check says of any file that it gets through. */
  lemma CheckExactly(d: seq<Byte>)
    requires CheckFile(d).Some?
    ensures CheckFile(d).value <==>
      && Accepts(d) && LastDynamic(d, ReadHeader(d), 0, Absent).At?
      && var t := LastDynamic(d, ReadHeader(d), 0, Absent).table;
         t.start > 0 && t.w > 0 && (LiveRpath(d, t.start, t) || PartialRpath(d, t.start, t))
  {
    hide LastDynamic, FindsRpath, LiveRpath, PartialRpath, Read;
    if Accepts(d) && LastDynamic(d, ReadHeader(d), 0, Absent).At? {
      var t := LastDynamic(d, ReadHeader(d), 0, Absent).table;
      if t.start > 0 && t.w > 0 && FindsRpath(d, t.start, t).Some? {
        FindsExactly(d, t.start, t);
      }
    }
  }

  /** The check finds no RPATH in a stripped file with one dynamic table, unless the table ends in
      a partial entry with an RPATH tag, which the stripper does not look at and the check does. */
  lemma CheckOfStripped(d: seq<Byte>, t: Table)
    requires Accepts(d) && OneDynamic(d, ReadHeader(d)) && FirstDynamic(d, ReadHeader(d), 0) == At(t)
    requires t.start > 0 && t.w > 0 && Apart(ReadHeader(d), t) && StripFile(d).Some?
    requires CheckFile(StripFile(d).value).Some?
    ensures CheckFile(StripFile(d).value).value <==> PartialRpath(d, t.start, t)
  {
    var h, e := ReadHeader(d), StripFile(d).value;
    StripStaysInside(d, t);
    HeaderSame(d, e, t);
    DynamicSame(d, e, h, t, 0);
    DynamicsKept(d, e, h, t);
    assert Accepts(e) by {
      assert e[..4] == d[..4];
      ReadSame(d, e, 16, 2, true);
    }
    FirstIsLast(e, h, 0);
    CheckAfterStrip(d, t.start, t);
  }

  /** In particular it finds none when the size of the table is a multiple of the entry size. */
  lemma CheckOfStrippedWhole(d: seq<Byte>, t: Table, n: nat)
    requires Accepts(d) && OneDynamic(d, ReadHeader(d)) && FirstDynamic(d, ReadHeader(d), 0) == At(t)
    requires t.start > 0 && Apart(ReadHeader(d), t) && StripFile(d).Some?
    requires CheckFile(StripFile(d).value).Some?
    requires t.end == t.start + n * 8
    ensures !CheckFile(StripFile(d).value).value
  {
    CheckOfStripped(d, t);
    WholeTableHasNoPartial(d, t.start, t, n);
  }

  /** A small library whose dynamic table, at 84, has room for half an entry, with an RPATH tag. */
  function HalfEntryByte(i: nat): Byte
  {
    match i
    case 0 => 0x7f
    case 1 => 0x45
    case 2 => 0x4c
    case 3 => 0x46
    case 4 => 1
    case 5 => 2
    case 17 => 3
    case 31 => 52
    case 43 => 32
    case 45 => 1
    case 55 => 2
    case 59 => 84
    case 71 => 4
    case 87 => 15
    case _ => 0
  }

  function HalfEntry(): (d: seq<Byte>)
    ensures |d| == 92 && forall i :: 0 <= i < 92 ==> d[i] == HalfEntryByte(i)
  {
    seq(92, i requires 0 <= i < 92 => HalfEntryByte(i))
  }

  lemma SmallField(off: nat, width: nat)
    requires 0 < width && off + width <= 92 && forall i :: off <= i < off + width - 1 ==> HalfEntryByte(i) == 0
    ensures Read(HalfEntry(), off, width, true) == HalfEntryByte(off + width - 1)
  {
    var d := HalfEntry();
    assert d[off..off + width] == Zeros(width - 1) + [HalfEntryByte(off + width - 1)];
    BigEndianSmall(HalfEntryByte(off + width - 1), width - 1);
  }

  lemma HalfEntryFields()
    ensures var d := HalfEntry();
      && Read(d, 16, 2, true) == 3 && Read(d, 28, 4, true) == 52 && Read(d, 32, 4, true) == 0
      && Read(d, 42, 2, true) == 32 && Read(d, 44, 2, true) == 1
      && Read(d, 52, 4, true) == 2 && Read(d, 56, 4, true) == 84 && Read(d, 68, 4, true) == 4
      && Read(d, 84, 4, true) == 15
  {
    hide Read, HalfEntry;
    SmallField(16, 2);
    SmallField(28, 4);
    SmallField(32, 4);
    SmallField(42, 2);
    SmallField(44, 2);
    SmallField(52, 4);
    SmallField(56, 4);
    SmallField(68, 4);
    SmallField(84, 4);
  }

  /** A file that both tools accept, with one PT_DYNAMIC: the stripper leaves the half entry alone, the
      check reports it. */
  lemma PartialEntrySurvives(d: seq<Byte>)
    requires d == HalfEntry()
    ensures Accepts(d) && ReadHeader(d) == Header(4, true, 52, 32, 1) && OneDynamic(d, ReadHeader(d))
    ensures FirstDynamic(d, ReadHeader(d), 0) == At(Table(84, 88, 4, true))
      && Apart(ReadHeader(d), Table(84, 88, 4, true))
    ensures StripFile(d) == Some(d) && CheckFile(d) == Some(true)
  {
    HalfEntryFields();
    hide Read, HalfEntryByte;
    assert d[..4] == MAGIC && d[4] == 1 && d[5] == 2 by { HalfEntryStart(); }
    var h, t := Header(4, true, 52, 32, 1), Table(84, 88, 4, true);
    assert ReadHeader(d) == h;
    assert Ph(h, 0) == 52;
    assert FirstDynamic(d, h, 0) == At(t);
    assert LastDynamic(d, h, 0, Absent) == LastDynamic(d, h, 1, At(t)) == At(t);
    assert Tag(d, 84, t) == 15;
    assert StripFrom(d, 84, t) == Some(d);
    assert FindsRpath(d, 84, t) == Some(true) by { assert FindsRpath(d, 92, t) == Some(false); }
  }

  lemma HalfEntryStart()
    ensures HalfEntry()[..4] == MAGIC && HalfEntry()[4] == 1 && HalfEntry()[5] == 2
  {
  }
}
