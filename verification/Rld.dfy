/** Symbol relocation in the IRIX run-time linker: the binary search in the relocation
    table, its cache, and the relocation of words in step with the GOT. */
module Rld {

  const WORD: nat := 0x1_0000_0000

  function Wrap(x: int): nat
  {
    x % WORD
  }

  const R_MIPS_REL32: nat := 3
  const R_MIPS_RELGOT: nat := 0x24
  const SHN_ABS: int := -0xf

  /** The fields of a dynamic symbol that relocation looks at. */
  datatype Symbol = Symbol(value: nat, other: nat, section: int)

  /** A relocation entry: offset, symbol index (24 bits) and type. */
  datatype Rel = Rel(offset: nat, sym: nat, kind: nat)

  // ---------- The relocation table ----------

  /** Sorted by symbol, with a null entry in front. */
  ghost predicate IsTable(rel: seq<Rel>)
  {
    && (rel != [] ==> rel[0].sym == 0)
    && (forall i, j :: 0 <= i < j < |rel| ==> rel[i].sym <= rel[j].sym)
  }

  ghost predicate Mentions(rel: seq<Rel>, sym: nat)
  {
    exists i :: 0 <= i < |rel| && rel[i].sym == sym
  }

  /** r is the first index of the symbol's run, or 0 when it has none. */
  ghost predicate IsRunStart(rel: seq<Rel>, sym: nat, r: nat)
  {
    if Mentions(rel, sym) then r < |rel| && rel[r].sym == sym && forall i :: 0 <= i < r ==> rel[i].sym != sym
    else r == 0
  }

  lemma RunStartIsUnique(rel: seq<Rel>, sym: nat, r: nat, s: nat)
    requires IsRunStart(rel, sym, r) && IsRunStart(rel, sym, s)
    ensures r == s
  {
  }

  /** Some entry of the symbol's run, or 0. The loop is the do-while of the original; its
      guard variable is `last`, the index below the upper bound. */
  method SearchRun(rel: seq<Rel>, sym: nat) returns (index: nat)
    requires IsTable(rel) && sym != 0
    ensures if Mentions(rel, sym) then index < |rel| && rel[index].sym == sym else index == 0
  {
    var n := |rel|;
    index := 0;
    if n <= 1 {
      return;
    }
    var mid, lo, hi, last := n - 1, 0, n - 1, n - 2;
    while true
      invariant 0 <= lo < hi < n && last == hi - 1
      invariant mid / 2 == (lo + hi) / 2
      invariant rel[lo].sym < sym && (hi == n - 1 || sym < rel[hi].sym)
      decreases hi - lo
    {
      mid := mid / 2;
      var more;
      if sym < rel[mid].sym {
        more := lo < mid;
        hi := mid;
      } else {
        if sym == rel[mid].sym {
          return mid;
        }
        more := mid < hi;
        lo := mid;
        if mid == last {
          if sym == rel[hi].sym {
            return hi;
          }
          return 0;
        }
      }
      last := hi - 1;
      mid := hi + lo;
      if !more {
        break;
      }
    }
  }

  method FindReloc(rel: seq<Rel>, sym: nat) returns (index: nat)
    requires IsTable(rel) && sym != 0
    ensures IsRunStart(rel, sym, index)
  {
    index := SearchRun(rel, sym);
    if index != 0 {
      var at := index;
      // Walk back two entries at a time, stopping before entry 0.
      while true
        invariant 0 < at < |rel| && rel[at].sym == sym && index < |rel|
        decreases at
      {
        index := at;
        if sym != rel[at - 1].sym || at - 1 == 0 {
          break;
        }
        index := at - 1;
        if sym != rel[at - 2].sym || at - 2 == 0 {
          break;
        }
        at := at - 2;
      }
    }
  }

  // ---------- The object ----------

  lemma RunStartInTable(rel: seq<Rel>, sym: nat, r: nat)
    requires IsRunStart(rel, sym, r)
    ensures r == 0 || r < |rel|
  {
  }

  lemma CacheWord(index: nat)
    requires index < 0x100_0000
    ensures Wrap(index * 0x100 + 1) == index * 0x100 + 1
    ensures (index * 0x100 + 1) / 256 == index && (index * 0x100 + 1) % 256 == 1
  {
  }

  class Object {
    const hasRel: bool         // there is a .rel.dyn section
    const rel: seq<Rel>
    const dynsym: seq<Symbol>
    const mapped: nat          // address the object is mapped at
    const linkBase: nat        // address it was linked for
    const fillsMsym: bool      // msym entries are computed on first use
    const gotCount: nat
    const gotSym: nat          // first symbol with a GOT slot
    const gotBase: nat
    const gotGlobal: nat       // address of the first global slot
    const gotLocal: nat        // number of local slots
    var msym: seq<nat>         // second word of each msym entry: run start * 256 + mark
    var mem: map<nat, nat>     // the words of mapped memory, GOT included

    constructor (hasRel: bool, rel: seq<Rel>, dynsym: seq<Symbol>, mapped: nat, linkBase: nat, fillsMsym: bool,
                 gotCount: nat, gotSym: nat, gotBase: nat, gotGlobal: nat, gotLocal: nat, msym: seq<nat>,
                 mem: map<nat, nat>)
      ensures this.hasRel == hasRel && this.rel == rel && this.dynsym == dynsym && this.mapped == mapped
      ensures this.linkBase == linkBase && this.fillsMsym == fillsMsym && this.gotCount == gotCount
        && this.gotSym == gotSym
      ensures this.gotBase == gotBase && this.gotGlobal == gotGlobal && this.gotLocal == gotLocal
      ensures this.msym == msym && this.mem == mem
    {
      this.hasRel, this.rel, this.dynsym, this.mapped, this.linkBase := hasRel, rel, dynsym, mapped, linkBase;
      this.fillsMsym, this.gotCount, this.gotSym := fillsMsym, gotCount, gotSym;
      this.gotBase, this.gotGlobal, this.gotLocal := gotBase, gotGlobal, gotLocal;
      this.msym, this.mem := msym, mem;
    }

    function Shift(sym: nat): int
      requires sym < |dynsym|
    {
      if dynsym[sym].section == SHN_ABS then 0 else linkBase - mapped
    }

    /** Where entry i of the relocation table points in memory. */
    function Loc(i: nat): nat
      requires i < |rel| && rel[i].sym < |dynsym|
    {
      Wrap(rel[i].offset - Shift(rel[i].sym))
    }

    function Slot(sym: nat): nat
    {
      Wrap(gotGlobal + sym * 4 - gotSym * 4)
    }

    predicate HasSlot(sym: nat)
    {
      Slot(sym) >= Wrap(gotBase + gotLocal * 4)
    }

    /** The linker may read or write the word at the computed address of the symbol's slot. */
    predicate UsesSlot(sym: nat)
    {
      gotSym <= sym || HasSlot(sym)
    }

    predicate Plain(sym: nat)
      requires sym < |dynsym|
    {
      dynsym[sym].other == 0 || dynsym[sym].other == 4
    }

    /** The layout: a single GOT, and relocated words that are apart from each other and from the GOT. */
    ghost predicate Layout()
      reads this
    {
      && IsTable(rel) && |rel| <= 0x100_0000 && (!hasRel ==> rel == [])
      && |msym| == |dynsym| <= 0x100_0000 && gotCount < 2
      && (forall i :: 0 < i < |rel| ==> rel[i].sym < |dynsym| && Loc(i) in mem)
      && (forall i, j :: 0 < i < j < |rel| ==> Loc(i) != Loc(j))
      && (forall s :: 0 <= s < |dynsym| ==> dynsym[s].value < WORD && (UsesSlot(s) ==> Slot(s) in mem))
      && (forall i, s :: 0 < i < |rel| && 0 <= s < |dynsym| && UsesSlot(s) ==> Loc(i) != Slot(s))
      && (forall a :: a in mem ==> mem[a] < WORD)
    }

    /** A filled msym entry holds the start of the symbol's run. */
    ghost predicate CacheRight()
      reads this
    {
      forall s :: 0 < s < |msym| && (msym[s] % 256 != 0 || !fillsMsym) ==> IsRunStart(rel, s, msym[s] / 256)
    }

    ghost predicate Valid()
      reads this
    {
      Layout() && CacheRight()
    }

    /** The GOT value of the symbol in memory m. */
    function DynsymGot(m: map<nat, nat>, sym: nat): nat
      requires sym < |dynsym| && (UsesSlot(sym) ==> Slot(sym) in m)
    {
      if HasSlot(sym) then m[Slot(sym)] else 0
    }

    /** The value the relocated words of the symbol are taken to contain. */
    function CurrentIn(m: map<nat, nat>, sym: nat): nat
      requires sym < |dynsym| && (UsesSlot(sym) ==> Slot(sym) in m)
    {
      if DynsymGot(m, sym) == 0 || !Plain(sym) then dynsym[sym].value else DynsymGot(m, sym)
    }

    function Current(sym: nat): nat
      reads this
      requires sym < |dynsym| && (UsesSlot(sym) ==> Slot(sym) in mem)
    {
      CurrentIn(mem, sym)
    }

    /** The value is the word at the place of the symbol in the global part of the GOT, four bytes a symbol from
        the first one on, if that is not zero and st_other is 0 or 4; else it is the symbol's own. */
    lemma CurrentReads(m: map<nat, nat>, sym: nat, a: nat)
      requires sym < |dynsym| && gotSym <= sym && a == gotGlobal + 4 * (sym - gotSym) < 0x1_0000_0000 && a in m
      requires gotBase + 4 * gotLocal <= a
      ensures Slot(sym) == a
      ensures CurrentIn(m, sym) ==
        if m[a] != 0 && (dynsym[sym].other == 0 || dynsym[sym].other == 4) then m[a] else dynsym[sym].value
    {
    }

    /** A symbol whose place is in the local part has its own value. */
    lemma CurrentOfLocal(m: map<nat, nat>, sym: nat, a: nat)
      requires sym < |dynsym| && (UsesSlot(sym) ==> Slot(sym) in m)
      requires a == gotGlobal + 4 * sym - 4 * gotSym < gotBase + 4 * gotLocal < 0x1_0000_0000
      ensures CurrentIn(m, sym) == dynsym[sym].value
    {
    }

    method LookUp(sym: nat) returns (index: nat)
      requires Valid() && 0 < sym < |dynsym|
      modifies this`msym
      ensures Valid() && IsRunStart(rel, sym, index)
      ensures msym == if fillsMsym && old(msym[sym]) % 256 == 0 then old(msym)[sym := index * 256 + 1] else old(msym)
    {
      hide IsTable, IsRunStart, Wrap;
      var entry := msym[sym];
      if fillsMsym && entry % 256 == 0 {
        var found := FindReloc(rel, sym);
        RunStartInTable(rel, sym, found);
        CacheWord(found);
        msym := msym[sym := Wrap(found * 0x100 + 1)];
        entry := msym[sym];
      }
      index := entry / 256;
    }

    /** What relocation entry i leaves in its word when the symbol moves from was to addr. */
    function Relocated(i: nat, word: nat, was: nat, addr: nat): nat
      requires i < |rel| && rel[i].sym < |dynsym|
    {
      if rel[i].kind == R_MIPS_REL32 then Wrap(addr + (word - was))
      else if rel[i].kind == R_MIPS_RELGOT && Plain(rel[i].sym) then addr
      else word
    }

    ghost predicate Supported(sym: nat)
    {
      forall i :: 0 < i < |rel| && rel[i].sym == sym ==> rel[i].kind == R_MIPS_REL32 || rel[i].kind == R_MIPS_RELGOT
    }

    /** Entries from lo to hi have been relocated, and no other word has changed. */
    ghost predicate Moved(before: map<nat, nat>, lo: nat, hi: nat, was: nat, addr: nat)
      reads this
    {
      && mem.Keys == before.Keys
      && (forall i :: 0 < i < |rel| ==> rel[i].sym < |dynsym| && Loc(i) in mem)
      && (forall i :: lo <= i < hi && 0 < i < |rel| ==> mem[Loc(i)] == Relocated(i, before[Loc(i)], was, addr))
      && (forall a :: a in mem && (forall i :: lo <= i < hi && 0 < i < |rel| ==> a != Loc(i)) ==> mem[a] == before[a])
    }

    /** Exactly the entries of the symbol's run have been relocated. */
    ghost predicate RunMoved(before: map<nat, nat>, sym: nat, was: nat, addr: nat)
      reads this
    {
      && mem.Keys == before.Keys
      && (forall i :: 0 < i < |rel| ==> rel[i].sym < |dynsym| && Loc(i) in mem)
      && (forall i :: 0 < i < |rel| && rel[i].sym == sym ==> mem[Loc(i)] == Relocated(i, before[Loc(i)], was, addr))
      && (forall a :: a in mem && (forall i :: 0 < i < |rel| && rel[i].sym == sym ==> a != Loc(i)) ==>
          mem[a] == before[a])
    }

    /** The address that entry i names: as far into the mapped object as its offset is into the linked one,
        or for an absolute symbol the offset itself. */
    ghost function Target(i: nat): int
      requires i < |rel| && rel[i].sym < |dynsym|
    {
      if dynsym[rel[i].sym].section == -15 then rel[i].offset % 0x1_0000_0000
      else (mapped + (rel[i].offset - linkBase)) % 0x1_0000_0000
    }

    /** The word that entry i names has moved from was to addr: by their difference, modulo 2^32, for an entry
        of type 3; to addr itself for one of type 36, if the symbol's st_other is 0 or 4. */
    ghost predicate WordMoved(before: map<nat, nat>, i: nat, was: nat, addr: nat)
      reads this
    {
      i < |rel| && rel[i].sym < |dynsym| &&
      var a, other := Target(i), dynsym[rel[i].sym].other;
      a in before && a in mem && mem[a] ==
        if rel[i].kind == 3 then (before[a] + addr - was) % 0x1_0000_0000
        else if rel[i].kind == 36 && (other == 0 || other == 4) then addr
        else before[a]
    }

    lemma RelocatedMoves(before: map<nat, nat>, i: nat, was: nat, addr: nat)
      requires i < |rel| && rel[i].sym < |dynsym| && Loc(i) in before && mem.Keys == before.Keys
      requires mem[Loc(i)] == Relocated(i, before[Loc(i)], was, addr)
      ensures Target(i) == Loc(i) && WordMoved(before, i, was, addr)
    {
    }

    /** Apply one entry of the table: store in its word what relocation leaves there. */
    method Patch(i: nat, was: nat, addr: nat) returns (ok: bool)
      requires i < |rel| && rel[i].sym < |dynsym| && Loc(i) in mem && mem[Loc(i)] < WORD && was < WORD && addr < WORD
      modifies this`mem
      ensures mem == old(mem)[Loc(i) := Relocated(i, old(mem)[Loc(i)], was, addr)]
      ensures ok <==> rel[i].kind == R_MIPS_REL32 || rel[i].kind == R_MIPS_RELGOT
    {
      hide Loc, Plain;
      var loc := Loc(i);
      ok := true;
      if rel[i].kind == R_MIPS_REL32 {
        if addr != was {
          mem := mem[loc := Wrap(addr + (mem[loc] - was))];
        }
      } else if rel[i].kind == R_MIPS_RELGOT {
        if Plain(rel[i].sym) {
          if mem[loc] != addr {
            mem := mem[loc := addr];
          }
        }
      } else {
        ok := false;
      }
    }

    /** One entry: the layout stays, and only its word changes. */
    method RelocateOne(i: nat, was: nat, addr: nat) returns (ok: bool)
      requires Valid() && 0 < i < |rel| && was < WORD && addr < WORD
      modifies this`mem
      ensures Valid() && Moved(old(mem), i, i + 1, was, addr)
      ensures mem.Keys == old(mem.Keys) && WordMoved(old(mem), i, was, addr)
      ensures ok <==> rel[i].kind == R_MIPS_REL32 || rel[i].kind == R_MIPS_RELGOT
    {
      hide IsTable, IsRunStart, Relocated, Loc, Slot;
      RelocatedIsWord(i, mem[Loc(i)], was, addr);
      ok := Patch(i, was, addr);
      RelocatedMoves(old(mem), i, was, addr);
    }

    lemma RelocatedIsWord(i: nat, word: nat, was: nat, addr: nat)
      requires i < |rel| && rel[i].sym < |dynsym| && word < WORD && addr < WORD
      ensures Relocated(i, word, was, addr) < WORD
    {
    }

    lemma MovedOneMore(before: map<nat, nat>, during: map<nat, nat>, lo: nat, i: nat, was: nat, addr: nat)
      requires 0 < lo <= i < |rel|
        && (forall j, k :: 0 < j < k < |rel| && rel[j].sym < |dynsym| && rel[k].sym < |dynsym| ==> Loc(j) != Loc(k))
      requires Moved(during, i, i + 1, was, addr)
      requires during.Keys == before.Keys
      requires forall j :: lo <= j < i ==> during[Loc(j)] == Relocated(j, before[Loc(j)], was, addr)
      requires forall a :: a in during && (forall j :: lo <= j < i ==> a != Loc(j)) ==> during[a] == before[a]
      ensures Moved(before, lo, i + 1, was, addr)
    {
      forall a | a in mem && (forall j :: lo <= j < i + 1 && 0 < j < |rel| ==> a != Loc(j))
        ensures mem[a] == before[a]
      {
        assert a != Loc(i);
      }
    }

    /** Relocate the words of the symbol's run; ok is false when the run holds an unsupported
        relocation, on which the original stops the program. */
    method ResolveRelocations(sym: nat, addr: nat) returns (ok: bool)
      requires Valid() && 0 < sym < |dynsym| && addr < WORD
      modifies this
      ensures Valid() && mem.Keys == old(mem.Keys) && (ok <==> Supported(sym))
      ensures ok ==> RunMoved(old(mem), sym, old(Current(sym)), addr)
      ensures ok ==> forall i :: 0 < i < |rel| && rel[i].sym == sym ==> WordMoved(old(mem), i, old(Current(sym)), addr)
    {
      hide WordMoved, Target, Layout, CacheRight, Moved, RunMoved, Relocated, Wrap, IsRunStart, IsTable;
      LayoutFacts(sym);
      ok := true;
      if !hasRel {
        NoTable(sym, Current(sym), addr);
        RunWords(mem, sym, Current(sym), addr);
        return;
      }
      var index := LookUp(sym);
      RunStartInTable(rel, sym, index);
      LayoutFacts(sym);
      var was := Current(sym);
      ghost var start, before := index, mem;
      NothingMoved(index, was, addr);
      while ok && index < |rel| && rel[index].sym == sym
        invariant Valid() && start <= index <= |rel|
        invariant forall i :: start <= i < index ==> rel[i].sym == sym
        invariant Moved(before, start, index, was, addr)
        invariant ok ==> forall i :: start <= i < index ==> rel[i].kind == R_MIPS_REL32 || rel[i].kind == R_MIPS_RELGOT
        invariant !ok ==> exists i ::
          start <= i < index && !(rel[i].kind == R_MIPS_REL32 || rel[i].kind == R_MIPS_RELGOT)
        decreases |rel| - index
      {
        MovedFacts(before, start, index, was, addr);
        ghost var during := mem;
        ok := RelocateOne(index, was, addr);
        MovedOneMore(before, during, start, index, was, addr);
        index := index + 1;
      }
      MovedFacts(before, start, index, was, addr);
      if ok {
        WholeRunMoved(before, sym, start, index, was, addr);
        RunWords(before, sym, was, addr);
      }
    }

    lemma RunWords(before: map<nat, nat>, sym: nat, was: nat, addr: nat)
      requires RunMoved(before, sym, was, addr)
      ensures forall i :: 0 < i < |rel| && rel[i].sym == sym ==> WordMoved(before, i, was, addr)
    {
      hide WordMoved, Target, Relocated, Loc;
      forall i | 0 < i < |rel| && rel[i].sym == sym {
        RelocatedMoves(before, i, was, addr);
      }
    }

    lemma WholeRunMoved(before: map<nat, nat>, sym: nat, start: nat, end: nat, was: nat, addr: nat)
      requires IsTable(rel) && IsRunStart(rel, sym, start) && sym != 0 && start <= end <= |rel|
      requires (forall i :: start <= i < end ==> rel[i].sym == sym) && (end < |rel| ==> rel[end].sym != sym)
      requires Moved(before, start, end, was, addr)
      ensures RunMoved(before, sym, was, addr)
      ensures forall i :: 0 < i < |rel| ==> (rel[i].sym == sym <==> start <= i < end)
    {
      hide Relocated, IsTable, IsRunStart;
      RunEnds(sym, start, end);
    }

    lemma NoTable(sym: nat, was: nat, addr: nat)
      requires rel == []
      ensures RunMoved(mem, sym, was, addr)
    {
    }

    lemma LayoutFacts(sym: nat)
      requires Valid() && 0 < sym < |dynsym|
      ensures IsTable(rel) && (!hasRel ==> rel == []) && (UsesSlot(sym) ==> Slot(sym) in mem) && Current(sym) < WORD
      ensures forall i :: 0 < i < |rel| ==> rel[i].sym < |dynsym| && Loc(i) in mem
      ensures forall i, j :: 0 < i < j < |rel| ==> rel[i].sym < |dynsym| && rel[j].sym < |dynsym| && Loc(i) != Loc(j)
      ensures forall i :: 0 < i < |rel| ==> rel[i].sym < |dynsym| && (UsesSlot(sym) ==> Loc(i) != Slot(sym))
    {
    }

    lemma NothingMoved(i: nat, was: nat, addr: nat)
      requires forall i :: 0 < i < |rel| ==> rel[i].sym < |dynsym| && Loc(i) in mem
      ensures Moved(mem, i, i, was, addr)
    {
    }

    lemma MovedFacts(before: map<nat, nat>, lo: nat, hi: nat, was: nat, addr: nat)
      requires Moved(before, lo, hi, was, addr) && hi <= |rel|
      ensures mem.Keys == before.Keys
      ensures forall i :: lo <= i < hi && i > 0 ==>
        rel[i].sym < |dynsym| && Loc(i) in mem && mem[Loc(i)] == Relocated(i, before[Loc(i)], was, addr)
      ensures forall a :: a in mem && (forall i :: lo <= i < hi && i > 0 ==> rel[i].sym < |dynsym| && a != Loc(i)) ==>
        mem[a] == before[a]
    {
    }

    lemma RunEnds(sym: nat, start: nat, end: nat)
      requires IsTable(rel) && IsRunStart(rel, sym, start) && sym != 0 && start <= end <= |rel|
      requires (forall i :: start <= i < end ==> rel[i].sym == sym) && (end < |rel| ==> rel[end].sym != sym)
      ensures forall i :: 0 < i < |rel| ==> (rel[i].sym == sym <==> start <= i < end)
    {
    }

    // ---------- Words and GOT together ----------

    method SetDynsymGot(sym: nat, addr: nat)
      requires Valid() && sym < |dynsym| && addr < WORD
      modifies this`mem
      ensures Valid()
      ensures mem == if gotSym <= sym then old(mem)[Slot(sym) := addr] else old(mem)
    {
      if gotSym <= sym {
        mem := mem[Wrap(gotGlobal + (sym - gotSym) * 4) := addr];
      }
    }

    lemma SlotsDiffer(s: nat, t: nat)
      requires s < 0x100_0000 && t < 0x100_0000 && s != t
      ensures Slot(s) != Slot(t)
    {
      var base := gotGlobal - gotSym * 4;
      if Slot(s) == Slot(t) {
        WrapDifference(base + s * 4, base + t * 4);
      }
    }

    /** In memory m, every relocated word of the symbol is its fixed addend plus the symbol's current value. */
    ghost predicate Consistent(m: map<nat, nat>, addend: seq<nat>, sym: nat)
      requires |addend| == |rel| && sym < |dynsym| && (UsesSlot(sym) ==> Slot(sym) in m)
    {
      forall i :: 0 < i < |rel| && rel[i].sym == sym && rel[i].kind == R_MIPS_REL32 && Loc(i) in m
        ==> m[Loc(i)] == Wrap(addend[i] + CurrentIn(m, sym))
    }

    ghost predicate HasRel32(sym: nat)
    {
      exists i :: 0 < i < |rel| && rel[i].sym == sym && rel[i].kind == R_MIPS_REL32
    }

    /** The symbol's slot is a global one that obj_set_dynsym_got writes. */
    predicate OwnsSlot(sym: nat)
    {
      gotCount == 1 && gotSym <= sym && HasSlot(sym)
    }

    /** After the symbol has been bound to addr, its current value is addr. */
    predicate Settles(sym: nat, addr: nat)
      requires sym < |dynsym|
    {
      (addr != 0 && Plain(sym)) || dynsym[sym].value == addr
    }

    /** Words other than the symbol's slot, if it has one to be written, are as RunMoved says. */
    ghost predicate Bound(before: map<nat, nat>, sym: nat, was: nat, addr: nat)
      reads this
    {
      && mem.Keys == before.Keys
      && (forall i :: 0 < i < |rel| ==> rel[i].sym < |dynsym| && Loc(i) in mem)
      && (forall i :: 0 < i < |rel| && rel[i].sym == sym ==> mem[Loc(i)] == Relocated(i, before[Loc(i)], was, addr))
      && (forall a ::
            a in mem && (gotSym <= sym ==> a != Slot(sym))
            && (forall i :: 0 < i < |rel| && rel[i].sym == sym ==> a != Loc(i))
            ==> mem[a] == before[a])
    }

    /** Bind the symbol to addr: relocate its words, then store addr in its GOT slot. */
    method Bind(sym: nat, addr: nat) returns (ok: bool)
      requires Valid() && 0 < sym < |dynsym| && addr < WORD
      modifies this
      ensures Valid() && (ok <==> Supported(sym))
      ensures ok ==> Bound(old(mem), sym, old(Current(sym)), addr)
      ensures ok && gotCount == 1 && gotSym <= sym ==> mem[Slot(sym)] == addr
      ensures ok && UsesSlot(sym) && !(gotCount == 1 && gotSym <= sym) ==> mem[Slot(sym)] == old(mem)[Slot(sym)]
    {
      hide CacheRight, Layout, Relocated, Wrap, IsTable;
      LayoutFacts(sym);
      ok := ResolveRelocations(sym, addr);
      LayoutFacts(sym);
      if ok && gotCount == 1 {
        SetDynsymGot(sym, addr);
      }
    }

    lemma BoundWord(before: map<nat, nat>, addend: seq<nat>, sym: nat, addr: nat, i: nat)
      requires |addend| == |rel| && sym < |dynsym| && (UsesSlot(sym) ==> Slot(sym) in before && Slot(sym) in mem)
      requires Bound(before, sym, CurrentIn(before, sym), addr) && Consistent(before, addend, sym)
      requires 0 < i < |rel| && rel[i].sym == sym && rel[i].kind == R_MIPS_REL32
      ensures mem[Loc(i)] == Wrap(addend[i] + addr)
    {
      hide Wrap, CurrentIn;
      WrapShift(addend[i], CurrentIn(before, sym), addr);
    }

    /** A bound symbol's words hold addend + addr, so they agree with the symbol's current value
        exactly when that value has become addr. */
    lemma BindKeepsSymbol(before: map<nat, nat>, addend: seq<nat>, sym: nat, addr: nat)
      requires Valid() && |addend| == |rel| && 0 < sym < |dynsym| && addr < WORD
        && (UsesSlot(sym) ==> Slot(sym) in before && Slot(sym) in mem)
      requires Bound(before, sym, CurrentIn(before, sym), addr) && Consistent(before, addend, sym)
      ensures Consistent(mem, addend, sym) <==> !HasRel32(sym) || CurrentIn(mem, sym) == addr
    {
      hide CacheRight, Layout, Wrap, IsTable, CurrentIn, Relocated, Loc, Slot, UsesSlot, Bound;
      LayoutFacts(sym);
      var now := CurrentIn(mem, sym);
      forall i | 0 < i < |rel| && rel[i].sym == sym && rel[i].kind == R_MIPS_REL32
        ensures mem[Loc(i)] == Wrap(addend[i] + now) <==> addr == now
      {
        WordAgrees(before, addend, sym, addr, now, i);
      }
    }

    lemma WordAgrees(before: map<nat, nat>, addend: seq<nat>, sym: nat, addr: nat, now: nat, i: nat)
      requires |addend| == |rel| && sym < |dynsym| && (UsesSlot(sym) ==> Slot(sym) in before && Slot(sym) in mem)
      requires Bound(before, sym, CurrentIn(before, sym), addr) && Consistent(before, addend, sym)
      requires 0 < i < |rel| && rel[i].sym == sym && rel[i].kind == R_MIPS_REL32 && addr < WORD && now < WORD
      ensures mem[Loc(i)] == Wrap(addend[i] + now) <==> addr == now
    {
      hide Wrap, CurrentIn, Relocated, Consistent;
      BoundWord(before, addend, sym, addr, i);
      WrapCancel(addend[i], addr, now);
    }

    /** Binding keeps a symbol with a global slot consistent if and only if it has no REL32 words
        or the address settles: a zero address, as for an undefined weak symbol, does not. */
    lemma BindKeepsSymbolExactly(before: map<nat, nat>, addend: seq<nat>, sym: nat, addr: nat)
      requires Valid() && |addend| == |rel| && 0 < sym < |dynsym| && addr < WORD
        && (UsesSlot(sym) ==> Slot(sym) in before && Slot(sym) in mem)
      requires Bound(before, sym, CurrentIn(before, sym), addr) && Consistent(before, addend, sym)
      requires OwnsSlot(sym) && mem[Slot(sym)] == addr
      ensures Consistent(mem, addend, sym) <==> !HasRel32(sym) || Settles(sym, addr)
    {
      hide CacheRight, Layout, Bound, Consistent, HasRel32;
      BindKeepsSymbol(before, addend, sym, addr);
    }

    /** Binding one symbol leaves the words and the value of every other symbol alone. */
    lemma BindKeepsOthers(before: map<nat, nat>, addend: seq<nat>, sym: nat, was: nat, addr: nat, s: nat)
      requires Valid() && |addend| == |rel| && sym < |dynsym| && s < |dynsym| && s != sym
        && (UsesSlot(s) ==> Slot(s) in before)
      requires Bound(before, sym, was, addr) && Consistent(before, addend, s)
      ensures (UsesSlot(s) ==> Slot(s) in mem) && CurrentIn(mem, s) == CurrentIn(before, s)
        && Consistent(mem, addend, s)
    {
      hide CacheRight, Wrap, IsTable, Relocated;
      SlotsDiffer(s, sym);
      assert UsesSlot(s) ==> mem[Slot(s)] == before[Slot(s)];
      forall i | 0 < i < |rel| && rel[i].sym == s && rel[i].kind == R_MIPS_REL32 ensures mem[Loc(i)] == before[Loc(i)] {
        assert gotSym <= sym ==> UsesSlot(sym) && Loc(i) != Slot(sym);
      }
    }

    /** On a single-GOT object with a global slot for the symbol, its current value is the address
        it was last bound to if and only if that address settles. */
    lemma BoundValue(sym: nat, addr: nat)
      requires sym < |dynsym| && Slot(sym) in mem && OwnsSlot(sym) && mem[Slot(sym)] == addr
      ensures Current(sym) == addr <==> Settles(sym, addr)
    {
    }

    /** In memory m, every relocated word of every symbol is its addend plus the symbol's current value. */
    ghost predicate AllConsistent(m: map<nat, nat>, addend: seq<nat>)
    {
      |addend| == |rel| && forall s :: 0 < s < |dynsym| ==> (UsesSlot(s) ==> Slot(s) in m) && Consistent(m, addend, s)
    }

    /** Binding the symbol to addr does not lose track of its words. */
    ghost predicate KeepsTrack(sym: nat, addr: nat)
    {
      !HasRel32(sym) || (sym < |dynsym| && Settles(sym, addr))
    }

    /** One step from a consistent memory leads to a consistent memory if and only if it keeps track. */
    lemma StepExactly(before: map<nat, nat>, addend: seq<nat>, sym: nat, addr: nat)
      requires Valid() && 0 < sym < |dynsym| && addr < WORD && AllConsistent(before, addend)
      requires Bound(before, sym, CurrentIn(before, sym), addr) && OwnsSlot(sym) && mem[Slot(sym)] == addr
      ensures AllConsistent(mem, addend) <==> KeepsTrack(sym, addr)
    {
      hide Valid, Bound, Consistent, OwnsSlot, HasRel32, Settles, CurrentIn;
      SingleGot(sym);
      HasItsSlot(sym);
      BindKeepsSymbolExactly(before, addend, sym, addr);
      forall s | 0 < s < |dynsym| && s != sym ensures (UsesSlot(s) ==> Slot(s) in mem) && Consistent(mem, addend, s) {
        BindKeepsOthers(before, addend, sym, CurrentIn(before, sym), addr, s);
      }
    }

    /** One step, and what it means for the words of all symbols. */
    method BindStep(sym: nat, addr: nat, ghost addend: seq<nat>) returns (ok: bool)
      requires Valid() && 0 < sym < |dynsym| && addr < WORD && OwnsSlot(sym)
      modifies this
      ensures Valid() && (ok <==> Supported(sym))
      ensures ok ==> Stepped(old(mem), mem, sym, addr) && (Current(sym) == addr <==> Settles(sym, addr))
      ensures ok && AllConsistent(old(mem), addend) ==> (AllConsistent(mem, addend) <==> KeepsTrack(sym, addr))
    {
      hide Valid, Bound, Consistent, Settles, OwnsSlot, Supported, AllConsistent, KeepsTrack, CurrentIn, HasRel32;
      ghost var before := mem;
      SingleGot(sym);
      HasItsSlot(sym);
      ok := Bind(sym, addr);
      if ok {
        HasItsSlot(sym);
        BoundValue(sym, addr);
        BoundSteps(before, sym, addr);
        if AllConsistent(before, addend) {
          StepExactly(before, addend, sym, addr);
        }
      }
    }

    ghost predicate TraceConsistent(trace: seq<map<nat, nat>>, addend: seq<nat>)
    {
      forall k :: 0 <= k < |trace| ==> AllConsistent(trace[k], addend)
    }

    ghost predicate AllKeepTrack(steps: seq<(nat, nat)>)
    {
      forall k :: 0 <= k < |steps| ==> KeepsTrack(steps[k].0, steps[k].1)
    }

    /** The memory before the first step and after each. */
    ghost predicate IsTrace(trace: seq<map<nat, nat>>, steps: seq<(nat, nat)>)
    {
      |trace| == |steps| + 1 && forall k :: 0 <= k < |steps| ==> Stepped(trace[k], trace[k + 1], steps[k].0, steps[k].1)
    }

    lemma TraceGrows(trace: seq<map<nat, nat>>, steps: seq<(nat, nat)>, after: map<nat, nat>, step: (nat, nat),
                     addend: seq<nat>)
      requires IsTrace(trace, steps) && (TraceConsistent(trace, addend) <==> AllKeepTrack(steps))
      requires Stepped(trace[|steps|], after, step.0, step.1)
      requires AllConsistent(trace[|steps|], addend) ==> (AllConsistent(after, addend) <==> KeepsTrack(step.0, step.1))
      ensures IsTrace(trace + [after], steps + [step])
      ensures TraceConsistent(trace + [after], addend) <==> AllKeepTrack(steps + [step])
    {
      hide AllConsistent, KeepsTrack, Stepped;
      var t, q := trace + [after], steps + [step];
      if TraceConsistent(t, addend) {
        assert forall k :: 0 <= k < |trace| ==> t[k] == trace[k];
        assert t[|trace|] == after;
        assert AllKeepTrack(q);
      }
      if AllKeepTrack(q) {
        assert forall k :: 0 <= k < |steps| ==> q[k] == steps[k];
        assert q[|steps|] == step;
        assert TraceConsistent(t, addend);
      }
    }

    /** Bind a series of symbols, as the conflict search and the lazy resolver do over time. From a
        consistent memory the object is consistent after every step if and only if every step keeps track. */
    method BindAll(steps: seq<(nat, nat)>, ghost addend: seq<nat>) returns (ok: bool, ghost trace: seq<map<nat, nat>>)
      requires Valid() && AllConsistent(mem, addend)
      requires forall k :: 0 <= k < |steps| ==> 0 < steps[k].0 < |dynsym| && steps[k].1 < WORD && OwnsSlot(steps[k].0)
      modifies this
      ensures Valid() && (ok <==> forall k :: 0 <= k < |steps| ==> Supported(steps[k].0))
      ensures ok ==> IsTrace(trace, steps) && trace[0] == old(mem) && trace[|steps|] == mem
      ensures ok ==> (TraceConsistent(trace, addend) <==> AllKeepTrack(steps))
      ensures ok && steps != [] ==>
        var (s, addr) := steps[|steps| - 1]; Slot(s) in mem && (Current(s) == addr <==> Settles(s, addr))
    {
      hide Valid, Settles, OwnsSlot, Supported, AllConsistent, KeepsTrack, CurrentIn, Stepped, TraceConsistent,
        AllKeepTrack;
      ok, trace := true, [mem];
      FirstMemory(addend);
      for k := 0 to |steps|
        invariant Valid() && ok && IsTrace(trace, steps[..k]) && trace[0] == old(mem) && trace[k] == mem
        invariant forall j :: 0 <= j < k ==> Supported(steps[j].0)
        invariant TraceConsistent(trace, addend) <==> AllKeepTrack(steps[..k])
        invariant k > 0 ==> var (s, addr) := steps[k - 1]; Slot(s) in mem && (Current(s) == addr <==> Settles(s, addr))
      {
        var (sym, addr) := steps[k];
        ok := BindStep(sym, addr, addend);
        if !ok {
          return;
        }
        TraceGrows(trace, steps[..k], mem, steps[k], addend);
        assert steps[..k + 1] == steps[..k] + [steps[k]];
        StepHasSlot(trace[k], sym, addr);
        trace := trace + [mem];
      }
      assert steps[..|steps|] == steps;
    }

    lemma FirstMemory(addend: seq<nat>)
      requires AllConsistent(mem, addend)
      ensures IsTrace([mem], []) && TraceConsistent([mem], addend) && AllKeepTrack([])
    {
    }

    lemma StepHasSlot(before: map<nat, nat>, sym: nat, addr: nat)
      requires Stepped(before, mem, sym, addr)
      ensures Slot(sym) in mem
    {
    }

    lemma HasItsSlot(sym: nat)
      requires Valid() && 0 < sym < |dynsym|
      ensures UsesSlot(sym) ==> Slot(sym) in mem
    {
    }

    /** A step changes nothing but the slot and the relocated words of its symbol, and the slot becomes the address. */
    ghost predicate Stepped(before: map<nat, nat>, after: map<nat, nat>, sym: nat, addr: nat)
    {
      && after.Keys == before.Keys && Slot(sym) in after && after[Slot(sym)] == addr
      && forall a :: a in after && Untouched(a, sym) ==> after[a] == before[a]
    }

    lemma BoundSteps(before: map<nat, nat>, sym: nat, addr: nat)
      requires sym < |dynsym| && (UsesSlot(sym) ==> Slot(sym) in before) && Slot(sym) in mem && mem[Slot(sym)] == addr
      requires Bound(before, sym, CurrentIn(before, sym), addr)
      ensures Stepped(before, mem, sym, addr)
    {
      UntouchedKept(before, sym, CurrentIn(before, sym), addr);
    }

    lemma SingleGot(sym: nat)
      requires OwnsSlot(sym)
      ensures gotCount == 1 && gotSym <= sym && HasSlot(sym) && UsesSlot(sym)
    {
    }

    /** a is neither the GOT slot that is written for the symbol nor one of its relocated words. */
    ghost predicate Untouched(a: nat, sym: nat)
    {
      (gotSym <= sym ==> a != Slot(sym)) &&
      forall i :: 0 < i < |rel| && rel[i].sym == sym ==> rel[i].sym < |dynsym| && a != Loc(i)
    }

    lemma UntouchedKept(before: map<nat, nat>, sym: nat, was: nat, addr: nat)
      requires Bound(before, sym, was, addr)
      ensures forall a :: a in mem && Untouched(a, sym) ==> mem[a] == before[a]
    {
    }
  }

  lemma WrapShift(addend: nat, was: nat, addr: nat)
    ensures Wrap(addr + (Wrap(addend + was) - was)) == Wrap(addend + addr)
  {
    var q := (addend + was) / WORD;
    assert addend + was == q * WORD + Wrap(addend + was);
    assert addr + (Wrap(addend + was) - was) == addend + addr - q * WORD;
    WrapMultiple(addend + addr, q);
  }

  lemma WrapMultiple(x: int, q: int)
    ensures Wrap(x - q * WORD) == Wrap(x)
  {
  }

  lemma WrapCancel(addend: nat, x: nat, y: nat)
    requires x < WORD && y < WORD
    ensures Wrap(addend + x) == Wrap(addend + y) <==> x == y
  {
  }

  lemma WrapDifference(x: int, y: int)
    requires Wrap(x) == Wrap(y)
    ensures (x - y) % WORD == 0
  {
  }

  /** An undefined weak symbol with a stub value that is bound to address 0 loses track of its
      words: they hold addend + 0 while the symbol's current value is its stub value again. */
  method ZeroAddressLosesTrack() returns (o: Object, ghost before: map<nat, nat>)
    ensures o.dynsym == [Symbol(0, 0, 0), Symbol(48, 0, 0)] && o.rel == [Rel(0, 0, 0), Rel(100, 1, R_MIPS_REL32)]
    ensures o.Valid() && o.OwnsSlot(1) && o.Slot(1) in before && o.Slot(1) in o.mem
    ensures o.Consistent(before, [0, 2], 1) && o.Bound(before, 1, 48, 0)
    ensures !o.Consistent(o.mem, [0, 2], 1)
  {
    var mem := map[8 := 0, 12 := 48, 100 := 50];
    before := mem;
    o := new Object(true, [Rel(0, 0, 0), Rel(100, 1, R_MIPS_REL32)], [Symbol(0, 0, 0), Symbol(48, 0, 0)],
                    0, 0, true, 1, 0, 8, 8, 0, [0, 0], mem);
    assert o.Slot(0) == 8 && o.Slot(1) == 12 && o.Loc(1) == 100;
    assert o.Current(1) == 48;
    var ok := o.Bind(1, 0);
    assert o.rel[1].kind == R_MIPS_REL32;
    o.BindKeepsSymbolExactly(before, [0, 2], 1, 0);
    assert o.HasRel32(1);
  }
}
