/** The structures of an ELF file as lists of field widths, and the values of their fields. */
module Elf {
  import opened Bytes

  /** Where field k begins. */
  ghost function Start(widths: seq<nat>, k: nat): nat
    requires k <= |widths|
  {
    if k == 0 then 0 else Start(widths, k - 1) + widths[k - 1]
  }

  /** Field k of the structure at base. */
  ghost function Field(d: seq<Byte>, base: nat, widths: seq<nat>, k: nat, big: bool): nat
    requires k < |widths| && base + Start(widths, k) + widths[k] <= |d|
  {
    Read(d, base + Start(widths, k), widths[k], big)
  }

  /** e_ident, e_type, e_machine, e_version, e_entry, e_phoff, e_shoff, e_flags, e_ehsize, e_phentsize, e_phnum,
      e_shentsize, e_shnum, e_shstrndx; w is the width of an address. */
  ghost function FileHeader(w: nat): (r: seq<nat>)
    ensures |r| == 14
  {
    [16, 2, 2, 4, w, w, w, 4, 2, 2, 2, 2, 2, 2]
  }

  /** p_type, p_offset, p_vaddr, p_paddr, p_filesz, p_memsz, p_flags, p_align; with 8-byte addresses p_flags
      comes second. */
  ghost function ProgramHeader(w: nat): (r: seq<nat>)
    ensures |r| == 8
  {
    if w == 8 then [4, 4, 8, 8, 8, 8, 8, 8] else [4, 4, 4, 4, 4, 4, 4, 4]
  }

  /** sh_name, sh_type, sh_flags, sh_addr, sh_offset, sh_size, sh_link, sh_info, sh_addralign, sh_entsize. */
  ghost function SectionHeader(): (r: seq<nat>)
    ensures |r| == 10
  {
    [4, 4, 4, 4, 4, 4, 4, 4, 4, 4]
  }

  ghost const TYPE := 1
  ghost const PHOFF := 5
  ghost const SHOFF := 6
  ghost const PHENTSIZE := 9
  ghost const PHNUM := 10
  ghost const SHENTSIZE := 11
  ghost const SHNUM := 12
  ghost const SHSTRNDX := 13

  lemma FileHeaderStarts(w: nat)
    ensures var f := FileHeader(w);
      && Start(f, TYPE) == 16 && Start(f, PHOFF) == 24 + w && Start(f, SHOFF) == 24 + 2 * w
      && Start(f, PHENTSIZE) == 30 + 3 * w && Start(f, PHNUM) == 32 + 3 * w && Start(f, SHENTSIZE) == 34 + 3 * w
      && Start(f, SHNUM) == 36 + 3 * w && Start(f, SHSTRNDX) == 38 + 3 * w
  {
    var f := FileHeader(w);
    assert Start(f, 1) == 16;
    assert Start(f, 2) == 18;
    assert Start(f, 3) == 20;
    assert Start(f, 4) == 24;
    assert Start(f, 5) == 24 + w;
    assert Start(f, 6) == 24 + 2 * w;
    assert Start(f, 7) == 24 + 3 * w;
    assert Start(f, 8) == 28 + 3 * w;
    assert Start(f, 9) == 30 + 3 * w;
    assert Start(f, 10) == 32 + 3 * w;
    assert Start(f, 11) == 34 + 3 * w;
    assert Start(f, 12) == 36 + 3 * w;
  }

  lemma ProgramHeaderStarts(w: nat)
    ensures var f := ProgramHeader(w);
      && Start(f, 0) == 0 && Start(f, 1) == 4 && Start(f, 2) == 8
      && (if w == 8 then Start(f, 5) == 32 else Start(f, 4) == 16)
  {
    var f := ProgramHeader(w);
    assert Start(f, 1) == 4;
    assert Start(f, 2) == 8;
    assert Start(f, 3) == if w == 8 then 16 else 12;
    assert Start(f, 4) == if w == 8 then 24 else 16;
  }

  lemma SectionHeaderStarts()
    ensures var f := SectionHeader();
      Start(f, 0) == 0 && Start(f, 1) == 4 && Start(f, 4) == 16 && Start(f, 6) == 24
  {
    var f := SectionHeader();
    assert Start(f, 1) == 4;
    assert Start(f, 2) == 8;
    assert Start(f, 3) == 12;
    assert Start(f, 4) == 16;
    assert Start(f, 5) == 20;
  }
}
