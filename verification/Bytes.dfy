/** Integers in byte sequences, in both byte orders. */
module Bytes {

  type Byte = x: int | 0 <= x < 256

  /** The first four bytes of an ELF file. */
  const MAGIC: seq<Byte> := [0x7f, 0x45, 0x4c, 0x46]

  function BigEndian(s: seq<Byte>): nat
  {
    if s == [] then 0 else BigEndian(s[..|s| - 1]) * 256 + s[|s| - 1]
  }

  function LittleEndian(s: seq<Byte>): nat
  {
    if s == [] then 0 else s[0] + 256 * LittleEndian(s[1..])
  }

  /** The unsigned integer of the given width at an offset. */
  function Read(d: seq<Byte>, off: nat, width: nat, big: bool): nat
    requires off + width <= |d|
  {
    if big then BigEndian(d[off..off + width]) else LittleEndian(d[off..off + width])
  }

  /** Two and four bytes, most significant first. */
  ghost function Two(a: Byte, b: Byte): nat
  {
    a * 0x100 + b
  }

  ghost function Four(a: Byte, b: Byte, c: Byte, d: Byte): nat
  {
    a * 0x100_0000 + b * 0x1_0000 + c * 0x100 + d
  }

  lemma TwoBytes(a: Byte, b: Byte)
    ensures BigEndian([a, b]) == Two(a, b) && LittleEndian([a, b]) == Two(b, a)
  {
    var s: seq<Byte> := [a, b];
    assert s[..1] == [a] && s[1..] == [b];
    assert [a][..0] == [] && [b][1..] == [];
    assert BigEndian([a]) == a && LittleEndian([b]) == b;
  }

  lemma {:induction false} Appended(s: seq<Byte>, t: seq<Byte>, u: Byte, v: Byte)
    requires t == [u, v]
    ensures BigEndian(s + t) == BigEndian(s) * 0x1_0000 + Two(u, v)
    ensures LittleEndian(t + s) == LittleEndian(t) + LittleEndian(s) * 0x1_0000
  {
    assert (s + t)[..|s| + 1] == s + [u] && (s + [u])[..|s|] == s;
    assert BigEndian(s + [u]) == BigEndian(s) * 256 + u;
    assert (t + s)[1..] == [v] + s && ([v] + s)[1..] == s;
    assert LittleEndian([v] + s) == v + 256 * LittleEndian(s);
    TwoBytes(u, v);
  }

  lemma FourBytes(a: Byte, b: Byte, c: Byte, d: Byte)
    ensures BigEndian([a, b, c, d]) == Four(a, b, c, d) && LittleEndian([a, b, c, d]) == Four(d, c, b, a)
  {
    Appended([a, b], [c, d], c, d);
    Appended([c, d], [a, b], a, b);
    TwoBytes(a, b);
    TwoBytes(c, d);
    assert [a, b] + [c, d] == [a, b, c, d];
  }

  /** A number has only one representation of a given width. */
  lemma {:induction false} OneRepresentation(s: seq<Byte>, t: seq<Byte>)
    requires |s| == |t|
    ensures BigEndian(s) == BigEndian(t) <==> s == t
  {
    if s != [] {
      var n := |s| - 1;
      OneRepresentation(s[..n], t[..n]);
      assert s == s[..n] + [s[n]] && t == t[..n] + [t[n]];
      assert BigEndian(s) % 256 == s[n] && BigEndian(t) % 256 == t[n];
    }
  }

  /** What is read of 2, 4 and 8 bytes, in both byte orders. */
  lemma ReadsTwo(d: seq<Byte>, off: nat)
    requires off + 2 <= |d|
    ensures Read(d, off, 2, true) == Two(d[off], d[off + 1]) && Read(d, off, 2, false) == Two(d[off + 1], d[off])
  {
    TwoBytes(d[off], d[off + 1]);
    assert d[off..off + 2] == [d[off], d[off + 1]];
  }

  lemma ReadsFour(d: seq<Byte>, off: nat)
    requires off + 4 <= |d|
    ensures Read(d, off, 4, true) == Four(d[off], d[off + 1], d[off + 2], d[off + 3])
    ensures Read(d, off, 4, false) == Four(d[off + 3], d[off + 2], d[off + 1], d[off])
  {
    FourBytes(d[off], d[off + 1], d[off + 2], d[off + 3]);
    assert d[off..off + 4] == [d[off], d[off + 1], d[off + 2], d[off + 3]];
  }

  lemma ReadsEight(d: seq<Byte>, off: nat)
    requires off + 8 <= |d|
    ensures Read(d, off, 8, true) == Read(d, off, 4, true) * 0x1_0000_0000 + Read(d, off + 4, 4, true)
    ensures Read(d, off, 8, false) == Read(d, off, 4, false) + Read(d, off + 4, 4, false) * 0x1_0000_0000
  {
    hide BigEndian, LittleEndian;
    var a, b, c := d[off..off + 4], d[off + 4..off + 6], d[off + 6..off + 8];
    var e, f, g := d[off + 4..off + 8], d[off..off + 2], d[off + 2..off + 4];
    assert d[off..off + 8] == (a + b) + c && d[off..off + 8] == f + (g + e);
    Appended(a, b, b[0], b[1]);
    Appended(a + b, c, c[0], c[1]);
    Appended(g + e, f, f[0], f[1]);
    Appended(e, g, g[0], g[1]);
    ReadsFour(d, off);
    ReadsFour(d, off + 4);
    TwoBytes(f[0], f[1]);
    TwoBytes(g[0], g[1]);
  }

  function Zeros(n: nat): (r: seq<Byte>)
    ensures |r| == n && forall i :: 0 <= i < n ==> r[i] == 0
  {
    if n == 0 then [] else [0] + Zeros(n - 1)
  }

  /** A value below 256 in the given width. */
  function Small(v: Byte, width: nat, big: bool): (r: seq<Byte>)
    requires width > 0
    ensures |r| == width
  {
    if big then Zeros(width - 1) + [v] else [v] + Zeros(width - 1)
  }

  function Splice(d: seq<Byte>, off: nat, s: seq<Byte>): (r: seq<Byte>)
    requires off + |s| <= |d|
    ensures |r| == |d|
    ensures r[off..off + |s|] == s
    ensures forall k :: 0 <= k < |d| && !(off <= k < off + |s|) ==> r[k] == d[k]
  {
    d[..off] + s + d[off + |s|..]
  }

  lemma {:induction false} ZerosAreZero(n: nat)
    ensures BigEndian(Zeros(n)) == 0 && LittleEndian(Zeros(n)) == 0
  {
    if n != 0 {
      ZerosAreZero(n - 1);
      assert Zeros(n)[..n - 1] == Zeros(n - 1);
      assert Zeros(n)[1..] == Zeros(n - 1);
    }
  }

  lemma BigEndianSmall(v: Byte, n: nat)
    ensures BigEndian(Zeros(n) + [v]) == v
  {
    ZerosAreZero(n);
    assert (Zeros(n) + [v])[..n] == Zeros(n);
  }

  lemma LittleEndianSmall(v: Byte, n: nat)
    ensures LittleEndian([v] + Zeros(n)) == v
  {
    ZerosAreZero(n);
    assert ([v] + Zeros(n))[1..] == Zeros(n);
  }

  lemma SmallReads(v: Byte, width: nat, big: bool)
    requires width > 0
    ensures Read(Small(v, width, big), 0, width, big) == v
  {
    hide BigEndian, LittleEndian, Zeros;
    var s := Small(v, width, big);
    assert s[0..width] == s;
    BigEndianSmall(v, width - 1);
    LittleEndianSmall(v, width - 1);
  }

  /** Reading depends only on the bytes that are read. */
  lemma ReadSame(d: seq<Byte>, e: seq<Byte>, off: nat, width: nat, big: bool)
    requires off + width <= |d| == |e| && forall k :: off <= k < off + width ==> d[k] == e[k]
    ensures Read(d, off, width, big) == Read(e, off, width, big)
  {
    assert d[off..off + width] == e[off..off + width];
  }
}
