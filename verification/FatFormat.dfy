/**
 The FAT as bytes and as entries (Microsoft FAT specification, "FAT Data Structure"): 12-bit entries packed
 two to three bytes, or 16-bit little-endian entries.
 */
module FatFormat {
  import opened Arithmetic
  import opened Disks
  import CS = CacheSpec

  /** hdr/fat.h and hdr/dcb.h */
  const FREE := 0
  const LONG_LAST_CLUSTER := 0x0FFF_FFFF
  const LONG_BAD := 0x0FFF_FFF7
  const FAT_MAGIC := 4085
  const FAT_MAGIC16 := 65525
  const UNKNCLUSTER := 0
  const UNKNCLSTFREE := 0xffff

  /** The fields of a drive parameter block that describe the volume. */
  datatype Geometry = Geometry(unit: int, secsize: nat, clsmask: nat, shftcnt: nat, fatstrt: nat, fats: nat,
                               data: nat, size: nat, fatsize: nat)
  {
    /** dpb_size is promoted to int before 1 is subtracted. */
    predicate IsFat12() { size - 1 < FAT_MAGIC }

    predicate IsFat16() { FAT_MAGIC < size <= FAT_MAGIC16 }

    function Layout(): Layout { Disks.Layout(fatstrt, fatsize, fats) }

    /** Offset in the FAT of the first byte of entry `c`. */
    function ByteOf(c: nat): nat { if IsFat12() then c * 3 / 2 else c * 2 }

    function FatLength(): nat { fatsize * secsize }

    /** Every entry lies inside the FAT. */
    predicate EntriesFit() { ByteOf(size) + 1 < FatLength() }

    ghost predicate Ok() {
      && secsize >= 2 && secsize % 2 == 0 && fats >= 1 && size >= 1
      && clsmask + 1 == Pow2(shftcnt) && clsmask < 0x100
      && fatstrt + fats * fatsize <= data
      && EntriesFit()
    }
  }

  // ---------- entries in bytes ----------

  type Bytes = seq<byte>

  /** The little-endian word of two bytes. */
  function Word(lo: byte, hi: byte): (w: nat)
    ensures w < 0x1_0000
  {
    lo as int + 0x100 * hi as int
  }

  /** Entry `c` of two adjacent bytes: the upper 12 bits for odd `c`, the lower 12 bits for even `c`. */
  function Unpack12(lo: byte, hi: byte, c: nat): (r: nat)
    ensures r < 0x1000
  {
    if c % 2 == 1 then Word(lo, hi) / 0x10 else Word(lo, hi) % 0x1000
  }

  /** The word with entry `c` replaced and the other four bits kept. */
  function Pack(word: nat, c: nat, x: nat): (w: nat)
    requires word < 0x1_0000 && x < 0x1000
    ensures w < 0x1_0000
  {
    if c % 2 == 1 then
      var low := word % 0x10;
      low + x * 0x10
    else
      var high := word / 0x1000;
      high * 0x1000 + x
  }

  function Pack12(lo: byte, hi: byte, c: nat, v: nat): (byte, byte) {
    var w := Pack(Word(lo, hi), c, v % 0x1000);
    (w % 0x100, w / 0x100)
  }

  lemma PackUnpack(lo: byte, hi: byte, c: nat, v: nat)
    ensures var w := Pack12(lo, hi, c, v);
      && Unpack12(w.0, w.1, c) == v % 0x1000
      && (c % 2 == 1 ==> w.0 % 0x10 == lo % 0x10)
      && (c % 2 == 0 ==> w.1 / 0x10 == hi / 0x10)
  {
    hide Pack;
    var x := v % 0x1000;
    var word := Pack(Word(lo, hi), c, x);
    assert Word(word % 0x100, word / 0x100) == word;
    if c % 2 == 1 {
      PackOdd(lo, hi, c, x);
    } else {
      PackEven(lo, hi, c, x);
    }
  }

  lemma PackOdd(lo: byte, hi: byte, c: nat, x: nat)
    requires x < 0x1000 && c % 2 == 1
    ensures var w := Pack(Word(lo, hi), c, x);
      w / 0x10 == x && w % 0x100 % 0x10 == lo as int % 0x10
  {
    var a, b := lo as int % 0x10, lo as int / 0x10;
    DivModUnique(Word(lo, hi), 0x10, b + 0x10 * hi as int, a);
    var w := a + x * 0x10;
    var xh, xl := x / 0x10, x % 0x10;
    DivModUnique(w, 0x10, x, a);
    DivModUnique(w, 0x100, xh, xl * 0x10 + a);
    DivModUnique(xl * 0x10 + a, 0x10, xl, a);
  }

  lemma PackEven(lo: byte, hi: byte, c: nat, x: nat)
    requires x < 0x1000 && c % 2 == 0
    ensures var w := Pack(Word(lo, hi), c, x);
      w % 0x1000 == x && w / 0x100 / 0x10 == hi as int / 0x10
  {
    var q, r := hi as int / 0x10, hi as int % 0x10;
    DivModUnique(Word(lo, hi), 0x1000, q, 0x100 * r + lo as int);
    var w := q * 0x1000 + x;
    var xh, xl := x / 0x100, x % 0x100;
    DivModUnique(w, 0x1000, q, x);
    DivModUnique(w, 0x100, q * 0x10 + xh, xl);
    DivModUnique(q * 0x10 + xh, 0x10, q, xh);
  }

  function Raw(g: Geometry, b: Bytes, c: nat): nat
    requires g.ByteOf(c) + 1 < |b|
  {
    var p := g.ByteOf(c);
    if g.IsFat12() then Unpack12(b[p], b[p + 1], c) else Word(b[p], b[p + 1])
  }

  /** The value stored for `v`: its low 12 or 16 bits. */
  function Encode(g: Geometry, v: nat): nat {
    if g.IsFat12() then v % 0x1000 else v % 0x1_0000
  }

  /** What a stored value reads as: all end marks as LONG_LAST_CLUSTER, the bad mark as LONG_BAD. */
  function Decode(g: Geometry, raw: nat): nat {
    if g.IsFat12() then
      if raw >= 0xFF8 then LONG_LAST_CLUSTER else if raw == 0xFF7 then LONG_BAD else raw
    else
      if raw >= 0xFFF8 then LONG_LAST_CLUSTER else if raw == 0xFFF7 then LONG_BAD else raw
  }

  /** FREE, cluster numbers, and the bad and end marks survive storing and reading. */
  lemma DecodeEncode(g: Geometry, v: nat)
    requires g.IsFat12() || g.IsFat16()
    requires v <= g.size || v == LONG_BAD || v == LONG_LAST_CLUSTER
    ensures Decode(g, Encode(g, v)) == v
    ensures Encode(g, v) == 0 <==> v == FREE
  {}

  /** The two bytes that store `v` as entry `c`. */
  function Stored(g: Geometry, b: Bytes, c: nat, v: nat): (byte, byte)
    requires g.ByteOf(c) + 1 < |b|
  {
    var p := g.ByteOf(c);
    if g.IsFat12() then Pack12(b[p], b[p + 1], c, v)
    else (v % 0x1_0000 % 0x100, v % 0x1_0000 / 0x100)
  }

  function WriteEntry(g: Geometry, b: Bytes, c: nat, v: nat): Bytes
    requires g.ByteOf(c) + 1 < |b|
  {
    var p := g.ByteOf(c);
    b[p := Stored(g, b, c, v).0][p + 1 := Stored(g, b, c, v).1]
  }

  /** Writing one entry changes that entry only, nibble neighbours included. */
  lemma WriteEntryRaw(g: Geometry, b: Bytes, c: nat, v: nat, c': nat)
    requires g.ByteOf(c) + 1 < |b| && g.ByteOf(c') + 1 < |b|
    ensures Raw(g, WriteEntry(g, b, c, v), c') == if c' == c then Encode(g, v) else Raw(g, b, c')
  {
    if g.IsFat12() {
      WriteEntryRaw12(b, c, v, c');
    } else {
      var w := Stored(g, b, c, v);
      assert Word(w.0, w.1) == v % 0x1_0000;
    }
  }

  lemma WriteEntryRaw12(b: Bytes, c: nat, v: nat, c': nat)
    requires c * 3 / 2 + 1 < |b| && c' * 3 / 2 + 1 < |b|
    ensures var p, p' := c * 3 / 2, c' * 3 / 2;
      var w := Pack12(b[p], b[p + 1], c, v);
      var b' := b[p := w.0][p + 1 := w.1];
      Unpack12(b'[p'], b'[p' + 1], c') == if c' == c then v % 0x1000 else Unpack12(b[p'], b[p' + 1], c')
  {
    hide Pack12, Unpack12;
    var p, p' := c * 3 / 2, c' * 3 / 2;
    var w := Pack12(b[p], b[p + 1], c, v);
    PackUnpack(b[p], b[p + 1], c, v);
    if c' != c {
      NeighbourBytes(c, c');
      if p' == p + 1 {
        HighNibble(b[p + 1], w.1, b[p' + 1], c');
      } else if p' + 1 == p {
        LowNibble(b[p'], b[p], w.0, c');
      }
    }
  }

  /** The upper 12 bits leave out the low nibble of the first byte, the lower 12 bits the high nibble of
      the second. */
  lemma NibblesOf(lo: byte, hi: byte)
    ensures Word(lo, hi) / 0x10 == lo as int / 0x10 + 0x10 * hi as int
    ensures Word(lo, hi) % 0x1000 == lo as int + 0x100 * (hi as int % 0x10)
  {
    var q, r := hi as int / 0x10, hi as int % 0x10;
    DivModUnique(Word(lo, hi), 0x1000, q, 0x100 * r + lo as int);
    DivModUnique(Word(lo, hi), 0x10, lo as int / 0x10 + 0x10 * hi as int, lo as int % 0x10);
  }

  lemma HighNibble(lo: byte, lo': byte, hi: byte, c: nat)
    requires c % 2 == 1 && lo / 0x10 == lo' / 0x10
    ensures Unpack12(lo', hi, c) == Unpack12(lo, hi, c)
  {
    hide Word;
    NibblesOf(lo, hi);
    NibblesOf(lo', hi);
  }

  lemma LowNibble(lo: byte, hi: byte, hi': byte, c: nat)
    requires c % 2 == 0 && hi % 0x10 == hi' % 0x10
    ensures Unpack12(lo, hi', c) == Unpack12(lo, hi, c)
  {
    hide Word;
    NibblesOf(lo, hi);
    NibblesOf(lo, hi');
  }

  /** Two different 12-bit entries share at most one byte, and then not the same nibble of it. */
  lemma NeighbourBytes(c: nat, c': nat)
    requires c' != c
    ensures var p, p' := c * 3 / 2, c' * 3 / 2;
      && p' != p
      && (p' == p + 1 ==> c % 2 == 0 && c' == c + 1)
      && (p' + 1 == p ==> c % 2 == 1 && c' + 1 == c)
  {}

  // ---------- the FAT of a volume ----------

  /** Entries 0..size as they read. */
  ghost function LinksOf(g: Geometry, b: Bytes): (links: seq<nat>)
    requires g.ByteOf(g.size) + 1 < |b|
    ensures |links| == g.size + 1
  {
    seq(g.size + 1, c requires 0 <= c <= g.size => (ByteMono(g, c, g.size); Decode(g, Raw(g, b, c))))
  }

  lemma ByteMono(g: Geometry, c: nat, c': nat)
    requires c <= c'
    ensures g.ByteOf(c) <= g.ByteOf(c')
  {}

  lemma WriteEntryLinks(g: Geometry, b: Bytes, c: nat, v: nat)
    requires g.ByteOf(g.size) + 1 < |b| && c <= g.size && g.ByteOf(c) + 1 < |b|
    ensures LinksOf(g, WriteEntry(g, b, c, v)) == LinksOf(g, b)[c := Decode(g, Encode(g, v))]
  {
    hide Stored, Encode, Raw;
    forall c' | 0 <= c' <= g.size
      ensures LinksOf(g, WriteEntry(g, b, c, v))[c'] == LinksOf(g, b)[c := Decode(g, Encode(g, v))][c']
    {
      ByteMono(g, c', g.size);
      WriteEntryRaw(g, b, c, v, c');
    }
  }

  /** Byte `p` of the first copy of the FAT. */
  ghost function FatByte(g: Geometry, v: Disk, p: nat): byte
    requires g.secsize > 0 && CS.Sized(g.secsize, v)
  {
    v[Block(g.unit, g.fatstrt + p / g.secsize)][p % g.secsize]
  }

  ghost function FatBytes(g: Geometry, v: Disk): (b: Bytes)
    requires g.secsize > 0 && CS.Sized(g.secsize, v)
    ensures |b| == g.FatLength()
  {
    seq(g.FatLength(), p requires 0 <= p < g.FatLength() => FatByte(g, v, p))
  }
}
