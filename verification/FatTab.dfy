/**
 kernel/fattab.c: the FAT as an array of entries, kept in cached sectors.
 */
module FatTab {
  import opened Arithmetic
  import opened Disks
  import opened FatFormat
  import CS = CacheSpec
  import BlockIO
  import Chains

  // ---------- bytes of the FAT in sectors ----------

  ghost predicate InAnyFat(g: Geometry, k: Block) {
    k.unit == g.unit && g.fatstrt <= k.no < g.fatstrt + g.fats * g.fatsize
  }

  /** Only FAT sectors differ. */
  ghost predicate FatOnly(g: Geometry, v: Disk, v': Disk) {
    forall k :: !InAnyFat(g, k) ==> v'[k] == v[k]
  }

  lemma FatOnlyTransitive(g: Geometry, v0: Disk, v1: Disk, v2: Disk)
    requires FatOnly(g, v0, v1) && FatOnly(g, v1, v2)
    ensures FatOnly(g, v0, v2)
  {}

  function FatSector(g: Geometry, s: int): Block { Block(g.unit, g.fatstrt + s) }

  /** Sector and offset of byte `p`. */
  lemma ByteAt(g: Geometry, p: nat)
    requires g.secsize > 0 && p < g.FatLength()
    ensures 0 <= p / g.secsize < g.fatsize && 0 <= p % g.secsize < g.secsize
    ensures p / g.secsize * g.secsize + p % g.secsize == p
  {
    QuotientBelow(p, g.secsize, g.fatsize);
  }

  lemma FatSectorPlace(geo: Layouts, g: Geometry, s: int)
    requires g.Ok() && geo(g.unit) == g.Layout() && 0 <= s < g.fatsize
    ensures InFat(geo, FatSector(g, s)) && !InMirror(geo, FatSector(g, s)) && InAnyFat(g, FatSector(g, s))
  {
    MulMono(1, g.fats, g.fatsize);
  }

  lemma MirrorPlace(geo: Layouts, g: Geometry, k: Block)
    requires g.Ok() && geo(g.unit) == g.Layout() && k.unit == g.unit && InMirror(geo, k)
    ensures InAnyFat(g, k)
  {}

  /** What is seen after byte `i` of FAT sector `s` is written through the cache. */
  ghost function PutByte(geo: Layouts, g: Geometry, v: Disk, s: int, i: nat, x: byte): Disk
    requires i < |v[FatSector(g, s)]|
  {
    CS.Stored(geo, v, FatSector(g, s), true, Patched(v[FatSector(g, s)], i, [x]))
  }

  lemma PutByteOnly(geo: Layouts, g: Geometry, v: Disk, s: int, i: nat, x: byte)
    requires g.Ok() && geo(g.unit) == g.Layout() && CS.Sized(g.secsize, v) && 0 <= s < g.fatsize
    requires i < |v[FatSector(g, s)]|
    ensures CS.Sized(g.secsize, PutByte(geo, g, v, s, i, x)) && FatOnly(g, v, PutByte(geo, g, v, s, i, x))
    ensures CS.MirrorsAgree(geo, v) ==> CS.MirrorsAgree(geo, PutByte(geo, g, v, s, i, x))
  {
    FatSectorPlace(geo, g, s);
    if CS.MirrorsAgree(geo, v) {
      CS.StoredKeepsMirrors(geo, v, FatSector(g, s), true, Patched(v[FatSector(g, s)], i, [x]));
    }
    forall k: Block | k.unit == g.unit && InMirror(geo, k) ensures InAnyFat(g, k) {
      MirrorPlace(geo, g, k);
    }
  }

  lemma PutByteAt(geo: Layouts, g: Geometry, v: Disk, s: int, i: nat, x: byte, s': int)
    requires g.Ok() && geo(g.unit) == g.Layout() && 0 <= s < g.fatsize && i < |v[FatSector(g, s)]|
             && 0 <= s' < g.fatsize
    ensures PutByte(geo, g, v, s, i, x)[FatSector(g, s')]
         == if s' == s then Patched(v[FatSector(g, s)], i, [x]) else v[FatSector(g, s')]
  {
    FatSectorPlace(geo, g, s');
  }

  /** Writing byte `i` of a cached FAT sector `s` writes byte `q` of the FAT. */
  lemma PutFatByte(geo: Layouts, g: Geometry, v: Disk, s: int, i: nat, x: byte, q: nat)
    requires g.Ok() && geo(g.unit) == g.Layout() && CS.Sized(g.secsize, v) && 0 <= s < g.fatsize
    requires i < |v[FatSector(g, s)]| && q == s * g.secsize + i < g.FatLength()
    requires CS.Sized(g.secsize, PutByte(geo, g, v, s, i, x))
    ensures FatBytes(g, PutByte(geo, g, v, s, i, x)) == FatBytes(g, v)[q := x]
  {
    hide PutByte, FatByte;
    forall p | 0 <= p < g.FatLength()
      ensures FatByte(g, PutByte(geo, g, v, s, i, x), p) == if p == q then x else FatByte(g, v, p)
    {
      PutFatByteAt(geo, g, v, s, i, x, p);
    }
  }

  lemma PutFatByteAt(geo: Layouts, g: Geometry, v: Disk, s: int, i: nat, x: byte, p: nat)
    requires g.Ok() && geo(g.unit) == g.Layout() && CS.Sized(g.secsize, v) && 0 <= s < g.fatsize
    requires i < |v[FatSector(g, s)]| && p < g.FatLength() && CS.Sized(g.secsize, PutByte(geo, g, v, s, i, x))
    ensures FatByte(g, PutByte(geo, g, v, s, i, x), p) == if p == s * g.secsize + i then x else FatByte(g, v, p)
  {
    hide PutByte;
    ByteAt(g, p);
    PutByteAt(geo, g, v, s, i, x, p / g.secsize);
    if p == s * g.secsize + i {
      DivModUnique(p, g.secsize, s, i);
    }
  }

  /** Where `link_fat` looks for entry `c`. */
  lemma EntryPlace12(g: Geometry, c: nat)
    requires g.Ok() && g.IsFat12()
    ensures c * 3 / (g.secsize * 2) == g.ByteOf(c) / g.secsize
    ensures c * 3 % (g.secsize * 2) / 2 == g.ByteOf(c) % g.secsize
  {
    HalfIndex(c * 3, g.secsize);
  }

  lemma EntryPlace16(g: Geometry, c: nat)
    requires g.Ok() && !g.IsFat12()
    ensures c / (g.secsize / 2) == g.ByteOf(c) / g.secsize
    ensures c % (g.secsize / 2) * 2 == g.ByteOf(c) % g.secsize && g.ByteOf(c) % g.secsize + 1 < g.secsize
  {
    DoubleIndex(c, g.secsize);
  }

  /** The byte after the last one of a sector is the first one of the next. */
  lemma NextByte(g: Geometry, p: nat)
    requires g.secsize > 0 && p + 1 < g.FatLength()
    ensures var q, r := p / g.secsize, p % g.secsize;
      && 0 <= q < g.fatsize && 0 <= r < g.secsize && p == q * g.secsize + r
      && (r + 1 == g.secsize ==> q + 1 < g.fatsize && p + 1 == (q + 1) * g.secsize)
  {
    ByteAt(g, p);
    ByteAt(g, p + 1);
    if p % g.secsize + 1 == g.secsize {
      DivModUnique(p + 1, g.secsize, p / g.secsize + 1, 0);
    }
  }

  lemma FatByteIs(g: Geometry, v: Disk, s: int, i: nat)
    requires g.Ok() && CS.Sized(g.secsize, v) && 0 <= s < g.fatsize && i < g.secsize
    ensures s * g.secsize + i < g.FatLength()
    ensures |v[FatSector(g, s)]| == g.secsize && FatBytes(g, v)[s * g.secsize + i] == v[FatSector(g, s)][i]
  {
    MulMono(s + 1, g.fatsize, g.secsize);
    DivModUnique(s * g.secsize + i, g.secsize, s, i);
  }

  // ---------- what link_fat answers and stores ----------

  /** `link_fat` refuses an index outside 2..size and a value that is neither a cluster of the volume nor a
      mark. */
  predicate Refused(g: Geometry, c1: nat, c2: nat) {
    c1 <= 1 || c1 > g.size || (c2 < LONG_BAD && c2 > g.size)
  }

  predicate BadDpb(g: Geometry) { !g.IsFat12() && !g.IsFat16() }

  const READ_CLUSTER := 1

  /** The entry for `READ_CLUSTER`, else 0 for success; 1 on error. */
  function LinkResult(g: Geometry, links: seq<nat>, c1: nat, c2: nat): nat
    requires |links| == g.size + 1
  {
    if Refused(g, c1, c2) || BadDpb(g) then 1 else if c2 == READ_CLUSTER then links[c1] else 0
  }

  predicate Writes(g: Geometry, c1: nat, c2: nat) {
    !Refused(g, c1, c2) && !BadDpb(g) && c2 != READ_CLUSTER
  }

  ghost function LinksIn(g: Geometry, v: Disk): (links: seq<nat>)
    requires g.Ok() && CS.Sized(g.secsize, v)
    ensures |links| == g.size + 1
  {
    LinksOf(g, FatBytes(g, v))
  }

  /** Two bytes written into the FAT make one entry written. */
  lemma WordWritten(g: Geometry, v: Disk, v': Disk, c: nat, x: nat)
    requires g.Ok() && CS.Sized(g.secsize, v) && CS.Sized(g.secsize, v') && c <= g.size
             && g.ByteOf(c) + 1 < g.FatLength()
    requires FatBytes(g, v') == WriteEntry(g, FatBytes(g, v), c, x)
    ensures LinksIn(g, v') == LinksIn(g, v)[c := Decode(g, Encode(g, x))]
  {
    WriteEntryLinks(g, FatBytes(g, v), c, x);
  }

  lemma FatOnlySame(g: Geometry, v: Disk)
    ensures FatOnly(g, v, v)
  {}

  /** Storing a value frees an entry just if the value is FREE. */
  lemma StoredFree(g: Geometry, v: nat)
    requires !BadDpb(g) && v <= LONG_LAST_CLUSTER && (v < LONG_BAD ==> v <= g.size)
    ensures Decode(g, Encode(g, v)) == FREE <==> v == FREE
  {}

  /** How an entry reads, in terms of the word that holds it. */
  lemma ReadsAs(g: Geometry, v: Disk, c: nat)
    requires g.Ok() && CS.Sized(g.secsize, v) && c <= g.size && g.ByteOf(c) + 1 < g.FatLength()
    ensures var b, p := FatBytes(g, v), g.ByteOf(c);
      var word := Word(b[p], b[p + 1]);
      var e := if !g.IsFat12() then word else if c % 2 == 1 then word / 0x10 % 0x1000 else word % 0x1000;
      && LinksIn(g, v)[c] == (if g.IsFat12()
           then if e >= 0xFF8 then LONG_LAST_CLUSTER else if e == 0xFF7 then LONG_BAD else e
           else if e >= 0xFFF8 then LONG_LAST_CLUSTER else if e == 0xFFF7 then LONG_BAD else e)
      && (LinksIn(g, v)[c] == FREE <==> e == FREE)
  {
    hide FatBytes;
  }

  lemma StoredAs12(g: Geometry, v: Disk, c: nat, x: nat, word': nat)
    requires g.Ok() && g.IsFat12() && CS.Sized(g.secsize, v) && c <= g.size && g.ByteOf(c) + 1 < g.FatLength()
    requires var b, p := FatBytes(g, v), g.ByteOf(c);
      var word := Word(b[p], b[p + 1]);
      word' == if c % 2 == 1 then word % 0x10 + x % 0x1000 * 0x10 else word / 0x1000 * 0x1000 + x % 0x1000
    ensures word' < 0x1_0000 && Stored(g, FatBytes(g, v), c, x) == (word' % 0x100, word' / 0x100)
  {
    hide FatBytes;
  }

  lemma StoredAs16(g: Geometry, v: Disk, c: nat, x: nat)
    requires g.Ok() && !g.IsFat12() && CS.Sized(g.secsize, v) && c <= g.size && g.ByteOf(c) + 1 < g.FatLength()
    ensures Stored(g, FatBytes(g, v), c, x) == (x % 0x1_0000 % 0x100, x % 0x1_0000 / 0x100)
  {
    hide FatBytes;
  }

  lemma StillHeld(bufs: CS.Buffers, bufs': CS.Buffers, f: nat, bp: nat, k: Block, k': Block)
    requires f in bufs && BlockIO.Stays(bufs, bufs', f, bp, k') && !bufs[f].uncache && bufs[f].tag == k != k'
    ensures f != bp && f in bufs' && bufs'[f] == bufs[f]
  {}

  class Dpb {
    const cache: BlockIO.BlockCache
    const g: Geometry
    /** dpb_cluster: where to look for a free cluster first */
    var cluster: nat
    /** dpb_nfreeclst: number of free clusters */
    var nfreeclst: nat

    /** The entries of the FAT as they read. */
    ghost var links: seq<nat>

    ghost predicate Attached()
      reads this, cache
    {
      && cache.Valid() && cache.secsize == g.secsize && cache.geo(g.unit) == g.Layout() && g.Ok()
      && CS.Sized(g.secsize, cache.view)
    }

    /** The free counter is unknown or exact. */
    ghost predicate CounterOk()
      reads this
    {
      |links| == g.size + 1 && (nfreeclst == UNKNCLSTFREE || nfreeclst == Chains.Free(links))
    }

    /** The place to start looking is unknown or a cluster. */
    ghost predicate HintOk()
      reads this
    {
      cluster == UNKNCLUSTER || 2 <= cluster <= g.size
    }

    ghost predicate Valid()
      reads this, cache
    {
      Attached() && links == LinksIn(g, cache.view) && CounterOk() && HintOk()
    }

    /** A volume just mounted: the hint and the free count are unknown. */
    constructor (cache: BlockIO.BlockCache, g: Geometry)
      requires cache.Valid() && cache.secsize == g.secsize && cache.geo(g.unit) == g.Layout() && g.Ok()
      ensures Valid() && this.cache == cache && this.g == g
      ensures cluster == UNKNCLUSTER && nfreeclst == UNKNCLSTFREE
    {
      this.cache, this.g := cache, g;
      cluster, nfreeclst := UNKNCLUSTER, UNKNCLSTFREE;
      links := LinksIn(g, cache.view);
    }

    /** The buffer at `bp` holds sector `s` of the FAT. */
    ghost predicate FatBuffer(bp: nat, s: int)
      reads cache
    {
      && bp in cache.bufs && cache.bufs[bp].valid && cache.bufs[bp].fat && cache.bufs[bp].tag == FatSector(g, s)
      && 0 <= s < g.fatsize
    }

    method GetFatBlock(clussec: int) returns (bp: nat)
      requires Attached() && g.fatstrt <= clussec < g.fatstrt + g.fatsize
      modifies cache
      ensures Attached() && cache.view == old(cache.view)
      ensures FatBuffer(bp, clussec - g.fatstrt) && !cache.bufs[bp].uncache && cache.firstbuf == bp
      ensures old(cache.firstbuf) in old(cache.bufs)
      ensures BlockIO.Stays(old(cache.bufs), cache.bufs, old(cache.firstbuf), bp, Block(g.unit, clussec))
    {
      hide BlockIO.BlockCache.Valid, InFat, InMirror, Geometry.Ok;
      FatSectorPlace(cache.geo, g, clussec - g.fatstrt);
      bp := cache.GetBlock(clussec, g.unit);
      cache.MarkFat(bp, g.fats, g.fatsize);
    }

    /** Bytes `p` and `p + 1` of the FAT, at `idx` of the buffer at `bp` and `idx1` of the buffer at `bp1`. */
    ghost predicate Located(bp: nat, s: int, idx: nat, bp1: nat, s1: int, idx1: nat, p: nat)
      reads cache
    {
      && FatBuffer(bp, s) && FatBuffer(bp1, s1) && (bp == bp1 <==> s == s1)
      && idx < g.secsize && idx1 < g.secsize
      && p == s * g.secsize + idx && p + 1 == s1 * g.secsize + idx1
    }

    /** Gets the sector or the two sectors of entry `c1`.  For 12-bit entries the index is one of nibbles;
        an entry may start in the last byte of a sector. */
    method Locate(c1: nat) returns (bp: nat, idx: nat, bp1: nat, idx1: nat, ghost s: int, ghost s1: int)
      requires Attached() && c1 <= g.size
      modifies cache
      ensures Attached() && cache.view == old(cache.view)
      ensures Located(bp, s, idx, bp1, s1, idx1, g.ByteOf(c1))
    {
      hide BlockIO.BlockCache.Valid, InFat, InMirror, BlockIO.Stays;
      ghost var p := g.ByteOf(c1);
      ByteMono(g, c1, g.size);
      NextByte(g, p);
      s := p / g.secsize;
      var clussec := c1;
      var secdiv := g.secsize;
      if g.IsFat12() {
        EntryPlace12(g, c1);
        clussec := clussec * 3;
        secdiv := secdiv * 2;
      } else {
        EntryPlace16(g, c1);
        secdiv := secdiv / 2;
      }
      idx := clussec % secdiv;
      clussec := clussec / secdiv;
      clussec := clussec + g.fatstrt;
      bp := GetFatBlock(clussec);
      if g.IsFat12() {
        idx := idx / 2;
        if idx >= g.secsize - 1 {
          ghost var bufs := cache.bufs;
          bp1 := GetFatBlock(clussec + 1);
          idx1 := 0;
          s1 := s + 1;
          StillHeld(bufs, cache.bufs, bp, bp1, FatSector(g, s), FatSector(g, s1));
        } else {
          bp1, idx1, s1 := bp, idx + 1, s;
        }
      } else {
        idx := idx * 2;
        bp1, idx1, s1 := bp, idx + 1, s;
      }
    }

    lemma LocatedBytes(bp: nat, s: int, idx: nat, bp1: nat, s1: int, idx1: nat, p: nat)
      requires Attached() && Located(bp, s, idx, bp1, s1, idx1, p)
      ensures bp in cache.bufs && bp1 in cache.bufs
      ensures p + 1 < g.FatLength() && idx < |cache.bufs[bp].data| && idx1 < |cache.bufs[bp1].data|
      ensures cache.bufs[bp].data[idx] == FatBytes(g, cache.view)[p]
      ensures cache.bufs[bp1].data[idx1] == FatBytes(g, cache.view)[p + 1]
    {
      hide BlockIO.BlockCache.Valid;
      cache.Shows(bp);
      cache.Shows(bp1);
      FatByteIs(g, cache.view, s, idx);
      FatByteIs(g, cache.view, s1, idx1);
    }

    /** One byte stored into a FAT buffer is byte `q` of the FAT, in all its copies. */
    method StoreByte(bp: nat, ghost s: int, i: nat, x: byte, ghost q: nat)
      requires Attached() && FatBuffer(bp, s) && i < g.secsize && q == s * g.secsize + i < g.FatLength()
      modifies cache
      ensures Attached() && FatBytes(g, cache.view) == old(FatBytes(g, cache.view))[q := x]
      ensures FatOnly(g, old(cache.view), cache.view)
      ensures CS.MirrorsAgree(cache.geo, old(cache.view)) ==> CS.MirrorsAgree(cache.geo, cache.view)
      ensures forall f: nat, t: int :: old(FatBuffer(f, t)) ==> FatBuffer(f, t)
    {
      hide BlockIO.BlockCache.Valid, InFat, InMirror, CS.Stored, CS.Sized, FatBytes, FatOnly, CS.MirrorsAgree;
      ghost var v := cache.view;
      cache.Shows(bp);
      cache.Put(bp, i, [x]);
      assert cache.view == PutByte(cache.geo, g, v, s, i, x);
      cache.ViewIsSized();
      PutByteOnly(cache.geo, g, v, s, i, x);
      PutFatByte(cache.geo, g, v, s, i, x, q);
    }

    /** The two bytes of entry `c` stored. */
    method StoreWord(bp: nat, ghost s: int, idx: nat, bp1: nat, ghost s1: int, idx1: nat, word: nat, ghost c: nat,
                     ghost v: nat)
      requires Attached() && c <= g.size && Located(bp, s, idx, bp1, s1, idx1, g.ByteOf(c)) && word < 0x1_0000
      requires g.ByteOf(c) + 1 < g.FatLength()
               && Stored(g, FatBytes(g, cache.view), c, v) == (word % 0x100, word / 0x100)
      modifies cache
      ensures Attached() && LinksIn(g, cache.view) == old(LinksIn(g, cache.view))[c := Decode(g, Encode(g, v))]
      ensures FatOnly(g, old(cache.view), cache.view)
      ensures CS.MirrorsAgree(cache.geo, old(cache.view)) ==> CS.MirrorsAgree(cache.geo, cache.view)
    {
      hide BlockIO.BlockCache.Valid, FatBytes, FatOnly, CS.MirrorsAgree, LinksIn, CS.Sized, Stored, Encode, Decode;
      ghost var v0, p := cache.view, g.ByteOf(c);
      StoreByte(bp, s, idx, word % 0x100, p);
      ghost var v1 := cache.view;
      StoreByte(bp1, s1, idx1, word / 0x100, p + 1);
      FatOnlyTransitive(g, v0, v1, cache.view);
      WordWritten(g, v0, cache.view, c, v);
    }

    /** Keeps the free count, after entry `c1` has been written. */
    method UpdateCount(c1: nat, c2: nat, wasfree: bool)
      requires 2 <= c1 <= g.size && !BadDpb(g) && !Refused(g, c1, c2) && c2 <= LONG_LAST_CLUSTER
      requires CounterOk() && wasfree == (links[c1] == FREE)
      modifies `nfreeclst, `links
      ensures CounterOk() && links == old(links)[c1 := Decode(g, Encode(g, c2))]
      ensures nfreeclst == UNKNCLSTFREE <==> old(nfreeclst) == UNKNCLSTFREE
    {
      Chains.FreeInUpdate(links, |links|, c1, Decode(g, Encode(g, c2)));
      StoredFree(g, c2);
      links := links[c1 := Decode(g, Encode(g, c2))];
      if c2 == FREE || wasfree {
        var adjust := 0;
        if !wasfree {
          adjust := 1;
        } else if c2 != FREE {
          adjust := -1;
        }
        if nfreeclst != UNKNCLSTFREE {
          nfreeclst := (nfreeclst + adjust) % 0x1_0000;
        }
      }
    }

    /** Reads entry `c1` (`c2 == READ_CLUSTER`) or stores `c2` in it. */
    method LinkFat(c1: nat, c2: nat) returns (r: nat)
      requires Valid() && c2 <= LONG_LAST_CLUSTER
      modifies this, cache
      ensures Valid()
      ensures r == LinkResult(g, old(links), c1, c2)
      ensures links == if Writes(g, c1, c2) then old(links)[c1 := Decode(g, Encode(g, c2))] else old(links)
      ensures cluster == old(cluster) && (nfreeclst == UNKNCLSTFREE <==> old(nfreeclst) == UNKNCLSTFREE)
      ensures FatOnly(g, old(cache.view), cache.view) && (!Writes(g, c1, c2) ==> cache.view == old(cache.view))
      ensures CS.MirrorsAgree(cache.geo, old(cache.view)) ==> CS.MirrorsAgree(cache.geo, cache.view)
    {
      hide BlockIO.BlockCache.Valid, FatBytes, FatOnly, CS.MirrorsAgree, LinksIn, CS.Sized, Stored, Encode, Decode,
           Located, Geometry.Ok, Word, Chains.Free;
      FatOnlySame(g, cache.view);
      if c1 <= 1 || c1 > g.size {
        return 1;
      }
      if c2 < LONG_BAD && c2 > g.size {
        return 1;
      }
      var bp, idx, bp1, idx1;
      ghost var s, s1;
      bp, idx, bp1, idx1, s, s1 := Locate(c1);
      LocatedBytes(bp, s, idx, bp1, s1, idx1, g.ByteOf(c1));
      var word := Word(cache.bufs[bp].data[idx], cache.bufs[bp1].data[idx1]);
      ReadsAs(g, cache.view, c1);
      var wasfree;
      if g.IsFat12() {
        var cluster := word;
        if c1 % 2 == 1 {
          cluster := cluster / 0x10;
        }
        cluster := cluster % 0x1000;
        if c2 == READ_CLUSTER {
          return if cluster >= 0xFF8 then LONG_LAST_CLUSTER else if cluster == 0xFF7 then LONG_BAD else cluster;
        }
        wasfree := cluster == FREE;
        cluster := word;
        var cluster2 := c2 % 0x1000;
        if c1 % 2 == 1 {
          cluster := cluster % 0x10;
          cluster2 := cluster2 * 0x10;
        } else {
          cluster := cluster / 0x1000 * 0x1000;
        }
        cluster := cluster + cluster2;
        StoredAs12(g, cache.view, c1, c2, cluster);
        StoreWord(bp, s, idx, bp1, s1, idx1, cluster, c1, c2);
      } else if g.IsFat16() {
        if c2 == READ_CLUSTER {
          return if word >= 0xFFF8 then LONG_LAST_CLUSTER else if word == 0xFFF7 then LONG_BAD else word;
        }
        StoredAs16(g, cache.view, c1, c2);
        StoreWord(bp, s, idx, bp1, s1, idx1, c2 % 0x1_0000, c1, c2);
        wasfree := word == FREE;
      } else {
        return 1;
      }
      UpdateCount(c1, c2, wasfree);
      return 0;
    }

    /** The volume stays as it is seen; only buffers may have moved. */
    twostate predicate Untouched()
      reads this, cache
    {
      links == old(links) && cluster == old(cluster) && nfreeclst == old(nfreeclst) && cache.view == old(cache.view)
    }

    /** The next cluster of the chain: 0 if there is none, 1 on error, the end mark at the end. */
    method NextCluster(clusterNum: nat) returns (r: nat)
      requires Valid() && !BadDpb(g)
      modifies this, cache
      ensures Valid() && Untouched()
      ensures r == Chains.Next(links, clusterNum)
    {
      hide BlockIO.BlockCache.Valid, FatBytes, FatOnly, CS.MirrorsAgree, LinksIn, CS.Sized, Decode, Encode;
      var candidate := LinkFat(clusterNum, READ_CLUSTER);
      if candidate < 2 || candidate >= LONG_BAD {
        return candidate;
      }
      var maxCluster := g.size;
      var following := LinkFat(candidate, READ_CLUSTER);
      if following < 2 || (following < LONG_BAD && following > maxCluster) {
        return 1;
      }
      return candidate;
    }

    method IsFreeCluster(clusterNum: nat) returns (r: bool)
      requires Valid() && !BadDpb(g)
      modifies this, cache
      ensures Valid() && Untouched()
      ensures r == (Chains.Read(links, clusterNum) == FREE)
    {
      hide BlockIO.BlockCache.Valid, FatBytes, FatOnly, CS.MirrorsAgree, LinksIn, CS.Sized, Decode, Encode;
      var e := LinkFat(clusterNum, READ_CLUSTER);
      return e == FREE;
    }
  }
}
