/**
 `rwblock` of kernel/fatfs.c: reading and writing an open file, through sector buffers or by direct transfers
 of runs of sectors that coalesce adjacent clusters.
 */
module RwBlock {
  import opened Arithmetic
  import opened Disks
  import opened FatFormat
  import opened FatTab
  import opened Chains
  import opened FatFs
  import opened FileBytes
  import CS = CacheSpec
  import BlockIO

  /** hdr/device.h: the size of a buffer */
  const BUFFERSIZE := 512
  const DE_ACCESS := -5

  /** How many of `count` bytes from `at` on lie below `limit`. */
  function Clip(count: nat, at: nat, limit: nat): (r: nat)
    ensures r <= count && (r > 0 ==> at + r <= limit)
  {
    if at >= limit then 0 else if count < limit - at then count else limit - at
  }

  function Max(a: nat, b: nat): nat { if a < b then b else a }

  /** Bytes in `n` clusters. */
  function Bytes(g: Geometry, n: nat): nat { n * Spc(g) * g.secsize }

  function SectorBytes(g: Geometry, n: nat): nat { n * g.secsize }

  // ---------- positions ----------

  lemma {:induction false} Pow2Splits(k: nat, m: nat)
    requires k <= m
    ensures Pow2(m) == Pow2(m - k) * Pow2(k)
  {
    if k < m {
      Pow2Splits(k, m - 1);
    }
  }

  lemma {:induction false} Pow2Grows(k: nat, m: nat)
    requires k <= m
    ensures 0 < Pow2(k) <= Pow2(m)
  {
    if k < m {
      Pow2Grows(k, m - 1);
    } else if k > 0 {
      Pow2Grows(k - 1, k - 1);
    }
  }

  lemma ShiftOfByte(k: nat)
    requires Pow2(k) <= 0x100
    ensures k <= 8
  {
    assert Pow2(9) == 512;
    if k > 8 {
      Pow2Grows(9, k);
    }
  }

  /** Cutting a sector number to a byte before masking it loses nothing. */
  lemma SectorMask(g: Geometry, j: nat)
    requires g.Ok()
    ensures j % 0x100 % Spc(g) == SectorOf(g, j)
  {
    var k, n := g.shftcnt, Spc(g);
    ShiftOfByte(k);
    Pow2Splits(k, 8);
    assert Pow2(8) == 0x100;
    ModOfMod(j, n, Pow2(8 - k));
  }

  lemma ModOfMod(j: nat, n: nat, m: nat)
    requires n > 0 && m > 0
    ensures m * n > 0 && j % (m * n) % n == j % n
  {
    MulMono(1, m, n);
    var q, r := j / (m * n), j % (m * n);
    assert j == q * (m * n) + r;
    assert q * (m * n) == q * m * n;
    assert q * m * n + r / n * n == (q * m + r / n) * n;
    DivModUnique(j, n, q * m + r / n, r % n);
  }

  lemma RelIsCluster(g: Geometry, offset: nat)
    requires g.Ok()
    ensures RelCluster(g, offset) == ClusterOf(g, Div(offset, g.secsize))
  {
    ShrIs(Div(offset, g.secsize), g.shftcnt);
  }

  /** The file sector of byte `offset`, when its cluster is there. */
  lemma Position(g: Geometry, ch: Chain, offset: nat)
    requires g.Ok() && Clusters(ch) && RelCluster(g, offset) < |ch|
    ensures var j := Div(offset, g.secsize);
      && j < SectorCount(g, ch) && ClusterOf(g, j) == RelCluster(g, offset)
      && FileBlock(g, ch, j) == Block(g.unit, Clus2Phys(g, ch[RelCluster(g, offset)]) + SectorOf(g, j))
      && offset == j * g.secsize + offset % g.secsize && (j + 1) * g.secsize <= Bytes(g, |ch|)
  {
    hide Clus2Phys, RelCluster;
    var j := Div(offset, g.secsize);
    RelIsCluster(g, offset);
    QuotientBelowIff(j, Spc(g), |ch|);
    MulMono(j + 1, SectorCount(g, ch), g.secsize);
  }

  /** A byte has a cluster just if it lies below the chain's capacity. */
  lemma HasCluster(g: Geometry, n: nat, offset: nat)
    requires g.Ok()
    ensures RelCluster(g, offset) < n <==> offset < Bytes(g, n)
  {
    hide RelCluster;
    RelIsCluster(g, offset);
    QuotientBelowIff(offset, g.secsize, n * Spc(g));
    QuotientBelowIff(Div(offset, g.secsize), Spc(g), n);
  }

  // ---------- what a transfer leaves alone ----------

  /** Of what is seen only data sectors have changed, and the copies of the FATs still agree if they did. */
  ghost predicate DataStep(d: Dpb, v: Disk, v': Disk) {
    (forall k :: InAnyFat(d.g, k) ==> v'[k] == v[k])
      && (CS.MirrorsAgree(d.cache.geo, v) ==> CS.MirrorsAgree(d.cache.geo, v'))
  }

  lemma LinksSame(d: Dpb, v: Disk, v': Disk)
    requires d.g.Ok() && CS.Sized(d.g.secsize, v) && CS.Sized(d.g.secsize, v') && DataStep(d, v, v')
    ensures LinksIn(d.g, v') == LinksIn(d.g, v)
  {
    hide LinksOf;
    forall p | 0 <= p < d.g.FatLength() ensures FatByte(d.g, v', p) == FatByte(d.g, v, p) {
      ByteAt(d.g, p);
      MulMono(1, d.g.fats, d.g.fatsize);
    }
    assert FatBytes(d.g, v') == FatBytes(d.g, v);
  }

  /** A write seen from the volume: the file is written and the copies of the FATs still agree if they did. */
  ghost predicate FileStep(d: Dpb, v: Disk, ch: Chain, v': Disk, ch': Chain, at: nat, data: seq<byte>) {
    Written(d.g, v, ch, v', ch', at, data) && (CS.MirrorsAgree(d.cache.geo, v) ==> CS.MirrorsAgree(d.cache.geo, v'))
  }

  lemma FileStepMore(d: Dpb, v0: Disk, c0: Chain, v1: Disk, c1: Chain, v2: Disk, c2: Chain,
                     at: nat, d1: seq<byte>, d2: seq<byte>)
    requires FileStep(d, v0, c0, v1, c1, at, d1) && FileStep(d, v1, c1, v2, c2, at + |d1|, d2)
    ensures FileStep(d, v0, c0, v2, c2, at, d1 + d2)
  {
    hide Written, CS.MirrorsAgree;
    WrittenMore(d.g, v0, c0, v1, c1, v2, c2, at, d1, d2);
  }

  /** What a volume in order says about its files. */
  lemma FileIn(d: Dpb, ch: Chain)
    requires d.Valid() && IsFileChain(d.links, ch)
    ensures d.g.Ok() && d.cache.geo(d.g.unit) == d.g.Layout() && d.cache.secsize == d.g.secsize && d.cache.Valid()
    ensures IsFile(d.g, d.cache.view, ch) && Clusters(ch) && d.g.secsize > 0 && CS.Sized(d.g.secsize, d.cache.view)
  {
    ChainClusters(d.links, ch);
  }

  /** Growth of the chain is a write of no bytes. */
  lemma GrowthStep(d: Dpb, v: Disk, links: Links, ch: Chain, ch': Chain, at: nat)
    requires d.Valid() && IsFileChain(d.links, ch') && IsFileChain(links, ch) && CS.Sized(d.g.secsize, v)
    requires FatStep(d, v, d.cache.view) && GrownSo(links, ch, d.links, ch')
    ensures FileStep(d, v, ch, d.cache.view, ch', at, [])
  {
    hide Written, CS.MirrorsAgree, Dpb.Valid, Clusters, CS.Sized;
    FileIn(d, ch');
    ChainClusters(links, ch);
    GrowWritten(d.cache.geo, d.g, v, d.cache.view, ch, ch', at);
  }

  // ---------- sectors of a file through the cache ----------

  /** A sector of the file is no sector of a FAT. */
  lemma DataBlock(d: Dpb, ch: Chain, j: nat)
    requires d.Valid() && IsFileChain(d.links, ch) && Clusters(ch) && j < SectorCount(d.g, ch)
    ensures var k := FileBlock(d.g, ch, j);
      !InAnyFat(d.g, k) && !InFat(d.cache.geo, k) && !InMirror(d.cache.geo, k)
  {
    hide Dpb.Valid, ClusterHas, FileBlock;
    FileIn(d, ch);
    FileBlockIn(d.g, ch, j);
    ClusterOutsideFat(d.cache.geo, d.g, ch[ClusterOf(d.g, j)], FileBlock(d.g, ch, j));
  }

  lemma StoredStep(d: Dpb, v: Disk, k: Block, data: Sector)
    requires !InAnyFat(d.g, k) && !InFat(d.cache.geo, k) && !InMirror(d.cache.geo, k)
    ensures DataStep(d, v, CS.Stored(d.cache.geo, v, k, false, data))
  {
    hide InFat, InMirror, InAnyFat, CS.MirrorsAgree;
    if CS.MirrorsAgree(d.cache.geo, v) {
      CS.StoredKeepsMirrors(d.cache.geo, v, k, false, data);
    }
  }

  lemma RunStep(d: Dpb, v: Disk, ch: Chain, j: nat, no: int, data: seq<Sector>)
    requires d.g.Ok() && d.cache.geo(d.g.unit) == d.g.Layout() && Clusters(ch)
    requires Contiguous(d.g, ch, j, no, |data|)
    ensures DataStep(d, v, CS.WriteRun(v, d.g.unit, no, data))
  {
    hide Contiguous, FileBlock, ClusterHas, Geometry.Ok;
    var v' := CS.WriteRun(v, d.g.unit, no, data);
    forall k: Block | k.unit == d.g.unit && no <= k.no < no + |data| ensures !InAnyFat(d.g, k) {
      RunBlock(d.g, ch, j, no, |data|, k);
      ClusterOutsideFat(d.cache.geo, d.g, ch[ClusterOf(d.g, j + (k.no - no))], k);
    }
    RunOutsideFat(d.cache.geo, d.g, ch, j, no, |data|);
    if CS.MirrorsAgree(d.cache.geo, v) {
      CS.WriteRunKeepsMirrors(d.cache.geo, v, d.g.unit, no, data);
    }
  }

  /** An open file on a volume in order. */
  ghost predicate Open(d: Dpb, f: FNode)
    reads d, d.cache, f`chain, f`cluster, f`clusterOffset, f`dirStart
  {
    d.Valid() && !BadDpb(d.g) && f.Ok(d.links)
  }

  /** Byte `at` of the file is byte `boff` of block `no`. */
  ghost predicate Spot(g: Geometry, ch: Chain, at: nat, no: int, boff: nat) {
    && g.secsize > 0 && Clusters(ch) && Div(at, g.secsize) < SectorCount(g, ch)
    && FileBlock(g, ch, Div(at, g.secsize)) == Block(g.unit, no) && boff == at % g.secsize
  }

  lemma SpotBlock(d: Dpb, ch: Chain, at: nat, no: int, boff: nat)
    requires d.Valid() && IsFileChain(d.links, ch) && Spot(d.g, ch, at, no, boff)
    ensures var k := Block(d.g.unit, no);
      && !InAnyFat(d.g, k) && !InFat(d.cache.geo, k) && !InMirror(d.cache.geo, k)
      && IsFile(d.g, d.cache.view, ch) && d.g.Ok() && d.cache.Valid() && d.cache.secsize == d.g.secsize
      && |d.cache.view[k]| == d.g.secsize
  {
    hide Dpb.Valid, FileBlock;
    FileIn(d, ch);
    DataBlock(d, ch, Div(at, d.g.secsize));
  }

  /** Bytes written into one sector of a file. */
  lemma SpotWritten(geo: Layouts, g: Geometry, v: Disk, ch: Chain, at: nat, no: int, boff: nat, data: seq<byte>)
    requires g.Ok() && IsFile(g, v, ch) && Spot(g, ch, at, no, boff) && boff + |data| <= g.secsize
    requires |v[Block(g.unit, no)]| == g.secsize
    ensures var k := Block(g.unit, no);
      var v' := CS.Stored(geo, v, k, false, Patched(v[k], boff, data));
      CS.Sized(g.secsize, v') && Written(g, v, ch, v', ch, at, data)
  {
    hide Content, FileOnly, Spliced, FileBlock, Geometry.Ok, CS.Stored, CS.Sized, Clusters, Patched;
    var j := Div(at, g.secsize);
    assert at == j * g.secsize + boff;
    WriteSector(geo, g, v, ch, j, Block(g.unit, no), boff, data, at);
    PatchedSpliced(Content(g, v, ch), at, data);
    assert ch[..|ch|] == ch;
  }

  /** It leaves the FAT alone. */
  lemma PutStep(d: Dpb, v: Disk, ch: Chain, at: nat, no: int, boff: nat, data: seq<byte>)
    requires d.g.Ok() && IsFile(d.g, v, ch) && Spot(d.g, ch, at, no, boff) && boff + |data| <= d.g.secsize
    requires var k := Block(d.g.unit, no);
      |v[k]| == d.g.secsize && !InAnyFat(d.g, k) && !InFat(d.cache.geo, k) && !InMirror(d.cache.geo, k)
    ensures var k := Block(d.g.unit, no);
      var v' := CS.Stored(d.cache.geo, v, k, false, Patched(v[k], boff, data));
      CS.Sized(d.g.secsize, v') && FileStep(d, v, ch, v', ch, at, data) && LinksIn(d.g, v') == LinksIn(d.g, v)
  {
    hide Written, Spot, InFat, InMirror, InAnyFat, CS.MirrorsAgree, Geometry.Ok, CS.Stored, CS.Sized, Clusters, LinksIn,
         Patched;
    var k := Block(d.g.unit, no);
    var data' := Patched(v[k], boff, data);
    SpotWritten(d.cache.geo, d.g, v, ch, at, no, boff, data);
    StoredStep(d, v, k, data');
    LinksSame(d, v, CS.Stored(d.cache.geo, v, k, false, data'));
  }

  /** Copies `data` into the buffer of a file's sector. */
  method PutBlock(d: Dpb, f: FNode, no: int, boff: nat, data: seq<byte>, ghost at: nat) returns (bp: nat)
    requires Open(d, f) && Spot(d.g, f.chain, at, no, boff) && boff + |data| <= d.g.secsize
    modifies d.cache
    ensures Open(d, f) && FileStep(d, old(d.cache.view), f.chain, d.cache.view, f.chain, at, data) && bp in d.cache.bufs
  {
    hide BlockIO.BlockCache.Valid, Geometry.Ok, LinksIn, Spot, InFat, InMirror, InAnyFat, CS.Stored, CS.Sized,
         Patched, BlockIO.Stays, DataStep, Free, FileStep, IsFile, IsChain;
    ghost var v := d.cache.view;
    SpotBlock(d, f.chain, at, no, boff);
    PutStep(d, v, f.chain, at, no, boff, data);
    bp := d.cache.GetBlock(no, d.g.unit);
    d.cache.Shows(bp);
    d.cache.FatFlag(bp);
    d.cache.Put(bp, boff, data);
  }

  /** A buffer just used in full is the first to go. */
  method PutBytes(d: Dpb, f: FNode, no: int, boff: nat, data: seq<byte>, ghost at: nat)
    requires Open(d, f) && Spot(d.g, f.chain, at, no, boff) && boff + |data| <= d.g.secsize
    modifies d.cache
    ensures Open(d, f) && FileStep(d, old(d.cache.view), f.chain, d.cache.view, f.chain, at, data)
  {
    hide BlockIO.BlockCache.Valid, Geometry.Ok, LinksIn, Spot, Free, FileStep, FNode.Ok, CS.Uncached;
    var bp := PutBlock(d, f, no, boff, data, at);
    if |data| == BUFFERSIZE {
      d.cache.Uncache(bp);
    }
  }

  lemma FlatWithin(n: nat, secs: seq<Sector>, j: nat, boff: nat, len: nat)
    requires CS.AllSized(n, secs) && n > 0 && j < |secs| && boff + len <= n
    ensures 0 <= j * n + boff <= j * n + boff + len <= |secs| * n
    ensures secs[j][boff..boff + len] == Flat(n, secs)[j * n + boff..j * n + boff + len]
  {
    hide Flat, CS.AllSized;
    MulMono(j + 1, |secs|, n);
    assert |secs[j]| == n by {
      OneSized(n, secs, j);
    }
    var part := Flat(n, secs)[j * n + boff..j * n + boff + len];
    forall i | 0 <= i < len ensures part[i] == secs[j][boff..boff + len][i] {
      FlatAt(n, secs, j, boff + i);
    }
  }

  lemma OneSized(n: nat, secs: seq<Sector>, j: nat)
    requires CS.AllSized(n, secs) && j < |secs|
    ensures |secs[j]| == n
  {}

  lemma SpotRead(g: Geometry, v: Disk, ch: Chain, at: nat, no: int, boff: nat, len: nat)
    requires IsFile(g, v, ch) && Spot(g, ch, at, no, boff) && boff + len <= g.secsize
    requires |v[Block(g.unit, no)]| == g.secsize
    ensures at + len <= |Content(g, v, ch)|
    ensures v[Block(g.unit, no)][boff..boff + len] == Content(g, v, ch)[at..at + len]
  {
    hide FileBlock, Flat, CS.AllSized, CS.Sized, Clusters;
    var j := Div(at, g.secsize);
    assert at == j * g.secsize + boff;
    SectorsSized(g, v, ch);
    FlatWithin(g.secsize, Sectors(g, v, ch), j, boff, len);
  }

  /** Copies out of the buffer of a file's sector. */
  method GetBytes(d: Dpb, f: FNode, no: int, boff: nat, len: nat, ghost at: nat) returns (data: seq<byte>)
    requires Open(d, f) && Spot(d.g, f.chain, at, no, boff) && boff + len <= d.g.secsize
    modifies d.cache
    ensures Open(d, f) && d.cache.view == old(d.cache.view) && IsFile(d.g, d.cache.view, f.chain)
    ensures at + len <= |Content(d.g, d.cache.view, f.chain)|
    ensures data == Content(d.g, d.cache.view, f.chain)[at..at + len]
  {
    hide BlockIO.BlockCache.Valid, Geometry.Ok, LinksIn, Spot, InFat, InMirror, InAnyFat, CS.Sized,
         BlockIO.Stays, Free, Content, IsFile;
    SpotBlock(d, f.chain, at, no, boff);
    SpotRead(d.g, d.cache.view, f.chain, at, no, boff, len);
    var bp := d.cache.GetBlock(no, d.g.unit);
    d.cache.Shows(bp);
    data := d.cache.bufs[bp].data[boff..boff + len];
    if len == BUFFERSIZE || f.offset + len == f.dirSize {
      d.cache.Uncache(bp);
    }
  }

  /** The `n` sectors of the file from byte `at` on are those from block `no` on. */
  ghost predicate RunSpot(g: Geometry, ch: Chain, at: nat, no: int, n: nat) {
    && g.secsize > 0 && Clusters(ch) && at % g.secsize == 0 && Contiguous(g, ch, Div(at, g.secsize), no, n)
  }

  lemma RunWritten(d: Dpb, v: Disk, ch: Chain, at: nat, no: int, n: nat, data: seq<byte>)
    requires d.g.Ok() && d.cache.geo(d.g.unit) == d.g.Layout() && IsFile(d.g, v, ch)
    requires RunSpot(d.g, ch, at, no, n) && |data| == SectorBytes(d.g, n)
    ensures var v' := CS.WriteRun(v, d.g.unit, no, Chunks(d.g.secsize, data, n));
      CS.Sized(d.g.secsize, v') && FileStep(d, v, ch, v', ch, at, data) && LinksIn(d.g, v') == LinksIn(d.g, v)
  {
    hide Content, FileOnly, Spliced, Geometry.Ok, CS.WriteRun, CS.Sized, Clusters, Patched, Contiguous, Chunks,
         DataStep, LinksIn;
    var j, secs := Div(at, d.g.secsize), Chunks(d.g.secsize, data, n);
    assert at == j * d.g.secsize;
    WriteRunBytes(d.g, v, ch, j, no, secs);
    FlatChunks(d.g.secsize, data, n);
    PatchedSpliced(Content(d.g, v, ch), at, data);
    assert ch[..|ch|] == ch;
    RunStep(d, v, ch, j, no, secs);
    LinksSame(d, v, CS.WriteRun(v, d.g.unit, no, secs));
    RunMirrors(d, v, CS.WriteRun(v, d.g.unit, no, secs));
  }

  lemma RunMirrors(d: Dpb, v: Disk, v': Disk)
    requires DataStep(d, v, v')
    ensures CS.MirrorsAgree(d.cache.geo, v) ==> CS.MirrorsAgree(d.cache.geo, v')
  {}

  lemma RunOut(d: Dpb, ch: Chain, at: nat, no: int, n: nat)
    requires d.Valid() && IsFileChain(d.links, ch) && RunSpot(d.g, ch, at, no, n)
    ensures CS.OutsideFat(d.cache.geo, d.g.unit, no, n)
    ensures IsFile(d.g, d.cache.view, ch) && d.g.Ok() && d.cache.Valid() && d.cache.secsize == d.g.secsize
    ensures d.cache.geo(d.g.unit) == d.g.Layout()
  {
    hide Dpb.Valid, Contiguous, CS.OutsideFat;
    FileIn(d, ch);
    RunOutsideFat(d.cache.geo, d.g, ch, Div(at, d.g.secsize), no, n);
  }

  /** Writes a run of sectors of the file directly. */
  method PutSectors(d: Dpb, f: FNode, no: int, n: nat, data: seq<byte>, ghost at: nat)
    requires Open(d, f) && RunSpot(d.g, f.chain, at, no, n) && |data| == SectorBytes(d.g, n)
    modifies d.cache
    ensures Open(d, f) && FileStep(d, old(d.cache.view), f.chain, d.cache.view, f.chain, at, data)
  {
    hide BlockIO.BlockCache.Valid, Geometry.Ok, LinksIn, RunSpot, CS.OutsideFat, CS.WriteRun, CS.Sized, Free, FileStep,
         IsFile, Chunks;
    ghost var v := d.cache.view;
    RunOut(d, f.chain, at, no, n);
    RunWritten(d, v, f.chain, at, no, n, data);
    d.cache.WriteRun(d.g.unit, no, Chunks(d.g.secsize, data, n));
  }

  /** Reads a run of sectors of the file directly. */
  method GetSectors(d: Dpb, f: FNode, no: int, n: nat, ghost at: nat) returns (data: seq<byte>)
    requires Open(d, f) && RunSpot(d.g, f.chain, at, no, n)
    modifies d.cache
    ensures Open(d, f) && d.cache.view == old(d.cache.view) && IsFile(d.g, d.cache.view, f.chain)
    ensures at + SectorBytes(d.g, n) <= |Content(d.g, d.cache.view, f.chain)|
    ensures data == Content(d.g, d.cache.view, f.chain)[at..at + SectorBytes(d.g, n)]
  {
    hide BlockIO.BlockCache.Valid, Geometry.Ok, LinksIn, RunSpot, CS.OutsideFat, CS.RunOf, CS.Sized, Free, IsFile,
         Flat, Content, CS.AllSized;
    RunOut(d, f.chain, at, no, n);
    RunRead(d.g, d.cache.view, f.chain, at, no, n);
    var secs := d.cache.ReadRun(d.g.unit, no, n);
    data := Flat(d.g.secsize, secs);
  }

  lemma RunRead(g: Geometry, v: Disk, ch: Chain, at: nat, no: int, n: nat)
    requires g.Ok() && IsFile(g, v, ch) && RunSpot(g, ch, at, no, n)
    ensures CS.AllSized(g.secsize, CS.RunOf(v, g.unit, no, n)) && g.secsize > 0
    ensures at + SectorBytes(g, n) <= |Content(g, v, ch)|
    ensures Flat(g.secsize, CS.RunOf(v, g.unit, no, n)) == Content(g, v, ch)[at..at + SectorBytes(g, n)]
  {
    hide Content, Geometry.Ok, Clusters, Contiguous, Flat, CS.RunOf;
    var j := Div(at, g.secsize);
    ReadRunBytes(g, v, ch, j, no, n);
    assert at == j * g.secsize;
    assert (j + n) * g.secsize == at + SectorBytes(g, n);
  }

  // ---------- direct transfers ----------

  /** The file is at the cluster of its position. */
  ghost predicate Here(d: Dpb, f: FNode)
    reads d, d.cache, f
  {
    Open(d, f) && f.chain != [] && d.g.secsize > 0 && f.clusterOffset == RelCluster(d.g, f.offset)
  }

  lemma PositionSpot(g: Geometry, ch: Chain, offset: nat)
    requires g.Ok() && Clusters(ch) && RelCluster(g, offset) < |ch| && ch[RelCluster(g, offset)] >= 2
    ensures var no := Clus2Phys(g, ch[RelCluster(g, offset)]) + SectorOf(g, Div(offset, g.secsize));
      Spot(g, ch, offset, no, offset % g.secsize)
  {
    hide RelCluster, Clus2Phys, FileBlock, Clusters;
    Position(g, ch, offset);
  }

  lemma CurrentSpot(d: Dpb, f: FNode)
    requires Here(d, f)
    ensures var g, j := d.g, Div(f.offset, d.g.secsize);
      && g.secsize > 0 && f.cluster >= 2 && j % 0x100 % (g.clsmask + 1) == SectorOf(g, j)
      && Spot(g, f.chain, f.offset, Clus2Phys(g, f.cluster) + SectorOf(g, j), f.offset % g.secsize)
  {
    hide Dpb.Valid, RelCluster, Clus2Phys, Spot, Clusters, Geometry.Ok, IsChain;
    FileIn(d, f.chain);
    AtCluster(d.links, f.chain, f.clusterOffset);
    PositionSpot(d.g, f.chain, f.offset);
    SectorMask(d.g, Div(f.offset, d.g.secsize));
  }

  /** Block and byte of the position, and the number of its sector in the cluster. */
  method CurrentBlock(d: Dpb, f: FNode) returns (no: int, sector: nat, boff: nat)
    requires Here(d, f)
    ensures Spot(d.g, f.chain, f.offset, no, boff) && boff < d.g.secsize
            && sector == SectorOf(d.g, Div(f.offset, d.g.secsize))
  {
    hide Here, Spot, Div, Clus2Phys;
    CurrentSpot(d, f);
    sector := Div(f.offset, d.g.secsize) % 0x100 % (d.g.clsmask + 1);
    boff := f.offset % d.g.secsize;
    no := Clus2Phys(d.g, f.cluster) + sector;
  }

  lemma AtCluster(links: Links, ch: Chain, i: nat)
    requires IsChain(links, ch) && i < |ch|
    ensures ch[i] >= 2
  {}

  /** After `n` sectors from byte `at` on, a cluster ends. */
  ghost predicate Boundary(g: Geometry, at: nat, n: nat) {
    g.secsize > 0 && (Div(at, g.secsize) + n) % Spc(g) == 0
  }

  /** The rest of the first cluster is one run. */
  lemma RunFirst(g: Geometry, ch: Chain, at: nat, no: int, wanted: nat)
    requires g.Ok() && Spot(g, ch, at, no, 0)
    ensures var n := Min(Spc(g) - SectorOf(g, Div(at, g.secsize)), wanted);
      RunSpot(g, ch, at, no, n) && (n < wanted ==> Boundary(g, at, n))
  {
    hide Clus2Phys, Contiguous, Geometry.Ok;
    var j := Div(at, g.secsize);
    var i, s := ClusterOf(g, j), SectorOf(g, j);
    ClusterBelow(g, ch, j);
    SectorSplit(g, j);
    var n := Min(Spc(g) - s, wanted);
    ContiguousStart(g, ch, i, s, n);
    if n < wanted {
      assert j + n == (i + 1) * Spc(g) + 0;
      DivModUnique(j + n, Spc(g), i + 1, 0);
    }
  }

  lemma AtBoundary(g: Geometry, at: nat, n: nat)
    requires g.Ok() && at % g.secsize == 0 && Boundary(g, at, n)
    ensures Div(at, g.secsize) + n == RelCluster(g, at + SectorBytes(g, n)) * Spc(g)
  {
    hide RelCluster, Geometry.Ok;
    var j := Div(at, g.secsize);
    assert at + SectorBytes(g, n) == (j + n) * g.secsize + 0;
    DivModUnique(at + SectorBytes(g, n), g.secsize, j + n, 0);
    RelIsCluster(g, at + SectorBytes(g, n));
    SectorSplit(g, j + n);
  }

  /** A cluster that follows on the disk joins the run. */
  lemma RunNext(g: Geometry, ch: Chain, at: nat, no: int, n: nat, wanted: nat)
    requires g.Ok() && RunSpot(g, ch, at, no, n) && Boundary(g, at, n) && n < wanted
    requires var i := RelCluster(g, at + SectorBytes(g, n));
      i < |ch| && ch[i] >= 2 && Clus2Phys(g, ch[i]) == no + n
    ensures var n' := Min(n + Spc(g), wanted);
      RunSpot(g, ch, at, no, n') && (n' < wanted ==> Boundary(g, at, n'))
  {
    hide Clus2Phys, Contiguous, RelCluster, Geometry.Ok, Clusters;
    var j, i, n' := Div(at, g.secsize), RelCluster(g, at + SectorBytes(g, n)), Min(n + Spc(g), wanted);
    AtBoundary(g, at, n);
    ContiguousMore(g, ch, j, no, n, i, n' - n);
    if n' < wanted {
      assert j + n' == (i + 1) * Spc(g) + 0;
      DivModUnique(j + n', Spc(g), i + 1, 0);
    }
  }

  lemma RunPrefix(g: Geometry, ch: Chain, ch': Chain, at: nat, no: int, n: nat)
    requires RunSpot(g, ch, at, no, n) && Clusters(ch') && |ch| <= |ch'| && ch'[..|ch|] == ch
    ensures RunSpot(g, ch', at, no, n)
  {
    hide Contiguous, Clusters;
    PrefixContiguous(g, ch, ch', Div(at, g.secsize), no, n);
  }

  /** Since (`v0`, `l0`, `c0`) only the FAT has changed, and the chain of the file has grown. */
  ghost predicate GrownSince(d: Dpb, f: FNode, v0: Disk, l0: Links, c0: Chain)
    reads d, d.cache, f`chain
  {
    IsFileChain(l0, c0) && FatStep(d, v0, d.cache.view) && GrownSo(l0, c0, d.links, f.chain)
  }

  /** Since then nothing at all has changed. */
  ghost predicate SameSince(d: Dpb, f: FNode, v0: Disk, l0: Links, c0: Chain)
    reads d, d.cache, f`chain
  {
    d.cache.view == v0 && d.links == l0 && f.chain == c0
  }

  lemma GrownNone(d: Dpb, f: FNode)
    requires f.Ok(d.links)
    ensures GrownSince(d, f, d.cache.view, d.links, f.chain)
  {
    GrowsRefl(d.links, f.chain);
  }

  /** `map_cluster` when the file may have grown already. */
  method MapMore(d: Dpb, f: FNode, write: bool, ghost v0: Disk, ghost l0: Links, ghost c0: Chain) returns (o: Outcome)
    requires Open(d, f) && d.g.secsize > 0 && GrownSince(d, f, v0, l0, c0)
    modifies d, d.cache, f`cluster, f`clusterOffset, f`dirStart, f`chain
    ensures Open(d, f) && GrownSince(d, f, v0, l0, c0)
    ensures o == Success ==> Here(d, f)
    ensures |old(f.chain)| <= |f.chain| && f.chain[..|old(f.chain)|] == old(f.chain)
    ensures !write ==> SameSince(d, f, old(d.cache.view), old(d.links), old(f.chain)) && o != DiskFull
    ensures o != Success ==> |f.chain| <= RelCluster(d.g, f.offset)
    ensures o == DiskFull ==> Free(d.links) == 0
    ensures write ==> o != Seek
  {
    hide Dpb.Valid, Free, FatStep, Grows, IsChain, Shr, Div;
    ghost var v1, l1, c1 := d.cache.view, d.links, f.chain;
    o := MapCluster(d, f, write);
    FatStepMore(d, v0, v1, d.cache.view);
    GrownMore(l0, c0, l1, c1, d.links, f.chain);
    GrowsPrefix(l1, c1, d.links, f.chain);
  }

  lemma GrowsPrefix(links: Links, ch: Chain, links': Links, ch': Chain)
    requires Grows(links, ch, links', ch')
    ensures |ch| <= |ch'| && ch'[..|ch|] == ch
  {}

  /** From the position on, the sectors that can be transferred at once, at most `wanted`: those of this
      cluster, and of further clusters of the file as long as each follows on the disk. */
  method Coalesce(d: Dpb, f: FNode, write: bool, no: int, sector: nat, wanted: nat) returns (n: nat)
    requires Here(d, f) && Spot(d.g, f.chain, f.offset, no, 0) && sector == SectorOf(d.g, Div(f.offset, d.g.secsize))
    requires wanted >= 1
    modifies d, d.cache, f`offset, f`cluster, f`clusterOffset, f`dirStart, f`chain
    ensures Open(d, f) && GrownSince(d, f, old(d.cache.view), old(d.links), old(f.chain))
    ensures 1 <= n <= wanted && RunSpot(d.g, f.chain, old(f.offset), no, n)
    ensures f.offset == old(f.offset) + SectorBytes(d.g, n)
    ensures !write ==> SameSince(d, f, old(d.cache.view), old(d.links), old(f.chain))
  {
    hide Dpb.Valid, GrownSince, RelCluster, RunSpot, Boundary, Spot, Clus2Phys, Clusters, FNode.Ok, SectorBytes;
    ghost var v0, l0, c0 := d.cache.view, d.links, f.chain;
    FileOpen(d, f);
    var startoffset := f.offset;
    RunFirst(d.g, f.chain, startoffset, no, wanted);
    GrownNone(d, f);
    n := Min(d.g.clsmask + 1 - sector, wanted);
    f.offset := f.offset + SectorBytes(d.g, n);
    while n < wanted
      invariant Open(d, f) && GrownSince(d, f, v0, l0, c0)
      invariant 1 <= n <= wanted && RunSpot(d.g, f.chain, startoffset, no, n)
      invariant n < wanted ==> Boundary(d.g, startoffset, n)
      invariant f.offset == startoffset + SectorBytes(d.g, n)
      invariant !write ==> SameSince(d, f, v0, l0, c0)
      decreases wanted - n
    {
      var adjacent := NextAdjacent(d, f, write, no, n, wanted, startoffset, v0, l0, c0);
      if !adjacent {
        break;
      }
      n := n + d.g.clsmask + 1;
      n := Min(n, wanted);
      f.offset := startoffset + SectorBytes(d.g, n);
    }
  }

  /** Goes to the cluster after the run; does it follow on the disk? */
  method NextAdjacent(d: Dpb, f: FNode, write: bool, no: int, n: nat, wanted: nat, startoffset: nat,
                      ghost v0: Disk, ghost l0: Links, ghost c0: Chain) returns (adjacent: bool)
    requires Open(d, f) && GrownSince(d, f, v0, l0, c0) && RunSpot(d.g, f.chain, startoffset, no, n)
    requires n < wanted && Boundary(d.g, startoffset, n) && f.offset == startoffset + SectorBytes(d.g, n)
    modifies d, d.cache, f`cluster, f`clusterOffset, f`dirStart, f`chain
    ensures Open(d, f) && GrownSince(d, f, v0, l0, c0) && RunSpot(d.g, f.chain, startoffset, no, n)
    ensures adjacent ==> var n' := Min(n + Spc(d.g), wanted);
      RunSpot(d.g, f.chain, startoffset, no, n') && (n' < wanted ==> Boundary(d.g, startoffset, n'))
    ensures !write ==> SameSince(d, f, old(d.cache.view), old(d.links), old(f.chain))
  {
    hide Dpb.Valid, GrownSince, RelCluster, RunSpot, Boundary, Clus2Phys, Clusters, FNode.Ok;
    ghost var c1 := f.chain;
    FileOpen(d, f);
    var o := MapMore(d, f, write, v0, l0, c0);
    FileOpen(d, f);
    RunPrefix(d.g, c1, f.chain, startoffset, no, n);
    if o != Success {
      return false;
    }
    HereCluster(d, f);
    if Clus2Phys(d.g, f.cluster) != no + n {
      return false;
    }
    RunNext(d.g, f.chain, startoffset, no, n, wanted);
    return true;
  }

  lemma FileOpen(d: Dpb, f: FNode)
    requires Open(d, f)
    ensures d.g.Ok() && d.g.secsize > 0 && Clusters(f.chain) && IsFile(d.g, d.cache.view, f.chain) && f.Ok(d.links)
    ensures IsFileChain(d.links, f.chain) && CS.Sized(d.g.secsize, d.cache.view)
  {
    FileIn(d, f.chain);
  }

  lemma HereCluster(d: Dpb, f: FNode)
    requires Here(d, f)
    ensures RelCluster(d.g, f.offset) < |f.chain| && f.cluster == f.chain[RelCluster(d.g, f.offset)] && f.cluster >= 2
  {
    hide Dpb.Valid, RelCluster;
    AtCluster(d.links, f.chain, f.clusterOffset);
  }

  // ---------- one round of the transfer ----------

  /** `n` bytes of the file from `at` on have been copied to `done` in the user's memory. */
  ghost predicate ReadAt(g: Geometry, v: Disk, ch: Chain, at: nat, n: nat, u: seq<byte>, u': seq<byte>, done: nat) {
    && IsFile(g, v, ch) && done + n <= |u|
    && (n == 0 ==> u' == u)
    && (n > 0 ==> at + n <= |Content(g, v, ch)| && u' == Patched(u, done, Content(g, v, ch)[at..at + n]))
  }

  lemma ReadAtMore(g: Geometry, v: Disk, ch: Chain, at: nat, n1: nat, n2: nat,
                   u0: seq<byte>, u1: seq<byte>, u2: seq<byte>, done: nat)
    requires ReadAt(g, v, ch, at, n1, u0, u1, done) && ReadAt(g, v, ch, at + n1, n2, u1, u2, done + n1)
    ensures ReadAt(g, v, ch, at, n1 + n2, u0, u2, done)
  {
    hide Content, Clusters, CS.Sized, Patched;
    if n1 > 0 && n2 > 0 {
      var b := Content(g, v, ch);
      JoinSlices(b, at, n1, n2);
      PatchedMore(u0, done, b[at..at + n1], b[at + n1..at + n1 + n2]);
    }
  }

  lemma JoinSlices(b: seq<byte>, at: nat, n1: nat, n2: nat)
    requires at + n1 + n2 <= |b|
    ensures b[at..at + (n1 + n2)] == b[at..at + n1] + b[at + n1..at + n1 + n2]
  {}

  /** Two adjacent patches are one. */
  lemma PatchedMore(u: seq<byte>, at: nat, b1: seq<byte>, b2: seq<byte>)
    requires at + |b1| + |b2| <= |u|
    ensures Patched(Patched(u, at, b1), at + |b1|, b2) == Patched(u, at, b1 + b2)
  {}

  method CopyOut(user: array<byte>, at: nat, data: seq<byte>)
    requires at + |data| <= user.Length
    modifies user
    ensures user[..] == Patched(old(user[..]), at, data)
  {
    for i := 0 to |data|
      invariant user[..] == Patched(old(user[..]), at, data[..i])
    {
      user[at + i] := data[i];
    }
    assert data[..|data|] == data;
  }

  /** The position has moved on by `xfr` bytes, which have been transferred. */
  twostate predicate Transferred(d: Dpb, f: FNode, user: array<byte>, done: nat, xfr: nat, write: bool)
    requires done + xfr <= user.Length
    reads d, d.cache, f, user
  {
    && f.offset == old(f.offset) + xfr && GrownSo(old(d.links), old(f.chain), d.links, f.chain)
    && (write ==> user[..] == old(user[..])
                  && FileStep(d, old(d.cache.view), old(f.chain), d.cache.view, f.chain, old(f.offset),
                     user[done..done + xfr]))
    && (!write ==> SameSince(d, f, old(d.cache.view), old(d.links), old(f.chain))
                   && ReadAt(d.g, d.cache.view, f.chain, old(f.offset), xfr, old(user[..]), user[..], done))
  }

  /** A growth and then a write. */
  lemma GrowthThenWrite(d: Dpb, v: Disk, links: Links, ch: Chain, v1: Disk, ch': Chain, at: nat, data: seq<byte>,
                        v2: Disk)
    requires FileStep(d, v, ch, v1, ch', at, []) && FileStep(d, v1, ch', v2, ch', at, data)
    ensures FileStep(d, v, ch, v2, ch', at, data)
  {
    hide FileStep;
    FileStepMore(d, v, ch, v1, ch', v2, ch', at, [], data);
    assert [] + data == data;
  }

  /** A direct transfer of whole sectors. */
  method Direct(d: Dpb, f: FNode, user: array<byte>, done: nat, write: bool, no: int, sector: nat, wanted: nat)
    returns (xfr: nat)
    requires Here(d, f) && Spot(d.g, f.chain, f.offset, no, 0) && sector == SectorOf(d.g, Div(f.offset, d.g.secsize))
    requires wanted >= 1 && done + SectorBytes(d.g, wanted) <= user.Length
    modifies d, d.cache, f`offset, f`cluster, f`clusterOffset, f`dirStart, f`chain, user
    ensures Open(d, f) && 1 <= xfr <= SectorBytes(d.g, wanted) && Transferred(d, f, user, done, xfr, write)
  {
    hide Dpb.Valid, GrownSo, FatStep, RelCluster, RunSpot, Spot, Clusters, FNode.Ok, FileStep, IsFile, Content;
    ghost var at, v0, l0, c0 := f.offset, d.cache.view, d.links, f.chain;
    FileOpen(d, f);
    var n := Coalesce(d, f, write, no, sector, wanted);
    FileOpen(d, f);
    RunSize(d.g, n, wanted);
    xfr := n * d.g.secsize;
    if write {
      ghost var v1 := d.cache.view;
      GrowthStep(d, v0, l0, c0, f.chain, at);
      PutSectors(d, f, no, n, user[done..done + xfr], at);
      GrowthThenWrite(d, v0, l0, c0, v1, f.chain, at, user[done..done + xfr], d.cache.view);
    } else {
      var data := GetSectors(d, f, no, n, at);
      CopyOut(user, done, data);
    }
  }

  lemma RunSize(g: Geometry, n: nat, wanted: nat)
    requires g.secsize > 0 && 1 <= n <= wanted
    ensures 1 <= n * g.secsize == SectorBytes(g, n) <= SectorBytes(g, wanted)
  {
    MulMono(1, n, g.secsize);
    MulMono(n, wanted, g.secsize);
  }

  /** A transfer through one sector buffer. */
  method Buffered(d: Dpb, f: FNode, user: array<byte>, done: nat, toXfer: nat, write: bool, no: int, boff: nat)
    returns (xfr: nat)
    requires Here(d, f) && Spot(d.g, f.chain, f.offset, no, boff) && boff < d.g.secsize
    requires toXfer >= 1 && done + toXfer <= user.Length && (write || f.offset < f.dirSize)
    modifies d.cache, f`offset, user
    ensures Open(d, f) && 1 <= xfr <= toXfer && Transferred(d, f, user, done, xfr, write)
    ensures !write ==> f.offset <= f.dirSize
  {
    hide Dpb.Valid, GrownSo, RelCluster, Spot, Clusters, FNode.Ok, FileStep, IsFile, Content;
    ghost var at := f.offset;
    GrownStart(d.links, f);
    xfr := Min(toXfer, d.g.secsize - boff);
    if !write {
      xfr := Min(xfr, f.dirSize - f.offset);
    }
    if write {
      PutBytes(d, f, no, boff, user[done..done + xfr], at);
    } else {
      var data := GetBytes(d, f, no, boff, xfr, at);
      CopyOut(user, done, data);
    }
    f.offset := f.offset + xfr;
  }

  /** Whole sectors of what is left to transfer, not beyond the end of the file when reading. */
  function SectorsWanted(g: Geometry, toXfer: nat, write: bool, dirSize: nat, offset: nat): (n: nat)
    requires g.secsize > 0 && (write || offset < dirSize)
    ensures SectorBytes(g, n) <= toXfer && (!write ==> offset + SectorBytes(g, n) <= dirSize)
  {
    Div(if !write && toXfer > dirSize - offset then dirSize - offset else toXfer, g.secsize)
  }

  method Transfer(d: Dpb, f: FNode, user: array<byte>, done: nat, toXfer: nat, write: bool) returns (xfr: nat)
    requires Here(d, f) && toXfer >= 1 && done + toXfer <= user.Length && (write || f.offset < f.dirSize)
    modifies d, d.cache, f`offset, f`cluster, f`clusterOffset, f`dirStart, f`chain, user
    ensures Open(d, f) && 1 <= xfr <= toXfer && Transferred(d, f, user, done, xfr, write)
    ensures !write ==> f.offset <= f.dirSize
  {
    hide Dpb.Valid, RelCluster, Spot, FNode.Ok, FileStep, ReadAt, GrownSo;
    var no, sector, boff := CurrentBlock(d, f);
    var sectorsWanted := if boff == 0 then SectorsWanted(d.g, toXfer, write, f.dirSize, f.offset) else 0;
    if sectorsWanted != 0 {
      xfr := Direct(d, f, user, done, write, no, sector, sectorsWanted);
    } else {
      xfr := Buffered(d, f, user, done, toXfer, write, no, boff);
    }
  }

  // ---------- the whole transfer ----------

  /** The number of bytes transferred, from what every round keeps and how the loop ends. */
  lemma ClipIs(count: nat, at: nat, limit: nat, r: nat)
    requires r <= count && (r > 0 ==> at + r <= limit) && (r == count || limit <= at + r)
    ensures r == Clip(count, at, limit)
  {}

  /** What has been done since (`v0`, `l0`, `c0`, `u0`), with `ret` bytes transferred from position `at` on. */
  ghost predicate Progress(d: Dpb, f: FNode, user: array<byte>, v0: Disk, l0: Links, c0: Chain, u0: seq<byte>,
                           at: nat, ret: nat, write: bool)
    requires ret <= user.Length
    reads d, d.cache, f`offset, f`chain, user
  {
    && f.offset == at + ret && IsFileChain(l0, c0) && CS.Sized(d.g.secsize, v0)
    && (write ==> user[..] == u0 && GrownSo(l0, c0, d.links, f.chain)
                  && FileStep(d, v0, c0, d.cache.view, f.chain, at, user[..ret]))
    && (!write ==> SameSince(d, f, v0, l0, c0) && ReadAt(d.g, v0, c0, at, ret, u0, user[..], 0))
  }

  lemma NoProgress(d: Dpb, f: FNode, user: array<byte>, write: bool)
    requires Open(d, f)
    ensures Progress(d, f, user, d.cache.view, d.links, f.chain, user[..], f.offset, 0, write)
  {
    hide Content, Dpb.Valid, Clusters, CS.Sized, FileOnly, IsChain, Free;
    FileOpen(d, f);
    GrownStart(d.links, f);
    NothingWritten(d.g, d.cache.view, f.chain, f.offset);
    assert user[..0] == [];
  }

  lemma NothingWritten(g: Geometry, v: Disk, ch: Chain, at: nat)
    requires IsFile(g, v, ch)
    ensures Written(g, v, ch, v, ch, at, [])
  {
    hide Content;
    assert ch[..|ch|] == ch;
  }

  /** `map_cluster` before a round. */
  method MapHere(d: Dpb, f: FNode, user: array<byte>, ghost v0: Disk, ghost l0: Links, ghost c0: Chain,
                 ghost u0: seq<byte>,
                 ghost at: nat, ghost ret: nat, write: bool) returns (o: Outcome)
    requires Open(d, f) && ret <= user.Length && Progress(d, f, user, v0, l0, c0, u0, at, ret, write)
    modifies d, d.cache, f`cluster, f`clusterOffset, f`dirStart, f`chain
    ensures Open(d, f) && Progress(d, f, user, v0, l0, c0, u0, at, ret, write)
    ensures o == Success ==> Here(d, f)
    ensures o != Success ==> |f.chain| <= RelCluster(d.g, f.offset) && (write ==> Free(d.links) == 0)
  {
    hide Dpb.Valid, Free, FatStep, GrownSo, FileStep, ReadAt, IsChain, CS.Sized, RelCluster;
    ghost var v1, l1, c1 := d.cache.view, d.links, f.chain;
    FileOpen(d, f);
    GrownNone(d, f);
    o := MapMore(d, f, write, v1, l1, c1);
    FileOpen(d, f);
    if write {
      GrowthStep(d, v1, l1, c1, f.chain, at + ret);
      GrownMore(l0, c0, l1, c1, d.links, f.chain);
      FileStepMore(d, v0, c0, v1, c1, d.cache.view, f.chain, at, user[..ret], []);
      assert user[..ret] + [] == user[..ret];
    }
  }

  /** Where the loop stops short: at the end of the file, or where clusters run out. */
  ghost predicate Stopped(d: Dpb, f: FNode, write: bool)
    reads d, d.cache, f
  {
    d.g.secsize > 0 &&
    if write then |f.chain| <= RelCluster(d.g, f.offset) && Free(d.links) == 0
    else f.offset >= f.dirSize || |f.chain| <= RelCluster(d.g, f.offset)
  }

  lemma ProgressOffset(d: Dpb, f: FNode, user: array<byte>, v0: Disk, l0: Links, c0: Chain, u0: seq<byte>,
                       at: nat, ret: nat, write: bool)
    requires ret <= user.Length && Progress(d, f, user, v0, l0, c0, u0, at, ret, write)
    ensures f.offset == at + ret
  {}

  /** The loop of `rwblock`. */
  method TransferAll(d: Dpb, f: FNode, user: array<byte>, count: nat, write: bool) returns (ret: nat)
    requires Open(d, f) && count <= user.Length && d.g.secsize > 0 && (write ==> f.offset <= f.dirSize)
    modifies d, d.cache, f, user
    ensures Open(d, f) && ret <= count
    ensures Progress(d, f, user, old(d.cache.view), old(d.links), old(f.chain), old(user[..]), old(f.offset), ret,
            write)
    ensures ret < count ==> Stopped(d, f, write)
    ensures f.dirSize == if write then Max(old(f.dirSize), f.offset) else old(f.dirSize)
    ensures !write && ret > 0 ==> f.offset <= f.dirSize
  {
    hide Dpb.Valid, Free, Progress, Transferred, RelCluster, FNode.Ok;
    ghost var v0, l0, c0, u0, at := d.cache.view, d.links, f.chain, user[..], f.offset;
    NoProgress(d, f, user, write);
    ret := 0;
    var toXfer := count;
    while ret < count
      invariant Open(d, f) && ret + toXfer == count && Progress(d, f, user, v0, l0, c0, u0, at, ret, write)
      invariant f.dirSize == if write then Max(old(f.dirSize), f.offset) else old(f.dirSize)
      invariant !write && ret > 0 ==> f.offset <= f.dirSize
    {
      if !write && f.offset >= f.dirSize {
        return;
      }
      var o := MapHere(d, f, user, v0, l0, c0, u0, at, ret, write);
      if o != Success {
        return;
      }
      ProgressOffset(d, f, user, v0, l0, c0, u0, at, ret, write);
      var xfr := TransferMore(d, f, user, ret, toXfer, write, v0, l0, c0, u0, at);
      ProgressOffset(d, f, user, v0, l0, c0, u0, at, ret + xfr, write);
      ret := ret + xfr;
      toXfer := toXfer - xfr;
      if write {
        if f.offset > f.dirSize {
          f.dirSize := f.offset;
        }
      }
    }
  }

  method TransferMore(d: Dpb, f: FNode, user: array<byte>, ret: nat, toXfer: nat, write: bool,
                      ghost v0: Disk, ghost l0: Links, ghost c0: Chain, ghost u0: seq<byte>, ghost at: nat)
                        returns (xfr: nat)
    requires Here(d, f) && toXfer >= 1 && ret + toXfer <= user.Length && (write || f.offset < f.dirSize)
    requires Progress(d, f, user, v0, l0, c0, u0, at, ret, write)
    modifies d, d.cache, f`offset, f`cluster, f`clusterOffset, f`dirStart, f`chain, user
    ensures Open(d, f) && 1 <= xfr <= toXfer && Progress(d, f, user, v0, l0, c0, u0, at, ret + xfr, write)
    ensures !write ==> f.offset <= f.dirSize
  {
    hide Dpb.Valid, RelCluster, FNode.Ok, FileStep, GrownSo, ReadAt, IsChain, CS.Sized;
    ghost var v1, l1, c1, u1 := d.cache.view, d.links, f.chain, user[..];
    xfr := Transfer(d, f, user, ret, toXfer, write);
    if write {
      GrownMore(l0, c0, l1, c1, d.links, f.chain);
      FileStepMore(d, v0, c0, v1, c1, d.cache.view, f.chain, at, user[..ret], user[ret..ret + xfr]);
      assert user[..ret] + user[ret..ret + xfr] == user[..ret + xfr];
    } else {
      ReadAtMore(d.g, v0, c0, at, ret, xfr, u0, u1, user[..], 0);
    }
  }

  // ---------- rwblock ----------

  /** Extends the file to its position; fails if the disk is too full for that. */
  method DosExtend(d: Dpb, f: FNode) returns (ok: bool)
    requires Open(d, f)
    modifies d, d.cache, f`cluster, f`clusterOffset, f`dirStart, f`chain, f`dirSize
    ensures Open(d, f) && GrownSince(d, f, old(d.cache.view), old(d.links), old(f.chain)) && d.g.secsize > 0
    ensures ok ==> f.dirSize == Max(old(f.dirSize), f.offset)
    ensures ok && f.offset > old(f.dirSize) ==> RelCluster(d.g, f.offset) < |f.chain|
    ensures ok && f.offset <= old(f.dirSize) ==> SameSince(d, f, old(d.cache.view), old(d.links), old(f.chain))
    ensures !ok ==>
      && f.dirSize == old(f.dirSize) < f.offset
      && |f.chain| <= RelCluster(d.g, f.offset) && Free(d.links) == 0
  {
    hide Dpb.Valid, Free, GrownSince, RelCluster;
    FileOpen(d, f);
    GrownNone(d, f);
    if f.offset <= f.dirSize {
      return true;
    }
    var o := MapMore(d, f, true, d.cache.view, d.links, f.chain);
    if o != Success {
      return false;
    }
    f.dirSize := f.offset;
    return true;
  }

  /** What a read does. */
  twostate predicate ReadDone(d: Dpb, f: FNode, user: array<byte>, count: nat, r: int)
    reads d, d.cache, f, user
  {
    && r == Clip(count, old(f.offset), Min(f.dirSize, Bytes(d.g, |f.chain|)))
    && f.offset == old(f.offset) + r && f.dirSize == old(f.dirSize)
    && SameSince(d, f, old(d.cache.view), old(d.links), old(f.chain))
    && ReadAt(d.g, d.cache.view, f.chain, old(f.offset), r, old(user[..]), user[..], 0)
  }

  /** What a write of at least one byte does.  It writes all there is room for: in the clusters of the file
      and all free ones. */
  twostate predicate WriteDone(d: Dpb, f: FNode, user: array<byte>, count: nat, r: int)
    requires count <= user.Length
    reads d, d.cache, f, user
  {
    && r == Clip(count, old(f.offset), Bytes(d.g, |old(f.chain)| + Free(old(d.links))))
    && f.offset == old(f.offset) + r && f.dirSize == (if r == 0 then old(f.dirSize) else Max(old(f.dirSize), f.offset))
    && GrownSo(old(d.links), old(f.chain), d.links, f.chain)
    && FileStep(d, old(d.cache.view), old(f.chain), d.cache.view, f.chain, old(f.offset), user[..r])
    && user[..] == old(user[..])
  }

  /** A chain has grown and then been cut. */
  ghost predicate Resized(links: Links, ch: Chain, links': Links, ch': Chain) {
    exists links1, ch1 :: GrownSo(links, ch, links1, ch1) && Shrinks(links1, ch1, links', ch')
  }

  /** What a write of no bytes does: the file ends at its position, with just the clusters it needs. */
  twostate predicate TruncateDone(d: Dpb, f: FNode, r: int)
    reads d, d.cache, f
  {
    && FatStep(d, old(d.cache.view), d.cache.view) && f.offset == old(f.offset) && d.g.secsize > 0
    && (old(f.dirSize) < f.offset && Bytes(d.g, |old(f.chain)| + Free(old(d.links))) <= f.offset ==>
          r == 0 && f.dirSize == old(f.dirSize) && GrownSo(old(d.links), old(f.chain), d.links, f.chain))
    && (!(old(f.dirSize) < f.offset && Bytes(d.g, |old(f.chain)| + Free(old(d.links))) <= f.offset) ==>
          && f.dirSize == f.offset
          && var n := ClustersFor(d.g, f.offset);
             if n <= |old(f.chain)| || old(f.dirSize) < f.offset
             then r == 0 && |f.chain| == n && Resized(old(d.links), old(f.chain), d.links, f.chain)
             else r == DE_ACCESS && f.chain == old(f.chain) && d.links == old(d.links))
  }

  lemma BytesMono(g: Geometry, m: nat, n: nat)
    requires m <= n
    ensures Bytes(g, m) <= Bytes(g, n)
  {
    MulMono(m, n, Spc(g));
    MulMono(m * Spc(g), n * Spc(g), g.secsize);
  }

  /** A write that stops short has filled the disk. */
  lemma WriteRoom(g: Geometry, l0: Links, c0: Chain, links: Links, ch: Chain, at: nat, ret: nat, count: nat)
    requires g.Ok() && GrownSo(l0, c0, links, ch) && ret <= count
    requires ret > 0 ==> at + ret <= Bytes(g, |ch|)
    requires ret < count ==> |ch| <= RelCluster(g, at + ret) && Free(links) == 0
    ensures ret == Clip(count, at, Bytes(g, |c0| + Free(l0)))
  {
    hide Bytes, RelCluster, Free, Grows;
    BytesMono(g, |ch|, |c0| + Free(l0));
    HasCluster(g, |ch|, at + ret);
    ClipIs(count, at, Bytes(g, |c0| + Free(l0)), ret);
  }

  lemma ReadEnd(g: Geometry, ch: Chain, dirSize: nat, at: nat, ret: nat, count: nat)
    requires g.Ok() && ret <= count && (ret > 0 ==> at + ret <= dirSize && at + ret <= Bytes(g, |ch|))
    requires ret < count ==> at + ret >= dirSize || |ch| <= RelCluster(g, at + ret)
    ensures ret == Clip(count, at, Min(dirSize, Bytes(g, |ch|)))
  {
    hide Bytes, RelCluster;
    HasCluster(g, |ch|, at + ret);
    ClipIs(count, at, Min(dirSize, Bytes(g, |ch|)), ret);
  }

  lemma WrittenBelow(d: Dpb, v: Disk, ch: Chain, v': Disk, ch': Chain, at: nat, data: seq<byte>)
    requires FileStep(d, v, ch, v', ch', at, data) && data != []
    ensures at + |data| <= Bytes(d.g, |ch'|)
  {}

  lemma ReadBelow(g: Geometry, v: Disk, ch: Chain, at: nat, n: nat, u: seq<byte>, u': seq<byte>)
    requires ReadAt(g, v, ch, at, n, u, u', 0) && n > 0
    ensures at + n <= Bytes(g, |ch|)
  {}

  /** `rwblock` with XFR_READ. */
  method ReadFile(d: Dpb, f: FNode, user: array<byte>, count: nat) returns (r: int)
    requires Open(d, f) && count <= user.Length
    modifies d, d.cache, f, user
    ensures Open(d, f) && ReadDone(d, f, user, count, r)
  {
    hide Dpb.Valid, Free, RelCluster, FNode.Ok, FileStep, GrownSo, IsChain, CS.Sized, Bytes, ReadAt;
    ghost var v, u := d.cache.view, user[..];
    FileOpen(d, f);
    if count == 0 {
      NoProgress(d, f, user, false);
      return 0;
    }
    var ret := TransferAll(d, f, user, count, false);
    FileOpen(d, f);
    if ret > 0 {
      ReadBelow(d.g, v, f.chain, old(f.offset), ret, u, user[..]);
    }
    ReadEnd(d.g, f.chain, f.dirSize, old(f.offset), ret, count);
    return ret;
  }

  /** What has been written before `at + |data|` when the chain had grown first. */
  lemma ExtendedWrite(d: Dpb, v0: Disk, c0: Chain, v1: Disk, c1: Chain, v2: Disk, c2: Chain, at: nat, data: seq<byte>)
    requires FileStep(d, v0, c0, v1, c1, at, []) && FileStep(d, v1, c1, v2, c2, at, data)
    ensures FileStep(d, v0, c0, v2, c2, at, data)
  {
    hide FileStep;
    FileStepMore(d, v0, c0, v1, c1, v2, c2, at, [], data);
    assert [] + data == data;
  }

  lemma GrownLonger(links: Links, ch: Chain, links': Links, ch': Chain)
    requires GrownSo(links, ch, links', ch')
    ensures |ch| <= |ch'|
  {}

  /** `rwblock` with XFR_WRITE. */
  method WriteFile(d: Dpb, f: FNode, user: array<byte>, count: nat) returns (r: int)
    requires Open(d, f) && 0 < count <= user.Length
    modifies d, d.cache, f, user
    ensures Open(d, f) && WriteDone(d, f, user, count, r)
  {
    hide Dpb.Valid, Free, RelCluster, FNode.Ok, FileStep, GrownSo, FatStep, IsChain, CS.Sized, Bytes, ReadAt, Clusters,
         Clip,
         Geometry.Ok;
    ghost var v0, l0, c0, at := d.cache.view, d.links, f.chain, f.offset;
    FileOpen(d, f);
    var ok := DosExtend(d, f);
    FileOpen(d, f);
    ghost var v1, l1, c1 := d.cache.view, d.links, f.chain;
    GrowthStep(d, v0, l0, c0, c1, at);
    if !ok {
      WriteRoom(d.g, l0, c0, l1, c1, at, 0, count);
      assert user[..0] == [];
      return 0;
    }
    var ret := TransferAll(d, f, user, count, true);
    FileOpen(d, f);
    GrownLonger(l1, c1, d.links, f.chain);
    GrownMore(l0, c0, l1, c1, d.links, f.chain);
    ExtendedWrite(d, v0, c0, v1, c1, d.cache.view, f.chain, at, user[..ret]);
    if ret > 0 {
      WrittenBelow(d, v0, c0, d.cache.view, f.chain, at, user[..ret]);
    }
    WriteRoom(d.g, l0, c0, d.links, f.chain, at, ret, count);
    return ret;
  }

  /** `rwblock` with XFR_WRITE and nothing to write. */
  method Truncate(d: Dpb, f: FNode) returns (r: int)
    requires Open(d, f)
    modifies d, d.cache, f
    ensures Open(d, f) && TruncateDone(d, f, r)
  {
    hide Dpb.Valid, Free, RelCluster, FNode.Ok, GrownSo, FatStep, IsChain, CS.Sized, Bytes, Shrinks, Grows, Resized;
    ghost var v0, l0, c0 := d.cache.view, d.links, f.chain;
    FileOpen(d, f);
    var ok := DosExtend(d, f);
    FileOpen(d, f);
    ghost var v1, l1, c1 := d.cache.view, d.links, f.chain;
    ExtendRoom(d.g, l0, c0, l1, c1, f.offset);
    if !ok {
      return 0;
    }
    f.dirSize := f.offset;
    ok := ShrinkFile(d, f);
    FatStepMore(d, v0, v1, d.cache.view);
    if !ok {
      return DE_ACCESS;
    }
    GrownThenCut(l0, c0, l1, c1, d.links, f.chain);
    return 0;
  }

  /** When the position has a cluster after `dos_extend`. */
  lemma ExtendRoom(g: Geometry, l0: Links, c0: Chain, links: Links, ch: Chain, at: nat)
    requires g.Ok() && GrownSo(l0, c0, links, ch)
    ensures RelCluster(g, at) < |ch| ==> at < Bytes(g, |c0| + Free(l0)) && ClustersFor(g, at) <= |ch|
    ensures |ch| <= RelCluster(g, at) && Free(links) == 0 ==> Bytes(g, |c0| + Free(l0)) <= at
  {
    hide Bytes, RelCluster, Free, Grows;
    BytesMono(g, |ch|, |c0| + Free(l0));
    HasCluster(g, |ch|, at);
    if at > 0 {
      HasCluster(g, |ch|, at - 1);
    }
  }

  lemma GrownThenCut(l0: Links, c0: Chain, l1: Links, c1: Chain, l2: Links, c2: Chain)
    requires GrownSo(l0, c0, l1, c1) && Shrinks(l1, c1, l2, c2)
    ensures Resized(l0, c0, l2, c2)
  {}

  /** Reads or writes `count` bytes at the position of the file; a write of none truncates it there. */
  method RwBlock(d: Dpb, f: FNode, user: array<byte>, count: nat, write: bool) returns (r: int)
    requires Open(d, f) && count <= user.Length
    modifies d, d.cache, f, user
    ensures Open(d, f)
    ensures !write ==> ReadDone(d, f, user, count, r)
    ensures write && count > 0 ==> WriteDone(d, f, user, count, r)
    ensures write && count == 0 ==> TruncateDone(d, f, r) && user[..] == old(user[..])
  {
    hide *;
    if !write {
      r := ReadFile(d, f, user, count);
    } else if count == 0 {
      r := Truncate(d, f);
    } else {
      r := WriteFile(d, f, user, count);
    }
  }

  // ---------- what its users rely on ----------

  /** A write transfers all its bytes just if the clusters of the file and the free ones suffice for them. */
  lemma WritesAllIff(g: Geometry, n: nat, at: nat, count: nat)
    requires g.Ok() && count > 0
    ensures Clip(count, at, Bytes(g, n)) == count <==> ClustersFor(g, at + count) <= n
  {
    hide Bytes, RelCluster;
    HasCluster(g, n, at + count - 1);
  }

  /** Another file keeps its chain and its bytes while this one is written. */
  lemma OtherFileKept(d: Dpb, v0: Disk, l0: Links, c0: Chain, ch: Chain, at: nat, data: seq<byte>, other: Chain)
    requires d.Valid() && FileStep(d, v0, c0, d.cache.view, ch, at, data) && GrownSo(l0, c0, d.links, ch)
    requires IsFileChain(l0, c0) && IsFileChain(l0, other) && Disjoint(c0, other) && CS.Sized(d.g.secsize, v0)
    ensures IsFileChain(d.links, other) && Disjoint(ch, other) && Clusters(other) && d.g.secsize > 0
    ensures CS.Sized(d.g.secsize, d.cache.view)
    ensures Content(d.g, d.cache.view, other) == Content(d.g, v0, other)
  {
    hide Dpb.Valid, Content, Spliced, FileOnly, Clusters, CS.Sized, IsChain;
    if other == [] {
      ChainClusters(d.links, other);
    } else {
      GrowsApart(l0, c0, d.links, ch, other);
    }
    FileIn(d, other);
    OtherContent(d.cache.geo, d.g, v0, d.cache.view, ch, other);
  }

  /** Truncating a file, or extending it without writing, keeps the bytes that are still there. */
  lemma ResizeKeepsBytes(d: Dpb, v0: Disk, l0: Links, c0: Chain, ch: Chain)
    requires d.Valid() && FatStep(d, v0, d.cache.view) && Resized(l0, c0, d.links, ch) && IsFile(d.g, v0, c0)
    ensures IsFile(d.g, d.cache.view, ch)
    ensures forall i :: 0 <= i < |Content(d.g, v0, c0)| && i < |Content(d.g, d.cache.view, ch)| ==>
              Content(d.g, d.cache.view, ch)[i] == Content(d.g, v0, c0)[i]
  {
    hide Dpb.Valid, Content, IsChain, CS.Sized;
    ResizedPrefix(l0, c0, d.links, ch);
    FileIn(d, ch);
    if |ch| <= |c0| {
      PrefixBytes(d.cache.geo, d.g, d.cache.view, v0, ch, c0);
    } else {
      PrefixBytes(d.cache.geo, d.g, v0, d.cache.view, c0, ch);
    }
  }

  /** Another file keeps its chain and its bytes while this one is truncated or extended. */
  lemma TruncateSparesOther(d: Dpb, v0: Disk, l0: Links, c0: Chain, ch: Chain, other: Chain)
    requires d.Valid() && FatStep(d, v0, d.cache.view) && Resized(l0, c0, d.links, ch) && CS.Sized(d.g.secsize, v0)
    requires IsFileChain(l0, c0) && IsFileChain(l0, other) && Disjoint(c0, other)
    ensures IsFileChain(d.links, other) && Disjoint(ch, other) && Clusters(other) && d.g.secsize > 0
    ensures CS.Sized(d.g.secsize, d.cache.view)
    ensures Content(d.g, d.cache.view, other) == Content(d.g, v0, other)
  {
    hide Dpb.Valid, Content, FatStep, Clusters, CS.Sized, IsChain;
    if other == [] {
      ChainClusters(d.links, other);
    } else {
      var l1, c1 :| GrownSo(l0, c0, l1, c1) && Shrinks(l1, c1, d.links, ch);
      GrowsApart(l0, c0, l1, c1, other);
      ShrinksApart(l1, c1, d.links, ch, other);
    }
    FileIn(d, other);
    FatStepContent(d, v0, other);
  }

  lemma FatStepContent(d: Dpb, v0: Disk, other: Chain)
    requires d.Valid() && FatStep(d, v0, d.cache.view) && CS.Sized(d.g.secsize, v0)
             && CS.Sized(d.g.secsize, d.cache.view)
    requires Clusters(other) && d.g.secsize > 0
    ensures Content(d.g, d.cache.view, other) == Content(d.g, v0, other)
  {
    hide Content;
    OtherContent(d.cache.geo, d.g, v0, d.cache.view, [], other);
  }

  lemma PrefixBytes(geo: Layouts, g: Geometry, v: Disk, v': Disk, ch: Chain, ch': Chain)
    requires g.Ok() && geo(g.unit) == g.Layout() && IsFile(g, v, ch) && IsFile(g, v', ch')
    requires |ch| <= |ch'| && ch'[..|ch|] == ch && FatOnly(g, v, v')
    ensures forall i :: 0 <= i < |Content(g, v, ch)| ==>
              i < |Content(g, v', ch')| && Content(g, v', ch')[i] == Content(g, v, ch)[i]
  {
    hide Content, Geometry.Ok;
    GrowContent(geo, g, v, v', ch, ch');
    var b, b' := Content(g, v, ch), Content(g, v', ch');
    forall i | 0 <= i < |b| ensures b'[i] == b[i] {
      assert b'[i] == b'[..|b|][i];
    }
  }

  lemma ResizedPrefix(l0: Links, c0: Chain, links: Links, ch: Chain)
    requires Resized(l0, c0, links, ch)
    ensures IsFileChain(links, ch)
    ensures if |ch| <= |c0| then c0[..|ch|] == ch else ch[..|c0|] == c0
  {
    hide IsFileChain;
    var l1, c1 :| GrownSo(l0, c0, l1, c1) && Shrinks(l1, c1, links, ch);
    if |ch| <= |c0| {
      assert c1[..|c0|][..|ch|] == c1[..|ch|];
    } else {
      assert c1[..|ch|][..|c0|] == c1[..|c0|];
    }
  }

  /** Writing `count` bytes, going back and reading them again gives the bytes written, if all were. */
  method WriteThenRead(d: Dpb, f: FNode, user: array<byte>, back: array<byte>, count: nat) returns (w: int, r: int)
    requires Open(d, f) && 0 < count <= user.Length && count <= back.Length && user != back
    modifies d, d.cache, f, user, back
    ensures Open(d, f) && 0 <= w == r <= count
    ensures w == Clip(count, old(f.offset), Bytes(d.g, |old(f.chain)| + Free(old(d.links))))
    ensures back[..w] == user[..w] == old(user[..w])
  {
    hide Dpb.Valid, Free, RelCluster, FNode.Ok, FatStep, IsChain, CS.Sized, Bytes, GrownSo, Content, Clusters, FileOnly;
    var position := f.offset;
    ghost var v0, c0 := d.cache.view, f.chain;
    w := WriteFile(d, f, user, count);
    f.offset := position;
    ghost var v1, c1, u := d.cache.view, f.chain, user[..];
    ghost var b := back[..];
    r := ReadFile(d, f, back, w);
    ReadsWritten(d, v0, c0, v1, c1, position, u[..w], f.dirSize, b, back[..]);
  }

  lemma ReadsWritten(d: Dpb, v0: Disk, c0: Chain, v1: Disk, c1: Chain, at: nat, data: seq<byte>, dirSize: nat,
                     b: seq<byte>, b': seq<byte>)
    requires FileStep(d, v0, c0, v1, c1, at, data) && (data != [] ==> at + |data| <= dirSize)
    requires |data| <= |b| == |b'|
    ensures Clip(|data|, at, Min(dirSize, Bytes(d.g, |c1|))) == |data|
    ensures ReadAt(d.g, v1, c1, at, |data|, b, b', 0) ==> b'[..|data|] == data
  {
    hide Clusters, CS.Sized, FileOnly;
    if data != [] {
      WrittenBelow(d, v0, c0, v1, c1, at, data);
      var c := Content(d.g, v1, c1);
      assert c[at..at + |data|] == data;
    }
  }

  // ---------- positions fit 32 bits ----------

  lemma {:induction false} DistinctCount(ch: Chain, n: nat)
    requires (forall i, j :: 0 <= i < j < |ch| ==> ch[i] != ch[j]) && forall i :: 0 <= i < |ch| ==> 2 <= ch[i] < n
    ensures |ch| <= if n < 2 then 0 else n - 2
    decreases n
  {
    if ch != [] {
      assert 2 <= ch[0] < n;
      var without := Without(ch, n - 1);
      DistinctCount(without, n - 1);
    }
  }

  /** A chain without one of its clusters. */
  lemma Without(ch: Chain, c: nat) returns (r: Chain)
    requires forall i, j :: 0 <= i < j < |ch| ==> ch[i] != ch[j]
    ensures (forall i, j :: 0 <= i < j < |r| ==> r[i] != r[j]) && |r| >= |ch| - 1
    ensures forall i :: 0 <= i < |r| ==> r[i] in ch && r[i] != c
  {
    if c in ch {
      var k :| 0 <= k < |ch| && ch[k] == c;
      r := ch[..k] + ch[k + 1..];
    } else {
      r := ch;
    }
  }

  /** With sectors of 512 bytes and at most 128 to a cluster no position inside a file passes 2^32: the unsigned
      32-bit arithmetic on positions and sizes never wraps. */
  lemma PositionsFit(g: Geometry, links: Links, ch: Chain)
    requires g.secsize <= 512 && g.clsmask < 0x80 && g.size <= FAT_MAGIC16 && IsChain(links, ch)
             && |links| == g.size + 1
    ensures Bytes(g, |ch|) < 0x1_0000_0000
  {
    ChainsDiffer(links, ch);
    DistinctCount(ch, |links|);
    MulMono(|ch|, g.size - 1, Spc(g));
    assert (g.size - 1) * Spc(g) <= (g.size - 1) * 0x80 by {
      MulMono(Spc(g), 0x80, g.size - 1);
    }
    MulMono(|ch| * Spc(g), (g.size - 1) * 0x80, g.secsize);
    MulMono(g.secsize, 512, (g.size - 1) * 0x80);
  }
}
