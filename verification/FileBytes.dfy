/**
 A chain of clusters as a file of bytes.
 */
module FileBytes {
  import opened Arithmetic
  import opened Disks
  import opened FatFormat
  import opened FatTab
  import opened Chains
  import CS = CacheSpec
  import BlockIO

  function Spc(g: Geometry): nat { g.clsmask + 1 }

  /** First sector of cluster `c`. */
  function Clus2Phys(g: Geometry, c: nat): int
    requires c >= 2
  {
    Shl(c - 2, g.shftcnt) + g.data
  }

  lemma Clus2PhysIs(g: Geometry, c: nat)
    requires g.Ok() && c >= 2
    ensures Clus2Phys(g, c) == (c - 2) * Spc(g) + g.data >= g.data
  {
    ShlIs(c - 2, g.shftcnt);
    MulMono(0, c - 2, Spc(g));
  }

  /** Sector `k` belongs to cluster `c`. */
  ghost predicate ClusterHas(g: Geometry, c: nat, k: Block)
    requires c >= 2
  {
    k.unit == g.unit && Clus2Phys(g, c) <= k.no < Clus2Phys(g, c) + Spc(g)
  }

  lemma ClustersApart(g: Geometry, c: nat, c': nat, k: Block)
    requires g.Ok() && 2 <= c && 2 <= c' && ClusterHas(g, c, k) && ClusterHas(g, c', k)
    ensures c == c'
  {
    Clus2PhysIs(g, c);
    Clus2PhysIs(g, c');
    if c < c' {
      MulMono(c - 2 + 1, c' - 2, Spc(g));
    } else if c' < c {
      MulMono(c' - 2 + 1, c - 2, Spc(g));
    }
  }

  /** The data area holds no FAT sector. */
  lemma ClusterOutsideFat(geo: Layouts, g: Geometry, c: nat, k: Block)
    requires g.Ok() && geo(g.unit) == g.Layout() && c >= 2 && ClusterHas(g, c, k)
    ensures !InAnyFat(g, k) && !InFat(geo, k) && !InMirror(geo, k)
  {
    Clus2PhysIs(g, c);
    MulMono(1, g.fats, g.fatsize);
  }

  // ---------- sectors of a file ----------

  ghost predicate Clusters(ch: Chain) {
    && (forall i :: 0 <= i < |ch| ==> 2 <= ch[i])
    && (forall i, j :: 0 <= i < j < |ch| ==> ch[i] != ch[j])
  }

  lemma ChainClusters(links: Links, ch: Chain)
    requires IsFileChain(links, ch)
    ensures Clusters(ch)
  {
    if ch != [] {
      ChainsDiffer(links, ch);
    }
  }

  function SectorCount(g: Geometry, ch: Chain): nat { |ch| * Spc(g) }

  /** Number of the cluster, and of the sector within it, of file sector `j`. */
  function ClusterOf(g: Geometry, j: nat): nat { Div(j, Spc(g)) }

  function SectorOf(g: Geometry, j: nat): (s: nat)
    ensures s < Spc(g)
  {
    j % Spc(g)
  }

  lemma SectorSplit(g: Geometry, j: nat)
    ensures j == ClusterOf(g, j) * Spc(g) + SectorOf(g, j)
  {}

  lemma SectorJoin(g: Geometry, i: nat, s: nat)
    requires s < Spc(g)
    ensures ClusterOf(g, i * Spc(g) + s) == i && SectorOf(g, i * Spc(g) + s) == s
  {
    DivModUnique(i * Spc(g) + s, Spc(g), i, s);
  }

  lemma ClusterBelow(g: Geometry, ch: Chain, j: nat)
    requires j < SectorCount(g, ch)
    ensures ClusterOf(g, j) < |ch|
  {
    QuotientBelow(j, Spc(g), |ch|);
  }

  /** The block of file sector `j`. */
  ghost function FileBlock(g: Geometry, ch: Chain, j: nat): Block
    requires j < SectorCount(g, ch) && Clusters(ch)
  {
    ClusterBelow(g, ch, j);
    Block(g.unit, Clus2Phys(g, ch[ClusterOf(g, j)]) + SectorOf(g, j))
  }

  lemma FileBlockIn(g: Geometry, ch: Chain, j: nat)
    requires j < SectorCount(g, ch) && Clusters(ch)
    ensures ClusterOf(g, j) < |ch| && ClusterHas(g, ch[ClusterOf(g, j)], FileBlock(g, ch, j))
  {
    ClusterBelow(g, ch, j);
  }

  lemma FileBlockInjective(g: Geometry, ch: Chain, j: nat, j': nat)
    requires g.Ok() && j < SectorCount(g, ch) && j' < SectorCount(g, ch) && Clusters(ch)
    requires FileBlock(g, ch, j) == FileBlock(g, ch, j')
    ensures j == j'
  {
    FileBlockIn(g, ch, j);
    FileBlockIn(g, ch, j');
    ClustersApart(g, ch[ClusterOf(g, j)], ch[ClusterOf(g, j')], FileBlock(g, ch, j));
    SectorSplit(g, j);
    SectorSplit(g, j');
  }

  /** The sectors of a file, in order. */
  ghost function Sectors(g: Geometry, v: Disk, ch: Chain): (r: seq<Sector>)
    requires Clusters(ch)
    ensures |r| == SectorCount(g, ch)
  {
    seq(SectorCount(g, ch), j requires 0 <= j < SectorCount(g, ch) => v[FileBlock(g, ch, j)])
  }

  // ---------- sectors as bytes ----------

  /** Sectors of `n` bytes laid end to end. */
  function Flat(n: nat, secs: seq<Sector>): (b: seq<byte>)
    requires CS.AllSized(n, secs) && n > 0
    ensures |b| == |secs| * n
  {
    seq(|secs| * n, i requires 0 <= i < |secs| * n => (QuotientBelow(i, n, |secs|); secs[i / n][i % n]))
  }

  lemma FlatAt(n: nat, secs: seq<Sector>, j: nat, r: nat)
    requires CS.AllSized(n, secs) && n > 0 && j < |secs| && r < n
    ensures 0 <= j * n + r < |secs| * n && Flat(n, secs)[j * n + r] == secs[j][r]
  {
    MulMono(j + 1, |secs|, n);
    DivModUnique(j * n + r, n, j, r);
  }

  /** Bytes cut into sectors of `n`. */
  function Chunks(n: nat, b: seq<byte>, m: nat): (secs: seq<Sector>)
    requires |b| == m * n
    ensures |secs| == m && CS.AllSized(n, secs)
  {
    seq(m, j requires 0 <= j < m => Chunk(n, b, m, j))
  }

  function Chunk(n: nat, b: seq<byte>, m: nat, j: nat): (r: Sector)
    requires |b| == m * n && j < m
    ensures |r| == n
  {
    ChunkBounds(n, m, j);
    b[j * n..j * n + n]
  }

  lemma ChunkBounds(n: nat, m: nat, j: nat)
    requires j < m
    ensures 0 <= j * n <= j * n + n <= m * n
  {
    MulMono(j + 1, m, n);
  }

  lemma ChunkAt(n: nat, b: seq<byte>, m: nat, j: nat, r: nat)
    requires |b| == m * n && j < m && r < n
    ensures 0 <= j * n + r < |b| && Chunks(n, b, m)[j][r] == b[j * n + r]
  {
    MulMono(j + 1, m, n);
  }

  lemma FlatChunks(n: nat, b: seq<byte>, m: nat)
    requires |b| == m * n && n > 0
    ensures Flat(n, Chunks(n, b, m)) == b
  {
    forall i | 0 <= i < |b| ensures Flat(n, Chunks(n, b, m))[i] == b[i] {
      FlatChunksAt(n, b, m, i);
    }
  }

  lemma FlatChunksAt(n: nat, b: seq<byte>, m: nat, i: nat)
    requires |b| == m * n && n > 0 && i < |b|
    ensures Flat(n, Chunks(n, b, m))[i] == b[i]
  {
    hide Flat, Chunks;
    ByteSplit(n, m, i);
    FlatAt(n, Chunks(n, b, m), i / n, i % n);
    ChunkAt(n, b, m, i / n, i % n);
  }

  /** Where byte `i` of a row of sectors lies. */
  lemma ByteSplit(n: nat, m: nat, i: nat)
    requires n > 0 && i < m * n
    ensures 0 <= i / n < m && 0 <= i % n < n && i == i / n * n + i % n
  {
    QuotientBelow(i, n, m);
  }

  /** Patching one sector patches the bytes. */
  lemma FlatPatch(n: nat, secs: seq<Sector>, j: nat, at: nat, bytes: seq<byte>)
    requires CS.AllSized(n, secs) && n > 0 && j < |secs| && at + |bytes| <= n
    ensures CS.AllSized(n, secs[j := Patched(secs[j], at, bytes)])
    ensures j * n + at + |bytes| <= |secs| * n
    ensures Flat(n, secs[j := Patched(secs[j], at, bytes)]) == Patched(Flat(n, secs), j * n + at, bytes)
  {
    MulMono(j + 1, |secs|, n);
    var secs' := secs[j := Patched(secs[j], at, bytes)];
    forall i | 0 <= i < |secs| * n
      ensures Flat(n, secs')[i] == Patched(Flat(n, secs), j * n + at, bytes)[i]
    {
      FlatPatchAt(n, secs, j, at, bytes, i);
    }
  }

  lemma FlatPatchAt(n: nat, secs: seq<Sector>, j: nat, at: nat, bytes: seq<byte>, i: nat)
    requires CS.AllSized(n, secs) && n > 0 && j < |secs| && at + |bytes| <= n && i < |secs| * n
    requires j * n + at + |bytes| <= |secs| * n && CS.AllSized(n, secs[j := Patched(secs[j], at, bytes)])
    ensures Flat(n, secs[j := Patched(secs[j], at, bytes)])[i]
         == Patched(Flat(n, secs), j * n + at, bytes)[i]
  {
    var secs' := secs[j := Patched(secs[j], at, bytes)];
    var q, r := i / n, i % n;
    ByteSplit(n, |secs|, i);
    FlatAt(n, secs, q, r);
    FlatAt(n, secs', q, r);
    hide Flat;
    SameSector(n, j, at, |bytes|, q, r);
  }

  /** Byte `r` of sector `q` lies in the `m` bytes from byte `at` of sector `j` just if it does there. */
  lemma SameSector(n: nat, j: nat, at: nat, m: nat, q: nat, r: nat)
    requires at + m <= n && r < n
    ensures j * n + at <= q * n + r < j * n + at + m <==> q == j && at <= r < at + m
  {
    if q < j {
      MulMono(q + 1, j, n);
    } else if j < q {
      MulMono(j + 1, q, n);
    }
  }

  /** `secs` with `new_` laid over it from sector `j` on. */
  function Overlay(secs: seq<Sector>, j: nat, new_: seq<Sector>): (r: seq<Sector>)
    requires j + |new_| <= |secs|
  {
    secs[..j] + new_ + secs[j + |new_|..]
  }

  lemma OverlaySized(n: nat, secs: seq<Sector>, j: nat, new_: seq<Sector>)
    requires CS.AllSized(n, secs) && CS.AllSized(n, new_) && j + |new_| <= |secs|
    ensures CS.AllSized(n, Overlay(secs, j, new_)) && |Overlay(secs, j, new_)| == |secs|
  {}

  /** Replacing a run of sectors replaces a run of bytes. */
  lemma FlatOverlay(n: nat, secs: seq<Sector>, j: nat, new_: seq<Sector>)
    requires CS.AllSized(n, secs) && CS.AllSized(n, new_) && n > 0 && j + |new_| <= |secs|
    requires CS.AllSized(n, Overlay(secs, j, new_)) && j * n + |new_| * n <= |secs| * n
    ensures Flat(n, Overlay(secs, j, new_)) == Patched(Flat(n, secs), j * n, Flat(n, new_))
  {
    forall i | 0 <= i < |secs| * n
      ensures Flat(n, Overlay(secs, j, new_))[i] == Patched(Flat(n, secs), j * n, Flat(n, new_))[i]
    {
      FlatOverlayAt(n, secs, j, new_, i);
    }
  }

  lemma FlatOverlayAt(n: nat, secs: seq<Sector>, j: nat, new_: seq<Sector>, i: nat)
    requires CS.AllSized(n, secs) && CS.AllSized(n, new_) && n > 0 && j + |new_| <= |secs| && i < |secs| * n
    requires CS.AllSized(n, Overlay(secs, j, new_)) && j * n + |new_| * n <= |secs| * n
    ensures Flat(n, Overlay(secs, j, new_))[i] == Patched(Flat(n, secs), j * n, Flat(n, new_))[i]
  {
    var q, r, m := i / n, i % n, |new_|;
    ByteSplit(n, |secs|, i);
    FlatAt(n, secs, q, r);
    FlatAt(n, Overlay(secs, j, new_), q, r);
    if j <= q < j + m {
      FlatAt(n, new_, q - j, r);
    }
    hide Flat;
    RunBounds(n, j, m, q, r);
  }

  lemma RunBounds(n: nat, j: nat, m: nat, q: nat, r: nat)
    requires r < n
    ensures j * n <= q * n + r < j * n + m * n <==> j <= q < j + m
    ensures (q - j) * n + r == q * n + r - j * n
  {
    if q < j {
      MulMono(q + 1, j, n);
    } else if j + m <= q {
      MulMono(j + m, q, n);
    } else {
      MulMono(j, q, n);
      MulMono(q + 1, j + m, n);
    }
  }

  // ---------- the bytes of a file ----------

  lemma SectorsSized(g: Geometry, v: Disk, ch: Chain)
    requires Clusters(ch) && CS.Sized(g.secsize, v)
    ensures CS.AllSized(g.secsize, Sectors(g, v, ch))
  {}

  /** All bytes the clusters of a file hold; the file proper is a prefix. */
  ghost function Content(g: Geometry, v: Disk, ch: Chain): (b: seq<byte>)
    requires Clusters(ch) && CS.Sized(g.secsize, v) && g.secsize > 0
    ensures |b| == SectorCount(g, ch) * g.secsize
  {
    SectorsSized(g, v, ch);
    Flat(g.secsize, Sectors(g, v, ch))
  }

  /** Only sectors of the FAT and of the clusters of `ch` differ. */
  ghost predicate FileOnly(g: Geometry, v: Disk, v': Disk, ch: Chain) {
    forall k :: v'[k] == v[k] || InAnyFat(g, k) || InClusters(g, ch, k)
  }

  ghost predicate InClusters(g: Geometry, ch: Chain, k: Block) {
    exists i :: 0 <= i < |ch| && 2 <= ch[i] && ClusterHas(g, ch[i], k)
  }

  /** One sector of the file overwritten from byte `at` of it, `off` of the file, on. */
  lemma WriteSector(geo: Layouts, g: Geometry, v: Disk, ch: Chain, j: nat, k: Block, at: nat, bytes: seq<byte>,
                    off: nat)
    requires g.Ok() && Clusters(ch) && CS.Sized(g.secsize, v) && at + |bytes| <= g.secsize == |v[k]|
    requires j < SectorCount(g, ch) && k == FileBlock(g, ch, j) && off == j * g.secsize + at
    ensures var v' := CS.Stored(geo, v, k, false, Patched(v[k], at, bytes));
      && CS.Sized(g.secsize, v') && FileOnly(g, v, v', ch)
      && off + |bytes| <= |Content(g, v, ch)|
      && Content(g, v', ch) == Patched(Content(g, v, ch), off, bytes)
  {
    var v' := CS.Stored(geo, v, k, false, Patched(v[k], at, bytes));
    SectorsSized(g, v, ch);
    FileBlockIn(g, ch, j);
    FlatPatch(g.secsize, Sectors(g, v, ch), j, at, bytes);
    assert Sectors(g, v', ch) == Sectors(g, v, ch)[j := Patched(v[k], at, bytes)] by {
      forall j' | 0 <= j' < SectorCount(g, ch) && j' != j ensures FileBlock(g, ch, j') != k {
        if FileBlock(g, ch, j') == k {
          FileBlockInjective(g, ch, j, j');
        }
      }
    }
  }

  // ---------- runs of adjacent sectors ----------

  /** Sector `t` of the run. */
  ghost predicate RunAt(g: Geometry, ch: Chain, j: nat, no: int, t: nat)
    requires Clusters(ch)
  {
    j + t < SectorCount(g, ch) && FileBlock(g, ch, j + t) == Block(g.unit, no + t)
  }

  /** File sectors j..j+n-1 lie one after the other on the disk, from block `no` on. */
  ghost predicate Contiguous(g: Geometry, ch: Chain, j: nat, no: int, n: nat)
    requires Clusters(ch)
  {
    j + n <= SectorCount(g, ch) && forall t: nat :: t < n ==> RunAt(g, ch, j, no, t)
  }

  lemma ContiguousStart(g: Geometry, ch: Chain, i: nat, s: nat, n: nat)
    requires Clusters(ch) && i < |ch| && s + n <= Spc(g)
    ensures Contiguous(g, ch, i * Spc(g) + s, Clus2Phys(g, ch[i]) + s, n)
  {
    hide Clus2Phys;
    MulMono(i + 1, |ch|, Spc(g));
    var j, no := i * Spc(g) + s, Clus2Phys(g, ch[i]) + s;
    forall t: nat | t < n ensures RunAt(g, ch, j, no, t) {
      SectorJoin(g, i, s + t);
    }
  }

  lemma ContiguousMore(g: Geometry, ch: Chain, j: nat, no: int, n: nat, i: nat, m: nat)
    requires Clusters(ch) && Contiguous(g, ch, j, no, n) && i < |ch| && m <= Spc(g)
    requires j + n == i * Spc(g) && Clus2Phys(g, ch[i]) == no + n
    ensures Contiguous(g, ch, j, no, n + m)
  {
    hide Clus2Phys, FileBlock, Spc;
    ContiguousStart(g, ch, i, 0, m);
    forall t: nat | t < n + m ensures RunAt(g, ch, j, no, t) {
      if t >= n {
        assert RunAt(g, ch, i * Spc(g) + 0, Clus2Phys(g, ch[i]) + 0, t - n);
      }
    }
  }

  /** A longer chain keeps the blocks of its prefix. */
  lemma PrefixBlocks(g: Geometry, ch: Chain, ch': Chain, j: nat)
    requires Clusters(ch) && Clusters(ch') && |ch| <= |ch'| && ch'[..|ch|] == ch && j < SectorCount(g, ch)
    ensures j < SectorCount(g, ch') && FileBlock(g, ch', j) == FileBlock(g, ch, j)
  {
    MulMono(|ch|, |ch'|, Spc(g));
    ClusterBelow(g, ch, j);
    assert ch'[ClusterOf(g, j)] == ch'[..|ch|][ClusterOf(g, j)];
  }

  lemma PrefixContiguous(g: Geometry, ch: Chain, ch': Chain, j: nat, no: int, n: nat)
    requires Clusters(ch) && Clusters(ch') && |ch| <= |ch'| && ch'[..|ch|] == ch && Contiguous(g, ch, j, no, n)
    ensures Contiguous(g, ch', j, no, n)
  {
    MulMono(|ch|, |ch'|, Spc(g));
    hide Clusters, FileBlock;
    forall t: nat | t < n ensures RunAt(g, ch', j, no, t) {
      RunIs(g, ch, j, no, n, t);
      PrefixBlocks(g, ch, ch', j + t);
    }
  }

  /** A block of the run is a sector of the file, in one of its clusters. */
  lemma RunBlock(g: Geometry, ch: Chain, j: nat, no: int, n: nat, k: Block)
    requires Clusters(ch) && Contiguous(g, ch, j, no, n) && k.unit == g.unit && no <= k.no < no + n
    ensures j + (k.no - no) < SectorCount(g, ch) && FileBlock(g, ch, j + (k.no - no)) == k
    ensures ClusterOf(g, j + (k.no - no)) < |ch| && 2 <= ch[ClusterOf(g, j + (k.no - no))]
    ensures ClusterHas(g, ch[ClusterOf(g, j + (k.no - no))], k)
  {
    hide FileBlock, ClusterHas;
    assert RunAt(g, ch, j, no, k.no - no);
    FileBlockIn(g, ch, j + (k.no - no));
  }

  lemma RunOutsideFat(geo: Layouts, g: Geometry, ch: Chain, j: nat, no: int, n: nat)
    requires g.Ok() && geo(g.unit) == g.Layout() && Clusters(ch) && Contiguous(g, ch, j, no, n)
    ensures CS.OutsideFat(geo, g.unit, no, n)
  {
    hide Clusters, Contiguous, FileBlock, ClusterHas, InFat, InMirror, Geometry.Ok;
    forall k: Block | k.unit == g.unit && no <= k.no < no + n ensures !InFat(geo, k) && !InMirror(geo, k) {
      RunBlock(g, ch, j, no, n, k);
      ClusterOutsideFat(geo, g, ch[ClusterOf(g, j + (k.no - no))], k);
    }
  }

  /** Reading a run of blocks reads the bytes of those sectors. */
  lemma ReadRunBytes(g: Geometry, v: Disk, ch: Chain, j: nat, no: int, n: nat)
    requires g.Ok() && Clusters(ch) && CS.Sized(g.secsize, v) && Contiguous(g, ch, j, no, n)
    ensures CS.AllSized(g.secsize, CS.RunOf(v, g.unit, no, n))
    ensures 0 <= j * g.secsize <= (j + n) * g.secsize <= |Content(g, v, ch)|
    ensures Flat(g.secsize, CS.RunOf(v, g.unit, no, n)) == Content(g, v, ch)[j * g.secsize..(j + n) * g.secsize]
  {
    hide Clusters, Flat, FileBlock, SectorCount;
    var run := CS.RunOf(v, g.unit, no, n);
    SectorsSized(g, v, ch);
    MulMono(j + n, SectorCount(g, ch), g.secsize);
    MulMono(j, j + n, g.secsize);
    MulMono(0, j, g.secsize);
    forall t | 0 <= t < n ensures run[t] == Sectors(g, v, ch)[j + t] {
      RunIs(g, ch, j, no, n, t);
    }
    FlatSlice(g.secsize, Sectors(g, v, ch), j, run);
  }

  lemma FlatSlice(n: nat, secs: seq<Sector>, j: nat, part: seq<Sector>)
    requires CS.AllSized(n, secs) && CS.AllSized(n, part) && n > 0 && j + |part| <= |secs|
    requires forall t :: 0 <= t < |part| ==> part[t] == secs[j + t]
    requires 0 <= j * n <= (j + |part|) * n <= |secs| * n
    ensures Flat(n, part) == Flat(n, secs)[j * n..(j + |part|) * n]
  {
    hide CS.AllSized;
    assert (j + |part|) * n == j * n + |part| * n;
    forall i | 0 <= i < |part| * n ensures j * n + i < |secs| * n && Flat(n, part)[i] == Flat(n, secs)[j * n + i] {
      FlatSliceAt(n, secs, j, part, i);
    }
  }

  lemma FlatSliceAt(n: nat, secs: seq<Sector>, j: nat, part: seq<Sector>, i: nat)
    requires CS.AllSized(n, secs) && CS.AllSized(n, part) && n > 0 && j + |part| <= |secs| && i < |part| * n
    requires forall t :: 0 <= t < |part| ==> part[t] == secs[j + t]
    ensures 0 <= j * n + i < |secs| * n && Flat(n, part)[i] == Flat(n, secs)[j * n + i]
  {
    hide Flat, CS.AllSized;
    var q, r := i / n, i % n;
    ByteSplit(n, |part|, i);
    FlatAt(n, part, q, r);
    FlatAt(n, secs, j + q, r);
    assert (j + q) * n == j * n + q * n;
  }

  /** Writing a run of blocks writes the bytes of those sectors. */
  lemma WriteRunBytes(g: Geometry, v: Disk, ch: Chain, j: nat, no: int, new_: seq<Sector>)
    requires g.Ok() && Clusters(ch) && CS.Sized(g.secsize, v) && CS.AllSized(g.secsize, new_)
    requires Contiguous(g, ch, j, no, |new_|)
    ensures var v' := CS.WriteRun(v, g.unit, no, new_);
      && CS.Sized(g.secsize, v') && FileOnly(g, v, v', ch)
      && 0 <= j * g.secsize && j * g.secsize + |new_| * g.secsize <= |Content(g, v, ch)|
      && Content(g, v', ch) == Patched(Content(g, v, ch), j * g.secsize, Flat(g.secsize, new_))
  {
    hide Flat, Sectors, Overlay, FileOnly, SectorCount, Clusters, Patched;
    var v' := CS.WriteRun(v, g.unit, no, new_);
    SectorsSized(g, v, ch);
    WriteRunOnly(g, v, ch, j, no, new_);
    WriteRunSectors(g, v, ch, j, no, new_);
    OverlaySized(g.secsize, Sectors(g, v, ch), j, new_);
    MulMono(j + |new_|, SectorCount(g, ch), g.secsize);
    MulMono(0, j, g.secsize);
    assert (j + |new_|) * g.secsize == j * g.secsize + |new_| * g.secsize;
    FlatOverlay(g.secsize, Sectors(g, v, ch), j, new_);
  }

  lemma WriteRunOnly(g: Geometry, v: Disk, ch: Chain, j: nat, no: int, new_: seq<Sector>)
    requires Clusters(ch) && Contiguous(g, ch, j, no, |new_|)
    ensures FileOnly(g, v, CS.WriteRun(v, g.unit, no, new_), ch)
  {
    hide Contiguous, FileBlock, ClusterHas;
    forall k: Block | k.unit == g.unit && no <= k.no < no + |new_| ensures InClusters(g, ch, k) {
      RunBlock(g, ch, j, no, |new_|, k);
    }
  }

  lemma WriteRunSectors(g: Geometry, v: Disk, ch: Chain, j: nat, no: int, new_: seq<Sector>)
    requires g.Ok() && Clusters(ch) && Contiguous(g, ch, j, no, |new_|)
    ensures Sectors(g, CS.WriteRun(v, g.unit, no, new_), ch) == Overlay(Sectors(g, v, ch), j, new_)
  {
    hide Contiguous, FileBlock, Clusters, CS.WriteRun, Geometry.Ok;
    assert j + |new_| <= SectorCount(g, ch) by {
      RunLength(g, ch, j, no, |new_|);
    }
    var v' := CS.WriteRun(v, g.unit, no, new_);
    forall j' | 0 <= j' < SectorCount(g, ch)
      ensures v'[FileBlock(g, ch, j')] == if j <= j' < j + |new_| then new_[j' - j] else v[FileBlock(g, ch, j')]
    {
      WriteRunSector(g, v, ch, j, no, new_, j');
    }
  }

  lemma RunLength(g: Geometry, ch: Chain, j: nat, no: int, n: nat)
    requires Clusters(ch) && Contiguous(g, ch, j, no, n)
    ensures j + n <= SectorCount(g, ch)
  {}

  lemma WriteRunSector(g: Geometry, v: Disk, ch: Chain, j: nat, no: int, new_: seq<Sector>, j': nat)
    requires g.Ok() && Clusters(ch) && Contiguous(g, ch, j, no, |new_|) && j' < SectorCount(g, ch)
    ensures CS.WriteRun(v, g.unit, no, new_)[FileBlock(g, ch, j')]
         == if j <= j' < j + |new_| then new_[j' - j] else v[FileBlock(g, ch, j')]
  {
    hide Contiguous, FileBlock, Clusters, Geometry.Ok;
    var k := FileBlock(g, ch, j');
    if j <= j' < j + |new_| {
      RunIs(g, ch, j, no, |new_|, j' - j);
    } else if k.unit == g.unit && no <= k.no < no + |new_| {
      RunIs(g, ch, j, no, |new_|, k.no - no);
      FileBlockInjective(g, ch, j + (k.no - no), j');
    }
  }

  lemma RunIs(g: Geometry, ch: Chain, j: nat, no: int, n: nat, t: nat)
    requires Clusters(ch) && Contiguous(g, ch, j, no, n) && t < n
    ensures j + t < SectorCount(g, ch) && FileBlock(g, ch, j + t) == Block(g.unit, no + t)
  {
    assert RunAt(g, ch, j, no, t);
  }

  // ---------- writing a file ----------

  /** `b'` is `b`, possibly longer, with `data` laid over it from `at` on.  Bytes in neither are left open. */
  ghost predicate Spliced(b: seq<byte>, b': seq<byte>, at: nat, data: seq<byte>) {
    && |b| <= |b'| && (data != [] ==> at + |data| <= |b'|)
    && (forall i :: at <= i < at + |data| && i < |b'| ==> b'[i] == data[i - at])
    && (forall i :: 0 <= i < |b| && !(at <= i < at + |data|) ==> b'[i] == b[i])
  }

  /** Two adjacent writes are one. */
  lemma SplicedMore(b0: seq<byte>, b1: seq<byte>, b2: seq<byte>, at: nat, d1: seq<byte>, d2: seq<byte>)
    requires Spliced(b0, b1, at, d1) && Spliced(b1, b2, at + |d1|, d2)
    ensures Spliced(b0, b2, at, d1 + d2)
  {
    forall i | at <= i < at + |d1 + d2| && i < |b2| ensures b2[i] == (d1 + d2)[i - at] {
      if i < at + |d1| {
        assert b2[i] == b1[i];
      }
    }
  }

  lemma PatchedSpliced(b: seq<byte>, at: nat, data: seq<byte>)
    requires at + |data| <= |b|
    ensures Spliced(b, Patched(b, at, data), at, data)
  {}

  lemma GrownSpliced(b: seq<byte>, b': seq<byte>, at: nat)
    requires |b| <= |b'| && b'[..|b|] == b
    ensures Spliced(b, b', at, [])
  {
    assert forall i :: 0 <= i < |b| ==> b'[i] == b'[..|b|][i];
  }

  /** The bytes of a chain are defined. */
  ghost predicate IsFile(g: Geometry, v: Disk, ch: Chain) {
    Clusters(ch) && CS.Sized(g.secsize, v) && g.secsize > 0
  }

  /** A write: the chain may grow at its end, `data` lies at `at`, all other bytes of the file are as they
      were, and only the FAT and sectors of the file have changed. */
  ghost predicate Written(g: Geometry, v: Disk, ch: Chain, v': Disk, ch': Chain, at: nat, data: seq<byte>) {
    && IsFile(g, v, ch) && IsFile(g, v', ch')
    && |ch| <= |ch'| && ch'[..|ch|] == ch
    && FileOnly(g, v, v', ch')
    && Spliced(Content(g, v, ch), Content(g, v', ch'), at, data)
  }

  /** However a write was split into transfers, direct or sector by sector, the file comes out the same: the bytes
      written and all bytes it had. */
  lemma SplitsAgree(g: Geometry, v: Disk, ch: Chain, v1: Disk, ch1: Chain, v2: Disk, ch2: Chain, at: nat,
                    data: seq<byte>, i: nat)
    requires Written(g, v, ch, v1, ch1, at, data) && Written(g, v, ch, v2, ch2, at, data)
    requires i < |Content(g, v, ch)| || at <= i < at + |data|
    ensures i < |Content(g, v1, ch1)| && i < |Content(g, v2, ch2)|
    ensures Content(g, v1, ch1)[i] == Content(g, v2, ch2)[i]
  {
    hide Content, FileOnly;
  }

  lemma FileOnlyMore(g: Geometry, v0: Disk, v1: Disk, v2: Disk, ch1: Chain, ch2: Chain)
    requires FileOnly(g, v0, v1, ch1) && FileOnly(g, v1, v2, ch2) && |ch1| <= |ch2| && ch2[..|ch1|] == ch1
    ensures FileOnly(g, v0, v2, ch2)
  {
    hide ClusterHas, InAnyFat;
    forall k | InClusters(g, ch1, k) ensures InClusters(g, ch2, k) {
      var i :| 0 <= i < |ch1| && 2 <= ch1[i] && ClusterHas(g, ch1[i], k);
      assert ch2[i] == ch2[..|ch1|][i];
    }
  }

  lemma WrittenMore(g: Geometry, v0: Disk, ch0: Chain, v1: Disk, ch1: Chain, v2: Disk, ch2: Chain,
                    at: nat, d1: seq<byte>, d2: seq<byte>)
    requires Written(g, v0, ch0, v1, ch1, at, d1) && Written(g, v1, ch1, v2, ch2, at + |d1|, d2)
    ensures Written(g, v0, ch0, v2, ch2, at, d1 + d2)
  {
    hide Content, Spliced, FileOnly;
    FileOnlyMore(g, v0, v1, v2, ch1, ch2);
    SplicedMore(Content(g, v0, ch0), Content(g, v1, ch1), Content(g, v2, ch2), at, d1, d2);
    assert ch2[..|ch0|] == ch2[..|ch1|][..|ch0|];
  }

  // ---------- growth and other files ----------

  /** Where only FAT sectors differ, a chain keeps its bytes, and a longer one begins with them. */
  lemma GrowContent(geo: Layouts, g: Geometry, v: Disk, v': Disk, ch: Chain, ch': Chain)
    requires g.Ok() && geo(g.unit) == g.Layout() && CS.Sized(g.secsize, v) && CS.Sized(g.secsize, v')
    requires Clusters(ch) && Clusters(ch') && |ch| <= |ch'| && ch'[..|ch|] == ch && FatOnly(g, v, v')
    ensures |Content(g, v, ch)| <= |Content(g, v', ch')|
    ensures Content(g, v', ch')[..|Content(g, v, ch)|] == Content(g, v, ch)
  {
    hide Clusters, Flat, Sectors, CS.Sized, CS.AllSized, FatOnly;
    MulMono(|ch|, |ch'|, Spc(g));
    MulMono(SectorCount(g, ch), SectorCount(g, ch'), g.secsize);
    SectorsSized(g, v, ch);
    SectorsSized(g, v', ch');
    forall j | 0 <= j < SectorCount(g, ch) ensures Sectors(g, v, ch)[j] == Sectors(g, v', ch')[0 + j] {
      GrowSector(geo, g, v, v', ch, ch', j);
    }
    FlatSlice(g.secsize, Sectors(g, v', ch'), 0, Sectors(g, v, ch));
  }

  lemma GrowSector(geo: Layouts, g: Geometry, v: Disk, v': Disk, ch: Chain, ch': Chain, j: nat)
    requires g.Ok() && geo(g.unit) == g.Layout() && j < SectorCount(g, ch)
    requires Clusters(ch) && Clusters(ch') && |ch| <= |ch'| && ch'[..|ch|] == ch && FatOnly(g, v, v')
    ensures j < SectorCount(g, ch') && Sectors(g, v', ch')[j] == Sectors(g, v, ch)[j]
  {
    hide FileBlock, ClusterHas, InAnyFat, Geometry.Ok;
    PrefixBlocks(g, ch, ch', j);
    FileBlockIn(g, ch, j);
    ClusterOutsideFat(geo, g, ch[ClusterOf(g, j)], FileBlock(g, ch, j));
  }

  /** Growth alone writes nothing. */
  lemma GrowWritten(geo: Layouts, g: Geometry, v: Disk, v': Disk, ch: Chain, ch': Chain, at: nat)
    requires g.Ok() && geo(g.unit) == g.Layout() && IsFile(g, v, ch) && IsFile(g, v', ch')
    requires |ch| <= |ch'| && ch'[..|ch|] == ch && FatOnly(g, v, v')
    ensures Written(g, v, ch, v', ch', at, [])
  {
    hide Content, Spliced, Geometry.Ok;
    GrowContent(geo, g, v, v', ch, ch');
    GrownSpliced(Content(g, v, ch), Content(g, v', ch'), at);
  }

  /** A chain apart from the one written keeps its bytes. */
  lemma OtherContent(geo: Layouts, g: Geometry, v: Disk, v': Disk, ch: Chain, other: Chain)
    requires g.Ok() && geo(g.unit) == g.Layout() && CS.Sized(g.secsize, v) && CS.Sized(g.secsize, v')
    requires Clusters(ch) && Clusters(other) && Disjoint(ch, other) && FileOnly(g, v, v', ch)
    ensures Content(g, v', other) == Content(g, v, other)
  {
    forall j | 0 <= j < SectorCount(g, other) ensures Sectors(g, v', other)[j] == Sectors(g, v, other)[j] {
      OtherSector(geo, g, v, v', ch, other, j);
    }
    assert Sectors(g, v', other) == Sectors(g, v, other);
  }

  lemma OtherSector(geo: Layouts, g: Geometry, v: Disk, v': Disk, ch: Chain, other: Chain, j: nat)
    requires g.Ok() && geo(g.unit) == g.Layout() && j < SectorCount(g, other)
    requires Clusters(ch) && Clusters(other) && Disjoint(ch, other) && FileOnly(g, v, v', ch)
    ensures v'[FileBlock(g, other, j)] == v[FileBlock(g, other, j)]
  {
    var k, c := FileBlock(g, other, j), ClusterOf(g, j);
    FileBlockIn(g, other, j);
    ClusterOutsideFat(geo, g, other[c], k);
    forall i | 0 <= i < |ch| && ClusterHas(g, ch[i], k) ensures false {
      ClustersApart(g, ch[i], other[c], k);
    }
  }
}
