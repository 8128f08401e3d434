/**
 Sizes of a FAT volume: what kernel/initdisk.c (`CalculateFATData`) lays out and what kernel/fatfs.c
 (`bpb_to_dpb`) makes of it (Microsoft FAT specification, "FAT Type Determination" and "FAT Volume
 Initialization").  FAT32 is not part of this model.
 */
module FatSizing {
  import opened Arithmetic
  import opened FatFormat

  const WORD := 0x1_0000
  const ULONG := 0x1_0000_0000

  const NFAT := 2
  const NDIRENT := 512
  const MAXCLUSTSIZE := 128
  const NSECTORFAT12 := 8
  const FAT12DATAMAX := 32640
  const FAT16DATAMAX := 8386688
  const FAT16MAX := FAT_MAGIC16 - 6
  const ENTRIES_PER_SECTOR := 256

  /** Sectors for the FATs and the data: all but the boot sector and the root directory, as a ULONG. */
  function FatData(numSectors: nat): nat { (numSectors + ULONG - 33) % ULONG }

  /** FAT length for 12-bit entries, rounded up. */
  function Fat12Length(d: nat): nat { ((d + 2 * NSECTORFAT12) * 3 + 8198 - 1) / 8198 }

  /** FAT length for 16-bit entries and `n` sectors per cluster, rounded up. */
  function Fat16Length(d: nat, n: nat): nat
  {
    (d + (2 * n + Divisor(n) - 1)) / Divisor(n)
  }

  function Divisor(n: nat): (v: nat)
    ensures v >= 2
  {
    MulMono(0, n, ENTRIES_PER_SECTOR);
    ENTRIES_PER_SECTOR * n + NFAT
  }

  /** Clusters that `d` sectors leave beside two FATs of `len`, the difference taken as a ULONG. */
  function ClusterCount(d: nat, len: nat, n: nat): nat
    requires n > 0
  {
    Div(Left(d, len), n)
  }

  function Left(d: nat, len: nat): nat { (d - NFAT * len) % ULONG }

  /** "too many clusters", by the length of the FAT or the limit of its type. */
  predicate TooMany(clust: nat, len: nat) { clust > Min(len * ENTRIES_PER_SECTOR, FAT16MAX) - 2 }

  /** `CalculateFATData` takes `n` sectors per cluster: neither too many clusters nor so few that the FAT would be
      taken for one of 12-bit entries. */
  predicate Taken(d: nat, n: nat)
    requires n > 0
  {
    var len := Fat16Length(d, n);
    var clust := ClusterCount(d, len, n);
    !TooMany(clust, len) && clust > FAT_MAGIC
  }

  class Bpb {
    var nbyte: nat
    var nsector: nat
    var nreserved: nat
    var nfat: nat
    var ndirent: nat
    var nsize: nat
    var nfsect: nat
    var huge: nat

    /** Volume size in sectors. */
    function Size(): nat
      reads this
    {
      if nsize == 0 then huge else nsize
    }
  }

  /** Sectors per cluster after `k` doublings. */
  function Tried(k: nat): nat { 4 * Pow2(k) }

  lemma TriedIs()
    ensures Tried(0) == 4 && Tried(1) == 8 && Tried(2) == 16 && Tried(3) == 32 && Tried(4) == 64 && Tried(5) == 128
  {
    assert Pow2(3) == 8 && Pow2(5) == 32;
  }

  lemma Doubled(k: nat)
    requires k < 6
    ensures Tried(k) * 2 % 0x100 == (if k < 5 then Tried(k + 1) else 0) && 0 < Tried(k) <= MAXCLUSTSIZE
    ensures k == 5 ==> Tried(k) == MAXCLUSTSIZE
  {
    TriedIs();
  }

  /** The number of doublings at which `CalculateFATData` stops: 6 if it finds nothing. */
  ghost predicate Stops(d: nat, k: nat) {
    && k <= 6 && (forall j: nat :: j < k ==> Tried(j) > 0 && !Taken(d, Tried(j)))
    && (k < 6 ==> Tried(k) > 0 && Taken(d, Tried(k)))
  }

  /** FAT length and clusters for one number of sectors per cluster; no clusters if it will not do. */
  method TryClusters(fatdata: nat, nsector: nat) returns (fatlength: nat, clust: nat)
    requires nsector > 0
    ensures fatlength == Fat16Length(fatdata, nsector)
    ensures clust != 0 <==> Taken(fatdata, nsector)
    ensures clust != 0 ==> clust == ClusterCount(fatdata, fatlength, nsector)
  {
    hide Fat16Length, ClusterCount;
    fatlength := Fat16Length(fatdata, nsector);
    clust := ClusterCount(fatdata, fatlength, nsector);
    var maxclust := fatlength * ENTRIES_PER_SECTOR;
    if maxclust > FAT16MAX {
      maxclust := FAT16MAX;
    }
    if clust > maxclust - 2 {
      clust := 0;
    } else if clust <= FAT_MAGIC {
      clust := 0;
    }
  }

  /** `CalculateFATData` for FAT12 and FAT16. */
  method CalculateFatData(b: Bpb, numSectors: nat, fat12: bool) returns (ghost k: nat)
    requires numSectors < ULONG
    modifies b`nfat, b`ndirent, b`nreserved, b`nsector, b`nfsect
    ensures b.nfat == NFAT && b.ndirent == NDIRENT && b.nreserved == 1
    ensures fat12 ==>
              b.nsector == NSECTORFAT12 && b.nfsect == Fat12Length(Min(FatData(numSectors), FAT12DATAMAX)) % WORD
    ensures var d := Min(FatData(numSectors), FAT16DATAMAX);
      !fat12 ==> Stops(d, k) && b.nsector == (if k < 6 then Tried(k) else 0)
                 && b.nfsect == Fat16Length(d, if k < 6 then Tried(k) else MAXCLUSTSIZE) % WORD
  {
    hide Fat16Length, Fat12Length, Taken, FatData, Pow2;
    b.nfat := NFAT;
    b.ndirent := NDIRENT;
    b.nreserved := 1;
    var fatdata := FatData(numSectors);
    k := 0;
    if fat12 {
      b.nsector := NSECTORFAT12;
      var fatdat := fatdata;
      if fatdata > FAT12DATAMAX {
        fatdat := FAT12DATAMAX;
      }
      b.nfsect := Fat12Length(fatdat) % WORD;
    } else {
      TriedIs();
      b.nsector := 4;
      if fatdata > FAT16DATAMAX {
        fatdata := FAT16DATAMAX;
      }
      var fatlength;
      while true
        invariant k < 6 && b.nsector == Tried(k) > 0
        invariant forall j: nat :: j < k ==> Tried(j) > 0 && !Taken(fatdata, Tried(j))
        invariant b.nfat == NFAT && b.ndirent == NDIRENT && b.nreserved == 1
        decreases 6 - k
      {
        var clust;
        fatlength, clust := TryClusters(fatdata, b.nsector);
        if clust != 0 {
          break;
        }
        Doubled(k);
        b.nsector := b.nsector * 2 % 0x100;
        k := k + 1;
        if !(b.nsector != 0 && b.nsector <= MAXCLUSTSIZE) {
          break;
        }
      }
      b.nfsect := fatlength % WORD;
    }
  }

  // ---------- the FAT is long enough ----------

  /** Rounding up. */
  lemma LengthBounds(d: nat, n: nat)
    requires 0 < n
    ensures var v, len := Divisor(n), Fat16Length(d, n);
      && v == ENTRIES_PER_SECTOR * n + NFAT && len >= 1
      && d + 2 * n <= len * v && (len - 1) * v < d + 2 * n
  {
    var v, x := Divisor(n), d + (2 * n + Divisor(n) - 1);
    var len := x / v;
    assert x == len * v + x % v;
    if len < 1 {
      MulMono(len, 0, v);
    }
    assert (len - 1) * v == len * v - v;
  }

  /** Two FATs fit into all but the smallest volumes. */
  lemma FatsFit(d: nat, n: nat)
    requires 0 < n
    ensures NFAT * Fat16Length(d, n) <= d <==> d >= 2
  {
    LengthBounds(d, n);
    var v, m := Divisor(n), Fat16Length(d, n) - 1;
    if m >= 1 {
      assert m * v == ENTRIES_PER_SECTOR * (m * n) + NFAT * m;
      MulMono(1, m, n);
    }
  }

  /** The FAT holds an entry for every cluster and the two reserved ones, just if there is room for FATs at all: with
      fewer than two sectors the count wraps round. */
  lemma Fat16Holds(d: nat, n: nat)
    requires 0 < n <= MAXCLUSTSIZE && d <= FAT16DATAMAX
    ensures var len := Fat16Length(d, n);
      NFAT * len <= d && ClusterCount(d, len, n) + 2 <= len * ENTRIES_PER_SECTOR <==> d >= 2
  {
    var v, len := Divisor(n), Fat16Length(d, n);
    LengthBounds(d, n);
    FatsFit(d, n);
    if d >= 2 {
      assert Left(d, len) == d - 2 * len;
      var c := ClusterCount(d, len, n);
      assert c * n <= d - 2 * len;
      var m := len * ENTRIES_PER_SECTOR - 2;
      assert len * v == len * ENTRIES_PER_SECTOR * n + 2 * len;
      assert m * n == len * ENTRIES_PER_SECTOR * n - 2 * n;
      MulCancel(c, m, n);
    }
  }

  /** Hence only the limit of the type can make the clusters too many. */
  lemma OnlyTheTypeLimits(d: nat, n: nat)
    requires 0 < n <= MAXCLUSTSIZE && 2 <= d <= FAT16DATAMAX
    ensures var len := Fat16Length(d, n);
      TooMany(ClusterCount(d, len, n), len) <==> ClusterCount(d, len, n) > FAT16MAX - 2
  {
    Fat16Holds(d, n);
  }

  // ---------- a cluster size is found ----------

  /** The clusters counted when `n` sectors to each are tried. */
  function Count(d: nat, n: nat): nat
    requires n > 0
  {
    ClusterCount(d, Fat16Length(d, n), n)
  }

  lemma CountBounds(d: nat, n: nat)
    requires 0 < n && 2 <= d < ULONG
    ensures var c, len := Count(d, n), Fat16Length(d, n);
      0 <= c * n <= d - 2 * len < c * n + n && 2 * len <= d
  {
    hide Fat16Length;
    FatsFit(d, n);
    assert Left(d, Fat16Length(d, n)) == d - 2 * Fat16Length(d, n);
  }

  lemma Below(a: int, b: int, n: nat)
    requires 0 < n && a * n < b * n
    ensures a < b
  {
    if b <= a {
      MulMono(b, a, n);
    }
  }

  lemma AtLeast(x: int, n: nat, c: int, k: int)
    requires 0 < n && c * n <= x < c * n + n && k * n <= x
    ensures k <= c
  {
    if k > c {
      MulMono(c + 1, k, n);
    }
  }

  /** Larger clusters need no longer FAT. */
  lemma ShorterFat(d: nat, n: nat)
    requires 0 < n && 2 <= d < ULONG
    ensures Fat16Length(d, 2 * n) <= Fat16Length(d, n)
  {
    hide Fat16Length, Divisor;
    LengthBounds(d, n);
    LengthBounds(d, 2 * n);
    FatsFit(d, n);
    Shorter(d, n, Divisor(n), Divisor(2 * n), Fat16Length(d, n), Fat16Length(d, 2 * n));
  }

  lemma Shorter(d: nat, n: nat, v: int, v': int, len: int, len': int)
    requires v' == 2 * v - 2 > 0 && 2 * len <= d && d + 2 * n <= len * v && (len' - 1) * v' < d + 4 * n
    ensures len' <= len
  {
    assert len * v' == 2 * (len * v) - 2 * len;
    Below(len' - 1, len, v');
  }

  /** So doubling them leaves at least half as many. */
  lemma CountHalves(d: nat, n: nat)
    requires 0 < n && 2 <= d < ULONG
    ensures Count(d, 2 * n) >= Count(d, n) / 2
  {
    hide Fat16Length, Count;
    ShorterFat(d, n);
    CountBounds(d, n);
    CountBounds(d, 2 * n);
    var c := Count(d, n);
    MulMono(c / 2 * 2, c, n);
    MulAssoc(c / 2, 2, n);
    AtLeast(d - 2 * Fat16Length(d, 2 * n), 2 * n, Count(d, 2 * n), c / 2);
  }

  /** Nor does doubling leave more, if enough are left not to be taken for 12-bit entries. */
  lemma CountFalls(d: nat, n: nat)
    requires 4 <= n && 2 <= d < ULONG && Count(d, 2 * n) > FAT_MAGIC
    ensures Count(d, n) >= Count(d, 2 * n)
  {
    hide Fat16Length, Count;
    LengthBounds(d, n);
    CountBounds(d, n);
    CountBounds(d, 2 * n);
    var len, c, c' := Fat16Length(d, n), Count(d, n), Count(d, 2 * n);
    MulMono(FAT_MAGIC, c', 2 * n);
    MulMono(1026, Divisor(n), len - 1);
    assert c' * (2 * n) == c' * n + c' * n;
    AtLeast(d - 2 * len, n, c, c');
  }

  /** With the largest clusters there are never too many. */
  lemma LargestSuffice(d: nat)
    requires 2 <= d <= FAT16DATAMAX
    ensures Count(d, MAXCLUSTSIZE) <= FAT16MAX - 2
  {
    hide Fat16Length, Count;
    LengthBounds(d, MAXCLUSTSIZE);
    CountBounds(d, MAXCLUSTSIZE);
  }

  lemma {:induction false} SomeTaken(d: nat, j: nat)
    requires j < 6 && 2 <= d <= FAT16DATAMAX && Tried(j) > 0 && Count(d, Tried(j)) > FAT_MAGIC
    ensures exists i: nat :: i < 6 && Tried(i) > 0 && Taken(d, Tried(i))
    decreases 6 - j
  {
    hide Fat16Length, ClusterCount;
    TriedIs();
    OnlyTheTypeLimits(d, Tried(j));
    if Count(d, Tried(j)) > FAT16MAX - 2 {
      LargestSuffice(d);
      CountHalves(d, Tried(j));
      SomeTaken(d, j + 1);
    } else {
      assert Taken(d, Tried(j));
    }
  }

  lemma {:induction false} FourLeaveMost(d: nat, j: nat)
    requires j < 6 && 2 <= d <= FAT16DATAMAX && Tried(j) > 0 && Count(d, Tried(j)) > FAT_MAGIC
    ensures Count(d, 4) > FAT_MAGIC
  {
    hide Count;
    TriedIs();
    if j > 0 {
      CountFalls(d, Tried(j - 1));
      FourLeaveMost(d, j - 1);
    }
  }

  /** Some number of sectors per cluster is taken just if with four of them the clusters are not too few. */
  lemma FoundIff(d: nat, k: nat)
    requires 2 <= d <= FAT16DATAMAX && Stops(d, k)
    ensures k < 6 <==> Count(d, 4) > FAT_MAGIC
  {
    hide Fat16Length, ClusterCount;
    TriedIs();
    if k < 6 {
      assert Count(d, Tried(k)) > FAT_MAGIC;
      FourLeaveMost(d, k);
    } else if Count(d, 4) > FAT_MAGIC {
      SomeTaken(d, 0);
    }
  }

  /** The same for 12-bit entries: the entries of all clusters and the reserved ones lie in the FAT's bytes. */
  lemma Fat12Holds(d: nat)
    requires d <= FAT12DATAMAX
    ensures var len := Fat12Length(d);
      NFAT * len <= d && (ClusterCount(d, len, NSECTORFAT12) + 2) * 3 <= len * 1024 <==> d >= 2
  {
    var x, len := (d + 16) * 3 + 8197, Fat12Length(d);
    assert len * 8198 <= x < (len + 1) * 8198;
    if d >= 2 {
      var c := ClusterCount(d, len, NSECTORFAT12);
      assert Left(d, len) == d - 2 * len;
      assert 8 * c <= d - 2 * len;
    }
  }

  // ---------- bpb_to_dpb ----------

  const DIRENT_SIZE := 32

  /** Number of clusters + 1, cut to a word twice. */
  function InitialSize(size: nat, data: nat, shftcnt: nat): nat {
    (Shr((size + ULONG - data % ULONG) % ULONG, shftcnt) % WORD + 1) % WORD
  }

  /** The correction for a FAT that is too short: for the type the size stands for, unless that would change the
      type. */
  function Corrected(size: nat, fatsize: nat, secsize: nat): nat {
    var tmp := fatsize * (secsize / 2);
    if tmp >= 0x1_0000 then size
    else if size > FAT_MAGIC && tmp <= FAT_MAGIC then size
    else if size <= FAT_MAGIC && tmp >= 0x4000 then size
    else
      var fatsiz := if size > FAT_MAGIC then tmp else tmp * 4 / 3;
      if size >= fatsiz then (fatsiz - 1) % WORD else size
  }

  /** The drive parameter block of a volume. */
  method BpbToDpb(b: Bpb, unit: int) returns (g: Geometry)
    requires b.nbyte >= DIRENT_SIZE && b.nsector < 0x100
    ensures g.unit == unit && g.secsize == b.nbyte && g.clsmask == (b.nsector + 0xff) % 0x100
    ensures g.fatstrt == b.nreserved && g.fats == b.nfat && g.fatsize == b.nfsect
    ensures g.data == DataStart(b.nbyte, b.nreserved, b.nfat, b.nfsect, b.ndirent)
    ensures Log2(b.nsector, g.shftcnt)
    ensures g.size == Corrected(InitialSize(b.Size(), g.data, g.shftcnt), g.fatsize, g.secsize)
  {
    hide Shr, DataStart, Corrected, Log2;
    var shftcnt := 0;
    ShrStart(b.nsector);
    while Shr(b.nsector, shftcnt) > 1
      invariant shftcnt <= b.nsector && (shftcnt > 0 ==> Shr(b.nsector, shftcnt - 1) > 1)
      invariant Shr(b.nsector, shftcnt) + shftcnt <= b.nsector
      decreases b.nsector - shftcnt
    {
      ShrNext(b.nsector, shftcnt);
      shftcnt := shftcnt + 1;
    }
    LogIs(b.nsector, shftcnt);
    var size := b.Size();
    var data := DataStart(b.nbyte, b.nreserved, b.nfat, b.nfsect, b.ndirent);
    var dpbSize := (Shr((size + ULONG - data % ULONG) % ULONG, shftcnt) % WORD + 1) % WORD;
    dpbSize := CheckSize(dpbSize, b.nfsect, b.nbyte);
    g := Geometry(unit, b.nbyte, (b.nsector + 0xff) % 0x100, shftcnt, b.nreserved, b.nfat, data, dpbSize, b.nfsect);
  }

  /** The size, cut down to what the FAT has entries for, unless that would change the type. */
  method CheckSize(size: nat, fatsize: nat, secsize: nat) returns (r: nat)
    ensures r == Corrected(size, fatsize, secsize)
  {
    var tmp := fatsize * (secsize / 2);
    r := size;
    if tmp >= 0x1_0000 {
      return;
    }
    var fatsiz := tmp;
    if size > FAT_MAGIC {
      if fatsiz <= FAT_MAGIC {
        return;
      }
    } else {
      if fatsiz >= 0x4000 {
        return;
      }
      fatsiz := fatsiz * 4 / 3;
    }
    if size >= fatsiz {
      r := (fatsiz - 1) % WORD;
    }
  }

  /** First sector of the data area, behind the FATs and the root directory. */
  function DataStart(nbyte: nat, nreserved: nat, nfat: nat, nfsect: nat, ndirent: nat): nat
    requires nbyte >= DIRENT_SIZE
  {
    var perSector := nbyte / DIRENT_SIZE;
    var dirstrt := (nreserved + nfat * nfsect) % WORD;
    (dirstrt + Div(ndirent + perSector - 1, perSector)) % WORD
  }

  /** `k` is the binary logarithm of `n`, rounded down. */
  ghost predicate Log2(n: nat, k: nat) { (n == 0 && k == 0) || Pow2(k) <= n < 2 * Pow2(k) }

  lemma ShrStart(n: nat)
    ensures Shr(n, 0) == n
  {}

  lemma {:induction false} ShrNext(n: nat, k: nat)
    ensures Shr(n, k + 1) == Shr(n, k) / 2
    decreases k
  {
    if k > 0 {
      ShrNext(n / 2, k - 1);
    }
  }

  lemma LogIs(n: nat, k: nat)
    requires Shr(n, k) <= 1 && (k > 0 ==> Shr(n, k - 1) > 1)
    ensures Log2(n, k)
  {
    ShrIs(n, k);
    if k > 0 {
      ShrIs(n, k - 1);
      var m := Pow2(k - 1);
      assert n / m >= 2;
      MulMono(2, n / m, m);
    }
    var m := Pow2(k);
    MulMono(n / m, 1, m);
  }

  /** After `bpb_to_dpb` every entry up to the last cluster's lies inside one FAT, just if the FAT is not empty and
      the volume is not one of 16-bit entries, by its size, with a FAT for at most FAT_MAGIC of them: that is let
      through. */
  lemma FitsIff(g: Geometry, size: nat)
    requires g.secsize >= 4 && g.secsize % 2 == 0 && size < WORD
    requires g.size == Corrected(size, g.fatsize, g.secsize)
    ensures g.EntriesFit() <==>
              g.fatsize > 0 && !(size > FAT_MAGIC && g.fatsize * (g.secsize / 2) <= FAT_MAGIC)
  {
    var tmp := g.fatsize * (g.secsize / 2);
    assert g.FatLength() == 2 * tmp by {
      assert g.secsize == 2 * (g.secsize / 2);
      assert g.fatsize * (2 * (g.secsize / 2)) == 2 * (g.fatsize * (g.secsize / 2));
    }
    if g.fatsize > 0 {
      MulMono(1, g.fatsize, g.secsize / 2);
    }
  }

  /** What is let through: laid out for 12-bit entries, 32737 sectors have FATs of 12 and make so many clusters that
      the size stands for 16-bit entries, which do not fit; with one sector less they fit. */
  lemma LetThrough()
    ensures Fat12Length(Min(FatData(32737), FAT12DATAMAX)) == 12 && DataStart(512, 1, NFAT, 12, NDIRENT) == 57
    ensures var size := Corrected(InitialSize(32737, 57, 3), 12, 512);
      var g := Geometry(0, 512, NSECTORFAT12 - 1, 3, 1, NFAT, 57, size, 12);
      g.size == 4086 && g.IsFat16() && !g.EntriesFit() && !Suits12(32737)
    ensures var size := Corrected(InitialSize(32736, 57, 3), 12, 512);
      var g := Geometry(0, 512, NSECTORFAT12 - 1, 3, 1, NFAT, 57, size, 12);
      g.size == 4085 && g.IsFat12() && g.EntriesFit() && Suits12(32736)
  {
    DataAt(12);
    SizeBeyond(32737, 57, 8, 3);
    SizeBeyond(32736, 57, 8, 3);
  }

  // ---------- both together ----------

  lemma InitialIs(numSectors: nat, data: nat, k: nat)
    requires data <= numSectors < ULONG && Shr(numSectors - data, k) + 1 < WORD
    ensures InitialSize(numSectors, data, k) == Shr(numSectors - data, k) + 1
  {
    hide Shr;
    AsUlong(numSectors, data);
  }

  lemma QuotientOf(left: nat, n: nat)
    requires n > 0
    ensures 0 <= left / n && left / n * n <= left
  {
    assert left == left / n * n + left % n;
  }

  /** The sizes that follow from `len` sectors for each of two FATs and `n` = 2^k sectors per cluster. */
  lemma SizesFollow(numSectors: nat, len: nat, n: nat, k: nat)
    requires 33 <= numSectors < ULONG && NFAT * len <= numSectors - 33 && 33 + NFAT * len < WORD && n > 0 && Log2(n, k)
    requires n == Pow2(k) && ClusterCount(FatData(numSectors), len, n) + 1 < WORD
    ensures InitialSize(numSectors, 33 + NFAT * len, k) == ClusterCount(FatData(numSectors), len, n) + 1
    ensures ClusterCount(FatData(numSectors), len, n) * n <= numSectors - 33 - NFAT * len
  {
    hide Log2, Pow2, Shr, InitialSize, FatData;
    var left := numSectors - 33 - NFAT * len;
    DataIs(numSectors);
    assert Left(FatData(numSectors), len) == left;
    ShrIs(left, k);
    QuotientOf(left, n);
    InitialIs(numSectors, 33 + NFAT * len, k);
  }

  /** A difference that is not negative is its own ULONG. */
  lemma AsUlong(x: nat, y: nat)
    requires y <= x < ULONG
    ensures (x + ULONG - y % ULONG) % ULONG == x - y && (x + ULONG - y) % ULONG == x - y
  {}

  lemma PowersAre(k: nat)
    requires k < 6
    ensures Tried(k) == Pow2(k + 2) && 4 <= Tried(k) <= MAXCLUSTSIZE
  {
    TriedIs();
    assert Pow2(2) == 4 && Pow2(4) == 16 && Pow2(6) == 64;
  }

  lemma {:induction false} Pow2AtLeast(k: nat)
    ensures Pow2(k) >= if k > 0 then 2 else 1
  {
    if k > 0 {
      Pow2AtLeast(k - 1);
    }
  }

  lemma {:induction false} LogOnce(n: nat, k: nat, j: nat)
    requires n == Pow2(k) && Log2(n, j)
    ensures j == k
  {
    Pow2AtLeast(k);
    Pow2AtLeast(j);
    if k > 0 && j > 0 {
      LogOnce(Pow2(k - 1), k - 1, j - 1);
    }
  }

  /** A volume of 16-bit entries that has been laid out keeps its size: its FAT holds all of it. */
  lemma Laid16(d: nat, n: nat)
    requires 0 < n <= MAXCLUSTSIZE && 2 <= d <= FAT16DATAMAX && Taken(d, n)
    ensures var len := Fat16Length(d, n);
      var size := ClusterCount(d, len, n) + 1;
      && Corrected(size, len, 512) == size && FAT_MAGIC < size <= FAT_MAGIC16 && len > 0
  {
    hide Fat16Length, ClusterCount;
    Fat16Holds(d, n);
    LengthBounds(d, n);
  }

  lemma Laid12(d: nat)
    requires 2 <= d <= FAT12DATAMAX
    ensures var len := Fat12Length(d);
      var size := ClusterCount(d, len, NSECTORFAT12) + 1;
      && Corrected(size, len, 512) == size && 1 <= size <= FAT_MAGIC && 0 < len <= 12
  {
    Fat12Holds(d);
    assert Left(d, Fat12Length(d)) <= d;
  }

  /** With at least four sectors per cluster a FAT length is a word. */
  lemma ShortFats(d: nat, n: nat)
    requires 4 <= n && d <= FAT16DATAMAX
    ensures Fat16Length(d, n) <= 0x2000 + 2
  {
    LengthBounds(d, n);
    var v, m := Divisor(n), Fat16Length(d, n) - 1;
    assert m * v == ENTRIES_PER_SECTOR * (m * n) + NFAT * m;
    MulMono(4, n, m);
    assert m * n >= 4 * m;
    if m > 0x2001 {
      MulMono(0x2002, m, n);
    }
  }

  /** The drive parameter block of such a volume. */
  ghost predicate LaidAs(g: Geometry, numSectors: nat, len: nat, n: nat, k: nat) {
    && g.secsize == 512 && g.fatstrt == 1 && g.fats == NFAT && g.fatsize == len && g.data == 33 + NFAT * len
    && g.clsmask == n - 1 && g.shftcnt == k && n == Pow2(k)
    && g.size == Corrected(InitialSize(numSectors, g.data, k), len, 512)
  }

  lemma LaidFits(g: Geometry, numSectors: nat, len: nat, n: nat, k: nat)
    requires LaidAs(g, numSectors, len, n, k) && 0 < n <= MAXCLUSTSIZE && 35 <= numSectors < ULONG
    requires 0 < len && 33 + NFAT * len < WORD && NFAT * len <= numSectors - 33
    requires var size := ClusterCount(numSectors - 33, len, n) + 1;
      size < WORD && Corrected(size, len, 512) == size && !(size > FAT_MAGIC && len * 256 <= FAT_MAGIC)
    ensures g.size == ClusterCount(numSectors - 33, len, n) + 1 && g.Ok()
    ensures g.data + (g.size - 1) * n <= numSectors
  {
    hide ClusterCount, Corrected, InitialSize, FatData;
    AsUlong(numSectors, 33);
    DataIs(numSectors);
    assert Log2(n, k);
    SizesFollow(numSectors, len, n, k);
    FitsIff(g, InitialSize(numSectors, g.data, k));
  }

  lemma DataIs(numSectors: nat)
    requires 33 <= numSectors < ULONG
    ensures FatData(numSectors) == numSectors - 33
  {
    AsUlong(numSectors, 33);
  }

  lemma DataAt(len: nat)
    requires 33 + NFAT * len < WORD
    ensures DataStart(512, 1, NFAT, len, NDIRENT) == 33 + NFAT * len
  {
    DivModUnique(NDIRENT + 15, 16, 32, 15);
  }

  lemma Fits16(g: Geometry, numSectors: nat, n: nat, k: nat)
    requires 35 <= numSectors <= 33 + FAT16DATAMAX && 4 <= n <= MAXCLUSTSIZE && Taken(numSectors - 33, n)
    requires LaidAs(g, numSectors, Fat16Length(numSectors - 33, n), n, k)
    ensures g.Ok() && g.IsFat16() && g.data + (g.size - 1) * n <= numSectors
  {
    hide Fat16Length, ClusterCount, Corrected, InitialSize, LaidAs, Taken;
    var d := numSectors - 33;
    Laid16(d, n);
    FatsFit(d, n);
    ShortFats(d, n);
    Fat16Holds(d, n);
    LaidFits(g, numSectors, Fat16Length(d, n), n, k);
  }

  lemma Fits12(g: Geometry, numSectors: nat, k: nat)
    requires 35 <= numSectors <= 33 + FAT12DATAMAX
    requires LaidAs(g, numSectors, Fat12Length(numSectors - 33), NSECTORFAT12, k)
    ensures g.Ok() && g.IsFat12() && g.data + (g.size - 1) * NSECTORFAT12 <= numSectors
  {
    hide Fat12Length, ClusterCount, Corrected, InitialSize, LaidAs;
    var d := numSectors - 33;
    Laid12(d);
    Fat12Holds(d);
    LaidFits(g, numSectors, Fat12Length(d), NSECTORFAT12, k);
  }

  // ---------- volumes larger than the FATs are made for ----------

  /** A volume laid out for 12-bit entries is one of them: it has room for FATs and, beyond the number of sectors the
      FATs are made for, the clusters cut to a word are not too many. */
  predicate Suits12(numSectors: nat) {
    numSectors >= 35 && (numSectors <= 33 + FAT12DATAMAX || Div(numSectors - 57, NSECTORFAT12) % WORD < FAT_MAGIC)
  }

  /** The same for 16-bit entries, of which there are neither too many nor too few. */
  predicate Suits16(numSectors: nat) {
    && numSectors >= 35
    && (numSectors <= 33 + FAT16DATAMAX || FAT_MAGIC <= Div(numSectors - 545, MAXCLUSTSIZE) % WORD < FAT_MAGIC16)
  }

  lemma SizeBeyond(numSectors: nat, data: nat, n: nat, k: nat)
    requires data <= numSectors < ULONG && n == Pow2(k) && n > 0
    ensures var q := Div(numSectors - data, n);
      && InitialSize(numSectors, data, k) == (if q % WORD == WORD - 1 then 0 else q % WORD + 1)
      && 0 <= q % WORD <= q && q * n <= numSectors - data
  {
    hide Shr;
    AsUlong(numSectors, data);
    ShrIs(numSectors - data, k);
    QuotientOf(numSectors - data, n);
    CutToWord(Div(numSectors - data, n));
  }

  lemma CutToWord(q: nat)
    ensures (q % WORD + 1) % WORD == (if q % WORD == WORD - 1 then 0 else q % WORD + 1) && q % WORD <= q
  {}

  /** With fewer than 33 sectors the difference wraps round, and the volume seems as large as any. */
  lemma SizeWraps(numSectors: nat)
    requires numSectors < 33
    ensures InitialSize(numSectors, 57, 3) > FAT_MAGIC && InitialSize(numSectors, 545, 7) > FAT_MAGIC16
    ensures FatData(numSectors) > FAT16DATAMAX
  {
    hide Shr;
    assert Pow2(3) == 8 && Pow2(7) == 128 by {
      TriedIs();
      assert Pow2(7) == 2 * Pow2(6);
    }
    ShrIs(numSectors + ULONG - 57, 3);
    ShrIs(numSectors + ULONG - 545, 7);
  }

  lemma SmallerFits(g: Geometry, numSectors: nat, n: nat)
    requires n > 0 && g.size >= 1 && g.data <= numSectors && g.size - 1 <= Div(numSectors - g.data, n)
    requires Div(numSectors - g.data, n) * n <= numSectors - g.data
    ensures g.data + (g.size - 1) * n <= numSectors
  {
    MulMono(g.size - 1, Div(numSectors - g.data, n), n);
  }

  /** Larger ones for 12-bit entries, and those whose size wraps round. */
  lemma Clamped12(g: Geometry, numSectors: nat)
    requires numSectors < 33 || 33 + FAT12DATAMAX < numSectors < ULONG
    requires LaidAs(g, numSectors, 12, NSECTORFAT12, 3)
    ensures g.Ok() && g.IsFat12() <==> Suits12(numSectors)
    ensures Suits12(numSectors) ==> g.data + (g.size - 1) * NSECTORFAT12 <= numSectors
  {
    hide InitialSize, Div;
    if numSectors < 33 {
      SizeWraps(numSectors);
    } else {
      SizeBeyond(numSectors, 57, NSECTORFAT12, 3);
      if Suits12(numSectors) {
        SmallerFits(g, numSectors, NSECTORFAT12);
      }
    }
  }

  lemma Clamped16(g: Geometry, numSectors: nat)
    requires numSectors < 33 || 33 + FAT16DATAMAX < numSectors < ULONG
    requires LaidAs(g, numSectors, 256, MAXCLUSTSIZE, 7)
    ensures g.Ok() && g.IsFat16() <==> Suits16(numSectors)
    ensures Suits16(numSectors) ==> g.data + (g.size - 1) * MAXCLUSTSIZE <= numSectors
  {
    hide InitialSize, Div;
    if numSectors < 33 {
      SizeWraps(numSectors);
    } else {
      SizeBeyond(numSectors, 545, MAXCLUSTSIZE, 7);
      if Suits16(numSectors) {
        SmallerFits(g, numSectors, MAXCLUSTSIZE);
      }
    }
  }

  /** As many sectors as FATs of 16-bit entries are made for take the largest clusters. */
  lemma LargestTaken(k: nat)
    requires Stops(FAT16DATAMAX, k)
    ensures k == 5 && Fat16Length(FAT16DATAMAX, MAXCLUSTSIZE) == 256 && Count(FAT16DATAMAX, 4) > FAT_MAGIC
  {
    hide Taken, Fat16Length, Count;
    TriedIs();
    TriedAt(4, 1026, 8175, 2092584);
    TriedAt(8, 2050, 4092, 1047313);
    TriedAt(16, 4098, 2047, 523912);
    TriedAt(32, 8194, 1024, 262020);
    TriedAt(64, 16386, 512, 131026);
    TriedAt(128, 32770, 256, 65517);
  }

  /** FAT length and clusters when `n` sectors to each are tried, given by what a division leaves. */
  lemma TriedAt(n: nat, v: nat, len: nat, c: nat)
    requires n > 0 && v == Divisor(n) && len * v <= FAT16DATAMAX + (2 * n + v - 1) < len * v + v
    requires 0 <= c * n <= FAT16DATAMAX - 2 * len < c * n + n
             && (c <= FAT16MAX - 2 ==> c + 2 <= len * ENTRIES_PER_SECTOR)
    ensures Fat16Length(FAT16DATAMAX, n) == len && Count(FAT16DATAMAX, n) == c
    ensures Taken(FAT16DATAMAX, n) <==> FAT_MAGIC < c <= FAT16MAX - 2
  {
    hide Divisor;
    var x := FAT16DATAMAX + (2 * n + v - 1);
    DivModUnique(x, v, len, x - len * v);
    var left := FAT16DATAMAX - 2 * len;
    assert Left(FAT16DATAMAX, len) == left;
    DivModUnique(left, n, c, left - c * n);
  }

  /** Volumes without room for FATs take none. */
  lemma NoneTaken(d: nat, k: nat)
    requires d < 2 && Stops(d, k)
    ensures k == 6
  {
    hide Taken;
    TriedIs();
    TinyNotTaken(d, 4);
    TinyNotTaken(d, 8);
    TinyNotTaken(d, 16);
    TinyNotTaken(d, 32);
    TinyNotTaken(d, 64);
    TinyNotTaken(d, 128);
  }

  lemma TinyNotTaken(d: nat, n: nat)
    requires d < 2 && 4 <= n <= MAXCLUSTSIZE
    ensures !Taken(d, n)
  {
    LengthBounds(d, n);
    assert Fat16Length(d, n) == 1 by {
      DivModUnique(d + (2 * n + Divisor(n) - 1), Divisor(n), 1, d + 2 * n - 1);
    }
    assert Left(d, 1) >= ULONG - 2;
    AtLeast(Left(d, 1), n, ClusterCount(d, 1, n), 0x10_0000);
  }

  // ---------- laying out and reading back ----------

  /** The sectors the FATs are made for. */
  function Made(numSectors: nat, fat12: bool): nat {
    Min(FatData(numSectors), if fat12 then FAT12DATAMAX else FAT16DATAMAX)
  }

  /** A volume laid out by `CalculateFATData` and read back by `bpb_to_dpb` is one the FAT code can work on, of the
      type asked for, with a FAT that holds every cluster and all of them inside the volume, just if it suits the type
      and a cluster size is found. */
  method LayOut(b: Bpb, unit: int, numSectors: nat, fat12: bool) returns (g: Geometry)
    requires b.nbyte == 512 && b.Size() == numSectors < ULONG
    modifies b`nfat, b`ndirent, b`nreserved, b`nsector, b`nfsect
    ensures b.nsector != 0 <==> fat12 || (Made(numSectors, false) >= 2 && Count(Made(numSectors, false), 4) > FAT_MAGIC)
    ensures fat12 ==> (g.Ok() && g.IsFat12() <==> Suits12(numSectors))
    ensures !fat12 ==> (g.Ok() && g.IsFat16() <==> b.nsector != 0 && Suits16(numSectors))
    ensures g.Ok() && (if fat12 then g.IsFat12() else g.IsFat16()) ==>
              g.data + (g.size - 1) * b.nsector <= numSectors && g.clsmask + 1 == b.nsector
  {
    hide Log2, Fat16Length, Fat12Length, ClusterCount, Corrected, Taken, InitialSize, FatData, Geometry.Ok, DataStart,
         Count,
         Stops, Suits12, Suits16;
    ghost var k := CalculateFatData(b, numSectors, fat12);
    TriedIs();
    g := BpbToDpb(b, unit);
    if fat12 {
      LaidOut12(g, b.nfsect, numSectors);
    } else if k < 6 {
      LaidOut16(g, b.nfsect, numSectors, k);
    } else {
      NotLaidOut(g, numSectors, k);
    }
  }

  lemma LaidOut12(g: Geometry, nfsect: nat, numSectors: nat)
    requires numSectors < ULONG && nfsect == Fat12Length(Made(numSectors, true)) % WORD
    requires g.secsize == 512 && g.clsmask == NSECTORFAT12 - 1 && g.fatstrt == 1 && g.fats == NFAT
             && g.fatsize == nfsect
    requires g.data == DataStart(512, 1, NFAT, nfsect, NDIRENT) && Log2(NSECTORFAT12, g.shftcnt)
    requires g.size == Corrected(InitialSize(numSectors, g.data, g.shftcnt), g.fatsize, g.secsize)
    ensures g.Ok() && g.IsFat12() <==> Suits12(numSectors)
    ensures Suits12(numSectors) ==> g.data + (g.size - 1) * NSECTORFAT12 <= numSectors
  {
    hide Log2, Fat12Length, ClusterCount, Corrected, InitialSize, FatData, Geometry.Ok, DataStart, Div;
    PowersAre(1);
    LogOnce(NSECTORFAT12, 3, g.shftcnt);
    if 35 <= numSectors <= 33 + FAT12DATAMAX {
      DataIs(numSectors);
      Laid12(numSectors - 33);
      DataAt(nfsect);
      Fits12(g, numSectors, 3);
    } else if numSectors < 33 || numSectors > 33 + FAT12DATAMAX {
      FullData(numSectors);
      DataAt(12);
      Clamped12(g, numSectors);
    } else {
      DataIs(numSectors);
      TinyLength(numSectors - 33);
      DataAt(1);
      Tiny12(g, numSectors);
    }
  }

  lemma FullData(numSectors: nat)
    requires numSectors < 33 || 33 + FAT12DATAMAX < numSectors < ULONG
    ensures Made(numSectors, true) == FAT12DATAMAX && Fat12Length(FAT12DATAMAX) == 12
    ensures numSectors < 33 || 33 + FAT16DATAMAX < numSectors ==> Made(numSectors, false) == FAT16DATAMAX
  {}

  lemma TinyLength(d: nat)
    requires d < 2
    ensures Fat12Length(d) == 1
  {}

  lemma Tiny12(g: Geometry, numSectors: nat)
    requires 33 <= numSectors < 35 && LaidAs(g, numSectors, 1, NSECTORFAT12, 3)
    ensures !g.Ok()
  {
    hide InitialSize;
    TinySize(numSectors);
  }

  lemma TinySize(numSectors: nat)
    requires 33 <= numSectors < 35
    ensures InitialSize(numSectors, 35, 3) == 0
  {
    hide Shr;
    var x: nat := numSectors + ULONG - 35;
    assert Pow2(3) == 8;
    ShrIs(x, 3);
    DivModUnique(x, 8, 0x1fff_ffff, x - 8 * 0x1fff_ffff);
    assert x % ULONG == x;
  }

  lemma LaidOut16(g: Geometry, nfsect: nat, numSectors: nat, k: nat)
    requires k < 6 && numSectors < ULONG && Stops(Made(numSectors, false), k)
    requires nfsect == Fat16Length(Made(numSectors, false), Tried(k)) % WORD
    requires g.secsize == 512 && g.clsmask == (Tried(k) + 0xff) % 0x100 && g.fatstrt == 1 && g.fats == NFAT
             && g.fatsize == nfsect
    requires g.data == DataStart(512, 1, NFAT, nfsect, NDIRENT) && Log2(Tried(k), g.shftcnt)
    requires g.size == Corrected(InitialSize(numSectors, g.data, g.shftcnt), g.fatsize, g.secsize)
    ensures Made(numSectors, false) >= 2 && Count(Made(numSectors, false), 4) > FAT_MAGIC
    ensures g.Ok() && g.IsFat16() <==> Suits16(numSectors)
    ensures Suits16(numSectors) ==> g.data + (g.size - 1) * Tried(k) <= numSectors
    ensures g.clsmask + 1 == Tried(k)
  {
    hide Log2, Fat16Length, ClusterCount, Corrected, Taken, InitialSize, FatData, Geometry.Ok, DataStart, Div, Count,
         Stops;
    PowersAre(k);
    LogOnce(Tried(k), k + 2, g.shftcnt);
    if 35 <= numSectors <= 33 + FAT16DATAMAX {
      DataIs(numSectors);
      FoundIff(numSectors - 33, k);
      StopsAt(numSectors - 33, k);
      ShortFats(numSectors - 33, Tried(k));
      DataAt(nfsect);
      Fits16(g, numSectors, Tried(k), k + 2);
    } else if numSectors < 33 || numSectors > 33 + FAT16DATAMAX {
      FullData(numSectors);
      LargestTaken(k);
      DataAt(256);
      Clamped16(g, numSectors);
    } else {
      DataIs(numSectors);
      NoneTaken(numSectors - 33, k);
    }
  }

  lemma StopsAt(d: nat, k: nat)
    requires Stops(d, k) && k < 6
    ensures Tried(k) > 0 && Taken(d, Tried(k))
  {}

  /** If no cluster size is found the parameter block is in no order. */
  lemma NotLaidOut(g: Geometry, numSectors: nat, k: nat)
    requires numSectors < ULONG && Stops(Made(numSectors, false), k) && g.clsmask == 0xff && Log2(0, g.shftcnt)
             && k >= 6
    ensures !g.Ok() && !(Made(numSectors, false) >= 2 && Count(Made(numSectors, false), 4) > FAT_MAGIC)
  {
    hide Fat16Length, ClusterCount, Taken, FatData, Count, Stops;
    Pow2AtLeast(g.shftcnt);
    if Made(numSectors, false) >= 2 {
      FoundIff(Made(numSectors, false), k);
    }
  }
}
