/**
 kernel/fatfs.c: cluster chains of open files.  Directories, whose first cluster is kept elsewhere, are not
 part of this model.
 */
module FatFs {
  import opened Arithmetic
  import opened Disks
  import opened FatFormat
  import opened FatTab
  import opened Chains
  import CS = CacheSpec
  import BlockIO

  /** An open file: position, the cluster last reached, and the directory entry's start and size. */
  class FNode {
    var offset: nat
    var clusterOffset: nat
    var cluster: nat
    var dirStart: nat
    var dirSize: nat

    /** The clusters of the file. */
    ghost var chain: Chain

    constructor (dirStart: nat, dirSize: nat, ghost chain: Chain)
      ensures this.dirStart == dirStart && this.dirSize == dirSize && this.chain == chain
      ensures offset == 0 && clusterOffset == 0 && cluster == dirStart
    {
      this.dirStart, this.dirSize, this.chain := dirStart, dirSize, chain;
      offset, clusterOffset, cluster := 0, 0, dirStart;
    }

    /** The start is that of the chain, and `cluster` is the chain's cluster number `clusterOffset`. */
    ghost predicate Ok(links: Links)
      reads `chain, `cluster, `clusterOffset, `dirStart
    {
      && IsFileChain(links, chain)
      && (chain == [] ==> cluster == FREE && dirStart == FREE && clusterOffset == 0)
      && (chain != [] ==> dirStart == chain[0] && clusterOffset < |chain| && cluster == chain[clusterOffset])
    }
  }

  datatype Outcome = Success | Seek | DiskFull

  /** Looks for a free cluster from the hint on, once round the table. */
  method FindFatFree(d: Dpb) returns (r: nat)
    requires d.Valid() && !BadDpb(d.g)
    modifies d, d.cache
    ensures d.Valid() && d.links == old(d.links) && d.nfreeclst == old(d.nfreeclst)
    ensures d.cache.view == old(d.cache.view)
    ensures r == FindFree(d.links, old(d.cluster))
    ensures d.cluster == if r == LONG_LAST_CLUSTER then UNKNCLUSTER else r
  {
    hide BlockIO.BlockCache.Valid, FatBytes, FatOnly, CS.MirrorsAgree, LinksIn, CS.Sized, Geometry.Ok, Free;
    SizeOk(d);
    var idx := 2;
    var size := d.g.size;
    if d.cluster != UNKNCLUSTER {
      idx := d.cluster;
    }
    var cluster := idx;
    ghost var links, start, wrapped := d.links, idx, false;
    while true
      invariant d.Valid() && d.Untouched() && d.cluster == old(d.cluster) && links == d.links
      invariant cluster == start && 2 <= idx
      invariant !wrapped ==> start <= idx && (idx <= size || idx == start) && FirstFree(links, start, |links|) >= idx
      invariant wrapped ==>
                idx < start && FirstFree(links, start, |links|) == |links| && FirstFree(links, 2, start) >= idx
      decreases if wrapped then 0 else 1, size + 1 - idx
    {
      var free := d.IsFreeCluster(idx);
      if free {
        cluster := idx;
        break;
      }
      idx := idx + 1;
      if idx > size {
        idx := 2;
        wrapped := true;
      }
      if idx == cluster {
        cluster := UNKNCLUSTER;
        idx := LONG_LAST_CLUSTER;
        break;
      }
    }
    d.cluster := cluster;
    return idx;
  }

  /** Of what is seen nothing but FAT sectors has changed, and the copies still agree if they did. */
  ghost predicate FatStep(d: Dpb, v: Disk, v': Disk) {
    FatOnly(d.g, v, v') && (CS.MirrorsAgree(d.cache.geo, v) ==> CS.MirrorsAgree(d.cache.geo, v'))
  }

  lemma FatStepMore(d: Dpb, v0: Disk, v1: Disk, v2: Disk)
    requires FatStep(d, v0, v1) && FatStep(d, v1, v2)
    ensures FatStep(d, v0, v2)
  {
    FatOnlyTransitive(d.g, v0, v1, v2);
  }

  lemma FatStepNone(d: Dpb, v: Disk)
    ensures FatStep(d, v, v)
  {}

  lemma SizeOk(d: Dpb)
    requires d.Valid() && !BadDpb(d.g)
    ensures 2 <= |d.links| == d.g.size + 1 <= LONG_BAD && d.g.secsize > 0
    ensures d.cluster == UNKNCLUSTER || 2 <= d.cluster < |d.links|
  {}

  /** `link_fat` storing FREE, a cluster or the end mark. */
  method StoreLink(d: Dpb, c1: nat, c2: nat) returns (r: nat)
    requires d.Valid() && !BadDpb(d.g) && (c2 == FREE || 2 <= c2 <= d.g.size || c2 == LONG_LAST_CLUSTER)
    modifies d, d.cache
    ensures d.Valid() && d.cluster == old(d.cluster)
    ensures r == 0 <==> 2 <= c1 < |d.links|
    ensures d.links == if 2 <= c1 < |old(d.links)| then old(d.links)[c1 := c2] else old(d.links)
    ensures FatStep(d, old(d.cache.view), d.cache.view)
  {
    hide BlockIO.BlockCache.Valid, FatBytes, FatOnly, CS.MirrorsAgree, LinksIn, CS.Sized, Geometry.Ok, Free, Decode,
         Encode;
    DecodeEncode(d.g, c2);
    r := d.LinkFat(c1, c2);
  }

  /** Appends one cluster behind `f.cluster`, which should be the last of the chain. */
  method Extend(d: Dpb, f: FNode) returns (r: int)
    requires d.Valid() && !BadDpb(d.g)
    modifies d, d.cache, f`dirStart
    ensures d.Valid() && FatStep(d, old(d.cache.view), d.cache.view)
    ensures Extended(old(d.links), old(d.cluster), f.cluster, old(f.dirStart), d.links, f.dirStart, r)
  {
    hide Dpb.Valid, FatStep, Free, FindFree;
    ghost var v0 := d.cache.view;
    SizeOk(d);
    var freeFat := FindFatFree(d);
    FindFreeFinds(d.links, old(d.cluster));
    FatStepNone(d, v0);
    if freeFat == LONG_LAST_CLUSTER {
      return freeFat;
    }
    var linked := StoreLink(d, freeFat, LONG_LAST_CLUSTER);
    if linked != 0 {
      return LONG_LAST_CLUSTER;
    }
    if f.cluster == FREE {
      f.dirStart := freeFat;
    } else {
      var next := d.NextCluster(f.cluster);
      if next != LONG_LAST_CLUSTER {
        return LONG_LAST_CLUSTER;
      }
      ghost var v1 := d.cache.view;
      linked := StoreLink(d, f.cluster, freeFat);
      FatStepMore(d, v0, v1, d.cache.view);
      if linked != 0 {
        return LONG_LAST_CLUSTER;
      }
    }
    return freeFat;
  }

  /** What `extend` does to the table and the directory entry: nothing on a full disk; a first cluster; one
      more cluster; or, behind a cluster that is not the last, a lost cluster. */
  ghost predicate Extended(links: Links, hint: nat, cluster: nat, start: nat, links': Links, start': nat, r: int)
    requires |links| >= 2 && (hint == UNKNCLUSTER || 2 <= hint < |links|)
  {
    var c := FindFree(links, hint);
    if c == LONG_LAST_CLUSTER then r == c && links' == links && start' == start
    else
      && 2 <= c < |links|
      && if cluster == FREE then r == c && links' == links[c := LONG_LAST_CLUSTER] && start' == c
         else if Next(links[c := LONG_LAST_CLUSTER], cluster) == LONG_LAST_CLUSTER && cluster < |links|
         then r == c && links' == links[c := LONG_LAST_CLUSTER][cluster := c] && start' == start
         else r == LONG_LAST_CLUSTER && links' == links[c := LONG_LAST_CLUSTER] && start' == start
  }

  /** `extend` behind the last cluster appends, or finds the disk full. */
  lemma ExtendsLast(links: Links, hint: nat, ch: Chain, cluster: nat, start: nat, links': Links, start': nat, r: int)
    requires IsFileChain(links, ch) && 2 <= |links| <= LONG_BAD && (hint == UNKNCLUSTER || 2 <= hint < |links|)
    requires cluster == if ch == [] then FREE else ch[|ch| - 1]
    requires Extended(links, hint, cluster, start, links', start', r)
    ensures r == LONG_LAST_CLUSTER ==> links' == links && start' == start && Free(links) == 0
    ensures r != LONG_LAST_CLUSTER ==>
      && 2 <= r < |links| && links[r] == FREE && links' == Appended(links, ch, r)
      && start' == (if ch == [] then r else start)
      && IsChain(links', ch + [r]) && Grows(links, ch, links', ch + [r]) && Free(links') == Free(links) - 1
  {
    FindFreeFinds(links, hint);
    NoneFree(links, |links|);
    var c := FindFree(links, hint);
    if ch != [] {
      NextOnChain(links, ch, |ch| - 1);
    }
    if c != LONG_LAST_CLUSTER {
      AppendGrows(links, ch, c);
      AppendCount(links, ch, c);
    }
  }

  /** The chain grown so far by a write, from (`links0`, `ch0`). */
  ghost predicate GrownSo(links0: Links, ch0: Chain, links: Links, ch: Chain) {
    Grows(links0, ch0, links, ch) && Free(links) + |ch| == Free(links0) + |ch0|
  }

  lemma GrownMore(l0: Links, c0: Chain, l1: Links, c1: Chain, l2: Links, c2: Chain)
    requires GrownSo(l0, c0, l1, c1) && GrownSo(l1, c1, l2, c2)
    ensures GrownSo(l0, c0, l2, c2)
  {
    GrowsTransitive(l0, c0, l1, c1, l2, c2);
  }

  /** Appends a cluster to the file that is at its last one, or finds the disk full. */
  method Append(d: Dpb, f: FNode) returns (r: int)
    requires d.Valid() && !BadDpb(d.g) && f.Ok(d.links) && (f.chain == [] || f.clusterOffset == |f.chain| - 1)
    modifies d, d.cache, f`dirStart, f`chain
    ensures d.Valid() && FatStep(d, old(d.cache.view), d.cache.view)
            && GrownSo(old(d.links), old(f.chain), d.links, f.chain)
    ensures r == LONG_LAST_CLUSTER ==>
      d.links == old(d.links) && f.chain == old(f.chain) && Free(d.links) == 0 && f.Ok(d.links)
    ensures r != LONG_LAST_CLUSTER ==>
      2 <= r && f.chain == old(f.chain) + [r] && IsChain(d.links, f.chain) && f.dirStart == f.chain[0]
  {
    hide Dpb.Valid, Free, Grows, Extended, FatStep, IsChain;
    SizeOk(d);
    r := Extend(d, f);
    ExtendsLast(old(d.links), old(d.cluster), f.chain, f.cluster, old(f.dirStart), d.links, f.dirStart, r);
    if r != LONG_LAST_CLUSTER {
      f.chain := f.chain + [r];
    } else {
      GrowsRefl(d.links, f.chain);
    }
  }

  lemma GrownStart(links: Links, f: FNode)
    requires f.Ok(links)
    ensures GrownSo(links, f.chain, links, f.chain)
    ensures f.cluster == FREE <==> f.chain == []
  {
    GrowsRefl(links, f.chain);
  }

  /** Number of the cluster of its file that holds byte `offset`. */
  function RelCluster(g: Geometry, offset: nat): nat
    requires g.secsize > 0
  {
    Shr(Div(offset, g.secsize), g.shftcnt)
  }

  /** What `map_cluster` answers for cluster number `rel`, given the lengths of the chain before and after. */
  ghost predicate Mapped(rel: nat, write: bool, o: Outcome, before: nat, after: nat, clusterOffset: nat, free: nat) {
    && (o == Success ==> clusterOffset == rel < after)
    && (!write ==> (o == Success <==> rel < before) && o != DiskFull)
    && (write ==> o != Seek)
    && (write && o == Success ==> after == if rel < before then before else rel + 1)
    && (o == DiskFull ==> before <= after <= rel && free == 0)
  }

  /** The start of `map_cluster`: an empty file that is written gets its first cluster. */
  method MapStart(d: Dpb, f: FNode, write: bool) returns (o: Outcome)
    requires d.Valid() && !BadDpb(d.g) && f.Ok(d.links)
    modifies d, d.cache, f`cluster, f`dirStart, f`chain
    ensures d.Valid() && f.Ok(d.links) && FatStep(d, old(d.cache.view), d.cache.view)
    ensures GrownSo(old(d.links), old(f.chain), d.links, f.chain)
    ensures o == Success ==> f.chain != [] && |f.chain| == if old(f.chain) == [] then 1 else |old(f.chain)|
    ensures o == Success && old(f.chain) == [] ==> write && f.clusterOffset == 0
    ensures o != Success ==> f.chain == [] == old(f.chain) && o == (if write then DiskFull else Seek)
    ensures o == DiskFull ==> Free(d.links) == 0
    ensures !write ==> d.Untouched() && f.chain == old(f.chain) && f.dirStart == old(f.dirStart)
  {
    hide Dpb.Valid, Free, FatStep, GrownSo, IsChain;
    GrownStart(d.links, f);
    FatStepNone(d, d.cache.view);
    if f.cluster == FREE {
      if !write {
        return Seek;
      }
      var cluster := Append(d, f);
      if cluster == LONG_LAST_CLUSTER {
        return DiskFull;
      }
      f.cluster := cluster;
    }
    return Success;
  }

  /** One round of the search in `map_cluster`: to the next cluster of the chain, which a write appends if it
      is missing. */
  method MapNext(d: Dpb, f: FNode, write: bool) returns (o: Outcome)
    requires d.Valid() && !BadDpb(d.g) && f.Ok(d.links) && f.chain != []
    modifies d, d.cache, f`cluster, f`clusterOffset, f`dirStart, f`chain
    ensures d.Valid() && f.Ok(d.links) && f.chain != [] && FatStep(d, old(d.cache.view), d.cache.view)
    ensures GrownSo(old(d.links), old(f.chain), d.links, f.chain)
    ensures o == Success ==> f.clusterOffset == old(f.clusterOffset) + 1
    ensures |f.chain| == |old(f.chain)| || (o == Success && write && |f.chain| == f.clusterOffset + 1 > |old(f.chain)|)
    ensures o != Success ==>
              f.clusterOffset == old(f.clusterOffset) == |f.chain| - 1 && o == (if write then DiskFull else Seek)
    ensures o == DiskFull ==> Free(d.links) == 0
    ensures !write ==> d.Untouched() && f.chain == old(f.chain) && f.dirStart == old(f.dirStart)
  {
    hide Dpb.Valid, Free, FatStep, GrownSo, IsChain;
    GrownStart(d.links, f);
    NextOnChain(d.links, f.chain, f.clusterOffset);
    InRange(d.links, f.chain, f.clusterOffset);
    FatStepNone(d, d.cache.view);
    var cluster: int := d.NextCluster(f.cluster);
    if cluster <= 1 {
      return Seek;
    }
    if cluster == LONG_LAST_CLUSTER {
      if !write {
        return Seek;
      }
      cluster := Append(d, f);
      if cluster == LONG_LAST_CLUSTER {
        return DiskFull;
      }
    }
    f.cluster := cluster;
    f.clusterOffset := f.clusterOffset + 1;
    return Success;
  }

  lemma InRange(links: Links, ch: Chain, i: nat)
    requires IsChain(links, ch) && i < |ch|
    ensures i + 1 < |ch| ==> 1 < ch[i + 1] < LONG_LAST_CLUSTER
  {}

  /** Goes to the cluster of byte `f.offset`, from the cluster last reached or from the start; a write
      appends the clusters that are missing. */
  method MapCluster(d: Dpb, f: FNode, write: bool) returns (o: Outcome)
    requires d.Valid() && !BadDpb(d.g) && f.Ok(d.links) && d.g.secsize > 0
    modifies d, d.cache, f`cluster, f`clusterOffset, f`dirStart, f`chain
    ensures d.Valid() && f.Ok(d.links)
    ensures FatStep(d, old(d.cache.view), d.cache.view) && GrownSo(old(d.links), old(f.chain), d.links, f.chain)
    ensures Mapped(RelCluster(d.g, f.offset), write, o, |old(f.chain)|, |f.chain|, f.clusterOffset, Free(d.links))
    ensures !write ==> d.Untouched() && f.chain == old(f.chain) && f.dirStart == old(f.dirStart)
  {
    hide Dpb.Valid, Free, FatStep, GrownSo, IsChain, Shr, Div;
    ghost var v0, l0, c0 := d.cache.view, d.links, f.chain;
    o := MapStart(d, f, write);
    if o != Success {
      return;
    }
    var relcluster := RelCluster(d.g, f.offset);
    if relcluster < f.clusterOffset {
      f.cluster := f.dirStart;
      f.clusterOffset := 0;
    }
    while f.clusterOffset != relcluster
      invariant d.Valid() && f.Ok(d.links) && f.chain != [] && f.clusterOffset <= relcluster
      invariant FatStep(d, v0, d.cache.view) && GrownSo(l0, c0, d.links, f.chain)
      invariant |f.chain| == |c0| || |f.chain| == f.clusterOffset + 1 > |c0|
      invariant !write ==> d.Untouched() && f.chain == c0 && f.dirStart == old(f.dirStart)
      decreases relcluster - f.clusterOffset
    {
      ghost var v1, l1, c1 := d.cache.view, d.links, f.chain;
      o := MapNext(d, f, write);
      FatStepMore(d, v0, v1, d.cache.view);
      GrownMore(l0, c0, l1, c1, d.links, f.chain);
      if o != Success {
        return;
      }
    }
    return Success;
  }

  // ---------- giving clusters back ----------

  /** Frees the chain that starts at `start`.  Ends on every table, each round freeing one entry. */
  method WipeOutClusters(d: Dpb, start: nat)
    requires d.Valid() && !BadDpb(d.g)
    modifies d, d.cache
    ensures d.Valid() && FatStep(d, old(d.cache.view), d.cache.view)
    ensures d.links == WipeOut(old(d.links), start) && d.cluster == WipeHint(old(d.links), old(d.cluster), start)
  {
    hide BlockIO.BlockCache.Valid, LinksIn, CS.Sized, Geometry.Ok, Free, FatStep, WipeOut, WipeHint, Next;
    var st := start;
    ghost var v0, l0, h0 := d.cache.view, d.links, d.cluster;
    FatStepNone(d, v0);
    while st != LONG_LAST_CLUSTER
      invariant d.Valid() && FatStep(d, v0, d.cache.view)
      invariant WipeOut(d.links, st) == WipeOut(l0, start)
      invariant WipeHint(d.links, d.cluster, st) == WipeHint(l0, h0, start)
      decreases d.g.size + 1 - Free(d.links)
    {
      WipeRound(d.links, d.cluster, st);
      var next := d.NextCluster(st);
      if next <= 1 {
        return;
      }
      ghost var v1 := d.cache.view;
      var r := StoreLink(d, st, FREE);
      FatStepMore(d, v0, v1, d.cache.view);
      if r != 0 {
        return;
      }
      if d.cluster == UNKNCLUSTER || d.cluster > st {
        d.cluster := st;
      }
      st := next;
    }
    WipeRound(d.links, d.cluster, st);
  }

  /** Number of clusters that `size` bytes need. */
  function ClustersFor(g: Geometry, size: nat): nat
    requires g.secsize > 0
  {
    if size == 0 then 0 else RelCluster(g, size - 1) + 1
  }

  /** Cuts the chain of a file to its size, which is its position; fails if the chain is shorter. */
  method ShrinkFile(d: Dpb, f: FNode) returns (ok: bool)
    requires d.Valid() && !BadDpb(d.g) && f.Ok(d.links) && d.g.secsize > 0 && f.dirSize == f.offset
    modifies d, d.cache, f`offset, f`cluster, f`clusterOffset, f`dirStart, f`chain
    ensures d.Valid() && f.Ok(d.links) && FatStep(d, old(d.cache.view), d.cache.view)
    ensures f.offset == old(f.offset)
    ensures var n := ClustersFor(d.g, f.offset);
      && ok == (n <= |old(f.chain)|)
      && (!ok ==> d.links == old(d.links) && f.chain == old(f.chain))
      && (ok ==> f.chain == old(f.chain)[..n] && Shrinks(old(d.links), old(f.chain), d.links, f.chain))
  {
    hide Dpb.Valid, FatStep, WipeOut, WipeHint, Next, Shr, Div, GrownSo, IsChain, Shrinks, Cut, Free;
    ghost var l0, ch := d.links, f.chain;
    GrownStart(d.links, f);
    FirstCluster(d.g);
    FatStepNone(d, d.cache.view);
    var lastoffset := f.offset;
    if f.offset != 0 {
      f.offset := f.offset - 1;
    } else if f.cluster == FREE {
      ShrinksNone(l0);
      return true;
    }
    var mapped := MapCluster(d, f, false);
    if mapped != Success {
      f.offset := lastoffset;
      return false;
    }
    ok := CutHere(d, f);
    f.offset := lastoffset;
  }

  lemma FirstCluster(g: Geometry)
    requires g.secsize > 0
    ensures RelCluster(g, 0) == 0
  {
    DivModUnique(0, g.secsize, 0, 0);
    ShrIs(0, g.shftcnt);
    DivModUnique(0, Pow2(g.shftcnt), 0, 0);
  }

  lemma ShrinksNone(links: Links)
    ensures Shrinks(links, [], links, [])
  {}

  /** The cut itself, once the last cluster to keep has been reached. */
  method CutHere(d: Dpb, f: FNode) returns (ok: bool)
    requires d.Valid() && !BadDpb(d.g) && f.Ok(d.links) && f.chain != [] && (f.dirSize == 0 ==> f.clusterOffset == 0)
    modifies d, d.cache, f`cluster, f`dirStart, f`chain
    ensures d.Valid() && f.Ok(d.links) && FatStep(d, old(d.cache.view), d.cache.view) && ok
    ensures var n := if f.dirSize == 0 then 0 else f.clusterOffset + 1;
      && n <= |old(f.chain)| && f.chain == old(f.chain)[..n]
      && Shrinks(old(d.links), old(f.chain), d.links, f.chain)
  {
    hide Dpb.Valid, FatStep, WipeOut, WipeHint, Next, IsChain, Shrinks, Cut, Free;
    ghost var v0, l0, ch := d.cache.view, d.links, f.chain;
    ghost var n := if f.dirSize == 0 then 0 else f.clusterOffset + 1;
    SizeOk(d);
    CutPlan(l0, ch, f.clusterOffset, n);
    FatStepNone(d, v0);
    var st := f.cluster;
    var next: int := d.NextCluster(st);
    if next <= 1 {
      return false;
    }
    var last;
    if f.dirSize == 0 {
      f.cluster := FREE;
      f.dirStart := FREE;
      last := FREE;
    } else {
      if next == LONG_LAST_CLUSTER {
        return true;
      }
      last := LONG_LAST_CLUSTER;
    }
    f.chain := f.chain[..n];
    ok := CutLinks(d, st, last, next);
  }

  /** Ends or frees the chain at `st`, wipes out what followed and flushes the drive. */
  method CutLinks(d: Dpb, st: nat, last: nat, next: nat) returns (ok: bool)
    requires d.Valid() && !BadDpb(d.g) && 2 <= st < |d.links| && (last == FREE || last == LONG_LAST_CLUSTER)
    modifies d, d.cache
    ensures d.Valid() && FatStep(d, old(d.cache.view), d.cache.view) && ok
    ensures d.links == WipeOut(old(d.links)[st := last], next)
  {
    hide Dpb.Valid, FatStep, WipeOut, WipeHint, Free;
    ghost var v1 := d.cache.view;
    var r := StoreLink(d, st, last);
    ghost var v2 := d.cache.view;
    if r != 0 {
      return false;
    }
    WipeOutClusters(d, next);
    FatStepMore(d, v1, v2, d.cache.view);
    FlushUnit(d);
    return true;
  }

  /** `flush_buffers`: nothing seen changes, and the disk of the unit comes up to it. */
  method FlushUnit(d: Dpb)
    requires d.Valid()
    modifies d.cache
    ensures d.Valid() && d.cache.view == old(d.cache.view)
    ensures forall k: Block :: k.unit == d.g.unit ==> d.cache.disk[k] == d.cache.view[k]
  {
    hide BlockIO.BlockCache.Valid, LinksIn, CS.Sized, Geometry.Ok, Free;
    d.cache.FlushBuffers(d.g.unit);
  }

  /** What `shrink_file` finds at the last cluster to keep, and what its two writes come to. */
  lemma CutPlan(links: Links, ch: Chain, i: nat, n: nat)
    requires IsChain(links, ch) && i < |ch| && (n == i + 1 || (n == 0 && i == 0))
    ensures n <= |ch| && 2 <= ch[i] < |links| && IsFileChain(Cut(links, ch, n), ch[..n])
    ensures Shrinks(links, ch, Cut(links, ch, n), ch[..n])
    ensures var next := Next(links, ch[i]);
      && next > 1
      && (next == LONG_LAST_CLUSTER <==> i == |ch| - 1)
      && (n > 0 && next == LONG_LAST_CLUSTER ==> Cut(links, ch, n) == links && ch[..n] == ch)
      && (n > 0 && next != LONG_LAST_CLUSTER ==> WipeOut(links[ch[i] := LONG_LAST_CLUSTER], next) == Cut(links, ch, n))
      && (n == 0 ==> WipeOut(links[ch[i] := FREE], next) == Cut(links, ch, n))
  {
    hide IsChain, Shrinks, Cut, WipeOut, Next;
    PlaceOnChain(links, ch, i);
    CutIs(links, ch, n);
    if n < |ch| {
      CutByWipe(links, ch, n);
    } else {
      CutAll(links, ch);
    }
  }

  lemma PlaceOnChain(links: Links, ch: Chain, i: nat)
    requires IsChain(links, ch) && i < |ch|
    ensures 2 <= ch[i] < |links| && Next(links, ch[i]) > 1
    ensures Next(links, ch[i]) == if i == |ch| - 1 then LONG_LAST_CLUSTER else ch[i + 1]
    ensures Next(links, ch[i]) == LONG_LAST_CLUSTER <==> i == |ch| - 1
  {
    NextOnChain(links, ch, i);
  }

  lemma CutIs(links: Links, ch: Chain, n: nat)
    requires IsChain(links, ch) && n <= |ch|
    ensures n > 0 ==> ch[n - 1] < |links|
    ensures Shrinks(links, ch, Cut(links, ch, n), ch[..n]) && IsFileChain(Cut(links, ch, n), ch[..n])
  {
    hide Cut;
    CutShrinks(links, ch, n);
  }

  // ---------- counting ----------

  /** The number of free clusters: the counter if it is known, else counted. */
  method DosFree(d: Dpb) returns (r: nat)
    requires d.Valid() && !BadDpb(d.g)
    modifies d, d.cache
    ensures d.Valid() && d.links == old(d.links) && d.cache.view == old(d.cache.view)
    ensures r == Free(d.links) == d.nfreeclst
    ensures old(d.nfreeclst) != UNKNCLSTFREE || r == 0 ==> d.cluster == old(d.cluster)
    ensures old(d.nfreeclst) == UNKNCLSTFREE && r > 0 ==> d.cluster == FirstFree(d.links, 2, |d.links|)
  {
    hide BlockIO.BlockCache.Valid, LinksIn, CS.Sized, Geometry.Ok;
    var maxCluster := d.g.size;
    if d.nfreeclst != UNKNCLSTFREE {
      return d.nfreeclst;
    }
    var cnt := 0;
    SizeOk(d);
    var i := 2;
    while i <= maxCluster
      invariant 2 <= i && (i <= maxCluster + 1 || i == 2)
      invariant d.Valid() && d.links == old(d.links) && d.cache.view == old(d.cache.view)
                && d.nfreeclst == old(d.nfreeclst)
      invariant i <= maxCluster + 1 ==> cnt == FreeIn(d.links, i)
      invariant cnt == 0 ==>
                d.cluster == old(d.cluster) && (i <= maxCluster + 1 ==> FirstFree(d.links, 2, |d.links|) >= i)
      invariant cnt > 0 ==> d.cluster == FirstFree(d.links, 2, |d.links|) && i <= maxCluster + 1
    {
      var free := d.IsFreeCluster(i);
      if free {
        if cnt == 0 {
          d.cluster := i;
        }
        cnt := cnt + 1;
      }
      i := i + 1;
    }
    d.nfreeclst := cnt;
    return cnt;
  }
}
