/**
 Whole runs of the routines of kernel/blockio.c: the buffers and the disk together refine a plain disk.
 */
module CacheRuns {
  import opened Disks
  import opened CacheSpec
  import BlockIO

  /** What a user of the cache or the kernel does: gets a block into the buffer at `o`; gets one to overwrite all of it,
      which only sectors outside the FATs are; writes a buffer back; stores into the buffer of block `k`; marks a buffer
      as one of a FAT, or as one to recycle; goes once over the list; writes a run directly. */
  datatype Op =
    | Get(o: nat, k: Block)
    | Replace(o: nat, k: Block, bytes: Sector)
    | Recycle(o: nat)
    | WriteBack(o: nat)
    | Save(o: nat, k: Block, bytes: Sector)
    | Mark(o: nat)
    | Go(ring: seq<nat>, p: Pass)
    | Direct(ring: seq<nat>, unit: int, no: int, secs: seq<Sector>)

  ghost predicate Step(geo: Layouts, secsize: nat, s: Store, op: Op, s': Store) {
    match op
    case Get(o, k) =>
      o in s.bufs && !InMirror(geo, k) && (Held(s.bufs, k) ==> o == Holder(s.bufs, k)) && s' == Got(s, o, k, false)
    case Replace(o, k, data) =>
      && o in s.bufs && !InFat(geo, k) && !InMirror(geo, k) && (Held(s.bufs, k) ==> o == Holder(s.bufs, k))
      && |data| == secsize && o in Got(s, o, k, true).bufs && s' == Put(Got(s, o, k, true), o, data)
    case Recycle(o) => o in s.bufs && s' == Uncached(s, o)
    case WriteBack(o) => o in s.bufs && s' == Flush1(s, o)
    case Save(o, k, data) =>
      && o in s.bufs && Holds(s.bufs[o], k) && |data| == secsize && (InFat(geo, k) ==> s.bufs[o].fat)
         && s' == Put(s, o, data)
    case Mark(o) =>
      && o in s.bufs && s.bufs[o].valid && InFat(geo, s.bufs[o].tag) && geo(s.bufs[o].tag.unit).fats >= 1
      && s' == MarkFat(s, o, geo(s.bufs[o].tag.unit).fats, geo(s.bufs[o].tag.unit).fatsize)
    case Go(ring, p) => RingOf(ring, s.bufs.Keys) && (p.Delete? ==> p.reading) && s' == Sweep(s, ring, p)
    case Direct(ring, unit, no, data) =>
      RingOf(ring, s.bufs.Keys) && AllSized(secsize, data) && OutsideFat(geo, unit, no, |data|)
        && s' == Overwritten(s, ring, unit, no, data)
  }

  /** The same on a plain disk, on which a FAT sector is written in all its copies. */
  ghost function Plain(geo: Layouts, d: Disk, op: Op): Disk {
    match op
    case Save(_, k, data) => Stored(geo, d, k, InFat(geo, k), data)
    case Replace(_, k, data) => d[k := data]
    case Direct(_, unit, no, data) => WriteRun(d, unit, no, data)
    case _ => d
  }

  ghost predicate InOrder(geo: Layouts, secsize: nat, s: Store) { Sound(geo, secsize, s) && Coherent(s) }

  lemma StepRefines(geo: Layouts, secsize: nat, s: Store, op: Op, s': Store)
    requires InOrder(geo, secsize, s) && Step(geo, secsize, s, op, s')
    ensures InOrder(geo, secsize, s') && View(geo, s') == Plain(geo, View(geo, s), op)
  {
    hide Sound, Coherent, View, Sweep, Got, Flush1, Put, MarkFat, Overwritten, RingOf, Held, InFat, InMirror, Stored,
         WriteRun;
    match op
    case Get(o, k) => GotKeeps(geo, secsize, s, o, k, false);
    case Replace(o, k, data) => ReplaceRefines(geo, secsize, s, o, k, data);
    case Recycle(o) => UncacheKeeps(geo, secsize, s, o);
    case WriteBack(o) => Flush1Keeps(geo, secsize, s, o);
    case Save(o, k, data) => StoreRefines(geo, secsize, s, o, k, data);
    case Mark(o) => MarkFatKeeps(geo, secsize, s, o);
    case Go(ring, p) => GoKeeps(geo, secsize, s, ring, p);
    case Direct(ring, unit, no, data) => DirectWrite(geo, secsize, s, ring, unit, no, data);
  }

  lemma StoreRefines(geo: Layouts, secsize: nat, s: Store, o: nat, k: Block, data: Sector)
    requires InOrder(geo, secsize, s) && o in s.bufs && Holds(s.bufs[o], k) && |data| == secsize
    requires InFat(geo, k) ==> s.bufs[o].fat
    ensures InOrder(geo, secsize, Put(s, o, data))
            && View(geo, Put(s, o, data)) == Stored(geo, View(geo, s), k, InFat(geo, k), data)
  {
    assert Good(geo, secsize, s.bufs[o]);
    hide View, Stored;
    PutSound(geo, secsize, s, o, data);
    PutStores(geo, secsize, s, o, data);
    PutCoherent(s, o, data);
  }

  lemma ReplaceRefines(geo: Layouts, secsize: nat, s: Store, o: nat, k: Block, data: Sector)
    requires InOrder(geo, secsize, s) && o in s.bufs && !InFat(geo, k) && !InMirror(geo, k) && |data| == secsize
    requires Held(s.bufs, k) ==> o == Holder(s.bufs, k)
    ensures o in Got(s, o, k, true).bufs
    ensures var s' := Put(Got(s, o, k, true), o, data);
      InOrder(geo, secsize, s') && View(geo, s') == View(geo, s)[k := data]
  {
    hide Sound, Coherent, View, Got, Good, InFat, InMirror, Held, Stored, Put, Clean;
    var s1 := Got(s, o, k, true);
    GotKeeps(geo, secsize, s, o, k, true);
    OthersClean(geo, secsize, s, o, k);
    NoFatFlag(geo, secsize, s1, o);
    PutSound(geo, secsize, s1, o, data);
    PutStores(geo, secsize, s1, o, data);
    PutCoherent(s1, o, data);
    StoredAlone(geo, View(geo, s), k, s1.bufs[o].data, data);
  }

  lemma NoFatFlag(geo: Layouts, secsize: nat, s: Store, o: nat)
    requires Sound(geo, secsize, s) && o in s.bufs && s.bufs[o].valid && !InFat(geo, s.bufs[o].tag)
    ensures !s.bufs[o].fat
  {
    assert Good(geo, secsize, s.bufs[o]);
  }

  lemma StoredAlone(geo: Layouts, v: Disk, k: Block, data0: Sector, data: Sector)
    ensures Stored(geo, v[k := data0], k, false, data) == v[k := data]
  {}

  /** Only the buffer to be overwritten may differ from its sector on the disk. */
  lemma OthersClean(geo: Layouts, secsize: nat, s: Store, o: nat, k: Block)
    requires InOrder(geo, secsize, s) && !InMirror(geo, k) && o in s.bufs
             && (Held(s.bufs, k) ==> o == Holder(s.bufs, k))
    ensures forall o' :: o' in Got(s, o, k, true).bufs && o' != o ==>
              Clean(Got(s, o, k, true).bufs[o'], Got(s, o, k, true).disk)
  {
    hide Sound, View, Held, Clean, InMirror, Flush1;
    SearchKeeps(geo, secsize, s, o, k);
    Flush1Keeps(geo, secsize, Marked(s, o, k), o);
  }

  lemma GoKeeps(geo: Layouts, secsize: nat, s: Store, ring: seq<nat>, p: Pass)
    requires InOrder(geo, secsize, s) && RingOf(ring, s.bufs.Keys) && (p.Delete? ==> p.reading)
    ensures InOrder(geo, secsize, Sweep(s, ring, p)) && View(geo, Sweep(s, ring, p)) == View(geo, s)
  {
    hide Sound, Coherent, View, Sweep, RingOf, Done;
    assert forall k {:trigger Loses(p, k)} :: !Loses(p, k);
    SweepIs(geo, secsize, s, ring, p);
    PassView(geo, secsize, s, Sweep(s, ring, p), p);
  }

  ghost predicate Run(geo: Layouts, secsize: nat, ss: seq<Store>, ops: seq<Op>) {
    |ss| == |ops| + 1 && forall i {:trigger ops[i]} :: 0 <= i < |ops| ==> Step(geo, secsize, ss[i], ops[i], ss[i + 1])
  }

  ghost function PlainRun(geo: Layouts, d: Disk, ops: seq<Op>): Disk {
    if ops == [] then d else Plain(geo, PlainRun(geo, d, ops[..|ops| - 1]), ops[|ops| - 1])
  }

  /** At every point of every run, what is seen is what the same run leaves on a plain disk. */
  lemma {:induction false} RunRefines(geo: Layouts, secsize: nat, ss: seq<Store>, ops: seq<Op>, n: nat)
    requires Run(geo, secsize, ss, ops) && InOrder(geo, secsize, ss[0]) && n <= |ops|
    ensures InOrder(geo, secsize, ss[n]) && View(geo, ss[n]) == PlainRun(geo, View(geo, ss[0]), ops[..n])
  {
    hide InOrder, View, Step, Plain;
    if n > 0 {
      RunRefines(geo, secsize, ss, ops, n - 1);
      assert ops[n - 1] == ops[..n][n - 1] && ops[..n][..n - 1] == ops[..n - 1];
      StepRefines(geo, secsize, ss[n - 1], ops[n - 1], ss[n]);
    }
  }

  /** On a plain disk the copies of the FATs stay in agreement. */
  lemma {:induction false} PlainMirrors(geo: Layouts, secsize: nat, ss: seq<Store>, ops: seq<Op>, n: nat)
    requires Run(geo, secsize, ss, ops) && InOrder(geo, secsize, ss[0]) && MirrorsAgree(geo, View(geo, ss[0]))
             && n <= |ops|
    ensures MirrorsAgree(geo, View(geo, ss[n]))
  {
    hide InOrder, View, Step, MirrorsAgree;
    if n > 0 {
      PlainMirrors(geo, secsize, ss, ops, n - 1);
      RunRefines(geo, secsize, ss, ops, n - 1);
      StepRefines(geo, secsize, ss[n - 1], ops[n - 1], ss[n]);
      StepMirrors(geo, secsize, ss[n - 1], ops[n - 1], ss[n]);
    }
  }

  lemma StepMirrors(geo: Layouts, secsize: nat, s: Store, op: Op, s': Store)
    requires InOrder(geo, secsize, s) && Step(geo, secsize, s, op, s') && MirrorsAgree(geo, View(geo, s))
    ensures MirrorsAgree(geo, Plain(geo, View(geo, s), op))
  {
    hide View, MirrorsAgree, Stored, WriteRun;
    match op
    case Save(o, k, data) =>
      assert Good(geo, secsize, s.bufs[o]);
      StoredKeepsMirrors(geo, View(geo, s), k, InFat(geo, k), data);
    case Replace(o, k, data) => ReplaceMirrors(geo, View(geo, s), k, data);
    case Direct(ring, unit, no, data) => WriteRunKeepsMirrors(geo, View(geo, s), unit, no, data);
    case _ =>
  }

  lemma ReplaceMirrors(geo: Layouts, v: Disk, k: Block, data: Sector)
    requires MirrorsAgree(geo, v) && !InFat(geo, k) && !InMirror(geo, k)
    ensures MirrorsAgree(geo, v[k := data])
  {
    forall m | InMirror(geo, m) ensures v[k := data][m] == v[k := data][Primary(geo, m)] {
      assert InFat(geo, Primary(geo, m));
    }
  }

  /** If all copies of the FATs agree at first, then at every point of every run a sector in which they differ on the
      disk has a valid dirty FAT buffer waiting to be written. */
  lemma RunPending(geo: Layouts, secsize: nat, ss: seq<Store>, ops: seq<Op>, n: nat, k: Block)
    requires Run(geo, secsize, ss, ops) && InOrder(geo, secsize, ss[0]) && MirrorsAgree(geo, View(geo, ss[0]))
             && n <= |ops|
    requires InMirror(geo, k) && ss[n].disk[k] != ss[n].disk[Primary(geo, k)]
    ensures var p := Primary(geo, k);
      Held(ss[n].bufs, p) && ss[n].bufs[Holder(ss[n].bufs, p)].dirty && ss[n].bufs[Holder(ss[n].bufs, p)].fat
  {
    hide View, Step, MirrorsAgree, Sound, Coherent, Held, InMirror, InFat;
    RunRefines(geo, secsize, ss, ops, n);
    PlainMirrors(geo, secsize, ss, ops, n);
    DifferingCopiesArePending(geo, secsize, ss[n], k);
  }

  /** After a flush the disk is what the run leaves on a plain disk, and all copies agree on it. */
  lemma RunThenFlush(geo: Layouts, secsize: nat, ss: seq<Store>, ops: seq<Op>, ring: seq<nat>)
    requires Run(geo, secsize, ss, ops) && InOrder(geo, secsize, ss[0]) && RingOf(ring, ss[|ops|].bufs.Keys)
    ensures Sweep(ss[|ops|], ring, FlushAll).disk == PlainRun(geo, View(geo, ss[0]), ops)
    ensures MirrorsAgree(geo, View(geo, ss[0])) ==> MirrorsAgree(geo, Sweep(ss[|ops|], ring, FlushAll).disk)
  {
    hide View, Step, MirrorsAgree, Sound, Coherent, RingOf, Sweep, PlainRun;
    RunRefines(geo, secsize, ss, ops, |ops|);
    assert ops[..|ops|] == ops;
    FlushIsComplete(geo, secsize, ss[|ops|], ring, FlushAll);
    assert forall k: Block :: Writes(FlushAll, k);
    if MirrorsAgree(geo, View(geo, ss[0])) {
      PlainMirrors(geo, secsize, ss, ops, |ops|);
    }
  }

  // ---------- calls are steps ----------

  /** What is asked of the cache. */
  datatype Request =
    | Fetch(k: Block)
    | Rewrite(k: Block, bytes: Sector)
    | Change(o: nat, at: nat, part: Sector)
    | FatMark(o: nat, copies: nat, offset: nat)
    | LetGo(o: nat)
    | FlushEvery
    | FlushDrive(unit: int)
    | TakeRun(unit: int, no: int, n: nat)
    | PutRun(unit: int, no: int, secs: seq<Sector>)

  ghost predicate Allowed(c: BlockIO.BlockCache, q: Request)
    reads c
  {
    match q
    case Fetch(k) => !InMirror(c.geo, k)
    case Rewrite(k, bytes) => !InFat(c.geo, k) && !InMirror(c.geo, k) && |bytes| == c.secsize
    case Change(o, at, part) =>
      && o in c.bufs && c.bufs[o].valid && (InFat(c.geo, c.bufs[o].tag) ==> c.bufs[o].fat)
      && at + |part| <= |c.bufs[o].data| == c.secsize
    case FatMark(o, copies, offset) =>
      && o in c.bufs && c.bufs[o].valid && InFat(c.geo, c.bufs[o].tag)
      && copies == c.geo(c.bufs[o].tag.unit).fats >= 1 && offset == c.geo(c.bufs[o].tag.unit).fatsize
    case LetGo(o) => o in c.bufs
    case FlushEvery => true
    case FlushDrive(_) => true
    case TakeRun(unit, no, n) => OutsideFat(c.geo, unit, no, n)
    case PutRun(unit, no, secs) => OutsideFat(c.geo, unit, no, |secs|) && AllSized(c.secsize, secs)
  }

  method FetchCall(c: BlockIO.BlockCache, k: Block) returns (ghost op: Op)
    requires c.Valid() && !InMirror(c.geo, k)
    modifies c
    ensures Step(c.geo, c.secsize, old(c.Contents()), op, c.Contents())
  {
    hide BlockIO.IsList, Sound, Coherent, View, Sized, Got, RingOf, Held, Holder, InMirror, Searched, Front,
         BlockIO.Stays, Holds;
    var bp := c.GetBlk(k.no, k.unit, false);
    Found(old(c.ring), old(c.Contents()), k);
    op := Get(bp, k);
  }

  method RewriteCall(c: BlockIO.BlockCache, k: Block, bytes: Sector) returns (ghost op: Op)
    requires c.Valid() && !InFat(c.geo, k) && !InMirror(c.geo, k) && |bytes| == c.secsize
    modifies c
    ensures Step(c.geo, c.secsize, old(c.Contents()), op, c.Contents())
  {
    hide BlockIO.IsList, Sound, Coherent, View, Sized, Got, Put, RingOf, Held, Holder, InFat, InMirror, Searched, Front,
         BlockIO.Stays, Holds;
    var bp := c.GetBlk(k.no, k.unit, true);
    Found(old(c.ring), old(c.Contents()), k);
    SizeOf(c, bp);
    ghost var data := c.bufs[bp].data;
    c.StoreBytes(bp, 0, bytes);
    Whole(bytes, data);
    op := Replace(bp, k, bytes);
  }

  method BufferCall(c: BlockIO.BlockCache, q: Request) returns (ghost op: Op)
    requires c.Valid() && Allowed(c, q) && (q.Change? || q.FatMark? || q.LetGo?)
    modifies c
    ensures Step(c.geo, c.secsize, old(c.Contents()), op, c.Contents())
  {
    hide BlockIO.IsList, Sound, Coherent, View, Sized, InFat, Stored;
    match q
    case Change(o, at, part) =>
      op := Save(o, c.bufs[o].tag, Patched(c.bufs[o].data, at, part));
      c.Put(o, at, part);
    case FatMark(o, copies, offset) =>
      op := Mark(o);
      c.MarkFat(o, copies, offset);
    case LetGo(o) =>
      op := Recycle(o);
      c.Uncache(o);
  }

  method PassCall(c: BlockIO.BlockCache, q: Request) returns (ghost op: Op)
    requires c.Valid() && Allowed(c, q) && (q.FlushEvery? || q.FlushDrive? || q.TakeRun? || q.PutRun?)
    modifies c
    ensures Step(c.geo, c.secsize, old(c.Contents()), op, c.Contents())
  {
    hide BlockIO.BlockCache.Valid, Sweep, RingOf, Overwritten, OutsideFat, AllSized;
    match q
    case FlushEvery =>
      c.Flush();
      op := Go(c.ring, Pass.FlushAll);
    case FlushDrive(unit) =>
      c.FlushBuffers(unit);
      op := Go(c.ring, Pass.FlushUnit(unit));
    case TakeRun(unit, no, n) =>
      var data := c.ReadRun(unit, no, n);
      op := Go(c.ring, Delete(no, no + n - 1, unit, true));
    case PutRun(unit, no, secs) =>
      c.WriteRun(unit, no, secs);
      op := Direct(c.ring, unit, no, secs);
  }

  /** Every call of the routines of the cache, by those who use it as they may, is a step. */
  method Call(c: BlockIO.BlockCache, q: Request) returns (ghost op: Op)
    requires c.Valid() && Allowed(c, q)
    modifies c
    ensures Step(c.geo, c.secsize, old(c.Contents()), op, c.Contents())
  {
    hide BlockIO.BlockCache.Valid, Step;
    match q
    case Fetch(k) => op := FetchCall(c, k);
    case Rewrite(k, bytes) => op := RewriteCall(c, k, bytes);
    case Change(_, _, _) => op := BufferCall(c, q);
    case FatMark(_, _, _) => op := BufferCall(c, q);
    case LetGo(_) => op := BufferCall(c, q);
    case _ => op := PassCall(c, q);
  }

  lemma Found(ring: seq<nat>, s: Store, k: Block)
    requires RingOf(ring, s.bufs.Keys)
    ensures Held(s.bufs, k) ==> Searched(ring, s.bufs, k) == Holder(s.bufs, k)
  {
    if Held(s.bufs, k) {
      SearchedHit(ring, s.bufs, k);
    }
  }

  lemma SizeOf(c: BlockIO.BlockCache, o: nat)
    requires c.Usable() && o in c.bufs
    ensures |c.bufs[o].data| == c.secsize
  {
    assert Good(c.geo, c.secsize, c.bufs[o]);
  }

  lemma Whole(bytes: Sector, data: Sector)
    requires |bytes| == |data|
    ensures Patched(data, 0, bytes) == bytes
  {}
}
