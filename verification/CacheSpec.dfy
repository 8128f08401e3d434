/**
 The sector cache as a value: the LRU ring as a sequence of buffer addresses, the buffers by address, and
 the disk below.  The functions here say what each routine of kernel/blockio.c does to that value; the
 lemmas say what a user of the cache relies on.
 */
module CacheSpec {
  import opened Disks

  /** A `struct buffer` without its two links.  BFR_DATA and BFR_DIR are never read and are left out. */
  datatype Buffer = Buffer(tag: Block, valid: bool, dirty: bool, fat: bool, uncache: bool,
                           copies: nat, offset: nat, data: Sector)

  type Buffers = map<nat, Buffer>

  /** The buffers and the disk, without the order in which buffers are recycled. */
  datatype Store = Store(bufs: Buffers, disk: Disk)

  predicate Holds(b: Buffer, k: Block) { b.valid && b.tag == k }

  ghost predicate Held(bufs: Buffers, k: Block) {
    exists o :: o in bufs && Holds(bufs[o], k)
  }

  ghost function Holder(bufs: Buffers, k: Block): (o: nat)
    requires Held(bufs, k)
    ensures o in bufs && Holds(bufs[o], k)
  {
    var o :| o in bufs && Holds(bufs[o], k); o
  }

  // ---------- invariants of the contents ----------

  /** At most one valid buffer for each (unit, block). */
  ghost predicate Unique(bufs: Buffers) {
    forall o, o' :: o in bufs && o' in bufs && Holds(bufs[o], bufs[o'].tag) && bufs[o'].valid ==> o == o'
  }

  /** Only first copies of the FAT are cached; the FAT flag comes with the mirrors' stride, and no
      FAT sector is dirty without it. */
  ghost predicate Tagged(geo: Layouts, b: Buffer) {
    b.valid ==>
      && !InMirror(geo, b.tag)
      && (b.fat ==> InFat(geo, b.tag) && b.copies == geo(b.tag.unit).fats >= 1
                    && b.offset == geo(b.tag.unit).fatsize)
      && (b.dirty && InFat(geo, b.tag) ==> b.fat)
  }

  ghost predicate Good(geo: Layouts, secsize: nat, b: Buffer) {
    Tagged(geo, b) && |b.data| == secsize
  }

  ghost predicate Sized(secsize: nat, disk: Disk) {
    forall k :: |disk[k]| == secsize
  }

  ghost predicate Sound(geo: Layouts, secsize: nat, s: Store) {
    && Unique(s.bufs)
    && Sized(secsize, s.disk)
    && forall o :: o in s.bufs ==> Good(geo, secsize, s.bufs[o])
  }

  /** A valid buffer that is not dirty repeats its disk sector. */
  ghost predicate Clean(b: Buffer, disk: Disk) {
    b.valid && !b.dirty ==> b.data == disk[b.tag]
  }

  ghost predicate Coherent(s: Store) {
    forall o :: o in s.bufs ==> Clean(s.bufs[o], s.disk)
  }

  // ---------- the logical disk ----------

  /** `k` mirrors a FAT sector whose buffer still has to be written. */
  ghost predicate Shadowed(geo: Layouts, bufs: Buffers, k: Block) {
    && InMirror(geo, k) && Held(bufs, Primary(geo, k))
    && bufs[Holder(bufs, Primary(geo, k))].dirty && bufs[Holder(bufs, Primary(geo, k))].fat
  }

  /** The sector a user of the cache sees: the valid buffer if there is one, for a mirror the pending
      write of its first copy, else the disk. */
  ghost function Sees(geo: Layouts, s: Store, k: Block): Sector {
    if Held(s.bufs, k) then s.bufs[Holder(s.bufs, k)].data
    else if Shadowed(geo, s.bufs, k) then s.bufs[Holder(s.bufs, Primary(geo, k))].data
    else s.disk[k]
  }

  ghost function View(geo: Layouts, s: Store): Disk {
    imap k: Block :: Sees(geo, s, k)
  }

  lemma HolderIs(bufs: Buffers, o: nat, k: Block)
    requires Unique(bufs) && o in bufs && Holds(bufs[o], k)
    ensures Held(bufs, k) && Holder(bufs, k) == o
  {}

  /** One buffer changes and keeps its block: every holder stays. */
  lemma SameHolder(bufs: Buffers, o: nat, b: Buffer, k: Block)
    requires Unique(bufs) && o in bufs && b.valid == bufs[o].valid && b.tag == bufs[o].tag
    ensures Unique(bufs[o := b])
    ensures Held(bufs[o := b], k) == Held(bufs, k)
    ensures Held(bufs, k) ==> Holder(bufs[o := b], k) == Holder(bufs, k)
  {
    var bufs' := bufs[o := b];
    assert forall o' :: o' in bufs ==> Holds(bufs[o'], k) == Holds(bufs'[o'], k);
    if Held(bufs, k) {
      HolderIs(bufs', Holder(bufs, k), k);
    }
    if Held(bufs', k) {
      HolderIs(bufs, Holder(bufs', k), k);
    }
  }

  /** Changing one buffer without changing its block, data or pending mirrors. */
  lemma Retouch(geo: Layouts, secsize: nat, s: Store, o: nat, b: Buffer)
    requires Sound(geo, secsize, s) && o in s.bufs && Good(geo, secsize, b)
    requires var b0 := s.bufs[o]; b.valid == b0.valid && b.tag == b0.tag && b.data == b0.data && b.dirty == b0.dirty
    requires s.bufs[o].valid && s.bufs[o].dirty ==> b.fat == s.bufs[o].fat
    ensures var s' := s.(bufs := s.bufs[o := b]);
      Sound(geo, secsize, s') && View(geo, s') == View(geo, s) && (Coherent(s) ==> Coherent(s'))
  {
    var s' := s.(bufs := s.bufs[o := b]);
    SameHolder(s.bufs, o, b, b.tag);
    forall k ensures Sees(geo, s', k) == Sees(geo, s, k) {
      SameHolder(s.bufs, o, b, k);
      if InMirror(geo, k) {
        SameHolder(s.bufs, o, b, Primary(geo, k));
      }
    }
    assert Clean(s.bufs[o], s.disk) == Clean(b, s.disk);
  }

  lemma SoundUnique(geo: Layouts, secsize: nat, s: Store)
    requires Sound(geo, secsize, s)
    ensures Unique(s.bufs)
  {}

  lemma ViewSized(geo: Layouts, secsize: nat, s: Store)
    requires Sound(geo, secsize, s)
    ensures Sized(secsize, View(geo, s))
  {
    forall k ensures |Sees(geo, s, k)| == secsize {
      assert forall o :: o in s.bufs ==> Good(geo, secsize, s.bufs[o]);
    }
  }

  // ---------- the ring ----------

  ghost predicate Distinct(ring: seq<nat>) {
    forall i, j :: 0 <= i < j < |ring| ==> ring[i] != ring[j]
  }

  /** The list visits the buffers at `keys`, each once. */
  ghost predicate RingOf(ring: seq<nat>, keys: set<nat>) {
    |ring| >= 2 && Distinct(ring) && forall o :: o in ring <==> o in keys
  }

  lemma FrontIsRing(ring: seq<nat>, keys: set<nat>, o: nat)
    requires RingOf(ring, keys) && o in ring
    ensures RingOf(Front(ring, o), keys) && Front(ring, o)[0] == o
    ensures o == ring[0] ==> Front(ring, o) == ring
  {
    FrontPermutes(ring, o);
    assert o == ring[0] ==> IndexOf(ring, o) == 0;
  }

  ghost function IndexOf(ring: seq<nat>, o: nat): (i: nat)
    requires o in ring
    ensures i < |ring| && ring[i] == o
  {
    var i :| 0 <= i < |ring| && ring[i] == o; i
  }

  /** `o` moved to the front. */
  ghost function Front(ring: seq<nat>, o: nat): (r: seq<nat>)
    requires o in ring
  {
    [o] + ring[..IndexOf(ring, o)] + ring[IndexOf(ring, o) + 1..]
  }

  /** Moving a buffer to the front permutes the ring. */
  lemma FrontPermutes(ring: seq<nat>, o: nat)
    requires Distinct(ring) && o in ring
    ensures var r := Front(ring, o);
      |r| == |ring| && r[0] == o && Distinct(r) && forall x :: x in r <==> x in ring
  {
    var i := IndexOf(ring, o);
    var r := Front(ring, o);
    forall x ensures x in r <==> x in ring {
      if x in ring {
        var j :| 0 <= j < |ring| && ring[j] == x;
        assert r[if j < i then j + 1 else if j == i then 0 else j] == x;
      }
    }
  }

  // ---------- searchblock ----------

  /** The address left in `uncacheBuf` after passing `ring`: that of the last UNCACHE buffer.
      Address 0 cannot be told from "none". */
  ghost function LastUncache(ring: seq<nat>, bufs: Buffers): nat
    requires forall i :: 0 <= i < |ring| ==> ring[i] in bufs
  {
    if ring == [] then 0
    else if bufs[ring[|ring| - 1]].uncache then ring[|ring| - 1]
    else LastUncache(ring[..|ring| - 1], bufs)
  }

  /** The address left in `lastNonFat`. */
  ghost function LastNonFat(ring: seq<nat>, bufs: Buffers): nat
    requires forall i :: 0 <= i < |ring| ==> ring[i] in bufs
  {
    if ring == [] then 0
    else if !bufs[ring[|ring| - 1]].fat then ring[|ring| - 1]
    else LastNonFat(ring[..|ring| - 1], bufs)
  }

  ghost function FatCount(ring: seq<nat>, bufs: Buffers): nat
    requires forall i :: 0 <= i < |ring| ==> ring[i] in bufs
  {
    if ring == [] then 0
    else FatCount(ring[..|ring| - 1], bufs) + if bufs[ring[|ring| - 1]].fat then 1 else 0
  }

  /** The buffer a miss recycles. */
  ghost function Victim(ring: seq<nat>, bufs: Buffers): (o: nat)
    requires RingOf(ring, bufs.Keys)
  {
    if LastUncache(ring, bufs) != 0 then LastUncache(ring, bufs)
    else if bufs[ring[0]].fat && FatCount(ring, bufs) < 3 && LastNonFat(ring, bufs) != 0 then LastNonFat(ring, bufs)
    else ring[|ring| - 1]
  }

  lemma {:induction false} LastUncacheIn(ring: seq<nat>, bufs: Buffers)
    requires forall i :: 0 <= i < |ring| ==> ring[i] in bufs
    ensures var o := LastUncache(ring, bufs); o != 0 ==> o in ring && bufs[o].uncache
  {
    if ring != [] && !bufs[ring[|ring| - 1]].uncache {
      LastUncacheIn(ring[..|ring| - 1], bufs);
    }
  }

  lemma {:induction false} LastNonFatIn(ring: seq<nat>, bufs: Buffers)
    requires forall i :: 0 <= i < |ring| ==> ring[i] in bufs
    ensures var o := LastNonFat(ring, bufs); o != 0 ==> o in ring && !bufs[o].fat
  {
    if ring != [] && bufs[ring[|ring| - 1]].fat {
      LastNonFatIn(ring[..|ring| - 1], bufs);
    }
  }

  /** A miss recycles a buffer of the ring, and never the front one while its UNCACHE bit is clear. */
  lemma VictimIsNotFront(ring: seq<nat>, bufs: Buffers)
    requires RingOf(ring, bufs.Keys)
    ensures Victim(ring, bufs) in ring
    ensures !bufs[ring[0]].uncache ==> Victim(ring, bufs) != ring[0]
  {
    LastUncacheIn(ring, bufs);
    LastNonFatIn(ring, bufs);
  }

  /** The buffer `searchblock` returns, now at the front of the ring. */
  ghost function Searched(ring: seq<nat>, bufs: Buffers, k: Block): (o: nat)
    requires RingOf(ring, bufs.Keys)
    ensures o in ring
  {
    VictimIsNotFront(ring, bufs);
    if Held(bufs, k) then Holder(bufs, k) else Victim(ring, bufs)
  }

  lemma SearchedHit(ring: seq<nat>, bufs: Buffers, k: Block)
    requires RingOf(ring, bufs.Keys) && Held(bufs, k)
    ensures Searched(ring, bufs, k) == Holder(bufs, k)
  {}

  /** The mark it leaves: UNCACHE tells a miss from a hit. */
  ghost function SearchMark(bufs: Buffers, o: nat, k: Block): Buffers
    requires o in bufs
  {
    bufs[o := bufs[o].(uncache := !Held(bufs, k))]
  }

  /** Searching never changes what anybody sees. */
  lemma SearchKeeps(geo: Layouts, secsize: nat, s: Store, o: nat, k: Block)
    requires Sound(geo, secsize, s) && o in s.bufs
    ensures var s' := s.(bufs := SearchMark(s.bufs, o, k));
      Sound(geo, secsize, s') && View(geo, s') == View(geo, s) && (Coherent(s) ==> Coherent(s'))
  {
    Retouch(geo, secsize, s, o, SearchMark(s.bufs, o, k)[o]);
  }

  // ---------- flush1 ----------

  ghost function WriteCopies(d: Disk, tag: Block, copies: nat, off: nat, data: Sector): Disk
    decreases copies
  {
    if copies == 0 then d
    else WriteCopies(d[tag := data], Block(tag.unit, tag.no + off), copies - 1, off, data)
  }

  lemma {:induction false} WriteCopiesAt(d: Disk, tag: Block, copies: nat, off: nat, data: Sector, k: Block)
    ensures WriteCopies(d, tag, copies, off, data)[k] ==
            if exists j :: 0 <= j < copies && IsCopy(tag, off, j, k) then data else d[k]
    decreases copies
  {
    if copies > 0 {
      var tag' := Block(tag.unit, tag.no + off);
      WriteCopiesAt(d[tag := data], tag', copies - 1, off, data, k);
      if j :| 0 <= j < copies - 1 && IsCopy(tag', off, j, k) {
        assert IsCopy(tag, off, j + 1, k);
      }
      if j :| 0 <= j < copies && IsCopy(tag, off, j, k) {
        if j == 0 {
          assert k == tag;
        } else {
          assert IsCopy(tag', off, j - 1, k);
        }
      }
      if k == tag {
        assert IsCopy(tag, off, 0, k);
      }
    }
  }

  ghost function CopyCount(b: Buffer): nat { if b.fat then b.copies else 1 }

  ghost function CopyStride(b: Buffer): nat { if b.fat then b.offset else 0 }

  /** The disk after writing buffer `b` back. */
  ghost function WriteBack(d: Disk, b: Buffer): Disk {
    if b.valid && b.dirty then WriteCopies(d, b.tag, CopyCount(b), CopyStride(b), b.data) else d
  }

  ghost function Flush1(s: Store, o: nat): (s': Store)
    requires o in s.bufs
    ensures o in s'.bufs
  {
    Store(s.bufs[o := s.bufs[o].(dirty := false)], WriteBack(s.disk, s.bufs[o]))
  }

  /** Sectors a write of block `tag` reaches: itself and, for a FAT sector, exactly its mirrors. */
  ghost predicate Reached(geo: Layouts, tag: Block, fat: bool, k: Block) {
    k == tag || (fat && InMirror(geo, k) && Primary(geo, k) == tag)
  }

  lemma WriteBackAt(geo: Layouts, d: Disk, b: Buffer, k: Block)
    requires Tagged(geo, b)
    ensures WriteBack(d, b)[k] == if b.valid && b.dirty && Reached(geo, b.tag, b.fat, k) then b.data else d[k]
  {
    if b.valid && b.dirty {
      WriteCopiesAt(d, b.tag, CopyCount(b), CopyStride(b), b.data, k);
      if b.fat {
        CopiesAreMirrors(geo, b.tag, k);
      } else {
        assert IsCopy(b.tag, 0, 0, b.tag);
      }
    }
  }

  lemma Flush1Sees(geo: Layouts, secsize: nat, s: Store, o: nat, k: Block)
    requires Sound(geo, secsize, s) && o in s.bufs
    ensures Sees(geo, Flush1(s, o), k) == Sees(geo, s, k)
  {
    var b := s.bufs[o];
    assert Good(geo, secsize, b);
    WriteBackAt(geo, s.disk, b, k);
    SameHolder(s.bufs, o, b.(dirty := false), k);
    if b.valid {
      HolderIs(s.bufs, o, b.tag);
    }
    if InMirror(geo, k) {
      SameHolder(s.bufs, o, b.(dirty := false), Primary(geo, k));
    }
  }

  /** A write-back leaves the sectors of the other buffers alone. */
  lemma Flush1Others(geo: Layouts, secsize: nat, s: Store, o: nat, o': nat)
    requires Sound(geo, secsize, s) && o in s.bufs && o' in s.bufs && o' != o
    ensures Clean(s.bufs[o'], Flush1(s, o).disk) == Clean(s.bufs[o'], s.disk)
  {
    assert Good(geo, secsize, s.bufs[o]) && Good(geo, secsize, s.bufs[o']);
    WriteBackAt(geo, s.disk, s.bufs[o], s.bufs[o'].tag);
  }

  /** Writing a buffer back never changes what anybody sees. */
  lemma Flush1Keeps(geo: Layouts, secsize: nat, s: Store, o: nat)
    requires Sound(geo, secsize, s) && o in s.bufs
    ensures var s' := Flush1(s, o);
      && Sound(geo, secsize, s') && View(geo, s') == View(geo, s) && (Coherent(s) ==> Coherent(s'))
      && (s.bufs[o].dirty || Coherent(s) ==> Clean(s'.bufs[o], s'.disk))
  {
    hide Sound, Flush1, Sees, Coherent, Clean;
    Flush1Sound(geo, secsize, s, o);
    Flush1Coherent(geo, secsize, s, o);
    forall k ensures Sees(geo, Flush1(s, o), k) == Sees(geo, s, k) {
      Flush1Sees(geo, secsize, s, o, k);
    }
  }

  lemma Flush1Sound(geo: Layouts, secsize: nat, s: Store, o: nat)
    requires Sound(geo, secsize, s) && o in s.bufs
    ensures Sound(geo, secsize, Flush1(s, o))
  {
    hide WriteBack, Reached;
    var b, s' := s.bufs[o], Flush1(s, o);
    assert Good(geo, secsize, b);
    SameHolder(s.bufs, o, b.(dirty := false), b.tag);
    forall k ensures |s'.disk[k]| == secsize {
      WriteBackAt(geo, s.disk, b, k);
    }
  }

  lemma Flush1Coherent(geo: Layouts, secsize: nat, s: Store, o: nat)
    requires Sound(geo, secsize, s) && o in s.bufs
    ensures Coherent(s) ==> Coherent(Flush1(s, o))
    ensures s.bufs[o].dirty || Coherent(s) ==> Clean(Flush1(s, o).bufs[o], Flush1(s, o).disk)
  {
    hide WriteBack;
    var b, s' := s.bufs[o], Flush1(s, o);
    assert Good(geo, secsize, b);
    WriteBackAt(geo, s.disk, b, b.tag);
    forall o' | o' in s.bufs && o' != o ensures Clean(s.bufs[o'], s'.disk) == Clean(s.bufs[o'], s.disk) {
      Flush1Others(geo, secsize, s, o, o');
    }
    assert Clean(b, s.disk) ==> Clean(s'.bufs[o], s'.disk);
  }

  // ---------- getblk ----------

  /** What `getblk` makes of the buffers and the disk, given the buffer `o` the search found. */
  ghost function Got(s: Store, o: nat, k: Block, overwrite: bool): Store
    requires o in s.bufs
  {
    if Held(s.bufs, k) then Marked(s, o, k) else Refilled(Flush1(Marked(s, o, k), o), o, k, overwrite)
  }

  ghost function Marked(s: Store, o: nat, k: Block): (s': Store)
    requires o in s.bufs
    ensures o in s'.bufs
  {
    s.(bufs := SearchMark(s.bufs, o, k))
  }

  /** The buffer at `o` is given to block `k` and, unless it is to be overwritten, read. */
  ghost function Refilled(s: Store, o: nat, k: Block, overwrite: bool): (s': Store)
    requires o in s.bufs
    ensures o in s'.bufs
  {
    s.(bufs := s.bufs[o := Filled(s.bufs[o], k, if overwrite then s.bufs[o].data else s.disk[k])])
  }

  /** A buffer given to block `k`. */
  function Filled(b: Buffer, k: Block, data: Sector): Buffer {
    b.(tag := k, valid := true, dirty := false, fat := false, uncache := false, data := data)
  }

  lemma RefillHolder(bufs: Buffers, o: nat, b: Buffer, k: Block)
    requires Unique(bufs) && o in bufs && (b.valid ==> !Held(bufs, b.tag))
    ensures Unique(bufs[o := b])
    ensures k == b.tag && b.valid ==> Held(bufs[o := b], k) && Holder(bufs[o := b], k) == o
    ensures !(k == b.tag && b.valid) ==> Held(bufs[o := b], k) == (Held(bufs, k) && Holder(bufs, k) != o)
    ensures !(k == b.tag && b.valid) && Held(bufs[o := b], k) ==> Holder(bufs[o := b], k) == Holder(bufs, k)
  {
    var bufs' := bufs[o := b];
    assert Unique(bufs') by {
      assert forall x :: x in bufs && x != o && b.valid ==> !Holds(bufs[x], b.tag);
    }
    if Held(bufs, k) && Holder(bufs, k) != o {
      HolderIs(bufs', Holder(bufs, k), k);
    }
    if Held(bufs', k) && Holder(bufs', k) != o {
      HolderIs(bufs, Holder(bufs', k), k);
    }
    if k == b.tag && b.valid {
      HolderIs(bufs', o, k);
    }
  }

  /** Giving a clean buffer to a block nobody holds, or to nobody, hides nothing that was pending. */
  lemma RefillSees(geo: Layouts, secsize: nat, s: Store, o: nat, b: Buffer, k: Block)
    requires Sound(geo, secsize, s) && o in s.bufs && Clean(s.bufs[o], s.disk) && !s.bufs[o].dirty
    requires !b.dirty && Good(geo, secsize, b) && (b.valid ==> !Held(s.bufs, b.tag))
    ensures Sees(geo, s.(bufs := s.bufs[o := b]), k) == if k == b.tag && b.valid then b.data else Sees(geo, s, k)
  {
    RefillHolder(s.bufs, o, b, k);
    if InMirror(geo, k) {
      RefillHolder(s.bufs, o, b, Primary(geo, k));
      NotHeldMirror(geo, secsize, s, k);
    } else if Held(s.bufs, k) && Holder(s.bufs, k) == o {
      assert s.bufs[o].data == s.disk[k];
    }
  }

  lemma NotHeldMirror(geo: Layouts, secsize: nat, s: Store, k: Block)
    requires Sound(geo, secsize, s) && InMirror(geo, k)
    ensures !Held(s.bufs, k)
  {
    assert forall o :: o in s.bufs && s.bufs[o].valid ==>
        Good(geo, secsize, s.bufs[o]) && !InMirror(geo, s.bufs[o].tag);
  }

  lemma RefillKeeps(geo: Layouts, secsize: nat, s: Store, o: nat, b: Buffer)
    requires Sound(geo, secsize, s) && o in s.bufs && Clean(s.bufs[o], s.disk) && !s.bufs[o].dirty
    requires !b.dirty && Good(geo, secsize, b) && (b.valid ==> !Held(s.bufs, b.tag))
    ensures var s' := s.(bufs := s.bufs[o := b]);
      && Sound(geo, secsize, s')
      && View(geo, s') == (if b.valid then View(geo, s)[b.tag := b.data] else View(geo, s))
      && (Coherent(s) && Clean(b, s.disk) ==> Coherent(s'))
  {
    var s' := s.(bufs := s.bufs[o := b]);
    RefillHolder(s.bufs, o, b, b.tag);
    forall k ensures Sees(geo, s', k) == if k == b.tag && b.valid then b.data else Sees(geo, s, k) {
      RefillSees(geo, secsize, s, o, b, k);
    }
  }

  /** After getting a block its buffer holds it and is not up for recycling.  Only an overwriting miss may
      change what is seen, and then only of the block asked for. */
  lemma GotKeeps(geo: Layouts, secsize: nat, s: Store, o: nat, k: Block, overwrite: bool)
    requires Sound(geo, secsize, s) && Coherent(s) && !InMirror(geo, k) && o in s.bufs
    requires Held(s.bufs, k) ==> o == Holder(s.bufs, k)
    ensures var s' := Got(s, o, k, overwrite);
      && Sound(geo, secsize, s')
      && o in s'.bufs && Holds(s'.bufs[o], k) && !s'.bufs[o].uncache
      && View(geo, s') == (if overwrite then View(geo, s)[k := s'.bufs[o].data] else View(geo, s))
      && (!overwrite ==> Coherent(s'))
  {
    SearchKeeps(geo, secsize, s, o, k);
    var s1 := Marked(s, o, k);
    SoundUnique(geo, secsize, s);
    SoundUnique(geo, secsize, s1);
    SameHolder(s.bufs, o, s1.bufs[o], k);
    if Held(s.bufs, k) {
      SeenIsHeld(geo, s1, o, k);
    } else {
      MissKeeps(geo, secsize, s1, o, k, overwrite);
    }
  }

  lemma MissKeeps(geo: Layouts, secsize: nat, s1: Store, o: nat, k: Block, overwrite: bool)
    requires Sound(geo, secsize, s1) && Coherent(s1) && !InMirror(geo, k) && o in s1.bufs && !Held(s1.bufs, k)
    ensures var s' := Refilled(Flush1(s1, o), o, k, overwrite);
      && Sound(geo, secsize, s')
      && View(geo, s') == (if overwrite then View(geo, s1)[k := s'.bufs[o].data] else View(geo, s1))
      && (!overwrite ==> Coherent(s'))
  {
    hide Sound, Coherent, View, Flush1, Held, Good, InFat, InMirror, Sees;
    var s2 := Flush1(s1, o);
    var b := Refilled(s2, o, k, overwrite).bufs[o];
    Flush1Keeps(geo, secsize, s1, o);
    FlushedNotHeld(geo, secsize, s1, o, k);
    FilledIsGood(geo, secsize, s2, o, k, overwrite);
    RefillKeeps(geo, secsize, s2, o, b);
    if !overwrite {
      NotHeldSees(geo, s2, k);
      assert View(geo, s2)[k := b.data] == View(geo, s2);
    }
  }

  lemma FlushedNotHeld(geo: Layouts, secsize: nat, s: Store, o: nat, k: Block)
    requires Sound(geo, secsize, s) && o in s.bufs && !Held(s.bufs, k)
    ensures !Held(Flush1(s, o).bufs, k) && !Flush1(s, o).bufs[o].dirty
  {
    SameHolder(s.bufs, o, s.bufs[o].(dirty := false), k);
  }

  lemma FilledIsGood(geo: Layouts, secsize: nat, s: Store, o: nat, k: Block, overwrite: bool)
    requires Sound(geo, secsize, s) && o in s.bufs && !InMirror(geo, k)
    ensures Good(geo, secsize, Refilled(s, o, k, overwrite).bufs[o])
  {
    assert Good(geo, secsize, s.bufs[o]);
  }

  /** Getting another block leaves the buffer got before alone, if its UNCACHE bit is still clear. */
  lemma FrontStays(ring: seq<nat>, s: Store, k: Block, overwrite: bool)
    requires RingOf(ring, s.bufs.Keys) && Unique(s.bufs)
    requires ring[0] in s.bufs && !s.bufs[ring[0]].uncache && !Holds(s.bufs[ring[0]], k)
    ensures var o := Searched(ring, s.bufs, k);
      && o in s.bufs && o != ring[0]
      && ring[0] in Got(s, o, k, overwrite).bufs && Got(s, o, k, overwrite).bufs[ring[0]] == s.bufs[ring[0]]
  {
    VictimIsNotFront(ring, s.bufs);
  }

  lemma SeenIsHeld(geo: Layouts, s: Store, o: nat, k: Block)
    requires Unique(s.bufs) && o in s.bufs && Holds(s.bufs[o], k)
    ensures View(geo, s)[k] == s.bufs[o].data
  {
    HolderIs(s.bufs, o, k);
  }

  lemma NotHeldSees(geo: Layouts, s: Store, k: Block)
    requires !Held(s.bufs, k) && !InMirror(geo, k)
    ensures View(geo, s)[k] == s.disk[k]
  {}

  // ---------- writing into a buffer ----------

  /** Bytes stored into a buffer, which is then marked dirty and valid. */
  ghost function Put(s: Store, o: nat, data: Sector): Store
    requires o in s.bufs
  {
    s.(bufs := s.bufs[o := s.bufs[o].(data := data, dirty := true, valid := true)])
  }

  /** What is seen when a sector is written: a FAT sector is written in all its copies. */
  ghost function Stored(geo: Layouts, v: Disk, tag: Block, fat: bool, data: Sector): Disk {
    imap k: Block :: if Reached(geo, tag, fat, k) then data else v[k]
  }

  lemma PutSees(geo: Layouts, secsize: nat, s: Store, o: nat, data: Sector, k: Block)
    requires Sound(geo, secsize, s) && o in s.bufs && s.bufs[o].valid && |data| == secsize
    ensures var b := s.bufs[o];
      Sees(geo, Put(s, o, data), k) == if Reached(geo, b.tag, b.fat, k) then data else Sees(geo, s, k)
  {
    var b := s.bufs[o];
    var b' := Put(s, o, data).bufs[o];
    HolderIs(s.bufs, o, b.tag);
    SameHolder(s.bufs, o, b', k);
    if InMirror(geo, k) {
      SameHolder(s.bufs, o, b', Primary(geo, k));
      NotHeldMirror(geo, secsize, s, k);
    }
  }

  lemma PutSound(geo: Layouts, secsize: nat, s: Store, o: nat, data: Sector)
    requires Sound(geo, secsize, s) && o in s.bufs && s.bufs[o].valid && |data| == secsize
    requires InFat(geo, s.bufs[o].tag) ==> s.bufs[o].fat
    ensures Sound(geo, secsize, Put(s, o, data))
  {
    assert Good(geo, secsize, s.bufs[o]);
    SameHolder(s.bufs, o, Put(s, o, data).bufs[o], s.bufs[o].tag);
  }

  lemma PutStores(geo: Layouts, secsize: nat, s: Store, o: nat, data: Sector)
    requires Sound(geo, secsize, s) && o in s.bufs && s.bufs[o].valid && |data| == secsize
    ensures View(geo, Put(s, o, data)) == Stored(geo, View(geo, s), s.bufs[o].tag, s.bufs[o].fat, data)
  {
    hide Sees, Sound, Put, Reached;
    forall k ensures Sees(geo, Put(s, o, data), k) == Stored(geo, View(geo, s), s.bufs[o].tag, s.bufs[o].fat, data)[k] {
      PutSees(geo, secsize, s, o, data, k);
    }
  }

  /** A buffer just overwritten need not repeat the disk; once it is dirty all is coherent again. */
  lemma PutCoherent(s: Store, o: nat, data: Sector)
    requires o in s.bufs && forall o' :: o' in s.bufs && o' != o ==> Clean(s.bufs[o'], s.disk)
    ensures Coherent(Put(s, o, data))
  {}

  /** getFATblock's marking: flags, number of copies and their stride. */
  ghost function MarkFat(s: Store, o: nat, copies: nat, offset: nat): Store
    requires o in s.bufs
  {
    s.(bufs := s.bufs[o := s.bufs[o].(valid := true, fat := true, copies := copies, offset := offset)])
  }

  lemma MarkFatKeeps(geo: Layouts, secsize: nat, s: Store, o: nat)
    requires Sound(geo, secsize, s) && o in s.bufs && s.bufs[o].valid && InFat(geo, s.bufs[o].tag)
    requires geo(s.bufs[o].tag.unit).fats >= 1
    ensures var l := geo(s.bufs[o].tag.unit);
      var s' := MarkFat(s, o, l.fats, l.fatsize);
      Sound(geo, secsize, s') && View(geo, s') == View(geo, s) && (Coherent(s) ==> Coherent(s'))
  {
    var l := geo(s.bufs[o].tag.unit);
    assert Good(geo, secsize, s.bufs[o]);
    Retouch(geo, secsize, s, o, MarkFat(s, o, l.fats, l.fatsize).bufs[o]);
  }

  /** A buffer marked as one to recycle first. */
  ghost function Uncached(s: Store, o: nat): Store
    requires o in s.bufs
  {
    s.(bufs := s.bufs[o := s.bufs[o].(uncache := true)])
  }

  lemma UncacheKeeps(geo: Layouts, secsize: nat, s: Store, o: nat)
    requires Sound(geo, secsize, s) && o in s.bufs
    ensures var s' := Uncached(s, o);
      Sound(geo, secsize, s') && View(geo, s') == View(geo, s) && (Coherent(s) ==> Coherent(s'))
  {
    assert Good(geo, secsize, s.bufs[o]);
    Retouch(geo, secsize, s, o, s.bufs[o].(uncache := true));
  }

  // ---------- passes over the whole ring ----------

  datatype Pass =
    | FlushAll
    | FlushUnit(unit: int)
    | Delete(lo: int, hi: int, unit: int, reading: bool)

  predicate InRange(p: Pass, k: Block)
    requires p.Delete?
  {
    p.lo <= k.no <= p.hi && k.unit == p.unit
  }

  /** A buffer thrown away: all its flags cleared. */
  function Emptied(b: Buffer): Buffer {
    b.(valid := false, dirty := false, fat := false, uncache := false)
  }

  ghost function Visit(s: Store, o: nat, p: Pass): Store
    requires o in s.bufs
  {
    match p
    case FlushAll =>
      var s1 := Flush1(s, o);
      s1.(bufs := s1.bufs[o := s1.bufs[o].(valid := false)])
    case FlushUnit(unit) =>
      if s.bufs[o].tag.unit == unit then Flush1(s, o) else s
    case Delete(_, _, _, reading) =>
      if s.bufs[o].valid && InRange(p, s.bufs[o].tag) then
        if reading then Flush1(s, o) else s.(bufs := s.bufs[o := Emptied(s.bufs[o])])
      else s
  }

  /** The first `n` buffers of the ring have been visited. */
  ghost function Swept(s: Store, ring: seq<nat>, n: nat, p: Pass): (r: Store)
    requires RingOf(ring, s.bufs.Keys) && n <= |ring|
    ensures r.bufs.Keys == s.bufs.Keys
  {
    if n == 0 then s
    else
      assert ring[n - 1] in s.bufs;
      Visit(Swept(s, ring, n - 1, p), ring[n - 1], p)
  }

  ghost function Sweep(s: Store, ring: seq<nat>, p: Pass): Store
    requires RingOf(ring, s.bufs.Keys)
  {
    Swept(s, ring, |ring|, p)
  }

  /** A pass done with a buffer. */
  ghost predicate Done(b: Buffer, p: Pass) {
    match p
    case FlushAll => !b.valid
    case FlushUnit(unit) => b.tag.unit == unit ==> !b.dirty
    case Delete(_, _, _, reading) => b.valid && InRange(p, b.tag) ==> reading && !b.dirty
  }

  /** Blocks whose buffers a pass throws away unwritten. */
  ghost predicate Loses(p: Pass, k: Block) {
    p.Delete? && !p.reading && InRange(p, k)
  }

  /** Throwing away a buffer of a block that is no FAT sector changes what is seen of that block only. */
  lemma EmptiedSees(geo: Layouts, secsize: nat, s: Store, o: nat, k: Block)
    requires Sound(geo, secsize, s) && o in s.bufs && s.bufs[o].valid && !InFat(geo, s.bufs[o].tag)
    requires k != s.bufs[o].tag
    ensures Sees(geo, s.(bufs := s.bufs[o := Emptied(s.bufs[o])]), k) == Sees(geo, s, k)
  {
    assert Good(geo, secsize, s.bufs[o]);
    RefillHolder(s.bufs, o, Emptied(s.bufs[o]), k);
    if InMirror(geo, k) {
      RefillHolder(s.bufs, o, Emptied(s.bufs[o]), Primary(geo, k));
    }
  }

  lemma EmptiedKeeps(geo: Layouts, secsize: nat, s: Store, o: nat)
    requires Sound(geo, secsize, s) && o in s.bufs && s.bufs[o].valid && !InFat(geo, s.bufs[o].tag)
    ensures var s' := s.(bufs := s.bufs[o := Emptied(s.bufs[o])]);
      && Sound(geo, secsize, s') && (Coherent(s) ==> Coherent(s'))
      && forall k {:trigger Sees(geo, s', k)} :: k != s.bufs[o].tag ==> Sees(geo, s', k) == Sees(geo, s, k)
  {
    assert Good(geo, secsize, s.bufs[o]);
    RefillHolder(s.bufs, o, Emptied(s.bufs[o]), s.bufs[o].tag);
    forall k | k != s.bufs[o].tag
      ensures Sees(geo, s.(bufs := s.bufs[o := Emptied(s.bufs[o])]), k) == Sees(geo, s, k)
    {
      EmptiedSees(geo, secsize, s, o, k);
    }
  }

  lemma ViewSees(geo: Layouts, s: Store, s': Store)
    requires View(geo, s') == View(geo, s)
    ensures forall k {:trigger Sees(geo, s', k)} :: Sees(geo, s', k) == Sees(geo, s, k)
  {
    forall k ensures Sees(geo, s', k) == Sees(geo, s, k) {
      assert View(geo, s')[k] == View(geo, s)[k];
    }
  }

  /** What stays the same for everybody during a pass. */
  ghost predicate PassKeeps(geo: Layouts, secsize: nat, s: Store, s': Store, p: Pass) {
    && Sound(geo, secsize, s') && Coherent(s')
    && (forall k {:trigger Sees(geo, s', k)} :: !Loses(p, k) ==> Sees(geo, s', k) == Sees(geo, s, k))
    && (p.Delete? && !p.reading ==> s'.disk == s.disk)
  }

  lemma VisitKeeps(geo: Layouts, secsize: nat, s: Store, o: nat, p: Pass)
    requires Sound(geo, secsize, s) && Coherent(s) && o in s.bufs
    requires forall k {:trigger Loses(p, k)} :: Loses(p, k) ==> !InFat(geo, k)
    ensures var s' := Visit(s, o, p);
      PassKeeps(geo, secsize, s, s', p) && Done(s'.bufs[o], p)
  {
    var s1 := Flush1(s, o);
    Flush1Keeps(geo, secsize, s, o);
    ViewSees(geo, s, s1);
    if p.FlushAll? {
      assert Good(geo, secsize, s1.bufs[o]);
      var b := s1.bufs[o].(valid := false);
      RefillKeeps(geo, secsize, s1, o, b);
      ViewSees(geo, s1, s1.(bufs := s1.bufs[o := b]));
    } else if p.Delete? && s.bufs[o].valid && InRange(p, s.bufs[o].tag) && !p.reading {
      assert Loses(p, s.bufs[o].tag);
      EmptiedKeeps(geo, secsize, s, o);
    }
  }

  lemma VisitOthers(s: Store, o: nat, p: Pass, o': nat)
    requires o in s.bufs && o' in s.bufs && o' != o
    ensures Visit(s, o, p).bufs[o'] == s.bufs[o']
  {}

  lemma PassTransitive(geo: Layouts, secsize: nat, s0: Store, s1: Store, s2: Store, p: Pass)
    requires PassKeeps(geo, secsize, s0, s1, p) && PassKeeps(geo, secsize, s1, s2, p)
    ensures PassKeeps(geo, secsize, s0, s2, p)
  {
    hide Sees, Sound, Coherent, Loses;
  }

  lemma {:induction false} SweptKeeps(geo: Layouts, secsize: nat, s: Store, ring: seq<nat>, n: nat, p: Pass)
    requires Sound(geo, secsize, s) && Coherent(s) && RingOf(ring, s.bufs.Keys) && n <= |ring|
    requires forall k {:trigger Loses(p, k)} :: Loses(p, k) ==> !InFat(geo, k)
    ensures PassKeeps(geo, secsize, s, Swept(s, ring, n, p), p)
  {
    hide Sound, Coherent, Sees, Visit, Loses, Flush1, InFat;
    if n > 0 {
      assert ring[n - 1] in s.bufs;
      SweptKeeps(geo, secsize, s, ring, n - 1, p);
      var s1 := Swept(s, ring, n - 1, p);
      VisitKeeps(geo, secsize, s1, ring[n - 1], p);
      PassTransitive(geo, secsize, s, s1, Swept(s, ring, n, p), p);
    } else {
      assert Swept(s, ring, n, p) == s;
    }
  }

  /** A pass can be made. */
  ghost predicate Passable(geo: Layouts, secsize: nat, s: Store, p: Pass) {
    Sound(geo, secsize, s) && Coherent(s) && forall k {:trigger Loses(p, k)} :: Loses(p, k) ==> !InFat(geo, k)
  }

  lemma SweptPassable(geo: Layouts, secsize: nat, s: Store, ring: seq<nat>, n: nat, p: Pass)
    requires Passable(geo, secsize, s, p) && RingOf(ring, s.bufs.Keys) && n <= |ring|
    ensures Passable(geo, secsize, Swept(s, ring, n, p), p)
  {
    SweptKeeps(geo, secsize, s, ring, n, p);
  }

  lemma VisitDone(geo: Layouts, secsize: nat, s: Store, o: nat, p: Pass)
    requires Passable(geo, secsize, s, p) && o in s.bufs
    ensures Done(Visit(s, o, p).bufs[o], p)
  {
    VisitKeeps(geo, secsize, s, o, p);
  }

  lemma SweptStep(s: Store, ring: seq<nat>, n: nat, p: Pass, i: nat)
    requires RingOf(ring, s.bufs.Keys) && i < n <= |ring|
    ensures ring[n - 1] in s.bufs && Swept(s, ring, n, p) == Visit(Swept(s, ring, n - 1, p), ring[n - 1], p)
    ensures i != n - 1 ==> ring[i] != ring[n - 1]
  {}

  lemma {:induction false} SweptDone(geo: Layouts, secsize: nat, s: Store, ring: seq<nat>, n: nat, p: Pass, i: nat)
    requires Passable(geo, secsize, s, p) && RingOf(ring, s.bufs.Keys) && i < n <= |ring| && ring[i] in s.bufs
    ensures Done(Swept(s, ring, n, p).bufs[ring[i]], p)
  {
    hide Passable, Visit, Done, Swept, RingOf;
    var o := ring[n - 1];
    SweptStep(s, ring, n, p, i);
    var s1 := Swept(s, ring, n - 1, p);
    if i == n - 1 {
      SweptPassable(geo, secsize, s, ring, n - 1, p);
      VisitDone(geo, secsize, s1, o, p);
    } else {
      SweptDone(geo, secsize, s, ring, n - 1, p, i);
      VisitOthers(s1, o, p, ring[i]);
    }
  }

  lemma SweepIs(geo: Layouts, secsize: nat, s: Store, ring: seq<nat>, p: Pass)
    requires Sound(geo, secsize, s) && Coherent(s) && RingOf(ring, s.bufs.Keys)
    requires forall k {:trigger Loses(p, k)} :: Loses(p, k) ==> !InFat(geo, k)
    ensures var s' := Sweep(s, ring, p);
      && Sound(geo, secsize, s') && Coherent(s') && PassKeeps(geo, secsize, s, s', p)
      && forall o :: o in s'.bufs ==> Done(s'.bufs[o], p)
  {
    hide Sound, Coherent, Sees, Visit, Loses, Flush1, InFat, Done;
    var s' := Sweep(s, ring, p);
    SweptKeeps(geo, secsize, s, ring, |ring|, p);
    assert Passable(geo, secsize, s, p);
    forall o | o in s'.bufs ensures Done(s'.bufs[o], p) {
      assert o in ring;
      SweptDone(geo, secsize, s, ring, |ring|, p, IndexOf(ring, o));
    }
  }

  /** What is seen of a block whose copies are all written back is what the disk holds. */
  lemma WrittenSees(geo: Layouts, s: Store, k: Block)
    requires Coherent(s)
    requires Held(s.bufs, k) ==> !s.bufs[Holder(s.bufs, k)].dirty
    requires InMirror(geo, k) && Held(s.bufs, Primary(geo, k)) ==> !s.bufs[Holder(s.bufs, Primary(geo, k))].dirty
    ensures Sees(geo, s, k) == s.disk[k]
  {
    if Held(s.bufs, k) {
      assert Clean(s.bufs[Holder(s.bufs, k)], s.disk);
    }
  }

  lemma PassView(geo: Layouts, secsize: nat, s: Store, s': Store, p: Pass)
    requires PassKeeps(geo, secsize, s, s', p) && (p.Delete? ==> p.reading)
    ensures View(geo, s') == View(geo, s)
  {
    hide Sees, Sound, Coherent;
  }

  /** The pass writes block `k` back, if it is pending. */
  ghost predicate Writes(p: Pass, k: Block) {
    match p
    case FlushAll => true
    case FlushUnit(unit) => k.unit == unit
    case Delete(_, _, _, reading) => reading && InRange(p, k)
  }

  lemma PassWrites(geo: Layouts, s: Store, p: Pass, k: Block)
    requires Coherent(s) && (forall o :: o in s.bufs ==> Done(s.bufs[o], p)) && Writes(p, k)
    requires p.Delete? ==> !InMirror(geo, k)
    ensures s.disk[k] == View(geo, s)[k]
  {
    if Held(s.bufs, k) {
      assert Done(s.bufs[Holder(s.bufs, k)], p);
    }
    if InMirror(geo, k) && Held(s.bufs, Primary(geo, k)) {
      assert Done(s.bufs[Holder(s.bufs, Primary(geo, k))], p);
    }
    WrittenSees(geo, s, k);
  }

  lemma FlushLosesNothing(p: Pass)
    requires !p.Delete?
    ensures forall k {:trigger Loses(p, k)} :: !Loses(p, k)
  {}

  /** `flush` and `flush_buffers` change nothing that is seen, and bring the disk up to it: for all units,
      or for the unit flushed. */
  lemma FlushIsComplete(geo: Layouts, secsize: nat, s: Store, ring: seq<nat>, p: Pass)
    requires Sound(geo, secsize, s) && Coherent(s) && RingOf(ring, s.bufs.Keys) && !p.Delete?
    ensures var s' := Sweep(s, ring, p);
      && Sound(geo, secsize, s') && Coherent(s') && View(geo, s') == View(geo, s)
      && forall k: Block :: Writes(p, k) ==> s'.disk[k] == View(geo, s)[k]
  {
    hide *;
    var s' := Sweep(s, ring, p);
    FlushLosesNothing(p);
    SweepIs(geo, secsize, s, ring, p);
    PassView(geo, secsize, s, s', p);
    forall k: Block | Writes(p, k) ensures s'.disk[k] == View(geo, s')[k] {
      PassWrites(geo, s', p, k);
    }
  }

  // ---------- direct transfers that bypass the cache ----------

  /** The sectors of a run of blocks. */
  function RunOf(d: Disk, unit: int, no: int, n: nat): (r: seq<Sector>)
    ensures |r| == n
  {
    seq(n, i requires 0 <= i < n => d[Block(unit, no + i)])
  }

  /** A run of blocks that holds no FAT sector. */
  ghost predicate OutsideFat(geo: Layouts, unit: int, no: int, n: nat) {
    forall k: Block :: k.unit == unit && no <= k.no < no + n ==> !InFat(geo, k) && !InMirror(geo, k)
  }

  ghost function WriteRun(d: Disk, unit: int, no: int, data: seq<Sector>): Disk {
    imap k: Block :: if k.unit == unit && no <= k.no < no + |data| then data[k.no - no] else d[k]
  }

  ghost predicate AllSized(secsize: nat, data: seq<Sector>) {
    forall i :: 0 <= i < |data| ==> |data[i]| == secsize
  }

  /** Buffers thrown away, then the disk written. */
  ghost function Overwritten(s: Store, ring: seq<nat>, unit: int, no: int, data: seq<Sector>): Store
    requires RingOf(ring, s.bufs.Keys)
  {
    DiskWritten(Sweep(s, ring, Delete(no, no + |data| - 1, unit, false)), unit, no, data)
  }

  ghost function DiskWritten(s: Store, unit: int, no: int, data: seq<Sector>): Store {
    s.(disk := WriteRun(s.disk, unit, no, data))
  }

  lemma WriteRunMore(d: Disk, unit: int, no: int, data: seq<Sector>, i: nat)
    requires i < |data|
    ensures WriteRun(d, unit, no, data[..i])[Block(unit, no + i) := data[i]] == WriteRun(d, unit, no, data[..i + 1])
  {}

  lemma DirectWriteSees(geo: Layouts, s: Store, p: Pass, disk: Disk, k: Block)
    requires p.Delete? && !p.reading && (forall o :: o in s.bufs ==> Done(s.bufs[o], p))
    requires InRange(p, k) ==> !InMirror(geo, k)
    requires !InRange(p, k) ==> disk[k] == s.disk[k]
    ensures Sees(geo, s.(disk := disk), k) == if InRange(p, k) then disk[k] else Sees(geo, s, k)
  {
    assert forall o :: o in s.bufs ==> Done(s.bufs[o], p);
  }

  lemma DirectWriteKeeps(geo: Layouts, secsize: nat, s: Store, p: Pass, disk: Disk)
    requires Sound(geo, secsize, s) && Coherent(s) && p.Delete? && !p.reading && Sized(secsize, disk)
    requires forall o :: o in s.bufs ==> Done(s.bufs[o], p)
    requires forall k :: !InRange(p, k) ==> disk[k] == s.disk[k]
    ensures Sound(geo, secsize, s.(disk := disk)) && Coherent(s.(disk := disk))
  {
    forall o | o in s.bufs ensures Clean(s.bufs[o], disk) {
      assert Done(s.bufs[o], p) && Clean(s.bufs[o], s.disk);
    }
  }

  lemma DirectWriteView(geo: Layouts, secsize: nat, s: Store, s1: Store, unit: int, no: int, data: seq<Sector>)
    requires var p := Delete(no, no + |data| - 1, unit, false);
      PassKeeps(geo, secsize, s, s1, p) && forall o :: o in s1.bufs ==> Done(s1.bufs[o], p)
    requires AllSized(secsize, data)
    requires OutsideFat(geo, unit, no, |data|)
    ensures var s2 := s1.(disk := WriteRun(s1.disk, unit, no, data));
      Sound(geo, secsize, s2) && Coherent(s2) && View(geo, s2) == WriteRun(View(geo, s), unit, no, data)
  {
    hide Sound, Coherent, Sees, Done, InFat, InMirror, WriteRun;
    var p := Delete(no, no + |data| - 1, unit, false);
    RunSized(geo, secsize, s1, unit, no, data);
    RunAt(s1.disk, unit, no, data);
    DirectWriteKeeps(geo, secsize, s1, p, WriteRun(s1.disk, unit, no, data));
    forall k
      ensures Sees(geo, s1.(disk := WriteRun(s1.disk, unit, no, data)), k) == WriteRun(View(geo, s), unit, no, data)[k]
    {
      assert Loses(p, k) == InRange(p, k);
      DirectWriteSees(geo, s1, p, WriteRun(s1.disk, unit, no, data), k);
      RunAt(View(geo, s), unit, no, data);
    }
  }

  lemma RunAt(d: Disk, unit: int, no: int, data: seq<Sector>)
    ensures forall k {:trigger WriteRun(d, unit, no, data)[k]} ::
              WriteRun(d, unit, no, data)[k]
              == if k.unit == unit && no <= k.no < no + |data| then data[k.no - no] else d[k]
  {}

  lemma RunSized(geo: Layouts, secsize: nat, s: Store, unit: int, no: int, data: seq<Sector>)
    requires Sound(geo, secsize, s) && AllSized(secsize, data)
    ensures Sized(secsize, WriteRun(s.disk, unit, no, data))
  {}

  /** Dropping the buffers of a run and then writing the run directly is seen as just that write. */
  lemma DirectWrite(geo: Layouts, secsize: nat, s: Store, ring: seq<nat>, unit: int, no: int, data: seq<Sector>)
    requires Sound(geo, secsize, s) && Coherent(s) && RingOf(ring, s.bufs.Keys)
    requires AllSized(secsize, data)
    requires OutsideFat(geo, unit, no, |data|)
    ensures var s2 := Overwritten(s, ring, unit, no, data);
      && Sound(geo, secsize, s2) && Coherent(s2)
      && View(geo, s2) == WriteRun(View(geo, s), unit, no, data)
  {
    var p := Delete(no, no + |data| - 1, unit, false);
    SweepIs(geo, secsize, s, ring, p);
    DirectWriteView(geo, secsize, s, Sweep(s, ring, p), unit, no, data);
  }

  /** After the buffers of a run are written back, the disk holds what is seen of the run. */
  lemma DirectRead(geo: Layouts, secsize: nat, s: Store, ring: seq<nat>, unit: int, no: int, n: nat)
    requires Sound(geo, secsize, s) && Coherent(s) && RingOf(ring, s.bufs.Keys)
    requires OutsideFat(geo, unit, no, n)
    ensures var s' := Sweep(s, ring, Delete(no, no + n - 1, unit, true));
      && Sound(geo, secsize, s') && Coherent(s') && View(geo, s') == View(geo, s)
      && RunOf(s'.disk, unit, no, n) == RunOf(View(geo, s), unit, no, n)
  {
    hide Sound, Coherent, View, Sweep, InFat, InMirror, RingOf, Sees, Done;
    var p := Delete(no, no + n - 1, unit, true);
    SweepIs(geo, secsize, s, ring, p);
    var s' := Sweep(s, ring, p);
    PassView(geo, secsize, s, s', p);
    forall i | 0 <= i < n ensures RunOf(s'.disk, unit, no, n)[i] == RunOf(View(geo, s'), unit, no, n)[i] {
      PassWrites(geo, s', p, Block(unit, no + i));
    }
  }

  // ---------- mirror coherence ----------

  /** All copies of the FAT look the same through the cache. */
  ghost predicate MirrorsAgree(geo: Layouts, v: Disk) {
    forall k :: InMirror(geo, k) ==> v[k] == v[Primary(geo, k)]
  }

  /** A write of a first copy through the cache, or of anything that is no FAT sector, keeps them so. */
  lemma StoredKeepsMirrors(geo: Layouts, v: Disk, tag: Block, fat: bool, data: Sector)
    requires MirrorsAgree(geo, v) && !InMirror(geo, tag) && fat == InFat(geo, tag)
    ensures MirrorsAgree(geo, Stored(geo, v, tag, fat, data))
  {
    var v' := Stored(geo, v, tag, fat, data);
    forall k | InMirror(geo, k) ensures v'[k] == v'[Primary(geo, k)] {
      assert !InMirror(geo, Primary(geo, k));
      assert v[k] == v[Primary(geo, k)];
    }
  }

  /** So does a direct write of a run outside the FATs. */
  lemma WriteRunKeepsMirrors(geo: Layouts, v: Disk, unit: int, no: int, data: seq<Sector>)
    requires MirrorsAgree(geo, v) && OutsideFat(geo, unit, no, |data|)
    ensures MirrorsAgree(geo, WriteRun(v, unit, no, data))
  {
    hide InFat, InMirror;
    forall k | InMirror(geo, k) ensures WriteRun(v, unit, no, data)[k] == WriteRun(v, unit, no, data)[Primary(geo, k)] {
      assert InFat(geo, Primary(geo, k));
    }
  }

  /** If they agree as seen, then wherever two copies differ on the disk a valid dirty FAT buffer of that
      sector is waiting to be written. */
  lemma DifferingCopiesArePending(geo: Layouts, secsize: nat, s: Store, k: Block)
    requires Sound(geo, secsize, s) && Coherent(s) && MirrorsAgree(geo, View(geo, s))
    requires InMirror(geo, k) && s.disk[k] != s.disk[Primary(geo, k)]
    ensures var p := Primary(geo, k);
      Held(s.bufs, p) && s.bufs[Holder(s.bufs, p)].dirty && s.bufs[Holder(s.bufs, p)].fat
  {
    var p := Primary(geo, k);
    NotHeldMirror(geo, secsize, s, k);
    assert View(geo, s)[k] == View(geo, s)[p];
    assert !InMirror(geo, p);
    assert Held(s.bufs, p) ==>
        Good(geo, secsize, s.bufs[Holder(s.bufs, p)]) && Clean(s.bufs[Holder(s.bufs, p)], s.disk);
  }

  /** Hence after a flush all copies agree on the disk itself. */
  lemma FlushedCopiesAgree(geo: Layouts, secsize: nat, s: Store, ring: seq<nat>)
    requires Sound(geo, secsize, s) && Coherent(s) && RingOf(ring, s.bufs.Keys) && MirrorsAgree(geo, View(geo, s))
    ensures MirrorsAgree(geo, Sweep(s, ring, FlushAll).disk)
  {
    FlushIsComplete(geo, secsize, s, ring, FlushAll);
  }
}
