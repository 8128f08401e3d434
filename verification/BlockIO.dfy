/**
 kernel/blockio.c: write-back sector buffers on a circular LRU list.  Buffers live in one segment and are
 known by their offset in it, so links are offsets and the pool is a map from offsets.
 */
module BlockIO {
  import opened Arithmetic
  import opened Disks
  import CS = CacheSpec

  type Links = map<nat, nat>

  /** Following `next` from `ring[0]` visits `ring` and comes back to it. */
  ghost predicate Circular(ring: seq<nat>, next: Links) {
    && (forall i :: 0 <= i < |ring| ==> ring[i] in next)
    && (forall i {:trigger next[ring[i]]} :: 0 <= i < |ring| - 1 ==> next[ring[i]] == ring[i + 1])
    && (|ring| > 0 ==> next[ring[|ring| - 1]] == ring[0])
  }

  /** The same backwards. */
  ghost predicate CircularBack(ring: seq<nat>, prev: Links) {
    && (forall i :: 0 <= i < |ring| ==> ring[i] in prev)
    && (forall i {:trigger prev[ring[i]]} :: 0 < i < |ring| ==> prev[ring[i]] == ring[i - 1])
    && (|ring| > 0 ==> prev[ring[0]] == ring[|ring| - 1])
  }

  /** Element `i` moved to the front. */
  ghost function Moved(ring: seq<nat>, i: nat): seq<nat>
    requires i < |ring|
  {
    [ring[i]] + ring[..i] + ring[i + 1..]
  }

  /** Where the element now at `j` came from. */
  function From(i: nat, j: nat): nat { if j == 0 then i else if j <= i then j - 1 else j }

  lemma MovedAt(ring: seq<nat>, i: nat, j: nat)
    requires i < |ring| && j < |ring|
    ensures Moved(ring, i)[j] == ring[From(i, j)]
  {}

  lemma Apart(ring: seq<nat>, x: nat, y: nat)
    requires CS.Distinct(ring) && x < |ring| && y < |ring|
    ensures ring[x] == ring[y] <==> x == y
  {}

  lemma MovedNextAt(ring: seq<nat>, next: Links, i: nat, j: nat)
    requires CS.Distinct(ring) && Circular(ring, next) && 0 < i < |ring| && j < |ring|
    ensures var n := |ring|;
      var last := if i == n - 1 then i - 1 else n - 1;
      var next' := next[ring[i - 1] := next[ring[i]]][ring[i] := ring[0]][ring[last] := ring[i]];
      next'[ring[From(i, j)]] == ring[From(i, if j == n - 1 then 0 else j + 1)]
  {
    hide CS.Distinct;
    var n, x := |ring|, From(i, j);
    Apart(ring, x, i - 1);
    Apart(ring, x, i);
    Apart(ring, x, if i == n - 1 then i - 1 else n - 1);
    assert next[ring[x]] == ring[if x == n - 1 then 0 else x + 1];
    assert next[ring[i]] == ring[if i == n - 1 then 0 else i + 1];
  }

  lemma MovedNext(ring: seq<nat>, next: Links, i: nat)
    requires CS.Distinct(ring) && Circular(ring, next) && 0 < i < |ring|
    ensures var n := |ring|;
      var last := if i == n - 1 then i - 1 else n - 1;
      var next' := next[ring[i - 1] := next[ring[i]]][ring[i] := ring[0]][ring[last] := ring[i]];
      Circular(Moved(ring, i), next')
  {
    hide CS.Distinct;
    var n := |ring|;
    var last := if i == n - 1 then i - 1 else n - 1;
    var next' := next[ring[i - 1] := next[ring[i]]][ring[i] := ring[0]][ring[last] := ring[i]];
    var r := Moved(ring, i);
    forall j | 0 <= j < n
      ensures r[j] in next' && next'[r[j]] == r[if j == n - 1 then 0 else j + 1]
    {
      MovedNextAt(ring, next, i, j);
      MovedAt(ring, i, j);
      MovedAt(ring, i, if j == n - 1 then 0 else j + 1);
    }
  }

  lemma MovedPrevAt(ring: seq<nat>, prev: Links, i: nat, j: nat)
    requires CS.Distinct(ring) && CircularBack(ring, prev) && 0 < i < |ring| && j < |ring|
    ensures var n := |ring|;
      var prev' := prev[ring[if i == n - 1 then 0 else i + 1] := prev[ring[i]]]
                       [ring[i] := ring[if i == n - 1 then i - 1 else n - 1]][ring[0] := ring[i]];
      prev'[ring[From(i, j)]] == ring[From(i, if j == 0 then n - 1 else j - 1)]
  {
    hide CS.Distinct;
    var n, x := |ring|, From(i, j);
    Apart(ring, x, if i == n - 1 then 0 else i + 1);
    Apart(ring, x, i);
    Apart(ring, x, 0);
    assert prev[ring[x]] == ring[if x == 0 then n - 1 else x - 1];
    assert prev[ring[i]] == ring[i - 1];
  }

  lemma MovedPrev(ring: seq<nat>, prev: Links, i: nat)
    requires CS.Distinct(ring) && CircularBack(ring, prev) && 0 < i < |ring|
    ensures var n := |ring|;
      var prev' := prev[ring[if i == n - 1 then 0 else i + 1] := prev[ring[i]]]
                       [ring[i] := ring[if i == n - 1 then i - 1 else n - 1]][ring[0] := ring[i]];
      CircularBack(Moved(ring, i), prev')
  {
    hide CS.Distinct;
    var n := |ring|;
    var prev' := prev[ring[if i == n - 1 then 0 else i + 1] := prev[ring[i]]]
                     [ring[i] := ring[if i == n - 1 then i - 1 else n - 1]][ring[0] := ring[i]];
    var r := Moved(ring, i);
    forall j | 0 <= j < n
      ensures r[j] in prev' && prev'[r[j]] == r[if j == 0 then n - 1 else j - 1]
    {
      MovedPrevAt(ring, prev, i, j);
      MovedAt(ring, i, j);
      MovedAt(ring, i, if j == 0 then n - 1 else j - 1);
    }
  }

  /** The links `move_buffer` follows lead somewhere. */
  ghost predicate CanMove(next: Links, prev: Links, bp: nat, firstbp: nat) {
    && bp in next && bp in prev && firstbp in prev && bp != firstbp
    && next[bp] in prev && prev[bp] in next && prev[firstbp] in next
  }

  /** The links after the statements of `move_buffer`. */
  ghost function PrevAfter(next: Links, prev: Links, bp: nat, firstbp: nat): Links
    requires CanMove(next, prev, bp, firstbp)
  {
    var prev1 := prev[next[bp] := prev[bp]];
    prev1[bp := prev1[firstbp]][firstbp := bp]
  }

  ghost function NextAfter(next: Links, prev: Links, bp: nat, firstbp: nat): Links
    requires CanMove(next, prev, bp, firstbp)
  {
    var prev1 := prev[next[bp] := prev[bp]];
    next[prev1[bp] := next[bp]][bp := firstbp][PrevAfter(next, prev, bp, firstbp)[bp] := bp]
  }

  /** They are those of the list with `bp` moved to the front. */
  lemma Surgery(ring: seq<nat>, next: Links, prev: Links, i: nat)
    requires CS.Distinct(ring) && Circular(ring, next) && CircularBack(ring, prev) && 0 < i < |ring|
    ensures CanMove(next, prev, ring[i], ring[0])
    ensures Circular(Moved(ring, i), NextAfter(next, prev, ring[i], ring[0]))
    ensures CircularBack(Moved(ring, i), PrevAfter(next, prev, ring[i], ring[0]))
  {
    hide CS.Distinct, Circular, CircularBack;
    Ends(ring, next, prev, i);
    assert Circular(Moved(ring, i), NextAfter(next, prev, ring[i], ring[0])) by {
      MovedNext(ring, next, i);
    }
    assert CircularBack(Moved(ring, i), PrevAfter(next, prev, ring[i], ring[0])) by {
      MovedPrev(ring, prev, i);
    }
  }

  /** The links the surgery reads. */
  lemma Ends(ring: seq<nat>, next: Links, prev: Links, i: nat)
    requires CS.Distinct(ring) && Circular(ring, next) && CircularBack(ring, prev) && 0 < i < |ring|
    ensures CanMove(next, prev, ring[i], ring[0])
    ensures var n := |ring|;
      && next[ring[i]] == ring[if i == n - 1 then 0 else i + 1]
      && prev[ring[i]] == ring[i - 1] && prev[ring[0]] == ring[n - 1]
      && ring[i] != ring[i - 1] && (i != n - 1 ==> ring[i] != ring[i + 1] && ring[i] != ring[n - 1])
      && (i != n - 1 ==> ring[0] != ring[i + 1])
  {}

  /** A consistent circular doubly linked list of the buffers at `keys`, entered at `firstbuf`. */
  ghost predicate IsList(ring: seq<nat>, keys: set<nat>, next: Links, prev: Links, firstbuf: nat) {
    CS.RingOf(ring, keys) && Circular(ring, next) && CircularBack(ring, prev) && ring[0] == firstbuf
  }

  /** Following a link from position `i`. */
  lemma NextOf(ring: seq<nat>, keys: set<nat>, next: Links, prev: Links, firstbuf: nat, i: nat)
    requires IsList(ring, keys, next, prev, firstbuf) && i < |ring|
    ensures ring[i] in keys && ring[i] in next && next[ring[i]] == ring[if i + 1 == |ring| then 0 else i + 1]
    ensures next[ring[i]] == firstbuf <==> i + 1 == |ring|
    ensures firstbuf == ring[0] && firstbuf in prev && prev[firstbuf] == ring[|ring| - 1]
    ensures CS.RingOf(ring, keys)
  {
    Apart(ring, 0, if i + 1 == |ring| then 0 else i + 1);
  }

  lemma MovedList(ring: seq<nat>, keys: set<nat>, next: Links, prev: Links, firstbuf: nat, bp: nat)
    requires IsList(ring, keys, next, prev, firstbuf) && bp in ring
    ensures ring[0] == firstbuf
    ensures bp == ring[0] ==> CS.Front(ring, bp) == ring
    ensures bp != ring[0] ==>
      && CanMove(next, prev, bp, ring[0])
      && IsList(CS.Front(ring, bp), keys, NextAfter(next, prev, bp, ring[0]), PrevAfter(next, prev, bp, ring[0]), bp)
  {
    CS.FrontIsRing(ring, keys, bp);
    var i := CS.IndexOf(ring, bp);
    if i > 0 {
      Ends(ring, next, prev, i);
      Surgery(ring, next, prev, i);
    }
  }

  /** The walk of `searchblock` has passed the first `i` buffers without finding `k`. */
  ghost predicate Passed(ring: seq<nat>, bufs: CS.Buffers, k: Block, i: nat, lastNonFat: nat, uncacheBuf: nat,
                         fatCount: nat)
    requires CS.RingOf(ring, bufs.Keys) && i <= |ring|
  {
    && (forall j :: 0 <= j < i ==> !CS.Holds(bufs[ring[j]], k))
    && uncacheBuf == CS.LastUncache(ring[..i], bufs)
    && lastNonFat == CS.LastNonFat(ring[..i], bufs)
    && fatCount == CS.FatCount(ring[..i], bufs)
  }

  lemma PassNone(ring: seq<nat>, bufs: CS.Buffers, next: Links, prev: Links, firstbuf: nat, k: Block)
    requires IsList(ring, bufs.Keys, next, prev, firstbuf)
    ensures CS.RingOf(ring, bufs.Keys) && |ring| >= 2 && firstbuf == ring[0] && Passed(ring, bufs, k, 0, 0, 0, 0)
  {
    assert ring[..0] == [];
  }

  lemma PassOne(ring: seq<nat>, bufs: CS.Buffers, k: Block, i: nat, lastNonFat: nat, uncacheBuf: nat, fatCount: nat)
    requires CS.RingOf(ring, bufs.Keys) && i < |ring| && ring[i] in bufs
    requires Passed(ring, bufs, k, i, lastNonFat, uncacheBuf, fatCount) && !CS.Holds(bufs[ring[i]], k)
    ensures var b := bufs[ring[i]];
      Passed(ring, bufs, k, i + 1, if b.fat then lastNonFat else ring[i], if b.uncache then ring[i] else uncacheBuf,
             if b.fat then fatCount + 1 else fatCount)
  {
    assert ring[..i + 1][..i] == ring[..i];
  }

  /** A walk that passes every buffer leaves just what the choice of a victim needs. */
  lemma PassedAll(ring: seq<nat>, bufs: CS.Buffers, k: Block, lastNonFat: nat, uncacheBuf: nat, fatCount: nat)
    requires CS.RingOf(ring, bufs.Keys) && Passed(ring, bufs, k, |ring|, lastNonFat, uncacheBuf, fatCount)
    ensures !CS.Held(bufs, k)
    ensures CS.Victim(ring, bufs) in ring && CS.Victim(ring, bufs) in bufs && ring[0] in bufs
    ensures CS.Victim(ring, bufs) == if uncacheBuf != 0 then uncacheBuf
              else if bufs[ring[0]].fat && fatCount < 3 && lastNonFat != 0 then lastNonFat else ring[|ring| - 1]
  {
    assert ring[..|ring|] == ring;
    CS.VictimIsNotFront(ring, bufs);
    forall o | o in bufs ensures !CS.Holds(bufs[o], k) {
      assert o == ring[CS.IndexOf(ring, o)];
    }
  }

  function Unused(sector: Sector): CS.Buffer {
    CS.Buffer(Block(0, 0), false, false, false, false, 0, 0, sector)
  }

  /** `n` unused buffers of `size` bytes lie one after the other from `base` on, each linked to the next. */
  ghost predicate Row(ring: seq<nat>, n: nat, base: nat, size: nat, bufs: CS.Buffers, next: Links, prev: Links,
                      empty: CS.Buffer) {
    && |ring| == n
    && (forall j :: 0 <= j < n ==> ring[j] == base + j * size)
    && (forall j :: 0 <= j < n ==> ring[j] in next && next[ring[j]] == ring[j] + size)
    && (forall j :: 0 <= j < n ==> ring[j] in prev && (j > 0 ==> prev[ring[j]] == ring[j] - size))
    && (forall o :: o in bufs <==> o in ring)
    && (forall o :: o in bufs ==> bufs[o] == empty)
  }

  lemma NoRow(base: nat, size: nat, empty: CS.Buffer)
    ensures Row([], 0, base, size, map[], map[], map[], empty)
  {}

  lemma RowApart(ring: seq<nat>, base: nat, size: nat, i: nat, j: nat)
    requires size > 0 && i < j
    ensures base + i * size <= base + j * size - size
  {
    MulMono(i + 1, j, size);
  }

  lemma RowGrows(ring: seq<nat>, n: nat, base: nat, size: nat, bufs: CS.Buffers, next: Links, prev: Links,
                 empty: CS.Buffer)
    requires Row(ring, n, base, size, bufs, next, prev, empty) && size > 0
    ensures var p := base + n * size;
      Row(ring + [p], n + 1, base, size, bufs[p := empty], next[p := p + size],
          prev[p := if n == 0 then p else p - size], empty)
    ensures n > 0 ==> size <= base + n * size
  {
    var p := base + n * size;
    forall j | 0 <= j < n ensures ring[j] < p {
      RowApart(ring, base, size, j, n);
    }
    if n > 0 {
      RowApart(ring, base, size, 0, n);
    }
  }

  lemma RowOrder(ring: seq<nat>, n: nat, base: nat, size: nat, bufs: CS.Buffers, next: Links, prev: Links,
                 empty: CS.Buffer)
    requires Row(ring, n, base, size, bufs, next, prev, empty) && size > 0 && n >= 2
    ensures ring[0] == base && ring[n - 1] == base + n * size - size
    ensures forall i, j :: 0 <= i < j < n ==> ring[i] <= ring[j] - size
    ensures forall i {:trigger next[ring[i]]} :: 0 <= i < n - 1 ==> ring[i + 1] == ring[i] + size
  {
    forall i, j | 0 <= i < j < n ensures ring[i] <= ring[j] - size {
      RowApart(ring, base, size, i, j);
    }
  }

  lemma RowNext(ring: seq<nat>, n: nat, base: nat, size: nat, bufs: CS.Buffers, next: Links, prev: Links,
                empty: CS.Buffer)
    requires Row(ring, n, base, size, bufs, next, prev, empty) && size > 0 && n >= 2 && base + n * size >= size
    ensures Circular(ring, next[base + n * size - size := base])
  {
    RowOrder(ring, n, base, size, bufs, next, prev, empty);
  }

  lemma RowPrev(ring: seq<nat>, n: nat, base: nat, size: nat, bufs: CS.Buffers, next: Links, prev: Links,
                empty: CS.Buffer)
    requires Row(ring, n, base, size, bufs, next, prev, empty) && size > 0 && n >= 2 && base + n * size >= size
    ensures CircularBack(ring, prev[base := base + n * size - size])
  {
    RowOrder(ring, n, base, size, bufs, next, prev, empty);
  }

  lemma RowIsList(ring: seq<nat>, n: nat, base: nat, size: nat, bufs: CS.Buffers, next: Links, prev: Links,
                  empty: CS.Buffer)
    requires Row(ring, n, base, size, bufs, next, prev, empty) && size > 0 && n >= 2
    ensures base + n * size - size >= 0
    ensures var last := base + n * size - size;
      IsList(ring, bufs.Keys, next[last := base], prev[base := last], base)
    ensures |ring| == n && forall o :: o in bufs ==> bufs[o] == empty
  {
    hide Circular, CircularBack;
    RowOrder(ring, n, base, size, bufs, next, prev, empty);
    RowNext(ring, n, base, size, bufs, next, prev, empty);
    RowPrev(ring, n, base, size, bufs, next, prev, empty);
  }

  lemma EmptyPool(geo: Layouts, bufs: CS.Buffers, disk: Disk, sector: Sector)
    requires (forall o :: o in bufs ==> bufs[o] == Unused(sector)) && CS.Sized(|sector|, disk)
    ensures CS.Sound(geo, |sector|, CS.Store(bufs, disk)) && CS.Coherent(CS.Store(bufs, disk))
    ensures CS.View(geo, CS.Store(bufs, disk)) == disk
  {}

  lemma KeysStay(bufs: CS.Buffers, o: nat, b: CS.Buffer)
    requires o in bufs
    ensures bufs[o := b].Keys == bufs.Keys
  {}

  lemma StartSweep(ring: seq<nat>, keys: set<nat>, next: Links, prev: Links, firstbuf: nat, s: CS.Store, p: CS.Pass)
    requires IsList(ring, keys, next, prev, firstbuf) && keys == s.bufs.Keys
    ensures CS.RingOf(ring, keys) && |ring| >= 2 && firstbuf == ring[0] && CS.Swept(s, ring, 0, p) == s
  {}

  lemma SweepOne(s: CS.Store, ring: seq<nat>, i: nat, p: CS.Pass)
    requires CS.RingOf(ring, s.bufs.Keys) && i < |ring|
    ensures ring[i] in s.bufs && CS.Swept(s, ring, i + 1, p) == CS.Visit(CS.Swept(s, ring, i, p), ring[i], p)
  {}

  lemma FlushAllIs(geo: Layouts, secsize: nat, s: CS.Store, ring: seq<nat>)
    requires CS.Sound(geo, secsize, s) && CS.Coherent(s) && CS.RingOf(ring, s.bufs.Keys)
    ensures var s' := CS.Sweep(s, ring, CS.FlushAll);
      CS.Sound(geo, secsize, s') && CS.Coherent(s') && CS.View(geo, s') == CS.View(geo, s) == s'.disk
  {
    hide CS.Sound, CS.Coherent, CS.View, CS.RingOf, CS.Sweep;
    CS.FlushIsComplete(geo, secsize, s, ring, CS.FlushAll);
    assert forall k: Block :: CS.Writes(CS.FlushAll, k);
  }

  lemma PutIs(geo: Layouts, secsize: nat, s: CS.Store, o: nat, data: Sector)
    requires CS.Sound(geo, secsize, s) && CS.Coherent(s) && o in s.bufs && s.bufs[o].valid && |data| == secsize
    requires InFat(geo, s.bufs[o].tag) ==> s.bufs[o].fat
    ensures var s' := CS.Put(s, o, data);
      && CS.Sound(geo, secsize, s') && CS.Coherent(s')
      && CS.View(geo, s') == CS.Stored(geo, CS.View(geo, s), s.bufs[o].tag, s.bufs[o].fat, data)
  {
    CS.PutSound(geo, secsize, s, o, data);
    CS.PutStores(geo, secsize, s, o, data);
    CS.PutCoherent(s, o, data);
  }

  lemma WriteNone(d: Disk, unit: int, no: int, data: seq<Sector>)
    ensures CS.WriteRun(d, unit, no, data[..0]) == d
  {}

  /** The buffer `f` got before, unless up for recycling, is not the one just got for another block `k`, and
      is as it was. */
  ghost predicate Stays(bufs: CS.Buffers, bufs': CS.Buffers, f: nat, bp: nat, k: Block)
    requires f in bufs
  {
    !bufs[f].uncache && !CS.Holds(bufs[f], k) ==> f != bp && f in bufs' && bufs'[f] == bufs[f]
  }

  lemma HeadStays(ring: seq<nat>, s: CS.Store, next: Links, prev: Links, firstbuf: nat, k: Block, overwrite: bool)
    requires IsList(ring, s.bufs.Keys, next, prev, firstbuf) && CS.Unique(s.bufs)
    ensures CS.RingOf(ring, s.bufs.Keys) && firstbuf in s.bufs
    ensures var o := CS.Searched(ring, s.bufs, k);
      o in s.bufs && Stays(s.bufs, CS.Got(s, o, k, overwrite).bufs, firstbuf, o, k)
  {
    hide CS.Unique, CS.Searched, CS.Got;
    assert ring[0] in ring;
    if !s.bufs[firstbuf].uncache && !CS.Holds(s.bufs[firstbuf], k) {
      CS.FrontStays(ring, s, k, overwrite);
    }
  }

  class BlockCache {
    const secsize: nat
    ghost const geo: Layouts

    var next: Links
    var prev: Links
    var bufs: CS.Buffers
    var firstbuf: nat
    var disk: Disk

    /** The offsets in the order of the list. */
    ghost var ring: seq<nat>
    /** What a user of the cache sees. */
    ghost var view: Disk

    ghost function Contents(): CS.Store
      reads `bufs, `disk
    {
      CS.Store(bufs, disk)
    }

    ghost predicate Linked()
      reads `ring, `bufs, `next, `prev, `firstbuf
    {
      IsList(ring, bufs.Keys, next, prev, firstbuf)
    }

    /** All but that an overwritten buffer may still differ from its disk sector. */
    ghost predicate Usable()
      reads this
    {
      && Linked() && CS.Sound(geo, secsize, Contents())
      && view == CS.View(geo, Contents()) && CS.Sized(secsize, view)
    }

    ghost predicate Valid()
      reads this
    {
      Usable() && CS.Coherent(Contents())
    }

    /** `config_init_buffers`: `count` unused buffers of `size` bytes each, from offset `base` on. */
    constructor (ghost geo: Layouts, secsize: nat, disk: Disk, base: nat, size: nat, count: nat)
      requires count >= 3 && size > 0 && CS.Sized(secsize, disk)
      ensures Valid() && this.secsize == secsize && this.geo == geo && this.disk == disk && view == disk
      ensures |ring| == count && firstbuf == base
    {
      hide IsList, CS.Sound, CS.Coherent, CS.View, CS.Sized;
      var sector := seq(secsize, _ => 0);
      var nx, pv, bs, last;
      ghost var rg;
      nx, pv, bs, last, rg := InitBuffers(sector, base, size, count);
      EmptyPool(geo, bs, disk, sector);
      this.geo, this.secsize, this.disk, this.firstbuf := geo, secsize, disk, base;
      this.next, this.prev, this.bufs, this.ring, this.view := nx, pv, bs, rg, disk;
    }

    static method InitBuffers(sector: Sector, base: nat, size: nat, count: nat)
      returns (next: Links, prev: Links, bufs: CS.Buffers, last: nat, ghost ring: seq<nat>)
      requires count >= 3 && size > 0
      ensures IsList(ring, bufs.Keys, next, prev, base) && |ring| == count
      ensures forall o :: o in bufs ==> bufs[o] == Unused(sector)
    {
      hide Row, IsList;
      next, prev, bufs, ring := map[], map[], map[], [];
      var pbuffer := base;
      NoRow(base, size, Unused(sector));
      for i := 0 to count
        invariant pbuffer == base + i * size
        invariant Row(ring, i, base, size, bufs, next, prev, Unused(sector))
      {
        RowGrows(ring, i, base, size, bufs, next, prev, Unused(sector));
        bufs := bufs[pbuffer := Unused(sector)];
        next := next[pbuffer := pbuffer + size];
        prev := prev[pbuffer := if i == 0 then pbuffer else pbuffer - size];
        ring := ring + [pbuffer];
        pbuffer := pbuffer + size;
      }
      RowIsList(ring, count, base, size, bufs, next, prev, Unused(sector));
      last := pbuffer - size;
      next := next[last := base];
      prev := prev[base := last];
    }

    method MoveBuffer(bp: nat, firstbp: nat)
      requires CanMove(next, prev, bp, firstbp)
      modifies `next, `prev
      ensures next == NextAfter(old(next), old(prev), bp, firstbp)
      ensures prev == PrevAfter(old(next), old(prev), bp, firstbp)
    {
      prev := prev[next[bp] := prev[bp]];
      next := next[prev[bp] := next[bp]];
      prev := prev[bp := prev[firstbp]];
      next := next[bp := firstbp];
      prev := prev[next[bp] := bp];
      next := next[prev[bp] := bp];
    }

    /** Sets or clears the UNCACHE bit. */
    method SetUncache(bp: nat, uncache: bool)
      requires bp in bufs
      modifies `bufs
      ensures bufs == old(bufs)[bp := old(bufs)[bp].(uncache := uncache)] && bufs.Keys == old(bufs).Keys
    {
      bufs := bufs[bp := bufs[bp].(uncache := uncache)];
    }

    /** Makes the buffer `searchblock` has chosen the head of the list. */
    method ToFront(bp: nat)
      requires Linked() && bp in ring
      modifies `next, `prev, `firstbuf, `ring
      ensures Linked() && ring == CS.Front(old(ring), bp) && firstbuf == bp
    {
      hide IsList, NextAfter, PrevAfter, CanMove;
      MovedList(ring, bufs.Keys, next, prev, firstbuf, bp);
      var firstbp := firstbuf;
      if bp != firstbp {
        firstbuf := bp;
        MoveBuffer(bp, firstbp);
      }
      ring := CS.Front(ring, bp);
    }

    method SearchBlock(blkno: int, dsk: int) returns (bp: nat)
      requires Linked() && CS.Unique(bufs)
      modifies `next, `prev, `bufs, `firstbuf, `ring
      ensures Linked() && CS.RingOf(old(ring), old(bufs).Keys)
      ensures bp == CS.Searched(old(ring), old(bufs), Block(dsk, blkno))
      ensures ring == CS.Front(old(ring), bp) && firstbuf == bp && bufs.Keys == old(bufs).Keys
      ensures bp in old(bufs) && Contents() == CS.Marked(old(Contents()), bp, Block(dsk, blkno))
      ensures bp in bufs && bufs[bp].uncache == !CS.Held(old(bufs), Block(dsk, blkno))
    {
      hide IsList, Passed, CS.RingOf, CS.Victim, CS.Held, CS.Unique;
      ghost var k := Block(dsk, blkno);
      PassNone(ring, bufs, next, prev, firstbuf, k);
      var fatCount := 0;
      var lastNonFat := 0;
      var uncacheBuf := 0;
      var firstbp := firstbuf;
      ghost var i := 0;
      bp := firstbp;
      while true
        invariant unchanged(this) && 0 <= i < |ring| && bp == ring[i]
        invariant Passed(ring, bufs, k, i, lastNonFat, uncacheBuf, fatCount)
        decreases |ring| - i
      {
        NextOf(ring, bufs.Keys, next, prev, firstbuf, i);
        if bufs[bp].tag.no == blkno && bufs[bp].valid && bufs[bp].tag.unit == dsk {
          CS.HolderIs(bufs, bp, k);
          SetUncache(bp, false);
          ToFront(bp);
          return;
        }
        PassOne(ring, bufs, k, i, lastNonFat, uncacheBuf, fatCount);
        if bufs[bp].uncache {
          uncacheBuf := bp;
        }
        if bufs[bp].fat {
          fatCount := fatCount + 1;
        } else {
          lastNonFat := bp;
        }
        bp := next[bp];
        i := i + 1;
        if bp == firstbp {
          break;
        }
      }
      PassedAll(ring, bufs, k, lastNonFat, uncacheBuf, fatCount);
      NextOf(ring, bufs.Keys, next, prev, firstbuf, 0);
      if uncacheBuf != 0 {
        bp := uncacheBuf;
      } else if bufs[bp].fat && fatCount < 3 && lastNonFat != 0 {
        bp := lastNonFat;
      } else {
        bp := prev[firstbp];
      }
      SetUncache(bp, true);
      ToFront(bp);
    }

    method Flush1(bp: nat)
      requires bp in bufs
      modifies `bufs, `disk
      ensures Contents() == CS.Flush1(old(Contents()), bp) && bufs.Keys == old(bufs).Keys
    {
      if bufs[bp].valid && bufs[bp].dirty {
        var bOffset := 0;
        var bCopies := 1;
        var blkno := bufs[bp].tag.no;
        if bufs[bp].fat {
          bCopies := bufs[bp].copies;
          bOffset := bufs[bp].offset;
        }
        while bCopies > 0
          invariant bCopies >= 0 && bp in bufs && bufs == old(bufs)
          invariant CS.WriteCopies(disk, Block(bufs[bp].tag.unit, blkno), bCopies, bOffset, bufs[bp].data)
                 == CS.WriteBack(old(disk), bufs[bp])
        {
          bCopies := bCopies - 1;
          disk := disk[Block(bufs[bp].tag.unit, blkno) := bufs[bp].data];
          blkno := blkno + bOffset;
        }
      }
      bufs := bufs[bp := bufs[bp].(dirty := false)];
    }

    /** Gives a buffer to a block: all flags but BFR_VALID are cleared. */
    method Fill(bp: nat, k: Block, overwrite: bool)
      requires bp in bufs
      modifies `bufs
      ensures Contents() == CS.Refilled(old(Contents()), bp, k, overwrite) && bufs.Keys == old(bufs).Keys
    {
      if !overwrite {
        bufs := bufs[bp := bufs[bp].(data := disk[k])];
      }
      bufs := bufs[bp := CS.Filled(bufs[bp], k, bufs[bp].data)];
    }

    /** The steps of `getblk` on the list and the buffers. */
    method FetchBlk(blkno: int, dsk: int, overwrite: bool) returns (bp: nat)
      requires Linked() && CS.Unique(bufs)
      modifies `next, `prev, `bufs, `firstbuf, `ring, `disk
      ensures Linked() && CS.RingOf(old(ring), old(bufs).Keys)
      ensures bp == CS.Searched(old(ring), old(bufs), Block(dsk, blkno)) && bp in old(bufs) && bp in bufs
      ensures ring == CS.Front(old(ring), bp) && firstbuf == bp
      ensures Contents() == CS.Got(old(Contents()), bp, Block(dsk, blkno), overwrite)
    {
      hide IsList, CS.Held, CS.RingOf, CS.Front, CS.Flush1, CS.Marked, CS.Refilled, CS.Searched, CS.Unique;
      bp := SearchBlock(blkno, dsk);
      if bufs[bp].uncache {
        Flush1(bp);
        Fill(bp, Block(dsk, blkno), overwrite);
      }
    }

    /** The block at (dsk, blkno) in a buffer, which is then the head of the list.  Nothing that is seen
        changes, unless the block is to be overwritten. */
    method GetBlk(blkno: int, dsk: int, overwrite: bool) returns (bp: nat)
      requires Valid() && !InMirror(geo, Block(dsk, blkno))
      modifies this
      ensures Usable() && (!overwrite ==> Valid())
      ensures CS.RingOf(old(ring), old(bufs).Keys) && bp in old(bufs)
      ensures bp == CS.Searched(old(ring), old(bufs), Block(dsk, blkno))
      ensures ring == CS.Front(old(ring), bp) && firstbuf == bp
      ensures Contents() == CS.Got(old(Contents()), bp, Block(dsk, blkno), overwrite)
      ensures bp in bufs && CS.Holds(bufs[bp], Block(dsk, blkno)) && !bufs[bp].uncache
      ensures view == if overwrite then old(view)[Block(dsk, blkno) := bufs[bp].data] else old(view)
      ensures old(firstbuf) in old(bufs) && Stays(old(bufs), bufs, old(firstbuf), bp, Block(dsk, blkno))
    {
      hide IsList, CS.Sound, CS.Coherent, CS.View, CS.Sized, CS.Held, CS.RingOf, CS.Front, CS.Searched, CS.Got,
           CS.Holds, InMirror, Stays;
      ghost var s := Contents();
      CS.SoundUnique(geo, secsize, s);
      bp := FetchBlk(blkno, dsk, overwrite);
      if CS.Held(s.bufs, Block(dsk, blkno)) {
        CS.SearchedHit(old(ring), s.bufs, Block(dsk, blkno));
      }
      CS.GotKeeps(geo, secsize, s, bp, Block(dsk, blkno), overwrite);
      HeadStays(old(ring), s, old(next), old(prev), old(firstbuf), Block(dsk, blkno), overwrite);
      view := CS.View(geo, Contents());
      CS.ViewSized(geo, secsize, Contents());
    }

    /** The macro `getblock`: what its users rely on. */
    method GetBlock(blkno: int, dsk: int) returns (bp: nat)
      requires Valid() && !InMirror(geo, Block(dsk, blkno))
      modifies this
      ensures Valid() && view == old(view)
      ensures bp in bufs && CS.Holds(bufs[bp], Block(dsk, blkno)) && !bufs[bp].uncache && firstbuf == bp
      ensures old(firstbuf) in old(bufs) && Stays(old(bufs), bufs, old(firstbuf), bp, Block(dsk, blkno))
    {
      hide Valid, Usable, IsList, CS.Searched, CS.Got, CS.Front, CS.RingOf, CS.Holds, Stays;
      bp := GetBlk(blkno, dsk, false);
    }

    /** A valid buffer shows its block. */
    lemma Shows(o: nat)
      requires Valid() && o in bufs && bufs[o].valid
      ensures bufs[o].data == view[bufs[o].tag] && |bufs[o].data| == secsize
    {
      CS.SeenIsHeld(geo, Contents(), o, bufs[o].tag);
    }

    /** Only FAT sectors carry the FAT flag. */
    lemma FatFlag(o: nat)
      requires Valid() && o in bufs && bufs[o].valid && !InFat(geo, bufs[o].tag)
      ensures !bufs[o].fat
    {
      assert CS.Good(geo, secsize, bufs[o]);
    }

    lemma ViewIsSized()
      requires Valid()
      ensures CS.Sized(secsize, view)
    {}

    /** Marks a buffer as one to recycle first. */
    method Uncache(bp: nat)
      requires Valid() && bp in bufs
      modifies `bufs
      ensures Valid() && Contents() == CS.Uncached(old(Contents()), bp)
    {
      hide IsList, CS.Sound, CS.Coherent, CS.View, CS.Sized, CS.Good;
      CS.UncacheKeeps(geo, secsize, Contents(), bp);
      SetUncache(bp, true);
    }

    /** Marks a buffer as holding a FAT sector of `copies` copies. */
    method MarkFat(bp: nat, copies: nat, offset: nat)
      requires Valid() && bp in bufs && bufs[bp].valid && InFat(geo, bufs[bp].tag)
      requires copies == geo(bufs[bp].tag.unit).fats >= 1 && offset == geo(bufs[bp].tag.unit).fatsize
      modifies `bufs
      ensures Valid()
      ensures bufs == old(bufs)[bp := old(bufs)[bp].(fat := true, copies := copies, offset := offset)]
      ensures forall f :: f in old(bufs) && f != bp ==> f in bufs && bufs[f] == old(bufs)[f]
    {
      hide IsList, CS.Sound, CS.Coherent, CS.View, CS.Sized, InFat;
      CS.MarkFatKeeps(geo, secsize, Contents(), bp);
      KeysStay(bufs, bp, bufs[bp].(valid := true, fat := true, copies := copies, offset := offset));
      bufs := bufs[bp := bufs[bp].(valid := true, fat := true, copies := copies, offset := offset)];
    }

    /** Bytes copied into a buffer at `at`, which is then marked dirty and valid. */
    method StoreBytes(bp: nat, at: nat, bytes: seq<byte>)
      requires bp in bufs && at + |bytes| <= |bufs[bp].data|
      modifies `bufs
      ensures Contents() == CS.Put(old(Contents()), bp, Patched(old(bufs)[bp].data, at, bytes))
      ensures bufs.Keys == old(bufs).Keys
    {
      bufs := bufs[bp := bufs[bp].(data := Patched(bufs[bp].data, at, bytes))];
      bufs := bufs[bp := bufs[bp].(dirty := true, valid := true)];
    }

    /** Writing into a buffer is seen as a write of its sector, of a FAT sector in all its copies. */
    method Put(bp: nat, at: nat, bytes: seq<byte>)
      requires Valid() && bp in bufs && bufs[bp].valid && (InFat(geo, bufs[bp].tag) ==> bufs[bp].fat)
      requires at + |bytes| <= |bufs[bp].data| == secsize
      modifies `bufs, `view
      ensures Valid()
      ensures bufs == old(bufs)[bp := old(bufs)[bp].(data := Patched(old(bufs)[bp].data, at, bytes), dirty := true)]
      ensures view == CS.Stored(geo, old(view), old(bufs)[bp].tag, old(bufs)[bp].fat,
              Patched(old(bufs)[bp].data, at, bytes))
    {
      hide IsList, CS.Sound, CS.Coherent, CS.View, CS.Sized, InFat, CS.Stored;
      PutIs(geo, secsize, Contents(), bp, Patched(bufs[bp].data, at, bytes));
      StoreBytes(bp, at, bytes);
      view := CS.View(geo, Contents());
      CS.ViewSized(geo, secsize, Contents());
    }

    method VisitDelete(bp: nat, blknolow: int, blknohigh: int, dsk: int, reading: bool)
      requires bp in bufs
      modifies `bufs, `disk
      ensures Contents() == CS.Visit(old(Contents()), bp, CS.Delete(blknolow, blknohigh, dsk, reading))
      ensures bufs.Keys == old(bufs).Keys
    {
      hide CS.Flush1;
      if blknolow <= bufs[bp].tag.no && bufs[bp].tag.no <= blknohigh && bufs[bp].valid && bufs[bp].tag.unit == dsk {
        if reading {
          Flush1(bp);
        } else {
          KeysStay(bufs, bp, CS.Emptied(bufs[bp]));
          bufs := bufs[bp := CS.Emptied(bufs[bp])];
        }
      }
    }

    /** Gets the buffers of a run out of the way of a direct transfer: written back before a read, thrown
        away before a write. */
    method DeleteBlockInBufferCache(blknolow: int, blknohigh: int, dsk: int, reading: bool)
      requires Linked()
      modifies `bufs, `disk
      ensures Linked() && CS.RingOf(ring, old(bufs).Keys)
      ensures Contents() == CS.Sweep(old(Contents()), ring, CS.Delete(blknolow, blknohigh, dsk, reading))
    {
      hide CS.Visit, CS.Swept, IsList, CS.RingOf;
      ghost var p := CS.Delete(blknolow, blknohigh, dsk, reading);
      var bp := firstbuf;
      ghost var i := 0;
      StartSweep(ring, bufs.Keys, next, prev, firstbuf, Contents(), p);
      while true
        invariant Linked() && 0 <= i < |ring| && bp == ring[i] && bufs.Keys == old(bufs).Keys
        invariant CS.RingOf(ring, old(bufs).Keys) && Contents() == CS.Swept(old(Contents()), ring, i, p)
        decreases |ring| - i
      {
        NextOf(ring, bufs.Keys, next, prev, firstbuf, i);
        SweepOne(old(Contents()), ring, i, p);
        VisitDelete(bp, blknolow, blknohigh, dsk, reading);
        bp := next[bp];
        i := i + 1;
        if bp == firstbuf {
          break;
        }
      }
    }

    /** A direct read of a run of blocks, after its buffers have been written back. */
    method ReadRun(dsk: int, no: int, n: nat) returns (data: seq<Sector>)
      requires Valid() && CS.OutsideFat(geo, dsk, no, n)
      modifies `bufs, `disk
      ensures Valid() && CS.RingOf(ring, old(bufs).Keys)
      ensures Contents() == CS.Sweep(old(Contents()), ring, CS.Delete(no, no + n - 1, dsk, true))
      ensures data == CS.RunOf(view, dsk, no, n)
    {
      hide IsList, CS.Sound, CS.Coherent, CS.View, CS.Sized, CS.Sweep, CS.RunOf, CS.OutsideFat;
      ghost var s := Contents();
      DeleteBlockInBufferCache(no, no + n - 1, dsk, true);
      CS.DirectRead(geo, secsize, s, ring, dsk, no, n);
      data := CS.RunOf(disk, dsk, no, n);
    }

    /** A direct write of a run of blocks, after its buffers have been thrown away. */
    method WriteRun(dsk: int, no: int, data: seq<Sector>)
      requires Valid() && CS.OutsideFat(geo, dsk, no, |data|)
      requires CS.AllSized(secsize, data)
      modifies `bufs, `disk, `view
      ensures Valid() && CS.RingOf(ring, old(bufs).Keys)
      ensures Contents() == CS.Overwritten(old(Contents()), ring, dsk, no, data)
      ensures view == CS.WriteRun(old(view), dsk, no, data)
    {
      hide IsList, CS.Sound, CS.Coherent, CS.View, CS.Sized, CS.Sweep, CS.OutsideFat, CS.RingOf, CS.DiskWritten,
           CS.AllSized, CS.WriteRun;
      ghost var s := Contents();
      DeleteBlockInBufferCache(no, no + |data| - 1, dsk, false);
      CS.DirectWrite(geo, secsize, s, ring, dsk, no, data);
      DskWrite(dsk, no, data);
      view := CS.View(geo, Contents());
      CS.ViewSized(geo, secsize, Contents());
    }

    /** `dskxfer` with DSKWRITE. */
    method DskWrite(dsk: int, no: int, data: seq<Sector>)
      modifies `disk
      ensures Contents() == CS.DiskWritten(old(Contents()), dsk, no, data)
    {
      hide CS.WriteRun;
      WriteNone(disk, dsk, no, data);
      for i := 0 to |data|
        invariant disk == CS.WriteRun(old(disk), dsk, no, data[..i])
      {
        CS.WriteRunMore(old(disk), dsk, no, data, i);
        disk := disk[Block(dsk, no + i) := data[i]];
      }
      assert data[..|data|] == data;
    }

    method VisitFlush(bp: nat)
      requires bp in bufs
      modifies `bufs, `disk
      ensures Contents() == CS.Visit(old(Contents()), bp, CS.FlushAll) && bufs.Keys == old(bufs).Keys
    {
      hide CS.Flush1;
      Flush1(bp);
      KeysStay(bufs, bp, bufs[bp].(valid := false));
      bufs := bufs[bp := bufs[bp].(valid := false)];
    }

    /** Writes all buffers back and forgets them. */
    method Flush()
      requires Valid()
      modifies `bufs, `disk
      ensures Valid() && CS.RingOf(ring, old(bufs).Keys)
      ensures Contents() == CS.Sweep(old(Contents()), ring, CS.FlushAll)
      ensures disk == view
    {
      hide CS.Visit, CS.Swept, IsList, CS.RingOf, CS.Sound, CS.Coherent, CS.View, CS.Sized;
      var bp := firstbuf;
      ghost var i := 0;
      StartSweep(ring, bufs.Keys, next, prev, firstbuf, Contents(), CS.FlushAll);
      FlushAllIs(geo, secsize, Contents(), ring);
      while true
        invariant Linked() && 0 <= i < |ring| && bp == ring[i] && bufs.Keys == old(bufs).Keys
        invariant Contents() == CS.Swept(old(Contents()), ring, i, CS.FlushAll)
        decreases |ring| - i
      {
        NextOf(ring, bufs.Keys, next, prev, firstbuf, i);
        SweepOne(old(Contents()), ring, i, CS.FlushAll);
        VisitFlush(bp);
        bp := next[bp];
        i := i + 1;
        if bp == firstbuf {
          break;
        }
      }
    }

    method VisitFlushUnit(bp: nat, dsk: int)
      requires bp in bufs
      modifies `bufs, `disk
      ensures Contents() == CS.Visit(old(Contents()), bp, CS.FlushUnit(dsk)) && bufs.Keys == old(bufs).Keys
    {
      hide CS.Flush1;
      if bufs[bp].tag.unit == dsk {
        Flush1(bp);
      }
    }

    /** Writes the buffers of one unit back. */
    method FlushBuffers(dsk: int)
      requires Valid()
      modifies `bufs, `disk
      ensures Valid() && CS.RingOf(ring, old(bufs).Keys)
      ensures Contents() == CS.Sweep(old(Contents()), ring, CS.FlushUnit(dsk))
      ensures forall k: Block :: k.unit == dsk ==> disk[k] == view[k]
    {
      hide CS.Visit, CS.Swept, IsList, CS.RingOf, CS.Sound, CS.Coherent, CS.View, CS.Sized;
      var bp := firstbuf;
      ghost var i := 0;
      ghost var p := CS.FlushUnit(dsk);
      StartSweep(ring, bufs.Keys, next, prev, firstbuf, Contents(), p);
      CS.FlushIsComplete(geo, secsize, Contents(), ring, p);
      while true
        invariant Linked() && 0 <= i < |ring| && bp == ring[i] && bufs.Keys == old(bufs).Keys
        invariant Contents() == CS.Swept(old(Contents()), ring, i, p)
        decreases |ring| - i
      {
        NextOf(ring, bufs.Keys, next, prev, firstbuf, i);
        SweepOne(old(Contents()), ring, i, p);
        VisitFlushUnit(bp, dsk);
        bp := next[bp];
        i := i + 1;
        if bp == firstbuf {
          break;
        }
      }
    }
  }
}
