/**
 The pool of fdpp/smalloc.c as a value: a row of areas, each used or free, that fill the pool.
 */
module PoolSpec {
  datatype Area = Area(addr: int, size: int, used: bool)

  type Areas = seq<Area>

  /** A block handed out to a caller. */
  datatype Block = Block(addr: int, size: int)

  /** The areas fill lo..hi-1 in order, none of them empty. */
  ghost predicate Tiled(a: Areas, lo: int, hi: int) {
    if a == [] then lo == hi
    else a[0].addr == lo && a[0].size > 0 && Tiled(a[1..], lo + a[0].size, hi)
  }

  /** No two adjacent areas are free. */
  ghost predicate Coalesced(a: Areas) {
    |a| < 2 || ((a[0].used || a[1].used) && Coalesced(a[1..]))
  }

  /** The blocks in use. */
  ghost function Live(a: Areas): set<Block> {
    if a == [] then {} else (if a[0].used then {Block(a[0].addr, a[0].size)} else {}) + Live(a[1..])
  }

  /** Bytes in free areas. */
  function FreeBytes(a: Areas): int {
    if a == [] then 0 else (if a[0].used then 0 else a[0].size) + FreeBytes(a[1..])
  }

  /** A pool in order. */
  ghost predicate Good(a: Areas, lo: int, hi: int) {
    a != [] && Tiled(a, lo, hi) && Coalesced(a)
  }

  // ---------- joining rows ----------

  lemma {:induction false} TiledJoin(a: Areas, b: Areas, lo: int, mid: int, hi: int)
    requires Tiled(a, lo, mid) && Tiled(b, mid, hi)
    ensures Tiled(a + b, lo, hi)
  {
    if a == [] {
      assert a + b == b;
    } else {
      TiledJoin(a[1..], b, lo + a[0].size, mid, hi);
      assert (a + b)[1..] == a[1..] + b;
    }
  }

  /** Where a row of areas that starts at `lo` ends. */
  function End(a: Areas, lo: int): int {
    if a == [] then lo else End(a[1..], lo + a[0].size)
  }

  lemma {:induction false} TiledSplit(a: Areas, b: Areas, lo: int, hi: int)
    requires Tiled(a + b, lo, hi)
    ensures Tiled(a, lo, End(a, lo)) && Tiled(b, End(a, lo), hi) && lo <= End(a, lo) <= hi
  {
    if a == [] {
      assert a + b == b;
      TiledUp(b, lo, hi);
    } else {
      assert (a + b)[1..] == a[1..] + b;
      TiledSplit(a[1..], b, lo + a[0].size, hi);
    }
  }

  lemma {:induction false} TiledUp(a: Areas, lo: int, hi: int)
    requires Tiled(a, lo, hi)
    ensures lo <= hi && End(a, lo) == hi
  {
    if a != [] {
      TiledUp(a[1..], lo + a[0].size, hi);
    }
  }

  lemma {:induction false} CoalescedJoin(a: Areas, b: Areas)
    ensures Coalesced(a + b) <==>
              Coalesced(a) && Coalesced(b) && (a == [] || b == [] || a[|a| - 1].used || b[0].used)
  {
    if a == [] {
      assert a + b == b;
    } else if b == [] {
      assert a + b == a;
    } else {
      assert (a + b)[1..] == a[1..] + b;
      if |a| > 1 {
        CoalescedJoin(a[1..], b);
      } else {
        assert a[1..] + b == b;
      }
    }
  }

  lemma {:induction false} LiveJoin(a: Areas, b: Areas)
    ensures Live(a + b) == Live(a) + Live(b)
  {
    if a == [] {
      assert a + b == b;
    } else {
      assert (a + b)[1..] == a[1..] + b;
      LiveJoin(a[1..], b);
    }
  }

  lemma {:induction false} FreeBytesJoin(a: Areas, b: Areas)
    ensures FreeBytes(a + b) == FreeBytes(a) + FreeBytes(b)
  {
    if a == [] {
      assert a + b == b;
    } else {
      assert (a + b)[1..] == a[1..] + b;
      FreeBytesJoin(a[1..], b);
    }
  }

  // ---------- what a block is ----------

  /** Every block in use is an area. */
  lemma {:induction false} LiveIs(a: Areas, b: Block)
    ensures b in Live(a) <==> exists i :: 0 <= i < |a| && a[i].used && Block(a[i].addr, a[i].size) == b
  {
    if a != [] {
      LiveIs(a[1..], b);
      assert forall i :: 1 <= i < |a| ==> a[i] == a[1..][i - 1];
      if b in Live(a[1..]) {
        var i :| 0 <= i < |a[1..]| && a[1..][i].used && Block(a[1..][i].addr, a[1..][i].size) == b;
        assert a[i + 1].used;
      }
    }
  }

  /** Byte `k` belongs to the block. */
  predicate In(k: int, b: Block) { b.addr <= k < b.addr + b.size }

  lemma {:induction false} LiveInside(a: Areas, lo: int, hi: int, b: Block)
    requires Tiled(a, lo, hi) && b in Live(a)
    ensures lo <= b.addr < b.addr + b.size <= hi
  {
    TiledUp(a[1..], lo + a[0].size, hi);
    if b in Live(a[1..]) {
      LiveInside(a[1..], lo + a[0].size, hi, b);
    }
  }

  /** No byte belongs to two blocks. */
  lemma {:induction false} LiveApart(a: Areas, lo: int, hi: int, b: Block, c: Block, k: int)
    requires Tiled(a, lo, hi) && b in Live(a) && c in Live(a) && In(k, b) && In(k, c)
    ensures b == c
  {
    if b in Live(a[1..]) {
      LiveInside(a[1..], lo + a[0].size, hi, b);
    }
    if c in Live(a[1..]) {
      LiveInside(a[1..], lo + a[0].size, hi, c);
    }
    if b in Live(a[1..]) && c in Live(a[1..]) {
      LiveApart(a[1..], lo + a[0].size, hi, b, c, k);
    }
  }

  // ---------- replacing areas ----------

  /** Areas i..j-1 with a block in use, or the end of the pool, on either side. */
  ghost predicate Pocket(a: Areas, i: nat, j: nat) {
    i < j <= |a| && (i == 0 || a[i - 1].used) && (j == |a| || a[j].used)
  }

  function Replaced(a: Areas, i: nat, j: nat, m: Areas): Areas
    requires i <= j <= |a|
  {
    a[..i] + m + a[j..]
  }

  /** Filling a pocket anew keeps the pool in order.  Its blocks are exchanged, all others stay. */
  lemma ReplacedKeeps(a: Areas, i: nat, j: nat, m: Areas, lo: int, hi: int)
    requires Good(a, lo, hi) && Pocket(a, i, j)
    requires var x := End(a[..i], lo); m != [] && Tiled(m, x, End(a[i..j], x)) && Coalesced(m)
    ensures Good(Replaced(a, i, j, m), lo, hi)
    ensures Live(a) == Live(a[..i]) + Live(a[i..j]) + Live(a[j..])
    ensures Live(Replaced(a, i, j, m)) == Live(a[..i]) + Live(m) + Live(a[j..])
    ensures FreeBytes(Replaced(a, i, j, m)) == FreeBytes(a) - FreeBytes(a[i..j]) + FreeBytes(m)
  {
    hide Coalesced, Live, FreeBytes, Tiled;
    var pre, old_, post := a[..i], a[i..j], a[j..];
    assert a == pre + old_ + post;
    SplitTiles(pre, old_, post, lo, hi);
    TiledJoin(pre, m, lo, End(pre, lo), End(old_, End(pre, lo)));
    TiledJoin(pre + m, post, lo, End(old_, End(pre, lo)), hi);
    CoalescedJoin(pre + old_, post);
    CoalescedJoin(pre, old_);
    CoalescedJoin(pre, m);
    CoalescedJoin(pre + m, post);
    LiveJoin(pre + old_, post);
    LiveJoin(pre, old_);
    LiveJoin(pre, m);
    LiveJoin(pre + m, post);
    FreeBytesJoin(pre + old_, post);
    FreeBytesJoin(pre, old_);
    FreeBytesJoin(pre, m);
    FreeBytesJoin(pre + m, post);
    PocketEnds(a, i, j);
  }

  lemma SplitTiles(pre: Areas, mid: Areas, post: Areas, lo: int, hi: int)
    requires Tiled(pre + mid + post, lo, hi)
    ensures Tiled(pre, lo, End(pre, lo)) && Tiled(mid, End(pre, lo), End(mid, End(pre, lo)))
    ensures Tiled(post, End(mid, End(pre, lo)), hi)
  {
    assert pre + mid + post == pre + (mid + post);
    TiledSplit(pre, mid + post, lo, hi);
    TiledSplit(mid, post, End(pre, lo), hi);
  }

  lemma PocketEnds(a: Areas, i: nat, j: nat)
    requires Pocket(a, i, j)
    ensures i > 0 ==> a[..i] != [] && a[..i][|a[..i]| - 1].used
    ensures j < |a| ==> a[j..] != [] && a[j..][0].used
    ensures j == |a| ==> a[j..] == []
    ensures i == 0 ==> a[..i] == []
  {}

  // ---------- positions ----------

  lemma {:induction false} AddrIs(a: Areas, lo: int, hi: int, i: nat)
    requires Tiled(a, lo, hi) && i < |a|
    ensures a[i].addr == End(a[..i], lo) && a[i].size > 0 && lo <= a[i].addr && a[i].addr + a[i].size <= hi
    ensures i + 1 < |a| ==> a[i + 1].addr == a[i].addr + a[i].size && a[i + 1].size > 0
    ensures i + 1 == |a| ==> a[i].addr + a[i].size == hi
  {
    TiledUp(a[1..], lo + a[0].size, hi);
    if i > 0 {
      AddrIs(a[1..], lo + a[0].size, hi, i - 1);
      assert a[..i][1..] == a[1..][..i - 1];
    } else if |a| > 1 {
      assert a[1..][0] == a[1];
    }
  }

  lemma {:induction false} NoTwoFree(a: Areas, i: nat)
    requires Coalesced(a) && i + 1 < |a|
    ensures a[i].used || a[i + 1].used
  {
    if i > 0 {
      NoTwoFree(a[1..], i - 1);
    }
  }

  /** First area of the pocket of area `i`, and the one after its last. */
  function From(a: Areas, i: nat): nat
    requires i < |a|
  {
    if i > 0 && !a[i - 1].used then i - 1 else i
  }

  function To(a: Areas, i: nat): nat
    requires i < |a|
  {
    if i + 1 < |a| && !a[i + 1].used then i + 2 else i + 1
  }

  /** The room there is for area `i` and the free areas on its sides. */
  function RoomFrom(a: Areas, i: nat): int
    requires i < |a|
  {
    a[From(a, i)].addr
  }

  function RoomTo(a: Areas, i: nat): int
    requires i < |a|
  {
    a[To(a, i) - 1].addr + a[To(a, i) - 1].size
  }

  lemma PocketOf(a: Areas, i: nat)
    requires Coalesced(a) && i < |a|
    ensures a[i].used ==> Pocket(a, From(a, i), To(a, i))
    ensures !a[i].used ==> From(a, i) == i && To(a, i) == i + 1 && Pocket(a, i, i + 1)
  {
    hide Coalesced;
    if i > 0 {
      NoTwoFree(a, i - 1);
    }
    if i > 1 {
      NoTwoFree(a, i - 2);
    }
    if i + 1 < |a| {
      NoTwoFree(a, i);
    }
    if i + 2 < |a| {
      NoTwoFree(a, i + 1);
    }
  }

  /** What lies in the pocket of area `i`. */
  lemma PocketHolds(a: Areas, lo: int, hi: int, i: nat)
    requires Tiled(a, lo, hi) && i < |a|
    ensures var x := End(a[..From(a, i)], lo);
      x == RoomFrom(a, i) && End(a[From(a, i)..To(a, i)], x) == RoomTo(a, i)
    ensures RoomFrom(a, i) <= a[i].addr && a[i].addr + a[i].size <= RoomTo(a, i) && a[i].size > 0
    ensures lo <= RoomFrom(a, i) && RoomTo(a, i) <= hi
    ensures Live(a[From(a, i)..To(a, i)]) == if a[i].used then {Block(a[i].addr, a[i].size)} else {}
    ensures FreeBytes(a[From(a, i)..To(a, i)]) == RoomTo(a, i) - RoomFrom(a, i) - if a[i].used then a[i].size else 0
  {
    hide Tiled, Live, FreeBytes, Coalesced, End;
    var f, t := From(a, i), To(a, i);
    AddrIs(a, lo, hi, f);
    AddrIs(a, lo, hi, i);
    AddrIs(a, lo, hi, t - 1);
    var m := a[f..t];
    if f < i && i + 1 < t {
      assert m == [a[i - 1], a[i], a[i + 1]];
      Three(a[i - 1], a[i], a[i + 1]);
    } else if f < i {
      assert m == [a[i - 1], a[i]];
      Two(a[i - 1], a[i]);
    } else if i + 1 < t {
      assert m == [a[i], a[i + 1]];
      Two(a[i], a[i + 1]);
    } else {
      assert m == [a[i]];
      One(a[i]);
    }
  }

  /** Short rows. */
  lemma One(p: Area)
    ensures Live([p]) == if p.used then {Block(p.addr, p.size)} else {}
    ensures FreeBytes([p]) == if p.used then 0 else p.size
    ensures Coalesced([p])
    ensures forall x :: End([p], x) == x + p.size
    ensures p.size > 0 ==> Tiled([p], p.addr, p.addr + p.size)
  {
    assert [p][1..] == [];
  }

  lemma Two(p: Area, q: Area)
    ensures Live([p, q]) == Live([p]) + Live([q]) && FreeBytes([p, q]) == FreeBytes([p]) + FreeBytes([q])
    ensures Live([p]) == (if p.used then {Block(p.addr, p.size)} else {})
    ensures Live([q]) == (if q.used then {Block(q.addr, q.size)} else {})
    ensures FreeBytes([p]) == (if p.used then 0 else p.size) && FreeBytes([q]) == (if q.used then 0 else q.size)
    ensures p.used || q.used ==> Coalesced([p, q])
    ensures forall x :: End([p, q], x) == x + p.size + q.size
    ensures p.size > 0 && q.size > 0 && q.addr == p.addr + p.size ==> Tiled([p, q], p.addr, q.addr + q.size)
  {
    hide Live, FreeBytes;
    One(p);
    One(q);
    assert [p, q] == [p] + [q] && [p, q][1..] == [q];
    LiveJoin([p], [q]);
    FreeBytesJoin([p], [q]);
  }

  lemma Three(p: Area, q: Area, r: Area)
    ensures Live([p, q, r]) == Live([p]) + Live([q]) + Live([r])
    ensures Live([p]) == (if p.used then {Block(p.addr, p.size)} else {})
    ensures Live([q]) == (if q.used then {Block(q.addr, q.size)} else {})
    ensures Live([r]) == (if r.used then {Block(r.addr, r.size)} else {})
    ensures FreeBytes([p, q, r]) == (if p.used then 0 else p.size) + (if q.used then 0 else q.size)
            + (if r.used then 0 else r.size)
    ensures q.used ==> Coalesced([p, q, r])
    ensures forall x :: End([p, q, r], x) == x + p.size + q.size + r.size
    ensures p.size > 0 && q.size > 0 && r.size > 0 && q.addr == p.addr + p.size && r.addr == q.addr + q.size ==>
              Tiled([p, q, r], p.addr, r.addr + r.size)
  {
    hide Live, FreeBytes;
    One(p);
    Two(q, r);
    assert [p, q, r] == [p] + [q, r] && [p, q, r][1..] == [q, r];
    LiveJoin([p], [q, r]);
    FreeBytesJoin([p], [q, r]);
  }

  // ---------- the operations ----------

  /** Room x..y-1 with one block in it. */
  function Fill(x: int, y: int, p: int, size: int): (r: Areas)
    ensures r != []
  {
    (if p > x then [Area(x, p - x, false)] else []) + [Area(p, size, true)]
      + (if p + size < y then [Area(p + size, y - p - size, false)] else [])
  }

  lemma FillIs(x: int, y: int, p: int, size: int)
    requires x <= p && p + size <= y && size > 0
    ensures var m := Fill(x, y, p, size);
      && Tiled(m, x, y) && Coalesced(m) && Live(m) == {Block(p, size)} && FreeBytes(m) == y - x - size
  {
    hide Tiled, Coalesced, Live, FreeBytes;
    var f, u, g := Area(x, p - x, false), Area(p, size, true), Area(p + size, y - p - size, false);
    if p > x && p + size < y {
      assert Fill(x, y, p, size) == [f, u, g];
      Three(f, u, g);
    } else if p > x {
      assert Fill(x, y, p, size) == [f, u];
      Two(f, u);
    } else if p + size < y {
      assert Fill(x, y, p, size) == [u, g];
      Two(u, g);
    } else {
      assert Fill(x, y, p, size) == [u];
      One(u);
    }
  }

  /** Area `i` and the free areas beside it made room for one block, at `p`. */
  function Placed(a: Areas, i: nat, p: int, size: int): Areas
    requires i < |a|
  {
    Replaced(a, From(a, i), To(a, i), Fill(RoomFrom(a, i), RoomTo(a, i), p, size))
  }

  /** Area `i` and the free areas beside it made one free area. */
  function Freed(a: Areas, i: nat): Areas
    requires i < |a|
  {
    Replaced(a, From(a, i), To(a, i), [Area(RoomFrom(a, i), RoomTo(a, i) - RoomFrom(a, i), false)])
  }

  /** The blocks in use other than that of area `i`. */
  ghost function Others(a: Areas, i: nat): set<Block>
    requires i < |a|
  {
    if a[i].used then Live(a) - {Block(a[i].addr, a[i].size)} else Live(a)
  }

  /** Placing a block keeps the pool in order and the other blocks where they are, apart from the new one. */
  lemma PlacedKeeps(a: Areas, i: nat, p: int, size: int, lo: int, hi: int)
    requires Good(a, lo, hi) && i < |a| && size > 0 && RoomFrom(a, i) <= p && p + size <= RoomTo(a, i)
    ensures var r := Placed(a, i, p, size);
      && Good(r, lo, hi) && Live(r) == Others(a, i) + {Block(p, size)}
      && FreeBytes(r) == FreeBytes(a) + (if a[i].used then a[i].size else 0) - size
  {
    hide Tiled, Coalesced, Live, FreeBytes, Fill, RoomFrom, RoomTo;
    var m := Fill(RoomFrom(a, i), RoomTo(a, i), p, size);
    PocketOf(a, i);
    PocketHolds(a, lo, hi, i);
    FillIs(RoomFrom(a, i), RoomTo(a, i), p, size);
    ReplacedKeeps(a, From(a, i), To(a, i), m, lo, hi);
    OthersAre(a, i, lo, hi);
  }

  lemma FreedKeeps(a: Areas, i: nat, lo: int, hi: int)
    requires Good(a, lo, hi) && i < |a| && a[i].used
    ensures var r := Freed(a, i);
      && Good(r, lo, hi) && Live(r) == Live(a) - {Block(a[i].addr, a[i].size)}
      && FreeBytes(r) == FreeBytes(a) + a[i].size
  {
    hide Tiled, Coalesced, Live, FreeBytes, RoomFrom, RoomTo;
    var m := Area(RoomFrom(a, i), RoomTo(a, i) - RoomFrom(a, i), false);
    PocketOf(a, i);
    PocketHolds(a, lo, hi, i);
    One(m);
    ReplacedKeeps(a, From(a, i), To(a, i), [m], lo, hi);
    OthersAre(a, i, lo, hi);
  }

  /** The other blocks are those outside the pocket. */
  lemma OthersAre(a: Areas, i: nat, lo: int, hi: int)
    requires Good(a, lo, hi) && i < |a|
    ensures Others(a, i) == Live(a[..From(a, i)]) + Live(a[To(a, i)..])
  {
    hide Tiled, Coalesced, Live, FreeBytes;
    var f, t := From(a, i), To(a, i);
    var pre, mid, post := a[..f], a[f..t], a[t..];
    assert a == pre + mid + post;
    PocketHolds(a, lo, hi, i);
    LiveJoin(pre + mid, post);
    LiveJoin(pre, mid);
    SplitTiles(pre, mid, post, lo, hi);
    if a[i].used {
      var b := Block(a[i].addr, a[i].size);
      if b in Live(pre) {
        LiveInside(pre, lo, End(pre, lo), b);
      }
      if b in Live(post) {
        LiveInside(post, End(mid, End(pre, lo)), hi, b);
      }
    }
  }

  /** Every other block lies outside the room of area `i`. */
  lemma OtherOutside(a: Areas, i: nat, lo: int, hi: int, b: Block)
    requires Good(a, lo, hi) && i < |a| && b in Others(a, i)
    ensures b.addr + b.size <= RoomFrom(a, i) || RoomTo(a, i) <= b.addr
  {
    hide Tiled, Coalesced, Live, FreeBytes, Others;
    var f, t := From(a, i), To(a, i);
    assert a == a[..f] + a[f..t] + a[t..];
    PocketHolds(a, lo, hi, i);
    OthersAre(a, i, lo, hi);
    SplitTiles(a[..f], a[f..t], a[t..], lo, hi);
    if b in Live(a[..f]) {
      LiveInside(a[..f], lo, End(a[..f], lo), b);
    } else {
      LiveInside(a[t..], RoomTo(a, i), hi, b);
    }
  }

  // ---------- mntruncate ----------

  /** `mntruncate`: area `i` is given a new size; the free area after it makes up for that, vanishing if
      nothing is left of it, or a free area is put in between. */
  function Truncated(a: Areas, i: nat, size: int): Areas
    requires i < |a|
  {
    var delta := a[i].size - size;
    var p := Area(a[i].addr, size, a[i].used);
    if delta == 0 then a
    else if i + 1 < |a| && !a[i + 1].used then
      var n := Area(a[i + 1].addr - delta, a[i + 1].size + delta, false);
      if n.size == 0 then a[..i] + [p] + a[i + 2..] else a[..i] + [p, n] + a[i + 2..]
    else a[..i] + [p, Area(a[i].addr + size, delta, false)] + a[i + 1..]
  }

  /** In steps. */
  lemma TruncatedSteps(a: Areas, i: nat, size: int)
    requires i < |a|
    ensures var delta := a[i].size - size;
      if delta == 0 then Truncated(a, i, size) == a
      else if i + 1 < |a| && !a[i + 1].used then
        var b := a[i := a[i].(size := a[i].size - delta)][i + 1 := Area(a[i + 1].addr - delta, a[i + 1].size + delta,
          a[i + 1].used)];
        Truncated(a, i, size) == if b[i + 1].size == 0 then b[..i + 1] + b[i + 2..] else b
      else
        Truncated(a, i, size) == a[..i] + [a[i].(size := size), Area(a[i].addr + size, delta, false)] + a[i + 1..]
  {}

  /** When it may be called. */
  predicate CanTruncate(a: Areas, i: nat, size: int) {
    i < |a| && (size == a[i].size
                || (if i + 1 < |a| && !a[i + 1].used then size > 0 && a[i + 1].size + a[i].size - size >= 0
                    else size < a[i].size))
  }

  function Use(a: Areas, i: nat, used: bool): Areas
    requires i < |a|
  {
    a[i := a[i].(used := used)]
  }

  /** Free area `i` cut in two at `p`. */
  function Cut(a: Areas, i: nat, p: int): (r: Areas)
    requires i < |a|
    ensures i + 1 < |r| && r[i] == Area(a[i].addr, p - a[i].addr, false) && r[..i] == a[..i]
    ensures r[i + 1] == Area(p, a[i].addr + a[i].size - p, false) && r[i + 2..] == a[i + 1..]
  {
    a[..i] + [Area(a[i].addr, p - a[i].addr, false), Area(p, a[i].addr + a[i].size - p, false)] + a[i + 1..]
  }

  /** The area after `i` is in use, or there is none. */
  predicate UsedNext(a: Areas, i: nat) { i < |a| && (i + 1 < |a| ==> a[i + 1].used) }

  lemma CutIs(a: Areas, i: nat, p: int)
    requires UsedNext(a, i) && !a[i].used && a[i].addr < p < a[i].addr + a[i].size
    ensures CanTruncate(a, i, p - a[i].addr) && Truncated(a, i, p - a[i].addr) == Cut(a, i, p)
    ensures UsedNext(Cut(a, i, p), i + 1)
  {
    if i + 1 < |a| {
      assert Cut(a, i, p)[i + 2..][0] == a[i + 1..][0];
    }
  }

  /** Cutting below a cut moves it down. */
  lemma CutLower(a: Areas, i: nat, p: int, q: int)
    requires UsedNext(a, i) && !a[i].used && a[i].addr < p < q < a[i].addr + a[i].size
    ensures CanTruncate(Cut(a, i, q), i, p - a[i].addr) && Truncated(Cut(a, i, q), i, p - a[i].addr) == Cut(a, i, p)
  {}

  /** The first `size` bytes of an area marked in use. */
  lemma UseIs(a: Areas, k: nat, size: int)
    requires k < |a| && !a[k].used && 0 < size <= a[k].size && (UsedNext(a, k) || size == a[k].size)
    ensures CanTruncate(Use(a, k, true), k, size)
    ensures Truncated(Use(a, k, true), k, size)
         == a[..k] + Fill(a[k].addr, a[k].addr + a[k].size, a[k].addr, size) + a[k + 1..]
  {}

  lemma FillParts(x: int, y: int, p: int, size: int)
    requires x <= p && p + size <= y
    ensures p > x ==> [Area(x, p - x, false)] + Fill(p, y, p, size) == Fill(x, y, p, size)
    ensures p + size < y ==> Fill(x, p + size, p, size) + [Area(p + size, y - p - size, false)] == Fill(x, y, p, size)
  {}

  /** The block is taken at the bottom of what is left after cutting at `p`. */
  lemma PlacedInCut(a: Areas, i: nat, p: int, size: int)
    requires Coalesced(a) && i < |a| && !a[i].used && a[i].addr < p && p + size <= a[i].addr + a[i].size && size > 0
    ensures var c := Cut(a, i, p);
      && UsedNext(a, i) && CanTruncate(a, i, p - a[i].addr) && Truncated(a, i, p - a[i].addr) == c
      && c[i + 1].size >= size && CanTruncate(Use(c, i + 1, true), i + 1, size)
      && Truncated(Use(c, i + 1, true), i + 1, size) == Placed(a, i, p, size)
  {
    hide Coalesced, Truncated, Fill, Cut, CanTruncate;
    var c, x, y := Cut(a, i, p), a[i].addr, a[i].addr + a[i].size;
    PocketOf(a, i);
    CutIs(a, i, p);
    UseIs(c, i + 1, size);
    FillParts(x, y, p, size);
    PlacedInFree(a, i, p, size);
    assert c[..i + 1] == a[..i] + [Area(x, p - x, false)];
    assert a[..i] + [Area(x, p - x, false)] + Fill(p, y, p, size) == a[..i] + Fill(x, y, p, size);
  }

  lemma PlacedAtStart(a: Areas, i: nat, size: int)
    requires Coalesced(a) && i < |a| && !a[i].used && 0 < size <= a[i].size
    ensures CanTruncate(Use(a, i, true), i, size)
    ensures Truncated(Use(a, i, true), i, size) == Placed(a, i, a[i].addr, size)
  {
    hide Coalesced;
    PocketOf(a, i);
    UseIs(a, i, size);
    PlacedInFree(a, i, a[i].addr, size);
  }

  lemma PlacedInFree(a: Areas, i: nat, p: int, size: int)
    requires i < |a| && From(a, i) == i && To(a, i) == i + 1
    ensures Placed(a, i, p, size) == a[..i] + Fill(a[i].addr, a[i].addr + a[i].size, p, size) + a[i + 1..]
  {}

  /** From the top: what lies above `q` is cut off first, and what is left taken whole. */
  lemma PlacedBelowCut(a: Areas, i: nat, q: int)
    requires Coalesced(a) && i < |a| && !a[i].used && a[i].addr < q < a[i].addr + a[i].size
    ensures var c, size := Cut(a, i, q), q - a[i].addr;
      && UsedNext(a, i) && CanTruncate(a, i, size) && Truncated(a, i, size) == c
      && CanTruncate(Use(c, i, true), i, size) && Truncated(Use(c, i, true), i, size) == Placed(a, i, a[i].addr, size)
  {
    hide Coalesced, Truncated, Fill, Cut, CanTruncate, Placed, Use;
    var c, x, y, size := Cut(a, i, q), a[i].addr, a[i].addr + a[i].size, q - a[i].addr;
    PocketOf(a, i);
    CutIs(a, i, q);
    UseIs(c, i, size);
    FillParts(x, y, x, size);
    PlacedInFree(a, i, x, size);
    assert c[i + 1..] == [c[i + 1]] + c[i + 2..];
    Regroup(a[..i], Fill(x, q, x, size), c[i + 1], c[i + 2..]);
  }

  lemma Regroup(pre: Areas, m: Areas, t: Area, post: Areas)
    ensures pre + m + ([t] + post) == pre + (m + [t]) + post
  {}

  /** How every allocation ends: area `i` cut at `p`, the area from there marked in use and cut to `size`. */
  function Taken(a: Areas, i: nat, p: int, size: int): Areas
    requires i < |a|
  {
    if p == a[i].addr then Truncated(Use(a, i, true), i, size)
    else
      var c := Truncated(a, i, p - a[i].addr);
      if i + 1 < |c| then Truncated(Use(c, i + 1, true), i + 1, size) else c
  }

  predicate CanTake(a: Areas, i: nat, p: int, size: int) {
    && i < |a| && !a[i].used && a[i].addr <= p && size > 0
    && if p == a[i].addr then CanTruncate(Use(a, i, true), i, size)
       else
         && CanTruncate(a, i, p - a[i].addr)
         && var c := Truncated(a, i, p - a[i].addr);
           && i + 1 < |c| && c[i + 1].addr == p && !c[i + 1].used && CanTruncate(Use(c, i + 1, true), i + 1, size)
  }

  lemma TakenIs(a: Areas, i: nat, p: int, size: int)
    requires Coalesced(a) && i < |a| && !a[i].used && a[i].addr <= p && p + size <= a[i].addr + a[i].size && size > 0
    ensures CanTake(a, i, p, size) && Taken(a, i, p, size) == Placed(a, i, p, size)
  {
    hide Coalesced, Truncated, CanTruncate, Placed;
    if p == a[i].addr {
      PlacedAtStart(a, i, size);
    } else {
      PlacedInCut(a, i, p, size);
    }
  }

  /** The same when what lies above the block has been cut off before. */
  lemma TakenBelowCut(a: Areas, i: nat, p: int, size: int)
    requires Coalesced(a) && i < |a| && !a[i].used && a[i].addr <= p && p + size < a[i].addr + a[i].size && size > 0
    ensures var q := p + size;
      && CanTruncate(a, i, q - a[i].addr) && Truncated(a, i, q - a[i].addr) == Cut(a, i, q)
      && CanTake(Cut(a, i, q), i, p, size) && Taken(Cut(a, i, q), i, p, size) == Placed(a, i, p, size)
  {
    hide Coalesced, Truncated, CanTruncate, Placed, Cut;
    var q := p + size;
    PlacedBelowCut(a, i, q);
    if p != a[i].addr {
      PlacedInCut(a, i, p, size);
      CutLower(a, i, p, q);
    }
  }

  /** Area `i` joined with the one after it. */
  function Join(a: Areas, i: nat): (r: Areas)
    requires i + 1 < |a|
    ensures |r| == |a| - 1 && r[i] == a[i].(size := a[i].size + a[i + 1].size) && r[..i] == a[..i]
            && r[i + 1..] == a[i + 2..]
  {
    a[..i] + [a[i].(size := a[i].size + a[i + 1].size)] + a[i + 2..]
  }

  lemma JoinIs(a: Areas, i: nat)
    requires i + 1 < |a| && !a[i + 1].used && a[i].size > 0 && a[i + 1].size > 0
    ensures CanTruncate(a, i, a[i].size + a[i + 1].size)
    ensures Truncated(a, i, a[i].size + a[i + 1].size) == Join(a, i)
  {}

  /** Marking a block free and joining it with what is free beside it. */
  lemma FreedAlone(a: Areas, i: nat)
    requires i < |a| && From(a, i) == i && To(a, i) == i + 1
    ensures Use(a, i, false) == Freed(a, i)
  {}

  lemma FreedNext(a: Areas, i: nat)
    requires i + 1 < |a| && From(a, i) == i && To(a, i) == i + 2 && a[i + 1].addr == a[i].addr + a[i].size
    ensures Join(Use(a, i, false), i) == Freed(a, i)
  {}

  lemma FreedPrevious(a: Areas, i: nat)
    requires 0 < i < |a| && From(a, i) == i - 1 && To(a, i) == i + 1 && a[i].addr == a[i - 1].addr + a[i - 1].size
    ensures Join(Use(a, i, false), i - 1) == Freed(a, i)
  {}

  lemma FreedBoth(a: Areas, i: nat)
    requires 0 < i && i + 1 < |a| && From(a, i) == i - 1 && To(a, i) == i + 2
    requires a[i].addr == a[i - 1].addr + a[i - 1].size && a[i + 1].addr == a[i].addr + a[i].size
    ensures Join(Join(Use(a, i, false), i), i - 1) == Freed(a, i)
  {}

  /** After marking block `i` free: joined with the next area, if that is free. */
  function JoinedNext(a: Areas, i: nat): (r: Areas)
    requires i < |a|
    ensures i < |r|
  {
    if i + 1 < |a| && !a[i + 1].used then Join(Use(a, i, false), i) else Use(a, i, false)
  }

  /** The steps of `smfree` can be made, and make the block and what is free beside it one free area. */
  ghost predicate Steps(a: Areas, i: nat) {
    && i < |a| && a[i].used
    && (i + 1 < |a| && !a[i + 1].used ==>
         && CanTruncate(Use(a, i, false), i, a[i].size + a[i + 1].size)
         && Truncated(Use(a, i, false), i, a[i].size + a[i + 1].size) == JoinedNext(a, i))
    && (i == 0 || a[i - 1].used ==> JoinedNext(a, i) == Freed(a, i))
    && (i > 0 && !a[i - 1].used ==>
         && JoinedNext(a, i)[i - 1] == a[i - 1]
         && CanTruncate(JoinedNext(a, i), i - 1, JoinedNext(a, i)[i - 1].size + JoinedNext(a, i)[i].size)
         && Truncated(JoinedNext(a, i), i - 1, JoinedNext(a, i)[i - 1].size + JoinedNext(a, i)[i].size) == Freed(a, i))
  }

  lemma FreeSteps(a: Areas, i: nat, lo: int, hi: int)
    requires Good(a, lo, hi) && i < |a| && a[i].used
    ensures Steps(a, i)
  {
    hide Freed, CanTruncate, Truncated, Join, Coalesced, Tiled;
    PocketOf(a, i);
    AddrIs(a, lo, hi, i);
    if i > 0 {
      AddrIs(a, lo, hi, i - 1);
    }
    var next, previous := i + 1 < |a| && !a[i + 1].used, i > 0 && !a[i - 1].used;
    if next {
      JoinIs(Use(a, i, false), i);
    }
    if previous {
      JoinIs(JoinedNext(a, i), i - 1);
    }
    if next && previous {
      FreedBoth(a, i);
    } else if next {
      FreedNext(a, i);
    } else if previous {
      FreedPrevious(a, i);
    } else {
      FreedAlone(a, i);
    }
  }

  // ---------- resizing ----------

  /** Giving a block a new size in place, within its room. */
  lemma TruncatedPlaces(a: Areas, i: nat, size: int, lo: int, hi: int)
    requires Good(a, lo, hi) && i < |a| && a[i].used && 0 < size && a[i].addr + size <= RoomTo(a, i)
    ensures CanTruncate(a, i, size) && Truncated(a, i, size) == Placed(a, i, a[i].addr, size)
  {
    hide Coalesced, Tiled, Fill;
    PocketOf(a, i);
    AddrIs(a, lo, hi, i);
    var x, y, p := RoomFrom(a, i), RoomTo(a, i), a[i].addr;
    if i > 0 && !a[i - 1].used {
      AddrIs(a, lo, hi, i - 1);
      FillParts(x, y, p, size);
      assert a[..i] == a[..i - 1] + [Area(x, p - x, false)];
    }
    TailPlaced(a, i, size);
    assert a[..From(a, i)] + Fill(x, y, p, size) == a[..i] + Fill(p, y, p, size);
  }

  /** The part of it from area `i` on. */
  lemma TailPlaced(a: Areas, i: nat, size: int)
    requires i < |a| && a[i].used && a[i].size > 0 && 0 < size && a[i].addr + size <= RoomTo(a, i)
    requires i + 1 < |a| ==> a[i + 1].addr == a[i].addr + a[i].size && a[i + 1].size > 0
    ensures CanTruncate(a, i, size)
    ensures Truncated(a, i, size) == a[..i] + Fill(a[i].addr, RoomTo(a, i), a[i].addr, size) + a[To(a, i)..]
  {
    if i + 1 < |a| {
      assert a[i + 1..] == [a[i + 1]] + a[i + 2..];
    }
  }

  /** The areas while a block slides down into the free area before it: that is in use, the block free and
      joined with a free area after it. */
  function Sliding(a: Areas, i: nat): (r: Areas)
    requires 0 < i < |a|
    ensures i < |r|
  {
    JoinedNext(Use(a, i - 1, true), i)
  }

  ghost predicate SlideSteps(a: Areas, i: nat, size: int) {
    && 0 < i < |a|
    && (i + 1 < |a| && !a[i + 1].used ==>
         && CanTruncate(Use(Use(a, i - 1, true), i, false), i, a[i].size + a[i + 1].size)
         && Truncated(Use(Use(a, i - 1, true), i, false), i, a[i].size + a[i + 1].size) == Sliding(a, i))
    && CanTruncate(Sliding(a, i), i - 1, size)
    && Truncated(Sliding(a, i), i - 1, size) == Placed(a, i, a[i - 1].addr, size)
  }

  lemma SlideIs(a: Areas, i: nat, size: int, lo: int, hi: int)
    requires Good(a, lo, hi) && 0 < i < |a| && a[i].used && !a[i - 1].used
    requires 0 < size && a[i - 1].addr + size <= RoomTo(a, i)
    ensures SlideSteps(a, i, size)
  {
    hide Coalesced, Tiled, Fill, CanTruncate, Truncated;
    AddrIs(a, lo, hi, i - 1);
    AddrIs(a, lo, hi, i);
    PocketOf(a, i);
    if i + 1 < |a| && !a[i + 1].used {
      JoinIs(Use(Use(a, i - 1, true), i, false), i);
    }
    SlidingIs(a, i);
    TailPlaced(Sliding(a, i), i - 1, size);
  }

  lemma SlidingIs(a: Areas, i: nat)
    requires 0 < i < |a| && a[i].used && !a[i - 1].used && a[i - 1].size > 0
    requires a[i].addr == a[i - 1].addr + a[i - 1].size && a[i].size > 0
    requires i + 1 < |a| ==> a[i + 1].addr == a[i].addr + a[i].size && a[i + 1].size > 0
    ensures var b := Sliding(a, i);
      && b[i - 1] == a[i - 1].(used := true) && b[i] == Area(a[i].addr, RoomTo(a, i) - a[i].addr, false)
      && b[..i - 1] == a[..i - 1] && b[i + 1..] == a[To(a, i)..]
      && RoomTo(b, i - 1) == RoomTo(a, i) && To(b, i - 1) == i + 1 && b[i].size > 0
  {}

  // ---------- the blocks determine the areas ----------

  function UsedBytes(a: Areas): int {
    if a == [] then 0 else (if a[0].used then a[0].size else 0) + UsedBytes(a[1..])
  }

  /** Every byte of the pool is either free or in a block. */
  lemma {:induction false} BytesAccounted(a: Areas, lo: int, hi: int)
    requires Tiled(a, lo, hi)
    ensures FreeBytes(a) + UsedBytes(a) == hi - lo
  {
    if a != [] {
      BytesAccounted(a[1..], lo + a[0].size, hi);
    }
  }

  lemma TiledEmpty(a: Areas, lo: int, hi: int)
    requires Tiled(a, lo, hi)
    ensures a == [] <==> lo == hi
  {
    if a != [] {
      TiledUp(a[1..], lo + a[0].size, hi);
    }
  }

  /** The first area is in use just if a block starts there. */
  lemma FirstIsLive(a: Areas, lo: int, hi: int, b: Block)
    requires Tiled(a, lo, hi) && b in Live(a) && b.addr == lo
    ensures a != [] && a[0].used && b == Block(a[0].addr, a[0].size)
  {
    if b in Live(a[1..]) {
      LiveInside(a[1..], lo + a[0].size, hi, b);
    }
  }

  lemma LiveRest(a: Areas, lo: int, hi: int)
    requires Tiled(a, lo, hi) && a != []
    ensures Live(a[1..]) == Live(a) - (if a[0].used then {Block(a[0].addr, a[0].size)} else {})
  {
    var b := Block(a[0].addr, a[0].size);
    if b in Live(a[1..]) {
      LiveInside(a[1..], lo + a[0].size, hi, b);
    }
  }

  /** A free first area ends no later than any block starts. */
  lemma FreeFirst(a: Areas, lo: int, hi: int, b: Block)
    requires Tiled(a, lo, hi) && a != [] && !a[0].used && b in Live(a)
    ensures lo + a[0].size <= b.addr
  {
    LiveInside(a[1..], lo + a[0].size, hi, b);
  }

  /** Two coalesced rows over the same bytes with the same blocks are the same. */
  lemma {:induction false} LiveDetermines(a: Areas, b: Areas, lo: int, hi: int)
    requires Tiled(a, lo, hi) && Coalesced(a) && Tiled(b, lo, hi) && Coalesced(b) && Live(a) == Live(b)
    ensures a == b
    decreases |a|
  {
    TiledEmpty(a, lo, hi);
    TiledEmpty(b, lo, hi);
    if a != [] {
      SameFirst(a, b, lo, hi);
      LiveRest(a, lo, hi);
      LiveRest(b, lo, hi);
      LiveDetermines(a[1..], b[1..], lo + a[0].size, hi);
      assert a == [a[0]] + a[1..] && b == [b[0]] + b[1..];
    }
  }

  lemma SameFirst(a: Areas, b: Areas, lo: int, hi: int)
    requires Tiled(a, lo, hi) && Coalesced(a) && Tiled(b, lo, hi) && Coalesced(b) && Live(a) == Live(b)
    requires a != [] && b != []
    ensures a[0] == b[0]
  {
    var x, y := Block(a[0].addr, a[0].size), Block(b[0].addr, b[0].size);
    if a[0].used {
      FirstIsLive(b, lo, hi, x);
    } else if b[0].used {
      FirstIsLive(a, lo, hi, y);
    } else {
      FreeUpTo(a, b, lo, hi);
      FreeUpTo(b, a, lo, hi);
    }
  }

  /** Where both rows begin free, the second begins with no more than the first. */
  lemma FreeUpTo(a: Areas, b: Areas, lo: int, hi: int)
    requires Tiled(a, lo, hi) && Coalesced(a) && Tiled(b, lo, hi) && Live(a) == Live(b)
    requires a != [] && b != [] && !a[0].used && !b[0].used
    ensures b[0].size <= a[0].size
  {
    AddrIs(b, lo, hi, 0);
    if |a| > 1 {
      var c := Block(a[1].addr, a[1].size);
      assert a[1..][0] == a[1];
      LiveIs(a, c);
      FreeFirst(b, lo, hi, c);
    } else {
      AddrIs(a, lo, hi, 0);
    }
  }
}
