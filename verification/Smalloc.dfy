/**
 fdpp/smalloc.c: a pool of memory as a linked list of areas.  Memory is an array indexed by address, and the
 pool commits nothing (`commit` and `uncommit` are NULL), so commitment never fails.
 */
module Smalloc {
  import Arithmetic
  import Disks
  import opened PoolSpec

  type byte = Disks.byte

  class MemNode {
    var next: MemNode?
    var size: int
    var used: bool
    var memArea: int

    constructor (next: MemNode?, size: int, used: bool, memArea: int)
      ensures this.next == next && this.size == size && this.used == used && this.memArea == memArea
    {
      this.next, this.size, this.used, this.memArea := next, size, used, memArea;
    }
  }

  class MemPool {
    var size: int
    var avail: int
    const mn: MemNode
    const mem: array<byte>

    /** The nodes of the list in order, and what they say. */
    ghost var nodes: seq<MemNode>
    ghost var areas: Areas

    ghost predicate NodeOk(i: int)
      requires 0 <= i < |nodes| == |areas|
      reads `nodes, `areas, nodes
    {
      && nodes[i].memArea == areas[i].addr && nodes[i].size == areas[i].size && nodes[i].used == areas[i].used
      && nodes[i].next == (if i + 1 < |nodes| then nodes[i + 1] else null)
    }

    ghost predicate Linked()
      reads `nodes, `areas, nodes
    {
      && |nodes| == |areas| > 0 && nodes[0] == mn
      && (forall i, j :: 0 <= i < j < |nodes| ==> nodes[i] != nodes[j])
      && (forall i :: 0 <= i < |nodes| ==> NodeOk(i))
    }

    ghost function Base(): int
      reads `areas
    {
      if areas == [] then 0 else areas[0].addr
    }

    /** The list fills the pool, coalesced; `avail` counts the free bytes. */
    ghost predicate Valid()
      reads this, nodes
    {
      && Linked() && Good(areas, Base(), Base() + size) && avail == FreeBytes(areas)
      && 0 < Base() && Base() + size <= mem.Length && size < 0x8000_0000
    }

    /** `sminit` */
    constructor (mem: array<byte>, start: int, size: int)
      requires 0 < start && 0 < size < 0x8000_0000 && start + size <= mem.Length
      ensures Valid() && this.mem == mem && areas == [Area(start, size, false)]
      ensures fresh(mn) && nodes == [mn]
    {
      var first := new MemNode(null, size, false, start);
      this.mem, this.size, this.mn, this.avail := mem, size, first, size;
      this.nodes, this.areas := [first], [Area(start, size, false)];
      new;
      One(Area(start, size, false));
    }

    /** Moves the border between the nodes at `i` and `i + 1`. */
    method MoveBorder(pmn: MemNode, nmn: MemNode, delta: int, ghost i: nat)
      requires Linked() && i + 1 < |nodes| && nodes[i] == pmn && nodes[i + 1] == nmn
      modifies `areas, pmn`size, nmn`size, nmn`memArea
      ensures Linked() && nodes == old(nodes)
      ensures var a := old(areas);
        areas == a[i := a[i].(size := a[i].size - delta)][i + 1 := Area(a[i + 1].addr - delta, a[i + 1].size + delta,
          a[i + 1].used)]
    {
      assert NodeOk(i) && NodeOk(i + 1);
      nmn.size := nmn.size + delta;
      nmn.memArea := nmn.memArea - delta;
      pmn.size := pmn.size - delta;
      areas := areas[i := areas[i].(size := areas[i].size - delta)]
                    [i + 1 := Area(areas[i + 1].addr - delta, areas[i + 1].size + delta, areas[i + 1].used)];
      forall k | 0 <= k < |nodes| ensures NodeOk(k) {
        assert old(NodeOk(k));
      }
    }

    /** Takes the node after `pmn` out of the list. */
    method Unlink(pmn: MemNode, ghost i: nat)
      requires Linked() && i + 1 < |nodes| && nodes[i] == pmn && pmn.next != null
      modifies `nodes, `areas, pmn`next
      ensures Linked() && areas == old(areas)[..i + 1] + old(areas)[i + 2..]
      ensures nodes == old(nodes)[..i + 1] + old(nodes)[i + 2..]
    {
      assert NodeOk(i) && NodeOk(i + 1);
      pmn.next := pmn.next.next;
      nodes := nodes[..i + 1] + nodes[i + 2..];
      areas := areas[..i + 1] + areas[i + 2..];
      forall k | 0 <= k < |nodes| ensures NodeOk(k) {
        assert old(NodeOk(if k <= i then k else k + 1));
      }
    }

    /** Puts a free node after `pmn`, from what it gives up. */
    method Split(pmn: MemNode, size: int, delta: int, ghost i: nat)
      requires Linked() && i < |nodes| && nodes[i] == pmn
      modifies `nodes, `areas, pmn`next, pmn`size
      ensures Linked() && i + 1 < |nodes| && fresh(nodes[i + 1])
      ensures areas == old(areas)[..i] + [old(areas)[i].(size := size), Area(old(areas)[i].addr + size, delta, false)]
              + old(areas)[i + 1..]
      ensures nodes == old(nodes)[..i + 1] + [nodes[i + 1]] + old(nodes)[i + 1..]
    {
      assert NodeOk(i);
      var newMn := new MemNode(pmn.next, delta, false, pmn.memArea + size);
      pmn.next := newMn;
      pmn.size := size;
      nodes := nodes[..i + 1] + [newMn] + nodes[i + 1..];
      areas := areas[..i] + [areas[i].(size := size), Area(areas[i].addr + size, delta, false)] + areas[i + 1..];
      forall k | 0 <= k < |nodes| ensures NodeOk(k) {
        if k != i + 1 {
          assert old(NodeOk(if k <= i then k else k - 1));
        }
      }
    }

    /** The node at position `i`, and the one after it. */
    lemma NodeAt(i: nat)
      requires Linked() && i < |nodes|
      ensures |nodes| == |areas| && nodes[i].size == areas[i].size && nodes[i].used == areas[i].used
      ensures nodes[i].memArea == areas[i].addr
      ensures nodes[i].next == (if i + 1 < |nodes| then nodes[i + 1] else null)
      ensures i + 1 < |nodes| ==> nodes[i + 1].size == areas[i + 1].size && nodes[i + 1].used == areas[i + 1].used
      ensures forall j :: 0 <= j < |nodes| && j != i ==> nodes[j] != nodes[i]
    {
      assert NodeOk(i);
      if i + 1 < |nodes| {
        assert NodeOk(i + 1);
      }
    }

    /** Gives the node at position `i` a new size. */
    method MnTruncate(pmn: MemNode, size: int, ghost i: nat)
      requires Linked() && i < |nodes| && nodes[i] == pmn && CanTruncate(areas, i, size)
      modifies `nodes, `areas, nodes
      ensures Linked() && areas == Truncated(old(areas), i, size)
      ensures |nodes| > i && nodes[..i + 1] == old(nodes[..i + 1])
      ensures forall k :: 0 <= k < |nodes| ==> nodes[k] in old(nodes) || fresh(nodes[k])
    {
      hide Linked, Truncated;
      NodeAt(i);
      TruncatedSteps(areas, i, size);
      var delta := pmn.size - size;
      if delta == 0 {
        return;
      }
      if pmn.next != null && !pmn.next.used {
        var nmn := pmn.next;
        MoveBorder(pmn, nmn, delta, i);
        NodeAt(i);
        if nmn.size == 0 {
          Unlink(pmn, i);
        }
      } else {
        Split(pmn, size, delta, i);
      }
    }

    /** `pmn->used = used` */
    method SetUsed(pmn: MemNode, used: bool, ghost i: nat)
      requires Linked() && i < |nodes| && nodes[i] == pmn
      modifies `areas, pmn`used
      ensures Linked() && areas == Use(old(areas), i, used) && nodes == old(nodes)
    {
      pmn.used := used;
      areas := Use(areas, i, used);
      forall k | 0 <= k < |nodes| ensures NodeOk(k) {
        assert old(NodeOk(k));
      }
    }

    /** `memset(at, 0, n)` */
    method Clear(at: int, n: int)
      requires 0 <= at <= at + n <= mem.Length
      modifies mem
      ensures mem[..] == Cleared(old(mem[..]), at, n)
    {
      for k := at to at + n
        invariant mem[..] == Cleared(old(mem[..]), at, k - at)
      {
        mem[k] := 0;
      }
    }

    // ---------- looking for areas ----------

    /** The first free area of at least `size` bytes. */
    method FindFreeArea(size: int) returns (r: MemNode?, ghost i: nat)
      requires Linked()
      ensures r != null ==> i < |nodes| && nodes[i] == r && Fits(areas[i], size)
      ensures r != null ==> forall k :: 0 <= k < i ==> !Fits(areas[k], size)
      ensures r == null ==> forall k :: 0 <= k < |areas| ==> !Fits(areas[k], size)
    {
      hide Linked;
      Heads();
      var cur: MemNode? := mn;
      i := 0;
      while cur != null
        invariant i <= |nodes| == |areas| && cur == (if i < |nodes| then nodes[i] else null)
        invariant forall k :: 0 <= k < i ==> !Fits(areas[k], size)
        decreases |nodes| - i
      {
        NodeAt(i);
        if !cur.used && cur.size >= size {
          return cur, i;
        }
        cur := cur.next;
        i := i + 1;
      }
      r := null;
    }

    lemma Heads()
      requires Linked()
      ensures |nodes| == |areas| > 0 && nodes[0] == mn
    {}

    /** The last free area of at least `size` bytes of which `size` bytes end at or below `top`. */
    method FindFreeAreaTopdown(top: int, size: int) returns (r: MemNode?, ghost i: nat)
      requires Linked() && (forall k :: 0 <= k < |areas| - 1 ==> Before(areas, k))
      ensures r != null ==> i < |nodes| && nodes[i] == r && FitsBelow(areas[i], top, size)
      ensures r != null ==> forall k :: i < k < |areas| ==> !FitsBelow(areas[k], top, size)
      ensures r == null ==> forall k :: 0 <= k < |areas| ==> !FitsBelow(areas[k], top, size)
    {
      hide Linked;
      Heads();
      r, i := null, 0;
      var cur: MemNode? := mn;
      ghost var n := 0;
      while cur != null
        invariant n <= |nodes| == |areas| && cur == (if n < |nodes| then nodes[n] else null)
        invariant r != null ==> i < n && nodes[i] == r && FitsBelow(areas[i], top, size)
        invariant forall k :: (if r == null then 0 else i + 1) <= k < n ==> !FitsBelow(areas[k], top, size)
        decreases |nodes| - n
      {
        NodeAt(n);
        if top != 0 && cur.memArea + size > top {
          RestAbove(areas, n, top, size);
          return;
        }
        if !cur.used && cur.size >= size {
          r, i := cur, n;
        }
        cur := cur.next;
        n := n + 1;
      }
    }

    /** The area that holds address `ptr`. */
    method FindMnAt(ptr: int) returns (r: MemNode?, ghost i: nat)
      requires Linked() && (forall k :: 0 <= k < |areas| - 1 ==> Before(areas, k))
      ensures r != null ==> i < |nodes| && nodes[i] == r && areas[i].addr <= ptr < areas[i].addr + areas[i].size
      ensures r == null ==> forall k :: 0 <= k < |areas| ==> !(areas[k].addr <= ptr < areas[k].addr + areas[k].size)
    {
      hide Linked;
      Heads();
      var cur: MemNode? := mn;
      i := 0;
      while cur != null
        invariant i <= |nodes| == |areas| && cur == (if i < |nodes| then nodes[i] else null)
        invariant forall k :: 0 <= k < i ==> areas[k].addr + areas[k].size <= ptr
        decreases |nodes| - i
      {
        NodeAt(i);
        if cur.memArea > ptr {
          RestAbove(areas, i, ptr, 0);
          return null, i;
        }
        if cur.memArea + cur.size > ptr {
          return cur, i;
        }
        cur := cur.next;
        i := i + 1;
      }
      r := null;
    }

    /** The area that starts at `ptr` and the one before it, unless nothing in the pool is in use. */
    method FindMn(ptr: int) returns (r: MemNode?, prev: MemNode?, ghost i: nat)
      requires Linked() && (forall k :: 0 <= k < |areas| - 1 ==> Before(areas, k))
      ensures r != null ==> i < |nodes| && nodes[i] == r && areas[i].addr == ptr
      ensures r != null ==> prev == if i == 0 then null else nodes[i - 1]
      ensures r == null ==> forall k :: 0 <= k < |areas| && areas[k].used ==> areas[k].addr != ptr
    {
      hide Linked;
      Heads();
      NodeAt(0);
      prev, i := null, 0;
      if !(mn.used || mn.next != null) {
        return null, null, 0;
      }
      var cur: MemNode? := mn;
      while cur != null
        invariant i <= |nodes| == |areas| && cur == (if i < |nodes| then nodes[i] else null)
        invariant prev == if i == 0 then null else nodes[i - 1]
        invariant forall k :: 0 <= k < i ==> areas[k].addr < ptr
        decreases |nodes| - i
      {
        NodeAt(i);
        if cur.memArea > ptr {
          RestAbove(areas, i, ptr, 0);
          return null, null, i;
        }
        if cur.memArea == ptr {
          return cur, prev, i;
        }
        prev := cur;
        cur := cur.next;
        i := i + 1;
      }
      r := null;
    }

    // ---------- allocation ----------

    /** The end of every allocation: the start of free node `i` is cut off below `p`, and `size` bytes from there
        committed, marked in use, cut to size and cleared. */
    method Take(pmn: MemNode, p: int, size: int, ghost i: nat) returns (r: MemNode, ghost j: nat)
      requires Linked() && i < |nodes| && nodes[i] == pmn && CanTake(areas, i, p, size) && 0 <= p
               && p + size <= mem.Length
      modifies `avail, `nodes, `areas, nodes, mem
      ensures Linked() && areas == Taken(old(areas), i, p, size)
      ensures avail == old(avail) - size && mem[..] == Cleared(old(mem[..]), p, size)
      ensures j < |nodes| && nodes[j] == r && r.memArea == p && r.size == size
      ensures forall k :: 0 <= k < |nodes| ==> nodes[k] in old(nodes) || fresh(nodes[k])
    {
      hide Linked, Truncated, CanTruncate;
      NodeAt(i);
      var delta := p - pmn.memArea;
      r, j := pmn, i;
      if delta != 0 {
        MnTruncate(pmn, delta, i);
        assert nodes[..i + 1][i] == pmn;
        NodeAt(i);
        r, j := pmn.next, i + 1;
      }
      UseFirst(r, size, j);
    }

    /** The first `size` bytes of a free node committed, marked in use, cut off and cleared. */
    method UseFirst(r: MemNode, size: int, ghost j: nat)
      requires Linked() && j < |nodes| && nodes[j] == r && CanTruncate(Use(areas, j, true), j, size)
      requires 0 <= areas[j].addr <= areas[j].addr + size <= mem.Length
      modifies `avail, `nodes, `areas, nodes, mem
      ensures Linked() && areas == Truncated(Use(old(areas), j, true), j, size)
      ensures avail == old(avail) - size && mem[..] == Cleared(old(mem[..]), old(areas)[j].addr, size)
      ensures j < |nodes| && nodes[j] == r && r.memArea == old(areas)[j].addr && r.size == size
      ensures forall k :: 0 <= k < |nodes| ==> nodes[k] in old(nodes) || fresh(nodes[k])
    {
      hide Linked, Truncated, CanTruncate;
      NodeAt(j);
      avail := avail - size;
      SetUsed(r, true, j);
      MnTruncate(r, size, j);
      assert nodes[..j + 1][j] == r;
      SizeAfter(Use(old(areas), j, true), j, size);
      NodeAt(j);
      Clear(r.memArea, size);
    }

    /** Nothing has changed. */
    twostate predicate Same()
      reads this, nodes, mem
    {
      areas == old(areas) && avail == old(avail) && mem[..] == old(mem[..]) && nodes == old(nodes)
    }

    method AllocFixed(ptr: int, size: int) returns (r: MemNode?)
      requires Valid() && 0 <= ptr && 0 <= size
      modifies `avail, `nodes, `areas, nodes, mem
      ensures Valid() && Base() == old(Base())
      ensures r == null ==> Same()
      ensures r != null <==>
                size > 0 && ptr > 0 && exists k :: 0 <= k < |old(areas)| && HasRoom(old(areas)[k], ptr, size)
      ensures r != null ==> r.memArea == ptr && r.size == size
      ensures r != null ==> Allocated(old(areas), old(mem[..]), areas, mem[..], ptr, size)
    {
      hide Linked, Good, Placed, Taken, CanTake, Live, FreeBytes, Cleared;
      if size == 0 || ptr == 0 {
        return null;
      }
      GoodBefore(areas, Base(), Base() + this.size);
      var pmn;
      ghost var i;
      pmn, i := FindMnAt(ptr);
      if pmn == null {
        return null;
      }
      NodeAt(i);
      OnlyOneHolds(areas, Base(), Base() + this.size, i, ptr);
      if pmn.used {
        return null;
      }
      var delta := ptr - pmn.memArea;
      if size + delta > pmn.size {
        return null;
      }
      assert HasRoom(areas[i], ptr, size);
      PlacedAllocates(areas, i, ptr, size, Base(), Base() + this.size, mem[..]);
      r, i := Take(pmn, ptr, size, i);
    }

    /** `align` is a power of two; masking with `align - 1` is written as a remainder. */
    method AllocAligned(align: int, size: int) returns (r: MemNode?)
      requires Valid() && 0 < align && 0 <= size
      modifies `avail, `nodes, `areas, nodes, mem
      ensures Valid() && Base() == old(Base())
      ensures r == null ==> Same()
      ensures r != null <==> size > 0 && exists k :: 0 <= k < |old(areas)| && Fits(old(areas)[k], size + align - 1)
      ensures r != null ==> r.size == size && r.memArea % align == 0
      ensures r != null ==> Allocated(old(areas), old(mem[..]), areas, mem[..], r.memArea, size)
      ensures r != null ==> FirstFit(old(areas), size + align - 1, r.memArea, align)
      ensures forall k :: 0 <= k < |nodes| ==> nodes[k] in old(nodes) || fresh(nodes[k])
    {
      hide Linked, Good, Placed, Taken, CanTake, Live, FreeBytes, Cleared;
      if size == 0 {
        return null;
      }
      var pmn;
      ghost var i;
      pmn, i := FindFreeArea(size + align - 1);
      if pmn == null {
        return null;
      }
      NodeAt(i);
      var iptr := pmn.memArea;
      var delta := (align - iptr % align) % align;
      AlignUp(iptr, align);
      PlacedAllocates(areas, i, iptr + delta, size, Base(), Base() + this.size, mem[..]);
      r, i := Take(pmn, iptr + delta, size, i);
    }

    /** `smalloc`: the address of a new block, or 0 just if no free area has `size` bytes. */
    method SMalloc(size: int) returns (r: int)
      requires Valid() && 0 <= size
      modifies `avail, `nodes, `areas, nodes, mem
      ensures Valid() && Base() == old(Base())
      ensures r == 0 ==> Same()
      ensures r != 0 <==> size > 0 && !NoFit(old(areas), size)
      ensures r != 0 ==> Allocated(old(areas), old(mem[..]), areas, mem[..], r, size)
    {
      hide Linked, Good, Live, FreeBytes, Cleared;
      var pmn := AllocAligned(1, size);
      return if pmn == null then 0 else pmn.memArea;
    }

    /** The same from the top of the pool, below `top` unless that is 0. */
    method AllocAlignedTopdown(top: int, align: int, size: int) returns (r: MemNode?)
      requires Valid() && 0 < align && 0 <= size && 0 <= top
      modifies `avail, `nodes, `areas, nodes, mem
      ensures Valid() && Base() == old(Base())
      ensures r == null ==> Same()
      ensures r != null <==>
                size > 0 && exists k :: 0 <= k < |old(areas)| && FitsBelow(old(areas)[k], top, size + align - 1)
      ensures r != null ==> r.size == size && r.memArea % align == 0 && (top != 0 ==> r.memArea + size <= top)
      ensures r != null ==> Allocated(old(areas), old(mem[..]), areas, mem[..], r.memArea, size)
      ensures r != null ==> LastFit(old(areas), size + align - 1, top, r.memArea, size, align)
    {
      hide Linked, Good, Placed, Taken, CanTake, Live, FreeBytes, Cleared, Cut, Truncated, CanTruncate, LastFit,
           HasRoom;
      if size == 0 {
        return null;
      }
      GoodBefore(areas, Base(), Base() + this.size);
      var pmn;
      ghost var i;
      pmn, i := FindFreeAreaTopdown(top, size + align - 1);
      if pmn == null {
        return null;
      }
      NodeAt(i);
      var minTop := pmn.memArea + pmn.size;
      if top != 0 && top < minTop {
        minTop := top;
      }
      var iptr := minTop - size - (minTop - size) % align;
      TopPlace(areas, i, top, size, align, minTop, iptr);
      var iend := iptr + size;
      var delta := pmn.memArea + pmn.size - iend;
      PlacedAllocates(areas, i, iptr, size, Base(), Base() + this.size, mem[..]);
      if delta != 0 {
        PlacedAfterCut(areas, i, iptr, size, Base(), Base() + this.size);
        MnTruncate(pmn, pmn.size - delta, i);
        assert nodes[..i + 1][i] == pmn;
      }
      r, i := Take(pmn, iptr, size, i);
    }

    // ---------- freeing ----------

    /** Frees the block that starts at `ptr`; -1 if there is none. */
    method SmFree(ptr: int) returns (r: int)
      requires Valid()
      modifies `avail, `nodes, `areas, nodes
      ensures Valid() && Base() == old(Base())
      ensures r == 0 || (r == -1 && areas == old(areas))
      ensures r == 0 <==> exists b :: b in old(Live(areas)) && b.addr == ptr
      ensures r == 0 ==> FreedAt(old(areas), areas, ptr)
      ensures forall k :: 0 <= k < |nodes| ==> nodes[k] in old(nodes) || fresh(nodes[k])
    {
      hide Linked, Good, Freed, JoinedNext, CanTruncate, Truncated, Live, FreeBytes;
      GoodBefore(areas, Base(), Base() + size);
      NoneAtZero(areas, Base(), Base() + size);
      if ptr == 0 {
        return -1;
      }
      var pmn, prev;
      ghost var i;
      pmn, prev, i := FindMn(ptr);
      LiveAt(areas, ptr);
      if pmn == null {
        return -1;
      }
      NodeAt(i);
      OneStart(areas, Base(), Base() + size, i);
      if !pmn.used {
        return -1;
      }
      BlockFreed(areas, i, Base(), Base() + size);
      FreeSteps(areas, i, Base(), Base() + size);
      FreeNode(pmn, prev, i);
      return 0;
    }

    /** Marks a node free and joins it with its free neighbours. */
    method FreeNode(pmn: MemNode, prev: MemNode?, ghost i: nat)
      requires Linked() && i < |nodes| && nodes[i] == pmn && prev == (if i == 0 then null else nodes[i - 1])
      requires Steps(areas, i)
      modifies `avail, `nodes, `areas, nodes
      ensures Linked() && areas == Freed(old(areas), i) && avail == old(avail) + old(areas)[i].size
      ensures forall k :: 0 <= k < |nodes| ==> nodes[k] in old(nodes) || fresh(nodes[k])
    {
      hide Linked, Freed, CanTruncate, Truncated, Join;
      NodeAt(i);
      avail := avail + pmn.size;
      SetUsed(pmn, false, i);
      NodeAt(i);
      if pmn.next != null && !pmn.next.used {
        MnTruncate(pmn, pmn.size + pmn.next.size, i);
        assert nodes[..i + 1][i] == pmn;
        assert i > 0 ==> nodes[..i + 1][i - 1] == prev;
      }
      assert areas == JoinedNext(old(areas), i);
      NodeAt(i);
      if i > 0 {
        NodeAt(i - 1);
      }
      if prev != null && !prev.used {
        MnTruncate(prev, prev.size + pmn.size, i - 1);
      }
    }

    // ---------- resizing ----------

    /** `memmove(dst, src, n)` */
    method Move(dst: int, src: int, n: int)
      requires 0 <= n && 0 <= dst && dst + n <= mem.Length && 0 <= src && src + n <= mem.Length
      modifies mem
      ensures mem[..] == Copied(old(mem[..]), dst, src, n)
    {
      var data := mem[src..src + n];
      for k := 0 to n
        invariant forall x :: 0 <= x < mem.Length ==>
                    mem[x] == if dst <= x < dst + k then data[x - dst] else old(mem[..])[x]
      {
        mem[dst + k] := data[k];
      }
      assert forall x :: 0 <= x < n ==> data[x] == old(mem[..])[src + x];
    }

    /** Moves `n` bytes and clears those after them up to `size`. */
    method MoveBytes(dst: int, src: int, n: int, size: int)
      requires 0 <= n <= size && 0 <= dst && dst + size <= mem.Length && 0 <= src && src + n <= mem.Length
      modifies mem
      ensures mem[..] == Resized(old(mem[..]), src, n, dst, size)
    {
      Move(dst, src, n);
      Clear(dst + n, size - n);
    }

    /** The bytes move, and with them the mark. */
    method SlideBytes(prev: MemNode, pmn: MemNode, size: int, ghost i: nat)
      requires Linked() && 0 < i < |nodes| && nodes[i - 1] == prev && nodes[i] == pmn && 0 < areas[i].size < size
      requires 0 <= areas[i - 1].addr && areas[i - 1].addr + size <= mem.Length
      requires 0 <= areas[i].addr && areas[i].addr + areas[i].size <= mem.Length
      modifies `areas, prev`used, pmn`used, mem
      ensures Linked() && nodes == old(nodes) && areas == Use(Use(old(areas), i - 1, true), i, false)
      ensures mem[..] == Resized(old(mem[..]), old(areas)[i].addr, old(areas)[i].size, old(areas)[i - 1].addr, size)
    {
      hide Linked, Resized;
      NodeAt(i - 1);
      NodeAt(i);
      SetUsed(prev, true, i - 1);
      NodeAt(i - 1);
      NodeAt(i);
      MoveBytes(prev.memArea, pmn.memArea, pmn.size, size);
      SetUsed(pmn, false, i);
    }

    /** Moves a block down into the free node before it, joined with a free node after it. */
    method Slide(prev: MemNode, pmn: MemNode, nmn: MemNode, size: int, ghost i: nat)
      requires Linked() && 0 < i && i + 1 < |nodes| && nodes[i - 1] == prev && nodes[i] == pmn && nodes[i + 1] == nmn
      requires SlideSteps(areas, i, size) && 0 < areas[i].size < size && 0 < areas[i - 1].size
      requires areas[i].addr == areas[i - 1].addr + areas[i - 1].size
      requires 0 <= areas[i - 1].addr && areas[i - 1].addr + size <= mem.Length
               && areas[i].addr + areas[i].size <= mem.Length
      modifies `avail, `nodes, `areas, nodes, mem
      ensures Linked() && areas == Placed(old(areas), i, old(areas)[i - 1].addr, size)
      ensures avail == old(avail) + old(areas)[i].size - size
      ensures mem[..] == Resized(old(mem[..]), old(areas)[i].addr, old(areas)[i].size, old(areas)[i - 1].addr, size)
      ensures prev.memArea == old(areas)[i - 1].addr && prev.size == size
    {
      hide Linked, CanTruncate, Truncated, Placed, Join, JoinedNext, SlideSteps, Resized;
      NodeAt(i - 1);
      NodeAt(i);
      ghost var a := areas;
      var psize := if size < prev.size then size else prev.size;
      avail := avail - psize;
      if size > prev.size + pmn.size {
        avail := avail - (size - prev.size - pmn.size);
      }
      SlideBytes(prev, pmn, size, i);
      NodeAt(i - 1);
      NodeAt(i);
      if size < prev.size + pmn.size {
        var overl := if size > prev.size then size - prev.size else 0;
        avail := avail + (pmn.size - overl);
      }
      SlideEnd(prev, pmn, nmn, size, i, a);
    }

    /** The list after the bytes have been moved. */
    method SlideEnd(prev: MemNode, pmn: MemNode, nmn: MemNode, size: int, ghost i: nat, ghost a: Areas)
      requires Linked() && 0 < i && i + 1 < |nodes| && nodes[i - 1] == prev && nodes[i] == pmn && nodes[i + 1] == nmn
      requires |a| == |areas| && areas == Use(Use(a, i - 1, true), i, false) && SlideSteps(a, i, size)
      modifies `nodes, `areas, nodes
      ensures Linked() && areas == Placed(a, i, a[i - 1].addr, size)
      ensures prev.memArea == a[i - 1].addr && prev.size == size
    {
      hide Linked, CanTruncate, Truncated, Placed, Join;
      NodeAt(i);
      if !nmn.used {
        MnTruncate(pmn, pmn.size + nmn.size, i);
        assert nodes[..i + 1][i - 1] == prev;
      }
      assert areas == Sliding(a, i);
      SizeAfter(areas, i - 1, size);
      SlidingFirst(a, i);
      MnTruncate(prev, size, i - 1);
      assert nodes[..i][i - 1] == prev;
      NodeAt(i - 1);
    }

    /** What growing a block comes to when the space after it does not do: it slides down, or is relocated.
        The address of the block, or 0; `fault` says that the node after the last one has been read. */
    method ReallocAllocMn(prev: MemNode?, pmn: MemNode, nmn: MemNode?, size: int, ghost i: nat)
      returns (p: int, fault: bool)
      requires Valid() && i < |nodes| && nodes[i] == pmn && areas[i].used && areas[i].size < size
      requires prev == (if i == 0 then null else nodes[i - 1])
               && nmn == (if i + 1 < |nodes| then nodes[i + 1] else null)
      modifies `avail, `nodes, `areas, nodes, mem
      ensures Valid() && Base() == old(Base())
      ensures fault <==> NullNext(old(areas), i, size)
      ensures p == 0 ==> Same()
      ensures p == 0 <==> fault || (!CanSlide(old(areas), i, size) && NoFit(old(areas), size))
      ensures p != 0 ==> Reallocated(old(areas), old(mem[..]), areas, mem[..], old(areas)[i].addr, p, size)
    {
      hide Linked, Good, Placed, Live, FreeBytes, Resized, Cleared, Reallocated, SlideSteps, RoomFrom, RoomTo, From,
           NoFit;
      NodeAt(i);
      if i > 0 {
        NodeAt(i - 1);
      }
      RoomIs(areas, i, Base(), Base() + this.size, mem.Length);
      var slides := false;
      if prev != null && !prev.used {
        if nmn == null {
          return 0, true;
        }
        slides := prev.size + pmn.size + (if nmn.used then 0 else nmn.size) >= size;
      }
      fault := false;
      if slides {
        SlideIs(areas, i, size, Base(), Base() + this.size);
        PlacedReallocates(areas, i, areas[i - 1].addr, size, Base(), Base() + this.size, mem[..]);
        Slide(prev, pmn, nmn, size, i);
        p := prev.memArea;
      } else {
        p := Relocate(pmn, size, i);
      }
    }

    /** Allocates a new block, copies the old one and frees that. */
    method Relocate(pmn: MemNode, size: int, ghost i: nat) returns (p: int)
      requires Valid() && i < |nodes| && nodes[i] == pmn && areas[i].used && areas[i].size < size
      modifies `avail, `nodes, `areas, nodes, mem
      ensures Valid() && Base() == old(Base())
      ensures p == 0 ==> Same()
      ensures p == 0 <==> NoFit(old(areas), size)
      ensures p != 0 ==> Reallocated(old(areas), old(mem[..]), areas, mem[..], old(areas)[i].addr, p, size)
    {
      hide Linked, Good, Live, FreeBytes, Resized, Cleared, Copied, FirstFit, Reallocated;
      NodeAt(i);
      ghost var a, m := areas, mem[..];
      var ptr, n := pmn.memArea, pmn.size;
      RoomIs(areas, i, Base(), Base() + this.size, mem.Length);
      var r := AllocAligned(1, size);
      if r == null {
        return 0;
      }
      p := r.memArea;
      ghost var a1, m1 := areas, mem[..];
      NewApart(a, i, m, a1, m1, p, size, Base(), Base() + this.size);
      Move(p, ptr, n);
      CopyIsResize(m, ptr, n, p, size);
      var freed := SmFree(ptr);
      RelocateIs(a, i, m, a1, m1, p, size, areas, mem[..], Base(), Base() + this.size);
    }

    /** Gives the block in use at `i` a new size in place: a shorter one, or a longer one at the cost of the free
        node after it. */
    method ResizeInPlace(pmn: MemNode, size: int, ghost i: nat)
      requires Valid() && i < |nodes| && nodes[i] == pmn && areas[i].used
      requires 0 < size && areas[i].addr + size <= RoomTo(areas, i)
      modifies `avail, `nodes, `areas, nodes, mem
      ensures Valid() && Base() == old(Base())
      ensures Reallocated(old(areas), old(mem[..]), areas, mem[..], old(areas)[i].addr, old(areas)[i].addr, size)
    {
      hide Linked, Good, Placed, Live, FreeBytes, Cleared, Reallocated, CanTruncate, Truncated, RoomFrom, From;
      NodeAt(i);
      RoomIs(areas, i, Base(), Base() + this.size, mem.Length);
      TruncatedPlaces(areas, i, size, Base(), Base() + this.size);
      PlacedReallocates(areas, i, areas[i].addr, size, Base(), Base() + this.size, mem[..]);
      InPlaceBytes(mem[..], areas[i].addr, areas[i].size, size);
      if size < pmn.size {
        avail := avail + (pmn.size - size);
      } else if size > pmn.size {
        var nmn := pmn.next;
        NodeAt(i + 1);
        avail := avail - (size - pmn.size);
        Clear(nmn.memArea, size - pmn.size);
      }
      MnTruncate(pmn, size, i);
    }

    /** Gives the block that starts at `ptr` a new size; its new address, or 0.  `fault` says that a null pointer has
        been read through, which is so just when the last area is to grow and the one before it is free. */
    method SmRealloc(ptr: int, size: int) returns (r: int, fault: bool)
      requires Valid() && 0 <= ptr && 0 <= size
      modifies `avail, `nodes, `areas, nodes, mem
      ensures Valid() && Base() == old(Base())
      ensures fault <==> ptr != 0 && !Safe(old(areas), ptr, size)
      ensures fault ==> r == 0
      ensures ptr == 0 ==> (r != 0 <==> size > 0 && !NoFit(old(areas), size))
      ensures ptr == 0 && r != 0 ==> Allocated(old(areas), old(mem[..]), areas, mem[..], r, size)
      ensures ptr != 0 && StartsAt(old(areas), ptr) && size == 0 ==>
                r == 0 && FreedAt(old(areas), areas, ptr) && mem[..] == old(mem[..])
      ensures ptr != 0 && StartsAt(old(areas), ptr) && size > 0 && !fault ==>
                (r != 0 <==> HasSpace(old(areas), ptr, size))
      ensures ptr != 0 && r != 0 ==> Reallocated(old(areas), old(mem[..]), areas, mem[..], ptr, r, size)
      ensures r == 0 && !(ptr != 0 && StartsAt(old(areas), ptr) && size == 0) ==> Same()
      ensures ptr != 0 && !StartsAt(old(areas), ptr) ==> r == 0
    {
      hide Linked, Good, Live, FreeBytes, Cleared, Reallocated, Allocated, FreedAt, FirstFit, RoomFrom, RoomTo, From;
      fault := false;
      if ptr == 0 {
        r := SMalloc(size);
        return;
      }
      GoodBefore(areas, Base(), Base() + this.size);
      var pmn, prev;
      ghost var i;
      pmn, prev, i := FindMn(ptr);
      LiveAt(areas, ptr);
      if pmn == null {
        return 0, false;
      }
      NodeAt(i);
      OneStart(areas, Base(), Base() + this.size, i);
      if !pmn.used {
        return 0, false;
      }
      if size == 0 {
        RoomIs(areas, i, Base(), Base() + this.size, mem.Length);
        assert Safe(areas, ptr, 0);
        var freed := SmFree(ptr);
        return 0, false;
      }
      r, fault := ReallocBlock(prev, pmn, size, i);
    }

    method ReallocBlock(prev: MemNode?, pmn: MemNode, size: int, ghost i: nat) returns (r: int, fault: bool)
      requires Valid() && i < |nodes| && nodes[i] == pmn && areas[i].used && 0 < size
      requires prev == (if i == 0 then null else nodes[i - 1])
      modifies `avail, `nodes, `areas, nodes, mem
      ensures Valid() && Base() == old(Base())
      ensures fault <==> NullNext(old(areas), i, size)
      ensures r == 0 ==> Same()
      ensures r != 0 <==>
                !fault && (RoomFrom(old(areas), i) + size <= RoomTo(old(areas), i) || !NoFit(old(areas), size))
      ensures r != 0 ==> Reallocated(old(areas), old(mem[..]), areas, mem[..], old(areas)[i].addr, r, size)
    {
      hide Linked, Good, Live, FreeBytes, Cleared, Reallocated, RoomFrom, RoomTo, From, NoFit;
      NodeAt(i);
      if i > 0 {
        NodeAt(i - 1);
      }
      RoomIs(areas, i, Base(), Base() + this.size, mem.Length);
      var nmn := pmn.next;
      if size <= pmn.size || (nmn != null && !nmn.used && pmn.size + nmn.size >= size) {
        r, fault := pmn.memArea, false;
        ResizeInPlace(pmn, size, i);
      } else {
        r, fault := ReallocAllocMn(prev, pmn, nmn, size, i);
      }
    }

    /** Frees every block. */
    method SmFreeAll()
      requires Valid()
      modifies `avail, `nodes, `areas, nodes
      ensures Valid() && areas == [Area(old(Base()), size, false)] && avail == size
    {
      hide Linked, Good, Live, FreeBytes;
      ghost var base := Base();
      Heads();
      while mn.used || mn.next != null
        invariant Valid() && Base() == base
        invariant |nodes| > 0 && nodes[0] == mn
        invariant forall k :: 0 <= k < |nodes| ==> nodes[k] in old(nodes) || fresh(nodes[k])
        decreases |Live(areas)|
      {
        Heads();
        NodeAt(0);
        FirstUsed(areas, Base(), Base() + size);
        ghost var i := 0;
        var pmn := mn;
        if !pmn.used {
          pmn := pmn.next;
          i := 1;
        }
        NodeAt(i);
        LiveAt(areas, pmn.memArea);
        ghost var a := areas;
        var ptr := pmn.memArea;
        var r := SmFree(ptr);
        FewerLive(a, areas, ptr);
        Heads();
      }
      Heads();
      NodeAt(0);
      NoneUsed(areas, Base(), Base() + size);
    }
  }

  predicate Fits(a: Area, size: int) { !a.used && a.size >= size }

  /** `top` 0 stands for no limit. */
  predicate FitsBelow(a: Area, top: int, size: int) { Fits(a, size) && (top == 0 || a.addr + size <= top) }

  /** Area `k` lies before the next one. */
  predicate Before(a: Areas, k: nat)
    requires k + 1 < |a|
  {
    a[k].addr + a[k].size == a[k + 1].addr && a[k].size > 0
  }

  function Cleared(m: seq<byte>, at: int, n: int): (r: seq<byte>)
    requires 0 <= at <= at + n <= |m|
    ensures |r| == |m| && forall k :: 0 <= k < |m| ==> r[k] == if at <= k < at + n then 0 else m[k]
  {
    seq(|m|, k requires 0 <= k < |m| => if at <= k < at + n then 0 else m[k])
  }

  /** Once an area lies too high, so do all after it. */
  lemma {:induction false} RestAbove(a: Areas, n: nat, ptr: int, size: int)
    requires n < |a| && a[n].addr + size > ptr && forall k :: 0 <= k < |a| - 1 ==> Before(a, k)
    ensures forall k :: n <= k < |a| ==> a[k].addr + size > ptr
    decreases |a| - n
  {
    if n + 1 < |a| {
      assert Before(a, n);
      RestAbove(a, n + 1, ptr, size);
    }
  }

  lemma GoodBefore(a: Areas, lo: int, hi: int)
    requires Good(a, lo, hi)
    ensures forall k :: 0 <= k < |a| - 1 ==> Before(a, k)
  {
    forall k | 0 <= k < |a| - 1 ensures Before(a, k) {
      AddrIs(a, lo, hi, k);
    }
  }

  lemma SizeAfter(a: Areas, i: nat, size: int)
    requires CanTruncate(a, i, size)
    ensures i < |Truncated(a, i, size)| && Truncated(a, i, size)[i] == a[i].(size := size)
  {}

  /** Free area `a` has `size` bytes from `p` on. */
  predicate HasRoom(a: Area, p: int, size: int) {
    !a.used && a.addr <= p && p + size <= a.addr + a.size
  }

  /** No area but `i` has room at an address inside area `i`. */
  lemma OnlyOneHolds(a: Areas, lo: int, hi: int, i: nat, ptr: int)
    requires Good(a, lo, hi) && i < |a| && a[i].addr <= ptr < a[i].addr + a[i].size
    ensures forall k, size :: 0 <= k < |a| && size > 0 && HasRoom(a[k], ptr, size) ==> k == i
  {
    forall k | 0 <= k < |a| && k != i ensures !(a[k].addr <= ptr < a[k].addr + a[k].size) {
      if k < i {
        AreasInOrder(a, lo, hi, k, i);
      } else {
        AreasInOrder(a, lo, hi, i, k);
      }
    }
  }

  lemma {:induction false} AreasInOrder(a: Areas, lo: int, hi: int, i: nat, j: nat)
    requires Tiled(a, lo, hi) && i < j < |a|
    ensures a[i].addr + a[i].size <= a[j].addr
    decreases j
  {
    AddrIs(a, lo, hi, i);
    AddrIs(a, lo, hi, j - 1);
    if i < j - 1 {
      AreasInOrder(a, lo, hi, i, j - 1);
    }
  }

  /** One more block is in use, `size` cleared bytes from `p` on, apart from all others; no other byte has
      changed. */
  ghost predicate Allocated(a: Areas, m: seq<byte>, a': Areas, m': seq<byte>, p: int, size: int) {
    && Live(a') == Live(a) + {Block(p, size)} && FreeBytes(a') == FreeBytes(a) - size
    && (forall b :: b in Live(a) ==> b.addr + b.size <= p || p + size <= b.addr)
    && 0 < p <= p + size <= |m| && m' == Cleared(m, p, size)
  }

  /** Placing a block in a free area allocates it. */
  lemma PlacedAllocates(a: Areas, i: nat, p: int, size: int, lo: int, hi: int, m: seq<byte>)
    requires Good(a, lo, hi) && i < |a| && HasRoom(a[i], p, size) && size > 0 && 0 < lo && hi <= |m|
    ensures CanTake(a, i, p, size) && Taken(a, i, p, size) == Placed(a, i, p, size)
    ensures Good(Placed(a, i, p, size), lo, hi) && Placed(a, i, p, size) != []
    ensures Placed(a, i, p, size)[0].addr == a[0].addr == lo
    ensures 0 <= p <= p + size <= |m|
    ensures Allocated(a, m, Placed(a, i, p, size), Cleared(m, p, size), p, size)
  {
    hide Placed, Taken, CanTake, Live, FreeBytes;
    AddrIs(a, lo, hi, i);
    PocketOf(a, i);
    TakenIs(a, i, p, size);
    PlacedKeeps(a, i, p, size, lo, hi);
    forall b | b in Live(a) ensures b.addr + b.size <= p || p + size <= b.addr {
      OtherOutside(a, i, lo, hi, b);
    }
  }

  lemma AlignUp(p: int, align: int)
    requires 0 < align
    ensures var d := (align - p % align) % align; 0 <= d < align && (p + d) % align == 0
  {
    var q, x := p / align, p % align;
    assert p == q * align + x;
    if x == 0 {
      assert align % align == 0;
    } else {
      assert (align - x) % align == align - x;
      assert p + align - x == (q + 1) * align;
      MultipleMod(q + 1, align);
    }
  }

  lemma MultipleMod(q: int, n: int)
    requires 0 < n
    ensures q * n % n == 0
  {
    Arithmetic.DivModUnique(q * n, n, q, 0);
  }

  lemma AlignDown(p: int, align: int)
    requires 0 < align
    ensures 0 <= p % align < align && (p - p % align) % align == 0
  {
    assert p - p % align == p / align * align;
    MultipleMod(p / align, align);
  }

  /** The first area that fits, cut at most `align - 1` bytes above its start. */
  ghost predicate FirstFit(a: Areas, need: int, p: int, align: int) {
    exists i :: 0 <= i < |a| && Fits(a[i], need) && (forall k :: 0 <= k < i ==> !Fits(a[k], need))
             && a[i].addr <= p < a[i].addr + align
  }

  /** The last area that fits, and at most `align - 1` bytes left unused above the block. */
  ghost predicate LastFit(a: Areas, need: int, top: int, p: int, size: int, align: int) {
    exists i :: 0 <= i < |a| && FitsBelow(a[i], top, need) && (forall k :: i < k < |a| ==> !FitsBelow(a[k], top, need))
             && var end := if top != 0 && top < a[i].addr + a[i].size then top else a[i].addr + a[i].size;
               end - align < p + size <= end
  }

  /** The aligned place just below the end of the room. */
  lemma TopPlace(a: Areas, i: nat, top: int, size: int, align: int, end: int, p: int)
    requires 0 < align && 0 < size && i < |a| && FitsBelow(a[i], top, size + align - 1)
    requires forall k :: i < k < |a| ==> !FitsBelow(a[k], top, size + align - 1)
    requires end == if top != 0 && top < a[i].addr + a[i].size then top else a[i].addr + a[i].size
    requires p == end - size - (end - size) % align
    ensures HasRoom(a[i], p, size) && p % align == 0 && a[i].addr <= p && p + size <= end
            && (top != 0 ==> p + size <= top)
    ensures LastFit(a, size + align - 1, top, p, size, align)
  {
    AlignDown(end - size, align);
  }

  lemma PlacedAfterCut(a: Areas, i: nat, p: int, size: int, lo: int, hi: int)
    requires Good(a, lo, hi) && i < |a| && HasRoom(a[i], p, size) && size > 0 && p + size < a[i].addr + a[i].size
    ensures var n := p + size - a[i].addr;
      && CanTruncate(a, i, n) && CanTake(Truncated(a, i, n), i, p, size)
      && Taken(Truncated(a, i, n), i, p, size) == Placed(a, i, p, size)
  {
    hide Placed, Taken, CanTake, Cut, Truncated, CanTruncate;
    TakenBelowCut(a, i, p, size);
  }

  /** One block less is in use. */
  ghost predicate FreedAt(a: Areas, a': Areas, ptr: int) {
    exists b :: b in Live(a) && b.addr == ptr && Live(a') == Live(a) - {b} && FreeBytes(a') == FreeBytes(a) + b.size
  }

  lemma NoneAtZero(a: Areas, lo: int, hi: int)
    requires Good(a, lo, hi)
    ensures forall b :: b in Live(a) ==> lo <= b.addr
  {
    forall b | b in Live(a) ensures lo <= b.addr {
      LiveInside(a, lo, hi, b);
    }
  }

  lemma LiveAt(a: Areas, ptr: int)
    ensures (exists b :: b in Live(a) && b.addr == ptr) <==> exists k :: 0 <= k < |a| && a[k].used && a[k].addr == ptr
  {
    hide Live;
    if b :| b in Live(a) && b.addr == ptr {
      LiveIs(a, b);
    }
    if k :| 0 <= k < |a| && a[k].used && a[k].addr == ptr {
      LiveIs(a, Block(a[k].addr, a[k].size));
    }
  }

  lemma OneStart(a: Areas, lo: int, hi: int, i: nat)
    requires Good(a, lo, hi) && i < |a|
    ensures forall k :: 0 <= k < |a| && a[k].addr == a[i].addr ==> k == i
  {
    forall k | 0 <= k < |a| && k != i ensures a[k].addr != a[i].addr {
      AddrIs(a, lo, hi, i);
      AddrIs(a, lo, hi, k);
      if k < i {
        AreasInOrder(a, lo, hi, k, i);
      } else {
        AreasInOrder(a, lo, hi, i, k);
      }
    }
  }

  lemma BlockFreed(a: Areas, i: nat, lo: int, hi: int)
    requires Good(a, lo, hi) && i < |a| && a[i].used
    ensures Good(Freed(a, i), lo, hi) && Freed(a, i) != [] && Freed(a, i)[0].addr == a[0].addr == lo
    ensures FreedAt(a, Freed(a, i), a[i].addr) && FreeBytes(Freed(a, i)) == FreeBytes(a) + a[i].size
  {
    hide Freed, Live, FreeBytes;
    FreedKeeps(a, i, lo, hi);
    LiveIs(a, Block(a[i].addr, a[i].size));
  }

  lemma SlidingFirst(a: Areas, i: nat)
    requires 0 < i < |a|
    ensures Sliding(a, i)[i - 1].addr == a[i - 1].addr
  {}

  function Copied(m: seq<byte>, dst: int, src: int, n: int): (r: seq<byte>)
    requires 0 <= n && 0 <= dst && dst + n <= |m| && 0 <= src && src + n <= |m|
    ensures |r| == |m| && forall k :: 0 <= k < |m| ==> r[k] == if dst <= k < dst + n then m[src + k - dst] else m[k]
  {
    seq(|m|, k requires 0 <= k < |m| => if dst <= k < dst + n then m[src + k - dst] else m[k])
  }

  /** The `old_` bytes from `ptr` on moved to `p`, cut or continued with zeros to `size`. */
  function Resized(m: seq<byte>, ptr: int, old_: int, p: int, size: int): (r: seq<byte>)
    requires 0 <= size && 0 <= p && p + size <= |m| && 0 <= ptr && 0 <= old_ && ptr + old_ <= |m|
    ensures |r| == |m|
    ensures forall k :: 0 <= k < |m| ==>
              r[k] == if p <= k < p + size then if k - p < old_ then m[ptr + k - p] else 0 else m[k]
  {
    seq(|m|, k requires 0 <= k < |m| =>
      if p <= k < p + size then if k - p < old_ then m[ptr + k - p] else 0 else m[k])
  }

  predicate CanSlide(a: Areas, i: nat, size: int)
    requires i < |a|
  {
    From(a, i) < i && RoomFrom(a, i) + size <= RoomTo(a, i)
  }

  ghost predicate NoFit(a: Areas, size: int) {
    forall k :: 0 <= k < |a| ==> !Fits(a[k], size)
  }

  /** The block at `ptr` has become one of `size` bytes at `p`, apart from all other blocks: its bytes have
      moved there, followed by zeros, and no other byte has changed. */
  ghost predicate Reallocated(a: Areas, m: seq<byte>, a': Areas, m': seq<byte>, ptr: int, p: int, size: int) {
    exists b :: ReallocatedBlock(a, m, a', m', b, ptr, p, size)
  }

  ghost predicate ReallocatedBlock(a: Areas, m: seq<byte>, a': Areas, m': seq<byte>, b: Block, ptr: int, p: int,
                                   size: int) {
    && b in Live(a) && b.addr == ptr && b.size > 0
    && Live(a') == Live(a) - {b} + {Block(p, size)} && FreeBytes(a') == FreeBytes(a) + b.size - size
    && (forall c :: c in Live(a) && c != b ==> c.addr + c.size <= p || p + size <= c.addr)
    && 0 < p && 0 <= size && p + size <= |m| && 0 <= ptr && ptr + b.size <= |m|
    && m' == Resized(m, ptr, b.size, p, size)
  }

  /** Sizes and addresses around area `i`. */
  lemma RoomIs(a: Areas, i: nat, lo: int, hi: int, top: int)
    requires Good(a, lo, hi) && i < |a| && 0 < lo && hi <= top
    ensures 0 < a[i].addr && a[i].addr + a[i].size <= top && a[i].size > 0
            && a[i].addr + a[i].size <= RoomTo(a, i) <= top
    ensures RoomTo(a, i) == a[i].addr + a[i].size + if i + 1 < |a| && !a[i + 1].used then a[i + 1].size else 0
    ensures i > 0 ==> a[i].addr == a[i - 1].addr + a[i - 1].size && 0 < a[i - 1].addr && 0 < a[i - 1].size
    ensures i + 1 < |a| ==> a[i + 1].addr == a[i].addr + a[i].size
    ensures i > 0 && !a[i - 1].used ==> RoomFrom(a, i) == a[i - 1].addr && From(a, i) == i - 1
    ensures i == 0 || a[i - 1].used ==> RoomFrom(a, i) == a[i].addr && From(a, i) == i
  {
    hide Tiled;
    AddrIs(a, lo, hi, i);
    if i > 0 {
      AddrIs(a, lo, hi, i - 1);
    }
    if i + 1 < |a| {
      AddrIs(a, lo, hi, i + 1);
    }
  }

  lemma GoodStart(a: Areas, lo: int, hi: int)
    requires Good(a, lo, hi)
    ensures a != [] && a[0].addr == lo
  {}

  lemma OthersApart(a: Areas, i: nat, p: int, size: int, lo: int, hi: int)
    requires Good(a, lo, hi) && i < |a| && a[i].used && RoomFrom(a, i) <= p && p + size <= RoomTo(a, i)
    ensures forall c :: c in Live(a) && c != Block(a[i].addr, a[i].size) ==> c.addr + c.size <= p || p + size <= c.addr
  {
    hide Live, Tiled, Coalesced, RoomFrom, RoomTo;
    forall c | c in Live(a) && c != Block(a[i].addr, a[i].size) ensures c.addr + c.size <= p || p + size <= c.addr {
      OtherOutside(a, i, lo, hi, c);
    }
  }

  lemma PlacedReallocates(a: Areas, i: nat, p: int, size: int, lo: int, hi: int, m: seq<byte>)
    requires Good(a, lo, hi) && i < |a| && a[i].used && RoomFrom(a, i) <= p && p + size <= RoomTo(a, i) && size > 0
    requires 0 < lo && hi <= |m|
    ensures Good(Placed(a, i, p, size), lo, hi) && Placed(a, i, p, size) != []
    ensures Placed(a, i, p, size)[0].addr == a[0].addr == lo
    ensures 0 < p && p + size <= |m| && 0 <= a[i].addr && 0 <= a[i].size && a[i].addr + a[i].size <= |m|
    ensures FreeBytes(Placed(a, i, p, size)) == FreeBytes(a) + a[i].size - size
    ensures Reallocated(a, m, Placed(a, i, p, size), Resized(m, a[i].addr, a[i].size, p, size), a[i].addr, p, size)
  {
    hide Placed, Live, FreeBytes, Resized, Tiled, Coalesced, RoomFrom, RoomTo, From, To;
    PocketHolds(a, lo, hi, i);
    PlacedKeeps(a, i, p, size, lo, hi);
    GoodStart(Placed(a, i, p, size), lo, hi);
    GoodStart(a, lo, hi);
    var b := Block(a[i].addr, a[i].size);
    LiveIs(a, b);
    OthersApart(a, i, p, size, lo, hi);
    assert ReallocatedBlock(a, m, Placed(a, i, p, size), Resized(m, a[i].addr, a[i].size, p, size), b, a[i].addr, p,
           size);
  }

  /** A block just allocated lies apart from block `i`, which is still in use. */
  lemma NewApart(a: Areas, i: nat, m: seq<byte>, a1: Areas, m1: seq<byte>, p: int, size: int, lo: int, hi: int)
    requires Good(a, lo, hi) && i < |a| && a[i].used && Allocated(a, m, a1, m1, p, size)
    ensures a[i].addr + a[i].size <= p || p + size <= a[i].addr
    ensures exists b :: b in Live(a1) && b.addr == a[i].addr
  {
    hide Live, Tiled;
    var b := Block(a[i].addr, a[i].size);
    LiveIs(a, b);
    assert b in Live(a1);
  }

  lemma CopyIsResize(m: seq<byte>, ptr: int, n: int, p: int, size: int)
    requires 0 <= n <= size && 0 <= p && p + size <= |m| && 0 <= ptr && ptr + n <= |m|
             && (ptr + n <= p || p + size <= ptr)
    ensures Copied(Cleared(m, p, size), p, ptr, n) == Resized(m, ptr, n, p, size)
  {}

  /** A new block and the old one freed: the old one moved. */
  lemma RelocateIs(a: Areas, i: nat, m: seq<byte>, a1: Areas, m1: seq<byte>, p: int, size: int, a2: Areas,
                   m2: seq<byte>,
                   lo: int, hi: int)
    requires Good(a, lo, hi) && i < |a| && a[i].used && a[i].size > 0 && a[i].size < size && 0 < lo && hi <= |m|
    requires Good(a1, lo, hi) && Allocated(a, m, a1, m1, p, size) && 0 < p && 0 <= a[i].addr
             && a[i].addr + a[i].size <= |m|
    requires FreedAt(a1, a2, a[i].addr) && m2 == Resized(m, a[i].addr, a[i].size, p, size)
    ensures Reallocated(a, m, a2, m2, a[i].addr, p, size)
  {
    hide Live, FreeBytes, Resized, Cleared, Tiled, Coalesced;
    var b := Block(a[i].addr, a[i].size);
    LiveIs(a, b);
    var b' :| b' in Live(a1) && b'.addr == b.addr && Live(a2) == Live(a1) - {b'}
      && FreeBytes(a2) == FreeBytes(a1) + b'.size;
    LiveInside(a1, lo, hi, b');
    LiveApart(a1, lo, hi, b, b', b.addr);
    LiveInside(a, lo, hi, b);
    forall c | c in Live(a) && c != b ensures c.addr + c.size <= p || p + size <= c.addr {}
    assert ReallocatedBlock(a, m, a2, m2, b, a[i].addr, p, size);
  }

  /** `smrealloc` reads the node after the last: the block is the last area, the area before it is free and
      the block is to grow. */
  predicate NullNext(a: Areas, i: nat, size: int) {
    0 < i && i + 1 == |a| && a[i].used && !a[i - 1].used && a[i].size < size
  }

  ghost predicate Safe(a: Areas, ptr: int, size: int) {
    forall i :: 0 <= i < |a| && a[i].addr == ptr ==> !NullNext(a, i, size)
  }

  /** A block starts at `ptr`. */
  ghost predicate StartsAt(a: Areas, ptr: int) {
    exists i :: 0 <= i < |a| && a[i].used && a[i].addr == ptr
  }

  /** There is room for `size` bytes where the block is, with the free areas beside it, or in a free area. */
  ghost predicate HasSpace(a: Areas, ptr: int, size: int) {
    (exists i :: 0 <= i < |a| && a[i].used && a[i].addr == ptr && RoomFrom(a, i) + size <= RoomTo(a, i))
      || !NoFit(a, size)
  }

  /** In place, the bytes kept stay where they are. */
  lemma InPlaceBytes(m: seq<byte>, ptr: int, n: int, size: int)
    requires 0 <= n && 0 < size && 0 <= ptr && ptr + n <= |m| && ptr + size <= |m|
    ensures Resized(m, ptr, n, ptr, size) == if size > n then Cleared(m, ptr + n, size - n) else m
  {}

  /** If anything is in use, it is the first area or the second. */
  lemma FirstUsed(a: Areas, lo: int, hi: int)
    requires Good(a, lo, hi)
    ensures a[0].used || |a| == 1 || a[1].used
  {}

  lemma FewerLive(a: Areas, a': Areas, ptr: int)
    requires FreedAt(a, a', ptr)
    ensures |Live(a')| < |Live(a)|
  {
    hide Live;
  }

  lemma NoneUsed(a: Areas, lo: int, hi: int)
    requires Good(a, lo, hi) && |a| == 1 && !a[0].used
    ensures a == [Area(lo, hi - lo, false)] && FreeBytes(a) == hi - lo
  {
    AddrIs(a, lo, hi, 0);
    One(a[0]);
    assert a == [a[0]];
  }

  // ---------- runs ----------

  datatype Op = Alloc(addr: int, size: int) | Free(addr: int) | Realloc(addr: int, to: int, size: int)

  datatype Pool = Pool(areas: Areas, mem: seq<byte>)

  /** What the routines promise for a call that succeeds. */
  ghost predicate Step(s: Pool, op: Op, s': Pool) {
    match op
    case Alloc(p, size) => Allocated(s.areas, s.mem, s'.areas, s'.mem, p, size)
    case Free(ptr) => FreedAt(s.areas, s'.areas, ptr) && s'.mem == s.mem
    case Realloc(ptr, p, size) => Reallocated(s.areas, s.mem, s'.areas, s'.mem, ptr, p, size)
  }

  ghost predicate Run(ss: seq<Pool>, ops: seq<Op>) {
    |ss| == |ops| + 1 && forall k {:trigger ops[k]} :: 0 <= k < |ops| ==> Step(ss[k], ops[k], ss[k + 1])
  }

  /** The operation is about the block that starts at `ptr`. */
  predicate About(op: Op, ptr: int) { !op.Alloc? && op.addr == ptr }

  /** Block `b` is in use, inside the memory, and byte `k` of it is `x`. */
  ghost predicate Keeps(s: Pool, b: Block, k: int, x: byte) {
    b in Live(s.areas) && In(k, b) && 0 <= k < |s.mem| && s.mem[k] == x
  }

  lemma StepKeepsBlock(s: Pool, op: Op, s': Pool, b: Block, k: int, x: byte)
    requires Step(s, op, s') && Keeps(s, b, k, x) && !About(op, b.addr)
    ensures Keeps(s', b, k, x)
  {
    hide Live, FreeBytes;
    if op.Realloc? {
      var c :| ReallocatedBlock(s.areas, s.mem, s'.areas, s'.mem, c, op.addr, op.to, op.size);
      assert b != c;
    }
  }

  /** Through every run a block that is neither freed nor resized stays in use, byte for byte. */
  lemma {:induction false} RunKeepsBlock(ss: seq<Pool>, ops: seq<Op>, b: Block, k: int, x: byte)
    requires Run(ss, ops) && Keeps(ss[0], b, k, x) && forall j :: 0 <= j < |ops| ==> !About(ops[j], b.addr)
    ensures Keeps(ss[|ops|], b, k, x)
    decreases |ops|
  {
    hide Keeps, Step, About;
    if |ops| > 0 {
      var ops' := ops[1..];
      assert !About(ops[0], b.addr) && Step(ss[0], ops[0], ss[1]);
      StepKeepsBlock(ss[0], ops[0], ss[1], b, k, x);
      assert forall j :: 0 <= j < |ops'| ==> ops'[j] == ops[j + 1];
      RunKeepsBlock(ss[1..], ops', b, k, x);
    }
  }

  /** A pool on which `smrealloc` follows a null pointer: one of two blocks that fill the pool is freed, and
      the other is to grow. */
  lemma NullNextReachable()
    ensures var a1 := Placed([Area(1, 100, false)], 0, 1, 40);
      && |a1| == 2 && !a1[1].used
      && var a2 := Placed(a1, 1, 41, 60);
        && |a2| == 2 && a2[0].used
        && var a3 := Freed(a2, 0);
          && |a3| == 2 && StartsAt(a3, 41) && !Safe(a3, 41, 70)
  {
    var a1 := Placed([Area(1, 100, false)], 0, 1, 40);
    assert a1 == [Area(1, 40, true), Area(41, 60, false)];
    var a2 := Placed(a1, 1, 41, 60);
    assert a2 == [Area(1, 40, true), Area(41, 60, true)];
    var a3 := Freed(a2, 0);
    assert a3 == [Area(1, 40, false), Area(41, 60, true)];
    assert a3[1].addr == 41 && a3[1].used && NullNext(a3, 1, 70);
  }

  // ---------- calls are steps ----------

  /** Every allocation that succeeds is a step: `smalloc` for alignment 1 and no top, at an address, aligned, or from
      the top. */
  method AllocCall(p: MemPool, ptr: int, align: int, size: int, top: int, fixed: bool, topdown: bool)
    returns (r: MemNode?)
    requires p.Valid() && 0 <= ptr && 0 < align && 0 <= size && 0 <= top
    modifies p`avail, p`nodes, p`areas, p.nodes, p.mem
    ensures p.Valid()
    ensures r != null ==> Step(Pool(old(p.areas), old(p.mem[..])), Alloc(r.memArea, size), Pool(p.areas, p.mem[..]))
    ensures r == null ==> p.areas == old(p.areas) && p.mem[..] == old(p.mem[..])
  {
    hide MemPool.Valid, Allocated;
    if fixed {
      r := p.AllocFixed(ptr, size);
    } else if topdown {
      r := p.AllocAlignedTopdown(top, align, size);
    } else {
      r := p.AllocAligned(align, size);
    }
  }

  method FreeCall(p: MemPool, ptr: int) returns (r: int)
    requires p.Valid()
    modifies p`avail, p`nodes, p`areas, p.nodes
    ensures p.Valid()
    ensures if r == 0 then Step(Pool(old(p.areas), old(p.mem[..])), Free(ptr), Pool(p.areas, p.mem[..]))
            else p.areas == old(p.areas)
  {
    hide MemPool.Valid, FreedAt;
    r := p.SmFree(ptr);
  }

  /** A resize is a step; of nothing it is an allocation, and to nothing a free. */
  method ReallocCall(p: MemPool, ptr: int, size: int) returns (r: int, fault: bool)
    requires p.Valid() && 0 <= ptr && 0 <= size
    modifies p`avail, p`nodes, p`areas, p.nodes, p.mem
    ensures p.Valid()
    ensures r != 0 ==> Step(Pool(old(p.areas), old(p.mem[..])),
            if ptr == 0 then Alloc(r, size) else Realloc(ptr, r, size),
                            Pool(p.areas, p.mem[..]))
    ensures r == 0 ==>
              || (p.areas == old(p.areas) && p.mem[..] == old(p.mem[..]))
              || Step(Pool(old(p.areas), old(p.mem[..])), Free(ptr), Pool(p.areas, p.mem[..]))
  {
    hide MemPool.Valid, Allocated, Reallocated, FreedAt, Safe, HasSpace;
    r, fault := p.SmRealloc(ptr, size);
  }
}
