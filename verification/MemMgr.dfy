/**
 kernel/memmgr.c: allocating, freeing and resizing memory by control blocks that lie in the memory itself.
 Paragraphs are indexed by segment.  Upper memory is not linked.
 */
module MemMgr {
  import opened Arithmetic
  import opened McbSpec

  const SUCCESS := 0
  const DE_MCBDESTRY := -7
  const DE_NOMEM := -8
  const DE_INVLDMCB := -9

  predicate McbValid(p: Mcb) { p.size != 0xffff && McbFreeable(p) }

  predicate McbFreeable(p: Mcb) { p.mtype == MCB_NORMAL || p.mtype == MCB_LAST }

  datatype Option<T> = None | Some(value: T)

  /** Of the paragraphs only control blocks of free blocks, and `para`, have been written. */
  ghost predicate OnlyFree(m: seq<Mcb>, m': seq<Mcb>, bs: Blocks, para: int) {
    && |m'| == |m|
    && forall x :: 0 <= x < |m| && x != para && m'[x] != m[x] ==> exists b :: b in bs && b.Free() && b.para == x
  }

  /** What the memory says about block `i`. */
  lemma HeaderIs(m: seq<Mcb>, bs: Blocks, lo: int, hi: int, i: nat)
    requires Good(m, bs, lo, hi) && i < |bs|
    ensures var p := bs[i].para;
      && 0 < p < |m| && p + bs[i].size < |m| && m[p].psp == bs[i].psp && m[p].size == bs[i].size
         && 0 <= bs[i].size < 0xffff
      && (m[p].mtype == if i + 1 < |bs| then MCB_NORMAL else MCB_LAST) && McbValid(m[p])
      && (i + 1 < |bs| ==> bs[i + 1].para == p + bs[i].size + 1 && bs[i + 1].size >= 0)
  {
    assert HeaderOk(m, bs, i);
    ParaIs(bs, lo, hi, i);
  }

  /** The memory after control block `p` has taken in the next one, `q`. */
  function JoinedMcbs(m: seq<Mcb>, p: int, q: int): seq<Mcb>
    requires 0 <= p < |m| && 0 <= q < |m|
  {
    m[p := Mcb(m[q].mtype, m[p].psp, m[p].size + m[q].size + 1)][q := m[q].(size := 0xffff)]
  }

  lemma JoinedGood(m: seq<Mcb>, bs: Blocks, lo: int, hi: int, i: nat)
    requires Good(m, bs, lo, hi) && i + 1 < |bs|
    ensures 0 <= bs[i].para < |m| && 0 <= bs[i + 1].para < |m|
    ensures Good(JoinedMcbs(m, bs[i].para, bs[i + 1].para), Joined(bs, i), lo, hi)
  {
    HeaderIs(m, bs, lo, hi, i);
    HeaderIs(m, bs, lo, hi, i + 1);
    hide Chained;
    var ms := [Both(bs[i], bs[i + 1])];
    OneChained(ms[0]);
    Rewritten(m, JoinedMcbs(m, bs[i].para, bs[i + 1].para), bs, i, i + 2, ms, lo, hi);
  }

  lemma OneChained(b: Blk)
    requires b.size >= 0
    ensures Chained([b], b.para, b.para + b.size + 1)
  {
    assert [b][1..] == [];
  }

  class Arena {
    const mem: array<Mcb>
    /** `first_mcb` */
    const first: int
    /** `cu_psp`: the process that allocates */
    var cuPsp: int

    ghost const end: int
    ghost var blocks: Blocks

    ghost predicate Valid()
      reads `blocks, mem
    {
      Good(mem[..], blocks, first, end)
    }

    /** One free block from `first` on. */
    constructor (mem: array<Mcb>, first: int, size: int, cuPsp: int)
      requires 0 < first && 0 <= size && first + size + 1 <= 0x1_0000 && first + size + 1 <= mem.Length
      requires mem[first] == Mcb(MCB_LAST, FREE_PSP, size)
      ensures Valid() && this.mem == mem && this.first == first && this.cuPsp == cuPsp
      ensures blocks == [Blk(first, size, FREE_PSP)]
    {
      OneChained(Blk(first, size, FREE_PSP));
      this.mem, this.first, this.cuPsp := mem, first, cuPsp;
      this.end, this.blocks := first + size + 1, [Blk(first, size, FREE_PSP)];
    }

    lemma Header(i: nat)
      requires Valid() && i < |blocks|
      ensures var p := blocks[i].para;
        && 0 < p < mem.Length && p + blocks[i].size < mem.Length
        && mem[p].psp == blocks[i].psp && mem[p].size == blocks[i].size && 0 <= blocks[i].size < 0xffff
        && (mem[p].mtype == if i + 1 < |blocks| then MCB_NORMAL else MCB_LAST) && McbValid(mem[p])
        && (i + 1 < |blocks| ==> blocks[i + 1].para == p + blocks[i].size + 1)
    {
      HeaderIs(mem[..], blocks, first, end, i);
    }

    /** One of them. */
    method JoinNext(para: int, q: int, ghost i: nat)
      requires Valid() && i + 1 < |blocks| && blocks[i].para == para && blocks[i + 1].para == q
      requires 0 <= para < mem.Length && 0 <= q < mem.Length && para != q
      modifies `blocks, mem
      ensures Valid() && blocks == Joined(old(blocks), i) && mem[..] == JoinedMcbs(old(mem[..]), para, q)
    {
      hide Good;
      JoinedGood(mem[..], blocks, first, end, i);
      mem[para] := mem[para].(mtype := mem[q].mtype);
      mem[para] := mem[para].(size := mem[para].size + mem[q].size + 1);
      mem[q] := mem[q].(size := 0xffff);
      blocks := Joined(blocks, i);
      assert mem[..] == JoinedMcbs(old(mem[..]), para, q);
    }

    /** Joins the free blocks that follow the block at `para` to it. */
    method JoinMCBs(para: int, ghost i: nat) returns (r: int)
      requires Valid() && i < |blocks| && blocks[i].para == para
      modifies `blocks, mem
      ensures Valid() && r == SUCCESS && blocks == JoinAll(old(blocks), i)
      ensures OnlyFree(old(mem[..]), mem[..], old(blocks), para)
    {
      hide Good, JoinAll, OnlyFree, StillFree, Joined, JoinedMcbs;
      ghost var m0, bs0 := mem[..], blocks;
      Header(i);
      Untouched(m0, bs0, para, i);
      while mem[para].mtype == MCB_NORMAL
        invariant Valid() && i < |blocks| && blocks[i].para == para && 0 <= para < mem.Length
        invariant JoinAll(blocks, i) == JoinAll(bs0, i)
        invariant OnlyFree(m0, mem[..], bs0, para) && StillFree(bs0, blocks, i)
        decreases |blocks|
      {
        Header(i);
        JoinSteps(blocks, i);
        Header(i + 1);
        var q := para + mem[para].size + 1;
        if mem[q].psp != FREE_PSP {
          break;
        }
        if !McbValid(mem[q]) {
          return DE_MCBDESTRY;
        }
        NextFree(m0, mem[..], bs0, blocks, i);
        JoinNext(para, q, i);
      }
      Header(i);
      JoinSteps(blocks, i);
      return SUCCESS;
    }

    /** Takes a block of `size` from the free block at `foundSeg`. */
    method Take(foundSeg: int, size: int, mode: int, ghost k: nat) returns (para: int)
      requires Valid() && k < |blocks| && blocks[k].para == foundSeg && Fits(blocks[k], size) && size >= 0
               && cuPsp != FREE_PSP
      modifies `blocks, mem
      ensures Valid() && blocks == Carved(old(blocks), k, mode, size, cuPsp)
      ensures para == TakenPara(old(blocks)[k], mode, size) && OnlyIn(old(mem[..]), mem[..], old(blocks)[k])
    {
      hide Good, Carved, OnlyIn;
      Header(k);
      SplitGood(mem[..], blocks, first, end, k, mode, size, cuPsp);
      ghost var m, b := mem[..], blocks[k];
      para := foundSeg;
      if mode != LARGEST && size != mem[foundSeg].size {
        if LastFit(mode) {
          mem[foundSeg] := mem[foundSeg].(size := mem[foundSeg].size - (size + 1));
          para := foundSeg + mem[foundSeg].size + 1;
          mem[para] := mem[para].(mtype := mem[foundSeg].mtype);
          mem[foundSeg] := mem[foundSeg].(mtype := MCB_NORMAL);
          mem[foundSeg] := mem[foundSeg].(psp := FREE_PSP);
        } else {
          var p := foundSeg + size + 1;
          mem[p] := mem[p].(mtype := mem[foundSeg].mtype, size := mem[foundSeg].size - size - 1);
          mem[foundSeg] := mem[foundSeg].(mtype := MCB_NORMAL);
          mem[p] := mem[p].(psp := FREE_PSP);
        }
        mem[para] := mem[para].(size := size);
      }
      mem[para] := mem[para].(psp := cuPsp);
      blocks := Carved(blocks, k, mode, size, cuPsp);
      assert mem[..] == SplitMcbs(m, b, mode, size, cuPsp);
    }

    /** The search so far: the blocks before `i` are merged, `foundSeg` and `biggestSeg` are the choices among
        them, and nobody's memory has been touched. */
    ghost predicate Scanning(m0: seq<Mcb>, bs0: Blocks, i: nat, mode: int, size: int,
                             foundSeg: int, fi: int, biggestSeg: int, bi: int)
      reads `blocks, mem
    {
      && Valid() && i <= |blocks| && Merged(blocks) == Merged(bs0) && Kept(m0, mem[..], Live(bs0))
      && IsMerged(blocks[..i]) && (0 < i < |blocks| ==> !(blocks[i - 1].Free() && blocks[i].Free()))
      && IsSeg(blocks, fi, foundSeg) && fi < i && IsSeg(blocks, bi, biggestSeg) && bi < i
      && (if mode == LARGEST then fi == -1 else Choice(blocks[..i], fi, mode, size))
      && Choice(blocks[..i], bi, LARGEST, 0)
    }

    /** A free block is joined with those that follow and weighed against the choices so far. */
    method Consider(p: int, size: int, mode: int, foundSeg0: int, biggestSeg0: int,
                    ghost m0: seq<Mcb>, ghost bs0: Blocks, ghost i: nat, ghost fi0: int, ghost bi0: int)
      returns (r: int, foundSeg: int, biggestSeg: int, stop: bool, ghost fi: int, ghost bi: int)
      requires Scanning(m0, bs0, i, mode, size, foundSeg0, fi0, biggestSeg0, bi0) && i < |blocks| && size >= 0
      requires blocks[i].para == p && blocks[i].Free()
      requires FirstFit(mode) ==> fi0 == -1
      modifies `blocks, mem
      ensures r == SUCCESS && Scanning(m0, bs0, i + 1, mode, size, foundSeg, fi, biggestSeg, bi) && blocks[i].para == p
      ensures |blocks| <= |old(blocks)|
      ensures stop ==> FirstFit(mode) && fi == i
      ensures !stop && FirstFit(mode) ==> fi == -1
    {
      hide Good, JoinAll, OnlyFree, Kept, Merged, IsMerged, Live, Choice, Chained;
      foundSeg, biggestSeg, stop, fi, bi := foundSeg0, biggestSeg0, false, fi0, bi0;
      ghost var m1, bs1 := mem[..], blocks;
      r := JoinMCBs(p, i);
      JoinedScan(m0, m1, mem[..], bs0, bs1, first, end, i);
      Header(i);
      ghost var b := blocks[i];
      if mode != LARGEST {
        ScanChoice(blocks, i, mode, size, fi0);
      }
      ScanChoice(blocks, i, LARGEST, 0, bi0);
      SegRead(blocks, mem[..], first, end, fi0);
      SegRead(blocks, mem[..], first, end, bi0);
      if biggestSeg == 0 || mem[biggestSeg].size < mem[p].size {
        biggestSeg, bi := p, i;
      }
      if mem[p].size >= size {
        if mode == LARGEST {
        } else if BestFit(mode) {
          if foundSeg == 0 || mem[foundSeg].size > mem[p].size {
            foundSeg, fi := p, i;
          }
        } else {
          foundSeg, fi := p, i;
          stop := FirstFit(mode);
        }
      }
    }

    /** A block in use is passed over. */
    lemma PassUsed(m0: seq<Mcb>, bs0: Blocks, i: nat, mode: int, size: int, foundSeg: int, fi: int, biggestSeg: int,
                   bi: int)
      requires Scanning(m0, bs0, i, mode, size, foundSeg, fi, biggestSeg, bi) && i < |blocks| && !blocks[i].Free()
      ensures Scanning(m0, bs0, i + 1, mode, size, foundSeg, fi, biggestSeg, bi)
    {
      hide Good, Kept, Merged, IsMerged, Live, Choice, Chained;
      if mode != LARGEST {
        ScanChoice(blocks, i, mode, size, fi);
      }
      ScanChoice(blocks, i, LARGEST, 0, bi);
      IsMergedJoin(blocks[..i], [blocks[i]]);
      OneMerged(blocks[i]);
    }

    /** Allocates `size` paragraphs, or with LARGEST the largest run if it has that many.  `asize` is what is
        stored for the caller. */
    method DosMemAlloc(size: int, mode: int) returns (r: int, para: int, asize: Option<int>)
      requires Valid() && 0 <= size <= 0xffff && cuPsp != FREE_PSP
      modifies `blocks, mem
      ensures Valid() && Kept(old(mem[..]), mem[..], Live(old(blocks)))
      ensures r == SUCCESS || r == DE_NOMEM
      ensures r == SUCCESS ==> exists k: nat :: Granted(Merged(old(blocks)), k, mode, size, cuPsp, Merged(blocks),
              para, asize)
      ensures r == DE_NOMEM ==> Merged(blocks) == Merged(old(blocks)) && asize == Some(LargestRun(Merged(old(blocks))))
      ensures r == DE_NOMEM <==> forall k: nat :: !Grantable(Merged(old(blocks)), k, mode, size)
    {
      hide Good, Kept, Merged, IsMerged, Live, Choice, Chosen, Chained, Carved, LargestRun;
      ghost var m0, bs0 := mem[..], blocks;
      var p, foundSeg, biggestSeg, stop := first, 0, 0, false;
      ghost var i, fi, bi := 0, -1, -1;
      ScanStart(mem[..], blocks, first, end, mode, size);
      while true
        invariant i < |blocks| && blocks[i].para == p && (FirstFit(mode) ==> fi == -1)
        invariant Scanning(m0, bs0, i, mode, size, foundSeg, fi, biggestSeg, bi)
        decreases |blocks| - i
      {
        Header(i);
        if !McbValid(mem[p]) {
          return DE_MCBDESTRY, 0, None;
        }
        if mem[p].psp == FREE_PSP {
          var joined;
          joined, foundSeg, biggestSeg, stop, fi, bi :=
            Consider(p, size, mode, foundSeg, biggestSeg, m0, bs0, i, fi, bi);
          if joined != SUCCESS {
            return DE_MCBDESTRY, 0, None;
          }
          if stop {
            break;
          }
        } else {
          PassUsed(m0, bs0, i, mode, size, foundSeg, fi, biggestSeg, bi);
        }
        Header(i);
        if mem[p].mtype == MCB_LAST {
          break;
        }
        p := p + mem[p].size + 1;
        i := i + 1;
      }
      asize := None;
      ghost var m1, bs1 := mem[..], blocks;
      SegRead(blocks, mem[..], first, end, bi);
      SegRead(blocks, mem[..], first, end, fi);
      if !stop {
        ScanEnd(blocks, i, first, end, mem[..]);
        ScanAll(blocks, mode, size, fi, bi);
        if mode == LARGEST && biggestSeg != 0 && mem[biggestSeg].size >= size {
          foundSeg, fi := biggestSeg, bi;
          asize := Some(mem[foundSeg].size);
        }
        if foundSeg == 0 || mem[foundSeg].size == 0 {
          asize := Some(if biggestSeg != 0 then mem[biggestSeg].size else 0);
          return DE_NOMEM, 0, asize;
        }
      } else {
        ScanStop(blocks, i, mode, size);
      }
      GrantableFits(Merged(blocks), fi, mode, size);
      para := Take(foundSeg, size, mode, fi);
      TakenIs(m0, m1, mem[..], bs0, bs1, blocks, first, end, fi, mode, size, cuPsp);
      assert Granted(Merged(bs0), fi, mode, size, cuPsp, Merged(blocks), para, asize);
      return SUCCESS, para, asize;
    }

    /** Marks the block at `para` free.  Elsewhere in memory, what looks like a control block is marked. */
    method DosMemFree(para: int) returns (r: int)
      requires Valid() && 0 <= para < mem.Length
      modifies `blocks, mem
      ensures Valid()
      ensures r == if para == 0 || !McbFreeable(old(mem[para])) then DE_INVLDMCB else SUCCESS
      ensures mem[..] == if r == SUCCESS then old(mem[..])[para := old(mem[para]).(psp := FREE_PSP)] else old(mem[..])
      ensures blocks == if r == SUCCESS then FreedBlocks(old(blocks), para) else old(blocks)
      ensures forall i :: 0 <= i < |old(blocks)| && old(blocks)[i].para == para ==>
                r == SUCCESS && blocks == old(blocks)[i := old(blocks)[i].(psp := FREE_PSP)]
      ensures (forall i :: 0 <= i < |old(blocks)| ==> old(blocks)[i].para != para) ==> blocks == old(blocks)
    {
      hide Good;
      FreedGood(mem[..], blocks, first, end, para);
      if para == 0 {
        return DE_INVLDMCB;
      }
      if !McbFreeable(mem[para]) {
        return DE_INVLDMCB;
      }
      blocks := FreedBlocks(blocks, para);
      if mem[para].psp == FREE_PSP {
        assert mem[..] == mem[..][para := mem[para].(psp := FREE_PSP)];
        return SUCCESS;
      }
      mem[para] := mem[para].(psp := FREE_PSP);
      assert mem[..] == old(mem[..])[para := old(mem[para]).(psp := FREE_PSP)];
      return SUCCESS;
    }

    /** Cuts the block at `p` to `size` and joins what is left with what is free behind it. */
    method Shrink(p: int, size: int, ghost i: nat) returns (r: int)
      requires Valid() && i < |blocks| && blocks[i].para == p && 0 <= size < blocks[i].size
      modifies `blocks, mem
      ensures Valid() && r == SUCCESS
      ensures blocks == Changed(old(blocks), i, size, old(blocks)[i].psp)
      ensures Same(old(mem[..]), mem[..], Others(old(blocks), i), p, size)
    {
      hide Good, JoinAll, Changed, OnlyFree, Same, Others;
      ghost var m0, a := mem[..], blocks;
      Header(i);
      CutGood(mem[..], blocks, first, end, i, size);
      var q := p + size + 1;
      mem[q] := mem[q].(size := mem[p].size - size - 1);
      mem[q] := mem[q].(mtype := mem[p].mtype);
      mem[p] := mem[p].(size := size);
      mem[p] := mem[p].(mtype := MCB_NORMAL);
      mem[q] := mem[q].(psp := FREE_PSP);
      blocks := Cut(blocks, i, size);
      assert mem[..] == CutMcbs(m0, a[i], size);
      ghost var m1, s := mem[..], blocks;
      r := JoinMCBs(q, i + 1);
      JoinKeeps(m1, mem[..], s, first, end, i, i + 1, size);
      RoomIs(m0, a, first, end, i);
      CutChanged(a, i, size);
      SameMore(m0, m1, mem[..], Others(a, i), p, size, size);
    }

    /** Resizes the block at `para - 1`, which the calling process then owns; for `i` past the last block, what is
        there is no control block.  A block that cannot have `size` paragraphs gets all there are behind it. */
    method DosMemChange(para: int, size: int, ghost i: nat) returns (r: int, maxSize: Option<int>)
      requires Valid() && 0 < para <= mem.Length && 0 <= size <= 0xffff && cuPsp != FREE_PSP
      requires if i < |blocks| then blocks[i].para == para - 1 else !McbValid(mem[para - 1])
      modifies `blocks, mem
      ensures Valid()
      ensures i >= |old(blocks)| ==> r == DE_INVLDMCB && blocks == old(blocks) && mem[..] == old(mem[..])
      ensures i < |old(blocks)| && size <= Room(old(blocks), i) ==>
                r == SUCCESS && maxSize == None && blocks == Changed(old(blocks), i, size, cuPsp)
      ensures i < |old(blocks)| && Room(old(blocks), i) < size ==>
                r == DE_NOMEM && maxSize == Some(Room(old(blocks), i))
                && blocks == Changed(old(blocks), i, Room(old(blocks), i), old(blocks)[i].psp)
      ensures i < |old(blocks)| ==>
                Same(old(mem[..]), mem[..], Others(old(blocks), i), para - 1, Min(size, old(blocks)[i].size))
    {
      hide Good, JoinAll, Changed, OnlyFree, Same, Others, Behind, Room;
      ghost var m0, a := mem[..], blocks;
      var p := para - 1;
      maxSize := None;
      if !McbValid(mem[p]) {
        NotBlock(mem[..], blocks, first, end, i, p);
        return DE_INVLDMCB, maxSize;
      }
      Header(i);
      RoomIs(m0, a, first, end, i);
      SameStart(m0, Others(a, i), p, Min(size, a[i].size));
      if size > mem[p].size {
        r := JoinMCBs(p, i);
        JoinKeeps(m0, mem[..], a, first, end, i, i, Min(size, a[i].size));
        JoinChanged(a, i);
        Header(i);
        if r != SUCCESS {
          return DE_MCBDESTRY, maxSize;
        }
        if size > mem[p].size {
          return DE_NOMEM, Some(mem[p].size);
        }
      }
      ghost var m1, c := mem[..], blocks;
      if size < mem[p].size {
        r := Shrink(p, size, i);
        SameMore(m0, m1, mem[..], Others(a, i), p, Min(size, a[i].size), size);
      }
      ChangedTo(a, c, i, size, cuPsp);
      OwnerSame(m0, mem[..], a, first, end, i, Min(size, a[i].size), cuPsp);
      SetOwner(p, i);
      return SUCCESS, maxSize;
    }

    /** `p->m_psp = cu_psp` */
    method SetOwner(p: int, ghost i: nat)
      requires Valid() && i < |blocks| && blocks[i].para == p && 0 <= p < mem.Length
      modifies `blocks, mem
      ensures Valid() && blocks == old(blocks)[i := old(blocks)[i].(psp := cuPsp)]
      ensures mem[..] == old(mem[..])[p := old(mem[p]).(psp := cuPsp)]
    {
      hide Good;
      OwnerGood(mem[..], blocks, first, end, i, cuPsp);
      mem[p] := mem[p].(psp := cuPsp);
      blocks := blocks[i := blocks[i].(psp := cuPsp)];
    }
  }

  // ---------- what is kept ----------

  /** No paragraph of a block in use has been written. */
  ghost predicate Kept(m: seq<Mcb>, m': seq<Mcb>, live: set<Blk>) {
    |m'| == |m| && forall x :: 0 <= x < |m| && Owned(live, x) ==> m'[x] == m[x]
  }

  lemma OnlyFreeKept(m: seq<Mcb>, m': seq<Mcb>, bs: Blocks, lo: int, hi: int, i: nat)
    requires Chained(bs, lo, hi) && i < |bs| && bs[i].Free() && OnlyFree(m, m', bs, bs[i].para)
    ensures Kept(m, m', Live(bs))
  {
    hide Chained, Live, Owned;
    ParaIs(bs, lo, hi, i);
    FreeNotOwned(bs, lo, hi, i, bs[i].para);
    forall x | 0 <= x < |m| && Owned(Live(bs), x) ensures m'[x] == m[x] {
      if m'[x] != m[x] {
        var b :| b in bs && b.Free() && b.para == x;
        var k :| 0 <= k < |bs| && bs[k] == b;
        ParaIs(bs, lo, hi, k);
        FreeNotOwned(bs, lo, hi, k, x);
      }
    }
  }

  /** Only paragraphs of free block `i` have been written. */
  ghost predicate OnlyIn(m: seq<Mcb>, m': seq<Mcb>, b: Blk) {
    |m'| == |m| && forall x :: 0 <= x < |m| && !In(x, b) ==> m'[x] == m[x]
  }

  lemma OnlyInKept(m: seq<Mcb>, m': seq<Mcb>, bs: Blocks, lo: int, hi: int, i: nat)
    requires Chained(bs, lo, hi) && i < |bs| && bs[i].Free() && OnlyIn(m, m', bs[i])
    ensures Kept(m, m', Live(bs))
  {
    hide Chained, Live;
    forall x | 0 <= x < |m| && Owned(Live(bs), x) ensures m'[x] == m[x] {
      if In(x, bs[i]) {
        FreeNotOwned(bs, lo, hi, i, x);
      }
    }
  }

  // ---------- taking a block from a run ----------

  /** The memory after a block of `size` has been taken from the run at `p`. */
  function SplitMcbs(m: seq<Mcb>, b: Blk, mode: int, size: int, psp: int): seq<Mcb>
    requires 0 <= b.para && 0 <= size <= b.size && b.para + b.size < |m|
  {
    var h := m[b.para];
    if mode == LARGEST || size == b.size then m[b.para := h.(psp := psp)]
    else if LastFit(mode) then
      m[b.para := Mcb(MCB_NORMAL, FREE_PSP, h.size - size - 1)][b.para + b.size - size := Mcb(h.mtype, psp, size)]
    else
      m[b.para := Mcb(MCB_NORMAL, psp, size)][b.para + size + 1 := Mcb(h.mtype, FREE_PSP, h.size - size - 1)]
  }

  lemma SplitGood(m: seq<Mcb>, bs: Blocks, lo: int, hi: int, k: nat, mode: int, size: int, psp: int)
    requires Good(m, bs, lo, hi) && k < |bs| && Fits(bs[k], size) && size >= 0 && psp != FREE_PSP
    ensures 0 <= bs[k].para && bs[k].para + bs[k].size < |m|
    ensures Good(SplitMcbs(m, bs[k], mode, size, psp), Carved(bs, k, mode, size, psp), lo, hi)
    ensures OnlyIn(m, SplitMcbs(m, bs[k], mode, size, psp), bs[k])
  {
    hide Chained, Live;
    HeaderIs(m, bs, lo, hi, k);
    SplitIs(bs[k], mode, size, psp);
    var ms, m' := Split(bs[k], mode, size, psp), SplitMcbs(m, bs[k], mode, size, psp);
    Rewritten(m, m', bs, k, k + 1, ms, lo, hi);
  }

  /** The blocks after `i` are blocks there were before, with their control blocks where they were. */
  ghost predicate StillFree(bs0: Blocks, bs: Blocks, i: nat) {
    forall k :: i < k < |bs| ==> bs[k] in bs0
  }

  lemma Untouched(m: seq<Mcb>, bs: Blocks, para: int, i: nat)
    requires i < |bs|
    ensures OnlyFree(m, m, bs, para) && StillFree(bs, bs, i)
  {}

  lemma NextFree(m0: seq<Mcb>, m: seq<Mcb>, bs0: Blocks, bs: Blocks, i: nat)
    requires StillFree(bs0, bs, i) && i + 1 < |bs| && bs[i + 1].Free() && OnlyFree(m0, m, bs0, bs[i].para)
    ensures StillFree(bs0, Joined(bs, i), i) && Joined(bs, i)[i].para == bs[i].para && |Joined(bs, i)| == |bs| - 1
    ensures 0 <= bs[i].para < |m| && 0 <= bs[i + 1].para < |m| ==>
              OnlyFree(m0, JoinedMcbs(m, bs[i].para, bs[i + 1].para), bs0, bs[i].para)
  {
    var js := Joined(bs, i);
    forall k | i < k < |js| ensures js[k] in bs0 {
      assert js[k] == js[i + 1..][k - i - 1] == bs[k + 1];
    }
  }

  // ---------- the search ----------

  /** `seg` is the control block of block `k`, or null for none. */
  ghost predicate IsSeg(bs: Blocks, k: int, seg: int) {
    if k == -1 then seg == 0 else 0 <= k < |bs| && bs[k].para == seg
  }

  lemma SegRead(bs: Blocks, m: seq<Mcb>, lo: int, hi: int, k: int)
    requires Good(m, bs, lo, hi) && k < |bs|
    ensures 0 <= k ==> 0 < bs[k].para < |m| && m[bs[k].para].size == bs[k].size
  {
    if 0 <= k {
      HeaderIs(m, bs, lo, hi, k);
    }
  }

  /** Joining at `i` keeps what has been scanned, and puts a block in use, or none, behind it. */
  lemma JoinedScan(m0: seq<Mcb>, m1: seq<Mcb>, m2: seq<Mcb>, bs0: Blocks, bs1: Blocks, lo: int, hi: int, i: nat)
    requires Good(m1, bs1, lo, hi) && i < |bs1| && bs1[i].Free() && Merged(bs1) == Merged(bs0)
    requires IsMerged(bs1[..i]) && (i > 0 ==> !(bs1[i - 1].Free() && bs1[i].Free()))
    requires Kept(m0, m1, Live(bs0)) && OnlyFree(m1, m2, bs1, bs1[i].para)
    ensures var bs2 := JoinAll(bs1, i);
      && i < |bs2| && bs2[..i] == bs1[..i] && bs2[i].para == bs1[i].para && bs2[i].Free()
      && Merged(bs2) == Merged(bs0) && Kept(m0, m2, Live(bs0)) && IsMerged(bs2[..i + 1])
      && (i + 1 < |bs2| ==> !bs2[i + 1].Free())
      && bs2[i].size >= bs1[i].size && |bs2| <= |bs1|
  {
    hide Chained, Merged, IsMerged, Live, OnlyFree, Owned;
    JoinAllIs(bs1, i, lo, hi);
    var bs2 := JoinAll(bs1, i);
    OnlyFreeKept(m1, m2, bs1, lo, hi, i);
    LiveMerged(bs0);
    LiveMerged(bs1);
    assert bs2[..i + 1] == bs1[..i] + [bs2[i]];
    IsMergedJoin(bs1[..i], [bs2[i]]);
    assert i > 0 ==> bs1[..i][i - 1] == bs1[i - 1];
    OneMerged(bs2[i]);
  }

  lemma OneMerged(b: Blk)
    ensures IsMerged([b])
  {}

  lemma ScanChoice(bs: Blocks, i: nat, mode: int, size: int, k: int)
    requires i < |bs| && Choice(bs[..i], k, mode, size)
    ensures bs[..i + 1] == bs[..i] + [bs[i]]
    ensures Choice(bs[..i + 1], ChooseNext(bs[..i], bs[i], mode, size, k), mode, size)
  {
    ChooseMore(bs[..i], bs[i], mode, size, k);
    assert bs[..i + 1] == bs[..i] + [bs[i]];
  }

  /** The largest free run. */
  function LargestRun(ms: Blocks): int {
    if ms == [] then 0 else
      var rest := LargestRun(ms[1..]);
      if ms[0].Free() && ms[0].size > rest then ms[0].size else rest
  }

  /** Run `k` of the merged blocks is what a request is to be met from.  A run of no paragraphs is taken by first
      fit only. */
  ghost predicate Grantable(ms: Blocks, k: nat, mode: int, size: int) {
    Chosen(ms, k, mode, size) && (FirstFit(mode) || ms[k].size > 0)
  }

  ghost predicate Granted(ms: Blocks, k: nat, mode: int, size: int, psp: int, ms': Blocks, para: int,
                          asize: Option<int>) {
    && Grantable(ms, k, mode, size) && ms' == Carved(ms, k, mode, size, psp) && para == TakenPara(ms[k], mode, size)
    && asize == if mode == LARGEST then Some(ms[k].size) else None
  }

  lemma ScanStart(m: seq<Mcb>, bs: Blocks, lo: int, hi: int, mode: int, size: int)
    requires Good(m, bs, lo, hi)
    ensures bs != [] && bs[0].para == lo && Kept(m, m, Live(bs)) && IsMerged(bs[..0])
    ensures Choice(bs[..0], -1, mode, size) && Choice(bs[..0], -1, LARGEST, 0)
  {}

  /** Only one block is the choice. */
  lemma ChosenOnce(ms: Blocks, k: int, k': int, mode: int, size: int)
    requires Chosen(ms, k, mode, size) && Chosen(ms, k', mode, size)
    ensures k == k'
  {}

  /** What the search comes to when it has seen all blocks: the choice, or that nothing can be granted. */
  lemma ScanAll(bs: Blocks, mode: int, size: int, fi: int, bi: int)
    requires IsMerged(bs) && size >= 0 && (forall j :: 0 <= j < |bs| ==> bs[j].size >= 0)
    requires if mode == LARGEST then fi == -1 else Choice(bs, fi, mode, size)
    requires Choice(bs, bi, LARGEST, 0) && (FirstFit(mode) ==> fi == -1)
    ensures Merged(bs) == bs
    ensures LargestRun(bs) == if bi == -1 then 0 else bs[bi].size
    ensures bi >= 0 ==> bi < |bs|
    ensures var k := if mode == LARGEST && bi != -1 && bs[bi].size >= size then bi else fi;
      if k != -1 && bs[k].size > 0 then Grantable(bs, k, mode, size) && Scanned(bs, k)
      else forall x: nat :: !Grantable(bs, x, mode, size)
  {
    hide IsMerged, Merged;
    MergedAlready(bs);
    LargestIs(bs, bi);
    var k := if mode == LARGEST && bi != -1 && bs[bi].size >= size then bi else fi;
    if k != -1 {
      assert Chosen(bs, k, mode, size);
      forall x: nat | Grantable(bs, x, mode, size) ensures x == k {
        ChosenOnce(bs, k, x, mode, size);
      }
      AllScanned(bs, k);
    }
  }

  lemma AllScanned(bs: Blocks, k: nat)
    requires IsMerged(bs) && k < |bs|
    ensures Scanned(bs, k)
  {
    assert bs == bs[..k + 1] + bs[k + 1..];
    IsMergedJoin(bs[..k + 1], bs[k + 1..]);
  }

  lemma {:induction false} LargestIs(ms: Blocks, k: int)
    requires Choice(ms, k, LARGEST, 0) && forall j :: 0 <= j < |ms| ==> ms[j].size >= 0
    ensures LargestRun(ms) == if k == -1 then 0 else ms[k].size
  {
    LargestBound(ms);
  }

  lemma {:induction false} LargestBound(ms: Blocks)
    requires forall j :: 0 <= j < |ms| ==> ms[j].size >= 0
    ensures forall j :: 0 <= j < |ms| && ms[j].Free() ==> ms[j].size <= LargestRun(ms)
    ensures LargestRun(ms) == 0 || exists j :: 0 <= j < |ms| && ms[j].Free() && ms[j].size == LargestRun(ms)
  {
    if ms != [] {
      LargestBound(ms[1..]);
      assert ms == [ms[0]] + ms[1..];
      if j :| 0 <= j < |ms[1..]| && ms[1..][j].Free() && ms[1..][j].size == LargestRun(ms[1..]) {
        assert ms[j + 1] == ms[1..][j];
      }
    }
  }

  /** What the search comes to when first fit stops at block `i`. */
  lemma ScanStop(bs: Blocks, i: nat, mode: int, size: int)
    requires FirstFit(mode) && i < |bs| && Choice(bs[..i + 1], i, mode, size) && Scanned(bs, i)
    ensures Grantable(Merged(bs), i, mode, size) && i < |Merged(bs)| && Merged(bs)[i] == bs[i] && Fits(bs[i], size)
  {
    hide Merged, IsMerged;
    ScannedIs(bs, i);
    var ms := Merged(bs);
    forall j | 0 <= j < i ensures !Fits(ms[j], size) {
      assert ms[j] == ms[..i + 1][j] == bs[..i + 1][j];
    }
    assert Fits(bs[..i + 1][i], size);
  }

  /** The end of a successful allocation. */
  lemma TakenIs(m0: seq<Mcb>, m1: seq<Mcb>, m2: seq<Mcb>, bs0: Blocks, bs1: Blocks, bs2: Blocks, lo: int, hi: int,
                k: nat, mode: int, size: int, psp: int)
    requires Good(m1, bs1, lo, hi) && Merged(bs1) == Merged(bs0) && Kept(m0, m1, Live(bs0))
    requires Scanned(bs1, k) && Fits(bs1[k], size) && size >= 0 && psp != FREE_PSP
    requires bs2 == Carved(bs1, k, mode, size, psp) && OnlyIn(m1, m2, bs1[k])
    ensures k < |Merged(bs0)| && Merged(bs2) == Carved(Merged(bs0), k, mode, size, psp) && Merged(bs0)[k] == bs1[k]
    ensures Kept(m0, m2, Live(bs0))
  {
    hide Merged, Live, Chained, Carved, Headers, Owned, IsMerged;
    CarvedIs(bs1, k, mode, size, psp);
    ScannedIs(bs1, k);
    LiveMerged(bs0);
    LiveMerged(bs1);
    OnlyInKept(m1, m2, bs1, lo, hi, k);
  }

  lemma ScanEnd(bs: Blocks, i: nat, lo: int, hi: int, m: seq<Mcb>)
    requires Good(m, bs, lo, hi) && i + 1 == |bs|
    ensures bs[..i + 1] == bs && forall j :: 0 <= j < |bs| ==> bs[j].size >= 0
  {
    forall j | 0 <= j < |bs| ensures bs[j].size >= 0 {
      ParaIs(bs, lo, hi, j);
    }
  }

  lemma GrantableFits(ms: Blocks, k: nat, mode: int, size: int)
    requires Grantable(ms, k, mode, size)
    ensures k < |ms| && Fits(ms[k], size)
  {}

  // ---------- freeing ----------

  /** The blocks after the block at `para`, if there is one, is marked free. */
  ghost function FreedBlocks(bs: Blocks, para: int): (r: Blocks)
    ensures |r| == |bs|
  {
    seq(|bs|, i requires 0 <= i < |bs| => if bs[i].para == para then bs[i].(psp := FREE_PSP) else bs[i])
  }

  lemma FreedGood(m: seq<Mcb>, bs: Blocks, lo: int, hi: int, para: int)
    requires Good(m, bs, lo, hi) && 0 <= para < |m|
    ensures Good(m[para := m[para].(psp := FREE_PSP)], FreedBlocks(bs, para), lo, hi)
    ensures forall i :: 0 <= i < |bs| && bs[i].para == para ==>
              para != 0 && McbFreeable(m[para]) && FreedBlocks(bs, para) == bs[i := bs[i].(psp := FREE_PSP)]
    ensures (forall i :: 0 <= i < |bs| ==> bs[i].para != para) ==> FreedBlocks(bs, para) == bs
    ensures m[para].psp == FREE_PSP ==> FreedBlocks(bs, para) == bs
  {
    var m', r := m[para := m[para].(psp := FREE_PSP)], FreedBlocks(bs, para);
    FreedChained(bs, lo, hi, para);
    forall i | 0 <= i < |bs| ensures HeaderOk(m', r, i) {
      HeaderIs(m, bs, lo, hi, i);
      assert HeaderOk(m, bs, i);
    }
    forall i | 0 <= i < |bs| && bs[i].para == para
      ensures para != 0 && McbFreeable(m[para]) && r == bs[i := bs[i].(psp := FREE_PSP)]
    {
      HeaderIs(m, bs, lo, hi, i);
      forall j | 0 <= j < |bs| && j != i ensures bs[j].para != para {
        if j < i {
          BlocksApart(bs, lo, hi, j, i);
          ParaIs(bs, lo, hi, j);
        } else {
          BlocksApart(bs, lo, hi, i, j);
          ParaIs(bs, lo, hi, i);
        }
      }
    }
    forall i | 0 <= i < |bs| && bs[i].para == para && m[para].psp == FREE_PSP ensures r[i] == bs[i] {
      HeaderIs(m, bs, lo, hi, i);
    }
  }

  lemma {:induction false} FreedChained(bs: Blocks, lo: int, hi: int, para: int)
    requires Chained(bs, lo, hi)
    ensures Chained(FreedBlocks(bs, para), lo, hi)
  {
    if bs != [] {
      FreedChained(bs[1..], lo + bs[0].size + 1, hi, para);
      assert FreedBlocks(bs, para)[1..] == FreedBlocks(bs[1..], para);
    }
  }

  // ---------- resizing ----------

  /** Neither a paragraph of the blocks `live` nor one of the first `n` behind `p` has been written. */
  ghost predicate Same(m: seq<Mcb>, m': seq<Mcb>, live: set<Blk>, p: int, n: int) {
    Kept(m, m', live) && forall x :: 0 <= x < |m| && p < x <= p + n ==> m'[x] == m[x]
  }

  lemma SameStart(m: seq<Mcb>, live: set<Blk>, p: int, n: int)
    ensures Same(m, m, live, p, n)
  {}

  lemma SameMore(m0: seq<Mcb>, m1: seq<Mcb>, m2: seq<Mcb>, live: set<Blk>, p: int, n: int, n': int)
    requires Same(m0, m1, live, p, n) && n <= n' && Same(m1, m2, live, p, n')
    ensures Same(m0, m2, live, p, n)
  {
    hide Owned;
  }

  /** Joining what is free behind block `i`, or behind a free block next to it, leaves the other blocks and the
      inside of block `i` alone. */
  lemma JoinKeeps(m: seq<Mcb>, m': seq<Mcb>, bs: Blocks, lo: int, hi: int, i: nat, k: nat, n: int)
    requires Good(m, bs, lo, hi) && i < |bs| && k < |bs| && (k == i || (k == i + 1 && bs[k].Free())) && n <= bs[i].size
    requires OnlyFree(m, m', bs, bs[k].para)
    ensures Same(m, m', Others(bs, i), bs[i].para, n)
  {
    hide Chained, Live, Others, Headers, Owned;
    ParaIs(bs, lo, hi, k);
    OthersIs(bs, i);
    forall x | 0 <= x < |m| && Owned(Others(bs, i), x) ensures m'[x] == m[x] {
      if m'[x] != m[x] {
        WrittenNotOwned(m, m', bs, lo, hi, i, k, x);
      }
    }
    forall x | 0 <= x < |m| && bs[i].para < x <= bs[i].para + n ensures m'[x] == m[x] {
      NoHeaderInside(bs, lo, hi, i, x);
      assert bs[k] in bs;
    }
  }

  lemma WrittenNotOwned(m: seq<Mcb>, m': seq<Mcb>, bs: Blocks, lo: int, hi: int, i: nat, k: nat, x: int)
    requires Chained(bs, lo, hi) && i < |bs| && k < |bs| && (k == i || (k == i + 1 && bs[k].Free()))
    requires OnlyFree(m, m', bs, bs[k].para) && 0 <= x < |m| && m'[x] != m[x]
    ensures !Owned(Others(bs, i), x)
  {
    hide Chained, Live, Others;
    OthersIs(bs, i);
    if x == bs[k].para {
      ParaIs(bs, lo, hi, k);
      if k == i {
        NotOthers(bs, lo, hi, i, x);
      } else {
        FreeNotOwned(bs, lo, hi, k, x);
      }
    } else {
      var b :| b in bs && b.Free() && b.para == x;
      var j :| 0 <= j < |bs| && bs[j] == b;
      ParaIs(bs, lo, hi, j);
      FreeNotOwned(bs, lo, hi, j, x);
    }
  }

  /** Block `i` cut to `size`, with the rest as a free block. */
  function Cut(bs: Blocks, i: nat, size: int): Blocks
    requires i < |bs|
  {
    Replaced(bs, i, i + 1, [Blk(bs[i].para, size, bs[i].psp),
      Blk(bs[i].para + size + 1, bs[i].size - size - 1, FREE_PSP)])
  }

  function CutMcbs(m: seq<Mcb>, b: Blk, size: int): seq<Mcb>
    requires 0 <= b.para && 0 <= size < b.size && b.para + b.size < |m|
  {
    var h := m[b.para];
    m[b.para := Mcb(MCB_NORMAL, h.psp, size)][b.para + size + 1 := Mcb(h.mtype, FREE_PSP, h.size - size - 1)]
  }

  lemma CutGood(m: seq<Mcb>, bs: Blocks, lo: int, hi: int, i: nat, size: int)
    requires Good(m, bs, lo, hi) && i < |bs| && 0 <= size < bs[i].size
    ensures 0 <= bs[i].para && bs[i].para + bs[i].size < |m| && i + 1 < |Cut(bs, i, size)|
    ensures Good(CutMcbs(m, bs[i], size), Cut(bs, i, size), lo, hi)
    ensures Cut(bs, i, size)[i].para == bs[i].para && Cut(bs, i, size)[i].size == size
    ensures Cut(bs, i, size)[i + 1].para == bs[i].para + size + 1 && Cut(bs, i, size)[i + 1].Free()
    ensures Same(m, CutMcbs(m, bs[i], size), Others(bs, i), bs[i].para, size)
    ensures Others(Cut(bs, i, size), i) == Others(bs, i)
  {
    hide Chained, Live, Others, Owned;
    HeaderIs(m, bs, lo, hi, i);
    var p, q := Blk(bs[i].para, size, bs[i].psp), Blk(bs[i].para + size + 1, bs[i].size - size - 1, FREE_PSP);
    TwoChained(p, q);
    Rewritten(m, CutMcbs(m, bs[i], size), bs, i, i + 1, [p, q], lo, hi);
    forall x | 0 <= x < |m| && Owned(Others(bs, i), x) ensures CutMcbs(m, bs[i], size)[x] == m[x] {
      if In(x, bs[i]) {
        NotOthers(bs, lo, hi, i, x);
      }
    }
    CutOthers(bs, i, size);
  }

  lemma TwoChained(p: Blk, q: Blk)
    requires p.size >= 0 && q.size >= 0 && q.para == p.para + p.size + 1
    ensures Chained([p, q], p.para, q.para + q.size + 1)
  {
    assert [p, q][1..] == [q] && [q][1..] == [];
  }

  lemma CutOthers(bs: Blocks, i: nat, size: int)
    requires i < |bs|
    ensures Others(Cut(bs, i, size), i) == Others(bs, i)
  {
    hide Live;
    var c := Cut(bs, i, size);
    assert c[..i] == bs[..i] && c[i + 1..] == [c[i + 1]] + bs[i + 1..];
    LiveOne(c[i + 1]);
    LiveJoin([c[i + 1]], bs[i + 1..]);
  }

  /** Joining the rest with what is free behind it gives the block resized. */
  lemma CutRoom(bs: Blocks, i: nat, size: int)
    requires i < |bs|
    ensures var c := Cut(bs, i, size); i + 1 < |c| && Room(c, i + 1) == Room(bs, i) - size - 1
  {
    CutParts(bs, i, size);
  }

  lemma CutChanged(bs: Blocks, i: nat, size: int)
    requires i < |bs| && size < bs[i].size && i + 1 < |Cut(bs, i, size)|
             && (forall k :: 0 <= k < |bs| ==> bs[k].size >= 0)
    ensures JoinAll(Cut(bs, i, size), i + 1) == Changed(bs, i, size, bs[i].psp)
  {
    hide JoinAll, FreeLen, FreeParas, Cut, Behind, Room;
    var c := Cut(bs, i, size);
    CutParts(bs, i, size);
    CutRoom(bs, i, size);
    JoinAllParts(c, i + 1);
    var j := JoinAll(c, i + 1);
    Parts(j, i + 1);
    CutBehind(bs, i, size);
    assert j[..i + 1] == bs[..i] + [c[i]];
    assert bs[..i] + [c[i]] + ([j[i + 1]] + j[i + 2..]) == bs[..i] + [c[i]] + [j[i + 1]] + j[i + 2..];
  }

  lemma CutParts(bs: Blocks, i: nat, size: int)
    requires i < |bs|
    ensures var c := Cut(bs, i, size);
      && i + 1 < |c| && c[..i + 1] == bs[..i] + [c[i]] && c[i] == Blk(bs[i].para, size, bs[i].psp)
      && c[i + 1] == Blk(bs[i].para + size + 1, bs[i].size - size - 1, FREE_PSP) && c[i + 2..] == bs[i + 1..]
  {}

  lemma CutBehind(bs: Blocks, i: nat, size: int)
    requires i < |bs| && size < bs[i].size && (forall k :: 0 <= k < |bs| ==> bs[k].size >= 0)
    ensures Behind(bs, i, size) == [Blk(bs[i].para + size + 1, Room(bs, i) - size - 1, FREE_PSP)]
                                   + bs[i + 1..][FreeLen(bs[i + 1..])..]
  {
    FreeParasUp(bs[i + 1..]);
  }

  lemma {:induction false} FreeParasUp(bs: Blocks)
    requires forall k :: 0 <= k < |bs| ==> bs[k].size >= 0
    ensures FreeParas(bs) >= 0 && (FreeLen(bs) == 0 <==> FreeParas(bs) == 0)
  {
    if bs != [] {
      FreeParasUp(bs[1..]);
    }
  }

  lemma NotBlock(m: seq<Mcb>, bs: Blocks, lo: int, hi: int, i: nat, p: int)
    requires Good(m, bs, lo, hi) && 0 <= p < |m| && (i < |bs| ==> bs[i].para == p)
    ensures i < |bs| ==> McbValid(m[p])
  {
    if i < |bs| {
      HeaderIs(m, bs, lo, hi, i);
    }
  }

  lemma RoomIs(m: seq<Mcb>, bs: Blocks, lo: int, hi: int, i: nat)
    requires Good(m, bs, lo, hi) && i < |bs|
    ensures 0 <= bs[i].size <= Room(bs, i) && forall k :: 0 <= k < |bs| ==> bs[k].size >= 0
  {
    hide Chained;
    forall k | 0 <= k < |bs| ensures bs[k].size >= 0 {
      ParaIs(bs, lo, hi, k);
    }
    FreeParasUp(bs[i + 1..]);
  }

  /** The parts of a row after `joinMCBs`. */
  lemma JoinAllParts(bs: Blocks, i: nat)
    requires i < |bs|
    ensures var c, rest := JoinAll(bs, i), bs[i + 1..];
      var w := rest[FreeLen(rest)..];
      && i < |c| && c[..i] == bs[..i] && c[i] == Blk(bs[i].para, Room(bs, i), bs[i].psp) && c[i + 1..] == w
      && FreeLen(w) == 0 && FreeParas(w) == 0
  {
    hide JoinAll, FreeParas;
    JoinAllShape(bs, i);
    var rest := bs[i + 1..];
    NoRun(rest[FreeLen(rest)..]);
  }

  lemma NoRun(bs: Blocks)
    requires bs == [] || !bs[0].Free()
    ensures FreeLen(bs) == 0 && FreeParas(bs) == 0
  {}

  lemma BehindIs(bs: Blocks, i: nat, size: int)
    requires i < |bs| && bs[i].size < size <= Room(bs, i)
    ensures var rest := bs[i + 1..];
      Behind(bs, i, size)
      == (if size < Room(bs, i) then [Blk(bs[i].para + size + 1, Room(bs, i) - size - 1, FREE_PSP)] else [])
                             + rest[FreeLen(rest)..]
  {}

  lemma BehindRoom(bs: Blocks, i: nat)
    requires i < |bs| && forall k :: 0 <= k < |bs| ==> bs[k].size >= 0
    ensures Behind(bs, i, Room(bs, i)) == bs[i + 1..][FreeLen(bs[i + 1..])..]
  {
    var rest := bs[i + 1..];
    FreeParasUp(rest);
    assert rest[0..] == rest;
    assert [] + rest[FreeLen(rest)..] == rest[FreeLen(rest)..];
  }

  /** Joining what is free behind a block gives it its room. */
  lemma JoinChanged(bs: Blocks, i: nat)
    requires i < |bs| && forall k :: 0 <= k < |bs| ==> bs[k].size >= 0
    ensures var c := JoinAll(bs, i);
      && c == Changed(bs, i, Room(bs, i), bs[i].psp)
      && i < |c| && c[i] == Blk(bs[i].para, Room(bs, i), bs[i].psp) && Others(c, i) == Others(bs, i)
  {
    hide JoinAll, Live, Behind, Room, FreeLen;
    JoinAllParts(bs, i);
    BehindRoom(bs, i);
    LiveRun(bs[i + 1..]);
    Parts(JoinAll(bs, i), i);
  }

  lemma Parts(bs: Blocks, i: nat)
    requires i < |bs|
    ensures bs == bs[..i] + [bs[i]] + bs[i + 1..]
  {}

  lemma JoinedChanged(bs: Blocks, i: nat, size: int, psp: int)
    requires i < |bs| && bs[i].size < size <= Room(bs, i)
    ensures var c := JoinAll(bs, i); i < |c| && Changed(c, i, size, psp) == Changed(bs, i, size, psp)
  {
    hide JoinAll, FreeLen, FreeParas, Behind, Room;
    JoinAllParts(bs, i);
    BehindIs(bs, i, size);
    JoinedBehind(JoinAll(bs, i), i, size);
  }

  lemma JoinedBehind(c: Blocks, i: nat, size: int)
    requires i < |c| && size <= c[i].size && FreeLen(c[i + 1..]) == 0 && FreeParas(c[i + 1..]) == 0
    ensures Behind(c, i, size)
         == (if size < c[i].size then [Blk(c[i].para + size + 1, c[i].size - size - 1, FREE_PSP)] else []) + c[i + 1..]
  {
    hide FreeLen, FreeParas;
    assert c[i + 1..][0..] == c[i + 1..];
    assert [] + c[i + 1..] == c[i + 1..];
  }

  /** The block that has got its size and its owner. */
  lemma ChangedTo(a: Blocks, c: Blocks, i: nat, size: int, psp: int)
    requires i < |a| && (forall k :: 0 <= k < |a| ==> a[k].size >= 0)
    requires if size <= a[i].size then c == a else c == JoinAll(a, i) && size <= Room(a, i)
    ensures i < |c| && size <= c[i].size
    ensures var d := if size < c[i].size then Changed(c, i, size, c[i].psp) else c;
      i < |d| && d[i].para == a[i].para && d[i := d[i].(psp := psp)] == Changed(a, i, size, psp)
  {
    hide JoinAll, Live, Room, Behind;
    if size > a[i].size {
      JoinChanged(a, i);
      JoinedChanged(a, i, size, psp);
    }
    if size == c[i].size {
      WholeBehind(c, i);
    }
  }

  lemma WholeBehind(bs: Blocks, i: nat)
    requires i < |bs|
    ensures Behind(bs, i, bs[i].size) == bs[i + 1..]
  {}

  lemma OwnerGood(m: seq<Mcb>, bs: Blocks, lo: int, hi: int, i: nat, psp: int)
    requires Good(m, bs, lo, hi) && i < |bs|
    ensures 0 <= bs[i].para < |m|
    ensures Good(m[bs[i].para := m[bs[i].para].(psp := psp)], bs[i := bs[i].(psp := psp)], lo, hi)
  {
    hide Chained;
    HeaderIs(m, bs, lo, hi, i);
    var b := bs[i].(psp := psp);
    OneChained(b);
    Rewritten(m, m[b.para := m[b.para].(psp := psp)], bs, i, i + 1, [b], lo, hi);
    assert Replaced(bs, i, i + 1, [b]) == bs[i := b];
  }

  lemma OwnerSame(m0: seq<Mcb>, m: seq<Mcb>, bs: Blocks, lo: int, hi: int, i: nat, n: int, psp: int)
    requires Good(m0, bs, lo, hi) && i < |bs| && Same(m0, m, Others(bs, i), bs[i].para, n)
    ensures 0 <= bs[i].para < |m|
    ensures Same(m0, m[bs[i].para := m[bs[i].para].(psp := psp)], Others(bs, i), bs[i].para, n)
  {
    hide Chained, Live, Others;
    HeaderIs(m0, bs, lo, hi, i);
    NotOthers(bs, lo, hi, i, bs[i].para);
  }

  // ---------- what callers rely on ----------

  /** A granted request adds just the new block to those in use, apart from all of them. */
  lemma GrantedLive(bs: Blocks, bs': Blocks, lo: int, hi: int, k: nat, mode: int, size: int, psp: int, para: int,
                    asize: Option<int>)
    requires Chained(bs, lo, hi) && size >= 0 && psp != FREE_PSP
    requires Granted(Merged(bs), k, mode, size, psp, Merged(bs'), para, asize)
    ensures var b := Blk(para, if mode == LARGEST then Merged(bs)[k].size else size, psp);
      && Live(bs') == Live(bs) + {b} && b.size >= size
      && forall x :: In(x, b) ==> !Owned(Live(bs), x)
  {
    hide Chained, Live, Merged, IsMerged;
    MergedIs(bs, lo, hi);
    LiveMerged(bs);
    LiveMerged(bs');
    CarvedLive(Merged(bs), k, mode, size, psp);
    var b := Blk(para, if mode == LARGEST then Merged(bs)[k].size else size, psp);
    forall x | In(x, b) ensures !Owned(Live(bs), x) {
      FreeNotOwned(Merged(bs), lo, hi, k, x);
    }
  }

  /** A request for at least one paragraph can be granted just if some merged run fits. */
  lemma GrantableIff(ms: Blocks, mode: int, size: int)
    requires size > 0
    ensures (exists k: nat :: Grantable(ms, k, mode, size)) <==> exists j :: 0 <= j < |ms| && Fits(ms[j], size)
  {
    hide Chosen;
    ChoiceExists(ms, mode, size);
    if k :| Chosen(ms, k, mode, size) {
      ChosenFits(ms, k, mode, size);
      var n: nat := k;
      assert Grantable(ms, n, mode, size);
    }
    if n: nat :| Grantable(ms, n, mode, size) {
      assert Chosen(ms, n, mode, size);
    }
  }

  lemma ChosenFits(ms: Blocks, k: int, mode: int, size: int)
    requires Chosen(ms, k, mode, size)
    ensures 0 <= k < |ms| && Fits(ms[k], size)
  {}

  /** A request for none differs.  First fit meets it from any free run; the largest run, the smallest one or the last
      one does only if it has paragraphs, even if others have. */
  ghost predicate MeetsNone(ms: Blocks, mode: int) {
    if FirstFit(mode) then exists j :: 0 <= j < |ms| && ms[j].Free()
    else if mode == LARGEST then exists j :: 0 <= j < |ms| && ms[j].Free() && ms[j].size > 0
    else if BestFit(mode) then
      (exists j :: 0 <= j < |ms| && ms[j].Free()) && forall j :: 0 <= j < |ms| && ms[j].Free() ==> ms[j].size > 0
    else exists j :: 0 <= j < |ms| && ms[j].Free() && ms[j].size > 0 && forall i :: j < i < |ms| ==> !ms[i].Free()
  }

  lemma NothingFromNothing(ms: Blocks, mode: int)
    requires forall j :: 0 <= j < |ms| ==> ms[j].size >= 0
    ensures (exists k: nat :: Grantable(ms, k, mode, 0)) <==> MeetsNone(ms, mode)
  {
    ChoiceExists(ms, mode, 0);
    if k :| Chosen(ms, k, mode, 0) {
      var n: nat := k;
      assert Fits(ms[n], 0);
      assert forall m: nat :: Grantable(ms, m, mode, 0) ==> m == n;
      assert (exists m: nat :: Grantable(ms, m, mode, 0)) <==> Grantable(ms, n, mode, 0);
      assert forall j :: 0 <= j < |ms| ==> Fits(ms[j], 0) == ms[j].Free();
    } else {
      assert forall j :: 0 <= j < |ms| ==> !Fits(ms[j], 0);
    }
  }

  function Paras(bs: Blocks): int {
    if bs == [] then 0 else bs[0].size + 1 + Paras(bs[1..])
  }

  /** Control blocks and paragraphs together always come to the size of the arena. */
  lemma {:induction false} ParasAccounted(bs: Blocks, lo: int, hi: int)
    requires Chained(bs, lo, hi)
    ensures Paras(bs) == hi - lo
  {
    if bs != [] {
      ParasAccounted(bs[1..], lo + bs[0].size + 1, hi);
    }
  }

  // ---------- runs ----------

  datatype State = State(blocks: Blocks, mem: seq<Mcb>)

  datatype Op = Alloc(size: int, mode: int, psp: int) | Free(para: int) | Change(para: int, size: int, psp: int)

  /** What the routines promise; frees may be of any segment, and resizing one that no valid control block is at does
      nothing. */
  ghost predicate Step(s: State, op: Op, s': State, lo: int, hi: int) {
    && Good(s.mem, s.blocks, lo, hi) && Good(s'.mem, s'.blocks, lo, hi)
    && match op
       case Alloc(size, mode, psp) =>
         && size >= 0 && psp != FREE_PSP && Kept(s.mem, s'.mem, Live(s.blocks))
         && (Merged(s'.blocks) == Merged(s.blocks)
             || exists k: nat, para, asize :: Granted(Merged(s.blocks), k, mode, size, psp, Merged(s'.blocks), para,
                asize))
       case Free(para) =>
         && 0 <= para < |s.mem|
         && if para == 0 || !McbFreeable(s.mem[para]) then s' == s
            else s' == State(FreedBlocks(s.blocks, para), s.mem[para := s.mem[para].(psp := FREE_PSP)])
       case Change(para, size, psp) =>
         || (0 <= para < |s.mem| && !McbValid(s.mem[para]) && s' == s)
         || exists i ::
              && 0 <= i < |s.blocks| && s.blocks[i].para == para && Same(s.mem, s'.mem, Others(s.blocks, i), para, 0)
              && exists n, owner :: s'.blocks == Changed(s.blocks, i, n, owner)
  }

  /** The operation frees or resizes block `b`, or frees a segment inside it, paragraph `x`, that looks like a control
      block in use. */
  predicate Touches(op: Op, b: Blk, x: int, p: Mcb) {
    match op
    case Alloc(_, _, _) => false
    case Free(para) => para == b.para || (para == x && McbFreeable(p) && p.psp != FREE_PSP)
    case Change(para, _, _) => para == b.para
  }

  ghost predicate Run(ss: seq<State>, ops: seq<Op>, lo: int, hi: int) {
    |ss| == |ops| + 1 && forall k {:trigger ops[k]} :: 0 <= k < |ops| ==> Step(ss[k], ops[k], ss[k + 1], lo, hi)
  }

  /** Block `b` is in use and paragraph `x` of it holds `p`. */
  ghost predicate Holds(s: State, b: Blk, x: int, p: Mcb) {
    b in Live(s.blocks) && In(x, b) && 0 <= x < |s.mem| && s.mem[x] == p
  }

  lemma StepHolds(s: State, op: Op, s': State, lo: int, hi: int, b: Blk, x: int, p: Mcb)
    requires Step(s, op, s', lo, hi) && Holds(s, b, x, p) && !Touches(op, b, x, p)
    ensures Holds(s', b, x, p)
  {
    hide Chained, Live, Merged, IsMerged, Headers, Others, Changed;
    match op
    case Alloc(size, mode, psp) =>
      LiveMerged(s.blocks);
      LiveMerged(s'.blocks);
      if k: nat, para, asize :| Granted(Merged(s.blocks), k, mode, size, psp, Merged(s'.blocks), para, asize) {
        GrantedLive(s.blocks, s'.blocks, lo, hi, k, mode, size, psp, para, asize);
      }
    case Free(para) =>
      FreeHolds(s.blocks, para, b);
    case Change(para, size, psp) =>
      if s' == s {
        return;
      }
      var i :| 0 <= i < |s.blocks| && s.blocks[i].para == para && Same(s.mem, s'.mem, Others(s.blocks, i), para, 0)
               && exists n, owner :: s'.blocks == Changed(s.blocks, i, n, owner);
      var n, owner :| s'.blocks == Changed(s.blocks, i, n, owner);
      OthersIs(s.blocks, i);
      ChangedLive(s.blocks, i, n, owner);
  }

  /** A free leaves every other block in use, and of the block it is about no trace. */
  lemma FreeHolds(bs: Blocks, para: int, b: Blk)
    requires b in Live(bs)
    ensures b in Live(FreedBlocks(bs, para)) <==> b.para != para
  {
    hide Live;
    LiveIs(bs, b);
    LiveIs(FreedBlocks(bs, para), b);
    var j :| 0 <= j < |bs| && bs[j] == b;
    assert FreedBlocks(bs, para)[j] == if b.para == para then b.(psp := FREE_PSP) else b;
    assert forall i :: 0 <= i < |bs| && FreedBlocks(bs, para)[i].para == para ==> FreedBlocks(bs, para)[i].Free();
  }

  /** A free leaves a block and its paragraph alone just if it does not touch them: one of a paragraph inside the
      block that looks like a control block in use overwrites it. */
  lemma FreeHoldsIff(s: State, para: int, s': State, lo: int, hi: int, b: Blk, x: int, p: Mcb)
    requires Step(s, Free(para), s', lo, hi) && Holds(s, b, x, p)
    ensures Holds(s', b, x, p) <==> !Touches(Free(para), b, x, p)
  {
    hide Chained, Live;
    FreeHolds(s.blocks, para, b);
    LiveIs(s.blocks, b);
    var j :| 0 <= j < |s.blocks| && s.blocks[j] == b;
    HeaderIs(s.mem, s.blocks, lo, hi, j);
  }

  /** The arena of one block in use whose third paragraph reads like a control block: a free of that segment succeeds
      and overwrites the block's memory. */
  lemma FreeInside(m: seq<Mcb>)
    requires |m| >= 10 && m[1] == Mcb(MCB_LAST, 9, 8) && m[3] == Mcb(MCB_NORMAL, 5, 7)
    ensures var b := Blk(1, 8, 9);
      var s, s' := State([b], m), State([b], m[3 := Mcb(MCB_NORMAL, FREE_PSP, 7)]);
      Step(s, Free(3), s', 1, 10) && Holds(s, b, 3, m[3]) && !Holds(s', b, 3, m[3])
  {
    var b := Blk(1, 8, 9);
    OneChained(b);
    assert HeaderOk(m, [b], 0);
    FreedGood(m, [b], 1, 10, 3);
    assert Live([b]) == {b} by {
      assert [b][1..] == [];
    }
  }

  /** Through every run a block that is neither freed nor resized stays in use with its control block, and so does each
      of its paragraphs that no free of a segment inside it hits. */
  lemma {:induction false} RunHolds(ss: seq<State>, ops: seq<Op>, lo: int, hi: int, b: Blk, x: int, p: Mcb)
    requires Run(ss, ops, lo, hi) && Holds(ss[0], b, x, p) && forall j :: 0 <= j < |ops| ==> !Touches(ops[j], b, x, p)
    ensures Holds(ss[|ops|], b, x, p)
    decreases |ops|
  {
    hide Holds, Step, Touches;
    if |ops| > 0 {
      var ops' := ops[1..];
      assert !Touches(ops[0], b, x, p) && Step(ss[0], ops[0], ss[1], lo, hi);
      StepHolds(ss[0], ops[0], ss[1], lo, hi, b, x, p);
      assert forall j :: 0 <= j < |ops'| ==> ops'[j] == ops[j + 1];
      RunHolds(ss[1..], ops', lo, hi, b, x, p);
    }
  }

  /** Every call is a step.  `i` is the block a resize is about, if its segment is that of one. */
  method Call(a: Arena, op: Op, ghost i: nat) returns (r: int)
    requires a.Valid() && a.cuPsp != FREE_PSP
    requires match op
             case Alloc(size, _, psp) => 0 <= size <= 0xffff && psp == a.cuPsp
             case Free(para) => 0 <= para < a.mem.Length
             case Change(para, size, psp) =>
               && 0 <= para < a.mem.Length && 0 <= size <= 0xffff && psp == a.cuPsp
               && if i < |a.blocks| then a.blocks[i].para == para else !McbValid(a.mem[para])
    modifies a`blocks, a.mem
    ensures a.Valid() && Step(State(old(a.blocks), old(a.mem[..])), op, State(a.blocks, a.mem[..]), a.first, a.end)
  {
    hide Chained, Headers, Merged, Live, Changed, Others, Kept, Room, FreedBlocks, Grantable, Granted, LargestRun;
    match op
    case Alloc(size, mode, _) =>
      var para, asize;
      r, para, asize := a.DosMemAlloc(size, mode);
    case Free(para) =>
      r := a.DosMemFree(para);
    case Change(para, size, _) =>
      var maxSize;
      r, maxSize := a.DosMemChange(para + 1, size, i);
  }
}
