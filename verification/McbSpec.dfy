/**
 The DOS memory arena of kernel/memmgr.c as a value: a row of blocks, each behind its memory control block.
 A block of `size` paragraphs takes `size + 1` of them.
 */
module McbSpec {
  const FREE_PSP := 0
  const MCB_NORMAL := 0x4d
  const MCB_LAST := 0x5a

  /** A memory control block in memory; its name is left out. */
  datatype Mcb = Mcb(mtype: int, psp: int, size: int)

  /** A block: the segment of its control block, its size and owner. */
  datatype Blk = Blk(para: int, size: int, psp: int)
  {
    predicate Free() { psp == FREE_PSP }
  }

  type Blocks = seq<Blk>

  /** The blocks fill paragraphs lo..hi-1 in order. */
  ghost predicate Chained(bs: Blocks, lo: int, hi: int) {
    if bs == [] then lo == hi
    else bs[0].para == lo && bs[0].size >= 0 && Chained(bs[1..], lo + bs[0].size + 1, hi)
  }

  /** The control block of block `i`: the last one is marked so. */
  ghost predicate HeaderOk(m: seq<Mcb>, bs: Blocks, i: nat)
    requires i < |bs|
  {
    0 <= bs[i].para < |m|
    && m[bs[i].para] == Mcb(if i + 1 == |bs| then MCB_LAST else MCB_NORMAL, bs[i].psp, bs[i].size)
  }

  ghost predicate Headers(m: seq<Mcb>, bs: Blocks) {
    forall i :: 0 <= i < |bs| ==> HeaderOk(m, bs, i)
  }

  /** Memory whose control blocks are those of `bs`, and only those. */
  ghost predicate Good(m: seq<Mcb>, bs: Blocks, lo: int, hi: int) {
    && bs != [] && Chained(bs, lo, hi) && Headers(m, bs)
    && 0 < lo && hi <= 0x1_0000 && hi <= |m|
  }

  // ---------- rows of blocks ----------

  function End(bs: Blocks, lo: int): int {
    if bs == [] then lo else End(bs[1..], lo + bs[0].size + 1)
  }

  lemma {:induction false} ChainedUp(bs: Blocks, lo: int, hi: int)
    requires Chained(bs, lo, hi)
    ensures lo <= hi && End(bs, lo) == hi && (bs != [] ==> lo < hi)
  {
    if bs != [] {
      ChainedUp(bs[1..], lo + bs[0].size + 1, hi);
    }
  }

  lemma {:induction false} ChainedJoin(a: Blocks, b: Blocks, lo: int, mid: int, hi: int)
    requires Chained(a, lo, mid) && Chained(b, mid, hi)
    ensures Chained(a + b, lo, hi)
  {
    if a == [] {
      assert a + b == b;
    } else {
      ChainedJoin(a[1..], b, lo + a[0].size + 1, mid, hi);
      assert (a + b)[1..] == a[1..] + b;
    }
  }

  lemma {:induction false} ChainedSplit(a: Blocks, b: Blocks, lo: int, hi: int)
    requires Chained(a + b, lo, hi)
    ensures Chained(a, lo, End(a, lo)) && Chained(b, End(a, lo), hi)
  {
    if a == [] {
      assert a + b == b;
    } else {
      assert (a + b)[1..] == a[1..] + b;
      ChainedSplit(a[1..], b, lo + a[0].size + 1, hi);
    }
  }

  /** Where block `i` lies. */
  lemma {:induction false} ParaIs(bs: Blocks, lo: int, hi: int, i: nat)
    requires Chained(bs, lo, hi) && i < |bs|
    ensures bs[i].para == End(bs[..i], lo) && lo <= bs[i].para && 0 <= bs[i].size && bs[i].para + bs[i].size + 1 <= hi
    ensures i + 1 < |bs| ==> bs[i + 1].para == bs[i].para + bs[i].size + 1 && bs[i + 1].size >= 0
    ensures i + 1 == |bs| ==> bs[i].para + bs[i].size + 1 == hi
  {
    ChainedUp(bs[1..], lo + bs[0].size + 1, hi);
    if i > 0 {
      ParaIs(bs[1..], lo + bs[0].size + 1, hi, i - 1);
      assert bs[..i][1..] == bs[1..][..i - 1];
    } else if |bs| > 1 {
      assert bs[1..][0] == bs[1];
    }
  }

  lemma {:induction false} BlocksApart(bs: Blocks, lo: int, hi: int, i: nat, j: nat)
    requires Chained(bs, lo, hi) && i < j < |bs|
    ensures bs[i].para + bs[i].size + 1 <= bs[j].para
    decreases j
  {
    ParaIs(bs, lo, hi, i);
    ParaIs(bs, lo, hi, j - 1);
    if i < j - 1 {
      BlocksApart(bs, lo, hi, i, j - 1);
    }
  }

  // ---------- merging ----------

  /** Two free blocks next to each other as one; its control block is the first one's. */
  function Both(p: Blk, q: Blk): Blk { Blk(p.para, p.size + q.size + 1, p.psp) }

  /** Every run of adjacent free blocks as one block. */
  function Merged(bs: Blocks): (r: Blocks)
    ensures bs != [] ==> r != [] && r[0].Free() == bs[0].Free()
  {
    if bs == [] then [] else Prepended(bs[0], Merged(bs[1..]))
  }

  function Prepended(b: Blk, rest: Blocks): (r: Blocks)
    ensures r != [] && r[0].Free() == b.Free()
  {
    if rest != [] && b.Free() && rest[0].Free() then [Both(b, rest[0])] + rest[1..] else [b] + rest
  }

  lemma PrependedApart(b: Blk, rest: Blocks, more: Blocks)
    requires rest != [] || more == [] || !(b.Free() && more[0].Free())
    ensures Prepended(b, rest + more) == Prepended(b, rest) + more
  {
    if rest == [] {
      assert rest + more == more;
    } else {
      assert (rest + more)[1..] == rest[1..] + more;
    }
  }

  /** No two adjacent blocks are free. */
  ghost predicate IsMerged(bs: Blocks) {
    |bs| < 2 || (!(bs[0].Free() && bs[1].Free()) && IsMerged(bs[1..]))
  }

  lemma {:induction false} MergedIs(bs: Blocks, lo: int, hi: int)
    requires Chained(bs, lo, hi)
    ensures IsMerged(Merged(bs)) && Chained(Merged(bs), lo, hi)
  {
    if bs != [] {
      var rest := Merged(bs[1..]);
      MergedIs(bs[1..], lo + bs[0].size + 1, hi);
      if rest != [] && bs[0].Free() && rest[0].Free() {
        var r := [Both(bs[0], rest[0])] + rest[1..];
        assert r[1..] == rest[1..];
        assert |rest| > 1 ==> rest[1..][0] == rest[1];
      } else {
        assert ([bs[0]] + rest)[1..] == rest;
      }
    }
  }

  lemma {:induction false} MergedAlready(bs: Blocks)
    requires IsMerged(bs)
    ensures Merged(bs) == bs
  {
    if bs != [] {
      if |bs| > 1 {
        MergedAlready(bs[1..]);
      }
      assert bs == [bs[0]] + bs[1..];
    }
  }

  /** Rows merge separately where they do not meet in two free blocks. */
  lemma {:induction false} MergedApart(a: Blocks, b: Blocks)
    requires a == [] || b == [] || !(a[|a| - 1].Free() && b[0].Free())
    ensures Merged(a + b) == Merged(a) + Merged(b)
  {
    if a == [] {
      assert a + b == b;
    } else if b == [] {
      assert a + b == a;
    } else {
      assert (a + b)[1..] == a[1..] + b;
      MergedApart(a[1..], b);
      PrependedApart(a[0], Merged(a[1..]), Merged(b));
    }
  }

  /** Joining two free blocks changes nothing once merged. */
  lemma {:induction false} MergedJoined(bs: Blocks, i: nat)
    requires i + 1 < |bs| && bs[i].Free() && bs[i + 1].Free()
    ensures Merged(Joined(bs, i)) == Merged(bs)
    decreases i
  {
    var js := Joined(bs, i);
    if i > 0 {
      assert js[1..] == Joined(bs[1..], i - 1);
      MergedJoined(bs[1..], i - 1);
    } else {
      assert js[1..] == bs[2..] && bs[1..][1..] == bs[2..];
      var rest := Merged(bs[2..]);
      if rest != [] && rest[0].Free() {
        assert Merged(bs[1..]) == [Both(bs[1], rest[0])] + rest[1..];
      }
    }
  }

  /** Block `i` joined with the one after it. */
  function Joined(bs: Blocks, i: nat): (r: Blocks)
    requires i + 1 < |bs|
    ensures |r| == |bs| - 1 && r[i] == Both(bs[i], bs[i + 1]) && r[..i] == bs[..i] && r[i + 1..] == bs[i + 2..]
  {
    bs[..i] + [Both(bs[i], bs[i + 1])] + bs[i + 2..]
  }

  /** `joinMCBs`: block `i` joined with all free blocks that follow. */
  function JoinAll(bs: Blocks, i: nat): (r: Blocks)
    requires i < |bs|
    ensures i < |r| && r[..i] == bs[..i] && r[i].para == bs[i].para && r[i].psp == bs[i].psp
    ensures |r| <= |bs| && (i + 1 < |r| ==> !r[i + 1].Free())
    decreases |bs| - i
  {
    if i + 1 < |bs| && bs[i + 1].Free() then JoinAll(Joined(bs, i), i) else bs
  }

  lemma JoinedChained(bs: Blocks, i: nat, lo: int, hi: int)
    requires Chained(bs, lo, hi) && i + 1 < |bs|
    ensures Chained(Joined(bs, i), lo, hi)
  {
    var a, b, c := bs[..i], [bs[i], bs[i + 1]], bs[i + 2..];
    var m := [Both(bs[i], bs[i + 1])];
    assert bs == a + (b + c);
    ChainedSplit(a, b + c, lo, hi);
    ChainedSplit(b, c, End(a, lo), hi);
    assert b[1..] == [bs[i + 1]] && b[1..][1..] == [] && m[1..] == [];
    ChainedJoin(m, c, End(a, lo), End(b, End(a, lo)), hi);
    ChainedJoin(a, m + c, lo, End(a, lo), hi);
    assert Joined(bs, i) == a + (m + c);
  }

  /** Joining keeps the row; a free block it starts from is then one of the merged blocks. */
  lemma {:induction false} JoinAllIs(bs: Blocks, i: nat, lo: int, hi: int)
    requires Chained(bs, lo, hi) && i < |bs|
    ensures Chained(JoinAll(bs, i), lo, hi) && bs[i].size <= JoinAll(bs, i)[i].size
    ensures bs[i].Free() ==> Merged(JoinAll(bs, i)) == Merged(bs)
    decreases |bs| - i
  {
    ParaIs(bs, lo, hi, i);
    if i + 1 < |bs| && bs[i + 1].Free() {
      JoinedChained(bs, i, lo, hi);
      JoinAllIs(Joined(bs, i), i, lo, hi);
      if bs[i].Free() {
        MergedJoined(bs, i);
      }
    }
  }

  // ---------- blocks in use ----------

  ghost function Live(bs: Blocks): set<Blk> {
    if bs == [] then {} else (if bs[0].Free() then {} else {bs[0]}) + Live(bs[1..])
  }

  lemma {:induction false} LiveJoin(a: Blocks, b: Blocks)
    ensures Live(a + b) == Live(a) + Live(b)
  {
    if a == [] {
      assert a + b == b;
    } else {
      assert (a + b)[1..] == a[1..] + b;
      LiveJoin(a[1..], b);
    }
  }

  lemma {:induction false} LiveMerged(bs: Blocks)
    ensures Live(Merged(bs)) == Live(bs)
  {
    if bs != [] {
      LiveMerged(bs[1..]);
      var rest := Merged(bs[1..]);
      if rest != [] && bs[0].Free() && rest[0].Free() {
        assert ([Both(bs[0], rest[0])] + rest[1..])[1..] == rest[1..];
      } else {
        assert ([bs[0]] + rest)[1..] == rest;
      }
    }
  }

  lemma {:induction false} LiveIs(bs: Blocks, b: Blk)
    ensures b in Live(bs) <==> !b.Free() && exists i :: 0 <= i < |bs| && bs[i] == b
  {
    if bs != [] {
      LiveIs(bs[1..], b);
      assert bs == [bs[0]] + bs[1..];
      if b in Live(bs[1..]) {
        var i :| 0 <= i < |bs[1..]| && bs[1..][i] == b;
        assert bs[i + 1] == b;
      }
    }
  }

  /** Paragraph `x` is that of the control block of `b` or one behind it. */
  predicate In(x: int, b: Blk) { b.para <= x <= b.para + b.size }

  ghost predicate Owned(live: set<Blk>, x: int) { exists b :: b in live && In(x, b) }

  /** No paragraph of a free block belongs to a block in use. */
  lemma FreeNotOwned(bs: Blocks, lo: int, hi: int, i: nat, x: int)
    requires Chained(bs, lo, hi) && i < |bs| && bs[i].Free() && In(x, bs[i])
    ensures !Owned(Live(bs), x)
  {
    hide Chained, Live;
    forall b | b in Live(bs) ensures !In(x, b) {
      LiveIs(bs, b);
      var j :| 0 <= j < |bs| && bs[j] == b;
      if j < i {
        BlocksApart(bs, lo, hi, j, i);
      } else if i < j {
        BlocksApart(bs, lo, hi, i, j);
      }
    }
  }

  /** No paragraph belongs to two blocks. */
  lemma OwnedOnce(bs: Blocks, lo: int, hi: int, b: Blk, c: Blk, x: int)
    requires Chained(bs, lo, hi) && b in Live(bs) && c in Live(bs) && In(x, b) && In(x, c)
    ensures b == c
  {
    hide Chained, Live;
    LiveIs(bs, b);
    LiveIs(bs, c);
    var i :| 0 <= i < |bs| && bs[i] == b;
    var j :| 0 <= j < |bs| && bs[j] == c;
    if i < j {
      BlocksApart(bs, lo, hi, i, j);
    } else if j < i {
      BlocksApart(bs, lo, hi, j, i);
    }
  }

  // ---------- rewriting control blocks ----------

  function Replaced(bs: Blocks, i: nat, j: nat, ms: Blocks): Blocks
    requires i <= j <= |bs|
  {
    bs[..i] + ms + bs[j..]
  }

  /** Blocks i..j-1 replaced by `ms`, the control blocks of which have been written, and nothing outside the
      paragraphs of those blocks. */
  lemma Rewritten(m: seq<Mcb>, m': seq<Mcb>, bs: Blocks, i: nat, j: nat, ms: Blocks, lo: int, hi: int)
    requires Good(m, bs, lo, hi) && i < j <= |bs| && |m'| == |m| && ms != []
    requires Chained(ms, bs[i].para, bs[j - 1].para + bs[j - 1].size + 1)
    requires forall x :: 0 <= x < |m| && !(bs[i].para <= x <= bs[j - 1].para + bs[j - 1].size) ==> m'[x] == m[x]
    requires forall k :: i <= k < i + |ms| ==> HeaderOk(m', Replaced(bs, i, j, ms), k)
    ensures Good(m', Replaced(bs, i, j, ms), lo, hi)
  {
    hide Chained, Replaced, HeaderOk;
    ReplacedChained(bs, i, j, ms, lo, hi);
    var r := Replaced(bs, i, j, ms);
    ReplacedLength(bs, i, j, ms);
    forall k | 0 <= k < |r| ensures HeaderOk(m', r, k) {
      if k < i {
        HeaderBefore(m, m', bs, i, j, ms, lo, hi, k);
      } else if k >= i + |ms| {
        HeaderAfter(m, m', bs, i, j, ms, lo, hi, k - |ms| - i + j);
      }
    }
  }

  lemma ReplacedLength(bs: Blocks, i: nat, j: nat, ms: Blocks)
    requires i <= j <= |bs|
    ensures |Replaced(bs, i, j, ms)| == |bs| - (j - i) + |ms| && (ms != [] ==> Replaced(bs, i, j, ms) != [])
  {}

  lemma HeaderBefore(m: seq<Mcb>, m': seq<Mcb>, bs: Blocks, i: nat, j: nat, ms: Blocks, lo: int, hi: int, k: nat)
    requires Good(m, bs, lo, hi) && k < i < j <= |bs| && |m'| == |m| && ms != []
    requires forall x :: 0 <= x < |m| && !(bs[i].para <= x <= bs[j - 1].para + bs[j - 1].size) ==> m'[x] == m[x]
    ensures k < |Replaced(bs, i, j, ms)| && HeaderOk(m', Replaced(bs, i, j, ms), k)
  {
    hide Chained;
    BlocksApart(bs, lo, hi, k, i);
    ParaIs(bs, lo, hi, k);
    assert HeaderOk(m, bs, k);
    assert Replaced(bs, i, j, ms)[k] == bs[k];
  }

  lemma HeaderAfter(m: seq<Mcb>, m': seq<Mcb>, bs: Blocks, i: nat, j: nat, ms: Blocks, lo: int, hi: int, k: nat)
    requires Good(m, bs, lo, hi) && i < j <= k < |bs| && |m'| == |m|
    requires forall x :: 0 <= x < |m| && !(bs[i].para <= x <= bs[j - 1].para + bs[j - 1].size) ==> m'[x] == m[x]
    ensures var k' := k - j + i + |ms|;
      k' < |Replaced(bs, i, j, ms)| && HeaderOk(m', Replaced(bs, i, j, ms), k')
  {
    hide Chained;
    BlocksApart(bs, lo, hi, j - 1, k);
    assert HeaderOk(m, bs, k);
    assert Replaced(bs, i, j, ms)[k - j + i + |ms|] == bs[k];
  }

  lemma ReplacedChained(bs: Blocks, i: nat, j: nat, ms: Blocks, lo: int, hi: int)
    requires Chained(bs, lo, hi) && i < j <= |bs|
    requires Chained(ms, bs[i].para, bs[j - 1].para + bs[j - 1].size + 1)
    ensures Chained(Replaced(bs, i, j, ms), lo, hi)
  {
    hide Chained;
    var a, b, c := bs[..i], bs[i..j], bs[j..];
    assert bs == a + (b + c);
    ChainedSplit(a, b + c, lo, hi);
    ChainedSplit(b, c, End(a, lo), hi);
    ParaIs(bs, lo, hi, i);
    ParaIs(bs, lo, hi, j - 1);
    ParaIs(b, End(a, lo), End(b, End(a, lo)), |b| - 1);
    ChainedJoin(ms, c, bs[i].para, bs[j - 1].para + bs[j - 1].size + 1, hi);
    ChainedJoin(a, ms + c, lo, bs[i].para, hi);
    assert Replaced(bs, i, j, ms) == a + (ms + c);
  }

  // ---------- choosing a run and taking a block from it ----------

  const LARGEST := -1

  predicate FirstFit(mode: int) { mode == 0 || mode == 0x40 || mode == 0x80 }

  predicate BestFit(mode: int) { mode == 1 || mode == 0x41 || mode == 0x81 }

  /** The modes that take the end of a run.  The search treats every other unknown mode like these. */
  predicate LastFit(mode: int) { mode == 2 || mode == 0x42 || mode == 0x82 }

  predicate Fits(b: Blk, size: int) { b.Free() && b.size >= size }

  /** Block `k` is the choice of a mode among all free blocks: the first that fits, the first of the smallest
      that fit, the first of the largest, or the last that fits. */
  ghost predicate Chosen(ms: Blocks, k: int, mode: int, size: int) {
    && 0 <= k < |ms| && Fits(ms[k], size)
    && forall j :: 0 <= j < |ms| && j != k && (Fits(ms[j], size) || (mode == LARGEST && ms[j].Free())) ==>
         if mode == LARGEST then ms[j].size < ms[k].size || (ms[j].size == ms[k].size && k < j)
         else if FirstFit(mode) then k < j
         else if BestFit(mode) then ms[k].size < ms[j].size || (ms[j].size == ms[k].size && k < j)
         else j < k
  }

  /** `k` is the choice, or -1 if nothing fits. */
  ghost predicate Choice(ms: Blocks, k: int, mode: int, size: int) {
    if k == -1 then forall j :: 0 <= j < |ms| ==> !Fits(ms[j], size) else Chosen(ms, k, mode, size)
  }

  /** There is a choice just if some free block fits. */
  lemma ChoiceExists(ms: Blocks, mode: int, size: int)
    ensures (exists k :: Chosen(ms, k, mode, size)) <==> exists j :: 0 <= j < |ms| && Fits(ms[j], size)
  {
    if j :| 0 <= j < |ms| && Fits(ms[j], size) {
      var k := Choose(ms, mode, size);
      assert k != -1;
    }
  }

  lemma {:induction false} Choose(ms: Blocks, mode: int, size: int) returns (k: int)
    ensures Choice(ms, k, mode, size)
  {
    k := -1;
    if ms != [] {
      var pre, b := ms[..|ms| - 1], ms[|ms| - 1];
      k := Choose(pre, mode, size);
      ChooseMore(pre, b, mode, size, k);
      assert pre + [b] == ms;
      k := ChooseNext(pre, b, mode, size, k);
    }
  }

  /** The choice among one block more. */
  ghost function ChooseNext(a: Blocks, b: Blk, mode: int, size: int, k: int): int
    requires Choice(a, k, mode, size)
  {
    if Fits(b, size) && (k == -1 || !Keeps(a[k], b, mode)) then |a| else k
  }

  lemma ChooseMore(a: Blocks, b: Blk, mode: int, size: int, k: int)
    requires Choice(a, k, mode, size)
    ensures Choice(a + [b], ChooseNext(a, b, mode, size, k), mode, size)
  {
    assert forall j :: 0 <= j < |a| ==> (a + [b])[j] == a[j];
  }

  /** An earlier choice stands against a later block that fits. */
  predicate Keeps(chosen: Blk, b: Blk, mode: int) {
    if mode == LARGEST then chosen.size >= b.size
    else if FirstFit(mode) then true
    else if BestFit(mode) then chosen.size <= b.size
    else false
  }

  /** Segment of the control block of a block of `size` taken from the run `b`. */
  function TakenPara(b: Blk, mode: int, size: int): int {
    if mode != LARGEST && LastFit(mode) then b.para + b.size - size else b.para
  }

  /** The run `b` after a block has been taken from it: whole for LARGEST or an exact fit, from its end for
      last fit, else from its start. */
  function Split(b: Blk, mode: int, size: int, psp: int): (r: Blocks)
    ensures r != []
  {
    if mode == LARGEST || size == b.size then [b.(psp := psp)]
    else if LastFit(mode) then [Blk(b.para, b.size - size - 1, FREE_PSP), Blk(b.para + b.size - size, size, psp)]
    else [Blk(b.para, size, psp), Blk(b.para + size + 1, b.size - size - 1, FREE_PSP)]
  }

  function Carved(ms: Blocks, k: nat, mode: int, size: int, psp: int): Blocks
    requires k < |ms|
  {
    Replaced(ms, k, k + 1, Split(ms[k], mode, size, psp))
  }

  lemma SplitIs(b: Blk, mode: int, size: int, psp: int)
    requires Fits(b, size) && size >= 0 && psp != FREE_PSP
    ensures var r := Split(b, mode, size, psp);
      && Chained(r, b.para, b.para + b.size + 1) && IsMerged(r)
      && Live(r) == {Blk(TakenPara(b, mode, size), if mode == LARGEST then b.size else size, psp)}
      && 1 <= |r| <= 2
  {
    var r := Split(b, mode, size, psp);
    assert r[1..] == if |r| == 1 then [] else [r[1]];
    LiveOne(r[0]);
    if |r| == 2 {
      assert r[1..][1..] == [];
      assert r == [r[0]] + [r[1]];
      LiveOne(r[1]);
      LiveJoin([r[0]], [r[1]]);
    } else {
      assert r == [r[0]];
    }
  }

  lemma {:induction false} IsMergedJoin(a: Blocks, b: Blocks)
    ensures IsMerged(a + b) <==>
              IsMerged(a) && IsMerged(b) && (a == [] || b == [] || !(a[|a| - 1].Free() && b[0].Free()))
  {
    if a == [] {
      assert a + b == b;
    } else if b == [] {
      assert a + b == a;
    } else {
      assert (a + b)[1..] == a[1..] + b;
      if |a| > 1 {
        IsMergedJoin(a[1..], b);
      } else {
        assert a[1..] + b == b;
      }
    }
  }

  /** Blocks 0..k are merged, and the next one, if any, is in use. */
  ghost predicate Scanned(bs: Blocks, k: nat) {
    k < |bs| && IsMerged(bs[..k + 1]) && (k + 1 < |bs| ==> !(bs[k].Free() && bs[k + 1].Free()))
  }

  lemma ScannedIs(bs: Blocks, k: nat)
    requires Scanned(bs, k)
    ensures Merged(bs) == bs[..k + 1] + Merged(bs[k + 1..]) && k < |Merged(bs)| && Merged(bs)[k] == bs[k]
    ensures Merged(bs)[..k + 1] == bs[..k + 1]
  {
    hide Merged, IsMerged;
    assert bs == bs[..k + 1] + bs[k + 1..];
    MergedApart(bs[..k + 1], bs[k + 1..]);
    MergedAlready(bs[..k + 1]);
  }

  /** Taking a block from a run that has been scanned takes it from the merged blocks. */
  lemma CarvedIs(bs: Blocks, k: nat, mode: int, size: int, psp: int)
    requires Scanned(bs, k) && Fits(bs[k], size) && size >= 0 && psp != FREE_PSP
    ensures k < |Merged(bs)| && Merged(Carved(bs, k, mode, size, psp)) == Carved(Merged(bs), k, mode, size, psp)
  {
    hide Merged, IsMerged, Split, Chained, Live;
    var pre, ms, rest := bs[..k], Split(bs[k], mode, size, psp), bs[k + 1..];
    ScannedIs(bs, k);
    SplitIs(bs[k], mode, size, psp);
    assert bs[..k + 1] == pre + [bs[k]];
    IsMergedJoin(pre, [bs[k]]);
    IsMergedJoin(pre, ms);
    MergedAlready(pre + ms);
    MergedApart(pre + ms, rest);
    assert Merged(bs)[..k] == pre && Merged(bs)[k + 1..] == Merged(rest);
  }

  /** The blocks in use after a block has been taken: those before, and the new one. */
  lemma CarvedLive(bs: Blocks, k: nat, mode: int, size: int, psp: int)
    requires k < |bs| && Fits(bs[k], size) && size >= 0 && psp != FREE_PSP
    ensures Live(Carved(bs, k, mode, size, psp))
         == Live(bs) + {Blk(TakenPara(bs[k], mode, size), if mode == LARGEST then bs[k].size else size, psp)}
  {
    hide Live, Split, Chained;
    SplitIs(bs[k], mode, size, psp);
    var pre, ms, rest := bs[..k], Split(bs[k], mode, size, psp), bs[k + 1..];
    assert bs == pre + ([bs[k]] + rest);
    LiveJoin(pre, [bs[k]] + rest);
    LiveJoin([bs[k]], rest);
    LiveOne(bs[k]);
    LiveJoin(pre + ms, rest);
    LiveJoin(pre, ms);
  }

  lemma LiveOne(b: Blk)
    ensures Live([b]) == if b.Free() then {} else {b}
  {
    assert [b][1..] == [];
  }

  // ---------- resizing ----------

  /** How many free blocks a row starts with, and how many paragraphs they take. */
  function FreeLen(bs: Blocks): (n: nat)
    ensures n <= |bs| && (n < |bs| ==> !bs[n].Free())
  {
    if bs != [] && bs[0].Free() then 1 + FreeLen(bs[1..]) else 0
  }

  function FreeParas(bs: Blocks): int {
    if bs != [] && bs[0].Free() then bs[0].size + 1 + FreeParas(bs[1..]) else 0
  }

  /** One step of `joinMCBs`. */
  lemma JoinSteps(bs: Blocks, i: nat)
    requires i < |bs|
    ensures JoinAll(bs, i) == if i + 1 < |bs| && bs[i + 1].Free() then JoinAll(Joined(bs, i), i) else bs
  {}

  /** What `joinMCBs` makes of a row: block `i` takes in the free blocks that follow. */
  lemma {:induction false} JoinAllShape(bs: Blocks, i: nat)
    requires i < |bs|
    ensures JoinAll(bs, i) == bs[..i] + [Blk(bs[i].para, bs[i].size + FreeParas(bs[i + 1..]), bs[i].psp)]
                                + bs[i + 1..][FreeLen(bs[i + 1..])..]
    decreases |bs| - i
  {
    hide JoinAll, Joined;
    var rest := bs[i + 1..];
    JoinSteps(bs, i);
    if i + 1 < |bs| && bs[i + 1].Free() {
      JoinAllShape(Joined(bs, i), i);
      assert bs[i + 2..] == rest[1..];
      RunRest(rest);
    } else {
      assert bs == bs[..i] + [bs[i]] + rest[0..];
    }
  }

  lemma RunRest(rest: Blocks)
    requires rest != [] && rest[0].Free()
    ensures FreeParas(rest) == rest[0].size + 1 + FreeParas(rest[1..])
    ensures rest[1..][FreeLen(rest[1..])..] == rest[FreeLen(rest)..]
  {}

  lemma {:induction false} LiveRun(bs: Blocks)
    ensures Live(bs[FreeLen(bs)..]) == Live(bs)
  {
    if bs != [] && bs[0].Free() {
      LiveRun(bs[1..]);
      assert bs[1..][FreeLen(bs[1..])..] == bs[FreeLen(bs)..];
    } else {
      assert bs[0..] == bs;
    }
  }

  /** The largest size block `i` can be given. */
  function Room(bs: Blocks, i: nat): int
    requires i < |bs|
  {
    bs[i].size + FreeParas(bs[i + 1..])
  }

  /** What follows block `i` once it has `size` paragraphs: what is left of its room, if any, as one free block. */
  function Behind(bs: Blocks, i: nat, size: int): Blocks
    requires i < |bs|
  {
    var rest := bs[i + 1..];
    if size == bs[i].size then rest
    else (if size < Room(bs, i) then [Blk(bs[i].para + size + 1, Room(bs, i) - size - 1, FREE_PSP)] else [])
         + rest[FreeLen(rest)..]
  }

  /** Block `i` resized within its room. */
  function Changed(bs: Blocks, i: nat, size: int, psp: int): Blocks
    requires i < |bs|
  {
    bs[..i] + [Blk(bs[i].para, size, psp)] + Behind(bs, i, size)
  }

  /** The blocks in use other than block `i`. */
  ghost function Others(bs: Blocks, i: nat): set<Blk>
    requires i < |bs|
  {
    Live(bs[..i]) + Live(bs[i + 1..])
  }

  lemma OthersIs(bs: Blocks, i: nat)
    requires i < |bs|
    ensures Live(bs) == Others(bs, i) + if bs[i].Free() then {} else {bs[i]}
  {
    hide Live;
    assert bs == bs[..i] + ([bs[i]] + bs[i + 1..]);
    LiveJoin(bs[..i], [bs[i]] + bs[i + 1..]);
    LiveJoin([bs[i]], bs[i + 1..]);
    LiveOne(bs[i]);
  }

  /** Resizing leaves the other blocks as they are. */
  lemma ChangedLive(bs: Blocks, i: nat, size: int, psp: int)
    requires i < |bs|
    ensures Live(Changed(bs, i, size, psp))
            == Others(bs, i) + if psp == FREE_PSP then {} else {Blk(bs[i].para, size, psp)}
  {
    hide Live;
    var b, behind := Blk(bs[i].para, size, psp), Behind(bs, i, size);
    assert Changed(bs, i, size, psp) == bs[..i] + ([b] + behind);
    LiveJoin(bs[..i], [b] + behind);
    LiveJoin([b], behind);
    LiveOne(b);
    BehindLive(bs, i, size);
  }

  lemma BehindLive(bs: Blocks, i: nat, size: int)
    requires i < |bs|
    ensures Live(Behind(bs, i, size)) == Live(bs[i + 1..])
  {
    hide Live;
    var rest := bs[i + 1..];
    LiveRun(rest);
    if size != bs[i].size && size < Room(bs, i) {
      var f := Blk(bs[i].para + size + 1, Room(bs, i) - size - 1, FREE_PSP);
      LiveOne(f);
      LiveJoin([f], rest[FreeLen(rest)..]);
    } else {
      assert [] + rest[FreeLen(rest)..] == rest[FreeLen(rest)..];
    }
  }

  /** No other block holds a paragraph of block `i`. */
  lemma NotOthers(bs: Blocks, lo: int, hi: int, i: nat, x: int)
    requires Chained(bs, lo, hi) && i < |bs| && In(x, bs[i])
    ensures !Owned(Others(bs, i), x)
  {
    hide Chained, Live;
    forall b | b in Others(bs, i) ensures !In(x, b) {
      LiveIs(bs[..i], b);
      LiveIs(bs[i + 1..], b);
      if b in Live(bs[..i]) {
        var j :| 0 <= j < i && bs[..i][j] == b;
        BlocksApart(bs, lo, hi, j, i);
      } else {
        var j :| 0 <= j < |bs[i + 1..]| && bs[i + 1..][j] == b;
        BlocksApart(bs, lo, hi, i, i + 1 + j);
      }
    }
  }

  /** Inside a block there is no control block. */
  lemma NoHeaderInside(bs: Blocks, lo: int, hi: int, i: nat, x: int)
    requires Chained(bs, lo, hi) && i < |bs| && bs[i].para < x <= bs[i].para + bs[i].size
    ensures forall b :: b in bs ==> b.para != x
  {
    hide Chained;
    forall b | b in bs ensures b.para != x {
      var j :| 0 <= j < |bs| && bs[j] == b;
      if j < i {
        BlocksApart(bs, lo, hi, j, i);
        ParaIs(bs, lo, hi, j);
      } else if i < j {
        BlocksApart(bs, lo, hi, i, j);
      }
    }
  }
}
