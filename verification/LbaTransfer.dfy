/**
 The transfer loop of kernel/dsk.c: a request for many sectors is split into BIOS calls that cross neither a
 track nor a 64K boundary.  Memory is indexed by linear address.  A BIOS call that fails does nothing; which
 calls fail is open.
 */
module LbaTransfer {
  import opened Arithmetic
  import opened Disks
  import CS = CacheSpec

  const N_RETRY := 5

  /** What the block count of an LBA packet holds, a byte. */
  const COUNT_LIMIT := 0x100

  datatype Mode = Read | Write | WriteVerify | Verify

  datatype Chs = Chs(cylinder: int, head: int, sector: int)

  /** A BIOS call: what it does, where it starts, how many sectors, and the address of the buffer. */
  datatype Call =
    | LbaCall(op: Mode, lba: int, count: int, addr: int)
    | ChsCall(op: Mode, chs: Chs, count: int, addr: int)

  datatype Run = Run(lba: int, count: int)

  /** The transfers cover `n` sectors from `start` on, once and in order. */
  ghost predicate Covers(runs: seq<Run>, start: int, n: int) {
    if runs == [] then n == 0
    else
      var last := runs[|runs| - 1];
      last.count > 0 && last.lba + last.count == start + n && Covers(runs[..|runs| - 1], start, n - last.count)
  }

  /** Every sector of the range lies in one transfer. */
  lemma {:induction false} CoversOnce(runs: seq<Run>, start: int, n: int, k: int)
    requires Covers(runs, start, n) && start <= k < start + n
    ensures exists i :: 0 <= i < |runs| && Within(runs[i], k)
    ensures forall i, j :: 0 <= i < |runs| && 0 <= j < |runs| && Within(runs[i], k) && Within(runs[j], k) ==> i == j
  {
    var m := |runs| - 1;
    var pre := runs[..m];
    CoversBelow(pre, start, n - runs[m].count);
    if k < runs[m].lba {
      CoversOnce(pre, start, n - runs[m].count, k);
      var i :| 0 <= i < |pre| && Within(pre[i], k);
      assert Within(runs[i], k);
      assert forall x :: 0 <= x < m ==> runs[x] == pre[x];
    } else {
      assert Within(runs[m], k);
      assert forall x :: 0 <= x < m ==> runs[x] == pre[x];
    }
  }

  predicate Within(r: Run, k: int) { r.lba <= k < r.lba + r.count }

  lemma {:induction false} CoversBelow(runs: seq<Run>, start: int, n: int)
    requires Covers(runs, start, n)
    ensures n >= 0 && forall i :: 0 <= i < |runs| ==> start <= runs[i].lba && runs[i].lba + runs[i].count <= start + n
  {
    if runs != [] {
      var m := |runs| - 1;
      CoversBelow(runs[..m], start, n - runs[m].count);
      assert forall i :: 0 <= i < m ==> runs[i] == runs[..m][i];
    }
  }

  /** The transfers determine how many sectors they cover. */
  lemma CoversUnique(runs: seq<Run>, start: int, n: int, n': int)
    requires Covers(runs, start, n) && Covers(runs, start, n')
    ensures n == n'
  {}

  lemma CoversMore(runs: seq<Run>, start: int, n: int, count: int)
    requires Covers(runs, start, n) && count > 0
    ensures Covers(runs + [Run(start + n, count)], start, n + count)
  {
    assert (runs + [Run(start + n, count)])[..|runs|] == runs;
  }

  /** One transfer more, unless of nothing. */
  function WithRun(runs: seq<Run>, lba: int, count: nat): seq<Run> {
    if count > 0 then runs + [Run(lba, count)] else runs
  }

  // ---------- addresses ----------

  /** Sector number of a cylinder, head and sector. */
  function LbaOf(chs: Chs, nsecs: int, nheads: int): int {
    (chs.cylinder * nheads + chs.head) * nsecs + chs.sector - 1
  }

  /** `LBA_to_CHS`; fails beyond cylinder 1023. */
  function LbaToChs(lba: nat, nsecs: nat, nheads: nat): (chs: Chs)
    requires nsecs > 0 && nheads > 0
  {
    MulMono(1, nsecs, nheads);
    var hs := nsecs * nheads;
    var hsrem := lba % hs;
    Chs(lba / hs, hsrem / nsecs, hsrem % nsecs + 1)
  }

  /** The triple lies inside the geometry and maps back to the address. */
  lemma ChsMapsBack(lba: nat, nsecs: nat, nheads: nat)
    requires nsecs > 0 && nheads > 0
    ensures var chs := LbaToChs(lba, nsecs, nheads);
      && 0 <= chs.cylinder && 0 <= chs.head < nheads && 1 <= chs.sector <= nsecs
      && LbaOf(chs, nsecs, nheads) == lba
  {
    MulMono(1, nsecs, nheads);
    var hs, hsrem := nsecs * nheads, lba % (nsecs * nheads);
    QuotientNat(lba, hs);
    QuotientBelow(hsrem, nsecs, nheads);
    assert lba == lba / hs * hs + hsrem;
    assert hsrem == hsrem / nsecs * nsecs + hsrem % nsecs;
    assert (lba / hs * nheads + hsrem / nsecs) * nsecs == lba / hs * (nheads * nsecs) + hsrem / nsecs * nsecs;
  }

  /** Bitwise or of two 2-bit numbers. */
  function Or(a: nat, b: nat): nat { (if a >= 2 || b >= 2 then 2 else 0) + (if a % 2 == 1 || b % 2 == 1 then 1 else 0) }

  /** What the registers of a BIOS call make of cylinder, head and sector: the sector has six bits, in a byte with the
      upper two of the cylinder, and the head has eight. */
  function InRegisters(chs: Chs): Chs
    requires 0 <= chs.cylinder && 0 <= chs.head && 0 <= chs.sector
  {
    Chs(chs.cylinder % 0x100 + 0x100 * Or(chs.cylinder / 0x100 % 4, chs.sector % 0x100 / 64), chs.head % 0x100,
      chs.sector % 64)
  }

  lemma RegistersCarry(chs: Chs)
    requires 0 <= chs.cylinder <= 1023 && 0 <= chs.head < 0x100 && 1 <= chs.sector <= 63
    ensures InRegisters(chs) == chs
  {
    var hi := chs.cylinder / 0x100;
    assert chs.cylinder == hi * 0x100 + chs.cylinder % 0x100 && 0 <= hi <= 3;
    assert Or(hi, 0) == hi;
  }

  /** Every address that `LBA_to_CHS` accepts gets through just if the geometry has at most 63 sectors to a track and
      256 heads. */
  lemma RegistersCarryIff(nsecs: nat, nheads: nat)
    requires nsecs > 0 && nheads > 0
    ensures (forall lba: nat :: Accepted(lba, nsecs, nheads) ==> Carried(lba, nsecs, nheads)) <==>
              nsecs <= 63 && nheads <= 0x100
  {
    hide Accepted, Carried;
    if nsecs <= 63 && nheads <= 0x100 {
      forall lba: nat | Accepted(lba, nsecs, nheads) ensures Carried(lba, nsecs, nheads) {
        SmallCarried(lba, nsecs, nheads);
      }
    } else if nsecs > 63 {
      LongTrack(nsecs, nheads);
    } else {
      ManyHeads(nsecs, nheads);
    }
  }

  lemma SmallCarried(lba: nat, nsecs: nat, nheads: nat)
    requires 0 < nsecs <= 63 && 0 < nheads <= 0x100 && Accepted(lba, nsecs, nheads)
    ensures Carried(lba, nsecs, nheads)
  {
    hide LbaToChs, InRegisters;
    ChsMapsBack(lba, nsecs, nheads);
    RegistersCarry(LbaToChs(lba, nsecs, nheads));
  }

  lemma LongTrack(nsecs: nat, nheads: nat)
    requires nsecs > 63 && nheads > 0
    ensures Accepted(63, nsecs, nheads) && !Carried(63, nsecs, nheads)
  {
    hide LbaToChs, Or;
    TrackStart(0, 63, nsecs, nheads);
  }

  lemma ManyHeads(nsecs: nat, nheads: nat)
    requires nsecs > 0 && nheads > 0x100
    ensures Accepted(0x100 * nsecs, nsecs, nheads) && !Carried(0x100 * nsecs, nsecs, nheads)
  {
    hide LbaToChs, Or;
    TrackStart(0x100, 0, nsecs, nheads);
  }

  predicate Accepted(lba: nat, nsecs: nat, nheads: nat)
    requires nsecs > 0 && nheads > 0
  {
    LbaToChs(lba, nsecs, nheads).cylinder <= 1023
  }

  predicate Carried(lba: nat, nsecs: nat, nheads: nat)
    requires nsecs > 0 && nheads > 0
  {
    ChsMapsBack(lba, nsecs, nheads);
    InRegisters(LbaToChs(lba, nsecs, nheads)) == LbaToChs(lba, nsecs, nheads)
  }

  /** A sector of cylinder 0. */
  lemma TrackStart(head: nat, s: nat, nsecs: nat, nheads: nat)
    requires head < nheads && s < nsecs
    ensures 0 <= head * nsecs && LbaToChs(head * nsecs + s, nsecs, nheads) == Chs(0, head, s + 1)
  {
    MulMono(head + 1, nheads, nsecs);
    MulMono(0, head, nsecs);
    DivModUnique(head * nsecs + s, nsecs, head, s);
    DivModUnique(head * nsecs + s, nsecs * nheads, 0, head * nsecs + s);
  }

  lemma SameCylinder(lba: nat, x: nat, nsecs: nat, nheads: nat)
    requires nsecs > 0 && nheads > 0 && lba <= x && LbaToChs(lba, nsecs, nheads).sector + (x - lba) <= nsecs
    ensures LbaToChs(x, nsecs, nheads).cylinder == LbaToChs(lba, nsecs, nheads).cylinder
  {
    var hs, hsrem := nsecs * nheads, lba % (nsecs * nheads);
    MulMono(1, nsecs, nheads);
    QuotientBelow(hsrem, nsecs, nheads);
    MulMono(hsrem / nsecs + 1, nheads, nsecs);
    assert hsrem == hsrem / nsecs * nsecs + hsrem % nsecs;
    DivModUnique(x, hs, lba / hs, hsrem + (x - lba));
  }

  /** How many sectors fit before the next 64K boundary. */
  function DmaMaxTransfer(buffer: nat, count: nat, maxsecsize: nat): (n: nat)
    requires maxsecsize > 0
    ensures n <= count
  {
    var dmaOff := buffer % 0x1_0000;
    var sectorsToBoundary := if dmaOff == 0 then Div(0xffff, maxsecsize) else Div(0x1_0000 - dmaOff, maxsecsize);
    if count < sectorsToBoundary then count else sectorsToBoundary
  }

  /** They do not cross it. */
  lemma DmaStaysInside(buffer: nat, count: nat, maxsecsize: nat, secsize: nat)
    requires 0 < secsize <= maxsecsize
    ensures buffer % 0x1_0000 + DmaMaxTransfer(buffer, count, maxsecsize) * secsize <= 0x1_0000
  {
    var dmaOff := buffer % 0x1_0000;
    var room := if dmaOff == 0 then 0xffff else 0x1_0000 - dmaOff;
    var n, q := DmaMaxTransfer(buffer, count, maxsecsize), Div(room, maxsecsize);
    assert q * maxsecsize <= room;
    MulMono(n, q, secsize);
    assert q * secsize <= q * maxsecsize by {
      MulMono(secsize, maxsecsize, q);
    }
  }

  /** Nor are they more than the packet of an LBA call can count. */
  lemma DmaBelow(buffer: nat, count: nat, maxsecsize: nat)
    requires maxsecsize >= 512
    ensures DmaMaxTransfer(buffer, count, maxsecsize) < COUNT_LIMIT
  {
    var dmaOff := buffer % 0x1_0000;
    var room := if dmaOff == 0 then 0xffff else 0x1_0000 - dmaOff;
    var q := Div(room, maxsecsize);
    assert q * maxsecsize <= room;
    if q >= COUNT_LIMIT {
      MulMono(COUNT_LIMIT, q, maxsecsize);
    }
  }

  // ---------- sectors in memory and on the disk ----------

  /** Room for `n` sectors at `addr`. */
  predicate Fits(m: seq<byte>, addr: int, secsize: nat, n: int) {
    0 <= addr && 0 <= n && addr + n * secsize <= |m|
  }

  /** Sector `k` of those at `addr`. */
  function SectorAt(m: seq<byte>, addr: int, secsize: nat, k: nat): (r: Sector)
    requires Fits(m, addr, secsize, k + 1)
    ensures |r| == secsize
  {
    MulMono(0, k, secsize);
    assert (k + 1) * secsize == k * secsize + secsize;
    m[addr + k * secsize..addr + k * secsize + secsize]
  }

  lemma FewerFit(m: seq<byte>, addr: int, secsize: nat, n: int, k: int)
    requires Fits(m, addr, secsize, n) && 0 <= k <= n
    ensures Fits(m, addr, secsize, k)
  {
    MulMono(k, n, secsize);
  }

  lemma FirstFits(m: seq<byte>, addr: int, secsize: nat, n: int)
    requires Fits(m, addr, secsize, n) && 1 <= n
    ensures Fits(m, addr, secsize, 1) && addr + secsize <= |m|
  {
    MulMono(1, n, secsize);
  }

  lemma SameRoom(m: seq<byte>, m': seq<byte>, addr: int, secsize: nat, n: int)
    requires Fits(m, addr, secsize, n) && |m'| == |m|
    ensures Fits(m', addr, secsize, n)
  {}

  /** Sector `k` of those at `addr` is sector `k` of those of the disk from `lba` on. */
  ghost predicate HoldsAt(m: seq<byte>, addr: int, secsize: nat, disk: Disk, unit: int, lba: int, k: nat) {
    Fits(m, addr, secsize, k + 1) && SectorAt(m, addr, secsize, k) == disk[Block(unit, lba + k)]
  }

  /** The `n` sectors at `addr` are those of the disk from `lba` on. */
  ghost predicate Holds(m: seq<byte>, addr: int, secsize: nat, disk: Disk, unit: int, lba: int, n: int) {
    Fits(m, addr, secsize, n) && forall k: nat :: k < n ==> HoldsAt(m, addr, secsize, disk, unit, lba, k)
  }

  /** Memory differs in the `n` bytes at `addr` at most. */
  ghost predicate MemOnly(m: seq<byte>, m': seq<byte>, addr: int, n: int) {
    |m'| == |m| && forall x :: 0 <= x < |m| && !(addr <= x < addr + n) ==> m'[x] == m[x]
  }

  /** The disk differs in the `n` sectors from `lba` on at most. */
  ghost predicate DiskOnly(d: Disk, d': Disk, unit: int, lba: int, n: int) {
    forall k: Block :: !(k.unit == unit && lba <= k.no < lba + n) ==> d'[k] == d[k]
  }

  /** What is held does not depend on memory elsewhere. */
  lemma HoldsElsewhere(m: seq<byte>, m': seq<byte>, addr: int, secsize: nat, disk: Disk, unit: int, lba: int, n: int,
                       at: int, len: int)
    requires Holds(m, addr, secsize, disk, unit, lba, n) && MemOnly(m, m', at, len)
    requires addr + n * secsize <= at || at + len <= addr
    ensures Holds(m', addr, secsize, disk, unit, lba, n)
  {
    hide SectorAt, MemOnly;
    forall k: nat | k < n ensures HoldsAt(m', addr, secsize, disk, unit, lba, k) {
      assert HoldsAt(m, addr, secsize, disk, unit, lba, k);
      SectorElsewhere(m, m', addr, secsize, n, at, len, k);
    }
    SameLength(m, m', at, len);
  }

  lemma SameLength(m: seq<byte>, m': seq<byte>, at: int, len: int)
    requires MemOnly(m, m', at, len)
    ensures |m'| == |m|
  {}

  lemma SectorElsewhere(m: seq<byte>, m': seq<byte>, addr: int, secsize: nat, n: int, at: int, len: int, k: nat)
    requires Fits(m, addr, secsize, n) && k < n && MemOnly(m, m', at, len)
    requires addr + n * secsize <= at || at + len <= addr
    ensures Fits(m, addr, secsize, k + 1) && Fits(m', addr, secsize, k + 1)
    ensures SectorAt(m', addr, secsize, k) == SectorAt(m, addr, secsize, k)
  {
    FewerFit(m, addr, secsize, n, k + 1);
    MulMono(0, k, secsize);
    assert (k + 1) * secsize == k * secsize + secsize;
    MulMono(k + 1, n, secsize);
  }

  /** Two adjacent runs held make one. */
  lemma HoldsMore(m: seq<byte>, addr: int, secsize: nat, disk: Disk, unit: int, lba: int, n: int, count: int)
    requires Holds(m, addr, secsize, disk, unit, lba, n) && count >= 0
    requires Holds(m, addr + n * secsize, secsize, disk, unit, lba + n, count)
    ensures Holds(m, addr, secsize, disk, unit, lba, n + count)
  {
    hide HoldsAt;
    assert addr + n * secsize + count * secsize == addr + (n + count) * secsize;
    forall k: nat | k < n + count ensures HoldsAt(m, addr, secsize, disk, unit, lba, k) {
      if k >= n {
        var at, l, j := addr + n * secsize, lba + n, k - n;
        assert HoldsAt(m, at, secsize, disk, unit, l, j);
        HoldsShift(m, addr, secsize, disk, unit, lba, n, j);
      }
    }
  }

  lemma HoldsShift(m: seq<byte>, addr: int, secsize: nat, disk: Disk, unit: int, lba: int, n: int, j: nat)
    requires 0 <= addr && 0 <= n && HoldsAt(m, addr + n * secsize, secsize, disk, unit, lba + n, j)
    ensures HoldsAt(m, addr, secsize, disk, unit, lba, n + j)
  {
    assert (n + j + 1) * secsize == n * secsize + (j + 1) * secsize;
    assert (n + j) * secsize == n * secsize + j * secsize;
  }

  lemma HoldsDiskElsewhere(m: seq<byte>, addr: int, secsize: nat, d: Disk, d': Disk, unit: int, lba: int, n: int,
                           lo: int, len: int)
    requires Holds(m, addr, secsize, d, unit, lba, n) && DiskOnly(d, d', unit, lo, len)
    requires lba + n <= lo || lo + len <= lba
    ensures Holds(m, addr, secsize, d', unit, lba, n)
  {
    forall k: nat | k < n ensures HoldsAt(m, addr, secsize, d', unit, lba, k) {
      assert HoldsAt(m, addr, secsize, d, unit, lba, k);
      assert d'[Block(unit, lba + k)] == d[Block(unit, lba + k)];
    }
  }

  // ---------- the drive ----------

  /** The call asks for `count` sectors from `lba` on at `addr`, inside one track if it names one; packet or registers
      can say so. */
  predicate CallIs(c: Call, lba: int, count: int, addr: int, nsecs: int, nheads: int) {
    && c.count == count && 0 <= count < COUNT_LIMIT && c.addr == addr
    && match c
       case LbaCall(_, l, _, _) => l == lba
       case ChsCall(_, chs, _, _) =>
         && count >= 1 && LbaOf(chs, nsecs, nheads) == lba && 0 <= chs.cylinder <= 1023 && 0 <= chs.head < nheads
         && 1 <= chs.sector && chs.sector + count <= nsecs + 1 && InRegisters(chs) == chs
  }

  class Drive {
    const unit: int
    const secsize: nat
    const maxsecsize: nat
    const nsecs: nat
    const nheads: nat
    /** DF_LBA, DF_DMA_TRANSPARENT, DF_WRTVERIFY */
    const lbaCalls: bool
    const dmaTransparent: bool
    const wrtVerify: bool
    const mem: array<byte>
    /** DiskTransferBuffer */
    const bounce: nat
    /** what the BIOS answers to each call */
    const answer: nat -> int

    var disk: Disk
    var calls: seq<Call>

    constructor (unit: int, secsize: nat, maxsecsize: nat, nsecs: nat, nheads: nat, lbaCalls: bool,
                 dmaTransparent: bool,
                 wrtVerify: bool, mem: array<byte>, bounce: nat, answer: nat -> int, disk: Disk)
      requires 0 < secsize <= maxsecsize && 512 <= maxsecsize && bounce + secsize <= mem.Length
               && CS.Sized(secsize, disk)
      requires 0 < nsecs && 0 < nheads && (!lbaCalls ==> nsecs <= 63 && nheads <= 0x100)
      ensures Ok() && calls == [] && this.disk == disk && this.mem == mem
    {
      this.unit, this.secsize, this.maxsecsize, this.nsecs, this.nheads := unit, secsize, maxsecsize, nsecs, nheads;
      this.lbaCalls, this.dmaTransparent, this.wrtVerify := lbaCalls, dmaTransparent, wrtVerify;
      this.mem, this.bounce, this.answer, this.disk, this.calls := mem, bounce, answer, disk, [];
    }

    ghost predicate Ok()
      reads this
    {
      && 0 < secsize <= maxsecsize && 512 <= maxsecsize && bounce + secsize <= mem.Length && CS.Sized(secsize, disk)
      && 0 < nsecs && 0 < nheads && (!lbaCalls ==> nsecs <= 63 && nheads <= 0x100)
    }

    /** How many of `count` sectors a call asks for: a packet has a byte for them. */
    function Sent(count: nat): nat { if lbaCalls then count % COUNT_LIMIT else count }

    /** A request whose every call can say how many sectors it is for: calls that name a track, chunks that end at
        64K boundaries, single sectors through the transfer buffer, or few sectors. */
    predicate Carries(buffer: nat, total: nat) {
      !lbaCalls || !dmaTransparent || total < COUNT_LIMIT || Div(buffer, 16) >= 0xa000
    }

    /** Of `n` sectors, those really transferred. */
    function Arrived(buffer: nat, total: nat, n: nat): nat { if Carries(buffer, total) then n else n % COUNT_LIMIT }

    /** How many of the calls from number `from` to before `to` the BIOS fails. */
    ghost function Failures(from: nat, to: nat): nat {
      if to <= from then 0 else Failures(from, to - 1) + if answer(to - 1) != 0 then 1 else 0
    }

    lemma {:induction false} FailuresAdd(from: nat, mid: nat, to: nat)
      requires from <= mid <= to
      ensures Failures(from, to) == Failures(from, mid) + Failures(mid, to)
    {
      if mid < to {
        FailuresAdd(from, mid, to - 1);
      }
    }

    lemma {:induction false} NoFailures(from: nat, to: nat)
      requires forall i: nat :: answer(i) == 0
      ensures Failures(from, to) == 0
    {
      if from < to {
        NoFailures(from, to - 1);
      }
    }

    /** The last call has failed with `err`. */
    ghost predicate Refused(from: nat, err: int)
      reads `calls
    {
      from < |calls| && err == answer(|calls| - 1)
    }

    /** So have as many calls since number `from` as there are attempts. */
    ghost predicate GaveUp(from: nat, err: int)
      reads `calls
    {
      Refused(from, err) && Failures(from, |calls|) >= N_RETRY
    }

    lemma GaveUpSince(from: nat, mid: nat, err: int)
      requires from <= mid && GaveUp(mid, err)
      ensures GaveUp(from, err)
    {
      FailuresAdd(from, mid, |calls|);
    }

    /** The drive cannot address sector `lba`. */
    predicate Beyond(lba: nat)
      requires nsecs > 0 && nheads > 0
    {
      !lbaCalls && LbaToChs(lba, nsecs, nheads).cylinder > 1023
    }

    /** The drive can address `n` sectors from `lba` on. */
    ghost predicate Reachable(lba: nat, n: nat)
      requires nsecs > 0 && nheads > 0
    {
      forall x: nat :: lba <= x < lba + n ==> !Beyond(x)
    }

    /** A call that stays on a track stays on its cylinder. */
    lemma TrackReachable(lba: nat, n: nat)
      requires nsecs > 0 && nheads > 0 && !lbaCalls && !Beyond(lba)
      requires LbaToChs(lba, nsecs, nheads).sector + n <= nsecs + 1
      ensures Reachable(lba, n)
    {
      hide LbaToChs;
      forall x: nat | lba <= x < lba + n ensures !Beyond(x) {
        SameCylinder(lba, x, nsecs, nheads);
      }
    }

    /** Copies sectors of the disk to memory. */
    method Load(lba: int, count: nat, addr: int)
      requires Ok() && Fits(mem[..], addr, secsize, count)
      modifies mem
      ensures Holds(mem[..], addr, secsize, disk, unit, lba, count)
              && MemOnly(old(mem[..]), mem[..], addr, count * secsize)
    {
      ghost var m0 := mem[..];
      for k := 0 to count
        invariant Fits(mem[..], addr, secsize, k)
        invariant Holds(mem[..], addr, secsize, disk, unit, lba, k) && MemOnly(m0, mem[..], addr, k * secsize)
      {
        ghost var m1 := mem[..];
        FewerFit(mem[..], addr, secsize, count, k + 1);
        assert (k + 1) * secsize == k * secsize + secsize;
        CopyIn(addr + k * secsize, disk[Block(unit, lba + k)]);
        LoadedMore(m1, mem[..], addr, secsize, disk, unit, lba, k);
      }
    }

    method CopyIn(at: int, data: seq<byte>)
      requires 0 <= at && at + |data| <= mem.Length
      modifies mem
      ensures MemOnly(old(mem[..]), mem[..], at, |data|) && mem[at..at + |data|] == data
    {
      for i := 0 to |data|
        invariant MemOnly(old(mem[..]), mem[..], at, |data|) && forall j :: 0 <= j < i ==> mem[at + j] == data[j]
      {
        mem[at + i] := data[i];
      }
    }

    /** Copies sectors of memory to the disk. */
    method Store(lba: int, count: nat, addr: int)
      requires Ok() && Fits(mem[..], addr, secsize, count)
      modifies `disk
      ensures Ok() && Holds(mem[..], addr, secsize, disk, unit, lba, count)
              && DiskOnly(old(disk), disk, unit, lba, count)
    {
      for k := 0 to count
        invariant Ok() && Fits(mem[..], addr, secsize, k)
        invariant Holds(mem[..], addr, secsize, disk, unit, lba, k) && DiskOnly(old(disk), disk, unit, lba, k)
      {
        ghost var d1 := disk;
        FewerFit(mem[..], addr, secsize, count, k + 1);
        disk := disk[Block(unit, lba + k) := SectorAt(mem[..], addr, secsize, k)];
        StoredMore(mem[..], addr, secsize, d1, disk, unit, lba, k);
      }
    }

    /** One BIOS call: fl_lba_ReadWrite, fl_read, fl_write or fl_verify. */
    method Bios(c: Call, lba: int, count: nat, addr: int) returns (err: int)
      requires Ok() && Fits(mem[..], addr, secsize, count)
      modifies mem, `disk, `calls
      ensures Ok() && calls == old(calls) + [c] && err == answer(|old(calls)|)
      ensures Effect(c.op, old(mem[..]), old(disk), mem[..], disk, unit, secsize, lba, addr, count,
              if err == 0 then count else 0)
    {
      hide Holds, Fits, MemOnly, DiskOnly;
      NothingDone(c.op, mem[..], disk, unit, secsize, lba, addr, count);
      err := answer(|calls|);
      calls := calls + [c];
      if err == 0 {
        if c.op == Read {
          Load(lba, count, addr);
        } else if c.op != Verify {
          Store(lba, count, addr);
        }
      }
    }

    /** Call number `i` did `op` for `count` sectors from `lba` on, and the BIOS reported success. */
    ghost predicate Did(cs: seq<Call>, i: nat, op: Mode, lba: int, count: int) {
      i < |cs| && cs[i].op == op && CallLba(cs[i], nsecs, nheads) == lba && cs[i].count == count && answer(i) == 0
    }

    /** What was asked for was done: by one call, or written and then verified if there is no call for both. */
    ghost predicate Serves(cs: seq<Call>, i: nat, mode: Mode, lba: int, count: int) {
      if mode == WriteVerify && !(lbaCalls && wrtVerify) then
        Did(cs, i, Write, lba, count) && Did(cs, i + 1, Verify, lba, count)
      else Did(cs, i, mode, lba, count)
    }

    /** That was so of a call since number `from`. */
    ghost predicate Backed(from: nat, cs: seq<Call>, mode: Mode, lba: int, count: int) {
      exists i: nat :: from <= i && Serves(cs, i, mode, lba, count)
    }

    ghost predicate AllBacked(from: nat, cs: seq<Call>, mode: Mode, runs: seq<Run>) {
      forall j :: 0 <= j < |runs| ==> Backed(from, cs, mode, runs[j].lba, runs[j].count)
    }

    lemma StaysBacked(from: nat, from': nat, cs: seq<Call>, cs': seq<Call>, mode: Mode, lba: int, count: int)
      requires Backed(from, cs, mode, lba, count) && from' <= from && cs <= cs'
      ensures Backed(from', cs', mode, lba, count)
    {
      var i: nat :| from <= i && Serves(cs, i, mode, lba, count);
      assert Serves(cs', i, mode, lba, count);
    }

    lemma StayAllBacked(from: nat, cs: seq<Call>, cs': seq<Call>, mode: Mode, runs: seq<Run>)
      requires AllBacked(from, cs, mode, runs) && cs <= cs'
      ensures AllBacked(from, cs', mode, runs)
    {
      hide Backed;
      forall j | 0 <= j < |runs| ensures Backed(from, cs', mode, runs[j].lba, runs[j].count) {
        StaysBacked(from, from, cs, cs', mode, runs[j].lba, runs[j].count);
      }
    }

    lemma OneMoreBacked(from: nat, since: nat, cs: seq<Call>, mode: Mode, runs: seq<Run>, r: Run)
      requires AllBacked(from, cs, mode, runs) && from <= since && Backed(since, cs, mode, r.lba, r.count)
      ensures AllBacked(from, cs, mode, runs + [r])
    {
      hide Backed;
      StaysBacked(since, from, cs, cs, mode, r.lba, r.count);
    }

    lemma NextRun(from: nat, since: nat, cs: seq<Call>, mode: Mode, runs: seq<Run>, start: int, n: int, count: nat)
      requires Covers(runs, start, n) && AllBacked(from, cs, mode, runs) && from <= since
      requires Backed(since, cs, mode, start + n, count)
      ensures Covers(WithRun(runs, start + n, count), start, n + count)
      ensures AllBacked(from, cs, mode, WithRun(runs, start + n, count))
    {
      hide Backed, Covers, AllBacked;
      if count > 0 {
        CoversMore(runs, start, n, count);
        OneMoreBacked(from, since, cs, mode, runs, Run(start + n, count));
      }
    }

    /** What `LBA_Transfer` calls for one chunk. */
    ghost predicate CalledFor(calls0: seq<Call>, lba: int, n: int, addr: int)
      reads `calls
    {
      && calls0 <= calls
      && forall i :: |calls0| <= i < |calls| ==>
          calls[i].count <= n && CallIs(calls[i], lba, calls[i].count, addr, nsecs, nheads)
    }

    lemma CalledOnce(calls0: seq<Call>, c: Call, lba: int, count: nat, addr: int)
      requires calls == calls0 + [c] && CallIs(c, lba, count, addr, nsecs, nheads)
      ensures CalledFor(calls0, lba, count, addr)
      ensures answer(|calls0|) == 0 && !(c.op == WriteVerify && !(lbaCalls && wrtVerify)) ==>
                Backed(|calls0|, calls, c.op, lba, count)
    {
      assert Did(calls, |calls0|, c.op, lba, count) <==> answer(|calls0|) == 0;
      assert forall i :: |calls0| <= i < |calls| ==> calls[i] == c;
      if answer(|calls0|) == 0 && !(c.op == WriteVerify && !(lbaCalls && wrtVerify)) {
        assert Serves(calls, |calls0|, c.op, lba, count);
      }
    }

    lemma CalledTwice(calls0: seq<Call>, c: Call, lba: int, count: nat, addr: int)
      requires calls == calls0 + [c.(op := Write)] + [c.(op := Verify)] && CallIs(c, lba, count, addr, nsecs, nheads)
      requires answer(|calls0|) == 0 && !(lbaCalls && wrtVerify)
      ensures CalledFor(calls0, lba, count, addr)
      ensures answer(|calls0| + 1) == 0 ==> Backed(|calls0|, calls, WriteVerify, lba, count)
    {
      hide LbaOf, InRegisters;
      assert calls[|calls0|] == c.(op := Write) && calls[|calls0| + 1] == c.(op := Verify);
      assert Did(calls, |calls0|, Write, lba, count)
             && (Did(calls, |calls0| + 1, Verify, lba, count) <==> answer(|calls0| + 1) == 0);
      if answer(|calls0| + 1) == 0 {
        assert Serves(calls, |calls0|, WriteVerify, lba, count);
      }
    }

    /** One call, or a write and then a verify, if the one call for both is not to be used. */
    method CallFor(c: Call, lba: int, count: nat, addr: int, split: bool) returns (err: int)
      requires Ok() && Fits(mem[..], addr, secsize, count) && CallIs(c, lba, count, addr, nsecs, nheads)
      requires split == !(lbaCalls && wrtVerify)
      modifies mem, `disk, `calls
      ensures Ok() && CalledFor(old(calls), lba, count, addr)
              && (err == 0 ==> Backed(|old(calls)|, calls, c.op, lba, count))
      ensures err != 0 ==> Refused(|old(calls)|, err)
      ensures Effect(c.op, old(mem[..]), old(disk), mem[..], disk, unit, secsize, lba, addr, count,
              if err == 0 then count else 0)
    {
      hide Effect, Fits, CallIs, CalledFor, Backed, Ok;
      if c.op != WriteVerify || !split {
        err := Bios(c, lba, count, addr);
        CalledOnce(old(calls), c, lba, count, addr);
      } else {
        err := WriteThenVerify(c, lba, count, addr);
      }
    }

    method WriteThenVerify(c: Call, lba: int, count: nat, addr: int) returns (err: int)
      requires Ok() && Fits(mem[..], addr, secsize, count) && CallIs(c, lba, count, addr, nsecs, nheads)
               && !(lbaCalls && wrtVerify)
      modifies mem, `disk, `calls
      ensures Ok() && CalledFor(old(calls), lba, count, addr)
              && (err == 0 ==> Backed(|old(calls)|, calls, WriteVerify, lba, count))
      ensures err != 0 ==> Refused(|old(calls)|, err)
      ensures Effect(WriteVerify, old(mem[..]), old(disk), mem[..], disk, unit, secsize, lba, addr, count,
              if err == 0 then count else 0)
    {
      hide Effect, Fits, CalledFor, Backed, Ok, LbaOf, InRegisters;
      ghost var m0, d0, w := mem[..], disk, c.(op := Write);
      assert CallIs(w, lba, count, addr, nsecs, nheads);
      err := Bios(c.(op := Write), lba, count, addr);
      ghost var m1, d1, k := mem[..], disk, if err == 0 then count else 0;
      CalledOnce(old(calls), w, lba, count, addr);
      if err == 0 {
        SameRoom(m0, m1, addr, secsize, count);
        err := Bios(c.(op := Verify), lba, count, addr);
        VerifyDoesNothing(m1, d1, mem[..], disk, unit, secsize, lba, addr, count, if err == 0 then count else 0);
        CalledTwice(old(calls), c, lba, count, addr);
      }
      ThenVerified(m0, d0, mem[..], disk, unit, secsize, lba, addr, count, k, if err == 0 then count else 0);
    }

    /** The body of the retry loop.  `ok` is false beyond cylinder 1023. */
    method Attempt(mode: Mode, lba: nat, count0: nat, addr: int) returns (err: int, count: nat, ok: bool)
      requires Ok() && 1 <= count0 && Fits(mem[..], addr, secsize, count0)
      modifies mem, `disk, `calls
      ensures Ok() && CalledFor(old(calls), lba, Sent(count0), addr) && 1 <= count <= count0
              && (lbaCalls ==> count == count0)
      ensures ok && err == 0 ==> Backed(|old(calls)|, calls, mode, lba, Sent(count))
      ensures if !ok then err == 1 && Beyond(lba)
              else if err != 0 then Refused(|old(calls)|, err) else Reachable(lba, count)
      ensures Effect(mode, old(mem[..]), old(disk), mem[..], disk, unit, secsize, lba, addr, Sent(count0),
                     if ok && err == 0 then Sent(count) else 0)
    {
      hide Effect, Fits, LbaToChs, LbaOf, Backed, InRegisters;
      count, ok, err := count0, true, 0;
      if lbaCalls {
        var blocks := count % COUNT_LIMIT;
        FewerFit(mem[..], addr, secsize, count0, blocks);
        err := CallFor(LbaCall(mode, lba, blocks, addr), lba, blocks, addr, !wrtVerify);
      } else {
        ghost var m0, d0 := mem[..], disk;
        NothingDone(mode, m0, d0, unit, secsize, lba, addr, count0);
        ChsMapsBack(lba, nsecs, nheads);
        var chs := LbaToChs(lba, nsecs, nheads);
        if chs.cylinder > 1023 {
          return 1, count, false;
        }
        if chs.sector + count > nsecs + 1 {
          count := nsecs + 1 - chs.sector;
        }
        TrackReachable(lba, count);
        FewerFit(mem[..], addr, secsize, count0, count);
        RegistersCarry(chs);
        err := CallFor(ChsCall(mode, chs, count, addr), lba, count, addr, true);
        EffectWider(mode, m0, d0, mem[..], disk, unit, secsize, lba, addr, count, count0,
          if err == 0 then count else 0);
      }
    }

    lemma LastFailed(from: nat, err: int)
      requires Refused(from, err) && err != 0
      ensures Failures(from, |calls|) >= 1
    {}

    /** The retries of one chunk. */
    method Retry(mode: Mode, lba: nat, count0: nat, addr: int) returns (err: int, count: nat, ok: bool)
      requires Ok() && 1 <= count0 && Fits(mem[..], addr, secsize, count0)
      modifies mem, `disk, `calls
      ensures Ok() && CalledFor(old(calls), lba, Sent(count0), addr) && 1 <= count <= count0
              && (lbaCalls ==> count == count0)
      ensures ok && err == 0 ==> Backed(|old(calls)|, calls, mode, lba, Sent(count))
      ensures if !ok then err == 1 && Beyond(lba)
              else if err != 0 then GaveUp(|old(calls)|, err) else Reachable(lba, count)
      ensures Effect(mode, old(mem[..]), old(disk), mem[..], disk, unit, secsize, lba, addr, Sent(count0),
                     if ok && err == 0 then Sent(count) else 0)
    {
      hide Effect, Fits, Holds, MemOnly, DiskOnly, CallIs, Backed, Failures, Reachable, Beyond;
      ghost var m0, d0 := mem[..], disk;
      FewerFit(m0, addr, secsize, count0, Sent(count0));
      NothingDone(mode, m0, d0, unit, secsize, lba, addr, Sent(count0));
      count, ok, err := count0, true, 1;
      var retries := 0;
      while retries < N_RETRY
        invariant Ok() && CalledFor(old(calls), lba, Sent(count0), addr) && 1 <= count <= count0 && ok && err != 0
        invariant (lbaCalls ==> count == count0) && (retries > 0 ==> Refused(|old(calls)|, err))
        invariant 0 <= retries <= N_RETRY && Failures(|old(calls)|, |calls|) >= retries && |old(calls)| <= |calls|
        invariant Effect(mode, m0, d0, mem[..], disk, unit, secsize, lba, addr, Sent(count0), 0)
      {
        ghost var m1, d1, n, calls1 := mem[..], disk, count, calls;
        SameRoom(m0, m1, addr, secsize, count0);
        FewerFit(m1, addr, secsize, count0, count);
        err, count, ok := Attempt(mode, lba, count, addr);
        EffectMore(mode, m0, d0, m1, d1, mem[..], disk, unit, secsize, lba, addr, Sent(count0), Sent(n),
                   if ok && err == 0 then Sent(count) else 0);
        if !ok {
          return;
        }
        FailuresAdd(|old(calls)|, |calls1|, |calls|);
        if err == 0 {
          StaysBacked(|calls1|, |old(calls)|, calls, calls, mode, lba, Sent(count));
          break;
        }
        LastFailed(|calls1|, err);
        retries := retries + 1;
      }
    }

    /** The calls made since: each inside lba..lba+n-1 and inside one track, and a direct one inside one 64K window
        if the drive needs that. */
    ghost predicate Proper(calls0: seq<Call>, calls1: seq<Call>, lba: int, n: int) {
      calls0 <= calls1 && forall i :: |calls0| <= i < |calls1| ==> ProperCall(calls1[i], lba, n)
    }

    ghost predicate ProperCall(c: Call, lba: int, n: int) {
      && CallIs(c, CallLba(c, nsecs, nheads), c.count, c.addr, nsecs, nheads)
      && lba <= CallLba(c, nsecs, nheads) && CallLba(c, nsecs, nheads) + c.count <= lba + n
      && (!dmaTransparent && c.addr != bounce ==> c.addr % 0x1_0000 + c.count * secsize <= 0x1_0000)
    }

    lemma CalledProper(calls0: seq<Call>, lba: int, n: int, count: int, addr: int)
      requires CalledFor(calls0, lba, count, addr) && count <= n
      requires !dmaTransparent && addr != bounce ==> addr % 0x1_0000 + count * secsize <= 0x1_0000
      ensures Proper(calls0, calls, lba, n)
    {
      forall i | |calls0| <= i < |calls| ensures ProperCall(calls[i], lba, n) {
        MulMono(calls[i].count, count, secsize);
      }
    }

    lemma NoCalls(cs: seq<Call>, lba: int, n: int, mode: Mode)
      ensures Proper(cs, cs, lba, n) && AllBacked(|cs|, cs, mode, [])
    {}

    lemma ProperMore(calls0: seq<Call>, calls1: seq<Call>, calls2: seq<Call>, lba: int, total: int, n: int)
      requires Proper(calls0, calls1, lba, total) && Proper(calls1, calls2, lba + n, total - n) && 0 <= n <= total
      ensures Proper(calls0, calls2, lba, total) && calls0 <= calls2 && calls1 <= calls2
    {
      forall i | |calls0| <= i < |calls2| ensures ProperCall(calls2[i], lba, total) {
        if i < |calls1| {
          assert calls2[i] == calls1[i];
        } else {
          assert ProperCall(calls2[i], lba + n, total - n);
        }
      }
    }

    /** One round of the loop: as many sectors as one call can transfer, through the transfer buffer if it must. */
    method Chunk(mode: Mode, buffer: nat, lba: nat, totaltodo: nat) returns (err: int, count: nat, ok: bool)
      requires Ok() && 1 <= totaltodo && Fits(mem[..], buffer, secsize, totaltodo)
      requires Apart(buffer, totaltodo * secsize, bounce, secsize)
      modifies mem, `disk, `calls
      ensures Ok() && 1 <= count <= totaltodo && Proper(old(calls), calls, lba, totaltodo)
      ensures ok && err == 0 ==> Backed(|old(calls)|, calls, mode, lba, Sent(count))
      ensures if !ok then err == 1 && Beyond(lba)
              else if err != 0 then GaveUp(|old(calls)|, err) else Reachable(lba, count)
      ensures if Carries(buffer, totaltodo) then Sent(count) == count else count == totaltodo
      ensures Moved(mode, old(mem[..]), old(disk), mem[..], disk, unit, secsize, lba, buffer,
              Arrived(buffer, totaltodo, totaltodo),
                    if ok && err == 0 then Sent(count) else 0, bounce)
    {
      hide Moved, Fits, Proper, Backed, DmaMaxTransfer, GaveUp, Reachable, Beyond, Apart, Ok;
      Sizes();
      count := totaltodo;
      if !dmaTransparent {
        count := DmaMaxTransfer(buffer, totaltodo, maxsecsize);
        DmaStaysInside(buffer, totaltodo, maxsecsize, secsize);
        DmaBelow(buffer, totaltodo, maxsecsize);
      }
      if Div(buffer, 16) >= 0xa000 || count == 0 {
        err, count, ok := Bounced(mode, buffer, lba, totaltodo);
      } else {
        err, count, ok := Straight(mode, buffer, lba, count, totaltodo, Arrived(buffer, totaltodo, totaltodo));
      }
    }

    lemma Sizes()
      requires Ok()
      ensures 0 < secsize <= maxsecsize && 512 <= maxsecsize && Fits(mem[..], bounce, secsize, 1)
              && bounce + secsize <= mem.Length
    {}

    /** Sectors straight from or to the user's memory. */
    method Straight(mode: Mode, buffer: nat, lba: nat, count0: nat, ghost totaltodo: nat, ghost room: nat)
      returns (err: int, count: nat, ok: bool)
      requires Ok() && 1 <= count0 <= totaltodo && Sent(count0) <= room && Fits(mem[..], buffer, secsize, totaltodo)
      requires !dmaTransparent ==> buffer % 0x1_0000 + count0 * secsize <= 0x1_0000
      modifies mem, `disk, `calls
      ensures Ok() && 1 <= count <= count0 && (lbaCalls ==> count == count0)
              && Proper(old(calls), calls, lba, totaltodo)
      ensures ok && err == 0 ==> Backed(|old(calls)|, calls, mode, lba, Sent(count))
      ensures if !ok then err == 1 && Beyond(lba)
              else if err != 0 then GaveUp(|old(calls)|, err) else Reachable(lba, count)
      ensures Moved(mode, old(mem[..]), old(disk), mem[..], disk, unit, secsize, lba, buffer, room,
                    if ok && err == 0 then Sent(count) else 0, bounce)
    {
      hide Effect, Moved, Fits, CalledFor, Proper, Backed, GaveUp, Reachable, Beyond, Ok;
      ghost var m0, d0 := mem[..], disk;
      FewerFit(m0, buffer, secsize, totaltodo, count0);
      err, count, ok := Retry(mode, lba, count0, buffer);
      MulMono(Sent(count0), count0, secsize);
      CalledProper(old(calls), lba, totaltodo, Sent(count0), buffer);
      DirectMoved(mode, m0, d0, mem[..], disk, unit, secsize, lba, buffer, Sent(count0), room,
                  if ok && err == 0 then Sent(count) else 0, bounce);
    }

    /** One sector from or to the transfer buffer, into which the user's is copied before a write. */
    method ThroughBuffer(mode: Mode, buffer: nat, lba: nat, ghost totaltodo: nat)
      returns (err: int, count: nat, ok: bool, ghost m1: seq<byte>)
      requires Ok() && 1 <= totaltodo && Fits(mem[..], buffer, secsize, totaltodo) && buffer + secsize <= mem.Length
      modifies mem, `disk, `calls
      ensures Ok() && count == 1 && Proper(old(calls), calls, lba, totaltodo)
      ensures ok && err == 0 ==> Backed(|old(calls)|, calls, mode, lba, count)
      ensures if !ok then err == 1 && Beyond(lba)
              else if err != 0 then GaveUp(|old(calls)|, err) else Reachable(lba, count)
      ensures if mode == Read || mode == Verify then m1 == old(mem[..]) else MemOnly(old(mem[..]), m1, bounce, secsize)
      ensures |m1| == mem.Length && bounce + secsize <= |m1|
      ensures mode == Write || mode == WriteVerify ==>
                m1[bounce..bounce + secsize] == old(mem[buffer..buffer + secsize])
      ensures Effect(mode, m1, old(disk), mem[..], disk, unit, secsize, lba, bounce, 1, if ok && err == 0 then 1 else 0)
    {
      hide Effect, CalledFor, Proper, Backed, GaveUp, Reachable, Beyond, Ok, Fits;
      Sizes();
      ghost var m0 := mem[..];
      if mode == Write || mode == WriteVerify {
        CopyIn(bounce, mem[buffer..buffer + secsize]);
      }
      m1 := mem[..];
      SameRoom(m0, m1, bounce, secsize, 1);
      err, count, ok := Retry(mode, lba, 1, bounce);
      CalledProper(old(calls), lba, totaltodo, 1, bounce);
    }

    /** One sector through the transfer buffer. */
    method Bounced(mode: Mode, buffer: nat, lba: nat, ghost totaltodo: nat) returns (err: int, count: nat, ok: bool)
      requires Ok() && 1 <= totaltodo && Fits(mem[..], buffer, secsize, totaltodo)
      requires Apart(buffer, totaltodo * secsize, bounce, secsize)
      modifies mem, `disk, `calls
      ensures Ok() && count == 1 && Proper(old(calls), calls, lba, totaltodo)
      ensures ok && err == 0 ==> Backed(|old(calls)|, calls, mode, lba, count)
      ensures if !ok then err == 1 && Beyond(lba)
              else if err != 0 then GaveUp(|old(calls)|, err) else Reachable(lba, count)
      ensures Moved(mode, old(mem[..]), old(disk), mem[..], disk, unit, secsize, lba, buffer, totaltodo,
                    if ok && err == 0 then count else 0, bounce)
    {
      hide Effect, Moved, Proper, Apart, MemOnly, Backed, GaveUp, Reachable, Beyond, Ok, Fits;
      ghost var m0, d0 := mem[..], disk;
      FirstFits(m0, buffer, secsize, totaltodo);
      ghost var m1;
      err, count, ok, m1 := ThroughBuffer(mode, buffer, lba, totaltodo);
      ghost var done := if ok && err == 0 then 1 else 0;
      if mode != Read {
        BounceWritten(mode, m0, d0, m1, mem[..], disk, unit, secsize, lba, buffer, totaltodo, done, bounce);
      } else if done == 0 {
        BounceFailed(m0, d0, mem[..], disk, unit, secsize, lba, buffer, totaltodo, bounce);
      }
      if ok && err == 0 && mode == Read {
        ghost var m2 := mem[..];
        if buffer != bounce {
          CopyIn(buffer, mem[bounce..bounce + secsize]);
        }
        BounceRead(m0, d0, m2, mem[..], disk, unit, secsize, lba, buffer, totaltodo, bounce);
      }
    }

    /** Transfers sectors, until all are or a call keeps failing.  `transferred` counts those reported; just if the
        request carries are they those that have arrived. */
    method LbaTransfer(mode: Mode, buffer0: nat, lbaAddress: nat, totaltodo0: nat)
      returns (err: int, transferred: nat, ghost runs: seq<Run>)
      requires Ok() && Fits(mem[..], buffer0, secsize, totaltodo0)
               && Apart(buffer0, totaltodo0 * secsize, bounce, secsize)
      modifies mem, `disk, `calls
      ensures Ok() && transferred <= totaltodo0 && (err == 0 ==> transferred == totaltodo0)
      ensures err == 0 ==> Reachable(lbaAddress, totaltodo0)
      ensures err != 0 ==> transferred < totaltodo0
      ensures err != 0 ==> GaveUp(|old(calls)|, err) || (err == 1 && Beyond(lbaAddress + transferred))
      ensures Covers(runs, lbaAddress, Arrived(buffer0, totaltodo0, transferred))
              && AllBacked(|old(calls)|, calls, mode, runs)
      ensures err == 0 ==> (Covers(runs, lbaAddress, totaltodo0) <==> Carries(buffer0, totaltodo0))
      ensures Proper(old(calls), calls, lbaAddress, totaltodo0)
      ensures Moved(mode, old(mem[..]), old(disk), mem[..], disk, unit, secsize, lbaAddress, buffer0,
                    Arrived(buffer0, totaltodo0, totaltodo0), Arrived(buffer0, totaltodo0, transferred), bounce)
    {
      hide Moved, Proper, Covers, Fits, Apart, Backed, AllBacked, GaveUp, Reachable, Beyond, Div, Carries, Sent,
           Arrived, Ok, WithRun;
      ghost var m0, d0, total := mem[..], disk, Arrived(buffer0, totaltodo0, totaltodo0);
      var lba: nat, totaltodo: nat, buffer: nat := lbaAddress, totaltodo0, buffer0;
      transferred, runs, err := 0, [], 0;
      ArrivesFrom(buffer0, totaltodo0);
      Room(m0, buffer0, secsize, totaltodo0, total, bounce);
      Started(mode, m0, d0, unit, secsize, lbaAddress, buffer0, total, bounce);
      NoCalls(calls, lbaAddress, totaltodo0, mode);
      Geometry(lbaAddress);
      while totaltodo != 0
        invariant Ok() && transferred + totaltodo == totaltodo0 && lba == lbaAddress + transferred && err == 0
        invariant buffer == buffer0 + transferred * secsize
        invariant Fits(mem[..], buffer, secsize, totaltodo) && Apart(buffer, totaltodo * secsize, bounce, secsize)
        invariant if Carries(buffer0, totaltodo0) then Carries(buffer, totaltodo)
                  else transferred == 0 || totaltodo == 0
        invariant (transferred == 0 ==> buffer == buffer0) && Reachable(lbaAddress, transferred)
        invariant Covers(runs, lbaAddress, Arrived(buffer0, totaltodo0, transferred))
                  && AllBacked(|old(calls)|, calls, mode, runs)
        invariant old(calls) <= calls && Proper(old(calls), calls, lbaAddress, totaltodo0)
        invariant Moved(mode, m0, d0, mem[..], disk, unit, secsize, lbaAddress, buffer0, total,
                        Arrived(buffer0, totaltodo0, transferred), bounce)
      {
        ghost var m1, d1, calls1, n := mem[..], disk, calls, Arrived(buffer0, totaltodo0, transferred);
        var count, ok;
        err, count, ok := Chunk(mode, buffer, lba, totaltodo);
        ArrivedMore(buffer0, totaltodo0, transferred, buffer, totaltodo, count);
        ProperMore(old(calls), calls1, calls, lbaAddress, totaltodo0, transferred);
        StayAllBacked(|old(calls)|, calls1, calls, mode, runs);
        MovedMore(mode, m0, d0, m1, d1, mem[..], disk, unit, secsize, lbaAddress, buffer0, total, n,
                  if ok && err == 0 then Sent(count) else 0, bounce);
        if !ok {
          return 1, transferred, runs;
        }
        if err != 0 {
          GaveUpSince(|old(calls)|, |calls1|, err);
          return;
        }
        ReachableMore(lbaAddress, transferred, count);
        NextRun(|old(calls)|, |calls1|, calls, mode, runs, lbaAddress, n, Sent(count));
        runs := WithRun(runs, lba, Sent(count));
        SameRoom(m1, mem[..], buffer, secsize, totaltodo);
        Advance(mem[..], buffer, secsize, totaltodo, count, bounce);
        if Carries(buffer, totaltodo) {
          CarriesOn(buffer, totaltodo, buffer + count * secsize, totaltodo - count);
        }
        assert (transferred + count) * secsize == transferred * secsize + count * secsize;
        transferred := transferred + count;
        lba := lba + count;
        totaltodo := totaltodo - count;
        buffer := buffer + count * secsize;
      }
      CoversIff(runs, lbaAddress, buffer0, totaltodo0);
    }

    lemma Geometry(lba: nat)
      requires Ok()
      ensures nsecs > 0 && nheads > 0 && secsize > 0 && Reachable(lba, 0)
    {}

    lemma ReachableMore(lba: nat, n: nat, count: nat)
      requires nsecs > 0 && nheads > 0 && Reachable(lba, n) && Reachable(lba + n, count)
      ensures Reachable(lba, n + count)
    {}

    lemma ArrivesFrom(buffer: nat, total: nat)
      ensures Arrived(buffer, total, 0) == 0 && Arrived(buffer, total, total) <= total
    {}

    /** A chunk more. */
    lemma ArrivedMore(buffer0: nat, total0: nat, transferred: nat, buffer: nat, total: nat, count: nat)
      requires transferred + total == total0 && 1 <= count <= total
      requires if Carries(buffer0, total0) then Carries(buffer, total) else transferred == 0
      requires if Carries(buffer, total) then Sent(count) == count else count == total
      requires transferred == 0 ==> buffer == buffer0
      ensures Arrived(buffer0, total0, transferred + count) == Arrived(buffer0, total0, transferred) + Sent(count)
      ensures Arrived(buffer, total, total) == Arrived(buffer0, total0, total0) - Arrived(buffer0, total0, transferred)
      ensures Arrived(buffer0, total0, transferred) == transferred && Arrived(buffer, total, total) >= 0
      ensures !Carries(buffer0, total0) ==> transferred == 0 && count == total
      ensures transferred == 0 || transferred < Arrived(buffer0, total0, total0)
    {}

    lemma CarriesOn(buffer: nat, total: nat, buffer': nat, total': nat)
      requires Carries(buffer, total) && Div(buffer', 16) >= Div(buffer, 16) && total' <= total
      ensures Carries(buffer', total')
    {}

    lemma CoversIff(runs: seq<Run>, start: int, buffer: nat, total: nat)
      requires Covers(runs, start, Arrived(buffer, total, total))
      ensures Covers(runs, start, total) <==> Carries(buffer, total)
    {
      hide Covers;
      if Covers(runs, start, total) {
        CoversUnique(runs, start, total, Arrived(buffer, total, total));
      }
    }

    /** A request for 256 sectors by packets is reported done, and nothing has been transferred. */
    method NoneArrive(mode: Mode, buffer: nat, lba: nat) returns (err: int, transferred: nat)
      requires Ok() && lbaCalls && dmaTransparent && buffer < 0xa0000 && forall i: nat :: answer(i) == 0
      requires Fits(mem[..], buffer, secsize, 256) && Apart(buffer, 256 * secsize, bounce, secsize)
      modifies mem, `disk, `calls
      ensures err == 0 && transferred == 256 && disk == old(disk)
      ensures forall x :: 0 <= x < mem.Length && !(bounce <= x < bounce + secsize) ==> mem[x] == old(mem[x])
    {
      hide Proper, Fits, Apart, AllBacked, Holds, Failures;
      ghost var runs, d0 := [], disk;
      ghost var from := |calls|;
      err, transferred, runs := LbaTransfer(mode, buffer, lba, 256);
      NoFailures(from, |calls|);
      assert Arrived(buffer, 256, 256) == 0;
      assert forall k :: disk[k] == d0[k];
    }
  }

  /** The first `n` sectors of a request fit, apart from the transfer buffer. */
  lemma Room(m: seq<byte>, buffer: int, secsize: nat, total: int, n: int, bounce: int)
    requires Fits(m, buffer, secsize, total) && Apart(buffer, total * secsize, bounce, secsize) && 0 <= n <= total
    ensures Fits(m, buffer, secsize, n) && Apart(buffer, n * secsize, bounce, secsize)
  {
    MulMono(n, total, secsize);
  }

  /** So do the sectors left after `count`. */
  lemma Advance(m: seq<byte>, buffer: int, secsize: nat, total: int, count: int, bounce: int)
    requires Fits(m, buffer, secsize, total) && Apart(buffer, total * secsize, bounce, secsize) && 0 <= count <= total
    ensures Fits(m, buffer + count * secsize, secsize, total - count)
    ensures Apart(buffer + count * secsize, (total - count) * secsize, bounce, secsize) && 0 <= count * secsize
    ensures Div(buffer + count * secsize, 16) >= Div(buffer, 16)
  {
    Parts(count, total, secsize);
  }

  function CallLba(c: Call, nsecs: int, nheads: int): int {
    match c
    case LbaCall(_, lba, _, _) => lba
    case ChsCall(_, chs, _, _) => LbaOf(chs, nsecs, nheads)
  }

  lemma Started(mode: Mode, m: seq<byte>, d: Disk, unit: int, secsize: nat, lba: int, buffer: int, n: int, bounce: int)
    requires Fits(m, buffer, secsize, n)
    ensures Moved(mode, m, d, m, d, unit, secsize, lba, buffer, n, 0, bounce) && Covers([], lba, 0)
  {
    FewerFit(m, buffer, secsize, n, 0);
  }

  /** What a transfer of up to `n` sectors does, of which the first `count` have been transferred: nothing elsewhere,
      and of these memory and disk hold the same. */
  ghost predicate Effect(mode: Mode, m0: seq<byte>, d0: Disk, m: seq<byte>, d: Disk, unit: int, secsize: nat,
                         lba: int, addr: int, n: int, count: int)
  {
    && (if mode == Read then MemOnly(m0, m, addr, n * secsize) else m == m0)
    && (if mode == Write || mode == WriteVerify then DiskOnly(d0, d, unit, lba, n) else d == d0)
    && (mode != Verify ==> Holds(m, addr, secsize, d, unit, lba, count))
  }

  lemma NothingDone(mode: Mode, m: seq<byte>, d: Disk, unit: int, secsize: nat, lba: int, addr: int, n: int)
    requires Fits(m, addr, secsize, n)
    ensures Effect(mode, m, d, m, d, unit, secsize, lba, addr, n, 0)
  {
    FewerFit(m, addr, secsize, n, 0);
  }

  lemma VerifyDoesNothing(m0: seq<byte>, d0: Disk, m: seq<byte>, d: Disk, unit: int, secsize: nat, lba: int, addr: int,
                          n: int, k: int)
    requires Effect(Verify, m0, d0, m, d, unit, secsize, lba, addr, n, k)
    ensures m == m0 && d == d0
  {}

  /** Writing and then verifying, which may fail. */
  lemma ThenVerified(m0: seq<byte>, d0: Disk, m: seq<byte>, d: Disk, unit: int, secsize: nat, lba: int, addr: int,
                     n: int, k: int, count: int)
    requires (count == k || count == 0) && 0 <= k && Effect(Write, m0, d0, m, d, unit, secsize, lba, addr, n, k)
    ensures Effect(WriteVerify, m0, d0, m, d, unit, secsize, lba, addr, n, count)
  {
    FewerFit(m, addr, secsize, k, count);
  }

  /** A failed attempt and another one. */
  lemma EffectMore(mode: Mode, m0: seq<byte>, d0: Disk, m1: seq<byte>, d1: Disk, m2: seq<byte>, d2: Disk, unit: int,
                   secsize: nat, lba: int, addr: int, n: int, n': int, count: int)
    requires Effect(mode, m0, d0, m1, d1, unit, secsize, lba, addr, n, 0) && n' <= n
    requires Effect(mode, m1, d1, m2, d2, unit, secsize, lba, addr, n', count)
    ensures Effect(mode, m0, d0, m2, d2, unit, secsize, lba, addr, n, count)
  {
    hide Holds;
    MulMono(n', n, secsize);
  }

  lemma EffectWider(mode: Mode, m0: seq<byte>, d0: Disk, m: seq<byte>, d: Disk, unit: int, secsize: nat,
                    lba: int, addr: int, n: int, n': int, count: int)
    requires Effect(mode, m0, d0, m, d, unit, secsize, lba, addr, n, count) && n <= n'
    ensures Effect(mode, m0, d0, m, d, unit, secsize, lba, addr, n', count)
  {
    MulMono(n, n', secsize);
  }

  lemma HoldsOneMore(m: seq<byte>, addr: int, secsize: nat, disk: Disk, unit: int, lba: int, k: nat)
    requires Holds(m, addr, secsize, disk, unit, lba, k) && Fits(m, addr, secsize, k + 1)
    requires SectorAt(m, addr, secsize, k) == disk[Block(unit, lba + k)]
    ensures Holds(m, addr, secsize, disk, unit, lba, k + 1)
  {
    assert HoldsAt(m, addr, secsize, disk, unit, lba, k);
    hide HoldsAt;
    forall j: nat | j < k + 1 ensures HoldsAt(m, addr, secsize, disk, unit, lba, j) {
      assert j < k || j == k;
    }
  }

  lemma LoadedMore(m1: seq<byte>, m2: seq<byte>, addr: int, secsize: nat, disk: Disk, unit: int, lba: int, k: nat)
    requires Holds(m1, addr, secsize, disk, unit, lba, k) && Fits(m1, addr, secsize, k + 1)
    requires MemOnly(m1, m2, addr + k * secsize, secsize)
    requires 0 <= addr + k * secsize && addr + k * secsize + secsize <= |m2|
    requires m2[addr + k * secsize..addr + k * secsize + secsize] == disk[Block(unit, lba + k)]
    ensures Holds(m2, addr, secsize, disk, unit, lba, k + 1)
  {
    HoldsElsewhere(m1, m2, addr, secsize, disk, unit, lba, k, addr + k * secsize, secsize);
    HoldsOneMore(m2, addr, secsize, disk, unit, lba, k);
  }

  lemma StoredMore(m: seq<byte>, addr: int, secsize: nat, d1: Disk, d2: Disk, unit: int, lba: int, k: nat)
    requires Holds(m, addr, secsize, d1, unit, lba, k) && Fits(m, addr, secsize, k + 1)
    requires d2 == d1[Block(unit, lba + k) := SectorAt(m, addr, secsize, k)]
    ensures Holds(m, addr, secsize, d2, unit, lba, k + 1)
  {
    HoldsDiskElsewhere(m, addr, secsize, d1, d2, unit, lba, k, lba + k, 1);
    HoldsOneMore(m, addr, secsize, d2, unit, lba, k);
  }

  // ---------- one chunk ----------

  /** Byte `x` belongs to the transfer buffer or to what is read into. */
  predicate MayChange(mode: Mode, x: int, buffer: int, len: int, bounce: int, secsize: int) {
    (bounce != buffer && bounce <= x < bounce + secsize) || (mode == Read && buffer <= x < buffer + len)
  }

  /** What a transfer does for the user: as `Effect`, but the transfer buffer may have been used. */
  ghost predicate Moved(mode: Mode, m0: seq<byte>, d0: Disk, m: seq<byte>, d: Disk, unit: int, secsize: nat,
                        lba: int, buffer: int, n: int, count: int, bounce: int)
  {
    && |m| == |m0|
    && (forall x :: 0 <= x < |m0| && m[x] != m0[x] ==> MayChange(mode, x, buffer, n * secsize, bounce, secsize))
    && (if mode == Write || mode == WriteVerify then DiskOnly(d0, d, unit, lba, n) else d == d0)
    && (mode != Verify ==> Holds(m, buffer, secsize, d, unit, lba, count))
  }

  /** The transfer buffer lies apart from the user's, or is the user's, for one sector. */
  predicate Apart(buffer: int, len: int, bounce: int, secsize: int) {
    buffer + len <= bounce || bounce + secsize <= buffer || (buffer == bounce && len <= secsize)
  }

  lemma DirectMoved(mode: Mode, m0: seq<byte>, d0: Disk, m: seq<byte>, d: Disk, unit: int, secsize: nat,
                    lba: int, buffer: int, n: int, n': int, count: int, bounce: int)
    requires Effect(mode, m0, d0, m, d, unit, secsize, lba, buffer, n, count) && n <= n'
    ensures Moved(mode, m0, d0, m, d, unit, secsize, lba, buffer, n', count, bounce)
  {
    hide Holds;
    MulMono(n, n', secsize);
  }

  lemma HoldsOne(m: seq<byte>, addr: int, secsize: nat, disk: Disk, unit: int, lba: int)
    requires Fits(m, addr, secsize, 1)
    ensures Holds(m, addr, secsize, disk, unit, lba, 1) <==> m[addr..addr + secsize] == disk[Block(unit, lba)]
  {
    assert SectorAt(m, addr, secsize, 0) == m[addr..addr + secsize];
    assert HoldsAt(m, addr, secsize, disk, unit, lba, 0) <==> m[addr..addr + secsize] == disk[Block(unit, lba)];
    hide HoldsAt;
  }

  /** A sector written from the transfer buffer, into which the user's had been copied, or only verified. */
  lemma BounceWritten(mode: Mode, m0: seq<byte>, d0: Disk, m1: seq<byte>, m: seq<byte>, d: Disk, unit: int,
                      secsize: nat,
                      lba: int, buffer: int, n: int, count: int, bounce: int)
    requires mode != Read && Fits(m0, buffer, secsize, n) && 1 <= n && 0 <= count <= 1 && 0 <= bounce
             && bounce + secsize <= |m0|
    requires Apart(buffer, n * secsize, bounce, secsize)
    requires if mode == Verify then m1 == m0
             else MemOnly(m0, m1, bounce, secsize) && m1[bounce..bounce + secsize] == m0[buffer..buffer + secsize]
    requires buffer + secsize <= |m0| && Effect(mode, m1, d0, m, d, unit, secsize, lba, bounce, 1, count)
    ensures Moved(mode, m0, d0, m, d, unit, secsize, lba, buffer, n, count, bounce)
  {
    FewerFit(m0, buffer, secsize, n, 1);
    FewerFit(m0, buffer, secsize, n, 0);
    MulMono(1, n, secsize);
    if mode != Verify && count == 1 {
      HoldsOne(m, bounce, secsize, d, unit, lba);
      HoldsOne(m, buffer, secsize, d, unit, lba);
      assert m[buffer..buffer + secsize] == m0[buffer..buffer + secsize];
    }
  }

  /** A sector read into the transfer buffer and copied from there. */
  lemma BounceRead(m0: seq<byte>, d0: Disk, m1: seq<byte>, m: seq<byte>, d: Disk, unit: int, secsize: nat,
                   lba: int, buffer: int, n: int, bounce: int)
    requires Fits(m0, buffer, secsize, n) && 1 <= n && 0 <= bounce && bounce + secsize <= |m0|
             && buffer + secsize <= |m0|
    requires Effect(Read, m0, d0, m1, d, unit, secsize, lba, bounce, 1, 1)
    requires MemOnly(m1, m, buffer, secsize) && m[buffer..buffer + secsize] == m1[bounce..bounce + secsize]
    ensures Moved(Read, m0, d0, m, d, unit, secsize, lba, buffer, n, 1, bounce)
  {
    FewerFit(m0, buffer, secsize, n, 1);
    MulMono(1, n, secsize);
    HoldsOne(m1, bounce, secsize, d, unit, lba);
    HoldsOne(m, buffer, secsize, d, unit, lba);
  }

  lemma BounceFailed(m0: seq<byte>, d0: Disk, m: seq<byte>, d: Disk, unit: int, secsize: nat,
                     lba: int, buffer: int, n: int, bounce: int)
    requires Fits(m0, buffer, secsize, n) && 1 <= n && Effect(Read, m0, d0, m, d, unit, secsize, lba, bounce, 1, 0)
    ensures Moved(Read, m0, d0, m, d, unit, secsize, lba, buffer, n, 0, bounce)
  {
    FewerFit(m0, buffer, secsize, n, 0);
  }

  /** A chunk, and what had been transferred before it. */
  lemma MovedMore(mode: Mode, m0: seq<byte>, d0: Disk, m1: seq<byte>, d1: Disk, m2: seq<byte>, d2: Disk, unit: int,
                  secsize: nat,
                  lba: int, buffer: int, total: int, n: int, count: int, bounce: int)
    requires 0 <= n <= total && 0 <= count && Fits(m0, buffer, secsize, total)
             && Apart(buffer, total * secsize, bounce, secsize)
    requires 0 < secsize && (n == 0 || n < total)
    requires Moved(mode, m0, d0, m1, d1, unit, secsize, lba, buffer, total, n, bounce)
    requires Moved(mode, m1, d1, m2, d2, unit, secsize, lba + n, buffer + n * secsize, total - n, count, bounce)
    ensures Moved(mode, m0, d0, m2, d2, unit, secsize, lba, buffer, total, n + count, bounce)
  {
    assert n * secsize + (total - n) * secsize == total * secsize;
    MulMono(0, n, secsize);
    MulMono(0, total - n, secsize);
    if mode != Verify {
      MovedKeeps(mode, m1, d1, m2, d2, unit, secsize, lba, buffer, total, n, count, bounce);
      hide Holds;
      HoldsMore(m2, buffer, secsize, d2, unit, lba, n, count);
    }
  }

  lemma MovedKeeps(mode: Mode, m1: seq<byte>, d1: Disk, m2: seq<byte>, d2: Disk, unit: int, secsize: nat,
                   lba: int, buffer: int, total: int, n: int, count: int, bounce: int)
    requires 0 <= n <= total && Fits(m1, buffer, secsize, total) && Apart(buffer, total * secsize, bounce, secsize)
             && mode != Verify
    requires 0 < secsize && (n == 0 || n < total)
    requires Holds(m1, buffer, secsize, d1, unit, lba, n)
    requires Moved(mode, m1, d1, m2, d2, unit, secsize, lba + n, buffer + n * secsize, total - n, count, bounce)
    ensures Holds(m2, buffer, secsize, d2, unit, lba, n)
  {
    Parts(n, total, secsize);
    forall k: nat | k < n ensures HoldsAt(m2, buffer, secsize, d2, unit, lba, k) {
      assert HoldsAt(m1, buffer, secsize, d1, unit, lba, k);
      KeptAt(mode, m1, d1, m2, d2, unit, secsize, lba, buffer, total, n, count, bounce, k);
    }
  }

  lemma Parts(n: int, total: int, secsize: nat)
    requires 0 <= n <= total
    ensures 0 <= n * secsize <= total * secsize && (total - n) * secsize == total * secsize - n * secsize
  {
    MulMono(0, n, secsize);
    MulMono(n, total, secsize);
  }

  lemma KeptAt(mode: Mode, m1: seq<byte>, d1: Disk, m2: seq<byte>, d2: Disk, unit: int, secsize: nat,
               lba: int, buffer: int, total: int, n: int, count: int, bounce: int, k: nat)
    requires k < n < total && Fits(m1, buffer, secsize, total) && Apart(buffer, total * secsize, bounce, secsize)
             && mode != Verify
    requires 0 < secsize
    requires Moved(mode, m1, d1, m2, d2, unit, secsize, lba + n, buffer + n * secsize, total - n, count, bounce)
    ensures Fits(m1, buffer, secsize, k + 1) && Fits(m2, buffer, secsize, k + 1)
    ensures SectorAt(m2, buffer, secsize, k) == SectorAt(m1, buffer, secsize, k)
    ensures d2[Block(unit, lba + k)] == d1[Block(unit, lba + k)]
  {
    hide Holds;
    Parts(n, total, secsize);
    MulMono(0, k, secsize);
    MulMono(k + 1, n, secsize);
    assert (k + 1) * secsize == k * secsize + secsize;
    var a := buffer + k * secsize;
    assert m2[a..a + secsize] == m1[a..a + secsize];
  }
}
