/**
 The raw disk below the sector cache: every (unit, block) pair holds one sector.
 Device errors are not modelled, so a disk is a total map.
 */
module Disks {
  import opened Arithmetic

  type byte = b: int | 0 <= b < 0x100

  type Sector = seq<byte>

  datatype Block = Block(unit: int, no: int)

  type Disk = d: imap<Block, Sector> | forall k :: k in d ghost witness imap k: Block :: []

  /** Where the FAT copies of a unit lie: `fats` copies of `fatsize` sectors from `fatstrt`. */
  datatype Layout = Layout(fatstrt: nat, fatsize: nat, fats: nat)

  type Layouts = int -> Layout

  /** `k` lies in the first copy of the FAT of its unit. */
  ghost predicate InFat(geo: Layouts, k: Block) {
    var l := geo(k.unit);
    l.fatstrt <= k.no < l.fatstrt + l.fatsize
  }

  /** `k` lies in the second or a later copy of the FAT of its unit. */
  ghost predicate InMirror(geo: Layouts, k: Block) {
    var l := geo(k.unit);
    l.fatsize > 0 && l.fatstrt + l.fatsize <= k.no < l.fatstrt + l.fats * l.fatsize
  }

  /** The sector of the first copy that a sector of a later copy repeats. */
  ghost function Primary(geo: Layouts, k: Block): (p: Block)
    requires InMirror(geo, k)
    ensures InFat(geo, p) && p.unit == k.unit
  {
    var l := geo(k.unit);
    Block(k.unit, l.fatstrt + (k.no - l.fatstrt) % l.fatsize)
  }

  /** `k` is the sector `j` strides of `off` after `tag`. */
  ghost predicate IsCopy(tag: Block, off: int, j: int, k: Block) {
    k == Block(tag.unit, tag.no + j * off)
  }

  /** The strides from a sector of the first copy reach that sector and exactly its mirrors. */
  lemma CopiesAreMirrors(geo: Layouts, tag: Block, k: Block)
    requires InFat(geo, tag) && geo(tag.unit).fats >= 1
    ensures (exists j :: 0 <= j < geo(tag.unit).fats && IsCopy(tag, geo(tag.unit).fatsize, j, k))
       <==> k == tag || (InMirror(geo, k) && Primary(geo, k) == tag)
  {
    var l := geo(tag.unit);
    var n := l.fatsize;
    if j :| 0 <= j < l.fats && IsCopy(tag, n, j, k) && j != 0 {
      StrideBounds(l, tag.no - l.fatstrt, j);
      DivModUnique(k.no - l.fatstrt, n, j, tag.no - l.fatstrt);
    }
    if k == tag {
      assert IsCopy(tag, n, 0, k);
    } else if InMirror(geo, k) && Primary(geo, k) == tag {
      var d := k.no - l.fatstrt;
      var j := d / n;
      assert d == j * n + d % n;
      QuotientBelow(d, n, l.fats);
      assert IsCopy(tag, n, j, k);
    }
  }

  lemma StrideBounds(l: Layout, r: int, j: int)
    requires 0 <= r < l.fatsize && 1 <= j < l.fats
    ensures l.fatsize <= r + j * l.fatsize < l.fats * l.fatsize
  {
    MulMono(1, j, l.fatsize);
    MulMono(j + 1, l.fats, l.fatsize);
  }

  /** `bytes` laid over `data` from `at` on. */
  function Patched(data: seq<byte>, at: nat, bytes: seq<byte>): (r: seq<byte>)
    requires at + |bytes| <= |data|
    ensures |r| == |data|
    ensures forall i :: 0 <= i < |data| ==> r[i] == if at <= i < at + |bytes| then bytes[i - at] else data[i]
  {
    data[..at] + bytes + data[at + |bytes|..]
  }
}
