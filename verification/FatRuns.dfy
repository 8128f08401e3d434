/**
 Whole runs of the operations on cluster chains, over all files of a volume at once.
 */
module FatRuns {
  import opened FatFormat
  import opened Chains
  import FatFs
  import RwBlock

  /** The FAT and the chain of every file. */
  datatype Volume = Volume(links: Links, files: map<int, Chain>)

  /** Every chain is closed by the end mark, none comes back to itself, and no two share a cluster.
      Clusters in use by no file may exist. */
  ghost predicate WellFormed(v: Volume) {
    && (forall i :: i in v.files ==> IsFileChain(v.links, v.files[i]))
    && (forall i, j :: i in v.files && j in v.files && i != j ==> Disjoint(v.files[i], v.files[j]))
  }

  /** One operation: on a file, which grows at its end or is cut; or on none: a new empty file, or `extend`
      marking a free cluster and then failing to link it. */
  datatype Op = Grow(file: int) | Shrink(file: int) | Create(file: int) | Lose(c: nat)

  ghost predicate Step(v: Volume, op: Op, v': Volume) {
    match op
    case Grow(i) => OneFile(v, i, v') && FatFs.GrownSo(v.links, v.files[i], v'.links, v'.files[i])
    case Shrink(i) => OneFile(v, i, v') && Shrinks(v.links, v.files[i], v'.links, v'.files[i])
    case Create(i) => i !in v.files && v' == v.(files := v.files[i := []])
    case Lose(c) => 2 <= c < |v.links| && v.links[c] == FREE && v' == v.(links := v.links[c := LONG_LAST_CLUSTER])
  }

  ghost predicate OneFile(v: Volume, i: int, v': Volume) {
    i in v.files && i in v'.files && v'.files == v.files[i := v'.files[i]]
  }

  /** No entry of a file that the operation is not about changes. */
  lemma StepSpares(v: Volume, op: Op, v': Volume, j: int)
    requires WellFormed(v) && Step(v, op, v') && j in v.files && op != Grow(j) && op != Shrink(j)
    ensures j in v'.files && v'.files[j] == v.files[j] && IsFileChain(v'.links, v.files[j])
    ensures |v'.links| == |v.links|
    ensures forall x :: 0 <= x < |v.files[j]| ==>
              v.files[j][x] < |v.links| && v'.links[v.files[j][x]] == v.links[v.files[j][x]]
    ensures op.Grow? || op.Shrink? ==> Disjoint(v'.files[op.file], v.files[j])
  {
    var other := v.files[j];
    match op
    case Grow(i) =>
      if other != [] {
        GrowsApart(v.links, v.files[i], v'.links, v'.files[i], other);
      }
    case Shrink(i) =>
      if other != [] {
        ShrinksApart(v.links, v.files[i], v'.links, v'.files[i], other);
      }
    case Create(i) =>
    case Lose(c) =>
      forall x | 0 <= x < |other| ensures other[x] != c {
        NextOnChain(v.links, other, x);
      }
  }

  lemma StepWellFormed(v: Volume, op: Op, v': Volume)
    requires WellFormed(v) && Step(v, op, v')
    ensures WellFormed(v')
  {
    forall j | j in v.files && op != Grow(j) && op != Shrink(j)
      ensures j in v'.files && v'.files[j] == v.files[j] && IsFileChain(v'.links, v.files[j])
      ensures op.Grow? || op.Shrink? ==> Disjoint(v'.files[op.file], v.files[j])
    {
      StepSpares(v, op, v', j);
    }
    hide IsFileChain, FatFs.GrownSo;
    if op.Grow? {
      GrownIsFile(v.links, v.files[op.file], v'.links, v'.files[op.file]);
    }
    if op.Create? {
      NoChain(v'.links);
    }
  }

  lemma GrownIsFile(links: Links, ch: Chain, links': Links, ch': Chain)
    requires FatFs.GrownSo(links, ch, links', ch')
    ensures IsFileChain(links', ch')
  {}

  lemma NoChain(links: Links)
    ensures IsFileChain(links, [])
  {}

  // ---------- runs ----------

  ghost predicate Run(vs: seq<Volume>, ops: seq<Op>) {
    |vs| == |ops| + 1 && forall k {:trigger ops[k]} :: 0 <= k < |ops| ==> Step(vs[k], ops[k], vs[k + 1])
  }

  lemma RunPrefix(vs: seq<Volume>, ops: seq<Op>)
    requires Run(vs, ops) && |ops| > 0
    ensures Run(vs[..|ops|], ops[..|ops| - 1]) && Step(vs[|ops| - 1], ops[|ops| - 1], vs[|ops|])
  {
    var ops' := ops[..|ops| - 1];
    assert forall k :: 0 <= k < |ops'| ==> ops'[k] == ops[k];
  }

  /** Chains stay closed, acyclic and disjoint in every run. */
  lemma {:induction false} RunKeepsWellFormed(vs: seq<Volume>, ops: seq<Op>)
    requires Run(vs, ops) && WellFormed(vs[0])
    ensures WellFormed(vs[|ops|])
    decreases |ops|
  {
    hide WellFormed, Step;
    if |ops| > 0 {
      RunPrefix(vs, ops);
      RunKeepsWellFormed(vs[..|ops|], ops[..|ops| - 1]);
      StepWellFormed(vs[|ops| - 1], ops[|ops| - 1], vs[|ops|]);
    }
  }

  /** A file that no operation of the run is about keeps its chain, and all its entries. */
  lemma {:induction false} RunSparesFile(vs: seq<Volume>, ops: seq<Op>, j: int)
    requires Run(vs, ops) && WellFormed(vs[0]) && j in vs[0].files && Grow(j) !in ops && Shrink(j) !in ops
    ensures var v, v' := vs[0], vs[|ops|];
      && j in v'.files && v'.files[j] == v.files[j] && |v'.links| == |v.links|
      && forall x :: 0 <= x < |v.files[j]| ==>
           v.files[j][x] < |v.links| && v'.links[v.files[j][x]] == v.links[v.files[j][x]]
    decreases |ops|
  {
    hide WellFormed, Step;
    if |ops| == 0 {
      EntriesInside(vs[0], j);
    } else {
      RunPrefix(vs, ops);
      RunSparesFile(vs[..|ops|], ops[..|ops| - 1], j);
      RunKeepsWellFormed(vs[..|ops|], ops[..|ops| - 1]);
      assert ops[|ops| - 1] in ops;
      StepSpares(vs[|ops| - 1], ops[|ops| - 1], vs[|ops|], j);
    }
  }

  lemma EntriesInside(v: Volume, j: int)
    requires WellFormed(v) && j in v.files
    ensures forall x :: 0 <= x < |v.files[j]| ==> v.files[j][x] < |v.links|
  {}

  // ---------- lost clusters ----------

  /** In use, but by no file. */
  ghost predicate Lost(v: Volume, c: nat) {
    2 <= c < |v.links| && v.links[c] != FREE && forall i :: i in v.files ==> c !in v.files[i]
  }

  lemma StepLost(v: Volume, op: Op, v': Volume, c: nat)
    requires WellFormed(v) && Step(v, op, v')
    ensures Lost(v', c) <==> Lost(v, c) || op == Lose(c)
  {
    if op.Grow? || op.Shrink? {
      var i := op.file;
      assert forall j :: j in v.files && j != i ==> j in v'.files && v'.files[j] == v.files[j];
      if c >= |v.links| {
        assert |v'.links| == |v.links|;
      } else if op.Grow? {
        GrowLost(v.links, v.files[i], v'.links, v'.files[i], c);
      } else {
        ShrinkLost(v.links, v.files[i], v'.links, v'.files[i], c);
      }
      OnlyOneFile(v, i, c);
    } else if op.Lose? {
      forall i, x | i in v.files && 0 <= x < |v.files[i]| ensures v.files[i][x] != op.c {
        NextOnChain(v.links, v.files[i], x);
      }
    } else {
      assert forall j :: j in v.files ==> j in v'.files && v'.files[j] == v.files[j];
    }
  }

  /** A cluster of one file is in no other. */
  lemma OnlyOneFile(v: Volume, i: int, c: nat)
    requires WellFormed(v) && i in v.files
    ensures c in v.files[i] ==> forall j :: j in v.files && j != i ==> c !in v.files[j]
  {}

  /** Growth and cutting move clusters between "free" and "in this chain" only. */
  lemma GrowLost(links: Links, ch: Chain, links': Links, ch': Chain, c: nat)
    requires Grows(links, ch, links', ch') && 0 <= c < |links|
    ensures c in ch ==> c in ch'
    ensures c in ch' ==> c in ch || links[c] == FREE
    ensures c !in ch' ==> links'[c] == links[c]
  {
    if c in ch' && c !in ch {
      var x :| 0 <= x < |ch'| && ch'[x] == c;
      assert x < |ch| ==> ch[x] == ch'[..|ch|][x];
    }
    assert forall x :: 0 <= x < |ch| ==> ch[x] == ch'[..|ch|][x] == ch'[x];
  }

  lemma ShrinkLost(links: Links, ch: Chain, links': Links, ch': Chain, c: nat)
    requires Shrinks(links, ch, links', ch') && 0 <= c < |links|
    ensures c in ch' ==> c in ch
    ensures c in ch ==> c in ch' || links'[c] == FREE
    ensures c !in ch ==> links'[c] == links[c]
  {
    assert forall x :: 0 <= x < |ch'| ==> ch'[x] == ch[..|ch'|][x] == ch[x];
  }

  /** The clusters lost at the end of a run are those lost before and those its failures lost: no other
      operation leaks a cluster, and none comes to be used again. */
  lemma {:induction false} RunLoses(vs: seq<Volume>, ops: seq<Op>, c: nat)
    requires Run(vs, ops) && WellFormed(vs[0])
    ensures Lost(vs[|ops|], c) <==> Lost(vs[0], c) || Lose(c) in ops
    decreases |ops|
  {
    hide WellFormed, Step, Lost;
    if |ops| > 0 {
      var ops' := ops[..|ops| - 1];
      RunPrefix(vs, ops);
      RunLoses(vs[..|ops|], ops', c);
      RunKeepsWellFormed(vs[..|ops|], ops');
      StepLost(vs[|ops| - 1], ops[|ops| - 1], vs[|ops|], c);
      assert ops == ops' + [ops[|ops| - 1]];
    }
  }

  // ---------- the operations are steps ----------

  function With(v: Volume, i: int, links: Links, ch: Chain): Volume {
    Volume(links, v.files[i := ch])
  }

  /** What `extend` does behind cluster `x` of a file, whether or not that is its last, is no step at all, a
      growth, or a loss. */
  lemma ExtendIsStep(v: Volume, i: int, x: nat, hint: nat, links': Links, start': nat, r: int)
    requires WellFormed(v) && i in v.files && 2 <= |v.links| <= LONG_BAD
             && (hint == UNKNCLUSTER || 2 <= hint < |v.links|)
    requires var ch := v.files[i];
      && (ch != [] ==> x < |ch|)
      && FatFs.Extended(v.links, hint, if ch == [] then FREE else ch[x], if ch == [] then FREE else ch[0], links',
         start', r)
    ensures var ch := v.files[i];
      || (r == LONG_LAST_CLUSTER && links' == v.links)
      || (r != LONG_LAST_CLUSTER && r >= 2 && Step(v, Grow(i), With(v, i, links', ch + [r])))
      || (r == LONG_LAST_CLUSTER && exists c: nat :: Step(v, Lose(c), v.(links := links')))
  {
    hide Grows, WellFormed, Free, Appended;
    var ch := v.files[i];
    var c := FindFree(v.links, hint);
    FindFreeFinds(v.links, hint);
    FileChainOf(v, i);
    if ch == [] || x == |ch| - 1 {
      FatFs.ExtendsLast(v.links, hint, ch, if ch == [] then FREE else ch[x], if ch == [] then FREE else ch[0], links',
        start', r);
    } else if c != LONG_LAST_CLUSTER {
      MarkedNext(v.links, ch, x, c);
      assert Step(v, Lose(c), v.(links := links'));
    }
  }

  lemma FileChainOf(v: Volume, i: int)
    requires WellFormed(v) && i in v.files
    ensures IsFileChain(v.links, v.files[i])
  {}

  /** Marking a free cluster leaves the step to the next cluster of a chain as it was. */
  lemma MarkedNext(links: Links, ch: Chain, x: nat, c: nat)
    requires IsChain(links, ch) && x + 1 < |ch| && 2 <= c < |links| && links[c] == FREE
    ensures Next(links[c := LONG_LAST_CLUSTER], ch[x]) == ch[x + 1] < LONG_BAD
  {
    var links' := links[c := LONG_LAST_CLUSTER];
    forall y | 0 <= y < |ch| ensures links'[ch[y]] == links[ch[y]] {
      NextOnChain(links, ch, y);
    }
    assert links[ch[x]] == ch[x + 1];
    assert IsChain(links', ch) by {
      assert forall y :: 0 <= y < |ch| - 1 ==> links[ch[y]] == ch[y + 1];
    }
    NextOnChain(links', ch, x);
  }

  /** Wiping out a file from its first cluster is a step. */
  lemma WipeIsStep(v: Volume, i: int)
    requires WellFormed(v) && i in v.files && v.files[i] != []
    ensures Step(v, Shrink(i), With(v, i, WipeOut(v.links, v.files[i][0]), []))
  {
    hide WipeOut, Freed;
    var ch := v.files[i];
    FileChainOf(v, i);
    WipeOutChain(v.links, ch);
    CutShrinks(v.links, ch, 0);
    assert ch[..0] == [];
  }

  /** A write, and the growth and cut of a truncation, are steps; the volume stays in order. */
  lemma WriteIsStep(v: Volume, i: int, links': Links, ch': Chain)
    requires WellFormed(v) && i in v.files && FatFs.GrownSo(v.links, v.files[i], links', ch')
    ensures Step(v, Grow(i), With(v, i, links', ch')) && WellFormed(With(v, i, links', ch'))
  {
    StepWellFormed(v, Grow(i), With(v, i, links', ch'));
  }

  lemma TruncateIsRun(v: Volume, i: int, links': Links, ch': Chain)
    requires WellFormed(v) && i in v.files && RwBlock.Resized(v.links, v.files[i], links', ch')
    ensures exists m :: Run([v, m, With(v, i, links', ch')], [Grow(i), Shrink(i)])
    ensures WellFormed(With(v, i, links', ch'))
  {
    hide FatFs.GrownSo, Shrinks, WellFormed;
    var l1, c1 :| FatFs.GrownSo(v.links, v.files[i], l1, c1) && Shrinks(l1, c1, links', ch');
    var m, v' := With(v, i, l1, c1), With(v, i, links', ch');
    assert m.files[i := ch'] == v'.files;
    StepWellFormed(v, Grow(i), m);
    StepWellFormed(m, Shrink(i), v');
    assert Run([v, m, v'], [Grow(i), Shrink(i)]);
  }
}
