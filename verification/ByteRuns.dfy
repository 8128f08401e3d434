/**
 Whole runs of reads, writes and truncations over all files of a volume: each file refines an array of bytes of which
 those between an old end and a later write behind it are unknown.
 */
module ByteRuns {
  import opened Arithmetic
  import opened Disks
  import opened FatFormat
  import opened FatTab
  import opened Chains
  import opened FatFs
  import opened FileBytes
  import opened RwBlock
  import CS = CacheSpec
  import FatRuns

  /** What is seen of the disk, and chain and size of every file. */
  datatype State = State(view: Disk, files: map<int, Chain>, sizes: map<int, nat>)

  datatype Op = Read(file: int) | Write(file: int, at: nat, data: seq<byte>) | Truncate(file: int, at: nat)

  ghost function VolumeOf(g: Geometry, s: State): FatRuns.Volume
    requires g.Ok() && CS.Sized(g.secsize, s.view)
  {
    FatRuns.Volume(LinksIn(g, s.view), s.files)
  }

  ghost predicate InOrder(g: Geometry, s: State) {
    && g.Ok() && CS.Sized(g.secsize, s.view) && s.sizes.Keys == s.files.Keys
    && FatRuns.WellFormed(VolumeOf(g, s))
  }

  /** What `rwblock` promises: for one file, the others keep chain and size. */
  ghost predicate Step(g: Geometry, s: State, op: Op, s': State) {
    && g.Ok() && CS.Sized(g.secsize, s.view) && CS.Sized(g.secsize, s'.view)
    && op.file in s.files && op.file in s.sizes && op.file in s'.files && op.file in s'.sizes
    && s'.files == s.files[op.file := s'.files[op.file]] && s'.sizes == s.sizes[op.file := s'.sizes[op.file]]
    && OnFile(g, s.view, LinksIn(g, s.view), s.files[op.file], s.sizes[op.file],
              s'.view, LinksIn(g, s'.view), s'.files[op.file], s'.sizes[op.file], op)
  }

  /** A read changes nothing; a write splices its bytes; a truncation finds no room for its position, or ends the file
      there with the clusters it needs, or finds the chain too short for it. */
  ghost predicate OnFile(g: Geometry, v: Disk, links: Links, ch: Chain, size: nat,
                         v': Disk, links': Links, ch': Chain, size': nat, op: Op)
    requires g.secsize > 0
  {
    match op
    case Read(_) => v' == v && links' == links && ch' == ch && size' == size
    case Write(_, at, data) =>
      && Written(g, v, ch, v', ch', at, data) && GrownSo(links, ch, links', ch')
      && size' == if data == [] then size else Max(size, at + |data|)
    case Truncate(_, at) =>
      && FatOnly(g, v, v')
      && (|| (size < at && size' == size && GrownSo(links, ch, links', ch'))
          || (size' == at && |ch'| == ClustersFor(g, at) && Resized(links, ch, links', ch'))
          || (size' == at && links' == links && ch' == ch))
  }

  // ---------- the bytes known ----------

  type Known = map<nat, byte>

  function ByteFor(at: nat, data: seq<byte>, k: nat): byte
    requires at <= k < at + |data|
  {
    data[k - at]
  }

  /** The effect of an operation on the bytes known of its file. */
  function Plain(known: Known, op: Op): Known {
    match op
    case Read(_) => known
    case Write(_, at, data) => known + map k: nat | at <= k < at + |data| :: ByteFor(at, data, k)
    case Truncate(_, at) => map k | k in known && k < at :: known[k]
  }

  function PlainRun(known: Known, ops: seq<Op>, i: int): Known {
    if ops == [] then known
    else
      var before := PlainRun(known, ops[..|ops| - 1], i);
      if ops[|ops| - 1].file == i then Plain(before, ops[|ops| - 1]) else before
  }

  /** File `i` has these bytes, all below its size. */
  ghost predicate Shows(g: Geometry, s: State, i: int, known: Known) {
    && i in s.files && i in s.sizes && IsFile(g, s.view, s.files[i])
    && HasBytes(Content(g, s.view, s.files[i]), s.sizes[i], known)
  }

  ghost predicate HasBytes(b: seq<byte>, size: nat, known: Known) {
    forall k :: k in known ==> k < size && k < |b| && b[k] == known[k]
  }

  // ---------- one step ----------

  lemma SplicedHas(b: seq<byte>, b': seq<byte>, at: nat, data: seq<byte>, size: nat, known: Known, op: Op)
    requires Spliced(b, b', at, data) && HasBytes(b, size, known) && op.Write? && op.at == at && op.data == data
    ensures HasBytes(b', if data == [] then size else Max(size, at + |data|), Plain(known, op))
  {
    forall k | k in Plain(known, op) ensures k < |b'| && b'[k] == Plain(known, op)[k] {
      if !(at <= k < at + |data|) {
        assert k in known;
      }
    }
  }

  /** A file of another length keeps the bytes both have. */
  lemma ResizedHas(g: Geometry, v: Disk, links: Links, ch: Chain, v': Disk, links': Links, ch': Chain, size: nat,
                   known: Known, at: nat)
    requires g.Ok() && IsFile(g, v, ch) && IsFile(g, v', ch') && FatOnly(g, v, v')
             && HasBytes(Content(g, v, ch), size, known)
    requires |ch'| == ClustersFor(g, at) && Resized(links, ch, links', ch')
    ensures HasBytes(Content(g, v', ch'), at, map k | k in known && k < at :: known[k])
  {
    hide Content, Clusters, CS.Sized, Resized, RelCluster, Geometry.Ok;
    ResizedPrefix(links, ch, links', ch');
    ContentIs(g, v', ch');
    if at > 0 {
      HasCluster(g, |ch'|, at - 1);
    }
    if |ch| <= |ch'| {
      PrefixBytes(_ => g.Layout(), g, v, v', ch, ch');
    } else {
      PrefixBytes(_ => g.Layout(), g, v', v, ch', ch);
    }
  }

  lemma ContentIs(g: Geometry, v: Disk, ch: Chain)
    requires IsFile(g, v, ch)
    ensures |Content(g, v, ch)| == RwBlock.Bytes(g, |ch|)
  {}

  lemma GrownHas(g: Geometry, v: Disk, links: Links, ch: Chain, v': Disk, links': Links, ch': Chain, size: nat,
                 known: Known)
    requires g.Ok() && IsFile(g, v, ch) && IsFile(g, v', ch') && FatOnly(g, v, v')
             && HasBytes(Content(g, v, ch), size, known)
    requires GrownSo(links, ch, links', ch')
    ensures HasBytes(Content(g, v', ch'), size, known)
  {
    hide Content, Clusters, CS.Sized, FatOnly, Geometry.Ok;
    PrefixBytes(_ => g.Layout(), g, v, v', ch, ch');
  }

  lemma SameHas(g: Geometry, v: Disk, v': Disk, ch: Chain, size: nat, known: Known, at: nat)
    requires g.Ok() && IsFile(g, v, ch) && IsFile(g, v', ch) && FatOnly(g, v, v')
             && HasBytes(Content(g, v, ch), size, known)
    ensures HasBytes(Content(g, v', ch), at, map k | k in known && k < at :: known[k])
  {
    hide Content, Clusters, CS.Sized, FatOnly, Geometry.Ok;
    PrefixBytes(_ => g.Layout(), g, v, v', ch, ch);
  }

  /** The file an operation is about. */
  lemma StepShows(g: Geometry, s: State, op: Op, s': State, known: Known)
    requires Step(g, s, op, s') && Shows(g, s, op.file, known) && IsFile(g, s'.view, s'.files[op.file])
    ensures Shows(g, s', op.file, Plain(known, op))
  {
    hide Content, Clusters, CS.Sized, FatOnly, Resized, GrownSo, HasBytes, ClustersFor, LinksIn, Geometry.Ok, Spliced,
         FileOnly;
    var ch, ch', size := s.files[op.file], s'.files[op.file], s.sizes[op.file];
    var links, links' := LinksIn(g, s.view), LinksIn(g, s'.view);
    match op
    case Read(_) =>
    case Write(_, at, data) =>
      SplicedHas(Content(g, s.view, ch), Content(g, s'.view, ch'), at, data, size, known, op);
    case Truncate(_, at) =>
      if size < at && s'.sizes[op.file] == size && GrownSo(links, ch, links', ch') {
        GrownHas(g, s.view, links, ch, s'.view, links', ch', size, known);
        AllBelow(Content(g, s.view, ch), size, known, at);
      } else if |ch'| == ClustersFor(g, at) && Resized(links, ch, links', ch') {
        ResizedHas(g, s.view, links, ch, s'.view, links', ch', size, known, at);
      } else {
        SameHas(g, s.view, s'.view, ch, size, known, at);
      }
  }

  lemma AllBelow(b: seq<byte>, size: nat, known: Known, at: nat)
    requires HasBytes(b, size, known) && size <= at
    ensures (map k | k in known && k < at :: known[k]) == known
  {}

  /** No other file's chain or bytes change. */
  lemma StepSpares(g: Geometry, s: State, op: Op, s': State, j: int)
    requires InOrder(g, s) && Step(g, s, op, s') && InOrder(g, s') && j in s.files && j != op.file
    ensures j in s'.files && s'.files[j] == s.files[j] && j in s'.sizes && s'.sizes[j] == s.sizes[j]
    ensures IsFile(g, s.view, s.files[j]) && IsFile(g, s'.view, s.files[j])
    ensures Content(g, s'.view, s.files[j]) == Content(g, s.view, s.files[j])
  {
    hide Content, Clusters, CS.Sized, FatOnly, Resized, GrownSo, ClustersFor, LinksIn, Geometry.Ok, Spliced, FileOnly,
         FatRuns.WellFormed;
    FilesOf(g, s, j);
    FilesOf(g, s', j);
    FilesOf(g, s', op.file);
    ApartOf(g, s', op.file, j);
    OnlyFile(g, s, op, s');
    OtherContent(_ => g.Layout(), g, s.view, s'.view, s'.files[op.file], s.files[j]);
  }

  /** What an operation changes on the disk: the FAT, and sectors of its file. */
  lemma OnlyFile(g: Geometry, s: State, op: Op, s': State)
    requires Step(g, s, op, s')
    ensures FileOnly(g, s.view, s'.view, s'.files[op.file])
  {
    hide Content, Clusters, Resized, GrownSo, ClustersFor, LinksIn, Spliced;
  }

  lemma FilesOf(g: Geometry, s: State, j: int)
    requires InOrder(g, s) && j in s.files
    ensures IsFile(g, s.view, s.files[j]) && IsFileChain(LinksIn(g, s.view), s.files[j]) && j in s.sizes
  {
    ChainClusters(LinksIn(g, s.view), s.files[j]);
  }

  lemma ApartOf(g: Geometry, s: State, i: int, j: int)
    requires InOrder(g, s) && i in s.files && j in s.files && i != j
    ensures Disjoint(s.files[i], s.files[j])
  {}

  /** Every operation keeps the volume in order. */
  lemma StepInOrder(g: Geometry, s: State, op: Op, s': State)
    requires InOrder(g, s) && Step(g, s, op, s')
    ensures InOrder(g, s')
  {
    hide CS.Sized, FatOnly, Written, Resized, GrownSo, ClustersFor, LinksIn, Geometry.Ok, FatRuns.WellFormed,
         FatRuns.Step;
    var i := op.file;
    var links', ch' := LinksIn(g, s'.view), s'.files[i];
    var v := VolumeOf(g, s);
    assert s.files[i := s.files[i]] == s.files;
    assert VolumeOf(g, s') == FatRuns.With(v, i, links', ch');
    if GrownSo(v.links, s.files[i], links', ch') {
      FatRuns.WriteIsStep(v, i, links', ch');
    } else if Resized(v.links, s.files[i], links', ch') {
      FatRuns.TruncateIsRun(v, i, links', ch');
    }
  }

  // ---------- runs ----------

  ghost predicate Run(g: Geometry, ss: seq<State>, ops: seq<Op>) {
    |ss| == |ops| + 1 && forall k {:trigger ops[k]} :: 0 <= k < |ops| ==> Step(g, ss[k], ops[k], ss[k + 1])
  }

  lemma {:induction false} RunInOrder(g: Geometry, ss: seq<State>, ops: seq<Op>, n: nat)
    requires Run(g, ss, ops) && InOrder(g, ss[0]) && n <= |ops|
    ensures InOrder(g, ss[n])
  {
    hide InOrder, Step;
    if n > 0 {
      RunInOrder(g, ss, ops, n - 1);
      assert Step(g, ss[n - 1], ops[n - 1], ss[n - 1 + 1]);
      StepInOrder(g, ss[n - 1], ops[n - 1], ss[n]);
    }
  }

  lemma ShowsAfter(g: Geometry, s: State, op: Op, s': State, i: int, known: Known)
    requires InOrder(g, s) && Step(g, s, op, s') && InOrder(g, s') && Shows(g, s, i, known)
    ensures Shows(g, s', i, if op.file == i then Plain(known, op) else known)
  {
    hide InOrder, OnFile, Content, HasBytes, LinksIn, CS.Sized, Clusters, Geometry.Ok;
    if op.file == i {
      FilesOf(g, s', i);
      StepShows(g, s, op, s', known);
    } else {
      StepSpares(g, s, op, s', i);
    }
  }

  /** At every point of every run a file holds what the writes to it, in order, leave of the bytes known at first,
      cut by its truncations. */
  lemma {:induction false} RunShows(g: Geometry, ss: seq<State>, ops: seq<Op>, i: int, known: Known, n: nat)
    requires Run(g, ss, ops) && InOrder(g, ss[0]) && n <= |ops| && Shows(g, ss[0], i, known)
    ensures Shows(g, ss[n], i, PlainRun(known, ops[..n], i))
  {
    hide InOrder, Step, Shows, Plain;
    if n > 0 {
      RunShows(g, ss, ops, i, known, n - 1);
      RunInOrder(g, ss, ops, n - 1);
      RunInOrder(g, ss, ops, n);
      assert ops[..n][..n - 1] == ops[..n - 1] && ops[..n][n - 1] == ops[n - 1];
      assert Step(g, ss[n - 1], ops[n - 1], ss[n - 1 + 1]);
      ShowsAfter(g, ss[n - 1], ops[n - 1], ss[n], i, PlainRun(known, ops[..n - 1], i));
    }
  }

  /** A file that is only read keeps its chain, its size and every byte of its clusters, whatever happens to others. */
  lemma {:induction false} RunSparesBytes(g: Geometry, ss: seq<State>, ops: seq<Op>, i: int, n: nat)
    requires Run(g, ss, ops) && InOrder(g, ss[0]) && n <= |ops| && i in ss[0].files
    requires forall k :: 0 <= k < |ops| ==> ops[k].file != i || ops[k].Read?
    ensures i in ss[n].files && ss[n].files[i] == ss[0].files[i] && i in ss[n].sizes && i in ss[0].sizes
    ensures ss[n].sizes[i] == ss[0].sizes[i]
    ensures IsFile(g, ss[0].view, ss[0].files[i]) && IsFile(g, ss[n].view, ss[0].files[i])
    ensures Content(g, ss[n].view, ss[0].files[i]) == Content(g, ss[0].view, ss[0].files[i])
  {
    hide InOrder, IsFile, Content, OnFile, LinksIn, CS.Sized;
    FilesOf(g, ss[0], i);
    if n > 0 {
      RunSparesBytes(g, ss, ops, i, n - 1);
      RunInOrder(g, ss, ops, n - 1);
      RunInOrder(g, ss, ops, n);
      assert Step(g, ss[n - 1], ops[n - 1], ss[n - 1 + 1]);
      if ops[n - 1].file == i {
        ReadKeeps(g, ss[n - 1], ops[n - 1], ss[n]);
      } else {
        StepSpares(g, ss[n - 1], ops[n - 1], ss[n], i);
      }
    }
  }

  lemma ReadKeeps(g: Geometry, s: State, op: Op, s': State)
    requires Step(g, s, op, s') && op.Read?
    ensures s'.view == s.view && s'.files == s.files && s'.sizes == s.sizes
  {
    assert s.files[op.file := s.files[op.file]] == s.files;
    assert s.sizes[op.file := s.sizes[op.file]] == s.sizes;
  }

  // ---------- calls are steps ----------

  function After(s: State, i: int, view: Disk, ch: Chain, size: nat): State {
    State(view, s.files[i := ch], s.sizes[i := size])
  }

  lemma StepIs(g: Geometry, s: State, i: int, v': Disk, ch': Chain, size': nat, op: Op)
    requires g.Ok() && CS.Sized(g.secsize, s.view) && CS.Sized(g.secsize, v') && i in s.files && i in s.sizes
             && op.file == i
    requires OnFile(g, s.view, LinksIn(g, s.view), s.files[i], s.sizes[i], v', LinksIn(g, v'), ch', size', op)
    ensures Step(g, s, op, After(s, i, v', ch', size'))
  {
    hide OnFile;
  }

  lemma TruncateIs(g: Geometry, v: Disk, links: Links, ch: Chain, size: nat, v': Disk, links': Links, ch': Chain,
                   size': nat, op: Op)
    requires g.secsize > 0 && op.Truncate? && FatOnly(g, v, v')
    requires if size < op.at && size' == size then GrownSo(links, ch, links', ch')
             else size' == op.at && ((links' == links && ch' == ch)
                                     || (|ch'| == ClustersFor(g, op.at) && Resized(links, ch, links', ch')))
    ensures OnFile(g, v, links, ch, size, v', links', ch', size', op)
  {}

  lemma WriteIs(g: Geometry, v: Disk, links: Links, ch: Chain, size: nat, v': Disk, links': Links, ch': Chain,
                size': nat, op: Op)
    requires g.secsize > 0 && op.Write? && Written(g, v, ch, v', ch', op.at, op.data) && GrownSo(links, ch, links', ch')
    requires size' == if op.data == [] then size else Max(size, op.at + |op.data|)
    ensures OnFile(g, v, links, ch, size, v', links', ch', size', op)
  {}

  /** Every call of `rwblock` on an open file is a step. */
  method Call(d: Dpb, f: FNode, user: array<byte>, count: nat, write: bool, ghost s: State, ghost i: int)
    returns (r: int, ghost op: Op)
    requires Open(d, f) && count <= user.Length && i in s.files && i in s.sizes
    requires s.view == d.cache.view && s.files[i] == f.chain && s.sizes[i] == f.dirSize
    modifies d, d.cache, f, user
    ensures Open(d, f) && Step(d.g, s, op, After(s, i, d.cache.view, f.chain, f.dirSize))
    ensures op == if !write then Read(i) else if count == 0 then Truncate(i, old(f.offset))
                  else Write(i, old(f.offset), user[..if 0 <= r <= count then r else 0])
    ensures write && count > 0 ==> 0 <= r <= count && user[..] == old(user[..])
  {
    hide Free, RelCluster, FNode.Ok, IsChain, CS.Sized, RwBlock.Bytes, ReadAt, LinksIn, FatOnly, Written, GrownSo,
         Resized, Clusters,
         Content, Geometry.Ok, CS.MirrorsAgree, Step, Dpb.Valid, ClustersFor, Clip, Max;
    FileOpen(d, f);
    LinksAre(d);
    ghost var v, l, ch, size := d.cache.view, d.links, f.chain, f.dirSize;
    r := RwBlock.RwBlock(d, f, user, count, write);
    FileOpen(d, f);
    LinksAre(d);
    if !write {
      op := Read(i);
    } else if count == 0 {
      op := Truncate(i, old(f.offset));
      TruncateIs(d.g, v, l, ch, size, d.cache.view, d.links, f.chain, f.dirSize, op);
    } else {
      op := Write(i, old(f.offset), user[..r]);
      WriteIs(d.g, v, l, ch, size, d.cache.view, d.links, f.chain, f.dirSize, op);
    }
    StepIs(d.g, s, i, d.cache.view, f.chain, f.dirSize, op);
  }

  lemma LinksAre(d: Dpb)
    requires d.Valid()
    ensures d.g.Ok() && CS.Sized(d.g.secsize, d.cache.view) && d.links == LinksIn(d.g, d.cache.view)
  {}
}
