/**
 The FAT as a heap of singly linked cluster chains.  `links[c]` is entry `c` as `link_fat` reads it; entries
 0 and 1 are reserved.
 */
module Chains {
  import opened FatFormat

  type Links = seq<nat>

  type Chain = seq<nat>

  /** Entry `c`, or 1 for an index outside the table. */
  function Read(links: Links, c: nat): nat {
    if c <= 1 || c >= |links| then 1 else links[c]
  }

  /** `next_cluster`: the entry of `c`, provided the cluster it names is neither free nor points outside. */
  function Next(links: Links, c: nat): nat {
    var candidate := Read(links, c);
    if candidate < 2 || candidate >= LONG_BAD then candidate
    else
      var following := Read(links, candidate);
      if following < 2 || (following < LONG_BAD && following >= |links|) then 1 else candidate
  }

  /** `ch` is a chain of the table: linked in order, closed by the end mark. */
  ghost predicate IsChain(links: Links, ch: Chain) {
    && |ch| > 0 && |links| <= LONG_BAD
    && (forall i :: 0 <= i < |ch| ==> 2 <= ch[i] < |links|)
    && (forall i {:trigger links[ch[i]]} :: 0 <= i < |ch| - 1 ==> links[ch[i]] == ch[i + 1])
    && links[ch[|ch| - 1]] == LONG_LAST_CLUSTER
  }

  /** The chain of a file: none, for an empty one. */
  ghost predicate IsFileChain(links: Links, ch: Chain) {
    ch == [] || IsChain(links, ch)
  }

  ghost predicate Disjoint(a: Chain, b: Chain) {
    forall i, j :: 0 <= i < |a| && 0 <= j < |b| ==> a[i] != b[j]
  }

  /** A chain never comes back to a cluster. */
  lemma {:induction false} ChainDistinct(links: Links, ch: Chain, i: nat, j: nat)
    requires IsChain(links, ch) && i < j < |ch|
    ensures ch[i] != ch[j]
    decreases |ch| - j
  {
    assert links[ch[i]] == ch[i + 1];
    if j < |ch| - 1 {
      assert links[ch[j]] == ch[j + 1];
      ChainDistinct(links, ch, i + 1, j + 1);
    }
  }

  lemma ChainsDiffer(links: Links, ch: Chain)
    requires IsChain(links, ch)
    ensures forall i, j :: 0 <= i < j < |ch| ==> ch[i] != ch[j]
  {
    forall i, j | 0 <= i < j < |ch| ensures ch[i] != ch[j] {
      ChainDistinct(links, ch, i, j);
    }
  }

  /** On a chain `next_cluster` steps to the next cluster, and answers the end mark at the last. */
  lemma NextOnChain(links: Links, ch: Chain, i: nat)
    requires IsChain(links, ch) && i < |ch|
    ensures Next(links, ch[i]) == if i == |ch| - 1 then LONG_LAST_CLUSTER else ch[i + 1]
    ensures links[ch[i]] != FREE
  {
    if i < |ch| - 1 {
      assert links[ch[i]] == ch[i + 1];
      if i + 1 < |ch| - 1 {
        assert links[ch[i + 1]] == ch[i + 2];
      }
    }
  }

  // ---------- looking for a free cluster ----------

  /** The first free entry of lo..hi-1, or `hi`. */
  function FirstFree(links: Links, lo: nat, hi: nat): (c: nat)
    requires lo <= hi <= |links|
    ensures lo <= c <= hi && (c < hi ==> links[c] == FREE)
    ensures forall x :: lo <= x < c ==> links[x] != FREE
    decreases hi - lo
  {
    if lo == hi || links[lo] == FREE then lo else FirstFree(links, lo + 1, hi)
  }

  /** `find_fat_free`: from the hint to the end, then from 2 to the hint; the end mark when the disk is full. */
  function FindFree(links: Links, hint: nat): (c: nat)
    requires |links| >= 2 && (hint == UNKNCLUSTER || 2 <= hint < |links|)
  {
    var start := if hint == UNKNCLUSTER then 2 else hint;
    var a := FirstFree(links, start, |links|);
    if a < |links| then a
    else
      var b := FirstFree(links, 2, start);
      if b < start then b else LONG_LAST_CLUSTER
  }

  /** It finds a free cluster exactly when there is one, and the first in its order. */
  lemma FindFreeFinds(links: Links, hint: nat)
    requires 2 <= |links| <= LONG_BAD && (hint == UNKNCLUSTER || 2 <= hint < |links|)
    ensures var c := FindFree(links, hint);
      && (c == LONG_LAST_CLUSTER <==> forall x :: 2 <= x < |links| ==> links[x] != FREE)
      && (c != LONG_LAST_CLUSTER ==> 2 <= c < |links| && links[c] == FREE)
  {}

  // ---------- growing ----------

  /** One chain grows at its end into free clusters; no entry outside it changes. */
  ghost predicate Grows(links: Links, ch: Chain, links': Links, ch': Chain) {
    && |links'| == |links| && |ch| <= |ch'| && ch'[..|ch|] == ch
    && IsFileChain(links', ch')
    && (forall i :: |ch| <= i < |ch'| ==> ch'[i] < |links| && links[ch'[i]] == FREE)
    && (forall c :: 0 <= c < |links| && c !in ch' ==> links'[c] == links[c])
  }

  lemma GrowsRefl(links: Links, ch: Chain)
    requires IsFileChain(links, ch)
    ensures Grows(links, ch, links, ch)
  {
    assert ch[..|ch|] == ch;
  }

  /** A cluster appended: `extend`. */
  function Appended(links: Links, ch: Chain, c: nat): Links
    requires c < |links| && (ch != [] ==> ch[|ch| - 1] < |links|)
  {
    if ch == [] then links[c := LONG_LAST_CLUSTER] else links[c := LONG_LAST_CLUSTER][ch[|ch| - 1] := c]
  }

  lemma AppendGrows(links: Links, ch: Chain, c: nat)
    requires IsFileChain(links, ch) && |links| <= LONG_BAD && 2 <= c < |links| && links[c] == FREE
    ensures Grows(links, ch, Appended(links, ch, c), ch + [c])
    ensures IsChain(Appended(links, ch, c), ch + [c])
  {
    var links' := Appended(links, ch, c);
    var ch' := ch + [c];
    if ch != [] {
      ChainsDiffer(links, ch);
      forall i | 0 <= i < |ch| ensures ch[i] != c {
        NextOnChain(links, ch, i);
      }
      forall i | 0 <= i < |ch'| - 1 ensures links'[ch'[i]] == ch'[i + 1] {
        if i < |ch| - 1 {
          assert links[ch[i]] == ch[i + 1];
        }
      }
    }
    assert c in ch';
    assert ch != [] ==> ch'[|ch| - 1] in ch';
  }

  lemma GrowsTransitive(l0: Links, c0: Chain, l1: Links, c1: Chain, l2: Links, c2: Chain)
    requires Grows(l0, c0, l1, c1) && Grows(l1, c1, l2, c2)
    ensures Grows(l0, c0, l2, c2)
  {
    assert c2[..|c0|] == c2[..|c1|][..|c0|];
    forall i | |c0| <= i < |c2| ensures c2[i] < |l0| && l0[c2[i]] == FREE {
      if i < |c1| {
        assert c2[i] == c2[..|c1|][i] == c1[i];
      } else {
        forall j | 0 <= j < |c1| ensures c1[j] != c2[i] {
          NextOnChain(l1, c1, j);
        }
      }
    }
    assert forall j :: 0 <= j < |c1| ==> c2[j] == c2[..|c1|][j] == c1[j];
    assert forall c :: c in c1 ==> c in c2;
  }

  /** Another chain neither changes nor comes to share a cluster. */
  lemma GrowsApart(links: Links, ch: Chain, links': Links, ch': Chain, other: Chain)
    requires Grows(links, ch, links', ch') && IsChain(links, other) && Disjoint(ch, other)
    ensures IsChain(links', other) && Disjoint(ch', other)
    ensures forall i :: 0 <= i < |other| ==> links'[other[i]] == links[other[i]]
  {
    forall i, j | 0 <= i < |ch'| && 0 <= j < |other| ensures ch'[i] != other[j] {
      if i < |ch| {
        assert ch'[i] == ch'[..|ch|][i] == ch[i];
      } else {
        NextOnChain(links, other, j);
      }
    }
  }

  // ---------- freeing ----------

  /** The entries of `ch` made free. */
  function Freed(links: Links, ch: Chain): (r: Links)
    ensures |r| == |links|
  {
    seq(|links|, c requires 0 <= c < |links| => if c in ch then FREE else links[c])
  }

  /** How many entries are free. */
  function Free(links: Links): nat { FreeIn(links, |links|) }

  /** Number of free entries among 2..n-1. */
  function FreeIn(links: Links, n: nat): (r: nat)
    requires n <= |links|
    ensures r <= if n <= 2 then 0 else n - 2
  {
    if n <= 2 then 0 else FreeIn(links, n - 1) + if links[n - 1] == FREE then 1 else 0
  }

  lemma {:induction false} FreeInUpdate(links: Links, n: nat, c: nat, v: nat)
    requires n <= |links| && 2 <= c < |links|
    ensures FreeIn(links[c := v], n) == FreeIn(links, n)
              + (if c < n && v == FREE then 1 else 0) - (if c < n && links[c] == FREE then 1 else 0)
  {
    if n > 2 {
      FreeInUpdate(links, n - 1, c, v);
    }
  }

  /** Appending uses up one free entry. */
  lemma AppendCount(links: Links, ch: Chain, c: nat)
    requires IsFileChain(links, ch) && 2 <= c < |links| && links[c] == FREE
    ensures Free(Appended(links, ch, c)) == Free(links) - 1
  {
    var links1 := links[c := LONG_LAST_CLUSTER];
    FreeInUpdate(links, |links|, c, LONG_LAST_CLUSTER);
    if ch != [] {
      var last := ch[|ch| - 1];
      FreeInUpdate(links1, |links|, last, c);
    }
  }

  /** A free entry is counted. */
  lemma {:induction false} NoneFree(links: Links, n: nat)
    requires n <= |links|
    ensures FreeIn(links, n) == 0 <==> forall x :: 2 <= x < n ==> links[x] != FREE
  {
    if n > 2 {
      NoneFree(links, n - 1);
    }
  }

  /** `wipe_out_clusters`, on any table: the entries freed before it stops. */
  function WipeOut(links: Links, st: nat): (r: Links)
    ensures |r| == |links|
    decreases |links| - Free(links)
  {
    if st == LONG_LAST_CLUSTER then links
    else
      var next := Next(links, st);
      if next <= 1 then links
      else
        FreeInUpdate(links, |links|, st, FREE);
        WipeOut(links[st := FREE], next)
  }

  /** The hint after it. */
  function WipeHint(links: Links, hint: nat, st: nat): nat
    decreases |links| - Free(links)
  {
    if st == LONG_LAST_CLUSTER then hint
    else
      var next := Next(links, st);
      if next <= 1 then hint
      else
        FreeInUpdate(links, |links|, st, FREE);
        WipeHint(links[st := FREE], if hint == UNKNCLUSTER || hint > st then st else hint, next)
  }

  /** One round of the wipe: an entry that was not free becomes free. */
  lemma WipeRound(links: Links, hint: nat, st: nat)
    ensures Free(links) <= |links|
    ensures st == LONG_LAST_CLUSTER || Next(links, st) <= 1 ==>
              WipeOut(links, st) == links && WipeHint(links, hint, st) == hint
    ensures st != LONG_LAST_CLUSTER && Next(links, st) > 1 ==>
      && 2 <= st < |links| && links[st] != FREE && Free(links[st := FREE]) == Free(links) + 1
      && WipeOut(links, st) == WipeOut(links[st := FREE], Next(links, st))
      && WipeHint(links, hint, st)
         == WipeHint(links[st := FREE], if hint == UNKNCLUSTER || hint > st then st else hint, Next(links, st))
  {
    if 2 <= st < |links| {
      FreeInUpdate(links, |links|, st, FREE);
    }
  }

  lemma ChainTail(links: Links, ch: Chain)
    requires IsChain(links, ch) && |ch| > 1
    ensures IsChain(links[ch[0] := FREE], ch[1..])
  {
    ChainsDiffer(links, ch);
    var links', t := links[ch[0] := FREE], ch[1..];
    forall i | 0 <= i < |t| - 1 ensures links'[t[i]] == t[i + 1] {
      assert links[ch[i + 1]] == ch[i + 2];
    }
  }

  /** On a chain it frees exactly that chain. */
  lemma {:induction false} WipeOutChain(links: Links, ch: Chain)
    requires IsChain(links, ch)
    ensures WipeOut(links, ch[0]) == Freed(links, ch)
    decreases |ch|
  {
    NextOnChain(links, ch, 0);
    var links' := links[ch[0] := FREE];
    if |ch| == 1 {
      assert WipeOut(links', LONG_LAST_CLUSTER) == links';
      assert links' == Freed(links, ch);
    } else {
      ChainTail(links, ch);
      WipeOutChain(links', ch[1..]);
      assert Freed(links', ch[1..]) == Freed(links, ch) by {
        assert ch == [ch[0]] + ch[1..];
      }
    }
  }

  /** One chain loses clusters at its end, which become free; no entry outside it changes. */
  ghost predicate Shrinks(links: Links, ch: Chain, links': Links, ch': Chain) {
    && |links'| == |links| && |ch'| <= |ch| && ch[..|ch'|] == ch'
    && IsFileChain(links', ch')
    && (forall i :: |ch'| <= i < |ch| ==> ch[i] < |links'| && links'[ch[i]] == FREE)
    && (forall c :: 0 <= c < |links| && c !in ch ==> links'[c] == links[c])
  }

  /** The table after a chain is cut to its first `n` clusters. */
  function Cut(links: Links, ch: Chain, n: nat): Links
    requires n <= |ch| && (n > 0 ==> ch[n - 1] < |links|)
  {
    if n == 0 then Freed(links, ch) else Freed(links[ch[n - 1] := LONG_LAST_CLUSTER], ch[n..])
  }

  lemma CutShrinks(links: Links, ch: Chain, n: nat)
    requires IsChain(links, ch) && n <= |ch|
    ensures Shrinks(links, ch, Cut(links, ch, n), ch[..n])
  {
    ChainsDiffer(links, ch);
    var links', ch' := Cut(links, ch, n), ch[..n];
    forall i | 0 <= i < n ensures ch[i] !in ch[n..] {
      assert forall j :: 0 <= j < |ch| - n ==> ch[n..][j] == ch[n + j] != ch[i];
    }
    forall i | 0 <= i < n - 1 ensures links'[ch'[i]] == ch'[i + 1] {
      assert links[ch[i]] == ch[i + 1];
    }
    forall i | n <= i < |ch| ensures links'[ch[i]] == FREE {
      assert ch[n..][i - n] == ch[i];
    }
    forall c | 0 <= c < |links| && c !in ch ensures links'[c] == links[c] {
      assert c !in ch[n..];
    }
  }

  lemma ShrinksApart(links: Links, ch: Chain, links': Links, ch': Chain, other: Chain)
    requires Shrinks(links, ch, links', ch') && IsChain(links, other) && Disjoint(ch, other)
    ensures IsChain(links', other) && Disjoint(ch', other)
    ensures forall i :: 0 <= i < |other| ==> links'[other[i]] == links[other[i]]
  {
    assert forall i :: 0 <= i < |ch'| ==> ch'[i] == ch[..|ch'|][i] == ch[i];
  }

  lemma CutAll(links: Links, ch: Chain)
    requires IsChain(links, ch)
    ensures Cut(links, ch, |ch|) == links
  {
    assert ch[|ch|..] == [];
  }

  lemma ChainSuffix(links: Links, ch: Chain, n: nat)
    requires IsChain(links, ch) && 0 < n < |ch|
    ensures IsChain(links[ch[n - 1] := LONG_LAST_CLUSTER], ch[n..])
  {
    ChainsDiffer(links, ch);
    var links', t := links[ch[n - 1] := LONG_LAST_CLUSTER], ch[n..];
    forall i | 0 <= i < |t| - 1 ensures links'[t[i]] == t[i + 1] {
      assert links[ch[n + i]] == ch[n + i + 1];
    }
  }

  /** Ending the chain at cluster `n - 1`, or freeing its first cluster, and wiping out what follows cuts it. */
  lemma CutByWipe(links: Links, ch: Chain, n: nat)
    requires IsChain(links, ch) && n < |ch|
    ensures n > 0 ==> WipeOut(links[ch[n - 1] := LONG_LAST_CLUSTER], ch[n]) == Cut(links, ch, n)
    ensures n == 0 ==>
              WipeOut(links[ch[0] := FREE], if |ch| == 1 then LONG_LAST_CLUSTER else ch[1]) == Cut(links, ch, 0)
  {
    if n > 0 {
      ChainSuffix(links, ch, n);
      WipeOutChain(links[ch[n - 1] := LONG_LAST_CLUSTER], ch[n..]);
    } else {
      var links' := links[ch[0] := FREE];
      if |ch| > 1 {
        ChainTail(links, ch);
        WipeOutChain(links', ch[1..]);
      }
      assert ch == [ch[0]] + ch[1..];
      assert Freed(links', ch[1..]) == Freed(links, ch);
    }
  }
}
