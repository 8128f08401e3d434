/**
 Wrappers of objects in DOS memory as values (fdpp/farptr.hpp, fdpp/objlock.cpp), and whole runs of them made, changed
 and destroyed, none of which aborts.
 */
module SymSpec {
  import Disks

  type byte = Disks.byte

  datatype LockEntry = LockEntry(refcnt: int, lockcnt: int)

  /** The linear address of a far pointer. */
  function Addr(seg: nat, off: nat): nat { seg * 16 + off }

  type Locks = map<int, LockEntry>

  function EntryOf(lmap: Locks, a: int): LockEntry { if a in lmap then lmap[a] else LockEntry(0, 0) }

  /** The entries with one wrapper more of address `a`. */
  function Refd(lmap: Locks, a: int): Locks {
    lmap[a := LockEntry(EntryOf(lmap, a).refcnt + 1, EntryOf(lmap, a).lockcnt)]
  }

  /** The entries with one wrapper less; the last one takes the entry with it. */
  function Unrefd(lmap: Locks, a: int): Locks
    requires a in lmap
  {
    if lmap[a].refcnt == 1 then lmap - {a} else lmap[a := LockEntry(lmap[a].refcnt - 1, lmap[a].lockcnt)]
  }

  /** The entries after a copy-back. */
  function Locked(lmap: Locks, a: int): (r: Locks)
    requires a in lmap
    ensures a in r
  {
    lmap[a := LockEntry(lmap[a].refcnt, lmap[a].lockcnt + 1)]
  }

  /** A wrapper: its address, the lock count it was made at, the snapshot, whether its user may change it, and the copy
      the user works on. */
  datatype Wrap = Wrap(addr: int, lockcnt: int, backup: seq<byte>, mods: bool, value: seq<byte>)

  /** Memory, the entries by address and the wrappers that exist, by name. */
  datatype State = State(mem: seq<byte>, locks: Locks, wraps: map<int, Wrap>)

  datatype Op = Create(id: int, addr: int, len: nat, mods: bool) | Modify(id: int, value: seq<byte>) | Destroy(id: int)

  /** The user has changed the copy, so that it is to be copied back. */
  predicate Dirty(w: Wrap) { w.mods && w.backup != [] && w.value != w.backup }

  predicate Apart(a: int, n: int, b: int, m: int) { a == b || a + n <= b || b + m <= a }

  predicate Fits(m: seq<byte>, a: int, n: int) { 0 <= a <= a + n <= |m| }

  function Wrapped(s: State, a: int, len: nat, mods: bool): Wrap
    requires Fits(s.mem, a, len)
  {
    Wrap(a, EntryOf(s.locks, a).lockcnt, s.mem[a..a + len], mods, s.mem[a..a + len])
  }

  /** One operation; a destructor that finds the lock count moved aborts the run and so takes no step. */
  ghost predicate Step(s: State, op: Op, s': State) {
    match op
    case Create(id, a, len, mods) =>
      && id !in s.wraps && Fits(s.mem, a, len)
      && (forall i :: i in s.wraps ==> Apart(s.wraps[i].addr, |s.wraps[i].backup|, a, len))
      && s' == State(s.mem, Refd(s.locks, a), s.wraps[id := Wrapped(s, a, len, mods)])
    case Modify(id, value) =>
      id in s.wraps && |value| == |s.wraps[id].backup| && s' == s.(wraps := s.wraps[id := s.wraps[id].(value := value)])
    case Destroy(id) =>
      && id in s.wraps && s.wraps[id].addr in s.locks
      && var w := s.wraps[id];
         if Dirty(w) then
           && s.locks[w.addr].lockcnt == w.lockcnt && Fits(s.mem, w.addr, |w.value|)
           && s' == State(Disks.Patched(s.mem, w.addr, w.value), Unrefd(Locked(s.locks, w.addr), w.addr),
              s.wraps - {id})
         else s' == State(s.mem, Unrefd(s.locks, w.addr), s.wraps - {id})
  }

  /** The names of the wrappers of an address. */
  ghost function Names(wraps: map<int, Wrap>, a: int): set<int> { set i | i in wraps && wraps[i].addr == a }

  /** A wrapper's entry is not behind it, and memory is its snapshot unless the entry is ahead. */
  ghost predicate WrapOk(s: State, w: Wrap) {
    && w.addr in s.locks && w.lockcnt <= s.locks[w.addr].lockcnt && |w.value| == |w.backup|
       && Fits(s.mem, w.addr, |w.backup|)
    && (w.lockcnt == s.locks[w.addr].lockcnt ==> s.mem[w.addr..w.addr + |w.backup|] == w.backup)
  }

  /** Besides, entries count the wrappers of their address, and wrappers of different addresses do not overlap. */
  ghost predicate InOrder(s: State) {
    && (forall i :: i in s.wraps ==> WrapOk(s, s.wraps[i]))
    && (forall i, j :: i in s.wraps && j in s.wraps ==>
          Apart(s.wraps[i].addr, |s.wraps[i].backup|, s.wraps[j].addr, |s.wraps[j].backup|))
    && Counted(s.locks, s.wraps)
  }

  ghost predicate Counted(locks: Locks, wraps: map<int, Wrap>) {
    && (forall a :: a in locks ==> locks[a].refcnt == |Names(wraps, a)| > 0)
    && (forall i :: i in wraps ==> wraps[i].addr in locks)
  }

  // ---------- counts ----------

  lemma NamesMore(wraps: map<int, Wrap>, id: int, w: Wrap)
    requires id !in wraps
    ensures forall a :: Names(wraps[id := w], a) == if a == w.addr then Names(wraps, a) + {id} else Names(wraps, a)
  {}

  lemma NamesLess(wraps: map<int, Wrap>, id: int)
    requires id in wraps
    ensures forall a :: Names(wraps - {id}, a)
              == if a == wraps[id].addr then Names(wraps, a) - {id} else Names(wraps, a)
    ensures id in Names(wraps, wraps[id].addr)
  {}

  lemma CountedMore(locks: Locks, wraps: map<int, Wrap>, id: int, w: Wrap)
    requires Counted(locks, wraps) && id !in wraps
    ensures Counted(Refd(locks, w.addr), wraps[id := w])
  {
    hide Names;
    NamesMore(wraps, id, w);
    NoNames(locks, wraps, w.addr);
    assert id !in Names(wraps, w.addr) by {
      NotNamed(wraps, id, w.addr);
    }
  }

  lemma NotNamed(wraps: map<int, Wrap>, id: int, a: int)
    requires id !in wraps
    ensures id !in Names(wraps, a)
  {}

  lemma NoNames(locks: Locks, wraps: map<int, Wrap>, a: int)
    requires Counted(locks, wraps)
    ensures a !in locks ==> Names(wraps, a) == {}
  {
    if a !in locks {
      assert forall i :: i in wraps ==> wraps[i].addr != a;
    }
  }

  lemma CountedLess(locks: Locks, wraps: map<int, Wrap>, id: int)
    requires Counted(locks, wraps) && id in wraps
    ensures wraps[id].addr in locks && Counted(Unrefd(locks, wraps[id].addr), wraps - {id})
  {
    hide Names;
    var a := wraps[id].addr;
    NamesLess(wraps, id);
    assert |Names(wraps, a) - {id}| == |Names(wraps, a)| - 1;
    forall i | i in wraps && i != id && locks[a].refcnt == 1 ensures wraps[i].addr != a {
      if wraps[i].addr == a {
        Named(wraps - {id}, i);
      }
    }
  }

  lemma Named(wraps: map<int, Wrap>, i: int)
    requires i in wraps
    ensures i in Names(wraps, wraps[i].addr) && |Names(wraps, wraps[i].addr)| > 0
  {}

  lemma CountedLocked(locks: Locks, wraps: map<int, Wrap>, a: int)
    requires Counted(locks, wraps) && a in locks
    ensures Counted(Locked(locks, a), wraps)
  {}

  // ---------- one step ----------

  lemma CreateKeeps(s: State, op: Op, s': State)
    requires InOrder(s) && Step(s, op, s') && op.Create?
    ensures InOrder(s')
  {
    hide Counted;
    CountedMore(s.locks, s.wraps, op.id, s'.wraps[op.id]);
    forall i | i in s'.wraps ensures WrapOk(s', s'.wraps[i]) {
      if i != op.id {
        assert WrapOk(s, s.wraps[i]);
      }
    }
  }

  /** The count of an address that another wrapper uses goes with no destructor. */
  lemma StillThere(locks: Locks, wraps: map<int, Wrap>, id: int, i: int)
    requires Counted(locks, wraps) && id in wraps && i in wraps && i != id
    ensures wraps[id].addr in locks && wraps[i].addr in locks
    ensures var l := Unrefd(locks, wraps[id].addr);
              wraps[i].addr in l && l[wraps[i].addr].lockcnt == locks[wraps[i].addr].lockcnt
  {
    CountedLess(locks, wraps, id);
    assert i in (wraps - {id}) && (wraps - {id})[i] == wraps[i];
  }

  /** After a copy-back the other wrappers of its address are behind, and those of others as before. */
  lemma PatchedOk(s: State, w: Wrap, v: Wrap)
    requires WrapOk(s, w) && WrapOk(s, v) && Apart(v.addr, |v.backup|, w.addr, |w.backup|)
    ensures var s1 := s.(mem := Disks.Patched(s.mem, w.addr, w.value), locks := Locked(s.locks, w.addr));
      WrapOk(s1, v) && (v.addr == w.addr ==> v.lockcnt < s1.locks[v.addr].lockcnt)
  {
    var m := Disks.Patched(s.mem, w.addr, w.value);
    if v.addr != w.addr {
      assert m[v.addr..v.addr + |v.backup|] == s.mem[v.addr..v.addr + |v.backup|];
    }
  }

  /** What a destructor leaves before the entry is let go. */
  ghost function CopiedBack(s: State, w: Wrap): (s': State)
    requires w.addr in s.locks && (Dirty(w) ==> Fits(s.mem, w.addr, |w.value|))
    ensures w.addr in s'.locks
  {
    if Dirty(w) then s.(mem := Disks.Patched(s.mem, w.addr, w.value), locks := Locked(s.locks, w.addr)) else s
  }

  lemma DestroyKeeps(s: State, op: Op, s': State)
    requires InOrder(s) && Step(s, op, s') && op.Destroy?
    ensures InOrder(s')
  {
    hide Counted, Unrefd, Locked, WrapOk, Apart;
    var w := s.wraps[op.id];
    assert WrapOk(s, w);
    var s1 := CopiedBack(s, w);
    assert s' == State(s1.mem, Unrefd(s1.locks, w.addr), s.wraps - {op.id});
    if Dirty(w) {
      CountedLocked(s.locks, s.wraps, w.addr);
    }
    CountedLess(s1.locks, s.wraps, op.id);
    forall i | i in s'.wraps ensures WrapOk(s', s'.wraps[i]) {
      if Dirty(w) {
        PatchedOk(s, w, s.wraps[i]);
      }
      StillThere(s1.locks, s.wraps, op.id, i);
      SameEntry(s1, s', s.wraps[i]);
    }
  }

  lemma SameEntry(s: State, s': State, w: Wrap)
    requires WrapOk(s, w) && s'.mem == s.mem && w.addr in s'.locks
             && s'.locks[w.addr].lockcnt == s.locks[w.addr].lockcnt
    ensures WrapOk(s', w)
  {}

  lemma ModifyKeeps(s: State, op: Op, s': State)
    requires InOrder(s) && Step(s, op, s') && op.Modify?
    ensures InOrder(s')
  {
    forall i | i in s'.wraps ensures WrapOk(s', s'.wraps[i]) {
      assert WrapOk(s, s.wraps[i]);
    }
    forall a ensures Names(s'.wraps, a) == Names(s.wraps, a) {}
  }

  lemma StepInOrder(s: State, op: Op, s': State)
    requires InOrder(s) && Step(s, op, s')
    ensures InOrder(s')
  {
    hide InOrder, Step;
    match op
    case Create(_, _, _, _) => CreateKeeps(s, op, s');
    case Modify(_, _) => ModifyKeeps(s, op, s');
    case Destroy(_) => DestroyKeeps(s, op, s');
  }

  // ---------- runs ----------

  ghost predicate Run(ss: seq<State>, ops: seq<Op>) {
    |ss| == |ops| + 1 && forall k {:trigger ops[k]} :: 0 <= k < |ops| ==> Step(ss[k], ops[k], ss[k + 1])
  }

  lemma Begin(m: seq<byte>)
    ensures InOrder(State(m, map[], map[]))
  {}

  /** At every point of every run the entries count the wrappers, and memory is the snapshot of every wrapper whose
      entry has not moved on. */
  lemma {:induction false} RunInOrder(ss: seq<State>, ops: seq<Op>, n: nat)
    requires Run(ss, ops) && InOrder(ss[0]) && n <= |ops|
    ensures InOrder(ss[n])
  {
    hide InOrder, Step;
    if n > 0 {
      RunInOrder(ss, ops, n - 1);
      assert Step(ss[n - 1], ops[n - 1], ss[n - 1 + 1]);
      StepInOrder(ss[n - 1], ops[n - 1], ss[n]);
    }
  }

  /** Operation `n` copies back. */
  ghost predicate CopyBack(s: State, op: Op) {
    op.Destroy? && op.id in s.wraps && Dirty(s.wraps[op.id])
  }

  /** Every copy-back of a run finds memory as its wrapper first saw it, and leaves its wrapper's value there. */
  lemma RunFindsSnapshots(ss: seq<State>, ops: seq<Op>, n: nat)
    requires Run(ss, ops) && InOrder(ss[0]) && n < |ops| && CopyBack(ss[n], ops[n])
    ensures var w := ss[n].wraps[ops[n].id];
      && Fits(ss[n].mem, w.addr, |w.backup|) && ss[n].mem[w.addr..w.addr + |w.backup|] == w.backup
      && |ss[n + 1].mem| == |ss[n].mem| && ss[n + 1].mem[w.addr..w.addr + |w.backup|] == w.value
  {
    RunInOrder(ss, ops, n);
    assert Step(ss[n], ops[n], ss[n + 1]);
    assert WrapOk(ss[n], ss[n].wraps[ops[n].id]);
  }

  /** A wrapper that its address has left behind stays so as long as it exists. */
  ghost predicate Behind(s: State, id: int) {
    id in s.wraps && s.wraps[id].addr in s.locks && s.wraps[id].lockcnt < s.locks[s.wraps[id].addr].lockcnt
  }

  lemma StaysBehind(s: State, op: Op, s': State, id: int)
    requires InOrder(s) && Step(s, op, s') && Behind(s, id) && op != Destroy(id)
    ensures Behind(s', id) && s'.wraps[id].addr == s.wraps[id].addr
  {
    hide Counted;
    if op.Destroy? {
      var w := s.wraps[op.id];
      assert WrapOk(s, w);
      if Dirty(w) {
        CountedLocked(s.locks, s.wraps, w.addr);
      }
      StillThere(CopiedBack(s, w).locks, s.wraps, op.id, id);
    }
  }

  lemma LeavesBehind(s: State, op: Op, s': State, id: int)
    requires InOrder(s) && Step(s, op, s') && CopyBack(s, op) && id in s.wraps && id != op.id
    requires s.wraps[id].addr == s.wraps[op.id].addr
    ensures Behind(s', id) && s'.wraps[id].addr == s.wraps[id].addr
  {
    hide Counted;
    var w := s.wraps[op.id];
    assert WrapOk(s, w) && WrapOk(s, s.wraps[id]);
    CountedLocked(s.locks, s.wraps, w.addr);
    StillThere(CopiedBack(s, w).locks, s.wraps, op.id, id);
  }

  lemma {:induction false} BehindUntil(ss: seq<State>, ops: seq<Op>, m: nat, n: nat, id: int)
    requires Run(ss, ops) && InOrder(ss[0]) && m <= n <= |ops| && Behind(ss[m], id)
    requires forall k :: m <= k < n ==> ops[k] != Destroy(id)
    ensures Behind(ss[n], id)
    decreases n - m
  {
    hide InOrder, Step, Behind;
    if m < n {
      BehindUntil(ss, ops, m, n - 1, id);
      RunInOrder(ss, ops, n - 1);
      assert Step(ss[n - 1], ops[n - 1], ss[n - 1 + 1]) && ops[n - 1] != Destroy(id);
      StaysBehind(ss[n - 1], ops[n - 1], ss[n], id);
    }
  }

  /** A wrapper is left behind just if somebody has copied back at its address since it was made. */
  lemma {:induction false} BehindIff(ss: seq<State>, ops: seq<Op>, c: nat, n: nat, id: int)
    requires Run(ss, ops) && InOrder(ss[0]) && c < n <= |ops| && ops[c].Create? && ops[c].id == id
    requires forall k :: c < k < n ==> ops[k] != Destroy(id)
    ensures id in ss[n].wraps && ss[n].wraps[id].addr == ops[c].addr
    ensures Behind(ss[n], id) <==> exists m :: c < m < n && CopiesAt(ss[m], ops[m], ops[c].addr)
    decreases n
  {
    hide InOrder, Step, Behind, CopiesAt;
    RunInOrder(ss, ops, n - 1);
    assert Step(ss[n - 1], ops[n - 1], ss[n - 1 + 1]);
    if n == c + 1 {
      NotYetBehind(ss[c], ops[c], ss[n]);
    } else {
      BehindIff(ss, ops, c, n - 1, id);
      assert ops[n - 1] != Destroy(id);
      BehindStep(ss[n - 1], ops[n - 1], ss[n], id);
    }
  }

  /** A copy-back at address `a`. */
  ghost predicate CopiesAt(s: State, op: Op, a: int) { CopyBack(s, op) && s.wraps[op.id].addr == a }

  lemma NotYetBehind(s: State, op: Op, s': State)
    requires Step(s, op, s') && op.Create?
    ensures op.id in s'.wraps && s'.wraps[op.id].addr == op.addr && !Behind(s', op.id)
  {}

  lemma BehindStep(s: State, op: Op, s': State, id: int)
    requires InOrder(s) && Step(s, op, s') && id in s.wraps && op != Destroy(id)
    ensures id in s'.wraps && s'.wraps[id].addr == s.wraps[id].addr
    ensures Behind(s', id) <==> Behind(s, id) || CopiesAt(s, op, s.wraps[id].addr)
  {
    hide Counted, Behind;
    if Behind(s, id) {
      StaysBehind(s, op, s', id);
    } else if CopiesAt(s, op, s.wraps[id].addr) {
      LeavesBehind(s, op, s', id);
    } else {
      StaysLevel(s, op, s', id);
    }
  }

  lemma StaysLevel(s: State, op: Op, s': State, id: int)
    requires InOrder(s) && Step(s, op, s') && id in s.wraps && op != Destroy(id) && !Behind(s, id)
    requires !CopiesAt(s, op, s.wraps[id].addr)
    ensures id in s'.wraps && s'.wraps[id].addr == s.wraps[id].addr && !Behind(s', id)
  {
    hide Counted;
    assert WrapOk(s, s.wraps[id]);
    if op.Destroy? {
      var w := s.wraps[op.id];
      assert WrapOk(s, w);
      if Dirty(w) {
        CountedLocked(s.locks, s.wraps, w.addr);
      }
      StillThere(CopiedBack(s, w).locks, s.wraps, op.id, id);
    }
  }

  /** No update is lost: between the making of a wrapper and its copy-back nobody else copies back at its address. */
  lemma RunIsSerial(ss: seq<State>, ops: seq<Op>, m: nat, n: nat)
    requires Run(ss, ops) && InOrder(ss[0]) && m < n < |ops| && ops[n].Destroy?
    requires CopyBack(ss[m], ops[m]) && ops[n].id in ss[m].wraps && ops[m].id != ops[n].id
    requires ss[m].wraps[ops[n].id].addr == ss[m].wraps[ops[m].id].addr && (forall k :: m <= k < n ==> ops[k] != ops[n])
    ensures !CopyBack(ss[n], ops[n])
  {
    hide InOrder;
    RunInOrder(ss, ops, m);
    assert Step(ss[m], ops[m], ss[m + 1]);
    LeavesBehind(ss[m], ops[m], ss[m + 1], ops[n].id);
    BehindUntil(ss, ops, m + 1, n, ops[n].id);
    assert Step(ss[n], ops[n], ss[n + 1]);
  }

  /** Memory at an address is what was last copied back there. */
  lemma {:induction false} LastCopyStays(ss: seq<State>, ops: seq<Op>, m: nat, n: nat)
    requires Run(ss, ops) && InOrder(ss[0]) && m < n <= |ops| && CopyBack(ss[m], ops[m])
    requires forall k :: m < k < n && CopyBack(ss[k], ops[k]) ==>
               Elsewhere(ss[k].wraps[ops[k].id], ss[m].wraps[ops[m].id])
    ensures var w := ss[m].wraps[ops[m].id];
              Fits(ss[n].mem, w.addr, |w.value|) && ss[n].mem[w.addr..w.addr + |w.value|] == w.value
    decreases n
  {
    hide InOrder, Step;
    if n == m + 1 {
      RunInOrder(ss, ops, m);
      RunFindsSnapshots(ss, ops, m);
      ValueLength(ss[m], ops[m].id);
    } else {
      LastCopyStays(ss, ops, m, n - 1);
      assert Step(ss[n - 1], ops[n - 1], ss[n - 1 + 1]);
      ElsewhereStays(ss[n - 1], ops[n - 1], ss[n], ss[m].wraps[ops[m].id]);
    }
  }

  lemma ElsewhereStays(s: State, op: Op, s': State, w: Wrap)
    requires Step(s, op, s') && (CopyBack(s, op) ==> Elsewhere(s.wraps[op.id], w)) && Fits(s.mem, w.addr, |w.value|)
    ensures Fits(s'.mem, w.addr, |w.value|)
    ensures s'.mem[w.addr..w.addr + |w.value|] == s.mem[w.addr..w.addr + |w.value|]
  {}

  predicate Elsewhere(v: Wrap, w: Wrap) { v.addr + |v.value| <= w.addr || w.addr + |w.value| <= v.addr }

  lemma ValueLength(s: State, id: int)
    requires InOrder(s) && id in s.wraps
    ensures |s.wraps[id].value| == |s.wraps[id].backup|
  {
    assert WrapOk(s, s.wraps[id]);
  }

  /** And memory no copy-back covers never changes. */
  lemma {:induction false} RestStays(ss: seq<State>, ops: seq<Op>, n: nat, x: int)
    requires Run(ss, ops) && n <= |ops| && 0 <= x < |ss[0].mem|
    requires forall k :: 0 <= k < n && CopyBack(ss[k], ops[k]) ==> !Covers(ss[k].wraps[ops[k].id], x)
    ensures |ss[n].mem| == |ss[0].mem| && ss[n].mem[x] == ss[0].mem[x]
  {
    if n > 0 {
      RestStays(ss, ops, n - 1, x);
      assert Step(ss[n - 1], ops[n - 1], ss[n - 1 + 1]);
    }
  }

  predicate Covers(w: Wrap, x: int) { w.addr <= x < w.addr + |w.value| }
}
