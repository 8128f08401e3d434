/**
 fdpp/objlock.cpp and the wrapper of fdpp/farptr.hpp: objects in DOS memory are copied out, changed and copied
 back, and a lock count detects that somebody else has copied back in between.
 */
module SymWrp {
  import Disks
  import opened SymSpec

  /** The map of entries by address. */
  class ObjLock {
    var lmap: Locks

    constructor ()
      ensures lmap == map[]
    {
      lmap := map[];
    }

    method Ref(a: int) returns (cnt: int)
      modifies this
      ensures lmap == Refd(old(lmap), a) && cnt == EntryOf(old(lmap), a).lockcnt
    {
      var ent := EntryOf(lmap, a);
      lmap := lmap[a := ent.(refcnt := ent.refcnt + 1)];
      return ent.lockcnt;
    }

    method Unref(a: int)
      requires a in lmap && lmap[a].refcnt > 0
      modifies this
      ensures lmap == Unrefd(old(lmap), a)
    {
      lmap := lmap[a := lmap[a].(refcnt := lmap[a].refcnt - 1)];
      if lmap[a].refcnt == 0 {
        lmap := lmap - {a};
      }
      assert lmap == Unrefd(old(lmap), a);
    }

    /** Takes note of a copy-back; fails if there has been another one since `cnt` was read. */
    method Lock(a: int, cnt: int) returns (ok: bool)
      requires a in lmap && lmap[a].refcnt > 0
      modifies this
      ensures ok == (old(lmap)[a].lockcnt == cnt)
      ensures lmap == if ok then Locked(old(lmap), a) else old(lmap)
    {
      if lmap[a].lockcnt != cnt {
        return false;
      }
      lmap := lmap[a := lmap[a].(lockcnt := lmap[a].lockcnt + 1)];
      return true;
    }
  }

  /** A wrapper: the copy its user works on, and the snapshot it was made from. */
  class Wrapper {
    const addr: int
    const len: nat
    const lockcnt: int
    const backup: seq<byte>
    /** the user may change it: the wrapped type is not const */
    const mods: bool
    var value: seq<byte>

    constructor (addr: int, lockcnt: int, data: seq<byte>, mods: bool)
      ensures this.len == |data| && Value() == Wrap(addr, lockcnt, data, mods, data)
    {
      this.addr, this.len, this.lockcnt, this.backup, this.mods := addr, |data|, lockcnt, data, mods;
      this.value := data;
    }

    ghost function Value(): Wrap
      reads `value
    {
      Wrap(addr, lockcnt, backup, mods, value)
    }
  }

  class Memory {
    const mem: array<byte>
    const locks: ObjLock

    /** The wrappers that exist, by name, and what everything says. */
    ghost var wraps: map<int, Wrapper>
    ghost var state: State

    constructor (mem: array<byte>)
      ensures Valid() && this.mem == mem && wraps == map[] && state == State(mem[..], map[], map[]) && fresh(locks)
    {
      Begin(mem[..]);
      this.mem := mem;
      this.locks := new ObjLock();
      this.wraps, this.state := map[], State(mem[..], map[], map[]);
    }

    ghost predicate Named(i: int)
      requires i in wraps
      reads `wraps, `state, wraps[i]
    {
      i in state.wraps && state.wraps[i] == wraps[i].Value() && wraps[i].len == |wraps[i].backup|
    }

    ghost predicate Valid()
      reads `wraps, `state, mem, locks, wraps.Values
    {
      && state.mem == mem[..] && state.locks == locks.lmap && InOrder(state)
      && state.wraps.Keys == wraps.Keys
      && (forall i :: i in wraps ==> Named(i))
      && (forall i, j :: i in wraps && j in wraps && i != j ==> wraps[i] != wraps[j])
    }

    lemma EntryUsed(id: int)
      requires Valid() && id in wraps
      ensures var w := wraps[id];
        && w.addr in locks.lmap && locks.lmap[w.addr].refcnt > 0 && |w.value| == |w.backup| == w.len
        && Fits(mem[..], w.addr, w.len)
    {
      assert Named(id) && WrapOk(state, state.wraps[id]);
    }

    /** The wrapper's constructor. */
    method Create(ghost id: int, seg: nat, off: nat, len: nat, mods: bool) returns (w: Wrapper)
      requires Valid() && id !in wraps && len < 1024 && Addr(seg, off) + len <= mem.Length
      requires forall i :: i in wraps ==> Apart(wraps[i].addr, |wraps[i].backup|, Addr(seg, off), len)
      modifies `wraps, `state, locks
      ensures Valid() && fresh(w) && wraps == old(wraps)[id := w]
      ensures w.Value() == Wrap(Addr(seg, off), w.lockcnt, mem[Addr(seg, off)..Addr(seg, off) + len], mods, w.backup)
              && w.len == len
      ensures Step(old(state), Op.Create(id, Addr(seg, off), len, mods), state)
    {
      hide InOrder, Addr, Refd, EntryOf, Apart;
      var a := Addr(seg, off);
      assert a >= 0 by {
        AddrIs(seg, off);
      }
      ghost var s := state;
      var lockcnt := locks.Ref(a);
      w := new Wrapper(a, lockcnt, mem[a..a + len], mods);
      forall i | i in wraps ensures Named(i) && s.wraps[i].addr == wraps[i].addr
        && s.wraps[i].backup == wraps[i].backup {
        assert old(Named(i));
      }
      wraps := wraps[id := w];
      state := State(s.mem, Refd(s.locks, a), s.wraps[id := Wrapped(s, a, len, mods)]);
      StepInOrder(s, Op.Create(id, a, len, mods), state);
      forall i | i in wraps ensures Named(i) {
        assert i != id ==> old(Named(i));
      }
    }

    /** The user changes the copy. */
    method Modify(w: Wrapper, value: seq<byte>, ghost id: int)
      requires Valid() && id in wraps && wraps[id] == w && |value| == w.len
      modifies `state, w`value
      ensures Valid() && w.value == value && Step(old(state), Op.Modify(id, value), state)
    {
      hide InOrder;
      ghost var s := state;
      assert Named(id);
      w.value := value;
      state := s.(wraps := s.wraps[id := s.wraps[id].(value := value)]);
      StepInOrder(s, Op.Modify(id, value), state);
      forall i | i in wraps ensures Named(i) {
        assert old(Named(i));
      }
    }

    /** The copy is to be written back: the user has changed it. */
    predicate Changed(w: Wrapper)
      reads w`value
    {
      w.mods && w.len > 0 && w.value != w.backup
    }

    /** `copy_mods`; fails if somebody else has copied back since the wrapper was made. */
    method CopyMods(w: Wrapper, ghost id: int) returns (ok: bool)
      requires Valid() && id in wraps && wraps[id] == w && Changed(w)
      modifies locks, mem
      ensures ok == !Behind(state, id)
      ensures ok ==> old(mem[w.addr..w.addr + w.len]) == w.backup && mem[w.addr..w.addr + w.len] == w.value
      ensures w.addr in state.locks && Dirty(state.wraps[id]) && state.wraps[id].addr == w.addr
      ensures if ok then mem[..] == CopiedBack(state, state.wraps[id]).mem
              && locks.lmap == CopiedBack(state, state.wraps[id]).locks
              else mem[..] == old(mem[..]) && locks.lmap == old(locks.lmap)
      ensures locks.lmap.Keys == old(locks.lmap).Keys && locks.lmap[w.addr].refcnt == old(locks.lmap)[w.addr].refcnt
    {
      hide InOrder;
      EntryUsed(id);
      assert Named(id) && WrapOk(state, state.wraps[id]) by {
        InOrderAt(state, id);
      }
      ok := locks.Lock(w.addr, w.lockcnt);
      if ok {
        CopyIn(w.addr, w.value);
      }
    }

    /** `memcpy` */
    method CopyIn(at: int, data: seq<byte>)
      requires 0 <= at && at + |data| <= mem.Length
      modifies mem
      ensures mem[..] == Disks.Patched(old(mem[..]), at, data)
    {
      forall k | 0 <= k < |data| {
        mem[at + k] := data[k];
      }
    }

    /** The wrapper's destructor.  It fails just if the wrapper is to be copied back and has been left behind. */
    method Destroy(w: Wrapper, ghost id: int) returns (ok: bool)
      requires Valid() && id in wraps && wraps[id] == w
      modifies `wraps, `state, locks, mem
      ensures Valid() && (ok <==> !(Changed(w) && Behind(old(state), id)))
      ensures if ok then wraps == old(wraps) - {id} && Step(old(state), Op.Destroy(id), state)
              else wraps == old(wraps) && state == old(state)
    {
      hide InOrder, Unrefd, Locked, Behind;
      ghost var s := state;
      EntryUsed(id);
      assert Named(id);
      ok := true;
      if Changed(w) {
        ok := CopyMods(w, id);
        if !ok {
          forall i | i in wraps ensures Named(i) {
            assert old(Named(i));
          }
          return;
        }
      }
      ghost var s1 := CopiedBack(s, s.wraps[id]);
      locks.Unref(w.addr);
      wraps := wraps - {id};
      state := State(s1.mem, Unrefd(s1.locks, w.addr), s.wraps - {id});
      DestroyIs(s, id, state);
      StepInOrder(s, Op.Destroy(id), state);
      forall i | i in wraps ensures Named(i) {
        assert old(Named(i));
      }
    }
  }

  lemma AddrIs(seg: nat, off: nat)
    ensures Addr(seg, off) >= 0
  {}

  lemma InOrderAt(s: State, id: int)
    requires InOrder(s) && id in s.wraps
    ensures WrapOk(s, s.wraps[id])
  {}

  lemma DestroyIs(s: State, id: int, s': State)
    requires InOrder(s) && id in s.wraps && s.wraps[id].addr in s.locks && !(Dirty(s.wraps[id]) && Behind(s, id))
    requires Dirty(s.wraps[id]) ==> Fits(s.mem, s.wraps[id].addr, |s.wraps[id].value|)
    requires var w, s1 := s.wraps[id], CopiedBack(s, s.wraps[id]);
      s' == State(s1.mem, Unrefd(s1.locks, w.addr), s.wraps - {id})
    ensures Step(s, Op.Destroy(id), s')
  {
    InOrderAt(s, id);
  }

  /** Two wrappers of the same object, both changed: neither is behind, and both are to be copied back. */
  lemma BothDirty(s0: State, s1: State, s2: State, s3: State, s4: State, addr: int, len: nat, a: seq<byte>,
                  b: seq<byte>)
    requires s0.wraps == map[] && len > 0 && Fits(s0.mem, addr, len)
    requires a != s0.mem[addr..addr + len] && b != s0.mem[addr..addr + len]
    requires Step(s0, Op.Create(0, addr, len, true), s1) && Step(s1, Op.Create(1, addr, len, true), s2)
    requires Step(s2, Op.Modify(0, a), s3) && Step(s3, Op.Modify(1, b), s4)
    ensures s4.mem == s0.mem && 0 in s4.wraps && 1 in s4.wraps && !Behind(s4, 0) && !Behind(s4, 1)
    ensures Dirty(s4.wraps[0]) && Dirty(s4.wraps[1]) && s4.wraps[0].addr == s4.wraps[1].addr == addr
            && s4.wraps[1].value == b
  {}

  /** The first copy-back leaves the other one behind. */
  lemma OtherBehind(s4: State, s5: State, addr: int, len: nat, b: seq<byte>)
    requires InOrder(s4) && Step(s4, Op.Destroy(1), s5) && 0 in s4.wraps && 1 in s4.wraps && Dirty(s4.wraps[1])
    requires s4.wraps[0].addr == s4.wraps[1].addr == addr && s4.wraps[1].value == b && |b| == len
             && Fits(s4.mem, addr, len)
    ensures Behind(s5, 0) && |s5.mem| == |s4.mem| && s5.mem[addr..addr + len] == b
  {
    LeavesBehind(s4, Op.Destroy(1), s5, 0);
  }

  /** Two wrappers of the same object, both changed. */
  method BothMade(m: Memory, seg: nat, off: nat, len: nat, a: seq<byte>, b: seq<byte>)
    returns (outer: Wrapper, inner: Wrapper)
    requires m.Valid() && m.wraps == map[] && 0 < len < 1024 && Addr(seg, off) + len <= m.mem.Length
             && |a| == |b| == len
    requires var x := m.mem[Addr(seg, off)..Addr(seg, off) + len]; a != x && b != x
    modifies m, m.locks
    ensures m.Valid() && m.wraps == map[0 := outer, 1 := inner] && fresh(outer) && fresh(inner)
    ensures m.Changed(outer) && m.Changed(inner) && !Behind(m.state, 1) && 0 in m.state.wraps && 1 in m.state.wraps
    ensures Dirty(m.state.wraps[1]) && m.state.wraps[0].addr == m.state.wraps[1].addr == Addr(seg, off)
    ensures m.state.wraps[1].value == b
  {
    hide Memory.Valid, Addr, Step, Behind, Wrapped, InOrder, Apart;
    ghost var at := Addr(seg, off);
    AddrIs(seg, off);
    StateIs(m);
    ghost var s0 := m.state;
    outer := m.Create(0, seg, off, len, true);
    ghost var s1 := m.state;
    SameAddr(at, len, len);
    inner := m.Create(1, seg, off, len, true);
    ghost var s2 := m.state;
    m.Modify(outer, a, 0);
    ghost var s3 := m.state;
    m.Modify(inner, b, 1);
    BothDirty(s0, s1, s2, s3, m.state, at, len, a, b);
  }

  lemma SameAddr(a: int, n: int, m: int)
    ensures Apart(a, n, a, m)
  {}

  /** Of two wrappers of the same object that are both changed, only the first to be destroyed is copied back; the
      second is caught instead of undoing that. */
  method TwoWriters(m: Memory, seg: nat, off: nat, len: nat, a: seq<byte>, b: seq<byte>)
    returns (first: bool, second: bool)
    requires m.Valid() && m.wraps == map[] && 0 < len < 1024 && Addr(seg, off) + len <= m.mem.Length
             && |a| == |b| == len
    requires var x := m.mem[Addr(seg, off)..Addr(seg, off) + len]; a != x && b != x
    modifies m, m.mem, m.locks
    ensures first && !second && m.mem[Addr(seg, off)..Addr(seg, off) + len] == b
  {
    hide Memory.Valid, Addr, Step, Behind, InOrder, Dirty;
    AddrIs(seg, off);
    var outer, inner := BothMade(m, seg, off, len, a, b);
    StateIs(m);
    ghost var s := m.state;
    first := m.Destroy(inner, 1);
    StateIs(m);
    OtherBehind(s, m.state, Addr(seg, off), len, b);
    second := m.Destroy(outer, 0);
    StateIs(m);
  }

  lemma StateIs(m: Memory)
    requires m.Valid()
    ensures InOrder(m.state) && m.state.mem == m.mem[..] && m.state.wraps.Keys == m.wraps.Keys
    ensures m.wraps == map[] ==> m.state.wraps == map[]
  {}
}
