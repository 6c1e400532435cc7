/**
  The hook registry of the Unicorn engine.  A hook lives in one list per event it listens
  to and carries a reference count; deleting a hook and closing the engine free it when the
  count reaches zero.
 */
module HookRegistry {
  import opened Common
  import opened HookList

  /** The address of a hook.  The allocator is assumed never to hand out the same one twice. */
  type Id = nat

  datatype Hook = Hook(kind: int, begin: int, end: int, insn: int, refs: int)

  const HOOK_MAX: int := 14
  const INSN_INDEX: int := 1

  type Tables = seq<seq<Id>>

  // ---- Event masks ----------------------------------------------------------------------

  /** The arithmetic right shift of a signed word. */
  function Shr(mask: int, i: nat): (r: int)
    ensures mask >= 0 ==> 0 <= r <= mask
  {
    if i == 0 then mask else Shr(mask, i - 1) / 2
  }

  predicate Bit(mask: int, i: nat) { Shr(mask, i) % 2 == 1 }

  lemma {:induction false} NoMoreBits(mask: int, i: nat, j: nat)
    requires Shr(mask, i) == 0 && i <= j
    ensures Shr(mask, j) == 0 && !Bit(mask, j)
    decreases j
  {
    if i < j { NoMoreBits(mask, i, j - 1); }
  }

  lemma DivTwice(x: int, d: int)
    requires d > 0
    ensures x / d / 2 == x / (2 * d)
  {
    var q, r := x / d, x % d;
    var h, b := q / 2, q % 2;
    assert x == q * d + r && q == 2 * h + b;
    assert b == 0 ==> b * d + r == r;
    assert b == 1 ==> b * d + r == d + r;
    assert x == h * (2 * d) + (b * d + r);
    DivMod(2 * d, h, b * d + r);
  }

  /** A shift divides by a power of two, and a bit is what is left of that. */
  lemma {:induction false} BitIs(mask: int, i: nat)
    ensures Shr(mask, i) == mask / Pow2(i)
    ensures Bit(mask, i) <==> mask / Pow2(i) % 2 == 1
  {
    if i > 0 {
      BitIs(mask, i - 1);
      DivTwice(mask, Pow2(i - 1));
    }
  }

  /** The mask of a set of events: the sum of the bits of those below `n`. */
  function MaskOf(events: set<nat>, n: nat): nat {
    if n == 0 then 0 else MaskOf(events, n - 1) + if n - 1 in events then Pow2(n - 1) else 0
  }

  /** The same from event `k` on, in units of its bit. */
  function Upper(events: set<nat>, k: nat, n: nat): nat
    decreases n - k
  {
    if k >= n then 0 else (if k in events then 1 else 0) + 2 * Upper(events, k + 1, n)
  }

  lemma Shifted(p: int, u: int)
    ensures p * (0 + 2 * u) == (2 * p) * u && p * (1 + 2 * u) == p + (2 * p) * u
  {
  }

  lemma {:induction false} MaskIsUpper(events: set<nat>, k: nat, n: nat)
    requires k <= n
    ensures MaskOf(events, k) + Pow2(k) * Upper(events, k, n) == MaskOf(events, n)
    decreases n - k
  {
    if k < n {
      MaskIsUpper(events, k + 1, n);
      Shifted(Pow2(k), Upper(events, k + 1, n));
    }
  }

  lemma {:induction false} ShrOfUpper(events: set<nat>, n: nat, i: nat)
    ensures Shr(Upper(events, 0, n), i) == Upper(events, i, n)
  {
    if i > 0 { ShrOfUpper(events, n, i - 1); }
  }

  /** The bits of such a mask are the events of the set. */
  lemma MaskBits(events: set<nat>, n: nat, i: nat)
    ensures Bit(MaskOf(events, n), i) <==> i < n && i in events
  {
    MaskIsUpper(events, 0, n);
    ShrOfUpper(events, n, i);
  }

  /** The lists a new hook of this kind goes into: the instruction list alone when that bit is
      set, otherwise one list per bit of a positive mask. */
  predicate Listens(kind: int, i: nat) {
    if Bit(kind, INSN_INDEX) then i == INSN_INDEX else kind > 0 && Bit(kind, i)
  }

  // ---- Counting lists ----------------------------------------------------------------------

  /** In how many lists `id` is. */
  function CountIn(ts: Tables, id: Id): (n: nat) {
    if ts == [] then 0 else
      var n := CountIn(ts[1..], id);
      if id in ts[0] then n + 1 else n
  }

  ghost predicate Nowhere(ts: Tables, id: Id) { forall i {:trigger ts[i]} :: 0 <= i < |ts| ==> id !in ts[i] }

  lemma {:induction false} CountZero(ts: Tables, id: Id)
    ensures CountIn(ts, id) == 0 <==> Nowhere(ts, id)
  {
    if ts != [] {
      CountZero(ts[1..], id);
      assert ts == [ts[0]] + ts[1..];
    }
  }

  lemma {:induction false} CountUpdate(ts: Tables, i: nat, t: seq<Id>, id: Id)
    requires i < |ts|
    ensures CountIn(ts[i := t], id) + (if id in ts[i] then 1 else 0) == CountIn(ts, id) + (if id in t then 1 else 0)
  {
    if i == 0 {
      assert ts[i := t][1..] == ts[1..];
    } else {
      assert ts[i := t][1..] == ts[1..][i - 1 := t];
      CountUpdate(ts[1..], i - 1, t, id);
    }
  }

  predicate NoDuplicates(t: seq<Id>) { forall i, j :: 0 <= i < j < |t| ==> t[i] != t[j] }

  lemma {:induction false} RemoveFirstLeavesNone(t: seq<Id>, id: Id)
    requires NoDuplicates(t)
    ensures NoDuplicates(RemoveFirst(t, id)) && id !in RemoveFirst(t, id)
    ensures forall x :: x != id ==> (x in RemoveFirst(t, id) <==> x in t)
  {
    if t != [] && t[0] != id {
      RemoveFirstLeavesNone(t[1..], id);
      var r := RemoveFirst(t[1..], id);
      assert t == [t[0]] + t[1..];
      assert t[0] !in t[1..];
    } else if t != [] {
      assert t == [t[0]] + t[1..];
    }
  }

  // ---- What every call keeps -----------------------------------------------------------------

  ghost predicate Counted(ts: Tables, hooks: map<Id, Hook>) {
    && (forall i {:trigger ts[i]} :: 0 <= i < |ts| ==> NoDuplicates(ts[i]))
    && (forall id {:trigger CountIn(ts, id)} ::
          if id in hooks then hooks[id].refs == CountIn(ts, id) > 0 else CountIn(ts, id) == 0)
  }

  /** Every hook allocated so far is either live or has been freed exactly once. */
  ghost predicate FreedOnce(hooks: map<Id, Hook>, freed: seq<Id>, next: Id) {
    forall id: Id {:trigger multiset(freed)[id]} ::
      multiset(freed)[id] + (if id in hooks then 1 else 0) == if id < next then 1 else 0
  }

  // ---- Calls on values ------------------------------------------------------------------------

  /** The tables with `id` put into the first `n` lists it listens to. */
  function Placed(ts: Tables, id: Id, kind: int, n: nat, front: bool): (r: Tables)
    ensures |r| == |ts|
    ensures forall i {:trigger r[i]} :: 0 <= i < |ts| ==>
      r[i] == if i < n && Listens(kind, i) then (if front then [id] + ts[i] else ts[i] + [id]) else ts[i]
  {
    seq(|ts|, i requires 0 <= i < |ts| =>
      if i < n && Listens(kind, i) then (if front then [id] + ts[i] else ts[i] + [id]) else ts[i])
  }

  /** A hook added with the mask of a set of events is in exactly the lists of that set, at the
      front or at the back, and in as many as there are; with the instruction event among them it
      is in that list alone. */
  lemma PlacedInSet(ts: Tables, id: Id, events: set<nat>, front: bool)
    requires |ts| == 14 && Nowhere(ts, id) && forall i :: i in events ==> i < 14
    ensures var t := Placed(ts, id, MaskOf(events, 14), 14, front);
      var wanted := if 1 in events then {1} else events;
      && |t| == 14 && CountIn(t, id) == |wanted|
      && forall i: nat :: i < 14 ==>
           && (id in t[i] <==> i in wanted) && |t[i]| == |ts[i]| + (if i in wanted then 1 else 0)
           && (i in wanted && front ==> t[i][0] == id && t[i][1..] == ts[i])
           && (i in wanted && !front ==> t[i][|ts[i]|] == id && t[i][..|ts[i]|] == ts[i])
           && (i !in wanted ==> t[i] == ts[i])
  {
    var t := Placed(ts, id, MaskOf(events, 14), 14, front);
    var wanted := if 1 in events then {1} else events;
    MaskBits(events, 14, 1);
    forall i: nat | i < 14
      ensures Listens(MaskOf(events, 14), i) <==> i in wanted
    {
      MaskBits(events, 14, i);
      if i in events { MaskPositive(events, 14, i); }
    }
    forall i | 0 <= i < |t| ensures id in t[i] <==> i in wanted { assert id !in ts[i]; }
    assert (set i | i in wanted && i >= 0) == wanted;
    CountIsSize(t, id, wanted, 0);
    assert t[0..] == t;
  }

  lemma {:induction false} MaskPositive(events: set<nat>, n: nat, i: nat)
    requires i < n && i in events
    ensures MaskOf(events, n) > 0
  {
    if i < n - 1 { MaskPositive(events, n - 1, i); }
  }

  lemma {:induction false} CountIsSize(ts: Tables, id: Id, wanted: set<nat>, k: nat)
    requires k <= |ts| && (forall i :: i in wanted ==> i < |ts|)
    requires forall i :: k <= i < |ts| ==> (id in ts[i] <==> i in wanted)
    ensures CountIn(ts[k..], id) == |set i | i in wanted && i >= k|
    decreases |ts| - k
  {
    var here, after := set i | i in wanted && i >= k, set i | i in wanted && i >= k + 1;
    if k < |ts| {
      CountIsSize(ts, id, wanted, k + 1);
      assert ts[k..][1..] == ts[k + 1..];
      assert here == if k in wanted then after + {k} else after;
    } else {
      assert here == {};
    }
  }

  /** The kind for all invalid memory accesses, 0x3F0, goes into lists 4 to 9. */
  lemma InvalidAccesses(i: nat)
    ensures Listens(0x3F0, i) <==> 4 <= i <= 9
  {
    var events := {4, 5, 6, 7, 8, 9};
    assert MaskOf(events, 4) == 0;
    assert Pow2(4) == 16;
    assert MaskOf(events, 6) == 48 && Pow2(6) == 64;
    assert MaskOf(events, 8) == 240 && Pow2(8) == 256;
    assert MaskOf(events, 10) == 0x3F0;
    MaskBits(events, 10, i);
    MaskBits(events, 10, 1);
  }

  /** The tables with `id` taken out of the first `n` lists. */
  function Removed(ts: Tables, id: Id, n: nat): (r: Tables)
    ensures |r| == |ts|
    ensures forall i {:trigger r[i]} :: 0 <= i < |ts| ==> r[i] == if i < n then RemoveFirst(ts[i], id) else ts[i]
  {
    seq(|ts|, i requires 0 <= i < |ts| => if i < n then RemoveFirst(ts[i], id) else ts[i])
  }

  lemma {:induction false} CountSame(ts: Tables, us: Tables, id: Id)
    requires |ts| == |us| && forall i :: 0 <= i < |ts| ==> (id in ts[i] <==> id in us[i])
    ensures CountIn(ts, id) == CountIn(us, id)
  {
    if ts != [] { CountSame(ts[1..], us[1..], id); }
  }

  lemma PlacedCounted(ts: Tables, hooks: map<Id, Hook>, id: Id, kind: int, front: bool, hook: Hook)
    requires |ts| == HOOK_MAX && Counted(ts, hooks) && id !in hooks
    requires hook.refs == CountIn(Placed(ts, id, kind, HOOK_MAX, front), id)
    ensures var t := Placed(ts, id, kind, HOOK_MAX, front);
      if hook.refs > 0 then Counted(t, hooks[id := hook]) else t == ts && Counted(t, hooks)
  {
    var t := Placed(ts, id, kind, HOOK_MAX, front);
    assert CountIn(ts, id) == 0;
    CountZero(ts, id);
    CountZero(t, id);
    forall i | 0 <= i < |t|
      ensures NoDuplicates(t[i]) && forall x :: x != id ==> (x in t[i] <==> x in ts[i])
    {
      assert NoDuplicates(ts[i]);
    }
    forall x | x != id
      ensures CountIn(t, x) == CountIn(ts, x)
    {
      CountSame(t, ts, x);
    }
    if hook.refs == 0 {
      forall i | 0 <= i < |t|
        ensures t[i] == ts[i]
      {
        assert id !in t[i];
      }
    }
  }

  lemma RemovedCounted(ts: Tables, hooks: map<Id, Hook>, id: Id)
    requires Counted(ts, hooks)
    ensures Counted(Removed(ts, id, |ts|), hooks - {id})
    ensures id !in hooks ==> Removed(ts, id, |ts|) == ts
    ensures Nowhere(Removed(ts, id, |ts|), id)
  {
    var t := Removed(ts, id, |ts|);
    forall i | 0 <= i < |t|
      ensures NoDuplicates(t[i]) && id !in t[i] && forall x :: x != id ==> (x in t[i] <==> x in ts[i])
    {
      assert NoDuplicates(ts[i]);
      RemoveFirstLeavesNone(ts[i], id);
    }
    forall x | x != id
      ensures CountIn(t, x) == CountIn(ts, x)
    {
      CountSame(t, ts, x);
    }
    CountZero(t, id);
    CountZero(ts, id);
    assert CountIn(t, id) == 0;
    if id !in hooks {
      assert CountIn(ts, id) == 0;
    }
  }

  /** Taking `id` out of list `n` lowers its count by one when it was there. */
  lemma RemovedNext(ts: Tables, id: Id, n: nat)
    requires n < |ts| && NoDuplicates(ts[n])
    ensures Removed(ts, id, n + 1) == Removed(ts, id, n)[n := RemoveFirst(ts[n], id)]
    ensures CountIn(Removed(ts, id, n + 1), id) == CountIn(Removed(ts, id, n), id) - if id in ts[n] then 1 else 0
  {
    RemoveFirstLeavesNone(ts[n], id);
    CountUpdate(Removed(ts, id, n), n, RemoveFirst(ts[n], id), id);
  }

  /** Once no list holds `id` any more, the lists not yet visited never held it. */
  lemma RemovedEarly(ts: Tables, id: Id, n: nat)
    requires n <= |ts| && CountIn(Removed(ts, id, n), id) == 0
    ensures Removed(ts, id, n) == Removed(ts, id, |ts|)
  {
    var t := Removed(ts, id, n);
    CountZero(t, id);
    forall i | n <= i < |ts|
      ensures t[i] == RemoveFirst(ts[i], id)
    {
      assert id !in t[i];
    }
  }

  lemma PlacedNext(ts: Tables, id: Id, kind: int, n: nat, front: bool)
    requires n < |ts| && Listens(kind, n) && CountIn(ts, id) == 0
    ensures var t := Placed(ts, id, kind, n, front);
      && t[n] == ts[n]
      && Placed(ts, id, kind, n + 1, front) == t[n := if front then [id] + t[n] else t[n] + [id]]
      && CountIn(Placed(ts, id, kind, n + 1, front), id) == CountIn(t, id) + 1
  {
    var t := Placed(ts, id, kind, n, front);
    CountZero(ts, id);
    CountUpdate(t, n, if front then [id] + t[n] else t[n] + [id], id);
  }

  /** The bit loop may stop as soon as nothing is left of the mask. */
  lemma PlacedDone(ts: Tables, id: Id, kind: int, n: nat, front: bool)
    requires |ts| == HOOK_MAX && Shr(kind, n) <= 0 && !Bit(kind, INSN_INDEX)
    requires kind <= 0 ==> n == 0
    ensures Placed(ts, id, kind, n, front) == Placed(ts, id, kind, HOOK_MAX, front)
  {
    forall i: nat | n <= i
      ensures !Listens(kind, i)
    {
      if kind > 0 { NoMoreBits(kind, n, i); }
    }
  }

  /** A kind with the instruction bit goes into that list alone. */
  lemma PlacedInsn(ts: Tables, id: Id, kind: int, front: bool)
    requires |ts| == HOOK_MAX && Bit(kind, INSN_INDEX) && CountIn(ts, id) == 0
    ensures var t := Placed(ts, id, kind, HOOK_MAX, front);
      && t == ts[INSN_INDEX := if front then [id] + ts[INSN_INDEX] else ts[INSN_INDEX] + [id]]
      && CountIn(t, id) == 1
  {
    CountZero(ts, id);
    CountUpdate(ts, INSN_INDEX, if front then [id] + ts[INSN_INDEX] else ts[INSN_INDEX] + [id], id);
  }

  ghost function Unreferenced(hooks: map<Id, Hook>, id: Id): map<Id, Hook>
    requires id in hooks
  {
    if hooks[id].refs == 1 then hooks - {id} else hooks[id := hooks[id].(refs := hooks[id].refs - 1)]
  }

  /** A delete that has visited the first `i` lists. */
  ghost predicate DelLoop(ts: Tables, hooks0: map<Id, Hook>, t: Tables, hooks: map<Id, Hook>, id: Id, i: nat) {
    && t == Removed(ts, id, i)
    && (id !in hooks0 ==> hooks == hooks0)
    && (id in hooks0 ==> CountIn(t, id) > 0 && hooks == hooks0[id := hooks0[id].(refs := CountIn(t, id))])
  }

  lemma DelStarts(ts: Tables, hooks0: map<Id, Hook>, id: Id)
    requires Counted(ts, hooks0)
    ensures DelLoop(ts, hooks0, ts, hooks0, id, 0)
  {
    assert Removed(ts, id, 0) == ts;
    assert CountIn(ts, id) == if id in hooks0 then hooks0[id].refs else 0;
  }

  lemma DelNext(ts: Tables, hooks0: map<Id, Hook>, t: Tables, hooks: map<Id, Hook>, id: Id, i: nat)
    requires Counted(ts, hooks0) && DelLoop(ts, hooks0, t, hooks, id, i) && i < |ts|
    ensures var u := t[i := RemoveFirst(t[i], id)];
      if id !in t[i] then DelLoop(ts, hooks0, u, hooks, id, i + 1)
      else
        && id in hooks
        && if hooks[id].refs == 1 then u == Removed(ts, id, |ts|) && hooks - {id} == hooks0 - {id}
           else DelLoop(ts, hooks0, u, Unreferenced(hooks, id), id, i + 1)
  {
    RemovedNext(ts, id, i);
    if id in t[i] {
      DelHit(ts, hooks0, t, hooks, id, i);
    }
  }

  lemma DelHit(ts: Tables, hooks0: map<Id, Hook>, t: Tables, hooks: map<Id, Hook>, id: Id, i: nat)
    requires Counted(ts, hooks0) && DelLoop(ts, hooks0, t, hooks, id, i) && i < |ts| && id in t[i]
    ensures var u := t[i := RemoveFirst(t[i], id)];
      && id in hooks
      && if hooks[id].refs == 1 then u == Removed(ts, id, |ts|) && hooks - {id} == hooks0 - {id}
         else DelLoop(ts, hooks0, u, Unreferenced(hooks, id), id, i + 1)
  {
    var u := t[i := RemoveFirst(t[i], id)];
    RemovedNext(ts, id, i);
    FoundIsLive(ts, hooks0, id, i);
    assert u == Removed(ts, id, i + 1) && CountIn(u, id) == CountIn(t, id) - 1;
    SameBut(hooks0, hooks, id, CountIn(t, id));
    if hooks[id].refs == 1 { RemovedEarly(ts, id, i + 1); }
  }

  lemma SameBut(hooks0: map<Id, Hook>, hooks: map<Id, Hook>, id: Id, refs: int)
    requires id in hooks0 && hooks == hooks0[id := hooks0[id].(refs := refs)]
    ensures hooks[id].refs == refs && hooks - {id} == hooks0 - {id}
    ensures refs != 1 ==> Unreferenced(hooks, id) == hooks0[id := hooks0[id].(refs := refs - 1)]
  {
  }

  lemma FoundIsLive(ts: Tables, hooks: map<Id, Hook>, id: Id, i: nat)
    requires Counted(ts, hooks) && i < |ts| && id in ts[i]
    ensures id in hooks
  {
    CountZero(ts, id);
    assert CountIn(ts, id) > 0;
  }

  lemma DelEnds(ts: Tables, hooks0: map<Id, Hook>, t: Tables, hooks: map<Id, Hook>, id: Id)
    requires Counted(ts, hooks0) && DelLoop(ts, hooks0, t, hooks, id, |ts|)
    ensures id !in hooks0 && hooks == hooks0
  {
    RemovedCounted(ts, hooks0, id);
    CountZero(t, id);
  }

  lemma FreeKeeps(hooks: map<Id, Hook>, freed: seq<Id>, next: Id, id: Id)
    requires FreedOnce(hooks, freed, next) && id in hooks
    ensures FreedOnce(hooks - {id}, freed + [id], next)
  {
    forall x: Id
      ensures multiset(freed + [id])[x] + (if x in hooks - {id} then 1 else 0) == if x < next then 1 else 0
    {
      assert multiset(freed)[x] + (if x in hooks then 1 else 0) == if x < next then 1 else 0;
    }
  }

  lemma SameLive(hooks: map<Id, Hook>, hooks': map<Id, Hook>, freed: seq<Id>, next: Id)
    requires FreedOnce(hooks, freed, next) && hooks'.Keys == hooks.Keys
    ensures FreedOnce(hooks', freed, next)
  {
    forall x: Id
      ensures multiset(freed)[x] + (if x in hooks' then 1 else 0) == if x < next then 1 else 0
    {
      assert x in hooks <==> x in hooks';
    }
  }

  lemma NextIsFresh(ts: Tables, hooks: map<Id, Hook>, freed: seq<Id>, next: Id, hook: Hook)
    requires Counted(ts, hooks) && FreedOnce(hooks, freed, next)
    ensures next !in hooks && CountIn(ts, next) == 0
    ensures FreedOnce(hooks[next := hook], freed, next + 1)
    ensures FreedOnce(hooks, freed + [next], next + 1)
  {
    assert multiset(freed)[next] + (if next in hooks then 1 else 0) == 0;
    forall x: Id
      ensures multiset(freed)[x] + (if x in hooks[next := hook] then 1 else 0) == if x < next + 1 then 1 else 0
      ensures multiset(freed + [next])[x] + (if x in hooks then 1 else 0) == if x < next + 1 then 1 else 0
    {
      assert multiset(freed)[x] + (if x in hooks then 1 else 0) == if x < next then 1 else 0;
    }
  }

  // ---- The registry ------------------------------------------------------------------------------

  datatype HookErr = HookOk | HookInvalid

  ghost predicate DistinctLists(lists: seq<List<Id>>) {
    forall i, j :: 0 <= i < j < |lists| ==> lists[i] != lists[j]
  }

  class Registry {
    const lists: seq<List<Id>>
    const hookInsert: bool
    var hooks: map<Id, Hook>
    var next: Id
    ghost var tables: Tables
    ghost var freed: seq<Id>

    ghost var items: set<Item<Id>>

    /** An engine without hooks; `lists` are its event lists, just allocated. */
    constructor (lists: seq<List<Id>>, hookInsert: bool)
      requires |lists| == HOOK_MAX && DistinctLists(lists)
      requires forall i :: 0 <= i < HOOK_MAX ==> lists[i].Valid() && lists[i].nodes == []
      ensures Valid() && this.lists == lists && this.hookInsert == hookInsert && hooks == map[] && items == {}
    {
      this.lists, this.hookInsert := lists, hookInsert;
      hooks, next, freed, items := map[], 0, [], {};
      tables := seq(HOOK_MAX, i => []);
      new;
      forall id: Id
        ensures CountIn(tables, id) == 0
      {
        CountZero(tables, id);
      }
    }

    /** List `i` is well formed and holds what `tables` says. */
    ghost predicate ListOk(i: nat)
      requires i < |lists|
      reads this`tables, this`items, lists, items
    {
      && (forall n :: n in lists[i].nodes ==> n in items)
      && lists[i].Valid()
      && |tables| == |lists| && lists[i].Contents() == tables[i]
    }

    ghost predicate Shape()
      reads this`tables, this`items, lists, items
    {
      && |lists| == |tables| == HOOK_MAX && DistinctLists(lists)
      && forall i {:trigger ListOk(i)} :: 0 <= i < |lists| ==> ListOk(i)
    }

    ghost predicate Valid()
      reads this, lists, items
    {
      Shape() && Counted(tables, hooks) && FreedOnce(hooks, freed, next)
    }

    /** Whatever was done to list `i` and its items, the other lists are as before. */
    twostate lemma OthersKept(i: nat)
      requires old(Shape()) && i < HOOK_MAX && |lists| == HOOK_MAX
      requires forall j :: 0 <= j < |lists| && j != i ==> unchanged(lists[j])
      requires forall n :: n in old(items) && n.owner != lists[i] ==> unchanged(n)
      requires |tables| == HOOK_MAX && forall j :: 0 <= j < HOOK_MAX && j != i ==> tables[j] == old(tables[j])
      requires old(items) <= items
      ensures forall j {:trigger ListOk(j)} :: 0 <= j < |lists| && j != i ==> ListOk(j)
    {
      forall j | 0 <= j < |lists| && j != i
        ensures ListOk(j)
      {
        assert old(ListOk(j)) && old(ListOk(i));
        assert forall n :: n in lists[j].nodes ==> n in old(items) && n.owner == lists[j] && unchanged(n);
        var ns := lists[j].nodes;
        forall k | 0 <= k < |ns|
          ensures ns[k].next == At(ns, k + 1)
        {
          assert ns[k] in ns && unchanged(ns[k]);
          assert old(ns[k].next) == At(ns, k + 1);
        }
      }
    }

    /** Puts `id` into list `i`, at the end the engine is configured for. */
    method Link(i: nat, id: Id)
      requires Shape() && i < HOOK_MAX
      modifies this`tables, this`items, lists[i], lists[i].nodes
      ensures Shape() && fresh(items - old(items))
      ensures tables == old(tables)[i := if hookInsert then [id] + old(tables[i]) else old(tables[i]) + [id]]
    {
      assert ListOk(i);
      if hookInsert {
        lists[i].Insert(id);
      } else {
        lists[i].Append(id);
      }
      items := items + set n | n in lists[i].nodes;
      tables := tables[i := lists[i].Contents()];
      OthersKept(i);
    }

    method Unlink(i: nat, id: Id) returns (removed: bool)
      requires Shape() && i < HOOK_MAX
      modifies this`tables, lists[i], lists[i].nodes
      ensures Shape()
      ensures removed == (id in old(tables[i]))
      ensures tables == old(tables)[i := RemoveFirst(old(tables[i]), id)]
    {
      assert ListOk(i);
      removed := lists[i].Remove(id);
      tables := tables[i := lists[i].Contents()];
      OthersKept(i);
    }

    /** Empties list `i`. */
    method ClearList(i: nat)
      requires Shape() && i < HOOK_MAX
      modifies this`tables, lists[i]
      ensures Shape() && tables == old(tables)[i := []]
    {
      assert ListOk(i);
      lists[i].Clear();
      tables := tables[i := []];
      OthersKept(i);
    }

    /** Returns a hook to the allocator; it must be live. */
    method Free(id: Id)
      requires id in hooks
      modifies this`hooks, this`freed
      ensures hooks == old(hooks) - {id} && freed == old(freed) + [id]
    {
      hooks := hooks - {id};
      freed := freed + [id];
    }

    method Allocate(hook: Hook) returns (id: Id)
      requires Counted(tables, hooks) && FreedOnce(hooks, freed, next)
      modifies this`hooks, this`next
      ensures id == old(next) && next == id + 1 && hooks == old(hooks)[id := hook]
      ensures id !in old(hooks) && CountIn(tables, id) == 0
      ensures FreedOnce(hooks, freed, next) && FreedOnce(old(hooks), freed + [id], next)
    {
      NextIsFresh(tables, hooks, freed, next, hook);
      id := next;
      next := next + 1;
      hooks := hooks[id := hook];
    }

    // ---- Adding ---------------------------------------------------------------------------

    /** Links the hook `id` into list `i` and counts the reference. */
    method AddRef(i: nat, id: Id)
      requires Shape() && i < HOOK_MAX && id in hooks
      modifies this`tables, this`items, this`hooks, lists, items
      ensures Shape() && fresh(items - old(items))
      ensures tables == old(tables)[i := if hookInsert then [id] + old(tables[i]) else old(tables[i]) + [id]]
      ensures hooks == old(hooks)[id := old(hooks)[id].(refs := old(hooks)[id].refs + 1)]
    {
      assert ListOk(i);
      Link(i, id);
      hooks := hooks[id := hooks[id].(refs := hooks[id].refs + 1)];
    }

    /** One list per bit of the mask. */
    method AddBits(id: Id, kind: int)
      requires Shape() && id in hooks && hooks[id].refs == 0 && CountIn(tables, id) == 0 && !Bit(kind, INSN_INDEX)
      modifies this`tables, this`items, this`hooks, lists, items
      ensures Shape() && fresh(items - old(items))
      ensures tables == Placed(old(tables), id, kind, HOOK_MAX, hookInsert)
      ensures hooks == old(hooks)[id := old(hooks)[id].(refs := CountIn(tables, id))]
    {
      var i := 0;
      assert tables == Placed(tables, id, kind, 0, hookInsert);
      while Shr(kind, i) > 0
        invariant 0 <= i && (kind <= 0 ==> i == 0)
        invariant Shape() && fresh(items - old(items))
        invariant tables == Placed(old(tables), id, kind, i, hookInsert)
        invariant hooks == old(hooks)[id := old(hooks)[id].(refs := CountIn(tables, id))]
        decreases Shr(kind, i)
      {
        if Shr(kind, i) % 2 == 1 {
          if i < HOOK_MAX {
            PlacedNext(old(tables), id, kind, i, hookInsert);
            AddRef(i, id);
          }
        }
        assert i >= HOOK_MAX || !Listens(kind, i) ==>
          Placed(old(tables), id, kind, i + 1, hookInsert) == Placed(old(tables), id, kind, i, hookInsert);
        i := i + 1;
      }
      PlacedDone(old(tables), id, kind, i, hookInsert);
    }

    /** `validator` is what the target's check says of the instruction, where it has one. */
    method HookAdd(kind: int, begin: int, end: int, insn: int, validator: Option<bool>)
        returns (err: HookErr, id: Id)
      requires Valid()
      modifies this, lists, items
      ensures Valid() && fresh(items - old(items)) && id == old(next) && next == id + 1
      ensures err == if Bit(kind, INSN_INDEX) && validator == Some(false) then HookInvalid else HookOk
      ensures err != HookOk ==> tables == old(tables) && hooks == old(hooks)
      ensures err == HookOk ==> tables == Placed(old(tables), id, kind, HOOK_MAX, hookInsert)
      ensures err == HookOk ==>
        var hook := Hook(kind, begin, end, if Bit(kind, INSN_INDEX) then insn else 0, CountIn(tables, id));
        hooks == if hook.refs == 0 then old(hooks) else old(hooks)[id := hook]
    {
      var hook := Hook(kind, begin, end, if Bit(kind, INSN_INDEX) then insn else 0, 0);
      id := Allocate(hook);
      if Bit(kind, INSN_INDEX) && validator == Some(false) {
        Free(id);
        assert hooks == old(hooks);
        return HookInvalid, id;
      }
      AddHook(id, hook, old(hooks));
      err := HookOk;
    }

    /** Links a newly allocated hook, and frees it at once when no list wants it. */
    method AddHook(id: Id, hook: Hook, ghost hooks0: map<Id, Hook>)
      requires Shape() && Counted(tables, hooks0) && id !in hooks0 && hooks == hooks0[id := hook] && hook.refs == 0
      requires CountIn(tables, id) == 0 && id < next
      requires FreedOnce(hooks0, freed + [id], next)
      requires FreedOnce(hooks, freed, next)
      modifies this`tables, this`items, this`hooks, this`freed, lists, items
      ensures Valid() && fresh(items - old(items))
      ensures tables == Placed(old(tables), id, hook.kind, HOOK_MAX, hookInsert)
      ensures hooks == if CountIn(tables, id) == 0 then hooks0 else hooks0[id := hook.(refs := CountIn(tables, id))]
    {
      AddAll(id, hook.kind);
      PlacedCounted(old(tables), hooks0, id, hook.kind, hookInsert, hooks[id]);
      SameLive(old(hooks), hooks, freed, next);
      FreeUnused(id, hooks0);
    }

    /** Frees a hook that no list has taken. */
    method FreeUnused(id: Id, ghost hooks0: map<Id, Hook>)
      requires id in hooks && id !in hooks0 && hooks == hooks0[id := hooks[id]]
      modifies this`hooks, this`freed
      ensures hooks == if old(hooks)[id].refs == 0 then hooks0 else old(hooks)
      ensures freed == if old(hooks)[id].refs == 0 then old(freed) + [id] else old(freed)
    {
      if hooks[id].refs == 0 {
        Free(id);
        assert hooks == hooks0;
      }
    }

    method AddAll(id: Id, kind: int)
      requires Shape() && id in hooks && hooks[id].refs == 0 && CountIn(tables, id) == 0
      modifies this`tables, this`items, this`hooks, lists, items
      ensures Shape() && fresh(items - old(items))
      ensures tables == Placed(old(tables), id, kind, HOOK_MAX, hookInsert)
      ensures hooks == old(hooks)[id := old(hooks)[id].(refs := CountIn(tables, id))]
    {
      if Bit(kind, INSN_INDEX) {
        PlacedInsn(tables, id, kind, hookInsert);
        AddRef(INSN_INDEX, id);
      } else {
        AddBits(id, kind);
      }
    }

    // ---- Deleting ---------------------------------------------------------------------------

    /** Drops one reference and frees the hook with its last one. */
    method Unref(id: Id) returns (last: bool)
      requires id in hooks
      modifies this`hooks, this`freed
      ensures last == (old(hooks)[id].refs == 1)
      ensures hooks == Unreferenced(old(hooks), id)
      ensures freed == if last then old(freed) + [id] else old(freed)
    {
      hooks := hooks[id := hooks[id].(refs := hooks[id].refs - 1)];
      last := hooks[id].refs == 0;
      if last {
        Free(id);
      }
    }

    /** A live hook leaves every list and is freed; a handle that is not live changes nothing. */
    method HookDel(id: Id)
      requires Valid()
      modifies this, lists, items
      ensures Valid() && items == old(items) && next == old(next)
      ensures tables == Removed(old(tables), id, HOOK_MAX) && Nowhere(tables, id)
      ensures hooks == old(hooks) - {id}
      ensures freed == if id in old(hooks) then old(freed) + [id] else old(freed)
    {
      RemovedCounted(tables, hooks, id);
      if id in hooks { FreeKeeps(hooks, freed, next, id); }
      RemoveAll(id);
      assert id !in old(hooks) ==> old(hooks) - {id} == old(hooks);
    }

    method RemoveAll(id: Id)
      requires Shape() && Counted(tables, hooks)
      modifies this`tables, this`hooks, this`freed, lists, items
      ensures Shape() && tables == Removed(old(tables), id, HOOK_MAX)
      ensures hooks == old(hooks) - {id}
      ensures freed == if id in old(hooks) then old(freed) + [id] else old(freed)
    {
      DelStarts(tables, hooks, id);
      for i := 0 to HOOK_MAX
        invariant Shape() && freed == old(freed) && items == old(items)
        invariant DelLoop(old(tables), old(hooks), tables, hooks, id, i)
      {
        var last := RemoveFrom(old(tables), old(hooks), i, id);
        if last {
          return;
        }
      }
      DelEnds(old(tables), old(hooks), tables, hooks, id);
    }

    /** Takes `id` out of list `i`.  Returns whether that was its last reference. */
    method RemoveFrom(ghost ts: Tables, ghost hooks0: map<Id, Hook>, i: nat, id: Id) returns (last: bool)
      requires Shape() && i < HOOK_MAX && |ts| == HOOK_MAX
      requires Counted(ts, hooks0) && DelLoop(ts, hooks0, tables, hooks, id, i)
      modifies this`tables, this`hooks, this`freed, lists, items
      ensures Shape()
      ensures !last ==> freed == old(freed) && DelLoop(ts, hooks0, tables, hooks, id, i + 1)
      ensures last ==> tables == Removed(ts, id, HOOK_MAX) && hooks == hooks0 - {id}
      ensures last ==> id in hooks0 && freed == old(freed) + [id]
    {
      DelNext(ts, hooks0, tables, hooks, id, i);
      assert ListOk(i);
      last := false;
      var removed := Unlink(i, id);
      if removed {
        last := Unref(id);
      }
    }

    // ---- Closing ----------------------------------------------------------------------------

    /** Drops the references of list `i`, item by item, and empties the list. */
    method ReleaseList(i: nat)
      requires Valid() && i < HOOK_MAX
      modifies this`tables, this`hooks, this`freed, lists[i]
      ensures Valid() && tables == old(tables)[i := []]
    {
      assert ListOk(i);
      var cur := lists[i].head;
      ghost var k := 0;
      assert tables[i][0..] == tables[i] && tables[i := tables[i][0..]] == tables;
      while cur != null
        invariant 0 <= k <= |tables[i]| == |lists[i].nodes| && cur == At(lists[i].nodes, k)
        invariant Counted(tables[i := tables[i][k..]], hooks) && FreedOnce(hooks, freed, next)
        decreases |tables[i]| - k
        modifies this`hooks, this`freed
      {
        assert cur.data == tables[i][k];
        UnrefCounted(tables, hooks, freed, next, i, k);
        var last := Unref(cur.data);
        cur := cur.next;
        k := k + 1;
      }
      assert tables[i][k..] == [];
      ClearList(i);
    }

    /** Every hook still live is freed, once. */
    method Close()
      requires Valid()
      modifies this`tables, this`hooks, this`freed, lists
      ensures Valid() && hooks == map[] && next == old(next)
      ensures forall i :: 0 <= i < HOOK_MAX ==> tables[i] == []
      ensures forall id: Id :: multiset(freed)[id] == if id < next then 1 else 0
    {
      for i := 0 to HOOK_MAX
        invariant Valid() && forall j :: 0 <= j < i ==> tables[j] == []
      {
        ReleaseList(i);
      }
      NothingLive(tables, hooks, freed, next);
    }
  }

  /** Walking over one item of list `i` drops one reference of its hook. */
  lemma UnrefCounted(ts: Tables, hooks: map<Id, Hook>, freed: seq<Id>, next: Id, i: nat, k: nat)
    requires i < |ts| && k < |ts[i]| && Counted(ts[i := ts[i][k..]], hooks) && FreedOnce(hooks, freed, next)
    ensures var id := ts[i][k];
      && id in hooks && Counted(ts[i := ts[i][k + 1..]], Unreferenced(hooks, id))
      && FreedOnce(Unreferenced(hooks, id), if hooks[id].refs == 1 then freed + [id] else freed, next)
  {
    var id, t, u := ts[i][k], ts[i := ts[i][k..]], ts[i := ts[i][k + 1..]];
    assert t[i][0] == id && t[i] == [id] + u[i] && u == t[i := u[i]];
    FoundIsLive(t, hooks, id, i);
    if hooks[id].refs == 1 {
      FreeKeeps(hooks, freed, next, id);
    } else {
      SameLive(hooks, Unreferenced(hooks, id), freed, next);
    }
    OneLess(t, hooks, i, id, u[i]);
  }

  lemma OneLess(t: Tables, hooks: map<Id, Hook>, i: nat, id: Id, rest: seq<Id>)
    requires i < |t| && Counted(t, hooks) && t[i] == [id] + rest && id in hooks
    ensures Counted(t[i := rest], Unreferenced(hooks, id))
  {
    var u := t[i := rest];
    assert NoDuplicates(t[i]);
    assert id !in rest by { assert forall k :: 0 <= k < |rest| ==> rest[k] == t[i][k + 1] && t[i][0] != t[i][k + 1]; }
    assert NoDuplicates(rest) by { assert forall k :: 0 <= k < |rest| ==> rest[k] == t[i][k + 1]; }
    forall x
      ensures CountIn(u, x) == CountIn(t, x) - if x == id then 1 else 0
    {
      CountUpdate(t, i, rest, x);
    }
    assert hooks[id].refs == CountIn(t, id);
  }

  lemma NothingLive(ts: Tables, hooks: map<Id, Hook>, freed: seq<Id>, next: Id)
    requires Counted(ts, hooks) && FreedOnce(hooks, freed, next) && forall i :: 0 <= i < |ts| ==> ts[i] == []
    ensures hooks == map[] && forall id: Id :: multiset(freed)[id] == if id < next then 1 else 0
  {
    forall id | id in hooks
      ensures false
    {
      CountZero(ts, id);
    }
  }

  // ---- Sessions ------------------------------------------------------------------------------

  datatype HookCall =
    | Add(kind: int, begin: int, end: int, insn: int, validator: Option<bool>)
    | Del(id: Id)

  /** Any calls and then a close: every hook ever allocated is freed exactly once. */
  method Session(r: Registry, calls: seq<HookCall>)
    requires r.Valid()
    modifies r, r.lists, r.items
    ensures r.Valid() && r.hooks == map[]
    ensures forall id: Id :: multiset(r.freed)[id] == if id < r.next then 1 else 0
  {
    for n := 0 to |calls|
      invariant r.Valid() && fresh(r.items - old(r.items))
    {
      match calls[n]
      case Add(kind, begin, end, insn, validator) =>
        var _, _ := r.HookAdd(kind, begin, end, insn, validator);
      case Del(id) =>
        r.HookDel(id);
    }
    r.Close();
  }
}
