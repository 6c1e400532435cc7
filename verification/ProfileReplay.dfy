/**
  The replay of a thread's log during a frame flip: two fixed arrays with a stack pointer, and
  totals per timer, group and counter that are updated in place.  It refines `ReplaySpec`.
 */
module ProfileReplay {
  import opened Common
  import opened ProfileLog
  import opened ReplaySpec

  const META_MAX: int := 8

  // ---- Bounds ---------------------------------------------------------------------------

  function NextDepth(depth: nat, e: Entry): nat {
    if Type(e) == ENTER then depth + 1 else if Type(e) == LEAVE && depth > 0 then depth - 1 else depth
  }

  /** The places of the stack that replaying an entry reads or writes, at a given depth. */
  function StackPlaces(depth: nat, e: Entry): set<int> {
    if Type(e) == ENTER then {depth}
    else if (Type(e) == META || Type(e) == LEAVE) && depth > 0 then {depth - 1}
    else {}
  }

  /** The places of the child times that replaying an entry reads or writes: entering a scope
      clears the place above the one it takes on the stack. */
  function ChildPlaces(depth: nat, e: Entry): set<int> {
    if Type(e) == ENTER then {depth + 1}
    else if Type(e) == LEAVE && depth > 0 then {depth, depth - 1}
    else {}
  }

  /** All of them lie inside the two arrays. */
  predicate InBounds(depth: nat, e: Entry) {
    && (forall i :: i in StackPlaces(depth, e) ==> 0 <= i < STACK_MAX)
    && (forall i :: i in ChildPlaces(depth, e) ==> 0 <= i < STACK_MAX)
  }

  /** No entry of the log makes the replay leave its arrays. */
  predicate Fits(depth: nat, log: seq<Entry>)
    decreases |log|
  {
    log == [] || (InBounds(depth, log[0]) && Fits(NextDepth(depth, log[0]), log[1..]))
  }

  lemma InBoundsWhen(depth: nat, e: Entry)
    requires depth < STACK_MAX
    ensures InBounds(depth, e) <==> NextDepth(depth, e) < STACK_MAX
  {
    assert Type(e) == ENTER ==> depth + 1 in ChildPlaces(depth, e);
  }

  /** The assertion that the source makes before it enters a scope. */
  predicate Asserted(depth: nat, log: seq<Entry>)
    decreases |log|
  {
    log == [] || ((Type(log[0]) == ENTER ==> depth < STACK_MAX) && Asserted(NextDepth(depth, log[0]), log[1..]))
  }

  function MaxDepth(depth: nat, log: seq<Entry>): (m: nat)
    ensures m >= depth
    decreases |log|
  {
    if log == [] then depth else
      var m := MaxDepth(NextDepth(depth, log[0]), log[1..]);
      if m >= depth then m else depth
  }

  /** The replay stays inside its arrays exactly when nesting stays below the stack size; the
      assertion also lets through a nesting of exactly the stack size. */
  lemma {:induction false} FitsExactlyWhen(depth: nat, log: seq<Entry>)
    requires depth < STACK_MAX
    ensures Fits(depth, log) <==> MaxDepth(depth, log) < STACK_MAX
    decreases |log|
  {
    if log != [] { InBoundsWhen(depth, log[0]); }
    if log != [] && NextDepth(depth, log[0]) < STACK_MAX {
      FitsExactlyWhen(NextDepth(depth, log[0]), log[1..]);
    }
  }

  lemma {:induction false} AssertedExactlyWhen(depth: nat, log: seq<Entry>)
    requires depth <= STACK_MAX
    ensures Asserted(depth, log) <==> MaxDepth(depth, log) <= STACK_MAX
    decreases |log|
  {
    if log != [] && NextDepth(depth, log[0]) <= STACK_MAX {
      AssertedExactlyWhen(NextDepth(depth, log[0]), log[1..]);
    }
  }

  /** Entering 32 scopes passes every assertion, and the last one clears the child time at place
      32 of an array of 32. */
  lemma DeepestNesting()
    ensures var log := seq(STACK_MAX, i => Pack(ENTER, 0, 0));
      && Asserted(0, log) && !Fits(0, log)
      && DepthAfter(0, log[..STACK_MAX - 1]) == STACK_MAX - 1
      && ChildPlaces(STACK_MAX - 1, log[STACK_MAX - 1]) == {STACK_MAX}
  {
    var log := seq(STACK_MAX, i => Pack(ENTER, 0, 0));
    PackRoundTrip(ENTER, 0, 0);
    EntersOnly(log, 0);
    EntersOnly(log[..STACK_MAX - 1], 0);
    FitsExactlyWhen(0, log);
    AssertedExactlyWhen(0, log);
  }

  lemma {:induction false} EntersOnly(log: seq<Entry>, depth: nat)
    requires forall i :: 0 <= i < |log| ==> Type(log[i]) == ENTER
    ensures MaxDepth(depth, log) == DepthAfter(depth, log) == depth + |log|
    decreases |log|
  {
    if log != [] { EntersOnly(log[1..], depth + 1); }
  }

  lemma {:induction false} FitsConcat(depth: nat, a: seq<Entry>, b: seq<Entry>)
    ensures Fits(depth, a + b) ==> Fits(depth, a) && Fits(DepthAfter(depth, a), b)
    decreases |a|
  {
    if a == [] {
      assert a + b == b;
    } else {
      assert (a + b)[1..] == a[1..] + b;
      FitsConcat(NextDepth(depth, a[0]), a[1..], b);
    }
  }

  function DepthAfter(depth: nat, log: seq<Entry>): nat
    decreases |log|
  {
    if log == [] then depth else DepthAfter(NextDepth(depth, log[0]), log[1..])
  }

  lemma {:induction false} DepthIsStack(groupOf: seq<int>, s: State, log: seq<Entry>)
    requires Consistent(s) && AllKnown(groupOf, log)
    ensures |Replay(groupOf, s, log).stack| == DepthAfter(|s.stack|, log)
    decreases |log|
  {
    if log != [] { DepthIsStack(groupOf, Step(groupOf, s, log[0]), log[1..]); }
  }

  function Max(a: nat, b: nat): nat { if a >= b then a else b }

  lemma MaxDepthFirst(depth: nat, e: Entry, rest: seq<Entry>, log: seq<Entry>)
    requires log == [e] + rest
    ensures MaxDepth(depth, log) == Max(depth, MaxDepth(NextDepth(depth, e), rest))
  {
    assert log[1..] == rest;
  }

  /** The depth of a nested reading is the depth that its log reaches. */
  lemma {:induction false} ForestDepth(groupOf: seq<int>, depth: nat, f: Forest, rest: seq<Entry>, log: seq<Entry>,
                                       m: nat, d: nat)
    requires Nested(groupOf, f) && log == Flatten(f) + rest && m == MaxDepth(depth, rest) && d == MaxDepth(depth, log)
    ensures d == Max(depth + Depth(f), m)
    decreases f, 1
  {
    match f
    case Empty => assert log == rest;
    case Scope(_, _, _, _) => ScopeReaches(groupOf, depth, f, rest, log, m, d);
    case Other(entry, after) =>
      var last := Flatten(after) + rest;
      Regroup([entry], Flatten(after), rest);
      MaxDepthFirst(depth, entry, last, log);
      ForestDepth(groupOf, depth, after, rest, last, m, MaxDepth(depth, last));
  }

  lemma {:induction false} ScopeReaches(groupOf: seq<int>, depth: nat, f: Forest, rest: seq<Entry>, log: seq<Entry>,
                                        m: nat, d: nat)
    requires Nested(groupOf, f) && f.Scope? && log == Flatten(f) + rest && m == MaxDepth(depth, rest)
      && d == MaxDepth(depth, log)
    ensures d == Max(depth + Depth(f), m)
    decreases f, 0
  {
    var last, ins := Flatten(f.after) + rest, Flatten(f.inside);
    var more := [f.leave] + last;
    var n := MaxDepth(depth, last);
    ForestDepth(groupOf, depth, f.after, rest, last, m, n);
    MaxDepthFirst(depth + 1, f.leave, last, more);
    var x := MaxDepth(depth + 1, ins + more);
    ForestDepth(groupOf, depth + 1, f.inside, more, ins + more, Max(depth + 1, n), x);
    ScopeDepth(depth, f, rest, last, log, x, d);
    Deepest(depth, Depth(f.inside), Depth(f.after), m, n, x, d);
  }

  lemma Deepest(depth: nat, inside: nat, after: nat, m: nat, n: nat, x: nat, d: nat)
    requires n == Max(depth + after, m) && x == Max(depth + 1 + inside, Max(depth + 1, n)) && d == Max(depth, x)
    ensures d == Max(depth + Max(1 + inside, after), m)
  {
  }

  lemma ScopeDepth(depth: nat, f: Forest, rest: seq<Entry>, last: seq<Entry>, log: seq<Entry>, x: nat, d: nat)
    requires f.Scope? && Type(f.enter) == ENTER && log == Flatten(f) + rest && last == Flatten(f.after) + rest
    requires x == MaxDepth(depth + 1, Flatten(f.inside) + ([f.leave] + last)) && d == MaxDepth(depth, log)
    ensures d == Max(depth, x)
  {
    var a, b, c := Flatten(f.inside), [f.leave], Flatten(f.after);
    Regroup(b, c, rest);
    Regroup(a, b + c, rest);
    Regroup([f.enter], a + (b + c), rest);
    MaxDepthFirst(depth, f.enter, a + (b + last), log);
  }

  /** Every balanced log has a nested reading, and its replay credits exactly that. */
  lemma ReplayBalanced(groupOf: seq<int>, s: State, log: seq<Entry>) returns (f: Forest)
    requires Consistent(s) && AllKnown(groupOf, log) && Balanced(groupOf, [], log)
    requires GroupsFit(s.groups, MaxDepth(0, log))
    ensures Nested(groupOf, f) && log == Flatten(f) && Depth(f) == MaxDepth(0, log)
    ensures Replay(groupOf, s, log) == AfterForest(groupOf, s, f)
  {
    f := BalancedIsForest(groupOf, log);
    assert Flatten(f) + [] == log;
    ForestDepth(groupOf, 0, f, [], log, 0, MaxDepth(0, log));
    ReplayForest(groupOf, s, f);
  }

  // ---- Totals ------------------------------------------------------------------------------

  function TicksOf(timer: int): Credit -> int {
    (c: Credit) => if c.ScopeTime? && c.timer == timer then c.ticks else 0
  }

  function CountOf(timer: int): Credit -> int {
    (c: Credit) => if c.ScopeTime? && c.timer == timer then 1 else 0
  }

  function ExclusiveOf(timer: int): Credit -> int {
    (c: Credit) => if c.ScopeTime? && c.timer == timer then c.exclusive else 0
  }

  function GroupTicksOf(group: int): Credit -> int {
    (c: Credit) => if c.GroupTime? && c.group == group then c.ticks else 0
  }

  function MetaOf(meta: int, timer: int): Credit -> int {
    (c: Credit) => if c.Count? && c.meta == meta && c.timer == timer then c.amount else 0
  }

  /** The frame's totals, per timer, per group and per counter and timer. */
  datatype Totals = Totals(ticks: seq<int>, counts: seq<int>, exclusive: seq<int>, groups: seq<int>,
                           meta: seq<seq<int>>)

  predicate Sized(t: Totals, timers: nat) {
    && |t.ticks| == |t.counts| == |t.exclusive| == timers && |t.groups| == MAX_GROUPS && |t.meta| == META_MAX
    && forall m :: 0 <= m < META_MAX ==> |t.meta[m]| == timers
  }

  /** Every total is the sum of the credits for it. */
  ghost predicate Tallied(t: Totals, timers: nat, credits: seq<Credit>) {
    && Sized(t, timers)
    && (forall k :: 0 <= k < |credits| && credits[k].ScopeTime? ==> 0 <= credits[k].timer < timers)
    && (forall i {:trigger t.ticks[i]} :: 0 <= i < timers ==> t.ticks[i] == SumBy(credits, TicksOf(i)))
    && (forall i {:trigger t.counts[i]} :: 0 <= i < timers ==> t.counts[i] == SumBy(credits, CountOf(i)))
    && (forall i {:trigger t.exclusive[i]} :: 0 <= i < timers ==> t.exclusive[i] == SumBy(credits, ExclusiveOf(i)))
    && (forall g {:trigger t.groups[g]} :: 0 <= g < MAX_GROUPS ==> t.groups[g] == SumBy(credits, GroupTicksOf(g)))
    && (forall m, i {:trigger t.meta[m][i]} :: 0 <= m < META_MAX && 0 <= i < timers ==>
          t.meta[m][i] == SumBy(credits, MetaOf(m, i)))
  }

  function AddAt(xs: seq<int>, i: int, x: int): (r: seq<int>)
    requires 0 <= i < |xs|
    ensures |r| == |xs|
    ensures forall k {:trigger r[k]} :: 0 <= k < |xs| ==> r[k] == xs[k] + if k == i then x else 0
  {
    xs[i := xs[i] + x]
  }

  lemma PushAll(credits: seq<Credit>, c: Credit)
    ensures forall i {:trigger TicksOf(i)} ::
      SumBy(credits + [c], TicksOf(i)) == SumBy(credits, TicksOf(i)) + TicksOf(i)(c)
    ensures forall i {:trigger CountOf(i)} ::
      SumBy(credits + [c], CountOf(i)) == SumBy(credits, CountOf(i)) + CountOf(i)(c)
    ensures forall i {:trigger ExclusiveOf(i)} ::
      SumBy(credits + [c], ExclusiveOf(i)) == SumBy(credits, ExclusiveOf(i)) + ExclusiveOf(i)(c)
    ensures forall i {:trigger GroupTicksOf(i)} ::
      SumBy(credits + [c], GroupTicksOf(i)) == SumBy(credits, GroupTicksOf(i)) + GroupTicksOf(i)(c)
    ensures forall m, i {:trigger MetaOf(m, i)} ::
      SumBy(credits + [c], MetaOf(m, i)) == SumBy(credits, MetaOf(m, i)) + MetaOf(m, i)(c)
  {
    forall i { SumByPush(credits, TicksOf(i), c); }
    forall i { SumByPush(credits, CountOf(i), c); }
    forall i { SumByPush(credits, ExclusiveOf(i), c); }
    forall i { SumByPush(credits, GroupTicksOf(i), c); }
    forall m, i { SumByPush(credits, MetaOf(m, i), c); }
  }

  lemma TallyScope(t: Totals, timers: nat, credits: seq<Credit>, timer: int, ticks: int, own: int)
    requires Tallied(t, timers, credits) && 0 <= timer < timers
    ensures Tallied(t.(ticks := AddAt(t.ticks, timer, ticks), counts := AddAt(t.counts, timer, 1),
                       exclusive := AddAt(t.exclusive, timer, own)),
                    timers, credits + [ScopeTime(timer, ticks, own)])
  {
    var c := ScopeTime(timer, ticks, own);
    forall i | 0 <= i < timers
      ensures SumBy(credits + [c], TicksOf(i)) == t.ticks[i] + if i == timer then ticks else 0
      ensures SumBy(credits + [c], CountOf(i)) == t.counts[i] + if i == timer then 1 else 0
      ensures SumBy(credits + [c], ExclusiveOf(i)) == t.exclusive[i] + if i == timer then own else 0
    {
      PushAll(credits, c);
    }
    PushAll(credits, c);
  }

  lemma TallyGroup(t: Totals, timers: nat, credits: seq<Credit>, group: int, ticks: int)
    requires Tallied(t, timers, credits) && 0 <= group < MAX_GROUPS
    ensures Tallied(t.(groups := AddAt(t.groups, group, ticks)), timers, credits + [GroupTime(group, ticks)])
  {
    PushAll(credits, GroupTime(group, ticks));
  }

  lemma TallyMeta(t: Totals, timers: nat, credits: seq<Credit>, meta: int, timer: int, amount: int)
    requires Tallied(t, timers, credits) && 0 <= meta < META_MAX && 0 <= timer < timers
    ensures Tallied(t.(meta := t.meta[meta := AddAt(t.meta[meta], timer, amount)]), timers,
                    credits + [Count(meta, timer, amount)])
  {
    PushAll(credits, Count(meta, timer, amount));
  }

  function SumTo(xs: seq<int>, n: nat): int
    requires n <= |xs|
  {
    if n == 0 then 0 else SumTo(xs, n - 1) + xs[n - 1]
  }

  function TimersTo(credits: seq<Credit>, n: nat): int {
    if n == 0 then 0 else TimersTo(credits, n - 1) + SumBy(credits, ExclusiveOf(n - 1))
  }

  lemma {:induction false} TimersPush(credits: seq<Credit>, c: Credit, n: nat)
    ensures TimersTo(credits + [c], n)
         == TimersTo(credits, n) + if c.ScopeTime? && 0 <= c.timer < n then c.exclusive else 0
  {
    if n > 0 {
      TimersPush(credits, c, n - 1);
      SumByPush(credits, ExclusiveOf(n - 1), c);
    }
  }

  lemma {:induction false} NoTimers(n: nat)
    ensures TimersTo([], n) == 0
  {
    if n > 0 { NoTimers(n - 1); }
  }

  lemma {:induction false} TimersAddUp(credits: seq<Credit>, n: nat)
    requires forall k :: 0 <= k < |credits| && credits[k].ScopeTime? ==> 0 <= credits[k].timer < n
    ensures TimersTo(credits, n) == SumBy(credits, Exclusive)
    decreases |credits|
  {
    if credits == [] {
      NoTimers(n);
    } else {
      var front, c := credits[..|credits| - 1], credits[|credits| - 1];
      assert credits == front + [c];
      TimersAddUp(front, n);
      TimersPush(front, c, n);
    }
  }

  lemma {:induction false} TotalsAreTimers(t: Totals, timers: nat, credits: seq<Credit>, n: nat)
    requires Tallied(t, timers, credits) && n <= timers
    ensures SumTo(t.exclusive, n) == TimersTo(credits, n)
  {
    if n > 0 { TotalsAreTimers(t, timers, credits, n - 1); }
  }

  /** The exclusive times of all timers add up to the exclusive time credited. */
  lemma ExclusiveTotals(t: Totals, timers: nat, credits: seq<Credit>)
    requires Tallied(t, timers, credits)
    ensures SumTo(t.exclusive, timers) == SumBy(credits, Exclusive)
  {
    TotalsAreTimers(t, timers, credits, timers);
    TimersAddUp(credits, timers);
  }

  // ---- Totals of a nested reading ---------------------------------------------------------------

  /** How often timer `i` was left, its time, and its time less that of the scopes directly inside. */
  function Visits(f: Forest, i: int): nat {
    match f
    case Empty => 0
    case Scope(_, leave, inside, after) => Visits(inside, i) + (if Timer(leave) == i then 1 else 0) + Visits(after, i)
    case Other(_, after) => Visits(after, i)
  }

  function TimeIn(f: Forest, i: int): int {
    match f
    case Empty => 0
    case Scope(enter, leave, inside, after) =>
      TimeIn(inside, i) + (if Timer(leave) == i then TickDifference(enter, leave) else 0) + TimeIn(after, i)
    case Other(_, after) => TimeIn(after, i)
  }

  function OwnTimeIn(f: Forest, i: int): int {
    match f
    case Empty => 0
    case Scope(enter, leave, inside, after) =>
      OwnTimeIn(inside, i) + (if Timer(leave) == i then TickDifference(enter, leave) - Inclusive(inside) else 0)
      + OwnTimeIn(after, i)
    case Other(_, after) => OwnTimeIn(after, i)
  }

  /** The time of the outermost scopes of group `g`: inside one of them (`within`) there is none. */
  function GroupTimeIn(groupOf: seq<int>, f: Forest, g: int, within: bool): int
    requires Nested(groupOf, f)
  {
    match f
    case Empty => 0
    case Scope(enter, leave, inside, after) =>
      var mine := groupOf[Timer(enter)] == g;
      GroupTimeIn(groupOf, inside, g, within || mine)
      + (if mine && !within then TickDifference(enter, leave) else 0) + GroupTimeIn(groupOf, after, g, within)
    case Other(_, after) => GroupTimeIn(groupOf, after, g, within)
  }

  /** What counter `m` got while a scope entered with timer `i` was the innermost one. */
  function CountedIn(f: Forest, innermost: Option<int>, m: int, i: int): int {
    match f
    case Empty => 0
    case Scope(enter, _, inside, after) =>
      CountedIn(inside, Some(Timer(enter)), m, i) + CountedIn(after, innermost, m, i)
    case Other(entry, after) =>
      (if Type(entry) == META && Timer(entry) == m && innermost == Some(i) then Tick(entry) else 0)
      + CountedIn(after, innermost, m, i)
  }

  lemma {:induction false} SumByConcat(a: seq<Credit>, b: seq<Credit>, weight: Credit -> int)
    ensures SumBy(a + b, weight) == SumBy(a, weight) + SumBy(b, weight)
    decreases |b|
  {
    if b == [] {
      assert a + b == a;
    } else {
      var front, c := b[..|b| - 1], b[|b| - 1];
      SumByConcat(a, front, weight);
      assert a + b == (a + front) + [c];
      SumByPush(a + front, weight, c);
    }
  }

  lemma SumByOne(c: Credit, weight: Credit -> int)
    ensures SumBy([c], weight) == weight(c)
  {
    assert [c][..0] == [];
  }

  lemma SumByOuter(a: seq<Credit>, outer: bool, d: Credit, weight: Credit -> int)
    ensures SumBy(a + (if outer then [d] else []), weight) == SumBy(a, weight) + if outer then weight(d) else 0
  {
    if outer {
      SumByPush(a, weight, d);
    } else {
      assert a + [] == a;
    }
  }

  /** The sum of a scope's credits `c`, with `d` when it is an outermost one, between those inside and after. */
  lemma SumByParts(a: seq<Credit>, c: Credit, outer: bool, d: Credit, e: seq<Credit>, weight: Credit -> int)
    ensures SumBy(a + [c] + (if outer then [d] else []) + e, weight)
         == SumBy(a, weight) + weight(c) + (if outer then weight(d) else 0) + SumBy(e, weight)
  {
    var b := a + [c];
    var m := b + if outer then [d] else [];
    SumByPush(a, weight, c);
    SumByOuter(b, outer, d, weight);
    SumByConcat(m, e, weight);
  }

  /** What a scope of the forest adds to a sum of credits. */
  lemma ScopeAdds(groupOf: seq<int>, f: Forest, path: seq<Entry>, groups: seq<int>, weight: Credit -> int)
    requires Nested(groupOf, f) && |groups| == MAX_GROUPS && f.Scope?
    ensures var g, ticks := groupOf[Timer(f.enter)], TickDifference(f.enter, f.leave);
      SumBy(Credits(groupOf, f, path, groups), weight)
      == SumBy(Credits(groupOf, f.inside, path + [f.enter], Entered(groups, g)), weight)
         + weight(ScopeTime(Timer(f.leave), ticks, ticks - Inclusive(f.inside)))
         + (if groups[g] == 0 then weight(GroupTime(g, ticks)) else 0)
         + SumBy(Credits(groupOf, f.after, path, groups), weight)
  {
    var g, ticks := groupOf[Timer(f.enter)], TickDifference(f.enter, f.leave);
    SumByParts(Credits(groupOf, f.inside, path + [f.enter], Entered(groups, g)),
               ScopeTime(Timer(f.leave), ticks, ticks - Inclusive(f.inside)), groups[g] == 0, GroupTime(g, ticks),
               Credits(groupOf, f.after, path, groups), weight);
  }

  /** What another entry of the forest adds to a sum of credits. */
  lemma OtherAdds(groupOf: seq<int>, f: Forest, path: seq<Entry>, groups: seq<int>, weight: Credit -> int)
    requires Nested(groupOf, f) && |groups| == MAX_GROUPS && f.Other?
    ensures SumBy(Credits(groupOf, f, path, groups), weight)
         == (if Type(f.entry) == META && path != []
             then weight(Count(Timer(f.entry), Timer(path[|path| - 1]), Tick(f.entry))) else 0)
            + SumBy(Credits(groupOf, f.after, path, groups), weight)
  {
    var e := Credits(groupOf, f.after, path, groups);
    if Type(f.entry) == META && path != [] {
      var c := Count(Timer(f.entry), Timer(path[|path| - 1]), Tick(f.entry));
      SumByConcat([c], e, weight);
      SumByOne(c, weight);
    } else {
      assert [] + e == e;
    }
  }

  /** The totals of a timer over a forest, from the scopes themselves. */
  lemma {:induction false} TimerTotals(groupOf: seq<int>, f: Forest, path: seq<Entry>, groups: seq<int>, i: int)
    requires Nested(groupOf, f) && |groups| == MAX_GROUPS
    ensures SumBy(Credits(groupOf, f, path, groups), TicksOf(i)) == TimeIn(f, i)
    ensures SumBy(Credits(groupOf, f, path, groups), CountOf(i)) == Visits(f, i)
    ensures SumBy(Credits(groupOf, f, path, groups), ExclusiveOf(i)) == OwnTimeIn(f, i)
    decreases f
  {
    match f
    case Empty =>
    case Scope(enter, leave, inside, after) =>
      TimerTotals(groupOf, inside, path + [enter], Entered(groups, groupOf[Timer(enter)]), i);
      TimerTotals(groupOf, after, path, groups, i);
      ScopeAdds(groupOf, f, path, groups, TicksOf(i));
      ScopeAdds(groupOf, f, path, groups, CountOf(i));
      ScopeAdds(groupOf, f, path, groups, ExclusiveOf(i));
    case Other(_, after) =>
      TimerTotals(groupOf, after, path, groups, i);
      OtherAdds(groupOf, f, path, groups, TicksOf(i));
      OtherAdds(groupOf, f, path, groups, CountOf(i));
      OtherAdds(groupOf, f, path, groups, ExclusiveOf(i));
  }

  lemma EnteredAt(groups: seq<int>, entered: int, g: int)
    requires |groups| == MAX_GROUPS && 0 <= entered < MAX_GROUPS && 0 <= g < MAX_GROUPS && 0 <= groups[g] < 255
    ensures Entered(groups, entered)[g] == groups[g] + if entered == g then 1 else 0
  {
    assert (groups[g] + 1) % 256 == groups[g] + 1;
  }

  /** The total of a group is the time of its outermost scopes. */
  lemma {:induction false} GroupTotals(groupOf: seq<int>, f: Forest, path: seq<Entry>, groups: seq<int>, g: int)
    requires Nested(groupOf, f) && |groups| == MAX_GROUPS && 0 <= g < MAX_GROUPS
    requires 0 <= groups[g] && groups[g] + Depth(f) < 256
    ensures SumBy(Credits(groupOf, f, path, groups), GroupTicksOf(g)) == GroupTimeIn(groupOf, f, g, groups[g] > 0)
    decreases f
  {
    match f
    case Empty =>
    case Scope(enter, leave, inside, after) =>
      EnteredAt(groups, groupOf[Timer(enter)], g);
      GroupTotals(groupOf, inside, path + [enter], Entered(groups, groupOf[Timer(enter)]), g);
      GroupTotals(groupOf, after, path, groups, g);
      ScopeAdds(groupOf, f, path, groups, GroupTicksOf(g));
    case Other(_, after) =>
      GroupTotals(groupOf, after, path, groups, g);
      OtherAdds(groupOf, f, path, groups, GroupTicksOf(g));
  }

  function Innermost(path: seq<Entry>): Option<int> {
    if path == [] then None else Some(Timer(path[|path| - 1]))
  }

  /** The total of a counter for a timer is what was counted while that timer was the innermost one. */
  lemma {:induction false} CounterTotals(groupOf: seq<int>, f: Forest, path: seq<Entry>, groups: seq<int>,
                                         m: int, i: int)
    requires Nested(groupOf, f) && |groups| == MAX_GROUPS
    ensures SumBy(Credits(groupOf, f, path, groups), MetaOf(m, i)) == CountedIn(f, Innermost(path), m, i)
    decreases f
  {
    match f
    case Empty =>
    case Scope(enter, leave, inside, after) =>
      CounterTotals(groupOf, inside, path + [enter], Entered(groups, groupOf[Timer(enter)]), m, i);
      CounterTotals(groupOf, after, path, groups, m, i);
      ScopeAdds(groupOf, f, path, groups, MetaOf(m, i));
    case Other(_, after) =>
      CounterTotals(groupOf, after, path, groups, m, i);
      OtherAdds(groupOf, f, path, groups, MetaOf(m, i));
  }

  /** The totals of replaying a balanced log from the start, told from the nesting of its scopes. */
  lemma ForestTotals(groupOf: seq<int>, f: Forest, t: Totals, credits: seq<Credit>, i: int, g: int, m: int)
    requires Nested(groupOf, f) && Depth(f) < 256 && 0 <= i < |groupOf| && 0 <= g < MAX_GROUPS && 0 <= m < META_MAX
    requires AllKnown(groupOf, Flatten(f))
    requires credits == Replay(groupOf, State([], [0], seq(MAX_GROUPS, k => 0), []), Flatten(f)).credits
    requires Tallied(t, |groupOf|, credits)
    ensures t.counts[i] == Visits(f, i) && t.ticks[i] == TimeIn(f, i) && t.exclusive[i] == OwnTimeIn(f, i)
    ensures t.groups[g] == GroupTimeIn(groupOf, f, g, false)
    ensures t.meta[m][i] == CountedIn(f, None, m, i)
  {
    var groups := seq(MAX_GROUPS, k => 0);
    ReplayForest(groupOf, State([], [0], groups, []), f);
    assert credits == Credits(groupOf, f, [], groups);
    TimerTotals(groupOf, f, [], groups, i);
    GroupTotals(groupOf, f, [], groups, g);
    CounterTotals(groupOf, f, [], groups, m, i);
  }

  /** The entries at the given places of the log. */
  ghost function Fetch(log: seq<Entry>, places: seq<int>): (r: seq<Entry>)
    requires forall i :: 0 <= i < |places| ==> 0 <= places[i] < |log|
    ensures |r| == |places| && forall i {:trigger r[i]} :: 0 <= i < |places| ==> r[i] == log[places[i]]
  {
    seq(|places|, i requires 0 <= i < |places| => log[places[i]])
  }

  // ---- The replay -------------------------------------------------------------------------------

  /** A counter entry names one of the counters. */
  predicate Counted(e: Entry) { Type(e) == META ==> Timer(e) < META_MAX }

  class Replayer {
    const groupOf: seq<int>
    const stack: array<int>
    const childTicks: array<int>
    var stackPos: int
    var groupPos: seq<int>
    var totals: Totals
    ghost var credits: seq<Credit>

    /** Nothing open and nothing credited. */
    constructor (groupOf: seq<int>, log: seq<Entry>)
      ensures Valid(log) && View(log) == State([], [0], seq(MAX_GROUPS, i => 0), []) && this.groupOf == groupOf
    {
      this.groupOf := groupOf;
      stack := new int[STACK_MAX](i => 0);
      childTicks := new int[STACK_MAX](i => 0);
      stackPos, groupPos, credits := 0, seq(MAX_GROUPS, i => 0), [];
      var zeros := seq(|groupOf|, i => 0);
      totals := Totals(zeros, zeros, zeros, seq(MAX_GROUPS, i => 0), seq(META_MAX, m => zeros));
    }

    /** The stack holds places of the log.  What is there names a timer, but it may have been
        overwritten since the scope was entered. */
    ghost predicate Open(log: seq<Entry>)
      reads this, stack
    {
      && stack.Length == STACK_MAX && 0 <= stackPos < STACK_MAX
      && forall i :: 0 <= i < stackPos ==> 0 <= stack[i] < |log| && Timer(log[stack[i]]) < |groupOf|
    }

    ghost predicate Valid(log: seq<Entry>)
      reads this, stack
    {
      && Open(log) && childTicks.Length == STACK_MAX && stack != childTicks
      && |groupPos| == MAX_GROUPS && (forall g :: 0 <= g < MAX_GROUPS ==> 0 <= groupPos[g] < 256)
      && Tallied(totals, |groupOf|, credits)
    }

    /** The state that the arrays stand for. */
    ghost function View(log: seq<Entry>): (s: State)
      requires Open(log) && childTicks.Length == STACK_MAX
      reads this, stack, childTicks
    {
      State(Fetch(log, stack[..stackPos]), childTicks[..stackPos + 1], groupPos, credits)
    }

    method Enter(log: seq<Entry>, k: int)
      requires Valid(log) && 0 <= k < |log| && Known(groupOf, log[k]) && Type(log[k]) == ENTER
      requires InBounds(stackPos, log[k])
      modifies this`stackPos, this`groupPos, stack, childTicks
      ensures Valid(log) && View(log) == Step(groupOf, old(View(log)), log[k])
      ensures forall i :: 0 <= i < STACK_MAX && i !in StackPlaces(old(stackPos), log[k]) ==> stack[i] == old(stack[i])
      ensures forall i :: 0 <= i < STACK_MAX && i !in ChildPlaces(old(stackPos), log[k]) ==>
        childTicks[i] == old(childTicks[i])
    {
      InBoundsWhen(stackPos, log[k]);
      var group := groupOf[Timer(log[k])];
      groupPos := groupPos[group := (groupPos[group] + 1) % 256];
      stack[stackPos] := k;
      stackPos := stackPos + 1;
      childTicks[stackPos] := 0;
      assert Fetch(log, stack[..stackPos]) == old(Fetch(log, stack[..stackPos])) + [log[k]];
      assert childTicks[..stackPos + 1] == old(childTicks[..stackPos + 1]) + [0];
    }

    method Meta(log: seq<Entry>, k: int)
      requires Valid(log) && 0 <= k < |log| && Type(log[k]) == META && Timer(log[k]) < META_MAX
      modifies this`totals, this`credits
      ensures Valid(log) && View(log) == Step(groupOf, old(View(log)), log[k])
    {
      if stackPos != 0 {
        var meta, amount := Timer(log[k]), Tick(log[k]);
        var counter := Timer(log[stack[stackPos - 1]]);
        TallyMeta(totals, |groupOf|, credits, meta, counter, amount);
        totals := totals.(meta := totals.meta[meta := AddAt(totals.meta[meta], counter, amount)]);
        credits := credits + [Count(meta, counter, amount)];
      }
    }

    /** Credits the timer of a closed scope. */
    method CreditScope(timer: int, ticks: int, own: int)
      requires Tallied(totals, |groupOf|, credits) && 0 <= timer < |groupOf|
      modifies this`totals, this`credits
      ensures Tallied(totals, |groupOf|, credits) && credits == old(credits) + [ScopeTime(timer, ticks, own)]
    {
      TallyScope(totals, |groupOf|, credits, timer, ticks, own);
      totals := totals.(ticks := AddAt(totals.ticks, timer, ticks), exclusive := AddAt(totals.exclusive, timer, own),
                        counts := AddAt(totals.counts, timer, 1));
      credits := credits + [ScopeTime(timer, ticks, own)];
    }

    /** One scope of the group less; its time counts when it was the outermost one. */
    method LeaveGroup(group: int, ticks: int)
      requires Tallied(totals, |groupOf|, credits) && |groupPos| == MAX_GROUPS && 0 <= group < MAX_GROUPS
      requires forall g :: 0 <= g < MAX_GROUPS ==> 0 <= groupPos[g] < 256
      modifies this`totals, this`credits, this`groupPos
      ensures Tallied(totals, |groupOf|, credits) && groupPos == Left(old(groupPos), group)
      ensures credits == old(credits) + GroupCredit(old(groupPos), group, ticks)
    {
      var pos := groupPos[group];
      if pos != 0 {
        pos := pos - 1;
        if pos == 0 {
          TallyGroup(totals, |groupOf|, credits, group, ticks);
          totals := totals.(groups := AddAt(totals.groups, group, ticks));
          credits := credits + [GroupTime(group, ticks)];
        }
        groupPos := groupPos[group := pos];
      }
    }

    method CloseScope(timer: int, ticks: int, own: int)
      requires Tallied(totals, |groupOf|, credits) && |groupPos| == MAX_GROUPS
      requires 0 <= timer < |groupOf| && 0 <= groupOf[timer] < MAX_GROUPS
      requires forall g :: 0 <= g < MAX_GROUPS ==> 0 <= groupPos[g] < 256
      modifies this`totals, this`credits, this`groupPos
      ensures Tallied(totals, |groupOf|, credits) && groupPos == Left(old(groupPos), groupOf[timer])
      ensures credits
        == old(credits) + [ScopeTime(timer, ticks, own)] + GroupCredit(old(groupPos), groupOf[timer], ticks)
    {
      CreditScope(timer, ticks, own);
      LeaveGroup(groupOf[timer], ticks);
    }

    /** Takes the innermost scope off the stack and adds its time to the one around it. */
    method Pop(log: seq<Entry>, ticks: int)
      requires Open(log) && childTicks.Length == STACK_MAX && stack != childTicks && stackPos != 0
      modifies this`stackPos, childTicks
      ensures Open(log) && stackPos == old(stackPos) - 1
      ensures childTicks[..stackPos + 1] == Closed(old(childTicks[..stackPos + 1]), ticks)
      ensures Fetch(log, stack[..stackPos]) == old(Fetch(log, stack[..stackPos]))[..stackPos]
    {
      stackPos := stackPos - 1;
      childTicks[stackPos] := childTicks[stackPos] + ticks;
    }

    method Leave(log: seq<Entry>, k: int)
      requires Valid(log) && 0 <= k < |log| && Known(groupOf, log[k]) && Type(log[k]) == LEAVE
      modifies this`stackPos, this`groupPos, this`totals, this`credits, childTicks
      ensures Valid(log) && View(log) == Step(groupOf, old(View(log)), log[k])
    {
      if stackPos != 0 {
        var ticks := TickDifference(log[stack[stackPos - 1]], log[k]);
        var childOwn := childTicks[stackPos];
        Pop(log, ticks);
        CloseScope(Timer(log[k]), ticks, ticks - childOwn);
      }
    }

    method ReplayEntry(log: seq<Entry>, k: int)
      requires Valid(log) && 0 <= k < |log| && Known(groupOf, log[k]) && Counted(log[k])
      requires InBounds(stackPos, log[k])
      modifies this, stack, childTicks
      ensures Valid(log) && View(log) == Step(groupOf, old(View(log)), log[k])
      ensures stackPos == NextDepth(old(stackPos), log[k])
    {
      if Type(log[k]) == ENTER {
        Enter(log, k);
      } else if Type(log[k]) == META {
        Meta(log, k);
      } else if Type(log[k]) == LEAVE {
        Leave(log, k);
      }
      assert |View(log).stack| == stackPos;
    }

    /** Replaying the entries from `k` on leads to `goal`. */
    ghost predicate Heading(log: seq<Entry>, k: int, end: int, goal: State)
      reads this, stack, childTicks
    {
      && Valid(log) && 0 <= k <= end <= |log| && Replayable(groupOf, stackPos, log[k..end])
      && Replay(groupOf, View(log), log[k..end]) == goal
    }

    method ReplayNext(log: seq<Entry>, k: int, end: int, ghost goal: State)
      requires k < end && Heading(log, k, end, goal)
      modifies this, stack, childTicks
      ensures Heading(log, k + 1, end, goal)
    {
      ReplayableNext(groupOf, stackPos, View(log), log, k, end);
      ReplayEntry(log, k);
    }

    method ReplayTo(log: seq<Entry>, start: int, end: int, ghost goal: State)
      requires Heading(log, start, end, goal)
      modifies this, stack, childTicks
      ensures Heading(log, end, end, goal)
    {
      var k := start;
      while k < end
        invariant k <= end && Heading(log, k, end, goal)
      {
        ReplayNext(log, k, end, goal);
        k := k + 1;
      }
    }

    /** Replays one stretch of the buffer. */
    method ReplayRange(log: seq<Entry>, start: int, end: int)
      requires Valid(log) && 0 <= start <= end <= |log|
      requires Replayable(groupOf, stackPos, log[start..end])
      modifies this, stack, childTicks
      ensures Valid(log) && View(log) == Replay(groupOf, old(View(log)), log[start..end])
    {
      ReplayTo(log, start, end, Replay(groupOf, View(log), log[start..end]));
    }

    /** Before the frame: all totals start again from zero, and what is open stays open. */
    method ClearFrame(ghost log: seq<Entry>)
      requires Valid(log)
      modifies this`totals, this`credits
      ensures Valid(log) && View(log) == old(View(log)).(credits := [])
      ensures SumTo(totals.exclusive, |groupOf|) == 0
    {
      var zeros := seq(|groupOf|, i => 0);
      totals, credits := Totals(zeros, zeros, zeros, seq(MAX_GROUPS, i => 0), seq(META_MAX, m => zeros)), [];
      ExclusiveTotals(totals, |groupOf|, credits);
    }

    /** Replays everything written between two flips, around the end of the buffer. */
    method ReplayFrame(log: seq<Entry>, put: int, get: int)
      requires Valid(log) && 0 <= get < |log| && 0 <= put < |log|
      requires Replayable(groupOf, stackPos, Cyclic(log, get, put))
      modifies this, stack, childTicks
      ensures Valid(log) && View(log) == Replay(groupOf, old(View(log)), Cyclic(log, get, put))
      ensures SumTo(totals.exclusive, |groupOf|) - old(SumTo(totals.exclusive, |groupOf|))
           == Sum(childTicks[..stackPos + 1]) - old(Sum(childTicks[..stackPos + 1]))
    {
      ReplayConserves(groupOf, View(log), Cyclic(log, get, put));
      ExclusiveTotals(totals, |groupOf|, credits);
      ReplayRing(log, put, get);
      ExclusiveTotals(totals, |groupOf|, credits);
    }

    method ReplayRing(log: seq<Entry>, put: int, get: int)
      requires Valid(log) && 0 <= get < |log| && 0 <= put < |log|
      requires Replayable(groupOf, stackPos, Cyclic(log, get, put))
      modifies this, stack, childTicks
      ensures Valid(log) && View(log) == Replay(groupOf, old(View(log)), Cyclic(log, get, put))
    {
      var s0, e0, s1, e1 := ThreadLog.GetRange(|log|, put, get);
      assert log[s0..e0] + log[s1..e1] == Cyclic(log, get, put);
      ReplayableParts(groupOf, stackPos, log[s0..e0], log[s1..e1]);
      DepthIsStack(groupOf, View(log), log[s0..e0]);
      ReplayConcat(groupOf, View(log), log[s0..e0], log[s1..e1]);
      assert |View(log).stack| == stackPos;
      ReplayRange(log, s0, e0);
      assert |View(log).stack| == stackPos;
      ReplayRange(log, s1, e1);
    }
  }

  /** What the source asserts of the entries it replays: registered timers and counters, and
      nesting that stays below the size of the stack. */
  predicate Replayable(groupOf: seq<int>, depth: nat, log: seq<Entry>) {
    AllKnown(groupOf, log) && Fits(depth, log) && forall i :: 0 <= i < |log| ==> Counted(log[i])
  }

  lemma ReplayableNext(groupOf: seq<int>, depth: nat, s: State, log: seq<Entry>, k: nat, end: nat)
    requires Consistent(s) && k < end <= |log| && Replayable(groupOf, depth, log[k..end])
    ensures Known(groupOf, log[k]) && Counted(log[k]) && InBounds(depth, log[k])
    ensures Replayable(groupOf, NextDepth(depth, log[k]), log[k + 1..end])
    ensures Replay(groupOf, s, log[k..end]) == Replay(groupOf, Step(groupOf, s, log[k]), log[k + 1..end])
  {
    var l := log[k..end];
    assert l[0] == log[k] && l[1..] == log[k + 1..end];
    assert forall i :: 0 <= i < |l| - 1 ==> l[1..][i] == l[i + 1];
  }

  lemma ReplayableParts(groupOf: seq<int>, depth: nat, a: seq<Entry>, b: seq<Entry>)
    requires Replayable(groupOf, depth, a + b)
    ensures Replayable(groupOf, depth, a) && Replayable(groupOf, DepthAfter(depth, a), b)
  {
    FitsConcat(depth, a, b);
    assert forall i :: 0 <= i < |a| ==> (a + b)[i] == a[i];
    assert forall i :: 0 <= i < |b| ==> (a + b)[|a| + i] == b[i];
  }
}
