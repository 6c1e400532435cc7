/**
  What replaying a profiler log means.  `Step` is the effect of one entry on an unbounded
  stack; `Forest` is the nested reading of a balanced log.  The theorems say that the totals
  a replay credits are those of the nesting, and that for any log, balanced or not, exclusive
  time is conserved.
 */
module ReplaySpec {
  import opened Common
  import opened ProfileLog

  const MAX_GROUPS: int := 48
  const STACK_MAX: int := 32

  /** What one entry adds to the totals of the frame. */
  datatype Credit =
    | ScopeTime(timer: int, ticks: int, exclusive: int)
    | GroupTime(group: int, ticks: int)
    | Count(meta: int, timer: int, amount: int)

  /** `child[d]` collects the time of the scopes closed at depth `d`; `groups` counts the open
      scopes of each group in a byte. */
  datatype State = State(stack: seq<Entry>, child: seq<int>, groups: seq<int>, credits: seq<Credit>)

  predicate Consistent(s: State) {
    && |s.child| == |s.stack| + 1 && |s.groups| == MAX_GROUPS
    && forall g :: 0 <= g < MAX_GROUPS ==> 0 <= s.groups[g] < 256
  }

  /** The timers of an entry are registered: what the source asserts of every entry. */
  predicate Known(groupOf: seq<int>, e: Entry) {
    Type(e) == ENTER || Type(e) == LEAVE ==> Timer(e) < |groupOf| && 0 <= groupOf[Timer(e)] < MAX_GROUPS
  }

  predicate AllKnown(groupOf: seq<int>, log: seq<Entry>) {
    forall i :: 0 <= i < |log| ==> Known(groupOf, log[i])
  }

  function Entered(groups: seq<int>, g: int): seq<int>
    requires 0 <= g < |groups|
  {
    groups[g := (groups[g] + 1) % 256]
  }

  function Left(groups: seq<int>, g: int): seq<int>
    requires 0 <= g < |groups|
  {
    if groups[g] > 0 then groups[g := groups[g] - 1] else groups
  }

  function GroupCredit(groups: seq<int>, g: int, ticks: int): seq<Credit>
    requires 0 <= g < |groups|
  {
    if groups[g] == 1 then [GroupTime(g, ticks)] else []
  }

  /** The child times once the innermost scope has closed after `ticks`. */
  function Closed(child: seq<int>, ticks: int): (r: seq<int>)
    requires |child| >= 2
    ensures |r| == |child| - 1
  {
    child[..|child| - 2] + [child[|child| - 2] + ticks]
  }

  function Step(groupOf: seq<int>, s: State, e: Entry): (t: State)
    requires Consistent(s) && Known(groupOf, e)
    ensures Consistent(t)
  {
    if Type(e) == ENTER then
      State(s.stack + [e], s.child + [0], Entered(s.groups, groupOf[Timer(e)]), s.credits)
    else if Type(e) == META && s.stack != [] then
      s.(credits := s.credits + [Count(Timer(e), Timer(s.stack[|s.stack| - 1]), Tick(e))])
    else if Type(e) == LEAVE && s.stack != [] then
      var n, g := |s.stack|, groupOf[Timer(e)];
      var ticks := TickDifference(s.stack[n - 1], e);
      State(s.stack[..n - 1], Closed(s.child, ticks), Left(s.groups, g),
            s.credits + [ScopeTime(Timer(e), ticks, ticks - s.child[n])] + GroupCredit(s.groups, g, ticks))
    else s
  }

  function Replay(groupOf: seq<int>, s: State, log: seq<Entry>): (t: State)
    requires Consistent(s) && AllKnown(groupOf, log)
    ensures Consistent(t)
    decreases |log|
  {
    if log == [] then s else Replay(groupOf, Step(groupOf, s, log[0]), log[1..])
  }

  lemma {:induction false} ReplayConcat(groupOf: seq<int>, s: State, a: seq<Entry>, b: seq<Entry>)
    requires Consistent(s) && AllKnown(groupOf, a) && AllKnown(groupOf, b)
    ensures AllKnown(groupOf, a + b)
    ensures Replay(groupOf, s, a + b) == Replay(groupOf, Replay(groupOf, s, a), b)
    decreases |a|
  {
    if a == [] {
      assert a + b == b;
    } else {
      assert (a + b)[1..] == a[1..] + b && (a + b)[0] == a[0];
      ReplayConcat(groupOf, Step(groupOf, s, a[0]), a[1..], b);
    }
  }

  // ---- Conservation for every log ------------------------------------------------------

  function Sum(xs: seq<int>): int { if xs == [] then 0 else Sum(xs[..|xs| - 1]) + xs[|xs| - 1] }

  function Exclusive(c: Credit): int { if c.ScopeTime? then c.exclusive else 0 }

  function SumBy(cs: seq<Credit>, weight: Credit -> int): int {
    if cs == [] then 0 else SumBy(cs[..|cs| - 1], weight) + weight(cs[|cs| - 1])
  }

  lemma SumByPush(cs: seq<Credit>, weight: Credit -> int, c: Credit)
    ensures SumBy(cs + [c], weight) == SumBy(cs, weight) + weight(c)
  {
    assert (cs + [c])[..|cs|] == cs;
  }

  lemma ClosedSum(child: seq<int>, ticks: int)
    requires |child| >= 2
    ensures Sum(Closed(child, ticks)) == Sum(child) + ticks - child[|child| - 1]
  {
    var n := |child|;
    var r := Closed(child, ticks);
    assert r[..n - 2] == child[..n - 2];
    assert child[..n - 1][..n - 2] == child[..n - 2];
    assert Sum(child[..n - 1]) == Sum(child[..n - 2]) + child[n - 2];
  }

  /** One entry: the exclusive time credited is the growth of the child times on the stack. */
  lemma StepConserves(groupOf: seq<int>, s: State, e: Entry)
    requires Consistent(s) && Known(groupOf, e)
    ensures var t := Step(groupOf, s, e);
      SumBy(t.credits, Exclusive) - SumBy(s.credits, Exclusive) == Sum(t.child) - Sum(s.child)
  {
    if Type(e) == ENTER {
      assert (s.child + [0])[..|s.child|] == s.child;
    } else if Type(e) == META && s.stack != [] {
      SumByPush(s.credits, Exclusive, Count(Timer(e), Timer(s.stack[|s.stack| - 1]), Tick(e)));
    } else if Type(e) == LEAVE && s.stack != [] {
      var n, g := |s.stack|, groupOf[Timer(e)];
      var ticks := TickDifference(s.stack[n - 1], e);
      var scope := ScopeTime(Timer(e), ticks, ticks - s.child[n]);
      ClosedSum(s.child, ticks);
      SumByPush(s.credits, Exclusive, scope);
      if s.groups[g] == 1 {
        SumByPush(s.credits + [scope], Exclusive, GroupTime(g, ticks));
      } else {
        assert s.credits + [scope] + [] == s.credits + [scope];
      }
    }
  }

  /** Any log, balanced or not: the exclusive time credited is the growth of the sum of the
      live child times. */
  lemma {:induction false} ReplayConserves(groupOf: seq<int>, s: State, log: seq<Entry>)
    requires Consistent(s) && AllKnown(groupOf, log)
    ensures var t := Replay(groupOf, s, log);
      SumBy(t.credits, Exclusive) - SumBy(s.credits, Exclusive) == Sum(t.child) - Sum(s.child)
    decreases |log|
  {
    if log != [] {
      StepConserves(groupOf, s, log[0]);
      ReplayConserves(groupOf, Step(groupOf, s, log[0]), log[1..]);
    }
  }

  /** Time of the scopes that a replay closes at the outermost level. */
  function RootTicks(groupOf: seq<int>, s: State, log: seq<Entry>): int
    requires Consistent(s) && AllKnown(groupOf, log)
    decreases |log|
  {
    if log == [] then 0 else
      (if Type(log[0]) == LEAVE && |s.stack| == 1 then TickDifference(s.stack[0], log[0]) else 0)
      + RootTicks(groupOf, Step(groupOf, s, log[0]), log[1..])
  }

  lemma {:induction false} BaseCollectsRoots(groupOf: seq<int>, s: State, log: seq<Entry>)
    requires Consistent(s) && AllKnown(groupOf, log)
    ensures Replay(groupOf, s, log).child[0] == s.child[0] + RootTicks(groupOf, s, log)
    decreases |log|
  {
    if log != [] { BaseCollectsRoots(groupOf, Step(groupOf, s, log[0]), log[1..]); }
  }

  /** With an empty stack before and after, all exclusive time adds up to the time of the
      outermost scopes: nothing is counted twice and nothing is lost. */
  lemma ExclusiveIsRootTime(groupOf: seq<int>, s: State, log: seq<Entry>)
    requires Consistent(s) && AllKnown(groupOf, log)
    requires s.stack == [] && Replay(groupOf, s, log).stack == []
    ensures SumBy(Replay(groupOf, s, log).credits, Exclusive) - SumBy(s.credits, Exclusive)
      == RootTicks(groupOf, s, log)
  {
    var t := Replay(groupOf, s, log);
    ReplayConserves(groupOf, s, log);
    BaseCollectsRoots(groupOf, s, log);
    assert s.child == [s.child[0]] && t.child == [t.child[0]];
    SingleSum(s.child[0]);
    SingleSum(t.child[0]);
  }

  lemma SingleSum(x: int)
    ensures Sum([x]) == x
  {
    assert [x][..0] == [];
  }

  // ---- The nested reading of a balanced log -------------------------------------------------

  datatype Forest =
    | Empty
    | Scope(enter: Entry, leave: Entry, inside: Forest, after: Forest)
    | Other(entry: Entry, after: Forest)

  predicate Nested(groupOf: seq<int>, f: Forest) {
    match f
    case Empty => true
    case Scope(enter, leave, inside, after) =>
      && Type(enter) == ENTER && Type(leave) == LEAVE && Known(groupOf, enter) && Known(groupOf, leave)
      && groupOf[Timer(enter)] == groupOf[Timer(leave)]
      && Nested(groupOf, inside) && Nested(groupOf, after)
    case Other(entry, after) => (Type(entry) == META || Type(entry) == GPU_EXTRA) && Nested(groupOf, after)
  }

  function Flatten(f: Forest): seq<Entry> {
    match f
    case Empty => []
    case Scope(enter, leave, inside, after) => [enter] + (Flatten(inside) + ([leave] + Flatten(after)))
    case Other(entry, after) => [entry] + Flatten(after)
  }

  function Depth(f: Forest): nat {
    match f
    case Empty => 0
    case Scope(_, _, inside, after) =>
      var a, b := 1 + Depth(inside), Depth(after);
      if a >= b then a else b
    case Other(_, after) => Depth(after)
  }

  /** Time from entering to leaving, summed over the scopes at the top of the forest. */
  function Inclusive(f: Forest): int {
    match f
    case Empty => 0
    case Scope(enter, leave, _, after) => TickDifference(enter, leave) + Inclusive(after)
    case Other(_, after) => Inclusive(after)
  }

  /** The credits of a forest inside the open scopes `path`: a scope gets its time and its time
      less that of the scopes directly inside it; a group gets the time of its outermost
      scopes; a counter goes to the innermost open scope. */
  function Credits(groupOf: seq<int>, f: Forest, path: seq<Entry>, groups: seq<int>): seq<Credit>
    requires Nested(groupOf, f) && |groups| == MAX_GROUPS
    decreases f
  {
    match f
    case Empty => []
    case Scope(enter, leave, inside, after) =>
      var g, ticks := groupOf[Timer(enter)], TickDifference(enter, leave);
      Credits(groupOf, inside, path + [enter], Entered(groups, g))
      + [ScopeTime(Timer(leave), ticks, ticks - Inclusive(inside))]
      + (if groups[g] == 0 then [GroupTime(g, ticks)] else [])
      + Credits(groupOf, after, path, groups)
    case Other(entry, after) =>
      (if Type(entry) == META && path != [] then [Count(Timer(entry), Timer(path[|path| - 1]), Tick(entry))] else [])
      + Credits(groupOf, after, path, groups)
  }

  lemma {:induction false} FlattenKnown(groupOf: seq<int>, f: Forest)
    requires Nested(groupOf, f)
    ensures AllKnown(groupOf, Flatten(f))
  {
    match f
    case Empty =>
    case Scope(_, _, inside, after) =>
      FlattenKnown(groupOf, inside);
      FlattenKnown(groupOf, after);
    case Other(_, after) => FlattenKnown(groupOf, after);
  }

  /** The log is balanced inside the open scopes `open`: it leaves no scope that it has not entered,
      leaves every scope that it enters, and leaves it in the group in which it was entered. */
  predicate Balanced(groupOf: seq<int>, open: seq<Entry>, log: seq<Entry>)
    requires AllKnown(groupOf, open) && AllKnown(groupOf, log)
    requires forall i :: 0 <= i < |open| ==> Type(open[i]) == ENTER
    decreases |log|
  {
    if log == [] then open == []
    else if Type(log[0]) == ENTER then Balanced(groupOf, open + [log[0]], log[1..])
    else if Type(log[0]) == LEAVE then
      && open != [] && groupOf[Timer(open[|open| - 1])] == groupOf[Timer(log[0])]
      && Balanced(groupOf, open[..|open| - 1], log[1..])
    else Balanced(groupOf, open, log[1..])
  }

  /** What a forest at the front of a balanced log leaves: nothing, or the end of a scope. */
  lemma {:induction false} ReadForest(groupOf: seq<int>, open: seq<Entry>, log: seq<Entry>)
      returns (f: Forest, rest: seq<Entry>)
    requires AllKnown(groupOf, open) && AllKnown(groupOf, log)
    requires forall i :: 0 <= i < |open| ==> Type(open[i]) == ENTER
    requires Balanced(groupOf, open, log)
    ensures Nested(groupOf, f) && log == Flatten(f) + rest
    ensures AllKnown(groupOf, rest) && Balanced(groupOf, open, rest)
    ensures rest == [] || Type(rest[0]) == LEAVE
    decreases |log|
  {
    if log == [] || Type(log[0]) == LEAVE {
      return Empty, log;
    }
    if Type(log[0]) == ENTER {
      var inside, end := ReadForest(groupOf, open + [log[0]], log[1..]);
      assert (open + [log[0]])[..|open|] == open;
      var after;
      after, rest := ReadForest(groupOf, open, end[1..]);
      f := Scope(log[0], end[0], inside, after);
      ScopeText(log, inside, end, after, rest);
    } else {
      var after;
      after, rest := ReadForest(groupOf, open, log[1..]);
      f := Other(log[0], after);
      assert log == [log[0]] + (Flatten(after) + rest);
      Regroup([log[0]], Flatten(after), rest);
    }
  }

  lemma ScopeText(log: seq<Entry>, inside: Forest, end: seq<Entry>, after: Forest, rest: seq<Entry>)
    requires log != [] && end != [] && log[1..] == Flatten(inside) + end && end[1..] == Flatten(after) + rest
    ensures log == Flatten(Scope(log[0], end[0], inside, after)) + rest
  {
    var a, b, c := Flatten(inside), [end[0]], Flatten(after);
    assert log == [log[0]] + (a + end) && end == b + (c + rest);
    Regroup(b, c, rest);
    Regroup(a, b + c, rest);
    Regroup([log[0]], a + (b + c), rest);
  }

  /** Every balanced log has a nested reading. */
  lemma BalancedIsForest(groupOf: seq<int>, log: seq<Entry>) returns (f: Forest)
    requires AllKnown(groupOf, log) && Balanced(groupOf, [], log)
    ensures Nested(groupOf, f) && log == Flatten(f)
  {
    var rest;
    f, rest := ReadForest(groupOf, [], log);
  }

  /** And every nested reading is a balanced log, wherever it stands. */
  lemma {:induction false} ForestIsBalanced(groupOf: seq<int>, open: seq<Entry>, f: Forest, rest: seq<Entry>)
    requires AllKnown(groupOf, open) && AllKnown(groupOf, rest) && Nested(groupOf, f)
    requires forall i :: 0 <= i < |open| ==> Type(open[i]) == ENTER
    ensures AllKnown(groupOf, Flatten(f) + rest)
    ensures Balanced(groupOf, open, Flatten(f) + rest) <==> Balanced(groupOf, open, rest)
    decreases f
  {
    FlattenKnown(groupOf, f);
    match f
    case Empty => assert Flatten(f) + rest == rest;
    case Scope(enter, leave, inside, after) =>
      var last := Flatten(after) + rest;
      var more := [leave] + last;
      ForestIsBalanced(groupOf, open, after, rest);
      assert AllKnown(groupOf, more);
      ForestIsBalanced(groupOf, open + [enter], inside, more);
      ScopeIsBalanced(groupOf, open, f, rest, Flatten(inside) + more, last);
    case Other(entry, after) =>
      var log := Flatten(f) + rest;
      assert log[0] == entry && log[1..] == Flatten(after) + rest;
      ForestIsBalanced(groupOf, open, after, rest);
  }

  /** Entering and leaving a scope around what is balanced inside it. */
  lemma ScopeIsBalanced(groupOf: seq<int>, open: seq<Entry>, f: Forest, rest: seq<Entry>, tail: seq<Entry>,
                        last: seq<Entry>)
    requires f.Scope? && Nested(groupOf, f) && AllKnown(groupOf, open) && AllKnown(groupOf, Flatten(f) + rest)
    requires forall i :: 0 <= i < |open| ==> Type(open[i]) == ENTER
    requires last == Flatten(f.after) + rest && tail == Flatten(f.inside) + ([f.leave] + last)
    requires AllKnown(groupOf, tail) && AllKnown(groupOf, [f.leave] + last) && AllKnown(groupOf, last)
    requires Balanced(groupOf, open + [f.enter], tail) <==> Balanced(groupOf, open + [f.enter], [f.leave] + last)
    ensures Balanced(groupOf, open, Flatten(f) + rest) <==> Balanced(groupOf, open, last)
  {
    var log := Flatten(f) + rest;
    assert log == [f.enter] + tail by {
      Regroup([f.leave], Flatten(f.after), rest);
      Regroup(Flatten(f.inside), [f.leave] + Flatten(f.after), rest);
      Regroup([f.enter], Flatten(f.inside) + ([f.leave] + Flatten(f.after)), rest);
    }
    assert log[0] == f.enter && log[1..] == tail;
    assert ([f.leave] + last)[1..] == last && (open + [f.enter])[..|open|] == open;
  }

  /** Room for one more open scope of any group: far more than the stack allows. */
  ghost predicate GroupsFit(groups: seq<int>, depth: int) {
    |groups| == MAX_GROUPS && forall g :: 0 <= g < MAX_GROUPS ==> 0 <= groups[g] && groups[g] + depth < 256
  }

  /** Child times with `x` added at the innermost level. */
  function Bumped(child: seq<int>, x: int): (r: seq<int>)
    requires child != []
    ensures |r| == |child|
  {
    child[|child| - 1 := child[|child| - 1] + x]
  }

  /** The state after a forest has been replayed from `s`. */
  function AfterForest(groupOf: seq<int>, s: State, f: Forest): State
    requires Consistent(s) && Nested(groupOf, f)
  {
    s.(child := Bumped(s.child, Inclusive(f)), credits := s.credits + Credits(groupOf, f, s.stack, s.groups))
  }

  lemma EnterThenLeave(groups: seq<int>, g: int)
    requires GroupsFit(groups, 1) && 0 <= g < MAX_GROUPS
    ensures Left(Entered(groups, g), g) == groups
    ensures Entered(groups, g)[g] == groups[g] + 1
  {
    assert (groups[g] + 1) % 256 == groups[g] + 1;
  }

  lemma EnteredFits(groups: seq<int>, g: int, depth: nat)
    requires GroupsFit(groups, 1 + depth) && 0 <= g < MAX_GROUPS
    ensures GroupsFit(Entered(groups, g), depth)
  {
    assert (groups[g] + 1) % 256 == groups[g] + 1;
  }

  /** Leaving a scope whose inside has been replayed. */
  lemma LeaveScope(groupOf: seq<int>, s: State, f: Forest, s2: State, t: State)
    requires Consistent(s) && f.Scope? && Nested(groupOf, f) && GroupsFit(s.groups, 1)
    requires s2 == AfterForest(groupOf, Step(groupOf, s, f.enter), f.inside) && Consistent(s2)
      && t == Step(groupOf, s2, f.leave)
    ensures var ticks, g := TickDifference(f.enter, f.leave), groupOf[Timer(f.enter)];
      t == State(s.stack, Bumped(s.child, ticks), s.groups,
                 s.credits + Credits(groupOf, f.inside, s.stack + [f.enter], Entered(s.groups, g))
                 + [ScopeTime(Timer(f.leave), ticks, ticks - Inclusive(f.inside))]
                 + (if s.groups[g] == 0 then [GroupTime(g, ticks)] else []))
  {
    var ticks, g := TickDifference(f.enter, f.leave), groupOf[Timer(f.enter)];
    EnterThenLeave(s.groups, g);
    assert s2.child == s.child + [Inclusive(f.inside)];
    assert s2.stack == s.stack + [f.enter] && s2.stack[..|s.stack|] == s.stack;
    assert Closed(s2.child, ticks) == Bumped(s.child, ticks) && s2.child[|s2.stack|] == Inclusive(f.inside);
    assert t.stack == s.stack && t.groups == s.groups && t.child == Bumped(s.child, ticks);
    var within := Credits(groupOf, f.inside, s.stack + [f.enter], Entered(s.groups, g));
    var closing := GroupCredit(s2.groups, g, ticks);
    assert s2.credits == s.credits + within && closing == if s.groups[g] == 0 then [GroupTime(g, ticks)] else [];
    assert t.credits == s2.credits + [ScopeTime(Timer(f.leave), ticks, ticks - Inclusive(f.inside))] + closing;
  }

  /** A balanced log: every scope is credited once with its own time, the stack and the group
      counts come back, and the enclosing scope has grown by the time of the forest. */
  lemma {:induction false} ReplayForest(groupOf: seq<int>, s: State, f: Forest)
    requires Consistent(s) && Nested(groupOf, f) && GroupsFit(s.groups, Depth(f))
    ensures AllKnown(groupOf, Flatten(f))
    ensures Replay(groupOf, s, Flatten(f)) == AfterForest(groupOf, s, f)
    decreases f
  {
    FlattenKnown(groupOf, f);
    match f
    case Empty =>
    case Other(entry, after) =>
      var s1 := Step(groupOf, s, entry);
      FlattenKnown(groupOf, after);
      ReplayForest(groupOf, s1, after);
      assert Flatten(f)[1..] == Flatten(after);
      OtherJoins(groupOf, s, f);
    case Scope(enter, leave, inside, after) =>
      ReplayScope(groupOf, s, f);
  }

  lemma OtherJoins(groupOf: seq<int>, s: State, f: Forest)
    requires Consistent(s) && f.Other? && Nested(groupOf, f)
    ensures AfterForest(groupOf, Step(groupOf, s, f.entry), f.after) == AfterForest(groupOf, s, f)
  {
    var c := Credits(groupOf, f.after, s.stack, s.groups);
    if Type(f.entry) == META && s.stack != [] {
      var one := [Count(Timer(f.entry), Timer(s.stack[|s.stack| - 1]), Tick(f.entry))];
      assert s.credits + one + c == s.credits + (one + c);
    } else {
      assert [] + c == c;
    }
  }

  lemma {:induction false} ReplayScope(groupOf: seq<int>, s: State, f: Forest)
    requires Consistent(s) && f.Scope? && Nested(groupOf, f) && GroupsFit(s.groups, Depth(f))
    requires AllKnown(groupOf, Flatten(f))
    ensures Replay(groupOf, s, Flatten(f)) == AfterForest(groupOf, s, f)
    decreases f, 0
  {
    var g := groupOf[Timer(f.enter)];
    var s1 := Step(groupOf, s, f.enter);
    EnteredFits(s.groups, g, Depth(f.inside));
    ReplayForest(groupOf, s1, f.inside);
    var s2 := AfterForest(groupOf, s1, f.inside);
    var s3 := Step(groupOf, s2, f.leave);
    LeaveScope(groupOf, s, f, s2, s3);
    ReplayForest(groupOf, s3, f.after);
    ScopeLog(groupOf, s, f);
    ScopeJoins(groupOf, s, f, s3);
  }

  lemma ScopeLog(groupOf: seq<int>, s: State, f: Forest)
    requires Consistent(s) && f.Scope? && Nested(groupOf, f)
    requires AllKnown(groupOf, Flatten(f)) && AllKnown(groupOf, Flatten(f.inside))
      && AllKnown(groupOf, Flatten(f.after))
    ensures Replay(groupOf, s, Flatten(f))
         == Replay(groupOf, Step(groupOf, Replay(groupOf, Step(groupOf, s, f.enter), Flatten(f.inside)), f.leave),
                   Flatten(f.after))
  {
    var rest := [f.leave] + Flatten(f.after);
    assert Flatten(f)[1..] == Flatten(f.inside) + rest;
    assert AllKnown(groupOf, rest);
    ReplayConcat(groupOf, Step(groupOf, s, f.enter), Flatten(f.inside), rest);
    assert rest[1..] == Flatten(f.after);
  }

  lemma ScopeJoins(groupOf: seq<int>, s: State, f: Forest, s3: State)
    requires Consistent(s) && f.Scope? && Nested(groupOf, f) && Consistent(s3)
    requires var ticks, g := TickDifference(f.enter, f.leave), groupOf[Timer(f.enter)];
      s3 == State(s.stack, Bumped(s.child, ticks), s.groups,
               s.credits + Credits(groupOf, f.inside, s.stack + [f.enter], Entered(s.groups, g))
               + [ScopeTime(Timer(f.leave), ticks, ticks - Inclusive(f.inside))]
               + (if s.groups[g] == 0 then [GroupTime(g, ticks)] else []))
    ensures AfterForest(groupOf, s3, f.after) == AfterForest(groupOf, s, f)
  {
    var ticks, g := TickDifference(f.enter, f.leave), groupOf[Timer(f.enter)];
    assert Bumped(Bumped(s.child, ticks), Inclusive(f.after)) == Bumped(s.child, Inclusive(f));
    var a := Credits(groupOf, f.inside, s.stack + [f.enter], Entered(s.groups, g));
    var b := [ScopeTime(Timer(f.leave), ticks, ticks - Inclusive(f.inside))];
    var c := if s.groups[g] == 0 then [GroupTime(g, ticks)] else [];
    var d := Credits(groupOf, f.after, s.stack, s.groups);
    assert s.credits + a + b + c + d == s.credits + (a + b + c + d);
  }

  /** Over a balanced log with nothing open around it, all exclusive time adds up to the time of
      its outermost scopes. */
  lemma ForestConserves(groupOf: seq<int>, s: State, f: Forest)
    requires Consistent(s) && Nested(groupOf, f) && GroupsFit(s.groups, Depth(f)) && s.stack == []
    ensures SumBy(AfterForest(groupOf, s, f).credits, Exclusive) - SumBy(s.credits, Exclusive) == Inclusive(f)
  {
    ReplayForest(groupOf, s, f);
    BaseGrows(groupOf, s, Flatten(f), AfterForest(groupOf, s, f));
  }

  /** With nothing open before and after, the exclusive time is the growth of the only child time. */
  lemma BaseGrows(groupOf: seq<int>, s: State, log: seq<Entry>, t: State)
    requires Consistent(s) && AllKnown(groupOf, log) && t == Replay(groupOf, s, log) && s.stack == [] && t.stack == []
    ensures SumBy(t.credits, Exclusive) - SumBy(s.credits, Exclusive) == t.child[0] - s.child[0]
  {
    ReplayConserves(groupOf, s, log);
    assert s.child == [s.child[0]] && t.child == [t.child[0]];
    SingleSum(s.child[0]);
    SingleSum(t.child[0]);
  }
}
