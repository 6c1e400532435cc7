/**
  Distances from each mix to the final mix.  A mix names one destination, so the graph is a
  set of chains that end at the final mix, end nowhere, or run into a cycle.  The distance
  pass walks each chain in index order and reuses distances it has already stored.
 */
module MixGraph {

  const FINAL_MIX: int := 0
  const NO_MIX: int := 0x7fff_ffff
  const NO_FINAL_MIX: int := -0x8000_0000

  datatype Graph = Graph(inUse: seq<bool>, dest: seq<int>) {
    function Size(): nat { |inUse| }

    /** Every destination is absent or a mix; a mix id is its index. */
    predicate Valid() {
      && 0 < |inUse| == |dest| < NO_MIX
      && forall i :: 0 <= i < |dest| ==> dest[i] == NO_MIX || 0 <= dest[i] < |dest|
    }
  }

  // ---- Chains ------------------------------------------------------------------------------

  /** Where the chain from `i` is after `k` hops; it stays at the final mix and at no mix. */
  function Walk(g: Graph, i: int, k: nat): (m: int)
    requires g.Valid() && (i == NO_MIX || 0 <= i < g.Size())
    ensures m == NO_MIX || 0 <= m < g.Size()
  {
    if k == 0 then i else
      var m := Walk(g, i, k - 1);
      if m == NO_MIX || m == FINAL_MIX then m else g.dest[m]
  }

  lemma {:induction false} WalkOn(g: Graph, i: int, j: nat, k: nat)
    requires g.Valid() && (i == NO_MIX || 0 <= i < g.Size())
    ensures Walk(g, Walk(g, i, j), k) == Walk(g, i, j + k)
    decreases k
  {
    if k > 0 { WalkOn(g, i, j, k - 1); }
  }

  lemma {:induction false} WalkStays(g: Graph, i: int, j: nat, k: nat)
    requires g.Valid() && 0 <= i < g.Size() && j <= k
    requires Walk(g, i, j) == NO_MIX || Walk(g, i, j) == FINAL_MIX
    ensures Walk(g, i, k) == Walk(g, i, j)
    decreases k
  {
    if j < k { WalkStays(g, i, j, k - 1); }
  }

  /** The chain from `i` reaches the final mix after exactly `k` hops. */
  ghost predicate Arrives(g: Graph, i: int, k: nat)
    requires g.Valid() && 0 <= i < g.Size()
  {
    Walk(g, i, k) == FINAL_MIX && forall j :: 0 <= j < k ==> Walk(g, i, j) != FINAL_MIX
  }

  ghost predicate Reaches(g: Graph, i: int)
    requires g.Valid() && 0 <= i < g.Size()
  {
    exists k: nat :: Walk(g, i, k) == FINAL_MIX
  }

  lemma {:induction false} FirstArrival(g: Graph, i: int, k: nat) returns (first: nat)
    requires g.Valid() && 0 <= i < g.Size() && Walk(g, i, k) == FINAL_MIX
    ensures Arrives(g, i, first) && first <= k
    decreases k
  {
    if exists j: nat :: j < k && Walk(g, i, j) == FINAL_MIX {
      var j: nat :| j < k && Walk(g, i, j) == FINAL_MIX;
      first := FirstArrival(g, i, j);
    } else {
      first := k;
    }
  }

  /** The number of hops from `i` to the final mix. */
  ghost function Length(g: Graph, i: int): (n: nat)
    requires g.Valid() && 0 <= i < g.Size() && Reaches(g, i)
    ensures Arrives(g, i, n)
  {
    assert exists n: nat :: Arrives(g, i, n) by {
      var k: nat :| Walk(g, i, k) == FINAL_MIX;
      var first := FirstArrival(g, i, k);
    }
    var n: nat :| Arrives(g, i, n);
    n
  }

  lemma ArrivesOnce(g: Graph, i: int, n: nat)
    requires g.Valid() && 0 <= i < g.Size() && Arrives(g, i, n)
    ensures Reaches(g, i) && Length(g, i) == n
  {
  }

  /** A mix on the chain of `i` reaches the final mix exactly when `i` does, so many hops later. */
  lemma ChainReaches(g: Graph, i: int, j: nat)
    requires g.Valid() && 0 <= i < g.Size() && 0 <= Walk(g, i, j) < g.Size()
    ensures Reaches(g, Walk(g, i, j)) <==> Reaches(g, i)
    ensures Reaches(g, i) && j <= Length(g, i) ==> Length(g, Walk(g, i, j)) == Length(g, i) - j
  {
    var m := Walk(g, i, j);
    if Reaches(g, m) {
      var k: nat :| Walk(g, m, k) == FINAL_MIX;
      WalkOn(g, i, j, k);
    }
    if Reaches(g, i) {
      var n := Length(g, i);
      if j <= n {
        forall k: nat | k <= n - j
          ensures Walk(g, m, k) == Walk(g, i, j + k)
        {
          WalkOn(g, i, j, k);
        }
        ArrivesOnce(g, m, n - j);
      } else {
        WalkStays(g, i, n, j);
        assert Walk(g, m, 0) == FINAL_MIX;
      }
    }
  }

  // ---- A chain that arrives visits no mix twice ------------------------------------------------

  lemma NoRepeat(g: Graph, i: int, a: nat, b: nat)
    requires g.Valid() && 0 <= i < g.Size() && Reaches(g, i) && a < b <= Length(g, i)
    ensures Walk(g, i, a) != Walk(g, i, b) && Walk(g, i, b) != NO_MIX
  {
    var n := Length(g, i);
    if Walk(g, i, b) == NO_MIX {
      WalkStays(g, i, b, n);
    } else if Walk(g, i, a) == Walk(g, i, b) {
      WalkOn(g, i, a, n - b);
      WalkOn(g, i, b, n - b);
    }
  }

  /** The first `k` mixes of the chain. */
  ghost function Visited(g: Graph, i: int, k: nat): (s: set<int>)
    requires g.Valid() && 0 <= i < g.Size()
  {
    if k == 0 then {} else Visited(g, i, k - 1) + {Walk(g, i, k - 1)}
  }

  lemma {:induction false} VisitedAre(g: Graph, i: int, k: nat, m: int) returns (j: nat)
    requires g.Valid() && 0 <= i < g.Size() && m in Visited(g, i, k)
    ensures j < k && m == Walk(g, i, j)
  {
    if m == Walk(g, i, k - 1) { j := k - 1; } else { j := VisitedAre(g, i, k - 1, m); }
  }

  lemma {:induction false} VisitedCount(g: Graph, i: int, k: nat)
    requires g.Valid() && 0 <= i < g.Size() && Reaches(g, i) && k <= Length(g, i) + 1
    ensures |Visited(g, i, k)| == k
  {
    if k > 0 {
      VisitedCount(g, i, k - 1);
      if Walk(g, i, k - 1) in Visited(g, i, k - 1) {
        var j := VisitedAre(g, i, k - 1, Walk(g, i, k - 1));
        NoRepeat(g, i, j, k - 1);
      }
    }
  }

  predicate Below(m: int, n: nat) { 0 <= m < n }

  lemma {:induction false} BelowCount(s: set<int>, n: nat)
    requires forall m :: m in s ==> Below(m, n)
    ensures |s| <= n
    decreases n
  {
    if n == 0 {
      forall m
        ensures m !in s
      {
        assert !Below(m, n);
      }
      assert s == {};
    } else if n - 1 in s {
      assert forall m :: m in s - {n - 1} ==> Below(m, n) && Below(m, n - 1);
      BelowCount(s - {n - 1}, n - 1);
    } else {
      assert forall m :: m in s ==> Below(m, n) && Below(m, n - 1);
      BelowCount(s, n - 1);
    }
  }

  /** A chain arrives in fewer hops than there are mixes, or never. */
  lemma LengthBound(g: Graph, i: int)
    requires g.Valid() && 0 <= i < g.Size() && Reaches(g, i)
    ensures Length(g, i) < g.Size()
  {
    var n := Length(g, i);
    VisitedCount(g, i, n + 1);
    forall m | m in Visited(g, i, n + 1)
      ensures Below(m, g.Size())
    {
      var j := VisitedAre(g, i, n + 1, m);
      if j > 0 { NoRepeat(g, i, 0, j); }
    }
    BelowCount(Visited(g, i, n + 1), g.Size());
  }

  // ---- What the distance pass computes ------------------------------------------------------------

  /** When mix `i` is processed, a distance for `m` is already stored, or `m` is the final mix. */
  predicate Settled(g: Graph, i: int, m: int)
    requires g.Valid() && 0 <= i < g.Size()
  {
    m == FINAL_MIX || (0 <= m < i && g.inUse[m])
  }

  ghost predicate Settles(g: Graph, i: int, k: nat)
    requires g.Valid() && 0 <= i < g.Size()
  {
    Settled(g, i, Walk(g, i, k)) && forall j :: 0 <= j < k ==> !Settled(g, i, Walk(g, i, j))
  }

  /** Hops from `i` to the first mix whose distance is known by then. */
  ghost function Known(g: Graph, i: int): (k: nat)
    requires g.Valid() && 0 <= i < g.Size() && Reaches(g, i)
    ensures Settles(g, i, k) && k <= Length(g, i)
  {
    assert exists k: nat :: Settles(g, i, k) && k <= Length(g, i) by { var k := FirstSettled(g, i, Length(g, i)); }
    var k: nat :| Settles(g, i, k) && k <= Length(g, i);
    k
  }

  lemma {:induction false} FirstSettled(g: Graph, i: int, n: nat) returns (k: nat)
    requires g.Valid() && 0 <= i < g.Size() && Settled(g, i, Walk(g, i, n))
    ensures Settles(g, i, k) && k <= n
    decreases n
  {
    if exists j: nat :: j < n && Settled(g, i, Walk(g, i, j)) {
      var j: nat :| j < n && Settled(g, i, Walk(g, i, j));
      k := FirstSettled(g, i, j);
    } else {
      k := n;
    }
  }

  lemma KnownIs(g: Graph, i: int, k: nat)
    requires g.Valid() && 0 <= i < g.Size() && Reaches(g, i) && Settles(g, i, k)
    ensures Known(g, i) == k
  {
  }

  /** The distance stored for mix `i`: hops to the final mix if nothing is known before it, and
      otherwise one more than the first known distance, whatever the hops to it. */
  ghost function Distance(g: Graph, i: int): (d: int)
    requires g.Valid() && 0 <= i < g.Size()
    ensures d != NO_FINAL_MIX <==> g.inUse[i] && Reaches(g, i)
    ensures d != NO_FINAL_MIX ==> 0 <= d <= Length(g, i)
    decreases i
  {
    if !g.inUse[i] || !Reaches(g, i) then NO_FINAL_MIX else
      var k := Known(g, i);
      var m := Walk(g, i, k);
      if m == FINAL_MIX then k else
        ChainReaches(g, i, k);
        Distance(g, m) + 1
  }

  /** Nothing known lies between a mix and the final mix, or its own destination is known. */
  ghost predicate Direct(g: Graph, i: int)
    requires g.Valid() && 0 <= i < g.Size() && Reaches(g, i)
  {
    Known(g, i) <= 1 || Walk(g, i, Known(g, i)) == FINAL_MIX
  }

  /** In-use mixes between `i` and the first known mix of its chain end up farther away than it. */
  lemma {:induction false} FartherThan(g: Graph, i: int, k: nat, l: nat)
    requires g.Valid() && 0 <= i < g.Size() && Reaches(g, i)
    requires k == Known(g, i) && 0 < l < k && Walk(g, i, k) != FINAL_MIX
    requires Walk(g, i, l) != NO_MIX && g.inUse[Walk(g, i, l)]
    ensures Distance(g, Walk(g, i, l)) > Distance(g, Walk(g, i, k))
    decreases k - l
  {
    var m, w := Walk(g, i, k), Walk(g, i, l);
    ChainReaches(g, i, k);
    ChainReaches(g, i, l);
    NoRepeat(g, i, 0, l);
    assert !Settled(g, i, w) && m < i < w;
    WalkOn(g, i, l, k - l);
    var h := Known(g, w);
    assert Settled(g, w, Walk(g, w, k - l));
    assert h <= k - l;
    WalkOn(g, i, l, h);
    if h < k - l {
      assert !Settled(g, i, Walk(g, i, l + h));
      FartherThan(g, i, k, l + h);
    }
  }

  lemma FirstHop(g: Graph, i: int)
    requires g.Valid() && 0 < i < g.Size()
    ensures Walk(g, i, 1) == g.dest[i]
  {
    assert Walk(g, i, 0) == i;
  }

  /** For a mix that reaches the final mix through a mix in use: it is farther away than its
      destination exactly when nothing known was skipped on the way. */
  lemma OrderedExactlyWhen(g: Graph, i: int)
    requires g.Valid() && 0 < i < g.Size() && g.inUse[i] && Reaches(g, i)
    requires g.dest[i] != NO_MIX && g.inUse[g.dest[i]]
    ensures Distance(g, i) > Distance(g, g.dest[i]) <==> Direct(g, i)
  {
    var j, k := g.dest[i], Known(g, i);
    FirstHop(g, i);
    ChainReaches(g, i, 1);
    assert Length(g, i) >= 1;
    assert k >= 1 by { assert !Settled(g, i, Walk(g, i, 0)); }
    if k > 1 && Walk(g, i, k) != FINAL_MIX {
      FartherThan(g, i, k, 1);
    }
  }

  /** The stored distance is the number of hops exactly when nothing known was skipped, on the
      chain of the mix and on the chains of the distances it builds on. */
  lemma {:induction false} ExactWhenDirect(g: Graph, i: int)
    requires g.Valid() && 0 <= i < g.Size() && g.inUse[i] && Reaches(g, i)
    ensures var k := Known(g, i); var m := Walk(g, i, k);
      Distance(g, i) == Length(g, i) <==>
        m == FINAL_MIX || (k == 1 && Reaches(g, m) && Distance(g, m) == Length(g, m))
    decreases i
  {
    var k := Known(g, i);
    var m := Walk(g, i, k);
    ChainReaches(g, i, k);
    if m == FINAL_MIX {
      assert k == Length(g, i);
    } else {
      assert k >= 1 by { assert !Settled(g, i, Walk(g, i, 0)); }
    }
  }

  ghost predicate IsExact(g: Graph, i: int)
    requires g.Valid() && 0 <= i < g.Size()
  {
    g.inUse[i] && Reaches(g, i) ==> Distance(g, i) == Length(g, i)
  }

  ghost predicate IsDirect(g: Graph, i: int)
    requires g.Valid() && 0 <= i < g.Size()
  {
    g.inUse[i] && Reaches(g, i) ==> Direct(g, i)
  }

  lemma NextExactWhenDirect(g: Graph, i: int)
    requires g.Valid() && 0 <= i < g.Size() && forall j :: 0 <= j < i ==> IsExact(g, j)
    ensures IsExact(g, i) <==> IsDirect(g, i)
  {
    if g.inUse[i] && Reaches(g, i) {
      var k := Known(g, i);
      var m := Walk(g, i, k);
      ExactWhenDirect(g, i);
      if m != FINAL_MIX {
        ChainReaches(g, i, k);
        assert IsExact(g, m);
        assert k >= 1 by { assert !Settled(g, i, Walk(g, i, 0)); }
      }
    }
  }

  /** Every distance of the pass is exact if and only if every mix it visits is direct. */
  lemma {:induction false} AllExactWhenDirect(g: Graph, n: nat)
    requires g.Valid() && n <= g.Size()
    ensures (forall i :: 0 <= i < n ==> IsExact(g, i)) <==> (forall i :: 0 <= i < n ==> IsDirect(g, i))
  {
    if n > 0 {
      AllExactWhenDirect(g, n - 1);
      if forall j :: 0 <= j < n - 1 ==> IsExact(g, j) { NextExactWhenDirect(g, n - 1); }
    }
  }

  /** 2 -> 3 -> 1 -> 0: mix 2 gets the distance of its destination 3, one less than its hops. */
  lemma SkippedMemo()
    ensures var g := Graph([true, true, true, true], [NO_MIX, 0, 3, 1]);
      && g.Valid() && Reaches(g, 2) && Reaches(g, 3) && Length(g, 2) == 3
      && Distance(g, 2) == Distance(g, 3) == 2 && !Direct(g, 2)
  {
    var g := Graph([true, true, true, true], [NO_MIX, 0, 3, 1]);
    assert Walk(g, 1, 0) == 1 && Walk(g, 1, 1) == 0;
    assert Walk(g, 2, 0) == 2 && Walk(g, 2, 1) == 3 && Walk(g, 2, 2) == 1 && Walk(g, 2, 3) == 0;
    assert Walk(g, 3, 0) == 3 && Walk(g, 3, 1) == 1 && Walk(g, 3, 2) == 0;
    assert Arrives(g, 1, 1) && Arrives(g, 2, 3) && Arrives(g, 3, 2);
    ArrivesOnce(g, 1, 1);
    ArrivesOnce(g, 2, 3);
    ArrivesOnce(g, 3, 2);
    KnownIs(g, 1, 1);
    KnownIs(g, 2, 2);
    KnownIs(g, 3, 1);
  }
}
