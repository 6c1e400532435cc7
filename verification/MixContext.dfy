/** The distance pass, the sort by distance and the buffer layout, updating the mixes in place. */
module MixContext {
  import opened Common
  import opened MixGraph

  /** `order` lists every mix below `n` once. */
  ghost predicate Listing(order: seq<int>, n: nat) {
    && |order| == n
    && (forall p :: 0 <= p < |order| ==> 0 <= order[p] < n)
    && (forall p, q :: 0 <= p < q < |order| ==> order[p] != order[q])
    && (forall i :: 0 <= i < n ==> i in order)
  }

  ghost predicate Descends(keys: seq<int>, order: seq<int>) {
    && (forall p :: 0 <= p < |order| ==> 0 <= order[p] < |keys|)
    && (forall p, q :: 0 <= p < q < |order| ==> keys[order[p]] >= keys[order[q]])
  }

  /** Every mix once, the farthest from the final mix first. */
  ghost predicate RenderOrder(g: Graph, order: seq<int>)
    requires g.Valid()
  {
    && Listing(order, g.Size())
    && forall p, q :: 0 <= p < q < |order| ==> Distance(g, order[p]) >= Distance(g, order[q])
  }

  /** In every such order a direct mix is rendered before the mix it feeds. */
  lemma DirectBeforeDestination(g: Graph, order: seq<int>, p: nat, q: nat)
    requires g.Valid() && RenderOrder(g, order) && p < |order| && q < |order|
    requires var i := order[p];
      && 0 < i && g.inUse[i] && Reaches(g, i)
      && g.dest[i] != NO_MIX && g.inUse[g.dest[i]] && order[q] == g.dest[i] && Direct(g, i)
    ensures p < q
  {
    OrderedExactlyWhen(g, order[p]);
  }

  /** A mix that is not direct is never guaranteed that: its destination is at least as far. */
  lemma IndirectNotBefore(g: Graph, order: seq<int>, p: nat, q: nat)
    requires g.Valid() && RenderOrder(g, order) && p < |order| && q < |order|
    requires var i := order[p];
      && 0 < i && g.inUse[i] && Reaches(g, i)
      && g.dest[i] != NO_MIX && g.inUse[g.dest[i]] && order[q] == g.dest[i] && !Direct(g, i)
    ensures p < q ==> Distance(g, order[p]) == Distance(g, order[q])
  {
    OrderedExactlyWhen(g, order[p]);
  }

  /** The library's sort: some arrangement in descending order.  Nothing more is known of how it
      orders equal keys. */
  method SortDescending(keys: seq<int>) returns (order: seq<int>)
    ensures Listing(order, |keys|) && Descends(keys, order)
  {
    order := [];
    for n := 0 to |keys|
      invariant Listing(order, n) && Descends(keys, order)
    {
      var p := 0;
      while p < |order| && keys[order[p]] >= keys[n]
        invariant 0 <= p <= |order| && forall q :: 0 <= q < p ==> keys[order[q]] >= keys[n]
      {
        p := p + 1;
      }
      ListingInsert(order, n, p);
      order := Inserted(order, p, n);
    }
  }

  function Inserted(s: seq<int>, p: nat, x: int): (r: seq<int>)
    requires p <= |s|
    ensures |r| == |s| + 1
    ensures forall q {:trigger r[q]} :: 0 <= q < |r| ==> r[q] == if q < p then s[q] else if q == p then x else s[q - 1]
  {
    s[..p] + [x] + s[p..]
  }

  lemma ListingInsert(rest: seq<int>, n: nat, p: nat)
    requires Listing(rest, n) && p <= |rest|
    ensures Listing(Inserted(rest, p, n), n + 1)
  {
    forall i | 0 <= i < n + 1 ensures i in Inserted(rest, p, n) { InsertedHolds(rest, n, p, i); }
  }

  lemma InsertedHolds(rest: seq<int>, n: nat, p: nat, i: int)
    requires p <= |rest| && (i == n || i in rest)
    ensures i in Inserted(rest, p, n)
  {
    var order := Inserted(rest, p, n);
    if i == n {
      assert order[p] == i;
    } else {
      var q :| 0 <= q < |rest| && rest[q] == i;
      assert order[if q < p then q else q + 1] == i;
    }
  }

  // ---- Buffer layout --------------------------------------------------------------------------

  /** Buffers of the mixes in use among the first `n` of the order. */
  function BuffersBefore(g: Graph, counts: seq<int>, order: seq<int>, n: nat): int
    requires |counts| == |g.inUse| && n <= |order|
    requires forall p :: 0 <= p < |order| ==> 0 <= order[p] < |counts|
  {
    if n == 0 then 0 else
      BuffersBefore(g, counts, order, n - 1) + if g.inUse[order[n - 1]] then counts[order[n - 1]] else 0
  }

  ghost predicate Idle(g: Graph, order: seq<int>, p: int, q: int)
    requires forall r :: 0 <= r < |order| ==> 0 <= order[r] < |g.inUse|
  {
    forall r :: p <= r < q && 0 <= r < |order| ==> !g.inUse[order[r]]
  }

  /** The first mix in use begins at 0. */
  ghost predicate FirstAt(g: Graph, order: seq<int>, offset: seq<int>, p: int)
    requires |g.inUse| == |offset| && 0 <= p < |order|
    requires forall r :: 0 <= r < |order| ==> 0 <= order[r] < |offset|
  {
    g.inUse[order[p]] && Idle(g, order, 0, p) ==> offset[order[p]] == 0
  }

  /** A mix in use begins where the one in use before it ends. */
  ghost predicate NextAt(g: Graph, counts: seq<int>, order: seq<int>, offset: seq<int>, p: int, q: int)
    requires |counts| == |g.inUse| == |offset| && 0 <= p < q < |order|
    requires forall r :: 0 <= r < |order| ==> 0 <= order[r] < |counts|
  {
    g.inUse[order[p]] && g.inUse[order[q]] && Idle(g, order, p + 1, q) ==>
      offset[order[q]] == offset[order[p]] + counts[order[p]]
  }

  /** The layout, by its offsets alone. */
  ghost predicate LaidOut(g: Graph, counts: seq<int>, order: seq<int>, offset: seq<int>)
    requires |counts| == |g.inUse| == |offset|
    requires forall r :: 0 <= r < |order| ==> 0 <= order[r] < |counts|
  {
    && (forall p :: 0 <= p < |order| ==> FirstAt(g, order, offset, p))
    && (forall p, q :: 0 <= p < q < |order| ==> NextAt(g, counts, order, offset, p, q))
  }

  lemma {:induction false} IdleAdds(g: Graph, counts: seq<int>, order: seq<int>, p: nat, q: nat)
    requires |counts| == |g.inUse| && p <= q <= |order|
    requires forall r :: 0 <= r < |order| ==> 0 <= order[r] < |counts|
    requires Idle(g, order, p, q)
    ensures BuffersBefore(g, counts, order, p) == BuffersBefore(g, counts, order, q)
    decreases q
  {
    if p < q { IdleAdds(g, counts, order, p, q - 1); }
  }

  /** Running totals are such a layout, */
  lemma TotalsLayOut(g: Graph, counts: seq<int>, order: seq<int>, offset: seq<int>)
    requires |counts| == |g.inUse| == |offset|
    requires forall r :: 0 <= r < |order| ==> 0 <= order[r] < |counts|
    requires forall p :: 0 <= p < |order| && g.inUse[order[p]] ==>
      offset[order[p]] == BuffersBefore(g, counts, order, p)
    ensures LaidOut(g, counts, order, offset)
  {
    forall p | 0 <= p < |order| ensures FirstAt(g, order, offset, p) {
      if Idle(g, order, 0, p) { IdleAdds(g, counts, order, 0, p); }
    }
    forall p, q | 0 <= p < q < |order| ensures NextAt(g, counts, order, offset, p, q) {
      if Idle(g, order, p + 1, q) { IdleAdds(g, counts, order, p + 1, q); }
    }
  }

  /** and there is no other. */
  lemma {:induction false} LayoutIsTotals(g: Graph, counts: seq<int>, order: seq<int>, offset: seq<int>, p: nat)
    requires |counts| == |g.inUse| == |offset| && p < |order|
    requires forall r :: 0 <= r < |order| ==> 0 <= order[r] < |counts|
    requires LaidOut(g, counts, order, offset) && g.inUse[order[p]]
    ensures offset[order[p]] == BuffersBefore(g, counts, order, p)
    decreases p
  {
    if Idle(g, order, 0, p) {
      assert FirstAt(g, order, offset, p);
      IdleAdds(g, counts, order, 0, p);
    } else {
      var r := LastInUse(g, order, p);
      LayoutIsTotals(g, counts, order, offset, r);
      assert NextAt(g, counts, order, offset, r, p);
      IdleAdds(g, counts, order, r + 1, p);
    }
  }

  lemma {:induction false} LastInUse(g: Graph, order: seq<int>, p: nat) returns (r: nat)
    requires p <= |order| && (forall q :: 0 <= q < |order| ==> 0 <= order[q] < |g.inUse|) && !Idle(g, order, 0, p)
    ensures r < p && g.inUse[order[r]] && Idle(g, order, r + 1, p)
  {
    if g.inUse[order[p - 1]] { r := p - 1; } else { r := LastInUse(g, order, p - 1); }
  }

  /** All buffers of the mixes in use, added up by mix. */
  function TotalInUse(g: Graph, counts: seq<int>, n: nat): int
    requires n <= |counts| == |g.inUse|
  {
    if n == 0 then 0 else TotalInUse(g, counts, n - 1) + if g.inUse[n - 1] then counts[n - 1] else 0
  }

  lemma {:induction false} BuffersWithout(g: Graph, counts: seq<int>, order: seq<int>, p: nat, n: nat)
    requires |counts| == |g.inUse| && p < |order| && n <= |order|
    requires forall r :: 0 <= r < |order| ==> 0 <= order[r] < |counts|
    ensures var w := if g.inUse[order[p]] then counts[order[p]] else 0;
      var rest := RemoveAt(order, p);
      if n <= p then BuffersBefore(g, counts, rest, n) == BuffersBefore(g, counts, order, n)
      else BuffersBefore(g, counts, rest, n - 1) + w == BuffersBefore(g, counts, order, n)
  {
    if n > 0 { BuffersWithout(g, counts, order, p, n - 1); }
  }

  /** In whatever order they are added up, the total is the same. */
  lemma {:induction false} TotalOfOrder(g: Graph, counts: seq<int>, order: seq<int>, n: nat)
    requires Listing(order, n) && n <= |counts| == |g.inUse|
    ensures BuffersBefore(g, counts, order, n) == TotalInUse(g, counts, n)
    decreases n
  {
    if n > 0 {
      assert n - 1 in order;
      var p :| 0 <= p < |order| && order[p] == n - 1;
      ListingWithout(order, n, p);
      TotalOfOrder(g, counts, RemoveAt(order, p), n - 1);
      BuffersWithout(g, counts, order, p, n);
    }
  }

  lemma ListingWithout(order: seq<int>, n: nat, p: nat)
    requires Listing(order, n) && p < n && order[p] == n - 1
    ensures Listing(RemoveAt(order, p), n - 1)
  {
    var rest := RemoveAt(order, p);
    assert forall q :: 0 <= q < |rest| ==> rest[q] == order[if q < p then q else q + 1];
    forall i | 0 <= i < n - 1 ensures i in rest {
      assert i in order;
      var q :| 0 <= q < |order| && order[q] == i;
      assert rest[if q < p then q else q - 1] == i;
    }
  }

  /** The buffers of mix `i`. */
  ghost predicate Owns(g: Graph, counts: seq<int>, offset: seq<int>, i: int, b: int)
    requires |counts| == |g.inUse| == |offset|
  {
    0 <= i < |counts| && g.inUse[i] && offset[i] <= b < offset[i] + counts[i]
  }

  /** The buffers of the mixes in use fill the places from 0 up to their total number, without gap
      and without overlap. */
  lemma LayoutTiles(g: Graph, counts: seq<int>, order: seq<int>, offset: seq<int>, b: int)
    requires |counts| == |g.inUse| == |offset| && Listing(order, |counts|) && LaidOut(g, counts, order, offset)
    requires forall i :: 0 <= i < |counts| ==> counts[i] >= 0
    ensures 0 <= b < TotalInUse(g, counts, |counts|) <==> exists i :: Owns(g, counts, offset, i, b)
    ensures forall i, j :: Owns(g, counts, offset, i, b) && Owns(g, counts, offset, j, b) ==> i == j
  {
    TotalOfOrder(g, counts, order, |counts|);
    if 0 <= b < TotalInUse(g, counts, |counts|) {
      var p := OwnerOf(g, counts, order, b, |order|);
      LayoutIsTotals(g, counts, order, offset, p);
      assert Owns(g, counts, offset, order[p], b);
    }
    forall i | Owns(g, counts, offset, i, b) ensures 0 <= b < TotalInUse(g, counts, |counts|) {
      var p := PlaceOf(order, i);
      LayoutIsTotals(g, counts, order, offset, p);
      BuffersGrow(g, counts, order, 0, p);
      LayoutDisjoint(g, counts, order, p, |order|);
    }
    forall i, j | Owns(g, counts, offset, i, b) && Owns(g, counts, offset, j, b) ensures i == j {
      OwnedOnce(g, counts, order, offset, b, i, j);
    }
  }

  lemma PlaceOf(order: seq<int>, i: int) returns (p: nat)
    requires i in order
    ensures p < |order| && order[p] == i
  {
    p :| p < |order| && order[p] == i;
  }

  lemma OwnedOnce(g: Graph, counts: seq<int>, order: seq<int>, offset: seq<int>, b: int, i: int, j: int)
    requires |counts| == |g.inUse| == |offset| && Listing(order, |counts|) && LaidOut(g, counts, order, offset)
    requires forall k :: 0 <= k < |counts| ==> counts[k] >= 0
    requires Owns(g, counts, offset, i, b) && Owns(g, counts, offset, j, b)
    ensures i == j
  {
    var p := PlaceOf(order, i);
    var q := PlaceOf(order, j);
    LayoutIsTotals(g, counts, order, offset, p);
    LayoutIsTotals(g, counts, order, offset, q);
    if p < q { LayoutDisjoint(g, counts, order, p, q); }
    if q < p { LayoutDisjoint(g, counts, order, q, p); }
  }

  lemma {:induction false} BuffersGrow(g: Graph, counts: seq<int>, order: seq<int>, p: nat, q: nat)
    requires |counts| == |g.inUse| && p <= q <= |order|
    requires forall r :: 0 <= r < |order| ==> 0 <= order[r] < |counts| && 0 <= counts[order[r]]
    ensures BuffersBefore(g, counts, order, p) <= BuffersBefore(g, counts, order, q)
    decreases q
  {
    if p < q { BuffersGrow(g, counts, order, p, q - 1); }
  }

  lemma {:induction false} OwnerOf(g: Graph, counts: seq<int>, order: seq<int>, b: int, n: nat) returns (p: nat)
    requires |counts| == |g.inUse| && n <= |order|
    requires forall r :: 0 <= r < |order| ==> 0 <= order[r] < |counts|
    requires 0 <= b < BuffersBefore(g, counts, order, n)
    ensures p < n && g.inUse[order[p]]
    ensures BuffersBefore(g, counts, order, p) <= b < BuffersBefore(g, counts, order, p) + counts[order[p]]
  {
    if b < BuffersBefore(g, counts, order, n - 1) { p := OwnerOf(g, counts, order, b, n - 1); } else { p := n - 1; }
  }

  /** The buffers of a mix end where or before those of a later mix begin. */
  lemma {:induction false} LayoutDisjoint(g: Graph, counts: seq<int>, order: seq<int>, p: nat, q: nat)
    requires |counts| == |g.inUse| && p < q <= |order|
    requires forall r :: 0 <= r < |order| ==> 0 <= order[r] < |counts| && 0 <= counts[order[r]]
    ensures BuffersBefore(g, counts, order, p) + (if g.inUse[order[p]] then counts[order[p]] else 0)
         <= BuffersBefore(g, counts, order, q)
    decreases q
  {
    if p + 1 < q { LayoutDisjoint(g, counts, order, p, q - 1); }
  }

  class MixContext {
    var graph: Graph
    var bufferCount: seq<int>
    const distance: array<int>
    const sortedInfo: array<int>
    const bufferOffset: array<int>

    constructor (g: Graph, counts: seq<int>)
      requires g.Valid() && |counts| == g.Size()
      ensures Valid() && graph == g && bufferCount == counts
      ensures fresh(distance) && fresh(sortedInfo) && fresh(bufferOffset)
    {
      graph, bufferCount := g, counts;
      distance := new int[g.Size()](i => 0);
      sortedInfo := new int[g.Size()](i => i);
      bufferOffset := new int[g.Size()](i => 0);
    }

    predicate Valid()
      reads this
    {
      && graph.Valid() && |bufferCount| == graph.Size()
      && distance.Length == sortedInfo.Length == bufferOffset.Length == graph.Size()
      && distance != sortedInfo && distance != bufferOffset && sortedInfo != bufferOffset
    }

    /** Distances of the mixes below `i` are stored, the others are still unset. */
    ghost predicate Stored(i: nat)
      requires Valid()
      reads this, distance
    {
      forall j :: 0 <= j < distance.Length ==> distance[j] == if j < i then Distance(graph, j) else NO_FINAL_MIX
    }

    /** The walk of mix `i`: ends at the final mix, at no mix, at a stored distance, or after as
        many hops as there are mixes. */
    method FollowChain(i: nat) returns (d: int)
      requires Valid() && i < graph.Size() && graph.inUse[i] && Stored(i)
      ensures d == Distance(graph, i)
    {
      var mixId := i;
      d := FINAL_MIX;
      while d < graph.Size()
        invariant 0 <= d <= graph.Size() && mixId == Walk(graph, i, d)
        invariant Unsettled(graph, i, d)
      {
        if mixId == FINAL_MIX {
          HopsCounted(graph, i, d);
          return;
        } else if mixId == NO_MIX {
          NeverArrives(graph, i, d);
          return NO_FINAL_MIX;
        } else {
          var destDistance := distance[mixId];
          if destDistance == NO_FINAL_MIX {
            UnknownGoesOn(graph, i, d);
            mixId := graph.dest[mixId];
          } else {
            KnownEnds(graph, i, d);
            return destDistance + 1;
          }
        }
        d := d + 1;
      }
      TooLong(graph, i, d);
      d := NO_FINAL_MIX;
    }

    method UpdateDistancesFromFinalMix()
      requires Valid()
      modifies distance, sortedInfo
      ensures forall i :: 0 <= i < graph.Size() ==> distance[i] == Distance(graph, i)
      ensures forall i :: 0 <= i < graph.Size() ==> sortedInfo[i] == i
    {
      for i := 0 to graph.Size()
        invariant forall j :: 0 <= j < i ==> distance[j] == NO_FINAL_MIX
      {
        distance[i] := NO_FINAL_MIX;
      }
      for i := 0 to graph.Size()
        invariant Stored(i) && forall j :: 0 <= j < i ==> sortedInfo[j] == j
      {
        sortedInfo[i] := i;
        if graph.inUse[i] {
          distance[i] := FollowChain(i);
        }
      }
    }

    /** The offset of the mix at place `q` once the first `done` places have been laid out. */
    ghost function OffsetAt(order: seq<int>, q: nat, was: seq<int>, done: int): int
      requires Valid() && q < |order| && |was| == graph.Size()
      requires forall p :: 0 <= p < |order| ==> 0 <= order[p] < graph.Size()
      reads this
    {
      if q < done && graph.inUse[order[q]] then BuffersBefore(graph, bufferCount, order, q) else was[order[q]]
    }

    /** Offsets are the running totals of the buffers of the mixes in use, in sorted order. */
    method CalcMixBufferOffset()
      requires Valid()
      requires forall p :: 0 <= p < sortedInfo.Length ==> 0 <= sortedInfo[p] < graph.Size()
      requires forall p, q :: 0 <= p < q < sortedInfo.Length ==> sortedInfo[p] != sortedInfo[q]
      modifies bufferOffset
      ensures forall p :: 0 <= p < sortedInfo.Length ==>
        bufferOffset[sortedInfo[p]] == OffsetAt(sortedInfo[..], p, old(bufferOffset[..]), sortedInfo.Length)
      ensures LaidOut(graph, bufferCount, sortedInfo[..], bufferOffset[..])
      ensures forall p :: 0 <= p < sortedInfo.Length && !graph.inUse[sortedInfo[p]] ==>
        bufferOffset[sortedInfo[p]] == old(bufferOffset[sortedInfo[p]])
    {
      var offset := 0;
      ghost var order := sortedInfo[..];
      for p := 0 to graph.Size()
        invariant offset == BuffersBefore(graph, bufferCount, order, p) && sortedInfo[..] == order
        invariant forall q :: 0 <= q < |order| ==>
          bufferOffset[order[q]] == OffsetAt(order, q, old(bufferOffset[..]), p)
      {
        var info := sortedInfo[p];
        if graph.inUse[info] {
          bufferOffset[info] := offset;
          offset := offset + bufferCount[info];
        }
      }
      TotalsLayOut(graph, bufferCount, order, bufferOffset[..]);
    }

    /** Distances, order and layout. */
    method SortInfo()
      requires Valid()
      modifies distance, sortedInfo, bufferOffset
      ensures forall i :: 0 <= i < graph.Size() ==> distance[i] == Distance(graph, i)
      ensures RenderOrder(graph, sortedInfo[..])
      ensures forall p :: 0 <= p < sortedInfo.Length && graph.inUse[sortedInfo[p]] ==>
        bufferOffset[sortedInfo[p]] == BuffersBefore(graph, bufferCount, sortedInfo[..], p)
      ensures LaidOut(graph, bufferCount, sortedInfo[..], bufferOffset[..])
    {
      UpdateDistancesFromFinalMix();
      var order := SortDescending(distance[..]);
      Arrange(order);
      CalcMixBufferOffset();
    }

    method Arrange(order: seq<int>)
      requires Valid() && |order| == sortedInfo.Length
      modifies sortedInfo
      ensures sortedInfo[..] == order
    {
      for p := 0 to |order|
        invariant forall q :: 0 <= q < p ==> sortedInfo[q] == order[q]
      {
        sortedInfo[p] := order[p];
      }
    }
  }

  // ---- The walk ------------------------------------------------------------------------------------

  /** The first `k` mixes of the chain neither are the final mix nor have a stored distance. */
  ghost predicate Unsettled(g: Graph, i: int, k: nat)
    requires g.Valid() && 0 <= i < g.Size()
  {
    && (forall j :: 0 <= j < k ==> Walk(g, i, j) != FINAL_MIX)
    && (Reaches(g, i) ==> forall j :: 0 <= j < k ==> !Settled(g, i, Walk(g, i, j)))
  }

  lemma HopsCounted(g: Graph, i: int, k: nat)
    requires g.Valid() && 0 <= i < g.Size() && g.inUse[i] && Unsettled(g, i, k) && Walk(g, i, k) == FINAL_MIX
    ensures Distance(g, i) == k
  {
    assert Reaches(g, i);
    KnownIs(g, i, k);
  }

  lemma NeverArrives(g: Graph, i: int, k: nat)
    requires g.Valid() && 0 <= i < g.Size() && Unsettled(g, i, k) && Walk(g, i, k) == NO_MIX
    ensures Distance(g, i) == NO_FINAL_MIX
  {
    if Reaches(g, i) {
      var n := Length(g, i);
      if n < k {} else { WalkStays(g, i, k, n); }
    }
  }

  /** A mix on the chain without a stored distance is not settled, if the chain arrives. */
  lemma UnknownGoesOn(g: Graph, i: int, k: nat)
    requires g.Valid() && 0 <= i < g.Size() && Unsettled(g, i, k)
    requires var m := Walk(g, i, k);
      m != FINAL_MIX && m != NO_MIX && (m < i ==> Distance(g, m) == NO_FINAL_MIX)
    ensures Unsettled(g, i, k + 1) && Walk(g, i, k + 1) == g.dest[Walk(g, i, k)]
  {
    ChainReaches(g, i, k);
  }

  lemma KnownEnds(g: Graph, i: int, k: nat)
    requires g.Valid() && 0 <= i < g.Size() && g.inUse[i] && Unsettled(g, i, k)
    requires var m := Walk(g, i, k);
      m != FINAL_MIX && m != NO_MIX && m < i && Distance(g, m) != NO_FINAL_MIX
    ensures Distance(g, i) == Distance(g, Walk(g, i, k)) + 1
  {
    ChainReaches(g, i, k);
    KnownIs(g, i, k);
  }

  lemma TooLong(g: Graph, i: int, k: nat)
    requires g.Valid() && 0 <= i < g.Size() && Unsettled(g, i, k) && k >= g.Size()
    ensures Distance(g, i) == NO_FINAL_MIX
  {
    if Reaches(g, i) { LengthBound(g, i); }
  }
}
