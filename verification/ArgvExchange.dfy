/** The block exchange by which getopt moves options in front of non-options. */
module ArgvExchange {

  /** `s` with the adjacent blocks [lo, mid) and [mid, hi) in the other order. */
  function Exchanged<T>(s: seq<T>, lo: int, mid: int, hi: int): (r: seq<T>)
    requires 0 <= lo <= mid <= hi <= |s|
    ensures |r| == |s|
  {
    s[..lo] + s[mid..hi] + s[lo..mid] + s[hi..]
  }

  /** Where position `k` finds its element when the first `len` places of two stretches are swapped. */
  function Partner(k: int, p: int, q: int, len: int): int {
    if p <= k < p + len then k + q - p else if q <= k < q + len then k + p - q else k
  }

  /** `t` is `s` with two equally long, disjoint stretches in each other's place. */
  ghost predicate Swapped<T>(s: seq<T>, t: seq<T>, p: int, q: int, len: int) {
    && 0 <= p && 0 <= len && p + len <= q && q + len <= |s| && |t| == |s|
    && forall k {:trigger Partner(k, p, q, len)} :: 0 <= k < |t| ==> t[k] == s[Partner(k, p, q, len)]
  }

  /** Swaps two stretches of the array element by element. */
  method SwapStretches<T>(a: array<T>, p: int, q: int, len: int)
    requires 0 <= p && 0 <= len && p + len <= q && q + len <= a.Length
    modifies a
    ensures Swapped(old(a[..]), a[..], p, q, len)
  {
    var i := 0;
    while i < len
      invariant 0 <= i <= len
      invariant forall k :: 0 <= k < a.Length ==> a[k] == old(a[..])[Partner(k, p, q, i)]
    {
      var tem := a[p + i];
      a[p + i] := a[q + i];
      a[q + i] := tem;
      i := i + 1;
    }
  }

  /** Where the element at `k` belongs when [bottom, middle) and [middle, top) change places. */
  function Destination(k: int, bottom: int, middle: int, top: int): int {
    if bottom <= k < middle then k + (top - middle)
    else if middle <= k < top then k - (middle - bottom)
    else k
  }

  /** What is left to exchange between two rounds: [bottom, middle) with [middle, top). */
  ghost predicate Pending<T>(now: seq<T>, goal: seq<T>, bottom: int, middle: int, top: int) {
    && |now| == |goal| && 0 <= bottom <= middle <= top <= |now|
    && forall k {:trigger Destination(k, bottom, middle, top)} :: 0 <= k < |now| ==>
         now[k] == goal[Destination(k, bottom, middle, top)]
  }

  method Exchange<T>(a: array<T>, first: int, last: int, optind: int)
    requires 0 <= first <= last <= optind <= a.Length
    modifies a
    ensures a[..] == Exchanged(old(a[..]), first, last, optind)
  {
    ghost var goal := Exchanged(a[..], first, last, optind);
    ExchangeBlocks(a, goal, first, last, optind);
  }

  method ExchangeBlocks<T>(a: array<T>, ghost goal: seq<T>, first: int, last: int, optind: int)
    requires Pending(a[..], goal, first, last, optind)
    modifies a
    ensures a[..] == goal
  {
    var bottom, middle, top := first, last, optind;
    while top > middle && middle > bottom
      invariant Pending(a[..], goal, bottom, middle, top)
      decreases top - bottom
    {
      bottom, top := ExchangeRound(a, goal, bottom, middle, top);
    }
    assert forall k :: 0 <= k < a.Length ==> a[k] == goal[Destination(k, bottom, middle, top)];
  }

  /** The shorter block goes to its place; the rest of the longer one is still to be exchanged. */
  method ExchangeRound<T>(a: array<T>, ghost goal: seq<T>, bottom: int, middle: int, top: int)
      returns (nextBottom: int, nextTop: int)
    requires Pending(a[..], goal, bottom, middle, top) && bottom < middle < top
    modifies a
    ensures Pending(a[..], goal, nextBottom, middle, nextTop) && bottom <= nextBottom <= nextTop <= top
    ensures nextTop - nextBottom < top - bottom
  {
    nextBottom, nextTop := bottom, top;
    ghost var now := a[..];
    if top - middle > middle - bottom {
      var len := middle - bottom;
      SwapStretches(a, bottom, top - len, len);
      nextTop := top - len;
      Replaced(now, a[..], goal, bottom, middle, top, bottom, top - len, len, nextBottom, nextTop);
    } else {
      var len := top - middle;
      SwapStretches(a, bottom, middle, len);
      nextBottom := bottom + len;
      Replaced(now, a[..], goal, bottom, middle, top, bottom, middle, len, nextBottom, nextTop);
    }
  }

  /** A swap after which every element has the same destination as before. */
  lemma Replaced<T>(now: seq<T>, next: seq<T>, goal: seq<T>, bottom: int, middle: int, top: int,
                    p: int, q: int, len: int, nextBottom: int, nextTop: int)
    requires Pending(now, goal, bottom, middle, top) && Swapped(now, next, p, q, len)
    requires 0 <= nextBottom <= middle <= nextTop <= |now|
    requires forall k :: 0 <= k < |now| ==>
      Destination(k, nextBottom, middle, nextTop) == Destination(Partner(k, p, q, len), bottom, middle, top)
    ensures Pending(next, goal, nextBottom, middle, nextTop)
  {
  }

  /** The exchange undoes itself, and is a permutation. */
  lemma ExchangeInvolution<T>(s: seq<T>, lo: int, mid: int, hi: int)
    requires 0 <= lo <= mid <= hi <= |s|
    ensures Exchanged(Exchanged(s, lo, mid, hi), lo, lo + hi - mid, hi) == s
    ensures multiset(Exchanged(s, lo, mid, hi)) == multiset(s)
  {
    var a, b, c, d := s[..lo], s[lo..mid], s[mid..hi], s[hi..];
    assert s == a + b + c + d;
    ExchangedParts(a, b, c, d, s);
    ExchangedParts(a, c, b, d, a + c + b + d);
  }

  lemma ExchangedParts<T>(a: seq<T>, b: seq<T>, c: seq<T>, d: seq<T>, s: seq<T>)
    requires s == a + b + c + d
    ensures Exchanged(s, |a|, |a| + |b|, |a| + |b| + |c|) == a + c + b + d
  {
    assert s[..|a|] == a && s[|a|..|a| + |b|] == b;
    assert s[|a| + |b|..|a| + |b| + |c|] == c && s[|a| + |b| + |c|..] == d;
  }
}
