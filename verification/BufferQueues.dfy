/**
 * The queues of the buffer cache (cpp/linux-0.11/fs/buffer.c) as values: doubly linked hash chains and
 * one circular free list, threaded through fields of the buffer heads. Buffers are numbers from 0,
 * NULL is -1.
 */
module BufferQueues {
  import opened Sequences

  const NULL := -1

  type Link = seq<int>

  function Before(xs: seq<int>, i: int): int { if 0 < i <= |xs| then xs[i - 1] else NULL }

  function Behind(xs: seq<int>, i: int): int { if -1 <= i < |xs| - 1 then xs[i + 1] else NULL }

  /** xs is a list from head, linked both ways. */
  ghost predicate IsChain(next: Link, prev: Link, head: int, xs: seq<int>) {
    && head == Behind(xs, -1) && Distinct(xs) && |prev| == |next|
    && (forall i :: 0 <= i < |xs| ==>
      0 <= xs[i] < |next| && next[xs[i]] == Behind(xs, i) && prev[xs[i]] == Before(xs, i))
  }

  function Set(l: Link, k: int, v: int): (r: Link)
    ensures |r| == |l|
  {
    if 0 <= k < |l| then l[k := v] else l
  }

  lemma ChainFrame(next: Link, prev: Link, next': Link, prev': Link, head: int, xs: seq<int>)
    requires IsChain(next, prev, head, xs) && |next'| == |next| && |prev'| == |prev|
    requires forall x :: x in xs && 0 <= x < |next| ==> next'[x] == next[x] && prev'[x] == prev[x]
    ensures IsChain(next', prev', head, xs)
  {
    forall i | 0 <= i < |xs| ensures next'[xs[i]] == Behind(xs, i) && prev'[xs[i]] == Before(xs, i) {
      assert xs[i] in xs;
    }
  }

  /** The links of a list element are elements of that list or null. */
  lemma ChainInside(next: Link, prev: Link, head: int, xs: seq<int>, i: int)
    requires IsChain(next, prev, head, xs) && 0 <= i < |xs|
    ensures next[xs[i]] == NULL || next[xs[i]] in xs
    ensures prev[xs[i]] == NULL || prev[xs[i]] in xs
    ensures head == xs[i] <==> i == 0
  {}

  lemma Differ(xs: seq<int>, i: int, j: int)
    requires Distinct(xs) && 0 <= i < |xs| && 0 <= j < |xs| && i != j
    ensures xs[i] != xs[j]
  {}

  lemma ChainAt(next: Link, prev: Link, head: int, xs: seq<int>, i: int)
    requires IsChain(next, prev, head, xs) && 0 <= i < |xs|
    ensures 0 <= xs[i] < |next| == |prev| && next[xs[i]] == Behind(xs, i) && prev[xs[i]] == Before(xs, i)
      && Distinct(xs)
  {}

  lemma WithoutAt(xs: seq<int>, i: int, j: int)
    requires 0 <= i < |xs| && -1 <= j <= |xs| - 1
    ensures |Without(xs, i)| == |xs| - 1
    ensures 0 <= j < |xs| - 1 ==> Without(xs, i)[j] == xs[if j < i then j else j + 1]
  {}

  lemma UnlinkAt(next: Link, prev: Link, head: int, xs: seq<int>, i: int, j: int)
    requires IsChain(next, prev, head, xs) && 0 <= i < |xs| && 0 <= j < |xs| - 1
    ensures var b, ys := xs[i], Without(xs, i);
      && |ys| == |xs| - 1 && 0 <= b < |next| == |prev| && 0 <= ys[j] < |next|
      && Set(next, prev[b], next[b])[ys[j]] == Behind(ys, j) && Set(prev, next[b], prev[b])[ys[j]] == Before(ys, j)
  {
    hide IsChain, Distinct, Without;
    var b, ys, k := xs[i], Without(xs, i), if j < i then j else j + 1;
    ChainAt(next, prev, head, xs, i);
    ChainAt(next, prev, head, xs, k);
    WithoutAt(xs, i, j - 1);
    WithoutAt(xs, i, j);
    WithoutAt(xs, i, j + 1);
    if 0 < i && k != i - 1 { Differ(xs, i - 1, k); }
    if i + 1 < |xs| && k != i + 1 { Differ(xs, i + 1, k); }
  }

  lemma ChainUnlink(next: Link, prev: Link, head: int, xs: seq<int>, i: int)
    requires IsChain(next, prev, head, xs) && 0 <= i < |xs|
    ensures var b := xs[i];
      IsChain(Set(next, prev[b], next[b]), Set(prev, next[b], prev[b]), if head == b then next[b]
        else head, Without(xs, i))
  {
    hide Set, Distinct;
    WithoutHas(xs, i);
    ChainInside(next, prev, head, xs, i);
    var b, ys := xs[i], Without(xs, i);
    var next', prev' := Set(next, prev[b], next[b]), Set(prev, next[b], prev[b]);
    forall j | 0 <= j < |ys|
      ensures 0 <= ys[j] < |next'| && next'[ys[j]] == Behind(ys, j) && prev'[ys[j]] == Before(ys, j)
    {
      UnlinkAt(next, prev, head, xs, i, j);
    }
  }

  lemma ChainPush(next: Link, prev: Link, head: int, xs: seq<int>, b: int)
    requires IsChain(next, prev, head, xs) && 0 <= b < |next| && b !in xs
    ensures IsChain(next[b := head], Set(prev[b := NULL], head, b), b, [b] + xs)
  {
    var ys := [b] + xs;
    var next', prev' := next[b := head], Set(prev[b := NULL], head, b);
    forall j | 0 <= j < |ys|
      ensures 0 <= ys[j] < |next| && next'[ys[j]] == Behind(ys, j) && prev'[ys[j]] == Before(ys, j)
    {
      if j > 0 {
        assert ys[j] == xs[j - 1] && xs[j - 1] in xs;
        if j > 1 { assert xs[j - 1] != xs[0]; }
      }
    }
  }

  // ---------------------------------------------------------------------------------------------
  // The circular list
  // ---------------------------------------------------------------------------------------------

  function Wrap(xs: seq<int>, i: int): int
    requires |xs| > 0
  {
    if i < 0 then xs[|xs| - 1] else if i >= |xs| then xs[0] else xs[i]
  }

  ghost predicate IsRing(next: Link, prev: Link, head: int, xs: seq<int>) {
    && |xs| > 0 && head == xs[0] && Distinct(xs) && |prev| == |next|
    && (forall i :: 0 <= i < |xs| ==>
      0 <= xs[i] < |next| && next[xs[i]] == Wrap(xs, i + 1) && prev[xs[i]] == Wrap(xs, i - 1))
  }

  /** Buffer b is out of the ring xs; a ring of b alone is left as it is. */
  ghost predicate IsOut(next: Link, prev: Link, head: int, xs: seq<int>, b: int) {
    && 0 <= b < |next| == |prev|
    && if xs == [] then head == b && next[b] == b && prev[b] == b else IsRing(next, prev, head, xs) && b !in xs
  }

  lemma RingAt(next: Link, prev: Link, head: int, xs: seq<int>, i: int)
    requires IsRing(next, prev, head, xs) && 0 <= i < |xs|
    ensures 0 <= xs[i] < |next| == |prev| && next[xs[i]] == Wrap(xs, i + 1) && prev[xs[i]] == Wrap(xs, i - 1)
      && Distinct(xs) && head == xs[0]
  {}

  lemma RingUnlinkAt(next: Link, prev: Link, head: int, xs: seq<int>, i: int, j: int)
    requires IsRing(next, prev, head, xs) && 0 <= i < |xs| && 0 <= j < |xs| - 1
    ensures var b, ys := xs[i], Without(xs, i);
      && |ys| == |xs| - 1 && 0 <= b < |next| == |prev| && 0 <= ys[j] < |next|
      && Set(next, prev[b], next[b])[ys[j]] == Wrap(ys, j + 1) && Set(prev, next[b], prev[b])[ys[j]] == Wrap(ys, j - 1)
  {
    hide IsRing, Distinct, Without;
    var b, ys, n := xs[i], Without(xs, i), |xs|;
    var k, p, q := if j < i then j else j + 1, if i == 0 then n - 1 else i - 1, if i == n - 1 then 0 else i + 1;
    RingAt(next, prev, head, xs, i);
    RingAt(next, prev, head, xs, k);
    RingAt(next, prev, head, xs, p);
    RingAt(next, prev, head, xs, q);
    WithoutAt(xs, i, 0);
    WithoutAt(xs, i, n - 2);
    WithoutAt(xs, i, j - 1);
    WithoutAt(xs, i, j);
    WithoutAt(xs, i, j + 1);
    if k != p { Differ(xs, p, k); }
    if k != q { Differ(xs, q, k); }
  }

  lemma RingUnlinkMany(next: Link, prev: Link, head: int, xs: seq<int>, i: int)
    requires IsRing(next, prev, head, xs) && 0 <= i < |xs| && |xs| > 1
    ensures 0 <= xs[i] < |next| == |prev| && |Without(xs, i)| == |xs| - 1
    ensures var b := xs[i];
      IsRing(Set(next, prev[b], next[b]), Set(prev, next[b], prev[b]), if head == b then next[b]
        else head, Without(xs, i))
  {
    hide Set, Distinct, Without;
    RingAt(next, prev, head, xs, i);
    var b, ys := xs[i], Without(xs, i);
    WithoutHas(xs, i);
    WithoutAt(xs, i, 0);
    var next', prev' := Set(next, prev[b], next[b]), Set(prev, next[b], prev[b]);
    forall j | 0 <= j < |ys|
      ensures 0 <= ys[j] < |next'| && next'[ys[j]] == Wrap(ys, j + 1) && prev'[ys[j]] == Wrap(ys, j - 1)
    {
      RingUnlinkAt(next, prev, head, xs, i, j);
    }
    if i > 0 { HeadDiffers(xs, i); }
  }

  lemma RingUnlink(next: Link, prev: Link, head: int, xs: seq<int>, i: int)
    requires IsRing(next, prev, head, xs) && 0 <= i < |xs|
    ensures 0 <= xs[i] < |next| == |prev|
    ensures var b := xs[i];
      IsOut(Set(next, prev[b], next[b]), Set(prev, next[b], prev[b]), if head == b then next[b]
        else head, Without(xs, i), b)
  {
    hide IsRing, Distinct;
    RingAt(next, prev, head, xs, i);
    if |xs| > 1 {
      WithoutHas(xs, i);
      RingUnlinkMany(next, prev, head, xs, i);
    }
  }

  lemma HeadDiffers(xs: seq<int>, i: int)
    requires Distinct(xs) && 0 < i < |xs|
    ensures xs[0] != xs[i]
  {}

  lemma RingPushAt(next: Link, prev: Link, head: int, xs: seq<int>, b: int, j: int)
    requires IsRing(next, prev, head, xs) && xs != [] && 0 <= b < |next| && b !in xs && 0 <= j <= |xs|
    ensures 0 <= head < |next| == |prev| && 0 <= prev[head] < |next|
    ensures var next1, prev1, ys := next[b := head], prev[b := prev[head]], xs + [b];
      && 0 <= ys[j] < |next| && Set(next1, prev1[head], b)[ys[j]] == Wrap(ys, j + 1)
        && Set(prev1, head, b)[ys[j]] == Wrap(ys, j - 1)
  {
    hide IsRing, Distinct;
    var n := |xs|;
    RingAt(next, prev, head, xs, 0);
    RingAt(next, prev, head, xs, n - 1);
    assert xs[0] in xs && xs[n - 1] in xs;
    if j < n {
      RingAt(next, prev, head, xs, j);
      assert xs[j] in xs;
      if j > 0 { Differ(xs, 0, j); }
      if j < n - 1 { Differ(xs, j, n - 1); }
    }
  }

  lemma RingPush(next: Link, prev: Link, head: int, xs: seq<int>, b: int)
    requires IsOut(next, prev, head, xs, b)
    ensures 0 <= head < |next| == |prev| && 0 <= prev[head] < |next|
    ensures var next1, prev1 := next[b := head], prev[b := prev[head]];
      IsRing(Set(next1, prev1[head], b), Set(prev1, head, b), if xs == [] then b else head, xs + [b])
  {
    hide IsRing;
    if xs != [] {
      RingPushMany(next, prev, head, xs, b);
    } else {
      RingOfOne(Set(next[b := head], b, b), Set(prev[b := prev[head]], b, b), b);
      assert [] + [b] == [b];
    }
  }

  lemma RingOfOne(next: Link, prev: Link, b: int)
    requires 0 <= b < |next| == |prev| && next[b] == b && prev[b] == b
    ensures IsRing(next, prev, b, [b])
  {}

  lemma RingPushMany(next: Link, prev: Link, head: int, xs: seq<int>, b: int)
    requires IsRing(next, prev, head, xs) && xs != [] && 0 <= b < |next| && b !in xs
    ensures 0 <= head < |next| == |prev| && 0 <= prev[head] < |next|
    ensures var next1, prev1 := next[b := head], prev[b := prev[head]];
      IsRing(Set(next1, prev1[head], b), Set(prev1, head, b), head, xs + [b])
  {
    hide Set, Distinct, Wrap;
    RingPushAt(next, prev, head, xs, b, 0);
    DistinctMore(xs, b);
    var ys := xs + [b];
    var next1, prev1 := next[b := head], prev[b := prev[head]];
    var next', prev' := Set(next1, prev1[head], b), Set(prev1, head, b);
    forall j | 0 <= j < |ys|
      ensures 0 <= ys[j] < |next'| && next'[ys[j]] == Wrap(ys, j + 1) && prev'[ys[j]] == Wrap(ys, j - 1)
    {
      RingPushAt(next, prev, head, xs, b, j);
    }
  }

  lemma DistinctMore(xs: seq<int>, b: int)
    requires Distinct(xs) && b !in xs
    ensures Distinct(xs + [b])
  {}
}
