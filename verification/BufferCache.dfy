/**
 * The buffer cache (cpp/linux-0.11/fs/buffer.c) under tasks that interleave where they sleep. A step is
 * what a task does from one sleep point to the next; locks, dirty bits and the like may change between
 * any two steps. The write through the next buffer of a chain is guarded against an empty chain.
 */
module BufferCache {
  import opened Sequences
  import opened BufferQueues

  type Hash = (int, int) -> nat

  function Slot(h: Hash, n: nat, d: int, k: int): (s: nat)
    requires n > 0
    ensures s < n
  {
    h(d, k) % n
  }

  ghost predicate Belongs(h: Hash, n: nat, dev: seq<int>, blk: seq<int>, s: int, b: int) {
    0 <= b < |dev| == |blk| && n > 0 && dev[b] != 0 && Slot(h, n, dev[b], blk[b]) == s
  }

  /** Every buffer with a device is on its own chain, `but` on none. */
  ghost predicate ChainsOk(h: Hash, next: Link, prev: Link, table: seq<int>, chains: seq<seq<int>>, dev: seq<int>,
                           blk: seq<int>, but: int) {
    && |table| == |chains| > 0 && |next| == |prev| == |dev| == |blk|
    && (forall s :: 0 <= s < |table| ==> IsChain(next, prev, table[s], chains[s]))
    && (forall s, b :: 0 <= s < |table| ==> (b in chains[s] <==> b != but && Belongs(h, |table|, dev, blk, s, b)))
    && (forall b :: 0 <= b < |dev| && b != but && dev[b] == 0 ==> next[b] == NULL && prev[b] == NULL)
  }

  /** The free list is one ring of all buffers. */
  ghost predicate FreeOk(fnext: Link, fprev: Link, freeList: int, ring: seq<int>, n: nat) {
    |fnext| == n && IsRing(fnext, fprev, freeList, ring) && forall b :: b in ring <==> 0 <= b < n
  }

  ghost predicate Unique(dev: seq<int>, blk: seq<int>) {
    |dev| == |blk| && forall a, b :: 0 <= a < |dev| && 0 <= b < |dev| && dev[a] == dev[b] != 0 && blk[a] == blk[b] ==>
      a == b
  }

  // ---------------------------------------------------------------------------------------------
  // remove_from_queues and insert_into_queues on the hash chains
  // ---------------------------------------------------------------------------------------------

  ghost function IndexOf(xs: seq<int>, b: int): (i: int)
    requires b in xs
    ensures 0 <= i < |xs| && xs[i] == b
  {
    var i :| 0 <= i < |xs| && xs[i] == b;
    i
  }

  ghost function ChainsWithout(h: Hash, chains: seq<seq<int>>, d: int, k: int, b: int): seq<seq<int>>
    requires |chains| > 0
  {
    var s := Slot(h, |chains|, d, k);
    if b in chains[s] then chains[s := Without(chains[s], IndexOf(chains[s], b))] else chains
  }

  function TableWithout(h: Hash, table: seq<int>, d: int, k: int, b: int, after: int): (r: seq<int>)
    requires |table| > 0
    ensures |r| == |table|
  {
    var s := Slot(h, |table|, d, k);
    if table[s] == b then table[s := after] else table
  }

  lemma RemoveOk(h: Hash, next: Link, prev: Link, table: seq<int>, chains: seq<seq<int>>, dev: seq<int>, blk: seq<int>,
                 b: int)
    requires ChainsOk(h, next, prev, table, chains, dev, blk, NULL) && 0 <= b < |dev|
    ensures ChainsOk(h, Set(next, prev[b], next[b]), Set(prev, next[b], prev[b]),
      TableWithout(h, table, dev[b], blk[b], b, next[b]),
                     ChainsWithout(h, chains, dev[b], blk[b], b), dev, blk, b)
  {
    hide IsChain, Set, Without, Slot;
    var s := Slot(h, |table|, dev[b], blk[b]);
    var next', prev' := Set(next, prev[b], next[b]), Set(prev, next[b], prev[b]);
    var table', chains' := TableWithout(h, table, dev[b], blk[b], b, next[b]),
      ChainsWithout(h, chains, dev[b], blk[b], b);
    if dev[b] != 0 {
      var xs := chains[s];
      assert b in xs;
      var i := IndexOf(xs, b);
      ChainInside(next, prev, table[s], xs, i);
      ChainDistinct(next, prev, table[s], xs);
      WithoutHas(xs, i);
      ChainUnlink(next, prev, table[s], xs, i);
      forall t | 0 <= t < |table| && t != s ensures IsChain(next', prev', table[t], chains[t]) {
        forall x | x in chains[t] && 0 <= x < |next| ensures next'[x] == next[x] && prev'[x] == prev[x] {
          SetOther(next, prev[b], next[b], x);
          SetOther(prev, next[b], prev[b], x);
        }
        ChainFrame(next, prev, next', prev', table[t], chains[t]);
      }
      forall x | 0 <= x < |dev| && x != b && dev[x] == 0 ensures next'[x] == NULL && prev'[x] == NULL {
        SetOther(next, prev[b], next[b], x);
        SetOther(prev, next[b], prev[b], x);
      }
    } else {
      SetNone(next, next[b]);
      SetNone(prev, prev[b]);
      HeadInside(next, prev, table[s], chains[s]);
    }
  }

  lemma ChainDistinct(next: Link, prev: Link, head: int, xs: seq<int>)
    requires IsChain(next, prev, head, xs)
    ensures Distinct(xs)
  {}

  lemma HeadInside(next: Link, prev: Link, head: int, xs: seq<int>)
    requires IsChain(next, prev, head, xs)
    ensures head == NULL || head in xs
  {}

  lemma SetOther(l: Link, k: int, v: int, x: int)
    requires 0 <= x < |l| && x != k
    ensures Set(l, k, v)[x] == l[x]
  {}

  lemma SetNone(l: Link, v: int)
    ensures Set(l, NULL, v) == l
  {}

  /** insert_into_queues: a buffer with a device goes to the front of its chain. */
  lemma InsertOk(h: Hash, next: Link, prev: Link, table: seq<int>, chains: seq<seq<int>>, dev: seq<int>, blk: seq<int>,
                 b: int)
    requires ChainsOk(h, next, prev, table, chains, dev, blk, b) && 0 <= b < |dev|
    ensures var s := Slot(h, |table|, dev[b], blk[b]);
      if dev[b] == 0 then ChainsOk(h, next[b := NULL], prev[b := NULL], table, chains, dev, blk, NULL)
      else ChainsOk(h, next[b := table[s]], Set(prev[b := NULL], table[s], b), table[s := b],
        chains[s := [b] + chains[s]], dev, blk, NULL)
  {
    hide IsChain, Set, Slot;
    var s := Slot(h, |table|, dev[b], blk[b]);
    if dev[b] == 0 {
      forall t | 0 <= t < |table| ensures IsChain(next[b := NULL], prev[b := NULL], table[t], chains[t]) {
        ChainFrame(next, prev, next[b := NULL], prev[b := NULL], table[t], chains[t]);
      }
    } else {
      var next', prev' := next[b := table[s]], Set(prev[b := NULL], table[s], b);
      ChainPush(next, prev, table[s], chains[s], b);
      HeadInside(next, prev, table[s], chains[s]);
      forall x | 0 <= x < |dev| && x != b && x != table[s] ensures next'[x] == next[x] && prev'[x] == prev[x] {
        SetOther(prev[b := NULL], table[s], b, x);
      }
      forall t | 0 <= t < |table| && t != s ensures IsChain(next', prev', table[t], chains[t]) {
        ChainFrame(next, prev, next', prev', table[t], chains[t]);
      }
      var table', chains' := table[s := b], chains[s := [b] + chains[s]];
      forall t, x | 0 <= t < |table'|
        ensures x in chains'[t] <==> x != NULL && Belongs(h, |table'|, dev, blk, t, x)
      {
        assert x in chains'[t] <==> x in chains[t] || (t == s && x == b);
      }
    }
  }

  lemma ForgetIdentity(h: Hash, next: Link, prev: Link, table: seq<int>, chains: seq<seq<int>>, dev: seq<int>,
                       blk: seq<int>, b: int, d: int, k: int)
    requires ChainsOk(h, next, prev, table, chains, dev, blk, b) && 0 <= b < |dev|
    ensures ChainsOk(h, next, prev, table, chains, dev[b := d], blk[b := k], b)
  {
    hide IsChain, Slot;
    var dev', blk' := dev[b := d], blk[b := k];
    forall s, x | 0 <= s < |table|
      ensures x in chains[s] <==> x != b && Belongs(h, |table|, dev', blk', s, x)
    {
      if 0 <= x < |dev| && x != b { assert dev'[x] == dev[x] && blk'[x] == blk[x]; }
    }
  }

  // ---------------------------------------------------------------------------------------------
  // The cache and its tasks
  // ---------------------------------------------------------------------------------------------

  /** Where a task is: in none of the functions, or asleep in one of them. */
  datatype Pc =
    | Idle
    | HashWait(d: int, k: int, b: int)    // get_hash_table: for the buffer it found and counted
    | NeedBuffer(d: int, k: int)          // getblk: for any buffer
    | BufWait(d: int, k: int, b: int)     // getblk: for the buffer it chose
    | SyncWait(d: int, k: int, b: int)    // getblk: while that buffer is written out
    | RelWait(b: int)                     // brelse

  predicate Is(dev: seq<int>, blk: seq<int>, b: int, d: int, k: int) {
    0 <= b < |dev| == |blk| && dev[b] == d && blk[b] == k && d != 0
  }

  /** b_count is the number of times tasks hold a buffer. */
  ghost predicate CountsOk(count: seq<int>, pins: seq<multiset<nat>>, n: nat) {
    |count| == |pins| == n && forall b :: 0 <= b < n ==> count[b] == |pins[b]|
  }

  ghost predicate PcOk(p: Pc, t: nat, pins: seq<multiset<nat>>, dev: seq<int>, blk: seq<int>) {
    match p
    case HashWait(d, k, b) => Is(dev, blk, b, d, k) && b < |pins| && t in pins[b]
    case BufWait(d, k, b) => 0 <= b < |dev|
    case SyncWait(d, k, b) => 0 <= b < |dev|
    case RelWait(b) => 0 <= b < |pins| && t in pins[b]
    case _ => true
  }

  ghost predicate PcsOk(pc: map<nat, Pc>, pins: seq<multiset<nat>>, dev: seq<int>, blk: seq<int>) {
    forall t :: t in pc ==> PcOk(pc[t], t, pins, dev, blk)
  }

  /** Buffers with a positive count keep their identity. */
  ghost predicate SameIdentity(count: seq<int>, dev: seq<int>, blk: seq<int>, dev': seq<int>, blk': seq<int>) {
    && |count| == |dev| == |blk| == |dev'| == |blk'|
    && forall b :: 0 <= b < |dev| && count[b] > 0 ==> dev'[b] == dev[b] && blk'[b] == blk[b]
  }

  /** Only task t holds more or fewer buffers than before. */
  ghost predicate OthersHold(pins: seq<multiset<nat>>, pins': seq<multiset<nat>>, t: nat) {
    |pins| == |pins'| && forall b, u :: 0 <= b < |pins| && u != t ==> pins'[b][u] == pins[b][u]
  }

  function Badness(dirt: bool, lock: bool): nat { (if dirt then 2 else 0) + if lock then 1 else 0 }

  /** What is visible of the cache at one moment. */
  datatype Snap = Snap(dev: seq<int>, blk: seq<int>, count: seq<int>, lock: seq<bool>, dirt: seq<bool>,
                       pc: map<nat, Pc>, pins: seq<multiset<nat>>, ring: seq<int>)

  ghost predicate Sized(s: Snap) { |s.dev| == |s.blk| == |s.count| == |s.lock| == |s.dirt| == |s.pins| }

  /** A buffer handed to task t: it is the one for the block, unlocked, and t holds it. */
  ghost predicate Got(s: Snap, t: nat, b: int, d: int, k: int) {
    && Sized(s) && 0 <= b < |s.dev| && s.dev[b] == d && s.blk[b] == k && !s.lock[b]
    && t in s.pins[b] && t in s.pc && s.pc[t].Idle?
  }

  /** Task t has gone to sleep on its way to a block, with a reason. */
  ghost predicate Waits(s: Snap, t: nat, d: int, k: int) {
    Sized(s) && t in s.pc &&
    match s.pc[t]
    case HashWait(e, l, b) => e == d && l == k && Is(s.dev, s.blk, b, d, k) && s.lock[b] && t in s.pins[b]
    case NeedBuffer(e, l) => e == d && l == k && forall x :: 0 <= x < |s.count| ==> s.count[x] != 0
    case BufWait(e, l, b) => e == d && l == k && 0 <= b < |s.dev| && s.lock[b] && s.count[b] == 0
    case SyncWait(e, l, b) => e == d && l == k && 0 <= b < |s.dev| && !s.lock[b] && s.dirt[b] && s.count[b] == 0
    case _ => false
  }

  predicate Unused(s: Snap, x: int) { 0 <= x < |s.count| && s.count[x] == 0 }

  /** x is a better choice than b: it is clean and b is not, or b is no cleaner and only b is locked. */
  predicate Beats(s: Snap, x: int, b: int) {
    0 <= x < |s.dirt| == |s.lock| && 0 <= b < |s.dirt| &&
    ((!s.dirt[x] && s.dirt[b]) || (s.dirt[x] == s.dirt[b] && !s.lock[x] && s.lock[b]))
  }

  /** The buffer that getblk picks: unused, none better, and better than all unused ones before it on the free list. */
  ghost predicate Chosen(s: Snap, b: int) {
    && Unused(s, b) && (forall x :: Unused(s, x) ==> !Beats(s, x, b))
    && forall i, j :: 0 <= i < j < |s.ring| && s.ring[j] == b && Unused(s, s.ring[i]) ==> Beats(s, b, s.ring[i])
  }

  ghost function ToEnd(ring: seq<int>, b: int): seq<int> {
    if b in ring then Without(ring, IndexOf(ring, b)) + [b] else ring
  }

  /** Task t holds buffer b once more, and stands at p. */
  ghost function Held(s: Snap, t: nat, b: int, p: Pc): Snap
    requires Sized(s) && 0 <= b < |s.dev|
  {
    s.(count := s.count[b := s.count[b] + 1], pins := s.pins[b := s.pins[b] + multiset{t}], pc := s.pc[t := p])
  }

  /** Buffer b is the one for block k of device d, held by t alone, and last on the free list. */
  ghost function Claimed(s: Snap, t: nat, b: int, d: int, k: int): Snap
    requires Sized(s) && 0 <= b < |s.dev|
  {
    s.(dev := s.dev[b := d], blk := s.blk[b := k], count := s.count[b := 1], pins := s.pins[b := multiset{t}],
       pc := s.pc[t := Idle], ring := ToEnd(s.ring, b))
  }

  ghost predicate Sleeps(s: Snap, t: nat, p: Pc, got: int, s': Snap) { got == NULL && s' == s.(pc := s.pc[t := p]) }

  /** get_hash_table with the buffer found. */
  ghost predicate Holds(s: Snap, t: nat, b: int, d: int, k: int, got: int, s': Snap) {
    && Sized(s) && Is(s.dev, s.blk, b, d, k)
    && if s.lock[b] then got == NULL && s' == Held(s, t, b, HashWait(d, k, b))
      else got == b && s' == Held(s, t, b, Idle)
  }

  /** getblk with the buffer picked: wait for it, have it written out, or take it. */
  ghost predicate Picks(s: Snap, t: nat, b: int, d: int, k: int, got: int, s': Snap) {
    && Sized(s) && Chosen(s, b)
    && if s.lock[b] then Sleeps(s, t, BufWait(d, k, b), got, s')
       else if s.dirt[b] then Sleeps(s, t, SyncWait(d, k, b), got, s')
       else got == b && s' == Claimed(s, t, b, d, k)
  }

  /** getblk from its label on, up to the next sleep or its end. */
  ghost predicate Repeats(s: Snap, t: nat, d: int, k: int, got: int, s': Snap) {
    Sized(s) &&
    if exists b :: Is(s.dev, s.blk, b, d, k) then exists b :: Holds(s, t, b, d, k, got, s')
    else if forall x :: !Unused(s, x) then Sleeps(s, t, NeedBuffer(d, k), got, s')
    else exists b :: Picks(s, t, b, d, k, got, s')
  }

  /** getblk after it has waited for the buffer b it chose: unless that was taken, it stays with it. */
  ghost predicate Proceeds(s: Snap, t: nat, d: int, k: int, b: int, got: int, s': Snap) {
    && Sized(s) && 0 <= b < |s.dev|
    && if s.count[b] == 0 && s.dirt[b] then Sleeps(s, t, SyncWait(d, k, b), got, s')
       else if s.count[b] == 0 && forall x :: !Is(s.dev, s.blk, x, d, k) then got == b && s' == Claimed(s, t, b, d, k)
       else Repeats(s, t, d, k, got, s')
  }

  /** Where getblk gets to in one step. */
  ghost predicate Reached(s: Snap, t: nat, d: int, k: int, got: int) {
    if got != NULL then Got(s, t, got, d, k) else Waits(s, t, d, k)
  }

  /** Task t gives up one hold on buffer b. */
  ghost function Released(s: Snap, t: nat, b: int): Snap
    requires Sized(s) && 0 <= b < |s.dev|
  {
    s.(count := s.count[b := s.count[b] - 1], pins := s.pins[b := s.pins[b] - multiset{t}], pc := s.pc[t := Idle])
  }

  /** What an act does, as far as it can be seen, and what it returns. */
  ghost predicate Responds(a: Act, got: int, s: Snap, s': Snap) {
    Sized(s) &&
    match a
    case Get(t, d, k) =>
      if t in s.pc && s.pc[t].Idle? then Reached(s', t, d, k, got) && Repeats(s, t, d, k, got, s') else s' == s
    case Look(t, d, k) =>
      if !(t in s.pc && s.pc[t].Idle?) then s' == s
      else if exists x :: Is(s.dev, s.blk, x, d, k) then
        Reached(s', t, d, k, got) && exists x :: Holds(s, t, x, d, k, got, s')
      else s' == s && got == NULL
    case Put(t, b) =>
      if !(t in s.pc && s.pc[t].Idle? && 0 <= b < |s.dev| && t in s.pins[b]) then s' == s
      else s' == if s.lock[b] then s.(pc := s.pc[t := RelWait(b)]) else Released(s, t, b)
    case Go(t) =>
      if t !in s.pc then s' == s
      else (
        match s.pc[t]
        case Idle => s' == s
        case HashWait(d, k, b) =>
          && 0 <= b < |s.lock|
          && if s.lock[b] then s' == s else got == b && Got(s', t, b, d, k) && s' == s.(pc := s.pc[t := Idle])
        case NeedBuffer(d, k) => Reached(s', t, d, k, got) && Repeats(s, t, d, k, got, s')
        case BufWait(d, k, b) =>
          && 0 <= b < |s.lock|
          && if s.lock[b] then s' == s else Reached(s', t, d, k, got) && Proceeds(s, t, d, k, b, got, s')
        case SyncWait(d, k, b) =>
          && 0 <= b < |s.lock|
          && if s.lock[b] then s' == s else Reached(s', t, d, k, got) && Proceeds(s, t, d, k, b, got, s')
        case RelWait(b) => 0 <= b < |s.dev| && s' == if s.lock[b] then s else Released(s, t, b))
    case Flags(b, locked, dirty) =>
      s' == if 0 <= b < |s.dev| then s.(lock := s.lock[b := locked], dirt := s.dirt[b := dirty]) else s
  }

  /** No step touches other tasks, or the identity of a buffer in use. */
  ghost predicate Leaves(a: Act, s: Snap, s': Snap) {
    && SameIdentity(s.count, s.dev, s.blk, s'.dev, s'.blk) && s'.pc.Keys == s.pc.Keys
    && (if a.Flags? then s'.pc == s.pc && s'.pins == s.pins
        else (forall u :: u in s.pc && u != a.t ==> s'.pc[u] == s.pc[u]) && OthersHold(s.pins, s'.pins, a.t))
  }

  /** No two buffers for one block, counts equal to holders, and waiting tasks in order. */
  ghost predicate InOrder(s: Snap) {
    && Sized(s) && Unique(s.dev, s.blk) && CountsOk(s.count, s.pins, |s.dev|) && PcsOk(s.pc, s.pins, s.dev, s.blk)
    && Distinct(s.ring) && forall b :: b in s.ring <==> 0 <= b < |s.dev|
  }

  class Cache {
    const h: Hash
    var next: Link
    var prev: Link
    var table: seq<int>
    var fnext: Link
    var fprev: Link
    var freeList: int
    var dev: seq<int>
    var blk: seq<int>
    var count: seq<int>
    var lock: seq<bool>
    var dirt: seq<bool>
    var pc: map<nat, Pc>
    ghost var chains: seq<seq<int>>
    ghost var ring: seq<int>
    var pins: seq<multiset<nat>>  // which tasks hold a buffer, and how often

    ghost predicate Queues() reads this {
      ChainsOk(h, next, prev, table, chains, dev, blk, NULL) && FreeOk(fnext, fprev, freeList, ring, |dev|)
    }

    ghost predicate Valid() reads this {
      && Queues() && Unique(dev, blk) && CountsOk(count, pins, |dev|) && PcsOk(pc, pins, dev, blk)
      && |lock| == |dirt| == |dev| == |blk| == |count|
    }

    /** find_buffer. */
    method FindBuffer(d: int, k: int) returns (b: int)
      requires Queues() && |dev| == |blk|
      ensures if b == NULL then forall x :: !Is(dev, blk, x, d, k) else Is(dev, blk, b, d, k)
    {
      hide FreeOk, IsChain, Slot;
      ghost var s := Slot(h, |table|, d, k);
      ghost var xs := chains[s];
      ghost var i := 0;
      ChainStart(next, prev, table[s], xs);
      forall j | 0 <= j < |xs| ensures xs[j] >= 0 { assert xs[j] in xs; }
      b := table[Slot(h, |table|, d, k)];
      while b != NULL
        invariant 0 <= i <= |xs| && b == (if i < |xs| then xs[i] else NULL)
        invariant forall j :: 0 <= j < i ==> !Is(dev, blk, xs[j], d, k)
        decreases |xs| - i
      {
        ChainStep(next, prev, table[s], xs, i);
        assert Belongs(h, |table|, dev, blk, s, b);
        if dev[b] == d && blk[b] == k { return; }
        b := next[b];
        i := i + 1;
      }
      forall x | Is(dev, blk, x, d, k) ensures x in xs { assert Belongs(h, |table|, dev, blk, s, x); }
    }

    /** remove_from_queues. */
    method RemoveFromQueues(b: int)
      requires Queues() && 0 <= b < |dev|
      modifies this`next, this`prev, this`table, this`fnext, this`fprev, this`freeList, this`chains, this`ring
      ensures ChainsOk(h, next, prev, table, chains, dev, blk, b)
      ensures IsOut(fnext, fprev, freeList, ring, b) && |fnext| == |dev| && forall x :: x in ring <==>
        0 <= x < |dev| && x != b
      ensures b in old(ring) && ring == Without(old(ring), IndexOf(old(ring), b))
    {
      hide ChainsOk, IsRing, Slot, IsOut, Distinct, Without;
      SizesOk(h, next, prev, table, chains, dev, blk, NULL);
      RemoveOk(h, next, prev, table, chains, dev, blk, b);
      ghost var i := IndexOf(ring, b);
      RingDistinct(fnext, fprev, freeList, ring);
      WithoutHas(ring, i);
      RingUnlink(fnext, fprev, freeList, ring, i);
      var n, p := next[b], prev[b];
      chains := ChainsWithout(h, chains, dev[b], blk[b], b);
      table := TableWithout(h, table, dev[b], blk[b], b, n);
      next, prev := Set(next, p, n), Set(prev, n, p);
      var fn, fp := fnext[b], fprev[b];
      fnext, fprev := Set(fnext, fp, fn), Set(fprev, fn, fp);
      if freeList == b { freeList := fn; }
      ring := Without(ring, i);
    }

    /** insert_into_queues. */
    method InsertIntoQueues(b: int)
      requires ChainsOk(h, next, prev, table, chains, dev, blk, b) && 0 <= b < |dev|
      requires IsOut(fnext, fprev, freeList, ring, b) && |fnext| == |dev| && forall x :: x in ring <==>
        0 <= x < |dev| && x != b
      modifies this`next, this`prev, this`table, this`fnext, this`fprev, this`chains, this`ring
      ensures Queues() && ring == old(ring) + [b]
    {
      hide ChainsOk, IsRing, Slot, IsOut, Distinct;
      SizesOk(h, next, prev, table, chains, dev, blk, b);
      RingPush(fnext, fprev, freeList, ring, b);
      OutHead(fnext, fprev, freeList, ring, b);
      var head := freeList;
      fnext, fprev := fnext[b := head], fprev[b := fprev[head]];
      fnext, fprev := Set(fnext, fprev[head], b), Set(fprev, head, b);
      ring := ring + [b];
      InsertOk(h, next, prev, table, chains, dev, blk, b);
      if dev[b] == 0 {
        next, prev := next[b := NULL], prev[b := NULL];
        return;
      }
      var s := Slot(h, |table|, dev[b], blk[b]);
      var first := table[s];
      next, prev := next[b := first], prev[b := NULL];
      prev := Set(prev, first, b);
      table, chains := table[s := b], chains[s := [b] + chains[s]];
    }

    /** The end of getblk: an unused, unlocked and clean buffer becomes the one for this block. */
    method Claim(t: nat, b: int, d: int, k: int)
      requires Valid() && t in pc && 0 <= b < |dev| && count[b] == 0 && !lock[b] && !dirt[b]
        && forall x :: !Is(dev, blk, x, d, k)
      modifies this`next, this`prev, this`table, this`fnext, this`fprev, this`freeList, this`chains, this`ring,
               this`dev, this`blk, this`count, this`pins, this`pc, this`dirt
      ensures Valid() && dev == old(dev)[b := d] && blk == old(blk)[b := k] && count == old(count)[b := 1]
      ensures pins == old(pins)[b := multiset{t}] && pc == old(pc)[t := Idle] && old(pins)[b] == multiset{}
      ensures dirt == old(dirt) && ring == ToEnd(old(ring), b)
    {
      hide ChainsOk, FreeOk;
      ClaimOk(dev, blk, count, pins, pc, t, b, d, k);
      count := count[b := 1];
      dirt := dirt[b := false];
      pins := pins[b := multiset{t}];
      pc := pc[t := Idle];
      Requeue(b, d, k);
    }

    method Requeue(b: int, d: int, k: int)
      requires Queues() && 0 <= b < |dev| && |dev| == |blk|
      modifies this`next, this`prev, this`table, this`fnext, this`fprev, this`freeList, this`chains, this`ring,
               this`dev, this`blk
      ensures Queues() && dev == old(dev)[b := d] && blk == old(blk)[b := k] && ring == ToEnd(old(ring), b)
    {
      hide ChainsOk, IsOut, FreeOk, Without;
      RemoveFromQueues(b);
      ForgetIdentity(h, next, prev, table, chains, dev, blk, b, d, k);
      dev, blk := dev[b := d], blk[b := k];
      InsertIntoQueues(b);
    }

    /** The loop of getblk over the free list. */
    method Scan() returns (b: int)
      requires Valid()
      ensures if b == NULL then forall x :: !Unused(Now(), x) else 0 <= b < |dev| && count[b] == 0 && Chosen(Now(), b)
    {
      hide ChainsOk, IsRing, Unique, CountsOk, PcsOk, Distinct;
      SameLengths(count, pins, |dev|);
      b := NULL;
      var tmp := freeList;
      ghost var i, p, s := 0, 0, Now();
      RingStart(fnext, fprev, freeList, ring);
      while true
        invariant 0 <= i < |ring| && tmp == ring[i]
        invariant if b == NULL then forall j :: 0 <= j < i ==> !Unused(s, ring[j]) else BestUpTo(s, b, p, i)
        invariant b != NULL ==> Badness(dirt[b], lock[b]) > 0
        decreases |ring| - i
      {
        assert ring[i] in ring;
        RingNext(fnext, fprev, freeList, ring, i);
        if count[tmp] == 0 {
          if b == NULL || Badness(dirt[tmp], lock[tmp]) < Badness(dirt[b], lock[b]) {
            b, p := tmp, i;
            if Badness(dirt[tmp], lock[tmp]) == 0 {
              BestIsChosen(s, b, p, i + 1) by { RingDistinct(fnext, fprev, freeList, ring); }
              return;
            }
          }
        }
        assert b != NULL ==> BestUpTo(s, b, p, i + 1);
        tmp := fnext[tmp];
        if tmp == freeList { break; }
        i := i + 1;
      }
      assert i == |ring| - 1;
      if b == NULL {
        forall x | 0 <= x < |dev| ensures !Unused(s, x) { assert x in ring; }
      } else {
        BestIsChosen(s, b, p, i + 1) by { RingDistinct(fnext, fprev, freeList, ring); }
      }
    }

    /** What a step of task t leaves alone: the other tasks, and the identity of buffers in use. */
    twostate predicate Stepped(t: nat) reads this {
      && Valid() && pc.Keys == old(pc).Keys && (forall u :: u in pc && u != t ==> pc[u] == old(pc)[u])
      && SameIdentity(old(count), old(dev), old(blk), dev, blk) && OthersHold(old(pins), pins, t)
    }

    ghost function Now(): Snap reads this { Snap(dev, blk, count, lock, dirt, pc, pins, ring) }

    /** get_hash_table with the buffer found: count it, then wait until it is not locked. */
    method Hold(t: nat, b: int, d: int, k: int) returns (got: int)
      requires Valid() && t in pc && Is(dev, blk, b, d, k)
      modifies this`count, this`pins, this`pc
      ensures Stepped(t) && Reached(Now(), t, d, k, got) && Holds(old(Now()), t, b, d, k, got, Now())
    {
      hide ChainsOk, FreeOk, Unique;
      HoldOk(dev, blk, count, pins, pc, t, b, HashWait(d, k, b));
      HoldOk(dev, blk, count, pins, pc, t, b, Idle);
      count := count[b := count[b] + 1];
      pins := pins[b := pins[b] + multiset{t}];
      if lock[b] {
        pc := pc[t := HashWait(d, k, b)];
        return NULL;
      }
      pc := pc[t := Idle];
      got := b;
    }

    method GetHashTable(t: nat, d: int, k: int) returns (got: int)
      requires Valid() && t in pc && pc[t].Idle?
      modifies this`count, this`pins, this`pc
      ensures Stepped(t) && Responds(Look(t, d, k), got, old(Now()), Now())
    {
      hide ChainsOk, FreeOk, Unique, CountsOk, PcsOk, Is;
      SameLengths(count, pins, |dev|);
      var b := FindBuffer(d, k);
      if b == NULL { StayOk(count, dev, blk, pins, t); return NULL; }
      got := Hold(t, b, d, k);
    }

    /**
     * getblk, from its label repeat, or from where it has waited for the buffer it chose. It ends at
     * the next sleep point or with a buffer; the jump back to repeat happens at most once.
     */
    method Getblk(t: nat, d: int, k: int, chosen: int) returns (got: int)
      requires Valid() && t in pc && (chosen == NULL || (0 <= chosen < |dev| && !lock[chosen]))
      modifies this`next, this`prev, this`table, this`fnext, this`fprev, this`freeList, this`chains, this`ring,
               this`dev, this`blk, this`count, this`pins, this`pc, this`dirt
      ensures Stepped(t) && Reached(Now(), t, d, k, got)
      ensures if chosen == NULL then Repeats(old(Now()), t, d, k, got, Now())
        else Proceeds(old(Now()), t, d, k, chosen, got, Now())
    {
      hide Queues, Unique, PcsOk, Is, SameIdentity, OthersHold, Chosen, ToEnd, Picks;
      SameLengths(count, pins, |dev|);
      var b := chosen;
      if b != NULL && count[b] == 0 {
        if dirt[b] { got := Sleep(t, SyncWait(d, k, b)); return; }
        var there := FindBuffer(d, k);
        if there == NULL { ClaimKeeps(count, dev, blk, pins, t, b, d, k); Claim(t, b, d, k); got := b; return; }
      }
      // repeat: without a sleep in between, the tests that follow a wait hold of the buffer just chosen
      var found := FindBuffer(d, k);
      if found != NULL {
        got := Hold(t, found, d, k);
        assert Holds(old(Now()), t, found, d, k, got, Now());
        return;
      }
      b := Scan();
      if b == NULL {
        forall x | 0 <= x < |count| ensures count[x] != 0 { assert !Unused(Now(), x); }
        got := Sleep(t, NeedBuffer(d, k));
        return;
      }
      assert Unused(Now(), b);
      got := Pick(t, b, d, k);
      assert Picks(old(Now()), t, b, d, k, got, Now());
    }

    /** The end of getblk with the buffer it picked. */
    method Pick(t: nat, b: int, d: int, k: int) returns (got: int)
      requires Valid() && t in pc && 0 <= b < |dev| && count[b] == 0 && Chosen(Now(), b)
        && forall x :: !Is(dev, blk, x, d, k)
      modifies this`next, this`prev, this`table, this`fnext, this`fprev, this`freeList, this`chains, this`ring,
               this`dev, this`blk, this`count, this`pins, this`pc, this`dirt
      ensures Stepped(t) && Reached(Now(), t, d, k, got) && Picks(old(Now()), t, b, d, k, got, Now())
    {
      hide Queues, Unique, PcsOk, Is, SameIdentity, OthersHold, Chosen, ToEnd;
      SameLengths(count, pins, |dev|);
      if lock[b] { got := Sleep(t, BufWait(d, k, b)); return; }
      if dirt[b] { got := Sleep(t, SyncWait(d, k, b)); return; }
      ClaimKeeps(count, dev, blk, pins, t, b, d, k);
      Claim(t, b, d, k);
      got := b;
    }

    method Sleep(t: nat, p: Pc) returns (got: int)
      requires Valid() && t in pc && !p.Idle? && !p.HashWait? && !p.RelWait?
        && Waits(Now().(pc := pc[t := p]), t, p.d, p.k)
      modifies this`pc
      ensures Stepped(t) && got == NULL && Waits(Now(), t, p.d, p.k) && Now() == old(Now()).(pc := old(pc)[t := p])
    {
      hide ChainsOk, FreeOk, Unique, CountsOk, Is;
      StayOk(count, dev, blk, pins, t);
      pc := pc[t := p];
      got := NULL;
    }

    /** A task goes on after a sleep, if what it waits for holds. */
    method Resume(t: nat) returns (got: int)
      requires Valid() && t in pc
      modifies this`next, this`prev, this`table, this`fnext, this`fprev, this`freeList, this`chains, this`ring,
               this`dev, this`blk, this`count, this`pins, this`pc, this`dirt
      ensures Stepped(t) && Responds(Go(t), got, old(Now()), Now())
    {
      hide ChainsOk, FreeOk, Unique, SameIdentity, OthersHold;
      StayOk(count, dev, blk, pins, t);
      got := NULL;
      var p := pc[t];
      assert PcOk(p, t, pins, dev, blk);
      match p
      case Idle =>
      case HashWait(d, k, b) =>
        if !lock[b] {
          // the test of the identity always succeeds: the buffer was counted all the time
          assert dev[b] == d && blk[b] == k;
          pc := pc[t := Idle];
          got := b;
        }
      case NeedBuffer(d, k) => got := Getblk(t, d, k, NULL);
      case BufWait(d, k, b) => if !lock[b] { got := Getblk(t, d, k, b); }
      case SyncWait(d, k, b) => if !lock[b] { got := Getblk(t, d, k, b); }
      case RelWait(b) => if !lock[b] { LetGo(t, b); }
    }

    /** The decrement of brelse; the count is not 0. */
    method LetGo(t: nat, b: int)
      requires Valid() && t in pc && 0 <= b < |pins| && t in pins[b] && (pc[t].Idle? || pc[t] == RelWait(b))
      modifies this`count, this`pins, this`pc
      ensures Stepped(t) && old(count)[b] > 0 && old(Sized(Now())) && Now() == Released(old(Now()), t, b)
    {
      hide ChainsOk, FreeOk, Unique;
      LetGoOk(dev, blk, count, pins, pc, t, b);
      count := count[b := count[b] - 1];
      pins := pins[b := pins[b] - multiset{t}];
      pc := pc[t := Idle];
    }

    method Brelse(t: nat, b: int)
      requires Valid() && t in pc && pc[t].Idle? && 0 <= b < |pins| && t in pins[b]
      modifies this`count, this`pins, this`pc
      ensures Stepped(t) && Responds(Put(t, b), NULL, old(Now()), Now())
    {
      hide ChainsOk, FreeOk, Unique;
      if lock[b] {
        StayOk(count, dev, blk, pins, t);
        pc := pc[t := RelWait(b)];
      } else {
        LetGo(t, b);
      }
    }

    /** ll_rw_block, interrupts and the holders of a buffer change its flags. */
    method SetFlags(b: nat, locked: bool, dirty: bool)
      requires Valid() && b < |dev|
      modifies this`lock, this`dirt
      ensures Valid() && Responds(Flags(b, locked, dirty), NULL, old(Now()), Now())
    {
      hide ChainsOk, FreeOk, Unique, CountsOk, PcsOk;
      SameLengths(count, pins, |dev|);
      lock, dirt := lock[b := locked], dirt[b := dirty];
    }

    /** buffer_init. */
    constructor (h: Hash, n: nat, buckets: nat, tasks: set<nat>)
      requires n > 0 && buckets > 0
      ensures Valid() && fresh(this) && pc.Keys == tasks && |dev| == n
    {
      hide ChainsOk, IsRing;
      this.h := h;
      next, prev, table := Filled(n, NULL), Filled(n, NULL), Filled(buckets, NULL);
      fnext, fprev, freeList := RingOf(n, 1), RingOf(n, -1), 0;
      dev, blk, count := Filled(n, 0), Filled(n, 0), Filled(n, 0);
      lock, dirt := seq(n, i => false), seq(n, i => false);
      pc := map t | t in tasks :: Idle;
      chains, ring, pins := seq(buckets, i => []), Counting(n), seq(n, i => multiset{});
      FreshChains(h, n, buckets);
      FreshRing(n);
    }

    method Perform(a: Act) returns (got: int)
      requires Valid()
      modifies this`next, this`prev, this`table, this`fnext, this`fprev, this`freeList, this`chains, this`ring,
               this`dev, this`blk, this`count, this`pins, this`pc, this`dirt, this`lock
      ensures Valid() && Responds(a, got, old(Now()), Now()) && Leaves(a, old(Now()), Now())
    {
      hide ChainsOk, FreeOk, Unique, CountsOk, PcsOk, SameIdentity, OthersHold, Is;
      SameLengths(count, pins, |dev|);
      StayOk(count, dev, blk, pins, if a.Flags? then 0 else a.t);
      got := NULL;
      match a
      case Get(t, d, k) => if t in pc && pc[t].Idle? { got := Getblk(t, d, k, NULL); }
      case Look(t, d, k) => if t in pc && pc[t].Idle? { got := GetHashTable(t, d, k); }
      case Put(t, b) => if t in pc && pc[t].Idle? && 0 <= b < |pins| && t in pins[b] { Brelse(t, b); }
      case Go(t) => if t in pc { got := Resume(t); }
      case Flags(b, locked, dirty) => if 0 <= b < |dev| { SetFlags(b, locked, dirty); }
    }

    /**
     * Every interleaving: the cache is in order at every moment, every act does what it has to, and no
     * act touches other tasks or the identity of a buffer in use.
     */
    method Run(acts: seq<Act>) returns (gots: seq<int>, ghost ss: seq<Snap>)
      requires Valid()
      modifies this
      ensures Valid() && |gots| == |acts| && |ss| == |acts| + 1 && ss[0] == old(Now()) && ss[|acts|] == Now()
      ensures forall i :: 0 <= i < |ss| ==> InOrder(ss[i])
      ensures forall i :: 0 <= i < |acts| ==>
        Responds(acts[i], gots[i], ss[i], ss[i + 1]) && Leaves(acts[i], ss[i], ss[i + 1])
    {
      hide Responds, Leaves, InOrder, Queues;
      gots, ss := [], [Now()];
      NowInOrder();
      while |gots| < |acts|
        invariant Valid() && |gots| <= |acts| && |ss| == |gots| + 1 && ss[0] == old(Now()) && ss[|gots|] == Now()
        invariant forall i :: 0 <= i < |ss| ==> InOrder(ss[i])
        invariant forall i :: 0 <= i < |gots| ==>
          Responds(acts[i], gots[i], ss[i], ss[i + 1]) && Leaves(acts[i], ss[i], ss[i + 1])
      {
        var got := Perform(acts[|gots|]);
        NowInOrder();
        gots := gots + [got];
        ss := ss + [Now()];
      }
    }

    lemma NowInOrder()
      requires Valid()
      ensures InOrder(Now())
    {}
  }

  /** The best of the first n buffers of the free list, the first one among equals, is b at place p. */
  ghost predicate BestUpTo(s: Snap, b: int, p: int, n: int) {
    && Sized(s) && 0 <= p < n <= |s.ring| && s.ring[p] == b && Unused(s, b)
    && (forall i :: 0 <= i < n && Unused(s, s.ring[i]) ==> !Beats(s, s.ring[i], b))
    && (forall i :: 0 <= i < p && Unused(s, s.ring[i]) ==> Beats(s, b, s.ring[i]))
  }

  lemma BestIsChosen(s: Snap, b: int, p: int, n: int)
    requires BestUpTo(s, b, p, n) && Distinct(s.ring) && (forall x :: x in s.ring <==> 0 <= x < |s.dev|)
    requires n == |s.ring| || (!s.dirt[b] && !s.lock[b])
    ensures Chosen(s, b)
  {
    forall x | Unused(s, x) ensures !Beats(s, x, b) { assert x in s.ring; }
    forall i, j | 0 <= i < j < |s.ring| && s.ring[j] == b && Unused(s, s.ring[i]) ensures Beats(s, b, s.ring[i]) {
      assert j == p;
    }
  }

  lemma ChainStart(next: Link, prev: Link, head: int, xs: seq<int>)
    requires IsChain(next, prev, head, xs)
    ensures head == if |xs| > 0 then xs[0] else NULL
  {}

  lemma ChainStep(next: Link, prev: Link, head: int, xs: seq<int>, i: int)
    requires IsChain(next, prev, head, xs) && 0 <= i < |xs|
    ensures xs[i] in xs && 0 <= xs[i] < |next| && next[xs[i]] == if i + 1 < |xs| then xs[i + 1] else NULL
  {}

  lemma SizesOk(h: Hash, next: Link, prev: Link, table: seq<int>, chains: seq<seq<int>>, dev: seq<int>, blk: seq<int>,
                but: int)
    requires ChainsOk(h, next, prev, table, chains, dev, blk, but)
    ensures |table| == |chains| > 0 && |next| == |prev| == |dev| == |blk|
  {}

  lemma RingDistinct(next: Link, prev: Link, head: int, xs: seq<int>)
    requires IsRing(next, prev, head, xs)
    ensures Distinct(xs) && |prev| == |next|
  {}

  lemma OutHead(next: Link, prev: Link, head: int, xs: seq<int>, b: int)
    requires IsOut(next, prev, head, xs, b)
    ensures 0 <= b < |next| == |prev| && (xs == [] ==> head == b)
  {}

  lemma ClaimOk(dev: seq<int>, blk: seq<int>, count: seq<int>, pins: seq<multiset<nat>>, pc: map<nat, Pc>, t: nat,
                b: int, d: int, k: int)
    requires Unique(dev, blk) && CountsOk(count, pins, |dev|) && PcsOk(pc, pins, dev, blk)
    requires 0 <= b < |dev| && count[b] == 0 && forall x :: !Is(dev, blk, x, d, k)
    ensures pins[b] == multiset{}
    ensures Unique(dev[b := d], blk[b := k]) && CountsOk(count[b := 1], pins[b := multiset{t}], |dev|)
    ensures PcsOk(pc[t := Idle], pins[b := multiset{t}], dev[b := d], blk[b := k])
  {
    assert pins[b] == multiset{};
    forall x | 0 <= x < |dev| && dev[x] == d && blk[x] == k ensures d == 0 { assert !Is(dev, blk, x, d, k); }
    forall u | u in pc && u != t ensures PcOk(pc[u], u, pins[b := multiset{t}], dev[b := d], blk[b := k]) {
      assert PcOk(pc[u], u, pins, dev, blk);
    }
  }

  lemma RingStart(next: Link, prev: Link, head: int, xs: seq<int>)
    requires IsRing(next, prev, head, xs)
    ensures |xs| > 0 && head == xs[0]
  {}

  lemma RingNext(next: Link, prev: Link, head: int, xs: seq<int>, i: int)
    requires IsRing(next, prev, head, xs) && 0 <= i < |xs|
    ensures 0 <= xs[i] < |next| && (if i + 1 < |xs| then next[xs[i]] == xs[i + 1] != head else next[xs[i]] == head)
  {}

  lemma StayOk(count: seq<int>, dev: seq<int>, blk: seq<int>, pins: seq<multiset<nat>>, t: nat)
    requires |count| == |dev| == |blk|
    ensures SameIdentity(count, dev, blk, dev, blk) && OthersHold(pins, pins, t)
  {}

  lemma HoldOk(dev: seq<int>, blk: seq<int>, count: seq<int>, pins: seq<multiset<nat>>, pc: map<nat, Pc>, t: nat,
               b: int, p: Pc)
    requires CountsOk(count, pins, |dev|) && PcsOk(pc, pins, dev, blk) && |dev| == |blk| && 0 <= b < |dev|
    requires p.Idle? || (p.HashWait? && p.b == b && Is(dev, blk, b, p.d, p.k))
    ensures CountsOk(count[b := count[b] + 1], pins[b := pins[b] + multiset{t}], |dev|)
    ensures PcsOk(pc[t := p], pins[b := pins[b] + multiset{t}], dev, blk)
    ensures SameIdentity(count, dev, blk, dev, blk) && OthersHold(pins, pins[b := pins[b] + multiset{t}], t)
  {
    var pins' := pins[b := pins[b] + multiset{t}];
    forall u | u in pc && u != t ensures PcOk(pc[u], u, pins', dev, blk) { assert PcOk(pc[u], u, pins, dev, blk); }
  }

  lemma ClaimKeeps(count: seq<int>, dev: seq<int>, blk: seq<int>, pins: seq<multiset<nat>>, t: nat, b: int, d: int,
                   k: int)
    requires CountsOk(count, pins, |dev|) && |dev| == |blk| && 0 <= b < |dev| && count[b] == 0
    ensures SameIdentity(count, dev, blk, dev[b := d], blk[b := k]) && OthersHold(pins, pins[b := multiset{t}], t)
  {
    assert pins[b] == multiset{};
  }

  lemma LetGoOk(dev: seq<int>, blk: seq<int>, count: seq<int>, pins: seq<multiset<nat>>, pc: map<nat, Pc>, t: nat,
                b: int)
    requires CountsOk(count, pins, |dev|) && PcsOk(pc, pins, dev, blk) && |dev| == |blk| && 0 <= b < |dev|
      && t in pins[b]
    ensures count[b] > 0 && CountsOk(count[b := count[b] - 1], pins[b := pins[b] - multiset{t}], |dev|)
    ensures PcsOk(pc[t := Idle], pins[b := pins[b] - multiset{t}], dev, blk)
    ensures SameIdentity(count, dev, blk, dev, blk) && OthersHold(pins, pins[b := pins[b] - multiset{t}], t)
  {
    var pins' := pins[b := pins[b] - multiset{t}];
    forall u | u in pc && u != t ensures PcOk(pc[u], u, pins', dev, blk) { assert PcOk(pc[u], u, pins, dev, blk); }
  }

  datatype Act =
    | Get(t: nat, d: int, k: int)
    | Look(t: nat, d: int, k: int)
    | Put(t: nat, b: int)
    | Go(t: nat)
    | Flags(b: int, locked: bool, dirty: bool)

  /** Buffer x could be taken at once. */
  predicate Ready(s: Snap, x: int) { Unused(s, x) && x < |s.dirt| == |s.lock| && !s.dirt[x] && !s.lock[x] }

  /**
   * For a block that is not in the cache getblk does not sleep while an unused buffer is clean and
   * unlocked; it waits for a dirty one only if all unused ones are dirty, and for a dirty and locked
   * one only if all are both. What it takes, and what it waits for, is the first such on the free list.
   */
  lemma NoNeedlessSleep(s: Snap, t: nat, d: int, k: int, got: int, s': Snap) returns (b: int)
    requires Repeats(s, t, d, k, got, s') && (forall x :: !Is(s.dev, s.blk, x, d, k)) && exists x :: Unused(s, x)
    ensures Chosen(s, b) && 0 <= b < |s.dirt| == |s.lock|
    ensures got != NULL ==> got == b
    ensures got != NULL <==> exists x :: Ready(s, x)
    ensures got == NULL ==> t in s'.pc && s'.pc[t] == if s.lock[b] then BufWait(d, k, b) else SyncWait(d, k, b)
    ensures got == NULL && !s.lock[b] ==> s.dirt[b]
    ensures forall x :: Unused(s, x) && s.dirt[b] ==> x < |s.dirt| && s.dirt[x] && (s.lock[b] ==> s.lock[x])
  {
    b :| Picks(s, t, b, d, k, got, s');
    forall x | Unused(s, x) ensures !Beats(s, x, b) {}
    if !s.lock[b] && !s.dirt[b] { assert Ready(s, b); }
    if x :| Ready(s, x) { assert !Beats(s, x, b); }
  }

  /** A buffer whose count stays positive between two moments is for one block all the time. */
  lemma {:induction false} OneIdentity(acts: seq<Act>, ss: seq<Snap>, i: nat, j: nat, b: int)
    requires |ss| == |acts| + 1 && i <= j <= |acts| && (forall m :: 0 <= m < |ss| ==> InOrder(ss[m]))
    requires forall m :: 0 <= m < |acts| ==> Leaves(acts[m], ss[m], ss[m + 1])
    requires 0 <= b < |ss[i].dev| && forall m :: i <= m < j ==> b < |ss[m].count| && ss[m].count[b] > 0
    ensures b < |ss[j].dev| == |ss[j].blk| && b < |ss[i].blk| && ss[j].dev[b] == ss[i].dev[b]
      && ss[j].blk[b] == ss[i].blk[b]
    decreases j
  {
    assert InOrder(ss[i]);
    if i < j {
      OneIdentity(acts, ss, i, j - 1, b);
      assert Leaves(acts[j - 1], ss[j - 1], ss[j - 1 + 1]);
    }
  }

  /** What a task holds it keeps, with its identity, for as long as it does not act itself. */
  lemma {:induction false} KeptWhileIdle(acts: seq<Act>, ss: seq<Snap>, i: nat, j: nat, u: nat, b: int)
    requires |ss| == |acts| + 1 && i <= j <= |acts| && (forall m :: 0 <= m < |ss| ==> InOrder(ss[m]))
    requires forall m :: 0 <= m < |acts| ==> Leaves(acts[m], ss[m], ss[m + 1])
    requires forall m :: i <= m < j ==> acts[m].Flags? || acts[m].t != u
    requires 0 <= b < |ss[i].pins| && u in ss[i].pins[b]
    ensures Sized(ss[i]) && Sized(ss[j]) && b < |ss[j].dev| && u in ss[j].pins[b] && ss[j].count[b] > 0
    ensures ss[j].dev[b] == ss[i].dev[b] && ss[j].blk[b] == ss[i].blk[b]
    decreases j
  {
    hide Unique, PcsOk;
    assert InOrder(ss[i]) && InOrder(ss[j]);
    if i < j {
      KeptWhileIdle(acts, ss, i, j - 1, u, b);
      assert Leaves(acts[j - 1], ss[j - 1], ss[j - 1 + 1]);
      if !acts[j - 1].Flags? { assert ss[j].pins[b][u] == ss[j - 1].pins[b][u]; }
    }
  }

  lemma SameLengths(count: seq<int>, pins: seq<multiset<nat>>, n: nat)
    requires CountsOk(count, pins, n)
    ensures |count| == |pins| == n
  {}

  function Filled(n: nat, v: int): (r: seq<int>)
    ensures |r| == n && forall i :: 0 <= i < n ==> r[i] == v
  {
    seq(n, i => v)
  }

  function Counting(n: nat): (r: seq<int>)
    ensures |r| == n
  {
    seq(n, i => i)
  }

  /** The neighbours of buffers that are in order. */
  function RingOf(n: nat, step: int): (r: seq<int>)
    ensures |r| == n
  {
    seq(n, i requires 0 <= i < n => Wrap(Counting(n), i + step))
  }

  lemma FreshChains(h: Hash, n: nat, buckets: nat)
    requires buckets > 0
    ensures ChainsOk(h, Filled(n, NULL), Filled(n, NULL), Filled(buckets, NULL), seq(buckets, i => []), Filled(n, 0),
      Filled(n, 0), NULL)
  {}

  lemma FreshRing(n: nat)
    requires n > 0
    ensures IsRing(RingOf(n, 1), RingOf(n, -1), 0, Counting(n)) && forall b :: b in Counting(n) <==> 0 <= b < n
  {
    var xs := Counting(n);
    forall b | 0 <= b < n ensures b in xs { assert xs[b] == b; }
    forall i | 0 <= i < n ensures RingOf(n, 1)[xs[i]] == Wrap(xs, i + 1) && RingOf(n, -1)[xs[i]] == Wrap(xs, i - 1) {}
  }
}
