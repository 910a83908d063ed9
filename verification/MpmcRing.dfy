/**
 * The bounded multi-producer multi-consumer queue of
 * cpp/myvsc/cas_queue/ArrayLockFreeQueueImp.h, as the set of its interleavings.
 *
 * Every shared read, array access, CAS and atomic addition is one step of one thread; local tests
 * happen with the access before them. Indices are natural numbers. Three histories accompany the
 * state: the values in the order in which enqueue reserved a place for them, the values in the order
 * in which dequeue took them, and the answers in the order in which the calls returned.
 */
module MpmcRing {
  import opened Modular

  /** Where a thread stands inside enqueue (E...) or dequeue (D...). */
  datatype Pc<T> =
    | Idle
    | E0(x: T)                       // about to read m_writeIndex
    | E1(x: T, w: nat)               // about to read m_readIndex
    | E2(x: T, w: nat, r: nat)       // about to CAS m_writeIndex
    | E3(x: T, w: nat)               // about to store into the array
    | E4(w: nat)                     // about to CAS m_maximumReadIndex
    | E5                             // about to increment m_count
    | D0                             // about to read m_readIndex
    | D1(r: nat)                     // about to read m_maximumReadIndex
    | D2(r: nat)                     // about to read the array
    | D3(r: nat, a: T)               // about to CAS m_readIndex
    | D4(a: T)                       // about to decrement m_count

  /** What enqueue and dequeue return: false and true, the latter with the element that dequeue delivers. */
  datatype Answer<T> = Refused | Added | Nothing | Got(a: T)

  datatype Return<T> = Return(t: nat, answer: Answer<T>)

  datatype State<T> = State(
    size: nat, queue: seq<T>, write: nat, read: nat, maxRead: nat, count: int,
    pcs: map<nat, Pc<T>>,
    reserved: seq<T>, taken: seq<T>, out: seq<Return<T>>)

  function Slot(size: nat, i: nat): nat
    requires size > 0
  {
    i % size
  }

  // ---------------------------------------------------------------------------------------------
  // Steps
  // ---------------------------------------------------------------------------------------------

  /** A thread starts an operation, or takes the next step of the one it is in. */
  datatype Event<T> = Enqueue(t: nat, x: T) | Dequeue(t: nat) | Go(t: nat)

  function At<T>(s: State<T>, t: nat, pc: Pc<T>): State<T> { s.(pcs := s.pcs[t := pc]) }

  function Back<T>(s: State<T>, t: nat, answer: Answer<T>): State<T> {
    At(s, t, Idle).(out := s.out + [Return(t, answer)])
  }

  function Step<T>(s: State<T>, t: nat): (s': State<T>)
    requires t in s.pcs && s.size > 0 && |s.queue| == s.size
    ensures |s'.queue| == s'.size == s.size
  {
    match s.pcs[t]
    case Idle => s
    case E0(x) => At(s, t, E1(x, s.write))
    case E1(x, w) =>
      if Slot(s.size, w + 1) == Slot(s.size, s.read) then Back(s, t, Refused) else At(s, t, E2(x, w, s.read))
    case E2(x, w, r) =>
      if s.write == w then At(s, t, E3(x, w)).(write := w + 1, reserved := s.reserved + [x])
      else At(s, t, E0(x))
    case E3(x, w) => At(s, t, E4(w)).(queue := s.queue[Slot(s.size, w) := x])
    case E4(w) => if s.maxRead == w then At(s, t, E5).(maxRead := w + 1) else s
    case E5 => Back(s, t, Added).(count := s.count + 1)
    case D0 => At(s, t, D1(s.read))
    case D1(r) =>
      if Slot(s.size, r) == Slot(s.size, s.maxRead) then Back(s, t, Nothing) else At(s, t, D2(r))
    case D2(r) => At(s, t, D3(r, s.queue[Slot(s.size, r)]))
    case D3(r, a) =>
      if s.read == r then At(s, t, D4(a)).(read := r + 1, taken := s.taken + [a])
      else At(s, t, D0)
    case D4(a) => Back(s, t, Got(a)).(count := s.count - 1)
  }

  predicate WellFormed<T>(s: State<T>) { s.size > 0 && |s.queue| == s.size }

  predicate Rests<T>(s: State<T>, t: nat) { t !in s.pcs || s.pcs[t].Idle? }

  /** An operation starts only where none is under way. */
  function Next<T>(s: State<T>, e: Event<T>): (s': State<T>)
    requires WellFormed(s)
    ensures WellFormed(s') && s'.size == s.size
  {
    match e
    case Enqueue(t, x) => if Rests(s, t) then At(s, t, E0(x)) else s
    case Dequeue(t) => if Rests(s, t) then At(s, t, D0) else s
    case Go(t) => if t in s.pcs then Step(s, t) else s
  }

  function Init<T>(queue: seq<T>): State<T> { State(|queue|, queue, 0, 0, 0, 0, map[], [], [], []) }

  function Run<T>(queue: seq<T>, es: seq<Event<T>>): (s: State<T>)
    requires |queue| > 0
    ensures WellFormed(s) && s.size == |queue|
  {
    if es == [] then Init(queue)
    else Next(Run(queue, es[..|es| - 1]), es[|es| - 1])
  }

  // ---------------------------------------------------------------------------------------------
  // The invariant
  // ---------------------------------------------------------------------------------------------

  /** The thread has reserved place w and not yet published it. */
  predicate Owns<T>(pc: Pc<T>, w: nat) { (pc.E3? && pc.w == w) || (pc.E4? && pc.w == w) }

  ghost predicate Bounds<T>(s: State<T>) {
    s.read <= s.maxRead <= s.write < s.read + s.size
  }

  ghost predicate Histories<T>(s: State<T>) {
    && |s.reserved| == s.write && |s.taken| == s.read && s.read <= s.write
    && s.taken == s.reserved[..s.read]
  }

  /** Published and not yet taken places hold what was reserved for them. */
  ghost predicate Stored<T>(s: State<T>)
    requires WellFormed(s) && |s.reserved| == s.write && s.maxRead <= s.write
  {
    forall i :: s.read <= i < s.maxRead ==> s.queue[Slot(s.size, i)] == s.reserved[i]
  }

  /** What a thread knows, at each place in its program. */
  ghost predicate Knows<T>(s: State<T>, pc: Pc<T>)
    requires WellFormed(s) && |s.reserved| == s.write && s.read <= s.maxRead <= s.write
  {
    match pc
    case Idle => true
    case E0(x) => true
    case E1(x, w) => w <= s.write
    case E2(x, w, r) => w <= s.write && r <= s.read && (w == s.write ==> w + 1 < r + s.size)
    case E3(x, w) => s.maxRead <= w < s.write && s.reserved[w] == x
    case E4(w) => s.maxRead <= w < s.write && s.queue[Slot(s.size, w)] == s.reserved[w]
    case E5 => true
    case D0 => true
    case D1(r) => r <= s.read
    case D2(r) => r <= s.read && r < s.maxRead
    case D3(r, a) => r <= s.read && r < s.maxRead && (r == s.read ==> a == s.reserved[r])
    case D4(a) => true
  }

  ghost predicate OneOwner<T>(pcs: map<nat, Pc<T>>) {
    forall t, u, w :: t in pcs && u in pcs && Owns(pcs[t], w) && Owns(pcs[u], w) ==> t == u
  }

  /** Every place that is reserved and not yet published has an owner. */
  ghost predicate Pending<T>(s: State<T>) {
    forall w :: s.maxRead <= w < s.write ==> HasOwner(s.pcs, w)
  }

  ghost predicate HasOwner<T>(pcs: map<nat, Pc<T>>, w: nat) { exists t :: t in pcs && Owns(pcs[t], w) }

  ghost function Adding<T>(pcs: map<nat, Pc<T>>): set<nat> { set t | t in pcs && pcs[t].E5? }

  ghost function Subtracting<T>(pcs: map<nat, Pc<T>>): set<nat> { set t | t in pcs && pcs[t].D4? }

  /** m_count lags behind by the operations that still have to adjust it. */
  ghost predicate Counted<T>(s: State<T>) {
    s.count == s.maxRead - s.read - |Adding(s.pcs)| + |Subtracting(s.pcs)|
  }

  ghost predicate Inv<T>(s: State<T>) {
    && WellFormed(s) && Bounds(s) && Histories(s) && Stored(s) && OneOwner(s.pcs) && Pending(s) && Counted(s)
    && forall t :: t in s.pcs ==> Knows(s, s.pcs[t])
  }

  // ---------------------------------------------------------------------------------------------
  // Every step keeps it
  // ---------------------------------------------------------------------------------------------

  /** Places less than one array length apart are different places. */
  lemma SlotsDiffer(size: nat, i: nat, j: nat)
    requires 0 < size && i < j < i + size
    ensures Slot(size, i) != Slot(size, j)
  {
    ModStep(i, j - i, size);
  }

  ghost predicate Quiet<T>(pc: Pc<T>) { !pc.E3? && !pc.E4? && !pc.E5? && !pc.D4? }

  /** Owners of other places, and a thread that owns the same as before, stay owners. */
  lemma OwnersKept<T>(pcs: map<nat, Pc<T>>, t: nat, pc: Pc<T>)
    ensures forall w :: HasOwner(pcs, w) && (t in pcs && Owns(pcs[t], w) ==> Owns(pc, w)) ==> HasOwner(pcs[t := pc], w)
  {
    forall w | HasOwner(pcs, w) && (t in pcs && Owns(pcs[t], w) ==> Owns(pc, w)) ensures HasOwner(pcs[t := pc], w) {
      var u :| u in pcs && Owns(pcs[u], w);
      assert u in pcs[t := pc] && Owns(pcs[t := pc][u], w);
    }
  }

  lemma PendingKept<T>(s: State<T>, s': State<T>, t: nat, pc: Pc<T>)
    requires Pending(s) && s'.pcs == s.pcs[t := pc] && s.maxRead <= s'.maxRead && s'.write <= s.write
    requires forall w :: s'.maxRead <= w < s'.write && t in s.pcs && Owns(s.pcs[t], w) ==> Owns(pc, w)
    ensures Pending(s')
  {
    hide HasOwner;
    OwnersKept(s.pcs, t, pc);
    forall w | s'.maxRead <= w < s'.write ensures HasOwner(s'.pcs, w) { assert HasOwner(s.pcs, w); }
  }

  /** A step that only changes what one thread knows. */
  lemma QuietStep<T>(s: State<T>, t: nat, pc: Pc<T>, out: seq<Return<T>>)
    requires Inv(s) && (t in s.pcs ==> Quiet(s.pcs[t])) && Quiet(pc) && Knows(s, pc)
    ensures Inv(At(s, t, pc).(out := out))
  {
    var s' := At(s, t, pc).(out := out);
    PendingKept(s, s', t, pc);
    assert Adding(s'.pcs) == Adding(s.pcs) && Subtracting(s'.pcs) == Subtracting(s.pcs);
    forall u | u in s'.pcs ensures Knows(s', s'.pcs[u]) { if u != t { assert Knows(s, s.pcs[u]); } }
  }

  lemma ReserveStep<T>(s: State<T>, t: nat)
    requires Inv(s) && t in s.pcs && s.pcs[t].E2? && s.pcs[t].w == s.write
    ensures Inv(Step(s, t))
  {
    var s' := Step(s, t);
    assert Knows(s, s.pcs[t]);
    assert Adding(s'.pcs) == Adding(s.pcs) && Subtracting(s'.pcs) == Subtracting(s.pcs);
    forall u | u in s'.pcs ensures Knows(s', s'.pcs[u]) { if u != t { assert Knows(s, s.pcs[u]); } }
    forall u, v, w | u in s'.pcs && v in s'.pcs && Owns(s'.pcs[u], w) && Owns(s'.pcs[v], w) ensures u == v {
      if u != t { assert Knows(s, s.pcs[u]); }
      if v != t { assert Knows(s, s.pcs[v]); }
      if u != t && v != t { assert Owns(s.pcs[u], w) && Owns(s.pcs[v], w); }
    }
    OwnersKept(s.pcs, t, s'.pcs[t]);
    assert Owns(s'.pcs[t], s.write) && HasOwner(s'.pcs, s.write);
  }

  lemma StoreStep<T>(s: State<T>, t: nat)
    requires Inv(s) && t in s.pcs && s.pcs[t].E3?
    ensures Inv(Step(s, t))
  {
    var s', w := Step(s, t), s.pcs[t].w;
    assert Knows(s, s.pcs[t]) && Owns(s.pcs[t], w);
    PendingKept(s, s', t, s'.pcs[t]);
    assert Adding(s'.pcs) == Adding(s.pcs) && Subtracting(s'.pcs) == Subtracting(s.pcs);
    forall i | s.read <= i < s.write && i != w ensures Slot(s.size, i) != Slot(s.size, w) {
      if i < w { SlotsDiffer(s.size, i, w); } else { SlotsDiffer(s.size, w, i); }
    }
    forall u | u in s'.pcs ensures Knows(s', s'.pcs[u]) {
      if u != t {
        assert Knows(s, s.pcs[u]);
        if s.pcs[u].E4? { assert Owns(s.pcs[u], s.pcs[u].w); }
      }
    }
    forall u, v, k | u in s'.pcs && v in s'.pcs && Owns(s'.pcs[u], k) && Owns(s'.pcs[v], k) ensures u == v {
      assert Owns(s.pcs[u], k) && Owns(s.pcs[v], k);
    }
  }

  lemma PublishStep<T>(s: State<T>, t: nat)
    requires Inv(s) && t in s.pcs && s.pcs[t].E4?
    ensures Inv(Step(s, t))
  {
    hide OneOwner, Counted, Pending;
    var s', w := Step(s, t), s.pcs[t].w;
    if s.maxRead == w {
      assert Knows(s, s.pcs[t]);
      forall u | u in s'.pcs ensures Knows(s', s'.pcs[u]) {
        if u != t {
          assert Knows(s, s.pcs[u]);
          if s.pcs[u].E3? || s.pcs[u].E4? { OwnersDiffer(s.pcs, t, u, w); }
        }
      }
      NoLongerOwns(s.pcs, t, E5);
      PendingKept(s, s', t, E5);
      PublishCounts(s, t);
    }
  }

  lemma OwnersDiffer<T>(pcs: map<nat, Pc<T>>, t: nat, u: nat, w: nat)
    requires OneOwner(pcs) && t in pcs && u in pcs && t != u && Owns(pcs[t], w)
    ensures !Owns(pcs[u], w)
  {}

  lemma NoLongerOwns<T>(pcs: map<nat, Pc<T>>, t: nat, pc: Pc<T>)
    requires OneOwner(pcs) && t in pcs && !pc.E3? && !pc.E4?
    ensures OneOwner(pcs[t := pc])
  {
    var pcs' := pcs[t := pc];
    forall u, v, k | u in pcs' && v in pcs' && Owns(pcs'[u], k) && Owns(pcs'[v], k) ensures u == v {
      assert Owns(pcs[u], k) && Owns(pcs[v], k);
    }
  }

  lemma PublishCounts<T>(s: State<T>, t: nat)
    requires Counted(s) && t in s.pcs && s.pcs[t].E4? && s.size > 0 && |s.queue| == s.size && s.maxRead == s.pcs[t].w
    ensures Counted(Step(s, t))
  {
    var pcs' := s.pcs[t := E5];
    assert Adding(pcs') == Adding(s.pcs) + {t} && Subtracting(pcs') == Subtracting(s.pcs);
  }

  lemma TakeStep<T>(s: State<T>, t: nat)
    requires Inv(s) && t in s.pcs && s.pcs[t].D3? && s.pcs[t].r == s.read
    ensures Inv(Step(s, t))
  {
    hide OneOwner, Counted, Pending;
    var s' := Step(s, t);
    assert Knows(s, s.pcs[t]);
    assert s.reserved[..s.read + 1] == s.reserved[..s.read] + [s.reserved[s.read]];
    forall u | u in s'.pcs ensures Knows(s', s'.pcs[u]) { if u != t { assert Knows(s, s.pcs[u]); } }
    NoLongerOwns(s.pcs, t, D4(s.pcs[t].a));
    PendingKept(s, s', t, D4(s.pcs[t].a));
    TakeCounts(s, t);
  }

  lemma TakeCounts<T>(s: State<T>, t: nat)
    requires Counted(s) && t in s.pcs && s.pcs[t].D3? && s.size > 0 && |s.queue| == s.size && s.pcs[t].r == s.read
    ensures Counted(Step(s, t))
  {
    var pcs' := s.pcs[t := D4(s.pcs[t].a)];
    assert Adding(pcs') == Adding(s.pcs) && Subtracting(pcs') == Subtracting(s.pcs) + {t};
  }

  lemma AddStep<T>(s: State<T>, t: nat)
    requires Inv(s) && t in s.pcs && s.pcs[t].E5?
    ensures Inv(Step(s, t))
  {
    var s' := Step(s, t);
    assert t in Adding(s.pcs) && Adding(s'.pcs) == Adding(s.pcs) - {t} && Subtracting(s'.pcs) == Subtracting(s.pcs);
    RestKept(s, s', t);
  }

  lemma SubStep<T>(s: State<T>, t: nat)
    requires Inv(s) && t in s.pcs && s.pcs[t].D4?
    ensures Inv(Step(s, t))
  {
    var s' := Step(s, t);
    assert t in Subtracting(s.pcs) && Adding(s'.pcs) == Adding(s.pcs)
      && Subtracting(s'.pcs) == Subtracting(s.pcs) - {t};
    RestKept(s, s', t);
  }

  /** Adjusting m_count touches nothing that anybody knows. */
  lemma RestKept<T>(s: State<T>, s': State<T>, t: nat)
    requires Inv(s) && t in s.pcs && !s.pcs[t].E3? && !s.pcs[t].E4?
      && s' == s.(pcs := s.pcs[t := Idle], count := s'.count, out := s'.out)
    ensures Stored(s') && OneOwner(s'.pcs) && Pending(s') && forall u :: u in s'.pcs ==> Knows(s', s'.pcs[u])
  {
    PendingKept(s, s', t, Idle);
    forall u | u in s'.pcs ensures Knows(s', s'.pcs[u]) { if u != t { assert Knows(s, s.pcs[u]); } }
    forall u, v, k | u in s'.pcs && v in s'.pcs && Owns(s'.pcs[u], k) && Owns(s'.pcs[v], k) ensures u == v {
      assert Owns(s.pcs[u], k) && Owns(s.pcs[v], k);
    }
  }

  /** The guard of enqueue: if nobody else reserved in between, there is room for one more. */
  lemma RoomLeft<T>(s: State<T>, w: nat)
    requires Inv(s) && w <= s.write && Slot(s.size, w + 1) != Slot(s.size, s.read)
    ensures w == s.write ==> w + 1 < s.read + s.size
  {
    ModAdd(s.read, s.size);
  }

  lemma StepKeeps<T>(s: State<T>, t: nat)
    requires Inv(s) && t in s.pcs
    ensures Inv(Step(s, t))
  {
    hide OneOwner, Counted, Pending;
    var pc := s.pcs[t];
    assert Knows(s, pc);
    match pc
    case Idle =>
    case E0(x) => QuietStep(s, t, E1(x, s.write), s.out);
    case E1(x, w) =>
      if Slot(s.size, w + 1) == Slot(s.size, s.read) {
        QuietStep(s, t, Idle, s.out + [Return(t, Refused)]);
      } else {
        RoomLeft(s, w);
        QuietStep(s, t, E2(x, w, s.read), s.out);
      }
    case E2(x, w, r) => if s.write == w { ReserveStep(s, t); } else { QuietStep(s, t, E0(x), s.out); }
    case E3(x, w) => StoreStep(s, t);
    case E4(w) => PublishStep(s, t);
    case E5 => AddStep(s, t);
    case D0 => QuietStep(s, t, D1(s.read), s.out);
    case D1(r) =>
      if Slot(s.size, r) == Slot(s.size, s.maxRead) {
        QuietStep(s, t, Idle, s.out + [Return(t, Nothing)]);
      } else {
        QuietStep(s, t, D2(r), s.out);
      }
    case D2(r) => QuietStep(s, t, D3(r, s.queue[Slot(s.size, r)]), s.out);
    case D3(r, a) => if s.read == r { TakeStep(s, t); } else { QuietStep(s, t, D0, s.out); }
    case D4(a) => SubStep(s, t);
  }

  lemma NextKeeps<T>(s: State<T>, e: Event<T>)
    requires Inv(s)
    ensures Inv(Next(s, e))
  {
    match e
    case Enqueue(t, x) => if Rests(s, t) { QuietStep(s, t, E0(x), s.out); }
    case Dequeue(t) => if Rests(s, t) { QuietStep(s, t, D0, s.out); }
    case Go(t) => if t in s.pcs { StepKeeps(s, t); }
  }

  lemma {:induction false} RunKeeps<T>(queue: seq<T>, es: seq<Event<T>>)
    requires |queue| > 0
    ensures Inv(Run(queue, es))
  {
    if es == [] {
      var s := Init(queue);
      assert Adding(s.pcs) == {} && Subtracting(s.pcs) == {};
    } else {
      RunKeeps(queue, es[..|es| - 1]);
      NextKeeps(Run(queue, es[..|es| - 1]), es[|es| - 1]);
    }
  }

  // ---------------------------------------------------------------------------------------------
  // What follows for every interleaving
  // ---------------------------------------------------------------------------------------------

  /** When no operation is under way, m_count is the number of elements in the queue. */
  lemma CountAtRest<T>(queue: seq<T>, es: seq<Event<T>>, s: State<T>)
    requires |queue| > 0 && s == Run(queue, es) && forall t :: t in s.pcs ==> s.pcs[t].Idle?
    ensures s.count == s.maxRead - s.read
  {
    RunKeeps(queue, es);
    assert Adding(s.pcs) == {} && Subtracting(s.pcs) == {};
  }

  lemma RefusedHere<T>(s: State<T>, t: nat)
    requires Inv(s) && t in s.pcs && s.pcs[t].E1? && Step(s, t).pcs[t].Idle?
    ensures s.pcs[t].w == s.write ==> s.write - s.read == s.size - 1
  {
    assert Knows(s, s.pcs[t]);
    if s.pcs[t].w == s.write && s.write + 1 < s.read + s.size { SlotsDiffer(s.size, s.read, s.write + 1); }
  }

  /** A refused enqueue met a full array, unless another thread reserved a place between its two reads. */
  lemma RefusedIsFull<T>(queue: seq<T>, es: seq<Event<T>>, s: State<T>, t: nat)
    requires |queue| > 0 && s == Run(queue, es) && t in s.pcs && s.pcs[t].E1? && Step(s, t).pcs[t].Idle?
    ensures s.pcs[t].w == s.write ==> s.write - s.read == s.size - 1
  {
    RunKeeps(queue, es);
    RefusedHere(s, t);
  }

  /** An empty answer met an empty queue, unless another thread took an element between its two reads. */
  lemma EmptyIsEmpty<T>(queue: seq<T>, es: seq<Event<T>>, s: State<T>, t: nat)
    requires |queue| > 0 && s == Run(queue, es) && t in s.pcs && s.pcs[t].D1? && Step(s, t).pcs[t].Idle?
    ensures s.pcs[t].r == s.read ==> s.maxRead == s.read
  {
    RunKeeps(queue, es);
    if s.pcs[t].r == s.read && s.read < s.maxRead { SlotsDiffer(s.size, s.read, s.maxRead); }
  }

  // ---------------------------------------------------------------------------------------------
  // What callers observe
  // ---------------------------------------------------------------------------------------------

  /**
   * The calls of a run, each named by the position of its event: which one each thread has under way,
   * the answers of those that have returned, and the entries that came and went while they were.
   */
  datatype Calls<T> = Calls(open: map<nat, nat>, done: map<nat, Answer<T>>, place: map<nat, nat>, took: map<nat, nat>)

  /** Event number k took state s to s'. Only the answers and the lengths of the histories are looked at. */
  function Observe<T>(h: Calls<T>, k: nat, e: Event<T>, s: State<T>, s': State<T>): Calls<T> {
    if !e.Go? then (if e.t in h.open then h else h.(open := h.open[e.t := k]))
    else if e.t !in h.open then h
    else
      var c := h.open[e.t];
      var place := if |s'.reserved| > |s.reserved| then h.place[c := |s.reserved|] else h.place;
      var took := if |s'.taken| > |s.taken| then h.took[c := |s.taken|] else h.took;
      if |s'.out| > |s.out| && s'.out[|s.out|].t == e.t
      then Calls(h.open - {e.t}, h.done[c := s'.out[|s.out|].answer], place, took)
      else h.(place := place, took := took)
  }

  function Observed<T>(queue: seq<T>, es: seq<Event<T>>): Calls<T>
    requires |queue| > 0
  {
    if es == [] then Calls(map[], map[], map[], map[])
    else
      var n := |es| - 1;
      Observe(Observed(queue, es[..n]), n, es[n], Run(queue, es[..n]), Run(queue, es))
  }

  /** A call that has returned: enqueue answered true exactly if it added its entry, dequeue with what it took. */
  ghost predicate Answered<T>(e: Event<T>, answer: Answer<T>, c: nat, h: Calls<T>, s: State<T>) {
    match e
    case Enqueue(t, x) =>
      c !in h.took && if answer.Added? then c in h.place else answer.Refused? && c !in h.place
    case Dequeue(t) =>
      && c !in h.place
      && if answer.Got? then c in h.took && h.took[c] < |s.taken| && s.taken[h.took[c]] == answer.a
         else answer.Nothing? && c !in h.took
    case Go(t) => false
  }

  ghost predicate DoneOk<T>(es: seq<Event<T>>, h: Calls<T>, s: State<T>) {
    forall c :: c in h.done ==> c < |es| && Answered(es[c], h.done[c], c, h, s)
  }

  ghost predicate OpenOk<T>(es: seq<Event<T>>, h: Calls<T>) {
    forall t :: t in h.open ==> h.open[t] < |es| && es[h.open[t]].t == t && h.open[t] !in h.done
  }

  /** Every entry of `reserved` is the value of the one enqueue that it belongs to. */
  ghost predicate PlaceOk<T>(es: seq<Event<T>>, h: Calls<T>, reserved: seq<T>) {
    && OneToOne(h.place, |reserved|)
    && (forall c :: c in h.place ==> c < |es| && Current(c, es[c].t, h))
    && (forall c :: c in h.place ==> es[c].Enqueue? && h.place[c] < |reserved| && reserved[h.place[c]] == es[c].x)
  }

  /** Every entry of `taken` went to one dequeue. */
  ghost predicate TookOk<T>(es: seq<Event<T>>, h: Calls<T>, taken: seq<T>) {
    && OneToOne(h.took, |taken|)
    && (forall c :: c in h.took ==> c < |es| && Current(c, es[c].t, h) && es[c].Dequeue? && h.took[c] < |taken|)
  }

  /** All calls of a run are accounted for: those that have returned, and those under way. */
  ghost predicate Explained<T>(es: seq<Event<T>>, h: Calls<T>, s: State<T>) {
    DoneOk(es, h, s) && OpenOk(es, h) && PlaceOk(es, h, s.reserved) && TookOk(es, h, s.taken)
  }

  predicate Current<T>(c: nat, t: nat, h: Calls<T>) { c in h.done || (t in h.open && h.open[t] == c) }

  ghost predicate OneToOne(m: map<nat, nat>, n: nat) {
    && (forall c, d :: c in m && d in m && m[c] == m[d] ==> c == d)
    && (forall i :: 0 <= i < n ==> Hit(m, i))
  }

  ghost predicate Hit(m: map<nat, nat>, i: nat) { exists c :: c in m && m[c] == i }

  /** What a call under way has done, from where its thread stands. */
  ghost predicate Stands<T>(pc: Pc<T>, c: nat, e: Event<T>, h: Calls<T>, taken: seq<T>) {
    match pc
    case Idle => false
    case E0(x) => e.Enqueue? && e.x == x && c !in h.place && c !in h.took
    case E1(x, w) => e.Enqueue? && e.x == x && c !in h.place && c !in h.took
    case E2(x, w, r) => e.Enqueue? && e.x == x && c !in h.place && c !in h.took
    case E3(x, w) => e.Enqueue? && c in h.place && c !in h.took
    case E4(w) => e.Enqueue? && c in h.place && c !in h.took
    case E5 => e.Enqueue? && c in h.place && c !in h.took
    case D0 => e.Dequeue? && c !in h.place && c !in h.took
    case D1(r) => e.Dequeue? && c !in h.place && c !in h.took
    case D2(r) => e.Dequeue? && c !in h.place && c !in h.took
    case D3(r, a) => e.Dequeue? && c !in h.place && c !in h.took
    case D4(a) => e.Dequeue? && c !in h.place && c in h.took && h.took[c] < |taken| && taken[h.took[c]] == a
  }

  ghost predicate StandsOk<T>(es: seq<Event<T>>, h: Calls<T>, s: State<T>)
    requires OpenOk(es, h)
  {
    && (forall t :: t in h.open <==> !Rests(s, t))
    && (forall t :: t in h.open ==> Stands(s.pcs[t], h.open[t], es[h.open[t]], h, s.taken))
  }

  ghost predicate Follows<T>(es: seq<Event<T>>, h: Calls<T>, s: State<T>) { Explained(es, h, s) && StandsOk(es, h, s) }

  lemma OneMore(m: map<nat, nat>, c: nat, n: nat)
    requires OneToOne(m, n) && c !in m && forall d :: d in m ==> m[d] < n
    ensures OneToOne(m[c := n], n + 1)
  {
    var m' := m[c := n];
    forall i | 0 <= i <= n ensures Hit(m', i) {
      if i < n {
        assert Hit(m, i);
        var d :| d in m && m[d] == i;
        assert d in m' && m'[d] == i;
      } else {
        assert c in m' && m'[c] == n;
      }
    }
  }

  lemma Longer<T>(es: seq<Event<T>>, h: Calls<T>, s: State<T>, e: Event<T>)
    requires Follows(es, h, s)
    ensures Follows(es + [e], h, s)
  {
    hide OneToOne, Answered, Stands, Rests;
    assert forall c :: 0 <= c < |es| ==> (es + [e])[c] == es[c];
  }

  /** A call begins. */
  lemma Begins<T>(es: seq<Event<T>>, h: Calls<T>, s: State<T>, t: nat, c: nat, pc: Pc<T>)
    requires Follows(es, h, s) && t !in h.open && c < |es| && es[c].t == t && !pc.Idle?
    requires c !in h.done && c !in h.place && c !in h.took && Stands(pc, c, es[c], h, s.taken)
    ensures Follows(es, h.(open := h.open[t := c]), At(s, t, pc))
  {
    hide OneToOne, StandsOk, Answered;
    var h', s' := h.(open := h.open[t := c]), At(s, t, pc);
    forall d | d in h.done ensures Answered(es[d], h.done[d], d, h', s') {
      SameHistories(es[d], h.done[d], d, h, s, h', s');
    }
    BeginsStand(es, h, s, t, c, pc);
  }

  lemma SameHistories<T>(e: Event<T>, answer: Answer<T>, c: nat, h: Calls<T>, s: State<T>, h': Calls<T>, s': State<T>)
    requires Answered(e, answer, c, h, s) && h'.place == h.place && h'.took == h.took && s'.taken == s.taken
    ensures Answered(e, answer, c, h', s')
  {}

  lemma BeginsStand<T>(es: seq<Event<T>>, h: Calls<T>, s: State<T>, t: nat, c: nat, pc: Pc<T>)
    requires OpenOk(es, h) && StandsOk(es, h, s) && t !in h.open && c < |es| && es[c].t == t && !pc.Idle?
    requires c !in h.done && Stands(pc, c, es[c], h, s.taken)
    ensures OpenOk(es, h.(open := h.open[t := c]))
    ensures StandsOk(es, h.(open := h.open[t := c]), At(s, t, pc))
  {
    var h', s' := h.(open := h.open[t := c]), At(s, t, pc);
    forall u | u in h'.open ensures Stands(s'.pcs[u], h'.open[u], es[h'.open[u]], h', s'.taken) {
      if u != t { assert Stands(s.pcs[u], h.open[u], es[h.open[u]], h, s.taken); }
    }
  }

  /** A step of a call that neither adds to the histories nor returns. */
  lemma Goes<T>(es: seq<Event<T>>, h: Calls<T>, s: State<T>, s': State<T>, t: nat, pc: Pc<T>)
    requires Follows(es, h, s) && t in h.open && !pc.Idle? && Stands(pc, h.open[t], es[h.open[t]], h, s.taken)
    requires s'.pcs == s.pcs[t := pc] && s'.reserved == s.reserved && s'.taken == s.taken
    ensures Follows(es, h, s')
  {
    hide OneToOne, Stands;
  }

  lemma CallStands<T>(es: seq<Event<T>>, h: Calls<T>, s: State<T>, t: nat)
    requires OpenOk(es, h) && StandsOk(es, h, s) && t in h.open
    ensures t in s.pcs && Stands(s.pcs[t], h.open[t], es[h.open[t]], h, s.taken)
  {}

  /** A step of one call changes nothing for the others. */
  lemma OthersStand<T>(es: seq<Event<T>>, h: Calls<T>, h': Calls<T>, s: State<T>, s': State<T>, t: nat)
    requires OpenOk(es, h) && StandsOk(es, h, s) && OpenOk(es, h') && t in h.open && t in s'.pcs
    requires s'.pcs == s.pcs[t := s'.pcs[t]] && h'.open == if t in h'.open then h.open else h.open - {t}
    requires t in h'.open <==> !s'.pcs[t].Idle?
    requires t in h'.open ==> Stands(s'.pcs[t], h.open[t], es[h.open[t]], h', s'.taken)
    requires s.taken <= s'.taken && forall c :: c != h.open[t] ==>
      (c in h'.place <==> c in h.place) && (c in h'.took <==> c in h.took) && (c in h.took ==> h'.took[c] == h.took[c])
    ensures StandsOk(es, h', s')
  {
    forall u | u in h'.open ensures Stands(s'.pcs[u], h'.open[u], es[h'.open[u]], h', s'.taken) {
      if u != t {
        assert es[h.open[u]].t == u && es[h.open[t]].t == t;
        assert Stands(s.pcs[u], h.open[u], es[h.open[u]], h, s.taken);
      }
    }
  }

  lemma Reserves<T>(es: seq<Event<T>>, h: Calls<T>, s: State<T>, s': State<T>, t: nat, pc: Pc<T>)
    requires Follows(es, h, s) && t in h.open && s'.pcs == s.pcs[t := pc] && s'.taken == s.taken && pc.E3?
    requires s.pcs[t].E2? && s'.reserved == s.reserved + [s.pcs[t].x]
    ensures Follows(es, h.(place := h.place[h.open[t] := |s.reserved|]), s')
  {
    hide OneToOne, StandsOk;
    var c := h.open[t];
    var h' := h.(place := h.place[c := |s.reserved|]);
    CallStands(es, h, s, t);
    OneMore(h.place, c, |s.reserved|);
    forall d | d in h.done ensures Answered(es[d], h.done[d], d, h', s') { assert Answered(es[d], h.done[d], d, h, s); }
    OthersStand(es, h, h', s, s', t);
  }

  lemma Takes<T>(es: seq<Event<T>>, h: Calls<T>, s: State<T>, s': State<T>, t: nat, pc: Pc<T>)
    requires Follows(es, h, s) && t in h.open && s'.pcs == s.pcs[t := pc] && s'.reserved == s.reserved && pc.D4?
    requires s.pcs[t].D3? && s'.taken == s.taken + [pc.a]
    ensures Follows(es, h.(took := h.took[h.open[t] := |s.taken|]), s')
  {
    hide OneToOne, StandsOk;
    var c := h.open[t];
    var h' := h.(took := h.took[c := |s.taken|]);
    CallStands(es, h, s, t);
    OneMore(h.took, c, |s.taken|);
    forall d | d in h.done ensures Answered(es[d], h.done[d], d, h', s') { assert Answered(es[d], h.done[d], d, h, s); }
    OthersStand(es, h, h', s, s', t);
  }

  lemma Returns<T>(es: seq<Event<T>>, h: Calls<T>, s: State<T>, s': State<T>, t: nat, answer: Answer<T>)
    requires Follows(es, h, s) && t in h.open && s'.pcs == s.pcs[t := Idle]
    requires s'.reserved == s.reserved && s'.taken == s.taken
    requires match s.pcs[t]
             case E1(_, _) => answer.Refused?
             case E5 => answer.Added?
             case D1(_) => answer.Nothing?
             case D4(a) => answer == Got(a)
             case _ => false
    ensures Follows(es, h.(open := h.open - {t}, done := h.done[h.open[t] := answer]), s')
  {
    hide OneToOne, StandsOk;
    var c := h.open[t];
    var h' := h.(open := h.open - {t}, done := h.done[c := answer]);
    CallStands(es, h, s, t);
    forall d | d in h.done ensures Answered(es[d], h.done[d], d, h', s') { assert Answered(es[d], h.done[d], d, h, s); }
    OthersStand(es, h, h', s, s', t);
  }

  lemma ObserveKeeps<T>(es: seq<Event<T>>, h: Calls<T>, s: State<T>, e: Event<T>)
    requires Follows(es, h, s) && WellFormed(s)
    ensures Follows(es + [e], Observe(h, |es|, e, s, Next(s, e)), Next(s, e))
  {
    hide DoneOk, PlaceOk, TookOk, StandsOk;
    Longer(es, h, s, e);
    if !e.Go? {
      StandsOpen(es, h, s);
      if e.t !in h.open {
        FreshCall(es, h, s);
        Begins(es + [e], h, s, e.t, |es|, if e.Enqueue? then E0(e.x) else D0);
      }
    } else if e.t in h.open {
      GoKeeps(es + [e], h, s, e.t, |es|);
    } else {
      StandsOpen(es, h, s);
    }
  }

  lemma FreshCall<T>(es: seq<Event<T>>, h: Calls<T>, s: State<T>)
    requires Explained(es, h, s)
    ensures |es| !in h.done && |es| !in h.place && |es| !in h.took
  {}

  lemma GoKeeps<T>(es: seq<Event<T>>, h: Calls<T>, s: State<T>, t: nat, k: nat)
    requires Follows(es, h, s) && WellFormed(s) && t in h.open
    ensures Follows(es, Observe(h, k, Go(t), s, Next(s, Go(t))), Next(s, Go(t)))
  {
    hide Follows, Stands;
    FollowsParts(es, h, s);
    CallStands(es, h, s, t);
    var s', c, pc := Next(s, Go(t)), h.open[t], s.pcs[t];
    if |s'.reserved| > |s.reserved| {
      Reserves(es, h, s, s', t, s'.pcs[t]);
    } else if |s'.taken| > |s.taken| {
      Takes(es, h, s, s', t, s'.pcs[t]);
    } else if |s'.out| > |s.out| {
      Returns(es, h, s, s', t, s'.out[|s.out|].answer);
    } else {
      StaysOn(es, h, s, t);
      Goes(es, h, s, s', t, s'.pcs[t]);
    }
  }

  lemma FollowsParts<T>(es: seq<Event<T>>, h: Calls<T>, s: State<T>)
    requires Follows(es, h, s)
    ensures OpenOk(es, h) && StandsOk(es, h, s) && forall t :: t in h.open ==> h.open[t] < |es|
  {}

  lemma StaysOn<T>(es: seq<Event<T>>, h: Calls<T>, s: State<T>, t: nat)
    requires WellFormed(s) && t in s.pcs && t in h.open && h.open[t] < |es|
    requires Stands(s.pcs[t], h.open[t], es[h.open[t]], h, s.taken)
    requires var s' := Step(s, t);
      |s'.reserved| == |s.reserved| && |s'.taken| == |s.taken| && |s'.out| == |s.out|
    ensures var s' := Step(s, t);
      !s'.pcs[t].Idle? && Stands(s'.pcs[t], h.open[t], es[h.open[t]], h, s.taken)
  {}

  lemma RunStep<T>(queue: seq<T>, es: seq<Event<T>>)
    requires |queue| > 0 && es != []
    ensures Run(queue, es) == Next(Run(queue, es[..|es| - 1]), es[|es| - 1])
    ensures Observed(queue, es) == Observe(Observed(queue, es[..|es| - 1]), |es| - 1, es[|es| - 1],
                                           Run(queue, es[..|es| - 1]), Run(queue, es))
  {
    hide Observe, Next, Run;
    RunUnfolds(queue, es);
  }

  lemma RunUnfolds<T>(queue: seq<T>, es: seq<Event<T>>)
    requires |queue| > 0 && es != []
    ensures Run(queue, es) == Next(Run(queue, es[..|es| - 1]), es[|es| - 1])
  {
    hide Next;
  }

  lemma FollowsStart<T>(queue: seq<T>)
    requires |queue| > 0
    ensures Follows([], Observed(queue, []), Run(queue, []))
  {}

  lemma {:induction false} AllFollow<T>(queue: seq<T>, es: seq<Event<T>>)
    requires |queue| > 0
    ensures Follows(es, Observed(queue, es), Run(queue, es))
  {
    hide Observed, Run, Follows, Observe, Next;
    if es == [] {
      FollowsStart(queue);
    } else {
      var n := |es| - 1;
      AllFollow(queue, es[..n]);
      RunStep(queue, es);
      assert es[..n] + [es[n]] == es;
      ObserveKeeps(es[..n], Observed(queue, es[..n]), Run(queue, es[..n]), es[n]);
    }
  }

  /** What dequeue d answered was passed to the enqueue whose entry it took. */
  ghost predicate Delivered<T>(es: seq<Event<T>>, h: Calls<T>, d: nat, a: T) {
    d in h.took && exists c :: c in h.place && h.place[c] == h.took[d] && c < |es| && es[c].Enqueue? && es[c].x == a
  }

  /**
   * In every interleaving of any number of threads each call that has returned is answered by what it
   * did. Every entry of the queue is the value passed to the one enqueue that added it; the entries
   * taken are, in order, the first ones added, each goes to one dequeue, and that answers with it. The
   * three indices stay in their bounds.
   */
  lemma FirstInFirstOut<T>(queue: seq<T>, es: seq<Event<T>>)
    requires |queue| > 0
    ensures var s, h := Run(queue, es), Observed(queue, es);
      && s.taken <= s.reserved && |s.taken| == s.read && |s.reserved| == s.write
      && s.read <= s.maxRead <= s.write < s.read + s.size
      && Explained(es, h, s) && (forall t :: t in h.open <==> !Rests(s, t))
      && forall d :: d in h.done && h.done[d].Got? ==> Delivered(es, h, d, h.done[d].a)
  {
    RunKeeps(queue, es);
    AllFollow(queue, es);
    var s, h := Run(queue, es), Observed(queue, es);
    forall d | d in h.done && h.done[d].Got? ensures Delivered(es, h, d, h.done[d].a) {
      assert Answered(es[d], h.done[d], d, h, s) && Hit(h.place, h.took[d]);
    }
  }

  /** What is known of n entries stays, and further ones come behind. */
  ghost predicate Extends(m: map<nat, nat>, n: nat, m': map<nat, nat>, n': nat) {
    && n <= n' && (forall c :: c in m ==> c in m' && m'[c] == m[c])
    && (forall c :: c in m' && c !in m ==> n <= m'[c] < n')
  }

  ghost predicate Grown<T>(h: Calls<T>, s: State<T>, h': Calls<T>, s': State<T>) {
    && Extends(h.place, |s.reserved|, h'.place, |s'.reserved|) && Extends(h.took, |s.taken|, h'.took, |s'.taken|)
    && forall c :: c in h.done ==> c in h'.done && h'.done[c] == h.done[c]
  }

  lemma GrownAgain<T>(h: Calls<T>, s: State<T>, h': Calls<T>, s': State<T>, h'': Calls<T>, s'': State<T>)
    requires Grown(h, s, h', s') && Grown(h', s', h'', s'')
    ensures Grown(h, s, h'', s'')
  {}

  lemma {:induction false} EntriesStay<T>(queue: seq<T>, es: seq<Event<T>>, m: nat)
    requires |queue| > 0 && m <= |es|
    ensures Grown(Observed(queue, es[..m]), Run(queue, es[..m]), Observed(queue, es), Run(queue, es))
    decreases |es|
  {
    hide Grown, Observed, Run, Follows, Observe, Next;
    if m < |es| {
      var n := |es| - 1;
      var h, s := Observed(queue, es[..n]), Run(queue, es[..n]);
      assert es[..n][..m] == es[..m];
      EntriesStay(queue, es[..n], m);
      AllFollow(queue, es[..n]);
      RunStep(queue, es);
      OneStays(es[..n], h, s, es[n]);
      GrownAgain(Observed(queue, es[..m]), Run(queue, es[..m]), h, s, Observed(queue, es), Run(queue, es));
    } else {
      assert es[..m] == es;
      GrownSelf(Observed(queue, es), Run(queue, es));
    }
  }

  lemma GrownSelf<T>(h: Calls<T>, s: State<T>)
    ensures Grown(h, s, h, s)
  {}

  lemma OneStays<T>(es: seq<Event<T>>, h: Calls<T>, s: State<T>, e: Event<T>)
    requires Follows(es, h, s) && WellFormed(s)
    ensures Grown(h, s, Observe(h, |es|, e, s, Next(s, e)), Next(s, e))
  {
    hide DoneOk, PlaceOk, TookOk, StandsOk;
    StandsOpen(es, h, s);
    if e.Go? && e.t in h.open { CallFresh(es, h, s, e.t); }
  }

  lemma StandsOpen<T>(es: seq<Event<T>>, h: Calls<T>, s: State<T>)
    requires OpenOk(es, h) && StandsOk(es, h, s)
    ensures forall t :: t in h.open <==> !Rests(s, t)
  {}

  /** A call that is about to add or take an entry has not done so yet. */
  lemma CallFresh<T>(es: seq<Event<T>>, h: Calls<T>, s: State<T>, t: nat)
    requires OpenOk(es, h) && StandsOk(es, h, s) && t in h.open
    ensures t in s.pcs && h.open[t] !in h.done
    ensures (s.pcs[t].E2? ==> h.open[t] !in h.place) && (s.pcs[t].D3? ==> h.open[t] !in h.took)
  {
    CallStands(es, h, s, t);
  }

  /**
   * The order of calls is kept: what was added by a call that had returned when another one began
   * stands before what that one adds, and likewise for what is taken.
   */
  lemma InCallOrder<T>(queue: seq<T>, es: seq<Event<T>>, c: nat, d: nat)
    requires |queue| > 0 && d <= |es| && c in Observed(queue, es[..d]).done
    ensures var h := Observed(queue, es);
      && (c in h.place && d in h.place ==> h.place[c] < h.place[d])
      && (c in h.took && d in h.took ==> h.took[c] < h.took[d])
  {
    hide Run, Observed;
    EntriesStay(queue, es, d);
    AllFollow(queue, es[..d]);
    AllFollow(queue, es);
    var h, h' := Observed(queue, es[..d]), Observed(queue, es);
    assert d !in h.place && d !in h.took;
    SameAnswer(es, es[..d], h, Run(queue, es[..d]), h', Run(queue, es), c);
  }

  lemma SameAnswer<T>(es: seq<Event<T>>, es0: seq<Event<T>>, h: Calls<T>, s: State<T>, h': Calls<T>, s': State<T>,
                      c: nat)
    requires es0 <= es && DoneOk(es0, h, s) && DoneOk(es, h', s') && c in h.done && c in h'.done
    requires h'.done[c] == h.done[c]
    ensures (c in h'.place <==> c in h.place) && (c in h'.took <==> c in h.took)
  {
    assert es[c] == es0[c];
    assert Answered(es0[c], h.done[c], c, h, s) && Answered(es[c], h'.done[c], c, h', s');
  }

  // ---------------------------------------------------------------------------------------------
  // Calls without others
  // ---------------------------------------------------------------------------------------------

  function Solo<T>(s: State<T>, t: nat, n: nat): State<T>
    requires WellFormed(s)
    decreases n
  {
    if n == 0 then s else Solo(Next(s, Go(t)), t, n - 1)
  }

  lemma AtRest<T>(s: State<T>)
    requires Inv(s) && forall u :: Rests(s, u)
    ensures s.maxRead == s.write && s.count == s.write - s.read
  {
    forall u | u in s.pcs ensures s.pcs[u].Idle? { assert Rests(s, u); }
    assert !HasOwner(s.pcs, s.maxRead);
    assert Adding(s.pcs) == {} && Subtracting(s.pcs) == {};
  }

  /** What a call alone does: its answer, and the change of the queue. */
  ghost predicate Does<T>(s: State<T>, s': State<T>, t: nat, answer: Answer<T>, added: seq<T>, taken: seq<T>) {
    && Rests(s', t) && s'.out == s.out + [Return(t, answer)]
    && s'.reserved == s.reserved + added && s'.taken == s.taken + taken
  }

  /** With no other call under way, enqueue returns after six accesses, with false exactly on a full queue. */
  lemma EnqueueAlone<T>(s: State<T>, t: nat, x: T)
    requires Inv(s) && forall u :: Rests(s, u)
    ensures var full := s.write - s.read == s.size - 1;
      Does(s, Solo(Next(s, Enqueue(t, x)), t, 6), t, if full then Refused else Added, if full then [] else [x], [])
  {
    hide Inv, Solo, Next;
    AtRest(s);
    FullTest(s);
    var s1 := Next(s, Enqueue(t, x));
    var s3 := Next(Next(s1, Go(t)), Go(t));
    var s5 := Next(Next(s3, Go(t)), Go(t));
    SoloTwo(s1, t, 4);
    SoloTwo(s3, t, 2);
    SoloTwo(s5, t, 0);
    SoloNone(Next(Next(s5, Go(t)), Go(t)), t);
    EnqueueTests(s, t, x);
    if s.write - s.read == s.size - 1 { Idles(s3, t); Idles(s5, t); } else { EnqueueAdds(s, s3, t, x); }
  }

  lemma Idles<T>(s: State<T>, t: nat)
    requires WellFormed(s) && Rests(s, t)
    ensures Next(Next(s, Go(t)), Go(t)) == s
  {}

  lemma EnqueueTests<T>(s: State<T>, t: nat, x: T)
    requires WellFormed(s) && Rests(s, t)
    ensures Next(Next(Next(s, Enqueue(t, x)), Go(t)), Go(t)) ==
      if Slot(s.size, s.write + 1) == Slot(s.size, s.read) then Back(s, t, Refused)
      else At(s, t, E2(x, s.write, s.read))
  {
    assert s.pcs[t := E0(x)][t := E1(x, s.write)] == s.pcs[t := E1(x, s.write)];
    assert s.pcs[t := E1(x, s.write)][t := Idle] == s.pcs[t := Idle];
    assert s.pcs[t := E1(x, s.write)][t := E2(x, s.write, s.read)] == s.pcs[t := E2(x, s.write, s.read)];
  }

  lemma EnqueueAdds<T>(s: State<T>, s3: State<T>, t: nat, x: T)
    requires WellFormed(s) && Rests(s, t) && s.maxRead == s.write && s3 == At(s, t, E2(x, s.write, s.read))
    ensures Does(s, Next(Next(Next(Next(s3, Go(t)), Go(t)), Go(t)), Go(t)), t, Added, [x], [])
  {
    var s4 := Next(Next(s3, Go(t)), Go(t));
    assert s4.pcs[t] == E4(s.write) && s4.maxRead == s.write && s4.reserved == s.reserved + [x];
  }

  lemma FullTest<T>(s: State<T>)
    requires Inv(s)
    ensures WellFormed(s)
    ensures Slot(s.size, s.write + 1) == Slot(s.size, s.read) <==> s.write - s.read == s.size - 1
    ensures Slot(s.size, s.read) == Slot(s.size, s.maxRead) <==> s.read == s.maxRead
  {
    if s.write + 1 < s.read + s.size { SlotsDiffer(s.size, s.read, s.write + 1); } else { ModAdd(s.read, s.size); }
    if s.read < s.maxRead { SlotsDiffer(s.size, s.read, s.maxRead); }
  }

  /** With no other call under way, dequeue returns after five accesses, with false exactly on an empty queue. */
  lemma DequeueAlone<T>(s: State<T>, t: nat)
    requires Inv(s) && forall u :: Rests(s, u)
    ensures s.read < s.write ==> s.read < |s.reserved|
    ensures var s' := Solo(Next(s, Dequeue(t)), t, 5);
      if s.read == s.write then Does(s, s', t, Nothing, [], [])
      else Does(s, s', t, Got(s.reserved[s.read]), [], [s.reserved[s.read]])
  {
    hide Solo;
    AtRest(s);
    FullTest(s);
    var s1 := Next(s, Dequeue(t));
    var s3 := Next(Next(s1, Go(t)), Go(t));
    var s5 := Next(Next(s3, Go(t)), Go(t));
    SoloTwo(s1, t, 3);
    SoloTwo(s3, t, 1);
    SoloOne(s5, t);
  }

  lemma SoloTwo<T>(s: State<T>, t: nat, n: nat)
    requires WellFormed(s)
    ensures Solo(s, t, n + 2) == Solo(Next(Next(s, Go(t)), Go(t)), t, n)
  {
    hide Next;
    assert Solo(s, t, n + 2) == Solo(Next(s, Go(t)), t, n + 1);
  }

  lemma SoloNone<T>(s: State<T>, t: nat)
    requires WellFormed(s)
    ensures Solo(s, t, 0) == s
  {}

  lemma SoloOne<T>(s: State<T>, t: nat)
    requires WellFormed(s)
    ensures Solo(s, t, 1) == Next(s, Go(t))
  {
    hide Next;
    SoloNone(Next(s, Go(t)), t);
  }
}
