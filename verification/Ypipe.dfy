/**
 * The single-writer single-reader pipe of cpp/myvsc/cas_queue/ypipe.hpp over the chunked queue of
 * cpp/myvsc/cas_queue/yqueue.hpp, as the set of its interleavings.
 *
 * A pointer to an element is a chunk identity and an offset; freed chunk identities may be handed
 * out again. Each access to the shared pointer c, to the spare chunk, and to an element is a step
 * of its own. The Book beside the Pipe is history: which position, counted from the start of time,
 * each pointer stands for, what was written, which items were marked incomplete, and what was read.
 */
module Ypipe {
  import opened Modular
  import opened Options

  datatype Ptr = Ptr(chunk: nat, pos: nat)

  datatype WriterPc<T> =
    | Ready
    | Stored(v: T, incomplete: bool)                  // the element is in place, push comes next
    | Linking(incomplete: bool, sc: Option<nat>)      // push has taken the spare chunk, if any
    | Cleared                                         // flush saw c == NULL and will set it

  datatype ReaderPc<T> =
    | Waiting
    | Got                                             // check_read said yes
    | Popping(v: T)                                   // the element has been copied out
    | Recycling(o: nat)                               // pop has left chunk o behind

  /** The number of elements per chunk. */
  type Size = n: nat | n > 0 witness 1

  datatype Pipe<T> = Pipe(
    n: Size, vals: map<nat, seq<T>>, next: map<nat, nat>, prev: map<nat, nat>,
    begin: Ptr, back: Ptr, end: Ptr, spare: Option<nat>,
    w: Ptr, f: Ptr, r: Option<Ptr>, c: Option<Ptr>,
    wpc: WriterPc<T>, rpc: ReaderPc<T>)

  datatype Book<T> = Book(
    first: nat, chain: seq<nat>,
    front: nat, back: nat, f: nat, w: nat, r: nat,
    log: seq<T>, marks: seq<bool>, delivered: seq<T>)

  datatype State<T> = State(p: Pipe<T>, b: Book<T>)

  // ---------------------------------------------------------------------------------------------
  // Steps
  // ---------------------------------------------------------------------------------------------

  /** Fresh chunks come from malloc, which may return any identity that is not in use. */
  datatype Event<T> =
    | Write(v: T, incomplete: bool) | Push | Link(got: nat, junk: seq<T>)
    | Unwrite
    | Flush | Reset
    | CheckRead | Fetch | Pop | Recycle

  function PutValue<T>(p: Pipe<T>, q: Ptr, v: T): Pipe<T>
    requires q.chunk in p.vals && q.pos < |p.vals[q.chunk]|
  {
    p.(vals := p.vals[q.chunk := p.vals[q.chunk][q.pos := v]])
  }

  function ButLast<X>(a: seq<X>): seq<X> { if a == [] then [] else a[..|a| - 1] }

  function ButFirst<X>(a: seq<X>): seq<X> { if a == [] then [] else a[1..] }

  /** queue.back() = value, the first half of write. */
  function DoWrite<T>(s: State<T>, v: T, incomplete: bool): State<T> {
    if s.p.wpc.Ready? && s.p.back.chunk in s.p.vals && s.p.back.pos < |s.p.vals[s.p.back.chunk]| then
      State(PutValue(s.p, s.p.back, v).(wpc := Stored(v, incomplete)), s.b)
    else s
  }

  /** push, up to and including the exchange of the spare chunk. */
  function DoPush<T>(s: State<T>): State<T> {
    if !s.p.wpc.Stored? then s else
    var p := s.p.(back := s.p.end, end := Ptr(s.p.end.chunk, s.p.end.pos + 1));
    var b := s.b.(back := s.b.back + 1, log := s.b.log + [s.p.wpc.v], marks := s.b.marks + [s.p.wpc.incomplete]);
    if p.end.pos != p.n then
      if s.p.wpc.incomplete then State(p.(wpc := Ready), b)
      else State(p.(f := p.back, wpc := Ready), b.(f := b.back))
    else State(p.(spare := None, wpc := Linking(s.p.wpc.incomplete, p.spare)), b)
  }

  /** The rest of push: link the spare or a fresh chunk behind the last one. */
  function DoLink<T>(s: State<T>, got: nat, junk: seq<T>): State<T> {
    if !s.p.wpc.Linking? then s
    else if s.p.wpc.sc.None? && (got in s.p.vals || |junk| != s.p.n) then s
    else
      var x := if s.p.wpc.sc.Some? then s.p.wpc.sc.v else got;
      var vals := if s.p.wpc.sc.Some? then s.p.vals else s.p.vals[got := junk];
      var p := s.p.(vals := vals, next := s.p.next[s.p.end.chunk := x], prev := s.p.prev[x := s.p.end.chunk],
                    end := Ptr(x, 0), wpc := Ready);
      var b := s.b.(chain := s.b.chain + [x]);
      if s.p.wpc.incomplete then State(p, b) else State(p.(f := p.back), b.(f := b.back))
  }

  /** One cell back: within the chunk, or to the last cell of the previous chunk. */
  function Before<T>(p: Pipe<T>, q: Ptr): Ptr
    requires q.pos == 0 ==> q.chunk in p.prev
  {
    if q.pos != 0 then Ptr(q.chunk, q.pos - 1) else Ptr(p.prev[q.chunk], p.n - 1)
  }

  /** unpush when the end pointer stays in its chunk. */
  function UnpushInside<T>(s: State<T>): State<T>
    requires s.p.back.pos == 0 ==> s.p.back.chunk in s.p.prev
  {
    State(s.p.(back := Before(s.p, s.p.back),
      end := Ptr(s.p.end.chunk, if s.p.end.pos > 0 then s.p.end.pos - 1 else 0)),
          s.b.(back := if s.b.back > 0 then s.b.back - 1 else 0, log := ButLast(s.b.log), marks := ButLast(s.b.marks)))
  }

  /** unpush when the last chunk becomes empty and is freed. */
  function UnpushAcross<T>(s: State<T>): State<T>
    requires (s.p.back.pos == 0 ==> s.p.back.chunk in s.p.prev) && s.p.end.chunk in s.p.prev
  {
    var e := s.p.prev[s.p.end.chunk];
    State(s.p.(back := Before(s.p, s.p.back), end := Ptr(e, s.p.n - 1), vals := s.p.vals - {s.p.end.chunk},
      next := s.p.next - {e}),
          s.b.(back := if s.b.back > 0 then s.b.back - 1 else 0,
               log := ButLast(s.b.log), marks := ButLast(s.b.marks), chain := ButLast(s.b.chain)))
  }

  /** unwrite: refused if everything is complete, otherwise unpush. */
  function DoUnwrite<T>(s: State<T>): State<T> {
    if !s.p.wpc.Ready? || s.p.f == s.p.back then s
    else if s.p.back.pos == 0 && s.p.back.chunk !in s.p.prev then s
    else if s.p.end.pos != 0 then UnpushInside(s)
    else if s.p.end.chunk !in s.p.prev then s
    else UnpushAcross(s)
  }

  /** flush, up to and including the CAS on c. */
  function DoFlush<T>(s: State<T>): State<T> {
    if !s.p.wpc.Ready? || s.p.w == s.p.f then s
    else if s.p.c == Some(s.p.w) then State(s.p.(c := Some(s.p.f), w := s.p.f), s.b.(w := s.b.f))
    else State(s.p.(wpc := Cleared), s.b)
  }

  /** The rest of a failed flush. */
  function DoReset<T>(s: State<T>): State<T> {
    if !s.p.wpc.Cleared? then s
    else State(s.p.(c := Some(s.p.f), w := s.p.f, wpc := Ready), s.b.(w := s.b.f))
  }

  /** check_read: prefetched already, or CAS on c. */
  function DoCheckRead<T>(s: State<T>): State<T> {
    if !s.p.rpc.Waiting? then s
    else if s.p.r.Some? && s.p.r.v != s.p.begin then State(s.p.(rpc := Got), s.b)
    else
      var p := s.p.(r := s.p.c, c := if s.p.c == Some(s.p.begin) then None else s.p.c);
      var b := if s.p.c.Some? then s.b.(r := s.b.w) else s.b;
      if p.r.None? || p.r.v == p.begin then State(p, b) else State(p.(rpc := Got), b)
  }

  function DoFetch<T>(s: State<T>): State<T> {
    if s.p.rpc.Got? && s.p.begin.chunk in s.p.vals && s.p.begin.pos < |s.p.vals[s.p.begin.chunk]| then
      State(s.p.(rpc := Popping(s.p.vals[s.p.begin.chunk][s.p.begin.pos])), s.b)
    else s
  }

  /** pop, up to the exchange of the spare chunk. */
  function DoPop<T>(s: State<T>): State<T> {
    if !s.p.rpc.Popping? then s else
    var b := s.b.(front := s.b.front + 1, delivered := s.b.delivered + [s.p.rpc.v]);
    if s.p.begin.pos + 1 != s.p.n then
      State(s.p.(begin := Ptr(s.p.begin.chunk, s.p.begin.pos + 1), rpc := Waiting), b)
    else if s.p.begin.chunk !in s.p.next then s
    else
      var x := s.p.next[s.p.begin.chunk];
      State(s.p.(begin := Ptr(x, 0), prev := s.p.prev - {x}, rpc := Recycling(s.p.begin.chunk)),
            b.(first := s.b.first + 1, chain := ButFirst(s.b.chain)))
  }

  /** The rest of pop: the chunk left behind becomes the spare, the old spare is freed. */
  function DoRecycle<T>(s: State<T>): State<T> {
    if !s.p.rpc.Recycling? then s
    else
      var vals := if s.p.spare.Some? then s.p.vals - {s.p.spare.v} else s.p.vals;
      State(s.p.(vals := vals, spare := Some(s.p.rpc.o), rpc := Waiting), s.b)
  }

  function Next<T>(s: State<T>, e: Event<T>): State<T> {
    match e
    case Write(v, incomplete) => DoWrite(s, v, incomplete)
    case Push => DoPush(s)
    case Link(got, junk) => DoLink(s, got, junk)
    case Unwrite => DoUnwrite(s)
    case Flush => DoFlush(s)
    case Reset => DoReset(s)
    case CheckRead => DoCheckRead(s)
    case Fetch => DoFetch(s)
    case Pop => DoPop(s)
    case Recycle => DoRecycle(s)
  }

  // ---------------------------------------------------------------------------------------------
  // The invariant
  // ---------------------------------------------------------------------------------------------

  /** Position k counted from the start of time lies in chunk number Idx at offset Off. */
  ghost function Idx(n: Size, k: nat): nat
  {
    k / n
  }

  ghost function Off(n: Size, k: nat): nat
  {
    k % n
  }

  lemma Positions(n: Size, j: nat, k: nat)
    ensures Off(n, k) < n
    ensures Idx(n, k + 1) == (if Off(n, k) + 1 == n then Idx(n, k) + 1 else Idx(n, k))
    ensures Off(n, k + 1) == (if Off(n, k) + 1 == n then 0 else Off(n, k) + 1)
    ensures j <= k ==> Idx(n, j) <= Idx(n, k)
    ensures Idx(n, j) == Idx(n, k) && Off(n, j) == Off(n, k) ==> j == k
    ensures j < k && Idx(n, j) == Idx(n, k) ==> Off(n, j) < Off(n, k)
  {
    hide Idx, Off;
    NextPosition(n, k);
    PositionsApart(n, j, k);
  }

  lemma Split(n: Size, k: nat)
    ensures k == n * Idx(n, k) + Off(n, k) && Off(n, k) < n
  {}

  lemma NextPosition(n: Size, k: nat)
    ensures Idx(n, k + 1) == (if Off(n, k) + 1 == n then Idx(n, k) + 1 else Idx(n, k))
    ensures Off(n, k + 1) == (if Off(n, k) + 1 == n then 0 else Off(n, k) + 1) && Off(n, k) < n
  {
    Split(n, k);
    var q, r := Idx(n, k), Off(n, k);
    if r + 1 == n {
      assert n * (q + 1) == n * q + n;
      DivModUnique(k + 1, n, q + 1, 0);
    } else {
      DivModUnique(k + 1, n, q, r + 1);
    }
  }

  lemma PositionsApart(n: Size, j: nat, k: nat)
    ensures j <= k ==> Idx(n, j) <= Idx(n, k)
    ensures Idx(n, j) == Idx(n, k) ==> k - j == Off(n, k) - Off(n, j)
  {
    hide Idx, Off;
    Split(n, j);
    Split(n, k);
    Multiples(n, Idx(n, j), Idx(n, k));
  }

  lemma Multiples(n: Size, p: int, q: int)
    ensures p > q ==> n * p >= n * q + n
  {
    if p > q {
      MulAtLeast(n, p - q);
      assert n * (p - q) == n * p - n * q;
    }
  }

  /** The chunks in use, in order, and the number of the first one. */
  datatype Span = Span(n: Size, first: nat, chain: seq<nat>)

  ghost function SpanOf<T>(s: State<T>): Span { Span(s.p.n, s.b.first, s.b.chain) }

  ghost predicate Live(x: Span, k: nat) { x.first <= Idx(x.n, k) < x.first + |x.chain| }

  /** The pointer that stands for position k. */
  ghost function At(x: Span, k: nat): Ptr
    requires Live(x, k)
  {
    Ptr(x.chain[Idx(x.n, k) - x.first], Off(x.n, k))
  }

  ghost predicate Stands(x: Span, q: Ptr, k: nat) { Live(x, k) && q == At(x, k) }

  /** The chunks from begin to end: different, allocated, linked both ways. */
  ghost predicate ChainOk<T>(n: Size, vals: map<nat, seq<T>>, next: map<nat, nat>, prev: map<nat, nat>,
                             chain: seq<nat>) {
    && |chain| > 0
    && (forall i, j :: 0 <= i < j < |chain| ==> chain[i] != chain[j])
    && (forall i :: 0 <= i < |chain| ==> chain[i] in vals)
    && (forall i :: 0 <= i < |chain| - 1 ==> chain[i] in next && next[chain[i]] == chain[i + 1])
    && (forall i :: 1 <= i < |chain| ==> chain[i] in prev && prev[chain[i]] == chain[i - 1])
    && (forall x :: x in vals ==> |vals[x]| == n)
  }

  /** Chunks in hand, outside the chain: the spare, one being linked, one being recycled. */
  ghost predicate LooseOk<T>(vals: map<nat, seq<T>>, chain: seq<nat>, spare: Option<nat>, sc: Option<nat>,
                             o: Option<nat>) {
    && (forall x :: x == spare || x == sc || x == o ==> x.Some? ==> x.v in vals && x.v !in chain)
    && (spare.Some? ==> spare != sc && spare != o)
    && (sc.Some? ==> sc != o)
  }

  ghost function Linked<T>(wpc: WriterPc<T>): Option<nat> { if wpc.Linking? then wpc.sc else None }

  ghost function Recycled<T>(rpc: ReaderPc<T>): Option<nat> { if rpc.Recycling? then Some(rpc.o) else None }

  /** The end pointer is one past back, or off the edge of the last chunk while a chunk is being linked. */
  ghost predicate EndOk(x: Span, end: Ptr, back: nat, linking: bool) {
    if linking then
      |x.chain| > 0 && Idx(x.n, back) == x.first + |x.chain| - 1 && Off(x.n, back) + 1 == x.n
        && end == Ptr(x.chain[|x.chain| - 1], x.n)
    else Idx(x.n, back + 1) == x.first + |x.chain| - 1 && Stands(x, end, back + 1)
  }

  /** The shared pointer is the flush position, or NULL once the reader has found nothing there. */
  ghost predicate SharedOk(x: Span, c: Option<Ptr>, r: Option<Ptr>, cleared: bool, got: bool, b: Book) {
    && (if c.Some? then Stands(x, c.v, b.w) else b.front == b.w)
    && (cleared ==> c.None? && b.w < b.f)
    && (r.Some? ==> b.front <= b.r <= b.w && Stands(x, r.v, b.r))
    && (got ==> r.Some? && b.front < b.r)
  }

  ghost function Cell<T>(vals: map<nat, seq<T>>, q: Ptr): Option<T> {
    if q.chunk in vals && q.pos < |vals[q.chunk]| then Some(vals[q.chunk][q.pos]) else None
  }

  /** Every item written and not yet read is in its cell. */
  ghost predicate CellsOk<T>(x: Span, vals: map<nat, seq<T>>, front: nat, back: nat, log: seq<T>) {
    |log| == back && forall k :: front <= k < back && Live(x, k) ==> Cell(vals, At(x, k)) == Some(log[k])
  }

  ghost predicate HandsOk<T>(p: Pipe<T>, b: Book<T>) {
    && b.front <= |b.log| && b.delivered == b.log[..b.front]
    && (p.rpc.Popping? ==> b.front < |b.log| && p.rpc.v == b.log[b.front])
    && (p.wpc.Stored? ==> Cell(p.vals, p.back) == Some(p.wpc.v))
  }

  /** The item that is being pushed while a chunk is linked: whether it is incomplete. */
  ghost function Pending<T>(wpc: WriterPc<T>): Option<bool> { if wpc.Linking? then Some(wpc.incomplete) else None }

  /**
   * The items up to f and up to w end with a complete one, and all items from f on are incomplete,
   * save one that is still being pushed.
   */
  ghost predicate MarksOk(marks: seq<bool>, back: nat, f: nat, w: nat, pending: Option<bool>) {
    && |marks| == back && w <= f <= back
    && (f > 0 ==> !marks[f - 1]) && (w > 0 ==> !marks[w - 1])
    && (pending.Some? ==> f < back && marks[back - 1] == pending.v)
    && forall k :: f <= k < back ==> marks[k] || (k == back - 1 && pending == Some(false))
  }

  lemma MarksPushed(marks: seq<bool>, back: nat, f: nat, w: nat, incomplete: bool)
    requires MarksOk(marks, back, f, w, None)
    ensures MarksOk(marks + [incomplete], back + 1, f, w, Some(incomplete))
    ensures MarksOk(marks + [incomplete], back + 1, if incomplete then f else back + 1, w, None)
  {}

  lemma MarksLinked(marks: seq<bool>, back: nat, f: nat, w: nat, incomplete: bool)
    requires MarksOk(marks, back, f, w, Some(incomplete))
    ensures MarksOk(marks, back, if incomplete then f else back, w, None)
  {}

  lemma MarksDropped(marks: seq<bool>, back: nat, f: nat, w: nat)
    requires MarksOk(marks, back, f, w, None) && f < back
    ensures MarksOk(ButLast(marks), back - 1, f, w, None)
  {}

  lemma MarksFlushed(marks: seq<bool>, back: nat, f: nat, w: nat, pending: Option<bool>)
    requires MarksOk(marks, back, f, w, pending)
    ensures MarksOk(marks, back, f, f, pending)
  {}

  ghost predicate Inv<T>(s: State<T>) {
    var p, b, x := s.p, s.b, SpanOf(s);
    && ChainOk(p.n, p.vals, p.next, p.prev, b.chain)
    && LooseOk(p.vals, b.chain, p.spare, Linked(p.wpc), Recycled(p.rpc))
    && Idx(p.n, b.front) == b.first && b.front <= b.w <= b.f <= b.back
    && Stands(x, p.begin, b.front) && Stands(x, p.w, b.w) && Stands(x, p.f, b.f) && Stands(x, p.back, b.back)
    && EndOk(x, p.end, b.back, p.wpc.Linking?)
    && SharedOk(x, p.c, p.r, p.wpc.Cleared?, p.rpc.Got? || p.rpc.Popping?, b)
    && CellsOk(x, p.vals, b.front, b.back, b.log) && HandsOk(p, b) && MarksOk(b.marks, b.back, b.f, b.w, Pending(p.wpc))
  }

  ghost predicate Distinct(chain: seq<nat>) { forall i, j :: 0 <= i < j < |chain| ==> chain[i] != chain[j] }

  /** Between the first and the last live position, equal pointers mean equal positions. */
  lemma PointerIsPosition(x: Span, q: Ptr, j: nat, r: Ptr, k: nat)
    requires Distinct(x.chain) && Stands(x, q, j) && Stands(x, r, k)
    ensures q == r <==> j == k
  {
    Positions(x.n, j, k);
  }

  lemma LiveBetween(x: Span, j: nat, k: nat, l: nat)
    requires Live(x, j) && Live(x, l) && j <= k <= l
    ensures Live(x, k)
  {
    Positions(x.n, j, k);
    Positions(x.n, k, l);
  }

  lemma ChainFacts<T>(n: Size, vals: map<nat, seq<T>>, next: map<nat, nat>, prev: map<nat, nat>, x: Span)
    requires ChainOk(n, vals, next, prev, x.chain) && x.n == n
    ensures Distinct(x.chain) && |x.chain| > 0
    ensures forall k :: Live(x, k) ==> At(x, k).chunk in vals && At(x, k).pos < |vals[At(x, k).chunk]|
  {
    forall k | Live(x, k) ensures Off(n, k) < n { Positions(n, k, k); }
  }

  // ---------------------------------------------------------------------------------------------
  // Every step keeps it
  // ---------------------------------------------------------------------------------------------

  lemma WriteStep<T>(s: State<T>, v: T, incomplete: bool)
    requires Inv(s) && s.p.wpc.Ready?
    ensures Inv(DoWrite(s, v, incomplete)) && DoWrite(s, v, incomplete).p.wpc.Stored?
  {
    hide Idx, Off, EndOk, SharedOk, MarksOk;
    var s', x := DoWrite(s, v, incomplete), SpanOf(s);
    ChainFacts(s.p.n, s.p.vals, s.p.next, s.p.prev, x);
    forall k | s.b.front <= k < s.b.back && Live(x, k) ensures Cell(s'.p.vals, At(x, k)) == Cell(s.p.vals, At(x, k)) {
      PointerIsPosition(x, At(x, k), k, s.p.back, s.b.back);
    }
  }

  lemma PushStep<T>(s: State<T>)
    requires Inv(s) && s.p.wpc.Stored?
    ensures Inv(DoPush(s))
  {
    hide Idx, Off, ChainOk, LooseOk, SharedOk, CellsOk, EndOk, Stands, MarksOk;
    var s', x := DoPush(s), SpanOf(s);
    MarksPushed(s.b.marks, s.b.back, s.b.f, s.b.w, s.p.wpc.incomplete);
    EndPushed(x, s.p.end, s.b.back);
    GrownCells(x, s.p.vals, s.b.front, s.b.back, s.b.log, s.p.back, s.p.wpc.v);
    SharedAgain(x, s.p.c, s.p.r, false, s.p.rpc.Got? || s.p.rpc.Popping?, s.b, s'.b);
    assert LooseOk(s'.p.vals, s'.b.chain, s'.p.spare, Linked(s'.p.wpc), Recycled(s'.p.rpc)) by {
      SpareTaken(s.p.vals, s.b.chain, s.p.spare, Recycled(s.p.rpc));
    }
  }

  /** The end pointer becomes back, and the one behind it end, if it is still in the chunk. */
  lemma EndPushed(x: Span, end: Ptr, back: nat)
    requires EndOk(x, end, back, false)
    ensures Stands(x, end, back + 1) && EndOk(x, Ptr(end.chunk, end.pos + 1), back + 1, end.pos + 1 == x.n)
  {
    hide Idx, Off;
    Positions(x.n, back, back + 1);
  }

  lemma GrownCells<T>(x: Span, vals: map<nat, seq<T>>, front: nat, back: nat, log: seq<T>, q: Ptr, v: T)
    requires CellsOk(x, vals, front, back, log) && Stands(x, q, back) && Cell(vals, q) == Some(v)
    ensures CellsOk(x, vals, front, back + 1, log + [v])
  {}

  /** The shared pointers do not depend on what the writer has not flushed. */
  lemma SharedAgain(x: Span, c: Option<Ptr>, r: Option<Ptr>, cleared: bool, got: bool, b: Book, b': Book)
    requires SharedOk(x, c, r, cleared, got, b) && b'.front == b.front && b'.w == b.w && b'.r == b.r
      && (b.f <= b'.f || !cleared)
    ensures SharedOk(x, c, r, cleared, got, b')
  {}

  lemma SpareTaken<T>(vals: map<nat, seq<T>>, chain: seq<nat>, spare: Option<nat>, o: Option<nat>)
    requires LooseOk(vals, chain, spare, None, o)
    ensures LooseOk(vals, chain, None, spare, o)
  {}

  lemma LinkStep<T>(s: State<T>, got: nat, junk: seq<T>)
    requires Inv(s) && s.p.wpc.Linking?
    ensures Inv(DoLink(s, got, junk))
  {
    hide Idx, Off, CellsOk, ChainOk, LooseOk, Live, At, Stands, EndOk, SharedOk, HandsOk, Within, MarksOk;
    var s', x := DoLink(s, got, junk), SpanOf(s);
    if s' != s {
      MarksLinked(s.b.marks, s.b.back, s.b.f, s.b.w, s.p.wpc.incomplete);
      var x' := SpanOf(s');
      var y := s'.p.end.chunk;
      FreshChunk(s.p.n, s.p.vals, s.p.next, s.p.prev, s.b.chain, s.p.spare, s.p.wpc.sc, Recycled(s.p.rpc), got, junk);
      LinkedChain(s.p.n, s.p.vals, s'.p.vals, s.p.next, s.p.prev, s.b.chain, y);
      LinkedLoose(s.p.vals, s'.p.vals, s.b.chain, s.p.spare, s.p.wpc.sc, Recycled(s.p.rpc), y);
      EndLinked(x, x', s.p.end, s.b.back, y);
      LongerWithin(x, y);
      Carried(s, x', s'.p.vals, s.b.front, s.b.back);
      assert s.b.log[..s.b.back] == s.b.log;
      SharedCarried(s, x', s'.b);
      HandsAgain(s, s');
    }
  }

  lemma LongerWithin(x: Span, y: nat)
    ensures Within(x, x.(chain := x.chain + [y]))
  {}

  lemma HandsAgain<T>(s: State<T>, s': State<T>)
    requires HandsOk(s.p, s.b) && s'.p.rpc == s.p.rpc && s'.p.wpc.Ready? && s'.b.log == s.b.log
    requires s'.b.front == s.b.front && s'.b.delivered == s.b.delivered
    ensures HandsOk(s'.p, s'.b)
  {}

  lemma SharedCarried<T>(s: State<T>, x': Span, b': Book<T>)
    requires Inv(s) && !s.p.wpc.Cleared? && b'.front == s.b.front && b'.w == s.b.w && b'.r == s.b.r
    requires s.p.c.Some? ==> Stands(x', s.p.c.v, s.b.w)
    requires s.p.r.Some? && s.b.front <= s.b.r <= s.b.back ==> Stands(x', s.p.r.v, s.b.r)
    ensures SharedOk(x', s.p.c, s.p.r, false, s.p.rpc.Got? || s.p.rpc.Popping?, b')
  {
    hide Stands, Live, At;
  }

  /**
   * When chunks are added or dropped at the ends, the pointers to positions between front' and
   * back' stand for what they stood for, and the items there are in place.
   */
  lemma Carried<T>(s: State<T>, x': Span, vals': map<nat, seq<T>>, front': nat, back': nat)
    requires Inv(s) && s.b.front <= front' <= back' <= s.b.back
    requires Within(SpanOf(s), x') || (Within(x', SpanOf(s)) && Live(x', front') && Live(x', back'))
    requires forall c :: c in s.b.chain && c in x'.chain ==> c in s.p.vals && c in vals' && vals'[c] == s.p.vals[c]
    ensures |s.b.log| == s.b.back && CellsOk(x', vals', front', back', s.b.log[..back'])
    ensures front' == s.b.front ==> Stands(x', s.p.begin, front')
    ensures back' == s.b.back ==> Stands(x', s.p.back, back')
    ensures front' <= s.b.w ==> s.b.f <= back' ==> Stands(x', s.p.w, s.b.w) && Stands(x', s.p.f, s.b.f)
    ensures front' <= s.b.w <= back' && s.p.c.Some? ==> Stands(x', s.p.c.v, s.b.w)
    ensures s.p.r.Some? && front' <= s.b.r <= back' ==> Stands(x', s.p.r.v, s.b.r)
  {
    hide Idx, Off, Live, At, ChainOk, LooseOk, EndOk, HandsOk, Within;
    var x := SpanOf(s);
    CarriedPtr(x, x', s.p.begin, s.b.front, s.b.front, s.b.back, front', back');
    CarriedPtr(x, x', s.p.back, s.b.back, s.b.front, s.b.back, front', back');
    CarriedPtr(x, x', s.p.w, s.b.w, s.b.front, s.b.back, front', back');
    CarriedPtr(x, x', s.p.f, s.b.f, s.b.front, s.b.back, front', back');
    if s.p.c.Some? { CarriedPtr(x, x', s.p.c.v, s.b.w, s.b.front, s.b.back, front', back'); }
    if s.p.r.Some? { CarriedPtr(x, x', s.p.r.v, s.b.r, s.b.front, s.b.back, front', back'); }
    MovedCells(x, x', s.p.vals, vals', s.b.front, s.b.back, s.b.log, front', back');
  }

  lemma CarriedPtr(x: Span, x': Span, q: Ptr, k: nat, lo: nat, hi: nat, front': nat, back': nat)
    requires Stands(x, q, k) && lo <= front' <= back' <= hi && Live(x, lo) && Live(x, hi)
    requires Within(x, x') || (Within(x', x) && Live(x', front') && Live(x', back'))
    ensures front' <= k <= back' ==> Stands(x', q, k)
    ensures Live(x, front') && Live(x, back')
  {
    hide Within, Live, At;
    LiveBetween(x, lo, front', hi);
    LiveBetween(x, lo, back', hi);
    if front' <= k <= back' {
      if Within(x, x') { LiveWider(x, x', k); } else { LiveBetween(x', front', k, back'); }
      Moved(x, x', q, k);
    }
  }

  lemma LiveWider(x: Span, x': Span, k: nat)
    requires Within(x, x') && Live(x, k)
    ensures Live(x', k)
  {
    hide Idx;
  }

  lemma EndLinked(x: Span, x': Span, end: Ptr, back: nat, y: nat)
    requires x' == Span(x.n, x.first, x.chain + [y]) && EndOk(x, end, back, true)
    ensures EndOk(x', Ptr(y, 0), back, false) && |x.chain| > 0 && end.chunk == x.chain[|x.chain| - 1]
  {
    hide Idx, Off;
    Positions(x.n, back, back);
  }

  /** The chunk that will be linked is allocated, of the right size and in nobody else's hands. */
  lemma FreshChunk<T>(n: Size, vals: map<nat, seq<T>>, next: map<nat, nat>, prev: map<nat, nat>, chain: seq<nat>,
                      spare: Option<nat>, sc: Option<nat>, o: Option<nat>, got: nat, junk: seq<T>)
    requires ChainOk(n, vals, next, prev, chain) && LooseOk(vals, chain, spare, sc, o)
    requires sc.None? ==> got !in vals && |junk| == n
    ensures var y, vals' := if sc.Some? then sc.v else got, if sc.Some? then vals else vals[got := junk];
      && y in vals' && y !in chain && spare != Some(y) && o != Some(y) && (sc.Some? ==> sc == Some(y))
      && (forall x :: x in vals ==> x in vals' && vals'[x] == vals[x]) && (forall x :: x in vals' ==> |vals'[x]| == n)
      && (forall i :: 0 <= i < |chain| ==> chain[i] in vals)
  {
    assert forall i :: 0 <= i < |chain| ==> chain[i] in chain;
  }

  lemma LinkedChain<T>(n: Size, vals: map<nat, seq<T>>, vals': map<nat, seq<T>>, next: map<nat, nat>,
                       prev: map<nat, nat>, chain: seq<nat>, y: nat)
    requires ChainOk(n, vals, next, prev, chain) && y in vals' && y !in chain
    requires (forall x :: x in vals ==> x in vals') && (forall x :: x in vals' ==> |vals'[x]| == n)
    ensures |chain| > 0
    ensures ChainOk(n, vals', next[chain[|chain| - 1] := y], prev[y := chain[|chain| - 1]], chain + [y])
  {
    assert forall i :: 0 <= i < |chain| ==> chain[i] in chain;
  }

  lemma LinkedLoose<T>(vals: map<nat, seq<T>>, vals': map<nat, seq<T>>, chain: seq<nat>, spare: Option<nat>,
                       sc: Option<nat>, o: Option<nat>, y: nat)
    requires LooseOk(vals, chain, spare, sc, o) && spare != Some(y) && o != Some(y) && forall x :: x in vals ==>
      x in vals'
    ensures LooseOk(vals', chain + [y], spare, None, o)
  {}

  /** The chunks of x are a stretch of the chunks of x'. */
  ghost predicate Within(x: Span, x': Span) {
    && x.n == x'.n && x'.first <= x.first && x.first + |x.chain| <= x'.first + |x'.chain|
    && x.chain == x'.chain[x.first - x'.first..x.first - x'.first + |x.chain|]
  }

  /** When chunks come or go at the ends, pointers into the others stand for what they stood for. */
  lemma Moved(x: Span, x': Span, q: Ptr, k: nat)
    requires (Within(x, x') || Within(x', x)) && Stands(x, q, k) && Live(x', k)
    ensures Stands(x', q, k)
  {
    hide Idx, Off;
  }

  lemma MovedCells<T>(x: Span, x': Span, vals: map<nat, seq<T>>, vals': map<nat, seq<T>>,
                      front: nat, back: nat, log: seq<T>, front': nat, back': nat)
    requires (Within(x, x') || Within(x', x)) && CellsOk(x, vals, front, back, log)
    requires front <= front' <= back' <= back && Live(x, front') && Live(x, back')
    requires forall c :: c in x.chain && c in x'.chain ==> c in vals && c in vals' && vals'[c] == vals[c]
    ensures CellsOk(x', vals', front', back', log[..back'])
  {
    hide Idx, Off;
    forall k | front' <= k < back' && Live(x', k) ensures Cell(vals', At(x', k)) == Some(log[..back'][k]) {
      LiveBetween(x, front', k, back');
      Moved(x, x', At(x, k), k);
      assert At(x, k).chunk in x.chain && At(x', k).chunk in x'.chain;
    }
  }

  lemma FlushStep<T>(s: State<T>)
    requires Inv(s)
    ensures Inv(DoFlush(s)) && Inv(DoReset(s))
  {
    hide Idx, Off, EndOk, CellsOk, LooseOk, Live, At, Stands, MarksOk;
    MarksFlushed(s.b.marks, s.b.back, s.b.f, s.b.w, Pending(s.p.wpc));
    ChainFacts(s.p.n, s.p.vals, s.p.next, s.p.prev, SpanOf(s));
    PointerIsPosition(SpanOf(s), s.p.w, s.b.w, s.p.f, s.b.f);
    if s.p.c.Some? { PointerIsPosition(SpanOf(s), s.p.c.v, s.b.w, s.p.w, s.b.w); }
  }

  lemma CheckReadStep<T>(s: State<T>)
    requires Inv(s)
    ensures Inv(DoCheckRead(s))
  {
    hide Idx, Off, EndOk, CellsOk, Live, At, Stands, ChainOk, LooseOk, MarksOk;
    ChainFacts(s.p.n, s.p.vals, s.p.next, s.p.prev, SpanOf(s));
    if s.p.c.Some? { PointerIsPosition(SpanOf(s), s.p.begin, s.b.front, s.p.c.v, s.b.w); }
    if s.p.r.Some? { PointerIsPosition(SpanOf(s), s.p.begin, s.b.front, s.p.r.v, s.b.r); }
  }

  lemma FetchStep<T>(s: State<T>)
    requires Inv(s)
    ensures Inv(DoFetch(s))
  {
    hide Idx, Off, EndOk, ChainOk, LooseOk, MarksOk;
    assert s.p.rpc.Got? ==> Cell(s.p.vals, At(SpanOf(s), s.b.front)) == Some(s.b.log[s.b.front]);
  }

  lemma RecycleStep<T>(s: State<T>)
    requires Inv(s)
    ensures Inv(DoRecycle(s))
  {
    hide Idx, Off, EndOk, SharedOk, MarksOk;
    var s', x := DoRecycle(s), SpanOf(s);
    assert forall k :: Live(x, k) ==> Cell(s'.p.vals, At(x, k)) == Cell(s.p.vals, At(x, k));
  }

  lemma UnwriteStep<T>(s: State<T>)
    requires Inv(s)
    ensures Inv(DoUnwrite(s))
  {
    if s.p.wpc.Ready? && s.p.f != s.p.back {
      UnwriteFacts(s);
      if s.p.end.pos != 0 { InsideStep(s); } else { AcrossStep(s); }
    }
  }

  lemma UnwriteFacts<T>(s: State<T>)
    requires Inv(s) && s.p.wpc.Ready? && s.p.f != s.p.back
    ensures s.b.f < s.b.back && |s.b.log| == s.b.back
    ensures s.p.back.pos == 0 ==> s.p.back.chunk in s.p.prev
    ensures s.p.end.pos == 0 ==> s.p.end.chunk in s.p.prev
  {
    hide Idx, Off, LooseOk, Live, At, Stands, EndOk;
    ChainFacts(s.p.n, s.p.vals, s.p.next, s.p.prev, SpanOf(s));
    PointerIsPosition(SpanOf(s), s.p.f, s.b.f, s.p.back, s.b.back);
    Retreat(s.p.n, s.p.vals, s.p.next, s.p.prev, SpanOf(s), s.p.back, s.p.end, s.b.back, s.p.f, s.b.f);
  }

  lemma InsideStep<T>(s: State<T>)
    requires Inv(s) && s.p.wpc.Ready? && s.b.f < s.b.back && |s.b.log| == s.b.back && s.p.end.pos != 0
    requires s.p.back.pos == 0 ==> s.p.back.chunk in s.p.prev
    ensures Inv(UnpushInside(s))
  {
    hide Idx, Off, CellsOk, ChainOk, LooseOk, Live, At, Stands, EndOk, SharedOk, MarksOk;
    var s', x := UnpushInside(s), SpanOf(s);
    MarksDropped(s.b.marks, s.b.back, s.b.f, s.b.w);
    ChunksIn(s.p.n, s.p.vals, s.p.next, s.p.prev, s.b.chain);
    Retreat(s.p.n, s.p.vals, s.p.next, s.p.prev, x, s.p.back, s.p.end, s.b.back, s.p.f, s.b.f);
    FewerCells(x, s.p.vals, s.b.front, s.b.back, s.b.log);
    SharedAgain(x, s.p.c, s.p.r, false, s.p.rpc.Got? || s.p.rpc.Popping?, s.b, s'.b);
    FewerHands(s, s');
  }

  lemma FewerCells<T>(x: Span, vals: map<nat, seq<T>>, front: nat, back: nat, log: seq<T>)
    requires CellsOk(x, vals, front, back, log) && back > 0
    ensures CellsOk(x, vals, front, back - 1, ButLast(log))
  {}

  lemma FewerHands<T>(s: State<T>, s': State<T>)
    requires HandsOk(s.p, s.b) && s'.p.rpc == s.p.rpc && s'.p.wpc.Ready? && s'.b.log == ButLast(s.b.log)
    requires s'.b.front == s.b.front < |s.b.log| && s'.b.delivered == s.b.delivered
      && (s.p.rpc.Popping? ==> s.b.front + 1 < |s.b.log|)
    ensures HandsOk(s'.p, s'.b)
  {
    assert s.b.log[..s.b.front] == ButLast(s.b.log)[..s.b.front];
  }

  lemma AcrossStep<T>(s: State<T>)
    requires Inv(s) && s.p.wpc.Ready? && s.b.f < s.b.back && |s.b.log| == s.b.back && s.p.end.pos == 0
    requires (s.p.back.pos == 0 ==> s.p.back.chunk in s.p.prev) && s.p.end.chunk in s.p.prev
    ensures Inv(UnpushAcross(s))
  {
    hide Idx, Off, CellsOk, ChainOk, LooseOk, Live, At, Stands, EndOk, HandsOk, MarksOk;
    var s', x := UnpushAcross(s), SpanOf(s);
    MarksDropped(s.b.marks, s.b.back, s.b.f, s.b.w);
    var x' := x.(chain := ButLast(x.chain));
    ChunksIn(s.p.n, s.p.vals, s.p.next, s.p.prev, s.b.chain);
    Retreat(s.p.n, s.p.vals, s.p.next, s.p.prev, x, s.p.back, s.p.end, s.b.back, s.p.f, s.b.f);
    UnlinkedChain(s.p.n, s.p.vals, s.p.next, s.p.prev, s.b.chain);
    UnlinkedLoose(s.p.vals, s.b.chain, s.p.spare, Linked(s.p.wpc), Recycled(s.p.rpc));
    ShorterLive(x, s'.p.back, s.p.begin, s.b.front, s.b.back - 1);
    Carried(s, x', s'.p.vals, s.b.front, s.b.back - 1);
    assert ButLast(s.b.log) == s.b.log[..s.b.back - 1];
    FewerHands(s, s');
  }

  /** Where unpush takes the back and end pointers. */
  lemma Retreat<T>(n: Size, vals: map<nat, seq<T>>, next: map<nat, nat>, prev: map<nat, nat>, x: Span, back: Ptr,
                   end: Ptr, k: nat, f: Ptr, j: nat)
    requires ChainOk(n, vals, next, prev, x.chain) && x.n == n && Stands(x, back, k) && EndOk(x, end, k, false)
      && Stands(x, f, j) && j < k
    ensures back.pos == 0 ==> back.chunk in prev
    ensures end.pos == 0 ==>
      end.chunk in prev && |x.chain| >= 2 && end.chunk == x.chain[|x.chain| - 1]
      && prev[end.chunk] == x.chain[|x.chain| - 2]
    ensures var back' := if back.pos != 0 then Ptr(back.chunk, back.pos - 1) else Ptr(prev[back.chunk], n - 1);
      var end' := if end.pos != 0 then Ptr(end.chunk, end.pos - 1) else Ptr(prev[end.chunk], n - 1);
      var x' := if end.pos != 0 then x else x.(chain := ButLast(x.chain));
      && Stands(x', back', k - 1) && EndOk(x', end', k - 1, false) && Within(x', x)
  {
    hide Idx, Off;
    StepBack(n, vals, next, prev, x, back, k, j);
    StepBack(n, vals, next, prev, x, end, k + 1, k);
    Positions(n, k - 1, k);
  }

  lemma ShorterLive(x: Span, back': Ptr, begin: Ptr, j: nat, k: nat)
    requires |x.chain| >= 2 && Stands(x, begin, j) && j <= k && Stands(x.(chain := ButLast(x.chain)), back', k)
    ensures Live(x.(chain := ButLast(x.chain)), j) && Live(x.(chain := ButLast(x.chain)), k)
  {
    hide Idx, Off;
    Positions(x.n, j, k);
  }

  lemma UnlinkedChain<T>(n: Size, vals: map<nat, seq<T>>, next: map<nat, nat>, prev: map<nat, nat>, chain: seq<nat>)
    requires ChainOk(n, vals, next, prev, chain) && |chain| >= 2
    ensures ChainOk(n, vals - {chain[|chain| - 1]}, next - {chain[|chain| - 2]}, prev, ButLast(chain))
    ensures forall c :: c in chain ==> c in vals
    ensures chain[|chain| - 1] !in ButLast(chain)
  {}

  lemma UnlinkedLoose<T>(vals: map<nat, seq<T>>, chain: seq<nat>, spare: Option<nat>, sc: Option<nat>, o: Option<nat>)
    requires LooseOk(vals, chain, spare, sc, o) && |chain| >= 1
    ensures LooseOk(vals - {chain[|chain| - 1]}, ButLast(chain), spare, sc, o)
  {
    assert chain[|chain| - 1] in chain;
  }

  /** One position back: the previous cell, or the last cell of the previous chunk. */
  lemma StepBack<T>(n: Size, vals: map<nat, seq<T>>, next: map<nat, nat>, prev: map<nat, nat>, x: Span, q: Ptr, k: nat,
                    j: nat)
    requires ChainOk(n, vals, next, prev, x.chain) && x.n == n && Stands(x, q, k) && j < k && Live(x, j)
    ensures Live(x, k - 1)
    ensures q.pos != 0 ==> At(x, k - 1) == Ptr(q.chunk, q.pos - 1) && Idx(n, k - 1) == Idx(n, k)
    ensures q.pos == 0 ==>
      q.chunk in prev && At(x, k - 1) == Ptr(prev[q.chunk], n - 1) && Idx(n, k - 1) == Idx(n, k) - 1
  {
    hide Idx, Off;
    Positions(n, j, k - 1);
  }

  lemma PopStep<T>(s: State<T>)
    requires Inv(s)
    ensures Inv(DoPop(s))
  {
    hide Idx, Off, CellsOk, ChainOk, LooseOk, Live, At, Stands, EndOk, MarksOk, SharedOk, HandsOk, Within;
    var s', x := DoPop(s), SpanOf(s);
    if s.p.rpc.Popping? {
      PoppingFacts(s);
      ChainFacts(s.p.n, s.p.vals, s.p.next, s.p.prev, x);
      Advance(s.p.n, s.p.vals, s.p.next, s.p.prev, x, s.p.begin, s.b.front, s.p.back, s.b.back);
      ChunksIn(s.p.n, s.p.vals, s.p.next, s.p.prev, s.b.chain);
      if s.p.begin.pos + 1 == s.p.n {
        DroppedChain(s.p.n, s.p.vals, s.p.next, s.p.prev, s.b.chain);
        DroppedLoose(s.p.vals, s.b.chain, s.p.spare, Linked(s.p.wpc));
        DroppedEnd(x, s.p.end, s.b.back, s.p.wpc.Linking?);
      }
      Carried(s, SpanOf(s'), s.p.vals, s.b.front + 1, s.b.back);
      assert s.b.log[..s.b.back] == s.b.log;
      PopShared(x, SpanOf(s'), s.p.c, s.p.r, s.p.wpc.Cleared?, s.b, s'.b);
      PopHands(s, s');
    }
  }

  lemma PopShared<T>(x: Span, x': Span, c: Option<Ptr>, r: Option<Ptr>, cleared: bool, b: Book<T>, b': Book<T>)
    requires SharedOk(x, c, r, cleared, true, b) && b'.front == b.front + 1 && b'.w == b.w && b'.r == b.r && b'.f == b.f
    requires (c.Some? ==> Stands(x', c.v, b.w)) && (r.Some? ==> Stands(x', r.v, b.r))
    ensures SharedOk(x', c, r, cleared, false, b')
  {
    hide Stands;
  }

  lemma PopHands<T>(s: State<T>, s': State<T>)
    requires HandsOk(s.p, s.b) && s.p.rpc.Popping? && !s'.p.rpc.Popping? && s'.p.wpc == s.p.wpc
      && s'.p.vals == s.p.vals && s'.p.back == s.p.back
    requires s'.b.log == s.b.log && s'.b.front == s.b.front + 1 && s'.b.delivered == s.b.delivered + [s.p.rpc.v]
    ensures HandsOk(s'.p, s'.b)
  {
    assert s.b.log[..s.b.front + 1] == s.b.log[..s.b.front] + [s.b.log[s.b.front]];
  }

  lemma ChunksIn<T>(n: Size, vals: map<nat, seq<T>>, next: map<nat, nat>, prev: map<nat, nat>, chain: seq<nat>)
    requires ChainOk(n, vals, next, prev, chain)
    ensures forall c :: c in chain ==> c in vals
  {}

  /** Where pop takes the begin pointer. */
  lemma Advance<T>(n: Size, vals: map<nat, seq<T>>, next: map<nat, nat>, prev: map<nat, nat>, x: Span, begin: Ptr,
                   k: nat, back: Ptr, l: nat)
    requires ChainOk(n, vals, next, prev, x.chain) && x.n == n && Stands(x, begin, k) && Idx(n, k) == x.first && k < l
      && Stands(x, back, l)
    ensures begin.pos + 1 == n ==>
      |x.chain| >= 2 && begin.chunk == x.chain[0] && begin.chunk in next && next[begin.chunk] == x.chain[1]
    ensures var begin' := if begin.pos + 1 != n then Ptr(begin.chunk, begin.pos + 1) else Ptr(next[begin.chunk], 0);
      var x' := if begin.pos + 1 != n then x else Span(n, x.first + 1, ButFirst(x.chain));
      Stands(x', begin', k + 1) && Idx(n, k + 1) == x'.first && Within(x', x) && Live(x', k + 1) && Live(x', l)
  {
    hide Idx, Off;
    Positions(n, k, k);
    Positions(n, k + 1, l);
  }

  lemma DroppedChain<T>(n: Size, vals: map<nat, seq<T>>, next: map<nat, nat>, prev: map<nat, nat>, chain: seq<nat>)
    requires ChainOk(n, vals, next, prev, chain) && |chain| >= 2
    ensures ChainOk(n, vals, next, prev - {chain[1]}, ButFirst(chain))
    ensures chain[0] in vals && chain[0] !in ButFirst(chain)
  {}

  lemma DroppedLoose<T>(vals: map<nat, seq<T>>, chain: seq<nat>, spare: Option<nat>, sc: Option<nat>)
    requires LooseOk(vals, chain, spare, sc, None) && |chain| >= 2 && chain[0] in vals && chain[0] !in ButFirst(chain)
    ensures LooseOk(vals, ButFirst(chain), spare, sc, Some(chain[0]))
  {
    assert chain[0] in chain;
  }

  lemma DroppedEnd(x: Span, end: Ptr, back: nat, linking: bool)
    requires EndOk(x, end, back, linking) && |x.chain| >= 2
    ensures EndOk(Span(x.n, x.first + 1, ButFirst(x.chain)), end, back, linking)
  {
    hide Idx, Off;
  }

  // ---------------------------------------------------------------------------------------------
  // What follows for every interleaving
  // ---------------------------------------------------------------------------------------------

  lemma NextKeeps<T>(s: State<T>, e: Event<T>)
    requires Inv(s)
    ensures Inv(Next(s, e))
  {
    hide Inv;
    match e
    case Write(v, incomplete) => if s.p.wpc.Ready? { WriteStep(s, v, incomplete); }
    case Push => if s.p.wpc.Stored? { PushStep(s); }
    case Link(got, junk) => if s.p.wpc.Linking? { LinkStep(s, got, junk); }
    case Unwrite => UnwriteStep(s);
    case Flush => FlushStep(s);
    case Reset => FlushStep(s);
    case CheckRead => CheckReadStep(s);
    case Fetch => FetchStep(s);
    case Pop => PopStep(s);
    case Recycle => RecycleStep(s);
  }

  /** The pipe after construction: one terminator pushed, all pointers at it; a second chunk if n is 1. */
  function Init<T>(n: Size, a: nat, z: nat, mem: seq<T>): State<T> {
    var here := Ptr(a, 0);
    var p := Pipe(n, map[a := mem], map[], map[], here, here, Ptr(a, 1), None, here, here, Some(here), Some(here),
      Ready, Waiting);
    var b := Book(0, [a], 0, 0, 0, 0, 0, [], [], []);
    if n != 1 then State(p, b)
    else State(p.(vals := map[a := mem, z := mem], next := map[a := z], prev := map[z := a], end := Ptr(z, 0)),
      b.(chain := [a, z]))
  }

  lemma InitOk<T>(n: Size, a: nat, z: nat, mem: seq<T>)
    requires a != z && |mem| == n
    ensures Inv(Init(n, a, z, mem))
  {
    DivModUnique(0, n, 0, 0);
    if n == 1 { DivModUnique(1, n, 1, 0); } else { DivModUnique(1, n, 0, 1); }
  }

  function Run<T>(n: Size, a: nat, z: nat, mem: seq<T>, es: seq<Event<T>>): State<T> {
    if es == [] then Init(n, a, z, mem) else Next(Run(n, a, z, mem, es[..|es| - 1]), es[|es| - 1])
  }

  lemma {:induction false} RunKeeps<T>(n: Size, a: nat, z: nat, mem: seq<T>, es: seq<Event<T>>)
    requires a != z && |mem| == n
    ensures Inv(Run(n, a, z, mem, es))
  {
    if es == [] {
      InitOk(n, a, z, mem);
    } else {
      RunKeeps(n, a, z, mem, es[..|es| - 1]);
      NextKeeps(Run(n, a, z, mem, es[..|es| - 1]), es[|es| - 1]);
    }
  }

  // ---------------------------------------------------------------------------------------------
  // What the two threads ask for and get, as a fold over the events
  // ---------------------------------------------------------------------------------------------

  datatype Item<T> = Item(v: T, incomplete: bool)

  /** What the client knows: the items written and not taken back, how many are flushed, and what was read. */
  datatype Client<T> = Client(items: seq<Item<T>>, flushed: nat, out: seq<T>)

  /** The items up to the last one that is not incomplete. */
  function Complete<T>(items: seq<Item<T>>): (k: nat)
    ensures k <= |items| && (k > 0 ==> !items[k - 1].incomplete)
    ensures forall j :: k <= j < |items| ==> items[j].incomplete
  {
    if items == [] then 0
    else if !items[|items| - 1].incomplete then |items|
    else Complete(items[..|items| - 1])
  }

  /**
   * One event. A call of the writer counts when none is under way; unwrite takes back the last item if
   * it is incomplete, a flush covers what is complete when it ends, and a read ends with an element.
   */
  function Account<T>(x: Client<T>, e: Event<T>, w: WriterPc<T>, w': WriterPc<T>, r: ReaderPc<T>, r': ReaderPc<T>):
    Client<T>
  {
    match e
    case Write(v, incomplete) => if w.Ready? then x.(items := x.items + [Item(v, incomplete)]) else x
    case Unwrite =>
      if w.Ready? && x.items != [] && x.items[|x.items| - 1].incomplete then x.(items := ButLast(x.items)) else x
    case Flush => if w.Ready? && w'.Ready? then x.(flushed := Complete(x.items)) else x
    case Reset => if w.Cleared? && w'.Ready? then x.(flushed := Complete(x.items)) else x
    case Pop => if r.Popping? && !r'.Popping? then x.(out := x.out + [r.v]) else x
    case _ => x
  }

  function ClientOf<T>(n: Size, a: nat, z: nat, mem: seq<T>, es: seq<Event<T>>): Client<T> {
    if es == [] then Client([], 0, [])
    else
      var i := |es| - 1;
      var s, s' := Run(n, a, z, mem, es[..i]).p, Run(n, a, z, mem, es).p;
      Account(ClientOf(n, a, z, mem, es[..i]), es[i], s.wpc, s'.wpc, s.rpc, s'.rpc)
  }

  function Items<T>(log: seq<T>, marks: seq<bool>): (r: seq<Item<T>>)
    requires |log| == |marks|
    ensures |r| == |log| && forall k :: 0 <= k < |r| ==> r[k] == Item(log[k], marks[k])
  {
    seq(|log|, k requires 0 <= k < |log| => Item(log[k], marks[k]))
  }

  function InHand<T>(wpc: WriterPc<T>): seq<Item<T>> {
    if wpc.Stored? then [Item(wpc.v, wpc.incomplete)] else []
  }

  /** The history of the pipe is what the client asked for. */
  ghost predicate Tracks<T>(s: State<T>, x: Client<T>) {
    && |s.b.log| == |s.b.marks| && x.items == Items(s.b.log, s.b.marks) + InHand(s.p.wpc)
    && x.flushed == s.b.w && x.out == s.b.delivered
  }

  lemma CompleteIs<T>(items: seq<Item<T>>, f: nat)
    requires f <= |items| && (f > 0 ==> !items[f - 1].incomplete)
    requires forall j :: f <= j < |items| ==> items[j].incomplete
    ensures Complete(items) == f
  {}

  /** Between two calls of the writer f stands behind the last complete item. */
  lemma FlushPoint<T>(s: State<T>)
    requires Inv(s) && !s.p.wpc.Linking? && |s.b.log| == |s.b.marks|
    ensures s.b.f == Complete(Items(s.b.log, s.b.marks)) && |s.b.log| == s.b.back
  {
    hide Idx, Off, ChainOk, LooseOk, EndOk, SharedOk, Stands, Live, At, HandsOk;
    CompleteIs(Items(s.b.log, s.b.marks), s.b.f);
  }

  lemma TracksNext<T>(s: State<T>, e: Event<T>, x: Client<T>)
    requires Inv(s) && Tracks(s, x)
    ensures var s' := Next(s, e); Tracks(s', Account(x, e, s.p.wpc, s'.p.wpc, s.p.rpc, s'.p.rpc))
  {
    hide Inv, Complete;
    match e
    case Write(v, incomplete) => WriteTracks(s, v, incomplete, x);
    case Push => PushTracks(s, x);
    case Link(got, junk) =>
    case Unwrite => if s.p.wpc.Ready? { UnwriteTracks(s, x); }
    case Flush => if s.p.wpc.Ready? { FlushTracks(s, x); }
    case Reset => if s.p.wpc.Cleared? { FlushTracks(s, x); }
    case CheckRead => ReaderTracks(s, e, x);
    case Fetch => ReaderTracks(s, e, x);
    case Pop => ReaderTracks(s, e, x);
    case Recycle => ReaderTracks(s, e, x);
  }

  lemma ReaderTracks<T>(s: State<T>, e: Event<T>, x: Client<T>)
    requires Tracks(s, x) && (e.CheckRead? || e.Fetch? || e.Pop? || e.Recycle?)
    ensures var s' := Next(s, e); Tracks(s', Account(x, e, s.p.wpc, s'.p.wpc, s.p.rpc, s'.p.rpc))
  {
    hide Items, Complete;
  }

  lemma WriteTracks<T>(s: State<T>, v: T, incomplete: bool, x: Client<T>)
    requires Inv(s) && Tracks(s, x)
    ensures Tracks(DoWrite(s, v, incomplete),
                   if s.p.wpc.Ready? then x.(items := x.items + [Item(v, incomplete)]) else x)
  {
    MemorySafe(s);
  }

  lemma PushTracks<T>(s: State<T>, x: Client<T>)
    requires Tracks(s, x)
    ensures Tracks(DoPush(s), x)
  {
    if s.p.wpc.Stored? {
      assert Items(s.b.log + [s.p.wpc.v], s.b.marks + [s.p.wpc.incomplete]) == x.items;
    }
  }

  lemma FlushTracks<T>(s: State<T>, x: Client<T>)
    requires Inv(s) && Tracks(s, x) && (s.p.wpc.Ready? || s.p.wpc.Cleared?)
    ensures x.items == Items(s.b.log, s.b.marks) && s.b.f == Complete(x.items) && (s.p.w == s.p.f ==> s.b.w == s.b.f)
  {
    hide Inv, Complete;
    assert x.items == Items(s.b.log, s.b.marks);
    FlushPoint(s);
    PointersAreFaithful(s);
  }

  lemma UnwriteTracks<T>(s: State<T>, x: Client<T>)
    requires Inv(s) && Tracks(s, x) && s.p.wpc.Ready?
    ensures Tracks(DoUnwrite(s),
      if x.items != [] && x.items[|x.items| - 1].incomplete then x.(items := ButLast(x.items)) else x)
  {
    hide Inv;
    FlushPoint(s);
    UnwriteReturnsLast(s);
    if s.b.f < s.b.back { assert Items(ButLast(s.b.log), ButLast(s.b.marks)) == ButLast(x.items); }
  }

  lemma {:induction false} RunTracks<T>(n: Size, a: nat, z: nat, mem: seq<T>, es: seq<Event<T>>)
    requires a != z && |mem| == n
    ensures Inv(Run(n, a, z, mem, es)) && Tracks(Run(n, a, z, mem, es), ClientOf(n, a, z, mem, es))
  {
    hide Inv, Next, Account;
    RunKeeps(n, a, z, mem, es);
    if es != [] {
      var i := |es| - 1;
      RunTracks(n, a, z, mem, es[..i]);
      TracksNext(Run(n, a, z, mem, es[..i]), es[i], ClientOf(n, a, z, mem, es[..i]));
    }
  }

  /**
   * In every interleaving of one writer and one reader, what the reader got is, in order, a prefix of
   * the values that the writer wrote and did not take back, and of those only of what it flushed; what
   * it flushed ends with an item that it did not write as incomplete.
   */
  lemma ReadIsPrefixOfFlushed<T>(n: Size, a: nat, z: nat, mem: seq<T>, es: seq<Event<T>>)
    requires a != z && |mem| == n
    ensures var x := ClientOf(n, a, z, mem, es);
      && |x.out| <= x.flushed <= |x.items| && (x.flushed > 0 ==> !x.items[x.flushed - 1].incomplete)
      && forall k :: 0 <= k < |x.out| ==> x.out[k] == x.items[k].v
    ensures var b := Run(n, a, z, mem, es).b;
      && b.front <= b.w <= b.f <= |b.log| == |b.marks|
      && b.delivered == b.log[..b.front] && b.delivered <= b.log[..b.w]
      && (b.w > 0 ==> !b.marks[b.w - 1]) && (b.f > 0 ==> !b.marks[b.f - 1])
    ensures var s := Run(n, a, z, mem, es);
      forall k :: s.b.f <= k < |s.b.marks| ==>
        s.b.marks[k] || (k == |s.b.marks| - 1 && s.p.wpc.Linking? && !s.p.wpc.incomplete)
  {
    hide Inv, Run, ClientOf;
    RunTracks(n, a, z, mem, es);
    Visible(Run(n, a, z, mem, es));
  }

  /**
   * A read finds something exactly if not everything flushed has been read, and delivers the next item,
   * whatever the writer is in the middle of.
   */
  lemma ReadDelivers<T>(s: State<T>, x: Client<T>)
    requires Inv(s) && Tracks(s, x) && s.p.rpc.Waiting?
    ensures var s1 := Next(s, CheckRead);
      && (s1.p.rpc.Got? <==> |x.out| < x.flushed)
      && (s1.p.rpc.Got? ==>
            var s2 := Next(s1, Fetch);
            s2.p.rpc.Popping? && |x.out| < |x.items| && s2.p.rpc.v == x.items[|x.out|].v
              && !Next(s2, Pop).p.rpc.Popping?)
  {
    hide Inv;
    FalseRead(s);
    Visible(s);
    var s1 := Next(s, CheckRead);
    NextKeeps(s, CheckRead);
    if s1.p.rpc.Got? {
      MemorySafe(s1);
      FetchReads(s1);
      NextKeeps(s1, Fetch);
      MemorySafe(Next(s1, Fetch));
    }
  }

  lemma FetchReads<T>(s: State<T>)
    requires Inv(s) && Safe(s.p) && s.p.rpc.Got?
    ensures var s2 := DoFetch(s);
      s2.p.rpc.Popping? && s.b.front < |s.b.log| && s2.p.rpc.v == s.b.log[s.b.front]
  {
    hide Idx, Off, ChainOk, LooseOk, EndOk, MarksOk;
  }

  /** Between two calls of the writer, f, w and the log are what the client's account says. */
  lemma HistoryIsAccount<T>(n: Size, a: nat, z: nat, mem: seq<T>, es: seq<Event<T>>)
    requires a != z && |mem| == n && Run(n, a, z, mem, es).p.wpc.Ready?
    ensures var s, x := Run(n, a, z, mem, es), ClientOf(n, a, z, mem, es);
      && |s.b.log| == |s.b.marks| == |x.items|
        && (forall k :: 0 <= k < |x.items| ==> x.items[k] == Item(s.b.log[k], s.b.marks[k]))
      && s.b.f == Complete(x.items) && s.b.w == x.flushed && s.b.delivered == x.out
  {
    hide Inv, Run, ClientOf, Complete;
    RunTracks(n, a, z, mem, es);
    FlushPoint(Run(n, a, z, mem, es));
  }

  lemma Visible<T>(s: State<T>)
    requires Inv(s)
    ensures var b := s.b;
      && b.front <= b.w <= b.f <= |b.log| == |b.marks|
      && b.delivered == b.log[..b.front] && b.delivered <= b.log[..b.w]
      && (b.w > 0 ==> !b.marks[b.w - 1]) && (b.f > 0 ==> !b.marks[b.f - 1])
    ensures forall k :: s.b.f <= k < |s.b.marks| ==>
      s.b.marks[k] || (k == |s.b.marks| - 1 && s.p.wpc.Linking? && !s.p.wpc.incomplete)
  {
    hide Idx, Off, ChainOk, LooseOk, EndOk, SharedOk, Stands, Live, At;
    assert s.b.log[..s.b.front] == s.b.log[..s.b.w][..s.b.front];
  }

  /** A flush that is done has published everything complete. */
  lemma FlushPublishes<T>(s: State<T>)
    requires Inv(s)
    ensures s.p.wpc.Ready? && DoFlush(s).p.wpc.Ready? ==> DoFlush(s).b.w == DoFlush(s).b.f == s.b.f
    ensures s.p.wpc.Cleared? ==> DoReset(s).p.wpc.Ready? && DoReset(s).b.w == DoReset(s).b.f == s.b.f
  {
    hide Inv;
    PointersAreFaithful(s);
  }

  /** Neither thread ever touches a chunk that has been freed, and none is freed twice. */
  ghost predicate Safe<T>(p: Pipe<T>) {
    && (p.wpc.Ready? || p.wpc.Stored? ==> Cell(p.vals, p.back).Some?)
    && p.end.chunk in p.vals && p.begin.chunk in p.vals && p.back.chunk in p.vals
    && (p.rpc.Popping? && p.begin.pos + 1 == p.n ==> p.begin.chunk in p.next && p.next[p.begin.chunk] in p.vals)
    && (p.wpc.Ready? && p.f != p.back && p.back.pos == 0 ==> p.back.chunk in p.prev && p.prev[p.back.chunk] in p.vals)
    && (p.wpc.Ready? && p.f != p.back && p.end.pos == 0 ==> p.end.chunk in p.prev && p.prev[p.end.chunk] in p.vals)
    && (p.spare.Some? ==> p.spare.v in p.vals)
    && (p.wpc.Linking? && p.wpc.sc.Some? ==> p.wpc.sc.v in p.vals && p.wpc.sc != p.spare)
    && (p.rpc.Recycling? ==> p.rpc.o in p.vals && p.spare != Some(p.rpc.o))
  }

  lemma MemorySafe<T>(s: State<T>)
    requires Inv(s)
    ensures Safe(s.p)
  {
    hide Idx, Off, Live, At, CellsOk, EndOk, ChainOk, SharedOk, HandsOk, Stands, MarksOk;
    var p, b, x := s.p, s.b, SpanOf(s);
    ChainFacts(p.n, p.vals, p.next, p.prev, x);
    ChunksIn(p.n, p.vals, p.next, p.prev, b.chain);
    InChain(x, p.begin, b.front, p.vals);
    InChain(x, p.back, b.back, p.vals);
    EndInChain(x, p.end, b.back, p.wpc.Linking?);
    if p.rpc.Popping? {
      PoppingFacts(s);
      Advance(p.n, p.vals, p.next, p.prev, x, p.begin, b.front, p.back, b.back);
    }
    if p.wpc.Ready? && p.f != p.back {
      PointerIsPosition(x, p.f, b.f, p.back, b.back);
      Retreat(p.n, p.vals, p.next, p.prev, x, p.back, p.end, b.back, p.f, b.f);
      BackInChain(p.n, p.vals, p.next, p.prev, x, p.back, b.back, p.f, b.f);
    }
  }

  lemma PoppingFacts<T>(s: State<T>)
    requires Inv(s) && s.p.rpc.Popping?
    ensures s.b.front < s.b.r <= s.b.w <= s.b.back && s.p.r.Some? && |s.b.log| == s.b.back
  {
    hide Idx, Off, ChainOk, LooseOk, EndOk, Stands;
  }

  lemma InChain<T>(x: Span, q: Ptr, k: nat, vals: map<nat, seq<T>>)
    requires Stands(x, q, k) && forall j :: Live(x, j) ==>
      At(x, j).chunk in vals && At(x, j).pos < |vals[At(x, j).chunk]|
    ensures Cell(vals, q).Some? && q.chunk in vals
  {}

  lemma EndInChain(x: Span, end: Ptr, back: nat, linking: bool)
    requires EndOk(x, end, back, linking)
    ensures end.chunk in x.chain
  {}

  lemma BackInChain<T>(n: Size, vals: map<nat, seq<T>>, next: map<nat, nat>, prev: map<nat, nat>, x: Span, back: Ptr,
                       k: nat, f: Ptr, j: nat)
    requires ChainOk(n, vals, next, prev, x.chain) && x.n == n && Stands(x, back, k) && Stands(x, f, j) && j < k
    ensures back.pos == 0 ==> back.chunk in prev && prev[back.chunk] in vals
  {
    hide Idx, Off;
    StepBack(n, vals, next, prev, x, back, k, j);
  }

  /** In every interleaving, pointers compare equal exactly when they stand for the same position. */
  lemma PointersAreFaithful<T>(s: State<T>)
    requires Inv(s)
    ensures s.p.f == s.p.back <==> s.b.f == s.b.back
    ensures s.p.w == s.p.f <==> s.b.w == s.b.f
    ensures s.p.c.Some? ==> s.p.c == Some(s.p.w) && (s.p.c == Some(s.p.begin) <==> s.b.w == s.b.front)
    ensures s.p.r.Some? ==> (s.p.r.v == s.p.begin <==> s.b.r == s.b.front)
  {
    hide Idx, Off, CellsOk, EndOk, LooseOk, Live, At, Stands, MarksOk;
    var x := SpanOf(s);
    ChainFacts(s.p.n, s.p.vals, s.p.next, s.p.prev, x);
    PointerIsPosition(x, s.p.f, s.b.f, s.p.back, s.b.back);
    PointerIsPosition(x, s.p.w, s.b.w, s.p.f, s.b.f);
    if s.p.c.Some? {
      PointerIsPosition(x, s.p.c.v, s.b.w, s.p.w, s.b.w);
      PointerIsPosition(x, s.p.c.v, s.b.w, s.p.begin, s.b.front);
    }
    if s.p.r.Some? { PointerIsPosition(x, s.p.r.v, s.b.r, s.p.begin, s.b.front); }
  }

  /** A flush reports a sleeping reader only if the reader had set c to NULL, having read everything flushed. */
  lemma FalseFlush<T>(s: State<T>)
    requires Inv(s) && s.p.wpc.Ready? && DoFlush(s).p.wpc.Cleared?
    ensures s.p.c.None? && s.b.front == s.b.w
  {
    PointersAreFaithful(s);
  }

  /** A read finds nothing only if everything flushed has been read. */
  lemma FalseRead<T>(s: State<T>)
    requires Inv(s) && s.p.rpc.Waiting?
    ensures DoCheckRead(s).p.rpc.Waiting? ==> s.b.front == s.b.w
    ensures s.b.front == s.b.w ==> DoCheckRead(s).p.rpc.Waiting?
  {
    PointersAreFaithful(s);
  }

  /** unwrite gives back exactly the last item written, and only if it was not complete. */
  lemma UnwriteReturnsLast<T>(s: State<T>)
    requires Inv(s) && s.p.wpc.Ready?
    ensures s.b.f == s.b.back ==> DoUnwrite(s) == s
    ensures s.b.f < s.b.back ==>
      var s' := DoUnwrite(s);
      && Cell(s'.p.vals, s'.p.back) == Some(s.b.log[s.b.back - 1]) && s'.b.log == s.b.log[..s.b.back - 1]
      && s.b.marks[s.b.back - 1] && s'.b.marks == s.b.marks[..s.b.back - 1]
  {
    hide Inv, Idx, Off, EndOk, UnpushInside, UnpushAcross, Safe, Cell;
    PointersAreFaithful(s);
    if s.b.f < s.b.back {
      UnwriteFacts(s);
      LastCell(s);
      UnpushFacts(s);
      Visible(s);
      UnwriteStep(s);
      MemorySafe(DoUnwrite(s));
      BackReadable(DoUnwrite(s).p);
      SameCell(s.p.vals, s.p.end.chunk, DoUnwrite(s).p.back);
    }
  }

  lemma BackReadable<T>(p: Pipe<T>)
    requires Safe(p) && p.wpc.Ready?
    ensures Cell(p.vals, p.back).Some?
  {}

  /** Freeing a chunk does not change the cells that are left. */
  lemma SameCell<T>(vals: map<nat, seq<T>>, x: nat, q: Ptr)
    ensures Cell(vals - {x}, q).Some? ==> Cell(vals - {x}, q) == Cell(vals, q)
  {}

  lemma LastCell<T>(s: State<T>)
    requires Inv(s) && s.p.wpc.Ready? && s.b.f < s.b.back && (s.p.back.pos == 0 ==> s.p.back.chunk in s.p.prev)
    ensures |s.b.log| == s.b.back && Cell(s.p.vals, Before(s.p, s.p.back)) == Some(s.b.log[s.b.back - 1])
  {
    hide Idx, Off, EndOk, LooseOk, SharedOk;
    StepBack(s.p.n, s.p.vals, s.p.next, s.p.prev, SpanOf(s), s.p.back, s.b.back, s.b.f);
  }

  lemma UnpushFacts<T>(s: State<T>)
    requires (s.p.back.pos == 0 ==> s.p.back.chunk in s.p.prev) && |s.b.log| > 0
    ensures var s' := UnpushInside(s); s'.p.back == Before(s.p, s.p.back) && s'.b.log == s.b.log[..|s.b.log| - 1]
    ensures var s' := UnpushInside(s); s'.p.vals == s.p.vals && s'.p.wpc == s.p.wpc && s'.b.marks == ButLast(s.b.marks)
    ensures s.p.end.chunk in s.p.prev ==>
      var s' := UnpushAcross(s); s'.p.back == Before(s.p, s.p.back) && s'.b.log == s.b.log[..|s.b.log| - 1]
    ensures s.p.end.chunk in s.p.prev ==>
      var s' := UnpushAcross(s);
        s'.p.vals == s.p.vals - {s.p.end.chunk} && s'.p.wpc == s.p.wpc && s'.b.marks == ButLast(s.b.marks)
  {}
}
