/**
 * The search of free_s (cpp/linux-0.11/lib/malloc.c:188-202), which runs with interrupts on: between
 * any two of its memory accesses an interrupt can open a page for a bucket or give one back. The
 * chains appear as sequences; BucketHeap shows that the next pointers form them.
 */
module BucketSearch {
  import opened Sequences
  import BucketHeap

  const BUCKETS := BucketHeap.BUCKETS

  /** The chains of the buckets, the free descriptors, and the page field of each descriptor ever used. */
  datatype Heap = Heap(chains: seq<seq<int>>, spare: seq<int>, page: map<int, int>)

  function Head(xs: seq<int>): int { if xs == [] then 0 else xs[0] }

  /** The list from x on. */
  function From(xs: seq<int>, x: int): seq<int> {
    if xs == [] || xs[0] == x then xs else From(xs[1..], x)
  }

  function Behind(xs: seq<int>, x: int): int
    requires x in xs
  {
    FromHas(xs, x);
    Head(From(xs, x)[1..])
  }

  lemma FromHas(xs: seq<int>, x: int)
    requires x in xs
    ensures From(xs, x) != [] && From(xs, x)[0] == x
  {}

  /** The next pointer of x, on whatever list it is. */
  function Next(chains: seq<seq<int>>, spare: seq<int>, x: int): int {
    if chains == [] then (if x in spare then Behind(spare, x) else 0)
    else if x in chains[0] then Behind(chains[0], x)
    else Next(chains[1..], spare, x)
  }

  function Remove(xs: seq<int>, x: int): seq<int> {
    if xs == [] then [] else if xs[0] == x then xs[1..] else [xs[0]] + Remove(xs[1..], x)
  }

  function RemoveAll(chains: seq<seq<int>>, x: int): seq<seq<int>> {
    seq(|chains|, b requires 0 <= b < |chains| => Remove(chains[b], x))
  }

  predicate OnChain(chains: seq<seq<int>>, x: int) { exists b :: 0 <= b < |chains| && x in chains[b] }

  predicate Used(h: Heap, x: int) { OnChain(h.chains, x) }

  /** What the page field of x holds: the page it had last, if it is free. */
  function PageField(h: Heap, x: int): int { if x in h.page then h.page[x] else 0 }

  /** The lists are apart, and descriptors in use have pages of their own. */
  ghost predicate Ok(h: Heap) { ListsOk(h.chains, h.spare) && PagesOk(h) }

  ghost predicate ListsOk(chains: seq<seq<int>>, spare: seq<int>) {
    && |chains| == BUCKETS && 0 !in spare && Distinct(spare)
    && (forall b :: 0 <= b < BUCKETS ==> 0 !in chains[b] && Distinct(chains[b]))
    && (forall b, c, x :: 0 <= b < BUCKETS && 0 <= c < BUCKETS && x in chains[b] && x in chains[c] ==> b == c)
    && (forall b, x :: 0 <= b < BUCKETS && x in chains[b] ==> x !in spare)
  }

  ghost predicate PagesOk(h: Heap) {
    forall x, y :: Used(h, x) && Used(h, y) && PageField(h, x) == PageField(h, y) ==> x == y
  }

  // ---------------------------------------------------------------------------------------------
  // Steps
  // ---------------------------------------------------------------------------------------------

  /** Where the search is; Lost stands for the panic "Bad address passed to kernel free_s()". */
  datatype Pc =
    | Scan(b: nat)                          // about to look at bucket b
    | At(b: nat, x: int, prev: int)         // about to compare the page of x
    | Moving(b: nat, x: int)                // about to load the next pointer of x
    | Found(b: nat, x: int, prev: int)
    | Lost

  /** own is the descriptor of the page that is looked for; it has a live object, so nobody gives it back. */
  datatype State = State(heap: Heap, pc: Pc, size: int, page: int, own: int)

  /** One access of the search, or what an interrupt does. */
  datatype Event = Look | Open(b: nat, page: int) | Close(x: int) | Grow(extra: seq<int>)

  function Search(s: State): State {
    match s.pc
    case Scan(b) =>
      if b >= BUCKETS || b >= |s.heap.chains| then s.(pc := Lost)
      else if BucketHeap.Size(b) < s.size then s.(pc := Scan(b + 1))
      else s.(pc := At(b, Head(s.heap.chains[b]), 0))
    case At(b, x, prev) =>
      if x == 0 then s.(pc := Scan(b + 1))
      else if PageField(s.heap, x) == s.page then s.(pc := Found(b, x, prev))
      else s.(pc := Moving(b, x))
    case Moving(b, x) => s.(pc := At(b, Next(s.heap.chains, s.heap.spare, x), x))
    case Found(_, _, _) => s
    case Lost => s
  }

  predicate CanOpen(h: Heap, b: nat, page: int) {
    b < |h.chains| && h.spare != [] && forall c, x :: 0 <= c < |h.chains| && x in h.chains[c] ==>
      PageField(h, x) != page
  }

  predicate CanGrow(h: Heap, extra: seq<int>) {
    && h.spare == [] && 0 !in extra && (forall i, j :: 0 <= i < j < |extra| ==> extra[i] != extra[j])
    && forall c, x :: 0 <= c < |h.chains| && x in h.chains[c] ==> x !in extra
  }

  /** The heap after an interrupt: malloc opens a page, free_s closes one, init_bucket_desc adds descriptors. */
  function Interrupt(h: Heap, own: int, e: Event): Heap {
    match e
    case Look => h
    case Open(b, page) =>
      if CanOpen(h, b, page) then
        Heap(h.chains[b := [h.spare[0]] + h.chains[b]], h.spare[1..], h.page[h.spare[0] := page])
      else h
    case Close(x) => if x != own && Used(h, x) then Heap(RemoveAll(h.chains, x), [x] + h.spare, h.page) else h
    case Grow(extra) => if CanGrow(h, extra) then h.(spare := extra) else h
  }

  function Step(s: State, e: Event): State {
    if e.Look? then Search(s) else s.(heap := Interrupt(s.heap, s.own, e))
  }

  function Run(s: State, es: seq<Event>): State {
    if es == [] then s else Step(Run(s, es[..|es| - 1]), es[|es| - 1])
  }

  /** free_s is called for a live object whose page belongs to own on chain c; size is no larger than its bucket. */
  ghost predicate Called(s: State, c: nat) {
    && Ok(s.heap) && c < BUCKETS && s.own in s.heap.chains[c] && PageField(s.heap, s.own) == s.page
    && s.size <= BucketHeap.Size(c) && s.pc == Scan(0)
  }

  // ---------------------------------------------------------------------------------------------
  // Searches that are not disturbed
  // ---------------------------------------------------------------------------------------------

  /** The descriptor that the search stands at. */
  predicate StandsAt(pc: Pc, x: int) { (pc.At? || pc.Moving?) && pc.x == x && x != 0 }

  /** The interrupt takes away the descriptor that the search stands at. */
  predicate Disturbs(s: State, e: Event) { e.Close? && e.x != s.own && Used(s.heap, e.x) && StandsAt(s.pc, e.x) }

  ghost predicate Calm(s: State, es: seq<Event>) {
    forall k :: 0 <= k < |es| ==> !Disturbs(Run(s, es[..k]), es[k])
  }

  /** The search stands on the chain that it believes to be on. */
  predicate OnTrack(s: State) {
    (s.pc.At? && s.pc.x != 0) || s.pc.Moving? ==> s.pc.b < |s.heap.chains| && s.pc.x in s.heap.chains[s.pc.b]
  }

  /** What is looked for is still ahead. */
  ghost predicate Ahead(h: Heap, pc: Pc, own: int, c: nat)
    requires |h.chains| == BUCKETS && c < BUCKETS
  {
    match pc
    case Scan(b) => b <= c
    case At(b, x, prev) => b <= c && (b == c ==> x != 0 && own in From(h.chains[b], x))
    case Moving(b, x) => b <= c && x != 0 && (b == c ==> x != own && own in From(h.chains[b], x))
    case Found(b, x, prev) => b == c && x == own
    case Lost => false
  }

  /** What the search remembers as the descriptor before is one, in use or free. */
  predicate PrevKnown(h: Heap, pc: Pc) {
    (pc.At? || pc.Found?) && pc.prev != 0 ==> Used(h, pc.prev) || pc.prev in h.spare
  }

  ghost predicate Good(s: State, c: nat) {
    && Ok(s.heap) && c < BUCKETS && s.own in s.heap.chains[c] && PageField(s.heap, s.own) == s.page
    && s.size <= BucketHeap.Size(c) && OnTrack(s) && Ahead(s.heap, s.pc, s.own, c) && PrevKnown(s.heap, s.pc)
  }

  lemma {:induction false} RemoveHas(xs: seq<int>, x: int)
    requires Distinct(xs)
    ensures Distinct(Remove(xs, x)) && forall y :: y in Remove(xs, x) <==> y in xs && y != x
  {
    if xs != [] && xs[0] != x {
      RemoveHas(xs[1..], x);
      var r := Remove(xs[1..], x);
      assert xs == [xs[0]] + xs[1..];
      assert xs[0] !in xs[1..];
    } else if xs != [] {
      assert xs == [xs[0]] + xs[1..] && xs[0] !in xs[1..];
    }
  }

  /** Taking another descriptor away leaves what is ahead of x. */
  lemma {:induction false} FromRemove(xs: seq<int>, x: int, y: int, z: int)
    requires z in From(xs, x) && y != x && y != z
    ensures z in From(Remove(xs, y), x)
  {
    if xs != [] && xs[0] != x {
      FromRemove(xs[1..], x, y, z);
      if xs[0] != y { assert Remove(xs, y)[1..] == Remove(xs[1..], y); }
    } else if xs != [] {
      assert xs == [x] + xs[1..];
      if z != x { RemoveKeeps(xs[1..], y, z); }
    }
  }

  lemma {:induction false} RemoveKeeps(xs: seq<int>, y: int, z: int)
    requires z in xs && z != y
    ensures z in Remove(xs, y)
  {
    if xs[0] != y && z != xs[0] { RemoveKeeps(xs[1..], y, z); }
  }

  lemma {:induction false} FromIn(xs: seq<int>, x: int)
    ensures forall z :: z in From(xs, x) ==> z in xs
  {
    if xs != [] && xs[0] != x { FromIn(xs[1..], x); }
  }

  /** One step along a list: what is behind x is ahead of the next one. */
  lemma {:induction false} FromNext(xs: seq<int>, x: int, z: int)
    requires Distinct(xs) && x in xs && z in From(xs, x) && z != x
    ensures From(xs, x) != [] && From(xs, x)[1..] != [] && Behind(xs, x) in xs && z in From(xs, Behind(xs, x))
  {
    FromHas(xs, x);
    if xs[0] == x {
      assert xs == [x] + xs[1..] && z in xs[1..];
      assert Behind(xs, x) == xs[1] && xs[1] != x;
      assert From(xs, xs[1]) == From(xs[1..], xs[1]) == xs[1..];
    } else {
      assert xs == [xs[0]] + xs[1..];
      FromNext(xs[1..], x, z);
      assert Behind(xs, x) == Behind(xs[1..], x) && xs[0] !in xs[1..];
    }
  }

  lemma {:induction false} NextOn(chains: seq<seq<int>>, spare: seq<int>, b: nat, x: int)
    requires b < |chains| && x in chains[b] && forall c :: 0 <= c < |chains| && x in chains[c] ==> c == b
    ensures Next(chains, spare, x) == Behind(chains[b], x)
  {
    if b > 0 {
      assert x !in chains[0];
      NextOn(chains[1..], spare, b - 1, x);
    }
  }

  lemma BehindIn(xs: seq<int>, x: int)
    requires x in xs
    ensures Behind(xs, x) == 0 || Behind(xs, x) in xs
  {
    FromHas(xs, x);
    FromIn(xs, x);
  }

  /** An access of the search keeps it on its way. */
  lemma SearchKeeps(s: State, c: nat)
    requires Good(s, c)
    ensures Good(Search(s), c)
  {
    match s.pc
    case Scan(b) =>
      if BucketHeap.Size(b) < s.size { SizeOrder(b, c); }
    case At(b, x, prev) => if x != 0 { Pages(s, c); }
    case Moving(b, x) =>
      var xs := s.heap.chains[b];
      NextOn(s.heap.chains, s.heap.spare, b, x);
      BehindIn(xs, x);
      if b == c { FromNext(xs, x, s.own); }
    case Found(_, _, _) =>
    case Lost =>
  }

  lemma SizeOrder(b: nat, c: nat)
    requires b <= c < BUCKETS && BucketHeap.Size(b) < BucketHeap.Size(c)
    ensures b < c
  {}

  lemma Pages(s: State, c: nat)
    requires Good(s, c) && s.pc.At? && s.pc.x != 0
    ensures PageField(s.heap, s.pc.x) == s.page <==> s.pc.x == s.own
    ensures s.pc.x == s.own ==> s.pc.b == c
  {
    assert Used(s.heap, s.pc.x) && Used(s.heap, s.own);
  }

  /** Interrupts keep the lists apart. */
  lemma InterruptOk(h: Heap, own: int, e: Event)
    requires Ok(h)
    ensures Ok(Interrupt(h, own, e))
  {
    match e
    case Look =>
    case Open(b, page) => if CanOpen(h, b, page) { OpenOk(h, b, page); }
    case Close(x) => if x != own && Used(h, x) { CloseOk(h, x); }
    case Grow(extra) =>
      if CanGrow(h, extra) {
        assert ListsOk(h.chains, extra);
        forall x | Used(h.(spare := extra), x) ensures Used(h, x) {}
      }
  }

  lemma OpenOk(h: Heap, b: nat, page: int)
    requires Ok(h) && CanOpen(h, b, page)
    ensures Ok(Heap(h.chains[b := [h.spare[0]] + h.chains[b]], h.spare[1..], h.page[h.spare[0] := page]))
  {
    var y := h.spare[0];
    var h' := Heap(h.chains[b := [y] + h.chains[b]], h.spare[1..], h.page[y := page]);
    OpenLists(h.chains, h.spare, b);
    forall x | Used(h', x) ensures x == y || (Used(h, x) && PageField(h', x) == PageField(h, x) != page) {
      var c :| 0 <= c < |h'.chains| && x in h'.chains[c];
      if x != y { assert x in h.chains[c]; }
    }
  }

  lemma OpenLists(chains: seq<seq<int>>, spare: seq<int>, b: nat)
    requires ListsOk(chains, spare) && b < |chains| && spare != []
    ensures ListsOk(chains[b := [spare[0]] + chains[b]], spare[1..])
  {
    hide Distinct;
    var y, rest := spare[0], spare[1..];
    assert y in spare && spare == [y] + rest;
    DistinctSplit(y, rest);
    DistinctSplit(y, chains[b]);
    var chains' := chains[b := [y] + chains[b]];
    forall c, x | 0 <= c < BUCKETS && x in chains'[c] ensures x in chains[c] || (c == b && x == y) {}
    forall c | 0 <= c < BUCKETS ensures 0 !in chains'[c] && Distinct(chains'[c]) {}
    assert 0 !in rest && Distinct(rest) && forall x :: x in rest ==> x in spare;
    forall c, d, x | 0 <= c < BUCKETS && 0 <= d < BUCKETS && x in chains'[c] && x in chains'[d] ensures c == d {}
    forall c, x | 0 <= c < BUCKETS && x in chains'[c] ensures x !in rest {}
  }

  lemma DistinctSplit(x: int, xs: seq<int>)
    ensures Distinct([x] + xs) <==> x !in xs && Distinct(xs)
  {
    var ys := [x] + xs;
    assert forall i :: 0 <= i < |xs| ==> ys[i + 1] == xs[i];
    if x in xs {
      var i :| 0 <= i < |xs| && xs[i] == x;
      assert ys[0] == ys[i + 1];
    }
    if x !in xs && Distinct(xs) {
      forall i, j | 0 <= i < j < |ys| ensures ys[i] != ys[j] {
        assert ys[j] == xs[j - 1];
        if i > 0 { assert ys[i] == xs[i - 1]; }
      }
    }
    if Distinct(ys) {
      forall i, j | 0 <= i < j < |xs| ensures xs[i] != xs[j] { assert ys[i + 1] != ys[j + 1]; }
    }
  }

  lemma CloseOk(h: Heap, x: int)
    requires Ok(h) && Used(h, x)
    ensures Ok(Heap(RemoveAll(h.chains, x), [x] + h.spare, h.page))
    ensures forall b :: 0 <= b < BUCKETS ==> x !in RemoveAll(h.chains, x)[b]
  {
    var h' := Heap(RemoveAll(h.chains, x), [x] + h.spare, h.page);
    CloseLists(h.chains, h.spare, x);
    forall y | Used(h', y) ensures Used(h, y) && PageField(h', y) == PageField(h, y) {
      var c :| 0 <= c < |h'.chains| && y in h'.chains[c];
      assert y in h.chains[c];
    }
  }

  lemma CloseLists(chains: seq<seq<int>>, spare: seq<int>, x: int)
    requires ListsOk(chains, spare) && OnChain(chains, x)
    ensures ListsOk(RemoveAll(chains, x), [x] + spare)
    ensures forall b, y :: 0 <= b < BUCKETS ==> (y in RemoveAll(chains, x)[b] <==> y in chains[b] && y != x)
  {
    hide Distinct;
    var chains' := RemoveAll(chains, x);
    DistinctSplit(x, spare);
    forall b | 0 <= b < BUCKETS
      ensures Distinct(chains'[b]) && forall y :: y in chains'[b] <==> y in chains[b] && y != x
    {
      RemoveHas(chains[b], x);
    }
  }

  /** Descriptors in use or free stay so, and those in use stay on their chain unless they are taken away. */
  lemma InterruptKnows(h: Heap, own: int, e: Event, x: int)
    requires Ok(h)
    ensures Used(h, x) || x in h.spare ==> Used(Interrupt(h, own, e), x) || x in Interrupt(h, own, e).spare
  {
    var h' := Interrupt(h, own, e);
    if Used(h, x) {
      var c :| 0 <= c < |h.chains| && x in h.chains[c];
      if e.Close? && e.x != x { RemoveKeeps2(h, e.x, c, x); }
      assert h' == h || x in h'.chains[c] || x in h'.spare;
    } else if x in h.spare && e.Open? && CanOpen(h, e.b, e.page) {
      if x == h.spare[0] { assert x in h'.chains[e.b]; }
    }
  }

  lemma RemoveKeeps2(h: Heap, y: int, b: nat, x: int)
    requires b < |h.chains| && x in h.chains[b] && x != y
    ensures x in RemoveAll(h.chains, y)[b]
  {
    RemoveKeeps(h.chains[b], y, x);
  }

  /** An interrupt that leaves the descriptor alone at which the search stands. */
  lemma InterruptKeeps(s: State, e: Event, c: nat)
    requires Good(s, c) && !e.Look? && !Disturbs(s, e)
    ensures Good(Step(s, e), c)
  {
    hide Ok;
    InterruptOk(s.heap, s.own, e);
    if s.pc.At? || s.pc.Found? { InterruptKnows(s.heap, s.own, e, s.pc.prev); }
    match e
    case Look =>
    case Open(b, page) => if CanOpen(s.heap, b, page) { OpenKeeps(s, b, page, c); }
    case Close(x) => if x != s.own && Used(s.heap, x) { CloseKeeps(s, x, c); }
    case Grow(extra) =>
  }

  lemma OpenKeeps(s: State, b: nat, page: int, c: nat)
    requires Good(s, c) && CanOpen(s.heap, b, page)
    ensures var s' := Step(s, Open(b, page));
      s.own in s'.heap.chains[c] && PageField(s'.heap, s.own) == s.page && OnTrack(s') && Ahead(s'.heap, s.pc, s.own, c)
  {
    var y := s.heap.spare[0];
    assert y in s.heap.spare && y !in s.heap.chains[c];
    if (s.pc.At? || s.pc.Moving?) && b == s.pc.b {
      assert y !in s.heap.chains[b];
      assert ([y] + s.heap.chains[b])[1..] == s.heap.chains[b];
    }
  }

  lemma CloseKeeps(s: State, x: int, c: nat)
    requires Good(s, c) && x != s.own && Used(s.heap, x) && !StandsAt(s.pc, x)
    ensures var s' := Step(s, Close(x));
      s.own in s'.heap.chains[c] && PageField(s'.heap, s.own) == s.page && OnTrack(s') && Ahead(s'.heap, s.pc, s.own, c)
  {
    RemoveKeeps(s.heap.chains[c], x, s.own);
    if (s.pc.At? || s.pc.Moving?) && s.pc.x != 0 {
      RemoveKeeps(s.heap.chains[s.pc.b], x, s.pc.x);
      if s.pc.b == c { FromRemove(s.heap.chains[c], s.pc.x, x, s.own); }
    }
  }

  lemma StepKeeps(s: State, e: Event, c: nat)
    requires Good(s, c) && !Disturbs(s, e)
    ensures Good(Step(s, e), c)
  {
    if e.Look? { SearchKeeps(s, c); } else { InterruptKeeps(s, e, c); }
  }

  lemma {:induction false} CalmGood(s: State, es: seq<Event>, c: nat)
    requires Called(s, c) && Calm(s, es)
    ensures Good(Run(s, es), c)
    decreases |es|
  {
    if es != [] {
      var n := |es| - 1;
      forall k | 0 <= k < n ensures es[..n][..k] == es[..k] && es[..n][k] == es[k] {}
      CalmGood(s, es[..n], c);
      assert !Disturbs(Run(s, es[..n]), es[n]);
      StepKeeps(Run(s, es[..n]), es[n], c);
    }
  }

  /**
   * A search that no interrupt disturbs does not panic, and what it finds is the descriptor of the
   * page; what it remembers as the one before is a descriptor, though maybe no longer the one before.
   */
  lemma CalmFinds(s: State, es: seq<Event>, c: nat)
    requires Called(s, c) && Calm(s, es)
    ensures var t := Run(s, es); !t.pc.Lost? && PrevKnown(t.heap, t.pc)
    ensures var t := Run(s, es);
      Ok(t.heap) && (t.pc.Found? ==> t.pc.x == s.own && t.pc.b == c && s.own in t.heap.chains[c])
  {
    CalmGood(s, es, c);
    RunSame(s, es);
  }

  lemma {:induction false} RunSame(s: State, es: seq<Event>)
    ensures var t := Run(s, es); t.own == s.own && t.size == s.size && t.page == s.page
    ensures Ok(s.heap) ==> Ok(Run(s, es).heap)
  {
    if es != [] {
      var t := Run(s, es[..|es| - 1]);
      RunSame(s, es[..|es| - 1]);
      if Ok(s.heap) { InterruptOk(t.heap, t.own, es[|es| - 1]); }
    }
  }

  /** The search is at every moment on the chain that it believes to be on exactly if it is not disturbed. */
  lemma OnTrackIffCalm(s: State, es: seq<Event>, c: nat)
    requires Called(s, c)
    ensures (forall k :: 0 <= k <= |es| ==> OnTrack(Run(s, es[..k]))) <==> Calm(s, es)
  {
    if Calm(s, es) {
      forall k | 0 <= k <= |es| ensures OnTrack(Run(s, es[..k])) {
        forall j | 0 <= j < k ensures es[..k][..j] == es[..j] {}
        CalmGood(s, es[..k], c);
      }
    } else {
      var k :| 0 <= k < |es| && Disturbs(Run(s, es[..k]), es[k]);
      var t := Run(s, es[..k]);
      RunSame(s, es[..k]);
      assert es[..k + 1][..k] == es[..k];
      CloseOk(t.heap, es[k].x);
      assert !OnTrack(Run(s, es[..k + 1]));
    }
  }

  // ---------------------------------------------------------------------------------------------
  // The search comes to its end
  // ---------------------------------------------------------------------------------------------

  function Looks(s: State, n: nat): State
    decreases n
  {
    if n == 0 then s else Looks(Search(s), n - 1)
  }

  lemma {:induction false} FromAbsent(xs: seq<int>, x: int)
    requires x !in xs
    ensures From(xs, x) == []
  {
    if xs != [] { FromAbsent(xs[1..], x); }
  }

  lemma {:induction false} FromShorter(xs: seq<int>, x: int)
    requires Distinct(xs) && 0 !in xs && x in xs
    ensures |From(xs, Behind(xs, x))| < |From(xs, x)|
  {
    FromHas(xs, x);
    if xs[0] == x {
      assert xs == [x] + xs[1..];
      if xs[1..] == [] {
        FromAbsent(xs, 0);
      } else {
        assert xs[1] != x && From(xs, xs[1]) == From(xs[1..], xs[1]) == xs[1..];
      }
    } else {
      assert xs == [xs[0]] + xs[1..];
      FromShorter(xs[1..], x);
      var y := Behind(xs[1..], x);
      BehindIn(xs[1..], x);
      assert Behind(xs, x) == y;
      if y == 0 { FromAbsent(xs, 0); FromAbsent(xs[1..], 0); } else { assert y != xs[0]; }
    }
  }

  /** Without further interrupts, a search that has not been disturbed finds what it looks for. */
  lemma {:induction false} FindsAtLast(s: State, c: nat) returns (n: nat)
    requires Good(s, c)
    ensures Looks(s, n).pc.Found?
    decreases if s.pc.Found? then 0 else BUCKETS + 1 - s.pc.b, if s.pc.Scan? then 1 else 0,
      if s.pc.At? || s.pc.Moving? then |From(s.heap.chains[s.pc.b], s.pc.x)| else 0, if s.pc.At? then 1 else 0
  {
    if s.pc.Found? { return 0; }
    SearchKeeps(s, c);
    if s.pc.Moving? {
      NextOn(s.heap.chains, s.heap.spare, s.pc.b, s.pc.x);
      FromShorter(s.heap.chains[s.pc.b], s.pc.x);
    }
    n := FindsAtLast(Search(s), c);
    n := n + 1;
  }

  // ---------------------------------------------------------------------------------------------
  // Two searches that are disturbed
  // ---------------------------------------------------------------------------------------------

  function Interrupts(h: Heap, es: seq<Event>): Heap {
    if es == [] then h else Interrupt(Interrupts(h, es[..|es| - 1]), 0, es[|es| - 1])
  }

  /** Descriptors in the two smallest buckets only. */
  function Chains(a: seq<int>, b: seq<int>): seq<seq<int>> { [a, b, [], [], [], [], [], [], []] }

  /** The heap before the first malloc. */
  function Empty(): Heap { Heap(Chains([], []), [], map[]) }

  lemma {:induction false} InterruptsOk(es: seq<Event>)
    ensures Ok(Interrupts(Empty(), es))
  {
    if es != [] {
      InterruptsOk(es[..|es| - 1]);
      InterruptOk(Interrupts(Empty(), es[..|es| - 1]), 0, es[|es| - 1]);
    }
  }

  lemma GrowStep(h: Heap, es: seq<Event>, extra: seq<int>)
    requires Interrupts(h, es) == Empty() && 0 !in extra && forall i, j :: 0 <= i < j < |extra| ==> extra[i] != extra[j]
    ensures Interrupts(h, es + [Grow(extra)]) == Empty().(spare := extra)
  {
    assert (es + [Grow(extra)])[..|es|] == es;
  }

  lemma OpenStep(h: Heap, es: seq<Event>, a: seq<int>, b: seq<int>, y: int, rest: seq<int>, page: map<int, int>, k: nat,
                 p: int)
    requires Interrupts(h, es) == Heap(Chains(a, b), [y] + rest, page) && k < 2
    requires forall x :: x in a || x in b ==> x in page && page[x] != p
    ensures Interrupts(h, es + [Open(k, p)]) ==
      Heap(if k == 0 then Chains([y] + a, b) else Chains(a, [y] + b), rest, page[y := p])
  {
    assert (es + [Open(k, p)])[..|es|] == es;
    assert CanOpen(Interrupts(h, es), k, p);
    assert ([y] + rest)[1..] == rest;
  }

  lemma CloseStep(h: Heap, own: int, a: seq<int>, b: seq<int>, x: int)
    requires h.chains == Chains(a, b) && x != own && (x in a || x in b)
    ensures Interrupt(h, own, Close(x)) == Heap(Chains(Remove(a, x), Remove(b, x)), [x] + h.spare, h.page)
  {
    assert x in h.chains[0] || x in h.chains[1];
    assert RemoveAll(h.chains, x) == Chains(Remove(a, x), Remove(b, x));
  }

  lemma Last(s: State, es: seq<Event>, e: Event)
    ensures Run(s, es + [e]) == Step(Run(s, es), e)
  {
    assert (es + [e])[..|es|] == es;
  }

  lemma {:induction false} LooksRun(s: State, n: nat) returns (es: seq<Event>)
    ensures |es| == n && Run(s, es) == Looks(s, n)
  {
    es := [];
    if n > 0 {
      es := LooksRun(s, n - 1);
      LooksLast(s, n - 1);
      Last(s, es, Look);
      es := es + [Look];
    }
  }

  lemma {:induction false} LooksLast(s: State, n: nat)
    ensures Looks(s, n + 1) == Search(Looks(s, n))
    decreases n
  {
    if n > 0 { LooksLast(Search(s), n - 1); }
  }

  lemma {:induction false} RunJoin(s: State, a: seq<Event>, b: seq<Event>)
    ensures Run(s, a + b) == Run(Run(s, a), b)
    decreases |b|
  {
    if b == [] {
      assert a + b == a;
    } else {
      var n := |b| - 1;
      assert a + b == (a + b[..n]) + [b[n]];
      Last(s, a + b[..n], b[n]);
      RunJoin(s, a, b[..n]);
    }
  }

  /** Buckets that hold nothing are passed by, and then the search panics. */
  lemma {:induction false} PassesBy(s: State, b: nat)
    requires |s.heap.chains| == BUCKETS && s.pc == Scan(b) && b <= BUCKETS && s.size <= 16
    requires forall k :: b <= k < BUCKETS ==> s.heap.chains[k] == []
    ensures Looks(s, 2 * (BUCKETS - b) + 1).pc.Lost?
    decreases BUCKETS - b
  {
    if b < BUCKETS {
      BucketHeap.SizeFits(b);
      PassesBy(Search(Search(s)), b + 1);
    }
  }

  /**
   * The descriptor that the search stands at is given back and leads it into the free ones: it never
   * comes to the descriptor it looks for, and free_s panics for a live object.
   */
  lemma FalsePanic() returns (build: seq<Event>, s: State, es: seq<Event>)
    ensures s.heap == Interrupts(Empty(), build) && Called(s, 0) && Run(s, es).pc.Lost?
  {
    build := [];
    GrowStep(Empty(), build, [16, 32, 48]);
    build := build + [Grow([16, 32, 48])];
    assert [16, 32, 48] == [16] + [32, 48] && [32, 48] == [32] + [48];
    assert [16] + [] == [16] && [32] + [16] == [32, 16] && [32] + [48] == [32, 48];
    OpenStep(Empty(), build, [], [], 16, [32, 48], map[], 0, 4096);
    build := build + [Open(0, 4096)];
    OpenStep(Empty(), build, [16], [], 32, [48], map[][16 := 4096], 0, 8192);
    build := build + [Open(0, 8192)];
    s := State(Interrupts(Empty(), build), Scan(0), 0, 4096, 16);
    InterruptsOk(build);
    assert 16 in s.heap.chains[0];
    es := LostRun(s);
  }

  lemma {:induction false} NextSpare(chains: seq<seq<int>>, spare: seq<int>, x: int)
    requires forall b :: 0 <= b < |chains| ==> x !in chains[b]
    ensures Next(chains, spare, x) == if x in spare then Behind(spare, x) else 0
  {
    if chains != [] { NextSpare(chains[1..], spare, x); }
  }

  /** Loading the next pointer of a free descriptor. */
  lemma LookAstray(s: State, b: nat, x: int)
    requires s.pc == Moving(b, x) && x in s.heap.spare
    requires forall c :: 0 <= c < |s.heap.chains| ==> x !in s.heap.chains[c]
    ensures Search(s) == s.(pc := At(b, Behind(s.heap.spare, x), x))
  {
    NextSpare(s.heap.chains, s.heap.spare, x);
  }

  lemma LostRun(s: State) returns (es: seq<Event>)
    requires s == State(Heap(Chains([32, 16], []), [48], map[16 := 4096, 32 := 8192]), Scan(0), 0, 4096, 16)
    ensures Run(s, es).pc.Lost?
  {
    hide Run, Next, Remove;
    assert [32] + [16] == [32, 16] && [32] + [48] == [32, 48];
    es := Stray(s, 32, [16], []);
    var t := State(Heap(Chains([16], []), [32, 48], s.heap.page), Moving(0, 32), 0, 4096, 16);
    assert Run(s, es) == t;
    LostFrom(t);
    var rest := LooksRun(t, 4 + 2 * (BUCKETS - 1) + 1);
    RunJoin(s, es, rest);
    es := es + rest;
  }

  lemma LostFrom(t: State)
    requires t.heap.chains == Chains([16], []) && t.heap.spare == [32, 48] && 48 !in t.heap.page && t.page != 0
    requires t.pc == Moving(0, 32) && t.size <= 16
    ensures Looks(t, 4 + 2 * (BUCKETS - 1) + 1).pc.Lost?
  {
    hide Search, Next;
    assert Behind([32, 48], 32) == 48 && Behind([32, 48], 48) == 0;
    PastFree(t, 0, 32, 48);
    PastFree(t.(pc := Moving(0, 48)), 0, 48, 0);
    PassesBy(t.(pc := Scan(1)), 1);
    FourLooks(t, 2 * (BUCKETS - 1) + 1);
  }

  /** From one free descriptor to the next, or to the next bucket. */
  lemma PastFree(s: State, b: nat, x: int, y: int)
    requires s.pc == Moving(b, x) && x in s.heap.spare && Behind(s.heap.spare, x) == y
    requires forall c :: 0 <= c < |s.heap.chains| ==> x !in s.heap.chains[c]
    requires y != 0 ==> PageField(s.heap, y) != s.page
    ensures Search(Search(s)) == s.(pc := if y == 0 then Scan(b + 1) else Moving(b, y))
  {
    LookAstray(s, b, x);
  }

  lemma FourLooks(s: State, n: nat)
    ensures Looks(s, 4 + n) == Looks(Search(Search(Search(Search(s)))), n)
  {
    hide Search;
    assert Looks(s, 4 + n) == Looks(Search(s), 3 + n) == Looks(Search(Search(s)), 2 + n);
    assert Looks(Search(Search(s)), 2 + n) == Looks(Search(Search(Search(s))), 1 + n);
  }

  /** The search stands at the first descriptor of the smallest bucket when that is given back. */
  lemma Stray(s: State, x: int, a: seq<int>, b: seq<int>) returns (es: seq<Event>)
    requires s.heap.chains == Chains([x] + a, b) && s.pc == Scan(0) && s.size <= 16 && x != 0 && x != s.own && x !in b
    requires PageField(s.heap, x) != s.page
    ensures Run(s, es) == s.(heap := Heap(Chains(a, b), [x] + s.heap.spare, s.heap.page), pc := Moving(0, x))
  {
    es := [Look, Look];
    assert es == ([] + [Look]) + [Look];
    Last(s, [], Look);
    Last(s, [] + [Look], Look);
    CloseStep(s.heap, s.own, [x] + a, b, x);
    assert Remove([x] + a, x) == a;
    RemoveAbsent(b, x);
    Last(s, es, Close(x));
    es := es + [Close(x)];
  }

  lemma {:induction false} RemoveAbsent(xs: seq<int>, x: int)
    requires x !in xs
    ensures Remove(xs, x) == xs
  {
    if xs != [] { RemoveAbsent(xs[1..], x); }
  }

  /**
   * The descriptor that the search stands at is given back and leads it to a free descriptor that had
   * the page before: free_s takes that one for the owner of the object.
   */
  lemma WrongDescriptor() returns (build: seq<Event>, s: State, es: seq<Event>)
    ensures s.heap == Interrupts(Empty(), build) && Called(s, 1)
    ensures var t := Run(s, es); t.pc.Found? && t.pc.x != s.own && t.pc.x in t.heap.spare
  {
    hide Interrupts, Next, Remove, Ok;
    build := Reused();
    s := State(Interrupts(Empty(), build), Scan(0), 0, 8192, 48);
    InterruptsOk(build);
    assert 48 in s.heap.chains[1];
    assert [16] + [] == [16];
    es := Stray(s, 16, [], [48]);
    var t := Run(s, es);
    LookAstray(t, 0, 16);
    assert t.heap.spare == [16, 32] && Behind([16, 32], 16) == 32;
    Last(s, es, Look);
    Last(s, es + [Look], Look);
    es := es + [Look] + [Look];
  }

  /** The page of descriptor 32 now belongs to 48; 32 is free. */
  lemma Reused() returns (build: seq<Event>)
    ensures Interrupts(Empty(), build) == Heap(Chains([16], [48]), [32], map[16 := 12288, 32 := 8192, 48 := 8192])
  {
    hide Interrupts;
    build := ThreeOpen();
    CloseLast(build, [16], [48, 32], 32);
    build := build + [Close(32)];
    assert Remove([16], 32) == [16] && Remove([48, 32], 32) == [48] && [32] + [] == [32];
    CloseLast(build, [16], [48], 48);
    build := build + [Close(48)];
    assert Remove([16], 48) == [16] && Remove([48], 48) == [];
    assert [48] + [] == [48];
    OpenStep(Empty(), build, [16], [], 48, [32], map[16 := 12288, 32 := 8192, 48 := 4096], 1, 8192);
    build := build + [Open(1, 8192)];
  }

  lemma CloseLast(es: seq<Event>, a: seq<int>, b: seq<int>, x: int)
    requires Interrupts(Empty(), es).chains == Chains(a, b) && x != 0 && (x in a || x in b)
    ensures var h := Interrupts(Empty(), es);
      Interrupts(Empty(), es + [Close(x)]) == Heap(Chains(Remove(a, x), Remove(b, x)), [x] + h.spare, h.page)
  {
    assert (es + [Close(x)])[..|es|] == es;
    CloseStep(Interrupts(Empty(), es), 0, a, b, x);
  }

  lemma ThreeOpen() returns (build: seq<Event>)
    ensures Interrupts(Empty(), build) == Heap(Chains([16], [48, 32]), [], map[16 := 12288, 32 := 8192, 48 := 4096])
  {
    hide Interrupts;
    GrowStep(Empty(), [], [16, 32, 48]) by { NoInterrupts(); }
    build := [] + [Grow([16, 32, 48])];
    assert [16, 32, 48] == [16] + [32, 48] && [32, 48] == [32] + [48] && [48] == [48] + [];
    assert [16] + [] == [16] && [32] + [] == [32] && [48] + [32] == [48, 32];
    OpenStep(Empty(), build, [], [], 16, [32, 48], map[], 0, 12288);
    build := build + [Open(0, 12288)];
    OpenStep(Empty(), build, [16], [], 32, [48], map[16 := 12288], 1, 8192);
    build := build + [Open(1, 8192)];
    OpenStep(Empty(), build, [16], [32], 48, [], map[16 := 12288, 32 := 8192], 1, 4096);
    build := build + [Open(1, 4096)];
  }

  lemma NoInterrupts()
    ensures Interrupts(Empty(), []) == Empty()
  {}
}
