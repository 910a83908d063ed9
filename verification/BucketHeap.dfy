/**
 * The kernel's bucket allocator (cpp/linux-0.11/lib/malloc.c): descriptors on one chain per object
 * size, and in every page a free list threaded through the free objects themselves. Addresses are
 * numbers, 0 is the null pointer, and memory is one map per kind of field.
 */
module BucketHeap {
  import opened Sequences

  const PAGE := 4096
  const BUCKETS := 9
  const DESC := 16

  function Size(b: nat): nat
    requires b < BUCKETS
  {
    [16, 32, 64, 128, 256, 512, 1024, 2048, 4096][b]
  }

  function PageOf(a: int): int { a - a % PAGE }

  datatype Desc = Desc(page: int, freeptr: int, refcnt: int, size: int)

  // ---------------------------------------------------------------------------------------------
  // Linked lists through a map of addresses
  // ---------------------------------------------------------------------------------------------

  function Head(xs: seq<int>): int { if xs == [] then 0 else xs[0] }

  ghost predicate IsList(next: map<int, int>, head: int, xs: seq<int>) {
    && head == Head(xs) && 0 !in xs && Distinct(xs)
    && (forall i :: 0 <= i < |xs| ==> xs[i] in next && next[xs[i]] == Head(xs[i + 1..]))
  }

  lemma NullIsEmpty(next: map<int, int>, head: int, xs: seq<int>)
    requires IsList(next, head, xs)
    ensures head == 0 <==> xs == []
  {}

  lemma ListFrame(next: map<int, int>, next': map<int, int>, head: int, xs: seq<int>)
    requires IsList(next, head, xs) && forall x :: x in xs ==> x in next' && next'[x] == next[x]
    ensures IsList(next', head, xs)
  {}

  lemma ListPush(next: map<int, int>, head: int, xs: seq<int>, x: int)
    requires IsList(next, head, xs) && x != 0 && x !in xs
    ensures IsList(next[x := head], x, [x] + xs)
  {
    forall i | 0 <= i < |[x] + xs| ensures next[x := head][([x] + xs)[i]] == Head(([x] + xs)[i + 1..]) {
      if i == 0 { assert ([x] + xs)[1..] == xs; } else { assert ([x] + xs)[i + 1..] == xs[i..]; }
    }
  }

  lemma ListPop(next: map<int, int>, head: int, xs: seq<int>)
    requires IsList(next, head, xs) && xs != []
    ensures head == xs[0] && head != 0 && head in next && head !in xs[1..] && IsList(next, next[head], xs[1..])
  {
    var ys := xs[1..];
    forall i | 0 <= i < |ys| ensures next[ys[i]] == Head(ys[i + 1..]) { assert ys[i + 1..] == xs[i + 2..]; }
  }

  /** Unlinking an element behind another one. */
  lemma ListUnlink(next: map<int, int>, head: int, xs: seq<int>, i: nat)
    requires IsList(next, head, xs) && 0 < i < |xs|
    ensures IsList(next[xs[i - 1] := next[xs[i]]], head, Without(xs, i))
  {
    WithoutHas(xs, i);
    var next', ys := next[xs[i - 1] := next[xs[i]]], Without(xs, i);
    forall j | 0 <= j < |ys| ensures ys[j] in next' && next'[ys[j]] == Head(ys[j + 1..]) {
      if j < i - 1 { assert ys[j + 1] == xs[j + 1] && ys[j] != xs[i - 1]; }
      else { assert ys[j + 1..] == xs[j + 2..]; }
    }
  }

  /** Only the predecessor of a list element points to it. */
  lemma Predecessor(next: map<int, int>, head: int, xs: seq<int>, i: nat, ys: seq<int>, k: int, j: nat)
    requires IsList(next, head, xs) && i < |xs| && IsList(next, k, ys) && j < |ys| && next[ys[j]] == xs[i]
    ensures xs[i] in ys && (ys == xs ==> i > 0 && ys[j] == xs[i - 1])
  {
    assert Head(ys[j + 1..]) == xs[i] != 0;
    assert ys[j + 1] == xs[i];
  }

  // ---------------------------------------------------------------------------------------------
  // The objects of a page
  // ---------------------------------------------------------------------------------------------

  predicate IsSlot(page: int, size: int, o: int) {
    size > 0 && page <= o < page + PAGE && (o - page) % size == 0
  }

  function Slots(page: int, size: int, n: nat): (r: seq<int>)
    ensures |r| == n && (n > 0 ==> r[0] == page)
  {
    seq(n, i => page + i * size)
  }

  lemma SizeFits(b: nat)
    requires b < BUCKETS
    ensures Size(b) >= 16 && PAGE / Size(b) * Size(b) == PAGE && PAGE / Size(b) >= 1
  {}

  lemma MulMono(a: int, b: int, s: int)
    requires s > 0
    ensures a <= b <==> a * s <= b * s
    ensures a < b <==> a * s < b * s
  {}

  lemma {:induction false} SlotAt(page: int, size: int, n: nat, i: nat)
    requires size > 0 && n * size == PAGE && i < n
    ensures IsSlot(page, size, page + i * size)
  {
    MulMono(i, n, size);
    MulMono(0, i, size);
    assert (i * size) % size == 0 by { ModOfMultiple(i, size); }
  }

  lemma ModOfMultiple(i: int, s: int)
    requires s > 0
    ensures (i * s) % s == 0
  {
    var q, m := (i * s) / s, (i * s) % s;
    assert (i - q) * s == m;
    if i - q > 0 { MulMono(1, i - q, s); }
    if i - q < 0 { MulMono(i - q, -1, s); }
  }

  lemma SlotIs(page: int, size: int, n: nat, o: int)
    requires IsSlot(page, size, o) && n * size == PAGE
    ensures 0 <= (o - page) / size < n && o == page + (o - page) / size * size
      && Slots(page, size, n)[(o - page) / size] == o
  {
    var i := (o - page) / size;
    assert o - page == i * size by { assert (o - page) == (o - page) / size * size + (o - page) % size; }
    MulMono(i, n, size);
  }

  /** The free list of a new page holds every object of the page, once. */
  lemma SlotsHold(page: int, size: int, n: nat)
    requires size > 0 && n * size == PAGE
    ensures |Slots(page, size, n)| == n && Distinct(Slots(page, size, n))
    ensures forall o :: o in Slots(page, size, n) <==> IsSlot(page, size, o)
  {
    var xs := Slots(page, size, n);
    forall i, j | 0 <= i < j < n ensures xs[i] != xs[j] { MulMono(i, j, size); }
    forall o ensures o in xs <==> IsSlot(page, size, o) {
      if o in xs { var i :| 0 <= i < n && xs[i] == o; SlotAt(page, size, n, i); }
      if IsSlot(page, size, o) { SlotIs(page, size, n, o); }
    }
  }

  /** Different objects of one page do not overlap. */
  lemma SlotsApart(page: int, size: int, o: int, q: int)
    requires IsSlot(page, size, o) && IsSlot(page, size, q) && o < q
    ensures o + size <= q
  {
    var i, j := (o - page) / size, (q - page) / size;
    assert o - page == i * size && q - page == j * size;
    MulMono(i, j, size);
    MulMono(i + 1, j, size);
  }

  lemma SlotEnd(page: int, b: nat, o: int)
    requires b < BUCKETS && IsSlot(page, Size(b), o)
    ensures o + Size(b) <= page + PAGE
  {
    SizeFits(b);
    var n := PAGE / Size(b);
    SlotIs(page, Size(b), n, o);
    MulMono((o - page) / Size(b) + 1, n, Size(b));
  }

  lemma {:induction false} DistinctCard(xs: seq<int>)
    requires Distinct(xs)
    ensures |set x | x in xs| == |xs|
  {
    if xs != [] {
      DistinctCard(xs[1..]);
      assert (set x | x in xs) == {xs[0]} + (set x | x in xs[1..]);
    } else {
      assert (set x | x in xs) == {};
    }
  }

  lemma EmptyOrNot(s: set<int>)
    ensures s == {} || exists x :: x in s
  {
    if forall x :: x !in s { assert s == {}; }
  }

  lemma CardPositive(s: set<int>)
    ensures |s| == 0 <==> s == {}
  {
    EmptyOrNot(s);
  }

  lemma SubsetCard(a: set<int>, b: set<int>)
    requires a <= b
    ensures |a| <= |b| && (|a| == |b| ==> a == b)
  {
    assert b == a + (b - a);
  }

  lemma Covers(xs: seq<int>, all: seq<int>)
    requires Distinct(xs) && Distinct(all) && forall o :: o in xs ==> o in all
    ensures |xs| <= |all|
    ensures |xs| == |all| <==> forall o :: o in all ==> o in xs
  {
    var x, a := set o | o in xs, set o | o in all;
    DistinctCard(xs);
    DistinctCard(all);
    SubsetCard(x, a);
    if |xs| == |all| {
      forall o | o in all ensures o in xs { assert o in a; }
    }
    if forall o :: o in all ==> o in xs { SubsetCard(a, x); }
  }

  /** A free list is as long as the page has objects exactly when it holds all of them. */
  lemma AllFree(page: int, b: nat, xs: seq<int>)
    requires b < BUCKETS && Distinct(xs) && forall o :: o in xs ==> IsSlot(page, Size(b), o)
    ensures |xs| <= PAGE / Size(b)
    ensures |xs| == PAGE / Size(b) <==> forall o :: IsSlot(page, Size(b), o) ==> o in xs
  {
    hide Size, IsSlot, Slots;
    SizeFits(b);
    var n := PAGE / Size(b);
    SlotsHold(page, Size(b), n);
    Covers(xs, Slots(page, Size(b), n));
  }

  // ---------------------------------------------------------------------------------------------
  // The invariant
  // ---------------------------------------------------------------------------------------------

  /** Each chain lists the descriptors at home there. */
  ghost predicate ChainsOk(next: map<int, int>, chain: seq<int>, lists: seq<seq<int>>, home: map<int, nat>) {
    && |chain| == BUCKETS && |lists| == BUCKETS
    && (forall b :: 0 <= b < BUCKETS ==> IsList(next, chain[b], lists[b]))
    && (forall b, x :: 0 <= b < BUCKETS ==> (x in lists[b] <==> x in home && home[x] == b))
    && (forall x :: x in home ==> home[x] < BUCKETS) && 0 !in home
  }

  /** The other descriptors are on the free list; descriptors are in pages taken for them. */
  ghost predicate SpareOk(next: map<int, int>, freeDesc: int, spare: seq<int>, home: map<int, nat>,
                          freePages: set<int>) {
    && IsList(next, freeDesc, spare)
    && (forall x :: x in next <==> x in home || x in spare)
    && (forall x :: x in spare ==> x !in home)
    && (forall x :: x in next ==> PageOf(x) !in freePages && x != 0)
  }

  ghost predicate PagesOk(desc: map<int, Desc>, home: map<int, nat>, freePages: set<int>) {
    && (forall p :: p in freePages ==> p > 0 && p % PAGE == 0)
    && (forall x :: x in home ==>
      x in desc && desc[x].page > 0 && desc[x].page % PAGE == 0 && desc[x].page !in freePages)
    && (forall x, y :: x in home && y in home && desc[x].page == desc[y].page ==> x == y)
  }

  /** One descriptor: its free list, and the count of the objects handed out. */
  ghost predicate DescOk(d: Desc, b: nat, link: map<int, int>, free: seq<int>) {
    && b < BUCKETS && d.size == Size(b)
    && IsList(link, d.freeptr, free) && (forall o :: o in free ==> IsSlot(d.page, d.size, o))
    && d.refcnt + |free| == PAGE / d.size
  }

  ghost predicate DescsOk(desc: map<int, Desc>, home: map<int, nat>, link: map<int, int>, free: map<int, seq<int>>) {
    forall x :: x in home ==> x in desc && x in free && DescOk(desc[x], home[x], link, free[x])
  }

  /** The live objects are the objects of the pages that are not on a free list. */
  ghost predicate LiveOk(desc: map<int, Desc>, home: map<int, nat>, free: map<int, seq<int>>, live: map<int, int>) {
    && (forall x :: x in home ==> x in desc && x in free)
    && (forall o :: o in live ==> live[o] in home)
    && (forall o :: o in live ==> IsSlot(desc[live[o]].page, desc[live[o]].size, o) && o !in free[live[o]])
    && (forall x, o :: x in home && IsSlot(desc[x].page, desc[x].size, o) && o !in free[x] ==>
      o in live && live[o] == x)
  }

  /** Only pages with a live object are kept, with the exception of page x. */
  ghost predicate Busy(desc: map<int, Desc>, home: map<int, nat>, but: int) {
    forall x :: x in home && x != but ==> x in desc && desc[x].refcnt >= 1
  }

  /** The pages that hold descriptors. */
  ghost function DescPages(next: map<int, int>): set<int> { set x | x in next :: PageOf(x) }

  /** The pages that hold objects. */
  ghost function ObjectPages(desc: map<int, Desc>, home: map<int, nat>): set<int> {
    set x | x in home && x in desc :: desc[x].page
  }

  /** What a new page of objects costs: that page and, without free descriptors, a page of descriptors. */
  ghost predicate Taken(pages0: set<int>, pages: set<int>, next0: map<int, int>, next: map<int, int>, page: int,
                        empty: bool) {
    && page in pages0 && page !in pages && pages <= pages0
    && |pages| == |pages0| - (if empty then 2 else 1)
    && (if empty then |next| == |next0| + PAGE / DESC else next.Keys == next0.Keys)
  }

  // ---------------------------------------------------------------------------------------------
  // What the parts of malloc and free_s do to the invariant
  // ---------------------------------------------------------------------------------------------

  lemma SlotPage(page: int, size: int, o: int)
    requires page > 0 && page % PAGE == 0 && IsSlot(page, size, o)
    ensures PageOf(o) == page && o != 0
  {}

  /** An object belongs to one descriptor. */
  lemma OneOwner(desc: map<int, Desc>, home: map<int, nat>, freePages: set<int>, x: int, y: int, o: int)
    requires PagesOk(desc, home, freePages) && x in home && y in home
    requires IsSlot(desc[x].page, desc[x].size, o) && IsSlot(desc[y].page, desc[y].size, o)
    ensures x == y
  {
    SlotPage(desc[x].page, desc[x].size, o);
    SlotPage(desc[y].page, desc[y].size, o);
  }

  lemma DescFrame(d: Desc, b: nat, link: map<int, int>, link': map<int, int>, free: seq<int>)
    requires DescOk(d, b, link, free) && forall o :: o in free ==> o in link && o in link' && link'[o] == link[o]
    ensures DescOk(d, b, link', free)
  {
    ListFrame(link, link', d.freeptr, free);
  }

  /** The first free object of x is handed out. */
  lemma TakeOk(desc: map<int, Desc>, home: map<int, nat>, freePages: set<int>, link: map<int, int>,
               free: map<int, seq<int>>, live: map<int, int>, x: int)
    requires PagesOk(desc, home, freePages) && DescsOk(desc, home, link, free) && LiveOk(desc, home, free, live)
    requires x in home && desc[x].freeptr != 0
    ensures var d := desc[x]; var o := d.freeptr;
      && o in link && o !in live && IsSlot(d.page, d.size, o) && x in free && free[x] != []
      && var desc', free' := desc[x := d.(freeptr := link[o], refcnt := d.refcnt + 1)], free[x := free[x][1..]];
      PagesOk(desc', home, freePages) && DescsOk(desc', home, link, free') && LiveOk(desc', home, free', live[o := x])
  {
    hide IsSlot, Size, IsList;
    var d, xs := desc[x], free[x];
    var o := d.freeptr;
    NullIsEmpty(link, o, xs);
    ListPop(link, o, xs);
    assert xs == [o] + xs[1..];
    forall y | y in home && IsSlot(desc[y].page, desc[y].size, o) ensures y == x {
      OneOwner(desc, home, freePages, x, y, o);
    }
  }

  /** A live object goes back to the front of its free list. */
  lemma GiveOk(desc: map<int, Desc>, home: map<int, nat>, freePages: set<int>, link: map<int, int>,
               free: map<int, seq<int>>, live: map<int, int>, o: int)
    requires PagesOk(desc, home, freePages) && DescsOk(desc, home, link, free) && LiveOk(desc, home, free, live)
    requires o in live
    ensures live[o] in home && live[o] in desc
    ensures var x := live[o]; var d := desc[x];
      && var desc', free', link' := desc[x := d.(freeptr := o, refcnt := d.refcnt - 1)], free[x := [o] + free[x]],
        link[o := d.freeptr];
      PagesOk(desc', home, freePages) && DescsOk(desc', home, link', free') && LiveOk(desc', home, free', live - {o})
  {
    hide IsSlot, Size, IsList;
    var x := live[o];
    var d := desc[x];
    var link' := link[o := d.freeptr];
    ObjectNotNull(d, o);
    ListPush(link, d.freeptr, free[x], o);
    forall y | y in home && IsSlot(desc[y].page, desc[y].size, o) ensures y == x {
      OneOwner(desc, home, freePages, x, y, o);
    }
    forall y | y in home && y != x ensures DescOk(desc[y], home[y], link', free[y]) {
      ListIn(link, desc[y].freeptr, free[y]);
      DescFrame(desc[y], home[y], link, link', free[y]);
    }
  }

  lemma ObjectNotNull(d: Desc, o: int)
    requires d.page > 0 && IsSlot(d.page, d.size, o)
    ensures o != 0
  {}

  lemma ListIn(next: map<int, int>, head: int, xs: seq<int>)
    requires IsList(next, head, xs)
    ensures forall x :: x in xs ==> x in next && x != 0
  {}

  /** A word stored inside a live object. */
  lemma WriteOk(desc: map<int, Desc>, home: map<int, nat>, freePages: set<int>, link: map<int, int>,
                free: map<int, seq<int>>, live: map<int, int>, o: int, a: int, w: int)
    requires PagesOk(desc, home, freePages) && DescsOk(desc, home, link, free) && LiveOk(desc, home, free, live)
    requires o in live && live[o] in home && live[o] in desc && o <= a < o + desc[live[o]].size
    ensures DescsOk(desc, home, link[a := w], free)
  {
    var x := live[o];
    forall y | y in home ensures DescOk(desc[y], home[y], link[a := w], free[y]) {
      ListIn(link, desc[y].freeptr, free[y]);
      forall q | q in free[y] ensures q != a { Apart(desc, home, link, free, freePages, live, o, y, q); }
      DescFrame(desc[y], home[y], link, link[a := w], free[y]);
    }
  }

  lemma Apart(desc: map<int, Desc>, home: map<int, nat>, link: map<int, int>, free: map<int, seq<int>>,
              freePages: set<int>, live: map<int, int>, o: int, y: int, q: int)
    requires PagesOk(desc, home, freePages) && DescsOk(desc, home, link, free) && LiveOk(desc, home, free, live)
    requires o in live && live[o] in home && live[o] in desc && y in home && q in free[y]
    ensures q < o || q >= o + desc[live[o]].size
  {
    hide IsList, Size;
    var x := live[o];
    if q > o {
      if y == x { SlotsApart(desc[x].page, desc[x].size, o, q); }
      else { EndInPage(desc[x], home[x], link, free[x], o); }
    }
  }

  lemma EndInPage(d: Desc, b: nat, link: map<int, int>, free: seq<int>, o: int)
    requires DescOk(d, b, link, free) && IsSlot(d.page, d.size, o)
    ensures o + d.size <= d.page + PAGE && d.size >= 16
  {
    SizeFits(b);
    SlotEnd(d.page, b, o);
  }

  /** A new page is opened for bucket b. */
  lemma OpenOk(desc: map<int, Desc>, home: map<int, nat>, freePages: set<int>, link: map<int, int>,
               free: map<int, seq<int>>, live: map<int, int>,
               x: int, b: nat, page: int, link': map<int, int>)
    requires PagesOk(desc, home, freePages) && DescsOk(desc, home, link, free) && LiveOk(desc, home, free, live)
    requires x !in home && b < BUCKETS && page in freePages
    requires Strung(link, link', Slots(page, Size(b), PAGE / Size(b)), 0)
    ensures var desc', home', free' := desc[x := Desc(page, page, 0, Size(b))], home[x := b],
      free[x := Slots(page, Size(b), PAGE / Size(b))];
      PagesOk(desc', home', freePages - {page}) && DescsOk(desc', home', link', free')
        && LiveOk(desc', home', free', live)
  {
    hide IsSlot, Slots, Size, Threaded, IsList, Distinct, DescOk, PagesOk, LiveOk;
    SizeFits(b);
    OpenPages(desc, home, freePages, x, b, page);
    OpenLive(desc, home, free, live, x, b, page);
    var xs := Slots(page, Size(b), PAGE / Size(b));
    SlotsHold(page, Size(b), PAGE / Size(b));
    NewDesc(page, b, link, link');
    forall y | y in home ensures DescOk(desc[y], home[y], link', free[y]) {
      OldDesc(desc[y], home[y], page, Size(b), link, link', free[y], xs);
    }
  }

  lemma OpenPages(desc: map<int, Desc>, home: map<int, nat>, freePages: set<int>, x: int, b: nat, page: int)
    requires PagesOk(desc, home, freePages) && x !in home && b < BUCKETS && page in freePages
    ensures PagesOk(desc[x := Desc(page, page, 0, Size(b))], home[x := b], freePages - {page})
    ensures page > 0 && page % PAGE == 0
    ensures forall y :: y in home ==> y in desc && desc[y].page > 0 && desc[y].page % PAGE == 0 && desc[y].page != page
  {}

  lemma OpenLive(desc: map<int, Desc>, home: map<int, nat>, free: map<int, seq<int>>, live: map<int, int>, x: int,
                 b: nat, page: int)
    requires LiveOk(desc, home, free, live) && x !in home && b < BUCKETS
    ensures var xs := Slots(page, Size(b), PAGE / Size(b));
      LiveOk(desc[x := Desc(page, page, 0, Size(b))], home[x := b], free[x := xs], live)
  {
    hide IsSlot, Slots, Size;
    SizeFits(b);
    SlotsHold(page, Size(b), PAGE / Size(b));
  }

  lemma NewDesc(page: int, b: nat, link: map<int, int>, link': map<int, int>)
    requires b < BUCKETS && page > 0 && page % PAGE == 0 && Threaded(link', Slots(page, Size(b), PAGE / Size(b)), 0)
    ensures DescOk(Desc(page, page, 0, Size(b)), b, link', Slots(page, Size(b), PAGE / Size(b)))
  {
    hide IsSlot, Slots, Size, Threaded, IsList, Distinct;
    SizeFits(b);
    var xs := Slots(page, Size(b), PAGE / Size(b));
    SlotsHold(page, Size(b), PAGE / Size(b));
    forall o | o in xs ensures o != 0 && PageOf(o) == page { SlotPage(page, Size(b), o); }
    NewList(link, link', xs);
  }

  lemma OldDesc(d: Desc, b: nat, page: int, size: int, link: map<int, int>, link': map<int, int>, free: seq<int>,
                xs: seq<int>)
    requires DescOk(d, b, link, free) && d.page % PAGE == 0 && page % PAGE == 0 && d.page > 0 && page > 0
      && d.page != page
    requires forall o :: o in xs ==> IsSlot(page, size, o)
    requires forall o :: o in link && o !in xs ==> o in link' && link'[o] == link[o]
    ensures DescOk(d, b, link', free)
  {
    hide IsSlot, Size, IsList, Distinct;
    ListIn(link, d.freeptr, free);
    forall o | o in free ensures o !in xs {
      SlotPage(d.page, d.size, o);
      if o in xs { SlotPage(page, size, o); }
    }
    DescFrame(d, b, link, link', free);
  }

  lemma NewList(m: map<int, int>, r: map<int, int>, xs: seq<int>)
    requires xs != [] && Distinct(xs) && 0 !in xs && Threaded(r, xs, 0)
    ensures IsList(r, xs[0], xs)
  {
    ThreadList(m, r, xs, 0, []);
    assert xs + [] == xs;
  }

  /** The page of a descriptor without live objects is given back. */
  lemma CloseOk(desc: map<int, Desc>, home: map<int, nat>, freePages: set<int>, link: map<int, int>,
                free: map<int, seq<int>>, live: map<int, int>, x: int)
    requires PagesOk(desc, home, freePages) && DescsOk(desc, home, link, free) && LiveOk(desc, home, free, live)
    requires x in home && desc[x].refcnt == 0
    ensures PagesOk(desc, home - {x}, freePages + {desc[x].page}) && DescsOk(desc, home - {x}, link, free)
      && LiveOk(desc, home - {x}, free, live)
  {
    hide Size, IsSlot, IsList;
    ListDistinct(link, desc[x].freeptr, free[x]);
    AllFree(desc[x].page, home[x], free[x]);
  }

  lemma ListDistinct(next: map<int, int>, head: int, xs: seq<int>)
    requires IsList(next, head, xs)
    ensures Distinct(xs)
  {}

  lemma FreeOrLive(desc: map<int, Desc>, home: map<int, nat>, free: map<int, seq<int>>, live: map<int, int>, x: int,
                   o: int)
    requires LiveOk(desc, home, free, live) && x in home && IsSlot(desc[x].page, desc[x].size, o)
    ensures o in free[x] || (o in live && live[o] == x)
  {}

  /** A page has no live object exactly when its count is 0. */
  lemma CountIsLive(desc: map<int, Desc>, home: map<int, nat>, link: map<int, int>, free: map<int, seq<int>>,
                    live: map<int, int>, x: int)
    requires DescsOk(desc, home, link, free) && LiveOk(desc, home, free, live) && x in home
    ensures desc[x].refcnt >= 0
    ensures desc[x].refcnt == 0 <==> forall o :: o in live ==> live[o] != x
  {
    hide Size, IsSlot, IsList;
    ListDistinct(link, desc[x].freeptr, free[x]);
    AllFree(desc[x].page, home[x], free[x]);
    if desc[x].refcnt == 0 {
      forall o | o in live ensures live[o] != x {}
    }
    if forall o :: o in live ==> live[o] != x {
      forall o | IsSlot(desc[x].page, desc[x].size, o) ensures o in free[x] {
        FreeOrLive(desc, home, free, live, x, o);
      }
    }
  }

  /** Pages of objects hold no descriptors. */
  ghost predicate Separate(next: map<int, int>, desc: map<int, Desc>, home: map<int, nat>) {
    forall x, y :: x in next && y in home ==> y in desc && PageOf(x) != desc[y].page
  }

  /** A free descriptor moves to the front of chain b. */
  lemma ChainPush(next: map<int, int>, chain: seq<int>, lists: seq<seq<int>>, home: map<int, nat>, freeDesc: int,
                  spare: seq<int>, freePages: set<int>, b: nat)
    requires ChainsOk(next, chain, lists, home) && SpareOk(next, freeDesc, spare, home, freePages) && b < BUCKETS
      && spare != []
    ensures freeDesc in next && freeDesc !in home
    ensures var next' := next[freeDesc := chain[b]];
      && ChainsOk(next', chain[b := freeDesc], lists[b := [freeDesc] + lists[b]], home[freeDesc := b])
      && SpareOk(next', next[freeDesc], spare[1..], home[freeDesc := b], freePages)
  {
    hide IsList;
    ListPop(next, freeDesc, spare);
    var x, next' := freeDesc, next[freeDesc := chain[b]];
    ListFrame(next, next', next[x], spare[1..]) by { ListIn(next, next[x], spare[1..]); }
    var chain', lists' := chain[b := x], lists[b := [x] + lists[b]];
    forall k | 0 <= k < BUCKETS ensures IsList(next', chain'[k], lists'[k]) {
      if k == b { ListPush(next, chain[b], lists[b], x); }
      else { ListIn(next, chain[k], lists[k]); ListFrame(next, next', chain[k], lists[k]); }
    }
    assert spare == [x] + spare[1..];
  }

  ghost function Unlinked(next: map<int, int>, xs: seq<int>, i: nat, freeDesc: int): map<int, int>
    requires i < |xs| && xs[i] in next
  {
    (if i > 0 then next[xs[i - 1] := next[xs[i]]] else next)[xs[i] := freeDesc]
  }

  /** The i-th descriptor of chain b goes back to the free ones. */
  lemma ChainDrop(next: map<int, int>, chain: seq<int>, lists: seq<seq<int>>, home: map<int, nat>, freeDesc: int,
                  spare: seq<int>, freePages: set<int>, b: nat, i: nat, page: int)
    requires ChainsOk(next, chain, lists, home) && SpareOk(next, freeDesc, spare, home, freePages) && b < BUCKETS
      && i < |lists[b]|
    requires forall y :: y in next ==> PageOf(y) != page
    ensures lists[b][i] in next
    ensures var x := lists[b][i]; var next' := Unlinked(next, lists[b], i, freeDesc);
      && ChainsOk(next', if i == 0 then chain[b := next[x]] else chain, lists[b := Without(lists[b], i)], home - {x})
      && SpareOk(next', x, [x] + spare, home - {x}, freePages + {page})
  {
    hide IsList, Distinct, Without;
    ListIn(next, chain[b], lists[b]);
    ListDistinct(next, chain[b], lists[b]);
    var xs, x := lists[b], lists[b][i];
    var next' := Unlinked(next, xs, i, freeDesc);
    WithoutHas(xs, i);
    DropList(next, chain[b], xs, i, freeDesc);
    if i > 0 { assert xs[i - 1] in xs; }
    forall k | 0 <= k < BUCKETS && k != b ensures IsList(next', chain[k], lists[k]) {
      ListIn(next, chain[k], lists[k]);
      ListFrame(next, next', chain[k], lists[k]);
    }
    var next1 := if i > 0 then next[xs[i - 1] := next[x]] else next;
    ListIn(next, freeDesc, spare);
    ListFrame(next, next1, freeDesc, spare);
    ListPush(next1, freeDesc, spare, x);
  }

  lemma DropList(next: map<int, int>, head: int, xs: seq<int>, i: nat, freeDesc: int)
    requires IsList(next, head, xs) && i < |xs|
    ensures IsList(Unlinked(next, xs, i, freeDesc), if i == 0 then next[xs[0]] else head, Without(xs, i))
  {
    WithoutHas(xs, i);
    if i == 0 {
      ListPop(next, head, xs);
      assert Without(xs, 0) == xs[1..];
      ListFrame(next, Unlinked(next, xs, 0, freeDesc), next[xs[0]], xs[1..]);
    } else {
      ListUnlink(next, head, xs, i);
      ListFrame(next[xs[i - 1] := next[xs[i]]], Unlinked(next, xs, i, freeDesc), head, Without(xs, i));
    }
  }

  /** Whatever points to a descriptor on a chain is the one before it on that chain. */
  lemma OnlyPredecessor(next: map<int, int>, chain: seq<int>, lists: seq<seq<int>>, home: map<int, nat>, freeDesc: int,
                        spare: seq<int>, freePages: set<int>,
                        b: nat, i: nat, p: int)
    requires ChainsOk(next, chain, lists, home) && SpareOk(next, freeDesc, spare, home, freePages) && b < BUCKETS
      && i < |lists[b]|
    requires p in next && next[p] == lists[b][i]
    ensures i > 0 && p == lists[b][i - 1]
  {
    hide IsList;
    var x := lists[b][i];
    assert x in lists[b] && x in home && home[x] == b;
    if p in home {
      var c: nat := home[p];
      assert p in lists[c];
      var j :| 0 <= j < |lists[c]| && lists[c][j] == p;
      Predecessor(next, chain[b], lists[b], i, lists[c], chain[c], j);
      assert x in lists[c];
    } else {
      var j :| 0 <= j < |spare| && spare[j] == p;
      Predecessor(next, chain[b], lists[b], i, spare, freeDesc, j);
      assert false;
    }
  }

  class Heap {
    var chain: seq<int>
    var freeDesc: int
    var next: map<int, int>
    var desc: map<int, Desc>
    var link: map<int, int>
    var freePages: set<int>
    ghost var lists: seq<seq<int>>
    ghost var spare: seq<int>
    ghost var home: map<int, nat>
    ghost var free: map<int, seq<int>>
    ghost var live: map<int, int>

    ghost predicate Core() reads this {
      && ChainsOk(next, chain, lists, home) && SpareOk(next, freeDesc, spare, home, freePages)
      && PagesOk(desc, home, freePages) && DescsOk(desc, home, link, free) && LiveOk(desc, home, free, live)
      && Separate(next, desc, home)
    }

    ghost predicate Valid() reads this { Core() && Busy(desc, home, 0) }

    /** Every page of the allocator: free, of descriptors, or of objects. */
    ghost function Pages(): set<int> reads this { freePages + DescPages(next) + ObjectPages(desc, home) }

    lemma Parts()
      ensures Pages() == freePages + DescPages(next) + ObjectPages(desc, home)
      ensures Core() <==>
        && ChainsOk(next, chain, lists, home) && SpareOk(next, freeDesc, spare, home, freePages)
        && PagesOk(desc, home, freePages) && DescsOk(desc, home, link, free) && LiveOk(desc, home, free, live)
        && Separate(next, desc, home)
    {}

    method GetFreePage() returns (p: int)
      requires 0 !in freePages
      modifies this`freePages
      ensures if old(freePages) == {} then p == 0 && freePages == {}
        else p in old(freePages) && freePages == old(freePages) - {p}
      ensures old(freePages) != {} ==> |freePages| == |old(freePages)| - 1
    {
      var ps := freePages;
      EmptyOrNot(ps);
      if ps == {} { return 0; }
      p :| p in ps;
      freePages := ps - {p};
    }

    /** init_bucket_desc: a page of new descriptors in front of the free ones. */
    method InitBucketDesc() returns (panic: bool)
      requires Core() && freeDesc == 0
      modifies this`freePages, this`next, this`freeDesc, this`spare
      ensures Core() && panic == (old(freePages) == {})
      ensures !panic ==>
        |spare| == PAGE / DESC && freeDesc in old(freePages) && freePages == old(freePages) - {freeDesc}
      ensures !panic ==> freeDesc != 0 && |freePages| == |old(freePages)| - 1 && |next| == |old(next)| + PAGE / DESC
      ensures !panic ==> DescPages(next) == old(DescPages(next)) + {freeDesc}
      ensures Pages() == old(Pages())
      ensures panic ==> unchanged(this)
    {
      hide Core, Pages, Size, IsSlot, Slots, IsList, ChainsOk, DescsOk, LiveOk, Strung, SpareOk, PagesOk, Separate,
           DescPages, ObjectPages, PageOf;
      Parts();
      CoreFacts(next, chain, lists, home, freeDesc, spare, freePages, desc);
      ghost var was := freePages;
      var page := GetFreePage();
      if page == 0 { return true; }
      var next' := Thread(next, page, DESC, PAGE / DESC, freeDesc);
      FreshDescs(next, next', chain, lists, home, was, desc, page);
      MoreDescs(next, next', freeDesc, spare, home, was, desc, page);
      Moved(freePages, was, DescPages(next), ObjectPages(desc, home), page);
      next, freeDesc, spare, panic := next', page, Slots(page, DESC, PAGE / DESC), false;
      Parts();
    }

    /** The first descriptor on chain b that has a free object. */
    method FindFree(b: nat) returns (x: int)
      requires Core() && b < BUCKETS
      ensures if x == 0 then !HasFree(desc, home, b) else x in home && home[x] == b && x in desc && desc[x].freeptr != 0
      ensures 0 !in home && forall y :: y in home ==> y in desc
    {
      hide Size, IsSlot, IsList, LiveOk, SpareOk, PagesOk, DescOk;
      ghost var k := 0;
      ListIn(next, chain[b], lists[b]);
      ListStart(next, chain[b], lists[b]);
      x := chain[b];
      while x != 0 && desc[x].freeptr == 0
        invariant 0 <= k <= |lists[b]| && x == (if k < |lists[b]| then lists[b][k] else 0)
        invariant forall j :: 0 <= j < k ==> lists[b][j] in desc && desc[lists[b][j]].freeptr == 0
        decreases |lists[b]| - k
      {
        ListNext(next, chain[b], lists[b], k);
        x := next[x];
        k := k + 1;
      }
      if x == 0 {
        forall y | y in home && home[y] == b ensures desc[y].freeptr == 0 { assert y in lists[b]; }
      }
    }

    /** A new page for bucket b, its objects strung on the free list. */
    method OpenBucket(b: nat) returns (panic: bool, x: int)
      requires Valid() && b < BUCKETS
      modifies this`freePages, this`next, this`freeDesc, this`spare, this`home, this`lists, this`chain, this`desc,
               this`link, this`free
      ensures panic <==> |old(freePages)| < if old(freeDesc) == 0 then 2 else 1
      ensures panic ==>
        freePages == {} && home == old(home) && desc == old(desc) && link == old(link) && free == old(free)
      ensures Core() && Pages() == old(Pages())
      ensures Busy(desc, home, if panic then 0 else x)
      ensures !panic ==> x in desc && desc[x].freeptr != 0 && x !in old(home) && home == old(home)[x := b]
      ensures !panic ==> Taken(old(freePages), freePages, old(next), next, desc[x].page, old(freeDesc) == 0)
      ensures !panic ==> SameDescs(old(desc), desc, old(home), home) && SameWords(old(link), link, old(freePages))
    {
      hide Core, Pages, PageOf, Busy, DescPages, ObjectPages, Taken, SameDescs, SameWords;
      CardPositive(freePages);
      if freeDesc == 0 {
        panic := InitBucketDesc();
        if panic { return panic, 0; }
        CardPositive(freePages);
        ghost var pages1, next1 := freePages, next;
        panic, x := TakePage(b);
        if !panic {
          TakenAfter(old(freePages), pages1, freePages, old(next), next1, next, desc[x].page);
          MoreWords(old(link), link, old(freePages), pages1);
        }
      } else {
        panic, x := TakePage(b);
      }
    }

    method TakePage(b: nat) returns (panic: bool, x: int)
      requires Core() && Busy(desc, home, 0) && b < BUCKETS && freeDesc != 0
      modifies this`freePages, this`next, this`freeDesc, this`spare, this`home, this`lists, this`chain, this`desc,
               this`link, this`free
      ensures panic <==> old(freePages) == {}
      ensures panic ==> unchanged(this)
      ensures Core() && Pages() == old(Pages())
      ensures Busy(desc, home, if panic then 0 else x)
      ensures !panic ==> x in desc && desc[x].freeptr != 0 && x !in old(home) && home == old(home)[x := b]
      ensures !panic ==> Taken(old(freePages), freePages, old(next), next, desc[x].page, false)
      ensures !panic ==> SameDescs(old(desc), desc, old(home), home) && SameWords(old(link), link, old(freePages))
    {
      hide Size, Slots, IsSlot, LiveOk, ChainsOk, DescsOk, Strung, Separate, SpareOk, PagesOk, Busy, IsList, SameDescs,
           SameWords,
           PageOf, DescPages, ObjectPages;
      CoreFacts(next, chain, lists, home, freeDesc, spare, freePages, desc);
      x := freeDesc;
      ghost var was := freePages;
      var page := GetFreePage();
      if page == 0 { panic := true; return; }
      panic := false;
      assert freePages + {page} == was;
      ghost var next0, desc0, home0 := next, desc, home;
      Install(b, page);
      OpenedPages(next0, next, desc0, desc, home0, x, Desc(page, page, 0, Size(b)), b);
    }

    method Install(b: nat, page: int)
      requires page !in freePages && b < BUCKETS && freeDesc != 0 && Busy(desc, home, 0)
      requires ChainsOk(next, chain, lists, home) && SpareOk(next, freeDesc, spare, home, freePages + {page})
        && Separate(next, desc, home)
      requires PagesOk(desc, home, freePages + {page}) && DescsOk(desc, home, link, free)
        && LiveOk(desc, home, free, live)
      modifies this`next, this`freeDesc, this`spare, this`home, this`lists, this`chain, this`desc, this`link, this`free
      ensures ChainsOk(next, chain, lists, home) && SpareOk(next, freeDesc, spare, home, freePages)
      ensures PagesOk(desc, home, freePages) && DescsOk(desc, home, link, free) && LiveOk(desc, home, free, live)
      ensures Separate(next, desc, home)
      ensures old(freeDesc) !in old(home) && home == old(home)[old(freeDesc) := b] && next.Keys == old(next).Keys
      ensures desc == old(desc)[old(freeDesc) := Desc(page, page, 0, Size(b))] && page != 0
      ensures Busy(desc, home, old(freeDesc))
      ensures SameDescs(old(desc), desc, old(home), home) && SameWords(old(link), link, freePages + {page})
    {
      hide Size, AllSlots, IsSlot, LiveOk, ChainsOk, DescsOk, Strung, Separate, SpareOk, PagesOk, Busy, IsList,
           SameDescs, SameWords;
      ghost var was := freePages + {page};
      assert was - {page} == freePages;
      SpareLeft(next, freeDesc, spare, home, was);
      var link' := ThreadPage(link, page, b);
      OpenAll(next, chain, lists, home, freeDesc, spare, was, desc, link, free, live, b, page, link');
      OpenBusy(next, freeDesc, spare, home, was, desc, Desc(page, page, 0, Size(b)), freeDesc, b);
      var x := freeDesc;
      HookUp(b);
      desc := desc[x := Desc(page, page, 0, Size(b))];
      link := link';
      free := free[x := AllSlots(page, b)];
    }

    /** The first free descriptor goes to the front of chain b. */
    method HookUp(b: nat)
      requires b < |chain| == |lists| && spare != [] && freeDesc in next
      modifies this`next, this`freeDesc, this`spare, this`home, this`lists, this`chain
      ensures next == old(next)[old(freeDesc) := old(chain)[b]] && home == old(home)[old(freeDesc) := b]
      ensures chain == old(chain)[b := old(freeDesc)] && lists == old(lists)[b := [old(freeDesc)] + old(lists)[b]]
      ensures freeDesc == old(next)[old(freeDesc)] && spare == old(spare)[1..]
    {
      var x := freeDesc;
      freeDesc := next[x];
      next := next[x := chain[b]];
      lists := lists[b := [x] + lists[b]];
      chain := chain[b := x];
      spare := spare[1..];
      home := home[x := b];
    }

    method TakeObject(x: int) returns (r: int)
      requires Core() && Busy(desc, home, x) && x in home && x in desc && desc[x].freeptr != 0
      modifies this`desc, this`free, this`live
      ensures Valid()
      ensures r !in old(live) && live == old(live)[r := x]
      ensures SameHomes(old(desc), desc, old(home), home) && PageOf(r) == old(desc[x].page)
    {
      hide Size, IsSlot, IsList, LiveOk, ChainsOk, DescsOk, Separate, SpareOk, PagesOk;
      TakeOk(desc, home, freePages, link, free, live, x);
      SlotPage(desc[x].page, desc[x].size, desc[x].freeptr) by { HomePage(desc, home, freePages, x); }
      CountIsLive(desc, home, link, free, live, x);
      SameSeparate(next, desc, home, x, desc[x].(freeptr := link[desc[x].freeptr], refcnt := desc[x].refcnt + 1));
      r := desc[x].freeptr;
      desc := desc[x := desc[x].(freeptr := link[r], refcnt := desc[x].refcnt + 1)];
      free, live := free[x := free[x][1..]], live[r := x];
    }

    /**
     * malloc: an object of the smallest bucket that is large enough, not part of any live object.
     * It fails only for lengths above a page, or when a new page is needed and memory is short.
     */
    method Malloc(len: nat) returns (panic: bool, r: int)
      requires Valid()
      modifies this
      ensures panic <==>
        Fit(len) == BUCKETS
        || (!old(HasFree(desc, home, Fit(len))) && |old(freePages)| < if old(freeDesc) == 0 then 2 else 1)
      ensures Valid() && Pages() == old(Pages())
      ensures !panic ==> r !in old(live) && r in live && live == old(live)[r := live[r]]
      ensures !panic ==> Fit(len) < BUCKETS && ObjectSize(r) == Size(Fit(len))
      ensures !panic && old(HasFree(desc, home, Fit(len))) ==>
        freePages == old(freePages) && next == old(next) && ObjectPages(desc, home) == old(ObjectPages(desc, home))
      ensures !panic && !old(HasFree(desc, home, Fit(len))) ==>
        Taken(old(freePages), freePages, old(next), next, PageOf(r), old(freeDesc) == 0)
      ensures !panic ==> live[r] in home && home[live[r]] == Fit(len)
      ensures !panic ==> forall o :: o in old(live) ==> ObjectSize(o) == old(ObjectSize(o))
      ensures !panic ==> SameWords(old(link), link, old(freePages))
      ensures panic ==> live == old(live) && link == old(link) && desc == old(desc) && home == old(home)
    {
      hide LiveOk, ChainsOk, DescsOk, Separate, SpareOk, PagesOk, Size, Busy, SameWords, SameDescs, SameHomes, HasFree,
           Fit,
           PageOf, DescPages, ObjectPages, Taken;
      var b := FindBucket(len);
      if b == BUCKETS { return true, 0; }
      var x := FindFree(b);
      panic := false;
      Unchanged(desc, home, link, freePages);
      if x == 0 {
        panic, x := OpenBucket(b);
        if panic { return true, 0; }
      } else {
        BusyWeak(desc, home, b, x);
      }
      ghost var desc1 := desc;
      r := TakeObject(x);
      SamePages(desc1, desc, home);
      SameTrans(old(desc), desc1, desc, old(home), home);
      SizesKept(old(desc), desc, old(home), home, old(free), old(live));
      HomeSize(desc, home, link, free, x);
    }

    ghost function ObjectSize(o: int): int
      requires Valid() && o in live
      reads this
    {
      var x := live[o];
      assert x in home && x in desc;
      desc[x].size
    }

    /** Every page of objects has a live one. */
    lemma HomesInUse()
      requires Valid()
      ensures forall x :: x in home ==> x in desc && PageInUse(live, desc[x].page)
    {
      hide Size, IsSlot, IsList, ChainsOk, SpareOk, Separate, PageInUse;
      CoreFacts(next, chain, lists, home, freeDesc, spare, freePages, desc);
      forall x | x in home ensures x in desc && PageInUse(live, desc[x].page) {
        CountIsLive(desc, home, link, free, live, x);
        InUse(desc, home, freePages, free, live, x);
      }
    }

    /** The search of free_s, which runs before interrupts are off. */
    method FindPage(obj: int, size: int) returns (found: bool, b: nat, x: int, prev: int)
      requires Valid() && (obj in live || !PageInUse(live, PageOf(obj)))
      ensures (found <==> obj in live && size <= ObjectSize(obj)) && forall y :: y in home ==> y in desc
      ensures found ==> x == live[obj] && x in home && b == home[x] && (prev == 0 || prev in next)
    {
      hide Size, IsSlot, IsList, SpareOk, DescsOk, Separate, PageInUse;
      var page := PageOf(obj);
      HomesInUse();
      ghost var own := if obj in live then live[obj] else 0;
      if obj in live {
        LiveHome(desc, home, freePages, free, live, obj);
        HomeSize(desc, home, link, free, own);
      }
      b, x, prev := 0, 0, 0;
      while b < BUCKETS
        invariant b <= BUCKETS
        invariant obj in live && b > home[own] ==> Size(home[own]) < size
      {
        prev := 0;
        if Size(b) >= size {
          ghost var k := 0;
          ListIn(next, chain[b], lists[b]);
          ListStart(next, chain[b], lists[b]);
          x := chain[b];
          while x != 0
            invariant 0 <= k <= |lists[b]| && x == (if k < |lists[b]| then lists[b][k] else 0)
            invariant prev == 0 || prev in next
            invariant obj in live ==> forall j :: 0 <= j < k ==> lists[b][j] != own
            decreases |lists[b]| - k
          {
            ListNext(next, chain[b], lists[b], k);
            if desc[x].page == page { return true, b, x, prev; }
            prev := x;
            x := next[x];
            k := k + 1;
          }
          assert obj in live && home[own] == b ==> own in lists[b];
        }
        b := b + 1;
      }
      found := false;
    }

    /** Make prev the descriptor before x, whatever it was. */
    method FixPrev(b: nat, x: int, prev: int, ghost i: nat) returns (p: int)
      requires Core() && b < BUCKETS && i < |lists[b]| && x == lists[b][i] && (prev == 0 || prev in next)
      ensures p == (if i == 0 then 0 else lists[b][i - 1]) && (p == 0 <==> i == 0)
      ensures i == 0 <==> chain[b] == x
    {
      hide Size, IsSlot, IsList, DescsOk, Separate, PagesOk, LiveOk, SpareOk;
      p := prev;
      ListIn(next, chain[b], lists[b]);
      ListStart(next, chain[b], lists[b]);
      ListDistinct(next, chain[b], lists[b]);
      if (prev != 0 && next[prev] != x) || (prev == 0 && chain[b] != x) {
        ghost var k := 0;
        p := chain[b];
        while p != 0 && next[p] != x
          invariant 0 <= k <= |lists[b]| && p == (if k < |lists[b]| then lists[b][k] else 0)
          invariant i == 0 || k < i
          decreases |lists[b]| - k
        {
          ListNext(next, chain[b], lists[b], k);
          p := next[p];
          k := k + 1;
        }
      }
      if p != 0 { OnlyPredecessor(next, chain, lists, home, freeDesc, spare, freePages, b, i, p); }
    }

    method GiveBack(obj: int, x: int)
      requires Valid() && obj in live && live[obj] == x && x in home && x in desc
      modifies this`desc, this`link, this`free, this`live
      ensures Core()
      ensures Busy(desc, home, x) && x in desc
      ensures live == old(live) - {obj} && SameHomes(old(desc), desc, old(home), home)
      ensures ObjectPages(desc, home) == old(ObjectPages(desc, home))
      ensures link == old(link)[obj := old(desc)[x].freeptr]
    {
      hide Size, IsSlot, IsList, LiveOk, ChainsOk, DescsOk, Separate, SpareOk, PagesOk;
      GiveOk(desc, home, freePages, link, free, live, obj);
      FreeKnown(desc, home, link, free, x);
      SameSeparate(next, desc, home, x, desc[x].(freeptr := obj, refcnt := desc[x].refcnt - 1));
      assert 0 !in home by { CoreFacts(next, chain, lists, home, freeDesc, spare, freePages, desc); }
      link := link[obj := desc[x].freeptr];
      desc := desc[x := desc[x].(freeptr := obj, refcnt := desc[x].refcnt - 1)];
      free, live := free[x := [obj] + free[x]], live - {obj};
      SamePages(old(desc), desc, home);
    }

    /** A descriptor whose objects are all free gives its page back and joins the free descriptors. */
    method Unhook(b: nat, x: int, prev: int)
      requires Core() && Busy(desc, home, x) && x in home && home[x] == b && x in desc && desc[x].refcnt == 0
        && (prev == 0 || prev in next)
      modifies this`next, this`chain, this`freePages, this`freeDesc, this`lists, this`spare, this`home
      ensures Valid()
      ensures home == old(home) - {x} && freePages == old(freePages) + {desc[x].page}
      ensures Pages() == old(Pages()) && next.Keys == old(next).Keys
    {
      hide Size, IsSlot, IsList, LiveOk, ChainsOk, DescsOk, Separate, SpareOk, PagesOk, Unlinked, Without;
      CoreFacts(next, chain, lists, home, freeDesc, spare, freePages, desc);
      ghost var i := Position(next, chain, lists, home, b, x);
      var p := FixPrev(b, x, prev, i);
      DropAll(next, chain, lists, home, freeDesc, spare, freePages, desc, link, free, live, b, i);
      UnlinkedIs(next, lists[b], i, freeDesc);
      Detach(b, x, p, i);
      ClosedPages(old(next), next, desc, old(home), x);
      freePages := freePages + {desc[x].page};
    }

    /** Descriptor x leaves its chain, where p is before it, and joins the free ones. */
    method Detach(b: nat, x: int, p: int, ghost i: nat)
      requires b < |chain| && b < |lists| && i < |lists[b]| && x in next
      modifies this`next, this`chain, this`freeDesc, this`lists, this`spare, this`home
      ensures next == (if p != 0 then old(next)[p := old(next)[x]] else old(next))[x := old(freeDesc)]
      ensures chain == if p != 0 then old(chain) else old(chain)[b := old(next)[x]]
      ensures freeDesc == x && spare == [x] + old(spare) && home == old(home) - {x}
      ensures lists == old(lists)[b := Without(old(lists)[b], i)]
    {
      if p != 0 { next := next[p := next[x]]; } else { chain := chain[b := next[x]]; }
      next := next[x := freeDesc];
      spare := [x] + spare;
      lists := lists[b := Without(lists[b], i)];
      home := home - {x};
      freeDesc := x;
    }

    /** The part of free_s after cli(): correct even if prev went stale in between. */
    method Release(obj: int, b: nat, x: int, prev: int)
      requires Valid() && obj in live && live[obj] == x && x in home && home[x] == b && (prev == 0 || prev in next)
      modifies this
      ensures Valid()
      ensures live == old(live) - {obj}
      ensures freePages == old(freePages) + if PageInUse(live, PageOf(obj)) then {} else {PageOf(obj)}
      ensures Pages() == old(Pages()) && next.Keys == old(next).Keys
      ensures forall a :: a in old(link) && a != obj ==> a in link && link[a] == old(link)[a]
      ensures SameHomes(old(desc), desc, home, old(home)) && forall y :: y in old(home) && y != x ==> y in home
    {
      hide Size, IsSlot, IsList, LiveOk, ChainsOk, DescsOk, Separate, SpareOk, PagesOk, PageOf, PageInUse, Busy,
           DescPages, ObjectPages;
      LiveHome(desc, home, freePages, free, live, obj);
      GiveBack(obj, x);
      CountIsLive(desc, home, link, free, live, x);
      InUse(desc, home, freePages, free, live, x);
      SameSub(old(desc), desc, home, x);
      if desc[x].refcnt == 0 {
        Unhook(b, x, prev);
      } else {
        AllBusy(desc, home, x);
      }
    }

    /** free_s: it fails exactly for an address in no page of objects, or a size larger than the object's bucket. */
    method FreeS(obj: int, size: int) returns (panic: bool)
      requires Valid() && (obj in live || !PageInUse(live, PageOf(obj)))
      modifies this
      ensures panic <==> obj !in old(live) || size > old(ObjectSize(obj))
      ensures panic ==> unchanged(this)
      ensures Valid() && Pages() == old(Pages()) && next.Keys == old(next).Keys
      ensures !panic ==> live == old(live) - {obj}
      ensures !panic ==> freePages == old(freePages) + if PageInUse(live, PageOf(obj)) then {} else {PageOf(obj)}
      ensures forall a :: a in old(link) && a != obj ==> a in link && link[a] == old(link)[a]
      ensures forall o :: o in live ==> ObjectSize(o) == old(ObjectSize(o))
    {
      hide LiveOk, ChainsOk, DescsOk, Separate, SpareOk, PagesOk, Size, PageOf, PageInUse, Busy, SameHomes,
           Pages;
      var found, b, x, prev := FindPage(obj, size);
      if !found { return true; }
      Release(obj, b, x, prev);
      panic := false;
      SizesLeft(old(desc), desc, home, old(home), free, live);
    }

    /** The client stores a word in an object it holds. */
    method Write(o: int, k: nat, w: int)
      requires Valid() && o in live && k < ObjectSize(o) && k % 4 == 0
      modifies this`link
      ensures Valid() && link == old(link)[o + k := w]
    {
      hide Size, IsSlot, IsList, LiveOk, ChainsOk, DescsOk, Separate, SpareOk, PagesOk;
      LiveHome(desc, home, freePages, free, live, o);
      WriteOk(desc, home, freePages, link, free, live, o, o + k, w);
      link := link[o + k := w];
    }

    /** Live objects do not overlap, and none of them reaches into a free page. */
    lemma LiveApart(o: int, q: int)
      requires Valid() && o in live && q in live && o < q
      ensures o + ObjectSize(o) <= q
    {
      hide IsList, Size, IsSlot, ChainsOk, SpareOk, Separate, Busy;
      var x, y := live[o], live[q];
      assert x in home && y in home && x in desc && y in desc;
      if x == y { SlotsApart(desc[x].page, desc[x].size, o, q); }
      else {
        EndInPage(desc[x], home[x], link, free[x], o);
        OtherPage(desc[x], desc[y], o, q);
      }
    }

    lemma LiveKept(o: int, k: nat)
      requires Valid() && o in live && k < ObjectSize(o)
      ensures PageOf(o + k) !in freePages
    {
      hide IsList, Size;
      var x := live[o];
      assert x in home && x in desc;
      EndInPage(desc[x], home[x], link, free[x], o);
      InPage(desc[x].page, o + k);
    }

    /** Once nothing is held, every page of objects has been given back. */
    lemma NothingHeld()
      requires Valid() && forall o :: o !in live
      ensures home == map[]
    {
      forall x | x in home ensures false {
        CountIsLive(desc, home, link, free, live, x);
      }
    }

    constructor (pages: set<int>)
      requires forall p :: p in pages ==> p > 0 && p % PAGE == 0
      ensures Valid() && live == map[] && freePages == pages && home == map[]
    {
      chain, freeDesc, next, desc, link, freePages := [0, 0, 0, 0, 0, 0, 0, 0, 0], 0, map[], map[], map[], pages;
      lists, spare, home, free, live := [[], [], [], [], [], [], [], [], []], [], map[], map[], map[];
    }

    /**
     * What a client that only uses its own objects knows: its objects are of the smallest size that the
     * lengths it asked for fit into, and the words it stored are still there.
     */
    ghost predicate Keeps(held: map<int, nat>, mem: map<(int, nat), int>)
      requires Valid()
      reads this
    {
      && (forall o :: o in held <==> o in live)
      && (forall o :: o in held ==> Fit(held[o]) < BUCKETS && ObjectSize(o) == Size(Fit(held[o])))
      && Stored(held, mem, link)
    }

    /** The client and what the heap has left for it. */
    ghost function Account(held: map<int, nat>, mem: map<(int, nat), int>): Client
      reads this
    {
      Client(held, mem, |next|, |freePages|)
    }

    /** The pages of objects are those that the client's objects lie in. */
    lemma PagesHeld(held: map<int, nat>, mem: map<(int, nat), int>)
      requires Valid() && Keeps(held, mem)
      ensures ObjectPages(desc, home) == HeldPages(held)
    {
      hide IsSlot, IsList, Size, ChainsOk, DescsOk, SpareOk, Separate, PageOf, Fit;
      HomesInUse();
      forall o | o in held ensures PageOf(o) in ObjectPages(desc, home) {
        LiveHome(desc, home, freePages, free, live, o);
      }
    }

    /** The free descriptors have run out exactly if every descriptor has a page that the client uses. */
    lemma DescsHeld(held: map<int, nat>, mem: map<(int, nat), int>)
      requires Valid() && Keeps(held, mem)
      ensures freeDesc == 0 <==> |HeldPages(held)| == |next|
    {
      hide IsSlot, IsList, Size, ChainsOk, DescsOk, LiveOk, Separate, PageOf, Fit, HeldPages;
      PagesHeld(held, mem);
      PageCount(desc, home.Keys);
      assert ObjectPages(desc, home) == set x | x in home.Keys :: desc[x].page;
      SpareLeft(next, freeDesc, spare, home, freePages);
      SpareCount(next, freeDesc, spare, home, freePages);
    }

    /** A page of bucket b has a free object exactly if the client does not hold all objects of such a page. */
    lemma RoomHeld(held: map<int, nat>, mem: map<(int, nat), int>, b: nat)
      requires Valid() && Keeps(held, mem) && b < BUCKETS
      ensures HasFree(desc, home, b) <==> Room(held, b)
    {
      hide IsSlot, IsList, Size, ChainsOk, SpareOk, Separate, PageOf, Fit, DescsOk, LiveOk, PagesOk;
      if HasFree(desc, home, b) {
        var x :| x in home && x in desc && home[x] == b && desc[x].freeptr != 0;
        FreeIsRoom(held, mem, b, x);
      }
      if Room(held, b) {
        var o, q :| o in held && Fit(held[o]) == b && IsSlot(PageOf(o), Size(b), q) && q !in held;
        RoomIsFree(held, mem, b, o, q);
      }
    }

    lemma FreeIsRoom(held: map<int, nat>, mem: map<(int, nat), int>, b: nat, x: int)
      requires Valid() && Keeps(held, mem) && b < BUCKETS
      requires x in home && x in desc && home[x] == b && desc[x].freeptr != 0
      ensures Room(held, b)
    {
      hide IsSlot, IsList, Size, ChainsOk, SpareOk, Separate, PageOf, Fit;
      CountIsLive(desc, home, link, free, live, x);
      assert x != 0 by { CoreFacts(next, chain, lists, home, freeDesc, spare, freePages, desc); }
      var o :| o in live && live[o] == x;
      LiveHome(desc, home, freePages, free, live, o);
      SizeInjective(home[x], Fit(held[o]));
      NullIsEmpty(link, desc[x].freeptr, free[x]);
      var q := free[x][0];
      assert q in free[x];
      if q in held {
        OneOwner(desc, home, freePages, x, live[q], q);
        assert false;
      }
    }

    lemma RoomIsFree(held: map<int, nat>, mem: map<(int, nat), int>, b: nat, o: int, q: int)
      requires Valid() && Keeps(held, mem) && b < BUCKETS
      requires o in held && Fit(held[o]) == b && IsSlot(PageOf(o), Size(b), q) && q !in held
      ensures HasFree(desc, home, b)
    {
      hide IsSlot, IsList, Size, ChainsOk, SpareOk, Separate, PageOf, Fit;
      var x := live[o];
      LiveHome(desc, home, freePages, free, live, o);
      SizeInjective(home[x], b);
      assert q in free[x];
      NullIsEmpty(link, desc[x].freeptr, free[x]);
    }

    /** Live objects of one page are of one bucket. */
    lemma SamePage(o: int, q: int)
      requires Valid() && o in live && q in live && PageOf(o) == PageOf(q)
      ensures live[o] == live[q] && ObjectSize(o) == ObjectSize(q)
    {
      hide IsSlot, IsList, Size, ChainsOk, DescsOk, SpareOk, Separate, PageOf;
      LiveHome(desc, home, freePages, free, live, o);
      LiveHome(desc, home, freePages, free, live, q);
    }

    /** The objects of one page are for lengths of one bucket, and where the heap says. */
    lemma Companions(held: map<int, nat>, mem: map<(int, nat), int>, o: int)
      requires Valid() && Keeps(held, mem) && o in held
      ensures IsSlot(PageOf(o), Size(Fit(held[o])), o)
      ensures forall q :: q in held && PageOf(q) == PageOf(o) ==> Fit(held[q]) == Fit(held[o])
    {
      hide IsSlot, IsList, Size, ChainsOk, SpareOk, DescsOk, Separate, PageOf, Fit;
      LiveHome(desc, home, freePages, free, live, o);
      forall q | q in held && PageOf(q) == PageOf(o) ensures Fit(held[q]) == Fit(held[o]) {
        SamePage(o, q);
        SizeInjective(Fit(held[q]), Fit(held[o]));
      }
    }

    /** What malloc means for a client that holds some objects. */
    method Allot(len: nat, held: map<int, nat>, ghost mem: map<(int, nat), int>) returns (panic: bool, o: int)
      requires Valid() && Keeps(held, mem)
      modifies this
      ensures Valid() && Pages() == old(Pages())
        && (if panic then Keeps(held, mem) else o !in held && Keeps(held[o := len], mem))
      ensures panic <==>
        Fit(len) == BUCKETS
        || (!old(HasFree(desc, home, Fit(len))) && |old(freePages)| < if old(freeDesc) == 0 then 2 else 1)
      ensures !panic && old(HasFree(desc, home, Fit(len))) ==>
        freePages == old(freePages) && next == old(next) && ObjectPages(desc, home) == old(ObjectPages(desc, home))
      ensures !panic && !old(HasFree(desc, home, Fit(len))) ==>
        Taken(old(freePages), freePages, old(next), next, PageOf(o), old(freeDesc) == 0)
    {
      hide Core, Busy, PageOf, HasFree, Taken, Fit, Size, DescPages, ObjectPages, Pages;
      forall o: int, k: nat | (o, k) in mem ensures PageOf(o + k) !in freePages { LiveKept(o, k); }
      panic, o := Malloc(len);
    }

    method ClientAlloc(len: nat, held: map<int, nat>, ghost mem: map<(int, nat), int>) returns (panic: bool, o: int)
      requires Valid() && Keeps(held, mem)
      modifies this
      ensures Valid() && Pages() == old(Pages())
      ensures panic <==> Exhausted(old(Account(held, mem)), len)
      ensures panic ==> Keeps(held, mem)
      ensures !panic ==> Serves(old(Account(held, mem)), len, o) && Keeps(held[o := len], mem)
      ensures !panic ==> Account(held[o := len], mem) == Step(old(Account(held, mem)), Alloc(len), o)
    {
      hide Valid, Keeps, PageOf, HasFree, Room, Taken, Fit, Size, IsSlot, HeldPages, DescPages, ObjectPages, Pages,
           Serves, Step;
      DescsHeld(held, mem);
      PagesHeld(held, mem);
      ghost var c, room := Account(held, mem), HasFree(desc, home, Fit(len));
      if Fit(len) < BUCKETS { RoomHeld(held, mem, Fit(len)); }
      FreeApart();
      panic, o := Allot(len, held, mem);
      if !panic {
        if !room { TakenStep(c, old(freePages), freePages, old(next), next, PageOf(o), old(freeDesc) == 0); }
        PagesHeld(held[o := len], mem);
        Companions(held[o := len], mem, o);
        AllocStep(c, Account(held[o := len], mem), len, o);
      }
    }

    /** What free_s means for a client that gives up one of its objects. */
    method GiveUp(o: int, size: int, held: map<int, nat>, ghost mem: map<(int, nat), int>)
      requires Valid() && Keeps(held, mem) && o in held && size <= held[o]
      modifies this
      ensures Valid() && Pages() == old(Pages()) && Keeps(held - {o}, Forget(mem, o)) && |next| == |old(next)|
      ensures HeldPages(held - {o}) <= HeldPages(held)
      ensures freePages == old(freePages) + (HeldPages(held) - HeldPages(held - {o}))
    {
      hide Core, Busy, PageOf, Fit, Size, Pages, IsSlot, HeldPages, PageInUse, DescPages, ObjectPages, Stored;
      forall q: int, k: nat | (q, k) in mem && q != o ensures q + k != o {
        StoredIn(held, mem, link, q, k);
        ApartFrom(q, k, o);
      }
      var panic := FreeS(o, size);
      StoredRest(held, mem, old(link), link, o);
      Returned(held, live, o);
      assert |next.Keys| == |old(next).Keys|;
    }

    method ClientFree(o: int, size: int, held: map<int, nat>, ghost mem: map<(int, nat), int>)
      requires Valid() && Keeps(held, mem) && o in held && size <= held[o]
      modifies this
      ensures Valid() && Pages() == old(Pages()) && Keeps(held - {o}, Forget(mem, o))
      ensures Account(held - {o}, Forget(mem, o)) == Step(old(Account(held, mem)), Free(o, size), 0)
    {
      hide Valid, Keeps, HeldPages, DescPages, ObjectPages, Pages;
      PagesHeld(held, mem);
      FreeApart();
      GiveUp(o, size, held, mem);
      ReturnedCount(old(freePages), HeldPages(held), HeldPages(held - {o}));
    }

    lemma ApartFrom(q: int, k: nat, o: int)
      requires Valid() && q in live && k < ObjectSize(q) && o in live && q != o
      ensures q + k != o
    {
      if q < o { LiveApart(q, o); }
    }

    method ClientWrite(o: int, k: nat, w: int, held: map<int, nat>, ghost mem: map<(int, nat), int>)
      requires Valid() && Keeps(held, mem) && o in held && k < held[o] && k % 4 == 0
      modifies this`link
      ensures Valid() && Pages() == old(Pages()) && Keeps(held, mem[(o, k) := w])
    {
      hide Core, Busy, PageOf, Fit, Size;
      forall q: int, j: nat | (q, j) in mem && (q, j) != (o, k) ensures q + j != o + k {
        if q < o { LiveApart(q, o); } else if o < q { LiveApart(o, q); }
      }
      Write(o, k, w);
    }

    /** One request of a client; a request for an object that it does not hold is not made. */
    method Perform(op: Op, held: map<int, nat>, mem: map<(int, nat), int>)
      returns (panic: bool, got: int, held': map<int, nat>, mem': map<(int, nat), int>)
      requires Valid() && Keeps(held, mem)
      modifies this
      ensures Valid() && Pages() == old(Pages()) && Keeps(held', mem')
      ensures panic <==> Refuses(old(Account(held, mem)), op)
      ensures panic ==> held' == held && mem' == mem
      ensures !panic ==> Answers(old(Account(held, mem)), op, got)
      ensures !panic ==> Account(held', mem') == Step(old(Account(held, mem)), op, got)
    {
      hide Valid, Keeps, Pages, Serves, Exhausted, HeldPages;
      panic, got, held', mem' := false, 0, held, mem;
      match op
      case Alloc(len) =>
        panic, got := ClientAlloc(len, held, mem);
        if !panic { held' := held[got := len]; }
      case Free(p, size) =>
        if p in held && size <= held[p] {
          ClientFree(p, size, held, mem);
          held', mem' := held - {p}, Forget(mem, p);
        }
      case Store(p, k, w) =>
        if p in held && k < held[p] && k % 4 == 0 {
          ClientWrite(p, k, w, held, mem);
          mem' := mem[(p, k) := w];
        }
    }

    /**
     * Any run of a client, up to a panic. What it holds and has stored, and how many descriptors and free
     * pages there are, is the plain consequence of its requests and of the addresses it got. It panics
     * exactly at a request that is too large or for which, by that account, too few pages are free. No
     * page is lost: all are free, hold descriptors, or hold objects of the client.
     */
    method Run(ops: seq<Op>) returns (panic: bool, got: seq<int>, held: map<int, nat>, mem: map<(int, nat), int>)
      requires Valid() && live == map[]
      modifies this
      ensures |got| <= |ops| && (panic <==> |got| < |ops|)
      ensures var c := Plain(old(Account(map[], map[])), ops[..|got|], got);
        && held == c.held && mem == c.mem && (if panic then Refuses(c, ops[|got|]) else Account(held, mem) == c)
      ensures forall i :: 0 <= i < |got| ==>
        Answers(Plain(old(Account(map[], map[])), ops[..i], got[..i]), ops[i], got[i])
      ensures Valid() && Keeps(held, mem)
      ensures Split(old(freePages + DescPages(next)), freePages, DescPages(next), HeldPages(held))
      ensures held == map[] ==> home == map[] && freePages == old(freePages + DescPages(next)) - DescPages(next)
    {
      hide Valid, Keeps, Plain, Answers, Refuses, Step, Split, DescPages, ObjectPages, HeldPages;
      ghost var start := Account(map[], map[]);
      panic, got, held, mem := false, [], map[], map[];
      KeepsNothing();
      assert Pages() == freePages + DescPages(next);
      NothingDone(start, ops);
      while |got| < |ops|
        invariant |got| <= |ops| && Valid() && Keeps(held, mem) && Pages() == old(Pages())
        invariant AllAnswered(start, ops, got) && Account(held, mem) == Plain(start, ops[..|got|], got)
      {
        var o, held', mem';
        panic, o, held', mem' := Perform(ops[|got|], held, mem);
        if panic { break; }
        AnsweredNext(start, ops, got, o);
        held, mem, got := held', mem', got + [o];
      }
      AllSplit(held, mem);
      if held == map[] { AllReturned(mem); }
    }

    lemma KeepsNothing()
      requires Valid() && live == map[]
      ensures Keeps(map[], map[]) && ObjectPages(desc, home) == {}
    {
      PagesHeld(map[], map[]);
    }

    lemma FreeApart()
      requires Valid()
      ensures freePages !! DescPages(next) && freePages !! ObjectPages(desc, home)
        && DescPages(next) !! ObjectPages(desc, home)
    {
      KindsApart(next, freeDesc, spare, home, freePages, desc);
    }

    lemma AllReturned(mem: map<(int, nat), int>)
      requires Valid() && Keeps(map[], mem)
      ensures home == map[] && freePages == Pages() - DescPages(next)
    {
      NothingHeld();
      FreeApart();
      PagesHeld(map[], mem);
    }

    lemma AllSplit(held: map<int, nat>, mem: map<(int, nat), int>)
      requires Valid() && Keeps(held, mem)
      ensures Split(Pages(), freePages, DescPages(next), HeldPages(held))
    {
      hide PageOf, HeldPages, DescPages, ObjectPages, Core, Busy, Keeps;
      FreeApart();
      PagesHeld(held, mem);
    }
  }

  datatype Op = Alloc(len: nat) | Free(o: int, size: int) | Store(o: int, k: nat, w: int)

  /**
   * The objects a client holds, with the lengths it asked for, and the words it stored in them; how many
   * descriptors the heap has, and how many free pages.
   */
  datatype Client = Client(held: map<int, nat>, mem: map<(int, nat), int>, descs: nat, pages: int)

  /** The words are at their places in the objects. */
  ghost predicate Stored(held: map<int, nat>, mem: map<(int, nat), int>, link: map<int, int>) {
    forall o: int, k: nat :: (o, k) in mem ==>
      o in held && k < held[o] && o + k in link && link[o + k] == mem[(o, k)]
  }

  lemma StoredIn(held: map<int, nat>, mem: map<(int, nat), int>, link: map<int, int>, o: int, k: nat)
    requires Stored(held, mem, link) && (o, k) in mem
    ensures o in held && k < held[o]
  {}

  lemma StoredRest(held: map<int, nat>, mem: map<(int, nat), int>, link: map<int, int>, link': map<int, int>, o: int)
    requires Stored(held, mem, link) && forall q: int, k: nat :: (q, k) in mem && q != o ==> q + k != o
    requires forall a :: a in link && a != o ==> a in link' && link'[a] == link[a]
    ensures Stored(held - {o}, Forget(mem, o), link')
  {
    var held', mem' := held - {o}, Forget(mem, o);
    forall q: int, k: nat | (q, k) in mem'
      ensures q in held' && k < held'[q] && q + k in link' && link'[q + k] == mem'[(q, k)]
    {
      assert (q, k) in mem && q != o && q + k != o;
    }
  }

  /** The pages in which the objects lie. */
  function HeldPages(held: map<int, nat>): set<int> { set o | o in held :: PageOf(o) }

  /** An object that is not held lies in a page that holds one of bucket b. */
  ghost predicate Room(held: map<int, nat>, b: nat)
    requires b < BUCKETS
  {
    exists o, q :: o in held && Fit(held[o]) == b && IsSlot(PageOf(o), Size(b), q) && q !in held
  }

  /** The pages it takes to open one more page of objects: two if every descriptor has its page. */
  function Need(c: Client): nat { if |HeldPages(c.held)| == c.descs then 2 else 1 }

  ghost predicate Exhausted(c: Client, len: nat) {
    Fit(len) == BUCKETS || (!Room(c.held, Fit(len)) && c.pages < Need(c))
  }

  /**
   * An allocation: a new object of the right size, in a page of such objects if one has room, and
   * otherwise in a page of its own.
   */
  ghost predicate Serves(c: Client, len: nat, o: int) {
    && !Exhausted(c, len) && o !in c.held && IsSlot(PageOf(o), Size(Fit(len)), o)
    && if Room(c.held, Fit(len)) then exists q :: q in c.held && PageOf(q) == PageOf(o) && Fit(c.held[q]) == Fit(len)
       else PageOf(o) !in HeldPages(c.held)
  }

  ghost predicate Answers(c: Client, op: Op, got: int) { op.Alloc? ==> Serves(c, op.len, got) }

  ghost predicate Refuses(c: Client, op: Op) { op.Alloc? && Exhausted(c, op.len) }

  /** One request of a client that uses only its own objects; got is the address an allocation returned. */
  function Step(c: Client, op: Op, got: int): Client {
    match op
    case Alloc(len) =>
      var held := c.held[got := len];
      if |HeldPages(held)| == |HeldPages(c.held)| then c.(held := held)
      else Client(held, c.mem, c.descs + if Need(c) == 2 then PAGE / DESC else 0, c.pages - Need(c))
    case Free(o, size) =>
      if o in c.held && size <= c.held[o] then
        var held := c.held - {o};
        Client(held, Forget(c.mem, o), c.descs, c.pages + |HeldPages(c.held)| - |HeldPages(held)|)
      else c
    case Store(o, k, w) =>
      if o in c.held && k < c.held[o] && k % 4 == 0 then c.(mem := c.mem[(o, k) := w]) else c
  }

  function Plain(start: Client, ops: seq<Op>, got: seq<int>): Client
    requires |got| == |ops|
  {
    if ops == [] then start
    else Step(Plain(start, ops[..|ops| - 1], got[..|ops| - 1]), ops[|ops| - 1], got[|ops| - 1])
  }

  /** The pages are of three kinds. */
  ghost predicate Split(pages: set<int>, free: set<int>, descs: set<int>, objects: set<int>) {
    pages == free + descs + objects && free !! descs && free !! objects && descs !! objects
  }

  ghost predicate AllAnswered(start: Client, ops: seq<Op>, got: seq<int>) {
    |got| <= |ops| && forall i :: 0 <= i < |got| ==> Answers(Plain(start, ops[..i], got[..i]), ops[i], got[i])
  }

  lemma NothingDone(start: Client, ops: seq<Op>)
    ensures AllAnswered(start, ops, []) && Plain(start, ops[..0], []) == start
  {}

  lemma AnsweredNext(start: Client, ops: seq<Op>, got: seq<int>, o: int)
    requires AllAnswered(start, ops, got) && |got| < |ops| && Answers(Plain(start, ops[..|got|], got), ops[|got|], o)
    ensures AllAnswered(start, ops, got + [o])
    ensures Plain(start, ops[..|got| + 1], got + [o]) == Step(Plain(start, ops[..|got|], got), ops[|got|], o)
  {
    hide Answers, Step;
    var all := got + [o];
    assert ops[..|got| + 1][..|got|] == ops[..|got|] && all[..|got|] == got;
    forall i | 0 <= i < |all| ensures Answers(Plain(start, ops[..i], all[..i]), ops[i], all[i]) {
      assert all[..i] == got[..i];
    }
  }

  lemma TakenStep(c: Client, pages0: set<int>, pages: set<int>, next0: map<int, int>, next: map<int, int>, page: int,
                  empty: bool)
    requires Taken(pages0, pages, next0, next, page, empty) && pages0 !! HeldPages(c.held)
    requires c.descs == |next0| && c.pages == |pages0| && (empty <==> |HeldPages(c.held)| == c.descs)
    ensures page !in HeldPages(c.held) && |pages| == c.pages - Need(c)
    ensures |next| == c.descs + if Need(c) == 2 then PAGE / DESC else 0
  {
    hide HeldPages;
    if !empty { assert |next.Keys| == |next0.Keys|; }
  }

  /** How the two ways to serve a request change the account. */
  lemma AllocStep(c: Client, c': Client, len: nat, o: int)
    requires !Exhausted(c, len) && o !in c.held && IsSlot(PageOf(o), Size(Fit(len)), o)
    requires c'.held == c.held[o := len] && c'.mem == c.mem
    requires forall q :: q in c'.held && PageOf(q) == PageOf(o) ==> Fit(c'.held[q]) == Fit(len)
    requires if Room(c.held, Fit(len)) then HeldPages(c'.held) == HeldPages(c.held) && c'.descs == c.descs
      && c'.pages == c.pages
      else PageOf(o) !in HeldPages(c.held) && c'.pages == c.pages - Need(c)
           && c'.descs == c.descs + if Need(c) == 2 then PAGE / DESC else 0
    ensures Serves(c, len, o) && c' == Step(c, Alloc(len), o)
  {
    hide Fit, PageOf, IsSlot, Size, Room;
    MorePages(c.held, o, len);
    if Room(c.held, Fit(len)) {
      assert PageOf(o) in HeldPages(c.held);
      var q :| q in c.held && PageOf(q) == PageOf(o);
      assert q in c'.held && c'.held[q] == c.held[q];
    }
  }

  /** No page is created or lost: what is not free holds objects of the client or 256 descriptors. */
  lemma {:induction false} Balance(start: Client, ops: seq<Op>, got: seq<int>)
    requires start.held == map[] && |got| == |ops|
    ensures Balanced(start, Plain(start, ops, got))
  {
    if ops == [] {
      assert HeldPages(map[]) == {};
    } else {
      var n := |ops| - 1;
      Balance(start, ops[..n], got[..n]);
      BalanceStep(start, Plain(start, ops[..n], got[..n]), ops[n], got[n]);
    }
  }

  ghost predicate Balanced(start: Client, c: Client) {
    start.descs <= c.descs == start.descs + PAGE / DESC * (start.pages - c.pages - |HeldPages(c.held)|)
  }

  lemma BalanceStep(start: Client, c: Client, op: Op, got: int)
    requires Balanced(start, c)
    ensures Balanced(start, Step(c, op, got))
  {
    hide HeldPages;
    if op.Alloc? { MorePages(c.held, got, op.len); }
  }

  /** The page of an object is no page of the client any more exactly if none of its other objects is there. */
  lemma Returned(held: map<int, nat>, live: map<int, int>, o: int)
    requires o in held && forall q :: q in live <==> q in held && q != o
    ensures HeldPages(held - {o}) <= HeldPages(held)
    ensures HeldPages(held) - HeldPages(held - {o}) == if PageInUse(live, PageOf(o)) then {} else {PageOf(o)}
  {
    hide PageOf;
    var held' := held - {o};
    forall q ensures q in held' <==> q in live {}
    if PageInUse(live, PageOf(o)) {
      var r :| r in live && PageOf(r) == PageOf(o);
      assert r in held' && PageOf(o) in HeldPages(held');
    } else {
      assert PageOf(o) in HeldPages(held) && PageOf(o) !in HeldPages(held');
    }
    forall p | p in HeldPages(held) && p != PageOf(o) ensures p in HeldPages(held') {
      var q :| q in held && PageOf(q) == p;
      assert q in held';
    }
  }

  lemma ReturnedCount(free: set<int>, objects: set<int>, objects': set<int>)
    requires objects' <= objects && free !! objects
    ensures |free + (objects - objects')| == |free| + |objects| - |objects'|
  {
    assert objects == objects' + (objects - objects');
  }

  lemma MorePages(held: map<int, nat>, o: int, len: nat)
    ensures HeldPages(held[o := len]) == HeldPages(held) + {PageOf(o)}
    ensures |HeldPages(held[o := len])| == |HeldPages(held)| + if PageOf(o) in HeldPages(held) then 0 else 1
  {
    hide PageOf;
    assert HeldPages(held[o := len]) == HeldPages(held) + {PageOf(o)};
  }

  /** Descriptors are made only when as many pages of objects as there are descriptors are in use. */
  lemma {:induction false} OnlyAsNeeded(start: Client, ops: seq<Op>, got: seq<int>) returns (k: nat)
    requires |got| == |ops|
    ensures k <= |ops|
    ensures var c := Plain(start, ops, got);
      c.descs == start.descs || c.descs == |HeldPages(Plain(start, ops[..k], got[..k]).held)| + PAGE / DESC
  {
    if ops == [] { return 0; }
    var n := |ops| - 1;
    k := OnlyAsNeeded(start, ops[..n], got[..n]);
    assert ops[..n][..k] == ops[..k] && got[..n][..k] == got[..k];
    if Plain(start, ops, got).descs != Plain(start, ops[..n], got[..n]).descs { k := n; }
  }

  function Forget(mem: map<(int, nat), int>, o: int): map<(int, nat), int> {
    map p | p in mem && p.0 != o :: mem[p]
  }

  lemma OtherPage(d: Desc, e: Desc, o: int, q: int)
    requires d.page != e.page && d.page % PAGE == 0 && e.page % PAGE == 0 && o < q
    requires IsSlot(d.page, d.size, o) && IsSlot(e.page, e.size, q) && o + d.size <= d.page + PAGE
    ensures o + d.size <= q
  {}

  lemma InPage(page: int, a: int)
    requires page % PAGE == 0 && page <= a < page + PAGE
    ensures PageOf(a) == page
  {}

  ghost predicate PageInUse(live: map<int, int>, page: int) { exists o :: o in live && PageOf(o) == page }

  lemma HomeSize(desc: map<int, Desc>, home: map<int, nat>, link: map<int, int>, free: map<int, seq<int>>, x: int)
    requires DescsOk(desc, home, link, free) && x in home
    ensures x in desc && home[x] < BUCKETS && desc[x].size == Size(home[x])
  {}

  lemma SizesKept(desc: map<int, Desc>, desc': map<int, Desc>, home: map<int, nat>, home': map<int, nat>,
                  free: map<int, seq<int>>, live: map<int, int>)
    requires LiveOk(desc, home, free, live) && SameHomes(desc, desc', home, home')
    ensures forall o :: o in live ==> live[o] in desc && live[o] in desc' && desc'[live[o]].size == desc[live[o]].size
  {
    forall o | o in live ensures live[o] in desc && live[o] in desc' && desc'[live[o]].size == desc[live[o]].size {
      var x := live[o];
      assert x in home;
    }
  }

  lemma SizesLeft(desc: map<int, Desc>, desc': map<int, Desc>, home: map<int, nat>, home': map<int, nat>,
                  free: map<int, seq<int>>, live: map<int, int>)
    requires LiveOk(desc', home, free, live) && SameHomes(desc, desc', home, home')
    ensures forall o :: o in live ==> live[o] in desc && live[o] in desc' && desc'[live[o]].size == desc[live[o]].size
  {
    forall o | o in live ensures live[o] in desc && live[o] in desc' && desc'[live[o]].size == desc[live[o]].size {
      var x := live[o];
      assert x in home;
    }
  }

  lemma FreeKnown(desc: map<int, Desc>, home: map<int, nat>, link: map<int, int>, free: map<int, seq<int>>, x: int)
    requires DescsOk(desc, home, link, free) && x in home
    ensures x in free
  {}

  ghost function Position(next: map<int, int>, chain: seq<int>, lists: seq<seq<int>>, home: map<int, nat>, b: nat,
                          x: int): (i: nat)
    requires ChainsOk(next, chain, lists, home) && x in home && home[x] == b
    ensures b < BUCKETS && b < |lists| && i < |lists[b]| && lists[b][i] == x
  {
    assert x in lists[b];
    var i :| 0 <= i < |lists[b]| && lists[b][i] == x;
    i
  }

  lemma UnlinkedIs(next: map<int, int>, xs: seq<int>, i: nat, freeDesc: int)
    requires i < |xs| && xs[i] in next
    ensures Unlinked(next, xs, i, freeDesc) ==
      (if i > 0 then next[xs[i - 1] := next[xs[i]]] else next)[xs[i] := freeDesc]
  {}

  lemma DropAll(next: map<int, int>, chain: seq<int>, lists: seq<seq<int>>, home: map<int, nat>, freeDesc: int,
                spare: seq<int>, freePages: set<int>,
                desc: map<int, Desc>, link: map<int, int>, free: map<int, seq<int>>, live: map<int, int>, b: nat,
                  i: nat)
    requires ChainsOk(next, chain, lists, home) && SpareOk(next, freeDesc, spare, home, freePages)
      && Separate(next, desc, home)
    requires PagesOk(desc, home, freePages) && DescsOk(desc, home, link, free) && LiveOk(desc, home, free, live)
    requires b < BUCKETS && b < |lists| && i < |lists[b]| && lists[b][i] in home && lists[b][i] in desc
      && desc[lists[b][i]].refcnt == 0
    requires Busy(desc, home, lists[b][i])
    ensures lists[b][i] in next && |chain| == BUCKETS
    ensures var x := lists[b][i];
      var next', pages' := Unlinked(next, lists[b], i, freeDesc), freePages + {desc[x].page};
      && ChainsOk(next', if i == 0 then chain[b := next[x]] else chain, lists[b := Without(lists[b], i)], home - {x})
      && SpareOk(next', x, [x] + spare, home - {x}, pages')
      && PagesOk(desc, home - {x}, pages') && DescsOk(desc, home - {x}, link, free)
        && LiveOk(desc, home - {x}, free, live)
      && Separate(next', desc, home - {x}) && Busy(desc, home - {x}, 0) && next'.Keys == next.Keys
  {
    hide Size, IsSlot, IsList, LiveOk, ChainsOk, DescsOk, SpareOk, PagesOk, Without;
    var x := lists[b][i];
    CloseOk(desc, home, freePages, link, free, live, x);
    ChainDrop(next, chain, lists, home, freeDesc, spare, freePages, b, i, desc[x].page);
    DropKeys(next, chain, lists, home, freeDesc, b, i);
  }

  lemma DropKeys(next: map<int, int>, chain: seq<int>, lists: seq<seq<int>>, home: map<int, nat>, freeDesc: int, b: nat,
                 i: nat)
    requires ChainsOk(next, chain, lists, home) && b < BUCKETS && i < |lists[b]|
    ensures lists[b][i] in next && Unlinked(next, lists[b], i, freeDesc).Keys == next.Keys && |chain| == BUCKETS
  {
    ListIn(next, chain[b], lists[b]);
    assert lists[b][i] in lists[b];
    if i > 0 { assert lists[b][i - 1] in lists[b]; }
  }

  lemma InUse(desc: map<int, Desc>, home: map<int, nat>, freePages: set<int>, free: map<int, seq<int>>,
              live: map<int, int>, x: int)
    requires PagesOk(desc, home, freePages) && LiveOk(desc, home, free, live) && x in home && x in desc
    ensures PageInUse(live, desc[x].page) <==> exists o :: o in live && live[o] == x
  {
    forall o | o in live ensures live[o] == x <==> PageOf(o) == desc[x].page {
      LiveHome(desc, home, freePages, free, live, o);
    }
  }

  lemma SameSub(desc: map<int, Desc>, desc': map<int, Desc>, home: map<int, nat>, x: int)
    requires SameHomes(desc, desc', home, home)
    ensures SameHomes(desc, desc', home - {x}, home)
  {}

  lemma AllBusy(desc: map<int, Desc>, home: map<int, nat>, x: int)
    requires x in desc && desc[x].refcnt >= 1 && Busy(desc, home, x)
    ensures Busy(desc, home, 0)
  {}

  lemma FreshDescs(next: map<int, int>, next': map<int, int>, chain: seq<int>, lists: seq<seq<int>>,
                   home: map<int, nat>, freePages: set<int>, desc: map<int, Desc>, page: int)
    requires ChainsOk(next, chain, lists, home) && SpareOk(next, 0, [], home, freePages)
      && PagesOk(desc, home, freePages) && Separate(next, desc, home)
    requires page in freePages
    requires Strung(next, next', Slots(page, DESC, PAGE / DESC), 0)
    ensures ChainsOk(next', chain, lists, home)
      && SpareOk(next', page, Slots(page, DESC, PAGE / DESC), home, freePages - {page})
    ensures PagesOk(desc, home, freePages - {page}) && Separate(next', desc, home) && page > 0
  {
    hide IsSlot, Slots, IsList, ChainsOk, Threaded;
    var xs := Slots(page, DESC, PAGE / DESC);
    SlotsHold(page, DESC, PAGE / DESC);
    forall o | o in xs ensures PageOf(o) == page && o != 0 { SlotPage(page, DESC, o); }
    NewList(next, next', xs);
    ChainsFrame(next, next', chain, lists, home);
  }

  /** A page of descriptors first, then a page of objects. */
  lemma TakenAfter(pages0: set<int>, pages1: set<int>, pages: set<int>, next0: map<int, int>, next1: map<int, int>,
                   next: map<int, int>, page: int)
    requires pages1 <= pages0 && |pages1| == |pages0| - 1 && |next1| == |next0| + PAGE / DESC
    requires Taken(pages1, pages, next1, next, page, false)
    ensures Taken(pages0, pages, next0, next, page, true)
  {
    assert |next.Keys| == |next1.Keys|;
  }

  lemma Moved(free': set<int>, free: set<int>, descs: set<int>, objects: set<int>, page: int)
    requires page in free && free' == free - {page}
    ensures free' + (descs + {page}) + objects == free + descs + objects
  {}

  /** What a page of new descriptors adds. */
  lemma MoreDescs(next: map<int, int>, next': map<int, int>, freeDesc: int, spare: seq<int>, home: map<int, nat>,
                  freePages: set<int>, desc: map<int, Desc>, page: int)
    requires SpareOk(next, freeDesc, spare, home, freePages) && PagesOk(desc, home, freePages) && page in freePages
    requires Strung(next, next', Slots(page, DESC, PAGE / DESC), 0)
    ensures |next'| == |next| + PAGE / DESC && DescPages(next') == DescPages(next) + {page}
  {
    hide Slots, IsList, Threaded, IsSlot, PageOf;
    var xs := Slots(page, DESC, PAGE / DESC);
    SlotsHold(page, DESC, PAGE / DESC);
    OtherPages(page, DESC, PAGE / DESC);
    StrungCount(next, next', xs);
    assert xs[0] in xs && PageOf(xs[0]) == page;
  }

  lemma StrungCount(next: map<int, int>, next': map<int, int>, xs: seq<int>)
    requires Strung(next, next', xs, 0) && Distinct(xs) && forall x :: x in xs ==> x !in next
    ensures |next'| == |next| + |xs|
  {
    hide Threaded;
    var new' := set x | x in xs;
    DistinctCard(xs);
    forall x ensures x in next'.Keys <==> x in next.Keys || x in new' {}
    assert next'.Keys == next.Keys + new' && next.Keys !! new';
  }

  lemma HomePage(desc: map<int, Desc>, home: map<int, nat>, freePages: set<int>, x: int)
    requires PagesOk(desc, home, freePages) && x in home
    ensures x in desc && desc[x].page > 0 && desc[x].page % PAGE == 0 && desc[x].page !in freePages
  {}

  /** What opening a page of objects changes. */
  lemma OpenedPages(next: map<int, int>, next': map<int, int>, desc: map<int, Desc>, desc': map<int, Desc>,
                    home: map<int, nat>, x: int, d: Desc, b: nat)
    requires x !in home && next'.Keys == next.Keys && desc' == desc[x := d]
    ensures DescPages(next') == DescPages(next)
    ensures ObjectPages(desc', home[x := b]) == ObjectPages(desc, home) + {d.page}
  {
    var home' := home[x := b];
    assert x in home' && x in desc' && desc'[x].page == d.page;
    forall y | y in home && y in desc ensures y in home' && y in desc' && desc'[y].page == desc[y].page {}
  }

  /** What giving a page of objects back changes. */
  lemma ClosedPages(next: map<int, int>, next': map<int, int>, desc: map<int, Desc>, home: map<int, nat>, x: int)
    requires x in home && x in desc && next'.Keys == next.Keys
    ensures DescPages(next') == DescPages(next)
    ensures ObjectPages(desc, home) == ObjectPages(desc, home - {x}) + {desc[x].page}
  {
    forall y | y in home && y in desc && y != x ensures y in home - {x} {}
  }

  lemma SamePages(desc: map<int, Desc>, desc': map<int, Desc>, home: map<int, nat>)
    requires SameHomes(desc, desc', home, home)
    ensures ObjectPages(desc', home) == ObjectPages(desc, home)
  {}

  /** The three kinds of pages are apart. */
  lemma KindsApart(next: map<int, int>, freeDesc: int, spare: seq<int>, home: map<int, nat>, freePages: set<int>,
                   desc: map<int, Desc>)
    requires SpareOk(next, freeDesc, spare, home, freePages) && PagesOk(desc, home, freePages)
    requires Separate(next, desc, home)
    ensures freePages !! DescPages(next) && freePages !! ObjectPages(desc, home)
    ensures DescPages(next) !! ObjectPages(desc, home)
  {}

  /** Every descriptor in use has a page of its own. */
  lemma {:induction false} PageCount(desc: map<int, Desc>, xs: set<int>)
    requires forall x :: x in xs ==> x in desc
    requires forall x, y :: x in xs && y in xs && desc[x].page == desc[y].page ==> x == y
    ensures |set x | x in xs :: desc[x].page| == |xs|
  {
    EmptyOrNot(xs);
    var pages := set x | x in xs :: desc[x].page;
    if xs == {} {
      assert pages == {};
    } else {
      var x :| x in xs;
      PageCount(desc, xs - {x});
      assert pages == (set y | y in xs - {x} :: desc[y].page) + {desc[x].page};
    }
  }

  lemma OpenBusy(next: map<int, int>, freeDesc: int, spare: seq<int>, home: map<int, nat>, freePages: set<int>,
                 desc: map<int, Desc>, d: Desc, x: int, b: nat)
    requires SpareOk(next, freeDesc, spare, home, freePages) && Busy(desc, home, 0)
    ensures Busy(desc[x := d], home[x := b], x)
  {}

  lemma SpareLeft(next: map<int, int>, freeDesc: int, spare: seq<int>, home: map<int, nat>, freePages: set<int>)
    requires SpareOk(next, freeDesc, spare, home, freePages)
    ensures freeDesc == 0 <==> spare == []
  {}

  lemma CoreFacts(next: map<int, int>, chain: seq<int>, lists: seq<seq<int>>, home: map<int, nat>, freeDesc: int,
                  spare: seq<int>, freePages: set<int>, desc: map<int, Desc>)
    requires ChainsOk(next, chain, lists, home) && SpareOk(next, freeDesc, spare, home, freePages)
      && PagesOk(desc, home, freePages)
    ensures |chain| == |lists| == BUCKETS && 0 !in freePages && (freeDesc == 0 <==> spare == [])
    ensures 0 !in home && (forall x :: x in home ==> x in desc && home[x] < BUCKETS)
      && (freeDesc != 0 ==> freeDesc in next && freeDesc !in home)
  {
    NullIsEmpty(next, freeDesc, spare);
    ListIn(next, freeDesc, spare);
    if spare != [] { assert spare[0] in spare; }
  }

  /** Descriptors in use stay so, unchanged. */
  ghost predicate SameDescs(desc: map<int, Desc>, desc': map<int, Desc>, home: map<int, nat>, home': map<int, nat>) {
    forall x :: x in home ==> x in home' && x in desc && x in desc' && desc'[x] == desc[x] && home'[x] == home[x]
  }

  /** Words outside the free pages are unchanged. */
  ghost predicate SameWords(link: map<int, int>, link': map<int, int>, freePages: set<int>) {
    forall a :: a in link && PageOf(a) !in freePages ==> a in link' && link'[a] == link[a]
  }

  lemma OpenAll(next: map<int, int>, chain: seq<int>, lists: seq<seq<int>>, home: map<int, nat>, freeDesc: int,
                spare: seq<int>, freePages: set<int>,
                desc: map<int, Desc>, link: map<int, int>, free: map<int, seq<int>>, live: map<int, int>, b: nat,
                  page: int, link': map<int, int>)
    requires ChainsOk(next, chain, lists, home) && SpareOk(next, freeDesc, spare, home, freePages)
      && Separate(next, desc, home)
    requires PagesOk(desc, home, freePages) && DescsOk(desc, home, link, free) && LiveOk(desc, home, free, live)
    requires b < BUCKETS && spare != [] && page in freePages
    requires Strung(link, link', AllSlots(page, b), 0)
    ensures freeDesc in next && freeDesc !in home && |chain| == |lists| == BUCKETS
    ensures var x := freeDesc; var next', home' := next[x := chain[b]], home[x := b];
      var desc', free' := desc[x := Desc(page, page, 0, Size(b))], free[x := AllSlots(page, b)];
      && ChainsOk(next', chain[b := x], lists[b := [x] + lists[b]], home')
        && SpareOk(next', next[x], spare[1..], home', freePages - {page})
      && PagesOk(desc', home', freePages - {page}) && DescsOk(desc', home', link', free')
        && LiveOk(desc', home', free', live)
      && Separate(next', desc', home')
    ensures page > 0 && SameWords(link, link', freePages)
    ensures SameDescs(desc, desc[freeDesc := Desc(page, page, 0, Size(b))], home, home[freeDesc := b])
  {
    hide Size, Slots, IsSlot, IsList, LiveOk, ChainsOk, DescsOk, Threaded, Separate;
    CoreFacts(next, chain, lists, home, freeDesc, spare, freePages, desc);
    SizeFits(b);
    OtherPages(page, Size(b), PAGE / Size(b));
    ChainPush(next, chain, lists, home, freeDesc, spare, freePages, b);
    OpenOk(desc, home, freePages, link, free, live, freeDesc, b, page, link');
    OpenSeparate(next, desc, home, freePages, freeDesc, b, page, chain[b]);
  }

  lemma LiveHome(desc: map<int, Desc>, home: map<int, nat>, freePages: set<int>, free: map<int, seq<int>>,
                 live: map<int, int>, obj: int)
    requires PagesOk(desc, home, freePages) && LiveOk(desc, home, free, live) && obj in live
    ensures live[obj] in home && live[obj] in desc && desc[live[obj]].page == PageOf(obj)
  {
    var x := live[obj];
    assert x in home && x in desc;
    SlotPage(desc[x].page, desc[x].size, obj);
  }

  lemma SpareCount(next: map<int, int>, freeDesc: int, spare: seq<int>, home: map<int, nat>, freePages: set<int>)
    requires SpareOk(next, freeDesc, spare, home, freePages)
    ensures spare == [] <==> |home.Keys| == |next|
  {
    hide IsList, PageOf;
    forall x ensures x in next.Keys <==> x in home.Keys || x in spare {}
    assert home.Keys <= next.Keys;
    SubsetCard(home.Keys, next.Keys);
    if spare == [] {
      assert home.Keys == next.Keys;
    } else {
      var x := spare[0];
      assert x in spare;
      assert x !in home.Keys && x in next.Keys;
    }
  }

  lemma SizeInjective(b: nat, c: nat)
    requires b < BUCKETS && c < BUCKETS && Size(b) == Size(c)
    ensures b == c
  {}

  /** The smallest bucket that holds len bytes. */
  function Fit(len: nat): (b: nat)
    ensures b <= BUCKETS && (b < BUCKETS ==> len <= Size(b)) && (b == BUCKETS <==> len > PAGE)
    ensures forall c :: 0 <= c < b ==> Size(c) < len
  {
    if len <= 16 then 0 else if len <= 32 then 1 else if len <= 64 then 2 else if len <= 128 then 3
    else if len <= 256 then 4 else if len <= 512 then 5 else if len <= 1024 then 6 else if len <= 2048 then 7
    else if len <= 4096 then 8 else 9
  }

  method FindBucket(len: nat) returns (b: nat)
    ensures b == Fit(len)
  {
    b := 0;
    while b < BUCKETS
      invariant b <= BUCKETS && forall c :: 0 <= c < b ==> Size(c) < len
    {
      if Size(b) >= len { break; }
      b := b + 1;
    }
  }

  /** Descriptors in use stay so, with their page and object size. */
  ghost predicate SameHomes(desc: map<int, Desc>, desc': map<int, Desc>, home: map<int, nat>, home': map<int, nat>) {
    forall x :: x in home ==> x in home' && x in desc && x in desc' && home'[x] == home[x]
                              && desc'[x].page == desc[x].page && desc'[x].size == desc[x].size
  }

  lemma Unchanged(desc: map<int, Desc>, home: map<int, nat>, link: map<int, int>, freePages: set<int>)
    ensures (forall x :: x in home ==> x in desc) ==> SameDescs(desc, desc, home, home)
    ensures SameWords(link, link, freePages)
  {}

  lemma MoreWords(link: map<int, int>, link': map<int, int>, freePages: set<int>, pages1: set<int>)
    requires SameWords(link, link', pages1) && pages1 <= freePages
    ensures SameWords(link, link', freePages)
  {}

  lemma BusyWeak(desc: map<int, Desc>, home: map<int, nat>, b: nat, x: int)
    requires 0 !in home && x in home && x in desc && home[x] == b && desc[x].freeptr != 0 && Busy(desc, home, 0)
    ensures HasFree(desc, home, b) && Busy(desc, home, x)
  {}

  lemma SameTrans(desc: map<int, Desc>, desc1: map<int, Desc>, desc2: map<int, Desc>, home: map<int, nat>,
                  home1: map<int, nat>)
    requires SameDescs(desc, desc1, home, home1) && SameHomes(desc1, desc2, home1, home1)
    ensures SameHomes(desc, desc2, home, home1)
  {}

  lemma SameSeparate(next: map<int, int>, desc: map<int, Desc>, home: map<int, nat>, x: int, d: Desc)
    requires Separate(next, desc, home) && x in desc && d.page == desc[x].page
    ensures Separate(next, desc[x := d], home)
  {}

  lemma OtherPages(page: int, size: int, n: nat)
    requires page > 0 && page % PAGE == 0 && size > 0 && n * size == PAGE
    ensures forall o :: o in Slots(page, size, n) ==> PageOf(o) == page
  {
    SlotsHold(page, size, n);
  }

  lemma OpenSeparate(next: map<int, int>, desc: map<int, Desc>, home: map<int, nat>, freePages: set<int>, x: int,
                     b: nat, page: int, w: int)
    requires Separate(next, desc, home) && x in next && page in freePages && b < BUCKETS && x !in home
    requires forall y :: y in next ==> PageOf(y) !in freePages
    ensures Separate(next[x := w], desc[x := Desc(page, page, 0, Size(b))], home[x := b])
  {}

  ghost predicate HasFree(desc: map<int, Desc>, home: map<int, nat>, b: nat) {
    exists x :: x in home && x in desc && home[x] == b && desc[x].freeptr != 0
  }

  lemma ListStart(next: map<int, int>, head: int, xs: seq<int>)
    requires IsList(next, head, xs)
    ensures head == (if |xs| > 0 then xs[0] else 0)
  {}

  lemma ListNext(next: map<int, int>, head: int, xs: seq<int>, i: nat)
    requires IsList(next, head, xs) && i < |xs|
    ensures xs[i] in xs && xs[i] in next && next[xs[i]] == (if i + 1 < |xs| then xs[i + 1] else 0)
  {}

  lemma ChainsFrame(next: map<int, int>, next': map<int, int>, chain: seq<int>, lists: seq<seq<int>>,
                    home: map<int, nat>)
    requires ChainsOk(next, chain, lists, home) && forall x :: x in home ==>
      x in next && x in next' && next'[x] == next[x]
    ensures ChainsOk(next', chain, lists, home)
  {
    forall b | 0 <= b < BUCKETS ensures IsList(next', chain[b], lists[b]) {
      ListFrame(next, next', chain[b], lists[b]);
    }
  }

  ghost predicate Threaded(m: map<int, int>, xs: seq<int>, tail: int) {
    forall i :: 0 <= i < |xs| ==> xs[i] in m && m[xs[i]] == (if i + 1 < |xs| then xs[i + 1] else tail)
  }

  /** r is m with the cells xs strung together. */
  ghost predicate Strung(m: map<int, int>, r: map<int, int>, xs: seq<int>, tail: int) {
    && Threaded(r, xs, tail)
    && (forall x :: x in r <==> x in m || x in xs)
    && (forall x :: x in m && x !in xs ==> r[x] == m[x])
  }

  /** The loop that strings n cells together, the last one pointing to tail. */
  method Thread(m: map<int, int>, base: int, step: nat, n: nat, tail: int) returns (r: map<int, int>)
    requires step > 0 && n > 0
    ensures Strung(m, r, Slots(base, step, n), tail)
  {
    ghost var xs := Slots(base, step, n);
    forall i, j | 0 <= i < j < n ensures xs[i] != xs[j] { MulMono(i, j, step); }
    r := m;
    var cp, i := base, n;
    while i > 1
      invariant 1 <= i <= n && cp == xs[n - i]
      invariant forall x :: x in r <==> x in m || x in xs[..n - i]
      invariant forall x :: x in m && x !in xs ==> r[x] == m[x]
      invariant forall j :: 0 <= j < n - i ==> r[xs[j]] == xs[j + 1]
    {
      r := r[cp := cp + step];
      assert xs[n - i + 1] == cp + step by { assert (n - i + 1) * step == (n - i) * step + step; }
      cp := cp + step;
      i := i - 1;
      assert xs[..n - i] == xs[..n - i - 1] + [xs[n - i - 1]];
    }
    r := r[cp := tail];
    assert xs == xs[..n - 1] + [xs[n - 1]];
  }

  /** The objects of a page of bucket b, and the loop of malloc that strings them. */
  ghost function AllSlots(page: int, b: nat): seq<int>
    requires b < BUCKETS
  {
    SizeFits(b);
    Slots(page, Size(b), PAGE / Size(b))
  }

  method ThreadPage(m: map<int, int>, page: int, b: nat) returns (r: map<int, int>)
    requires b < BUCKETS
    ensures Strung(m, r, AllSlots(page, b), 0)
  {
    hide Strung, Size;
    SizeFits(b);
    r := Thread(m, page, Size(b), PAGE / Size(b), 0);
  }

  lemma ThreadList(m: map<int, int>, r: map<int, int>, xs: seq<int>, tail: int, ys: seq<int>)
    requires xs != [] && IsList(m, tail, ys) && Distinct(xs) && Threaded(r, xs, tail)
    requires forall x :: x in xs ==> x !in ys && x != 0
    requires forall x :: x in ys ==> x in r && r[x] == m[x]
    ensures IsList(r, xs[0], xs + ys)
  {
    var zs, n := xs + ys, |xs|;
    forall i | 0 <= i < |zs| ensures zs[i] in r && r[zs[i]] == Head(zs[i + 1..]) {
      if i >= n {
        var k := i - n;
        assert zs[i] == ys[k] && ys[k] in ys && zs[i + 1..] == ys[k + 1..] && m[ys[k]] == Head(ys[k + 1..]);
      } else {
        assert zs[i] == xs[i] && xs[i] in r && r[xs[i]] == if i + 1 < |xs| then xs[i + 1] else tail;
        if i == n - 1 { assert zs[i + 1..] == ys; }
        else { assert Head(zs[i + 1..]) == zs[i + 1] == xs[i + 1]; }
        assert r[xs[i]] == Head(zs[i + 1..]);
      }
    }
  }
}
