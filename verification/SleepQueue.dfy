/**
 * The implicit wait lists of sleep_on and wake_up (cpp/linux-0.11/kernel/sched.c). A queue is one
 * pointer; the rest of the list is in the local variable tmp of the sleepers. Here sleep_on up to its
 * call of schedule() is one step and what follows is another; SleepSteps says when that is justified.
 */
module SleepQueue {
  import opened Options

  /** Where a task is: outside sleep_on, or behind its call of schedule() with its arguments. */
  datatype Place = Outside | Inside(queue: nat, tmp: Option<nat>)

  datatype Task = Task(running: bool, place: Place)

  datatype Kernel = Kernel(head: map<nat, Option<nat>>, task: map<nat, Task>)

  datatype Event =
    | SleepOn(t: nat, queue: nat)
    | Resume(t: nat)
    | WakeUp(queue: nat)

  ghost predicate Enabled(k: Kernel, e: Event) {
    match e
    case SleepOn(t, q) => t in k.task && k.task[t] == Task(true, Outside) && q in k.head
    case Resume(t) => t in k.task && k.task[t].running && k.task[t].place.Inside?
    case WakeUp(q) => q in k.head
  }

  /** Setting the state of a task to running. */
  function Wake(task: map<nat, Task>, t: Option<nat>): map<nat, Task> {
    if t.Some? && t.v in task then task[t.v := task[t.v].(running := true)] else task
  }

  function Next(k: Kernel, e: Event): Kernel
    requires Enabled(k, e)
  {
    match e
    case SleepOn(t, q) => Kernel(k.head[q := Some(t)], k.task[t := Task(false, Inside(q, k.head[q]))])
    case Resume(t) => k.(task := Wake(k.task, k.task[t].place.tmp)[t := Task(true, Outside)])
    case WakeUp(q) => Kernel(k.head[q := None], Wake(k.task, k.head[q]))
  }

  /** Every task is outside and running, every queue is empty. */
  ghost predicate Initial(k: Kernel) {
    && (forall t :: t in k.task ==> k.task[t] == Task(true, Outside))
    && (forall q :: q in k.head ==> k.head[q].None?)
  }

  ghost predicate Allowed(k: Kernel, es: seq<Event>)
    decreases |es|
  {
    es == [] || (Enabled(k, es[0]) && Allowed(Next(k, es[0]), es[1..]))
  }

  ghost function After(k: Kernel, es: seq<Event>): Kernel
    requires Allowed(k, es)
    decreases |es|
  {
    if es == [] then k else After(Next(k, es[0]), es[1..])
  }

  // ---------------------------------------------------------------------------------------------
  // Book-keeping of the proof: when a task went to sleep, and whether its queue was woken since
  // ---------------------------------------------------------------------------------------------

  datatype Book = Book(clock: nat, since: map<nat, nat>, called: set<nat>)

  ghost predicate Waits(k: Kernel, t: nat, q: nat) {
    t in k.task && k.task[t].place.Inside? && k.task[t].place.queue == q
  }

  ghost function Noted(k: Kernel, b: Book, e: Event): Book {
    match e
    case SleepOn(t, q) => Book(b.clock + 1, b.since[t := b.clock], b.called)
    case Resume(t) => b.(called := b.called - {t})
    case WakeUp(q) => b.(called := b.called + set t | t in k.task && Waits(k, t, q))
  }

  function Since(b: Book, t: nat): nat { if t in b.since then b.since[t] else 0 }

  predicate Asleep(k: Kernel, t: nat) { t in k.task && !k.task[t].running && k.task[t].place.Inside? }

  predicate AtHead(k: Kernel, q: nat, t: nat) { q in k.head && k.head[q] == Some(t) }

  predicate AtTmp(k: Kernel, s: nat, t: nat) {
    s in k.task && k.task[s].place.Inside? && k.task[s].place.tmp == Some(t)
  }

  /** Who is at the head of a queue sleeps on that queue, which was not woken since. */
  ghost predicate HeadsOk(k: Kernel, b: Book) {
    forall q: nat, t: nat :: AtHead(k, q, t) ==> Asleep(k, t) && Waits(k, t, q) && t !in b.called
  }

  /** Who is in a sleeper's tmp sleeps on the same queue, from before. */
  ghost predicate TmpsOk(k: Kernel, b: Book) {
    forall s: nat, t: nat :: AtTmp(k, s, t) ==>
      Asleep(k, t) && Waits(k, t, k.task[s].place.queue) && Since(b, t) < Since(b, s)
        && (t in b.called <==> s in b.called)
  }

  /** No task is referred to from two places. */
  ghost predicate Single(k: Kernel) {
    && (forall q: nat, p: nat, t: nat :: AtHead(k, q, t) && AtHead(k, p, t) ==> q == p)
    && (forall q: nat, s: nat, t: nat :: AtHead(k, q, t) ==> !AtTmp(k, s, t))
    && (forall r: nat, s: nat, t: nat :: AtTmp(k, r, t) && AtTmp(k, s, t) ==> r == s)
  }

  ghost predicate Referred(k: Kernel, t: nat) {
    (exists q: nat :: AtHead(k, q, t)) || (exists s: nat :: AtTmp(k, s, t))
  }

  /** A sleeping task is referred to from somewhere. */
  ghost predicate AllReferred(k: Kernel) { forall t: nat :: Asleep(k, t) ==> Referred(k, t) }

  ghost predicate TimesOk(k: Kernel, b: Book) {
    && (forall t: nat :: t in k.task && k.task[t].place.Inside? ==>
      Since(b, t) < b.clock && k.task[t].place.queue in k.head)
    && (forall t: nat :: t in k.task && k.task[t].place.Outside? ==> k.task[t].running)
    && (forall t: nat :: t in k.task && k.task[t].running && k.task[t].place.Inside? ==> t in b.called)
    && (forall t: nat :: t in b.called ==> t in k.task && k.task[t].place.Inside?)
  }

  ghost predicate Inv(k: Kernel, b: Book) {
    HeadsOk(k, b) && TmpsOk(k, b) && Single(k) && AllReferred(k) && TimesOk(k, b)
  }

  lemma InitialKeeps(k: Kernel)
    requires Initial(k)
    ensures Inv(k, Book(0, map[], {}))
  {}

  lemma SleepKeeps(k: Kernel, b: Book, t: nat, q: nat)
    requires Inv(k, b) && Enabled(k, SleepOn(t, q))
    ensures Inv(Next(k, SleepOn(t, q)), Noted(k, b, SleepOn(t, q)))
  {
    var e := SleepOn(t, q);
    var k', b' := Next(k, e), Noted(k, b, e);
    assert AtHead(k', q, t);
    forall s: nat, x: nat ensures AtTmp(k', s, x) <==> if s == t then AtHead(k, q, x) else AtTmp(k, s, x) {}
    forall p: nat, x: nat ensures AtHead(k', p, x) <==> if p == q then x == t else AtHead(k, p, x) {}
    forall x: nat | Asleep(k', x) ensures Referred(k', x) {
      if x != t {
        assert Asleep(k, x);
        if y: nat :| AtHead(k, y, x) {
          if y == q { assert AtTmp(k', t, x); } else { assert AtHead(k', y, x); }
        } else {
          var s: nat :| AtTmp(k, s, x);
          assert AtTmp(k', s, x);
        }
      }
    }
  }

  lemma ResumeKeeps(k: Kernel, b: Book, t: nat)
    requires Inv(k, b) && Enabled(k, Resume(t))
    ensures Inv(Next(k, Resume(t)), Noted(k, b, Resume(t)))
  {
    var e := Resume(t);
    var k', b' := Next(k, e), Noted(k, b, e);
    forall s: nat, x: nat ensures AtTmp(k', s, x) <==> s != t && AtTmp(k, s, x) {}
    forall p: nat, x: nat ensures AtHead(k', p, x) <==> AtHead(k, p, x) {}
    forall x: nat ensures Asleep(k', x) <==> Asleep(k, x) && !AtTmp(k, t, x) {}
    forall x: nat | Asleep(k', x) ensures Referred(k', x) {
      if y: nat :| AtHead(k, y, x) { assert AtHead(k', y, x); }
      else { var s: nat :| AtTmp(k, s, x); assert AtTmp(k', s, x); }
    }
  }

  lemma WakeKeeps(k: Kernel, b: Book, q: nat)
    requires Inv(k, b) && Enabled(k, WakeUp(q))
    ensures Inv(Next(k, WakeUp(q)), Noted(k, b, WakeUp(q)))
  {
    var e := WakeUp(q);
    var k', b' := Next(k, e), Noted(k, b, e);
    forall s: nat, x: nat ensures AtTmp(k', s, x) <==> AtTmp(k, s, x) {}
    forall p: nat, x: nat ensures AtHead(k', p, x) <==> p != q && AtHead(k, p, x) {}
    forall x: nat ensures Asleep(k', x) <==> Asleep(k, x) && !AtHead(k, q, x) {}
    forall x: nat | Asleep(k', x) ensures Referred(k', x) {
      if y: nat :| AtHead(k, y, x) { assert AtHead(k', y, x); }
      else { var s: nat :| AtTmp(k, s, x); assert AtTmp(k', s, x); }
    }
  }

  lemma NextKeeps(k: Kernel, b: Book, e: Event)
    requires Inv(k, b) && Enabled(k, e)
    ensures Inv(Next(k, e), Noted(k, b, e))
  {
    match e
    case SleepOn(t, q) => SleepKeeps(k, b, t, q);
    case Resume(t) => ResumeKeeps(k, b, t);
    case WakeUp(q) => WakeKeeps(k, b, q);
  }

  ghost function BookAfter(k: Kernel, b: Book, es: seq<Event>): Book
    requires Allowed(k, es)
    decreases |es|
  {
    if es == [] then b else BookAfter(Next(k, es[0]), Noted(k, b, es[0]), es[1..])
  }

  lemma {:induction false} RunKeeps(k: Kernel, b: Book, es: seq<Event>)
    requires Inv(k, b) && Allowed(k, es)
    ensures Inv(After(k, es), BookAfter(k, b, es))
    decreases |es|
  {
    hide Inv;
    if es != [] {
      NextKeeps(k, b, es[0]);
      RunKeeps(Next(k, es[0]), Noted(k, b, es[0]), es[1..]);
    }
  }

  // ---------------------------------------------------------------------------------------------
  // What follows for every run
  // ---------------------------------------------------------------------------------------------

  datatype Holder = Head(queue: nat) | Tmp(t: nat)

  ghost predicate Refers(k: Kernel, h: Holder, t: nat) {
    match h
    case Head(q) => AtHead(k, q, t)
    case Tmp(s) => AtTmp(k, s, t)
  }

  /** A sleeping process is referred to from one place, any other from none. */
  ghost predicate OneRef(k: Kernel, t: nat) {
    if Asleep(k, t) then exists h :: Refers(k, h, t) && forall g :: Refers(k, g, t) ==> g == h
    else forall h :: !Refers(k, h, t)
  }

  lemma InvOneRef(k: Kernel, b: Book, t: nat)
    requires Inv(k, b)
    ensures OneRef(k, t)
  {
    hide TimesOk, Waits, Since, Asleep, AtHead, AtTmp;
    if Asleep(k, t) {
      var h: Holder;
      if q: nat :| AtHead(k, q, t) { h := Head(q); }
      else { var s: nat :| AtTmp(k, s, t); h := Tmp(s); }
      assert Refers(k, h, t);
      forall g | Refers(k, g, t) ensures g == h { SameHolder(k, g, h, t); }
    }
  }

  lemma SameHolder(k: Kernel, g: Holder, h: Holder, t: nat)
    requires Single(k) && Refers(k, g, t) && Refers(k, h, t)
    ensures g == h
  {
    hide AtHead, AtTmp;
  }

  /** In every reachable state. */
  lemma OneHolder(k0: Kernel, es: seq<Event>, t: nat)
    requires Initial(k0) && Allowed(k0, es)
    ensures OneRef(After(k0, es), t)
  {
    hide Inv, OneRef;
    InitialKeeps(k0);
    RunKeeps(k0, Book(0, map[], {}), es);
    InvOneRef(After(k0, es), BookAfter(k0, Book(0, map[], {}), es), t);
  }

  /** Nobody is about to continue in sleep_on: the chains that were started have run. */
  ghost predicate Quiet(k: Kernel) {
    forall t: nat :: t in k.task && k.task[t].place.Inside? ==> !k.task[t].running
  }

  lemma {:induction false} QuietCalled(k: Kernel, b: Book, t: nat)
    requires Inv(k, b) && Quiet(k)
    ensures t !in b.called
    decreases b.clock - Since(b, t)
  {
    if t in b.called {
      assert Asleep(k, t);
      assert forall q: nat :: !AtHead(k, q, t);
      var s: nat :| AtTmp(k, s, t);
      QuietCalled(k, b, s);
    }
  }

  /** A task whose queue was woken stays on the list of those until it continues. */
  lemma {:induction false} CalledStays(k: Kernel, b: Book, es: seq<Event>, t: nat)
    requires Inv(k, b) && Allowed(k, es) && t in b.called && Resume(t) !in es
    ensures t in BookAfter(k, b, es).called
    decreases |es|
  {
    hide Inv;
    if es != [] {
      NextKeeps(k, b, es[0]);
      assert es[0] in es;
      CalledStays(Next(k, es[0]), Noted(k, b, es[0]), es[1..], t);
    }
  }

  /**
   * After wake_up on a queue, whatever happens besides: once the chains have run, every task that was
   * asleep on that queue has left sleep_on.
   */
  lemma WakeReachesAll(k0: Kernel, past: seq<Event>, q: nat, es: seq<Event>, t: nat)
    requires Initial(k0) && Allowed(k0, past) && Enabled(After(k0, past), WakeUp(q))
    requires var k := After(k0, past);
      Waits(k, t, q) && Allowed(Next(k, WakeUp(q)), es) && Quiet(After(Next(k, WakeUp(q)), es))
    ensures Resume(t) in es
  {
    InitialKeeps(k0);
    var b := Book(0, map[], {});
    RunKeeps(k0, b, past);
    var k, c := After(k0, past), BookAfter(k0, b, past);
    var k1, c1 := Next(k, WakeUp(q)), Noted(k, c, WakeUp(q));
    NextKeeps(k, c, WakeUp(q));
    RunKeeps(k1, c1, es);
    QuietCalled(After(k1, es), BookAfter(k1, c1, es), t);
    if Resume(t) !in es { CalledStays(k1, c1, es, t); }
  }

  /** A task whose queue is not woken sleeps on. */
  lemma {:induction false} UncalledSleeps(k: Kernel, b: Book, es: seq<Event>, t: nat, q: nat)
    requires Inv(k, b) && Allowed(k, es) && Asleep(k, t) && Waits(k, t, q) && t !in b.called && WakeUp(q) !in es
    ensures Asleep(After(k, es), t) && Waits(After(k, es), t, q) && Resume(t) !in es
    decreases |es|
  {
    if es != [] {
      var e := es[0];
      NextKeeps(k, b, e);
      assert e in es;
      var k', b' := Next(k, e), Noted(k, b, e);
      StillAsleep(k, b, e, t, q);
      hide Inv;
      UncalledSleeps(k', b', es[1..], t, q);
      assert forall x :: x in es ==> x == e || x in es[1..];
    }
  }

  lemma StillAsleep(k: Kernel, b: Book, e: Event, t: nat, q: nat)
    requires Inv(k, b) && Enabled(k, e) && Asleep(k, t) && Waits(k, t, q) && t !in b.called && e != WakeUp(q)
    ensures Asleep(Next(k, e), t) && Waits(Next(k, e), t, q) && t !in Noted(k, b, e).called && e != Resume(t)
  {
    match e
    case SleepOn(u, p) =>
    case Resume(u) =>
      assert u in b.called;
      assert !AtTmp(k, u, t);
    case WakeUp(p) =>
      assert !AtHead(k, p, t);
  }

  /** From when a task goes to sleep on a queue, only wake_up on that queue can get it to continue. */
  lemma OnlyOwnQueueWakes(k0: Kernel, past: seq<Event>, t: nat, q: nat, es: seq<Event>)
    requires Initial(k0) && Allowed(k0, past) && Enabled(After(k0, past), SleepOn(t, q))
    requires Allowed(Next(After(k0, past), SleepOn(t, q)), es) && WakeUp(q) !in es
    ensures Asleep(After(Next(After(k0, past), SleepOn(t, q)), es), t) && Resume(t) !in es
  {
    InitialKeeps(k0);
    var b := Book(0, map[], {});
    RunKeeps(k0, b, past);
    var k, c := After(k0, past), BookAfter(k0, b, past);
    assert t !in c.called;
    NextKeeps(k, c, SleepOn(t, q));
    UncalledSleeps(Next(k, SleepOn(t, q)), Noted(k, c, SleepOn(t, q)), es, t, q);
  }

  /** The chains can always be run to their end, by at most one step of each task they wake. */
  lemma {:induction false} Drain(k: Kernel, b: Book) returns (es: seq<Event>)
    requires Inv(k, b)
    ensures Allowed(k, es) && Quiet(After(k, es)) && |es| <= |b.called| && forall e :: e in es ==> e.Resume?
    decreases |b.called|
  {
    if t: nat :| t in k.task && k.task[t].place.Inside? && k.task[t].running {
      NextKeeps(k, b, Resume(t));
      var rest := Drain(Next(k, Resume(t)), Noted(k, b, Resume(t)));
      es := [Resume(t)] + rest;
      assert es[1..] == rest;
    } else {
      es := [];
    }
  }

  lemma ChainsEnd(k0: Kernel, past: seq<Event>) returns (es: seq<Event>)
    requires Initial(k0) && Allowed(k0, past)
    ensures Allowed(After(k0, past), es) && Quiet(After(After(k0, past), es)) && forall e :: e in es ==> e.Resume?
  {
    InitialKeeps(k0);
    var b := Book(0, map[], {});
    RunKeeps(k0, b, past);
    es := Drain(After(k0, past), BookAfter(k0, b, past));
  }
}
