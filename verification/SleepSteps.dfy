/**
 * sleep_on store by store (cpp/linux-0.11/kernel/sched.c:159-161): the saving of the queue head, the
 * new head and the new state are steps of their own. The kernel is not preempted, so only wake_up from
 * an interrupt can come between them. The theorems of SleepQueue, which takes the three as one step,
 * hold exactly for the runs in which no wake_up that finds a sleeper on the same queue does.
 */
module SleepSteps {
  import opened Options
  import opened SleepQueue

  /** Process t is inside the three stores of sleep_on for a queue. */
  datatype Mid = Mid(t: nat, queue: nat, tmp: Option<nat>, linked: bool)

  datatype Fine = Fine(k: Kernel, mid: Option<Mid>)

  datatype Act =
    | Save(t: nat, queue: nat)   // tmp = *p
    | Link                       // *p = current
    | Doze                       // current->state = TASK_UNINTERRUPTIBLE
    | GoOn(t: nat)               // behind schedule()
    | Rouse(queue: nat)          // wake_up

  ghost predicate Can(f: Fine, a: Act) {
    match a
    case Save(t, q) => f.mid.None? && Enabled(f.k, SleepOn(t, q))
    case Link => f.mid.Some? && !f.mid.v.linked
    case Doze => f.mid.Some? && f.mid.v.linked
    case GoOn(t) => f.mid.None? && Enabled(f.k, Resume(t))
    case Rouse(q) => Enabled(f.k, WakeUp(q))
  }

  function Do(f: Fine, a: Act): Fine
    requires Can(f, a)
  {
    match a
    case Save(t, q) => f.(mid := Some(Mid(t, q, f.k.head[q], false)))
    case Link =>
      var m := f.mid.v;
      Fine(f.k.(head := f.k.head[m.queue := Some(m.t)]), Some(m.(linked := true)))
    case Doze =>
      var m := f.mid.v;
      Fine(f.k.(task := f.k.task[m.t := Task(false, Inside(m.queue, m.tmp))]), None)
    case GoOn(t) => f.(k := Next(f.k, Resume(t)))
    case Rouse(q) => f.(k := Next(f.k, WakeUp(q)))
  }

  ghost predicate CanAll(f: Fine, acts: seq<Act>)
    decreases |acts|
  {
    acts == [] || (Can(f, acts[0]) && CanAll(Do(f, acts[0]), acts[1..]))
  }

  ghost function DoAll(f: Fine, acts: seq<Act>): Fine
    requires CanAll(f, acts)
    decreases |acts|
  {
    if acts == [] then f else DoAll(Do(f, acts[0]), acts[1..])
  }

  /** A wake_up disturbs if it meets the queue of a process inside the stores, and somebody on it. */
  ghost predicate Disturbs(f: Fine, a: Act) {
    a.Rouse? && f.mid.Some? && f.mid.v.queue == a.queue && a.queue in f.k.head && f.k.head[a.queue].Some?
  }

  ghost predicate Calm(f: Fine, acts: seq<Act>)
    requires CanAll(f, acts)
    decreases |acts|
  {
    acts == [] || (!Disturbs(f, acts[0]) && Calm(Do(f, acts[0]), acts[1..]))
  }

  // ---------------------------------------------------------------------------------------------
  // Calm runs are runs of the queue with sleep_on in one step
  // ---------------------------------------------------------------------------------------------

  /** The kernel with the stores so far taken back. */
  ghost function Abs(f: Fine): Kernel {
    if f.mid.Some? && f.mid.v.linked then f.k.(head := f.k.head[f.mid.v.queue := f.mid.v.tmp]) else f.k
  }

  /** What the process inside the stores relies on. */
  ghost predicate MidOk(f: Fine) {
    f.mid.Some? ==>
      var m := f.mid.v;
      && m.t in f.k.task && f.k.task[m.t] == Task(true, Outside) && m.queue in f.k.head
      && f.k.head[m.queue] == if m.linked then Some(m.t) else m.tmp
  }

  /** The whole steps among the acts of a run. */
  ghost function Whole(f: Fine, acts: seq<Act>): seq<Event>
    requires CanAll(f, acts)
    decreases |acts|
  {
    if acts == [] then []
    else
      var rest := Whole(Do(f, acts[0]), acts[1..]);
      match acts[0]
      case Save(_, _) => rest
      case Link => rest
      case Doze => [SleepOn(f.mid.v.t, f.mid.v.queue)] + rest
      case GoOn(t) => [Resume(t)] + rest
      case Rouse(q) => [WakeUp(q)] + rest
  }

  lemma CalmStep(f: Fine, a: Act)
    requires MidOk(f) && Can(f, a) && !Disturbs(f, a)
    ensures MidOk(Do(f, a))
    ensures (a.Save? || a.Link?) ==> Abs(Do(f, a)) == Abs(f)
    ensures a.Doze? ==>
      Enabled(Abs(f), SleepOn(f.mid.v.t, f.mid.v.queue))
      && Abs(Do(f, a)) == Next(Abs(f), SleepOn(f.mid.v.t, f.mid.v.queue))
    ensures a.GoOn? ==> Enabled(Abs(f), Resume(a.t)) && Abs(Do(f, a)) == Next(Abs(f), Resume(a.t))
    ensures a.Rouse? ==> Enabled(Abs(f), WakeUp(a.queue)) && Abs(Do(f, a)) == Next(Abs(f), WakeUp(a.queue))
  {
    match a
    case Save(t, q) =>
    case Link =>
      var m := f.mid.v;
      assert f.k.head[m.queue := Some(m.t)][m.queue := m.tmp] == f.k.head;
    case Doze =>
      var m := f.mid.v;
      assert f.k.head[m.queue := m.tmp][m.queue := Some(m.t)] == f.k.head;
    case GoOn(t) =>
    case Rouse(q) =>
      if f.mid.Some? && f.mid.v.linked {
        var m := f.mid.v;
        assert f.k.head[q := None][m.queue := m.tmp] == f.k.head[m.queue := m.tmp][q := None];
      }
  }

  lemma {:induction false} CalmIsWhole(f: Fine, acts: seq<Act>)
    requires MidOk(f) && CanAll(f, acts) && Calm(f, acts)
    ensures MidOk(DoAll(f, acts))
    ensures Allowed(Abs(f), Whole(f, acts)) && After(Abs(f), Whole(f, acts)) == Abs(DoAll(f, acts))
    decreases |acts|
  {
    if acts != [] {
      var a := acts[0];
      hide MidOk, Abs;
      CalmStep(f, a);
      var rest := Whole(Do(f, a), acts[1..]);
      CalmIsWhole(Do(f, a), acts[1..]);
      assert forall e: Event :: ([e] + rest)[1..] == rest;
    }
  }

  // ---------------------------------------------------------------------------------------------
  // The references are right in every state at rest exactly if the run is calm
  // ---------------------------------------------------------------------------------------------

  ghost predicate Good(k: Kernel) { forall t: nat :: OneRef(k, t) }

  /** Good whenever nobody is inside the stores. */
  ghost predicate AlwaysGood(f: Fine, acts: seq<Act>)
    requires CanAll(f, acts)
    decreases |acts|
  {
    (f.mid.None? ==> Good(f.k)) && (acts == [] || AlwaysGood(Do(f, acts[0]), acts[1..]))
  }

  ghost function Noticed(f: Fine, b: Book, a: Act): Book
    requires Can(f, a)
  {
    match a
    case Save(_, _) => b
    case Link => b
    case Doze => Noted(Abs(f), b, SleepOn(f.mid.v.t, f.mid.v.queue))
    case GoOn(t) => Noted(Abs(f), b, Resume(t))
    case Rouse(q) => Noted(Abs(f), b, WakeUp(q))
  }

  lemma CalmInv(f: Fine, b: Book, a: Act)
    requires MidOk(f) && Inv(Abs(f), b) && Can(f, a) && !Disturbs(f, a)
    ensures MidOk(Do(f, a)) && Inv(Abs(Do(f, a)), Noticed(f, b, a))
  {
    hide Inv, MidOk, Abs;
    CalmStep(f, a);
    match a
    case Save(_, _) =>
    case Link =>
    case Doze => NextKeeps(Abs(f), b, SleepOn(f.mid.v.t, f.mid.v.queue));
    case GoOn(t) => NextKeeps(Abs(f), b, Resume(t));
    case Rouse(q) => NextKeeps(Abs(f), b, WakeUp(q));
  }

  lemma {:induction false} CalmGood(f: Fine, b: Book, acts: seq<Act>)
    requires MidOk(f) && Inv(Abs(f), b) && CanAll(f, acts) && Calm(f, acts)
    ensures AlwaysGood(f, acts)
    decreases |acts|
  {
    hide Inv, MidOk, OneRef, Do;
    if f.mid.None? {
      forall t: nat ensures OneRef(f.k, t) { InvOneRef(Abs(f), b, t); }
    }
    if acts != [] {
      CalmInv(f, b, acts[0]);
      CalmGood(Do(f, acts[0]), Noticed(f, b, acts[0]), acts[1..]);
    }
  }

  /** The process inside the stores will save a process that runs, or go to sleep where nobody knows of it. */
  ghost predicate Broken(f: Fine) {
    f.mid.Some? &&
    var m := f.mid.v;
    && m.t in f.k.task && m.tmp != Some(m.t)
    && ((m.tmp.Some? && m.tmp.v != m.t && m.tmp.v in f.k.task && f.k.task[m.tmp.v].running)
        || (m.linked && forall h :: !Refers(f.k, h, m.t)))
  }

  lemma Disturbed(f: Fine, b: Book, a: Act)
    requires MidOk(f) && Inv(Abs(f), b) && Can(f, a) && Disturbs(f, a)
    ensures Broken(Do(f, a))
  {
    var m, k, k' := f.mid.v, Abs(f), Do(f, a).k;
    assert m.tmp.Some? ==> AtHead(k, m.queue, m.tmp.v);
    if m.linked {
      forall h ensures !Refers(k', h, m.t) {
        match h
        case Head(p) => assert AtHead(k', p, m.t) ==> AtHead(k, p, m.t);
        case Tmp(s) => assert AtTmp(k', s, m.t) ==> AtTmp(k, s, m.t);
      }
    }
  }

  lemma BrokenStays(f: Fine, a: Act)
    requires Broken(f) && Can(f, a) && !a.Doze?
    ensures Broken(Do(f, a))
  {
    var m, k' := f.mid.v, Do(f, a).k;
    if a.Rouse? && m.linked && forall h :: !Refers(f.k, h, m.t) {
      forall h ensures !Refers(k', h, m.t) {
        match h
        case Head(p) => assert AtHead(k', p, m.t) ==> Refers(f.k, Head(p), m.t);
        case Tmp(s) => assert AtTmp(k', s, m.t) ==> Refers(f.k, Tmp(s), m.t);
      }
    }
  }

  lemma BrokenDozes(f: Fine)
    requires Broken(f) && Can(f, Doze)
    ensures Do(f, Doze).mid.None? && !Good(Do(f, Doze).k)
  {
    var m, k' := f.mid.v, Do(f, Doze).k;
    if m.tmp.Some? && m.tmp.v != m.t && m.tmp.v in f.k.task && f.k.task[m.tmp.v].running {
      assert Refers(k', Tmp(m.t), m.tmp.v) && !Asleep(k', m.tmp.v);
      assert !OneRef(k', m.tmp.v);
    } else {
      assert Asleep(k', m.t);
      forall h ensures !Refers(k', h, m.t) {
        match h
        case Head(p) => assert AtHead(k', p, m.t) ==> Refers(f.k, Head(p), m.t);
        case Tmp(s) => assert AtTmp(k', s, m.t) ==> s != m.t && Refers(f.k, Tmp(s), m.t);
      }
      assert !OneRef(k', m.t);
    }
  }

  lemma {:induction false} BrokenEnds(f: Fine, acts: seq<Act>)
    requires Broken(f) && CanAll(f, acts) && DoAll(f, acts).mid.None?
    ensures !AlwaysGood(f, acts)
    decreases |acts|
  {
    hide Broken, Good, Do;
    MidOfBroken(f);
    if acts[0].Doze? {
      BrokenDozes(f);
    } else {
      BrokenStays(f, acts[0]);
      BrokenEnds(Do(f, acts[0]), acts[1..]);
    }
  }

  lemma MidOfBroken(f: Fine)
    requires Broken(f)
    ensures f.mid.Some?
  {}

  lemma {:induction false} DisturbedBad(f: Fine, b: Book, acts: seq<Act>)
    requires MidOk(f) && Inv(Abs(f), b) && CanAll(f, acts) && !Calm(f, acts) && DoAll(f, acts).mid.None?
    ensures !AlwaysGood(f, acts)
    decreases |acts|
  {
    hide Inv, MidOk, Broken, Good, Do;
    if Disturbs(f, acts[0]) {
      Disturbed(f, b, acts[0]);
      BrokenEnds(Do(f, acts[0]), acts[1..]);
    } else {
      CalmInv(f, b, acts[0]);
      DisturbedBad(Do(f, acts[0]), Noticed(f, b, acts[0]), acts[1..]);
    }
  }

  /** For every run that ends at rest: each sleeper is always referred to from one place exactly if the run is calm. */
  lemma GoodIffCalm(k0: Kernel, acts: seq<Act>)
    requires Initial(k0) && CanAll(Fine(k0, None), acts) && DoAll(Fine(k0, None), acts).mid.None?
    ensures AlwaysGood(Fine(k0, None), acts) <==> Calm(Fine(k0, None), acts)
  {
    hide Inv;
    var f, b := Fine(k0, None), Book(0, map[], {});
    InitialKeeps(k0);
    if Calm(f, acts) { CalmGood(f, b, acts); } else { DisturbedBad(f, b, acts); }
  }

  // ---------------------------------------------------------------------------------------------
  // Waking, for calm runs
  // ---------------------------------------------------------------------------------------------

  lemma {:induction false} WholeHas(f: Fine, acts: seq<Act>, e: Event)
    requires CanAll(f, acts) && e in Whole(f, acts)
    ensures e.Resume? ==> GoOn(e.t) in acts
    ensures e.WakeUp? ==> Rouse(e.queue) in acts
    decreases |acts|
  {
    var f', rest := Do(f, acts[0]), acts[1..];
    assert acts[0] in acts && forall a :: a in rest ==> a in acts;
    if e in Whole(f', rest) { WholeHas(f', rest, e); }
  }

  /** After wake_up on a queue, once the chains have run, everyone who was asleep there has left sleep_on. */
  lemma CalmWakeReachesAll(k0: Kernel, past: seq<Act>, q: nat, acts: seq<Act>, t: nat)
    requires Initial(k0) && CanAll(Fine(k0, None), past) && Calm(Fine(k0, None), past)
    requires var f := DoAll(Fine(k0, None), past);
      && Waits(f.k, t, q) && Can(f, Rouse(q)) && !Disturbs(f, Rouse(q))
      && CanAll(Do(f, Rouse(q)), acts) && Calm(Do(f, Rouse(q)), acts)
      && DoAll(Do(f, Rouse(q)), acts).mid.None? && Quiet(DoAll(Do(f, Rouse(q)), acts).k)
    ensures GoOn(t) in acts
  {
    var f0 := Fine(k0, None);
    var f := DoAll(f0, past);
    CalmIsWhole(f0, past);
    CalmStep(f, Rouse(q));
    CalmIsWhole(Do(f, Rouse(q)), acts);
    var es := Whole(Do(f, Rouse(q)), acts);
    WakeReachesAll(k0, Whole(f0, past), q, es, t);
    WholeHas(Do(f, Rouse(q)), acts, Resume(t));
  }

  /** From when a process dozes off on a queue, only wake_up on that queue gets it to continue. */
  lemma CalmOnlyOwnQueueWakes(k0: Kernel, past: seq<Act>, acts: seq<Act>)
    requires Initial(k0) && CanAll(Fine(k0, None), past) && Calm(Fine(k0, None), past)
    requires var f := DoAll(Fine(k0, None), past);
      Can(f, Doze) && CanAll(Do(f, Doze), acts) && Calm(Do(f, Doze), acts) && Rouse(f.mid.v.queue) !in acts
    ensures var f := DoAll(Fine(k0, None), past); Asleep(DoAll(Do(f, Doze), acts).k, f.mid.v.t)
  {
    var f0 := Fine(k0, None);
    var f := DoAll(f0, past);
    var t, q := f.mid.v.t, f.mid.v.queue;
    CalmIsWhole(f0, past);
    CalmStep(f, Doze);
    CalmIsWhole(Do(f, Doze), acts);
    var es := Whole(Do(f, Doze), acts);
    if WakeUp(q) in es { WholeHas(Do(f, Doze), acts, WakeUp(q)); }
    OnlyOwnQueueWakes(k0, Whole(f0, past), t, q, es);
  }

  /** Events that let processes continue, as acts. */
  ghost function Continued(es: seq<Event>): seq<Act>
    requires forall e :: e in es ==> e.Resume?
  {
    if es == [] then [] else [GoOn(es[0].t)] + Continued(es[1..])
  }

  lemma {:induction false} ContinuedRuns(k: Kernel, es: seq<Event>)
    requires Allowed(k, es) && forall e :: e in es ==> e.Resume?
    ensures CanAll(Fine(k, None), Continued(es)) && Calm(Fine(k, None), Continued(es))
    ensures DoAll(Fine(k, None), Continued(es)) == Fine(After(k, es), None)
    ensures forall a :: a in Continued(es) ==> a.GoOn?
    decreases |es|
  {
    if es != [] {
      assert es[0] in es;
      ContinuedRuns(Next(k, es[0]), es[1..]);
      assert Continued(es)[1..] == Continued(es[1..]);
    }
  }

  /** After every calm run the chains can be run to their end. */
  lemma CalmChainsEnd(k0: Kernel, past: seq<Act>) returns (acts: seq<Act>)
    requires Initial(k0) && CanAll(Fine(k0, None), past) && Calm(Fine(k0, None), past)
      && DoAll(Fine(k0, None), past).mid.None?
    ensures var f := DoAll(Fine(k0, None), past);
      CanAll(f, acts) && Calm(f, acts) && Quiet(DoAll(f, acts).k) && forall a :: a in acts ==> a.GoOn?
  {
    var f0 := Fine(k0, None);
    var f := DoAll(f0, past);
    CalmIsWhole(f0, past);
    var es := ChainsEnd(k0, Whole(f0, past));
    acts := Continued(es);
    ContinuedRuns(f.k, es);
  }

  // ---------------------------------------------------------------------------------------------
  // What a disturbing wake_up does
  // ---------------------------------------------------------------------------------------------

  ghost function Start(): Fine {
    Fine(Kernel(map[0 := None, 1 := None], map[1 := Task(true, Outside), 2 := Task(true, Outside)]), None)
  }

  lemma Cons(f: Fine, a: Act, rest: seq<Act>)
    requires Can(f, a) && CanAll(Do(f, a), rest)
    ensures CanAll(f, [a] + rest) && DoAll(f, [a] + rest) == DoAll(Do(f, a), rest)
  {
    hide Can, Do;
    assert ([a] + rest)[1..] == rest;
  }

  /** sleep_on without an interrupt. */
  ghost function Sleeps(f: Fine, t: nat, q: nat): (g: Fine)
    requires Can(f, Save(t, q)) && t in f.k.task
    ensures CanAll(f, [Save(t, q), Link, Doze]) && g == DoAll(f, [Save(t, q), Link, Doze])
  {
    var f1 := Do(f, Save(t, q));
    var f2 := Do(f1, Link);
    Cons(f2, Doze, []);
    Cons(f1, Link, [Doze]);
    Cons(f, Save(t, q), [Link, Doze]);
    Do(f2, Doze)
  }

  /** Between the new head and the new state: the process sleeps, and nobody refers to it. */
  lemma LostSleeper()
    ensures var acts := [Save(1, 0)] + ([Link] + ([Rouse(0)] + ([Doze] + [])));
      CanAll(Start(), acts) && Asleep(DoAll(Start(), acts).k, 1) && forall h :: !Refers(DoAll(Start(), acts).k, h, 1)
  {
    var f1 := Do(Start(), Save(1, 0));
    var f2 := Do(f1, Link);
    var f3 := Do(f2, Rouse(0));
    Cons(f3, Doze, []);
    Cons(f2, Rouse(0), [Doze] + []);
    Cons(f1, Link, [Rouse(0)] + ([Doze] + []));
    Cons(Start(), Save(1, 0), [Link] + ([Rouse(0)] + ([Doze] + [])));
    forall h ensures !Refers(Do(f3, Doze).k, h, 1) {}
  }

  /**
   * Between the saved and the new head: process 2 saves process 1 as it is woken; when 1 sleeps on
   * queue 1 later, waking queue 0 wakes it too.
   */
  lemma StrayWake()
    ensures Can(Start(), Save(1, 0))
    ensures var f := Sleeps(Start(), 1, 0);
      var mid := [Save(2, 0)] + ([Rouse(0)] + ([Link] + ([Doze] + ([GoOn(1)] + []))));
      && CanAll(f, mid) && Can(DoAll(f, mid), Save(1, 1)) && 1 in DoAll(f, mid).k.task
      && var g := Sleeps(DoAll(f, mid), 1, 1);
      && Asleep(g.k, 1) && Waits(g.k, 1, 1)
      && CanAll(g, [Rouse(0)] + ([GoOn(2)] + [])) && !Asleep(DoAll(g, [Rouse(0)] + ([GoOn(2)] + [])).k, 1)
  {
    var f := Sleeps(Start(), 1, 0);
    var f1 := Do(f, Save(2, 0));
    var f2 := Do(f1, Rouse(0));
    var f3 := Do(f2, Link);
    var f4 := Do(f3, Doze);
    Cons(f4, GoOn(1), []);
    Cons(f3, Doze, [GoOn(1)] + []);
    Cons(f2, Link, [Doze] + ([GoOn(1)] + []));
    Cons(f1, Rouse(0), [Link] + ([Doze] + ([GoOn(1)] + [])));
    Cons(f, Save(2, 0), [Rouse(0)] + ([Link] + ([Doze] + ([GoOn(1)] + []))));
    var f5 := Do(f4, GoOn(1));
    var g := Sleeps(f5, 1, 1);
    var g1 := Do(g, Rouse(0));
    Cons(g1, GoOn(2), []);
    Cons(g, Rouse(0), [GoOn(2)] + []);
  }
}
