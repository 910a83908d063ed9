/**
 * The credit scheduler of cpp/linux-0.11/kernel/sched.c: schedule() without its signal check, and the
 * counter part of do_timer. Slot 0 is the idle task.
 */
module Scheduler {

  datatype Slot = Empty | Task(runnable: bool, counter: int, priority: int)

  type Table = seq<Slot>

  /** Credits of every task are between 0 and twice its priority. */
  ghost predicate CreditOk(s: Slot) { s.Task? ==> s.priority >= 1 && 0 <= s.counter < 2 * s.priority }

  ghost predicate Ok(a: Table) { |a| >= 1 && a[0].Task? && forall i :: 0 <= i < |a| ==> CreditOk(a[i]) }

  predicate Ready(a: Table, i: int) { 0 < i < |a| && a[i].Task? && a[i].runnable }

  /** The choice of schedule(): most credit, of those the highest slot; nothing ready means slot 0. */
  ghost predicate Chosen(a: Table, lo: nat, c: int, next: int) {
    if c == -1 then next == 0 && forall i :: lo <= i < |a| ==> !Ready(a, i)
    else
      && Ready(a, next) && lo <= next && a[next].counter == c
      && forall i :: lo <= i < |a| && Ready(a, i) ==> a[i].counter <= c && (i > next ==> a[i].counter < c)
  }

  function Recharged(s: Slot): Slot {
    if s.Task? then s.(counter := s.counter / 2 + s.priority) else s
  }

  function Recharge(a: Table): (r: Table)
    ensures |r| == |a|
  {
    seq(|a|, i requires 0 <= i < |a| => if i == 0 then a[i] else Recharged(a[i]))
  }

  lemma RechargeOk(a: Table)
    requires Ok(a)
    ensures Ok(Recharge(a))
    ensures forall i :: 1 <= i < |a| && a[i].Task? ==> Recharge(a)[i].counter >= 1
    ensures forall i :: Ready(Recharge(a), i) <==> Ready(a, i)
  {}

  /**
   * Leftover credit is carried over: no task loses credit when all are recharged, and all gain but those
   * that have the most they can have. So tasks that sleep are preferred when they wake up.
   */
  lemma CarriedOver(a: Table, i: nat)
    requires Ok(a) && 0 < i < |a| && a[i].Task?
    ensures var s := Recharge(a)[i]; s.Task? && s.runnable == a[i].runnable && s.priority == a[i].priority
    ensures Recharge(a)[i].counter >= a[i].counter
    ensures Recharge(a)[i].counter == a[i].counter <==> a[i].counter == 2 * a[i].priority - 1
    ensures 0 <= a[i].counter - 2 * (Recharge(a)[i].counter - a[i].priority) <= 1
  {
    assert CreditOk(a[i]);
  }

  method PickNext(a: Table) returns (c: int, next: int)
    requires Ok(a)
    ensures Chosen(a, 1, c, next) && c >= -1
  {
    c, next := -1, 0;
    var i := |a|;
    while i > 1
      invariant 1 <= i <= |a| && c >= -1 && Chosen(a, i, c, next)
    {
      i := i - 1;
      if a[i].Task? && a[i].runnable && a[i].counter > c {
        c, next := a[i].counter, i;
      }
    }
  }

  method RechargeAll(a: Table) returns (r: Table)
    requires |a| >= 1
    ensures r == Recharge(a)
  {
    r := a;
    var i := |a| - 1;
    while i > 0
      invariant 0 <= i < |a| && |r| == |a|
      invariant forall j :: 0 <= j <= i ==> r[j] == a[j]
      invariant forall j :: i < j < |a| ==> r[j] == Recharged(a[j])
    {
      if r[i].Task? { r := r[i := r[i].(counter := r[i].counter / 2 + r[i].priority)]; }
      i := i - 1;
    }
  }

  /** Some task that could run has credit, or none could run at all. */
  ghost predicate Settled(a: Table) {
    (exists i :: Ready(a, i) && a[i].counter > 0) || (forall i :: !Ready(a, i))
  }

  /** What one call of schedule() does. */
  ghost predicate Scheduled(a: Table, b: Table, next: int) {
    b == (if Settled(a) then a else Recharge(a)) && exists c :: c != 0 && Chosen(b, 1, c, next)
  }

  /** The loop of schedule(): it ends after at most one round of recharging, done only if nobody has credit. */
  method Schedule(a: Table) returns (b: Table, next: int)
    requires Ok(a)
    ensures Ok(b) && Scheduled(a, b, next)
  {
    b := a;
    var c;
    ghost var rounds := 0;
    while true
      invariant Ok(b) && (rounds == 0 ==> b == a) && (rounds == 1 ==> b == Recharge(a) && !Settled(a))
      invariant rounds <= 1
      decreases 1 - rounds
    {
      c, next := PickNext(b);
      ChoiceSettles(b, c, next);
      if c != 0 { break; }
      RechargeOk(b);
      if rounds == 1 { RechargeOk(a); }
      b := RechargeAll(b);
      rounds := rounds + 1;
    }
    if rounds == 1 { RechargeOk(a); }
    assert Chosen(b, 1, c, next);
  }

  lemma ChoiceSettles(a: Table, c: int, next: int)
    requires Ok(a) && Chosen(a, 1, c, next) && c >= -1
    ensures c != 0 <==> Settled(a)
  {
    if c > 0 { assert Ready(a, next) && a[next].counter > 0; }
  }

  // ---------------------------------------------------------------------------------------------
  // Runs of a fixed set of tasks
  // ---------------------------------------------------------------------------------------------

  datatype Sys = Sys(a: Table, current: int)

  datatype Event =
    | UserTick     // the timer interrupts user mode
    | KernelTick   // the timer interrupts the kernel
    | Block        // the current task stops being runnable and calls schedule()
    | Yield        // the current task calls schedule()
    | MadeReady(i: int)

  ghost predicate SysOk(s: Sys) { Ok(s.a) && 0 <= s.current < |s.a| && s.a[s.current].Task? }

  function Ticked(a: Table, i: int): Table
    requires 0 <= i < |a| && a[i].Task?
  {
    a[i := a[i].(counter := if a[i].counter - 1 > 0 then a[i].counter - 1 else 0)]
  }

  ghost predicate Step(s: Sys, e: Event, s': Sys) {
    SysOk(s) &&
    match e
    case UserTick =>
      var b := Ticked(s.a, s.current);
      if s.a[s.current].counter - 1 > 0 then s' == Sys(b, s.current) else Scheduled(b, s'.a, s'.current)
    case KernelTick => s' == Sys(Ticked(s.a, s.current), s.current)
    case Block => Scheduled(s.a[s.current := s.a[s.current].(runnable := false)], s'.a, s'.current)
    case Yield => Scheduled(s.a, s'.a, s'.current)
    case MadeReady(i) => 0 < i < |s.a| && s.a[i].Task? && s' == Sys(s.a[i := s.a[i].(runnable := true)], s.current)
  }

  lemma ScheduledKeeps(a: Table, b: Table, next: int)
    requires Ok(a) && Scheduled(a, b, next)
    ensures SysOk(Sys(b, next)) && |b| == |a|
    ensures forall i :: Ready(b, i) <==> Ready(a, i)
  {
    RechargeOk(a);
  }

  /** Credits stay in their range, and the current slot is a task. */
  lemma StepKeeps(s: Sys, e: Event, s': Sys)
    requires SysOk(s) && Step(s, e, s')
    ensures SysOk(s') && |s'.a| == |s.a|
  {
    match e
    case UserTick => if s.a[s.current].counter - 1 <= 0 { ScheduledKeeps(Ticked(s.a, s.current), s'.a, s'.current); }
    case KernelTick =>
    case Block => ScheduledKeeps(s.a[s.current := s.a[s.current].(runnable := false)], s'.a, s'.current);
    case Yield => ScheduledKeeps(s.a, s'.a, s'.current);
    case MadeReady(i) =>
  }

  /** The credit of the first n slots, slot t not counted. */
  ghost function Credit(a: Table, t: int, n: nat): int
    requires n <= |a|
  {
    if n == 0 then 0 else Credit(a, t, n - 1) + (if n - 1 != t && a[n - 1].Task? then a[n - 1].counter else 0)
  }

  /** The most credit the other tasks can have. */
  ghost function Most(a: Table, t: int, n: nat): int
    requires n <= |a|
  {
    if n == 0 then 0 else Most(a, t, n - 1) + (if n - 1 != t && a[n - 1].Task? then 2 * a[n - 1].priority - 1 else 0)
  }

  lemma {:induction false} CreditRange(a: Table, t: int, n: nat)
    requires Ok(a) && n <= |a|
    ensures 0 <= Credit(a, t, n) <= Most(a, t, n)
  {
    if n > 0 {
      CreditRange(a, t, n - 1);
      assert CreditOk(a[n - 1]);
    }
  }

  ghost predicate SamePriorities(a: Table, b: Table) {
    |a| == |b| && forall i :: 0 <= i < |a| ==>
      (a[i].Task? <==> b[i].Task?) && (a[i].Task? ==> a[i].priority == b[i].priority)
  }

  lemma {:induction false} MostSame(a: Table, b: Table, t: int, n: nat)
    requires SamePriorities(a, b) && n <= |a|
    ensures Most(a, t, n) == Most(b, t, n)
  {
    if n > 0 { MostSame(a, b, t, n - 1); }
  }

  lemma {:induction false} CreditAt(a: Table, b: Table, t: int, n: nat, k: int)
    requires |a| == |b| && n <= |a| && 0 <= k < |a| && k != t && a[k].Task? && b[k].Task?
    requires forall i :: 0 <= i < |a| && i != k ==> b[i] == a[i]
    ensures Credit(b, t, n) == Credit(a, t, n) + if k < n then b[k].counter - a[k].counter else 0
  {
    if n > 0 { CreditAt(a, b, t, n - 1, k); }
  }

  lemma {:induction false} CreditSame(a: Table, b: Table, t: int, n: nat)
    requires |a| == |b| && n <= |a|
    requires forall i :: 0 <= i < |a| ==> (a[i].Task? <==> b[i].Task?) && (a[i].Task? ==> a[i].counter == b[i].counter)
    ensures Credit(b, t, n) == Credit(a, t, n)
  {
    if n > 0 { CreditSame(a, b, t, n - 1); }
  }

  /**
   * How much the others can still use before task t gets its turn: one more tick if the current task is
   * out of credit.
   */
  ghost function Ahead(s: Sys, t: int): int
    requires SysOk(s)
  {
    Credit(s.a, t, |s.a|) + if s.a[s.current].counter == 0 then 1 else 0
  }

  ghost function Rank(s: Sys, t: int): int
    requires SysOk(s) && Ready(s.a, t)
  {
    if s.a[t].counter > 0 then Ahead(s, t) else Ahead(s, t) + Most(s.a, t, |s.a|) + 1
  }

  /** A call of schedule() that does not choose t. */
  lemma ScheduleRank(a: Table, b: Table, next: int, t: int)
    requires Ok(a) && Scheduled(a, b, next) && Ready(a, t) && next != t
    ensures SysOk(Sys(b, next)) && Ready(b, t) && SamePriorities(a, b)
    ensures b[next].counter > 0
    ensures a[t].counter > 0 ==> b == a
    ensures b == a || (a[t].counter == 0 && b[t].counter > 0)
  {
    ScheduledKeeps(a, b, next);
    RechargeOk(a);
    var c :| c != 0 && Chosen(b, 1, c, next);
    assert CreditOk(a[t]) && Ready(b, t) && CreditOk(b[t]);
  }

  lemma ScheduleLess(s: Sys, a: Table, s': Sys, t: int, spent: nat)
    requires SysOk(s) && Ok(a) && SamePriorities(s.a, a) && Ready(s.a, t) && Ready(a, t)
      && a[t].counter == s.a[t].counter
    requires Scheduled(a, s'.a, s'.current) && s'.current != t
    requires Credit(a, t, |a|) + spent <= Ahead(s, t) && spent <= 1
    ensures SysOk(s') && Ready(s'.a, t) && SamePriorities(s.a, s'.a) && Rank(s', t) + spent <= Rank(s, t)
  {
    ScheduleRank(a, s'.a, s'.current, t);
    CreditRange(a, t, |a|);
    CreditRange(s'.a, t, |a|);
    MostSame(s.a, s'.a, t, |a|);
    MostSame(s.a, a, t, |a|);
    assert CreditOk(a[t]);
  }

  /** While t is ready and not dispatched, every tick in user mode lowers its rank. */
  lemma StepRank(s: Sys, e: Event, s': Sys, t: int)
    requires SysOk(s) && Step(s, e, s') && Ready(s.a, t) && s.current != t && s'.current != t
    ensures SysOk(s') && Ready(s'.a, t) && SamePriorities(s.a, s'.a)
    ensures Rank(s', t) + (if e.UserTick? then 1 else 0) <= Rank(s, t)
  {
    var a, k, n := s.a, s.current, |s.a|;
    assert CreditOk(a[k]);
    match e
    case UserTick =>
      CreditAt(a, Ticked(a, k), t, n, k);
      MostSame(a, Ticked(a, k), t, n);
      if a[k].counter - 1 <= 0 { ScheduleLess(s, Ticked(a, k), s', t, 1); }
    case KernelTick =>
      CreditAt(a, Ticked(a, k), t, n, k);
      MostSame(a, Ticked(a, k), t, n);
    case Block =>
      var b := a[k := a[k].(runnable := false)];
      CreditSame(a, b, t, n);
      ScheduleLess(s, b, s', t, 0);
    case Yield =>
      ScheduleLess(s, a, s', t, 0);
    case MadeReady(i) =>
      CreditSame(a, s'.a, t, n);
      MostSame(a, s'.a, t, n);
  }

  ghost predicate Trace(ss: seq<Sys>, es: seq<Event>) {
    && |ss| == |es| + 1 && SysOk(ss[0])
    && (forall i :: 0 <= i < |es| ==> Step(ss[i], es[i], ss[i + 1]))
  }

  ghost function UserTicks(es: seq<Event>): nat {
    if es == [] then 0 else UserTicks(es[..|es| - 1]) + if es[|es| - 1].UserTick? then 1 else 0
  }

  lemma {:induction false} TraceRank(ss: seq<Sys>, es: seq<Event>, t: int, n: nat)
    requires Trace(ss, es) && Ready(ss[0].a, t) && (forall i :: 0 <= i < |ss| ==> ss[i].current != t) && n <= |es|
    ensures SysOk(ss[n]) && Ready(ss[n].a, t) && SamePriorities(ss[0].a, ss[n].a)
    ensures Rank(ss[n], t) + UserTicks(es[..n]) <= Rank(ss[0], t)
    decreases n
  {
    hide Rank, Step, Ready, SysOk;
    if n > 0 {
      TraceRank(ss, es, t, n - 1);
      assert es[..n][..n - 1] == es[..n - 1];
      assert Step(ss[n - 1], es[n - 1], ss[n - 1 + 1]);
      StepRank(ss[n - 1], es[n - 1], ss[n], t);
    }
  }

  /**
   * A task that stays ready is dispatched within a number of user-mode ticks that depends only on the
   * priorities of the others; half as many, about, if it has credit.
   */
  lemma DispatchBound(ss: seq<Sys>, es: seq<Event>, t: int)
    requires Trace(ss, es) && Ready(ss[0].a, t) && forall i :: 0 <= i < |ss| ==> ss[i].current != t
    ensures var most := Most(ss[0].a, t, |ss[0].a|);
      UserTicks(es) <= if ss[0].a[t].counter > 0 then most + 1 else 2 * most + 2
  {
    TraceRank(ss, es, t, |es|);
    assert es[..|es|] == es;
    CreditRange(ss[0].a, t, |ss[0].a|);
    var last := ss[|es|];
    CreditRange(last.a, t, |last.a|);
    MostSame(ss[0].a, last.a, t, |last.a|);
  }
}