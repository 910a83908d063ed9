/**
 * Reference-counted frames and copy-on-write page tables of cpp/linux-0.11/mm/memory.c, with the
 * memory part of fork (cpp/linux-0.11/kernel/fork.c).
 *
 * A page-table word is the record Pte; addresses appear as frame numbers and as pairs of a
 * directory index and a table index. Directory entries below KERNEL map the kernel (and task 0);
 * all others belong to user tasks, TASK_DIRS of them per task.
 */
module CowPaging {

  const LOW := 256            // LOW_MEM >> 12
  const PAGING := 3840        // PAGING_PAGES
  const DIRS := 1024
  const ENTRIES := 1024
  const TASK_DIRS := 16       // 0x4000000 >> 22
  const KERNEL := 16
  const RESERVED := 100       // USED
  const TASK0_PAGES := 160    // 0xA0: what task 0 passes to its first child
  const PAGE_SIZE := 4096

  datatype Pte = Pte(frame: nat, present: bool, write: bool, dirty: bool)

  const NONE := Pte(0, false, false, false)

  type Slot = (nat, nat)
  type Flat = map<Slot, Pte>

  predicate Counted(p: Pte) { p.present && p.frame >= LOW }

  ghost function Refs(flat: Flat, f: nat): set<Slot> {
    set s | s in flat && flat[s].present && flat[s].frame == f
  }

  // ---------------------------------------------------------------------------------------------
  // The invariant of the counts, on values
  // ---------------------------------------------------------------------------------------------

  /**
   * flat: the user page-table entries; tabs: the frames that hold user page tables;
   * count: mem_map; held: references of the kernel itself (and the reserved frames).
   */
  datatype Core = Core(flat: Flat, tabs: set<nat>, count: seq<nat>, held: multiset<nat>, high: nat)

  ghost predicate Domain(flat: Flat, high: nat) {
    forall s :: s in flat ==>
      KERNEL <= s.0 < DIRS && s.1 < ENTRIES && (flat[s].present ==> flat[s].frame < high)
  }

  /** Both entries are present and refer to the same frame. */
  predicate Both(p: Pte, q: Pte) { p.present && q.present && p.frame == q.frame }

  /** A writable entry has the only reference to its frame, and never points below LOW_MEM. */
  ghost predicate Exclusive(flat: Flat) {
    && (forall s :: s in flat && flat[s].present && flat[s].write ==> flat[s].frame >= LOW)
    && (forall s, t :: s in flat && t in flat && flat[s].write && Both(flat[s], flat[t]) ==> s == t)
  }

  ghost predicate SameOffset(s: Slot, t: Slot) { s.0 % TASK_DIRS == t.0 % TASK_DIRS && s.1 == t.1 }

  /** A frame is mapped at one offset within the space of a process, whichever processes map it. */
  ghost predicate Aligned(flat: Flat) {
    forall s, t :: s in flat && t in flat && Counted(flat[s]) && Both(flat[s], flat[t]) ==> SameOffset(s, t)
  }

  ghost function Users(c: Core, f: nat): nat {
    |Refs(c.flat, f)| + (if f in c.tabs then 1 else 0) + c.held[f]
  }

  ghost predicate CountsOk(c: Core) {
    |c.count| == PAGING &&
    forall f :: LOW <= f < LOW + PAGING ==> c.count[f - LOW] == Users(c, f)
  }

  /** A frame is user memory, a page table or a kernel page, never two of these. */
  ghost predicate OneKind(c: Core) {
    && (forall f :: f in c.tabs ==> LOW <= f < c.high && c.held[f] == 0)
    && (forall s :: s in c.flat && Counted(c.flat[s]) ==> c.flat[s].frame !in c.tabs && c.held[c.flat[s].frame] == 0)
    && (forall f :: c.held[f] <= RESERVED)
    && (forall f :: c.high <= f < LOW + PAGING ==> c.held[f] > 0)
  }

  ghost predicate Inv(c: Core) {
    && LOW <= c.high <= LOW + PAGING && |c.count| == PAGING
    && Domain(c.flat, c.high) && Exclusive(c.flat) && Aligned(c.flat) && CountsOk(c) && OneKind(c)
  }

  /** The number of free frames. */
  ghost function Free(count: seq<nat>): nat {
    if count == [] then 0 else Free(count[..|count| - 1]) + if count[|count| - 1] == 0 then 1 else 0
  }

  lemma {:induction false} FreeUpdate(count: seq<nat>, i: nat, v: nat)
    requires i < |count|
    ensures Free(count[i := v]) == Free(count) - (if count[i] == 0 then 1 else 0) + if v == 0 then 1 else 0
  {
    var n := |count| - 1;
    if i < n {
      FreeUpdate(count[..n], i, v);
      assert count[i := v][..n] == count[..n][i := v];
    } else {
      assert count[i := v][..n] == count[..n];
    }
  }

  lemma {:induction false} FreeNone(count: seq<nat>)
    ensures Free(count) == 0 <==> forall i :: 0 <= i < |count| ==> count[i] != 0
  {
    if count != [] {
      var n := |count| - 1;
      FreeNone(count[..n]);
      assert forall i :: 0 <= i < n ==> count[..n][i] == count[i];
    }
  }

  /** The number of page tables in a range of the directory. */
  ghost function TableCount(dir: seq<Pte>, from: nat, n: nat): nat
    requires from + n <= |dir|
  {
    if n == 0 then 0 else TableCount(dir, from, n - 1) + if dir[from + n - 1].present then 1 else 0
  }

  lemma {:induction false} MoreTables(dir: seq<Pte>, from: nat, k: nat, n: nat)
    requires from + n <= |dir| && k <= n
    ensures TableCount(dir, from, k) <= TableCount(dir, from, n)
    decreases n
  {
    if k < n { MoreTables(dir, from, k, n - 1); }
  }

  // --- how one entry changes the reference sets

  lemma RefsOther(flat: Flat, s: Slot, p: Pte, f: nat)
    requires s in flat
    requires !(flat[s].present && flat[s].frame == f) && !(p.present && p.frame == f)
    ensures Refs(flat[s := p], f) == Refs(flat, f)
  {}

  lemma RefsSame(flat: Flat, s: Slot, p: Pte, f: nat)
    requires s in flat && (flat[s].present && flat[s].frame == f) == (p.present && p.frame == f)
    ensures Refs(flat[s := p], f) == Refs(flat, f)
  {}

  lemma RefsGain(flat: Flat, s: Slot, p: Pte)
    requires s in flat && p.present && !(flat[s].present && flat[s].frame == p.frame)
    ensures Refs(flat[s := p], p.frame) == Refs(flat, p.frame) + {s}
    ensures |Refs(flat[s := p], p.frame)| == |Refs(flat, p.frame)| + 1
  {}

  lemma RefsLose(flat: Flat, s: Slot, p: Pte)
    requires s in flat && flat[s].present && !(p.present && p.frame == flat[s].frame)
    ensures Refs(flat[s := p], flat[s].frame) == Refs(flat, flat[s].frame) - {s}
    ensures |Refs(flat[s := p], flat[s].frame)| == |Refs(flat, flat[s].frame)| - 1
  {
    assert s in Refs(flat, flat[s].frame);
  }

  /** Aligned references come from different tasks, so a count never comes near 256. */
  lemma RefsBound(flat: Flat, high: nat, f: nat)
    requires Domain(flat, high) && Aligned(flat) && f >= LOW
    ensures |Refs(flat, f)| <= DIRS / TASK_DIRS
  {
    var tasks := set s | s in Refs(flat, f) :: s.0 / TASK_DIRS;
    Injected(Refs(flat, f), tasks);
    SmallSet(tasks, DIRS / TASK_DIRS);
  }

  lemma {:induction false} Injected(ss: set<Slot>, tasks: set<nat>)
    requires forall s :: s in ss ==> s.0 / TASK_DIRS in tasks
    requires forall s, t :: s in ss && t in ss ==> SameOffset(s, t)
    ensures |ss| <= |tasks|
    decreases ss
  {
    if ss != {} {
      var s :| s in ss;
      forall t | t in ss - {s} ensures t.0 / TASK_DIRS in tasks - {s.0 / TASK_DIRS} {
        assert SameOffset(s, t);
      }
      Injected(ss - {s}, tasks - {s.0 / TASK_DIRS});
    }
  }

  lemma {:induction false} SmallSet(a: set<nat>, n: nat)
    requires forall x :: x in a ==> x < n
    ensures |a| <= n
    decreases n
  {
    if n > 0 {
      SmallSet(a - {n - 1}, n - 1);
    } else {
      assert a == {};
    }
  }

  lemma CountBound(c: Core, f: nat)
    requires Inv(c) && LOW <= f < LOW + PAGING
    ensures c.count[f - LOW] <= RESERVED
  {
    RefsBound(c.flat, c.high, f);
    assert c.count[f - LOW] == Users(c, f);
    if Refs(c.flat, f) != {} {
      var s :| s in Refs(c.flat, f);
      assert Counted(c.flat[s]);
    } else {
      assert |Refs(c.flat, f)| == 0;
    }
  }

  /** A frame whose count is zero is used by nobody. */
  lemma FreeFrame(c: Core, f: nat)
    requires Inv(c) && LOW <= f < LOW + PAGING && c.count[f - LOW] == 0
    ensures f < c.high && f !in c.tabs && c.held[f] == 0 && Refs(c.flat, f) == {}
    ensures forall s :: s in c.flat && c.flat[s].present ==> c.flat[s].frame != f
  {
    assert Users(c, f) == 0;
    forall s | s in c.flat && c.flat[s].present ensures c.flat[s].frame != f {
      assert s !in Refs(c.flat, f);
    }
  }

  // --- the steps of the kernel, on values

  /** get_free_page: a free frame becomes a kernel page. */
  ghost function Take(c: Core, f: nat): Core
    requires LOW <= f < LOW + |c.count|
  {
    c.(count := c.count[f - LOW := 1], held := c.held[f := 1])
  }

  lemma TakeOk(c: Core, f: nat)
    requires Inv(c) && LOW <= f < LOW + PAGING && c.count[f - LOW] == 0
    ensures Inv(Take(c, f))
  {
    FreeFrame(c, f);
    forall g | LOW <= g < LOW + PAGING ensures Take(c, f).count[g - LOW] == Users(Take(c, f), g) {
      assert c.count[g - LOW] == Users(c, g);
    }
  }

  /** free_page on a kernel page. */
  ghost function Release(c: Core, f: nat): Core
    requires LOW <= f < LOW + |c.count|
  {
    c.(count := c.count[f - LOW := 0], held := c.held[f := 0])
  }

  lemma ReleaseOk(c: Core, f: nat)
    requires Inv(c) && LOW <= f < c.high && c.held[f] == 1
    ensures c.count[f - LOW] == 1 && Inv(Release(c, f))
  {
    HeldAlone(c, f);
    forall g | LOW <= g < LOW + PAGING ensures Release(c, f).count[g - LOW] == Users(Release(c, f), g) {
      assert c.count[g - LOW] == Users(c, g);
    }
  }

  lemma HeldAlone(c: Core, f: nat)
    requires Inv(c) && LOW <= f < LOW + PAGING && c.held[f] > 0
    ensures Refs(c.flat, f) == {} && f !in c.tabs && c.count[f - LOW] == c.held[f]
    ensures forall s :: s in c.flat && c.flat[s].present ==> c.flat[s].frame != f
  {
    forall s | s in c.flat && c.flat[s].present ensures c.flat[s].frame != f {
      if c.flat[s].frame >= LOW { assert Counted(c.flat[s]); }
    }
    assert Refs(c.flat, f) == {};
    assert c.count[f - LOW] == Users(c, f);
  }

  /** A kernel page becomes the page table of a directory entry that was empty. */
  ghost function Tabulate(c: Core, f: nat): Core { c.(tabs := c.tabs + {f}, held := c.held[f := 0]) }

  lemma TabulateOk(c: Core, f: nat)
    requires Inv(c) && LOW <= f < c.high && c.held[f] == 1
    ensures Inv(Tabulate(c, f))
  {
    HeldAlone(c, f);
    forall g | LOW <= g < LOW + PAGING ensures c.count[g - LOW] == Users(Tabulate(c, f), g) {
      assert c.count[g - LOW] == Users(c, g);
    }
  }

  /** A page table is given back. */
  ghost function Untabulate(c: Core, f: nat): Core
    requires LOW <= f < LOW + |c.count|
  {
    c.(tabs := c.tabs - {f}, count := c.count[f - LOW := 0])
  }

  lemma UntabulateOk(c: Core, f: nat)
    requires Inv(c) && f in c.tabs
    ensures c.count[f - LOW] == 1 && Inv(Untabulate(c, f))
  {
    forall s | s in c.flat && c.flat[s].present ensures c.flat[s].frame != f {
      if c.flat[s].frame >= LOW { assert Counted(c.flat[s]); }
    }
    assert Refs(c.flat, f) == {};
    assert c.count[f - LOW] == Users(c, f);
    forall g | LOW <= g < LOW + PAGING ensures Untabulate(c, f).count[g - LOW] == Users(Untabulate(c, f), g) {
      assert c.count[g - LOW] == Users(c, g);
    }
  }

  /** An entry that does not refer to a counted frame, before or after, can be anything read-only. */
  ghost predicate Uncounted(p: Pte) { !Counted(p) && (p.present ==> !p.write) }

  lemma QuietOk(c: Core, s: Slot, p: Pte)
    requires Inv(c) && s in c.flat && Uncounted(c.flat[s]) && Uncounted(p)
    ensures Inv(c.(flat := c.flat[s := p]))
  {
    var c' := c.(flat := c.flat[s := p]);
    forall g | LOW <= g < LOW + PAGING ensures c'.count[g - LOW] == Users(c', g) {
      RefsOther(c.flat, s, p, g);
      assert c.count[g - LOW] == Users(c, g);
    }
  }

  /** put_page: a kernel page becomes user memory at s, writable. */
  ghost function Enter(c: Core, s: Slot, f: nat): Core {
    c.(flat := c.flat[s := Pte(f, true, true, false)], held := c.held[f := 0])
  }

  lemma EnterOk(c: Core, s: Slot, f: nat)
    requires Inv(c) && s in c.flat && Uncounted(c.flat[s]) && LOW <= f < c.high && c.held[f] == 1
    ensures Inv(Enter(c, s, f))
  {
    HeldAlone(c, f);
    var c' := Enter(c, s, f);
    RefsGain(c.flat, s, Pte(f, true, true, false));
    forall g | LOW <= g < LOW + PAGING ensures c'.count[g - LOW] == Users(c', g) {
      if g != f { RefsOther(c.flat, s, Pte(f, true, true, false), g); }
      assert c.count[g - LOW] == Users(c, g);
    }
  }

  /** One entry is cleared and its frame loses a reference. */
  ghost function Drop(c: Core, s: Slot): Core
    requires s in c.flat && LOW <= c.flat[s].frame < LOW + |c.count| && c.count[c.flat[s].frame - LOW] > 0
  {
    var i := c.flat[s].frame - LOW;
    c.(flat := c.flat[s := NONE], count := c.count[i := c.count[i] - 1])
  }

  lemma RefCounted(c: Core, s: Slot)
    requires Inv(c) && s in c.flat && Counted(c.flat[s])
    ensures LOW <= c.flat[s].frame < c.high && c.count[c.flat[s].frame - LOW] == |Refs(c.flat, c.flat[s].frame)| > 0
  {
    assert s in Refs(c.flat, c.flat[s].frame);
    assert c.count[c.flat[s].frame - LOW] == Users(c, c.flat[s].frame);
  }

  lemma DropOk(c: Core, s: Slot)
    requires Inv(c) && s in c.flat && Counted(c.flat[s])
    ensures LOW <= c.flat[s].frame < c.high && c.count[c.flat[s].frame - LOW] > 0 && Inv(Drop(c, s))
  {
    RefCounted(c, s);
    var c', f := Drop(c, s), c.flat[s].frame;
    RefsLose(c.flat, s, NONE);
    forall g | LOW <= g < LOW + PAGING ensures c'.count[g - LOW] == Users(c', g) {
      if g != f { RefsOther(c.flat, s, NONE, g); }
      assert c.count[g - LOW] == Users(c, g);
    }
  }

  /** Entry t becomes a second, read-only reference to the frame of s, which is write-protected too. */
  ghost function Share(c: Core, s: Slot, t: Slot): Core
    requires s in c.flat && LOW <= c.flat[s].frame < LOW + |c.count|
  {
    var p := c.flat[s].(write := false);
    var i := p.frame - LOW;
    c.(flat := c.flat[s := p][t := p], count := c.count[i := (c.count[i] + 1) % 256])
  }

  /** An entry may lose its write bit and change its dirty bit freely. */
  lemma WeakenOk(c: Core, s: Slot, p: Pte)
    requires Inv(c) && s in c.flat && p.frame == c.flat[s].frame && p.present == c.flat[s].present
    requires p.write ==> c.flat[s].write
    ensures Inv(c.(flat := c.flat[s := p]))
  {
    var c' := c.(flat := c.flat[s := p]);
    WeakenFlat(c.flat, c.high, s, p);
    hide Exclusive, Aligned, Domain;
    forall g | LOW <= g < LOW + PAGING ensures c'.count[g - LOW] == Users(c', g) {
      RefsSame(c.flat, s, p, g);
      assert c.count[g - LOW] == Users(c, g);
    }
  }

  lemma WeakenFlat(flat: Flat, high: nat, s: Slot, p: Pte)
    requires Domain(flat, high) && Exclusive(flat) && Aligned(flat)
    requires s in flat && p.frame == flat[s].frame && p.present == flat[s].present && (p.write ==> flat[s].write)
    ensures var flat' := flat[s := p]; Domain(flat', high) && Exclusive(flat') && Aligned(flat')
  {
    var flat' := flat[s := p];
    forall u, w | u in flat' && w in flat' && Counted(flat'[u]) && Both(flat'[u], flat'[w]) ensures SameOffset(u, w) {
      assert Counted(flat[u]) && Both(flat[u], flat[w]);
    }
    forall u, w | u in flat' && w in flat' && flat'[u].write && Both(flat'[u], flat'[w]) ensures u == w {
      assert flat[u].write && Both(flat[u], flat[w]);
    }
  }

  lemma GainFlat(flat: Flat, high: nat, s: Slot, t: Slot)
    requires Domain(flat, high) && Exclusive(flat) && Aligned(flat)
    requires s in flat && t in flat && Counted(flat[s]) && !flat[s].write && Uncounted(flat[t]) && SameOffset(s, t)
    ensures var flat' := flat[t := flat[s]]; Domain(flat', high) && Exclusive(flat') && Aligned(flat')
  {
    var flat' := flat[t := flat[s]];
    forall u, w | u in flat' && w in flat' && Counted(flat'[u]) && Both(flat'[u], flat'[w])
      ensures SameOffset(u, w)
    {
      var u1, w1 := if u == t then s else u, if w == t then s else w;
      assert SameOffset(u1, w1);
    }
  }

  /** A further read-only reference to a frame that s already maps read-only. */
  lemma GainOk(c: Core, s: Slot, t: Slot)
    requires Inv(c) && s in c.flat && t in c.flat && Counted(c.flat[s]) && !c.flat[s].write && Uncounted(c.flat[t])
    requires SameOffset(s, t)
    ensures var i := c.flat[s].frame - LOW;
      && i < PAGING && c.count[i] < 255
      && Inv(c.(flat := c.flat[t := c.flat[s]], count := c.count[i := c.count[i] + 1]))
  {
    hide Exclusive, Aligned, Refs, Domain;
    RefCounted(c, s);
    var p := c.flat[s];
    CountBound(c, p.frame);
    GainFlat(c.flat, c.high, s, t);
    var c' := c.(flat := c.flat[t := p], count := c.count[p.frame - LOW := c.count[p.frame - LOW] + 1]);
    RefsGain(c.flat, t, p);
    forall g | LOW <= g < LOW + PAGING ensures c'.count[g - LOW] == Users(c', g) {
      if g != p.frame { RefsOther(c.flat, t, p, g); }
      assert c.count[g - LOW] == Users(c, g);
    }
  }

  lemma ShareOk(c: Core, s: Slot, t: Slot)
    requires Inv(c) && s in c.flat && t in c.flat && s != t && Counted(c.flat[s]) && Uncounted(c.flat[t])
    requires SameOffset(s, t)
    ensures LOW <= c.flat[s].frame < c.high && Inv(Share(c, s, t))
    ensures Share(c, s, t).count[c.flat[s].frame - LOW] == c.count[c.flat[s].frame - LOW] + 1
  {
    hide Inv;
    InvBounds(c, s);
    WeakenOk(c, s, c.flat[s].(write := false));
    GainOk(c.(flat := c.flat[s := c.flat[s].(write := false)]), s, t);
  }

  /** Sharing a mapped frame takes no free one. */
  lemma ShareFree(c: Core, s: Slot)
    requires Inv(c) && s in c.flat && Counted(c.flat[s])
    ensures var i := c.flat[s].frame - LOW; i < |c.count| && Free(c.count[i := (c.count[i] + 1) % 256]) == Free(c.count)
  {
    hide Free;
    RefCounted(c, s);
    CountBound(c, c.flat[s].frame);
    var i := c.flat[s].frame - LOW;
    FreeUpdate(c.count, i, (c.count[i] + 1) % 256);
  }

  /** Dropping a page with other users frees nothing. */
  lemma DropFree(c: Core, s: Slot)
    requires Inv(c) && s in c.flat && Counted(c.flat[s]) && Shared(c.flat[s], c.count)
    ensures var i := c.flat[s].frame - LOW;
      i < |c.count| && c.count[i] > 1 && Free(c.count[i := c.count[i] - 1]) == Free(c.count)
  {
    hide Free;
    RefCounted(c, s);
    var i := c.flat[s].frame - LOW;
    FreeUpdate(c.count, i, c.count[i] - 1);
  }

  /** The copying half of un_wp_page: the entry leaves its frame for a kernel page. */
  ghost function Move(c: Core, s: Slot, f: nat): Core
    requires s in c.flat && Counted(c.flat[s]) ==>
      c.flat[s].frame < LOW + |c.count| && c.count[c.flat[s].frame - LOW] > 0
  {
    Enter(if s in c.flat && Counted(c.flat[s]) then Drop(c, s) else c, s, f)
  }

  lemma MoveOk(c: Core, s: Slot, f: nat)
    requires Inv(c) && s in c.flat && c.flat[s].present && Shared(c.flat[s], c.count) && LOW <= f < c.high
      && c.held[f] == 1
    ensures Counted(c.flat[s]) ==> c.flat[s].frame < LOW + |c.count| && c.count[c.flat[s].frame - LOW] > 0
    ensures Inv(Move(c, s, f)) && Free(Move(c, s, f).count) == Free(c.count)
  {
    hide Domain, Aligned, OneKind, CountsOk, Free;
    if Counted(c.flat[s]) {
      DropFree(c, s);
      DropOk(c, s);
      EnterOk(Drop(c, s), s, f);
    } else {
      EnterOk(c, s, f);
    }
  }

  // --- where the frames are

  /** The frames that user entries refer to. */
  ghost function Mapped(flat: Flat): set<nat> { set s | s in flat && Counted(flat[s]) :: flat[s].frame }

  /** The first n frames from LOW_MEM on. */
  ghost function FrameRange(n: nat): (r: set<nat>)
    ensures forall f :: f in r <==> LOW <= f < LOW + n
  {
    if n == 0 then {} else FrameRange(n - 1) + {LOW + n - 1}
  }

  ghost function Kept(held: multiset<nat>): set<nat> { set f | f in FrameRange(PAGING) && held[f] > 0 }

  ghost function FreeFrames(count: seq<nat>): set<nat> { set f | f in FrameRange(|count|) && count[f - LOW] == 0 }

  lemma {:induction false} FreeCount(count: seq<nat>)
    ensures |FreeFrames(count)| == Free(count)
  {
    hide FrameRange;
    if count == [] {
      assert FreeFrames(count) == {};
    } else {
      var n := |count| - 1;
      FreeCount(count[..n]);
      var last := if count[n] == 0 then {LOW + n} else {};
      assert FreeFrames(count) == FreeFrames(count[..n]) + last;
    }
  }

  lemma {:induction false} RangeCount(n: nat)
    ensures |FrameRange(n)| == n
  {
    if n > 0 { RangeCount(n - 1); }
  }

  /** Every frame is free, a page table, user memory or held by the kernel, and only one of these. */
  lemma Conserved(c: Core)
    requires Inv(c)
    ensures Free(c.count) + |c.tabs| + |Mapped(c.flat)| + |Kept(c.held)| == PAGING
  {
    hide Free, FrameRange;
    FreeCount(c.count);
    RangeCount(PAGING);
    FrameSplit(c);
    var used := c.tabs + Mapped(c.flat) + Kept(c.held);
    assert |used| == |c.tabs| + |Mapped(c.flat)| + |Kept(c.held)|;
    assert |FreeFrames(c.count) + used| == |FreeFrames(c.count)| + |used|;
  }

  lemma FrameSplit(c: Core)
    requires Inv(c)
    ensures FreeFrames(c.count) + (c.tabs + Mapped(c.flat) + Kept(c.held)) == FrameRange(PAGING)
    ensures c.tabs !! Mapped(c.flat) && c.tabs !! Kept(c.held) && Mapped(c.flat) !! Kept(c.held)
    ensures FreeFrames(c.count) !! c.tabs + Mapped(c.flat) + Kept(c.held)
  {
    hide Aligned, Exclusive, FrameRange;
    forall f: nat | LOW <= f < LOW + PAGING
      ensures f in FreeFrames(c.count) <==> f !in c.tabs && f !in Mapped(c.flat) && f !in Kept(c.held)
    {
      assert c.count[f - LOW] == Users(c, f);
      if f in FreeFrames(c.count) { FreeFrame(c, f); }
      if f !in Mapped(c.flat) {
        assert Refs(c.flat, f) == {} by { NotMapped(c.flat, f); }
      }
    }
  }

  lemma NotMapped(flat: Flat, f: nat)
    requires f >= LOW && f !in Mapped(flat)
    ensures Refs(flat, f) == {}
  {
    if s :| s in Refs(flat, f) {
      assert Counted(flat[s]);
      assert false;
    }
  }

  /** un_wp_page has to copy: the frame is low memory, or has other users. */
  predicate Shared(p: Pte, count: seq<nat>) { !(LOW <= p.frame < LOW + |count| && count[p.frame - LOW] == 1) }

  lemma InvBounds(c: Core, s: Slot)
    requires Inv(c) && s in c.flat && Counted(c.flat[s])
    ensures |c.count| == PAGING && LOW <= c.flat[s].frame < c.high <= LOW + PAGING
  {}

  /** un_wp_page on a frame with one reference: the entry becomes writable. */
  lemma UnprotectOk(c: Core, s: Slot)
    requires Inv(c) && s in c.flat && Counted(c.flat[s]) && c.count[c.flat[s].frame - LOW] == 1
    ensures Inv(c.(flat := c.flat[s := c.flat[s].(write := true)]))
  {
    RefCounted(c, s);
    var p := c.flat[s].(write := true);
    var c' := c.(flat := c.flat[s := p]);
    assert Refs(c.flat, p.frame) == {s} by { Single(Refs(c.flat, p.frame), s); }
    forall t | t in c'.flat && c'.flat[t].present && c'.flat[t].frame == p.frame ensures t == s {
      assert t in Refs(c.flat, p.frame);
    }
    forall g | LOW <= g < LOW + PAGING ensures c'.count[g - LOW] == Users(c', g) {
      RefsSame(c.flat, s, p, g);
      assert c.count[g - LOW] == Users(c, g);
    }
  }

  lemma Single<T>(a: set<T>, x: T)
    requires x in a && |a| == 1
    ensures a == {x}
  {
    assert |a - {x}| == 0;
  }

  // ---------------------------------------------------------------------------------------------
  // Directories and tables
  // ---------------------------------------------------------------------------------------------

  type Tables = map<nat, seq<Pte>>

  /** Every present directory entry has a table of its own; user tables lie above LOW_MEM. */
  ghost predicate TablesOk(dir: seq<Pte>, tables: Tables) {
    && |dir| == DIRS
    && (forall i :: 0 <= i < DIRS && dir[i].present ==> dir[i].frame in tables && |tables[dir[i].frame]| == ENTRIES)
    && (forall i, k :: 0 <= i < k < DIRS && dir[i].present && dir[k].present ==> dir[i].frame != dir[k].frame)
    && (forall i :: 0 <= i < DIRS && dir[i].present ==> (i < KERNEL <==> dir[i].frame < LOW))
  }

  ghost function EntryAt(dir: seq<Pte>, tables: Tables, i: nat, j: nat): Pte
    requires TablesOk(dir, tables) && i < DIRS && j < ENTRIES
  {
    if dir[i].present then tables[dir[i].frame][j] else NONE
  }

  /** The user slots. */
  ghost function Slots(): (r: set<Slot>)
    ensures forall s :: s in r <==> KERNEL <= s.0 < DIRS && s.1 < ENTRIES
  {
    set i: nat, j: nat | KERNEL <= i < DIRS && j < ENTRIES :: (i, j)
  }

  ghost function FlatOf(dir: seq<Pte>, tables: Tables): Flat
    requires TablesOk(dir, tables)
  {
    map s | s in Slots() :: EntryAt(dir, tables, s.0, s.1)
  }

  ghost function TabsOf(dir: seq<Pte>): set<nat>
    requires |dir| == DIRS
  {
    set i | KERNEL <= i < DIRS && dir[i].present :: dir[i].frame
  }

  function ZeroTable(): (table: seq<Pte>)
    ensures |table| == ENTRIES && forall k :: 0 <= k < ENTRIES ==> table[k] == NONE
  {
    seq(ENTRIES, k => NONE)
  }

  function ZeroPage(): (page: seq<int>)
    ensures |page| == PAGE_SIZE && forall k :: 0 <= k < PAGE_SIZE ==> page[k] == 0
  {
    seq(PAGE_SIZE, k => 0)
  }

  ghost function SetEntry(dir: seq<Pte>, tables: Tables, i: nat, j: nat, p: Pte): Tables
    requires TablesOk(dir, tables) && i < DIRS && j < ENTRIES && dir[i].present
  {
    tables[dir[i].frame := tables[dir[i].frame][j := p]]
  }

  lemma SetEntryFlat(dir: seq<Pte>, tables: Tables, i: nat, j: nat, p: Pte)
    requires TablesOk(dir, tables) && KERNEL <= i < DIRS && j < ENTRIES && dir[i].present
    ensures var tables' := SetEntry(dir, tables, i, j, p);
      && TablesOk(dir, tables') && (i, j) in FlatOf(dir, tables)
      && FlatOf(dir, tables') == FlatOf(dir, tables)[(i, j) := p]
      && forall k :: 0 <= k < KERNEL && dir[k].present ==> tables'[dir[k].frame] == tables[dir[k].frame]
  {}

  lemma AddTableFlat(dir: seq<Pte>, tables: Tables, i: nat, f: nat)
    requires TablesOk(dir, tables) && KERNEL <= i < DIRS && !dir[i].present
    requires f >= LOW && f !in TabsOf(dir) && f in tables && tables[f] == ZeroTable()
    ensures var dir' := dir[i := Pte(f, true, true, false)];
      TablesOk(dir', tables) && FlatOf(dir', tables) == FlatOf(dir, tables) && TabsOf(dir') == TabsOf(dir) + {f}
  {
    var dir' := dir[i := Pte(f, true, true, false)];
    forall k | KERNEL <= k < DIRS && dir[k].present ensures dir[k].frame != f { assert dir[k].frame in TabsOf(dir); }
    assert forall k :: KERNEL <= k < DIRS && k != i ==> dir'[k] == dir[k];
    assert f in TabsOf(dir') by { assert dir'[i].present; }
    forall g | g in TabsOf(dir) ensures g in TabsOf(dir') {
      var k :| KERNEL <= k < DIRS && dir[k].present && dir[k].frame == g;
      assert dir'[k].frame == g;
    }
  }

  lemma DropTableFlat(dir: seq<Pte>, tables: Tables, i: nat)
    requires TablesOk(dir, tables) && KERNEL <= i < DIRS && dir[i].present
    requires forall j :: 0 <= j < ENTRIES ==> tables[dir[i].frame][j] == NONE
    ensures var dir' := dir[i := NONE];
      && TablesOk(dir', tables) && FlatOf(dir', tables) == FlatOf(dir, tables)
      && TabsOf(dir') == TabsOf(dir) - {dir[i].frame} && dir[i].frame in TabsOf(dir)
  {
    TabsLess(dir, tables, i);
  }

  lemma TabsLess(dir: seq<Pte>, tables: Tables, i: nat)
    requires TablesOk(dir, tables) && KERNEL <= i < DIRS && dir[i].present
    ensures dir[i].frame in TabsOf(dir) && TabsOf(dir[i := NONE]) == TabsOf(dir) - {dir[i].frame}
  {
    var dir' := dir[i := NONE];
    forall g | g in TabsOf(dir) && g != dir[i].frame ensures g in TabsOf(dir') {
      var k :| KERNEL <= k < DIRS && dir[k].present && dir[k].frame == g;
      assert dir'[k].frame == g;
    }
    forall g | g in TabsOf(dir') ensures g in TabsOf(dir) && g != dir[i].frame {
      var k :| KERNEL <= k < DIRS && dir'[k].present && dir'[k].frame == g;
      assert dir[k].frame == g && k != i;
    }
  }

  lemma ZeroTableFlat(dir: seq<Pte>, tables: Tables, f: nat)
    requires TablesOk(dir, tables) && f >= LOW && f !in TabsOf(dir)
    ensures var tables' := tables[f := ZeroTable()];
      && TablesOk(dir, tables') && FlatOf(dir, tables') == FlatOf(dir, tables)
      && forall k :: 0 <= k < KERNEL && dir[k].present ==> tables'[dir[k].frame] == tables[dir[k].frame]
  {
    forall k | 0 <= k < DIRS && dir[k].present ensures dir[k].frame != f {
      if k >= KERNEL { assert dir[k].frame in TabsOf(dir); }
    }
  }

  // ---------------------------------------------------------------------------------------------
  // What processes see
  // ---------------------------------------------------------------------------------------------

  type View = map<Slot, seq<int>>

  ghost function ViewOf(flat: Flat, pages: seq<seq<int>>): View
    requires forall s :: s in flat && Counted(flat[s]) ==> flat[s].frame < |pages|
  {
    map s | s in flat && Counted(flat[s]) :: pages[flat[s].frame]
  }

  ghost predicate FromChild(v: View, from: nat, to: nat, n: nat, s: Slot) {
    to <= s.0 < to + n && (s.0 - to + from, s.1) in v
  }

  /** The slots of v and those that slots of the range [from, from + n) are copied to. */
  ghost function ForkKeys(v: View, from: nat, to: nat, n: nat): set<Slot> {
    v.Keys + set t | t in v && from <= t.0 < from + n :: (t.0 - from + to, t.1)
  }

  lemma ForkKey(v: View, from: nat, to: nat, n: nat, s: Slot)
    ensures s in ForkKeys(v, from, to, n) <==> s in v || FromChild(v, from, to, n, s)
  {
    if FromChild(v, from, to, n, s) {
      var t: Slot := (s.0 - to + from, s.1);
      assert s == (t.0 - from + to, t.1);
    }
  }

  /** fork, had it copied every page at once. */
  ghost function EagerFork(v: View, from: nat, to: nat, n: nat): View {
    map s: Slot | s in ForkKeys(v, from, to, n) ::
      if FromChild(v, from, to, n, s) then v[(s.0 - to + from, s.1)] else if s in v then v[s] else []
  }

  ghost function EagerExit(v: View, from: nat, n: nat): View {
    map t | t in v && !(from <= t.0 < from + n) :: v[t]
  }

  /** The entries of n directory slots, cleared. */
  ghost function Vacated(flat: Flat, from: nat, n: nat): Flat {
    map s | s in flat :: if from <= s.0 < from + n then NONE else flat[s]
  }

  ghost function VacatedRow(flat: Flat, i: nat, j: nat): Flat {
    map s | s in flat :: if s.0 == i && s.1 < j then NONE else flat[s]
  }

  ghost predicate FullDomain(flat: Flat) {
    forall i: nat, j: nat :: (i, j) in flat <==> KERNEL <= i < DIRS && j < ENTRIES
  }

  lemma FlatEntries(dir: seq<Pte>, tables: Tables)
    requires TablesOk(dir, tables)
    ensures FullDomain(FlatOf(dir, tables))
    ensures forall i: nat, j: nat :: KERNEL <= i < DIRS && j < ENTRIES ==>
      FlatOf(dir, tables)[(i, j)] == EntryAt(dir, tables, i, j)
  {}

  lemma VacatedSteps(flat: Flat, i: nat, j: nat)
    requires FullDomain(flat) && KERNEL <= i < DIRS
    ensures VacatedRow(flat, i, 0) == flat && FullDomain(VacatedRow(flat, i, j)) && FullDomain(Vacated(flat, i, 1))
    ensures j < ENTRIES ==> VacatedRow(flat, i, j)[(i, j) := NONE] == VacatedRow(flat, i, j + 1)
    ensures VacatedRow(flat, i, ENTRIES) == Vacated(flat, i, 1)
    ensures forall k :: 0 <= k < ENTRIES ==> VacatedRow(flat, i, ENTRIES)[(i, k)] == NONE
  {
    if j < ENTRIES { assert VacatedRow(flat, i, j)[(i, j) := NONE].Keys == VacatedRow(flat, i, j + 1).Keys; }
  }

  lemma VacatedRows(flat: Flat, from: nat, k: nat)
    ensures Vacated(flat, from, 0) == flat
    ensures Vacated(Vacated(flat, from, k), from + k, 1) == Vacated(flat, from, k + 1)
    ensures (forall s :: s in flat && s.0 == from + k ==> flat[s] == NONE) ==>
      Vacated(flat, from, k + 1) == Vacated(flat, from, k)
  {}

  lemma VacatedView(flat: Flat, pages: seq<seq<int>>, from: nat, n: nat)
    requires forall s :: s in flat && Counted(flat[s]) ==> flat[s].frame < |pages|
    ensures ViewOf(Vacated(flat, from, n), pages) == EagerExit(ViewOf(flat, pages), from, n)
  {}

  lemma EmptyRow(dir: seq<Pte>, tables: Tables, i: nat)
    requires TablesOk(dir, tables) && KERNEL <= i < DIRS && !dir[i].present
    ensures forall s :: s in FlatOf(dir, tables) && s.0 == i ==> FlatOf(dir, tables)[s] == NONE
  {}

  lemma ViewBound(c: Core, pages: seq<seq<int>>)
    requires Inv(c) && |pages| == LOW + PAGING
    ensures forall s :: s in c.flat && Counted(c.flat[s]) ==> c.flat[s].frame < |pages|
  {}

  // --- copying the tables of a task

  function Bare(p: Pte): Pte { p.(write := false) }

  /** What the child's entry becomes: absent entries are skipped, present ones lose the write bit. */
  function Gift(p: Pte): Pte { if p.present then Bare(p) else NONE }

  /** The entries before the copy, and after it, the write bits left aside. */
  ghost function Start(dir: seq<Pte>, tables: Tables): Flat
    requires TablesOk(dir, tables)
  {
    map s | s in FlatOf(dir, tables) :: Bare(FlatOf(dir, tables)[s])
  }

  ghost function Finish(dir: seq<Pte>, tables: Tables, from: nat, to: nat, n: nat): Flat
    requires TablesOk(dir, tables) && from + n <= DIRS && to + n <= DIRS
  {
    map s | s in FlatOf(dir, tables) ::
      if !(to <= s.0 < to + n && s.1 < ENTRIES) then Bare(FlatOf(dir, tables)[s])
      else if from == 0 && s.1 >= TASK0_PAGES then NONE
      else Gift(EntryAt(dir, tables, s.0 - to + from, s.1))
  }

  /** The slots before (i, j) are as in the map F, the others as in S. */
  ghost predicate Copied(flat: Flat, S: Flat, F: Flat, i: nat, j: nat) {
    && flat.Keys == S.Keys == F.Keys
    && forall s :: s in flat ==> Bare(flat[s]) == if s.0 < i || (s.0 == i && s.1 < j) then F[s] else S[s]
  }

  lemma CopiedNext(flat: Flat, flat': Flat, S: Flat, F: Flat, src: Slot, i: nat, j: nat, p: Pte)
    requires Copied(flat, S, F, i, j) && (i, j) in flat && src != (i, j) && F[(i, j)] == Gift(p) && S[(i, j)] == NONE
    requires if !p.present then flat' == flat
             else (flat' == flat[(i, j) := Bare(p)] ||
                   (src in flat && p == flat[src] && flat' == flat[src := Bare(p)][(i, j) := Bare(p)]))
    ensures Copied(flat', S, F, i, j + 1)
  {}

  /** Only entries of the directory entries fi to fi + n - 1 and ti to ti + n - 1 differ. */
  ghost predicate OnlyRows(flat: Flat, flat': Flat, fi: nat, ti: nat, n: nat) {
    && flat'.Keys == flat.Keys
    && forall s :: s in flat && !(fi <= s.0 < fi + n) && !(ti <= s.0 < ti + n) ==> flat'[s] == flat[s]
  }

  lemma OnlyRowsSelf(flat: Flat, fi: nat, ti: nat, n: nat)
    ensures OnlyRows(flat, flat, fi, ti, n)
  {}

  lemma OnlyRowsMore(f: Flat, f': Flat, f'': Flat, fi: nat, ti: nat, n: nat, gi: nat, ui: nat, m: nat)
    requires OnlyRows(f, f', fi, ti, n) && OnlyRows(f', f'', gi, ui, m)
    requires fi <= gi && gi + m <= fi + n && ti <= ui && ui + m <= ti + n
    ensures OnlyRows(f, f'', fi, ti, n)
  {}

  lemma RowsNext(flat: Flat, flat': Flat, fi: nat, ti: nat, j: nat, p: Pte)
    requires (ti, j) in flat
    requires flat' == flat || flat' == flat[(ti, j) := Bare(p)] ||
             ((fi, j) in flat && flat' == flat[(fi, j) := Bare(p)][(ti, j) := Bare(p)])
    ensures OnlyRows(flat, flat', fi, ti, 1)
  {}

  lemma CopiedRow(flat: Flat, S: Flat, F: Flat, i: nat, j: nat)
    requires Copied(flat, S, F, i, j)
    requires forall s :: s in S && s in F && s.0 == i && s.1 >= j ==> F[s] == S[s]
    ensures Copied(flat, S, F, i + 1, 0)
  {}

  lemma FlatAt(dir: seq<Pte>, tables: Tables, s: Slot)
    requires TablesOk(dir, tables)
    ensures s in FlatOf(dir, tables) <==> KERNEL <= s.0 < DIRS && s.1 < ENTRIES
    ensures s in FlatOf(dir, tables) ==> FlatOf(dir, tables)[s] == EntryAt(dir, tables, s.0, s.1)
  {}

  lemma StartAt(dir: seq<Pte>, tables: Tables, s: Slot)
    requires TablesOk(dir, tables)
    ensures s in Start(dir, tables) <==> s in FlatOf(dir, tables)
    ensures s in Start(dir, tables) ==> Start(dir, tables)[s] == Bare(FlatOf(dir, tables)[s])
  {
    hide TablesOk, FlatOf;
  }

  lemma FinishAt(dir: seq<Pte>, tables: Tables, from: nat, to: nat, n: nat, s: Slot)
    requires TablesOk(dir, tables) && from + n <= DIRS && to + n <= DIRS
    ensures s in Finish(dir, tables, from, to, n) <==> s in FlatOf(dir, tables)
    ensures s in FlatOf(dir, tables) && !(to <= s.0 < to + n && s.1 < ENTRIES) ==>
      Finish(dir, tables, from, to, n)[s] == Bare(FlatOf(dir, tables)[s])
    ensures s in FlatOf(dir, tables) && to <= s.0 < to + n && s.1 < ENTRIES ==>
      Finish(dir, tables, from, to, n)[s] == if from == 0 && s.1 >= TASK0_PAGES then NONE
        else Gift(EntryAt(dir, tables, s.0 - to + from, s.1))
  {
    hide TablesOk, FlatOf, EntryAt;
  }

  lemma RowEntry(dir: seq<Pte>, tables: Tables, from: nat, to: nat, n: nat, k: nat, j: nat)
    requires TablesOk(dir, tables) && from + n <= DIRS && KERNEL <= to && to + n <= DIRS && k < n
      && !dir[to + k].present
    requires j < (if from == 0 then TASK0_PAGES else ENTRIES)
    ensures var S, F, s := Start(dir, tables), Finish(dir, tables, from, to, n), (to + k, j);
      s in S && s in F && S[s] == NONE && F[s] == Gift(EntryAt(dir, tables, from + k, j))
  {
    hide TablesOk, FlatOf, Start, Finish;
    FlatAt(dir, tables, (to + k, j));
    StartAt(dir, tables, (to + k, j));
    FinishAt(dir, tables, from, to, n, (to + k, j));
  }

  lemma RowAbsent(dir: seq<Pte>, tables: Tables, from: nat, to: nat, n: nat, k: nat)
    requires TablesOk(dir, tables) && from + n <= DIRS && KERNEL <= to && to + n <= DIRS && k < n
      && !dir[to + k].present
    requires !dir[from + k].present
    ensures var S, F := Start(dir, tables), Finish(dir, tables, from, to, n);
      forall s :: s in S && s in F && s.0 == to + k && s.1 >= 0 ==> F[s] == S[s]
  {
    hide TablesOk, FlatOf, Start, Finish;
    var S, F := Start(dir, tables), Finish(dir, tables, from, to, n);
    forall s | s in S && s in F && s.0 == to + k && s.1 >= 0 ensures F[s] == S[s] {
      FlatAt(dir, tables, s);
      StartAt(dir, tables, s);
      FinishAt(dir, tables, from, to, n, s);
    }
  }

  lemma RowRest(dir: seq<Pte>, tables: Tables, from: nat, to: nat, n: nat, k: nat)
    requires TablesOk(dir, tables) && from + n <= DIRS && KERNEL <= to && to + n <= DIRS && k < n
      && !dir[to + k].present
    ensures var S, F := Start(dir, tables), Finish(dir, tables, from, to, n);
      forall s :: s in S && s in F && s.0 == to + k && s.1 >= (if from == 0 then TASK0_PAGES else ENTRIES) ==>
        F[s] == S[s]
  {
    hide TablesOk, FlatOf, Start, Finish;
    var S, F := Start(dir, tables), Finish(dir, tables, from, to, n);
    forall s | s in S && s in F && s.0 == to + k && s.1 >= (if from == 0 then TASK0_PAGES else ENTRIES)
      ensures F[s] == S[s]
    {
      FlatAt(dir, tables, s);
      StartAt(dir, tables, s);
      FinishAt(dir, tables, from, to, n, s);
    }
  }

  lemma StartCopied(dir: seq<Pte>, tables: Tables, from: nat, to: nat, n: nat)
    requires TablesOk(dir, tables) && from + n <= DIRS && to + n <= DIRS
    ensures Copied(FlatOf(dir, tables), Start(dir, tables), Finish(dir, tables, from, to, n), to, 0)
  {}

  /** One slot of the finished copy. */
  lemma FinishEntry(dir: seq<Pte>, tables: Tables, from: nat, to: nat, n: nat, s: Slot)
    requires TablesOk(dir, tables) && from + n <= DIRS && KERNEL <= to && to + n <= DIRS && s in Slots()
    requires forall i :: to <= i < to + n ==> !dir[i].present
    requires if from == 0 then n <= 1 && forall j :: 0 <= j < TASK0_PAGES ==> !Counted(EntryAt(dir, tables, 0, j))
             else KERNEL <= from
    ensures s in Finish(dir, tables, from, to, n) && s in FlatOf(dir, tables)
    ensures var p, flat0 := Finish(dir, tables, from, to, n)[s], FlatOf(dir, tables);
      if to <= s.0 < to + n then
        && !Counted(flat0[s])
        && var u := (s.0 - to + from, s.1); if u in flat0 then SamePage(p, flat0[u]) else !Counted(p)
      else SamePage(p, flat0[s])
  {}

  ghost predicate InBounds(flat: Flat, pages: seq<seq<int>>) {
    forall s :: s in flat && Counted(flat[s]) ==> flat[s].frame < |pages|
  }

  ghost predicate SamePage(p: Pte, q: Pte) { Counted(p) == Counted(q) && (Counted(p) ==> p.frame == q.frame) }

  lemma ForkSlot(v: View, from: nat, to: nat, n: nat, s: Slot)
    ensures var W := EagerFork(v, from, to, n);
      if FromChild(v, from, to, n, s) then s in W && W[s] == v[(s.0 - to + from, s.1)]
      else (s in W <==> s in v) && (s in W ==> W[s] == v[s])
  {
    hide ForkKeys;
    ForkKey(v, from, to, n, s);
  }

  lemma SlotView(flat: Flat, pages: seq<seq<int>>, flat0: Flat, pages0: seq<seq<int>>, from: nat, to: nat, n: nat,
                 s: Slot)
    requires flat.Keys == flat0.Keys && InBounds(flat, pages) && InBounds(flat0, pages0) && |pages| == |pages0|
      && s in flat
    requires Counted(flat[s]) ==> pages[flat[s].frame] == pages0[flat[s].frame]
    requires if to <= s.0 < to + n then
               && !Counted(flat0[s])
               && var u := (s.0 - to + from, s.1); if u in flat0 then SamePage(flat[s], flat0[u]) else !Counted(flat[s])
             else SamePage(flat[s], flat0[s])
    ensures var V, W := ViewOf(flat, pages), EagerFork(ViewOf(flat0, pages0), from, to, n);
      (s in V <==> s in W) && (s in V ==> V[s] == W[s])
  {
    hide EagerFork;
    ForkSlot(ViewOf(flat0, pages0), from, to, n, s);
  }

  lemma OutsideView(flat: Flat, pages: seq<seq<int>>, flat0: Flat, pages0: seq<seq<int>>, from: nat, to: nat, n: nat,
                    s: Slot)
    requires flat.Keys == flat0.Keys == Slots() && InBounds(flat, pages) && InBounds(flat0, pages0) && s !in Slots()
    requires KERNEL <= to && to + n <= DIRS
    ensures s !in ViewOf(flat, pages) && s !in EagerFork(ViewOf(flat0, pages0), from, to, n)
  {
    hide EagerFork;
    ForkSlot(ViewOf(flat0, pages0), from, to, n, s);
  }

  /** The finished copy shows the child what the parent sees, and changes nobody else's view. */
  lemma FinishView(flat: Flat, pages: seq<seq<int>>, dir: seq<Pte>, tables: Tables, pages0: seq<seq<int>>, from: nat,
                   to: nat, n: nat)
    requires TablesOk(dir, tables) && from + n <= DIRS && KERNEL <= to && to + n <= DIRS && |pages| == |pages0|
    requires forall i :: to <= i < to + n ==> !dir[i].present
    requires if from == 0 then n <= 1 && forall j :: 0 <= j < TASK0_PAGES ==> !Counted(EntryAt(dir, tables, 0, j))
             else KERNEL <= from
    requires Copied(flat, Start(dir, tables), Finish(dir, tables, from, to, n), to + n, 0)
    requires InBounds(FlatOf(dir, tables), pages0) && InBounds(flat, pages)
    requires forall s :: s in flat && Counted(flat[s]) ==> pages[flat[s].frame] == pages0[flat[s].frame]
    ensures ViewOf(flat, pages) == EagerFork(ViewOf(FlatOf(dir, tables), pages0), from, to, n)
  {
    hide FlatOf, TablesOk, EntryAt, Start, Finish, ViewOf, EagerFork;
    var flat0 := FlatOf(dir, tables);
    var V, W := ViewOf(flat, pages), EagerFork(ViewOf(flat0, pages0), from, to, n);
    FlatKeys(dir, tables, from, to, n);
    forall s: Slot ensures (s in V <==> s in W) && (s in V ==> V[s] == W[s]) {
      if s in Slots() {
        FinishEntry(dir, tables, from, to, n, s);
        assert Bare(flat[s]) == Finish(dir, tables, from, to, n)[s];
        SlotView(flat, pages, flat0, pages0, from, to, n, s);
      } else {
        OutsideView(flat, pages, flat0, pages0, from, to, n, s);
      }
    }
  }

  lemma FlatKeys(dir: seq<Pte>, tables: Tables, from: nat, to: nat, n: nat)
    requires TablesOk(dir, tables) && from + n <= DIRS && to + n <= DIRS
    ensures FlatOf(dir, tables).Keys == Start(dir, tables).Keys == Finish(dir, tables, from, to, n).Keys == Slots()
    ensures forall s :: s in Slots() && !(to <= s.0 < to + n) ==>
      Start(dir, tables)[s] == Finish(dir, tables, from, to, n)[s]
  {}

  /** The contents of all mapped user pages are as before. */
  ghost predicate PagesKept(flat: Flat, pages0: seq<seq<int>>, pages: seq<seq<int>>) {
    |pages| == |pages0| && InBounds(flat, pages) &&
    forall s :: s in flat && Counted(flat[s]) ==> pages[flat[s].frame] == pages0[flat[s].frame]
  }

  /** Slot (i, j) starts out empty and is to become what the parent gives away. */
  ghost predicate Target(S: Flat, F: Flat, i: nat, j: nat, p: Pte) {
    (i, j) in S && (i, j) in F && S[(i, j)] == NONE && F[(i, j)] == Gift(p)
  }

  lemma SelfKept(c: Core, pages: seq<seq<int>>)
    requires Inv(c) && |pages| == LOW + PAGING
    ensures PagesKept(c.flat, pages, pages) && InBounds(c.flat, pages)
  {}

  /** Outside the child's range the entries differ at most in the write bit. */
  ghost predicate SameOutside(flat0: Flat, flat: Flat, to: nat, n: nat) {
    flat.Keys == flat0.Keys && forall s :: s in flat && !(to <= s.0 < to + n) ==> Bare(flat[s]) == Bare(flat0[s])
  }

  lemma OutsideSame(dir: seq<Pte>, tables: Tables, flat: Flat, from: nat, to: nat, n: nat, k: nat)
    requires TablesOk(dir, tables) && from + n <= DIRS && KERNEL <= to && to + n <= DIRS && k <= n
    requires Copied(flat, Start(dir, tables), Finish(dir, tables, from, to, n), to + k, 0)
    ensures SameOutside(FlatOf(dir, tables), flat, to, n)
  {
    hide Finish, TablesOk;
    FlatKeys(dir, tables, from, to, n);
  }

  /** The entries from `to` on have tables where those from `from` on had. */
  ghost predicate SameTables(dir0: seq<Pte>, dir: seq<Pte>, from: nat, to: nat, n: nat) {
    forall i :: to <= i < to + n && i < |dir| && from + (i - to) < |dir0| ==>
      (dir[i].present <==> dir0[from + (i - to)].present)
  }

  /** The tables of the kernel are the same in both. */
  ghost predicate KernelKept(dir: seq<Pte>, tables0: Tables, tables: Tables) {
    forall i :: 0 <= i < KERNEL && i < |dir| && dir[i].present ==>
      dir[i].frame in tables0 && dir[i].frame in tables && tables[dir[i].frame] == tables0[dir[i].frame]
  }

  lemma SameRow(from: nat, to: nat, k: nat)
    requires from % TASK_DIRS == to % TASK_DIRS
    ensures (from + k) % TASK_DIRS == (to + k) % TASK_DIRS
  {}

  lemma KernelSelf(dir: seq<Pte>, tables: Tables)
    requires TablesOk(dir, tables)
    ensures KernelKept(dir, tables, tables)
  {}

  lemma KernelNext(dir: seq<Pte>, dir': seq<Pte>, tables0: Tables, tables: Tables, tables': Tables)
    requires KernelKept(dir, tables0, tables) && KernelKept(dir', tables, tables') && |dir| == |dir'| == DIRS
    requires forall i :: 0 <= i < KERNEL ==> dir'[i] == dir[i]
    ensures KernelKept(dir', tables0, tables')
  {}

  /** The parent's entries, when their turn comes, still are what they were, up to the write bit. */
  lemma Targets(dir0: seq<Pte>, tables0: Tables, dir: seq<Pte>, tables: Tables, from: nat, to: nat, n: nat, fi: nat,
                ti: nat, nr: nat)
    requires TablesOk(dir0, tables0) && TablesOk(dir, tables) && from + n <= DIRS && KERNEL <= to && to + n <= DIRS
    requires from <= fi < from + n && ti - to == fi - from && nr == if from == 0 then TASK0_PAGES else ENTRIES
    requires (from + n <= to || to + n <= from) && (if from == 0 then n <= 1 else KERNEL <= from)
    requires !dir0[ti].present
    requires Copied(FlatOf(dir, tables), Start(dir0, tables0), Finish(dir0, tables0, from, to, n), ti, 0)
    requires |dir| == DIRS && (from == 0 ==> dir[0] == dir0[0] && KernelKept(dir, tables0, tables))
    ensures forall j: nat :: j < nr ==>
      Target(Start(dir0, tables0), Finish(dir0, tables0, from, to, n), ti, j, EntryAt(dir, tables, fi, j))
  {
    hide Finish, Start, TablesOk, Copied;
    forall j: nat | j < nr
      ensures Target(Start(dir0, tables0), Finish(dir0, tables0, from, to, n), ti, j, EntryAt(dir, tables, fi, j))
    {
      RowEntry(dir0, tables0, from, to, n, fi - from, j);
      if from != 0 { SourceAt(dir0, tables0, dir, tables, from, to, n, ti, (fi, j)); }
    }
  }

  lemma SourceAt(dir0: seq<Pte>, tables0: Tables, dir: seq<Pte>, tables: Tables, from: nat, to: nat, n: nat, ti: nat,
                 s: Slot)
    requires TablesOk(dir0, tables0) && TablesOk(dir, tables) && from + n <= DIRS && to + n <= DIRS
    requires s in Slots() && !(to <= s.0 < to + n)
    requires Copied(FlatOf(dir, tables), Start(dir0, tables0), Finish(dir0, tables0, from, to, n), ti, 0)
    ensures Bare(EntryAt(dir, tables, s.0, s.1)) == Bare(EntryAt(dir0, tables0, s.0, s.1))
  {
    hide TablesOk, Finish;
    FlatKeys(dir0, tables0, from, to, n);
  }

  /** A page that the old entries refer to is still referred to while the copy is under way. */
  lemma KeptStill(dir: seq<Pte>, tables: Tables, flat: Flat, from: nat, to: nat, n: nat, k: nat,
                  pages0: seq<seq<int>>, pages1: seq<seq<int>>, pages2: seq<seq<int>>)
    requires TablesOk(dir, tables) && from + n <= DIRS && KERNEL <= to && to + n <= DIRS && k <= n
    requires forall i :: to <= i < to + k ==> !dir[i].present
    requires Copied(flat, Start(dir, tables), Finish(dir, tables, from, to, n), to + k, 0)
    requires PagesKept(FlatOf(dir, tables), pages0, pages1) && PagesKept(flat, pages1, pages2)
    ensures PagesKept(FlatOf(dir, tables), pages0, pages2)
  {
    hide TablesOk, FlatOf, Start, Finish, Copied, EntryAt;
    var flat0 := FlatOf(dir, tables);
    forall s | s in flat0 && Counted(flat0[s]) ensures s in flat && Bare(flat[s]) == Bare(flat0[s]) {
      KeptSlot(dir, tables, flat, from, to, n, k, s);
    }
  }

  lemma KeptSlot(dir: seq<Pte>, tables: Tables, flat: Flat, from: nat, to: nat, n: nat, k: nat, s: Slot)
    requires TablesOk(dir, tables) && from + n <= DIRS && KERNEL <= to && to + n <= DIRS && k <= n
    requires forall i :: to <= i < to + k ==> !dir[i].present
    requires Copied(flat, Start(dir, tables), Finish(dir, tables, from, to, n), to + k, 0)
    requires s in FlatOf(dir, tables) && Counted(FlatOf(dir, tables)[s])
    ensures s in flat && Bare(flat[s]) == Bare(FlatOf(dir, tables)[s])
  {
    hide TablesOk, FlatOf, Start, Finish;
    FlatAt(dir, tables, s);
    StartAt(dir, tables, s);
    FinishAt(dir, tables, from, to, n, s);
    assert s in Start(dir, tables);
  }

  lemma CopyView(flat: Flat, pages: seq<seq<int>>, dir: seq<Pte>, tables: Tables, pages0: seq<seq<int>>, from: nat,
                 to: nat, n: nat)
    requires TablesOk(dir, tables) && from + n <= DIRS && KERNEL <= to && to + n <= DIRS
    requires forall i :: to <= i < to + n ==> !dir[i].present
    requires if from == 0 then n <= 1 && forall j :: 0 <= j < TASK0_PAGES ==> !Counted(EntryAt(dir, tables, 0, j))
             else KERNEL <= from
    requires Copied(flat, Start(dir, tables), Finish(dir, tables, from, to, n), to + n, 0)
    requires PagesKept(FlatOf(dir, tables), pages0, pages) && InBounds(FlatOf(dir, tables), pages0)
      && InBounds(flat, pages)
    ensures ViewOf(flat, pages) == EagerFork(ViewOf(FlatOf(dir, tables), pages0), from, to, n)
  {
    hide FlatOf, TablesOk, EntryAt, Start, Finish, ViewOf, EagerFork;
    FlatKeys(dir, tables, from, to, n);
    forall s | s in flat && Counted(flat[s]) ensures pages[flat[s].frame] == pages0[flat[s].frame] {
      FinishEntry(dir, tables, from, to, n, s);
      assert Bare(flat[s]) == Finish(dir, tables, from, to, n)[s];
    }
    FinishView(flat, pages, dir, tables, pages0, from, to, n);
  }

  lemma Task0Low(dir: seq<Pte>, tables: Tables)
    requires TablesOk(dir, tables)
    requires forall j :: 0 <= j < TASK0_PAGES ==> dir[0].present && tables[dir[0].frame][j].present ==>
      tables[dir[0].frame][j].frame < LOW
    ensures forall j :: 0 <= j < TASK0_PAGES ==> !Counted(EntryAt(dir, tables, 0, j))
  {}

  lemma EmptyRows(dir: seq<Pte>, tables: Tables, to: nat, n: nat)
    requires TablesOk(dir, tables) && KERNEL <= to && to + n <= DIRS && forall i :: to <= i < to + n ==> !dir[i].present
    ensures forall s :: s in FlatOf(dir, tables) && to <= s.0 < to + n ==> FlatOf(dir, tables)[s] == NONE
  {}

  /** After the undo the entries are what they were before the fork, up to write bits. */
  lemma Undone(c0: Core, c: Core, flat1: Flat, to: nat, n: nat)
    requires SameOutside(c0.flat, flat1, to, n) && c.flat == Vacated(flat1, to, n)
    requires forall s :: s in c0.flat && to <= s.0 < to + n ==> c0.flat[s] == NONE
    ensures SameOutside(c0.flat, c.flat, 0, 0)
  {}

  lemma UndoneTabs(dir0: seq<Pte>, dir: seq<Pte>, to: nat, n: nat)
    requires |dir0| == |dir| == DIRS
    requires forall i :: 0 <= i < DIRS && !(to <= i < to + n) ==> dir[i] == dir0[i]
    requires forall i :: to <= i < to + n && 0 <= i < DIRS ==> !dir[i].present && !dir0[i].present
    ensures TabsOf(dir) == TabsOf(dir0)
  {
    assert forall i :: KERNEL <= i < DIRS ==>
      dir[i].present == dir0[i].present && (dir[i].present ==> dir[i].frame == dir0[i].frame);
    forall f | f in TabsOf(dir) ensures f in TabsOf(dir0) {
      var i :| KERNEL <= i < DIRS && dir[i].present && dir[i].frame == f;
      assert dir0[i].frame == f;
    }
    forall f | f in TabsOf(dir0) ensures f in TabsOf(dir) {
      var i :| KERNEL <= i < DIRS && dir0[i].present && dir0[i].frame == f;
      assert dir[i].frame == f;
    }
  }

  /** The counts are determined by who refers to a frame, so equal references mean equal counts. */
  lemma UndoneCounts(c0: Core, c: Core)
    requires Inv(c0) && Inv(c) && SameOutside(c0.flat, c.flat, 0, 0) && c.tabs == c0.tabs && c.held == c0.held
    ensures c.count == c0.count
  {
    hide Domain, Exclusive, Aligned, OneKind;
    forall i | 0 <= i < PAGING ensures c.count[i] == c0.count[i] {
      SameRefs(c0.flat, c.flat, LOW + i);
      assert c.count[LOW + i - LOW] == Users(c, LOW + i) && c0.count[LOW + i - LOW] == Users(c0, LOW + i);
    }
  }

  lemma SameRefs(flat0: Flat, flat: Flat, f: nat)
    requires SameOutside(flat0, flat, 0, 0)
    ensures Refs(flat, f) == Refs(flat0, f)
  {
    forall s | s in flat ensures s in Refs(flat, f) <==> s in Refs(flat0, f) {
      assert Bare(flat[s]) == Bare(flat0[s]);
    }
  }

  lemma UndoneView(flat0: Flat, flat: Flat, pages0: seq<seq<int>>, pages: seq<seq<int>>)
    requires SameOutside(flat0, flat, 0, 0) && PagesKept(flat0, pages0, pages) && InBounds(flat0, pages0)
      && InBounds(flat, pages)
    ensures ViewOf(flat, pages) == ViewOf(flat0, pages0)
  {
    forall s | s in flat ensures Counted(flat[s]) == Counted(flat0[s]) && flat[s].frame == flat0[s].frame {
      assert Bare(flat[s]) == Bare(flat0[s]);
    }
  }

  // --- views of one changed slot

  lemma EnterView(flat: Flat, pages: seq<seq<int>>, s: Slot, p: Pte)
    requires InBounds(flat, pages) && Counted(p) && p.frame < |pages| && s in flat
    ensures InBounds(flat[s := p], pages) && ViewOf(flat[s := p], pages) == ViewOf(flat, pages)[s := pages[p.frame]]
  {}

  lemma WriteView(flat: Flat, pages: seq<seq<int>>, s: Slot, page: seq<int>)
    requires InBounds(flat, pages) && s in flat && Counted(flat[s]) && flat[s].write && Exclusive(flat)
    ensures InBounds(flat, pages[flat[s].frame := page])
    ensures ViewOf(flat, pages[flat[s].frame := page]) == ViewOf(flat, pages)[s := page]
  {
    var f := flat[s].frame;
    forall t | t in flat && Counted(flat[t]) && t != s ensures flat[t].frame != f {
      if flat[t].frame == f { assert Both(flat[s], flat[t]); }
    }
  }

  lemma ViewSlot(flat: Flat, pages: seq<seq<int>>, s: Slot)
    requires InBounds(flat, pages) && s in flat
    ensures s in ViewOf(flat, pages) <==> Counted(flat[s])
    ensures Counted(flat[s]) ==> flat[s].frame < |pages| && ViewOf(flat, pages)[s] == pages[flat[s].frame]
  {}

  lemma SameView(flat: Flat, pages: seq<seq<int>>, s: Slot, p: Pte)
    requires InBounds(flat, pages) && s in flat && SamePage(p, flat[s])
    ensures InBounds(flat[s := p], pages) && ViewOf(flat[s := p], pages) == ViewOf(flat, pages)
  {}

  lemma MoveView(flat: Flat, pages: seq<seq<int>>, s: Slot, f: nat, page: seq<int>)
    requires InBounds(flat, pages) && s in flat && LOW <= f < |pages|
    requires forall t :: t in flat && flat[t].present ==> flat[t].frame != f
    ensures var flat', pages' := flat[s := Pte(f, true, true, false)], pages[f := page];
      InBounds(flat', pages') && ViewOf(flat', pages') == ViewOf(flat, pages)[s := page]
  {}

  lemma PresentBound(c: Core, s: Slot)
    requires Inv(c) && s in c.flat && c.flat[s].present
    ensures c.flat[s].frame < c.high <= LOW + PAGING
  {}

  /** The frames below f that mem_init does not hand out, each with the count USED. */
  ghost function ReservedFrames(start: nat, end: nat, f: nat): (h: multiset<nat>)
    ensures forall g :: h[g] == if LOW <= g < f && !(start <= g < end) then RESERVED else 0
  {
    if f <= LOW then multiset{}
    else ReservedFrames(start, end, f - 1)[f - 1 := if start <= f - 1 < end then 0 else RESERVED]
  }

  /** After mem_init nothing is mapped and the reserved frames are held by the kernel. */
  lemma InitOk(c: Core, dir: seq<Pte>, tables: Tables)
    requires TablesOk(dir, tables) && (forall i :: KERNEL <= i < DIRS ==> !dir[i].present)
    requires c.flat == FlatOf(dir, tables) && c.tabs == TabsOf(dir)
    requires LOW <= c.high <= LOW + PAGING && |c.count| == PAGING
    requires forall f :: LOW <= f < LOW + PAGING ==> c.count[f - LOW] == c.held[f]
    requires forall f :: c.held[f] <= RESERVED
    requires forall f :: c.high <= f < LOW + PAGING ==> c.held[f] > 0
    ensures Inv(c) && forall s :: s in c.flat ==> c.flat[s] == NONE
  {
    forall s | s in c.flat ensures c.flat[s] == NONE {}
    assert c.tabs == {};
    forall f | LOW <= f < LOW + PAGING ensures c.count[f - LOW] == Users(c, f) {
      assert Refs(c.flat, f) == {};
    }
  }

  // ---------------------------------------------------------------------------------------------
  // Runs
  // ---------------------------------------------------------------------------------------------

  /** What tasks and the kernel can ask for; a slot is given as directory and table index. */
  datatype Op =
    | Fork(base: nat, nr: nat, n: nat)
    | Exit(base: nat, n: nat)
    | Touch(i: nat, j: nat)                              // first access to an unmapped page
    | Store(i: nat, j: nat, offset: nat, value: int)
    | Fault(i: nat, j: nat)                              // write fault without the store
    | Borrow(d: nat, j: nat, other: nat, mine: nat)      // try_to_share

  /** Done carries what the page showed before, for a page not yet in anybody's view (low memory). */
  datatype Outcome = Done(seen: seq<int>) | Refused

  /** The same request in a kernel that copies every page at fork and never shares. */
  ghost function Eager(v: View, op: Op, o: Outcome): View {
    if o.Refused? then v
    else if op.Fork? then EagerFork(v, op.base, op.nr * TASK_DIRS, op.n)
    else if op.Exit? then EagerExit(v, op.base, op.n)
    else if op.Touch? then v[(op.i, op.j) := ZeroPage()]
    else if op.Store? then EagerStore(v, (op.i, op.j), op.offset, op.value, o.seen)
    else if op.Fault? then (if (op.i, op.j) in v then v else v[(op.i, op.j) := o.seen])
    else if (op.other + op.d, op.j) in v then v[(op.mine + op.d, op.j) := v[(op.other + op.d, op.j)]]
    else v
  }

  ghost function EagerStore(v: View, s: Slot, offset: nat, value: int, seen: seq<int>): View {
    var page := if s in v then v[s] else seen;
    if offset < |page| then v[s := page[offset := value]] else v
  }

  ghost function EagerRun(v: View, ops: seq<Op>, os: seq<Outcome>): View
    requires |os| == |ops|
  {
    if ops == [] then v else Eager(EagerRun(v, ops[..|ops| - 1], os[..|ops| - 1]), ops[|ops| - 1], os[|ops| - 1])
  }

  /** The memory at one moment. */
  datatype Snap = Snap(memMap: seq<nat>, dir: seq<Pte>, tables: Tables, pages: seq<seq<int>>)

  /** Tables are well formed and counts are right, given what the kernel itself holds. */
  ghost predicate InOrder(s: Snap, held: multiset<nat>, high: nat) {
    TablesOk(s.dir, s.tables) && Inv(Core(FlatOf(s.dir, s.tables), TabsOf(s.dir), s.memMap, held, high))
  }

  ghost function SnapView(s: Snap): View {
    if TablesOk(s.dir, s.tables) && InBounds(FlatOf(s.dir, s.tables), s.pages) then
      ViewOf(FlatOf(s.dir, s.tables), s.pages) else map[]
  }

  /** The entry of a slot, if its table is there. */
  ghost function SnapEntry(s: Snap, i: nat, j: nat): Pte {
    if i < |s.dir| && s.dir[i].present && s.dir[i].frame in s.tables && j < |s.tables[s.dir[i].frame]| then
      s.tables[s.dir[i].frame][j] else NONE
  }

  predicate Forkable(base: nat, to: nat, n: nat) {
    && base + n <= DIRS && KERNEL <= to && to + n <= DIRS && (base + n <= to || to + n <= base) && base % TASK_DIRS == 0
    && (if base == 0 then n <= 1 else KERNEL <= base)
  }

  predicate Borrowable(d: nat, j: nat, other: nat, mine: nat) {
    && d < TASK_DIRS && j < ENTRIES && other % TASK_DIRS == 0 && mine % TASK_DIRS == 0 && other != mine
    && KERNEL <= other && other + d < DIRS && KERNEL <= mine && mine + d < DIRS
  }

  /** A clean page above LOW_MEM at fi, nothing at ti, and a frame for a table if ti has none. */
  ghost predicate Sharable(s: Snap, high: nat, fi: nat, ti: nat, j: nat) {
    var e := SnapEntry(s, fi, j);
    && e.present && !e.dirty && LOW <= e.frame < high && !SnapEntry(s, ti, j).present
    && (ti < |s.dir| && !s.dir[ti].present ==> Free(s.memMap) > 0)
  }

  /** When a request has to be refused. */
  ghost predicate Refuses(s: Snap, high: nat, op: Op) {
    match op
    case Fork(base, nr, n) =>
      var to := nr * TASK_DIRS;
      || !Forkable(base, to, n) || |s.dir| != DIRS
      || (exists i :: to <= i < to + n && s.dir[i].present)
      || Free(s.memMap) < TableCount(s.dir, base, n)
    case Exit(base, n) => !(KERNEL <= base && base + n <= DIRS)
    case Touch(i, j) =>
      || !(KERNEL <= i < DIRS && j < ENTRIES) || |s.dir| != DIRS || SnapEntry(s, i, j).present
      || Free(s.memMap) < if s.dir[i].present then 1 else 2
    case Store(i, j, offset, value) =>
      var e := SnapEntry(s, i, j);
      || !(KERNEL <= i < DIRS && j < ENTRIES) || !e.present || offset >= PAGE_SIZE
      || (!e.write && Shared(e, s.memMap) && Free(s.memMap) == 0)
    case Fault(i, j) =>
      var e := SnapEntry(s, i, j);
      !(KERNEL <= i < DIRS && j < ENTRIES) || !e.present || (Shared(e, s.memMap) && Free(s.memMap) == 0)
    case Borrow(d, j, other, mine) => !Borrowable(d, j, other, mine) || !Sharable(s, high, other + d, mine + d, j)
  }

  /** Refused exactly if need be; a store or fault reports what the page held. */
  ghost predicate Answers(s: Snap, high: nat, op: Op, o: Outcome) {
    && (o.Refused? <==> Refuses(s, high, op))
    && (o.Done? && (op.Store? || op.Fault?) ==>
          var f := SnapEntry(s, op.i, op.j).frame;
          f < |s.pages| && o.seen == s.pages[f])
  }

  predicate HasTable(s: Snap, i: nat) { i < |s.dir| && s.dir[i].present }

  /** The frames that only the entries of a range of directory entries refer to. */
  ghost function Sole(s: Snap, from: nat, n: nat): set<nat>
    requires TablesOk(s.dir, s.tables)
  {
    Mapped(FlatOf(s.dir, s.tables)) - Mapped(Vacated(FlatOf(s.dir, s.tables), from, n))
  }

  /** How many frames a request takes; a negative number is given back. */
  ghost function Costs(s: Snap, op: Op, o: Outcome): int
    requires TablesOk(s.dir, s.tables)
  {
    if o.Refused? then 0 else
    match op
    case Fork(base, nr, n) => if base + n <= DIRS then TableCount(s.dir, base, n) else 0
    case Exit(base, n) => -|Sole(s, base, n)| - if base + n <= DIRS then TableCount(s.dir, base, n) else 0
    case Touch(i, j) => if HasTable(s, i) then 1 else 2
    case Store(i, j, offset, value) => var e := SnapEntry(s, i, j); if !e.write && Shared(e, s.memMap) then 1 else 0
    case Fault(i, j) => if Shared(SnapEntry(s, i, j), s.memMap) then 1 else 0
    case Borrow(d, j, other, mine) => if HasTable(s, mine + d) then 0 else 1
  }

  /** Whether a directory entry has a page table after a request. */
  predicate GetsTable(s: Snap, op: Op, o: Outcome, i: nat) {
    if o.Refused? then HasTable(s, i)
    else if op.Fork? && op.nr * TASK_DIRS <= i < op.nr * TASK_DIRS + op.n then
      HasTable(s, op.base + (i - op.nr * TASK_DIRS))
    else if op.Exit? && op.base <= i < op.base + op.n then false
    else HasTable(s, i) || (op.Touch? && i == op.i) || (op.Borrow? && i == op.mine + op.d)
  }

  /** Frames and page tables come and go as the request says, and in no other way. */
  ghost predicate Accounts(s: Snap, op: Op, o: Outcome, s': Snap) {
    && TablesOk(s.dir, s.tables) && |s'.dir| == DIRS && Free(s'.memMap) == Free(s.memMap) - Costs(s, op, o)
    && forall i :: KERNEL <= i < DIRS ==> (HasTable(s', i) <==> GetsTable(s, op, o, i))
  }

  /** Entries after a fork: the child's are those of F, the parent's have lost the write bit, no others differ. */
  ghost predicate Forked(f: Flat, f': Flat, F: Flat, from: nat, to: nat, n: nat) {
    && OnlyRows(f, f', from, to, n) && F.Keys == f.Keys
    && forall t: Slot :: t in f' ==>
         && Bare(f'[t]) == F[t] && (to <= t.0 < to + n || from <= t.0 < from + n ==> f'[t].present ==> !f'[t].write)
  }

  lemma ForkedNow(c: Core, f: Flat, dir: seq<Pte>, tables: Tables, from: nat, to: nat, n: nat)
    requires TablesOk(dir, tables) && from + n <= DIRS && KERNEL <= to && to + n <= DIRS && Inv(c)
    requires (if from == 0 then n <= 1 else KERNEL <= from) && (from + n <= to || to + n <= from)
    requires forall j :: 0 <= j < TASK0_PAGES ==> dir[0].present && tables[dir[0].frame][j].present ==>
      tables[dir[0].frame][j].frame < LOW
    requires f == FlatOf(dir, tables) && OnlyRows(f, c.flat, from, to, n)
    requires Copied(c.flat, Start(dir, tables), Finish(dir, tables, from, to, n), to + n, 0)
    ensures Forked(f, c.flat, Finish(dir, tables, from, to, n), from, to, n)
  {
    hide FlatOf, Start, Finish, TablesOk, Domain, Aligned, CountsOk, OneKind, Exclusive;
    var F, f' := Finish(dir, tables, from, to, n), c.flat;
    forall t: Slot | t in f'
      ensures Bare(f'[t]) == F[t]
      ensures to <= t.0 < to + n || from <= t.0 < from + n ==> f'[t].present ==> !f'[t].write
    {
      Outside(f', dir, tables, from, to, n, t);
      if to <= t.0 < to + n { ChildEntry(f', dir, tables, from, to, n, t); }
      else if from <= t.0 < from + n { ParentEntry(f', dir, tables, from, to, n, t); }
    }
  }

  lemma Outside(f': Flat, dir: seq<Pte>, tables: Tables, from: nat, to: nat, n: nat, t: Slot)
    requires TablesOk(dir, tables) && from + n <= DIRS && to + n <= DIRS && t in f'
    requires Copied(f', Start(dir, tables), Finish(dir, tables, from, to, n), to + n, 0)
    ensures t in Finish(dir, tables, from, to, n) && Bare(f'[t]) == Finish(dir, tables, from, to, n)[t]
  {
    hide FlatOf, Start, Finish, TablesOk;
    FlatAt(dir, tables, t);
    StartAt(dir, tables, t);
    FinishAt(dir, tables, from, to, n, t);
  }

  /** An entry of the child shares its frame with the parent's, or has a frame of the kernel. */
  lemma ChildEntry(f': Flat, dir: seq<Pte>, tables: Tables, from: nat, to: nat, n: nat, t: Slot)
    requires TablesOk(dir, tables) && from + n <= DIRS && KERNEL <= to && to + n <= DIRS && Exclusive(f')
    requires (if from == 0 then n <= 1 else KERNEL <= from) && (from + n <= to || to + n <= from)
    requires forall j :: 0 <= j < TASK0_PAGES ==> dir[0].present && tables[dir[0].frame][j].present ==>
      tables[dir[0].frame][j].frame < LOW
    requires Copied(f', Start(dir, tables), Finish(dir, tables, from, to, n), to + n, 0)
    requires t in f' && to <= t.0 < to + n
    ensures f'[t].present ==> !f'[t].write
  {
    hide FlatOf, Start, Finish;
    Outside(f', dir, tables, from, to, n, t);
    FlatAt(dir, tables, t);
    FinishAt(dir, tables, from, to, n, t);
    if f'[t].present && from != 0 {
      var u := (t.0 - to + from, t.1);
      FlatAt(dir, tables, u);
      FinishAt(dir, tables, from, to, n, u);
      Outside(f', dir, tables, from, to, n, u);
    }
  }

  lemma ParentEntry(f': Flat, dir: seq<Pte>, tables: Tables, from: nat, to: nat, n: nat, t: Slot)
    requires TablesOk(dir, tables) && from + n <= DIRS && KERNEL <= to && to + n <= DIRS && Exclusive(f')
    requires (if from == 0 then n <= 1 else KERNEL <= from) && (from + n <= to || to + n <= from)
    requires Copied(f', Start(dir, tables), Finish(dir, tables, from, to, n), to + n, 0)
    requires t in f' && from <= t.0 < from + n && f'.Keys == FlatOf(dir, tables).Keys
    ensures f'[t].present ==> !f'[t].write
  {
    hide FlatOf, Start, Finish;
    FlatAt(dir, tables, t);
    FinishAt(dir, tables, from, to, n, t);
    Outside(f', dir, tables, from, to, n, t);
    if f'[t].present {
      var u := (t.0 - from + to, t.1);
      FlatAt(dir, tables, u);
      FinishAt(dir, tables, from, to, n, u);
      Outside(f', dir, tables, from, to, n, u);
    }
  }

  /** What the page-table entries are after a request that went through; the frame of a new page is free to choose. */
  ghost predicate Entries(s: Snap, op: Op, s': Snap)
    requires TablesOk(s.dir, s.tables) && TablesOk(s'.dir, s'.tables)
  {
    var f, f' := FlatOf(s.dir, s.tables), FlatOf(s'.dir, s'.tables);
    match op
    case Fork(base, nr, n) =>
      && base + n <= DIRS && nr * TASK_DIRS + n <= DIRS
      && Forked(f, f', Finish(s.dir, s.tables, base, nr * TASK_DIRS, n), base, nr * TASK_DIRS, n)
    case Exit(base, n) => f' == Vacated(f, base, n)
    case Touch(i, j) => (i, j) in f' && f' == f[(i, j) := Pte(f'[(i, j)].frame, true, true, false)]
    case Store(i, j, _, _) =>
      && (i, j) in f && (i, j) in f' && f' == f[(i, j) := Pte(f'[(i, j)].frame, true, true, true)]
      && (f'[(i, j)].frame == f[(i, j)].frame <==> f[(i, j)].write || !Shared(f[(i, j)], s.memMap))
    case Fault(i, j) =>
      && (i, j) in f && (i, j) in f'
      && if Shared(f[(i, j)], s.memMap) then f' == f[(i, j) := Pte(f'[(i, j)].frame, true, true, false)]
         else f' == f[(i, j) := f[(i, j)].(write := true)]
    case Borrow(d, j, other, mine) =>
      var from, to := (other + d, j), (mine + d, j);
      from in f && f' == f[from := Bare(f[from])][to := Bare(f[from])]
  }

  /** One request: answered as it has to be, with the effect of the eager kernel, at the cost that it has. */
  ghost predicate Follows(s: Snap, high: nat, op: Op, o: Outcome, s': Snap) {
    && Answers(s, high, op, o) && SnapView(s') == Eager(SnapView(s), op, o) && Accounts(s, op, o, s')
    && TablesOk(s'.dir, s'.tables) && (o.Done? ==> Entries(s, op, s'))
  }

  lemma SetDifference(a: set<nat>, b: set<nat>)
    requires b <= a
    ensures |a - b| == |a| - |b|
  {
    assert a == b + (a - b);
  }

  lemma FewerMapped(flat: Flat, from: nat, n: nat)
    ensures Mapped(Vacated(flat, from, n)) <= Mapped(flat)
  {}

  lemma ExitAccounts(s: Snap, s': Snap, base: nat, n: nat)
    requires TablesOk(s.dir, s.tables) && TablesOk(s'.dir, s'.tables) && KERNEL <= base && base + n <= DIRS
    requires FlatOf(s'.dir, s'.tables) == Vacated(FlatOf(s.dir, s.tables), base, n)
    requires Free(s'.memMap) + |Mapped(FlatOf(s'.dir, s'.tables))| ==
             Free(s.memMap) + |Mapped(FlatOf(s.dir, s.tables))| + TableCount(s.dir, base, n)
    requires forall i :: base <= i < base + n ==> !s'.dir[i].present
    requires forall i :: 0 <= i < DIRS && !(base <= i < base + n) ==> s'.dir[i] == s.dir[i]
    ensures Accounts(s, Exit(base, n), Done([]), s')
  {
    hide FlatOf, Vacated, Mapped, Free, TableCount;
    var flat := FlatOf(s.dir, s.tables);
    FewerMapped(flat, base, n);
    SetDifference(Mapped(flat), Mapped(Vacated(flat, base, n)));
  }

  lemma ForkAccounts(s: Snap, s': Snap, base: nat, nr: nat, n: nat)
    requires TablesOk(s.dir, s.tables) && |s'.dir| == DIRS && base + n <= DIRS && nr * TASK_DIRS + n <= DIRS
    requires Free(s'.memMap) == Free(s.memMap) - TableCount(s.dir, base, n)
    requires SameTables(s.dir, s'.dir, base, nr * TASK_DIRS, n)
    requires forall i :: 0 <= i < DIRS && !(nr * TASK_DIRS <= i < nr * TASK_DIRS + n) ==> s'.dir[i] == s.dir[i]
    ensures Accounts(s, Fork(base, nr, n), Done([]), s')
  {
    hide Free, TableCount;
  }

  lemma RefusedAccounts(s: Snap, s': Snap, op: Op)
    requires TablesOk(s.dir, s.tables) && |s'.dir| == DIRS && Free(s'.memMap) == Free(s.memMap)
    requires forall i :: KERNEL <= i < DIRS ==> (HasTable(s', i) <==> HasTable(s, i))
    ensures Accounts(s, op, Refused, s')
  {}

  /** A request that concerns one entry, in a table that is made if it is missing. */
  lemma EntryAccounts(s: Snap, s': Snap, op: Op, seen: seq<int>)
    requires TablesOk(s.dir, s.tables) && |s'.dir| == DIRS && !op.Fork? && !op.Exit?
    requires Free(s'.memMap) == Free(s.memMap) - Costs(s, op, Done(seen))
    requires if op.Touch? || op.Borrow? then
               var k := if op.Touch? then op.i else op.mine + op.d;
               HasTable(s', k) && forall i :: KERNEL <= i < DIRS && i != k ==> s'.dir[i] == s.dir[i]
             else s'.dir == s.dir
    ensures Accounts(s, op, Done(seen), s')
  {
    hide Free, Costs;
  }

  lemma InvSize(c: Core)
    requires Inv(c)
    ensures |c.count| == PAGING && LOW <= c.high <= LOW + PAGING
  {}

  lemma UnusedView(flat: Flat, pages: seq<seq<int>>, f: nat, page: seq<int>)
    requires InBounds(flat, pages) && f < |pages| && forall t :: t in flat && flat[t].present ==> flat[t].frame != f
    ensures PagesKept(flat, pages, pages[f := page]) && ViewOf(flat, pages[f := page]) == ViewOf(flat, pages)
  {}
}
