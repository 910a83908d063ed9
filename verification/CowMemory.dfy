/**
 * The routines of cpp/linux-0.11/mm/memory.c that allocate, share, protect and free pages, and
 * copy_mem of cpp/linux-0.11/kernel/fork.c, working in place on mem_map, the page directory, the
 * page tables and the page contents.
 */
module CowMemory {
  import opened CowPaging

  /** OutOfMemory stands for the -1, 0 and oom() exits, Panic for panic(). */
  datatype Status = Ok | OutOfMemory | Panic

  class Memory {
    var memMap: seq<nat>
    var dir: seq<Pte>
    var tables: Tables
    var pages: seq<seq<int>>
    ghost var held: multiset<nat>
    const high: nat

    /** The tables are well formed, and the part of the kernel table that task 0 passes on is low memory. */
    ghost predicate Shape()
      reads this
    {
      && TablesOk(dir, tables) && |dir| == DIRS
      && |pages| == LOW + PAGING && (forall f :: 0 <= f < |pages| ==> |pages[f]| == PAGE_SIZE)
      && forall j :: 0 <= j < TASK0_PAGES ==> dir[0].present && tables[dir[0].frame][j].present ==>
           tables[dir[0].frame][j].frame < LOW
    }

    ghost function Flat(): CowPaging.Flat
      reads this
      requires TablesOk(dir, tables)
    {
      FlatOf(dir, tables)
    }

    ghost function State(): Core
      reads this
      requires TablesOk(dir, tables)
    {
      Core(FlatOf(dir, tables), TabsOf(dir), memMap, held, high)
    }

    ghost predicate Valid()
      reads this
    {
      Shape() && Inv(State())
    }

    /** What each user page holds. */
    ghost function View(): CowPaging.View
      reads this
      requires Valid()
    {
      ViewOf(Flat(), pages)
    }

    /** The highest free frame, zeroed and counted once, or 0 when no frame is free. */
    method GetFreePage() returns (f: nat)
      requires Valid()
      modifies this
      ensures Valid() && dir == old(dir) && Flat() == old(Flat()) && View() == old(View())
      ensures f == 0 ==> unchanged(this) && forall i :: 0 <= i < PAGING ==> memMap[i] != 0
      ensures if f == 0 then Free(old(memMap)) == 0 else Free(memMap) == Free(old(memMap)) - 1
      ensures f != 0 ==>
        && LOW <= f < high && old(memMap[f - LOW]) == 0 && (forall i :: f - LOW < i < PAGING ==> old(memMap[i]) != 0)
        && State() == Take(old(State()), f) && old(f !in TabsOf(dir) && held[f] == 0)
        && pages == old(pages)[f := ZeroPage()] && tables == old(tables)[f := ZeroTable()]
        && PagesKept(Flat(), old(pages), pages)
    {
      hide Inv, FlatOf, ViewOf, TabsOf, PagesKept, TablesOk, Take, Free;
      f := 0;
      FreeNone(memMap);
      InvSize(State());
      var i := PAGING;
      while i > 0
        invariant 0 <= i <= PAGING && forall k :: i <= k < PAGING ==> memMap[k] != 0
      {
        i := i - 1;
        if memMap[i] == 0 {
          f := LOW + i;
          FreeUpdate(memMap, i, 1);
          TakeFrame(f);
          return;
        }
      }
    }

    /** Mark a free frame used and clear it. */
    method TakeFrame(f: nat)
      requires Valid() && LOW <= f < LOW + PAGING && memMap[f - LOW] == 0
      modifies this
      ensures Valid() && dir == old(dir) && Flat() == old(Flat()) && View() == old(View())
      ensures State() == Take(old(State()), f) && old(f !in TabsOf(dir) && held[f] == 0) && f < high
      ensures pages == old(pages)[f := ZeroPage()] && tables == old(tables)[f := ZeroTable()]
        && memMap == old(memMap)[f - LOW := 1]
      ensures PagesKept(Flat(), old(pages), pages)
    {
      hide Domain, Exclusive, Aligned, OneKind, CountsOk, TabsOf, FlatOf, ViewOf, PagesKept;
      SelfKept(State(), pages);
      TakeOk(State(), f);
      FreeFrame(State(), f);
      ZeroTableFlat(dir, tables, f);
      UnusedView(Flat(), pages, f, ZeroPage());
      memMap := memMap[f - LOW := 1];
      pages := pages[f := ZeroPage()];
      tables := tables[f := ZeroTable()];
      held := held[f := 1];
    }

    /** free_page: one reference less, or panic when the frame does not exist or is free already. */
    method FreePage(f: nat) returns (st: Status)
      requires |memMap| == PAGING && high <= LOW + PAGING
      modifies `memMap
      ensures f < LOW ==> st.Ok? && memMap == old(memMap)
      ensures LOW <= f < high ==> (st.Ok? <==> old(memMap[f - LOW]) != 0)
      ensures LOW <= f < high && st.Ok? ==> memMap == old(memMap)[f - LOW := old(memMap[f - LOW]) - 1]
      ensures f >= LOW && !st.Ok? ==> st.Panic? && memMap == old(memMap)
      ensures LOW <= f && high <= f ==> st.Panic?
    {
      if f < LOW {
        return Ok;
      }
      if f >= high {
        return Panic;
      }
      if memMap[f - LOW] != 0 {
        memMap := memMap[f - LOW := memMap[f - LOW] - 1];
        return Ok;
      }
      return Panic;
    }

    /** Free the page behind one entry and clear the entry, as the inner loop of free_page_tables does. */
    method FreeEntry(i: nat, j: nat) returns (st: Status)
      requires Valid() && KERNEL <= i < DIRS && j < ENTRIES && dir[i].present
      modifies `memMap, `tables
      ensures st.Ok? && Valid() && Flat() == old(Flat())[(i, j) := NONE]
    {
      hide Domain, Aligned, OneKind, CountsOk, TabsOf, FlatOf;
      FlatEntries(dir, tables);
      SetEntryFlat(dir, tables, i, j, NONE);
      var e := tables[dir[i].frame][j];
      assert e == Flat()[(i, j)];
      st := Ok;
      if e.present {
        if e.frame >= LOW { DropOk(State(), (i, j)); } else { QuietOk(State(), (i, j), NONE); }
        st := FreePage(e.frame);
      } else {
        QuietOk(State(), (i, j), NONE);
      }
      tables := tables[dir[i].frame := tables[dir[i].frame][j := NONE]];
    }

    /** One round of free_page_tables: free every page of a table, then the table. */
    method FreeTable(i: nat) returns (st: Status)
      requires Valid() && KERNEL <= i < DIRS && dir[i].present
      modifies `memMap, `tables, `dir
      ensures st.Ok? && Valid() && Flat() == Vacated(old(Flat()), i, 1)
      ensures dir == old(dir)[i := NONE]
      ensures Free(memMap) + |Mapped(Flat())| == Free(old(memMap)) + |Mapped(old(Flat()))| + 1
    {
      hide FlatOf, Inv, VacatedRow, Vacated, FullDomain, Free, Mapped, TabsOf, Kept;
      Conserved(State());
      TabsLess(dir, tables, i);
      FlatEntries(dir, tables);
      st := Ok;
      var j := 0;
      VacatedSteps(Flat(), i, 0);
      while j < ENTRIES
        invariant 0 <= j <= ENTRIES && st.Ok? && Valid() && dir == old(dir)
        invariant Flat() == VacatedRow(old(Flat()), i, j)
      {
        VacatedSteps(old(Flat()), i, j);
        st := FreeEntry(i, j);
        j := j + 1;
      }
      VacatedSteps(old(Flat()), i, 0);
      FlatEntries(dir, tables);
      assert forall k :: 0 <= k < ENTRIES ==> tables[dir[i].frame][k] == EntryAt(dir, tables, i, k) == NONE;
      st := FreeEmptyTable(i);
      Conserved(State());
    }

    method FreeEmptyTable(i: nat) returns (st: Status)
      requires Valid() && KERNEL <= i < DIRS && dir[i].present
      requires forall j :: 0 <= j < ENTRIES ==> tables[dir[i].frame][j] == NONE
      modifies `memMap, `dir
      ensures st.Ok? && Valid() && Flat() == old(Flat()) && dir == old(dir)[i := NONE]
    {
      DropTableFlat(dir, tables, i);
      UntabulateOk(State(), dir[i].frame);
      st := FreePage(dir[i].frame);
      dir := dir[i := NONE];
    }

    /** free_page_tables for n directory entries from `from`: their slots become empty, nothing else changes. */
    method FreePageTables(from: nat, n: nat) returns (st: Status)
      requires Valid() && from + n <= DIRS && (from == 0 || KERNEL <= from)
      modifies `memMap, `tables, `dir
      ensures Valid() && st == (if from == 0 then Panic else Ok)
      ensures st.Panic? ==> unchanged(this)
      ensures st.Ok? ==> Flat() == Vacated(old(Flat()), from, n) && View() == EagerExit(old(View()), from, n)
      ensures st.Ok? ==> forall i :: from <= i < from + n ==> !dir[i].present
      ensures forall i :: 0 <= i < DIRS && !(from <= i < from + n) ==> dir[i] == old(dir[i])
      ensures st.Ok? ==>
        Free(memMap) + |Mapped(Flat())| == Free(old(memMap)) + |Mapped(old(Flat()))| + TableCount(old(dir), from, n)
    {
      hide FlatOf, Inv, Vacated, ViewOf, TabsOf, EagerExit, Free, Mapped;
      if from == 0 {
        return Panic;
      }
      st := Ok;
      var k := 0;
      VacatedRows(Flat(), from, 0);
      while k < n
        invariant 0 <= k <= n && st.Ok? && Valid() && Flat() == Vacated(old(Flat()), from, k)
        invariant forall i :: 0 <= i < DIRS && !(from <= i < from + k) ==> dir[i] == old(dir[i])
        invariant forall i :: from <= i < from + k ==> !dir[i].present
        invariant Free(memMap) + |Mapped(Flat())| ==
          Free(old(memMap)) + |Mapped(old(Flat()))| + TableCount(old(dir), from, k)
      {
        VacatedRows(old(Flat()), from, k);
        if dir[from + k].present {
          st := FreeTable(from + k);
        } else {
          EmptyRow(old(dir), old(tables), from + k);
        }
        k := k + 1;
      }
      ViewBound(old(State()), old(pages));
      VacatedView(old(Flat()), pages, from, n);
    }

    /** A fresh, empty page table for a directory entry that has none. */
    method AddTable(i: nat) returns (st: Status)
      requires Valid() && KERNEL <= i < DIRS && !dir[i].present
      modifies this
      ensures Valid() && Flat() == old(Flat()) && View() == old(View()) && !st.Panic?
      ensures st.OutOfMemory? ==> unchanged(this)
      ensures if st.OutOfMemory? then Free(old(memMap)) == 0 else Free(memMap) == Free(old(memMap)) - 1
      ensures st.Ok? ==> dir[i].present && held == old(held) && PagesKept(Flat(), old(pages), pages)
      ensures forall g :: LOW <= g < high && old(memMap[g - LOW]) != 0 ==>
        pages[g] == old(pages[g]) && memMap[g - LOW] == old(memMap[g - LOW])
      ensures st.Ok? ==> forall k :: 0 <= k < DIRS && k != i ==> dir[k] == old(dir[k])
      ensures forall k :: 0 <= k < KERNEL && dir[k].present ==> tables[dir[k].frame] == old(tables[dir[k].frame])
    {
      hide FlatOf, ViewOf, TabsOf, Domain, Exclusive, Aligned, OneKind, CountsOk, PagesKept, Free;
      var f := GetFreePage();
      if f == 0 {
        return OutOfMemory;
      }
      AddTableFlat(dir, tables, i, f);
      TabulateOk(State(), f);
      held := held[f := 0];
      dir := dir[i := Pte(f, true, true, false)];
      assert held == old(held);
      st := Ok;
    }

    /** One entry of copy_page_tables: from table fi to table ti, at index j. */
    method CopyEntry(fi: nat, ti: nat, j: nat)
      requires Valid() && fi < DIRS && KERNEL <= ti < DIRS && j < ENTRIES && fi != ti && dir[fi].present
        && dir[ti].present
      requires if fi == 0 then j < TASK0_PAGES else KERNEL <= fi && fi % TASK_DIRS == ti % TASK_DIRS
      requires Flat()[(ti, j)] == NONE
      modifies `memMap, `tables
      ensures Valid() && Free(memMap) == Free(old(memMap))
      ensures forall k :: 0 <= k < KERNEL && dir[k].present ==> tables[dir[k].frame] == old(tables[dir[k].frame])
      ensures var p := old(EntryAt(dir, tables, fi, j));
        if !p.present then Flat() == old(Flat())
        else Flat() == old(Flat())[(ti, j) := Bare(p)] ||
             ((fi, j) in old(Flat()) && p == old(Flat())[(fi, j)]
               && Flat() == old(Flat())[(fi, j) := Bare(p)][(ti, j) := Bare(p)])
    {
      hide FlatOf, Domain, Exclusive, Aligned, OneKind, CountsOk, Free;
      FlatEntries(dir, tables);
      var thisPage := tables[dir[fi].frame][j];
      if !thisPage.present {
        return;
      }
      thisPage := thisPage.(write := false);
      SetEntryFlat(dir, tables, ti, j, thisPage);
      if thisPage.frame >= LOW {
        InvBounds(State(), (fi, j));
        ShareOk(State(), (fi, j), (ti, j));
        ShareFree(State(), (fi, j));
        SetEntryFlat(dir, SetEntry(dir, tables, ti, j, thisPage), fi, j, thisPage);
      } else {
        QuietOk(State(), (ti, j), thisPage);
      }
      tables := tables[dir[ti].frame := tables[dir[ti].frame][j := thisPage]];
      if thisPage.frame >= LOW {
        tables := tables[dir[fi].frame := tables[dir[fi].frame][j := thisPage]];
        memMap := memMap[thisPage.frame - LOW := (memMap[thisPage.frame - LOW] + 1) % 256];
        assert Flat() == old(Flat())[(fi, j) := thisPage][(ti, j) := thisPage];
      }
    }

    /** The inner loop of copy_page_tables; S and F are the entries before and after the whole copy. */
    method CopyTable(fi: nat, ti: nat, nr: nat, ghost S: CowPaging.Flat, ghost F: CowPaging.Flat)
      requires Valid() && fi < DIRS && KERNEL <= ti < DIRS && fi != ti && dir[fi].present && dir[ti].present
      requires if fi == 0 then nr == TASK0_PAGES else KERNEL <= fi && fi % TASK_DIRS == ti % TASK_DIRS && nr == ENTRIES
      requires Copied(Flat(), S, F, ti, 0)
      requires forall j: nat :: j < nr ==> Target(S, F, ti, j, EntryAt(dir, tables, fi, j))
      requires forall j: nat :: j < nr ==> (ti, j) in Flat() && Flat()[(ti, j)] == NONE
      modifies `memMap, `tables
      ensures Valid() && Copied(Flat(), S, F, ti, nr) && Free(memMap) == Free(old(memMap))
      ensures KernelKept(dir, old(tables), tables) && OnlyRows(old(Flat()), Flat(), fi, ti, 1)
    {
      hide FlatOf, Inv, Copied, Domain, Free, OnlyRows;
      OnlyRowsSelf(Flat(), fi, ti, 1);
      var j := 0;
      while j < nr
        invariant 0 <= j <= nr && Valid() && Copied(Flat(), S, F, ti, j) && Free(memMap) == Free(old(memMap))
        invariant KernelKept(dir, old(tables), tables) && OnlyRows(old(Flat()), Flat(), fi, ti, 1)
        invariant forall k: nat :: j <= k < nr ==> Target(S, F, ti, k, EntryAt(dir, tables, fi, k))
        invariant forall k: nat :: j <= k < nr ==> (ti, k) in Flat() && Flat()[(ti, k)] == NONE
      {
        ghost var flat, p := Flat(), EntryAt(dir, tables, fi, j);
        FlatEntries(dir, tables);
        assert Target(S, F, ti, j, p);
        label before:
        CopyEntry(fi, ti, j);
        FlatEntries(dir, tables);
        forall k: nat | j < k < nr ensures EntryAt(dir, tables, fi, k) == old@before(EntryAt(dir, tables, fi, k)) {
          if fi != 0 { assert Flat()[(fi, k)] == flat[(fi, k)]; }
        }
        CopiedNext(flat, Flat(), S, F, (fi, j), ti, j, p);
        RowsNext(flat, Flat(), fi, ti, j, p);
        OnlyRowsMore(old(Flat()), flat, Flat(), fi, ti, 1, fi, ti, 1);
        j := j + 1;
      }
    }

    /** One round of the outer loop of copy_page_tables. */
    method CopyRow(fi: nat, ti: nat, nr: nat, ghost S: CowPaging.Flat, ghost F: CowPaging.Flat) returns (st: Status)
      requires Valid() && fi < DIRS && KERNEL <= ti < DIRS && fi != ti && dir[fi].present && !dir[ti].present
      requires if fi == 0 then nr == TASK0_PAGES else KERNEL <= fi && fi % TASK_DIRS == ti % TASK_DIRS && nr == ENTRIES
      requires Copied(Flat(), S, F, ti, 0)
      requires forall j: nat :: j < nr ==> Target(S, F, ti, j, EntryAt(dir, tables, fi, j))
      modifies this
      ensures Valid() && !st.Panic? && held == old(held) && PagesKept(old(Flat()), old(pages), pages)
      ensures st.OutOfMemory? ==> unchanged(this)
      ensures if st.OutOfMemory? then Free(old(memMap)) == 0 else Free(memMap) == Free(old(memMap)) - 1
      ensures st.Ok? ==> Copied(Flat(), S, F, ti, nr) && dir[ti].present
      ensures forall k :: 0 <= k < DIRS && k != ti ==> dir[k] == old(dir[k])
      ensures KernelKept(dir, old(tables), tables) && |dir| == DIRS && OnlyRows(old(Flat()), Flat(), fi, ti, 1)
    {
      hide FlatOf, Inv, Copied, Domain, PagesKept, Free, OnlyRows;
      OnlyRowsSelf(Flat(), fi, ti, 1);
      EmptyRow(dir, tables, ti);
      FlatEntries(dir, tables);
      SelfKept(State(), pages);
      st := AddTable(ti);
      if st.OutOfMemory? {
        return;
      }
      assert forall j: nat :: j < nr ==> EntryAt(dir, tables, fi, j) == old(EntryAt(dir, tables, fi, j)) by {
        FlatEntries(dir, tables);
        FlatEntries(old(dir), old(tables));
        assert fi != 0 ==> forall j: nat :: j < nr ==> Flat()[(fi, j)] == old(Flat())[(fi, j)];
      }
      CopyTable(fi, ti, nr, S, F);
    }

    /** The caller passes task bases: both or neither end of the copy are below KERNEL only for task 0. */
    ghost predicate CanCopy(from: nat, to: nat, n: nat) {
      && from + n <= DIRS && KERNEL <= to && to + n <= DIRS && (from + n <= to || to + n <= from)
      && from % TASK_DIRS == to % TASK_DIRS && (if from == 0 then n <= 1 else KERNEL <= from)
    }

    /** The loop invariant of copy_page_tables: k directory entries are done. */
    ghost predicate Progress(dir0: seq<Pte>, tables0: Tables, pages0: seq<seq<int>>, from: nat, to: nat, n: nat, k: nat)
      reads this
    {
      && Valid() && TablesOk(dir0, tables0) && |dir0| == DIRS && CanCopy(from, to, n) && k <= n
      && Copied(Flat(), Start(dir0, tables0), Finish(dir0, tables0, from, to, n), to + k, 0)
      && PagesKept(FlatOf(dir0, tables0), pages0, pages)
      && (forall i :: to <= i < to + k ==> !dir0[i].present)
      && SameTables(dir0, dir, from, to, k)
      && (forall i :: 0 <= i < DIRS && !(to <= i < to + k) ==> dir[i] == dir0[i])
      && KernelKept(dir, tables0, tables) && OnlyRows(FlatOf(dir0, tables0), Flat(), from, to, n)
    }

    method CopyDir(from: nat, to: nat, n: nat, k: nat, ghost dir0: seq<Pte>, ghost tables0: Tables,
                   ghost pages0: seq<seq<int>>)
      returns (st: Status)
      requires Progress(dir0, tables0, pages0, from, to, n, k) && k < n && !dir[to + k].present
      modifies this
      ensures !st.Panic? && held == old(held)
      ensures if st.OutOfMemory? then Free(old(memMap)) == 0 && old(dir)[from + k].present
        else Free(memMap) == Free(old(memMap)) - if old(dir)[from + k].present then 1 else 0
      ensures Progress(dir0, tables0, pages0, from, to, n, if st.Ok? then k + 1 else k)
    {
      hide FlatOf, Inv, Copied, Domain, PagesKept, Start, Finish, Target, TablesOk, EntryAt, TabsOf, InBounds, Free;
      if dir[from + k].present {
        st := CopyPresent(from, to, n, k, dir0, tables0, pages0);
      } else {
        RowAbsent(dir0, tables0, from, to, n, k);
        CopiedRow(Flat(), Start(dir0, tables0), Finish(dir0, tables0, from, to, n), to + k, 0);
        st := Ok;
      }
    }

    method CopyPresent(from: nat, to: nat, n: nat, k: nat, ghost dir0: seq<Pte>, ghost tables0: Tables,
                       ghost pages0: seq<seq<int>>)
      returns (st: Status)
      requires Progress(dir0, tables0, pages0, from, to, n, k) && k < n && dir[from + k].present && !dir[to + k].present
      modifies this
      ensures !st.Panic? && held == old(held)
      ensures if st.OutOfMemory? then Free(old(memMap)) == 0 && old(dir)[from + k].present
        else Free(memMap) == Free(old(memMap)) - if old(dir)[from + k].present then 1 else 0
      ensures Progress(dir0, tables0, pages0, from, to, n, if st.Ok? then k + 1 else k)
    {
      hide FlatOf, Inv, Copied, Domain, PagesKept, Start, Finish, Target, TablesOk, EntryAt, TabsOf, InBounds, Free,
           KernelKept, OnlyRows;
      ghost var S, F := Start(dir0, tables0), Finish(dir0, tables0, from, to, n);
      var fi, ti := from + k, to + k;
      var nr := if from == 0 then TASK0_PAGES else ENTRIES;
      SameRow(from, to, k);
      Targets(dir0, tables0, dir, tables, from, to, n, fi, ti, nr);
      ghost var flat, pages1, dir1, tables1 := Flat(), pages, dir, tables;
      st := CopyRow(fi, ti, nr, S, F);
      KernelNext(dir1, dir, tables0, tables1, tables);
      KeptStill(dir0, tables0, flat, from, to, n, k, pages0, pages1, pages);
      OnlyRowsMore(FlatOf(dir0, tables0), flat, Flat(), from, to, n, fi, ti, 1);
      if st.Ok? {
        RowRest(dir0, tables0, from, to, n, k);
        CopiedRow(Flat(), S, F, ti, nr);
      }
    }

    /** copy_page_tables for n directory entries. */
    method CopyPageTables(from: nat, to: nat, n: nat) returns (st: Status)
      requires Valid() && CanCopy(from, to, n)
      modifies this
      ensures Valid() && held == old(held) && PagesKept(old(Flat()), old(pages), pages)
      ensures forall i :: 0 <= i < DIRS && !(to <= i < to + n) ==> dir[i] == old(dir[i])
      ensures st.Ok? ==> View() == EagerFork(old(View()), from, to, n)
      ensures st.Panic? ==> exists i :: to <= i < to + n && old(dir[i].present)
      ensures st.Ok? ==> forall i :: to <= i < to + n ==> !old(dir[i].present)
      ensures !st.Panic? ==> SameOutside(old(Flat()), Flat(), to, n)
      ensures !st.Panic? ==> (st.OutOfMemory? <==> Free(old(memMap)) < TableCount(old(dir), from, n))
      ensures st.Ok? ==> Free(memMap) == Free(old(memMap)) - TableCount(old(dir), from, n)
      ensures st.Ok? ==> SameTables(old(dir), dir, from, to, n)
      ensures st.Ok? ==> Forked(old(Flat()), Flat(), Finish(old(dir), old(tables), from, to, n), from, to, n)
      ensures !st.Panic? ==> OnlyRows(old(Flat()), Flat(), from, to, n)
    {
      hide FlatOf, Inv, Copied, Domain, PagesKept, Start, Finish, ViewOf, EagerFork, SameOutside, Target, TablesOk,
           Free, Forked, OnlyRows, KernelKept;
      ghost var dir0, tables0, pages0 := dir, tables, pages;
      StartCopied(dir0, tables0, from, to, n);
      SelfKept(State(), pages);
      Task0Low(dir0, tables0);
      KernelSelf(dir0, tables0);
      OnlyRowsSelf(Flat(), from, to, n);
      var k := 0;
      while k < n
        invariant 0 <= k <= n && Progress(dir0, tables0, pages0, from, to, n, k) && held == old(held)
        invariant Free(memMap) + TableCount(dir0, from, k) == Free(old(memMap))
      {
        MoreTables(dir0, from, k + 1, n);
        if dir[to + k].present {
          assert dir[to + k] == dir0[to + k];
          return Panic;
        }
        st := CopyDir(from, to, n, k, dir0, tables0, pages0);
        if st.OutOfMemory? {
          OutsideSame(dir0, tables0, Flat(), from, to, n, k);
          return;
        }
        k := k + 1;
      }
      st := Ok;
      SelfKept(State(), pages);
      OutsideSame(dir0, tables0, Flat(), from, to, n, n);
      CopyView(Flat(), pages, dir0, tables0, pages0, from, to, n);
      ForkedNow(State(), FlatOf(dir0, tables0), dir0, tables0, from, to, n);
    }

    /** copy_mem: copy the tables of the current task (at base) for task nr, or undo the attempt. */
    method CopyMem(base: nat, nr: nat, n: nat) returns (st: Status)
      requires Valid() && CanCopy(base, nr * TASK_DIRS, n)
      modifies this
      ensures Valid() && held == old(held)
      ensures st.Ok? ==> View() == EagerFork(old(View()), base, nr * TASK_DIRS, n)
      ensures st.Panic? ==> exists i :: nr * TASK_DIRS <= i < nr * TASK_DIRS + n && old(dir[i].present)
      ensures !st.Panic? ==> (st.OutOfMemory? <==> Free(old(memMap)) < TableCount(old(dir), base, n))
      ensures st.OutOfMemory? && (forall i :: nr * TASK_DIRS <= i < nr * TASK_DIRS + n ==> !old(dir[i].present)) ==>
        memMap == old(memMap) && View() == old(View()) && SameOutside(old(Flat()), Flat(), 0, 0)
      ensures st.Ok? ==> Free(memMap) == Free(old(memMap)) - TableCount(old(dir), base, n)
      ensures st.Ok? ==> SameTables(old(dir), dir, base, nr * TASK_DIRS, n)
      ensures st.Ok? ==>
        var to := nr * TASK_DIRS;
        Forked(old(Flat()), Flat(), Finish(old(dir), old(tables), base, to, n), base, to, n)
      ensures st.OutOfMemory? ==> forall i :: nr * TASK_DIRS <= i < nr * TASK_DIRS + n ==> !dir[i].present
      ensures forall i :: 0 <= i < DIRS && !(nr * TASK_DIRS <= i < nr * TASK_DIRS + n) ==> dir[i] == old(dir[i])
    {
      hide FlatOf, Inv, PagesKept, ViewOf, EagerFork, EagerExit, SameOutside, Vacated, TablesOk, Free, TableCount;
      var to := nr * TASK_DIRS;
      ghost var c0, pages0 := State(), pages;
      st := CopyPageTables(base, to, n);
      if st.OutOfMemory? {
        ghost var flat1 := Flat();
        SelfKept(State(), pages);
        var st' := FreePageTables(to, n);
        SelfKept(c0, pages0);
        SelfKept(State(), pages);
        if forall i :: to <= i < to + n ==> !old(dir[i].present) {
          EmptyRows(old(dir), old(tables), to, n);
          Undone(c0, State(), flat1, to, n);
          UndoneTabs(old(dir), dir, to, n);
          UndoneCounts(c0, State());
          UndoneView(c0.flat, Flat(), pages0, pages);
        }
      }
    }

    /** put_page: map a page that the caller got from get_free_page at a slot that is not present. */
    method PutPage(page: nat, i: nat, j: nat) returns (st: Status)
      requires Valid() && LOW <= page < high && held[page] == 1
      requires KERNEL <= i < DIRS && j < ENTRIES && (i, j) in Flat() && !Flat()[(i, j)].present
      modifies this
      ensures Valid() && !st.Panic?
      ensures st.OutOfMemory? ==> unchanged(this)
      ensures st.OutOfMemory? <==> !old(dir)[i].present && Free(old(memMap)) == 0
      ensures st.Ok? ==> View() == old(View())[(i, j) := old(pages[page])] && held == old(held)[page := 0]
      ensures st.Ok? ==> dir[i].present && Free(memMap) == Free(old(memMap)) - if old(dir)[i].present then 0 else 1
      ensures st.Ok? ==> Flat() == old(Flat())[(i, j) := Pte(page, true, true, false)]
      ensures forall k :: 0 <= k < DIRS && k != i ==> dir[k] == old(dir[k])
    {
      hide Domain, Exclusive, Aligned, OneKind, TabsOf, FlatOf, ViewOf, PagesKept, InBounds, Free;
      HeldAlone(State(), page);
      if !dir[i].present {
        st := AddTable(i);
        if st.OutOfMemory? {
          return;
        }
      }
      st := Ok;
      ghost var p := Pte(page, true, true, false);
      SelfKept(State(), pages);
      EnterView(Flat(), pages, (i, j), p);
      EnterOk(State(), (i, j), page);
      SetEntryFlat(dir, tables, i, j, p);
      tables := tables[dir[i].frame := tables[dir[i].frame][j := Pte(page, true, true, false)]];
      held := held[page := 0];
    }

    /** get_empty_page: a zeroed page at a slot that is not present. */
    method GetEmptyPage(i: nat, j: nat) returns (st: Status)
      requires Valid() && KERNEL <= i < DIRS && j < ENTRIES && (i, j) in Flat() && !Flat()[(i, j)].present
      modifies this
      ensures Valid() && !st.Panic? && held == old(held)
      ensures View() == if st.Ok? then old(View())[(i, j) := ZeroPage()] else old(View())
      ensures st.OutOfMemory? <==> Free(old(memMap)) < if old(dir)[i].present then 1 else 2
      ensures st.OutOfMemory? ==> dir == old(dir) && Free(memMap) == Free(old(memMap))
      ensures st.Ok? ==> dir[i].present && Free(memMap) == Free(old(memMap)) - if old(dir)[i].present then 1 else 2
      ensures st.Ok? ==>
        (i, j) in Flat() && Flat() == old(Flat())[(i, j) := Pte(Flat()[(i, j)].frame, true, true, false)]
      ensures forall k :: 0 <= k < DIRS && k != i ==> dir[k] == old(dir[k])
    {
      hide Domain, Exclusive, Aligned, OneKind, TabsOf, FlatOf, ViewOf, PagesKept, InBounds, CountsOk, Free;
      var tmp := GetFreePage();
      if tmp == 0 {
        return OutOfMemory;
      }
      st := PutPage(tmp, i, j);
      if st.OutOfMemory? {
        ReleaseOk(State(), tmp);
        FreeUpdate(memMap, tmp - LOW, 0);
        var freed := FreePage(tmp);
        held := held[tmp := 0];
      }
      assert held == old(held);
    }

    /** un_wp_page: make a present entry writable, copying its page unless it is the only user. */
    method UnWpPage(i: nat, j: nat) returns (st: Status)
      requires Valid() && KERNEL <= i < DIRS && j < ENTRIES && (i, j) in Flat() && Flat()[(i, j)].present
      modifies this
      ensures Valid() && !st.Panic? && held == old(held)
      ensures st.OutOfMemory? ==> unchanged(this)
      ensures st.OutOfMemory? <==> old(Shared(Flat()[(i, j)], memMap)) && Free(old(memMap)) == 0
      ensures st.Ok? ==> Flat()[(i, j)].present && Flat()[(i, j)].write && (i, j) in View()
      ensures dir == old(dir)
      ensures st.Ok? ==> Free(memMap) == Free(old(memMap)) - if old(Shared(Flat()[(i, j)], memMap)) then 1 else 0
      ensures st.Ok? ==> (i, j) in Flat() && Unprotected(old(Flat()), Flat(), (i, j), old(memMap))
      ensures st.Ok? ==>
        View() == if (i, j) in old(View()) then old(View()) else old(View())[(i, j) := old(pages[Flat()[(i, j)].frame])]
    {
      hide Domain, Aligned, OneKind, TabsOf, FlatOf, ViewOf, PagesKept, InBounds, CountsOk, Free;
      FlatEntries(dir, tables);
      SelfKept(State(), pages);
      var e := tables[dir[i].frame][j];
      ViewSlot(Flat(), pages, (i, j));
      if e.frame >= LOW && memMap[e.frame - LOW] == 1 {
        UnprotectOk(State(), (i, j));
        SetEntryFlat(dir, tables, i, j, e.(write := true));
        SameView(Flat(), pages, (i, j), e.(write := true));
        tables := tables[dir[i].frame := tables[dir[i].frame][j := e.(write := true)]];
        ViewSlot(Flat(), pages, (i, j));
        return Ok;
      }
      PresentBound(State(), (i, j));
      ghost var page := pages[e.frame];
      if e.frame >= LOW { RefCounted(State(), (i, j)); }
      var fresh' := GetFreePage();
      if fresh' == 0 {
        return OutOfMemory;
      }
      assert pages[e.frame] == page;
      MoveTo(fresh', e, i, j);
      st := Ok;
      assert View() == old(View())[(i, j) := page];
      ViewSlot(Flat(), pages, (i, j));
      assert held == old(held);
    }

    /** The entry at s has become writable, with a page of its own. */
    ghost predicate Unprotected(flat: CowPaging.Flat, flat': CowPaging.Flat, s: Slot, count: seq<nat>)
      requires s in flat && s in flat'
    {
      if Shared(flat[s], count)
      then flat' == flat[s := Pte(flat'[s].frame, true, true, false)] && flat'[s].frame != flat[s].frame
      else flat' == flat[s := flat[s].(write := true)]
    }

    /** The copying half of un_wp_page: the entry leaves its old frame for a fresh one with the same contents. */
    method MoveTo(fresh': nat, e: Pte, i: nat, j: nat)
      requires Valid() && LOW <= fresh' < high && held[fresh'] == 1
      requires KERNEL <= i < DIRS && j < ENTRIES && (i, j) in Flat() && Flat()[(i, j)] == e && e.present
      requires Shared(e, memMap)
      modifies this
      ensures Valid() && held == old(held)[fresh' := 0] && dir == old(dir)
      ensures Free(memMap) == Free(old(memMap))
      ensures Flat() == old(Flat())[(i, j) := Pte(fresh', true, true, false)] && InBounds(Flat(), pages)
      ensures View() == old(View())[(i, j) := old(pages[e.frame])]
    {
      hide Inv, TabsOf, FlatOf, ViewOf, PagesKept, InBounds, Free, Shared;
      FlatEntries(dir, tables);
      SelfKept(State(), pages);
      InvSize(State());
      HeldAlone(State(), fresh');
      PresentBound(State(), (i, j));
      ghost var p := Pte(fresh', true, true, false);
      MoveView(Flat(), pages, (i, j), fresh', pages[e.frame]);
      SetEntryFlat(dir, tables, i, j, p);
      ghost var c := State();
      MoveOk(c, (i, j), fresh');
      if e.frame >= LOW {
        memMap := memMap[e.frame - LOW := memMap[e.frame - LOW] - 1];
      }
      held := held[fresh' := 0];
      tables := tables[dir[i].frame := tables[dir[i].frame][j := Pte(fresh', true, true, false)]];
      pages := pages[fresh' := pages[e.frame]];
      assert State() == Move(c, (i, j), fresh');
      SelfKept(State(), pages);
    }

    /** A store by a user task to a present page: a write fault first if the entry is read-only. */
    method UserWrite(i: nat, j: nat, offset: nat, value: int) returns (st: Status)
      requires Valid() && KERNEL <= i < DIRS && j < ENTRIES && offset < PAGE_SIZE && (i, j) in Flat()
        && Flat()[(i, j)].present
      modifies this
      ensures Valid() && !st.Panic? && held == old(held)
      ensures st.OutOfMemory? ==> unchanged(this)
      ensures st.OutOfMemory? <==>
        old(!Flat()[(i, j)].write && Shared(Flat()[(i, j)], memMap)) && Free(old(memMap)) == 0
      ensures dir == old(dir)
      ensures st.Ok? ==>
        Free(memMap) == Free(old(memMap)) - if old(!Flat()[(i, j)].write && Shared(Flat()[(i, j)], memMap)) then 1
          else 0
      ensures st.Ok? ==> |old(pages[Flat()[(i, j)].frame])| == PAGE_SIZE
      ensures st.Ok? ==>
        (i, j) in Flat() && Flat() == old(Flat())[(i, j) := Pte(Flat()[(i, j)].frame, true, true, true)]
      ensures st.Ok? ==> (Flat()[(i, j)].frame == old(Flat()[(i, j)].frame) <==>
        old(Flat()[(i, j)].write || !Shared(Flat()[(i, j)], memMap)))
      ensures st.Ok? ==> View() == old(View())[(i, j) := old(pages[Flat()[(i, j)].frame])[offset := value]]
    {
      hide Domain, Aligned, OneKind, TabsOf, FlatOf, ViewOf, PagesKept, InBounds, CountsOk, Free;
      FlatEntries(dir, tables);
      SelfKept(State(), pages);
      ViewSlot(Flat(), pages, (i, j));
      st := Ok;
      if !tables[dir[i].frame][j].write {
        st := UnWpPage(i, j);
        if st.OutOfMemory? {
          return;
        }
      }
      FlatEntries(dir, tables);
      SelfKept(State(), pages);
      ViewSlot(Flat(), pages, (i, j));
      StoreByte(i, j, offset, value);
    }

    /** The store itself, through a writable entry; the processor sets the dirty bit. */
    method StoreByte(i: nat, j: nat, offset: nat, value: int)
      requires Valid() && KERNEL <= i < DIRS && j < ENTRIES && offset < PAGE_SIZE && (i, j) in Flat()
      requires Flat()[(i, j)].present && Flat()[(i, j)].write
      modifies `pages, `tables
      ensures Valid() && (i, j) in old(View()) && |old(View())[(i, j)]| == PAGE_SIZE
      ensures View() == old(View())[(i, j) := old(View())[(i, j)][offset := value]]
      ensures Flat() == old(Flat())[(i, j) := old(Flat())[(i, j)].(dirty := true)]
    {
      hide Domain, Aligned, OneKind, TabsOf, FlatOf, ViewOf, PagesKept, InBounds, CountsOk;
      FlatEntries(dir, tables);
      SelfKept(State(), pages);
      ViewSlot(Flat(), pages, (i, j));
      var e := tables[dir[i].frame][j];
      WriteView(Flat(), pages, (i, j), pages[e.frame][offset := value]);
      pages := pages[e.frame := pages[e.frame][offset := value]];
      SameView(Flat(), pages, (i, j), e.(dirty := true));
      WeakenOk(State(), (i, j), e.(dirty := true));
      SetEntryFlat(dir, tables, i, j, e.(dirty := true));
      tables := tables[dir[i].frame := tables[dir[i].frame][j := e.(dirty := true)]];
    }

    /** try_to_share: let the slot at index d of the current task's tables use the clean page of another task. */
    method TryToShare(d: nat, j: nat, other: nat, mine: nat) returns (st: Status, shared: bool)
      requires Valid() && d < TASK_DIRS && j < ENTRIES && other % TASK_DIRS == 0 && mine % TASK_DIRS == 0
        && other != mine
      requires KERNEL <= other && other + d < DIRS && KERNEL <= mine && mine + d < DIRS
      modifies this
      ensures Valid() && held == old(held)
      ensures shared ==> st.Ok? && (other + d, j) in old(View())
      ensures View() == if shared then old(View())[(mine + d, j) := old(View())[(other + d, j)]] else old(View())
      ensures st.Panic? ==> (mine + d, j) in old(Flat()) && old(Flat()[(mine + d, j)].present)
      ensures shared <==> Sharable(old(Now()), high, other + d, mine + d, j)
      ensures shared ==> Joined(old(Now()), mine + d)
      ensures shared ==> (other + d, j) in old(Flat()) && Flat() == Joint(old(Flat()), (other + d, j), (mine + d, j))
      ensures !shared ==> dir == old(dir) && Free(memMap) == Free(old(memMap))
    {
      hide Domain, Aligned, OneKind, TabsOf, FlatOf, ViewOf, PagesKept, InBounds, CountsOk, Free;
      SameRow(other, mine, d);
      var fi, ti := other + d, mine + d;
      st, shared := Ok, false;
      FlatEntries(dir, tables);
      SelfKept(State(), pages);
      if !dir[fi].present {
        return;
      }
      var e := tables[dir[fi].frame][j];
      if !(e.present && !e.dirty) {
        return;
      }
      if e.frame >= high || e.frame < LOW {
        return;
      }
      st, shared := ShareInto(fi, ti, j);
    }

    /** The second half of try_to_share: a table for the target if it has none, then the entry. */
    method ShareInto(fi: nat, ti: nat, j: nat) returns (st: Status, shared: bool)
      requires Valid() && KERNEL <= fi < DIRS && KERNEL <= ti < DIRS && fi != ti && fi % TASK_DIRS == ti % TASK_DIRS
        && j < ENTRIES
      requires dir[fi].present && (fi, j) in Flat() && Counted(Flat()[(fi, j)]) && !Flat()[(fi, j)].dirty
      modifies this
      ensures Valid() && held == old(held)
      ensures shared ==> st.Ok? && (fi, j) in old(View())
      ensures View() == if shared then old(View())[(ti, j) := old(View())[(fi, j)]] else old(View())
      ensures st.Panic? ==> (ti, j) in old(Flat()) && old(Flat()[(ti, j)].present)
      ensures (ti, j) in old(Flat())
      ensures shared <==> !old(Flat()[(ti, j)].present) && (old(dir)[ti].present || Free(old(memMap)) > 0)
      ensures shared ==> Joined(old(Now()), ti)
      ensures shared ==> Flat() == Joint(old(Flat()), (fi, j), (ti, j))
      ensures !shared ==> dir == old(dir) && Free(memMap) == Free(old(memMap))
    {
      hide Domain, Aligned, OneKind, TabsOf, FlatOf, ViewOf, PagesKept, InBounds, CountsOk, Free;
      st, shared := Ok, false;
      FlatEntries(dir, tables);
      SelfKept(State(), pages);
      var e := tables[dir[fi].frame][j];
      if !dir[ti].present {
        st := AddTable(ti);
        if st.OutOfMemory? {
          return;
        }
      }
      FlatEntries(dir, tables);
      SelfKept(State(), pages);
      assert Flat()[(fi, j)] == e;
      if tables[dir[ti].frame][j].present {
        st := Panic;
        return;
      }
      Join(fi, ti, j, e.(write := false));
      shared := true;
    }

    /** Two entries that share one page, read-only. */
    ghost function Joint(flat: CowPaging.Flat, s: Slot, t: Slot): CowPaging.Flat
      requires s in flat
    {
      flat[s := Bare(flat[s])][t := Bare(flat[s])]
    }

    /** A page was shared into the table of entry ti: a frame less is free if the table had to be made. */
    ghost predicate Joined(s: Snap, ti: nat)
      requires |s.dir| == |dir| == DIRS && ti < DIRS
      reads this
    {
      && dir[ti].present && Free(memMap) == Free(s.memMap) - (if s.dir[ti].present then 0 else 1)
      && forall k :: 0 <= k < DIRS && k != ti ==> dir[k] == s.dir[k]
    }

    /** The sharing step itself: both entries become the same read-only reference. */
    method Join(fi: nat, ti: nat, j: nat, p: Pte)
      requires Valid() && KERNEL <= fi < DIRS && KERNEL <= ti < DIRS && fi != ti && fi % TASK_DIRS == ti % TASK_DIRS
        && j < ENTRIES
      requires dir[fi].present && dir[ti].present && (fi, j) in Flat() && (ti, j) in Flat()
      requires Counted(Flat()[(fi, j)]) && p == Bare(Flat()[(fi, j)]) && !Flat()[(ti, j)].present
      modifies `tables, `memMap
      ensures Valid() && (fi, j) in old(View()) && View() == old(View())[(ti, j) := old(View())[(fi, j)]]
      ensures Free(memMap) == Free(old(memMap)) && Flat() == old(Flat())[(fi, j) := p][(ti, j) := p]
    {
      hide Domain, Aligned, OneKind, TabsOf, FlatOf, ViewOf, PagesKept, InBounds, CountsOk, Free;
      FlatEntries(dir, tables);
      SelfKept(State(), pages);
      ViewSlot(Flat(), pages, (fi, j));
      ShareFree(State(), (fi, j));
      InvBounds(State(), (fi, j));
      ShareOk(State(), (fi, j), (ti, j));
      SetEntryFlat(dir, tables, fi, j, p);
      SetEntryFlat(dir, SetEntry(dir, tables, fi, j, p), ti, j, p);
      SameView(Flat(), pages, (fi, j), p);
      EnterView(Flat()[(fi, j) := p], pages, (ti, j), p);
      tables := tables[dir[fi].frame := tables[dir[fi].frame][j := p]];
      tables := tables[dir[ti].frame := tables[dir[ti].frame][j := p]];
      memMap := memMap[p.frame - LOW := (memMap[p.frame - LOW] + 1) % 256];
    }

    /** mem_init: the frames from start to end are free, all others reserved; only the kernel is mapped. */
    constructor (start: nat, end: nat, kernelDir: seq<Pte>, kernelTables: Tables, contents: seq<seq<int>>)
      requires LOW <= start <= end <= LOW + PAGING
      requires TablesOk(kernelDir, kernelTables) && forall i :: KERNEL <= i < DIRS ==> !kernelDir[i].present
      requires forall j :: 0 <= j < TASK0_PAGES ==>
        kernelDir[0].present && kernelTables[kernelDir[0].frame][j].present ==>
        kernelTables[kernelDir[0].frame][j].frame < LOW
      requires |contents| == LOW + PAGING && forall f :: 0 <= f < |contents| ==> |contents[f]| == PAGE_SIZE
      ensures Valid() && View() == map[] && high == end && pages == contents
      ensures forall k :: 0 <= k < PAGING ==> memMap[k] == if start <= LOW + k < end then 0 else RESERVED
    {
      memMap := seq(PAGING, k => if start <= LOW + k < end then 0 else RESERVED);
      dir, tables, pages, high := kernelDir, kernelTables, contents, end;
      held := ReservedFrames(start, end, LOW + PAGING);
      new;
      InitOk(State(), dir, tables);
    }

    predicate Present(i: nat, j: nat)
      reads this
      requires |dir| == DIRS
    {
      && KERNEL <= i < DIRS && j < ENTRIES && dir[i].present
      && dir[i].frame in tables && j < |tables[dir[i].frame]| && tables[dir[i].frame][j].present
    }

    lemma PresentSlot(i: nat, j: nat)
      requires Valid() && KERNEL <= i < DIRS && j < ENTRIES
      ensures (i, j) in Flat() && (Present(i, j) <==> Flat()[(i, j)].present) && InBounds(Flat(), pages)
      ensures (i, j) in View() <==> Counted(Flat()[(i, j)])
      ensures (i, j) in View() ==> View()[(i, j)] == pages[Flat()[(i, j)].frame]
      ensures Present(i, j) ==> Flat()[(i, j)] == tables[dir[i].frame][j] && Flat()[(i, j)].frame < |pages|
    {
      FlatEntries(dir, tables);
      SelfKept(State(), pages);
      if Present(i, j) { PresentBound(State(), (i, j)); }
    }

    ghost function Now(): Snap reads this { Snap(memMap, dir, tables, pages) }

    lemma SnapIs()
      requires Valid()
      ensures SnapView(Now()) == View() && InOrder(Now(), held, high)
    {
      hide FlatOf, ViewOf, Inv, InBounds;
      SelfKept(State(), pages);
    }

    /** fork, as far as memory goes, and exit. */
    method PerformRange(op: Op) returns (o: Outcome)
      requires Valid() && (op.Fork? || op.Exit?)
      modifies this
      ensures Valid() && View() == Eager(old(View()), op, o) && held == old(held)
      ensures Answers(old(Now()), high, op, o) && Accounts(old(Now()), op, o, Now())
      ensures o.Done? ==> Entries(old(Now()), op, Now())
    {
      hide Inv, FlatOf, ViewOf, TabsOf, EagerFork, EagerExit, TablesOk, InBounds, Free, TableCount, Shared, Accounts,
           Mapped, Vacated, Forked, Finish;
      ghost var s := Now();
      match op {
        case Fork(base, nr, n) =>
          var to := nr * TASK_DIRS;
          if Forkable(base, to, n) && FreeRange(to, n) {
            var st := CopyMem(base, nr, n);
            if st.Ok? {
              ForkAccounts(s, Now(), base, nr, n);
              return Done([]);
            }
          }
        case Exit(base, n) =>
          if KERNEL <= base && base + n <= DIRS {
            var st := FreePageTables(base, n);
            ExitAccounts(s, Now(), base, n);
            return Done([]);
          }
      }
      RefusedAccounts(s, Now(), op);
      return Refused;
    }

    /** Stores and write faults. */
    method PerformAccess(op: Op) returns (o: Outcome)
      requires Valid() && (op.Store? || op.Fault?)
      modifies this
      ensures Valid() && View() == Eager(old(View()), op, o) && held == old(held)
      ensures Answers(old(Now()), high, op, o) && Accounts(old(Now()), op, o, Now())
      ensures o.Done? ==> Entries(old(Now()), op, Now())
    {
      hide Inv, FlatOf, ViewOf, TabsOf, EagerFork, EagerExit, TablesOk, InBounds, Free, TableCount, Shared, Accounts,
           Mapped, Vacated, Forked, Finish;
      ghost var s := Now();
      if Present(op.i, op.j) && (op.Store? ==> op.offset < PAGE_SIZE) {
        PresentSlot(op.i, op.j);
        var seen, st := pages[tables[dir[op.i].frame][op.j].frame], Ok;
        if op.Store? {
          st := UserWrite(op.i, op.j, op.offset, op.value);
        } else {
          st := UnWpPage(op.i, op.j);
        }
        if st.Ok? {
          EntryAccounts(s, Now(), op, seen);
          return Done(seen);
        }
      }
      RefusedAccounts(s, Now(), op);
      return Refused;
    }

    /** Pages that were missing. */
    method PerformMissing(op: Op) returns (o: Outcome)
      requires Valid() && (op.Touch? || op.Borrow?)
      modifies this
      ensures Valid() && View() == Eager(old(View()), op, o) && held == old(held)
      ensures Answers(old(Now()), high, op, o) && Accounts(old(Now()), op, o, Now())
      ensures o.Done? ==> Entries(old(Now()), op, Now())
    {
      hide Inv, FlatOf, ViewOf, TabsOf, EagerFork, EagerExit, TablesOk, InBounds, Free, TableCount, Shared, Accounts,
           Mapped, Vacated, Forked, Finish;
      ghost var s := Now();
      match op {
        case Touch(i, j) =>
          if KERNEL <= i < DIRS && j < ENTRIES && !Present(i, j) {
            PresentSlot(i, j);
            var st := GetEmptyPage(i, j);
            if st.Ok? {
              EntryAccounts(s, Now(), op, []);
              return Done([]);
            }
          }
        case Borrow(d, j, other, mine) =>
          if Borrowable(d, j, other, mine) {
            var st, shared := TryToShare(d, j, other, mine);
            if shared {
              EntryAccounts(s, Now(), op, []);
              return Done([]);
            }
          }
      }
      RefusedAccounts(s, Now(), op);
      return Refused;
    }

    /**
     * Carry out one request. It is refused exactly if it is malformed, its target is occupied or memory
     * is short, and it takes no more frames and page tables than it needs.
     */
    method Perform(op: Op) returns (o: Outcome)
      requires Valid()
      modifies this
      ensures Valid() && View() == Eager(old(View()), op, o) && held == old(held)
      ensures Answers(old(Now()), high, op, o) && Accounts(old(Now()), op, o, Now())
      ensures o.Done? ==> Entries(old(Now()), op, Now())
    {
      hide Valid, View, Now, Eager, Answers, Accounts, Entries;
      if op.Fork? || op.Exit? {
        o := PerformRange(op);
      } else if op.Store? || op.Fault? {
        o := PerformAccess(op);
      } else {
        o := PerformMissing(op);
      }
    }

    predicate FreeRange(to: nat, n: nat)
      reads this
      requires |dir| == DIRS && to + n <= DIRS
    {
      forall i :: to <= i < to + n ==> !dir[i].present
    }

    /**
     * After any run, each task sees what it would see had every page been copied at fork, and the
     * counts are right. The states in between are returned: each is in order, and each request is
     * refused exactly if it has to be in the state it meets.
     */
    method Run(ops: seq<Op>) returns (os: seq<Outcome>, ghost ss: seq<Snap>)
      requires Valid()
      modifies this
      ensures Valid() && held == old(held) && |os| == |ops| && View() == EagerRun(old(View()), ops, os)
      ensures |ss| == |ops| + 1 && ss[0] == old(Now()) && ss[|ops|] == Now()
      ensures forall k :: 0 <= k < |ss| ==> InOrder(ss[k], held, high)
      ensures forall k :: 0 <= k < |ops| ==> Follows(ss[k], high, ops[k], os[k], ss[k + 1])
    {
      hide Inv, FlatOf, ViewOf, TabsOf, Eager, TablesOk, Answers, Accounts, Entries, SnapView, InOrder;
      os, ss := [], [Now()];
      SnapIs();
      while |os| < |ops|
        invariant Valid() && held == old(held) && |os| <= |ops| && View() == EagerRun(old(View()), ops[..|os|], os)
        invariant |ss| == |os| + 1 && ss[0] == old(Now()) && ss[|os|] == Now()
        invariant forall k :: 0 <= k < |ss| ==> InOrder(ss[k], held, high)
        invariant forall k :: 0 <= k < |os| ==> Follows(ss[k], high, ops[k], os[k], ss[k + 1])
      {
        var k := |os|;
        SnapIs();
        var o := Perform(ops[k]);
        SnapIs();
        assert ops[..k + 1][..k] == ops[..k] && (os + [o])[..k] == os;
        os := os + [o];
        ss := ss + [Now()];
      }
      assert ops[..|os|] == ops;
    }
  }
}
