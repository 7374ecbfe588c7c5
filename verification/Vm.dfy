/** Building the kernel's page tables with pages from the kernel allocator. */
module Vm {
  import opened Wrappers
  import opened MemUtils
  import opened PageTables
  import opened RangeAllocs
  import PageRuns
  import Kalloc

  datatype VmError = NotPresent | OutOfMemory | Remap
  type VmResult<T> = Result<T, VmError>

  /** A single page can be allocated exactly when some page is free. */
  lemma OnePage(runs: seq<PageRuns.Run>)
    requires PageRuns.Canonical(runs)
    ensures PageRuns.PageCount(runs) > 0 <==> exists p: nat :: PageRuns.Span(p, 1) <= PageRuns.PageSet(runs)
  {
    hide PageRuns.PageSet, PageRuns.PageCount, PageRuns.Canonical;
    PageRuns.PageSetCard(runs);
    var free := PageRuns.PageSet(runs);
    if free != {} {
      var p :| p in free;
      assert PageRuns.Span(p, 1) <= free;
    }
    forall p: nat | PageRuns.Span(p, 1) <= free ensures free != {} {
      assert p in PageRuns.Span(p, 1);
    }
  }

  /** The allocator has written into no page that was in use, page tables among them, and all of
      those are still in use. */
  ghost predicate PagesKept(mem: Kalloc.Memory, l: Ledger, mem': Kalloc.Memory, l': Ledger) {
    OwnedKept(mem, mem', l) && l.owner.Keys <= l'.owner.Keys
  }

  lemma PagesKeptRefl(mem: Kalloc.Memory, l: Ledger)
    ensures PagesKept(mem, l, mem, l)
  {
  }

  lemma PagesKeptTrans(mem: Kalloc.Memory, l: Ledger, mem1: Kalloc.Memory, l1: Ledger, mem2: Kalloc.Memory, l2: Ledger)
    requires PagesKept(mem, l, mem1, l1) && PagesKept(mem1, l1, mem2, l2)
    ensures PagesKept(mem, l, mem2, l2)
  {
  }

  class PageMap {
    const alloc: RangeAlloc
    const dirAddr: nat                 // where the directory lives
    var dir: Table
    var tables: map<nat, Table>

    ghost function M(): Maps
      reads this
    {
      Maps(dir, tables)
    }

    /** The directory and all tables are distinct pages that the allocator has given out. */
    ghost predicate Valid()
      reads this, alloc, alloc.heap
    {
      && alloc.Valid() && Wf(M())
      && Outstanding(alloc.ledger, dirAddr, PGSIZE) && dirAddr !in tables
      && forall t :: t in tables ==> Outstanding(alloc.ledger, t, PGSIZE)
    }

    constructor (alloc: RangeAlloc, dirAddr: nat)
      requires alloc.Valid() && Outstanding(alloc.ledger, dirAddr, PGSIZE)
      ensures Valid() && this.alloc == alloc && dir == EmptyTable() && tables == map[]
    {
      this.alloc, this.dirAddr := alloc, dirAddr;
      dir, tables := EmptyTable(), map[];
    }

    /** The directory and the tables lie in pages in use, which `PagesKept` speaks of. */
    lemma TablesInUse()
      requires Valid()
      ensures dirAddr / PGSIZE in alloc.ledger.owner
      ensures forall t :: t in tables ==> t / PGSIZE in alloc.ledger.owner
    {
      hide Wf, Outstanding, PageRuns.PageSet;
      PageIsOwned(alloc.ledger, dirAddr, PGSIZE);
      forall t | t in tables ensures t / PGSIZE in alloc.ledger.owner {
        PageIsOwned(alloc.ledger, t, PGSIZE);
      }
    }

    /** `walkpgdir`: the table that holds the entry of `va`, allocated if need be. */
    method WalkPgDir(va: Addr, allocate: bool) returns (r: VmResult<nat>)
      requires Valid()
      modifies this, alloc, alloc.heap
      ensures Valid() && alloc.ledger.total == old(alloc.ledger.total)
      ensures PagesKept(old(alloc.heap.mem), old(alloc.ledger), alloc.heap.mem, alloc.ledger)
      ensures var i := PageDirIndex(va);
              if old(Present(dir[i])) || !allocate || old(alloc.heap.length) == 0
              then r == (if old(Present(dir[i])) then Ok(TableOf(M(), i)) else Err(if allocate then OutOfMemory else NotPresent))
                   && M() == old(M()) && alloc.heap.length == old(alloc.heap.length)
              else r.Ok? && Aligned(r.value) && KERNBASE <= r.value < KERNBASE + PHYSTOP && r.value !in old(tables)
                   && M() == WithTable(old(M()), i, r.value) && alloc.heap.length == old(alloc.heap.length) - 1
                   && dir[i] == r.value - 0x8000_0000 + 7
      ensures r.Ok? ==> Present(dir[PageDirIndex(va)]) && r.value == TableOf(M(), PageDirIndex(va)) && r.value in tables
      ensures forall vpn :: 0 <= vpn < PAGES ==> Lookup(M(), vpn) == old(Lookup(M(), vpn))
    {
      hide Lookup, Balanced, PageRuns.PageSet, PageRuns.Span, PageRuns.PageCount, PageRuns.Canonical, PageRuns.Take,
        PageRuns.FirstFit, Kalloc.Chain, Kalloc.InHeap, Kalloc.OnlyHeadersIn, PagesInHeap, OwnedKept;
      PagesKeptRefl(alloc.heap.mem, alloc.ledger);
      var i := PageDirIndex(va);
      if Present(dir[i]) {
        return Ok(ToVirt(AddressOf(dir[i])));
      }
      if !allocate {
        return Err(NotPresent);
      }
      OnePage(alloc.heap.runs);
      ghost var m0 := M();
      var b := alloc.Alloc(PGSIZE, 4);
      if b.None? {
        return Err(OutOfMemory);
      }
      var pgtab: Addr := b.value;
      AddTable(m0, i, pgtab);
      dir := dir[i := MakeEntry(ToPhys(pgtab), PRESENT + WRITABLE + USER)];
      tables := tables[pgtab := EmptyTable()];
      r := Ok(pgtab);
    }

    /** The body of the loop of `map_pages`: map the page at `a` to the frame at `pa`. */
    method MapPage(a: Addr, pa: Addr, perm: Word) returns (r: VmResult<()>)
      requires Valid() && Aligned(pa) && perm < 8 && perm % 2 == 0
      modifies this, alloc, alloc.heap
      ensures Valid() && alloc.ledger.total == old(alloc.ledger.total)
      ensures PagesKept(old(alloc.heap.mem), old(alloc.ledger), alloc.heap.mem, alloc.ledger)
      ensures var i := PageDirIndex(a);
              && r == (if !old(Present(dir[i])) && old(alloc.heap.length) == 0 then Err(OutOfMemory)
                       else if old(Lookup(M(), a / PGSIZE)).Some? then Err(Remap)
                       else Ok(()))
              && alloc.heap.length == old(alloc.heap.length) - (if r.Ok? && !old(Present(dir[i])) then 1 else 0)
      ensures r.Err? ==> M() == old(M())
      ensures r.Ok? ==> a / PGSIZE < PAGES && PageAdded(old(M()), M(), a / PGSIZE, pa, perm)
    {
      hide Balanced, Outstanding, Lookup, Wf, TableOf, Present, MakeEntry, PageDirIndex, PageTableIndex,
        RangeAlloc.Valid, PagesKept;
      EntryIsPresent(pa, perm);
      WalkIndices(a);
      AbsentPage(M(), a);
      var t := WalkPgDir(a, true);
      if t.Err? {
        return Err(t.error);
      }
      PteOf(M(), a);
      var index := PageTableIndex(a);
      var pte := tables[t.value][index];
      if Present(pte) {
        return Err(Remap);
      }
      ghost var m1 := M();
      SetPte(m1, a / PGSIZE, MakeEntry(pa, perm + PRESENT));
      tables := tables[t.value := tables[t.value][index := MakeEntry(pa, perm + PRESENT)]];
      assert M() == WithPte(m1, a / PGSIZE, MakeEntry(pa, perm + PRESENT));
      r := Ok(());
    }

    /** `map_pages`: refines an update of the flat map.  The first `done` pages of the range are
        mapped: all of them, or those before the first that is mapped already or lacks memory. */
    method MapPages(va: Addr, size: nat, pa0: Addr, perm: Word) returns (r: VmResult<()>, ghost done: nat)
      requires Valid()
      requires Aligned(pa0) && 0 < size && va + size <= WORD && pa0 + va % PGSIZE + size <= WORD
      requires perm < 8 && perm % 2 == 0
      modifies this, alloc, alloc.heap
      ensures Valid() && alloc.ledger.total == old(alloc.ledger.total)
      ensures PagesKept(old(alloc.heap.mem), old(alloc.ledger), alloc.heap.mem, alloc.ledger)
      ensures var v0, n := va / PGSIZE, PageCountOf(va % PGSIZE + size);
              && done <= n && v0 + n <= PAGES && pa0 + PGSIZE * n <= WORD
              && DirLo(v0) <= DirTop(v0, done) <= DirTop(v0, n) <= ENTRIES
              && Progress(old(M()), M(), v0, done, pa0, perm)
              && alloc.heap.length == old(alloc.heap.length) - Absent(old(dir), DirLo(v0), DirTop(v0, done))
              && (r.Ok? <==> done == n)
              && (r.Ok? <==> Unmapped(old(M()), v0, n)
                             && Absent(old(dir), DirLo(v0), DirTop(v0, n)) <= old(alloc.heap.length))
              && (r == Err(Remap) ==> old(Lookup(M(), v0 + done)).Some?)
              && (r == Err(OutOfMemory) ==> alloc.heap.length == 0 && DirLo(v0 + done) < ENTRIES
                                            && !Present(old(dir)[DirLo(v0 + done)]))
              && r != Err(NotPresent)
      ensures forall x: Addr :: va / PGSIZE <= x / PGSIZE < va / PGSIZE + done ==>
                Translate(M(), x) == Some(Access(pa0 + x - 4096 * (va / PGSIZE), perm / 2 % 2 == 1, perm / 4 == 1))
    {
      hide Balanced, Outstanding, Lookup, Wf, MakeEntry, RangeAlloc.Valid, Present, Absent, PageDirIndex, DirLo, DirTop,
        PageRoundDown, Aligned, Progress, PageAdded, Unmapped, PageCountOf, PagesKept, Translate;
      ghost var span, v0, n := va % PGSIZE + size, va / PGSIZE, PageCountOf(va % PGSIZE + size);
      RangeStart(va);
      var a, pa := PageRoundDown(va), pa0;
      var last := PageRoundDown(va + size - 1);
      ghost var va0, m0 := a, M();
      RangeEnds(va0, span, pa0, last);
      NoProgress(m0, v0, pa0, perm);
      DirTopGrows(v0, 0, n);
      PagesKeptRefl(alloc.heap.mem, alloc.ledger);
      done := 0;
      while true
        invariant done < n && a == va0 + PGSIZE * done && pa == pa0 + PGSIZE * done
        invariant alloc.ledger.total == old(alloc.ledger.total) && Valid()
        invariant PagesKept(old(alloc.heap.mem), old(alloc.ledger), alloc.heap.mem, alloc.ledger)
        invariant DirLo(v0) <= DirTop(v0, done) <= ENTRIES && Progress(m0, M(), v0, done, pa0, perm)
        invariant alloc.heap.length == old(alloc.heap.length) - Absent(m0.dir, DirLo(v0), DirTop(v0, done))
        decreases n - done
      {
        ghost var m1, mem1, l1 := M(), alloc.heap.mem, alloc.ledger;
        PageAt(va0, span, pa0, done);
        DirTopGrows(v0, done, n);
        r := MapPage(a, pa, perm);
        PagesKeptTrans(old(alloc.heap.mem), old(alloc.ledger), mem1, l1, alloc.heap.mem, alloc.ledger);
        if r.Err? {
          StuckAt(m0, m1, v0, done, n, pa0, perm);
          AllAccess(m0, M(), v0, done, pa0, perm);
          return;
        }
        ProgressStep(m0, m1, M(), v0, done, pa0, perm);
        DirTopGrows(v0, done + 1, n);
        done := done + 1;
        if a == last {
          break;
        }
        a := a + PGSIZE;
        pa := pa + PGSIZE;
      }
      AllUnmapped(m0, M(), v0, n, pa0, perm);
      AllAccess(m0, M(), v0, n, pa0, perm);
      r := Ok(());
    }
  }

  function PageCountOf(size: nat): nat { (size + PGSIZE - 1) / PGSIZE }

  lemma RangeStart(va: Addr)
    ensures var va0 := PageRoundDown(va); Aligned(va0) && va0 == va - va % PGSIZE && va0 / PGSIZE == va / PGSIZE
  {
  }

  lemma RangeEnds(va: Addr, size: nat, pa: Addr, last: Addr)
    requires Aligned(va) && Aligned(pa) && 0 < size && va + size <= WORD && pa + size <= WORD
    requires last == PageRoundDown(va + size - 1)
    ensures var n := PageCountOf(size);
            n > 0 && last == va + PGSIZE * (n - 1) && va / PGSIZE + n <= PAGES && pa + PGSIZE * n <= WORD
  {
    var q, p, n := va / PGSIZE, pa / PGSIZE, PageCountOf(size);
    assert va == PGSIZE * q && pa == PGSIZE * p;
    assert PGSIZE * (n - 1) < size <= PGSIZE * n;
  }

  /** The page at step `j` and the directory entry it goes through. */
  lemma PageAt(va: Addr, size: nat, pa: Addr, j: nat)
    requires Aligned(va) && Aligned(pa) && 0 < size && va + size <= WORD && pa + size <= WORD && j < PageCountOf(size)
    ensures var v0 := va / PGSIZE;
            && va + PGSIZE * j < WORD && (va + PGSIZE * j) / PGSIZE == v0 + j && v0 + j < PAGES
            && PageDirIndex(va + PGSIZE * j) == DirLo(v0 + j) < ENTRIES
            && pa + PGSIZE * j < WORD && Aligned(pa + PGSIZE * j)
  {
    assert PGSIZE * j < size;
    var q, p := va / PGSIZE, pa / PGSIZE;
    assert va + PGSIZE * j == PGSIZE * (q + j) && pa + PGSIZE * j == PGSIZE * (p + j);
    DirIndexOfPage(q + j);
  }

  lemma DirIndexOfPage(x: nat)
    requires PGSIZE * x < WORD
    ensures PageDirIndex(PGSIZE * x) == DirLo(x) < ENTRIES && PGSIZE * x / PGSIZE == x < PAGES
  {
  }

  lemma AllAccess(m: Maps, m': Maps, v0: nat, n: nat, pa: nat, perm: Word)
    requires Wf(m) && Wf(m') && Aligned(pa) && pa + PGSIZE * n <= WORD && perm < 8 && perm % 2 == 0 && v0 + n <= PAGES
    requires Progress(m, m', v0, n, pa, perm)
    ensures forall x: Addr :: v0 <= x / PGSIZE < v0 + n ==>
              Translate(m', x) == Some(Access(pa + x - 4096 * v0, perm / 2 % 2 == 1, perm / 4 == 1))
  {
    hide Wf, Translate, RangeMapped, Unmapped, Absent, DirLo, DirTop, Present;
    forall x: Addr | v0 <= x / PGSIZE < v0 + n
      ensures Translate(m', x) == Some(Access(pa + x - 4096 * v0, perm / 2 % 2 == 1, perm / 4 == 1))
    {
      MappedAccess(m, m', v0, n, pa, perm, x);
    }
  }

  lemma AllUnmapped(m: Maps, m': Maps, v0: nat, n: nat, pa: nat, perm: Word)
    requires Wf(m) && Wf(m') && Aligned(pa) && pa + PGSIZE * n <= WORD && perm < 8 && Progress(m, m', v0, n, pa, perm)
    ensures Unmapped(m, v0, n)
  {
  }

  /** Why a page could not be mapped, in terms of the range as it was at the start. */
  lemma StuckAt(m0: Maps, m1: Maps, v0: nat, j: nat, n: nat, pa: nat, perm: Word)
    requires Wf(m0) && Wf(m1) && Aligned(pa) && pa + PGSIZE * n <= WORD && perm < 8 && j < n && v0 + n <= PAGES
    requires Progress(m0, m1, v0, j, pa, perm) && DirLo(v0 + j) < ENTRIES
    ensures Lookup(m1, v0 + j) == Lookup(m0, v0 + j)
    ensures Lookup(m0, v0 + j).Some? ==> !Unmapped(m0, v0, n)
    ensures DirLo(v0) <= DirTop(v0, j) <= DirTop(v0, n) <= ENTRIES
    ensures !Present(m1.dir[DirLo(v0 + j)]) ==>
              && !Present(m0.dir[DirLo(v0 + j)])
              && Absent(m0.dir, DirLo(v0), DirTop(v0, j)) < Absent(m0.dir, DirLo(v0), DirTop(v0, n))
  {
    hide Lookup, Wf, MakeEntry, RangeMapped, DirTop, DirLo, Absent, Present;
    Untouched(m0, m1, v0, j, v0 + j, pa, perm);
    DirTopGrows(v0, j, n);
    if !Present(m1.dir[DirLo(v0 + j)]) {
      TableMissing(m0, m1, v0, j, n, pa, perm);
    }
  }
}
