/** The kernel's address space: what `setupkvm` maps. */
module KernelMaps {
  import opened Wrappers
  import opened MemUtils
  import opened PageTables
  import opened RangeAllocs
  import opened Vm
  import PageRuns
  import Kalloc

  datatype Kmap = Kmap(virt: Addr, pStart: Addr, pEnd: Addr, perm: Word)

  /** Where the data segment may begin. */
  predicate DataBegin(data: nat) { Aligned(data) && KERNLINK < data < KERNBASE + PHYSTOP }

  function KMAP(data: Addr): (k: seq<Kmap>)
    requires DataBegin(data)
    ensures |k| == 4
  {
    [ Kmap(KERNBASE, 0, EXTMEM, WRITABLE),
      Kmap(KERNLINK, ToPhys(KERNLINK), ToPhys(data), 0),
      Kmap(data, ToPhys(data), PHYSTOP, WRITABLE),
      Kmap(DEVSPACE, DEVSPACE, 0, WRITABLE) ]
  }

  /** What every address should translate to: a specification that mentions no table. */
  function KernelAccess(va: Addr, data: Addr): Option<Access> {
    if KERNBASE <= va < KERNBASE + PHYSTOP then Some(Access(va - KERNBASE, !(KERNLINK <= va < data), false))
    else if va >= DEVSPACE then Some(Access(va, true, false))
    else None
  }

  // ----- page numbers of the four regions -----

  function First(data: Addr, k: nat): nat
    requires DataBegin(data) && k < 4
  {
    if k == 0 then 0x80000 else if k == 1 then 0x80100 else if k == 2 then data / PGSIZE else 0xFE000
  }

  function Past(data: Addr, k: nat): nat
    requires DataBegin(data) && k < 4
  {
    if k == 0 then 0x80100 else if k == 1 then data / PGSIZE else if k == 2 then 0x8E000 else PAGES
  }

  /** The region's size as `map_pages` receives it: the last one comes out of a wrapping subtraction. */
  lemma RegionSize(data: Addr, k: nat)
    requires DataBegin(data) && k < 4
    ensures var m := KMAP(data)[k];
            var size := WrappingSub(m.pEnd, m.pStart);
            && Aligned(m.pStart) && 0 < size && m.virt + size <= WORD && m.pStart + m.virt % PGSIZE + size <= WORD
            && m.virt / PGSIZE == First(data, k) && PageCountOf(m.virt % PGSIZE + size) == Past(data, k) - First(data, k)
            && First(data, k) < Past(data, k)
  {
  }

  /** The flat map after the first `k` regions. */
  ghost function FlatTo(data: Addr, k: nat, x: nat): Option<Word>
    requires DataBegin(data) && k <= 4 && x < PAGES
  {
    if k == 0 then None
    else if First(data, k - 1) <= x < Past(data, k - 1) then
      Some(MakeEntry(KMAP(data)[k - 1].pStart + PGSIZE * (x - First(data, k - 1)), KMAP(data)[k - 1].perm + PRESENT))
    else FlatTo(data, k - 1, x)
  }

  lemma {:induction false} OutsideAll(data: Addr, k: nat, x: nat)
    requires DataBegin(data) && k <= 4 && x < PAGES
    requires forall j :: 0 <= j < k ==> !(First(data, j) <= x < Past(data, j))
    ensures FlatTo(data, k, x).None?
  {
    if k > 0 { OutsideAll(data, k - 1, x); }
  }

  lemma RegionsDisjoint(data: Addr, k: nat, x: nat)
    requires DataBegin(data) && k < 4 && First(data, k) <= x < Past(data, k)
    ensures x < PAGES && FlatTo(data, k, x).None?
  {
    OutsideAll(data, k, x);
  }

  // ----- tables used -----

  /** Directory entries from 512 up to here have tables after the first `k` regions. */
  function Top(data: Addr, k: nat): nat
    requires DataBegin(data) && k <= 4
  {
    if k == 0 then 512 else if k == 1 then 513 else if k == 2 then (data / PGSIZE - 1) / ENTRIES + 1 else 568
  }

  function TablesUsed(data: Addr, k: nat): nat
    requires DataBegin(data) && k <= 4
  {
    Top(data, k) - 512 + if k == 4 then 8 else 0
  }

  /** The directory after the first `k` regions. */
  ghost predicate DirTo(dir: Table, data: Addr, k: nat)
    requires DataBegin(data) && k <= 4
  {
    forall i :: 0 <= i < ENTRIES ==> (Present(dir[i]) <==> 512 <= i < Top(data, k) || (k == 4 && 1016 <= i))
  }

  lemma RegionDirs(data: Addr, k: nat)
    requires DataBegin(data) && k < 4
    ensures var lo, hi := DirLo(First(data, k)), DirTop(First(data, k), Past(data, k) - First(data, k));
            && lo < hi <= ENTRIES
            && (k < 3 ==> 512 <= lo <= Top(data, k) <= hi == Top(data, k + 1))
            && (k == 3 ==> lo == 1016 && hi == 1024 && Top(data, 4) == Top(data, 3))
  {
  }

  /** Each region needs the tables between the old top and the new one. */
  lemma RegionTables(dir: Table, data: Addr, k: nat)
    requires DataBegin(data) && k < 4 && DirTo(dir, data, k)
    ensures var lo, hi := DirLo(First(data, k)), DirTop(First(data, k), Past(data, k) - First(data, k));
            lo <= hi <= ENTRIES && Absent(dir, lo, hi) == TablesUsed(data, k + 1) - TablesUsed(data, k)
  {
    hide Present;
    RegionDirs(data, k);
    var lo, hi := DirLo(First(data, k)), DirTop(First(data, k), Past(data, k) - First(data, k));
    AbsentAbove(dir, lo, if k < 3 then Top(data, k) else lo, hi);
  }

  lemma DirNext(dir: Table, dir': Table, data: Addr, k: nat)
    requires DataBegin(data) && k < 4 && DirTo(dir, data, k)
    requires var lo, hi := DirLo(First(data, k)), DirTop(First(data, k), Past(data, k) - First(data, k));
             forall i :: 0 <= i < ENTRIES ==> (Present(dir'[i]) <==> Present(dir[i]) || lo <= i < hi)
    ensures DirTo(dir', data, k + 1)
  {
    hide Present;
    RegionDirs(data, k);
  }

  // ----- the whole map -----

  ghost predicate MapsTo(m: Maps, data: Addr, k: nat)
    requires DataBegin(data) && k <= 4
  {
    Wf(m) && forall x :: 0 <= x < PAGES ==> Lookup(m, x) == FlatTo(data, k, x)
  }

  lemma RegionUnmapped(m: Maps, data: Addr, k: nat)
    requires DataBegin(data) && k < 4 && MapsTo(m, data, k)
    ensures Unmapped(m, First(data, k), Past(data, k) - First(data, k))
  {
    hide Lookup, Wf, FlatTo, First, Past;
    forall x | First(data, k) <= x < Past(data, k) && x < PAGES ensures Lookup(m, x).None? {
      RegionsDisjoint(data, k, x);
    }
  }

  lemma RegionAdded(m: Maps, m': Maps, data: Addr, k: nat)
    requires DataBegin(data) && k < 4 && MapsTo(m, data, k) && DirTo(m.dir, data, k) && Wf(m')
    requires var r := KMAP(data)[k];
             && Aligned(r.pStart) && r.pStart + PGSIZE * (Past(data, k) - First(data, k)) <= WORD && First(data, k) < Past(data, k)
             && r.perm < 8 && Progress(m, m', First(data, k), Past(data, k) - First(data, k), r.pStart, r.perm)
    ensures MapsTo(m', data, k + 1) && DirTo(m'.dir, data, k + 1)
    ensures var lo, hi := DirLo(First(data, k)), DirTop(First(data, k), Past(data, k) - First(data, k));
            lo <= hi <= ENTRIES && |m'.tables| == |m.tables| + Absent(m.dir, lo, hi)
  {
    hide Lookup, Wf, MakeEntry, First, Past, KMAP, DirTo, DirLo, DirTop, Absent, Unmapped, Present;
    DirNext(m.dir, m'.dir, data, k);
  }

  lemma EmptyMaps(m: Maps, data: Addr)
    requires DataBegin(data) && m == Maps(EmptyTable(), map[])
    ensures MapsTo(m, data, 0) && DirTo(m.dir, data, 0)
  {
  }

  /** Walking the finished tables gives the kernel's address space, for every address. */
  lemma KernelMapExact(m: Maps, data: Addr, va: Addr)
    requires DataBegin(data) && MapsTo(m, data, 4)
    ensures Translate(m, va) == KernelAccess(va, data)
  {
    hide MakeEntry, FlatTo;
    var x := va / PGSIZE;
    WalkIndices(va);
    var k := RegionOf(data, va);
    if k < 4 {
      RegionEntry(data, k, x);
      assert Lookup(m, x).Some?;
    } else {
      OutsideAll(data, 4, x);
    }
  }

  /** The region of an address, or 4 if the kernel maps nothing there. */
  function RegionOf(data: Addr, va: Addr): (k: nat)
    requires DataBegin(data)
    ensures k <= 4 && (k < 4 ==> First(data, k) <= va / PGSIZE < Past(data, k))
    ensures k == 4 ==> forall j :: 0 <= j < 4 ==> !(First(data, j) <= va / PGSIZE < Past(data, j))
  {
    if KERNBASE <= va < KERNLINK then 0
    else if KERNLINK <= va < data then 1
    else if data <= va < KERNBASE + PHYSTOP then 2
    else if va >= DEVSPACE then 3
    else 4
  }

  lemma RegionEntry(data: Addr, k: nat, x: nat)
    requires DataBegin(data) && k < 4 && First(data, k) <= x < Past(data, k)
    ensures x < PAGES && FlatTo(data, 4, x).Some?
    ensures var e := FlatTo(data, 4, x).value;
            && AddressOf(e) == (if k == 3 then PGSIZE * x else PGSIZE * x - KERNBASE)
            && (Writable(e) <==> k != 1) && !UserMode(e)
  {
    hide MakeEntry, AddressOf, Writable, UserMode;
    FlatAt(data, 4, k, x);
    var r := KMAP(data)[k];
    EntryIsPresent(r.pStart + PGSIZE * (x - First(data, k)), r.perm);
  }

  lemma {:induction false} FlatAt(data: Addr, n: nat, k: nat, x: nat)
    requires DataBegin(data) && k < n <= 4 && First(data, k) <= x < Past(data, k)
    ensures var pa := KMAP(data)[k].pStart + PGSIZE * (x - First(data, k));
            x < PAGES && pa < WORD && Aligned(pa) && FlatTo(data, n, x) == Some(MakeEntry(pa, KMAP(data)[k].perm + PRESENT))
    decreases n
  {
    if k < n - 1 { FlatAt(data, n - 1, k, x); }
  }

  const TABLES_NEEDED: nat := 64

  /** One turn of the loop of `setupkvm`. */
  method MapRegion(p: PageMap, data: Addr, k: nat) returns (ok: bool)
    requires p.Valid() && DataBegin(data) && k < 4
    requires MapsTo(p.M(), data, k) && DirTo(p.dir, data, k) && |p.tables| == TablesUsed(data, k)
    modifies p, p.alloc, p.alloc.heap
    ensures p.Valid() && p.alloc.ledger.total == old(p.alloc.ledger.total)
    ensures ok <==> TablesUsed(data, k + 1) - TablesUsed(data, k) <= old(p.alloc.heap.length)
    ensures ok ==>
              && MapsTo(p.M(), data, k + 1) && DirTo(p.dir, data, k + 1) && |p.tables| == TablesUsed(data, k + 1)
              && p.alloc.heap.length == old(p.alloc.heap.length) - (TablesUsed(data, k + 1) - TablesUsed(data, k))
  {
    hide Balanced, Lookup, RangeAlloc.Valid, DirTo, KMAP, Translate, TablesUsed, First, Past, Present, DirLo, DirTop, Unmapped, Progress,
      Absent, PageCountOf, WrappingSub, FlatTo;
    var m := KMAP(data)[k];
    RegionSize(data, k);
    RegionUnmapped(p.M(), data, k);
    RegionTables(p.dir, data, k);
    KmapPerm(data, k);
    ghost var m0 := p.M();
    var r, _ := p.MapPages(m.virt, WrappingSub(m.pEnd, m.pStart), m.pStart, m.perm);
    ok := r.Ok?;
    if ok {
      RegionAdded(m0, p.M(), data, k);
    }
  }

  /** `setupkvm`: it succeeds exactly when the directory and 64 tables can be allocated, and
      then the address space is the kernel's. */
  method SetupKvm(alloc: RangeAlloc, data: Addr) returns (r: Option<PageMap>)
    requires alloc.Valid() && DataBegin(data)
    modifies alloc, alloc.heap
    ensures alloc.Valid() && alloc.ledger.total == old(alloc.ledger.total)
    ensures r.Some? <==> old(alloc.heap.length) >= 65
    ensures r.Some? ==>
              && r.value.alloc == alloc && r.value.Valid() && fresh(r.value)
              && |r.value.tables| == TABLES_NEEDED && alloc.heap.length == old(alloc.heap.length) - 1 - TABLES_NEEDED
              && forall va: Addr :: Translate(r.value.M(), va) == KernelAccess(va, data)
  {
    hide Balanced, Lookup, Wf, RangeAlloc.Valid, MapsTo, DirTo, TablesUsed, PageRuns.Take, PageRuns.FirstFit,
      PageRuns.PageSet, PageRuns.Span, Translate, KernelAccess, KMAP, DataBegin;
    FreePages(alloc);
    var box := alloc.Alloc(PGSIZE, 4);
    if box.None? {
      return None;
    }
    var p := new PageMap(alloc, box.value);
    EmptyMaps(p.M(), data);
    assert ToVirt(PHYSTOP) <= DEVSPACE;
    TableCounts(data);
    var k := 0;
    while k < |KMAP(data)|
      invariant 0 <= k <= 4 && p.alloc == alloc && p.Valid() && fresh(p)
      invariant alloc.ledger.total == old(alloc.ledger.total)
      invariant MapsTo(p.M(), data, k) && DirTo(p.dir, data, k)
      invariant alloc.heap.length == old(alloc.heap.length) - 1 - TablesUsed(data, k)
      invariant |p.tables| == TablesUsed(data, k)
    {
      var ok := MapRegion(p, data, k);
      if !ok {
        return None;
      }
      k := k + 1;
    }
    assert k == 4;
    forall va: Addr ensures Translate(p.M(), va) == KernelAccess(va, data) {
      KernelMapExact(p.M(), data, va);
    }
    r := Some(p);
  }

  lemma KmapPerm(data: Addr, k: nat)
    requires DataBegin(data) && k < 4
    ensures KMAP(data)[k].perm < 8 && KMAP(data)[k].perm % 2 == 0
  {
  }

  lemma TableCounts(data: Addr)
    requires DataBegin(data)
    ensures TablesUsed(data, 0) == 0 && TablesUsed(data, 4) == TABLES_NEEDED
    ensures forall k :: 0 <= k <= 4 ==> TablesUsed(data, k) <= TABLES_NEEDED
  {
  }

  /** Whether a page is left shows in the allocator's length. */
  lemma FreePages(alloc: RangeAlloc)
    requires alloc.Valid()
    ensures alloc.heap.length > 0 <==>
            exists p: nat :: PageRuns.Span(p, Kalloc.SizeToPages(PGSIZE)) <= PageRuns.PageSet(alloc.heap.runs)
  {
    hide PageRuns.Span, PageRuns.PageSet, Balanced, PageRuns.PageCount;
    OnePage(alloc.heap.runs);
    assert Kalloc.SizeToPages(PGSIZE) == 1;
  }

  const EARLY_TOP: Addr := KERNBASE + 0x40_0000   // 4 MiB, all that is mapped at boot

  /** The memory part of `main`: a heap up to 4 MiB, the kernel's page tables, then the rest of
      memory.  The page tables fit exactly when the kernel image leaves 65 pages below 4 MiB. */
  method Boot(start: Addr, end: Addr, data: Addr) returns (alloc: RangeAlloc, r: Option<PageMap>)
    requires start < end < KERNBASE + PHYSTOP && KERNBASE <= end && Kalloc.HeapStart(end) < EARLY_TOP && DataBegin(data)
    ensures fresh(alloc) && alloc.Valid()
    ensures r.Some? <==> Kalloc.HeapStart(end) + 65 * 4096 <= 0x8040_0000
    ensures r.Some? ==> r.value.alloc == alloc && r.value.Valid()
    ensures r.Some? ==> forall va: Addr :: Translate(r.value.M(), va) == KernelAccess(va, data)
    ensures r.Some? ==> forall p :: p in alloc.ledger.total <==> Kalloc.HeapStart(end) <= 4096 * p < 0x8E00_0000
  {
    hide Balanced, PageRuns.PageSet, PageRuns.Span, PageRuns.PageCount, PageRuns.Insert, Translate, KernelAccess, Wf,
      RangeAlloc.Valid;
    var heap := new Kalloc.Allocator(start, end);
    alloc := new RangeAlloc(heap);
    var heapStart := PageRoundUp(end + PGSIZE);
    EarlyHeap(heapStart);
    alloc.Init(heapStart, EARLY_TOP);
    EarlyPages(alloc, heapStart);
    r := SetupKvm(alloc, data);
    if r.Some? {
      alloc.Init(ToVirt(0x40_0000), ToVirt(PHYSTOP));
    }
  }

  lemma EarlyHeap(heapStart: Addr)
    requires Aligned(heapStart) && KERNBASE <= heapStart < EARLY_TOP
    ensures var n := Kalloc.RunOf(heapStart, EARLY_TOP);
            PageRuns.PageCount(PageRuns.Insert([], n)) == n.count && EARLY_TOP == heapStart + PGSIZE * n.count
  {
    hide PageRuns.Insert, PageRuns.PageSet, PageRuns.Span, PageRuns.PagesOf;
    PageRuns.InsertPages([], Kalloc.RunOf(heapStart, EARLY_TOP));
  }

  lemma EarlyPages(alloc: RangeAlloc, heapStart: Addr)
    requires alloc.Valid() && Aligned(heapStart) && KERNBASE <= heapStart < EARLY_TOP
    requires alloc.heap.runs == PageRuns.Insert([], Kalloc.RunOf(heapStart, EARLY_TOP))
    ensures PGSIZE * alloc.heap.length == EARLY_TOP - heapStart
  {
    hide PageRuns.Insert, PageRuns.PageCount, Balanced;
    EarlyHeap(heapStart);
  }
}
