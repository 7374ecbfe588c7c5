/** The allocator as the kernel sees it: regions are handed over, allocations are taken and
    given back.  `Ledger` records who holds each page. */
module RangeAllocs {
  import opened Wrappers
  import opened MemUtils
  import opened PageRuns
  import opened Kalloc

  /** `out` maps the first page of each outstanding allocation to its length; `owner` maps
      each of its pages back to the first; `total` is every page given to `init`. */
  datatype Ledger = Ledger(out: map<nat, nat>, owner: map<nat, nat>, total: set<nat>)

  /** Page `p` belongs to the allocation that starts at page `b`. */
  ghost predicate Held(l: Ledger, p: nat, b: nat) {
    p in l.owner && l.owner[p] == b
  }

  /** Allocations and pages describe each other, so allocations are disjoint. */
  ghost predicate Consistent(l: Ledger) {
    && (forall b :: b in l.out ==> l.out[b] > 0)
    && (forall b, p :: b in l.out && b <= p < b + l.out[b] ==> Held(l, p, b))
    && (forall p :: p in l.owner ==> l.owner[p] in l.out && l.owner[p] <= p < l.owner[p] + l.out[l.owner[p]])
  }

  /** Free pages are in no allocation, and nothing given to `init` is lost. */
  ghost predicate Balanced(free: set<nat>, l: Ledger) {
    Consistent(l) && free !! l.owner.Keys && l.total == free + l.owner.Keys
  }

  ghost function AfterInit(l: Ledger, n: Run): Ledger {
    l.(total := l.total + PagesOf(n))
  }

  ghost function AfterAlloc(l: Ledger, p: nat, k: nat): Ledger {
    l.(out := l.out[p := k], owner := l.owner + map q | q in Span(p, k) :: p)
  }

  ghost function AfterDealloc(l: Ledger, p: nat): Ledger
    requires p in l.out
  {
    l.(out := l.out - {p}, owner := l.owner - Span(p, l.out[p]))
  }

  lemma BalanceInit(free: set<nat>, l: Ledger, n: Run)
    requires Balanced(free, l) && l.total !! PagesOf(n)
    ensures Balanced(free + PagesOf(n), AfterInit(l, n))
  {
    hide Span, PagesOf;
    forall b, p | b in l.out && b <= p < b + l.out[b] ensures Held(AfterInit(l, n), p, b) {
      assert Held(l, p, b);
    }
  }

  lemma ConsistentAlloc(l: Ledger, p: nat, k: nat)
    requires Consistent(l) && k > 0 && Span(p, k) !! l.owner.Keys
    ensures p !in l.out && Consistent(AfterAlloc(l, p, k))
  {
    hide Span;
    var l' := AfterAlloc(l, p, k);
    assert p in l.out ==> Held(l, p, p);
    assert p in Span(p, k);
    forall b, q | b in l'.out && b <= q < b + l'.out[b] ensures Held(l', q, b) {
      if b == p {
        assert q in Span(p, k);
      } else {
        assert Held(l, q, b);
      }
    }
  }

  lemma BalanceAlloc(free: set<nat>, l: Ledger, p: nat, k: nat)
    requires Balanced(free, l) && k > 0 && Span(p, k) <= free
    ensures p !in l.out && Balanced(free - Span(p, k), AfterAlloc(l, p, k))
  {
    hide Span, Consistent;
    ConsistentAlloc(l, p, k);
    AllocKeys(l, p, Span(p, k));
    MovePages(free, l.owner.Keys, Span(p, k));
  }

  lemma AllocKeys(l: Ledger, p: nat, cut: set<nat>)
    ensures (l.owner + map q | q in cut :: p).Keys == l.owner.Keys + cut
    ensures (l.owner - cut).Keys == l.owner.Keys - cut
  {
  }

  /** Moving pages between two disjoint sets changes neither their union nor their disjointness. */
  lemma MovePages(a: set<nat>, b: set<nat>, cut: set<nat>)
    requires a !! b && cut <= a
    ensures (a - cut) !! (b + cut) && (a - cut) + (b + cut) == a + b
  {
  }

  lemma ReturnPages(a: set<nat>, b: set<nat>, cut: set<nat>)
    requires a !! b && cut <= b
    ensures a !! cut && (a + cut) !! (b - cut) && (a + cut) + (b - cut) == a + b
  {
  }

  lemma ConsistentDealloc(l: Ledger, p: nat)
    requires Consistent(l) && p in l.out
    ensures Span(p, l.out[p]) <= l.owner.Keys && Consistent(AfterDealloc(l, p))
  {
    hide Span;
    var l', cut := AfterDealloc(l, p), Span(p, l.out[p]);
    forall q | q in cut ensures q in l.owner && l.owner[q] == p {
      assert Held(l, q, p);
    }
    AllocKeys(l, p, cut);
    forall b, q | b in l'.out && b <= q < b + l'.out[b] ensures Held(l', q, b) {
      assert Held(l, q, b);
    }
    forall q | q in l'.owner ensures l'.owner[q] in l'.out && l'.owner[q] <= q < l'.owner[q] + l'.out[l'.owner[q]] {
      assert l'.owner[q] == l.owner[q] && q !in cut;
    }
  }

  lemma BalanceDealloc(free: set<nat>, l: Ledger, p: nat)
    requires Balanced(free, l) && p in l.out
    ensures free !! Span(p, l.out[p])
    ensures Balanced(free + Span(p, l.out[p]), AfterDealloc(l, p))
  {
    hide Span, Consistent;
    ConsistentDealloc(l, p);
    AllocKeys(l, p, Span(p, l.out[p]));
    ReturnPages(free, l.owner.Keys, Span(p, l.out[p]));
  }

  /** Outstanding allocations never overlap each other or a free page. */
  lemma AllocationsDisjoint(free: set<nat>, l: Ledger, a: nat, b: nat)
    requires Balanced(free, l) && a in l.out && b in l.out
    ensures free !! Span(a, l.out[a]) && Span(a, l.out[a]) <= l.total
    ensures a != b ==> Span(a, l.out[a]) !! Span(b, l.out[b])
  {
    hide Span;
    forall p | p in Span(a, l.out[a]) ensures Held(l, p, a) && p in l.total && p !in free {
    }
    forall p | p in Span(b, l.out[b]) ensures Held(l, p, b) {
    }
  }

  /** Free plus outstanding is exactly what `init` was given. */
  lemma PagesConserved(runs: seq<Run>, l: Ledger)
    requires Canonical(runs) && Balanced(PageSet(runs), l)
    ensures PageCount(runs) + |l.owner| == |l.total|
  {
    hide Span, PageSet, PageCount;
    PageSetCard(runs);
    assert |l.owner.Keys| == |l.owner|;
  }

  ghost predicate PagesInHeap(end: Addr, pages: set<nat>)
    requires end < KERNBASE + PHYSTOP
  {
    forall p :: p in pages ==> HeapStart(end) <= PGSIZE * p && PGSIZE * (p + 1) <= KERNBASE + PHYSTOP
  }

  /** An outstanding allocation lies inside the initialised regions. */
  lemma AllocationInHeap(end: Addr, free: set<nat>, l: Ledger, p: nat)
    requires end < KERNBASE + PHYSTOP && Balanced(free, l) && PagesInHeap(end, l.total) && p in l.out
    ensures HeapStart(end) <= PGSIZE * p && PGSIZE * (p + l.out[p]) <= KERNBASE + PHYSTOP
  {
    hide Span, HeapStart;
    assert Held(l, p, p) && Held(l, p + l.out[p] - 1, p);
  }

  lemma InitInHeap(end: Addr, pages: set<nat>, n: Run)
    requires end < KERNBASE + PHYSTOP && PagesInHeap(end, pages)
    requires HeapStart(end) <= PGSIZE * n.first && PGSIZE * n.End() <= KERNBASE + PHYSTOP
    ensures PagesInHeap(end, pages + PagesOf(n))
  {
    hide Span, HeapStart;
  }

  /** `ptr` came from an allocation of `size` bytes that has not been given back. */
  ghost predicate Outstanding(l: Ledger, ptr: nat, size: nat) {
    && 1 <= size && PGSIZE + size - 1 < WORD && Aligned(ptr)
    && ptr / PGSIZE in l.out && l.out[ptr / PGSIZE] == SizeToPages(size)
  }

  /** Every byte of the `size` bytes at `ptr` lies in a page of the allocation that starts there, and
      so in no other allocation. */
  ghost predicate BytesHeld(l: Ledger, ptr: nat, size: nat) {
    forall a: nat :: ptr <= a < ptr + size ==> Held(l, a / PGSIZE, ptr / PGSIZE)
  }

  lemma AllocationHoldsBytes(l: Ledger, ptr: nat, size: nat)
    requires Consistent(l) && Outstanding(l, ptr, size)
    ensures BytesHeld(l, ptr, size)
  {
    hide SizeToPages;
    var p := ptr / PGSIZE;
    forall a: nat | ptr <= a < ptr + size ensures Held(l, a / PGSIZE, p) {
      PageOfByte(ptr, size, a);
    }
  }

  lemma PageOfByte(ptr: nat, size: nat, a: nat)
    requires Aligned(ptr) && ptr <= a < ptr + size
    ensures ptr / PGSIZE <= a / PGSIZE < ptr / PGSIZE + SizeToPages(size)
  {
    hide SizeToPages;
    var p, k := ptr / PGSIZE, SizeToPages(size);
    assert ptr == PGSIZE * p && a < PGSIZE * (p + k);
    DivBelow(a, p + k);
    DivBelow(a, p);
  }

  lemma DivBelow(a: nat, k: nat)
    ensures a < PGSIZE * k <==> a / PGSIZE < k
  {
  }

  /** No byte of the `size` bytes at `ptr` lies in a page of `pages`. */
  ghost predicate BytesOutside(pages: set<nat>, ptr: nat, size: nat) {
    forall a: nat :: ptr <= a < ptr + size ==> a / PGSIZE !in pages
  }

  ghost predicate BytesInside(pages: set<nat>, ptr: nat, size: nat) {
    forall a: nat :: ptr <= a < ptr + size ==> a / PGSIZE in pages
  }

  lemma SpanOfBytes(ptr: nat, size: nat)
    requires Aligned(ptr)
    ensures BytesInside(Span(ptr / PGSIZE, SizeToPages(size)), ptr, size)
  {
    hide SizeToPages;
    forall a: nat | ptr <= a < ptr + size ensures a / PGSIZE in Span(ptr / PGSIZE, SizeToPages(size)) {
      PageOfByte(ptr, size, a);
    }
  }

  /** Nothing in the pages of outstanding allocations has been written. */
  ghost predicate OwnedKept(mem: Memory, mem': Memory, l: Ledger) {
    forall a: nat :: a / PGSIZE in l.owner ==> (a in mem <==> a in mem') && (a in mem && a in mem' ==> mem'[a] == mem[a])
  }

  /** The allocator writes headers into free pages only, so never into an allocation. */
  lemma HeadersStayFree(mem: Memory, mem': Memory, start: nat, end: Addr, free: set<nat>, l: Ledger)
    requires start < end < KERNBASE + PHYSTOP && Balanced(free, l) && PagesInHeap(end, l.total)
    requires OnlyHeadersIn(mem, mem', start, free)
    ensures OwnedKept(mem, mem', l)
  {
    forall a: nat | a / PGSIZE in l.owner ensures a != start && a / PGSIZE !in free {
      assert HeapStart(end) <= PGSIZE * (a / PGSIZE);
    }
  }

  lemma PageIsOwned(l: Ledger, ptr: nat, size: nat)
    requires Consistent(l) && Outstanding(l, ptr, size)
    ensures ptr / PGSIZE in l.owner
  {
    assert Held(l, ptr / PGSIZE, ptr / PGSIZE);
  }

  /** Conversely, whatever the holders of allocations write into them, the list stays intact. */
  lemma ClientWrites(mem: Memory, mem': Memory, start: nat, end: Addr, runs: seq<Run>, l: Ledger)
    requires start < end < KERNBASE + PHYSTOP && Balanced(PageSet(runs), l) && PagesInHeap(end, l.total)
    requires Chain(mem, start, runs)
    requires forall a: nat :: a / PGSIZE !in l.owner ==> (a in mem <==> a in mem') && (a in mem && a in mem' ==> mem'[a] == mem[a])
    ensures Chain(mem', start, runs)
  {
    hide PageSet, Chain;
    SentinelInPlace(mem, start, runs);
    ChainFrame(mem, mem', start, runs);
  }

  lemma SentinelInPlace(mem: Memory, start: nat, runs: seq<Run>)
    requires Chain(mem, start, runs)
    ensures start in mem
  {
  }

  /** The bytes of a new allocation: in its pages, in no page that was in use. */
  lemma AllocatedBytes(free: set<nat>, l: Ledger, ptr: nat, size: nat)
    requires Balanced(free, l) && Aligned(ptr) && 1 <= size && PGSIZE + size - 1 < WORD
    requires Span(ptr / PGSIZE, SizeToPages(size)) <= free
    ensures BytesHeld(AfterAlloc(l, ptr / PGSIZE, SizeToPages(size)), ptr, size)
    ensures BytesOutside(l.owner.Keys, ptr, size) && BytesInside(free, ptr, size)
  {
    hide Span, SizeToPages, Consistent;
    SpanOfBytes(ptr, size);
    BalanceAlloc(free, l, ptr / PGSIZE, SizeToPages(size));
    AllocationHoldsBytes(AfterAlloc(l, ptr / PGSIZE, SizeToPages(size)), ptr, size);
  }

  /** The bytes of an allocation that has been given back. */
  lemma FreedBytes(free: set<nat>, l: Ledger, ptr: nat, size: nat)
    requires Balanced(free, l) && Aligned(ptr) && Span(ptr / PGSIZE, SizeToPages(size)) <= free
    ensures BytesInside(free, ptr, size) && BytesOutside(l.owner.Keys, ptr, size)
  {
    hide Span, SizeToPages, Consistent;
    SpanOfBytes(ptr, size);
  }

  ghost predicate AllOutstanding(l: Ledger, ptrs: seq<Addr>, sizes: seq<nat>)
    requires |sizes| == |ptrs|
  {
    && (forall i :: 0 <= i < |ptrs| ==> Outstanding(l, ptrs[i], sizes[i]))
    && (forall i, j :: 0 <= i < j < |ptrs| ==> ptrs[i] != ptrs[j])
  }

  lemma OutstandingSeparate(runs: seq<Run>, l: Ledger, ptrs: seq<Addr>, sizes: seq<nat>)
    requires Balanced(PageSet(runs), l) && |sizes| == |ptrs| && AllOutstanding(l, ptrs, sizes)
    ensures Separate(runs, Ranges(ptrs, sizes))
  {
    hide PageSet, Span, Balanced;
    var ns := Ranges(ptrs, sizes);
    forall i | 0 <= i < |ns| ensures ns[i].count > 0 && PageSet(runs) !! PagesOf(ns[i]) {
      assert Outstanding(l, ptrs[i], sizes[i]);
      AllocationsDisjoint(PageSet(runs), l, ns[i].first, ns[i].first);
    }
    forall i, j | 0 <= i < j < |ns| ensures PagesOf(ns[i]) !! PagesOf(ns[j]) {
      assert Outstanding(l, ptrs[i], sizes[i]) && Outstanding(l, ptrs[j], sizes[j]) && ptrs[i] != ptrs[j];
      AllocationsDisjoint(PageSet(runs), l, ns[i].first, ns[j].first);
    }
  }

  /** Giving back the same allocations in any order leaves the same free list. */
  lemma DeallocOrderIrrelevant(runs: seq<Run>, l: Ledger, ptrs: seq<Addr>, sizes: seq<nat>, ptrs': seq<Addr>, sizes': seq<nat>)
    requires Canonical(runs) && Balanced(PageSet(runs), l)
    requires |sizes| == |ptrs| && AllOutstanding(l, ptrs, sizes)
    requires |sizes'| == |ptrs'| && AllOutstanding(l, ptrs', sizes')
    requires multiset(Ranges(ptrs, sizes)) == multiset(Ranges(ptrs', sizes'))
    ensures InsertAll(runs, Ranges(ptrs, sizes)) == InsertAll(runs, Ranges(ptrs', sizes'))
  {
    hide *;
    OutstandingSeparate(runs, l, ptrs, sizes);
    OutstandingSeparate(runs, l, ptrs', sizes');
    FreeOrderIrrelevant(runs, Ranges(ptrs, sizes), Ranges(ptrs', sizes'));
  }

  class RangeAlloc {
    const heap: Allocator
    ghost var ledger: Ledger

    ghost predicate Valid()
      reads this, heap
    {
      heap.Valid() && Balanced(PageSet(heap.runs), ledger) && PagesInHeap(heap.end, ledger.total)
    }

    constructor (heap: Allocator)
      requires heap.Valid() && heap.runs == []
      ensures Valid() && this.heap == heap && ledger == Ledger(map[], map[], {})
    {
      this.heap := heap;
      ledger := Ledger(map[], map[], {});
    }

    /** `init`: a new region for the heap. */
    method Init(vstart: Addr, vend: Addr)
      requires Valid()
      requires vstart < vend && Aligned(vstart) && Aligned(vend)
      requires HeapStart(heap.end) <= vstart && vend <= KERNBASE + PHYSTOP
      requires ledger.total !! PagesOf(RunOf(vstart, vend))
      modifies this, heap
      ensures Valid() && ledger == AfterInit(old(ledger), RunOf(vstart, vend))
      ensures heap.runs == Insert(old(heap.runs), RunOf(vstart, vend))
      ensures OnlyHeadersIn(old(heap.mem), heap.mem, heap.start, PageSet(heap.runs))
    {
      hide PageSet, PagesOf, Insert, Balanced, Canonical, HeapStart, OnlyHeadersIn, RunOf, PageCount, PagesInHeap;
      ghost var n := RunOf(vstart, vend);
      SpanPages(vstart, vend, heap.end);
      InitInHeap(heap.end, ledger.total, n);
      FreeIsGiven(PageSet(heap.runs), ledger);
      BalanceInit(PageSet(heap.runs), ledger, n);
      InsertPages(heap.runs, n);
      heap.FreeRange(vstart, vend);
      ledger := AfterInit(ledger, n);
    }

    /** `alloc`: fails exactly when no run of free pages is long enough. */
    method Alloc(size: nat, align: nat) returns (r: Option<nat>)
      requires Valid() && 1 <= size && PGSIZE + size - 1 < WORD && align <= PGSIZE
      modifies this, heap
      ensures Valid()
      ensures r.None? <==> !exists p: nat :: Span(p, SizeToPages(size)) <= PageSet(old(heap.runs))
      ensures r.None? ==> heap.runs == old(heap.runs) && ledger == old(ledger)
      ensures heap.length == old(heap.length) - if r.Some? then SizeToPages(size) else 0
      ensures r.Some? ==>
                && Aligned(r.value) && HeapStart(heap.end) <= r.value
                && r.value + PGSIZE * SizeToPages(size) <= KERNBASE + PHYSTOP
                && r.value / PGSIZE !in old(ledger.out)
                && ledger == AfterAlloc(old(ledger), r.value / PGSIZE, SizeToPages(size))
                && PageSet(heap.runs) == PageSet(old(heap.runs)) - Span(r.value / PGSIZE, SizeToPages(size))
                && Span(r.value / PGSIZE, SizeToPages(size)) <= PageSet(old(heap.runs))
      ensures var i := FirstFit(old(heap.runs), SizeToPages(size));
              r.Some? ==> i < |old(heap.runs)| && r.value / PGSIZE == old(heap.runs)[i].End() - SizeToPages(size)
                          && heap.runs == Take(old(heap.runs), i, SizeToPages(size))
      ensures OnlyHeadersIn(old(heap.mem), heap.mem, heap.start, PageSet(old(heap.runs)))
      ensures OwnedKept(old(heap.mem), heap.mem, old(ledger)) && old(ledger.owner.Keys) <= ledger.owner.Keys
      ensures r.Some? ==>
                && BytesHeld(ledger, r.value, size) && size <= 4096 * (old(heap.length) - heap.length) < size + 4096
                && BytesOutside(old(ledger.owner.Keys), r.value, size) && BytesInside(PageSet(old(heap.runs)), r.value, size)
    {
      hide PageSet, Span, Balanced, BytesHeld, BytesOutside, BytesInside, Outstanding, Canonical, HeapStart, OnlyHeadersIn, PageCount, Take, FirstFit, Chain, OwnedKept;
      ghost var runs0, k := heap.runs, SizeToPages(size);
      r := heap.Allocate(size);
      HeadersStayFree(old(heap.mem), heap.mem, heap.start, heap.end, PageSet(runs0), ledger);
      if r.Some? {
        ghost var i := FirstFit(runs0, k);
        TakePages(runs0, i, k);
        BalanceAlloc(PageSet(runs0), ledger, r.value / PGSIZE, k);
        AllocatedBytes(PageSet(runs0), ledger, r.value, size);
        ledger := AfterAlloc(ledger, r.value / PGSIZE, k);
      }
    }

    /** `dealloc`: the span is recomputed from the pointer and the size that was asked for. */
    method Dealloc(ptr: Addr, size: nat)
      requires Valid() && Outstanding(ledger, ptr, size)
      modifies this, heap
      ensures Valid() && ledger == AfterDealloc(old(ledger), ptr / PGSIZE)
      ensures heap.runs == Insert(old(heap.runs), Run(ptr / PGSIZE, SizeToPages(size)))
      ensures OnlyHeadersIn(old(heap.mem), heap.mem, heap.start, PageSet(heap.runs))
      ensures OwnedKept(old(heap.mem), heap.mem, ledger)
      ensures BytesInside(PageSet(heap.runs), ptr, size) && BytesOutside(ledger.owner.Keys, ptr, size)
      ensures size <= 4096 * (heap.length - old(heap.length)) < size + 4096
    {
      hide PageSet, Span, Insert, Balanced, Canonical, HeapStart, OnlyHeadersIn, PageCount, Chain, PageNo, PagesInHeap, OwnedKept,
        BytesInside, BytesOutside, SizeToPages;
      AllocationInHeap(heap.end, PageSet(heap.runs), ledger, ptr / PGSIZE);
      var pages := SizeToPages(size);
      var endAddr := ptr + PGSIZE * pages;
      ghost var n := Run(ptr / PGSIZE, pages);
      assert RunOf(ptr, endAddr) == n;
      SpanPages(ptr, endAddr, heap.end);
      assert PageNo(endAddr, heap.end) - PageNo(ptr, heap.end) == pages;
      BalanceDealloc(PageSet(heap.runs), ledger, ptr / PGSIZE);
      InsertPages(heap.runs, n);
      heap.FreeRange(ptr, endAddr);
      ledger := AfterDealloc(ledger, ptr / PGSIZE);
      HeadersStayFree(old(heap.mem), heap.mem, heap.start, heap.end, PageSet(heap.runs), ledger);
      FreedBytes(PageSet(heap.runs), ledger, ptr, size);
    }

    /** Giving back a set of allocations, one after the other, inserts their ranges. */
    method DeallocAll(ptrs: seq<Addr>, sizes: seq<nat>)
      requires Valid() && |sizes| == |ptrs|
      requires AllOutstanding(ledger, ptrs, sizes)
      modifies this, heap
      ensures Valid() && heap.runs == InsertAll(old(heap.runs), Ranges(ptrs, sizes))
    {
      hide PageSet, Span, Insert, Canonical, OnlyHeadersIn, PageCount, Chain, InHeap, Balanced, PagesInHeap;
      var i := 0;
      ghost var ns := Ranges(ptrs, sizes);
      assert ns[..0] == [];
      while i < |ptrs|
        invariant 0 <= i <= |ptrs| && Valid() && heap.runs == InsertAll(old(heap.runs), ns[..i])
        invariant forall j :: i <= j < |ptrs| ==> Outstanding(ledger, ptrs[j], sizes[j])
      {
        Dealloc(ptrs[i], sizes[i]);
        assert ns[..i + 1][..i] == ns[..i];
        i := i + 1;
      }
      assert ns[..i] == ns;
    }

    /** Taking pages and giving them straight back leaves the free list exactly as it was. */
    method AllocThenDealloc(size: nat) returns (r: Option<nat>)
      requires Valid() && 1 <= size && PGSIZE + size - 1 < WORD
      modifies this, heap
      ensures Valid() && heap.runs == old(heap.runs) && heap.length == old(heap.length)
    {
      hide PageSet, Span, Insert, Balanced, Canonical, HeapStart, OnlyHeadersIn, PageCount, Chain, Take, FirstFit;
      ghost var runs0 := heap.runs;
      r := Alloc(size, 1);
      if r.Some? {
        Dealloc(r.value, size);
        TakeInsert(runs0, FirstFit(runs0, SizeToPages(size)), SizeToPages(size));
      }
    }
  }

  function Ranges(ptrs: seq<Addr>, sizes: seq<nat>): (ns: seq<Run>)
    requires |sizes| == |ptrs|
    ensures |ns| == |ptrs| && forall i :: 0 <= i < |ns| ==> ns[i] == Run(ptrs[i] / PGSIZE, SizeToPages(sizes[i]))
  {
    seq(|ptrs|, i requires 0 <= i < |ptrs| => Run(ptrs[i] / PGSIZE, SizeToPages(sizes[i])))
  }

  lemma FreeIsGiven(free: set<nat>, l: Ledger)
    requires Balanced(free, l)
    ensures free <= l.total
  {
  }
}
