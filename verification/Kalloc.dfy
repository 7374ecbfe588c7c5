/** The kernel page allocator: an address-sorted list of free ranges whose headers live in
    the first page of each range. */
module Kalloc {
  import opened Wrappers
  import opened MemUtils
  import opened PageRuns

  /** A list header.  `size` counts the pages of the range besides the one that holds the header. */
  datatype Header = Header(next: Option<nat>, size: nat)

  type Memory = map<nat, Header>

  // ----- lists in memory -----

  function AddrAt(runs: seq<Run>, i: nat): Option<nat> {
    if i < |runs| then Some(PGSIZE * runs[i].first) else None
  }

  /** The header before range `k`: the sentinel, or range `k - 1`. */
  function PrevAddr(start: nat, runs: seq<Run>, k: nat): nat
    requires k <= |runs|
  {
    if k == 0 then start else PGSIZE * runs[k - 1].first
  }

  /** Range `i` has its header in place. */
  ghost predicate HeaderOk(mem: Memory, runs: seq<Run>, i: nat)
    requires i < |runs|
  {
    && runs[i].count > 0
    && PGSIZE * runs[i].first in mem
    && mem[PGSIZE * runs[i].first] == Header(AddrAt(runs, i + 1), runs[i].count - 1)
  }

  /** The headers reachable from the sentinel at `start` are those of `runs`, in order. */
  ghost predicate Chain(mem: Memory, start: nat, runs: seq<Run>) {
    && start in mem && mem[start] == Header(AddrAt(runs, 0), 0)
    && forall i :: 0 <= i < |runs| ==> HeaderOk(mem, runs, i)
  }

  /** Ranges in strictly increasing order, all above the sentinel. */
  ghost predicate Ascending(start: nat, runs: seq<Run>) {
    && (forall i :: 0 <= i < |runs| ==> start < PGSIZE * runs[i].first)
    && (forall i, j :: 0 <= i < j < |runs| ==> runs[i].first < runs[j].first)
  }

  /** Headers outside the sentinel and the pages in `s` are not written. */
  ghost predicate OnlyHeadersIn(mem: Memory, mem': Memory, start: nat, s: set<nat>) {
    forall a: nat :: a != start && a / PGSIZE !in s ==>
      (a in mem <==> a in mem') && (a in mem && a in mem' ==> mem'[a] == mem[a])
  }

  /** Linking a new header in before range `k`. */
  lemma ChainLink(mem: Memory, start: nat, runs: seq<Run>, k: nat, n: Run, mem': Memory)
    requires Chain(mem, start, runs) && k <= |runs| && n.count > 0
    requires Ascending(start, runs[..k] + [n] + runs[k..])
    requires var prev, a := PrevAddr(start, runs, k), PGSIZE * n.first;
             prev in mem && mem' == mem[a := Header(mem[prev].next, n.count - 1)][prev := mem[prev].(next := Some(a))]
    ensures Chain(mem', start, runs[..k] + [n] + runs[k..])
  {
    var runs' := runs[..k] + [n] + runs[k..];
    if k > 0 { assert HeaderOk(mem, runs, k - 1) && runs'[k - 1].first < runs'[k].first; }
    forall i | 0 <= i < |runs'| ensures HeaderOk(mem', runs', i) {
      if i < k {
        assert HeaderOk(mem, runs, i) && runs'[i] == runs[i];
        assert runs'[i].first < runs'[k].first && (i < k - 1 ==> runs'[i].first < runs'[k - 1].first);
      } else if i > k {
        assert HeaderOk(mem, runs, i - 1) && runs'[i] == runs[i - 1];
        assert runs'[k].first < runs'[i].first && (k > 0 ==> runs'[k - 1].first < runs'[i].first);
      }
    }
  }

  /** Range `i` takes over its neighbour `i + 1`. */
  function Join(runs: seq<Run>, i: nat): seq<Run>
    requires i + 1 < |runs|
  {
    runs[..i] + [Run(runs[i].first, runs[i].count + runs[i + 1].count)] + runs[i + 2..]
  }

  lemma ChainJoin(mem: Memory, start: nat, runs: seq<Run>, i: nat, mem': Memory)
    requires Chain(mem, start, runs) && Ascending(start, runs) && i + 1 < |runs|
    requires var a, b := PGSIZE * runs[i].first, PGSIZE * runs[i + 1].first;
             a in mem && b in mem &&
             mem' == mem[a := Header(mem[b].next, mem[a].size + mem[b].size + 1)][b := mem[b].(next := None)]
    ensures Chain(mem', start, Join(runs, i)) && Ascending(start, Join(runs, i))
  {
    var runs' := Join(runs, i);
    assert HeaderOk(mem, runs, i) && HeaderOk(mem, runs, i + 1) && runs[i].first < runs[i + 1].first;
    forall j | 0 <= j < |runs'| ensures HeaderOk(mem', runs', j) {
      if j < i {
        assert HeaderOk(mem, runs, j) && runs[j].first < runs[i].first;
      } else if j > i {
        assert HeaderOk(mem, runs, j + 1) && runs[i + 1].first < runs[j + 1].first;
      }
    }
    JoinAscending(start, runs, i);
  }

  lemma JoinAscending(start: nat, runs: seq<Run>, i: nat)
    requires Ascending(start, runs) && i + 1 < |runs|
    ensures Ascending(start, Join(runs, i))
  {
    var runs' := Join(runs, i);
    assert forall j :: 0 <= j < |runs'| ==> runs'[j].first == if j <= i then runs[j].first else runs[j + 1].first;
  }

  /** Carving pages off the end of range `i`, or unlinking it. */
  lemma ChainShrink(mem: Memory, start: nat, runs: seq<Run>, i: nat, k: nat, mem': Memory)
    requires Chain(mem, start, runs) && Ascending(start, runs) && i < |runs| && k < runs[i].count
    requires var a := PGSIZE * runs[i].first; a in mem && mem' == mem[a := mem[a].(size := runs[i].count - 1 - k)]
    ensures Chain(mem', start, Take(runs, i, k))
  {
    var runs' := Take(runs, i, k);
    forall j | 0 <= j < |runs'| ensures HeaderOk(mem', runs', j) {
      assert HeaderOk(mem, runs, j) && (j != i ==> runs[j].first != runs[i].first);
    }
  }

  lemma ChainUnlink(mem: Memory, start: nat, runs: seq<Run>, i: nat, mem': Memory)
    requires Chain(mem, start, runs) && Ascending(start, runs) && i < |runs|
    requires var a, prev := PGSIZE * runs[i].first, PrevAddr(start, runs, i);
             a in mem && prev in mem && mem' == mem[a := mem[a].(next := None)][prev := mem[prev].(next := mem[a].next)]
    ensures Chain(mem', start, Take(runs, i, runs[i].count))
  {
    var runs' := Take(runs, i, runs[i].count);
    assert HeaderOk(mem, runs, i);
    forall j | 0 <= j < |runs'| ensures HeaderOk(mem', runs', j) {
      if j < i {
        assert HeaderOk(mem, runs, j) && runs[j].first < runs[i].first;
        assert j < i - 1 ==> runs[j].first < runs[i - 1].first;
      } else {
        assert HeaderOk(mem, runs, j + 1) && runs[i].first < runs[j + 1].first;
        assert i > 0 ==> runs[i - 1].first < runs[i].first;
      }
    }
  }

  // ----- the heap -----

  /** The first address given to the allocator: one page past the kernel image. */
  function HeapStart(end: Addr): (h: Addr)
    requires end < KERNBASE + PHYSTOP
    ensures h % 4096 == 0 && end + 4096 <= h < end + 8192
  {
    PageRoundUp(end + PGSIZE)
  }

  /** The ranges lie between the end of the kernel and the top of physical memory. */
  ghost predicate InHeap(end: Addr, runs: seq<Run>)
    requires end < KERNBASE + PHYSTOP
  {
    forall i :: 0 <= i < |runs| ==>
      HeapStart(end) <= PGSIZE * runs[i].first && PGSIZE * runs[i].End() <= KERNBASE + PHYSTOP
  }

  /** The least number of pages that hold `size` bytes. */
  function SizeToPages(size: nat): (k: nat)
    ensures size <= 4096 * k < size + 4096
  {
    (PGSIZE + size - 1) / PGSIZE
  }

  /** The same with the sum wrapped to 32 bits, as it would be without overflow checks. */
  function WrappedPages(size: Addr): nat {
    (PGSIZE + size - 1) % WORD / PGSIZE
  }

  /** The wrapped sum gives the page count exactly for the sizes that do not overflow, and no pages
      at all for the others. */
  lemma PagesExact(size: Addr)
    ensures WrappedPages(size) == SizeToPages(size) <==> PGSIZE + size - 1 < WORD
    ensures PGSIZE + size - 1 >= WORD ==> WrappedPages(size) == 0
  {
    if PGSIZE + size - 1 >= WORD {
      assert (PGSIZE + size - 1) % WORD == PGSIZE + size - 1 - WORD;
    }
  }

  /** What `verify` checks of a list and its recorded length. */
  ghost predicate Verified(runs: seq<Run>, length: nat, end: Addr) {
    && (forall i :: 0 <= i < |runs| ==> end < PGSIZE * runs[i].first < KERNBASE + PHYSTOP)
    && (forall i :: 0 <= i < |runs| - 1 ==> PGSIZE * runs[i].first < PGSIZE * runs[i + 1].first)
    && (forall i :: 0 <= i < |runs| - 1 ==> PGSIZE * runs[i].End() < PGSIZE * runs[i + 1].first)
    && PageCount(runs) == length
  }

  lemma CanonicalAscends(start: nat, end: Addr, runs: seq<Run>)
    requires start < end < KERNBASE + PHYSTOP && Canonical(runs) && InHeap(end, runs)
    ensures Ascending(start, runs) && Verified(runs, PageCount(runs), end)
  {
    hide PageCount;
    forall i, j | 0 <= i < j < |runs| ensures runs[i].first < runs[j].first {
      assert runs[i].End() < runs[j].first;
    }
  }

  /** The checks pass exactly on canonical lists of the right length above the kernel and below the
      top of memory; comparing neighbours is enough. */
  lemma VerifiedIff(runs: seq<Run>, length: nat, end: Addr)
    requires forall i :: 0 <= i < |runs| ==> runs[i].count > 0
    ensures Verified(runs, length, end) <==>
            && Canonical(runs) && PageCount(runs) == length
            && forall i :: 0 <= i < |runs| ==> end < 4096 * runs[i].first < 0x8E00_0000
  {
    hide PageCount;
    if Verified(runs, length, end) {
      forall i, j | 0 <= i < j < |runs| ensures runs[i].End() < runs[j].first {
        GapsAdd(runs, i, j);
      }
    }
  }

  lemma {:induction false} GapsAdd(runs: seq<Run>, i: nat, j: nat)
    requires i < j < |runs| && forall k :: 0 <= k < |runs| - 1 ==> PGSIZE * runs[k].End() < PGSIZE * runs[k + 1].first
    ensures runs[i].End() < runs[j].first
    decreases j
  {
    assert PGSIZE * runs[j - 1].End() < PGSIZE * runs[j - 1 + 1].first;
    if i < j - 1 { GapsAdd(runs, i, j - 1); }
  }

  lemma {:induction false} PageCountStep(runs: seq<Run>, i: nat)
    requires i < |runs|
    ensures PageCount(runs[..i + 1]) == PageCount(runs[..i]) + runs[i].count
  {
    assert runs[..i + 1][..i] == runs[..i];
  }

  // ----- the steps of free_range -----

  function RunOf(vstart: nat, vend: nat): Run
    requires vstart <= vend
  {
    Run(vstart / PGSIZE, (vend - vstart) / PGSIZE)
  }

  /** The page numbers of its ends give the length of a span. */
  lemma SpanPages(vstart: Addr, vend: Addr, end: Addr)
    requires vstart < vend <= KERNBASE + PHYSTOP && Aligned(vstart) && Aligned(vend)
    requires end < KERNBASE + PHYSTOP && HeapStart(end) <= vstart
    ensures var n := RunOf(vstart, vend);
            n.count > 0 && vstart == PGSIZE * n.first && vend == PGSIZE * n.End()
            && PageNo(vend, end) - PageNo(vstart, end) == n.count
  {
    hide PageNo;
    PageNoSpan(vstart, RunOf(vstart, vend).count, end);
  }

  /** The first page of a free range is free. */
  lemma FirstPage(runs: seq<Run>, i: nat, n: Run)
    requires i < |runs| && runs[i].count > 0
    ensures runs[i].first in PageSet(runs)
    ensures n.count > 0 && PageSet(runs) !! PagesOf(n) ==> runs[i].first != n.first
  {
    hide PageSet, Span;
    Member(runs, i, runs[i].first);
  }

  /** A header written into the new range disturbs no list header. */
  lemma NewHeader(mem: Memory, start: nat, runs: seq<Run>, n: Run, h: Header)
    requires Chain(mem, start, runs) && n.count > 0 && PageSet(runs) !! PagesOf(n) && PGSIZE * n.first != start
    ensures Chain(mem[PGSIZE * n.first := h], start, runs)
    ensures start in mem && mem[start].next == AddrAt(runs, 0)
  {
    hide PageSet, PagesOf;
    var mem' := mem[PGSIZE * n.first := h];
    forall i | 0 <= i < |runs| ensures HeaderOk(mem', runs, i) {
      assert HeaderOk(mem, runs, i);
      FirstPage(runs, i, n);
    }
  }

  /** The list depends on nothing but the sentinel and the free pages. */
  lemma ChainFrame(mem: Memory, mem': Memory, start: nat, runs: seq<Run>)
    requires Chain(mem, start, runs) && start in mem' && mem'[start] == mem[start]
    requires forall a: nat :: a in mem && a / PGSIZE in PageSet(runs) ==> a in mem' && mem'[a] == mem[a]
    ensures Chain(mem', start, runs)
  {
    hide PageSet;
    forall i | 0 <= i < |runs| ensures HeaderOk(mem', runs, i) {
      assert HeaderOk(mem, runs, i);
      FirstPage(runs, i, runs[i]);
      assert PGSIZE * runs[i].first / PGSIZE == runs[i].first;
    }
  }

  lemma FarFromSentinel(start: nat, end: Addr, n: Run)
    requires start < end < KERNBASE + PHYSTOP && HeapStart(end) <= PGSIZE * n.first
    ensures start + PGSIZE < PGSIZE * n.first
  {
  }

  lemma InsertInHeap(end: Addr, runs: seq<Run>, n: Run)
    requires end < KERNBASE + PHYSTOP && InHeap(end, runs) && Canonical(Insert(runs, n))
    requires HeapStart(end) <= PGSIZE * n.first && PGSIZE * n.End() <= KERNBASE + PHYSTOP
    ensures InHeap(end, Insert(runs, n))
  {
    hide HeapStart, PageSet, Insert, Span, PageCount;
    InsertPages(runs, n);
    var r := Insert(runs, n);
    forall i | 0 <= i < |r| ensures HeapStart(end) <= PGSIZE * r[i].first && PGSIZE * r[i].End() <= KERNBASE + PHYSTOP {
      var lo, hi := r[i].first, r[i].End() - 1;
      Member(r, i, lo);
      Member(r, i, hi);
      PageInHeap(end, runs, n, lo);
      PageInHeap(end, runs, n, hi);
    }
  }

  lemma PageInHeap(end: Addr, runs: seq<Run>, n: Run, p: nat)
    requires end < KERNBASE + PHYSTOP && InHeap(end, runs)
    requires HeapStart(end) <= PGSIZE * n.first && PGSIZE * n.End() <= KERNBASE + PHYSTOP
    requires p in PageSet(runs) || p in PagesOf(n)
    ensures HeapStart(end) <= PGSIZE * p && PGSIZE * (p + 1) <= KERNBASE + PHYSTOP
  {
    hide HeapStart, PageSet, Span;
    if p in PageSet(runs) {
      var i := Locate(runs, p);
    }
  }

  /** One step of the cursor: the new range is not at the next header, so it lies beyond it. */
  lemma NextHeader(mem: Memory, start: nat, runs: seq<Run>, n: Run, k: nat)
    requires Chain(mem, start, runs) && k < |runs| && n.count > 0 && PageSet(runs) !! PagesOf(n)
    requires start < PGSIZE * n.first && forall j :: 0 <= j < k ==> runs[j].first < n.first
    requires !(PGSIZE * n.first < PGSIZE * runs[k].first && PGSIZE * n.first > PrevAddr(start, runs, k))
    ensures runs[k].first < n.first
    ensures PGSIZE * runs[k].first in mem && mem[PGSIZE * runs[k].first].next == AddrAt(runs, k + 1)
  {
    hide PageSet, PagesOf;
    assert HeaderOk(mem, runs, k);
    FirstPage(runs, k, n);
    assert PrevAddr(start, runs, k) < PGSIZE * n.first;
  }

  lemma FoundPosition(runs: seq<Run>, n: Run, k: nat)
    requires k <= |runs| && (forall j :: 0 <= j < k ==> runs[j].first < n.first)
    requires k < |runs| ==> n.first < runs[k].first
    ensures Position(runs, n.first) == k
  {
    var p := Position(runs, n.first);
  }

  /** The list with the new range linked in but not yet merged. */
  function Linked(runs: seq<Run>, n: Run, k: nat): seq<Run>
    requires k <= |runs|
  {
    runs[..k] + [n] + runs[k..]
  }

  lemma LinkedAscending(start: nat, runs: seq<Run>, n: Run, k: nat)
    requires Ascending(start, runs) && k == Position(runs, n.first) && start < PGSIZE * n.first
    requires forall j :: 0 <= j < k ==> runs[j].first < n.first
    ensures Ascending(start, Linked(runs, n, k))
  {
    hide Position;
    var r := Linked(runs, n, k);
    forall i, j | 0 <= i < j < |r| ensures r[i].first < r[j].first {
      assert j > k && k < |runs| ==> runs[k].first <= runs[j - 1].first;
    }
  }

  /** The list after the merge with the next range, if it is adjacent. */
  function Joined(runs: seq<Run>, n: Run, k: nat): seq<Run>
    requires k <= |runs|
  {
    if k < |runs| && n.End() == runs[k].first then Join(Linked(runs, n, k), k) else Linked(runs, n, k)
  }

  /** ... which is what merging the range at position `k` of the linked list gives. */
  lemma JoinedIsJoin(runs: seq<Run>, n: Run, k: nat)
    requires k <= |runs|
    ensures var l := Linked(runs, n, k);
            && k < |l| && l[k] == n && AddrAt(l, k + 1) == AddrAt(runs, k)
            && Joined(runs, n, k) == if k + 1 < |l| && l[k].End() == l[k + 1].first then Join(l, k) else l
  {
    hide Join;
  }

  /** The header before position `k`, be it the sentinel or a range. */
  lemma BeforeHeader(mem: Memory, start: nat, runs: seq<Run>, k: nat)
    requires Chain(mem, start, runs) && k < |runs|
    ensures PrevAddr(start, runs, k) in mem
    ensures mem[PrevAddr(start, runs, k)].size == if k == 0 then 0 else runs[k - 1].count - 1
    ensures k > 0 ==> runs[k - 1].count > 0
  {
    if k > 0 { assert HeaderOk(mem, runs, k - 1); }
  }

  lemma JoinedIsMergeNext(runs: seq<Run>, n: Run, k: nat)
    requires k <= |runs|
    ensures Joined(runs, n, k) == runs[..k] + MergeNext(n, runs[k..])
  {
  }

  /** The ranges around the new one after the first merge. */
  lemma JoinedAround(runs: seq<Run>, n: Run, k: nat)
    requires k <= |runs|
    ensures k < |Joined(runs, n, k)| && Joined(runs, n, k)[k].first == n.first
    ensures k > 0 ==> Joined(runs, n, k)[k - 1] == runs[k - 1]
  {
  }

  lemma JoinedIsInsert(runs: seq<Run>, n: Run, k: nat)
    requires k == Position(runs, n.first)
    ensures Insert(runs, n) ==
            if k > 0 && runs[k - 1].End() == n.first then Join(Joined(runs, n, k), k - 1) else Joined(runs, n, k)
  {
    hide Joined, Join, Position;
    JoinedIsMergeNext(runs, n, k);
    var mid := MergeNext(n, runs[k..]);
    assert mid != [] && mid[0].first == n.first;
    hide MergeNext;
    if k > 0 {
      JoinConcat(runs[..k], mid);
      assert runs[..k][k - 1] == runs[k - 1];
    }
  }

  /** Joining across the seam of two lists. */
  lemma JoinConcat(pre: seq<Run>, mid: seq<Run>)
    requires pre != [] && mid != []
    ensures var m := |pre| - 1;
            Join(pre + mid, m) == pre[..m] + [Run(pre[m].first, pre[m].count + mid[0].count)] + mid[1..]
  {
  }

  /** All the headers that an insertion writes lie in free pages. */
  lemma InsertHeaders(mem: Memory, mem': Memory, start: nat, runs: seq<Run>, n: Run, k: nat)
    requires k <= |runs| && n.count > 0 && Chain(mem, start, runs)
    requires forall a: nat :: a != PGSIZE * n.first && a != PrevAddr(start, runs, k) && Some(a) != AddrAt(runs, k) ==>
                (a in mem <==> a in mem') && (a in mem && a in mem' ==> mem'[a] == mem[a])
    ensures OnlyHeadersIn(mem, mem', start, PageSet(Insert(runs, n)))
  {
    hide PageSet, Insert, Span, HeaderOk;
    InsertPages(runs, n);
    if k > 0 { CountPositive(mem, start, runs, k - 1); FirstPage(runs, k - 1, n); }
    if k < |runs| { CountPositive(mem, start, runs, k); FirstPage(runs, k, n); }
    FirstOfRun(n);
    var free := PageSet(Insert(runs, n));
    forall a: nat | a != start && a / PGSIZE !in free
      ensures a != PGSIZE * n.first && a != PrevAddr(start, runs, k) && Some(a) != AddrAt(runs, k)
    {
    }
  }

  lemma CountPositive(mem: Memory, start: nat, runs: seq<Run>, i: nat)
    requires Chain(mem, start, runs) && i < |runs|
    ensures runs[i].count > 0
  {
    assert HeaderOk(mem, runs, i);
  }

  lemma FirstOfRun(n: Run)
    requires n.count > 0
    ensures n.first in PagesOf(n)
  {
  }

  class Allocator {
    const start: Addr         // address of the sentinel, a static of the kernel image
    const end: Addr           // end of the kernel image
    var mem: Memory
    var length: nat
    ghost var runs: seq<Run>

    ghost predicate Valid()
      reads this
    {
      && start < end < KERNBASE + PHYSTOP && KERNBASE <= end
      && Chain(mem, start, runs) && Canonical(runs) && InHeap(end, runs)
      && length == PageCount(runs)
    }

    constructor (start: Addr, end: Addr)
      requires start < end < KERNBASE + PHYSTOP && KERNBASE <= end
      ensures Valid() && runs == [] && this.start == start && this.end == end
    {
      this.start, this.end := start, end;
      mem, length, runs := map[start as nat := Header(None, 0)], 0, [];
    }

    /** The checks of `verify`, as one answer: they pass exactly on verified lists. */
    method Verify() returns (ok: bool)
      requires Chain(mem, start, runs) && KERNBASE <= end
      ensures ok <==> Verified(runs, length, end)
    {
      hide Verified, VerifiedTo, PageCount;
      ok := true;
      var size, next := 0, mem[start].next;
      ghost var i := 0;
      VerifiedNone(runs, end);
      while next.Some?
        invariant 0 <= i <= |runs| && next == AddrAt(runs, i)
        invariant size == PageCount(runs[..i])
        invariant ok <==> VerifiedTo(runs, end, i)
        decreases |runs| - i
      {
        var addr := next.value;
        assert HeaderOk(mem, runs, i);
        ok := ok && addr > end && addr - KERNBASE < PHYSTOP;
        size := size + mem[addr].size + 1;
        next := mem[addr].next;
        if next.Some? {
          ok := ok && next.value > addr;
          ok := ok && next.value > addr + PGSIZE * (mem[addr].size + 1);
        }
        PageCountStep(runs, i);
        VerifiedStep(runs, end, i);
        i := i + 1;
      }
      assert runs[..i] == runs;
      VerifiedAll(runs, length, end);
      ok := ok && size == length;
    }

    /** Header `a` takes over the range of the next header `b`. */
    method Absorb(a: nat, b: nat, ghost i: nat)
      requires Chain(mem, start, runs) && Ascending(start, runs) && i + 1 < |runs|
      requires a == PGSIZE * runs[i].first && b == PGSIZE * runs[i + 1].first
      modifies `mem, `runs
      ensures Chain(mem, start, runs) && Ascending(start, runs) && runs == Join(old(runs), i)
      ensures forall x: nat :: x != a && x != b ==>
                (x in mem <==> x in old(mem)) && (x in mem && x in old(mem) ==> mem[x] == old(mem)[x])
    {
      hide Ascending, Join;
      ghost var mem0 := mem;
      assert HeaderOk(mem, runs, i) && HeaderOk(mem, runs, i + 1);
      mem := mem[a := Header(mem[b].next, mem[a].size + mem[b].size + 1)][b := mem[b].(next := None)];
      ChainJoin(mem0, start, runs, i, mem);
      runs := Join(runs, i);
    }

    /** The body of the insertion: link the header in after `prev`, then merge both ways. */
    method InsertAt(vstart: nat, prev: nat, ghost n: Run, ghost k: nat)
      requires Chain(mem, start, runs) && Ascending(start, runs) && n.count > 0
      requires k == Position(runs, n.first) && (forall j :: 0 <= j < k ==> runs[j].first < n.first)
      requires vstart == PGSIZE * n.first && vstart in mem && mem[vstart].size == n.count - 1
      requires start + PGSIZE < vstart && prev == PrevAddr(start, runs, k)
      modifies `mem, `runs
      ensures Chain(mem, start, runs) && runs == Insert(old(runs), n)
      ensures forall a: nat :: a != vstart && a != prev && Some(a) != AddrAt(old(runs), k) ==>
                (a in mem <==> a in old(mem)) && (a in mem && a in old(mem) ==> mem[a] == old(mem)[a])
    {
      hide Insert, Position, Join, Ascending, Chain, Joined, Linked;
      ghost var r0 := runs;
      LinkAt(vstart, prev, n, k);
      JoinedIsJoin(r0, n, k);
      // the new range may end where the next one begins
      MergeAfter(vstart, k);
      assert runs == Joined(r0, n, k);
      JoinedIsInsert(r0, n, k);
      JoinedAround(r0, n, k);
      BeforeHeader(mem, start, runs, k);
      // ... or begin where the previous one ends
      if prev + PGSIZE * (mem[prev].size + 1) == vstart {
        Absorb(prev, vstart, k - 1);
      }
    }

    /** Link the header at `vstart` in after `prev`. */
    method LinkAt(vstart: nat, prev: nat, ghost n: Run, ghost k: nat)
      requires Chain(mem, start, runs) && Ascending(start, runs) && n.count > 0
      requires k == Position(runs, n.first) && (forall j :: 0 <= j < k ==> runs[j].first < n.first)
      requires vstart == PGSIZE * n.first && vstart in mem && mem[vstart].size == n.count - 1
      requires start < vstart && prev == PrevAddr(start, runs, k)
      modifies `mem, `runs
      ensures Chain(mem, start, runs) && Ascending(start, runs) && runs == Linked(old(runs), n, k)
      ensures forall a: nat :: a != vstart && a != prev ==>
                (a in mem <==> a in old(mem)) && (a in mem && a in old(mem) ==> mem[a] == old(mem)[a])
    {
      hide Position, Ascending;
      ghost var mem0, r0 := mem, runs;
      if k > 0 { assert HeaderOk(mem, runs, k - 1); }
      mem := mem[vstart := mem[vstart].(next := mem[prev].next)];
      mem := mem[prev := mem[prev].(next := Some(vstart))];
      LinkedAscending(start, r0, n, k);
      ChainLink(mem0, start, r0, k, n, mem);
      runs := Linked(r0, n, k);
    }

    /** Join the range at `a` with the next one if they touch. */
    method MergeAfter(a: nat, ghost i: nat)
      requires Chain(mem, start, runs) && Ascending(start, runs) && i < |runs| && a == PGSIZE * runs[i].first
      modifies `mem, `runs
      ensures Chain(mem, start, runs) && Ascending(start, runs)
      ensures runs == if i + 1 < |old(runs)| && old(runs)[i].End() == old(runs)[i + 1].first then Join(old(runs), i) else old(runs)
      ensures forall x: nat :: x != a && Some(x) != AddrAt(old(runs), i + 1) ==>
                (x in mem <==> x in old(mem)) && (x in mem && x in old(mem) ==> mem[x] == old(mem)[x])
    {
      hide Ascending, Join;
      assert HeaderOk(mem, runs, i);
      if mem[a].next.Some? && a + PGSIZE * (mem[a].size + 1) == mem[a].next.value {
        Absorb(a, mem[a].next.value, i);
      }
    }

    /** `free_range`: the span from `vstart` to `vend` joins the list. */
    method FreeRange(vstart: Addr, vend: Addr)
      requires Valid()
      requires vstart < vend && Aligned(vstart) && Aligned(vend)
      requires HeapStart(end) <= vstart && vend <= KERNBASE + PHYSTOP
      requires PageSet(runs) !! PagesOf(RunOf(vstart, vend))
      modifies this
      ensures Valid() && runs == Insert(old(runs), RunOf(vstart, vend))
      ensures OnlyHeadersIn(old(mem), mem, start, PageSet(runs))
    {
      hide PageSet, PagesOf, PageCount, Insert, Canonical, Verified, InHeap, Chain, Ascending, OnlyHeadersIn,
        RunOf, PageNo, HeapStart, Position;
      CanonicalAscends(start, end, runs);
      var ok := Verify();
      assert ok;
      ghost var n, mem0 := RunOf(vstart, vend), mem;
      SpanPages(vstart, vend, end);
      var size := PageNo(vend, end) - PageNo(vstart, end) - 1;
      assert n.count == size + 1;
      mem := mem[vstart := Header(None, size)];
      length := length + (size + 1);
      FarFromSentinel(start, end, n);
      NewHeader(mem0, start, runs, n, Header(None, size));
      InsertPages(runs, n);
      InsertCanonical(runs, n);
      InsertInHeap(end, runs, n);

      var prev: nat := start;
      ghost var k := 0;
      while mem[prev].next.Some? && !(vstart < mem[prev].next.value && vstart > prev)
        invariant k <= |runs| && prev == PrevAddr(start, runs, k) && prev in mem && mem[prev].next == AddrAt(runs, k)
        invariant forall j :: 0 <= j < k ==> runs[j].first < n.first
        invariant mem == mem0[vstart := Header(None, size)] && runs == old(runs) && length == old(length) + n.count
        decreases |runs| - k
      {
        NextHeader(mem, start, runs, n, k);
        prev := mem[prev].next.value;
        k := k + 1;
      }
      FoundPosition(runs, n, k);
      InsertAt(vstart, prev, n, k);
      InsertHeaders(mem0, mem, start, old(runs), n, k);
    }

    /** `allocate`: first fit, from the end of the range.  It fails only if no run of free
        pages anywhere is long enough. */
    method Allocate(size: nat) returns (r: Option<nat>)
      requires Valid() && 1 <= size && PGSIZE + size - 1 < WORD
      modifies this
      ensures Valid() && OnlyHeadersIn(old(mem), mem, start, PageSet(old(runs)))
      ensures var k, i := SizeToPages(size), FirstFit(old(runs), SizeToPages(size));
              if i < |old(runs)| then r == Some(PGSIZE * (old(runs)[i].End() - k)) && runs == Take(old(runs), i, k)
              else r == None && runs == old(runs) && mem == old(mem) && length == old(length)
      ensures r.None? <==> !exists p: nat :: Span(p, SizeToPages(size)) <= PageSet(old(runs))
      ensures r.Some? ==> size <= 4096 * (old(length) - length) < size + 4096
    {
      hide PageSet, Span, PageCount, Canonical, Verified, InHeap, Ascending, FirstFit, Take;
      CanonicalAscends(start, end, runs);
      var ok := Verify();
      assert ok;
      var requested := SizeToPages(size);
      FirstFitComplete(runs, requested);
      var prev: nat := start;
      ghost var k := 0;
      while mem[prev].next.Some? && mem[mem[prev].next.value].size + 1 < requested
        invariant k <= |runs| && prev == PrevAddr(start, runs, k) && prev in mem && mem[prev].next == AddrAt(runs, k)
        invariant forall j :: 0 <= j < k ==> runs[j].count < requested
        invariant mem == old(mem) && runs == old(runs) && length == old(length) && Chain(mem, start, runs)
        invariant k < |runs| ==> HeaderOk(mem, runs, k)
        decreases |runs| - k
      {
        prev := mem[prev].next.value;
        k := k + 1;
      }
      FoundFit(runs, requested, k);
      if mem[prev].next.None? {
        return None;
      }
      TakePages(runs, k, requested);
      TakeCanonical(runs, k, requested);
      TakeInHeap(end, runs, k, requested);
      TakeHeaders(mem, start, runs, k);
      length := length - requested;
      r := TakeAt(prev, requested, k);
    }

    /** Both ways to take pages from the range after `prev`. */
    method TakeAt(prev: nat, requested: nat, ghost k: nat) returns (r: Option<nat>)
      requires Chain(mem, start, runs) && Ascending(start, runs) && k < |runs| && 0 < requested <= runs[k].count
      requires prev == PrevAddr(start, runs, k)
      modifies `mem, `runs
      ensures r == Some(PGSIZE * (old(runs)[k].End() - requested))
      ensures runs == Take(old(runs), k, requested) && Chain(mem, start, runs)
      ensures forall a: nat :: a != prev && a != PGSIZE * old(runs)[k].first ==>
                (a in mem <==> a in old(mem)) && (a in mem && a in old(mem) ==> mem[a] == old(mem)[a])
    {
      hide Take, Ascending;
      assert HeaderOk(mem, runs, k);
      if k > 0 { assert HeaderOk(mem, runs, k - 1); }
      var next := mem[prev].next.value;
      if mem[next].size >= requested {
        // allocate_from_range
        r := Some(next + PGSIZE * (mem[next].size + 1 - requested));
        mem := mem[next := mem[next].(size := mem[next].size - requested)];
        ChainShrink(old(mem), start, runs, k, requested, mem);
      } else {
        // allocate_entire_range
        var nextNext := mem[next].next;
        mem := mem[next := mem[next].(next := None)];
        mem := mem[prev := mem[prev].(next := nextNext)];
        ChainUnlink(old(mem), start, runs, k, mem);
        r := Some(next);
      }
      runs := Take(runs, k, requested);
    }
  }

  /** The headers that an allocation writes lie in pages that were free. */
  lemma TakeHeaders(mem: Memory, start: nat, runs: seq<Run>, k: nat)
    requires Chain(mem, start, runs) && k < |runs|
    ensures runs[k].first in PageSet(runs) && (PrevAddr(start, runs, k) == start || PrevAddr(start, runs, k) / PGSIZE in PageSet(runs))
  {
    hide PageSet;
    assert HeaderOk(mem, runs, k);
    FirstPage(runs, k, runs[k]);
    if k > 0 {
      assert HeaderOk(mem, runs, k - 1);
      FirstPage(runs, k - 1, runs[k]);
    }
  }

  lemma FoundFit(runs: seq<Run>, n: nat, k: nat)
    requires k <= |runs| && (forall j :: 0 <= j < k ==> runs[j].count < n) && (k < |runs| ==> runs[k].count >= n)
    ensures FirstFit(runs, n) == k
  {
    var i := FirstFit(runs, n);
  }

  lemma TakeInHeap(end: Addr, runs: seq<Run>, i: nat, k: nat)
    requires end < KERNBASE + PHYSTOP && InHeap(end, runs) && i < |runs| && k <= runs[i].count
    ensures InHeap(end, Take(runs, i, k))
  {
    hide HeapStart;
  }

  /** The checks of `verify` on the first `n` headers. */
  ghost predicate VerifiedTo(runs: seq<Run>, end: Addr, n: nat)
    requires n <= |runs|
  {
    forall i :: 0 <= i < n ==>
      && end < PGSIZE * runs[i].first && PGSIZE * runs[i].first - KERNBASE < PHYSTOP
      && (i + 1 < |runs| ==> PGSIZE * runs[i].first < PGSIZE * runs[i + 1].first
                             && PGSIZE * runs[i].End() < PGSIZE * runs[i + 1].first)
  }

  lemma VerifiedNone(runs: seq<Run>, end: Addr)
    ensures VerifiedTo(runs, end, 0) && PageCount(runs[..0]) == 0
  {
  }

  lemma VerifiedStep(runs: seq<Run>, end: Addr, i: nat)
    requires i < |runs|
    ensures VerifiedTo(runs, end, i + 1) <==>
            && VerifiedTo(runs, end, i)
            && end < PGSIZE * runs[i].first && PGSIZE * runs[i].first - KERNBASE < PHYSTOP
            && (i + 1 < |runs| ==> PGSIZE * runs[i].first < PGSIZE * runs[i + 1].first
                                   && PGSIZE * runs[i].End() < PGSIZE * runs[i + 1].first)
  {
  }

  lemma VerifiedAll(runs: seq<Run>, length: nat, end: Addr)
    ensures Verified(runs, length, end) <==> VerifiedTo(runs, end, |runs|) && PageCount(runs) == length
  {
    hide PageCount;
  }
}
