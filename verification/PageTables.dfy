/** Two-level page tables of 32-bit paging (section 4.3 of the Intel SDM, volume 3A), and the
    flat map from virtual pages to entries that they stand for. */
module PageTables {
  import opened Wrappers
  import opened MemUtils

  type Word = x: int | 0 <= x < 0x1_0000_0000

  const ENTRIES: nat := 1024
  const PAGES: nat := ENTRIES * ENTRIES

  // entry flags
  const PRESENT: Word := 1
  const WRITABLE: Word := 2
  const USER: Word := 4

  type Table = s: seq<Word> | |s| == ENTRIES witness EmptyTable()

  function EmptyTable(): (s: seq<Word>)
    ensures |s| == ENTRIES && forall i :: 0 <= i < ENTRIES ==> s[i] == 0
  {
    seq(ENTRIES, _ => 0)
  }

  predicate Present(e: Word) { e % 2 == 1 }
  predicate Writable(e: Word) { e / 2 % 2 == 1 }
  predicate UserMode(e: Word) { e / 4 % 2 == 1 }

  /** `Entry::address` */
  function AddressOf(e: Word): Word { e - e % PGSIZE }

  /** Flags combined with a frame address. */
  function MakeEntry(pa: Word, flags: Word): (e: Word)
    requires Aligned(pa) && flags < PGSIZE
    ensures AddressOf(e) == pa && e % PGSIZE == flags
  {
    pa + flags
  }

  /** A page directory and the page tables in memory, by virtual address. */
  datatype Maps = Maps(dir: Table, tables: map<nat, Table>)

  /** Where the walk finds the table of directory entry `i`. */
  function TableOf(m: Maps, i: nat): nat
    requires i < ENTRIES
  {
    AddressOf(m.dir[i]) + KERNBASE
  }

  ghost predicate Wf(m: Maps) {
    && (forall i :: 0 <= i < ENTRIES && Present(m.dir[i]) ==>
          TableOf(m, i) in m.tables && TableOf(m, i) < WORD && Writable(m.dir[i]) && UserMode(m.dir[i]))
    && (forall i, j :: 0 <= i < j < ENTRIES && Present(m.dir[i]) && Present(m.dir[j]) ==> TableOf(m, i) != TableOf(m, j))
  }

  /** The entry of virtual page `vpn`, as the hardware walk finds it. */
  ghost function Lookup(m: Maps, vpn: nat): Option<Word>
    requires Wf(m) && vpn < PAGES
  {
    var i := vpn / ENTRIES;
    if !Present(m.dir[i]) then None
    else
      var e := m.tables[TableOf(m, i)][vpn % ENTRIES];
      if Present(e) then Some(e) else None
  }

  datatype Access = Access(pa: nat, writable: bool, user: bool)

  /** Where the processor goes for virtual address `va`, whether it may write there, and whether
      user-mode code may: both levels have to allow it. */
  ghost function Translate(m: Maps, va: Addr): Option<Access>
    requires Wf(m)
  {
    match Lookup(m, va / PGSIZE)
    case None => None
    case Some(e) =>
      var pde := m.dir[PageDirIndex(va)];
      Some(Access(AddressOf(e) + va % PGSIZE, Writable(pde) && Writable(e), UserMode(pde) && UserMode(e)))
  }

  /** The walk's two indices are those of the page number. */
  lemma WalkIndices(va: Addr)
    ensures va / PGSIZE < PAGES
    ensures PageDirIndex(va) == va / PGSIZE / ENTRIES && PageTableIndex(va) == va / PGSIZE % ENTRIES
  {
  }

  /** The entry that the code reads through its two indices is the one the walk finds. */
  lemma PteOf(m: Maps, va: Addr)
    requires Wf(m) && Present(m.dir[PageDirIndex(va)])
    ensures va / PGSIZE < PAGES && PageDirIndex(va) == va / PGSIZE / ENTRIES && PageTableIndex(va) == va / PGSIZE % ENTRIES
    ensures TableOf(m, PageDirIndex(va)) in m.tables
    ensures var e := m.tables[TableOf(m, PageDirIndex(va))][PageTableIndex(va)];
            Lookup(m, va / PGSIZE) == if Present(e) then Some(e) else None
  {
    WalkIndices(va);
  }

  lemma AbsentPage(m: Maps, va: Addr)
    requires Wf(m)
    ensures va / PGSIZE < PAGES && (!Present(m.dir[PageDirIndex(va)]) ==> Lookup(m, va / PGSIZE).None?)
  {
    WalkIndices(va);
  }

  lemma EntryIsPresent(pa: Word, perm: Word)
    requires Aligned(pa) && perm < 8 && perm % 2 == 0
    ensures var e := MakeEntry(pa, perm + PRESENT);
            Present(e) && (Writable(e) <==> perm / 2 % 2 == 1) && (UserMode(e) <==> perm >= 4)
  {
    assert pa == PGSIZE * (pa / PGSIZE);
    FlagBits(pa / PGSIZE, perm / 2);
  }

  /** The flag bits of an entry, `h` being the two above PRESENT. */
  lemma FlagBits(q: nat, h: nat)
    requires h < 4
    ensures var e := PGSIZE * q + 2 * h + 1; e % 2 == 1 && e / 2 % 2 == h % 2 && e / 4 % 2 == h / 2
  {
    var top, low := h / 2, h % 2;
    Halve(2048 * q + h, 1);
    Halve(1024 * q + top, low);
    Quarter(1024 * q + top, 2 * low + 1);
    Halve(512 * q, top);
  }

  lemma Halve(y: nat, b: nat)
    requires b < 2
    ensures (2 * y + b) / 2 == y && (2 * y + b) % 2 == b
  {
  }

  lemma Quarter(y: nat, b: nat)
    requires b < 4
    ensures (4 * y + b) / 4 == y
  {
  }

  // ----- the two changes walkpgdir and map_pages make -----

  ghost function WithTable(m: Maps, i: nat, t: Addr): Maps
    requires i < ENTRIES && Aligned(t) && t >= KERNBASE
  {
    Maps(m.dir[i := MakeEntry(ToPhys(t), PRESENT + WRITABLE + USER)], m.tables[t := EmptyTable()])
  }

  /** A fresh table: the directory entry holds its address and all three flags, decodes back to it,
      and no page becomes mapped. */
  lemma AddTable(m: Maps, i: nat, t: Addr)
    requires Wf(m) && i < ENTRIES && !Present(m.dir[i])
    requires Aligned(t) && t >= KERNBASE && t !in m.tables
    ensures var m' := WithTable(m, i, t);
            && Wf(m') && Present(m'.dir[i]) && TableOf(m', i) == t && m'.dir[i] == t - 0x8000_0000 + 7
            && forall vpn :: 0 <= vpn < PAGES ==> Lookup(m', vpn) == Lookup(m, vpn)
  {
    hide Lookup;
    AddTableWf(m, i, t);
    TableEntry(t);
    var m' := WithTable(m, i, t);
    forall vpn | 0 <= vpn < PAGES ensures Lookup(m', vpn) == Lookup(m, vpn) {
      AddTableLookup(m, i, t, vpn);
    }
  }

  lemma TableEntry(t: Addr)
    requires Aligned(t) && t >= KERNBASE
    ensures var e := MakeEntry(ToPhys(t), PRESENT + WRITABLE + USER);
            Present(e) && Writable(e) && UserMode(e) && AddressOf(e) + KERNBASE == t && e == t - 0x8000_0000 + 7
  {
    EntryIsPresent(ToPhys(t), WRITABLE + USER);
  }

  lemma AddTableWf(m: Maps, i: nat, t: Addr)
    requires Wf(m) && i < ENTRIES && !Present(m.dir[i]) && Aligned(t) && t >= KERNBASE && t !in m.tables
    ensures var m' := WithTable(m, i, t);
            Wf(m') && Present(m'.dir[i]) && TableOf(m', i) == t
  {
    hide MakeEntry, AddressOf, Present, Writable, UserMode;
    TableEntry(t);
  }

  lemma AddTableLookup(m: Maps, i: nat, t: Addr, vpn: nat)
    requires Wf(m) && i < ENTRIES && !Present(m.dir[i]) && Aligned(t) && t >= KERNBASE && t !in m.tables && vpn < PAGES
    requires var m' := WithTable(m, i, t);
             Wf(m') && Present(m'.dir[i]) && TableOf(m', i) == t
    ensures Lookup(WithTable(m, i, t), vpn) == Lookup(m, vpn)
  {
    hide MakeEntry, AddressOf;
    assert !Present(0);
  }

  ghost function WithPte(m: Maps, vpn: nat, e: Word): Maps
    requires Wf(m) && vpn < PAGES && Present(m.dir[vpn / ENTRIES])
  {
    var t := TableOf(m, vpn / ENTRIES);
    m.(tables := m.tables[t := m.tables[t][vpn % ENTRIES := e]])
  }

  /** Setting a present entry maps that page and leaves every other translation alone. */
  lemma SetPte(m: Maps, vpn: nat, e: Word)
    requires Wf(m) && vpn < PAGES && Present(m.dir[vpn / ENTRIES]) && Present(e)
    ensures var m' := WithPte(m, vpn, e);
            Wf(m') && forall x :: 0 <= x < PAGES ==> Lookup(m', x) == if x == vpn then Some(e) else Lookup(m, x)
  {
    var m' := WithPte(m, vpn, e);
    forall x | 0 <= x < PAGES ensures Lookup(m', x) == if x == vpn then Some(e) else Lookup(m, x) {
      if x / ENTRIES != vpn / ENTRIES && Present(m.dir[x / ENTRIES]) {
        assert TableOf(m, x / ENTRIES) != TableOf(m, vpn / ENTRIES);
      }
    }
  }

  // ----- counting tables -----

  /** Directory entries in `lo .. hi` with no table yet. */
  function Absent(dir: Table, lo: nat, hi: nat): (n: nat)
    requires lo <= hi <= ENTRIES
    ensures n <= hi - lo
    decreases hi - lo
  {
    if lo == hi then 0 else (if Present(dir[lo]) then 0 else 1) + Absent(dir, lo + 1, hi)
  }

  lemma {:induction false} AbsentSnoc(dir: Table, lo: nat, hi: nat)
    requires lo <= hi < ENTRIES
    ensures Absent(dir, lo, hi + 1) == Absent(dir, lo, hi) + if Present(dir[hi]) then 0 else 1
    decreases hi - lo
  {
    if lo < hi { AbsentSnoc(dir, lo + 1, hi); }
  }

  lemma {:induction false} AbsentGrows(dir: Table, lo: nat, mid: nat, hi: nat)
    requires lo <= mid <= hi <= ENTRIES
    ensures Absent(dir, lo, mid) <= Absent(dir, lo, hi)
    decreases hi - mid
  {
    if mid < hi {
      AbsentSnoc(dir, lo, mid);
      AbsentGrows(dir, lo, mid + 1, hi);
    }
  }

  // ----- mapping a range -----

  /** Exactly pages `v0 .. v0 + n` have been added, to consecutive frames from `pa` on. */
  ghost predicate RangeMapped(m: Maps, m': Maps, v0: nat, n: nat, pa: nat, perm: Word)
    requires Wf(m) && Wf(m') && Aligned(pa) && pa + PGSIZE * n <= WORD && perm < 8
  {
    forall x :: 0 <= x < PAGES ==>
      Lookup(m', x) == if v0 <= x < v0 + n then Some(MakeEntry(pa + PGSIZE * (x - v0), perm + PRESENT)) else Lookup(m, x)
  }

  ghost predicate Unmapped(m: Maps, v0: nat, n: nat)
    requires Wf(m)
  {
    forall x :: v0 <= x < v0 + n && x < PAGES ==> Lookup(m, x).None?
  }

  lemma RangeMappedStep(m: Maps, m1: Maps, m2: Maps, v0: nat, j: nat, pa: nat, perm: Word)
    requires Wf(m) && Wf(m1) && Wf(m2) && Aligned(pa) && pa + PGSIZE * (j + 1) <= WORD && perm < 8
    requires RangeMapped(m, m1, v0, j, pa, perm)
    requires forall x :: 0 <= x < PAGES ==>
               Lookup(m2, x) == if x == v0 + j then Some(MakeEntry(pa + PGSIZE * j, perm + PRESENT)) else Lookup(m1, x)
    ensures RangeMapped(m, m2, v0, j + 1, pa, perm)
  {
    hide Lookup, Wf, MakeEntry;
  }

  /** The directory entries that `n` pages from `v0` on go through. */
  function DirLo(v0: nat): nat { v0 / ENTRIES }
  function DirHi(v0: nat, n: nat): nat
    requires n > 0
  {
    (v0 + n - 1) / ENTRIES + 1
  }

  /** One past the last of them, also for no pages at all. */
  function DirTop(v0: nat, n: nat): nat { if n == 0 then DirLo(v0) else DirHi(v0, n) }

  lemma DirTopStep(v0: nat, j: nat)
    requires v0 + j < PAGES
    ensures var t, i := DirTop(v0, j), DirLo(v0 + j);
            && DirLo(v0) <= t <= ENTRIES && i < ENTRIES && DirTop(v0, j + 1) == i + 1
            && (i == t || i + 1 == t) && (i + 1 == t ==> DirLo(v0) <= i)
  {
  }

  lemma DirTopGrows(v0: nat, j: nat, n: nat)
    requires j <= n && v0 + n <= PAGES
    ensures DirLo(v0) <= DirTop(v0, j) <= DirTop(v0, n) <= ENTRIES
  {
  }

  /** The first `j` pages of a range have been mapped and nothing else has changed; each directory
      entry they go through has a table, a fresh one if it had none. */
  ghost predicate Progress(m: Maps, m': Maps, v0: nat, j: nat, pa: nat, perm: Word)
    requires Wf(m) && Wf(m') && Aligned(pa) && pa + PGSIZE * j <= WORD && perm < 8
  {
    var lo, top := DirLo(v0), DirTop(v0, j);
    && lo <= top <= ENTRIES
    && RangeMapped(m, m', v0, j, pa, perm) && Unmapped(m, v0, j)
    && |m'.tables| == |m.tables| + Absent(m.dir, lo, top)
    && forall i :: 0 <= i < ENTRIES ==> (Present(m'.dir[i]) <==> Present(m.dir[i]) || lo <= i < top)
  }

  /** What the processor does with an address in a range just mapped: it goes to the frame asked for,
      may write if and only if the permission has bit 1, and from user mode if and only if it has bit 2. */
  lemma MappedAccess(m: Maps, m': Maps, v0: nat, n: nat, pa: nat, perm: Word, va: Addr)
    requires Wf(m) && Wf(m') && Aligned(pa) && pa + PGSIZE * n <= WORD && perm < 8 && perm % 2 == 0 && v0 + n <= PAGES
    requires RangeMapped(m, m', v0, n, pa, perm) && v0 <= va / 4096 < v0 + n
    ensures Translate(m', va) == Some(Access(pa + va - 4096 * v0, perm / 2 % 2 == 1, perm / 4 == 1))
  {
    hide MakeEntry, Present;
    var x := va / PGSIZE;
    var e := MakeEntry(pa + PGSIZE * (x - v0), perm + PRESENT);
    WalkIndices(va);
    FrameAligned(pa, x - v0);
    EntryIsPresent(pa + PGSIZE * (x - v0), perm);
    assert Lookup(m', x) == Some(e);
  }

  lemma FrameAligned(pa: nat, k: nat)
    requires Aligned(pa)
    ensures Aligned(pa + PGSIZE * k)
  {
  }

  lemma NoProgress(m: Maps, v0: nat, pa: nat, perm: Word)
    requires Wf(m) && Aligned(pa) && pa < WORD && perm < 8 && v0 < PAGES
    ensures Progress(m, m, v0, 0, pa, perm) && Absent(m.dir, DirLo(v0), DirTop(v0, 0)) == 0
  {
  }

  /** `m2` is `m1` with page `x` mapped, through a new table if its directory entry had none. */
  ghost predicate PageAdded(m1: Maps, m2: Maps, x: nat, pa: nat, perm: Word)
    requires Wf(m1) && Wf(m2) && x < PAGES && Aligned(pa) && pa < WORD && perm < 8
  {
    && Lookup(m1, x).None?
    && (forall y :: 0 <= y < PAGES ==> Lookup(m2, y) == if y == x then Some(MakeEntry(pa, perm + PRESENT)) else Lookup(m1, y))
    && |m2.tables| == |m1.tables| + (if Present(m1.dir[DirLo(x)]) then 0 else 1)
    && forall i :: 0 <= i < ENTRIES ==> (Present(m2.dir[i]) <==> Present(m1.dir[i]) || i == DirLo(x))
  }

  /** One more page: its table is new exactly if the range had none at that entry from the start. */
  lemma ProgressStep(m: Maps, m1: Maps, m2: Maps, v0: nat, j: nat, pa: nat, perm: Word)
    requires Wf(m) && Wf(m1) && Wf(m2) && Aligned(pa) && pa + PGSIZE * (j + 1) <= WORD && perm < 8 && v0 + j < PAGES
    requires Aligned(pa + PGSIZE * j)
    requires Progress(m, m1, v0, j, pa, perm) && PageAdded(m1, m2, v0 + j, pa + PGSIZE * j, perm)
    ensures Progress(m, m2, v0, j + 1, pa, perm)
    ensures Absent(m.dir, DirLo(v0), DirTop(v0, j + 1)) ==
            Absent(m.dir, DirLo(v0), DirTop(v0, j)) + if Present(m1.dir[DirLo(v0 + j)]) then 0 else 1
  {
    hide Lookup, Wf, MakeEntry, Present, DirLo, DirTop, RangeMapped, Absent, Aligned;
    DirTopStep(v0, j);
    RangeMappedStep(m, m1, m2, v0, j, pa, perm);
    assert Lookup(m1, v0 + j) == Lookup(m, v0 + j) by {
      Untouched(m, m1, v0, j, v0 + j, pa, perm);
    }
    var i := DirLo(v0 + j);
    if i == DirTop(v0, j) {
      AbsentSnoc(m.dir, DirLo(v0), i);
    }
  }

  lemma Untouched(m: Maps, m1: Maps, v0: nat, j: nat, x: nat, pa: nat, perm: Word)
    requires Wf(m) && Wf(m1) && Aligned(pa) && pa + PGSIZE * j <= WORD && perm < 8 && v0 + j <= x < PAGES
    requires RangeMapped(m, m1, v0, j, pa, perm)
    ensures Lookup(m1, x) == Lookup(m, x)
  {
    hide Lookup, Wf, MakeEntry;
  }

  /** A page that cannot be mapped for want of a table shows that the whole range lacks one more. */
  lemma TableMissing(m: Maps, m1: Maps, v0: nat, j: nat, n: nat, pa: nat, perm: Word)
    requires Wf(m) && Wf(m1) && Aligned(pa) && pa + PGSIZE * j <= WORD && perm < 8 && j < n && v0 + n <= PAGES
    requires Progress(m, m1, v0, j, pa, perm) && DirLo(v0 + j) < ENTRIES && !Present(m1.dir[DirLo(v0 + j)])
    ensures DirLo(v0) <= DirTop(v0, j) <= DirTop(v0, n) <= ENTRIES && !Present(m.dir[DirLo(v0 + j)])
    ensures Absent(m.dir, DirLo(v0), DirTop(v0, j)) < Absent(m.dir, DirLo(v0), DirTop(v0, n))
  {
    hide Lookup, Wf, Present, DirLo, DirTop, RangeMapped, Unmapped, Absent;
    DirTopStep(v0, j);
    DirTopGrows(v0, j + 1, n);
    AbsentSnoc(m.dir, DirLo(v0), DirTop(v0, j));
    AbsentGrows(m.dir, DirLo(v0), DirTop(v0, j + 1), DirTop(v0, n));
  }

  /** Present below `t`, absent from `t` on. */
  lemma {:induction false} AbsentAbove(dir: Table, lo: nat, t: nat, hi: nat)
    requires lo <= t <= hi <= ENTRIES
    requires forall i :: lo <= i < hi ==> (Present(dir[i]) <==> i < t)
    ensures Absent(dir, lo, hi) == hi - t
    decreases hi - lo
  {
    if lo < hi { AbsentAbove(dir, lo + 1, if t == lo then lo + 1 else t, hi); }
  }
}
