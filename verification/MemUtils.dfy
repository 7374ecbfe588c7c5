/** Memory layout and address arithmetic on a 32-bit machine.

    Masks and shifts by powers of two are written as remainders and quotients. */
module MemUtils {
  import opened Wrappers

  const WORD: nat := 0x1_0000_0000            // one past the largest usize
  const PGSIZE: nat := 4096
  const EXTMEM: nat := 0x10_0000              // start of extended memory
  const KERNBASE: nat := 0x8000_0000
  const KERNLINK: nat := KERNBASE + EXTMEM    // where the kernel is linked
  const PHYSTOP: nat := 0xE00_0000            // top of physical memory
  const DEVSPACE: nat := 0xFE00_0000          // devices above this address

  type Addr = a: int | 0 <= a < 0x1_0000_0000

  predicate Aligned(a: nat) { a % PGSIZE == 0 }

  /** The page boundary at or below an address. */
  function PageRoundDown(a: Addr): (r: Addr)
    ensures Aligned(r) && r <= a < r + PGSIZE
  {
    a - a % PGSIZE
  }

  /** The page boundary at or above an address; the code adds a page first and must not overflow. */
  function PageRoundUp(a: Addr): (r: Addr)
    requires a + PGSIZE - 1 < WORD
    ensures Aligned(r) && a <= r < a + PGSIZE
  {
    PageRoundDown(a + PGSIZE - 1)
  }

  function WrappingSub(a: Addr, b: Addr): Addr {
    (a - b) % WORD
  }

  function ToPhys(a: Addr): Addr
    requires a >= KERNBASE
  {
    a - KERNBASE
  }

  function ToVirt(p: Addr): Addr
    requires p + KERNBASE < WORD
  {
    p + KERNBASE
  }

  /** The number of a page counted from the end of the kernel image. */
  function PageNo(a: Addr, end: Addr): nat
    requires a + PGSIZE - 1 < WORD && end + PGSIZE - 1 < WORD
  {
    WrappingSub(PageRoundUp(a), PageRoundUp(end)) / PGSIZE
  }

  /** The address of a page by its number. */
  function FromPageNo(k: nat, end: Addr): nat
    requires end + PGSIZE - 1 < WORD
  {
    PGSIZE * k + PageRoundUp(end)
  }

  /** Page numbers and page addresses are each other's inverse, and an address inside a page has the
      number of the next one. */
  lemma PageNoRoundTrip(k: nat, i: nat, end: Addr)
    requires end + PGSIZE - 1 < WORD && PageRoundUp(end) + 4096 * (k + 2) <= WORD && i < 4096
    ensures FromPageNo(k, end) + i < WORD && PageNo(FromPageNo(k, end) + i, end) == if i == 0 then k else k + 1
  {
    var q := PageRoundUp(end) / PGSIZE;
    assert PageRoundUp(end) == PGSIZE * q;
    RoundUpInside(q + k, i);
    SubNoWrap(PGSIZE * (q + k), PGSIZE * q);
    SubNoWrap(PGSIZE * (q + k + 1), PGSIZE * q);
    DivShift(0, k);
    DivShift(0, k + 1);
  }

  lemma RoundUpInside(q: nat, i: nat)
    requires PGSIZE * (q + 2) <= WORD && i < PGSIZE
    ensures PageRoundUp(PGSIZE * q + i) == PGSIZE * if i == 0 then q else q + 1
  {
  }

  function PageDirIndex(a: Addr): nat { a / 0x40_0000 % 1024 }
  function PageTableIndex(a: Addr): nat { a / PGSIZE % 1024 }

  /** The two page numbers of an aligned span differ by its length, which is how `free_range`
      and `dealloc` recover a span from its ends. */
  lemma PageNoSpan(a: Addr, n: nat, end: Addr)
    requires Aligned(a) && a + PGSIZE * n + PGSIZE <= WORD && end + PGSIZE - 1 < WORD
    requires PageRoundUp(end) <= a
    ensures PageNo(a + PGSIZE * n, end) - PageNo(a, end) == n
  {
    hide PageRoundUp, WrappingSub, Aligned;
    var e, d := PageRoundUp(end), PGSIZE * n;
    RoundUpAligned(a, n);
    SubNoWrap(a, e);
    SubNoWrap(a + d, e);
    DivShift(a - e, n);
  }

  /** Page boundaries are their own round-up. */
  lemma RoundUpAligned(a: Addr, n: nat)
    requires Aligned(a) && a + PGSIZE * n + PGSIZE <= WORD
    ensures PageRoundUp(a) == a && PageRoundUp(a + PGSIZE * n) == a + PGSIZE * n
  {
    var q := a / PGSIZE;
    assert a == PGSIZE * q;
    RoundUpMultiple(q);
    RoundUpMultiple(q + n);
  }

  lemma RoundUpMultiple(q: nat)
    requires PGSIZE * q + PGSIZE <= WORD
    ensures PageRoundUp(PGSIZE * q) == PGSIZE * q
  {
  }

  lemma SubNoWrap(a: Addr, b: Addr)
    requires b <= a
    ensures WrappingSub(a, b) == a - b
  {
  }

  lemma DivShift(x: nat, n: nat)
    ensures (x + PGSIZE * n) / PGSIZE == x / PGSIZE + n
  {
  }

  /** Directory index, table index and page offset determine an address. */
  lemma AddressParts(a: Addr)
    ensures a == 0x40_0000 * PageDirIndex(a) + PGSIZE * PageTableIndex(a) + a % PGSIZE
    ensures PageDirIndex(a) < 1024 && PageTableIndex(a) < 1024
  {
  }

  // On 32-bit words the masks and shifts of the code are these remainders, quotients and sums.

  lemma MaskIsRoundDown(x: bv32)
    ensures x & 0xFFFF_F000 == x - x % 0x1000
  {
    assert x % 0x1000 == x & 0xFFF;
  }

  lemma ShiftIsDirIndex(x: bv32)
    ensures (x >> 22) & 0x3FF == x / 0x40_0000
  {
    assert x / 0x40_0000 == x >> 22;
  }

  lemma ShiftIsTableIndex(x: bv32)
    ensures (x >> 12) & 0x3FF == (x / 0x1000) % 0x400
  {
    assert x / 0x1000 == x >> 12;
    LowBits(x >> 12);
  }

  lemma LowBits(y: bv32)
    ensures y % 0x400 == y & 0x3FF
  {
  }

  lemma OrIsSum(x: bv32, flags: bv32)
    requires x & 0xFFF == 0 && flags & 0xFFFF_F000 == 0
    ensures x | flags == x + flags
  {
  }
}
