/**
 * The compile-time configuration of the simulator: page sizes, virtual and
 * physical memory sizes, the two-level page-table split and the section base
 * addresses used by the trace generator. Every other component depends on
 * these numbers; the lemmas here are the facts about them that the rest of
 * the model relies on.
 */
module Config {

  /** The three selectable page sizes, in bytes. */
  const PAGE_SIZE_1: nat := 1024
  const PAGE_SIZE_2: nat := 4096
  const PAGE_SIZE_3: nat := 16384

  /** Virtual memory is 2^VIRT_MEM_BITS bytes, physical memory 2^PHYS_MEM_BITS. */
  const VIRT_MEM_BITS: nat := 32
  const VIRTUAL_MEMORY_SIZE: nat := 0x1_0000_0000
  const PHYS_MEM_BITS: nat := 30
  const PHYSICAL_MEMORY_SIZE: nat := 0x4000_0000

  /** Index widths of the two-level page table. */
  const LEVEL1_BITS: nat := 10
  const LEVEL2_BITS: nat := 10

  /** Section base addresses used by the trace generator. */
  const TEXT_BASE_ADDR: nat := 0x0040_0000
  const DATA_BASE_ADDR: nat := 0x1000_0000
  const HEAP_BASE_ADDR: nat := 0x2000_0000
  const STACK_BASE_ADDR: nat := 0x7FFF_0000
  const SHARED_LIB_BASE_ADDR: nat := 0x5000_0000

  const MAX_TASKS: nat := 256
  const TRACE_LINE_BUFFER: nat := 1024

  function Pow2(k: nat): (r: nat)
    ensures r >= 1
  {
    if k == 0 then 1 else 2 * Pow2(k - 1)
  }

  /**
   * The page-size check shared by Task and TestModule: a non-zero page size
   * that divides the physical memory size.
   */
  predicate ValidPageSize(pageSize: nat)
  {
    pageSize != 0 && PHYSICAL_MEMORY_SIZE % pageSize == 0
  }

  /** The number of page-table entries a flat table needs for the whole virtual space. */
  function VirtualPages(pageSize: nat): nat
    requires pageSize != 0
  {
    VIRTUAL_MEMORY_SIZE / pageSize
  }

  /** The number of second-level arrays (2^LEVEL1_BITS) and slots in each (2^LEVEL2_BITS). */
  const LEVEL1_SIZE: nat := 1024
  const LEVEL2_SIZE: nat := 1024

  // ---------------------------------------------------------------------
  // Lemmas about the constants
  // ---------------------------------------------------------------------

  lemma {:induction false} Pow2Add(a: nat, b: nat)
    ensures Pow2(a + b) == Pow2(a) * Pow2(b)
    decreases a
  {
    if a > 0 {
      Pow2Add(a - 1, b);
    }
  }

  lemma {:induction false} Pow2Monotonic(a: nat, b: nat)
    requires a < b
    ensures Pow2(a) < Pow2(b)
    decreases b
  {
    if a < b - 1 {
      Pow2Monotonic(a, b - 1);
    }
  }

  /** The sizes are the stated powers of two. */
  lemma SizesArePowersOfTwo()
    ensures VIRTUAL_MEMORY_SIZE == Pow2(VIRT_MEM_BITS)
    ensures PHYSICAL_MEMORY_SIZE == Pow2(PHYS_MEM_BITS)
    ensures LEVEL1_SIZE == Pow2(LEVEL1_BITS) && LEVEL2_SIZE == Pow2(LEVEL2_BITS)
    ensures PAGE_SIZE_1 == Pow2(10) && PAGE_SIZE_2 == Pow2(12) && PAGE_SIZE_3 == Pow2(14)
  {
    Pow2Of10();
    Pow2Of12();
    Pow2Of14();
    Pow2Of30();
    Pow2Of32();
  }

  lemma Pow2Of10() ensures Pow2(10) == 1024 {}
  lemma Pow2Of12() ensures Pow2(12) == 4096 { Pow2Of10(); Pow2Add(10, 2); }
  lemma Pow2Of14() ensures Pow2(14) == 16384 { Pow2Of10(); Pow2Add(10, 4); }
  lemma Pow2Of20() ensures Pow2(20) == 0x10_0000 { Pow2Of10(); Pow2Add(10, 10); }
  lemma Pow2Of30() ensures Pow2(30) == 0x4000_0000 { Pow2Of10(); Pow2Of20(); Pow2Add(20, 10); }
  lemma Pow2Of32() ensures Pow2(32) == 0x1_0000_0000 { Pow2Of30(); Pow2Add(30, 2); }

  /** Each configured page size passes the page-size check of Task and TestModule. */
  lemma ConfiguredPageSizesValid()
    ensures ValidPageSize(PAGE_SIZE_1) && ValidPageSize(PAGE_SIZE_2) && ValidPageSize(PAGE_SIZE_3)
  {
  }

  /**
   * Every divisor of a power of two is itself a power of two: the fact behind
   * the comment that a page size accepted by the check is a power of two.
   */
  lemma {:induction false} DivisorOfPow2(d: nat, q: nat, k: nat) returns (j: nat)
    requires d * q == Pow2(k)
    ensures j <= k && d == Pow2(j)
    decreases k
  {
    if k == 0 {
      UnitFactor(d, q);
      j := 0;
    } else if d % 2 == 0 {
      var e := d / 2;
      EvenFactor(d, q, Pow2(k - 1));
      var j' := DivisorOfPow2(e, q, k - 1);
      j := j' + 1;
    } else {
      // d is odd, so q carries every factor 2 of 2^k
      OddFactor(d, q, Pow2(k - 1));
      var j' := DivisorOfPow2(d, q / 2, k - 1);
      j := j';
    }
  }

  lemma UnitFactor(d: nat, q: nat)
    requires d * q == 1
    ensures d == 1
  {
  }

  lemma EvenFactor(d: nat, q: nat, m: nat)
    requires d % 2 == 0 && d * q == 2 * m
    ensures (d / 2) * q == m
  {
    var e := d / 2;
    assert d * q == (2 * e) * q == 2 * (e * q);
  }

  lemma OddFactor(d: nat, q: nat, m: nat)
    requires d % 2 == 1 && d * q == 2 * m
    ensures d * (q / 2) == m
  {
    var r, b := q / 2, q % 2;
    assert q == 2 * r + b;
    assert d * q == 2 * (d * r) + d * b;
    assert d * q == 2 * (d * r);
  }

  /** A page size accepted by the check is 2^j for some j <= PHYS_MEM_BITS. */
  lemma ValidPageSizeIsPowerOfTwo(pageSize: nat) returns (j: nat)
    requires ValidPageSize(pageSize)
    ensures j <= PHYS_MEM_BITS && pageSize == Pow2(j)
  {
    SizesArePowersOfTwo();
    var q := PHYSICAL_MEMORY_SIZE / pageSize;
    assert pageSize * q == PHYSICAL_MEMORY_SIZE;
    j := DivisorOfPow2(pageSize, q, PHYS_MEM_BITS);
  }

  /**
   * The two-level split covers the virtual-page-number space exactly: for an
   * accepted page size, the flat table has 2^(LEVEL1_BITS + LEVEL2_BITS)
   * entries if and only if the page size is the 4 KB PAGE_SIZE_2.
   */
  lemma TwoLevelSplitExact(pageSize: nat)
    requires ValidPageSize(pageSize)
    ensures VirtualPages(pageSize) == LEVEL1_SIZE * LEVEL2_SIZE <==> pageSize == PAGE_SIZE_2
  {
    var j := ValidPageSizeIsPowerOfTwo(pageSize);
    VirtualPagesOfPow2(j);
    Pow2Of12();
    Pow2Of20();
    if VirtualPages(pageSize) == LEVEL1_SIZE * LEVEL2_SIZE {
      Pow2Injective(32 - j, 20);
    } else if pageSize == PAGE_SIZE_2 {
      Pow2Injective(j, 12);
    }
  }

  /** A power of two page size 2^j leaves 2^(32 - j) virtual pages. */
  lemma VirtualPagesOfPow2(j: nat)
    requires j <= 32
    ensures VirtualPages(Pow2(j)) == Pow2(32 - j)
  {
    Pow2Add(32 - j, j);
    Pow2Of32();
    QuotientOfProduct(Pow2(32 - j), Pow2(j));
  }

  lemma QuotientOfProduct(a: nat, b: nat)
    requires b > 0
    ensures (a * b) / b == a
  {
    var q, r := (a * b) / b, (a * b) % b;
    assert a * b == q * b + r && r < b;
    if q < a {
      assert a * b == q * b + (a - q) * b;
      AtLeastOnce(a - q, b);
    } else if q > a {
      assert q * b == a * b + (q - a) * b;
      AtLeastOnce(q - a, b);
    }
  }

  lemma AtLeastOnce(c: nat, b: nat)
    requires c >= 1
    ensures c * b >= b
  {
    assert c * b == b + (c - 1) * b;
  }

  lemma Pow2Injective(a: nat, b: nat)
    requires Pow2(a) == Pow2(b)
    ensures a == b
  {
    if a < b {
      Pow2Monotonic(a, b);
    } else if b < a {
      Pow2Monotonic(b, a);
    }
  }

  /** The split does not fit the other two configured sizes: 2^22 and 2^18 virtual pages. */
  lemma TwoLevelSplitOtherSizes()
    ensures VirtualPages(PAGE_SIZE_1) == 4 * (LEVEL1_SIZE * LEVEL2_SIZE)
    ensures 4 * VirtualPages(PAGE_SIZE_3) == LEVEL1_SIZE * LEVEL2_SIZE
  {
  }

  /** The section bases, in the order of the generator's bases[] array. */
  function SectionBases(): (b: seq<nat>)
    ensures |b| == 5
  {
    [TEXT_BASE_ADDR, DATA_BASE_ADDR, HEAP_BASE_ADDR, STACK_BASE_ADDR, SHARED_LIB_BASE_ADDR]
  }

  /**
   * Every section base lies in the virtual address space and is a multiple of
   * 64 KB, hence of the minimum page size and of every configured page size.
   */
  lemma SectionBasesAligned()
    ensures forall i :: 0 <= i < 5 ==> SectionBases()[i] < VIRTUAL_MEMORY_SIZE
    ensures forall i :: 0 <= i < 5 ==> SectionBases()[i] % 65536 == 0
    ensures forall i :: 0 <= i < 5 ==>
              (SectionBases()[i] % PAGE_SIZE_1 == 0 && SectionBases()[i] % PAGE_SIZE_2 == 0
               && SectionBases()[i] % PAGE_SIZE_3 == 0)
  {
  }
}
