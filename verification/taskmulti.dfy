/**
 * The multi-level task of the legacy readers: a page directory mapping a
 * directory index to a page table (table index to physical page), a private
 * TLB in front of it, 32-bit hit and miss counters, and pages taken from the
 * legacy allocator.
 *
 * Addresses are 32-bit. On unsigned values a right shift by k is a division
 * by 2^k, a mask with 2^k - 1 is a remainder modulo 2^k, and the | of the
 * shifted directory index with the table index joins disjoint bit fields,
 * i.e. adds them; the index functions below are written that way.
 */
module MultiLevel {
  import opened Common
  import opened Tlb
  import opened LegacyAllocator
  import Translation

  /** Bits 31-22 of an address: (addr >> 22) & 0x3FF. */
  function DirectoryIndex(logicalAddress: nat): (d: nat)
    ensures d < 0x400
  {
    (logicalAddress / 0x40_0000) % 0x400
  }

  /** Bits 21-12 of an address: (addr >> 12) & 0x3FF. */
  function TableIndex(logicalAddress: nat): (t: nat)
    ensures t < 0x400
  {
    (logicalAddress / 0x1000) % 0x400
  }

  /** (directory << 10) | table. */
  function JoinIndices(directory: nat, table: nat): nat
  {
    directory * 0x400 + table
  }

  /** The virtual page number accessMemory computes from an address. */
  function VirtualPageOf(logicalAddress: nat): nat
  {
    JoinIndices(DirectoryIndex(logicalAddress), TableIndex(logicalAddress))
  }

  /** Dividing by a then by b is dividing by a * b. */
  lemma DivDiv(x: nat, a: nat, b: nat)
    requires a > 0 && b > 0
    ensures x / (a * b) == x / a / b
  {
    var q, r1 := x / a, x % a;
    var q2, r2 := q / b, q % b;
    assert x == q * a + r1;
    assert q == q2 * b + r2;
    assert q * a == (q2 * b) * a + r2 * a;
    assert (q2 * b) * a == q2 * (a * b);
    MulMonotonic(r2, b - 1, a);
    assert (b - 1) * a == a * b - a;
    DivisionBetween(x, a * b, q2);
  }

  /**
   * For every 32-bit address the virtual page is the address shifted right by
   * 12, and the two indices are its high and low ten bits.
   */
  lemma VirtualPageIsShift(logicalAddress: nat)
    requires logicalAddress < TWO_32
    ensures VirtualPageOf(logicalAddress) == logicalAddress / 0x1000
    ensures VirtualPageOf(logicalAddress) < 0x10_0000
    ensures DirectoryIndex(logicalAddress) == VirtualPageOf(logicalAddress) / 0x400
    ensures TableIndex(logicalAddress) == VirtualPageOf(logicalAddress) % 0x400
  {
    var q := logicalAddress / 0x1000;
    DivDiv(logicalAddress, 0x1000, 0x400);
    DivisionBetween(logicalAddress, 0x1000, q);
    DivisionBetween(q / 0x400, 0x400, 0);
    assert q == (q / 0x400) * 0x400 + q % 0x400;
  }

  /** A VPN below 2^20 splits back into the indices it was joined from. */
  lemma JoinSplits(directory: nat, table: nat)
    requires directory < 0x400 && table < 0x400
    ensures JoinIndices(directory, table) < 0x10_0000
    ensures JoinIndices(directory, table) / 0x400 == directory
    ensures JoinIndices(directory, table) % 0x400 == table
  {
    DivisionBetween(JoinIndices(directory, table), 0x400, directory);
    MulMonotonic(directory, 0x3FF, 0x400);
  }

  /** The page directory read as one map from virtual page to physical page. */
  ghost function Flatten(directory: map<nat, map<nat, nat>>): map<nat, nat>
  {
    map v: nat | v < 0x10_0000 && v / 0x400 in directory && v % 0x400 in directory[v / 0x400]
      :: directory[v / 0x400][v % 0x400]
  }

  /** Every translation the TLB holds is the one the page table holds. */
  ghost predicate Agrees(tlbMap: map<nat, TLBEntry>, flat: map<nat, nat>)
  {
    forall v :: v in tlbMap ==> v in flat && flat[v] == tlbMap[v].physicalPage
  }

  /** A TLB that only gained the translation of vpn, taken from the table, still agrees with it. */
  lemma AgreesAfterAdd(before: map<nat, TLBEntry>, after: map<nat, TLBEntry>, flat: map<nat, nat>, vpn: nat)
    requires Agrees(before, flat)
    requires forall v :: v in after && v != vpn ==> v in before && after[v] == before[v]
    requires vpn in after ==> vpn in flat && flat[vpn] == after[vpn].physicalPage
    ensures Agrees(after, flat)
  {
  }

  /** The translation of (d, t) is the page-table entry t of directory slot d. */
  lemma FlattenLookup(directory: map<nat, map<nat, nat>>, d: nat, t: nat)
    requires d < 0x400 && t < 0x400
    ensures JoinIndices(d, t) in Flatten(directory) <==> d in directory && t in directory[d]
    ensures JoinIndices(d, t) in Flatten(directory) ==> Flatten(directory)[JoinIndices(d, t)] == directory[d][t]
  {
    JoinSplits(d, t);
  }

  /** Adding an empty page table adds no translation. */
  lemma FlattenCreate(directory: map<nat, map<nat, nat>>, d: nat)
    requires d !in directory
    ensures Flatten(directory[d := map[]]) == Flatten(directory)
  {
  }

  /** Storing a page-table entry adds (or replaces) exactly the translation of its VPN. */
  lemma FlattenStore(directory: map<nat, map<nat, nat>>, d: nat, t: nat, page: nat)
    requires d in directory && d < 0x400 && t < 0x400
    ensures var table: map<nat, nat> := directory[d][t := page];
            Flatten(directory[d := table]) == Flatten(directory)[JoinIndices(d, t) := page]
  {
    JoinSplits(d, t);
    var table: map<nat, nat> := directory[d][t := page];
    var after := Flatten(directory[d := table]);
    var expected := Flatten(directory)[JoinIndices(d, t) := page];
    forall v | v in after
      ensures v in expected && after[v] == expected[v]
    {
      if v != JoinIndices(d, t) && v / 0x400 == d {
        assert v % 0x400 != t;
      }
    }
    forall v | v in expected
      ensures v in after
    {
    }
  }

  /** Erasing a page-table entry removes exactly the translation of its VPN. */
  lemma FlattenErase(directory: map<nat, map<nat, nat>>, d: nat, t: nat)
    requires d in directory && d < 0x400 && t < 0x400
    ensures Flatten(directory[d := directory[d] - {t}]) == Flatten(directory) - {JoinIndices(d, t)}
  {
    JoinSplits(d, t);
    var after := Flatten(directory[d := directory[d] - {t}]);
    var expected := Flatten(directory) - {JoinIndices(d, t)};
    forall v | v in expected
      ensures v in after
    {
      if v / 0x400 == d {
        assert v % 0x400 != t;
      }
    }
  }

  /** Dropping an empty page table drops no translation. */
  lemma FlattenPrune(directory: map<nat, map<nat, nat>>, d: nat)
    requires d in directory && directory[d] == map[]
    ensures Flatten(directory - {d}) == Flatten(directory)
  {
  }

  /** How an access ended: which level answered, or the allocator gave out. */
  datatype AccessOutcome = TlbHit | TableHit | TableMiss(page: nat) | AllocatorExhausted

  /** The allocatePage result behind a page miss: the page stored, or the allocator's failure. */
  function Allocation(outcome: AccessOutcome): (r: AllocResult)
    requires outcome.TableMiss? || outcome.AllocatorExhausted?
    ensures r.Allocated? <==> outcome.TableMiss?
    ensures r.Allocated? ==> r.page == outcome.page
  {
    if outcome.TableMiss? then Allocated(outcome.page) else OutOfPhysicalMemory
  }

  /**
   * What an access with the given outcome does to the translations and the
   * counters: both kinds of hit find the page mapped and count a page hit;
   * a miss finds it unmapped and counts a page miss, and maps it to the
   * allocated page unless the allocator gave out.
   */
  ghost predicate AccessEffect(vpn: nat, outcome: AccessOutcome,
                               before: map<nat, nat>, hits: nat, misses: nat,
                               after: map<nat, nat>, hits': nat, misses': nat)
  {
    match outcome
    case TlbHit | TableHit =>
      vpn in before && after == before && hits' == Wrap32(hits + 1) && misses' == misses
    case TableMiss(page) =>
      vpn !in before && after == before[vpn := page] && hits' == hits && misses' == Wrap32(misses + 1)
    case AllocatorExhausted =>
      vpn !in before && after == before && hits' == hits && misses' == Wrap32(misses + 1)
  }

  /** Every access adds exactly one to page hits + page misses, modulo 2^32. */
  lemma AccessCountsOnce(vpn: nat, outcome: AccessOutcome, before: map<nat, nat>, hits: nat, misses: nat,
                         after: map<nat, nat>, hits': nat, misses': nat)
    requires hits < TWO_32 && misses < TWO_32
    requires AccessEffect(vpn, outcome, before, hits, misses, after, hits', misses')
    ensures (hits' + misses') % TWO_32 == (hits + misses + 1) % TWO_32
  {
    if outcome.TlbHit? || outcome.TableHit? {
      CountOneMore(hits, misses, hits + misses);
    } else {
      CountOneMore(misses, hits, hits + misses);
    }
  }

  /** The page table maps vpn and the TLB holds the same translation. */
  ghost predicate TlbHolds(tlbMap: map<nat, TLBEntry>, flat: map<nat, nat>, vpn: nat)
  {
    vpn in flat && vpn in tlbMap && tlbMap[vpn].physicalPage == flat[vpn]
  }

  class TaskMulti {
    const taskId: string
    /** PHYSICAL_MEMORY_SIZE / (minPageSizeKb * 1024), kept but never used by the accesses. */
    const totalPages: nat
    /** 32-bit counters. */
    var pageHits: nat
    var pageMisses: nat
    /** Directory index to page table; page table: table index to physical page. */
    var pageDirectory: map<nat, map<nat, nat>>
    /** The task's own TLB. */
    const tlb: TLB
    /** The addresses accessMemory has been called with, in call order: a history kept by the model only. */
    ghost var accessed: seq<nat>

    ghost predicate Valid()
      reads this`pageHits, this`pageMisses, this`pageDirectory, tlb
    {
      && tlb.Valid()
      && pageHits < TWO_32 && pageMisses < TWO_32
      && Agrees(tlb.tlbMap, Flatten(pageDirectory))
    }

    /** The translations of the page directory, by virtual page number. */
    ghost function Mappings(): map<nat, nat>
      reads this`pageDirectory
    {
      Flatten(pageDirectory)
    }

    constructor (id: string, minPageSizeKb: nat)
      requires minPageSizeKb > 0
      ensures Valid() && fresh(tlb)
      ensures taskId == id && totalPages == TotalPagesFor(minPageSizeKb * 1024)
      ensures pageHits == 0 && pageMisses == 0 && pageDirectory == map[]
      ensures tlb.tlbMap == map[] && tlb.hits == 0 && tlb.misses == 0
      ensures accessed == []
    {
      taskId := id;
      accessed := [];
      totalPages := TotalPagesFor(minPageSizeKb * 1024);
      pageHits := 0;
      pageMisses := 0;
      pageDirectory := map[];
      tlb := new TLB();
    }

    /**
     * Translates one 32-bit address. A TLB hit counts a page hit and touches
     * nothing else; otherwise a page-table hit counts a page hit, and a miss
     * counts a page miss and stores the page the allocator hands out. Unless
     * the allocator gives out, the TLB then learns the translation, so the
     * address's VPN is mapped, in the table and in the TLB, to the same page.
     */
    method AccessMemory(logicalAddress: nat, mm: LegacyMemoryManager) returns (outcome: AccessOutcome)
      requires Valid() && mm.Valid() && logicalAddress < TWO_32
      modifies this, tlb, mm
      ensures Valid() && mm.Valid() && mm.totalPages == old(mm.totalPages)
      ensures outcome.TlbHit? <==> VirtualPageOf(logicalAddress) in old(tlb.tlbMap)
      ensures AccessEffect(VirtualPageOf(logicalAddress), outcome, old(Mappings()), old(pageHits), old(pageMisses),
                           Mappings(), pageHits, pageMisses)
      ensures !outcome.AllocatorExhausted? ==> TlbHolds(tlb.tlbMap, Mappings(), VirtualPageOf(logicalAddress))
      ensures outcome.TlbHit? || outcome.TableHit? ==> unchanged(mm)
      ensures outcome.TableMiss? || outcome.AllocatorExhausted? ==>
                  Handout(old(mm.freePages), old(mm.allocatedPages), old(mm.allocationOrder), Allocation(outcome),
                          mm.freePages, mm.allocatedPages, mm.allocationOrder)
      ensures outcome.TableMiss? ==> outcome.page in mm.allocatedPages && outcome.page < mm.totalPages
      ensures accessed == old(accessed) + [logicalAddress]
      ensures tlb.lookups == old(tlb.lookups) + 1
      ensures var vpn := VirtualPageOf(logicalAddress);
              outcome.TlbHit? ==>
                && tlb.lruList == [old(tlb.tlbMap)[vpn]] + Without(old(tlb.lruList), vpn)
                && tlb.tlbMap == old(tlb.tlbMap)
                && tlb.hits == Wrap32(old(tlb.hits) + 1) && tlb.misses == old(tlb.misses)
      ensures !outcome.TlbHit? ==> tlb.hits == old(tlb.hits) && tlb.misses == Wrap32(old(tlb.misses) + 1)
      ensures outcome.AllocatorExhausted? ==> tlb.lruList == old(tlb.lruList) && tlb.tlbMap == old(tlb.tlbMap)
      ensures var vpn := VirtualPageOf(logicalAddress);
              outcome.TableHit? || outcome.TableMiss? ==>
                && tlb.lruList == AddedList(old(tlb.lruList), vpn, Mappings()[vpn])
                && tlb.tlbMap == AddedIndex(old(tlb.lruList), old(tlb.tlbMap), vpn, Mappings()[vpn])
    {
      outcome := Translate(DirectoryIndex(logicalAddress), TableIndex(logicalAddress), mm);
      accessed := accessed + [logicalAddress];
    }

    /** AccessMemory on the VPN with directory index d and table index t, leaving the address history aside. */
    method Translate(d: nat, t: nat, mm: LegacyMemoryManager) returns (outcome: AccessOutcome)
      requires Valid() && mm.Valid() && d < 0x400 && t < 0x400
      modifies this`pageDirectory, this`pageHits, this`pageMisses, tlb, mm
      ensures Valid() && mm.Valid() && mm.totalPages == old(mm.totalPages)
      ensures outcome.TlbHit? <==> JoinIndices(d, t) in old(tlb.tlbMap)
      ensures AccessEffect(JoinIndices(d, t), outcome, old(Mappings()), old(pageHits), old(pageMisses),
                           Mappings(), pageHits, pageMisses)
      ensures !outcome.AllocatorExhausted? ==> TlbHolds(tlb.tlbMap, Mappings(), JoinIndices(d, t))
      ensures outcome.TlbHit? || outcome.TableHit? ==> unchanged(mm)
      ensures outcome.TableMiss? || outcome.AllocatorExhausted? ==>
                  Handout(old(mm.freePages), old(mm.allocatedPages), old(mm.allocationOrder), Allocation(outcome),
                          mm.freePages, mm.allocatedPages, mm.allocationOrder)
      ensures outcome.TableMiss? ==> outcome.page in mm.allocatedPages && outcome.page < mm.totalPages
      ensures tlb.lookups == old(tlb.lookups) + 1
      ensures var vpn := JoinIndices(d, t);
              outcome.TlbHit? ==>
                && tlb.lruList == [old(tlb.tlbMap)[vpn]] + Without(old(tlb.lruList), vpn)
                && tlb.tlbMap == old(tlb.tlbMap)
                && tlb.hits == Wrap32(old(tlb.hits) + 1) && tlb.misses == old(tlb.misses)
      ensures !outcome.TlbHit? ==> tlb.hits == old(tlb.hits) && tlb.misses == Wrap32(old(tlb.misses) + 1)
      ensures outcome.AllocatorExhausted? ==> tlb.lruList == old(tlb.lruList) && tlb.tlbMap == old(tlb.tlbMap)
      ensures var vpn := JoinIndices(d, t);
              outcome.TableHit? || outcome.TableMiss? ==>
                && tlb.lruList == AddedList(old(tlb.lruList), vpn, Mappings()[vpn])
                && tlb.tlbMap == AddedIndex(old(tlb.lruList), old(tlb.tlbMap), vpn, Mappings()[vpn])
    {
      var vpn := JoinIndices(d, t);
      var found, physicalPage := tlb.Lookup(vpn);
      if found {
        pageHits := Wrap32(pageHits + 1);
        return TlbHit;
      }
      outcome := ResolveMiss(d, t, mm);
    }

    /**
     * A TLB miss: the page table answers (or the allocator fills it) and,
     * unless the allocator gave out, the TLB learns the translation.
     */
    method ResolveMiss(d: nat, t: nat, mm: LegacyMemoryManager) returns (outcome: AccessOutcome)
      requires Valid() && mm.Valid() && d < 0x400 && t < 0x400
      requires JoinIndices(d, t) !in tlb.tlbMap
      modifies this`pageDirectory, this`pageHits, this`pageMisses, tlb, mm
      ensures Valid() && mm.Valid() && mm.totalPages == old(mm.totalPages)
      ensures !outcome.TlbHit?
      ensures AccessEffect(JoinIndices(d, t), outcome, old(Mappings()), old(pageHits), old(pageMisses),
                           Mappings(), pageHits, pageMisses)
      ensures !outcome.AllocatorExhausted? ==> TlbHolds(tlb.tlbMap, Mappings(), JoinIndices(d, t))
      ensures outcome.TableHit? ==> unchanged(mm)
      ensures outcome.TableMiss? || outcome.AllocatorExhausted? ==>
                  Handout(old(mm.freePages), old(mm.allocatedPages), old(mm.allocationOrder), Allocation(outcome),
                          mm.freePages, mm.allocatedPages, mm.allocationOrder)
      ensures outcome.TableMiss? ==> outcome.page in mm.allocatedPages && outcome.page < mm.totalPages
      ensures tlb.hits == old(tlb.hits) && tlb.misses == old(tlb.misses) && tlb.lookups == old(tlb.lookups)
      ensures outcome.AllocatorExhausted? ==> tlb.lruList == old(tlb.lruList) && tlb.tlbMap == old(tlb.tlbMap)
      ensures var vpn := JoinIndices(d, t);
              !outcome.AllocatorExhausted? ==>
                && vpn in Mappings()
                && tlb.lruList == AddedList(old(tlb.lruList), vpn, Mappings()[vpn])
                && tlb.tlbMap == AddedIndex(old(tlb.lruList), old(tlb.tlbMap), vpn, Mappings()[vpn])
    {
      var physicalPage;
      outcome, physicalPage := WalkPageTable(d, t, mm);
      if outcome.AllocatorExhausted? {
        return;
      }
      Remember(JoinIndices(d, t), physicalPage);
    }

    /** tlb.add after a TLB miss: the TLB learns the page table's translation of vpn. */
    method Remember(vpn: nat, physicalPage: nat)
      requires Valid() && vpn !in tlb.tlbMap
      requires vpn in Mappings() && Mappings()[vpn] == physicalPage
      modifies tlb
      ensures Valid() && TlbHolds(tlb.tlbMap, Mappings(), vpn)
      ensures tlb.lruList == AddedList(old(tlb.lruList), vpn, physicalPage)
      ensures tlb.tlbMap == AddedIndex(old(tlb.lruList), old(tlb.tlbMap), vpn, physicalPage)
      ensures tlb.hits == old(tlb.hits) && tlb.misses == old(tlb.misses) && tlb.lookups == old(tlb.lookups)
    {
      ghost var before := tlb.tlbMap;
      tlb.Add(vpn, physicalPage);
      AgreesAfterAdd(before, tlb.tlbMap, Mappings(), vpn);
    }

    /**
     * The page-table part of a TLB miss: the directory gains an empty page
     * table for d if it had none; an entry for t is a page hit, and a missing
     * one is a page miss that stores the page the allocator hands out.
     */
    method WalkPageTable(d: nat, t: nat, mm: LegacyMemoryManager) returns (outcome: AccessOutcome, physicalPage: nat)
      requires Valid() && mm.Valid() && d < 0x400 && t < 0x400
      requires JoinIndices(d, t) !in tlb.tlbMap
      modifies this`pageDirectory, this`pageHits, this`pageMisses, mm
      ensures Valid() && mm.Valid() && mm.totalPages == old(mm.totalPages)
      ensures !outcome.TlbHit?
      ensures AccessEffect(JoinIndices(d, t), outcome, old(Mappings()), old(pageHits), old(pageMisses),
                           Mappings(), pageHits, pageMisses)
      ensures !outcome.AllocatorExhausted? ==> physicalPage == Mappings()[JoinIndices(d, t)]
      ensures outcome.TableHit? ==> unchanged(mm)
      ensures outcome.TableMiss? || outcome.AllocatorExhausted? ==>
                  Handout(old(mm.freePages), old(mm.allocatedPages), old(mm.allocationOrder), Allocation(outcome),
                          mm.freePages, mm.allocatedPages, mm.allocationOrder)
      ensures outcome.TableMiss? ==> outcome.page in mm.allocatedPages && outcome.page < mm.totalPages
    {
      FlattenLookup(pageDirectory, d, t);
      EnsureTable(d);
      FlattenLookup(pageDirectory, d, t);
      if t in pageDirectory[d] {
        pageHits := Wrap32(pageHits + 1);
        return TableHit, pageDirectory[d][t];
      }
      outcome, physicalPage := PageMiss(d, t, mm);
    }

    /**
     * A page-table miss: counts a page miss, then stores the page the
     * allocator hands out as entry t of page table d.
     */
    method PageMiss(d: nat, t: nat, mm: LegacyMemoryManager) returns (outcome: AccessOutcome, physicalPage: nat)
      requires Valid() && mm.Valid() && d < 0x400 && t < 0x400
      requires JoinIndices(d, t) !in tlb.tlbMap
      requires d in pageDirectory && t !in pageDirectory[d]
      modifies this`pageDirectory, this`pageMisses, mm
      ensures Valid() && mm.Valid() && mm.totalPages == old(mm.totalPages)
      ensures pageMisses == Wrap32(old(pageMisses) + 1)
      ensures outcome.TableMiss? || outcome.AllocatorExhausted?
      ensures outcome.TableMiss? ==>
                outcome.page == physicalPage && Mappings() == old(Mappings())[JoinIndices(d, t) := physicalPage]
      ensures outcome.AllocatorExhausted? ==> Mappings() == old(Mappings())
      ensures Handout(old(mm.freePages), old(mm.allocatedPages), old(mm.allocationOrder), Allocation(outcome),
                      mm.freePages, mm.allocatedPages, mm.allocationOrder)
      ensures outcome.TableMiss? ==> outcome.page in mm.allocatedPages && outcome.page < mm.totalPages
    {
      pageMisses := Wrap32(pageMisses + 1);
      var stored;
      stored, physicalPage := MapNewPage(d, t, mm);
      if stored {
        outcome := TableMiss(physicalPage);
      } else {
        outcome := AllocatorExhausted;
      }
    }

    /** Gives directory slot d an empty page table when it has none; no translation changes. */
    method EnsureTable(d: nat)
      requires Valid()
      modifies this`pageDirectory
      ensures Valid() && d in pageDirectory && Mappings() == old(Mappings())
      ensures old(d in pageDirectory) ==> pageDirectory == old(pageDirectory)
      ensures old(d !in pageDirectory) ==> pageDirectory == old(pageDirectory)[d := map[]]
    {
      if d !in pageDirectory {
        FlattenCreate(pageDirectory, d);
        pageDirectory := pageDirectory[d := map[]];
      }
    }

    /**
     * Takes a page from the allocator and stores it as entry t of page table
     * d; when the allocator gives out, the page directory is left as it was.
     */
    method MapNewPage(d: nat, t: nat, mm: LegacyMemoryManager) returns (stored: bool, physicalPage: nat)
      requires Valid() && mm.Valid() && d < 0x400 && t < 0x400
      requires JoinIndices(d, t) !in tlb.tlbMap
      requires d in pageDirectory
      modifies this`pageDirectory, mm
      ensures Valid() && mm.Valid() && mm.totalPages == old(mm.totalPages)
      ensures stored ==> Mappings() == old(Mappings())[JoinIndices(d, t) := physicalPage]
      ensures stored ==> physicalPage in mm.allocatedPages && physicalPage < mm.totalPages
      ensures Handout(old(mm.freePages), old(mm.allocatedPages), old(mm.allocationOrder),
                      if stored then Allocated(physicalPage) else OutOfPhysicalMemory,
                      mm.freePages, mm.allocatedPages, mm.allocationOrder)
      ensures !stored ==> pageDirectory == old(pageDirectory) && Mappings() == old(Mappings())
    {
      var r := mm.AllocatePage();
      if r.OutOfPhysicalMemory? {
        return false, 0;
      }
      physicalPage := r.page;
      FlattenStore(pageDirectory, d, t, physicalPage);
      var table: map<nat, nat> := pageDirectory[d][t := physicalPage];
      pageDirectory := pageDirectory[d := table];
      stored := true;
    }

    /**
     * Unmaps the page of an address: when the page table maps it, the
     * physical page goes back to the allocator, the entry is erased, the TLB
     * forgets the VPN and a page table left empty leaves the directory. An
     * unmapped address changes nothing.
     */
    method AccessMemoryNeg(logicalAddress: nat, mm: LegacyMemoryManager)
      requires Valid() && mm.Valid() && logicalAddress < TWO_32
      modifies this, tlb, mm
      ensures Valid() && mm.Valid()
      ensures pageHits == old(pageHits) && pageMisses == old(pageMisses)
      ensures var vpn := VirtualPageOf(logicalAddress);
              var d := DirectoryIndex(logicalAddress);
              var t := TableIndex(logicalAddress);
              if vpn in old(Mappings()) then
                && d in old(pageDirectory) && t in old(pageDirectory)[d]
                && (if old(pageDirectory)[d] - {t} == map[] then pageDirectory == old(pageDirectory) - {d}
                    else pageDirectory == old(pageDirectory)[d := old(pageDirectory)[d] - {t}])
                && Mappings() == old(Mappings()) - {vpn}
                && tlb.tlbMap == old(tlb.tlbMap) - {vpn}
                && tlb.lruList == Without(old(tlb.lruList), vpn)
                && tlb.hits == old(tlb.hits) && tlb.misses == old(tlb.misses) && tlb.lookups == old(tlb.lookups)
                && mm.totalPages == old(mm.totalPages) && mm.allocationOrder == old(mm.allocationOrder)
                && (old(Mappings())[vpn] in old(mm.allocatedPages) ==>
                      mm.freePages == old(mm.freePages) + {old(Mappings())[vpn]}
                      && mm.allocatedPages == old(mm.allocatedPages) - {old(Mappings())[vpn]})
                && (old(Mappings())[vpn] !in old(mm.allocatedPages) ==>
                      mm.freePages == old(mm.freePages) && mm.allocatedPages == old(mm.allocatedPages))
              else
                && pageDirectory == old(pageDirectory)
                && unchanged(tlb) && unchanged(mm)
    {
      var d := DirectoryIndex(logicalAddress);
      var t := TableIndex(logicalAddress);
      var vpn := JoinIndices(d, t);
      JoinSplits(d, t);
      FlattenLookup(pageDirectory, d, t);
      if d in pageDirectory && t in pageDirectory[d] {
        var physicalPage := pageDirectory[d][t];
        mm.DeallocatePage(physicalPage);
        FlattenErase(pageDirectory, d, t);
        pageDirectory := pageDirectory[d := pageDirectory[d] - {t}];
        tlb.Invalidate(vpn);
        if pageDirectory[d] == map[] {
          FlattenPrune(pageDirectory, d);
          pageDirectory := pageDirectory - {d};
        }
      }
    }
  }
}
