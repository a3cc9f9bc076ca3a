/**
 * The legacy page allocator used by the multi-level tasks: an ordered set of
 * free page numbers, a set of allocated ones and a FIFO queue of allocation
 * order that allocatePage drains looking for a page to recycle when no page
 * is free. The process-wide singleton is an ordinary object here.
 */
module LegacyAllocator {
  import opened Config

  /** The page numbers 0 .. n-1. */
  function AllPages(n: nat): (s: set<nat>)
    ensures forall p :: p in s <==> 0 <= p < n
  {
    if n == 0 then {} else AllPages(n - 1) + {n - 1}
  }

  lemma {:induction false} AllPagesSize(n: nat)
    ensures |AllPages(n)| == n
  {
    if n > 0 {
      AllPagesSize(n - 1);
    }
  }

  /** The smallest element of a non-empty set: what std::set::begin() yields. */
  function SetMin(s: set<nat>): (m: nat)
    requires s != {}
    ensures m in s && forall x :: x in s ==> m <= x
  {
    MinExists(s);
    var m :| m in s && forall x :: x in s ==> m <= x;
    m
  }

  lemma MinExists(s: set<nat>)
    requires s != {}
    ensures exists m :: m in s && forall x :: x in s ==> m <= x
  {
    var y :| y in s;
    MinAtMost(s, y);
  }

  /** A set holding k has a least element, found by descending from k. */
  lemma {:induction false} MinAtMost(s: set<nat>, k: nat)
    requires k in s
    ensures exists m :: m in s && forall x :: x in s ==> m <= x
    decreases k
  {
    if exists j :: j in s && j < k {
      var j :| j in s && j < k;
      MinAtMost(s, j);
    } else {
      assert forall x :: x in s ==> k <= x;
    }
  }

  /**
   * The number of queue entries allocatePage pops before it finds one that is
   * currently allocated; |q| when there is none.
   */
  function ReplacementIndex(q: seq<nat>, inUse: set<nat>): (k: nat)
    ensures k <= |q|
    ensures forall j :: 0 <= j < k ==> q[j] !in inUse
    ensures k < |q| ==> q[k] in inUse
  {
    if q == [] then 0
    else if q[0] in inUse then 0
    else 1 + ReplacementIndex(q[1..], inUse)
  }

  lemma {:induction false} ReplacementIndexIs(q: seq<nat>, inUse: set<nat>, p: nat)
    requires p <= |q|
    requires forall j :: 0 <= j < p ==> q[j] !in inUse
    requires p < |q| ==> q[p] in inUse
    ensures ReplacementIndex(q, inUse) == p
    decreases p
  {
    if p > 0 {
      ReplacementIndexIs(q[1..], inUse, p - 1);
    }
  }

  /** total_pages: the number of pages of the given byte size in physical memory. */
  function TotalPagesFor(pageBytes: nat): nat
    requires pageBytes > 0
  {
    PHYSICAL_MEMORY_SIZE / pageBytes
  }

  datatype AllocResult = Allocated(page: nat) | OutOfPhysicalMemory

  /**
   * What allocatePage does, from the free set, allocated set and queue
   * free0, alloc0, order0 to free1, alloc1, order1 with result r: with a free
   * page the lowest one is allocated; with none, the queue is popped up to
   * and including its first still-allocated page, which is handed out again
   * (it stays allocated), and when there is no such page allocation fails
   * with the queue drained.
   */
  ghost predicate Handout(free0: set<nat>, alloc0: set<nat>, order0: seq<nat>, r: AllocResult,
                          free1: set<nat>, alloc1: set<nat>, order1: seq<nat>)
  {
    if free0 != {} then
      && r == Allocated(SetMin(free0))
      && free1 == free0 - {r.page} && alloc1 == alloc0 + {r.page} && order1 == order0
    else
      var k := ReplacementIndex(order0, alloc0);
      && free1 == {} && alloc1 == alloc0
      && (if k < |order0| then r == Allocated(order0[k]) && order1 == order0[k + 1..]
          else r == OutOfPhysicalMemory && order1 == [])
  }

  /**
   * While the queue is empty, a page handed out was free and is now the one
   * page added to the allocated set, and the queue stays empty: allocation
   * fails exactly when no page is free.
   */
  lemma HandoutFromEmptyQueue(free0: set<nat>, alloc0: set<nat>, r: AllocResult,
                              free1: set<nat>, alloc1: set<nat>, order1: seq<nat>)
    requires free0 !! alloc0
    requires Handout(free0, alloc0, [], r, free1, alloc1, order1)
    ensures order1 == []
    ensures r.OutOfPhysicalMemory? <==> free0 == {}
    ensures r.Allocated? ==>
              && r.page in free0 && r.page !in alloc0
              && free1 == free0 - {r.page} && alloc1 == alloc0 + {r.page}
  {
  }

  /**
   * With no free page, a page the queue hands out again is one that was
   * still allocated, and the allocated set does not change.
   */
  lemma HandoutRecycles(alloc0: set<nat>, order0: seq<nat>, r: AllocResult,
                        free1: set<nat>, alloc1: set<nat>, order1: seq<nat>)
    requires Handout({}, alloc0, order0, r, free1, alloc1, order1) && r.Allocated?
    ensures r.page in alloc0 && r.page in order0 && alloc1 == alloc0 && free1 == {}
  {
  }

  class LegacyMemoryManager {
    var totalPages: nat
    var freePages: set<nat>
    var allocatedPages: set<nat>
    /** The allocation-order queue; its front is index 0. */
    var allocationOrder: seq<nat>

    /** Every page is either free or allocated, never both. */
    ghost predicate Valid()
      reads this
    {
      freePages !! allocatedPages && freePages + allocatedPages == AllPages(totalPages)
    }

    /** Every page 0 .. total_pages-1 starts free. */
    constructor (minPageSizeKb: nat)
      requires minPageSizeKb > 0
      ensures Valid()
      ensures totalPages == TotalPagesFor(minPageSizeKb * 1024)
      ensures freePages == AllPages(totalPages) && allocatedPages == {} && allocationOrder == []
    {
      var n := TotalPagesFor(minPageSizeKb * 1024);
      totalPages := n;
      freePages := {};
      allocatedPages := {};
      allocationOrder := [];
      new;
      var i := 0;
      while i < n
        invariant 0 <= i <= n
        invariant freePages == AllPages(i)
        invariant totalPages == n && allocatedPages == {} && allocationOrder == []
      {
        assert AllPages(i + 1) == AllPages(i) + {i};
        freePages := freePages + {i};
        i := i + 1;
      }
    }

    /**
     * Hands out the smallest free page. With no free page it pops the queue
     * until it meets a page that is still allocated and recycles that page;
     * with no such page left it fails (the queue is then drained).
     */
    method AllocatePage() returns (r: AllocResult)
      requires Valid()
      modifies this
      ensures Valid() && totalPages == old(totalPages)
      ensures Handout(old(freePages), old(allocatedPages), old(allocationOrder), r,
                      freePages, allocatedPages, allocationOrder)
      ensures r.Allocated? ==> r.page in allocatedPages && r.page < totalPages
    {
      if freePages == {} {
        var replaced := RecycleFromQueue();
        if !replaced {
          return OutOfPhysicalMemory;
        }
      }
      var page := SetMin(freePages);
      freePages := freePages - {page};
      allocatedPages := allocatedPages + {page};
      return Allocated(page);
    }

    /**
     * The replacement loop of allocatePage: pops the queue up to and including
     * the first page that is still allocated and moves that page to the free set.
     */
    method RecycleFromQueue() returns (replaced: bool)
      requires Valid() && freePages == {}
      modifies this
      ensures Valid() && totalPages == old(totalPages)
      ensures var k := ReplacementIndex(old(allocationOrder), old(allocatedPages));
              && replaced == (k < |old(allocationOrder)|)
              && (replaced ==> && freePages == {old(allocationOrder)[k]}
                               && allocatedPages == old(allocatedPages) - {old(allocationOrder)[k]}
                               && allocationOrder == old(allocationOrder)[k + 1..])
              && (!replaced ==> && freePages == {} && allocatedPages == old(allocatedPages)
                                && allocationOrder == [])
    {
      replaced := false;
      ghost var popped := 0;
      ghost var q := allocationOrder;
      while allocationOrder != []
        invariant Valid() && freePages == {} && allocatedPages == old(allocatedPages)
        invariant 0 <= popped <= |q|
        invariant allocationOrder == q[popped..]
        invariant forall j :: 0 <= j < popped ==> q[j] !in allocatedPages
        invariant totalPages == old(totalPages)
        decreases |allocationOrder|
      {
        var pageToReplace := allocationOrder[0];
        allocationOrder := allocationOrder[1..];
        if pageToReplace in allocatedPages {
          ReplacementIndexIs(q, allocatedPages, popped);
          allocatedPages := allocatedPages - {pageToReplace};
          freePages := freePages + {pageToReplace};
          replaced := true;
          return;
        }
        popped := popped + 1;
      }
      ReplacementIndexIs(q, allocatedPages, popped);
    }

    /** Returns an allocated page to the free set; a page that is not allocated is ignored. */
    method DeallocatePage(page: nat)
      requires Valid()
      modifies this
      ensures Valid() && totalPages == old(totalPages) && allocationOrder == old(allocationOrder)
      ensures page in old(allocatedPages) ==>
                freePages == old(freePages) + {page} && allocatedPages == old(allocatedPages) - {page}
      ensures page !in old(allocatedPages) ==>
                freePages == old(freePages) && allocatedPages == old(allocatedPages)
    {
      if page !in allocatedPages {
        return;
      }
      allocatedPages := allocatedPages - {page};
      freePages := freePages + {page};
    }

    function GetFreePageCount(): (n: nat)
      reads this
      requires Valid()
      ensures n <= totalPages
    {
      AllPagesSize(totalPages);
      |freePages|
    }

    function GetAllocatedPageCount(): (n: nat)
      reads this
      requires Valid()
      ensures n + GetFreePageCount() == totalPages
    {
      AllPagesSize(totalPages);
      assert |freePages + allocatedPages| == |freePages| + |allocatedPages|;
      |allocatedPages|
    }
  }
}
