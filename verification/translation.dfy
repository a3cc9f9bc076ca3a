/**
 * The meaning of a translation request, independent of how a page table is
 * stored: which virtual pages a request (address, size) visits, and which of
 * those visits are hits (the page was mapped before, by an earlier request or
 * an earlier page of the same request) and which are misses.
 */
module Translation {
  import opened Common

  /**
   * The number of pages a request of sizeBytes covers: size divided by the page
   * size, rounded up. This is the intended value of process_request's num_pages.
   */
  function PageCount(sizeBytes: nat, pageSize: nat): (n: nat)
    requires pageSize > 0
    ensures n * pageSize >= sizeBytes
    ensures n * pageSize < sizeBytes + pageSize
  {
    var q := (sizeBytes + pageSize - 1) / pageSize;
    var r := (sizeBytes + pageSize - 1) % pageSize;
    assert sizeBytes + pageSize - 1 == q * pageSize + r;
    q
  }

  /**
   * num_pages as the source computes it: size + page_size - 1 is evaluated in
   * unsigned arithmetic of the given modulus (2^64 in Task, 2^32 in the legacy
   * trace readers) before the division.
   */
  function WrappedPageCount(sizeBytes: nat, pageSize: nat, modulus: nat): nat
    requires pageSize > 0 && modulus > 0
  {
    ((sizeBytes + pageSize - 1) % modulus) / pageSize
  }

  /** Without overflow the wrapped computation is the rounded-up quotient. */
  lemma WrappedPageCountAgrees(sizeBytes: nat, pageSize: nat, modulus: nat)
    requires pageSize > 0 && modulus > 0
    requires sizeBytes + pageSize - 1 < modulus
    ensures WrappedPageCount(sizeBytes, pageSize, modulus) == PageCount(sizeBytes, pageSize)
  {
    ModOfSmaller(sizeBytes + pageSize - 1, modulus);
  }

  lemma ModOfSmaller(x: nat, m: nat)
    requires x < m
    ensures x % m == x
  {
    DivisionBetween(x, m, 0);
  }

  /**
   * When size + page_size - 1 no longer fits the modulus although the size
   * itself does, the wrapped count is 0 while the request covers at least
   * one page: such a request visits nothing.
   */
  lemma WrappedPageCountOverflow(sizeBytes: nat, pageSize: nat, modulus: nat)
    requires 0 < pageSize <= modulus
    requires sizeBytes < modulus <= sizeBytes + pageSize - 1
    ensures WrappedPageCount(sizeBytes, pageSize, modulus) == 0
    ensures PageCount(sizeBytes, pageSize) > 0
  {
    var y := sizeBytes + pageSize - 1 - modulus;
    DivisionBetween(modulus + y, modulus, 1);
    assert (sizeBytes + pageSize - 1) % modulus == y;
    DivisionBetween(y, pageSize, 0);
  }

  /**
   * The 64-bit overflow: a request of 2^64 - 1024 bytes (what the trace size
   * "18014398509481983KB" denotes) on 4 KB pages covers 2^52 pages, but the
   * wrapped sum makes process_request visit none of them.
   */
  lemma WrappedPageCountOverflow64()
    ensures WrappedPageCount(TWO_64 - 1024, 4096, TWO_64) == 0
    ensures PageCount(TWO_64 - 1024, 4096) == 0x10_0000_0000_0000
  {
  }

  /**
   * The 32-bit overflow of the legacy readers: a size of 2^32 - 1024 bytes (the
   * size "4194303KB") yields no access at all for any page size of 2 KB or more.
   */
  lemma WrappedPageCountOverflow32(pageSize: nat)
    requires 2048 <= pageSize <= 0x4000_0000
    ensures WrappedPageCount(TWO_32 - 1024, pageSize, TWO_32) == 0
    ensures PageCount(TWO_32 - 1024, pageSize) > 0
  {
    WrappedPageCountOverflow(TWO_32 - 1024, pageSize, TWO_32);
  }

  /**
   * The virtual page numbers a request visits, in visiting order: count
   * consecutive numbers from start, each held in a uint64_t.
   */
  function PageRange(start: nat, count: nat): (r: seq<nat>)
    ensures |r| == count
    ensures forall i :: 0 <= i < count ==> r[i] == Wrap64(start + i)
  {
    if count == 0 then [] else PageRange(start, count - 1) + [Wrap64(start + count - 1)]
  }

  lemma PageRangeAt(start: nat, count: nat, i: nat)
    requires i < count
    ensures PageRange(start, count)[i] == Wrap64(start + i)
  {
  }

  /** The pages process_request visits for (logicalAddress, sizeBytes). */
  function RequestPages(logicalAddress: nat, sizeBytes: nat, pageSize: nat): (r: seq<nat>)
    requires pageSize > 0
  {
    PageRange(logicalAddress / pageSize, PageCount(sizeBytes, pageSize))
  }

  /** A request of size 0 visits no page; a non-empty one starts at the page of its address. */
  lemma RequestPagesStart(logicalAddress: nat, sizeBytes: nat, pageSize: nat)
    requires pageSize > 0 && logicalAddress < TWO_64
    ensures sizeBytes == 0 <==> RequestPages(logicalAddress, sizeBytes, pageSize) == []
    ensures sizeBytes > 0 ==> RequestPages(logicalAddress, sizeBytes, pageSize)[0] == logicalAddress / pageSize
  {
    var n := PageCount(sizeBytes, pageSize);
    if sizeBytes == 0 && n > 0 {
      MulMonotonic(1, n, pageSize);
    }
    if sizeBytes > 0 {
      assert n > 0;
      DivisionBetween(logicalAddress, pageSize, logicalAddress / pageSize);
      MulMonotonic(1, pageSize, logicalAddress / pageSize);
      assert logicalAddress / pageSize <= logicalAddress;
    }
  }

  /**
   * For a page-aligned address, the visited pages are exactly the pages the
   * bytes [address, address + size) touch: the last visited page holds the last byte.
   */
  lemma AlignedRequestCoversBytes(logicalAddress: nat, sizeBytes: nat, pageSize: nat)
    requires pageSize > 0 && logicalAddress % pageSize == 0 && sizeBytes > 0
    ensures logicalAddress / pageSize + PageCount(sizeBytes, pageSize) - 1
            == (logicalAddress + sizeBytes - 1) / pageSize
  {
    var s := logicalAddress / pageSize;
    var n := PageCount(sizeBytes, pageSize);
    assert logicalAddress == s * pageSize;
    var last := s + n - 1;
    assert last * pageSize == s * pageSize + (n - 1) * pageSize;
    assert (n - 1) * pageSize == n * pageSize - pageSize;
    assert last * pageSize <= logicalAddress + sizeBytes - 1 < last * pageSize + pageSize;
    DivisionBetween(logicalAddress + sizeBytes - 1, pageSize, last);
  }

  /**
   * The alignment assumption matters: a 2-byte request at address 4095 on 4 KB
   * pages touches pages 0 and 1, but only page 0 is visited.
   */
  lemma UnalignedRequestSkipsPage()
    ensures RequestPages(4095, 2, 4096) == [0]
    ensures (4095 + 2 - 1) / 4096 == 1
  {
  }

  // ---------------------------------------------------------------------
  // Hits and misses
  // ---------------------------------------------------------------------

  /** The pages mapped after visiting vpns, starting from the mapped set known. */
  function Seen(known: set<nat>, vpns: seq<nat>): (s: set<nat>)
    ensures forall v {:trigger v in s} :: v in s <==> v in known || v in vpns
  {
    if vpns == [] then known
    else Seen(known, vpns[..|vpns| - 1]) + {vpns[|vpns| - 1]}
  }

  /** The number of visits that find their page already mapped. */
  function HitCount(known: set<nat>, vpns: seq<nat>): nat
  {
    if vpns == [] then 0
    else
      var prefix := vpns[..|vpns| - 1];
      HitCount(known, prefix) + (if vpns[|vpns| - 1] in Seen(known, prefix) then 1 else 0)
  }

  /** The number of visits that find their page unmapped and map it. */
  function MissCount(known: set<nat>, vpns: seq<nat>): nat
  {
    if vpns == [] then 0
    else
      var prefix := vpns[..|vpns| - 1];
      MissCount(known, prefix) + (if vpns[|vpns| - 1] in Seen(known, prefix) then 0 else 1)
  }

  /** Every visit is exactly one of a hit or a miss. */
  lemma {:induction false} HitsPlusMisses(known: set<nat>, vpns: seq<nat>)
    ensures HitCount(known, vpns) + MissCount(known, vpns) == |vpns|
    decreases |vpns|
  {
    if vpns != [] {
      HitsPlusMisses(known, vpns[..|vpns| - 1]);
    }
  }

  /** Each miss maps exactly one new page: the misses count the pages added to the table. */
  lemma {:induction false} MissesAreNewPages(known: set<nat>, vpns: seq<nat>)
    ensures |Seen(known, vpns)| == |known| + MissCount(known, vpns)
    ensures known <= Seen(known, vpns)
    decreases |vpns|
  {
    if vpns != [] {
      var prefix := vpns[..|vpns| - 1];
      var v := vpns[|vpns| - 1];
      MissesAreNewPages(known, prefix);
      if v !in Seen(known, prefix) {
        assert |Seen(known, prefix) + {v}| == |Seen(known, prefix)| + 1;
      } else {
        assert Seen(known, prefix) + {v} == Seen(known, prefix);
      }
    }
  }

  /** A page visited before is a hit, so visiting the same pages again hits every time. */
  lemma {:induction false} RevisitAllHits(known: set<nat>, vpns: seq<nat>)
    requires forall i :: 0 <= i < |vpns| ==> vpns[i] in known
    ensures HitCount(known, vpns) == |vpns| && MissCount(known, vpns) == 0
    ensures Seen(known, vpns) == known
    decreases |vpns|
  {
    if vpns != [] {
      RevisitAllHits(known, vpns[..|vpns| - 1]);
    }
  }

  /** Visiting a then b is visiting b from the pages a left mapped. */
  lemma {:induction false} CountsAppend(known: set<nat>, a: seq<nat>, b: seq<nat>)
    ensures Seen(known, a + b) == Seen(Seen(known, a), b)
    ensures HitCount(known, a + b) == HitCount(known, a) + HitCount(Seen(known, a), b)
    ensures MissCount(known, a + b) == MissCount(known, a) + MissCount(Seen(known, a), b)
    decreases |b|
  {
    if b == [] {
      assert a + b == a;
    } else {
      var b' := b[..|b| - 1];
      CountsAppend(known, a, b');
      assert (a + b)[..|a + b| - 1] == a + b';
    }
  }

  // ---------------------------------------------------------------------
  // Sequences of requests
  // ---------------------------------------------------------------------

  /** One trace request: a logical address and a size in bytes. */
  datatype Request = Request(logicalAddress: nat, sizeBytes: nat)

  /** The pages a sequence of requests visits, request after request. */
  function TracePages(requests: seq<Request>, pageSize: nat): (r: seq<nat>)
    requires pageSize > 0
  {
    if requests == [] then []
    else
      var last := requests[|requests| - 1];
      TracePages(requests[..|requests| - 1], pageSize)
        + RequestPages(last.logicalAddress, last.sizeBytes, pageSize)
  }

  /** Every page a request visits is a page of any trace that contains the request. */
  lemma {:induction false} TracePagesMember(requests: seq<Request>, pageSize: nat, i: nat, v: nat)
    requires pageSize > 0 && i < |requests|
    requires v in RequestPages(requests[i].logicalAddress, requests[i].sizeBytes, pageSize)
    ensures v in TracePages(requests, pageSize)
    decreases |requests|
  {
    if i < |requests| - 1 {
      TracePagesMember(requests[..|requests| - 1], pageSize, i, v);
    }
  }

  lemma SubsetCard<T>(a: set<T>, b: set<T>)
    requires a <= b
    ensures |a| <= |b|
  {
    assert b == a + (b - a);
  }
}
