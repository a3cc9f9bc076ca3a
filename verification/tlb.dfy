/**
 * The translation lookaside buffer: at most TLB_SIZE entries kept in a list
 * ordered by recency (most recently used first) plus an index from virtual
 * page number to the list entry holding it, with 32-bit hit and miss counters.
 */
module Tlb {
  import opened Common

  /** Capacity of the TLB, in entries. */
  const TLB_SIZE: nat := 64

  datatype TLBEntry = TLBEntry(virtualPage: nat, physicalPage: nat, dirty: bool)

  /** No virtual page number occurs twice in the list. */
  ghost predicate UniqueVpns(l: seq<TLBEntry>)
  {
    l == [] || ((forall x :: x in l[1..] ==> x.virtualPage != l[0].virtualPage) && UniqueVpns(l[1..]))
  }

  /** Whether some entry of the list holds the virtual page v. */
  ghost predicate Holds(l: seq<TLBEntry>, v: nat)
  {
    exists x :: x in l && x.virtualPage == v
  }

  /** The list with the entries for v erased, every other entry in its old relative order. */
  function Without(l: seq<TLBEntry>, v: nat): (r: seq<TLBEntry>)
    ensures forall x :: x in r <==> x in l && x.virtualPage != v
    ensures |r| <= |l|
  {
    if l == [] then []
    else (if l[0].virtualPage == v then [] else [l[0]]) + Without(l[1..], v)
  }

  lemma {:induction false} WithoutUnique(l: seq<TLBEntry>, v: nat)
    requires UniqueVpns(l)
    ensures UniqueVpns(Without(l, v))
    decreases |l|
  {
    if l != [] {
      WithoutUnique(l[1..], v);
      var r := Without(l, v);
      var t := Without(l[1..], v);
      if l[0].virtualPage != v {
        assert r == [l[0]] + t;
        assert r[1..] == t && r[0] == l[0];
        forall x | x in r[1..]
          ensures x.virtualPage != r[0].virtualPage
        {
          assert x in l[1..];
        }
      } else {
        assert r == [] + t == t;
      }
    }
  }

  /**
   * The list and the index describe each other: every listed entry is indexed
   * under its own page, every indexed entry is listed, no page is listed twice
   * and no entry is dirty.
   */
  ghost predicate Indexed(l: seq<TLBEntry>, m: map<nat, TLBEntry>)
  {
    && UniqueVpns(l)
    && (forall x :: x in l ==> x.virtualPage in m && m[x.virtualPage] == x)
    && (forall v :: v in m ==> m[v] in l && m[v].virtualPage == v)
    && (forall x :: x in l ==> !x.dirty)
  }

  /** Moving the entry of a held page to the front keeps list and index consistent. */
  lemma PromoteIndexed(l: seq<TLBEntry>, m: map<nat, TLBEntry>, v: nat)
    requires Indexed(l, m) && v in m
    ensures Indexed([m[v]] + Without(l, v), m)
    ensures |[m[v]] + Without(l, v)| == |l|
  {
    var e := m[v];
    var r := [e] + Without(l, v);
    WithoutUnique(l, v);
    WithoutLength(l, v);
    assert Holds(l, v);
    assert r[1..] == Without(l, v);
    forall x | x in r
      ensures x.virtualPage in m && m[x.virtualPage] == x
    {
      if x != e {
        assert x in Without(l, v);
      }
    }
    forall w | w in m
      ensures m[w] in r
    {
      if w != v {
        assert m[w] in Without(l, v);
      }
    }
  }

  /** Putting a fresh clean entry at the front of the list, and into the index, keeps them consistent. */
  lemma PushIndexed(l: seq<TLBEntry>, m: map<nat, TLBEntry>, v: nat, p: nat)
    requires Indexed(l, m) && v !in m
    ensures Indexed([TLBEntry(v, p, false)] + l, m[v := TLBEntry(v, p, false)])
  {
    var r := [TLBEntry(v, p, false)] + l;
    assert r[1..] == l;
  }

  /** Dropping the back entry from the list and from the index keeps them consistent. */
  lemma DropIndexed(l: seq<TLBEntry>, m: map<nat, TLBEntry>)
    requires Indexed(l, m) && l != []
    ensures Indexed(l[..|l| - 1], m - {l[|l| - 1].virtualPage})
  {
    var victim := l[|l| - 1];
    var p := l[..|l| - 1];
    DropLastUnique(l);
    forall x | x in p
      ensures x in l
    {
    }
    forall w | w in m - {victim.virtualPage}
      ensures m[w] in p
    {
      assert m[w] in l && m[w] != victim;
      assert l == p + [victim];
    }
  }

  /** Erasing a page from both the list and the index keeps them consistent. */
  lemma RemoveIndexed(l: seq<TLBEntry>, m: map<nat, TLBEntry>, v: nat)
    requires Indexed(l, m)
    ensures Indexed(Without(l, v), m - {v})
  {
    WithoutUnique(l, v);
    forall w | w in m - {v}
      ensures m[w] in Without(l, v)
    {
    }
  }

  /** Erasing a page the list holds removes exactly one entry; erasing any other page changes nothing. */
  lemma {:induction false} WithoutLength(l: seq<TLBEntry>, v: nat)
    requires UniqueVpns(l)
    ensures Holds(l, v) ==> |Without(l, v)| == |l| - 1
    ensures !Holds(l, v) ==> Without(l, v) == l
    decreases |l|
  {
    if l != [] {
      WithoutLength(l[1..], v);
      if l[0].virtualPage == v {
        assert !Holds(l[1..], v);
      } else {
        assert Holds(l, v) ==> Holds(l[1..], v);
        assert l == [l[0]] + l[1..];
      }
    }
  }

  /** Dropping the last entry keeps the list unique, and the dropped page is no longer held. */
  lemma {:induction false} DropLastUnique(l: seq<TLBEntry>)
    requires UniqueVpns(l) && l != []
    ensures UniqueVpns(l[..|l| - 1])
    ensures forall x :: x in l[..|l| - 1] ==> x.virtualPage != l[|l| - 1].virtualPage
    decreases |l|
  {
    var p := l[..|l| - 1];
    if |l| > 1 {
      DropLastUnique(l[1..]);
      assert p[1..] == l[1..][..|l| - 2];
      assert l[1..][|l| - 2] == l[|l| - 1];
      forall x | x in p[1..]
        ensures x.virtualPage != p[0].virtualPage
      {
        assert x in l[1..];
      }
    }
  }

  /** One more count in either counter keeps the counters summing to the lookups modulo 2^32. */
  lemma CountOneMore(bumped: nat, other: nat, lookups: nat)
    requires bumped < TWO_32 && other < TWO_32
    requires (bumped + other) % TWO_32 == lookups % TWO_32
    ensures (Wrap32(bumped + 1) + other) % TWO_32 == (lookups + 1) % TWO_32
  {
    if bumped + 1 == TWO_32 {
      assert Wrap32(bumped + 1) == 0;
      assert (bumped + 1 + other) % TWO_32 == other % TWO_32;
    }
  }

  /**
   * The TLB's invariant on its state: at most TLB_SIZE entries, list and index
   * describe each other, and the 32-bit counters sum to the lookups modulo 2^32.
   */
  ghost predicate Consistent(l: seq<TLBEntry>, m: map<nat, TLBEntry>, hits: nat, misses: nat, lookups: nat)
  {
    && |l| <= TLB_SIZE
    && Indexed(l, m)
    && hits < TWO_32 && misses < TWO_32
    && (hits + misses) % TWO_32 == lookups % TWO_32
  }

  /** A lookup that hits keeps the state consistent. */
  lemma HitConsistent(l: seq<TLBEntry>, m: map<nat, TLBEntry>, hits: nat, misses: nat, lookups: nat, v: nat)
    requires Consistent(l, m, hits, misses, lookups) && v in m
    ensures Consistent([m[v]] + Without(l, v), m, Wrap32(hits + 1), misses, lookups + 1)
  {
    PromoteIndexed(l, m, v);
    CountOneMore(hits, misses, lookups);
  }

  /** A lookup that misses keeps the state consistent. */
  lemma MissConsistent(l: seq<TLBEntry>, m: map<nat, TLBEntry>, hits: nat, misses: nat, lookups: nat)
    requires Consistent(l, m, hits, misses, lookups)
    ensures Consistent(l, m, hits, Wrap32(misses + 1), lookups + 1)
  {
    CountOneMore(misses, hits, lookups);
  }

  /** Evicting the back entry of a full TLB keeps the state consistent and leaves room for one more. */
  lemma EvictConsistent(l: seq<TLBEntry>, m: map<nat, TLBEntry>, hits: nat, misses: nat, lookups: nat)
    requires Consistent(l, m, hits, misses, lookups) && |l| >= TLB_SIZE
    ensures Consistent(l[..|l| - 1], m - {l[|l| - 1].virtualPage}, hits, misses, lookups)
    ensures |l[..|l| - 1]| < TLB_SIZE
  {
    DropIndexed(l, m);
  }

  /** Pushing a clean entry for an absent page onto a TLB with room keeps the state consistent. */
  lemma PushConsistent(l: seq<TLBEntry>, m: map<nat, TLBEntry>, hits: nat, misses: nat, lookups: nat,
                       v: nat, p: nat)
    requires Consistent(l, m, hits, misses, lookups) && v !in m && |l| < TLB_SIZE
    ensures Consistent([TLBEntry(v, p, false)] + l, m[v := TLBEntry(v, p, false)], hits, misses, lookups)
  {
    PushIndexed(l, m, v, p);
  }

  /** Erasing a page keeps the state consistent; erasing a page the TLB does not hold changes nothing. */
  lemma RemoveConsistent(l: seq<TLBEntry>, m: map<nat, TLBEntry>, hits: nat, misses: nat, lookups: nat, v: nat)
    requires Consistent(l, m, hits, misses, lookups)
    ensures Consistent(Without(l, v), m - {v}, hits, misses, lookups)
    ensures v !in m ==> Without(l, v) == l && m - {v} == m
  {
    RemoveIndexed(l, m, v);
    WithoutLength(l, v);
    if v !in m {
      assert !Holds(l, v);
    }
  }

  /** The list after tlb.add of a page: the back entry is dropped when the list is full, the clean new entry goes in front. */
  function AddedList(l: seq<TLBEntry>, v: nat, p: nat): seq<TLBEntry>
  {
    [TLBEntry(v, p, false)] + (if |l| >= TLB_SIZE then l[..|l| - 1] else l)
  }

  /** The index after tlb.add of a page: the evicted back entry's page leaves it, the new page maps to the new entry. */
  function AddedIndex(l: seq<TLBEntry>, m: map<nat, TLBEntry>, v: nat, p: nat): map<nat, TLBEntry>
  {
    (if |l| >= TLB_SIZE then m - {l[|l| - 1].virtualPage} else m)[v := TLBEntry(v, p, false)]
  }

  class TLB {
    /** The LRU list: index 0 is the most recently used entry. */
    var lruList: seq<TLBEntry>
    /** Virtual page number to the list entry that holds it. */
    var tlbMap: map<nat, TLBEntry>
    /** 32-bit statistics counters. */
    var hits: nat
    var misses: nat
    /** Number of lookups since construction (not kept by the source). */
    ghost var lookups: nat

    ghost predicate Valid()
      reads this
    {
      Consistent(lruList, tlbMap, hits, misses, lookups)
    }

    /** The translations the TLB holds, as a map from virtual to physical page. */
    ghost function Entries(): map<nat, nat>
      reads this
    {
      map v | v in tlbMap :: tlbMap[v].physicalPage
    }

    constructor ()
      ensures Valid() && lruList == [] && tlbMap == map[] && hits == 0 && misses == 0 && lookups == 0
    {
      lruList := [];
      tlbMap := map[];
      hits := 0;
      misses := 0;
      lookups := 0;
    }

    /**
     * On a hit returns the physical page, moves the entry to the front and
     * counts a hit; on a miss counts a miss and changes nothing else.
     */
    method Lookup(virtualPage: nat) returns (found: bool, physicalPage: nat)
      requires Valid()
      modifies this
      ensures Valid() && lookups == old(lookups) + 1
      ensures found == (virtualPage in old(tlbMap))
      ensures tlbMap == old(tlbMap)
      ensures found ==>
                && physicalPage == old(tlbMap)[virtualPage].physicalPage
                && lruList == [old(tlbMap)[virtualPage]] + Without(old(lruList), virtualPage)
                && hits == Wrap32(old(hits) + 1) && misses == old(misses)
      ensures !found ==>
                && lruList == old(lruList)
                && hits == old(hits) && misses == Wrap32(old(misses) + 1)
    {
      if virtualPage in tlbMap {
        var entry := tlbMap[virtualPage];
        HitConsistent(lruList, tlbMap, hits, misses, lookups, virtualPage);
        lruList := [entry] + Without(lruList, virtualPage);
        hits := Wrap32(hits + 1);
        lookups := lookups + 1;
        return true, entry.physicalPage;
      }
      MissConsistent(lruList, tlbMap, hits, misses, lookups);
      misses := Wrap32(misses + 1);
      lookups := lookups + 1;
      return false, 0;
    }

    /**
     * Inserts a translation for a page the TLB does not hold, at the front;
     * when the TLB is full the back (least recently used) entry is evicted first.
     */
    method Add(virtualPage: nat, physicalPage: nat)
      requires Valid() && virtualPage !in tlbMap
      modifies this
      ensures Valid()
      ensures hits == old(hits) && misses == old(misses) && lookups == old(lookups)
      ensures lruList == AddedList(old(lruList), virtualPage, physicalPage)
      ensures tlbMap == AddedIndex(old(lruList), old(tlbMap), virtualPage, physicalPage)
    {
      if |lruList| >= TLB_SIZE {
        var victim := lruList[|lruList| - 1];
        EvictConsistent(lruList, tlbMap, hits, misses, lookups);
        tlbMap := tlbMap - {victim.virtualPage};
        lruList := lruList[..|lruList| - 1];
      }
      var entry := TLBEntry(virtualPage, physicalPage, false);
      PushConsistent(lruList, tlbMap, hits, misses, lookups, virtualPage, physicalPage);
      lruList := [entry] + lruList;
      tlbMap := tlbMap[virtualPage := entry];
    }

    /** Removes the entry for a page if there is one; the other entries keep their order. */
    method Invalidate(virtualPage: nat)
      requires Valid()
      modifies this
      ensures Valid()
      ensures hits == old(hits) && misses == old(misses) && lookups == old(lookups)
      ensures lruList == Without(old(lruList), virtualPage)
      ensures tlbMap == old(tlbMap) - {virtualPage}
    {
      RemoveConsistent(lruList, tlbMap, hits, misses, lookups, virtualPage);
      if virtualPage in tlbMap {
        lruList := Without(lruList, virtualPage);
        tlbMap := tlbMap - {virtualPage};
      }
    }

    /** Empties the TLB; the statistics are kept. */
    method InvalidateAll()
      requires Valid()
      modifies this
      ensures Valid() && lruList == [] && tlbMap == map[]
      ensures hits == old(hits) && misses == old(misses) && lookups == old(lookups)
    {
      lruList := [];
      tlbMap := map[];
    }

    /** The counters; together they count the lookups modulo 2^32. */
    method GetStats() returns (hitCount: nat, missCount: nat)
      requires Valid()
      ensures hitCount == hits && missCount == misses
      ensures (hitCount + missCount) % TWO_32 == lookups % TWO_32
    {
      hitCount := hits;
      missCount := misses;
    }
  }
}
