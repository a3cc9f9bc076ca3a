/**
 * Task: one simulated process with its own page table, kept in one of three
 * forms chosen at construction (a hash map, a flat array with one slot per
 * virtual page, or a two-level table whose second-level arrays are created on
 * first use). Requests are split into pages; each page is a hit when it is
 * already mapped and otherwise a miss that takes a frame from the shared
 * MemoryManager.
 */
module Tasks {
  import opened Common
  import opened Config
  import opened Translation
  import opened FrameAllocator

  datatype PageTableType = MAP | SINGLE | TWO_LEVEL

  /**
   * How a page visit ends: normally, with the runtime_error thrown when no
   * frame is free, or with the out_of_range thrown for a page number the table
   * cannot hold.
   */
  datatype Status = Done | OutOfPhysicalMemory | VpnOutOfRange

  /**
   * The pages of a request whose visit began, when done of them completed:
   * a visit that ran out of physical memory began too, and a two-level
   * table created its second-level array before the allocation failed.
   */
  function Touched(status: Status, done: nat): (n: nat)
    ensures n == done || (status == OutOfPhysicalMemory && n == done + 1)
  {
    if status == OutOfPhysicalMemory then done + 1 else done
  }

  /**
   * The directory index whose second-level array a two-level visit of vpn
   * leaves in place: every visit the range check lets through has one.
   */
  function CreatedBy(status: Status, vpn: nat): (r: set<nat>)
    ensures status == VpnOutOfRange <==> r == {}
  {
    if status == VpnOutOfRange then {} else {vpn / LEVEL2_SIZE}
  }

  /** The slot value meaning "no frame". */
  const INVALID: int := -1

  /** Whether the strategy can hold the page number (MAP holds any). */
  predicate InRange(ptType: PageTableType, pageSize: nat, vpn: nat)
    requires pageSize > 0
  {
    match ptType
    case MAP => true
    case SINGLE => vpn < VirtualPages(pageSize)
    case TWO_LEVEL => vpn / LEVEL2_SIZE < LEVEL1_SIZE
  }

  // ---------------------------------------------------------------------
  // The two array representations and the mapping they stand for
  // ---------------------------------------------------------------------

  /** The mapping held by a flat table: slot v holds the frame of page v, or a negative value. */
  ghost function SingleAbs(slots: seq<int>): map<nat, nat>
  {
    map v: nat | v < |slots| && slots[v] >= 0 :: slots[v] as nat
  }

  /**
   * The mapping held by a two-level table: page v lives in second-level array
   * v / LEVEL2_SIZE at slot v % LEVEL2_SIZE.
   */
  ghost function TwoLevelAbs(dir: seq<Option<seq<int>>>): map<nat, nat>
  {
    map v: nat | v < |dir| * LEVEL2_SIZE && dir[v / LEVEL2_SIZE].Some?
                 && v % LEVEL2_SIZE < |dir[v / LEVEL2_SIZE].value|
                 && dir[v / LEVEL2_SIZE].value[v % LEVEL2_SIZE] >= 0
      :: dir[v / LEVEL2_SIZE].value[v % LEVEL2_SIZE] as nat
  }

  /** The number of second-level arrays that exist. */
  function CountSome(dir: seq<Option<seq<int>>>): (n: nat)
    ensures n <= |dir|
  {
    if dir == [] then 0
    else CountSome(dir[..|dir| - 1]) + (if dir[|dir| - 1].Some? then 1 else 0)
  }

  lemma {:induction false} CountSomeCreate(dir: seq<Option<seq<int>>>, i: nat, second: seq<int>)
    requires i < |dir| && dir[i].None?
    ensures CountSome(dir[i := Some(second)]) == CountSome(dir) + 1
    decreases |dir|
  {
    var d := dir[i := Some(second)];
    if i < |dir| - 1 {
      assert d[..|d| - 1] == dir[..|dir| - 1][i := Some(second)];
      CountSomeCreate(dir[..|dir| - 1], i, second);
    } else {
      assert d[..|d| - 1] == dir[..|dir| - 1];
    }
  }

  lemma {:induction false} CountSomeReplace(dir: seq<Option<seq<int>>>, i: nat, second: seq<int>)
    requires i < |dir| && dir[i].Some?
    ensures CountSome(dir[i := Some(second)]) == CountSome(dir)
    decreases |dir|
  {
    var d := dir[i := Some(second)];
    if i < |dir| - 1 {
      assert d[..|d| - 1] == dir[..|dir| - 1][i := Some(second)];
      CountSomeReplace(dir[..|dir| - 1], i, second);
    } else {
      assert d[..|d| - 1] == dir[..|dir| - 1];
    }
  }

  lemma {:induction false} CountSomeNone(n: nat)
    ensures CountSome(seq(n, _ => None)) == 0
    decreases n
  {
    if n > 0 {
      var d: seq<Option<seq<int>>> := seq(n, _ => None);
      assert d[..n - 1] == seq(n - 1, _ => None);
      CountSomeNone(n - 1);
    }
  }

  /** The directory slots that hold a second-level array. */
  ghost function Created(dir: seq<Option<seq<int>>>): set<nat>
  {
    set i: nat | i < |dir| && dir[i].Some?
  }

  /** The counted arrays are exactly the created slots. */
  lemma {:induction false} CountSomeCreated(dir: seq<Option<seq<int>>>)
    ensures CountSome(dir) == |Created(dir)|
    decreases |dir|
  {
    if dir != [] {
      var init := dir[..|dir| - 1];
      CountSomeCreated(init);
      if dir[|dir| - 1].Some? {
        assert Created(dir) == Created(init) + {|dir| - 1};
      } else {
        assert Created(dir) == Created(init);
      }
    }
  }

  /** Replacing an existing second-level array keeps the created slots. */
  lemma CreatedReplace(dir: seq<Option<seq<int>>>, i: nat, second: seq<int>)
    requires i < |dir| && dir[i].Some?
    ensures Created(dir[i := Some(second)]) == Created(dir)
  {
    var d := dir[i := Some(second)];
    assert forall j :: j in Created(d) <==> j in Created(dir);
  }

  /** The directory index of every page in pages: the second-level arrays those pages need. */
  ghost function DirectoryIndices(pages: seq<nat>): set<nat>
  {
    set v | v in pages :: v / LEVEL2_SIZE
  }

  /** The directory indices of a run grow page by page. */
  lemma DirectoryIndicesStep(pages: seq<nat>, k: nat)
    requires k < |pages|
    ensures DirectoryIndices(pages[..k + 1]) == DirectoryIndices(pages[..k]) + {pages[k] / LEVEL2_SIZE}
  {
    assert pages[..k + 1] == pages[..k] + [pages[k]];
    DirectoryIndicesAppend(pages[..k], [pages[k]]);
    var one := [pages[k]];
    assert pages[k] in one;
    assert forall v :: v in one ==> v == pages[k];
  }

  /**
   * A two-level visit of page offset of vpns that leaves the array of its
   * directory index in place (CreatedBy) extends the arrays held from the
   * indices of the pages before it to those of the pages it touched.
   */
  lemma CreatedAdvances(slots: set<nat>, vpns: seq<nat>, offset: nat, status: Status, c0: set<nat>, c1: set<nat>)
    requires offset < |vpns|
    requires c0 == slots + DirectoryIndices(vpns[..offset])
    requires c1 == c0 + CreatedBy(status, vpns[offset])
    ensures c1 == slots + DirectoryIndices(vpns[..Touched(status, if status == Done then offset + 1 else offset)])
  {
    DirectoryIndicesStep(vpns, offset);
  }

  /** The directory indices of two runs one after the other. */
  lemma DirectoryIndicesAppend(a: seq<nat>, b: seq<nat>)
    ensures DirectoryIndices(a + b) == DirectoryIndices(a) + DirectoryIndices(b)
  {
    forall i | i in DirectoryIndices(a + b)
      ensures i in DirectoryIndices(a) + DirectoryIndices(b)
    {
      var v :| v in a + b && v / LEVEL2_SIZE == i;
      if v in a {
        assert i in DirectoryIndices(a);
      } else {
        assert i in DirectoryIndices(b);
      }
    }
    forall i | i in DirectoryIndices(a) + DirectoryIndices(b)
      ensures i in DirectoryIndices(a + b)
    {
      if i in DirectoryIndices(a) {
        var v :| v in a && v / LEVEL2_SIZE == i;
        assert v in a + b;
      } else {
        var v :| v in b && v / LEVEL2_SIZE == i;
        assert v in a + b;
      }
    }
  }

  lemma SingleAbsEmpty(n: nat)
    ensures SingleAbs(seq(n, _ => INVALID)) == map[]
  {
  }

  lemma TwoLevelAbsEmpty(n: nat)
    ensures TwoLevelAbs(seq(n, _ => None)) == map[]
  {
  }

  /** Storing a frame in slot v of a flat table maps page v to it and changes nothing else. */
  lemma SingleAbsStore(slots: seq<int>, v: nat, frame: nat)
    requires v < |slots|
    ensures SingleAbs(slots[v := frame]) == SingleAbs(slots)[v := frame]
  {
  }

  /** A freshly created second-level array holds no mapping. */
  lemma TwoLevelAbsCreate(dir: seq<Option<seq<int>>>, i: nat)
    requires i < |dir| && dir[i].None?
    ensures TwoLevelAbs(dir[i := Some(seq(LEVEL2_SIZE, _ => INVALID))]) == TwoLevelAbs(dir)
  {
    var d := dir[i := Some(seq(LEVEL2_SIZE, _ => INVALID))];
    assert forall v :: v in TwoLevelAbs(d) <==> v in TwoLevelAbs(dir);
  }

  /** Storing a frame at the slot of page v in its second-level array maps page v to it. */
  lemma TwoLevelAbsStore(dir: seq<Option<seq<int>>>, v: nat, frame: nat)
    requires v / LEVEL2_SIZE < |dir| && dir[v / LEVEL2_SIZE].Some?
    requires |dir[v / LEVEL2_SIZE].value| == LEVEL2_SIZE
    ensures var i := v / LEVEL2_SIZE;
            TwoLevelAbs(dir[i := Some(dir[i].value[v % LEVEL2_SIZE := frame])]) == TwoLevelAbs(dir)[v := frame]
  {
    var i := v / LEVEL2_SIZE;
    var d := dir[i := Some(dir[i].value[v % LEVEL2_SIZE := frame])];
    forall w: nat | w != v
      ensures w in TwoLevelAbs(d) <==> w in TwoLevelAbs(dir)
      ensures w in TwoLevelAbs(d) ==> TwoLevelAbs(d)[w] == TwoLevelAbs(dir)[w]
    {
      if w / LEVEL2_SIZE == i {
        assert w % LEVEL2_SIZE != v % LEVEL2_SIZE;
      }
    }
    assert v in TwoLevelAbs(d);
  }

  /**
   * What one page visit does to the abstract state (mapping, counters, free
   * frames): a mapped page is a hit and changes nothing else; an unmapped page
   * is a miss that maps it and uses one frame; an out-of-range page or an
   * unmapped page with no free frame leaves everything as it was.
   */
  ghost predicate PageVisit(ptType: PageTableType, pageSize: nat, vpn: nat,
                            table0: map<nat, nat>, hits0: nat, misses0: nat, free0: nat,
                            status: Status,
                            table1: map<nat, nat>, hits1: nat, misses1: nat, free1: nat)
    requires pageSize > 0
  {
    match status
    case Done =>
      && InRange(ptType, pageSize, vpn)
      && (vpn in table0 ==> table1 == table0 && hits1 == hits0 + 1 && misses1 == misses0 && free1 == free0)
      && (vpn !in table0 ==> && vpn in table1 && table1 == table0[vpn := table1[vpn]]
                             && hits1 == hits0 && misses1 == misses0 + 1 && free1 + 1 == free0)
    case VpnOutOfRange =>
      && !InRange(ptType, pageSize, vpn)
      && table1 == table0 && hits1 == hits0 && misses1 == misses0 && free1 == free0
    case OutOfPhysicalMemory =>
      && InRange(ptType, pageSize, vpn) && vpn !in table0 && free0 == 0
      && table1 == table0 && hits1 == hits0 && misses1 == misses0 && free1 == free0
  }

  /**
   * A completed page visit extends the run of visited pages by one: the
   * mapped set becomes Seen of the longer run and the counters grow by that
   * page's hit or miss.
   */
  lemma VisitAdvances(ptType: PageTableType, pageSize: nat, known: set<nat>, vpns: seq<nat>, offset: nat,
                      table0: map<nat, nat>, hits0: nat, misses0: nat, free0: nat,
                      table1: map<nat, nat>, hits1: nat, misses1: nat, free1: nat)
    requires pageSize > 0 && offset < |vpns|
    requires PageVisit(ptType, pageSize, vpns[offset], table0, hits0, misses0, free0,
                       Done, table1, hits1, misses1, free1)
    requires table0.Keys == Seen(known, vpns[..offset])
    ensures table1.Keys == Seen(known, vpns[..offset + 1])
    ensures HitCount(known, vpns[..offset + 1]) == HitCount(known, vpns[..offset]) + (hits1 - hits0)
    ensures MissCount(known, vpns[..offset + 1]) == MissCount(known, vpns[..offset]) + (misses1 - misses0)
    ensures hits1 >= hits0 && misses1 >= misses0
    ensures free1 + |table1.Keys| == free0 + |table0.Keys|
    ensures forall v :: v in table0 ==> v in table1 && table1[v] == table0[v]
  {
    var prefix := vpns[..offset + 1];
    assert prefix[..offset] == vpns[..offset];
    assert prefix[offset] == vpns[offset];
    if vpns[offset] !in table0 {
      assert table1.Keys == table0.Keys + {vpns[offset]};
    }
  }

  /**
   * A page visit that does not complete leaves the run of visited pages as it
   * was and says why the page failed.
   */
  lemma VisitStops(ptType: PageTableType, pageSize: nat, known: set<nat>, vpns: seq<nat>, offset: nat,
                   table0: map<nat, nat>, hits0: nat, misses0: nat, free0: nat, status: Status,
                   table1: map<nat, nat>, hits1: nat, misses1: nat, free1: nat)
    requires pageSize > 0 && offset < |vpns| && status != Done
    requires PageVisit(ptType, pageSize, vpns[offset], table0, hits0, misses0, free0,
                       status, table1, hits1, misses1, free1)
    requires table0.Keys == Seen(known, vpns[..offset])
    ensures table1 == table0 && hits1 == hits0 && misses1 == misses0 && free1 == free0
    ensures status == VpnOutOfRange ==> !InRange(ptType, pageSize, vpns[offset])
    ensures status == OutOfPhysicalMemory ==>
              InRange(ptType, pageSize, vpns[offset]) && vpns[offset] !in Seen(known, vpns[..offset]) && free1 == 0
  {
  }

  // ---------------------------------------------------------------------
  // Frames: what the tables hold and what the bitmap says
  // ---------------------------------------------------------------------

  /** t1 keeps every translation of t0. */
  ghost predicate Extends(t0: map<nat, nat>, t1: map<nat, nat>)
  {
    forall v :: v in t0 ==> v in t1 && t1[v] == t0[v]
  }

  /** The frames t1 maps for pages that t0 does not map. */
  ghost function NewFrames(t0: map<nat, nat>, t1: map<nat, nat>): set<nat>
  {
    set v | v in t1 && v !in t0 :: t1[v]
  }

  /** Pages v and w of t, when both are mapped and differ, have different frames. */
  ghost predicate Apart(t: map<nat, nat>, v: nat, w: nat)
  {
    v in t && w in t && v != w ==> t[v] != t[w]
  }

  /**
   * Going from table t0 and bitmap b0 to table t1 and bitmap b1 takes frames
   * only for the newly mapped pages: each of them got a frame that was free,
   * no two of them the same one, and exactly those frames became allocated.
   */
  ghost predicate TakesFrames(t0: map<nat, nat>, b0: seq<bool>, t1: map<nat, nat>, b1: seq<bool>)
  {
    && |b1| == |b0|
    && (forall v :: v in t1 && v !in t0 ==> t1[v] < |b0| && b0[t1[v]])
    && (forall v, w {:trigger Apart(t1, v, w)} :: v !in t0 && w !in t0 ==> Apart(t1, v, w))
    && AllocatedSet(b1) == AllocatedSet(b0) + NewFrames(t0, t1)
  }

  /** A visit that maps no new page takes no frame. */
  lemma TakesNothing(t: map<nat, nat>, b: seq<bool>)
    ensures TakesFrames(t, b, t, b)
  {
    assert NewFrames(t, t) == {};
  }

  /** A miss that stores free frame f for page vpn takes exactly that frame. */
  lemma TakesOne(t0: map<nat, nat>, b0: seq<bool>, vpn: nat, f: nat)
    requires vpn !in t0 && f < |b0| && b0[f]
    ensures TakesFrames(t0, b0, t0[vpn := f], b0[f := false])
  {
    var t1 := t0[vpn := f];
    assert NewFrames(t0, t1) == {f};
    assert AllocatedSet(b0[f := false]) == AllocatedSet(b0) + {f};
  }

  /** Two steps that each take frames for their new pages take them for all the new pages. */
  lemma TakesMore(t0: map<nat, nat>, b0: seq<bool>, t1: map<nat, nat>, b1: seq<bool>, t2: map<nat, nat>, b2: seq<bool>)
    requires TakesFrames(t0, b0, t1, b1) && TakesFrames(t1, b1, t2, b2)
    requires Extends(t0, t1) && Extends(t1, t2)
    ensures TakesFrames(t0, b0, t2, b2)
  {
    forall v | v in t2 && v !in t0
      ensures t2[v] < |b0| && b0[t2[v]]
    {
      if v !in t1 {
        assert t2[v] !in AllocatedSet(b1);
      }
    }
    forall v, w | v !in t0 && w !in t0
      ensures Apart(t2, v, w)
    {
      if v in t1 && w in t1 {
        assert Apart(t1, v, w);
      } else if v in t1 && w in t2 {
        assert t2[v] in AllocatedSet(b1) && t2[w] !in AllocatedSet(b1);
      } else if v in t2 && w in t1 {
        assert t2[w] in AllocatedSet(b1) && t2[v] !in AllocatedSet(b1);
      }
    }
    assert NewFrames(t0, t2) == NewFrames(t0, t1) + NewFrames(t1, t2);
  }

  /** Every frame the table maps is allocated in the bitmap, and no two pages share one. */
  ghost predicate FramesHeld(t: map<nat, nat>, b: seq<bool>)
  {
    && (forall v :: v in t ==> t[v] < |b| && !b[t[v]])
    && (forall v, w {:trigger Apart(t, v, w)} :: Apart(t, v, w))
  }

  /** Taking frames keeps a table's frames allocated and distinct. */
  lemma FramesHeldAfter(t0: map<nat, nat>, b0: seq<bool>, t1: map<nat, nat>, b1: seq<bool>)
    requires FramesHeld(t0, b0) && TakesFrames(t0, b0, t1, b1) && Extends(t0, t1)
    ensures FramesHeld(t1, b1)
  {
    forall v | v in t1
      ensures t1[v] < |b1| && !b1[t1[v]]
    {
      if v in t0 {
        assert t1[v] in AllocatedSet(b0);
      } else {
        assert t1[v] in NewFrames(t0, t1);
      }
      assert t1[v] in AllocatedSet(b1);
    }
    forall v, w
      ensures Apart(t1, v, w)
    {
      if v in t0 && w in t0 {
        assert Apart(t0, v, w);
      } else if v in t0 && w in t1 {
        assert !b0[t1[v]] && b0[t1[w]];
      } else if v in t1 && w in t0 {
        assert b0[t1[v]] && !b0[t1[w]];
      }
    }
  }

  class Task {
    const id: string
    const ptType: PageTableType
    const pageSize: nat
    const memoryManager: MemoryManager

    var hits: nat
    var misses: nat
    /** MAP: virtual page number to frame. */
    var pageMap: map<nat, nat>
    /** SINGLE: one slot per virtual page, INVALID when unmapped. */
    var singlePt: seq<int>
    /** TWO_LEVEL: LEVEL1_SIZE slots, each absent or a LEVEL2_SIZE array of slots. */
    var twoLevelPt: seq<Option<seq<int>>>
    var allocatedSecondLevels: nat

    ghost predicate Valid()
      reads this, memoryManager
    {
      && memoryManager.Valid()
      && ValidPageSize(pageSize)
      && (ptType == SINGLE ==> |singlePt| == VirtualPages(pageSize))
      && (ptType != SINGLE ==> singlePt == [])
      && (ptType == TWO_LEVEL ==> |twoLevelPt| == LEVEL1_SIZE)
      && (forall i :: 0 <= i < |twoLevelPt| && twoLevelPt[i].Some? ==> |twoLevelPt[i].value| == LEVEL2_SIZE)
      && (ptType != TWO_LEVEL ==> twoLevelPt == [])
      && (ptType != MAP ==> pageMap == map[])
      && allocatedSecondLevels == CountSome(twoLevelPt)
    }

    /** The mapping from virtual page to frame that the active representation holds. */
    ghost function Table(): map<nat, nat>
      reads this
    {
      match ptType
      case MAP => pageMap
      case SINGLE => SingleAbs(singlePt)
      case TWO_LEVEL => TwoLevelAbs(twoLevelPt)
    }

    /** The free frames of the shared manager. */
    ghost function FreeCount(): nat
      reads this, memoryManager, memoryManager.frameBitmap
    {
      CountFree(memoryManager.Bitmap())
    }

    /**
     * A task with an empty table of the chosen kind: no entries in the map,
     * every flat slot INVALID, every second-level pointer absent.
     */
    constructor (taskId: string, tableType: PageTableType, pageSizeBytes: nat, mm: MemoryManager)
      requires ValidPageSize(pageSizeBytes) && mm.Valid()
      ensures Valid()
      ensures id == taskId && ptType == tableType && pageSize == pageSizeBytes && memoryManager == mm
      ensures hits == 0 && misses == 0 && allocatedSecondLevels == 0
      ensures Table() == map[]
      ensures tableType == SINGLE ==> singlePt == seq(VirtualPages(pageSizeBytes), _ => INVALID)
      ensures tableType == TWO_LEVEL ==> twoLevelPt == seq(LEVEL1_SIZE, _ => None)
    {
      id := taskId;
      ptType := tableType;
      pageSize := pageSizeBytes;
      memoryManager := mm;
      hits := 0;
      misses := 0;
      allocatedSecondLevels := 0;
      pageMap := map[];
      singlePt := [];
      twoLevelPt := [];
      new;
      match tableType
      case MAP =>
      case SINGLE =>
        singlePt := seq(VirtualPages(pageSizeBytes), _ => INVALID);
        SingleAbsEmpty(VirtualPages(pageSizeBytes));
      case TWO_LEVEL =>
        twoLevelPt := seq(LEVEL1_SIZE, _ => None);
        CountSomeNone(LEVEL1_SIZE);
        TwoLevelAbsEmpty(LEVEL1_SIZE);
    }

    /** map_process: look the page up in the hash map; on a miss allocate a frame and insert it. */
    method MapProcess(vpn: nat) returns (status: Status)
      requires Valid() && ptType == MAP
      modifies this, memoryManager.frameBitmap
      ensures Valid() && allocatedSecondLevels == old(allocatedSecondLevels)
      ensures PageVisit(ptType, pageSize, vpn, old(Table()), old(hits), old(misses), old(FreeCount()),
                        status, Table(), hits, misses, FreeCount())
      ensures status != VpnOutOfRange
      ensures TakesFrames(old(Table()), old(memoryManager.Bitmap()), Table(), memoryManager.Bitmap())
    {
      ghost var table0, bitmap0 := Table(), memoryManager.Bitmap();
      TakesNothing(table0, bitmap0);
      if vpn in pageMap {
        hits := hits + 1;
        return Done;
      }
      var pfn := memoryManager.AllocateFrame();
      if pfn < 0 {
        return OutOfPhysicalMemory;
      }
      pageMap := pageMap[vpn := pfn];
      TakesOne(table0, bitmap0, vpn, pfn);
      misses := misses + 1;
      return Done;
    }

    /** single_process: index the flat table; a negative slot is a miss that gets a new frame. */
    method SingleProcess(vpn: nat) returns (status: Status)
      requires Valid() && ptType == SINGLE
      modifies this, memoryManager.frameBitmap
      ensures Valid() && allocatedSecondLevels == old(allocatedSecondLevels)
      ensures PageVisit(ptType, pageSize, vpn, old(Table()), old(hits), old(misses), old(FreeCount()),
                        status, Table(), hits, misses, FreeCount())
      ensures TakesFrames(old(Table()), old(memoryManager.Bitmap()), Table(), memoryManager.Bitmap())
    {
      ghost var table0, bitmap0 := Table(), memoryManager.Bitmap();
      TakesNothing(table0, bitmap0);
      if vpn >= VirtualPages(pageSize) {
        return VpnOutOfRange;
      }
      if singlePt[vpn] >= 0 {
        hits := hits + 1;
        return Done;
      }
      var pfn := memoryManager.AllocateFrame();
      if pfn < 0 {
        return OutOfPhysicalMemory;
      }
      SingleAbsStore(singlePt, vpn, pfn);
      singlePt := singlePt[vpn := pfn];
      TakesOne(table0, bitmap0, vpn, pfn);
      misses := misses + 1;
      return Done;
    }

    /** The new second-level array of two_level_process: LEVEL2_SIZE slots, each INVALID. */
    static method NewSecondLevel() returns (second: seq<int>)
      ensures second == seq(LEVEL2_SIZE, _ => INVALID)
    {
      var a := new int[LEVEL2_SIZE];
      for i := 0 to LEVEL2_SIZE
        invariant forall j :: 0 <= j < i ==> a[j] == INVALID
      {
        a[i] := INVALID;
      }
      second := a[..];
    }

    /** The first step of two_level_process: create and count the second-level array if it is absent. */
    method EnsureSecondLevel(index1: nat)
      requires Valid() && ptType == TWO_LEVEL && index1 < LEVEL1_SIZE
      modifies this
      ensures Valid()
      ensures Table() == old(Table()) && hits == old(hits) && misses == old(misses)
      ensures twoLevelPt[index1].Some?
      ensures old(twoLevelPt)[index1].Some? ==> twoLevelPt == old(twoLevelPt)
      ensures old(twoLevelPt)[index1].None? ==>
                && twoLevelPt == old(twoLevelPt)[index1 := Some(seq(LEVEL2_SIZE, _ => INVALID))]
                && allocatedSecondLevels == old(allocatedSecondLevels) + 1
      ensures old(twoLevelPt)[index1].Some? ==> allocatedSecondLevels == old(allocatedSecondLevels)
      ensures Created(twoLevelPt) == Created(old(twoLevelPt)) + {index1}
    {
      if twoLevelPt[index1].None? {
        var second := NewSecondLevel();
        TwoLevelAbsCreate(twoLevelPt, index1);
        CountSomeCreate(twoLevelPt, index1, second);
        twoLevelPt := twoLevelPt[index1 := Some(second)];
        allocatedSecondLevels := allocatedSecondLevels + 1;
      }
      assert Created(twoLevelPt) == Created(old(twoLevelPt)) + {index1};
    }

    /**
     * two_level_process: split the page number into index1 (high bits) and
     * index2 (low LEVEL2_BITS bits); create the second-level array on first use
     * (counting it even when the frame allocation that follows fails), then
     * hit or miss on its slot.
     */
    method TwoLevelProcess(vpn: nat) returns (status: Status)
      requires Valid() && ptType == TWO_LEVEL
      modifies this, memoryManager.frameBitmap
      ensures Valid()
      ensures PageVisit(ptType, pageSize, vpn, old(Table()), old(hits), old(misses), old(FreeCount()),
                        status, Table(), hits, misses, FreeCount())
      ensures status == VpnOutOfRange ==> twoLevelPt == old(twoLevelPt)
      ensures status != VpnOutOfRange ==>
                && twoLevelPt[vpn / LEVEL2_SIZE].Some?
                && allocatedSecondLevels
                   == old(allocatedSecondLevels) + (if old(twoLevelPt)[vpn / LEVEL2_SIZE].None? then 1 else 0)
      ensures Created(twoLevelPt) == Created(old(twoLevelPt)) + CreatedBy(status, vpn)
      ensures TakesFrames(old(Table()), old(memoryManager.Bitmap()), Table(), memoryManager.Bitmap())
    {
      ghost var table0, bitmap0 := Table(), memoryManager.Bitmap();
      TakesNothing(table0, bitmap0);
      var index1 := vpn / LEVEL2_SIZE;
      var index2 := vpn % LEVEL2_SIZE;
      if index1 >= LEVEL1_SIZE {
        return VpnOutOfRange;
      }
      EnsureSecondLevel(index1);
      var second := twoLevelPt[index1].value;
      if second[index2] >= 0 {
        assert vpn in table0;
        hits := hits + 1;
        return Done;
      }
      assert vpn !in table0;
      var pfn := memoryManager.AllocateFrame();
      if pfn < 0 {
        return OutOfPhysicalMemory;
      }
      TwoLevelAbsStore(twoLevelPt, vpn, pfn);
      CountSomeReplace(twoLevelPt, index1, second[index2 := pfn]);
      CreatedReplace(twoLevelPt, index1, second[index2 := pfn]);
      twoLevelPt := twoLevelPt[index1 := Some(second[index2 := pfn])];
      TakesOne(table0, bitmap0, vpn, pfn);
      misses := misses + 1;
      return Done;
    }

    /**
     * process_request's loop after the first done pages of vpns, from a table
     * with keys known, counters hits0 and misses0, bitmap and table: the
     * counters and keys are those of the pages visited, the earlier
     * translations are kept, the frames taken are those of the new pages, and
     * every frame taken is one free frame fewer (budget). A two-level table
     * holds the arrays it had (slots) and one per directory index of the
     * first touched pages: the visited ones and the one that ran out of
     * memory after its array was created.
     */
    ghost predicate Progress(known: set<nat>, vpns: seq<nat>, done: nat, touched: nat, slots: set<nat>,
                             table: map<nat, nat>, bitmap: seq<bool>, hits0: nat, misses0: nat, budget: nat)
      reads this, memoryManager, memoryManager.frameBitmap
    {
      && Valid() && done <= touched <= |vpns|
      && (ptType == TWO_LEVEL ==> Created(twoLevelPt) == slots + DirectoryIndices(vpns[..touched]))
      && hits == hits0 + HitCount(known, vpns[..done])
      && misses == misses0 + MissCount(known, vpns[..done])
      && Table().Keys == Seen(known, vpns[..done])
      && Extends(table, Table()) && TakesFrames(table, bitmap, Table(), memoryManager.Bitmap())
      && FreeCount() + |Table().Keys| == budget
    }

    /**
     * One pass of process_request's loop, on page vpns[offset] of the request:
     * the run of visited pages grows by that page when the visit completes,
     * and the frames taken since the request began (from table and bitmap)
     * are still exactly those of the newly mapped pages.
     */
    method VisitPage(vpn: nat, ghost known: set<nat>, ghost vpns: seq<nat>, offset: nat, ghost slots: set<nat>,
                     ghost table: map<nat, nat>, ghost bitmap: seq<bool>,
                     ghost hits0: nat, ghost misses0: nat, ghost budget: nat)
        returns (status: Status, next: nat)
      requires offset < |vpns| && vpns[offset] == vpn
      requires Progress(known, vpns, offset, Touched(Done, offset), slots, table, bitmap, hits0, misses0, budget)
      modifies this, memoryManager.frameBitmap
      ensures next == if status == Done then offset + 1 else offset
      ensures Progress(known, vpns, next, Touched(status, next), slots, table, bitmap, hits0, misses0, budget)
      ensures status == VpnOutOfRange ==> !InRange(ptType, pageSize, vpn)
      ensures status == OutOfPhysicalMemory ==>
                InRange(ptType, pageSize, vpn) && vpn !in Seen(known, vpns[..offset]) && FreeCount() == 0
    {
      ghost var table0, hits1, misses1, free0 := Table(), hits, misses, FreeCount();
      ghost var bitmap0, created0 := memoryManager.Bitmap(), Created(twoLevelPt);
      status := Access(vpn);
      next := if status == Done then offset + 1 else offset;
      if ptType == TWO_LEVEL {
        CreatedAdvances(slots, vpns, offset, status, created0, Created(twoLevelPt));
      }
      TakesMore(table, bitmap, table0, bitmap0, Table(), memoryManager.Bitmap());
      if status == Done {
        VisitAdvances(ptType, pageSize, known, vpns, offset, table0, hits1, misses1, free0,
                      Table(), hits, misses, FreeCount());
      } else {
        VisitStops(ptType, pageSize, known, vpns, offset, table0, hits1, misses1, free0, status,
                   Table(), hits, misses, FreeCount());
      }
    }

    /** The switch in process_request's loop body. */
    method Access(vpn: nat) returns (status: Status)
      requires Valid()
      modifies this, memoryManager.frameBitmap
      ensures Valid()
      ensures PageVisit(ptType, pageSize, vpn, old(Table()), old(hits), old(misses), old(FreeCount()),
                        status, Table(), hits, misses, FreeCount())
      ensures Extends(old(Table()), Table())
      ensures TakesFrames(old(Table()), old(memoryManager.Bitmap()), Table(), memoryManager.Bitmap())
      ensures ptType == TWO_LEVEL ==> Created(twoLevelPt) == Created(old(twoLevelPt)) + CreatedBy(status, vpn)
    {
      match ptType
      case MAP => status := MapProcess(vpn);
      case SINGLE => status := SingleProcess(vpn);
      case TWO_LEVEL => status := TwoLevelProcess(vpn);
    }

    /**
     * process_request: visits the pages of the request in ascending order,
     * starting at the page of logicalAddress, ceil(sizeBytes / pageSize) of
     * them. The first failing page stops the request (the exception leaves
     * process_request); the pages before it keep their effects. visited is the
     * number of pages that completed.
     */
    method ProcessRequest(logicalAddress: nat, sizeBytes: nat) returns (status: Status, visited: nat)
      requires Valid()
      modifies this, memoryManager.frameBitmap
      ensures Valid()
      ensures var vpns := RequestPages(logicalAddress, sizeBytes, pageSize);
              && visited <= |vpns|
              && (status == Done <==> visited == |vpns|)
              && hits == old(hits) + HitCount(old(Table()).Keys, vpns[..visited])
              && misses == old(misses) + MissCount(old(Table()).Keys, vpns[..visited])
              && Table().Keys == Seen(old(Table()).Keys, vpns[..visited])
              && (status == VpnOutOfRange ==> !InRange(ptType, pageSize, vpns[visited]))
              && (status == OutOfPhysicalMemory ==>
                    && InRange(ptType, pageSize, vpns[visited])
                    && vpns[visited] !in Seen(old(Table()).Keys, vpns[..visited])
                    && FreeCount() == 0)
      ensures forall v :: v in old(Table()) ==> v in Table() && Table()[v] == old(Table())[v]
      ensures FreeCount() + |Table().Keys| == old(FreeCount()) + |old(Table()).Keys|
      ensures TakesFrames(old(Table()), old(memoryManager.Bitmap()), Table(), memoryManager.Bitmap())
      ensures ptType == TWO_LEVEL ==>
                var touched := RequestPages(logicalAddress, sizeBytes, pageSize)[..Touched(status, visited)];
                && Created(twoLevelPt) == Created(old(twoLevelPt)) + DirectoryIndices(touched)
                && allocatedSecondLevels == |Created(old(twoLevelPt)) + DirectoryIndices(touched)|
      ensures ptType != TWO_LEVEL ==> twoLevelPt == old(twoLevelPt)
    {
      var vpnStart := logicalAddress / pageSize;
      var numPages := PageCount(sizeBytes, pageSize);
      ghost var vpns := PageRange(vpnStart, numPages);
      assert vpns == RequestPages(logicalAddress, sizeBytes, pageSize);
      ghost var table := Table();
      ghost var known := table.Keys;
      ghost var budget := FreeCount() + |known|;
      ghost var bitmap := memoryManager.Bitmap();
      ghost var slots := Created(twoLevelPt);
      TakesNothing(table, bitmap);
      assert vpns[..0] == [];
      var offset := 0;
      status := Done;
      while offset < numPages && status == Done
        invariant 0 <= offset <= numPages == |vpns|
        invariant Progress(known, vpns, offset, Touched(status, offset), slots, table, bitmap, old(hits), old(misses), budget)
        invariant status != Done ==> offset < numPages
        invariant status == VpnOutOfRange ==> !InRange(ptType, pageSize, vpns[offset])
        invariant status == OutOfPhysicalMemory ==>
                    && InRange(ptType, pageSize, vpns[offset])
                    && vpns[offset] !in Seen(known, vpns[..offset])
                    && FreeCount() == 0
        decreases numPages - offset + (if status == Done then 1 else 0)
      {
        var vpn := Wrap64(vpnStart + offset);
        PageRangeAt(vpnStart, numPages, offset);
        status, offset := VisitPage(vpn, known, vpns, offset, slots, table, bitmap, old(hits), old(misses), budget);
      }
      if status == Done {
        assert vpns[..offset] == vpns;
      }
      visited := offset;
      if ptType == TWO_LEVEL {
        assert Created(twoLevelPt) == slots + DirectoryIndices(vpns[..Touched(status, visited)]);
        CountSomeCreated(twoLevelPt);
      }
    }

    /**
     * get_page_table_memory: MAP counts 16 bytes per mapped page, SINGLE 8
     * bytes per virtual page whatever is mapped, TWO_LEVEL 8 bytes per
     * top-level pointer plus a whole second-level array per array created.
     */
    function GetPageTableMemory(): (bytes: nat)
      reads this, memoryManager
      requires Valid()
      ensures ptType == MAP ==> bytes == 16 * |Table().Keys|
      ensures ptType == SINGLE ==> bytes == 8 * VirtualPages(pageSize)
      ensures ptType == TWO_LEVEL ==>
                && bytes == 8 * LEVEL1_SIZE + allocatedSecondLevels * (8 * LEVEL2_SIZE)
                && 8 * LEVEL1_SIZE <= bytes <= 8 * LEVEL1_SIZE + LEVEL1_SIZE * (8 * LEVEL2_SIZE)
                && bytes == 8 * LEVEL1_SIZE + |Created(twoLevelPt)| * (8 * LEVEL2_SIZE)
    {
      match ptType
      case MAP => |pageMap| * 16
      case SINGLE => VirtualPages(pageSize) * 8
      case TWO_LEVEL =>
        CountSomeCreated(twoLevelPt);
        LEVEL1_SIZE * 8 + allocatedSecondLevels * (LEVEL2_SIZE * 8)
    }
  }

  /**
   * The constructor's check: a Task exists only for a non-zero page size that
   * divides the physical memory size; otherwise invalid_argument (null here).
   */
  method NewTask(taskId: string, tableType: PageTableType, pageSizeBytes: nat, mm: MemoryManager)
    returns (t: Task?)
    requires mm.Valid()
    ensures t == null <==> !ValidPageSize(pageSizeBytes)
    ensures t != null ==> && fresh(t) && t.Valid() && t.Table() == map[] && t.hits == 0 && t.misses == 0
                          && t.id == taskId && t.ptType == tableType && t.pageSize == pageSizeBytes && t.memoryManager == mm
  {
    if pageSizeBytes == 0 || PHYSICAL_MEMORY_SIZE % pageSizeBytes != 0 {
      return null;
    }
    t := new Task(taskId, tableType, pageSizeBytes, mm);
  }

  /**
   * Runs a sequence of requests on one task, as the trace reader does when
   * every line belongs to that task. When every page is within the table's
   * range and the free frames cover every new page, every request completes
   * and the counters are the hit and miss counts of the whole trace.
   */
  method RunRequests(t: Task, requests: seq<Request>)
    requires t.Valid()
    requires forall i, v :: 0 <= i < |requests| &&
               v in RequestPages(requests[i].logicalAddress, requests[i].sizeBytes, t.pageSize)
               ==> InRange(t.ptType, t.pageSize, v)
    requires |Seen(t.Table().Keys, TracePages(requests, t.pageSize))| <= t.FreeCount() + |t.Table().Keys|
    modifies t, t.memoryManager.frameBitmap
    ensures t.Valid()
    ensures t.hits == old(t.hits) + HitCount(old(t.Table()).Keys, TracePages(requests, t.pageSize))
    ensures t.misses == old(t.misses) + MissCount(old(t.Table()).Keys, TracePages(requests, t.pageSize))
    ensures t.Table().Keys == Seen(old(t.Table()).Keys, TracePages(requests, t.pageSize))
    ensures t.ptType == TWO_LEVEL ==>
              && Created(t.twoLevelPt) == Created(old(t.twoLevelPt)) + DirectoryIndices(TracePages(requests, t.pageSize))
              && t.allocatedSecondLevels == |Created(old(t.twoLevelPt)) + DirectoryIndices(TracePages(requests, t.pageSize))|
  {
    ghost var known := t.Table().Keys;
    ghost var slots := Created(t.twoLevelPt);
    ghost var budget := t.FreeCount() + |known|;
    ghost var all := TracePages(requests, t.pageSize);
    var i := 0;
    while i < |requests|
      invariant 0 <= i <= |requests|
      invariant t.Valid()
      invariant t.hits == old(t.hits) + HitCount(known, TracePages(requests[..i], t.pageSize))
      invariant t.misses == old(t.misses) + MissCount(known, TracePages(requests[..i], t.pageSize))
      invariant t.Table().Keys == Seen(known, TracePages(requests[..i], t.pageSize))
      invariant t.FreeCount() + |t.Table().Keys| == budget
      invariant t.ptType == TWO_LEVEL ==>
                  Created(t.twoLevelPt) == slots + DirectoryIndices(TracePages(requests[..i], t.pageSize))
    {
      var r := requests[i];
      ghost var keys0, hits0, misses0 := t.Table().Keys, t.hits, t.misses;
      ghost var c0 := Created(t.twoLevelPt);
      var status, visited := t.ProcessRequest(r.logicalAddress, r.sizeBytes);
      RequestCompletes(t.ptType, requests, i, t.pageSize, known, budget, status, visited, t.FreeCount());
      AfterRequest(requests, i, t.pageSize, known, old(t.hits), old(t.misses),
                   hits0, misses0, t.hits, t.misses, t.Table().Keys, visited);
      if t.ptType == TWO_LEVEL {
        CreatedAfterRequest(requests, i, t.pageSize, slots, visited, c0, Created(t.twoLevelPt));
      }
      i := i + 1;
    }
    assert requests[..i] == requests;
    CountSomeCreated(t.twoLevelPt);
  }

  /**
   * Under RunRequests' preconditions request i cannot stop early: its pages
   * are all in range, and a page left unmapped with no free frame would mean
   * the trace needs more frames than the budget.
   */
  lemma RequestCompletes(ptType: PageTableType, requests: seq<Request>, i: nat, pageSize: nat,
                         known: set<nat>, budget: nat, status: Status, visited: nat, free: nat)
    requires pageSize > 0 && i < |requests|
    requires forall j, v :: 0 <= j < |requests| &&
               v in RequestPages(requests[j].logicalAddress, requests[j].sizeBytes, pageSize)
               ==> InRange(ptType, pageSize, v)
    requires |Seen(known, TracePages(requests, pageSize))| <= budget
    requires visited <= |RequestPages(requests[i].logicalAddress, requests[i].sizeBytes, pageSize)|
    requires var pages := RequestPages(requests[i].logicalAddress, requests[i].sizeBytes, pageSize);
             var mapped := Seen(Seen(known, TracePages(requests[..i], pageSize)), pages[..visited]);
             && (status == Done <==> visited == |pages|)
             && (status == VpnOutOfRange ==> !InRange(ptType, pageSize, pages[visited]))
             && (status == OutOfPhysicalMemory ==> pages[visited] !in mapped && free == 0)
             && free + |mapped| == budget
    ensures status == Done
  {
    if status == VpnOutOfRange {
      assert false;
    } else if status == OutOfPhysicalMemory {
      TraceFramesSuffice(requests, i, pageSize, known, visited);
      assert false;
    }
  }

  /** A completed request i extends the counts and the mapped set from requests[..i] to requests[..i + 1]. */
  lemma AfterRequest(requests: seq<Request>, i: nat, pageSize: nat, known: set<nat>, baseHits: nat, baseMisses: nat,
                     hits0: nat, misses0: nat, hits1: nat, misses1: nat, keys1: set<nat>, visited: nat)
    requires pageSize > 0 && i < |requests|
    requires hits0 == baseHits + HitCount(known, TracePages(requests[..i], pageSize))
    requires misses0 == baseMisses + MissCount(known, TracePages(requests[..i], pageSize))
    requires var pages := RequestPages(requests[i].logicalAddress, requests[i].sizeBytes, pageSize);
             var keys0 := Seen(known, TracePages(requests[..i], pageSize));
             && visited == |pages|
             && hits1 == hits0 + HitCount(keys0, pages[..visited])
             && misses1 == misses0 + MissCount(keys0, pages[..visited])
             && keys1 == Seen(keys0, pages[..visited])
    ensures hits1 == baseHits + HitCount(known, TracePages(requests[..i + 1], pageSize))
    ensures misses1 == baseMisses + MissCount(known, TracePages(requests[..i + 1], pageSize))
    ensures keys1 == Seen(known, TracePages(requests[..i + 1], pageSize))
  {
    var pages := RequestPages(requests[i].logicalAddress, requests[i].sizeBytes, pageSize);
    assert pages[..visited] == pages;
    TraceStep(requests, i, pageSize, known);
  }

  /** Request i extends the pages of the trace prefix, and the counts add up accordingly. */
  lemma TraceStep(requests: seq<Request>, i: nat, pageSize: nat, known: set<nat>)
    requires pageSize > 0 && i < |requests|
    ensures var before := TracePages(requests[..i], pageSize);
            var pages := RequestPages(requests[i].logicalAddress, requests[i].sizeBytes, pageSize);
            var after := TracePages(requests[..i + 1], pageSize);
            && Seen(known, after) == Seen(Seen(known, before), pages)
            && HitCount(known, after) == HitCount(known, before) + HitCount(Seen(known, before), pages)
            && MissCount(known, after) == MissCount(known, before) + MissCount(Seen(known, before), pages)
  {
    var before := TracePages(requests[..i], pageSize);
    var pages := RequestPages(requests[i].logicalAddress, requests[i].sizeBytes, pageSize);
    assert requests[..i + 1][..i] == requests[..i];
    assert TracePages(requests[..i + 1], pageSize) == before + pages;
    CountsAppend(known, before, pages);
  }

  /**
   * A completed request i that adds the directory indices of its pages to
   * the arrays held extends them from the indices of the trace before it to
   * those of the trace up to and including it.
   */
  lemma CreatedAfterRequest(requests: seq<Request>, i: nat, pageSize: nat, slots: set<nat>, visited: nat,
                            c0: set<nat>, c1: set<nat>)
    requires pageSize > 0 && i < |requests|
    requires var pages := RequestPages(requests[i].logicalAddress, requests[i].sizeBytes, pageSize);
             && visited == |pages|
             && c0 == slots + DirectoryIndices(TracePages(requests[..i], pageSize))
             && c1 == c0 + DirectoryIndices(pages[..visited])
    ensures c1 == slots + DirectoryIndices(TracePages(requests[..i + 1], pageSize))
  {
    var pages := RequestPages(requests[i].logicalAddress, requests[i].sizeBytes, pageSize);
    assert pages[..visited] == pages;
    assert requests[..i + 1][..i] == requests[..i];
    DirectoryIndicesAppend(TracePages(requests[..i], pageSize), pages);
  }

  /** FramesSuffice for request i of a trace, the pages before it and the whole trace. */
  lemma TraceFramesSuffice(requests: seq<Request>, i: nat, pageSize: nat, known: set<nat>, visited: nat)
    requires pageSize > 0 && i < |requests|
    requires var pages := RequestPages(requests[i].logicalAddress, requests[i].sizeBytes, pageSize);
             && visited < |pages|
             && pages[visited] !in Seen(Seen(known, TracePages(requests[..i], pageSize)), pages[..visited])
    ensures var pages := RequestPages(requests[i].logicalAddress, requests[i].sizeBytes, pageSize);
            |Seen(Seen(known, TracePages(requests[..i], pageSize)), pages[..visited])|
            < |Seen(known, TracePages(requests, pageSize))|
  {
    var before := TracePages(requests[..i], pageSize);
    var pages := RequestPages(requests[i].logicalAddress, requests[i].sizeBytes, pageSize);
    var all := TracePages(requests, pageSize);
    forall w | w in before
      ensures w in all
    {
      TracePagesPrefix(requests, i, pageSize, w);
    }
    forall w | w in pages
      ensures w in all
    {
      TracePagesMember(requests, pageSize, i, w);
    }
    FramesSuffice(known, before, pages, visited, all);
  }

  /**
   * A page that is new part-way through a trace leaves room for it: while
   * some page of the trace is still unmapped, the pages mapped so far are
   * fewer than the distinct pages of the whole trace.
   */
  lemma FramesSuffice(known: set<nat>, before: seq<nat>, pages: seq<nat>, visited: nat, all: seq<nat>)
    requires visited < |pages|
    requires forall w :: w in before ==> w in all
    requires forall w :: w in pages ==> w in all
    requires pages[visited] !in Seen(Seen(known, before), pages[..visited])
    ensures |Seen(Seen(known, before), pages[..visited])| < |Seen(known, all)|
  {
    var done := pages[..visited + 1];
    assert done[..visited] == pages[..visited];
    MissesAreNewPages(Seen(known, before), done);
    MissesAreNewPages(Seen(known, before), pages[..visited]);
    var grown := Seen(Seen(known, before), done);
    forall w | w in grown
      ensures w in Seen(known, all)
    {
      if w !in known && w !in before {
        assert w in done;
        var k :| 0 <= k < |done| && done[k] == w;
        assert w in pages;
      }
    }
    SubsetCard(grown, Seen(known, all));
  }

  lemma {:induction false} TracePagesPrefix(requests: seq<Request>, i: nat, pageSize: nat, w: nat)
    requires pageSize > 0 && i <= |requests|
    requires w in TracePages(requests[..i], pageSize)
    ensures w in TracePages(requests, pageSize)
    decreases i
  {
    var p := requests[..i];
    if i > 0 {
      var last := p[|p| - 1];
      assert p[..|p| - 1] == requests[..i - 1];
      if w in TracePages(requests[..i - 1], pageSize) {
        TracePagesPrefix(requests, i - 1, pageSize, w);
      } else {
        TracePagesMember(requests, pageSize, i - 1, w);
      }
    }
  }

  /**
   * The three page-table strategies agree: on 4 KB pages, with every visited
   * page number below 2^20 and at most as many distinct pages as there are
   * frames, running the same requests on a MAP, a SINGLE and a TWO_LEVEL task
   * (each with its own allocator, as a benchmark run sets them up) gives the
   * same hits and the same misses.
   */
  method StrategiesAgree(requests: seq<Request>)
      returns (mapHits: nat, mapMisses: nat, singleHits: nat, singleMisses: nat,
               twoLevelHits: nat, twoLevelMisses: nat)
    requires forall i, v :: 0 <= i < |requests| &&
               v in RequestPages(requests[i].logicalAddress, requests[i].sizeBytes, PAGE_SIZE_2)
               ==> v < LEVEL1_SIZE * LEVEL2_SIZE
    requires |Seen({}, TracePages(requests, PAGE_SIZE_2))| <= PHYSICAL_MEMORY_SIZE / PAGE_SIZE_2
    ensures mapHits == singleHits == twoLevelHits == HitCount({}, TracePages(requests, PAGE_SIZE_2))
    ensures mapMisses == singleMisses == twoLevelMisses == MissCount({}, TracePages(requests, PAGE_SIZE_2))
  {
    var memory;
    mapHits, mapMisses, memory := RunFresh(MAP, requests);
    singleHits, singleMisses, memory := RunFresh(SINGLE, requests);
    twoLevelHits, twoLevelMisses, memory := RunFresh(TWO_LEVEL, requests);
  }

  /**
   * A fresh allocator and a fresh task of the given kind on 4 KB pages, then
   * the requests; memory is get_page_table_memory afterwards: 16 bytes per
   * distinct page for MAP, the whole flat table for SINGLE, and for
   * TWO_LEVEL the directory plus one second-level array per distinct
   * directory index the trace touched.
   */
  method RunFresh(tableType: PageTableType, requests: seq<Request>) returns (hits: nat, misses: nat, memory: nat)
    requires forall i, v :: 0 <= i < |requests| &&
               v in RequestPages(requests[i].logicalAddress, requests[i].sizeBytes, PAGE_SIZE_2)
               ==> v < LEVEL1_SIZE * LEVEL2_SIZE
    requires |Seen({}, TracePages(requests, PAGE_SIZE_2))| <= PHYSICAL_MEMORY_SIZE / PAGE_SIZE_2
    ensures hits == HitCount({}, TracePages(requests, PAGE_SIZE_2))
    ensures misses == MissCount({}, TracePages(requests, PAGE_SIZE_2))
    ensures tableType == MAP ==> memory == 16 * |Seen({}, TracePages(requests, PAGE_SIZE_2))|
    ensures tableType == SINGLE ==> memory == 8 * LEVEL1_SIZE * LEVEL2_SIZE
    ensures tableType == TWO_LEVEL ==>
              memory == 8 * LEVEL1_SIZE + 8 * LEVEL2_SIZE * |DirectoryIndices(TracePages(requests, PAGE_SIZE_2))|
  {
    ConfiguredPageSizesValid();
    var mm := new MemoryManager(PAGE_SIZE_2);
    var t := new Task("T", tableType, PAGE_SIZE_2, mm);
    assert t.Table().Keys == {};
    forall i, v | 0 <= i < |requests| &&
                  v in RequestPages(requests[i].logicalAddress, requests[i].sizeBytes, PAGE_SIZE_2)
      ensures InRange(t.ptType, t.pageSize, v)
    {
      InRangeOf4K(tableType, v);
    }
    assert Created(t.twoLevelPt) == {};
    RunRequests(t, requests);
    memory := t.GetPageTableMemory();
    return t.hits, t.misses, memory;
  }

  /** On 4 KB pages every strategy holds exactly the page numbers below 2^20. */
  lemma InRangeOf4K(tableType: PageTableType, vpn: nat)
    ensures vpn < LEVEL1_SIZE * LEVEL2_SIZE ==> InRange(tableType, PAGE_SIZE_2, vpn)
    ensures tableType != MAP ==> (InRange(tableType, PAGE_SIZE_2, vpn) ==> vpn < LEVEL1_SIZE * LEVEL2_SIZE)
  {
  }
}
