/**
 * The reference behaviour of the IO module's run loop, independent of Task
 * objects: which request each trace line carries, and the fold over the lines
 * that maps each task id to the pages its requests visit, in file order.
 */
module IoSpec {
  import opened Common
  import opened Config
  import opened Translation
  import opened FrameAllocator
  import opened Tasks
  import opened TraceFormat

  /** The request a trace line carries, or None for a skipped or malformed line. */
  function LineRequest(line: string): (r: Option<TraceRequest>)
    ensures IsSkippedLine(line) ==> r.None?
    ensures r.Some? ==> r == ParseLine(Trim(line))
  {
    if IsSkippedLine(line) then None else ParseLine(Trim(line))
  }

  /** The pages recorded for id so far, none for an id not yet seen. */
  function Prior(visits: map<string, seq<nat>>, id: string): seq<nat>
  {
    if id in visits then visits[id] else []
  }

  /** One line of the fold: a request appends its pages to its task's run; no request changes nothing. */
  function VisitRequest(visits: map<string, seq<nat>>, request: Option<TraceRequest>, pageSize: nat)
    : (v: map<string, seq<nat>>)
    requires pageSize > 0
  {
    match request
    case None => visits
    case Some(r) =>
      visits[r.taskId := Prior(visits, r.taskId) + RequestPages(r.logicalAddress, r.sizeBytes, pageSize)]
  }

  /** The pages each task visits when every line completes, starting from start. */
  function Visits(lines: seq<string>, pageSize: nat, start: map<string, seq<nat>>): map<string, seq<nat>>
    requires pageSize > 0
  {
    if lines == [] then start
    else VisitRequest(Visits(lines[..|lines| - 1], pageSize, start), LineRequest(lines[|lines| - 1]), pageSize)
  }

  /** The task id a line's request names, if it carries one. */
  function IdOf(request: Option<TraceRequest>): (ids: set<string>)
    ensures |ids| <= 1 && (request.Some? <==> ids != {})
  {
    match request
    case None => {}
    case Some(r) => {r.taskId}
  }

  /** The task ids of the well-formed lines. */
  function TaskIds(lines: seq<string>): set<string>
  {
    if lines == [] then {}
    else TaskIds(lines[..|lines| - 1]) + IdOf(LineRequest(lines[|lines| - 1]))
  }

  /** Folding one more line adds the id its request names. */
  lemma TaskIdsStep(lines: seq<string>, i: nat)
    requires i < |lines|
    ensures TaskIds(lines[..i + 1]) == TaskIds(lines[..i]) + IdOf(LineRequest(lines[i]))
  {
    assert lines[..i + 1][..i] == lines[..i];
  }

  /** The request a line carries for task id, as a sequence of zero or one requests. */
  function Own(request: Option<TraceRequest>, id: string): (rs: seq<Request>)
    ensures |rs| <= 1
    ensures |rs| == 1 <==> request.Some? && request.value.taskId == id
  {
    match request
    case Some(r) => if r.taskId == id then [Request(r.logicalAddress, r.sizeBytes)] else []
    case None => []
  }

  /** The requests of the well-formed lines of task id, in file order. */
  function RequestsOf(lines: seq<string>, id: string): seq<Request>
  {
    if lines == [] then []
    else RequestsOf(lines[..|lines| - 1], id) + Own(LineRequest(lines[|lines| - 1]), id)
  }

  /**
   * One line moves task id's run on by the pages of the request the line
   * carries for id, and by nothing when it carries none for id.
   */
  lemma VisitRequestPrior(before: map<string, seq<nat>>, request: Option<TraceRequest>, pageSize: nat, id: string,
                          rs: seq<Request>)
    requires pageSize > 0 && Prior(before, id) == TracePages(rs, pageSize)
    ensures Prior(VisitRequest(before, request, pageSize), id) == TracePages(rs + Own(request, id), pageSize)
  {
    match request
    case None =>
      assert rs + Own(request, id) == rs;
    case Some(r) =>
      if r.taskId == id {
        var q := Request(r.logicalAddress, r.sizeBytes);
        assert (rs + [q])[..|rs|] == rs;
      } else {
        assert rs + Own(request, id) == rs;
      }
  }

  /** From no tasks, the fold holds a run exactly for the ids of the well-formed lines. */
  lemma {:induction false} VisitsKeys(lines: seq<string>, pageSize: nat)
    requires pageSize > 0
    ensures Visits(lines, pageSize, map[]).Keys == TaskIds(lines)
    decreases |lines|
  {
    if lines != [] {
      var prefix := lines[..|lines| - 1];
      VisitsKeys(prefix, pageSize);
      var before := Visits(prefix, pageSize, map[]);
      var request := LineRequest(lines[|lines| - 1]);
      assert Visits(lines, pageSize, map[]) == VisitRequest(before, request, pageSize);
    }
  }

  /**
   * Dispatch: from no tasks, each task's run is the pages of its own
   * requests, in file order.
   */
  lemma {:induction false} VisitsPerTask(lines: seq<string>, pageSize: nat, id: string)
    requires pageSize > 0
    ensures Prior(Visits(lines, pageSize, map[]), id) == TracePages(RequestsOf(lines, id), pageSize)
    decreases |lines|
  {
    if lines != [] {
      var prefix := lines[..|lines| - 1];
      VisitsPerTask(prefix, pageSize, id);
      VisitRequestPrior(Visits(prefix, pageSize, map[]), LineRequest(lines[|lines| - 1]), pageSize, id,
                        RequestsOf(prefix, id));
    }
  }

  /** Folding one more line is visiting the request it carries. */
  lemma VisitsStep(lines: seq<string>, i: nat, pageSize: nat, start: map<string, seq<nat>>)
    requires pageSize > 0 && i < |lines|
    ensures Visits(lines[..i + 1], pageSize, start)
            == VisitRequest(Visits(lines[..i], pageSize, start), LineRequest(lines[i]), pageSize)
  {
    assert lines[..i + 1][..i] == lines[..i];
  }

  /** A line that carries no request leaves the fold as it was. */
  lemma VisitsSkip(lines: seq<string>, pageSize: nat, start: map<string, seq<nat>>, line: string)
    requires pageSize > 0 && LineRequest(line).None?
    ensures Visits(lines + [line], pageSize, start) == Visits(lines, pageSize, start)
  {
    assert (lines + [line])[..|lines|] == lines;
  }

  /** How one line ends in run. */
  datatype LineOutcome =
    | Handled                                        // skipped, rejected, or every page visited
    | TaskRejected                                   // the Task constructor threw invalid_argument
    | RequestFailed(reason: Status, pagesDone: nat)  // process_request threw part-way

  /** How run ends: after the last line, or at the line whose processing threw. */
  datatype RunOutcome = Completed | Stopped(line: nat, outcome: LineOutcome)

  /**
   * What one line does to the runs, by how it ended: the runs after the line,
   * or None when the line cannot end that way. A line without a request
   * changes nothing. A handled request appends all of its pages to its task's
   * run. A task that cannot be created (the page size is invalid) changes
   * nothing. A failed request keeps the pages before the failing one, and the
   * failing page is out of range, or unmapped when no frame was free.
   */
  ghost function LineAfter(ptType: PageTableType, pageSize: nat, before: map<string, seq<nat>>,
                           request: Option<TraceRequest>, outcome: LineOutcome): Option<map<string, seq<nat>>>
  {
    match outcome
    case Handled =>
      if request.None? then Some(before)
      else if ValidPageSize(pageSize) then Some(VisitRequest(before, request, pageSize))
      else None
    case TaskRejected =>
      if request.Some? && request.value.taskId !in before && !ValidPageSize(pageSize) then Some(before)
      else None
    case RequestFailed(reason, n) =>
      if request.None? || !ValidPageSize(pageSize) then None
      else
        var r := request.value;
        var pages := RequestPages(r.logicalAddress, r.sizeBytes, pageSize);
        var prior := Prior(before, r.taskId);
        if && reason != Done && n < |pages|
           && (reason == VpnOutOfRange ==> !InRange(ptType, pageSize, pages[n]))
           && (reason == OutOfPhysicalMemory ==>
                 InRange(ptType, pageSize, pages[n]) && pages[n] !in Seen({}, prior + pages[..n]))
        then Some(before[r.taskId := prior + pages[..n]])
        else None
  }

  /**
   * Task t was built for id with the given settings and allocator, and its
   * mapped pages and counters are those a fresh task reaches by visiting run.
   */
  ghost predicate Tracks(t: Task, id: string, ptType: PageTableType, pageSize: nat, mm: MemoryManager, run: seq<nat>)
    reads t, mm
  {
    && t.memoryManager == mm && t.Valid()
    && t.id == id && t.ptType == ptType && t.pageSize == pageSize
    && t.Table().Keys == Seen({}, run) && t.hits == HitCount({}, run) && t.misses == MissCount({}, run)
  }

  // ---------------------------------------------------------------------
  // The frames of all tasks sharing one allocator
  // ---------------------------------------------------------------------

  /** Every frame any task's table maps. */
  ghost function FramesOf(tables: map<string, map<nat, nat>>): set<nat>
  {
    set id, v | id in tables && v in tables[id] :: tables[id][v]
  }

  /** Tasks a and c, when they are two different tasks, map no frame in common. */
  ghost predicate Separate(tables: map<string, map<nat, nat>>, a: string, c: string)
  {
    a in tables && c in tables && a != c ==> tables[a].Values !! tables[c].Values
  }

  /**
   * The frames the tasks' tables map, one allocator's bitmap b and the frames
   * foreign that were allocated before any task existed: every table holds
   * its frames (allocated, one page per frame), no two tasks share a frame,
   * and the allocated frames are exactly the foreign ones plus the tasks'.
   */
  ghost predicate FramesAccounted(tables: map<string, map<nat, nat>>, b: seq<bool>, foreign: set<nat>)
  {
    && (forall id {:trigger FramesHeld(tables[id], b)} :: id in tables ==> FramesHeld(tables[id], b))
    && (forall a, c {:trigger Separate(tables, a, c)} :: Separate(tables, a, c))
    && foreign !! FramesOf(tables)
    && AllocatedSet(b) == foreign + FramesOf(tables)
  }

  /** A new task with an empty table changes no frame. */
  lemma FramesAdd(tables: map<string, map<nat, nat>>, b: seq<bool>, foreign: set<nat>, id: string)
    requires FramesAccounted(tables, b, foreign) && id !in tables
    ensures FramesAccounted(tables[id := map[]], b, foreign)
  {
    var after := tables[id := map[]];
    assert FramesOf(after) == FramesOf(tables) by {
      forall f | f in FramesOf(after)
        ensures f in FramesOf(tables)
      {
        var x, v :| x in after && v in after[x] && after[x][v] == f;
        assert x in tables && v in tables[x];
      }
      forall f | f in FramesOf(tables)
        ensures f in FramesOf(after)
      {
        var x, v :| x in tables && v in tables[x] && tables[x][v] == f;
        assert x in after && v in after[x] && after[x][v] == f;
      }
    }
    forall a, c
      ensures Separate(after, a, c)
    {
      assert Separate(tables, a, c);
    }
  }

  /** The frames one task maps are among the frames of all tasks. */
  lemma ValuesInFrames(tables: map<string, map<nat, nat>>, id: string)
    requires id in tables
    ensures tables[id].Values <= FramesOf(tables)
  {
    forall f | f in tables[id].Values
      ensures f in FramesOf(tables)
    {
      var v :| v in tables[id] && tables[id][v] == f;
    }
  }

  /** Adding the translations of t1 that t0 lacks adds exactly their frames. */
  lemma FramesOfUpdate(tables: map<string, map<nat, nat>>, id: string, t1: map<nat, nat>)
    requires id in tables && Extends(tables[id], t1)
    ensures FramesOf(tables[id := t1]) == FramesOf(tables) + NewFrames(tables[id], t1)
  {
    var after := tables[id := t1];
    forall f | f in FramesOf(after)
      ensures f in FramesOf(tables) + NewFrames(tables[id], t1)
    {
      var x, v :| x in after && v in after[x] && after[x][v] == f;
      if x == id && v !in tables[id] {
        assert f in NewFrames(tables[id], t1);
      } else {
        assert x in tables && v in tables[x] && tables[x][v] == f;
      }
    }
    forall f | f in FramesOf(tables)
      ensures f in FramesOf(after)
    {
      var x, v :| x in tables && v in tables[x] && tables[x][v] == f;
      assert x in after && v in after[x] && after[x][v] == f;
    }
    forall f | f in NewFrames(tables[id], t1)
      ensures f in FramesOf(after)
    {
      var v :| v in t1 && v !in tables[id] && t1[v] == f;
      assert id in after && v in after[id];
    }
  }

  /**
   * One task taking frames for its new pages keeps the frames accounted:
   * the frames it took were free, so no other task and no foreign use holds them.
   */
  lemma FramesServe(tables: map<string, map<nat, nat>>, b0: seq<bool>, foreign: set<nat>,
                    id: string, t1: map<nat, nat>, b1: seq<bool>)
    requires FramesAccounted(tables, b0, foreign) && id in tables
    requires TakesFrames(tables[id], b0, t1, b1) && Extends(tables[id], t1)
    ensures FramesAccounted(tables[id := t1], b1, foreign)
  {
    var after := tables[id := t1];
    var taken := NewFrames(tables[id], t1);
    assert taken !! AllocatedSet(b0) by {
      forall f | f in taken
        ensures f !in AllocatedSet(b0)
      {
        var v :| v in t1 && v !in tables[id] && t1[v] == f;
      }
    }
    FramesOfUpdate(tables, id, t1);
    FramesHeldAfter(tables[id], b0, t1, b1);
    forall x | x in after
      ensures FramesHeld(after[x], b1)
    {
      if x != id {
        assert FramesHeld(tables[x], b0);
        forall v | v in tables[x]
          ensures tables[x][v] < |b1| && !b1[tables[x][v]]
        {
          assert tables[x][v] in AllocatedSet(b0);
          assert tables[x][v] in AllocatedSet(b1);
        }
      }
    }
    forall a, c
      ensures Separate(after, a, c)
    {
      if a in after && c in after && a != c {
        assert Separate(tables, a, c);
        if a == id || c == id {
          var other := if a == id then c else a;
          assert Separate(tables, id, other);
          forall f | f in t1.Values
            ensures f !in tables[other].Values
          {
            var v :| v in t1 && t1[v] == f;
            if v in tables[id] {
              assert f in tables[id].Values;
            } else {
              assert f in taken;
              ValuesInFrames(tables, other);
            }
          }
        }
      }
    }
  }

  /**
   * Frame uniqueness: with no frame allocated before the tasks, the frames
   * the tasks map are exactly the allocated frames of the bitmap, so none of
   * them is marked free, and there are total minus free of them.
   */
  lemma FrameUniqueness(tables: map<string, map<nat, nat>>, b: seq<bool>)
    requires FramesAccounted(tables, b, {})
    ensures forall f: nat :: f in FramesOf(tables) <==> f < |b| && !b[f]
    ensures |FramesOf(tables)| == |b| - CountFree(b)
  {
    AllocatedCount(b);
  }

  /** Recording a value twice under one key keeps the second. */
  lemma UpdateTwice<K, V>(m: map<K, V>, k: K, a: V, b: V)
    ensures m[k := a][k := b] == m[k := b]
  {
  }
}
