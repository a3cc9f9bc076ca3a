/**
 * The IO module's run loop: trace lines are read in order; a line that is
 * blank once trimmed or starts with '#' is skipped, a line parse_line rejects
 * is skipped, and every other line goes to the Task named by its id, which is
 * created with the module's page-table type and page size the first time the
 * id is seen. A Task that throws (no free frame, page out of range) or cannot
 * be created (invalid page size) ends the run.
 *
 * Each method is proved against the fold of module IoSpec.
 */
module IoModule {
  import opened Common
  import opened Config
  import opened Translation
  import opened FrameAllocator
  import opened Tasks
  import opened TraceFormat
  import opened IoSpec

  /**
   * One request on a task that tracks run: the task then tracks run extended
   * by the pages the request completed.
   */
  method Serve(t: Task, ghost id: string, ghost ptType: PageTableType, ghost pageSize: nat, ghost mm: MemoryManager,
               ghost run: seq<nat>, logicalAddress: nat, sizeBytes: nat)
      returns (status: Status, n: nat)
    requires Tracks(t, id, ptType, pageSize, mm, run)
    modifies t, mm.frameBitmap
    ensures pageSize > 0 && n <= |RequestPages(logicalAddress, sizeBytes, pageSize)|
    ensures Tracks(t, id, ptType, pageSize, mm, run + RequestPages(logicalAddress, sizeBytes, pageSize)[..n])
    ensures var pages := RequestPages(logicalAddress, sizeBytes, pageSize);
            && (status == Done ==> n == |pages| && pages[..n] == pages)
            && (status != Done ==> n < |pages|)
            && (status == VpnOutOfRange ==> !InRange(ptType, pageSize, pages[n]))
            && (status == OutOfPhysicalMemory ==>
                  InRange(ptType, pageSize, pages[n]) && pages[n] !in Seen({}, run + pages[..n]))
    ensures Extends(old(t.Table()), t.Table())
    ensures TakesFrames(old(t.Table()), old(mm.Bitmap()), t.Table(), mm.Bitmap())
  {
    status, n := t.ProcessRequest(logicalAddress, sizeBytes);
    ghost var pages := RequestPages(logicalAddress, sizeBytes, pageSize);
    CountsAppend({}, run, pages[..n]);
    if status == Done {
      assert pages[..n] == pages;
    }
  }

  class IOModule {
    const ptType: PageTableType
    const pageSize: nat
    const memoryManager: MemoryManager
    /** Task id to its Task, filled as ids are first seen. */
    var tasks: map<string, Task>
    /** The frames that were already allocated when the module was built. */
    ghost const foreign: set<nat>
    /** Each task's page table, by task id. */
    ghost var pageTables: map<string, map<nat, nat>>

    /**
     * Every task tracks the run recorded for its id in visited, so tasks are
     * distinct objects (each one's id is its key); there are tasks only when
     * the page size is valid; pageTables holds each task's page table.
     */
    ghost predicate Tracked(visited: map<string, seq<nat>>)
      reads this, memoryManager, tasks.Values
    {
      && memoryManager.Valid()
      && tasks.Keys == visited.Keys && pageTables.Keys == tasks.Keys
      && (tasks == map[] || ValidPageSize(pageSize))
      && (forall id {:trigger Tracks(tasks[id], id, ptType, pageSize, memoryManager, visited[id])} ::
            id in tasks ==>
              Tracks(tasks[id], id, ptType, pageSize, memoryManager, visited[id]) && tasks[id].Table() == pageTables[id])
    }

    /**
     * The tasks are tracked, and the frames their tables map are accounted
     * for in the shared bitmap, as FramesAccounted says.
     */
    ghost predicate Valid(visited: map<string, seq<nat>>)
      reads this, memoryManager, memoryManager.frameBitmap, tasks.Values
    {
      Tracked(visited) && FramesAccounted(pageTables, memoryManager.Bitmap(), foreign)
    }

    constructor (tableType: PageTableType, pageSizeBytes: nat, mm: MemoryManager)
      requires mm.Valid()
      ensures Valid(map[]) && tasks == map[] && pageTables == map[]
      ensures ptType == tableType && pageSize == pageSizeBytes && memoryManager == mm
      ensures foreign == AllocatedSet(mm.Bitmap())
    {
      ptType := tableType;
      pageSize := pageSizeBytes;
      memoryManager := mm;
      tasks := map[];
      foreign := AllocatedSet(mm.Bitmap());
      pageTables := map[];
      new;
      assert FramesOf(pageTables) == {};
    }

    /**
     * The body of run's loop for a line that carries request (None for a
     * skipped or malformed line), from the runs so far (visited) to the runs
     * after the line. Tasks that existed keep their identity; a new entry is a
     * freshly created Task.
     */
    method RunLine(request: Option<TraceRequest>, ghost visited: map<string, seq<nat>>)
        returns (outcome: LineOutcome, ghost visited': map<string, seq<nat>>)
      requires Valid(visited)
      modifies this`tasks, this`pageTables, tasks.Values, memoryManager.frameBitmap
      ensures Valid(visited')
      ensures forall id :: id in old(tasks) ==> id in tasks && tasks[id] == old(tasks)[id]
      ensures forall id :: id in tasks && id !in old(tasks) ==> fresh(tasks[id])
      ensures LineAfter(ptType, pageSize, visited, request, outcome) == Some(visited')
    {
      visited' := visited;
      if request.None? {
        return Handled, visited';
      }
      var r := request.value;
      ghost var prior := Prior(visited, r.taskId);
      ghost var before := visited;
      if r.taskId !in tasks {
        var created;
        created, before := AddTask(r.taskId, visited);
        if !created {
          return TaskRejected, visited';
        }
      }
      var status, n, after := Dispatch(r, before);
      ghost var pages := RequestPages(r.logicalAddress, r.sizeBytes, pageSize);
      UpdateTwice(visited, r.taskId, [], prior + pages[..n]);
      visited' := visited[r.taskId := prior + pages[..n]];
      assert after == visited';
      outcome := if status == Done then Handled else RequestFailed(status, n);
    }

    /**
     * The Task constructor for a new id: with a valid page size a fresh,
     * empty task is stored under the id; otherwise nothing changes.
     */
    method AddTask(id: string, ghost visited: map<string, seq<nat>>)
        returns (created: bool, ghost visited': map<string, seq<nat>>)
      requires Valid(visited) && id !in tasks
      modifies this`tasks, this`pageTables
      ensures created <==> ValidPageSize(pageSize)
      ensures created ==> visited' == visited[id := []] && Valid(visited') && id in tasks && fresh(tasks[id])
      ensures !created ==> tasks == old(tasks) && pageTables == old(pageTables)
      ensures forall x :: x in old(tasks) ==> x in tasks && tasks[x] == old(tasks)[x]
      ensures forall x :: x in tasks && x !in old(tasks) ==> x == id
    {
      visited' := visited[id := []];
      var t := NewTask(id, ptType, pageSize, memoryManager);
      if t == null {
        return false, visited';
      }
      tasks := tasks[id := t];
      FramesAdd(pageTables, memoryManager.Bitmap(), foreign, id);
      pageTables := pageTables[id := map[]];
      assert Tracks(t, id, ptType, pageSize, memoryManager, visited'[id]);
      assert visited'.Keys == tasks.Keys && pageTables.Keys == tasks.Keys;
      forall x | x in tasks && x != id
        ensures Tracks(tasks[x], x, ptType, pageSize, memoryManager, visited'[x])
        ensures tasks[x].Table() == pageTables[x]
      {
        ghost var u := tasks[x];
        assert old(Tracks(u, x, ptType, pageSize, memoryManager, visited[x]));
        assert visited'[x] == visited[x] && pageTables[x] == old(pageTables)[x];
      }
      return true, visited';
    }

    /**
     * tasks[task_id]->process_request(logical, size_bytes) for a task that
     * exists: that task moves on by the pages the request completed, and every
     * other task is as it was.
     */
    method Dispatch(r: TraceRequest, ghost visited: map<string, seq<nat>>)
        returns (status: Status, n: nat, ghost visited': map<string, seq<nat>>)
      requires Valid(visited) && r.taskId in tasks
      modifies this`pageTables, tasks[r.taskId], memoryManager.frameBitmap
      ensures ValidPageSize(pageSize) && n <= |RequestPages(r.logicalAddress, r.sizeBytes, pageSize)|
      ensures visited' == visited[r.taskId := visited[r.taskId] + RequestPages(r.logicalAddress, r.sizeBytes, pageSize)[..n]]
      ensures Valid(visited')
      ensures var pages := RequestPages(r.logicalAddress, r.sizeBytes, pageSize);
              var run := visited[r.taskId];
              && (status == Done ==> n == |pages| && pages[..n] == pages)
              && (status != Done ==> n < |pages|)
              && (status == VpnOutOfRange ==> !InRange(ptType, pageSize, pages[n]))
              && (status == OutOfPhysicalMemory ==>
                    InRange(ptType, pageSize, pages[n]) && pages[n] !in Seen({}, run + pages[..n]))
    {
      ghost var tables, bitmap := pageTables, memoryManager.Bitmap();
      status, n, visited' := DispatchTracked(r, visited);
      FramesServe(tables, bitmap, foreign, r.taskId, pageTables[r.taskId], memoryManager.Bitmap());
    }

    /**
     * Dispatch without the frame accounting: the task of the request serves
     * it, pageTables records its new table, and the frames it took are the
     * ones TakesFrames describes.
     */
    method DispatchTracked(r: TraceRequest, ghost visited: map<string, seq<nat>>)
        returns (status: Status, n: nat, ghost visited': map<string, seq<nat>>)
      requires Tracked(visited) && r.taskId in tasks
      modifies this`pageTables, tasks[r.taskId], memoryManager.frameBitmap
      ensures ValidPageSize(pageSize) && n <= |RequestPages(r.logicalAddress, r.sizeBytes, pageSize)|
      ensures visited' == visited[r.taskId := visited[r.taskId] + RequestPages(r.logicalAddress, r.sizeBytes, pageSize)[..n]]
      ensures Tracked(visited')
      ensures pageTables == old(pageTables)[r.taskId := pageTables[r.taskId]]
      ensures Extends(old(pageTables)[r.taskId], pageTables[r.taskId])
      ensures TakesFrames(old(pageTables)[r.taskId], old(memoryManager.Bitmap()), pageTables[r.taskId], memoryManager.Bitmap())
      ensures var pages := RequestPages(r.logicalAddress, r.sizeBytes, pageSize);
              var run := visited[r.taskId];
              && (status == Done ==> n == |pages| && pages[..n] == pages)
              && (status != Done ==> n < |pages|)
              && (status == VpnOutOfRange ==> !InRange(ptType, pageSize, pages[n]))
              && (status == OutOfPhysicalMemory ==>
                    InRange(ptType, pageSize, pages[n]) && pages[n] !in Seen({}, run + pages[..n]))
    {
      var t := tasks[r.taskId];
      ghost var run := visited[r.taskId];
      assert Tracks(t, r.taskId, ptType, pageSize, memoryManager, run);
      status, n := Serve(t, r.taskId, ptType, pageSize, memoryManager, run, r.logicalAddress, r.sizeBytes);
      pageTables := pageTables[r.taskId := t.Table()];
      visited' := visited[r.taskId := run + RequestPages(r.logicalAddress, r.sizeBytes, pageSize)[..n]];
      assert visited'.Keys == visited.Keys && pageTables.Keys == old(pageTables).Keys;
      forall id | id in tasks
        ensures Tracks(tasks[id], id, ptType, pageSize, memoryManager, visited'[id])
        ensures tasks[id].Table() == pageTables[id]
      {
        if id != r.taskId {
          ghost var u := tasks[id];
          assert old(Tracks(u, id, ptType, pageSize, memoryManager, visited[id]));
          assert u != t;
          assert visited'[id] == visited[id] && pageTables[id] == old(pageTables)[id];
        }
      }
    }

    /**
     * One pass of run's loop, on line i, with visited the fold of the lines
     * before it: the line's effect is as LineAfter says, and when the line is
     * handled the runs are the fold of the lines up to and including it.
     */
    method Step(lines: seq<string>, i: nat, ghost start: map<string, seq<nat>>, ghost visited: map<string, seq<nat>>)
        returns (outcome: LineOutcome, ghost visited': map<string, seq<nat>>)
      requires i < |lines| && Valid(visited)
      requires ValidPageSize(pageSize) ==> visited == Visits(lines[..i], pageSize, start)
      requires !ValidPageSize(pageSize) ==> visited == start && TaskIds(lines[..i]) == {}
      modifies this`tasks, this`pageTables, tasks.Values, memoryManager.frameBitmap
      ensures Valid(visited')
      ensures forall id :: id in old(tasks) ==> id in tasks && tasks[id] == old(tasks)[id]
      ensures forall id :: id in tasks && id !in old(tasks) ==> fresh(tasks[id])
      ensures LineAfter(ptType, pageSize, visited, LineRequest(lines[i]), outcome) == Some(visited')
      ensures ValidPageSize(pageSize) && outcome.Handled? ==> visited' == Visits(lines[..i + 1], pageSize, start)
      ensures !ValidPageSize(pageSize) ==>
                && visited' == start && tasks == old(tasks)
                && (outcome.Handled? ==> TaskIds(lines[..i + 1]) == {})
                && (!outcome.Handled? ==> outcome.TaskRejected? && LineRequest(lines[i]).Some?)
    {
      outcome, visited' := RunLine(LineRequest(lines[i]), visited);
      if ValidPageSize(pageSize) {
        VisitsStep(lines, i, pageSize, start);
      } else {
        TaskIdsStep(lines, i);
      }
    }

    /**
     * run over the lines of the trace file, from the runs visited to the runs
     * after it. When it completes, the runs are the fold over the lines; when
     * a line stops it, the lines before it are folded and that line's effect is
     * as LineAfter says. With an invalid page size no task is created and the
     * first line that carries a request stops the run.
     */
    method Run(lines: seq<string>, ghost visited: map<string, seq<nat>>)
        returns (outcome: RunOutcome, ghost visited': map<string, seq<nat>>)
      requires Valid(visited)
      modifies this`tasks, this`pageTables, tasks.Values, memoryManager.frameBitmap
      ensures Valid(visited')
      ensures ValidPageSize(pageSize) && outcome.Completed? ==> visited' == Visits(lines, pageSize, visited)
      ensures ValidPageSize(pageSize) && outcome.Stopped? ==>
                && outcome.line < |lines| && !outcome.outcome.Handled?
                && LineAfter(ptType, pageSize, Visits(lines[..outcome.line], pageSize, visited),
                             LineRequest(lines[outcome.line]), outcome.outcome) == Some(visited')
      ensures !ValidPageSize(pageSize) ==>
                && visited' == visited && tasks == old(tasks)
                && (outcome.Completed? ==> TaskIds(lines) == {})
                && (outcome.Stopped? ==>
                      && outcome.line < |lines| && outcome.outcome.TaskRejected?
                      && TaskIds(lines[..outcome.line]) == {} && LineRequest(lines[outcome.line]).Some?)
    {
      visited' := visited;
      outcome := Completed;
      var i := 0;
      while i < |lines|
        invariant 0 <= i <= |lines| && outcome == Completed
        invariant Valid(visited')
        invariant forall id :: id in old(tasks) ==> id in tasks && tasks[id] == old(tasks)[id]
        invariant forall id :: id in tasks && id !in old(tasks) ==> fresh(tasks[id])
        invariant ValidPageSize(pageSize) ==> visited' == Visits(lines[..i], pageSize, visited)
        invariant !ValidPageSize(pageSize) ==>
                    && visited' == visited && tasks == old(tasks)
                    && TaskIds(lines[..i]) == {}
      {
        var lineOutcome;
        lineOutcome, visited' := Step(lines, i, visited, visited');
        if !lineOutcome.Handled? {
          outcome := Stopped(i, lineOutcome);
          break;
        }
        i := i + 1;
      }
      if outcome.Completed? {
        assert lines[..i] == lines;
      }
    }
  }

  /**
   * A whole run as the simulator sets it up: a fresh IO module over a valid
   * page size. When no line throws, the tasks are exactly the ids of the
   * well-formed lines, and each task's hits and misses are those of the pages
   * of its own requests, in file order.
   */
  method RunTrace(lines: seq<string>, tableType: PageTableType, pageSizeBytes: nat, mm: MemoryManager)
      returns (io: IOModule, outcome: RunOutcome)
    requires mm.Valid() && ValidPageSize(pageSizeBytes)
    modifies mm.frameBitmap
    ensures outcome.Completed? ==>
              && io.tasks.Keys == TaskIds(lines)
              && forall id :: id in io.tasks ==>
                   && io.tasks[id].hits == HitCount({}, TracePages(RequestsOf(lines, id), pageSizeBytes))
                   && io.tasks[id].misses == MissCount({}, TracePages(RequestsOf(lines, id), pageSizeBytes))
    ensures io.memoryManager == mm && io.pageTables.Keys == io.tasks.Keys
    ensures forall id :: id in io.tasks ==> io.tasks[id].Table() == io.pageTables[id]
    ensures FramesAccounted(io.pageTables, mm.Bitmap(), AllocatedSet(old(mm.Bitmap())))
    ensures AllocatedSet(old(mm.Bitmap())) == {} ==>
              && (forall f: nat :: f in FramesOf(io.pageTables) <==> f < mm.frameBitmap.Length && !mm.frameBitmap[f])
              && |FramesOf(io.pageTables)| == mm.frameBitmap.Length - CountFree(mm.Bitmap())
  {
    io := new IOModule(tableType, pageSizeBytes, mm);
    ghost var visited;
    outcome, visited := io.Run(lines, map[]);
    assert io.Valid(visited);
    forall id | id in io.tasks
      ensures io.tasks[id].Table() == io.pageTables[id]
    {
      assert Tracks(io.tasks[id], id, io.ptType, io.pageSize, io.memoryManager, visited[id]);
    }
    if AllocatedSet(old(mm.Bitmap())) == {} {
      FrameUniqueness(io.pageTables, mm.Bitmap());
    }
    if outcome.Completed? {
      forall id | id in io.tasks
        ensures && io.tasks[id].hits == HitCount({}, TracePages(RequestsOf(lines, id), pageSizeBytes))
                && io.tasks[id].misses == MissCount({}, TracePages(RequestsOf(lines, id), pageSizeBytes))
      {
        assert Tracks(io.tasks[id], id, io.ptType, io.pageSize, io.memoryManager, visited[id]);
        VisitsPerTask(lines, pageSizeBytes, id);
      }
      VisitsKeys(lines, pageSizeBytes);
    }
  }
}
