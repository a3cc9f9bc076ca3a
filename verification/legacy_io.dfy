/**
 * The two legacy trace readers, src/io.cpp and src/iomulti.cpp. Both read the
 * trace line by line, skip empty lines, split each line with processLine,
 * create a task the first time its id (the first field as written) is seen,
 * and send it one accessMemory call per page of the request, page_size
 * apart. A std::stoul / std::stoi failure, or the legacy allocator giving
 * out inside accessMemory, throws out of the reader and ends it.
 *
 * LegacyTrace is the reference behaviour: the addresses each task is sent.
 * ReadTraceFile (src/io.cpp) records them; ReadTraceFileMulti
 * (src/iomulti.cpp) sends them to TaskMulti objects sharing one allocator.
 */
module LegacyIo {
  import opened Common
  import opened Translation
  import opened TraceFormat
  import opened LegacyAllocator
  import opened Tlb
  import opened MultiLevel
  import opened IoSpec

  /** page_size = MIN_PAGE_SIZE_KB * 1024, as a uint32_t. */
  function LegacyPageSize(minPageSizeKb: nat): nat
  {
    Wrap32(minPageSizeKb * 1024)
  }

  /** What readTraceFile does with a line: an empty one never reaches processLine. */
  function LegacyLineOf(line: string): LegacyLine
  {
    if line == [] then Skip else ProcessLineLegacy(line)
  }

  /**
   * One line of the reference behaviour: the addresses each task has been
   * sent after the line, or None when the line throws.
   */
  function LegacyVisit(accessed: map<string, seq<nat>>, l: LegacyLine, pageSize: nat): Option<map<string, seq<nat>>>
    requires pageSize > 0
  {
    match l
    case Skip => Some(accessed)
    case Abort => None
    case Accesses(id, logicalAddress, sizeBytes) =>
      Some(accessed[id := Prior(accessed, id) + LegacyAccessAddresses(logicalAddress, sizeBytes, pageSize)])
  }

  /** The trace as readTraceFile sees it: each line as processLine splits and parses it. */
  function ParseLegacyLines(lines: seq<string>): (ls: seq<LegacyLine>)
    ensures |ls| == |lines|
    ensures forall i :: 0 <= i < |lines| ==> ls[i] == LegacyLineOf(lines[i])
  {
    seq(|lines|, i requires 0 <= i < |lines| => LegacyLineOf(lines[i]))
  }

  /** The addresses each task has been sent after the lines, or None once a line throws. */
  function LegacyTrace(ls: seq<LegacyLine>, pageSize: nat): Option<map<string, seq<nat>>>
    requires pageSize > 0
  {
    if ls == [] then Some(map[])
    else
      match LegacyTrace(ls[..|ls| - 1], pageSize)
      case None => None
      case Some(accessed) => LegacyVisit(accessed, ls[|ls| - 1], pageSize)
  }

  /** The ids of the lines that reach accessMemory. */
  function LegacyIds(ls: seq<LegacyLine>): set<string>
  {
    if ls == [] then {}
    else
      var l := ls[|ls| - 1];
      LegacyIds(ls[..|ls| - 1]) + (if l.Accesses? then {l.taskId} else {})
  }

  /** The addresses the lines send to task id, in file order. */
  function LegacyAddressesOf(ls: seq<LegacyLine>, id: string, pageSize: nat): seq<nat>
    requires pageSize > 0
  {
    if ls == [] then []
    else
      var l := ls[|ls| - 1];
      LegacyAddressesOf(ls[..|ls| - 1], id, pageSize)
        + (if l.Accesses? && l.taskId == id then LegacyAccessAddresses(l.logicalAddress, l.sizeBytes, pageSize) else [])
  }

  lemma LegacyTraceStep(ls: seq<LegacyLine>, i: nat, pageSize: nat)
    requires pageSize > 0 && i < |ls|
    ensures LegacyTrace(ls[..i + 1], pageSize)
            == match LegacyTrace(ls[..i], pageSize)
               case None => None
               case Some(accessed) => LegacyVisit(accessed, ls[i], pageSize)
  {
    assert ls[..i + 1][..i] == ls[..i];
  }

  /** Once a line has thrown, the reader never resumes. */
  lemma {:induction false} LegacyTraceStaysThrown(ls: seq<LegacyLine>, k: nat, pageSize: nat)
    requires pageSize > 0 && k <= |ls| && LegacyTrace(ls[..k], pageSize).None?
    ensures LegacyTrace(ls, pageSize).None?
    decreases |ls| - k
  {
    if k < |ls| {
      LegacyTraceStep(ls, k, pageSize);
      LegacyTraceStaysThrown(ls, k + 1, pageSize);
    } else {
      assert ls[..k] == ls;
    }
  }

  /**
   * The reader throws exactly when some line throws in processLine: unlike
   * IO_Module::run, a bad address or size is not skipped.
   */
  lemma {:induction false} LegacyTraceThrows(ls: seq<LegacyLine>, pageSize: nat)
    requires pageSize > 0
    ensures LegacyTrace(ls, pageSize).None? <==> exists i :: 0 <= i < |ls| && ls[i].Abort?
    decreases |ls|
  {
    if ls != [] {
      var prefix := ls[..|ls| - 1];
      LegacyTraceThrows(prefix, pageSize);
      if LegacyTrace(prefix, pageSize).None? {
        var i :| 0 <= i < |prefix| && prefix[i].Abort?;
        assert ls[i] == prefix[i];
      } else if !ls[|ls| - 1].Abort? {
        forall i | 0 <= i < |ls|
          ensures !ls[i].Abort?
        {
          if i < |prefix| {
            assert ls[i] == prefix[i];
          }
        }
      }
    }
  }

  /**
   * When the reader finishes, there is one task per id of a line that reached
   * accessMemory, and each task was sent exactly the addresses of its own
   * lines, in file order.
   */
  lemma {:induction false} LegacyTraceTasks(ls: seq<LegacyLine>, pageSize: nat, id: string)
    requires pageSize > 0 && LegacyTrace(ls, pageSize).Some?
    ensures LegacyTrace(ls, pageSize).value.Keys == LegacyIds(ls)
    ensures Prior(LegacyTrace(ls, pageSize).value, id) == LegacyAddressesOf(ls, id, pageSize)
    decreases |ls|
  {
    if ls != [] {
      var prefix := ls[..|ls| - 1];
      var l := ls[|ls| - 1];
      LegacyTraceTasks(prefix, pageSize, id);
      if !l.Accesses? || l.taskId != id {
        assert LegacyAddressesOf(ls, id, pageSize) == LegacyAddressesOf(prefix, id, pageSize) + [];
      }
    }
  }

  // ---------------------------------------------------------------------
  // src/io.cpp
  // ---------------------------------------------------------------------

  /**
   * processLine of src/io.cpp on the map of tasks, each task shown by the
   * addresses passed to its accessMemory (the task class of src/io.cpp is
   * not part of this model). None is an exception thrown out of the line.
   */
  method ProcessLine(line: string, taskMap: map<string, seq<nat>>, pageSize: nat)
      returns (r: Option<map<string, seq<nat>>>)
    requires pageSize > 0
    ensures r == LegacyVisit(taskMap, ProcessLineLegacy(line), pageSize)
  {
    var l := ProcessLineLegacy(line);
    r := SendAccesses(l, taskMap, pageSize);
  }

  /** The task lookup and the page loop of processLine, once the fields are parsed. */
  method SendAccesses(l: LegacyLine, taskMap: map<string, seq<nat>>, pageSize: nat)
      returns (r: Option<map<string, seq<nat>>>)
    requires pageSize > 0
    ensures r == LegacyVisit(taskMap, l, pageSize)
  {
    if l.Skip? {
      return Some(taskMap);
    }
    if l.Abort? {
      return None;
    }
    // taskMap[task_id], created empty on first sight, then sent each page address
    var sent := if l.taskId in taskMap then taskMap[l.taskId] else [];
    ghost var addresses := LegacyAccessAddresses(l.logicalAddress, l.sizeBytes, pageSize);
    var numPages := PageCount(l.sizeBytes, pageSize);
    var i := 0;
    while i < numPages
      invariant i <= numPages
      invariant sent == Prior(taskMap, l.taskId) + addresses[..i]
    {
      var pageAddress := Wrap32(l.logicalAddress + i * pageSize);
      assert addresses[..i + 1] == addresses[..i] + [pageAddress];
      sent := sent + [pageAddress];
      i := i + 1;
    }
    assert addresses[..i] == addresses;
    return Some(taskMap[l.taskId := sent]);
  }

  /**
   * readTraceFile of src/io.cpp over the lines of the file: the accesses each
   * task was sent, or None when a line threw out of the reader.
   */
  method ReadTraceFile(lines: seq<string>, minPageSizeKb: nat) returns (r: Option<map<string, seq<nat>>>)
    requires LegacyPageSize(minPageSizeKb) > 0
    ensures r == LegacyTrace(ParseLegacyLines(lines), LegacyPageSize(minPageSizeKb))
  {
    var pageSize := LegacyPageSize(minPageSizeKb);
    ghost var parsed := ParseLegacyLines(lines);
    var taskMap: map<string, seq<nat>> := map[];
    var i := 0;
    while i < |lines|
      invariant i <= |lines|
      invariant LegacyTrace(parsed[..i], pageSize) == Some(taskMap)
    {
      LegacyTraceStep(parsed, i, pageSize);
      var next := ReadLine(lines[i], taskMap, pageSize);
      if next.None? {
        LegacyTraceStaysThrown(parsed, i + 1, pageSize);
        return None;
      }
      taskMap := next.value;
      i := i + 1;
    }
    assert parsed[..i] == parsed;
    return Some(taskMap);
  }

  /** One line of the reading loop: an empty line is skipped, any other goes to processLine. */
  method ReadLine(line: string, taskMap: map<string, seq<nat>>, pageSize: nat) returns (r: Option<map<string, seq<nat>>>)
    requires pageSize > 0
    ensures r == LegacyVisit(taskMap, LegacyLineOf(line), pageSize)
  {
    if line == [] {
      return Some(taskMap);
    }
    r := ProcessLine(line, taskMap, pageSize);
  }

  // ---------------------------------------------------------------------
  // src/iomulti.cpp
  // ---------------------------------------------------------------------

  /**
   * How one line of the multi-level reader ended: served, stoul / stoi threw,
   * or the allocator gave out during the calls-th accessMemory call.
   */
  datatype LineStatus = Served | ParseThrew | AllocatorThrew(calls: nat)

  /** How the multi-level reader ended: after the last line, or at the line that threw. */
  datatype MultiOutcome = Finished | Threw(line: nat, status: LineStatus)

  /**
   * What one line does to the addresses sent, by how it ended, or None when
   * the line cannot end that way. A served line does what LegacyVisit says; a
   * line whose allocator gave out has sent the first calls addresses only.
   */
  function MultiVisit(accessed: map<string, seq<nat>>, l: LegacyLine, pageSize: nat, status: LineStatus)
    : Option<map<string, seq<nat>>>
    requires pageSize > 0
  {
    match status
    case Served => if l.Abort? then None else LegacyVisit(accessed, l, pageSize)
    case ParseThrew => if l.Abort? then Some(accessed) else None
    case AllocatorThrew(calls) =>
      if l.Accesses? && 0 < calls <= PageCount(l.sizeBytes, pageSize) then
        Some(accessed[l.taskId := Prior(accessed, l.taskId)
                                  + LegacyAccessAddresses(l.logicalAddress, l.sizeBytes, pageSize)[..calls]])
      else None
  }

  /** A served line is the reference behaviour's line; a thrown line is one the reference throws at or after. */
  lemma MultiVisitAgrees(accessed: map<string, seq<nat>>, l: LegacyLine, pageSize: nat, status: LineStatus)
    requires pageSize > 0 && MultiVisit(accessed, l, pageSize, status).Some?
    ensures status.Served? ==> MultiVisit(accessed, l, pageSize, status) == LegacyVisit(accessed, l, pageSize)
    ensures status.ParseThrew? ==> LegacyVisit(accessed, l, pageSize).None?
    ensures status.AllocatorThrew? ==>
              var full := LegacyVisit(accessed, l, pageSize).value;
              var part := MultiVisit(accessed, l, pageSize, status).value;
              && full.Keys == part.Keys
              && forall id :: id in part ==> part[id] <= full[id]
  {
  }

  /** The task a map entry holds: created for id, valid, and sent exactly the given addresses. */
  ghost predicate Serves(t: TaskMulti, id: string, accessed: seq<nat>)
    reads t, t.tlb
  {
    t.Valid() && t.taskId == id && t.accessed == accessed
  }

  function TlbsOf(taskMap: map<string, TaskMulti>): set<TLB>
  {
    set id | id in taskMap :: taskMap[id].tlb
  }

  /** Every task serves the addresses recorded for its id, and no two tasks share a TLB. */
  ghost predicate TasksServe(taskMap: map<string, TaskMulti>, accessed: map<string, seq<nat>>)
    reads taskMap.Values, TlbsOf(taskMap)
  {
    && taskMap.Keys == accessed.Keys
    && (forall id {:trigger Serves(taskMap[id], id, accessed[id])} :: id in taskMap ==> Serves(taskMap[id], id, accessed[id]))
    && (forall a, b {:trigger taskMap[a].tlb, taskMap[b].tlb} ::
          a in taskMap && b in taskMap && a != b ==> taskMap[a].tlb != taskMap[b].tlb)
  }

  /**
   * The page loop of processLine on one task: accessMemory on each address of
   * the request in turn, until the allocator gives out. count is the number
   * of calls made, the failing one included.
   */
  method AccessPages(t: TaskMulti, logicalAddress: nat, sizeBytes: nat, pageSize: nat, mm: LegacyMemoryManager)
      returns (count: nat, exhausted: bool)
    requires pageSize > 0 && t.Valid() && mm.Valid()
    modifies t, t.tlb, mm
    ensures t.Valid() && mm.Valid()
    ensures exhausted ==> 0 < count <= PageCount(sizeBytes, pageSize)
    ensures !exhausted ==> count == PageCount(sizeBytes, pageSize)
    ensures t.accessed == old(t.accessed) + LegacyAccessAddresses(logicalAddress, sizeBytes, pageSize)[..count]
  {
    ghost var addresses := LegacyAccessAddresses(logicalAddress, sizeBytes, pageSize);
    var numPages := PageCount(sizeBytes, pageSize);
    count := 0;
    while count < numPages
      invariant count <= numPages
      invariant t.Valid() && mm.Valid()
      invariant t.accessed == old(t.accessed) + addresses[..count]
    {
      var pageAddress := Wrap32(logicalAddress + count * pageSize);
      assert addresses[..count + 1] == addresses[..count] + [pageAddress];
      var outcome := t.AccessMemory(pageAddress, mm);
      count := count + 1;
      if outcome.AllocatorExhausted? {
        return count, true;
      }
    }
    return count, false;
  }

  /**
   * taskMap[task_id], created by new taskmulti(task_id) on first sight of the
   * id; a new task has sent nothing yet and a TLB of its own.
   */
  method TaskFor(id: string, taskMap: map<string, TaskMulti>, ghost accessed: map<string, seq<nat>>, minPageSizeKb: nat)
      returns (t: TaskMulti, taskMap': map<string, TaskMulti>, ghost accessed': map<string, seq<nat>>)
    requires minPageSizeKb > 0 && TasksServe(taskMap, accessed)
    ensures TasksServe(taskMap', accessed')
    ensures id in taskMap' && t == taskMap'[id]
    ensures accessed' == accessed[id := Prior(accessed, id)]
    ensures id in taskMap ==> taskMap' == taskMap
    ensures id !in taskMap ==> taskMap' == taskMap[id := t] && fresh(t) && fresh(t.tlb)
  {
    if id in taskMap {
      return taskMap[id], taskMap, accessed;
    }
    t := new TaskMulti(id, minPageSizeKb);
    taskMap' := taskMap[id := t];
    accessed' := accessed[id := []];
    forall x | x in taskMap'
      ensures Serves(taskMap'[x], x, accessed'[x])
    {
      if x != id {
        assert Serves(taskMap[x], x, accessed[x]);
      }
    }
  }

  /**
   * The page loop on the task of id, with every other task left as it was:
   * the task's recorded addresses grow by the count calls made.
   */
  method ServeTask(id: string, taskMap: map<string, TaskMulti>, ghost accessed: map<string, seq<nat>>,
                   logicalAddress: nat, sizeBytes: nat, pageSize: nat, mm: LegacyMemoryManager)
      returns (count: nat, exhausted: bool, ghost accessed': map<string, seq<nat>>)
    requires pageSize > 0 && mm.Valid() && TasksServe(taskMap, accessed) && id in taskMap
    modifies mm, taskMap[id], taskMap[id].tlb
    ensures mm.Valid() && TasksServe(taskMap, accessed')
    ensures exhausted ==> 0 < count <= PageCount(sizeBytes, pageSize)
    ensures !exhausted ==> count == PageCount(sizeBytes, pageSize)
    ensures accessed' == accessed[id := accessed[id] + LegacyAccessAddresses(logicalAddress, sizeBytes, pageSize)[..count]]
  {
    var t := taskMap[id];
    assert Serves(t, id, accessed[id]);
    count, exhausted := AccessPages(t, logicalAddress, sizeBytes, pageSize, mm);
    accessed' := accessed[id := accessed[id] + LegacyAccessAddresses(logicalAddress, sizeBytes, pageSize)[..count]];
    forall x | x in taskMap
      ensures Serves(taskMap[x], x, accessed'[x])
    {
      if x != id {
        assert taskMap[x].tlb != taskMap[id].tlb;
        assert old(Serves(taskMap[x], x, accessed[x]));
      }
    }
  }

  /**
   * The task lookup and the page loop of processLine in src/iomulti.cpp, once
   * the fields are parsed: a parsed line sends its addresses to the task of
   * its id, which is created first when new.
   */
  method SendAccessesMulti(l: LegacyLine, taskMap: map<string, TaskMulti>, ghost accessed: map<string, seq<nat>>,
                           minPageSizeKb: nat, mm: LegacyMemoryManager)
      returns (status: LineStatus, taskMap': map<string, TaskMulti>, ghost accessed': map<string, seq<nat>>)
    requires LegacyPageSize(minPageSizeKb) > 0 && mm.Valid() && TasksServe(taskMap, accessed)
    modifies mm, taskMap.Values, TlbsOf(taskMap)
    ensures mm.Valid() && TasksServe(taskMap', accessed')
    ensures forall id :: id in taskMap ==> id in taskMap' && taskMap'[id] == taskMap[id]
    ensures forall id :: id in taskMap' && id !in taskMap ==> fresh(taskMap'[id]) && fresh(taskMap'[id].tlb)
    ensures MultiVisit(accessed, l, LegacyPageSize(minPageSizeKb), status) == Some(accessed')
  {
    if !l.Accesses? {
      status := if l.Abort? then ParseThrew else Served;
      return status, taskMap, accessed;
    }
    var pageSize := LegacyPageSize(minPageSizeKb);
    var t;
    ghost var created;
    t, taskMap', created := TaskFor(l.taskId, taskMap, accessed, minPageSizeKb);
    var count, exhausted;
    count, exhausted, accessed' := ServeTask(l.taskId, taskMap', created, l.logicalAddress, l.sizeBytes, pageSize, mm);
    UpdateTwice(accessed, l.taskId, Prior(accessed, l.taskId),
                Prior(accessed, l.taskId) + LegacyAccessAddresses(l.logicalAddress, l.sizeBytes, pageSize)[..count]);
    if exhausted {
      status := AllocatorThrew(count);
    } else {
      status := Served;
      assert LegacyAccessAddresses(l.logicalAddress, l.sizeBytes, pageSize)[..count]
          == LegacyAccessAddresses(l.logicalAddress, l.sizeBytes, pageSize);
    }
  }

  /**
   * processLine of src/iomulti.cpp: split and parse the line, then send its
   * addresses. A new task is created for a parsed line even when the
   * allocator then gives out.
   */
  method ProcessLineMulti(line: string, taskMap: map<string, TaskMulti>, ghost accessed: map<string, seq<nat>>,
                          minPageSizeKb: nat, mm: LegacyMemoryManager)
      returns (status: LineStatus, taskMap': map<string, TaskMulti>, ghost accessed': map<string, seq<nat>>)
    requires LegacyPageSize(minPageSizeKb) > 0 && mm.Valid() && TasksServe(taskMap, accessed)
    modifies mm, taskMap.Values, TlbsOf(taskMap)
    ensures mm.Valid() && TasksServe(taskMap', accessed')
    ensures forall id :: id in taskMap ==> id in taskMap' && taskMap'[id] == taskMap[id]
    ensures forall id :: id in taskMap' && id !in taskMap ==> fresh(taskMap'[id]) && fresh(taskMap'[id].tlb)
    ensures MultiVisit(accessed, ProcessLineLegacy(line), LegacyPageSize(minPageSizeKb), status) == Some(accessed')
  {
    var l := ProcessLineLegacy(line);
    status, taskMap', accessed' := SendAccessesMulti(l, taskMap, accessed, minPageSizeKb, mm);
  }

  /** One line of the reading loop of src/iomulti.cpp: an empty line is skipped, any other goes to processLine. */
  method ReadLineMulti(line: string, taskMap: map<string, TaskMulti>, ghost accessed: map<string, seq<nat>>,
                       minPageSizeKb: nat, mm: LegacyMemoryManager)
      returns (status: LineStatus, taskMap': map<string, TaskMulti>, ghost accessed': map<string, seq<nat>>)
    requires LegacyPageSize(minPageSizeKb) > 0 && mm.Valid() && TasksServe(taskMap, accessed)
    modifies mm, taskMap.Values, TlbsOf(taskMap)
    ensures mm.Valid() && TasksServe(taskMap', accessed')
    ensures forall id :: id in taskMap ==> id in taskMap' && taskMap'[id] == taskMap[id]
    ensures forall id :: id in taskMap' && id !in taskMap ==> fresh(taskMap'[id]) && fresh(taskMap'[id].tlb)
    ensures MultiVisit(accessed, LegacyLineOf(line), LegacyPageSize(minPageSizeKb), status) == Some(accessed')
  {
    if line == [] {
      return Served, taskMap, accessed;
    }
    status, taskMap', accessed' := ProcessLineMulti(line, taskMap, accessed, minPageSizeKb, mm);
  }

  /**
   * readTraceFile of src/iomulti.cpp over the lines of the file, with one
   * allocator shared by all tasks. When it finishes, each task was sent
   * exactly the addresses of the reference behaviour; when a line throws, the
   * lines before it were served in full and the throwing line as far as it got.
   */
  method ReadTraceFileMulti(lines: seq<string>, minPageSizeKb: nat, mm: LegacyMemoryManager)
      returns (outcome: MultiOutcome, taskMap: map<string, TaskMulti>, ghost accessed: map<string, seq<nat>>)
    requires LegacyPageSize(minPageSizeKb) > 0 && mm.Valid()
    modifies mm
    ensures mm.Valid() && TasksServe(taskMap, accessed)
    ensures forall id :: id in taskMap ==> fresh(taskMap[id])
    ensures outcome.Finished? ==> LegacyTrace(ParseLegacyLines(lines), LegacyPageSize(minPageSizeKb)) == Some(accessed)
    ensures outcome.Threw? ==>
              && outcome.line < |lines| && !outcome.status.Served?
              && var before := LegacyTrace(ParseLegacyLines(lines)[..outcome.line], LegacyPageSize(minPageSizeKb));
                 && before.Some?
                 && MultiVisit(before.value, ParseLegacyLines(lines)[outcome.line], LegacyPageSize(minPageSizeKb),
                               outcome.status) == Some(accessed)
  {
    var pageSize := LegacyPageSize(minPageSizeKb);
    ghost var parsed := ParseLegacyLines(lines);
    taskMap, accessed := map[], map[];
    var i := 0;
    while i < |lines|
      invariant i <= |lines|
      invariant mm.Valid() && TasksServe(taskMap, accessed)
      invariant forall id :: id in taskMap ==> fresh(taskMap[id]) && fresh(taskMap[id].tlb)
      invariant LegacyTrace(parsed[..i], pageSize) == Some(accessed)
    {
      LegacyTraceStep(parsed, i, pageSize);
      var status;
      status, taskMap, accessed := ReadLineMulti(lines[i], taskMap, accessed, minPageSizeKb, mm);
      if !status.Served? {
        return Threw(i, status), taskMap, accessed;
      }
      i := i + 1;
    }
    assert parsed[..i] == parsed;
    return Finished, taskMap, accessed;
  }
}
