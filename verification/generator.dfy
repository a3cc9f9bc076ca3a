/**
 * The two trace generators: TestModule (one request line per draw, the
 * address a page of one of the five sections, the size one page) and the
 * stand-alone generator in test.cpp (lines spread over tasks, 4 to 16 KB
 * sizes). Random draws are inputs; the lines a generator writes are
 * returned or appended to a sequence standing for the output file.
 */
module Generator {
  import opened Common
  import Config
  import opened TraceFormat
  import Translation

  // ---------------------------------------------------------------------
  // TestModule::size_to_string and the write_request line
  // ---------------------------------------------------------------------

  /**
   * size_to_string: "<n>MB" for a multiple of 1 MB, otherwise "<n>KB" for a
   * multiple of 1 KB, otherwise "<n>B".
   */
  function SizeToString(sizeBytes: nat): (s: string)
    ensures |s| >= 2 && s[|s| - 1] == 'B'
    ensures s[|s| - 2] == 'M' <==> sizeBytes % 0x10_0000 == 0
    ensures s[|s| - 2] == 'K' <==> sizeBytes % 1024 == 0 && sizeBytes % 0x10_0000 != 0
    ensures sizeBytes % 1024 != 0 ==> IsDecDigit(s[|s| - 2])
  {
    if sizeBytes % 0x10_0000 == 0 then
      DecimalString(sizeBytes / 0x10_0000) + "MB"
    else if sizeBytes % 1024 == 0 then
      DecimalString(sizeBytes / 1024) + "KB"
    else
      var d := DecimalString(sizeBytes);
      assert IsDecDigit(d[|d| - 1]);
      d + "B"
  }

  lemma SizeToStringExamples()
    ensures SizeToString(4096) == "4KB"
    ensures SizeToString(1048576) == "1MB"
  {
    assert DecimalString(4) == "4";
    assert DecimalString(1) == "1";
  }

  /** The address field of both generators' lines: a space, "0x" and the hex digits. */
  function AddressField(logicalAddress: nat, upper: bool): (f: string)
    ensures ':' !in f && '\n' !in f && |f| >= 4 && f[0] == ' '
  {
    " " + ("0x" + HexString(logicalAddress, upper))
  }

  /** The line write_request writes: "T<index>: 0x<upper-case hex address>:<size>". */
  function RequestLine(taskIndex: nat, logicalAddress: nat, sizeBytes: nat): string
  {
    ("T" + DecimalString(taskIndex)) + ":" + AddressField(logicalAddress, true) + ":" + SizeToString(sizeBytes)
  }

  /** getline splits a write_request line back into the id, the address field and the size field. */
  lemma RequestLineFields(taskIndex: nat, logicalAddress: nat, sizeBytes: nat)
    ensures SplitLine(RequestLine(taskIndex, logicalAddress, sizeBytes))
            == Some(Fields("T" + DecimalString(taskIndex), AddressField(logicalAddress, true), SizeToString(sizeBytes)))
  {
    SplitJoined("T" + DecimalString(taskIndex), AddressField(logicalAddress, true), SizeToString(sizeBytes));
  }

  /** The address field reads back as the address, both trimmed (parse_line) and as it is (std::stoul). */
  lemma AddressFieldRoundTrip(logicalAddress: nat, upper: bool)
    requires logicalAddress < TWO_64
    ensures ParseNumber(Trim(AddressField(logicalAddress, upper)), 16, TWO_64 - 1) == Some(logicalAddress)
    ensures ParseNumber(AddressField(logicalAddress, upper), 16, TWO_64 - 1) == Some(logicalAddress)
  {
    AddressFieldTrimmed(logicalAddress, upper);
    HexRoundTrip(logicalAddress, upper, TWO_64 - 1);
    AddressFieldUntrimmed(logicalAddress, upper);
  }

  lemma AddressFieldTrimmed(logicalAddress: nat, upper: bool)
    ensures Trim(AddressField(logicalAddress, upper)) == "0x" + HexString(logicalAddress, upper)
  {
    TrimPadded(" ", "0x" + HexString(logicalAddress, upper));
  }

  lemma AddressFieldUntrimmed(logicalAddress: nat, upper: bool)
    requires logicalAddress < TWO_64
    ensures ParseNumber(AddressField(logicalAddress, upper), 16, TWO_64 - 1) == Some(logicalAddress)
  {
    var literal := "0x" + HexString(logicalAddress, upper);
    HexRoundTrip(logicalAddress, upper, TWO_64 - 1);
    ParseAfterSpaces(" ", literal, 16, TWO_64 - 1);
  }

  /** A field whose ends are not blank is left as it is by trim. */
  lemma TrimUntrimmed(t: string)
    requires t != [] && !IsTrimmed(t[0]) && !IsTrimmed(t[|t| - 1])
    ensures Trim(t) == t
  {
    assert TrimFront(t) == t;
  }

  /** Blank padding before a size field does not change how parse_line reads it. */
  lemma SizeFieldPadded(lead: string, t: string)
    requires forall i :: 0 <= i < |lead| ==> IsTrimmed(lead[i])
    requires t != [] && !IsTrimmed(t[0]) && !IsTrimmed(t[|t| - 1])
    ensures ParseSizeField(lead + t) == ParseSizeField(t)
  {
    TrimPadded(lead, t);
    TrimUntrimmed(t);
  }

  /** "<n>KB" reads back as n * 1024 bytes. */
  lemma KiloDigitsRead(n: nat)
    requires n * 1024 < TWO_64
    ensures ParseSizeField(DecimalString(n) + "KB") == Some(n * 1024)
  {
    var d := DecimalString(n);
    var t := d + "KB";
    TrimUntrimmed(t);
    assert t[|t| - 2..] == "KB";
    assert IsKiloSuffix(t[|t| - 2..]);
    assert t[..|t| - 2] == d;
    DecimalRoundTrip(n, [], TWO_64 - 1);
    assert d + [] == d;
  }

  /** "<n>MB" reads back as n * 1048576 bytes. */
  lemma MegaDigitsRead(n: nat)
    requires n * 0x10_0000 < TWO_64
    ensures ParseSizeField(DecimalString(n) + "MB") == Some(n * 0x10_0000)
  {
    var d := DecimalString(n);
    var t := d + "MB";
    TrimUntrimmed(t);
    assert t[|t| - 2..] == "MB";
    MegaUnit();
    assert t[..|t| - 2] == d;
    DecimalRoundTrip(n, [], TWO_64 - 1);
    assert d + [] == d;
  }

  lemma MegaUnit()
    ensures !IsKiloSuffix("MB") && IsMegaSuffix("MB")
  {
    var u := "MB";
    assert u[0] != "KB"[0] && u[0] != "kb"[0] && u[0] != "Kb"[0] && u[0] != "kB"[0];
  }

  /**
   * "<n>" followed by a KB or MB unit in any letter case reads back as n
   * times 1024 or 1024^2 in uint64_t arithmetic: the product wraps once it
   * reaches 2^64, and nothing rejects it.
   */
  lemma SizeFieldValue(n: nat, u: string)
    requires n < TWO_64 && (IsKiloSuffix(u) || IsMegaSuffix(u))
    ensures ParseSizeField(DecimalString(n) + u)
            == Some(Wrap64(n * (if IsKiloSuffix(u) then 1024 else 0x10_0000)))
  {
    var d := DecimalString(n);
    var t := d + u;
    assert t[0] == d[0] && t[|t| - 1] == u[1];
    TrimUntrimmed(t);
    assert t[|t| - 2..] == u;
    assert t[..|t| - 2] == d;
    DecimalRoundTrip(n, [], TWO_64 - 1);
    assert d + [] == d;
  }

  /** 2^54 kilobytes, written with a lower-case unit, are 2^64 bytes: parse_line reads a size of 0. */
  lemma SizeFieldWraps()
    ensures ParseSizeField(DecimalString(0x40_0000_0000_0000) + "kb") == Some(0)
  {
    SizeFieldValue(0x40_0000_0000_0000, "kb");
  }

  /** A two-character suffix that starts with a digit is neither a KB nor an MB unit. */
  lemma DigitSuffixNoUnit(suffix: string)
    requires |suffix| == 2 && IsDecDigit(suffix[0])
    ensures !IsKiloSuffix(suffix) && !IsMegaSuffix(suffix)
  {
    assert suffix[0] != "KB"[0] && suffix[0] != "kb"[0] && suffix[0] != "Kb"[0] && suffix[0] != "kB"[0];
    assert suffix[0] != "MB"[0] && suffix[0] != "mb"[0] && suffix[0] != "Mb"[0] && suffix[0] != "mB"[0];
  }

  /** A size field whose trimmed form has a digit just before its last character carries no unit. */
  lemma DigitBeforeLastRejected(t: string)
    requires |t| >= 2 && Trim(t) == t && IsDecDigit(t[|t| - 2])
    ensures ParseSizeField(t) == None
  {
    DigitSuffixNoUnit(t[|t| - 2..]);
  }

  /** A size written with the unit B is never read back: its last two characters are a digit and 'B'. */
  lemma ByteRejected(n: nat)
    ensures ParseSizeField(DecimalString(n) + "B") == None
  {
    var d := DecimalString(n);
    var t := d + "B";
    assert t[|t| - 2] == d[|d| - 1];
    TrimUntrimmed(t);
    DigitBeforeLastRejected(t);
  }

  lemma MegaShape(sizeBytes: nat)
    requires sizeBytes % 0x10_0000 == 0
    ensures SizeToString(sizeBytes) == DecimalString(sizeBytes / 0x10_0000) + "MB"
  {
  }

  lemma MegaScale(sizeBytes: nat)
    requires sizeBytes % 0x10_0000 == 0
    ensures (sizeBytes / 0x10_0000) * 0x10_0000 == sizeBytes
  {
  }

  lemma KiloShape(sizeBytes: nat)
    requires sizeBytes % 1024 == 0 && sizeBytes % 0x10_0000 != 0
    ensures SizeToString(sizeBytes) == DecimalString(sizeBytes / 1024) + "KB"
  {
  }

  lemma KiloScale(sizeBytes: nat)
    requires sizeBytes % 1024 == 0
    ensures (sizeBytes / 1024) * 1024 == sizeBytes
  {
  }

  lemma ByteShape(sizeBytes: nat)
    requires sizeBytes % 1024 != 0
    ensures SizeToString(sizeBytes) == DecimalString(sizeBytes) + "B"
  {
  }

  /**
   * parse_line's size parser inverts size_to_string on every multiple of 1 KB
   * and rejects every other size.
   */
  lemma SizeToStringRead(sizeBytes: nat)
    requires sizeBytes < TWO_64
    ensures ParseSizeField(SizeToString(sizeBytes)) == if sizeBytes % 1024 == 0 then Some(sizeBytes) else None
  {
    if sizeBytes % 0x10_0000 == 0 {
      MegaScale(sizeBytes);
      MegaShape(sizeBytes);
      MegaDigitsRead(sizeBytes / 0x10_0000);
    } else if sizeBytes % 1024 == 0 {
      KiloScale(sizeBytes);
      KiloShape(sizeBytes);
      KiloDigitsRead(sizeBytes / 1024);
    } else {
      ByteShape(sizeBytes);
      ByteRejected(sizeBytes);
    }
  }

  /** The task field "T<index>" holds no white space. */
  lemma TaskIdSpaceFree(taskIndex: nat)
    ensures RemoveSpaces("T" + DecimalString(taskIndex)) == "T" + DecimalString(taskIndex)
  {
    RemoveSpacesNone("T" + DecimalString(taskIndex));
  }

  /**
   * Round trip: parse_line reads a write_request line back as the task "T<index>",
   * the address and the size exactly when the size is a multiple of 1 KB;
   * a size written in B is rejected.
   */
  lemma RequestLineRoundTrip(taskIndex: nat, logicalAddress: nat, sizeBytes: nat)
    requires logicalAddress < TWO_64 && sizeBytes < TWO_64
    ensures sizeBytes % 1024 == 0 ==>
              ParseLine(RequestLine(taskIndex, logicalAddress, sizeBytes))
              == Some(TraceRequest("T" + DecimalString(taskIndex), logicalAddress, sizeBytes))
    ensures sizeBytes % 1024 != 0 ==> ParseLine(RequestLine(taskIndex, logicalAddress, sizeBytes)) == None
  {
    RequestLineFields(taskIndex, logicalAddress, sizeBytes);
    TaskIdSpaceFree(taskIndex);
    AddressFieldRoundTrip(logicalAddress, true);
    SizeToStringRead(sizeBytes);
    ParseLineOfFields(RequestLine(taskIndex, logicalAddress, sizeBytes), "T" + DecimalString(taskIndex),
                      AddressField(logicalAddress, true), SizeToString(sizeBytes),
                      logicalAddress, ParseSizeField(SizeToString(sizeBytes)));
  }

  lemma ExampleJoined()
    ensures "T1" + ":" + " 0x4000" + ":" + "16KB" == "T1: 0x4000:16KB"
  {
  }

  lemma ExampleFields()
    ensures SplitLine("T1: 0x4000:16KB") == Some(Fields("T1", " 0x4000", "16KB"))
  {
    SplitJoined("T1", " 0x4000", "16KB");
    ExampleJoined();
  }

  lemma ExampleTaskId()
    ensures RemoveSpaces("T1") == "T1"
  {
    RemoveSpacesNone("T1");
  }

  lemma ExampleAddress()
    ensures ParseNumber(Trim(" 0x4000"), 16, TWO_64 - 1) == Some(0x4000)
  {
    assert HexString(0x4000, true) == "4000";
    assert AddressField(0x4000, true) == " 0x4000";
    AddressFieldRoundTrip(0x4000, true);
  }

  lemma ExampleSize()
    ensures ParseSizeField("16KB") == Some(16384)
  {
    assert DecimalString(16) + "KB" == "16KB" by {
      assert DecimalString(16) == "16";
    }
    KiloDigitsRead(16);
  }

  /** The line format documented for the IO module: "T1: 0x4000:16KB" is task T1, address 0x4000, 16384 bytes. */
  lemma DocumentedExample()
    ensures ParseLine("T1: 0x4000:16KB") == Some(TraceRequest("T1", 0x4000, 16384))
  {
    ExampleFields();
    ExampleTaskId();
    ExampleAddress();
    ExampleSize();
    ParseLineOfFields("T1: 0x4000:16KB", "T1", " 0x4000", "16KB", 0x4000, Some(16384));
  }

  // ---------------------------------------------------------------------
  // TestModule: argument checks and generate_for_task
  // ---------------------------------------------------------------------

  /** The arguments TestModule's constructor accepts without throwing invalid_argument. */
  predicate AcceptedArguments(numTasks: int, requestsPerTask: int, pageSize: nat)
  {
    numTasks > 0 && requestsPerTask > 0 && pageSize != 0 && Config.PHYSICAL_MEMORY_SIZE % pageSize == 0
  }

  /** Every configured page size is accepted, and every accepted page size is a power of two. */
  lemma AcceptedPageSizes(pageSize: nat)
    ensures AcceptedArguments(1, 1, Config.PAGE_SIZE_1) && AcceptedArguments(1, 1, Config.PAGE_SIZE_2)
            && AcceptedArguments(1, 1, Config.PAGE_SIZE_3)
    ensures AcceptedArguments(1, 1, pageSize) ==> exists k :: 0 <= k <= 30 && pageSize == Config.Pow2(k)
  {
    Config.ConfiguredPageSizesValid();
    if AcceptedArguments(1, 1, pageSize) {
      var j := Config.ValidPageSizeIsPowerOfTwo(pageSize);
      assert pageSize == Config.Pow2(j);
    }
  }

  /** One draw of generate_for_task: section_dist gives 0..4, offset_dist 0..1023. */
  datatype Draw = Draw(section: nat, pageOffset: nat)

  predicate InRange(d: Draw)
  {
    d.section < 5 && d.pageOffset < 1024
  }

  /** logical_addr = bases[sec] + page_offset * page_size, in uint64_t arithmetic. */
  function GeneratedAddress(d: Draw, pageSize: nat): (a: nat)
    requires InRange(d)
    ensures a < TWO_64
  {
    Wrap64(Config.SectionBases()[d.section] + d.pageOffset * pageSize)
  }

  /**
   * For page sizes up to 1 GB the sum does not wrap, and for page sizes
   * dividing 64 KB (all the configured ones) the address is page aligned.
   */
  lemma GeneratedAddressAligned(d: Draw, pageSize: nat)
    requires InRange(d) && 0 < pageSize <= Config.PHYSICAL_MEMORY_SIZE
    ensures GeneratedAddress(d, pageSize) == Config.SectionBases()[d.section] + d.pageOffset * pageSize
    ensures 65536 % pageSize == 0 ==> GeneratedAddress(d, pageSize) % pageSize == 0
  {
    var base := Config.SectionBases()[d.section];
    Config.SectionBasesAligned();
    MulBound(d.pageOffset, 1024, pageSize, Config.PHYSICAL_MEMORY_SIZE);
    assert base + d.pageOffset * pageSize < TWO_64;
    if 65536 % pageSize == 0 {
      var r := 65536 / pageSize;
      var q := base / 65536;
      assert 65536 == r * pageSize;
      assert base == q * 65536;
      assert base == (q * r) * pageSize by {
        assert q * 65536 == q * (r * pageSize);
      }
      assert base + d.pageOffset * pageSize == (q * r + d.pageOffset) * pageSize;
      MultipleMod(q * r + d.pageOffset, pageSize);
    }
  }

  lemma MulBound(a: nat, b: nat, c: nat, d: nat)
    requires a < b && c <= d
    ensures a * c < b * d || c == 0
  {
    if c > 0 {
      assert a * c < b * c by {
        assert b * c == a * c + (b - a) * c;
      }
      assert b * c <= b * d by {
        assert b * d == b * c + b * (d - c);
      }
    }
  }

  lemma MultipleMod(m: nat, p: nat)
    requires p > 0
    ensures (m * p) % p == 0
  {
    DivisionBetween(m * p, p, m);
    assert m * p == (m * p / p) * p + (m * p) % p;
  }

  /**
   * The alignment claim needs page sizes that divide 64 KB: with 128 KB pages,
   * which the constructor accepts, the STACK base 0x7FFF0000 is not aligned.
   */
  lemma LargePageUnaligned()
    ensures AcceptedArguments(1, 1, 0x20000)
    ensures GeneratedAddress(Draw(3, 0), 0x20000) % 0x20000 == 0x10000
  {
  }

  /** The lines generate_for_task writes for the given draws, in order. */
  function GeneratedLines(taskIndex: nat, draws: seq<Draw>, pageSize: nat): (lines: seq<string>)
    requires forall i :: 0 <= i < |draws| ==> InRange(draws[i])
    ensures |lines| == |draws|
  {
    if draws == [] then []
    else
      var last := draws[|draws| - 1];
      GeneratedLines(taskIndex, draws[..|draws| - 1], pageSize)
        + [RequestLine(taskIndex, GeneratedAddress(last, pageSize), pageSize)]
  }

  lemma GeneratedLinesStep(taskIndex: nat, draws: seq<Draw>, pageSize: nat, i: nat)
    requires forall j :: 0 <= j < |draws| ==> InRange(draws[j])
    requires i < |draws|
    ensures GeneratedLines(taskIndex, draws[..i + 1], pageSize)
            == GeneratedLines(taskIndex, draws[..i], pageSize) + [RequestLine(taskIndex, GeneratedAddress(draws[i], pageSize), pageSize)]
  {
    assert draws[..i + 1][..i] == draws[..i];
  }

  /**
   * Each generated line is read back by parse_line as a one-page request of
   * task "T<index>" at the generated address, provided the page size is a
   * multiple of 1 KB; a smaller page size makes every line unreadable.
   */
  lemma {:induction false} GeneratedLinesParse(taskIndex: nat, draws: seq<Draw>, pageSize: nat, i: nat)
    requires forall j :: 0 <= j < |draws| ==> InRange(draws[j])
    requires 0 < pageSize <= Config.PHYSICAL_MEMORY_SIZE && i < |draws|
    ensures pageSize % 1024 == 0 ==>
              ParseLine(GeneratedLines(taskIndex, draws, pageSize)[i])
              == Some(TraceRequest("T" + DecimalString(taskIndex), GeneratedAddress(draws[i], pageSize), pageSize))
    ensures pageSize % 1024 != 0 ==> ParseLine(GeneratedLines(taskIndex, draws, pageSize)[i]) == None
    decreases |draws|
  {
    if i < |draws| - 1 {
      GeneratedLinesParse(taskIndex, draws[..|draws| - 1], pageSize, i);
    } else {
      RequestLineRoundTrip(taskIndex, GeneratedAddress(draws[i], pageSize), pageSize);
    }
  }

  class TestModule {
    const numTasks: nat
    const requestsPerTask: nat
    const pageSize: nat
    /** The lines of the output file, in the order they were appended. */
    var output: seq<string>

    ghost predicate Valid()
      reads this
    {
      AcceptedArguments(numTasks, requestsPerTask, pageSize)
    }

    constructor (numTasks: nat, requestsPerTask: nat, pageSize: nat)
      requires AcceptedArguments(numTasks, requestsPerTask, pageSize)
      ensures Valid() && output == []
      ensures this.numTasks == numTasks && this.requestsPerTask == requestsPerTask && this.pageSize == pageSize
    {
      this.numTasks := numTasks;
      this.requestsPerTask := requestsPerTask;
      this.pageSize := pageSize;
      output := [];
    }

    /** write_request: appends one line. */
    method WriteRequest(taskIndex: nat, logicalAddress: nat, sizeBytes: nat)
      modifies this
      ensures output == old(output) + [RequestLine(taskIndex, logicalAddress, sizeBytes)]
    {
      output := output + [RequestLine(taskIndex, logicalAddress, sizeBytes)];
    }

    /** generate_for_task: requests_per_task lines, one per draw, each one page long. */
    method GenerateForTask(taskIndex: nat, draws: seq<Draw>)
      requires Valid()
      requires |draws| >= requestsPerTask
      requires forall i :: 0 <= i < |draws| ==> InRange(draws[i])
      modifies this
      ensures output == old(output) + GeneratedLines(taskIndex, draws[..requestsPerTask], pageSize)
    {
      var i := 0;
      while i < requestsPerTask
        invariant 0 <= i <= requestsPerTask
        invariant output == old(output) + GeneratedLines(taskIndex, draws[..i], pageSize)
      {
        var d := draws[i];
        var logicalAddress := Wrap64(Config.SectionBases()[d.section] + d.pageOffset * pageSize);
        WriteRequest(taskIndex, logicalAddress, pageSize);
        GeneratedLinesStep(taskIndex, draws, pageSize, i);
        i := i + 1;
      }
    }
  }

  /**
   * The constructor: None where it throws invalid_argument (a non-positive
   * task or request count, a zero page size or one not dividing the physical memory size).
   */
  method NewTestModule(numTasks: int, requestsPerTask: int, pageSize: nat) returns (m: Option<TestModule>)
    ensures m.Some? <==> AcceptedArguments(numTasks, requestsPerTask, pageSize)
    ensures m.Some? ==> fresh(m.value) && m.value.Valid() && m.value.output == []
  {
    if !AcceptedArguments(numTasks, requestsPerTask, pageSize) {
      return None;
    }
    var created := new TestModule(numTasks, requestsPerTask, pageSize);
    return Some(created);
  }

  // ---------------------------------------------------------------------
  // test.cpp
  // ---------------------------------------------------------------------

  datatype SectionType = TEXT | DATA | HEAP | STACK | SHARED_LIB

  /** The position of a section in the enumeration. */
  function SectionIndex(s: SectionType): (i: nat)
    ensures i < 5
  {
    match s
    case TEXT => 0
    case DATA => 1
    case HEAP => 2
    case STACK => 3
    case SHARED_LIB => 4
  }

  /** static_cast<SectionType>(rand() % SECTIONS). */
  function SectionOf(draw: nat): (s: SectionType)
    ensures SectionIndex(s) == draw % 5
  {
    match draw % 5
    case 0 => TEXT
    case 1 => DATA
    case 2 => HEAP
    case 3 => STACK
    case _ => SHARED_LIB
  }

  /** sectionName: a name for each of the five sections; the "UNKNOWN" fallback is never reached. */
  function SectionName(s: SectionType): (name: string)
    ensures name != "UNKNOWN" && |name| >= 4
  {
    match s
    case TEXT => "TEXT"
    case DATA => "DATA"
    case HEAP => "HEAP"
    case STACK => "STACK"
    case SHARED_LIB => "SHARED_LIB"
  }

  /** Every section is drawn by some value, and distinct sections have distinct names. */
  lemma SectionsCovered(s: SectionType, t: SectionType)
    ensures SectionOf(SectionIndex(s)) == s
    ensures s != t ==> SectionName(s) != SectionName(t)
  {
    var i := SectionIndex(s);
    assert SectionIndex(SectionOf(i)) == i;
  }

  /**
   * sectionBase: the base address macro of the section, returned as uint32_t.
   * The macros come from a header that is not part of this model, so they are
   * the parameter bases, in enumeration order.
   */
  function SectionBase(s: SectionType, bases: seq<nat>): (b: nat)
    requires |bases| == 5
    ensures b < TWO_32
    ensures bases[SectionIndex(s)] < TWO_32 ==> b == bases[SectionIndex(s)]
  {
    Wrap32(bases[SectionIndex(s)])
  }

  /** getAlignedAddress: base + (rand() % 1024) * page_size in uint32_t arithmetic. */
  function AlignedAddress(base: nat, draw: nat, pageSize: nat): (a: nat)
    ensures a < TWO_32
  {
    Wrap32(base + (draw % 1024) * pageSize)
  }

  /**
   * When the section's 1024 pages fit below 2^32 and the base is aligned, the
   * address is an aligned page of the section.
   */
  lemma AlignedAddressInSection(base: nat, draw: nat, pageSize: nat)
    requires pageSize > 0 && base % pageSize == 0 && base + 1024 * pageSize <= TWO_32
    ensures AlignedAddress(base, draw, pageSize) % pageSize == 0
    ensures base <= AlignedAddress(base, draw, pageSize) < base + 1024 * pageSize
  {
    var k := draw % 1024;
    MulBound(k, 1024, pageSize, pageSize);
    var q := base / pageSize;
    assert base == q * pageSize;
    assert base + k * pageSize == (q + k) * pageSize;
    MultipleMod(q + k, pageSize);
  }

  /** The sizes array of randomSizeStr, in KB. */
  const SIZES_KB: seq<nat> := [4, 8, 16, 32]

  /** The size in KB randomSizeStr picks: sizes[rand() % 3]. */
  function RandomSizeKb(draw: nat): (kb: nat)
    ensures kb == 4 || kb == 8 || kb == 16
  {
    SIZES_KB[draw % 3]
  }

  /** randomSizeStr: only "4KB", "8KB" or "16KB"; the fourth entry, 32, is never chosen. */
  function RandomSizeStr(draw: nat): (s: string)
    ensures s == "4KB" || s == "8KB" || s == "16KB"
  {
    var kb := RandomSizeKb(draw);
    assert DecimalString(4) == "4" && DecimalString(8) == "8" && DecimalString(16) == "16";
    DecimalString(kb) + "KB"
  }

  /** A line of generateTaskTrace: "T<id>: 0x<lower-case hex>: <size>". */
  function TestLine(taskId: nat, address: nat, sizeStr: string): string
  {
    ("T" + DecimalString(taskId)) + ":" + AddressField(address, false) + ":" + (" " + sizeStr)
  }

  /** getline splits a test.cpp line into the id, the address field and the padded size. */
  lemma TestLineFields(taskId: nat, address: nat, draw: nat)
    ensures SplitLine(TestLine(taskId, address, RandomSizeStr(draw)))
            == Some(Fields("T" + DecimalString(taskId), AddressField(address, false), " " + RandomSizeStr(draw)))
  {
    SplitJoined("T" + DecimalString(taskId), AddressField(address, false), " " + RandomSizeStr(draw));
  }

  /** parse_line reads " <n>KB" as n KB. */
  lemma PaddedSizeField(kb: nat)
    requires kb * 1024 < TWO_64
    ensures ParseSizeField(" " + (DecimalString(kb) + "KB")) == Some(kb * 1024)
  {
    SizeFieldPadded(" ", DecimalString(kb) + "KB");
    KiloDigitsRead(kb);
  }

  /**
   * Both readers accept a test.cpp line: the legacy processLine reads the
   * untrimmed id, the address and the size in bytes, and parse_line the same.
   */
  lemma TestLineRoundTrip(taskId: nat, address: nat, draw: nat)
    requires address < TWO_32
    ensures ProcessLineLegacy(TestLine(taskId, address, RandomSizeStr(draw)))
            == Accesses("T" + DecimalString(taskId), address, RandomSizeKb(draw) * 1024)
    ensures ParseLine(TestLine(taskId, address, RandomSizeStr(draw)))
            == Some(TraceRequest("T" + DecimalString(taskId), address, RandomSizeKb(draw) * 1024))
  {
    var kb := RandomSizeKb(draw);
    var id := "T" + DecimalString(taskId);
    var line := TestLine(taskId, address, RandomSizeStr(draw));
    var sizeField := " " + RandomSizeStr(draw);
    assert sizeField == " " + (DecimalString(kb) + "KB");
    TestLineFields(taskId, address, draw);
    AddressFieldRoundTrip(address, false);
    LegacySizeField(kb);
    ProcessLineLegacyOfFields(line, id, AddressField(address, false), sizeField, address, kb * 1024);
    TaskIdSpaceFree(taskId);
    PaddedSizeField(kb);
    ParseLineOfFields(line, id, AddressField(address, false), sizeField, address, Some(kb * 1024));
  }

  /** parseSize reads " <n>KB" as n KB. */
  lemma LegacySizeField(kb: nat)
    requires kb * 1024 < TWO_32
    ensures ParseSizeLegacy(" " + (DecimalString(kb) + "KB")) == Some(kb * 1024)
  {
    LegacyKiloOccurs(kb);
    LegacyDigitsRead(kb);
    LegacyKiloRead(" " + (DecimalString(kb) + "KB"), kb);
  }

  lemma LegacyKiloOccurs(kb: nat)
    ensures Occurs(" " + (DecimalString(kb) + "KB"), "KB")
  {
    var digits := DecimalString(kb);
    var sizeField := " " + (digits + "KB");
    assert sizeField[1 + |digits|..1 + |digits| + 2] == "KB";
    OccursAt(sizeField, "KB", 1 + |digits|);
  }

  lemma LegacyDigitsRead(kb: nat)
    requires kb * 1024 < TWO_32
    ensures ParseNumber(" " + (DecimalString(kb) + "KB"), 10, INT_MAX) == Some(kb)
  {
    MulMonotonic(1, 1024, kb);
    var digits := DecimalString(kb);
    assert (digits + "KB")[0] == digits[0];
    ParseAfterSpaces(" ", digits + "KB", 10, INT_MAX);
    DecimalRoundTrip(kb, "KB", INT_MAX);
  }

  /** parseSize from its parts, for a field that contains KB and a size below 4 GB. */
  lemma LegacyKiloRead(field: string, n: nat)
    requires Occurs(field, "KB") && ParseNumber(field, 10, INT_MAX) == Some(n)
    requires n * 1024 < TWO_32
    ensures ParseSizeLegacy(field) == Some(n * 1024)
  {
  }

  /** A pattern found in s is found in any text that ends with s. */
  lemma {:induction false} OccursAfter(prefix: string, s: string, pat: string)
    requires Occurs(s, pat)
    ensures Occurs(prefix + s, pat)
    decreases |prefix|
  {
    if prefix == [] {
      assert prefix + s == s;
    } else {
      assert (prefix + s)[1..] == prefix[1..] + s;
      OccursAfter(prefix[1..], s, pat);
    }
  }

  /**
   * parseSize on "<n>" followed by text holding a unit: std::stoi reads n,
   * which is multiplied by 1024 when "KB" occurs anywhere in the field (even
   * after an "MB") and otherwise by 1024^2, in uint32_t arithmetic.
   */
  lemma LegacySizeValue(n: nat, rest: string)
    requires n <= INT_MAX && rest != [] && !IsDecDigit(rest[0])
    requires Occurs(rest, "KB") || Occurs(rest, "MB")
    ensures var field := DecimalString(n) + rest;
            ParseSizeLegacy(field) == Some(Wrap32(n * (if Occurs(field, "KB") then 1024 else 0x10_0000)))
  {
    var field := DecimalString(n) + rest;
    if Occurs(rest, "KB") {
      OccursAfter(DecimalString(n), rest, "KB");
    } else {
      OccursAfter(DecimalString(n), rest, "MB");
    }
    DecimalRoundTrip(n, rest, INT_MAX);
  }

  /** "<n>MB" holds no "KB", so parseSize reads n * 1024^2 modulo 2^32. */
  lemma LegacyMegaRead(n: nat)
    requires n <= INT_MAX
    ensures ParseSizeLegacy(DecimalString(n) + "MB") == Some(Wrap32(n * 0x10_0000))
  {
    var field := DecimalString(n) + "MB";
    assert "MB"[..2] == "MB";
    OccursAt("MB", "MB", 0);
    forall i | 0 <= i < |field| - 1
      ensures !(field[i] == "KB"[0] && field[i + 1] == "KB"[1])
    {
      if i < |DecimalString(n)| {
        assert IsDecDigit(field[i]);
      } else {
        assert field[i] == 'M';
      }
    }
    OccursNot(field, "KB");
    LegacySizeValue(n, "MB");
  }

  /** When both units occur, KB wins: "3MB KB" is 3 KB, not 3 MB. */
  lemma LegacyKiloWins()
    ensures ParseSizeLegacy(DecimalString(3) + "MB KB") == Some(3072)
  {
    var rest := "MB KB";
    assert rest[3..5] == "KB";
    OccursAt(rest, "KB", 3);
    OccursAfter(DecimalString(3), rest, "KB");
    LegacySizeValue(3, rest);
  }

  /** 4194304 KB is 2^32 bytes, which a uint32_t holds as 0. */
  lemma LegacySizeWraps()
    ensures ParseSizeLegacy(DecimalString(0x40_0000) + "KB") == Some(0)
  {
    assert "KB"[..2] == "KB";
    OccursAt("KB", "KB", 0);
    LegacySizeValue(0x40_0000, "KB");
    OccursAfter(DecimalString(0x40_0000), "KB", "KB");
  }

  /** One draw of generateTaskTrace: the three rand() values a line consumes, in order. */
  datatype LineDraw = LineDraw(section: nat, offset: nat, size: nat)

  /** The line generateTaskTrace writes for one draw. */
  function TaskTraceLine(taskId: nat, d: LineDraw, bases: seq<nat>, pageSize: nat): string
    requires |bases| == 5
  {
    var base := SectionBase(SectionOf(d.section), bases);
    TestLine(taskId, AlignedAddress(base, d.offset, pageSize), RandomSizeStr(d.size))
  }

  /** The lines generateTaskTrace writes for the given draws, in order. */
  function TaskTraceLines(taskId: nat, draws: seq<LineDraw>, bases: seq<nat>, pageSize: nat): (lines: seq<string>)
    requires |bases| == 5
    ensures |lines| == |draws|
  {
    if draws == [] then []
    else TaskTraceLines(taskId, draws[..|draws| - 1], bases, pageSize)
         + [TaskTraceLine(taskId, draws[|draws| - 1], bases, pageSize)]
  }

  /**
   * generateTaskTrace: num_lines lines for task "T<id>". The page size is
   * MIN_PAGE_SIZE_KB * 1024 held in a uint32_t.
   */
  method GenerateTaskTrace(taskId: nat, numLines: int, draws: seq<LineDraw>, bases: seq<nat>, minPageSizeKb: nat)
    returns (lines: seq<string>)
    requires |bases| == 5
    requires |draws| >= numLines
    ensures numLines <= 0 ==> lines == []
    ensures numLines > 0 ==> lines == TaskTraceLines(taskId, draws[..numLines], bases, Wrap32(minPageSizeKb * 1024))
  {
    var pageSize := Wrap32(minPageSizeKb * 1024);
    lines := [];
    var i := 0;
    while i < numLines
      invariant 0 <= i <= (if numLines > 0 then numLines else 0)
      invariant lines == TaskTraceLines(taskId, draws[..i], bases, pageSize)
    {
      var d := draws[i];
      var section := SectionOf(d.section);
      var address := AlignedAddress(SectionBase(section, bases), d.offset, pageSize);
      lines := lines + [TestLine(taskId, address, RandomSizeStr(d.size))];
      assert draws[..i + 1][..i] == draws[..i];
      i := i + 1;
    }
  }

  /** Every line generateTaskTrace writes is accepted by both readers as a 4, 8 or 16 KB request of its task. */
  lemma {:induction false} TaskTraceLinesRead(taskId: nat, draws: seq<LineDraw>, bases: seq<nat>, pageSize: nat, i: nat)
    requires |bases| == 5 && i < |draws|
    ensures var line := TaskTraceLines(taskId, draws, bases, pageSize)[i];
            var address := AlignedAddress(SectionBase(SectionOf(draws[i].section), bases), draws[i].offset, pageSize);
            && ProcessLineLegacy(line) == Accesses("T" + DecimalString(taskId), address, RandomSizeKb(draws[i].size) * 1024)
            && ParseLine(line) == Some(TraceRequest("T" + DecimalString(taskId), address, RandomSizeKb(draws[i].size) * 1024))
    decreases |draws|
  {
    if i < |draws| - 1 {
      TaskTraceLinesRead(taskId, draws[..|draws| - 1], bases, pageSize, i);
    } else {
      var address := AlignedAddress(SectionBase(SectionOf(draws[i].section), bases), draws[i].offset, pageSize);
      TestLineRoundTrip(taskId, address, draws[i].size);
    }
  }

  // ---------------------------------------------------------------------
  // distributeLines
  // ---------------------------------------------------------------------

  /**
   * The distribution after the given draws: every task starts with one line
   * and each draw gives one more line to task draw % num_tasks.
   */
  function Tally(numTasks: nat, draws: seq<nat>): (t: seq<int>)
    requires numTasks > 0 || draws == []
    ensures |t| == numTasks
  {
    if draws == [] then seq(numTasks, _ => 1)
    else
      var before := Tally(numTasks, draws[..|draws| - 1]);
      var k := draws[|draws| - 1] % numTasks;
      before[k := before[k] + 1]
  }

  function Sum(s: seq<int>): int
  {
    if s == [] then 0 else Sum(s[..|s| - 1]) + s[|s| - 1]
  }

  lemma {:induction false} SumOnes(n: nat)
    ensures Sum(seq(n, _ => 1)) == n
    decreases n
  {
    if n > 0 {
      assert seq(n, _ => 1)[..n - 1] == seq(n - 1, _ => 1);
      SumOnes(n - 1);
    }
  }

  lemma {:induction false} SumBump(s: seq<int>, k: nat)
    requires k < |s|
    ensures Sum(s[k := s[k] + 1]) == Sum(s) + 1
    decreases |s|
  {
    var t := s[k := s[k] + 1];
    if k < |s| - 1 {
      assert t[..|t| - 1] == s[..|s| - 1][k := s[k] + 1];
      SumBump(s[..|s| - 1], k);
    } else {
      assert t[..|t| - 1] == s[..|s| - 1];
    }
  }

  /** Every task keeps at least one line, and the lines add up to one per task plus one per draw. */
  lemma {:induction false} TallyCounts(numTasks: nat, draws: seq<nat>)
    requires numTasks > 0 || draws == []
    ensures forall i :: 0 <= i < numTasks ==> Tally(numTasks, draws)[i] >= 1
    ensures Sum(Tally(numTasks, draws)) == numTasks + |draws|
    decreases |draws|
  {
    if draws == [] {
      SumOnes(numTasks);
    } else {
      var before := Tally(numTasks, draws[..|draws| - 1]);
      TallyCounts(numTasks, draws[..|draws| - 1]);
      SumBump(before, draws[|draws| - 1] % numTasks);
    }
  }

  /**
   * distributeLines: num_tasks entries, each 1 at first, then one more line
   * to task draw % num_tasks for each of the total_lines - num_tasks draws.
   * Each entry is at least 1, and when total_lines >= num_tasks the entries
   * sum to total_lines.
   */
  method DistributeLines(totalLines: int, numTasks: nat, draws: seq<nat>) returns (distribution: array<int>)
    requires numTasks > 0 || totalLines <= 0
    requires |draws| >= totalLines - numTasks
    ensures fresh(distribution) && distribution.Length == numTasks
    ensures distribution[..] == Tally(numTasks, if totalLines > numTasks then draws[..totalLines - numTasks] else [])
    ensures forall i :: 0 <= i < numTasks ==> distribution[i] >= 1
    ensures totalLines >= numTasks ==> Sum(distribution[..]) == totalLines
  {
    distribution := new int[numTasks];
    for i := 0 to numTasks
      invariant forall j :: 0 <= j < i ==> distribution[j] == 1
    {
      distribution[i] := 1;
    }
    assert distribution[..] == Tally(numTasks, draws[..0]);
    var remaining := totalLines - numTasks;
    var used := 0;
    while remaining > 0
      invariant 0 <= used <= |draws|
      invariant remaining > 0 ==> used + remaining == totalLines - numTasks
      invariant remaining <= 0 ==> used == (if totalLines > numTasks then totalLines - numTasks else 0)
      invariant distribution[..] == Tally(numTasks, draws[..used])
      decreases remaining
    {
      var taskIndex := draws[used] % numTasks;
      distribution[taskIndex] := distribution[taskIndex] + 1;
      assert draws[..used + 1][..used] == draws[..used];
      used := used + 1;
      remaining := remaining - 1;
    }
    TallyCounts(numTasks, draws[..used]);
  }
}
