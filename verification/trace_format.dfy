/**
 * The trace-line text format as the readers understand it.
 *
 * A line is "T<ID>: 0x<hex address>:<size>". The IO module's parse_line
 * removes every white-space character from the task id, trims the address
 * and the size fields, reads the address in base 16 and requires a size
 * suffix KB or MB in any letter case. The legacy readers split the same
 * three fields, keep them untrimmed, and find "KB" or "MB" anywhere in the
 * size field.
 */
module TraceFormat {
  import opened Common
  import Translation

  // ---------------------------------------------------------------------
  // Text helpers
  // ---------------------------------------------------------------------

  /** s without its leading characters from " \t\r\n". */
  function TrimFront(s: string): (t: string)
    ensures |t| <= |s|
    ensures t == [] || !IsTrimmed(t[0])
    ensures forall i :: 0 <= i < |s| - |t| ==> IsTrimmed(s[i])
  {
    if s != [] && IsTrimmed(s[0]) then TrimFront(s[1..]) else s
  }

  /** s without its trailing characters from " \t\r\n". */
  function TrimBack(s: string): (t: string)
    ensures |t| <= |s| && t == s[..|t|]
    ensures t == [] || !IsTrimmed(t[|t| - 1])
    ensures forall i :: |t| <= i < |s| ==> IsTrimmed(s[i])
  {
    if s != [] && IsTrimmed(s[|s| - 1]) then TrimBack(s[..|s| - 1]) else s
  }

  /** The two erase calls: leading, then trailing " \t\r\n" removed. */
  function Trim(s: string): (t: string)
    ensures |t| <= |s|
    ensures t == [] || (!IsTrimmed(t[0]) && !IsTrimmed(t[|t| - 1]))
  {
    TrimBack(TrimFront(s))
  }

  /** Leading trimmed characters before a string with untrimmed ends are removed exactly. */
  lemma TrimPadded(lead: string, t: string)
    requires forall i :: 0 <= i < |lead| ==> IsTrimmed(lead[i])
    requires t != [] && !IsTrimmed(t[0]) && !IsTrimmed(t[|t| - 1])
    ensures Trim(lead + t) == t
  {
    TrimFrontPadded(lead, t);
  }

  lemma {:induction false} TrimFrontPadded(lead: string, s: string)
    requires forall i :: 0 <= i < |lead| ==> IsTrimmed(lead[i])
    requires s == [] || !IsTrimmed(s[0])
    ensures TrimFront(lead + s) == s
    decreases |lead|
  {
    if lead == [] {
      assert lead + s == s;
    } else {
      assert (lead + s)[1..] == lead[1..] + s;
      TrimFrontPadded(lead[1..], s);
    }
  }

  /** The erase/remove_if idiom with ::isspace: every white-space character removed. */
  function RemoveSpaces(s: string): (t: string)
    ensures |t| <= |s|
    ensures forall c :: c in t <==> c in s && !IsSpace(c)
  {
    if s == [] then []
    else (if IsSpace(s[0]) then [] else [s[0]]) + RemoveSpaces(s[1..])
  }

  /** A string without white space is its own space-free form. */
  lemma {:induction false} RemoveSpacesNone(s: string)
    requires forall i :: 0 <= i < |s| ==> !IsSpace(s[i])
    ensures RemoveSpaces(s) == s
    decreases |s|
  {
    if s != [] {
      var t := s[1..];
      assert forall i :: 0 <= i < |t| ==> t[i] == s[i + 1];
      RemoveSpacesNone(t);
      assert RemoveSpaces(s) == [s[0]] + RemoveSpaces(t);
      assert s == [s[0]] + t;
    }
  }

  /** The index of the first c in s, or |s| when there is none. */
  function IndexOf(s: string, c: char): (k: nat)
    ensures k <= |s|
    ensures forall i :: 0 <= i < k ==> s[i] != c
    ensures k < |s| ==> s[k] == c
  {
    if s == [] then 0 else if s[0] == c then 0 else 1 + IndexOf(s[1..], c)
  }

  lemma {:induction false} IndexOfIs(s: string, c: char, k: nat)
    requires k <= |s| && (forall i :: 0 <= i < k ==> s[i] != c) && (k < |s| ==> s[k] == c)
    ensures IndexOf(s, c) == k
    decreases k
  {
    if k > 0 {
      IndexOfIs(s[1..], c, k - 1);
    }
  }

  // ---------------------------------------------------------------------
  // Splitting a line into its three fields
  // ---------------------------------------------------------------------

  /** s split at its first c, or None when c does not occur. */
  function SplitOnce(s: string, c: char): (r: Option<(string, string)>)
    ensures r.None? <==> c !in s
    ensures r.Some? ==> c !in r.value.0 && s == r.value.0 + [c] + r.value.1
  {
    var k := IndexOf(s, c);
    if k == |s| then None
    else
      assert s == s[..k] + [c] + s[k + 1..];
      Some((s[..k], s[k + 1..]))
  }

  lemma SplitOnceJoined(a: string, c: char, b: string)
    requires c !in a
    ensures SplitOnce(a + [c] + b, c) == Some((a, b))
  {
    IndexOfIs(a + [c] + b, c, |a|);
    assert (a + [c] + b)[..|a|] == a;
    assert (a + [c] + b)[|a| + 1..] == b;
  }

  datatype Fields = Fields(taskField: string, addressField: string, sizeField: string)

  /**
   * The fields the three getline calls read: up to the first ':', up to the
   * next ':', and the rest up to a newline. None when the third getline
   * fails, i.e. the line has fewer than two ':' or nothing after the second.
   */
  function SplitLine(line: string): Option<Fields>
  {
    match SplitOnce(line, ':')
    case None => None
    case Some((a, rest)) =>
      match SplitOnce(rest, ':')
      case None => None
      case Some((b, tail)) =>
        if tail == [] then None
        else Some(Fields(a, b, tail[..IndexOf(tail, '\n')]))
  }

  /**
   * The fields are what getline reads: the first two hold no ':', the third no
   * newline, and the line is the first field, ':', the second, ':' and a
   * non-empty rest that starts with the third. A line without ':' has no fields.
   */
  lemma SplitLineFields(line: string)
    ensures SplitLine(line).Some? ==>
              var f := SplitLine(line).value;
              && ':' !in f.taskField && ':' !in f.addressField && '\n' !in f.sizeField
              && exists rest :: line == f.taskField + [':'] + (f.addressField + [':'] + rest)
                                && rest != [] && f.sizeField <= rest
    ensures ':' !in line ==> SplitLine(line).None?
  {
    match SplitOnce(line, ':')
    case None =>
    case Some((a, rest)) =>
      match SplitOnce(rest, ':')
      case None =>
      case Some((b, tail)) =>
        if tail != [] {
          var f := Fields(a, b, tail[..IndexOf(tail, '\n')]);
          assert SplitLine(line) == Some(f);
          assert '\n' !in f.sizeField;
          assert f.sizeField <= tail;
          assert line == a + [':'] + (b + [':'] + tail);
        }
  }

  /** Joining three fields with ':' and splitting the line gives them back. */
  lemma SplitJoined(a: string, b: string, c: string)
    requires ':' !in a && ':' !in b && '\n' !in c && c != []
    ensures SplitLine(a + ":" + b + ":" + c) == Some(Fields(a, b, c))
  {
    assert a + ":" + b + ":" + c == a + [':'] + (b + [':'] + c);
    SplitOnceJoined(a, ':', b + [':'] + c);
    SplitOnceJoined(b, ':', c);
    IndexOfIs(c, '\n', |c|);
    assert c[..|c|] == c;
  }

  // ---------------------------------------------------------------------
  // IO_Module::parse_line
  // ---------------------------------------------------------------------

  /** A request as parse_line returns it. */
  datatype TraceRequest = TraceRequest(taskId: string, logicalAddress: nat, sizeBytes: nat)

  predicate IsKiloSuffix(s: string)
  {
    s == "KB" || s == "kb" || s == "Kb" || s == "kB"
  }

  predicate IsMegaSuffix(s: string)
  {
    s == "MB" || s == "mb" || s == "Mb" || s == "mB"
  }

  /**
   * The size field: trimmed, at least two characters, ending in KB or MB in
   * any letter case after a decimal number read by std::stoull; the number
   * times 1024 or 1024^2 in uint64_t arithmetic.
   */
  function ParseSizeField(field: string): (r: Option<nat>)
    ensures r.Some? ==> r.value < TWO_64
  {
    var t := Trim(field);
    if |t| < 2 then None
    else
      var suffix := t[|t| - 2..];
      var multiplier := if IsKiloSuffix(suffix) then 1024 else if IsMegaSuffix(suffix) then 1024 * 1024 else 0;
      if multiplier == 0 then None
      else
        match ParseNumber(t[..|t| - 2], 10, TWO_64 - 1)
        case None => None
        case Some(v) => Some(Wrap64(v * multiplier))
  }

  /** A size field is read only when its trimmed form ends in a KB or MB suffix. */
  lemma ParseSizeFieldSuffix(field: string)
    ensures ParseSizeField(field).Some? ==>
              var t := Trim(field);
              |t| >= 2 && (IsKiloSuffix(t[|t| - 2..]) || IsMegaSuffix(t[|t| - 2..]))
  {
  }

  /**
   * parse_line: the task id is the first field with all white space removed,
   * the address the trimmed second field in base 16 (an optional 0x), the
   * size the third field as ParseSizeField reads it. None is a rejected line.
   */
  function ParseLine(line: string): (r: Option<TraceRequest>)
    ensures SplitLine(line).None? ==> r.None?
    ensures r.Some? ==>
              && r.value.logicalAddress < TWO_64 && r.value.sizeBytes < TWO_64
              && forall c :: c in r.value.taskId ==> !IsSpace(c)
  {
    match SplitLine(line)
    case None => None
    case Some(f) =>
      var address := ParseNumber(Trim(f.addressField), 16, TWO_64 - 1);
      var size := ParseSizeField(f.sizeField);
      if address.None? || size.None? then None
      else Some(TraceRequest(RemoveSpaces(f.taskField), address.value, size.value))
  }

  /** parse_line on a line whose fields are known, each read as given. */
  lemma ParseLineOfFields(line: string, id: string, address: string, size: string,
                          logicalAddress: nat, sizeBytes: Option<nat>)
    requires SplitLine(line) == Some(Fields(id, address, size))
    requires RemoveSpaces(id) == id
    requires ParseNumber(Trim(address), 16, TWO_64 - 1) == Some(logicalAddress)
    requires ParseSizeField(size) == sizeBytes
    ensures ParseLine(line) == if sizeBytes.None? then None else Some(TraceRequest(id, logicalAddress, sizeBytes.value))
  {
  }

  /** A line with no second ':' is rejected. */
  lemma FewColonsRejected(line: string, first: nat)
    requires first <= |line|
    requires forall i :: 0 <= i < |line| && i != first ==> line[i] != ':'
    ensures ParseLine(line).None?
  {
    var i := IndexOf(line, ':');
    if i < |line| {
      assert i == first;
      var rest := line[i + 1..];
      assert forall k :: 0 <= k < |rest| ==> rest[k] == line[i + 1 + k];
      IndexOfIs(rest, ':', |rest|);
    }
  }

  /** The lines the IO module's run skips before parsing: blank once trimmed, or a comment. */
  predicate IsSkippedLine(line: string)
  {
    var t := Trim(line);
    t == [] || t[0] == '#'
  }

  // ---------------------------------------------------------------------
  // The legacy readers' parseSize and processLine
  // ---------------------------------------------------------------------

  /** Whether pat occurs in s (std::string::find does not return npos). */
  function Occurs(s: string, pat: string): (b: bool)
    ensures b ==> |pat| <= |s|
    decreases |s|
  {
    if |s| < |pat| then false
    else if s[..|pat|] == pat then true
    else s != [] && Occurs(s[1..], pat)
  }

  lemma {:induction false} OccursAt(s: string, pat: string, i: nat)
    requires i + |pat| <= |s| && s[i..i + |pat|] == pat
    ensures Occurs(s, pat)
    decreases i
  {
    if i > 0 && s[..|pat|] != pat {
      assert s[1..][i - 1..i - 1 + |pat|] == s[i..i + |pat|];
      OccursAt(s[1..], pat, i - 1);
    }
  }

  lemma {:induction false} OccursNot(s: string, pat: string)
    requires |pat| == 2
    requires forall i :: 0 <= i < |s| - 1 ==> !(s[i] == pat[0] && s[i + 1] == pat[1])
    ensures !Occurs(s, pat)
    decreases |s|
  {
    if |s| >= 2 {
      assert s[..2] != pat by {
        assert !(s[0] == pat[0] && s[1] == pat[1]);
      }
      OccursNot(s[1..], pat);
    }
  }

  /**
   * parseSize: multiplier 1024 when "KB" occurs, else 1024^2 when "MB"
   * occurs (letter case matters), else 0 with no number read; then the number
   * std::stoi reads from the whole field times the multiplier, in uint32_t
   * arithmetic. None is the exception std::stoi throws.
   */
  function ParseSizeLegacy(field: string): (r: Option<nat>)
    ensures r.Some? ==> r.value < TWO_32
    ensures !Occurs(field, "KB") && !Occurs(field, "MB") ==> r == Some(0)
  {
    var multiplier := if Occurs(field, "KB") then 1024 else if Occurs(field, "MB") then 1024 * 1024 else 0;
    if multiplier == 0 then Some(0)
    else
      match ParseNumber(field, 10, INT_MAX)
      case None => None
      case Some(n) => Some(Wrap32(n * multiplier))
  }

  /** A multiple of 1024 stays one when reduced modulo 2^32, since 1024 divides 2^32. */
  lemma KiloMultipleWraps(k: nat)
    ensures Wrap32(k * 1024) % 1024 == 0
  {
    var q := k / 0x40_0000;
    var r := k % 0x40_0000;
    assert k * 1024 == q * TWO_32 + r * 1024;
    DivisionBetween(k * 1024, TWO_32, q);
    assert Wrap32(k * 1024) == r * 1024;
    DivisionBetween(r * 1024, 1024, r);
  }

  /**
   * With 1 KB pages the legacy readers' 32-bit sum size + page_size - 1 never
   * wraps: every size parseSize yields is a multiple of 1024 below 2^32, so
   * the page count is the rounded-up quotient for every size field.
   */
  lemma LegacySizeNoWrapAt1K(field: string)
    requires ParseSizeLegacy(field).Some?
    ensures ParseSizeLegacy(field).value % 1024 == 0
    ensures var size := ParseSizeLegacy(field).value;
            Translation.WrappedPageCount(size, 1024, TWO_32) == Translation.PageCount(size, 1024)
  {
    var size := ParseSizeLegacy(field).value;
    if Occurs(field, "KB") || Occurs(field, "MB") {
      var n := ParseNumber(field, 10, INT_MAX).value;
      var k := if Occurs(field, "KB") then n else n * 1024;
      assert size == Wrap32(k * 1024);
      KiloMultipleWraps(k);
    }
    var j := size / 1024;
    assert size == j * 1024;
    assert size + 1023 < TWO_32;
    Translation.WrappedPageCountAgrees(size, 1024, TWO_32);
  }

  /** What processLine does with one line. */
  datatype LegacyLine =
    | Skip                      // a field is empty: "Malformed line"
    | Abort                     // std::stoul or std::stoi throws out of the reader
    | Accesses(taskId: string, logicalAddress: nat, sizeBytes: nat)

  /**
   * processLine: a line with an empty field is skipped; otherwise the address
   * is read by std::stoul in base 16 and kept as uint32_t, and the size by
   * parseSize; the task id is the first field as written.
   */
  function ProcessLineLegacy(line: string): (r: LegacyLine)
    ensures r.Accesses? ==> r.logicalAddress < TWO_32 && r.sizeBytes < TWO_32 && r.taskId != []
    ensures SplitLine(line).None? ==> r.Skip?
  {
    match SplitLine(line)
    case None => Skip
    case Some(f) =>
      if f.taskField == [] || f.addressField == [] || f.sizeField == [] then Skip
      else
        match ParseNumber(f.addressField, 16, TWO_64 - 1)
        case None => Abort
        case Some(a) =>
          match ParseSizeLegacy(f.sizeField)
          case None => Abort
          case Some(size) => Accesses(f.taskField, Wrap32(a), size)
  }

  /** processLine on a line whose fields are known, each read as given. */
  lemma ProcessLineLegacyOfFields(line: string, id: string, address: string, size: string,
                                  logicalAddress: nat, sizeBytes: nat)
    requires SplitLine(line) == Some(Fields(id, address, size))
    requires id != [] && address != [] && size != []
    requires ParseNumber(address, 16, TWO_64 - 1) == Some(logicalAddress)
    requires ParseSizeLegacy(size) == Some(sizeBytes)
    ensures ProcessLineLegacy(line) == Accesses(id, Wrap32(logicalAddress), sizeBytes)
  {
  }

  /**
   * The addresses processLine passes to accessMemory: one per page of the
   * request, page_size apart, each a uint32_t. The count is the rounded-up
   * quotient (see Translation.WrappedPageCount for the count as written).
   */
  function LegacyAccessAddresses(logicalAddress: nat, sizeBytes: nat, pageSize: nat): (r: seq<nat>)
    requires pageSize > 0
    ensures |r| == Translation.PageCount(sizeBytes, pageSize)
    ensures forall i :: 0 <= i < |r| ==> r[i] < TWO_32
  {
    seq(Translation.PageCount(sizeBytes, pageSize), i => Wrap32(logicalAddress + i * pageSize))
  }

  /** The i-th address is the i-th page after the first. */
  lemma LegacyAccessAddressAt(logicalAddress: nat, sizeBytes: nat, pageSize: nat, i: nat)
    requires pageSize > 0 && i < Translation.PageCount(sizeBytes, pageSize)
    ensures LegacyAccessAddresses(logicalAddress, sizeBytes, pageSize)[i] == Wrap32(logicalAddress + i * pageSize)
  {
  }

  /**
   * Without 32-bit wrap-around the legacy readers visit the same pages as
   * Task::process_request: the page of the i-th address is the i-th page of
   * the request.
   */
  lemma LegacyVisitsRequestPages(logicalAddress: nat, sizeBytes: nat, pageSize: nat, i: nat)
    requires pageSize > 0 && logicalAddress % pageSize == 0
    requires logicalAddress + sizeBytes <= TWO_32
    requires i < Translation.PageCount(sizeBytes, pageSize)
    ensures LegacyAccessAddresses(logicalAddress, sizeBytes, pageSize)[i] / pageSize
            == Translation.RequestPages(logicalAddress, sizeBytes, pageSize)[i]
  {
    var n := Translation.PageCount(sizeBytes, pageSize);
    var s := logicalAddress / pageSize;
    MulMonotonic(i + 1, n, pageSize);
    assert (i + 1) * pageSize == i * pageSize + pageSize;
    assert logicalAddress + i * pageSize < TWO_32;
    assert logicalAddress == s * pageSize;
    assert logicalAddress + i * pageSize == (s + i) * pageSize;
    DivisionBetween(logicalAddress + i * pageSize, pageSize, s + i);
    Translation.PageRangeAt(s, n, i);
    DivisionBetween(logicalAddress, pageSize, s);
    MulMonotonic(1, pageSize, s + i);
  }
}
