/**
 * Shared vocabulary of the translation simulator: optional values, the
 * fixed-width unsigned arithmetic the C++ code relies on, and the number
 * formatting and parsing used by the trace text format.
 */
module Common {

  datatype Option<T> = None | Some(value: T)

  /** 2^32 and 2^64: the moduli of uint32_t and uint64_t arithmetic. */
  const TWO_32: nat := 0x1_0000_0000
  const TWO_64: nat := 0x1_0000_0000_0000_0000

  /** INT_MAX of a 32-bit int, the upper bound std::stoi accepts. */
  const INT_MAX: nat := 0x7FFF_FFFF

  /** The value a uint32_t holds after an assignment of x. */
  function Wrap32(x: int): (r: nat)
    ensures r < TWO_32
    ensures 0 <= x < TWO_32 ==> r == x
  {
    x % TWO_32
  }

  /** The value a uint64_t holds after an assignment of x. */
  function Wrap64(x: int): (r: nat)
    ensures r < TWO_64
    ensures 0 <= x < TWO_64 ==> r == x
  {
    x % TWO_64
  }

  // ---------------------------------------------------------------------
  // Characters
  // ---------------------------------------------------------------------

  /** The characters std::isspace accepts in the "C" locale. */
  predicate IsSpace(c: char)
  {
    c == ' ' || c == '\t' || c == '\n' || c == '\r' || c == '\U{0B}' || c == '\U{0C}'
  }

  /** The characters " \t\r\n" that find_first_not_of / find_last_not_of trim. */
  predicate IsTrimmed(c: char)
  {
    c == ' ' || c == '\t' || c == '\r' || c == '\n'
  }

  predicate IsDecDigit(c: char)
  {
    '0' <= c <= '9'
  }

  predicate IsHexDigit(c: char)
  {
    '0' <= c <= '9' || 'a' <= c <= 'f' || 'A' <= c <= 'F'
  }

  predicate IsDigitIn(c: char, base: nat)
  {
    if base == 16 then IsHexDigit(c) else IsDecDigit(c)
  }

  function DigitValue(c: char): (d: nat)
    requires IsHexDigit(c)
    ensures d < 16
    ensures IsDecDigit(c) ==> d < 10
  {
    if '0' <= c <= '9' then (c as int - '0' as int)
    else if 'a' <= c <= 'f' then (c as int - 'a' as int) + 10
    else (c as int - 'A' as int) + 10
  }

  /** The digit character std::ostream writes for d (upper-case with std::uppercase). */
  function DigitChar(d: nat, upper: bool): (c: char)
    requires d < 16
    ensures IsHexDigit(c) && DigitValue(c) == d
    ensures d < 10 ==> IsDecDigit(c)
  {
    if d < 10 then ('0' as int + d) as char
    else if upper then ('A' as int + (d - 10)) as char
    else ('a' as int + (d - 10)) as char
  }

  // ---------------------------------------------------------------------
  // Formatting: std::to_string / operator<< on unsigned values
  // ---------------------------------------------------------------------

  /** The digits of n in the given base, most significant first, no leading zeros. */
  function Digits(n: nat, base: nat, upper: bool): (s: string)
    requires base == 10 || base == 16
    ensures |s| >= 1
    ensures forall i :: 0 <= i < |s| ==> IsDigitIn(s[i], base) && IsHexDigit(s[i])
    decreases n
  {
    if n < base then [DigitChar(n, upper)]
    else Digits(n / base, base, upper) + [DigitChar(n % base, upper)]
  }

  /** std::to_string(n) for an unsigned n. */
  function DecimalString(n: nat): (s: string)
    ensures |s| >= 1 && forall i :: 0 <= i < |s| ==> IsDecDigit(s[i])
  {
    Digits(n, 10, false)
  }

  /** `std::hex << n` (`std::uppercase` when upper): hexadecimal without leading zeros. */
  function HexString(n: nat, upper: bool): (s: string)
    ensures |s| >= 1 && forall i :: 0 <= i < |s| ==> IsHexDigit(s[i])
  {
    Digits(n, 16, upper)
  }

  // ---------------------------------------------------------------------
  // Parsing: the digit-prefix reading done by std::stoull / std::stoul / std::stoi
  // ---------------------------------------------------------------------

  /** The value of a string of digits in the given base. */
  function ValueOf(s: string, base: nat): (v: nat)
    requires base == 10 || base == 16
    requires forall i :: 0 <= i < |s| ==> IsDigitIn(s[i], base)
  {
    if s == [] then 0
    else
      assert IsDigitIn(s[|s| - 1], base);
      ValueOf(s[..|s| - 1], base) * base + DigitValue(s[|s| - 1])
  }

  /** Length of the longest prefix of s made of digits of the base. */
  function DigitRun(s: string, base: nat): (k: nat)
    ensures k <= |s|
    ensures forall i :: 0 <= i < k ==> IsDigitIn(s[i], base)
    ensures k < |s| ==> !IsDigitIn(s[k], base)
  {
    if s == [] || !IsDigitIn(s[0], base) then 0 else 1 + DigitRun(s[1..], base)
  }

  /** s without its leading white space (strtoull skips it). */
  function SkipSpaces(s: string): (t: string)
    ensures |t| <= |s|
    ensures t == [] || !IsSpace(t[0])
  {
    if s != [] && IsSpace(s[0]) then SkipSpaces(s[1..]) else s
  }

  /** t without a "0x"/"0X" prefix, in base 16, when a hex digit follows the prefix. */
  function StripRadixPrefix(t: string, base: nat): (u: string)
    ensures |u| <= |t|
  {
    if base == 16 && |t| >= 3 && t[0] == '0' && (t[1] == 'x' || t[1] == 'X') && IsHexDigit(t[2])
    then t[2..] else t
  }

  /**
   * The number std::stoull / std::stoul / std::stoi read from s in the given
   * base, or None where they throw: leading white space is skipped, in base 16
   * a "0x"/"0X" prefix is skipped when a hex digit follows it, then the longest
   * run of digits is read and anything after it is ignored. No digit at all
   * (std::invalid_argument) and a value above limit (std::out_of_range) give None.
   */
  function ParseNumber(s: string, base: nat, limit: nat): (r: Option<nat>)
    requires base == 10 || base == 16
    ensures r.Some? ==> r.value <= limit
  {
    var u := StripRadixPrefix(SkipSpaces(s), base);
    var k := DigitRun(u, base);
    if k == 0 then None
    else
      var v := ValueOf(u[..k], base);
      if v > limit then None else Some(v)
  }

  // ---------------------------------------------------------------------
  // Lemmas: parsing what was formatted gives the number back
  // ---------------------------------------------------------------------

  lemma {:induction false} DigitsValue(n: nat, base: nat, upper: bool)
    requires base == 10 || base == 16
    ensures ValueOf(Digits(n, base, upper), base) == n
    decreases n
  {
    var s := Digits(n, base, upper);
    if n < base {
      assert s[..0] == [];
    } else {
      DigitsValue(n / base, base, upper);
      assert s[..|s| - 1] == Digits(n / base, base, upper);
    }
  }

  lemma {:induction false} DigitRunAll(s: string, base: nat)
    requires forall i :: 0 <= i < |s| ==> IsDigitIn(s[i], base)
    ensures DigitRun(s, base) == |s|
    decreases |s|
  {
    if s != [] {
      DigitRunAll(s[1..], base);
    }
  }

  lemma {:induction false} DigitRunStops(s: string, t: string, base: nat)
    requires forall i :: 0 <= i < |s| ==> IsDigitIn(s[i], base)
    requires t == [] || !IsDigitIn(t[0], base)
    ensures DigitRun(s + t, base) == |s|
    decreases |s|
  {
    if s != [] {
      assert (s + t)[1..] == s[1..] + t;
      DigitRunStops(s[1..], t, base);
    } else {
      assert s + t == t;
    }
  }

  /**
   * ParseNumber from its parts: after the blanks and the radix prefix, a run
   * of k > 0 digits whose value is within the limit is the number read.
   */
  lemma ParseDigitRun(s: string, base: nat, limit: nat, u: string, k: nat)
    requires base == 10 || base == 16
    requires StripRadixPrefix(SkipSpaces(s), base) == u
    requires 0 < k == DigitRun(u, base)
    requires ValueOf(u[..k], base) <= limit
    ensures ParseNumber(s, base, limit) == Some(ValueOf(u[..k], base))
  {
  }

  /** Two strings that agree after their leading blanks parse alike. */
  lemma ParseSameAfterSkip(s1: string, s2: string, base: nat, limit: nat)
    requires base == 10 || base == 16
    requires SkipSpaces(s1) == SkipSpaces(s2)
    ensures ParseNumber(s1, base, limit) == ParseNumber(s2, base, limit)
  {
  }

  /** A string that starts with a non-blank is its own SkipSpaces. */
  lemma SkipNone(s: string)
    requires s == [] || !IsSpace(s[0])
    ensures SkipSpaces(s) == s
  {
  }

  /** Decimal digits then a non-digit: no blanks, no prefix, and the digit run is the digits. */
  lemma DecimalRun(n: nat, rest: string)
    requires rest == [] || !IsDecDigit(rest[0])
    ensures var u := DecimalString(n) + rest;
            && StripRadixPrefix(SkipSpaces(u), 10) == u
            && DigitRun(u, 10) == |DecimalString(n)|
            && u[..|DecimalString(n)|] == DecimalString(n)
  {
    var d := DecimalString(n);
    var u := d + rest;
    assert u[0] == d[0];
    SkipNone(u);
    DigitRunStops(d, rest, 10);
    assert u[..|d|] == d;
  }

  /** The decimal digits of n, before a non-digit, read back as n. */
  lemma DecimalRoundTrip(n: nat, rest: string, limit: nat)
    requires n <= limit
    requires rest == [] || !IsDecDigit(rest[0])
    ensures ParseNumber(DecimalString(n) + rest, 10, limit) == Some(n)
  {
    var d := DecimalString(n);
    var u := d + rest;
    DecimalRun(n, rest);
    DigitsValue(n, 10, false);
    assert ValueOf(u[..|d|], 10) == n;
    ParseDigitRun(u, 10, limit, u, |d|);
  }

  /** "0x" then hex digits: the prefix is dropped and the digit run is all the digits. */
  lemma HexRun(n: nat, upper: bool)
    ensures var h := HexString(n, upper);
            && StripRadixPrefix(SkipSpaces("0x" + h), 16) == h
            && DigitRun(h, 16) == |h| && h[..|h|] == h
  {
    var h := HexString(n, upper);
    var t := "0x" + h;
    assert t[2..] == h;
    assert t[2] == h[0];
    SkipNone(t);
    DigitRunAll(h, 16);
  }

  /** "0x" followed by the hex digits of n, in either letter case, reads back as n in base 16. */
  lemma HexRoundTrip(n: nat, upper: bool, limit: nat)
    requires n <= limit
    ensures ParseNumber("0x" + HexString(n, upper), 16, limit) == Some(n)
  {
    var h := HexString(n, upper);
    HexRun(n, upper);
    DigitsValue(n, 16, upper);
    ParseDigitRun("0x" + h, 16, limit, h, |h|);
  }

  /** White space before a number is skipped. */
  lemma ParseAfterSpaces(lead: string, s: string, base: nat, limit: nat)
    requires base == 10 || base == 16
    requires forall i :: 0 <= i < |lead| ==> IsSpace(lead[i])
    requires s == [] || !IsSpace(s[0])
    ensures ParseNumber(lead + s, base, limit) == ParseNumber(s, base, limit)
  {
    SkipLeading(lead, s);
    SkipNone(s);
    ParseSameAfterSkip(lead + s, s, base, limit);
  }

  lemma {:induction false} SkipLeading(lead: string, s: string)
    requires forall i :: 0 <= i < |lead| ==> IsSpace(lead[i])
    requires s == [] || !IsSpace(s[0])
    ensures SkipSpaces(lead + s) == s
    decreases |lead|
  {
    if lead == [] {
      assert lead + s == s;
    } else {
      assert (lead + s)[1..] == lead[1..] + s;
      SkipLeading(lead[1..], s);
    }
  }

  // ---------------------------------------------------------------------
  // Arithmetic helpers
  // ---------------------------------------------------------------------

  /** x / d is q when x lies in [q * d, q * d + d). */
  lemma DivisionBetween(x: nat, d: nat, q: nat)
    requires d > 0 && q * d <= x < q * d + d
    ensures x / d == q
  {
    var k := x / d;
    var r := x % d;
    assert x == k * d + r && 0 <= r < d;
    if k < q {
      MulMonotonic(k + 1, q, d);
    } else if k > q {
      MulMonotonic(q + 1, k, d);
    }
  }

  lemma MulMonotonic(a: nat, b: nat, d: nat)
    requires a <= b
    ensures a * d <= b * d
  {
    assert b * d == a * d + (b - a) * d;
  }
}
