/**
 * Decimal text for integers, as the Go standard library reads and writes it:
 * `strconv.Itoa` (the count printed by grep -c, the line numbers of grep -n),
 * `strconv.Atoi` (the calendar's user_id) and `fmt.Sscanf(field, "%d", …)`
 * (cut's field list). Go's `int` is 64 bits wide on the platforms the tools
 * target, so every parser rejects values outside the int64 range.
 */
module Decimal {
  import opened Wrappers

  const MinInt64: int := -0x8000_0000_0000_0000
  const MaxInt64: int := 0x7fff_ffff_ffff_ffff

  predicate IsDigit(c: char) { '0' <= c <= '9' }

  predicate IsSign(c: char) { c == '+' || c == '-' }

  function DigitValue(c: char): (d: nat)
    requires IsDigit(c)
    ensures d < 10
  {
    c as int - '0' as int
  }

  function DigitChar(d: nat): (c: char)
    requires d < 10
    ensures IsDigit(c) && DigitValue(c) == d
  {
    ('0' as int + d) as char
  }

  predicate AllDigits(s: string) {
    forall i :: 0 <= i < |s| ==> IsDigit(s[i])
  }

  /** The number a string of decimal digits denotes, most significant digit first. */
  function ValueOf(s: string): nat
    requires AllDigits(s)
  {
    if |s| == 0 then 0 else 10 * ValueOf(s[..|s| - 1]) + DigitValue(s[|s| - 1])
  }

  function Signed(negative: bool, magnitude: nat): int {
    if negative then -(magnitude as int) else magnitude
  }

  /** strconv.Itoa of a non-negative number: shortest digit string, no leading zero. */
  function NatToString(n: nat): (s: string)
    ensures 0 < |s| && AllDigits(s)
    ensures s[0] == '0' ==> n == 0 && |s| == 1
    ensures ValueOf(s) == n
  {
    if n < 10 then [DigitChar(n)]
    else
      var s := NatToString(n / 10) + [DigitChar(n % 10)];
      assert s[..|s| - 1] == NatToString(n / 10);
      s
  }

  /** strconv.Itoa: a minus sign for negative numbers, then the digits of the magnitude. */
  function IntToString(i: int): (s: string)
    ensures 0 < |s|
    ensures s[0] == '-' <==> i < 0
    ensures forall k :: 0 <= k < |s| ==> IsDigit(s[k]) || (k == 0 && s[k] == '-')
  {
    if i < 0 then "-" + NatToString(-i) else NatToString(i)
  }

  /** The text after one optional leading sign. */
  function Unsigned(s: string): (body: string)
    ensures |body| <= |s| && body == s[|s| - |body|..]
  {
    if 0 < |s| && IsSign(s[0]) then s[1..] else s
  }

  /** A text whose unsigned part is a non-empty digit run is a sign or a digit, then only digits. */
  lemma UnsignedDigits(s: string)
    requires 0 < |Unsigned(s)| && AllDigits(Unsigned(s))
    ensures 0 < |s| && (IsDigit(s[0]) || IsSign(s[0]))
    ensures IsDigit(s[|s| - 1]) && forall k :: 0 < k < |s| ==> IsDigit(s[k])
  {
    var body := Unsigned(s);
    assert forall k :: 0 < k < |s| ==> s[k] == body[k - (|s| - |body|)];
  }

  /**
   * strconv.Atoi on a 64-bit platform: an optional sign, then one or more
   * decimal digits (leading zeros allowed, no underscores, no spaces), whose
   * value fits in int64. Every other string is an error.
   */
  function Atoi(s: string): (r: Option<int>)
    ensures r.Some? ==> MinInt64 <= r.value <= MaxInt64
    ensures r.Some? ==> 0 < |s| && (IsDigit(s[0]) || IsSign(s[0]))
    ensures r.Some? ==> IsDigit(s[|s| - 1]) && forall k :: 0 < k < |s| ==> IsDigit(s[k])
    ensures r.Some? ==> r.value == Signed(s[0] == '-', ValueOf(Unsigned(s)))
    ensures 0 < |Unsigned(s)| && AllDigits(Unsigned(s))
            && MinInt64 <= Signed(s[0] == '-', ValueOf(Unsigned(s))) <= MaxInt64
            ==> r.Some?
  {
    var body := Unsigned(s);
    if |body| == 0 || !AllDigits(body) then None
    else
      UnsignedDigits(s);
      var v := Signed(s[0] == '-', ValueOf(body));
      if MinInt64 <= v <= MaxInt64 then Some(v) else None
  }

  /** A letter between digits makes the whole text unreadable to Atoi. */
  lemma AtoiRejectsInnerText()
    ensures Atoi("1x2") == None
  {
    assert !IsDigit("1x2"[1]);
  }

  /** Atoi reads back what Itoa writes, for every int64. */
  lemma AtoiIntToString(i: int)
    requires MinInt64 <= i <= MaxInt64
    ensures Atoi(IntToString(i)) == Some(i)
  {
    var s := IntToString(i);
    if i < 0 {
      assert s[1..] == NatToString(-i);
    }
  }

  /**
   * The characters fmt's scanner skips before a number (its isSpace table).
   * A newline is left out: Sscanf treats it as an error, not as space.
   */
  predicate IsScanSpace(c: char) {
    var u := c as int;
    || (0x09 <= u <= 0x0D && u != 0x0A)
    || u == 0x20 || u == 0x85 || u == 0xA0 || u == 0x1680
    || (0x2000 <= u <= 0x200A)
    || u == 0x2028 || u == 0x2029 || u == 0x202F || u == 0x205F || u == 0x3000
  }

  /** Length of the longest all-digit prefix of s. */
  function DigitRun(s: string): (k: nat)
    ensures k <= |s| && AllDigits(s[..k])
    ensures k < |s| ==> !IsDigit(s[k])
  {
    if |s| == 0 || !IsDigit(s[0]) then 0
    else
      var k := 1 + DigitRun(s[1..]);
      assert forall i :: 1 <= i < k ==> s[..k][i] == s[1..][..k - 1][i - 1];
      k
  }

  /**
   * `fmt.Sscanf(s, "%d", &n)`: skip leading space (a newline is an error),
   * accept one sign, then the longest run of at least one digit, which must
   * fit in int64. Whatever follows the digits is ignored: Sscanf does not
   * require the verb to consume the whole input.
   */
  function ScanInt(s: string): (r: Option<int>)
    ensures r.Some? ==> MinInt64 <= r.value <= MaxInt64
    ensures r.Some? ==> 0 < |s| && s[0] != '\n'
    ensures 0 < |s| && !IsScanSpace(s[0]) && s[0] != '\n' ==> r == ScanNumber(s)
  {
    if |s| == 0 || s[0] == '\n' then None
    else if IsScanSpace(s[0]) then ScanInt(s[1..])
    else ScanNumber(s)
  }

  /** The number Sscanf reads once the space is skipped: one optional sign, then the longest digit run. */
  function ScanNumber(s: string): (r: Option<int>)
    requires 0 < |s|
    ensures r.Some? ==> MinInt64 <= r.value <= MaxInt64
    ensures r.Some? ==> IsDigit(s[0]) || (IsSign(s[0]) && 1 < |s| && IsDigit(s[1]))
  {
    var body := if IsSign(s[0]) then s[1..] else s;
    var k := DigitRun(body);
    if k == 0 then None
    else
      var v := Signed(s[0] == '-', ValueOf(body[..k]));
      if MinInt64 <= v <= MaxInt64 then Some(v) else None
  }

  /** Sscanf "%d" skips any run of blanks before the number. */
  lemma {:induction false} ScanIntSkipsBlanks(blanks: string, t: string)
    requires forall i :: 0 <= i < |blanks| ==> IsScanSpace(blanks[i])
    ensures ScanInt(blanks + t) == ScanInt(t)
    decreases |blanks|
  {
    if 0 < |blanks| {
      var s := blanks + t;
      assert s[0] == blanks[0] && s[1..] == blanks[1..] + t;
      assert IsScanSpace(s[0]) && s[0] != '\n';
      ScanIntSkipsBlanks(blanks[1..], t);
    } else {
      assert blanks + t == t;
    }
  }

  /**
   * After the blanks, Sscanf "%d" fails on text that is empty, that opens
   * with a newline, or that opens with neither a digit nor a sign followed
   * by a digit.
   */
  lemma ScanIntNeedsDigit(blanks: string, t: string)
    requires forall i :: 0 <= i < |blanks| ==> IsScanSpace(blanks[i])
    requires |t| == 0 || !IsScanSpace(t[0])
    requires |t| == 0 || !(IsDigit(t[0]) || (IsSign(t[0]) && 1 < |t| && IsDigit(t[1])))
    ensures ScanInt(blanks + t) == None
  {
    ScanIntSkipsBlanks(blanks, t);
  }

  /** A newline where the number should start is an error, not a blank. */
  lemma ScanIntStopsAtNewline(blanks: string, t: string)
    requires forall i :: 0 <= i < |blanks| ==> IsScanSpace(blanks[i])
    ensures ScanInt(blanks + "\n" + t) == None
  {
    assert blanks + "\n" + t == blanks + ("\n" + t);
    ScanIntSkipsBlanks(blanks, "\n" + t);
  }

  lemma {:induction false} DigitRunOfDigits(d: string, rest: string)
    requires AllDigits(d)
    requires |rest| == 0 || !IsDigit(rest[0])
    ensures DigitRun(d + rest) == |d|
  {
    if |d| > 0 {
      assert (d + rest)[1..] == d[1..] + rest;
      DigitRunOfDigits(d[1..], rest);
    }
  }

  /** The number read once the sign is stripped: digits d, then a non-digit. */
  lemma {:induction false} ScanNumberOfBody(s: string, d: string, rest: string)
    requires 0 < |s|
    requires 0 < |d| && AllDigits(d)
    requires |rest| == 0 || !IsDigit(rest[0])
    requires (if IsSign(s[0]) then s[1..] else s) == d + rest
    requires MinInt64 <= Signed(s[0] == '-', ValueOf(d)) <= MaxInt64
    ensures ScanNumber(s) == Some(Signed(s[0] == '-', ValueOf(d)))
  {
    DigitRunOfDigits(d, rest);
    assert (d + rest)[..|d|] == d;
  }

  /** A digit run whose signed value lies outside int64 is a range error: nothing is read. */
  lemma {:induction false} ScanNumberRejectsOverflow(s: string, d: string, rest: string)
    requires 0 < |s|
    requires 0 < |d| && AllDigits(d)
    requires |rest| == 0 || !IsDigit(rest[0])
    requires (if IsSign(s[0]) then s[1..] else s) == d + rest
    requires !(MinInt64 <= Signed(s[0] == '-', ValueOf(d)) <= MaxInt64)
    ensures ScanNumber(s) == None
  {
    DigitRunOfDigits(d, rest);
    assert (d + rest)[..|d|] == d;
  }

  /** Sscanf "%d" on text that starts with a digit or a sign: no space to skip. */
  lemma {:induction false} ScanIntAtNumber(s: string)
    requires 0 < |s| && (IsDigit(s[0]) || IsSign(s[0]))
    ensures ScanInt(s) == ScanNumber(s)
  {
  }

  lemma {:induction false} AfterMinus(t: string)
    ensures ("-" + t)[0] == '-' && ("-" + t)[1..] == t
  {
  }

  /** Sscanf "%d" reads back a negative number Itoa writes, whatever non-digit text follows it. */
  lemma {:induction false} ScanIntNegative(i: int, rest: string)
    requires MinInt64 <= i < 0
    requires |rest| == 0 || !IsDigit(rest[0])
    ensures ScanInt(IntToString(i) + rest) == Some(i)
  {
    var d := NatToString(-i);
    var s := IntToString(i) + rest;
    assert s == "-" + (d + rest);
    AfterMinus(d + rest);
    ScanIntAtNumber(s);
    ScanNumberOfBody(s, d, rest);
  }

  /** Sscanf "%d" reads back a non-negative number Itoa writes, whatever non-digit text follows it. */
  lemma {:induction false} ScanIntNonNegative(i: int, rest: string)
    requires 0 <= i <= MaxInt64
    requires |rest| == 0 || !IsDigit(rest[0])
    ensures ScanInt(IntToString(i) + rest) == Some(i)
  {
    var d := NatToString(i);
    var s := IntToString(i) + rest;
    assert s == d + rest;
    assert s[0] == d[0];
    ScanIntAtNumber(s);
    ScanNumberOfBody(s, d, rest);
  }

  /** Sscanf "%d" reads back what Itoa writes, whatever non-digit text follows it. */
  lemma {:induction false} ScanIntIntToString(i: int, rest: string)
    requires MinInt64 <= i <= MaxInt64
    requires |rest| == 0 || !IsDigit(rest[0])
    ensures ScanInt(IntToString(i) + rest) == Some(i)
  {
    if i < 0 {
      ScanIntNegative(i, rest);
    } else {
      ScanIntNonNegative(i, rest);
    }
  }

  /** Every string Atoi accepts, Sscanf "%d" accepts with the same value. */
  lemma AtoiImpliesScanInt(s: string)
    requires Atoi(s).Some?
    ensures ScanInt(s) == Atoi(s)
  {
    var body := if IsSign(s[0]) then s[1..] else s;
    DigitRunOfDigits(body, "");
    assert body + "" == body;
    assert body[..|body|] == body;
  }

  /** Sscanf accepts trailing text that Atoi rejects: "2x" scans as 2. */
  lemma ScanIntIgnoresTrailingText()
    ensures ScanInt("2x") == Some(2)
    ensures Atoi("2x") == None
  {
    assert IntToString(2) == "2";
    ScanIntIntToString(2, "x");
    assert "2" + "x" == "2x";
  }
}
