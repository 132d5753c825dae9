/** The parts of Go's `strconv` package that the analysis relies on:
    `ParseUint(s, 10, 64)` and `ParseInt(s, 10, 64)`. Each returns the pair
    Go returns, a value and an error kind; the analysis discards the error and
    keeps the value, which is 0 after a syntax error and the clamped extreme
    after a range error. */
module GoStrconv {

  const MaxUint64: nat := 0xFFFF_FFFF_FFFF_FFFF
  const MaxInt64: nat := 0x7FFF_FFFF_FFFF_FFFF
  const MinInt64: int := -0x8000_0000_0000_0000

  datatype NumError = NoError | ErrSyntax | ErrRange

  datatype Parsed = Parsed(value: int, err: NumError)

  predicate IsDigit(c: char)
  {
    '0' <= c <= '9'
  }

  predicate AllDigits(s: string)
  {
    forall k :: 0 <= k < |s| ==> IsDigit(s[k])
  }

  function DigitValue(c: char): nat
    requires IsDigit(c)
  {
    (c as int) - ('0' as int)
  }

  /** The unbounded value of a string of decimal digits. */
  function DigitsValue(s: string): nat
    requires AllDigits(s)
  {
    if s == [] then 0 else DigitsValue(s[..|s| - 1]) * 10 + DigitValue(s[|s| - 1])
  }

  /** The digit loop of ParseUint: the characters are consumed left to right,
      and the first of a bad character or an overflow ends the scan. */
  function ScanDigits(s: string): (p: Parsed)
    ensures 0 <= p.value <= MaxUint64
    ensures p.err == ErrSyntax ==> p.value == 0
    ensures p.err == ErrRange ==> p.value == MaxUint64
    ensures p.err == NoError ==> AllDigits(s) && p.value == DigitsValue(s)
  {
    if s == [] then Parsed(0, NoError)
    else
      var prefix := ScanDigits(s[..|s| - 1]);
      var c := s[|s| - 1];
      if prefix.err != NoError then prefix
      else if !IsDigit(c) then Parsed(0, ErrSyntax)
      else if prefix.value * 10 + DigitValue(c) > MaxUint64 then Parsed(MaxUint64, ErrRange)
      else Parsed(prefix.value * 10 + DigitValue(c), NoError)
  }

  /** strconv.ParseUint(s, 10, 64). */
  function ParseUint(s: string): (p: Parsed)
    ensures 0 <= p.value <= MaxUint64
    ensures p.err == ErrSyntax ==> p.value == 0
    ensures p.err == ErrRange ==> p.value == MaxUint64
    ensures p.err == NoError ==> s != "" && AllDigits(s) && p.value == DigitsValue(s)
  {
    if s == "" then Parsed(0, ErrSyntax) else ScanDigits(s)
  }

  /** strconv.ParseInt(s, 10, 64): an optional sign, then ParseUint of the
      rest, clamped to the signed 64-bit range. */
  function ParseInt(s: string): (p: Parsed)
    ensures MinInt64 <= p.value <= MaxInt64
    ensures p.err == ErrSyntax ==> p.value == 0
    ensures p.err == ErrRange ==> p.value == MaxInt64 || p.value == MinInt64
    ensures p.err == NoError ==> (s != "" &&
      var body := if s[0] == '+' || s[0] == '-' then s[1..] else s;
      body != "" && AllDigits(body) &&
      p.value == (if s[0] == '-' then -(DigitsValue(body) as int) else DigitsValue(body) as int))
  {
    if s == "" then Parsed(0, ErrSyntax)
    else
      var neg := s[0] == '-';
      var body := if s[0] == '+' || s[0] == '-' then s[1..] else s;
      var un := ParseUint(body);
      if un.err == ErrSyntax then Parsed(0, ErrSyntax)
      else if !neg && un.value > MaxInt64 then Parsed(MaxInt64, ErrRange)
      else if neg && un.value > MaxInt64 + 1 then Parsed(MinInt64, ErrRange)
      else Parsed(if neg then -un.value else un.value, NoError)
  }

  function DigitChar(d: nat): (c: char)
    requires d < 10
    ensures IsDigit(c) && DigitValue(c) == d
  {
    ('0' as int + d) as char
  }

  /** The decimal rendering of `n`, without leading zeros. */
  function DecimalString(n: nat): (s: string)
    ensures |s| >= 1 && AllDigits(s)
  {
    if n < 10 then [DigitChar(n)] else DecimalString(n / 10) + [DigitChar(n % 10)]
  }

  lemma {:induction false} DecimalStringValue(n: nat)
    ensures DigitsValue(DecimalString(n)) == n
  {
    if n >= 10 {
      var s := DecimalString(n);
      DecimalStringValue(n / 10);
      assert s[..|s| - 1] == DecimalString(n / 10);
    }
  }

  /** On a string of digits the scan either returns its value or reports a
      range error, according to whether the value fits in 64 bits. */
  lemma {:induction false} ScanAllDigits(s: string)
    requires AllDigits(s)
    ensures DigitsValue(s) <= MaxUint64 ==> ScanDigits(s) == Parsed(DigitsValue(s), NoError)
    ensures DigitsValue(s) > MaxUint64 ==> ScanDigits(s) == Parsed(MaxUint64, ErrRange)
    decreases |s|
  {
    if s != [] {
      var prefix := s[..|s| - 1];
      assert AllDigits(prefix);
      ScanAllDigits(prefix);
    }
  }

  /** A string that holds a non-digit never parses cleanly: the result is
      0 or the clamped maximum, and the error is reported. */
  lemma {:induction false} ScanNonDigit(s: string, k: nat)
    requires k < |s| && !IsDigit(s[k])
    ensures ScanDigits(s).err != NoError
    decreases |s|
  {
    if k < |s| - 1 {
      ScanNonDigit(s[..|s| - 1], k);
    }
  }

  /** A string whose first character is not a digit parses as 0. */
  lemma {:induction false} ScanBadFirst(s: string)
    requires |s| > 0 && !IsDigit(s[0])
    ensures ScanDigits(s) == Parsed(0, ErrSyntax)
    decreases |s|
  {
    if |s| > 1 {
      ScanBadFirst(s[..|s| - 1]);
    }
  }

  /** ParseUint reads back every 64-bit value from its decimal rendering. */
  lemma ParseUintDecimal(n: nat)
    requires n <= MaxUint64
    ensures ParseUint(DecimalString(n)) == Parsed(n, NoError)
  {
    DecimalStringValue(n);
    ScanAllDigits(DecimalString(n));
  }

  /** ParseInt reads back every non-negative 64-bit signed value. */
  lemma ParseIntDecimal(n: nat)
    requires n <= MaxInt64
    ensures ParseInt(DecimalString(n)) == Parsed(n, NoError)
  {
    ParseUintDecimal(n);
  }
}
