/** The base-10 integer half of `std::from_chars` (ISO C++ [charconv.from.chars])
    and the decimal rendering of `std::to_string` for integers.

    `from_chars` reads the longest prefix of the input that matches the pattern
    `-? digit+` (the minus sign only for signed targets; no `+`, no leading
    whitespace). It reports "invalid" when no such prefix exists, "out of range"
    when the prefix's value does not fit the target, and otherwise the value and
    how many characters it read. */
module CharConv {

  const MinInt64: int := -0x8000_0000_0000_0000
  const MaxInt64: int := 0x7fff_ffff_ffff_ffff
  const MaxUInt64: int := 0xffff_ffff_ffff_ffff

  /** `int64_t` and `uint64_t` as ranges of the mathematical integers. */
  type i64 = x: int | MinInt64 <= x <= MaxInt64
  type u64 = x: int | 0 <= x <= MaxUInt64

  /** Whether `v` is representable in the signed or the unsigned 64-bit type. */
  predicate InRange(v: int, signed: bool) {
    if signed then MinInt64 <= v <= MaxInt64 else 0 <= v <= MaxUInt64
  }

  predicate IsDigit(c: char) {
    '0' <= c <= '9'
  }

  predicate AllDigits(s: string) {
    forall i :: 0 <= i < |s| ==> IsDigit(s[i])
  }

  function DigitValue(c: char): (d: nat)
    requires IsDigit(c)
    ensures d < 10
  {
    c as int - '0' as int
  }

  function DigitChar(d: nat): (c: char)
    requires d < 10
    ensures IsDigit(c) && DigitValue(c) == d
  {
    ('0' as int + d) as char
  }

  /** The value of a string of decimal digits, most significant first. */
  function DigitsValue(s: string): nat
    requires AllDigits(s)
  {
    if s == [] then 0 else DigitsValue(s[..|s| - 1]) * 10 + DigitValue(s[|s| - 1])
  }

  /** The length of the maximal run of digits that starts at `from`. */
  function DigitRun(s: string, from: nat): (n: nat)
    requires from <= |s|
    ensures from + n <= |s|
    ensures AllDigits(s[from..from + n])
    ensures from + n < |s| ==> !IsDigit(s[from + n])
    decreases |s| - from
  {
    if from < |s| && IsDigit(s[from]) then
      var n := DigitRun(s, from + 1);
      assert s[from..from + 1 + n] == [s[from]] + s[from + 1..from + 1 + n];
      1 + n
    else 0
  }

  /** The characters `std::to_string` produces for a non-negative integer:
      decimal digits with no leading zero. */
  function ToDecimal(n: nat): (s: string)
    ensures |s| > 0 && AllDigits(s)
    ensures DigitsValue(s) == n
    ensures |s| > 1 ==> s[0] != '0'
  {
    if n < 10 then [DigitChar(n)]
    else
      var prefix := ToDecimal(n / 10);
      var s := prefix + [DigitChar(n % 10)];
      assert s[..|s| - 1] == prefix;
      s
  }

  /** What `from_chars` reports: no number, a number too large for the
      target (with the position after its digits), or a parsed value and the
      position after it. */
  datatype FromCharsResult<T> =
    | Invalid
    | OutOfRange(end: nat)
    | Parsed(value: T, end: nat)

  /** Whether `t` as a whole matches the pattern `from_chars` accepts:
      an optional `-` (signed targets only) followed by one or more digits. */
  predicate IsDecimal(t: string, signed: bool) {
    || (|t| > 0 && AllDigits(t))
    || (signed && |t| > 1 && t[0] == '-' && AllDigits(t[1..]))
  }

  /** The mathematical value of a string matching `IsDecimal`. */
  function DecimalValue(t: string, signed: bool): int
    requires IsDecimal(t, signed)
  {
    if |t| > 0 && AllDigits(t) then DigitsValue(t) else -(DigitsValue(t[1..]) as int)
  }

  /** Base-10 `std::from_chars` into a signed or unsigned 64-bit integer. */
  function FromChars(s: string, signed: bool): (r: FromCharsResult<int>)
    ensures r.Invalid? <==> forall e :: 0 < e <= |s| ==> !IsDecimal(s[..e], signed)
    ensures !r.Invalid? ==> r.end <= |s| && (r.end < |s| ==> !IsDigit(s[r.end]))
    ensures r.OutOfRange? ==> IsDecimal(s[..r.end], signed) && !InRange(DecimalValue(s[..r.end], signed), signed)
    ensures r.Parsed? ==> IsDecimal(s[..r.end], signed) && InRange(r.value, signed)
                          && r.value == DecimalValue(s[..r.end], signed)
  {
    var start := if signed && |s| > 0 && s[0] == '-' then 1 else 0;
    var n := DigitRun(s, start);
    if n == 0 then
      NoDecimalPrefix(s, signed, start);
      Invalid
    else
      var digits := s[start..start + n];
      var v := if start == 1 then -(DigitsValue(digits) as int) else DigitsValue(digits);
      DecimalPrefix(s, signed, start, n);
      if InRange(v, signed) then Parsed(v, start + n) else OutOfRange(start + n)
  }

  /** When no digit follows the optional sign, no prefix of `s` is a number. */
  lemma NoDecimalPrefix(s: string, signed: bool, start: nat)
    requires start == (if signed && |s| > 0 && s[0] == '-' then 1 else 0)
    requires start <= |s| && DigitRun(s, start) == 0
    ensures forall e :: 0 < e <= |s| ==> !IsDecimal(s[..e], signed)
  {
    forall e | 0 < e <= |s|
      ensures !IsDecimal(s[..e], signed)
    {
      var t := s[..e];
      if start == 0 {
        assert !IsDigit(t[0]);
        assert !(signed && |t| > 1 && t[0] == '-');
      } else if |t| > 1 {
        assert t[1..][0] == s[1];
        assert !IsDigit(t[0]);
      }
    }
  }

  /** When digits follow the optional sign, the prefix up to their end is a
      number, and its value is the value of the digits, negated after `-`. */
  lemma DecimalPrefix(s: string, signed: bool, start: nat, n: nat)
    requires start == (if signed && |s| > 0 && s[0] == '-' then 1 else 0)
    requires start <= |s| && n == DigitRun(s, start) && n > 0
    ensures IsDecimal(s[..start + n], signed)
    ensures DecimalValue(s[..start + n], signed)
            == (if start == 1 then -(DigitsValue(s[start..start + n]) as int) else DigitsValue(s[start..start + n]))
  {
    var t := s[..start + n];
    if start == 1 {
      assert t[1..] == s[start..start + n];
      assert !IsDigit(t[0]);
    } else {
      assert t == s[start..start + n];
    }
  }

  /** A string of only digits is read completely. */
  lemma DigitRunToEnd(s: string, from: nat)
    requires from <= |s| && AllDigits(s[from..])
    ensures DigitRun(s, from) == |s| - from
    decreases |s| - from
  {
    if from < |s| {
      assert s[from..][0] == s[from];
      assert s[from + 1..] == s[from..][1..];
      DigitRunToEnd(s, from + 1);
    }
  }
}
