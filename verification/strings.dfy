/**
 * The handful of Python `str` operations the monitor relies on, and the
 * textual form of a timestamp in the log (what `str(startTime)` writes and
 * `float(...)` reads back), modelled on whole seconds written as integer
 * numerals: `str()` of a float would write `1000.0` where the model writes `1000`.
 */
module Strings {

  datatype Option<T> = None | Some(value: T)

  /** `s.startswith(c)` for a one-character prefix. */
  predicate StartsWith(s: string, c: char) {
    |s| > 0 && s[0] == c
  }

  /** `s.endswith(suffix)`. */
  predicate EndsWith(s: string, suffix: string) {
    |suffix| <= |s| && s[|s| - |suffix|..] == suffix
  }

  /** `s.removesuffix(c)` for a one-character suffix: at most one character goes. */
  function RemoveSuffix(s: string, c: char): string {
    if EndsWith(s, [c]) then s[..|s| - 1] else s
  }

  /** `s.removeprefix(c)` for a one-character prefix. */
  function RemovePrefix(s: string, c: char): string {
    if StartsWith(s, c) then s[1..] else s
  }

  /** `line.split(",")[0]`: everything before the first comma, or the whole line. */
  function FirstField(line: string): (field: string)
    ensures field <= line
    ensures ',' !in field
    ensures |field| < |line| ==> line[|field|] == ','
  {
    if line == [] || line[0] == ',' then [] else [line[0]] + FirstField(line[1..])
  }

  predicate IsDigit(c: char) {
    '0' <= c <= '9'
  }

  predicate AllDigits(s: string) {
    forall i :: 0 <= i < |s| ==> IsDigit(s[i])
  }

  function DigitChar(d: nat): (c: char)
    requires d < 10
    ensures IsDigit(c)
  {
    (('0' as int) + d) as char
  }

  /** The decimal numeral of `n`, most significant digit first, without leading zeros. */
  function Digits(n: nat): (s: string)
    ensures |s| > 0 && AllDigits(s)
  {
    if n < 10 then [DigitChar(n)] else Digits(n / 10) + [DigitChar(n % 10)]
  }

  /** The value of a string of decimal digits (`int(s)` on digits only). */
  function NumeralValue(s: string): nat
    requires AllDigits(s)
  {
    if s == [] then 0 else 10 * NumeralValue(s[..|s| - 1]) + ((s[|s| - 1] as int) - ('0' as int))
  }

  lemma {:induction false} NumeralRoundTrip(n: nat)
    ensures NumeralValue(Digits(n)) == n
  {
    if n >= 10 {
      var s := Digits(n);
      assert s[..|s| - 1] == Digits(n / 10);
      NumeralRoundTrip(n / 10);
    }
  }

  /** The text of a timestamp as a log row carries it: an optional minus sign and digits. */
  function FormatTimestamp(t: int): (s: string)
    ensures |s| > 0
    ensures forall i :: 0 <= i < |s| ==> s[i] == '-' || IsDigit(s[i])
  {
    if t < 0 then "-" + Digits(-t) else Digits(t)
  }

  predicate IsSign(c: char) {
    c == '-' || c == '+'
  }

  /** A numeral `float()` reads as a whole number: an optional sign, then at least one ASCII digit. */
  predicate IsNumeral(s: string) {
    && |s| > 0
    && (IsDigit(s[0]) || (IsSign(s[0]) && |s| > 1))
    && forall i :: 0 < i < |s| ==> IsDigit(s[i])
  }

  /**
   * Reading a first field back as a number. `None` is the `ValueError` of `float()`
   * for the inputs modelled here; the other spellings `float()` accepts are not.
   */
  function ParseTimestamp(s: string): (r: Option<int>)
    ensures r.Some? <==> IsNumeral(s)
    ensures r.Some? && s[0] == '-' ==> r.value <= 0
    ensures r.Some? && s[0] != '-' ==> r.value >= 0
  {
    if |s| > 0 && IsSign(s[0]) then
      if |s| > 1 && AllDigits(s[1..]) then
        var magnitude := NumeralValue(s[1..]);
        Some(if s[0] == '-' then 0 - magnitude else magnitude)
      else
        assert |s| > 1 ==> s[1..][0] == s[1];
        None
    else if |s| > 0 && AllDigits(s) then Some(NumeralValue(s))
    else None
  }

  /** What the monitor writes as a timestamp it reads back as the same instant. */
  lemma TimestampRoundTrip(t: int)
    ensures ParseTimestamp(FormatTimestamp(t)) == Some(t)
  {
    if t < 0 {
      var s := FormatTimestamp(t);
      assert s[1..] == Digits(-t);
      NumeralRoundTrip(-t);
    } else {
      NumeralRoundTrip(t);
    }
  }

  /** Only numerals are read back: a field holding anything but a sign and digits is rejected. */
  lemma ParseTimestampRejects(s: string)
    requires exists i :: 0 <= i < |s| && !IsSign(s[i]) && !IsDigit(s[i])
    ensures ParseTimestamp(s) == None
  {
  }

  /** A sign is read, a leading "+" included; a bare sign or an empty field is not a number. */
  lemma ParseTimestampExamples()
    ensures ParseTimestamp("+5") == Some(5)
    ensures ParseTimestamp("-12") == Some(-12)
    ensures ParseTimestamp("007") == Some(7)
    ensures ParseTimestamp("+") == None && ParseTimestamp("") == None && ParseTimestamp("5-") == None
  {
    assert "+5"[1..] == "5";
    assert "-12"[1..] == "12" && "12"[..1] == "1";
    assert "007"[..2] == "00" && "00"[..1] == "0";
    assert !IsDigit("5-"[1]);
  }
}
