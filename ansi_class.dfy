/**
 * The class names that carry a style, and decimal numerals.
 *
 * The sanitizer keeps a span when its class attribute passes the test
 * /ansi-\d+/; the encoder reads the code from the first match of
 * /ansi-(\d+)/ and turns it into a number with parseInt; template strings
 * print numbers back in decimal.
 */
module AnsiClass {
  import opened Dom

  predicate IsDigit(c: char)
  {
    '0' <= c <= '9'
  }

  predicate AllDigits(s: string)
  {
    forall j :: 0 <= j < |s| ==> IsDigit(s[j])
  }

  /** /ansi-\d+/ matches `cls` at index i: "ansi-" followed by at least one digit. */
  predicate MatchesAt(cls: string, i: nat)
  {
    i + 6 <= |cls| && cls[i..i + 5] == "ansi-" && IsDigit(cls[i + 5])
  }

  /** `/ansi-\d+/` finds a match somewhere in `cls`: the sanitizer's test. */
  predicate HasAnsiClass(cls: string)
  {
    exists i: nat :: i < |cls| && MatchesAt(cls, i)
  }

  /** The leftmost index at or after i where the pattern matches, if any. */
  function MatchFrom(cls: string, i: nat): (r: Option<nat>)
    ensures r.Some? ==> i <= r.value && MatchesAt(cls, r.value)
    ensures r.Some? ==> forall j: nat :: i <= j < r.value ==> !MatchesAt(cls, j)
    ensures r.None? ==> forall j: nat :: i <= j ==> !MatchesAt(cls, j)
    decreases |cls| - i
  {
    if i + 6 > |cls| then None
    else if MatchesAt(cls, i) then Some(i)
    else MatchFrom(cls, i + 1)
  }

  /** The length of the run of digits that `s` starts with: what a greedy \d+ takes. */
  function DigitRun(s: string): (k: nat)
    ensures k <= |s| && AllDigits(s[..k])
    ensures k < |s| ==> !IsDigit(s[k])
  {
    if s == [] || !IsDigit(s[0]) then 0 else 1 + DigitRun(s[1..])
  }

  function DigitValue(c: char): nat
    requires IsDigit(c)
  {
    c as int - '0' as int
  }

  /** parseInt of a string of decimal digits. */
  function DigitsValue(s: string): nat
    requires AllDigits(s)
  {
    if s == [] then 0 else 10 * DigitsValue(s[..|s| - 1]) + DigitValue(s[|s| - 1])
  }

  /**
   * `className.match(/ansi-(\d+)/)` and parseInt of its group: the number
   * spelled by the digits of the leftmost match, or None when nothing matches.
   */
  function AnsiCode(cls: string): (r: Option<nat>)
    ensures r.Some? <==> HasAnsiClass(cls)
  {
    match MatchFrom(cls, 0)
    case None => None
    case Some(i) => Some(DigitsValue(cls[i + 5..][..DigitRun(cls[i + 5..])]))
  }

  function DigitChar(d: nat): (c: char)
    requires d < 10
    ensures IsDigit(c) && DigitValue(c) == d
  {
    ('0' as int + d) as char
  }

  /** A number as a template string prints it: decimal, no leading zero. */
  function Decimal(n: nat): (s: string)
    ensures |s| > 0 && AllDigits(s)
    ensures |s| > 1 ==> s[0] != '0'
  {
    if n < 10 then [DigitChar(n)] else Decimal(n / 10) + [DigitChar(n % 10)]
  }

  /** parseInt undoes printing. */
  lemma {:induction false} DecimalRoundTrip(n: nat)
    ensures DigitsValue(Decimal(n)) == n
  {
    if n >= 10 {
      var s := Decimal(n);
      assert s[..|s| - 1] == Decimal(n / 10);
      DecimalRoundTrip(n / 10);
    }
  }

  /** The class `ansi-<code>` that the style buttons produce carries the code the encoder reads back. */
  lemma ClassOfDigits(code: string)
    requires code != [] && AllDigits(code)
    ensures AnsiCode("ansi-" + code) == Some(DigitsValue(code))
  {
    var cls := "ansi-" + code;
    assert cls[0..5] == "ansi-";
    assert MatchesAt(cls, 0);
    assert cls[5..] == code;
    DigitRunOfDigits(code);
    assert code[..|code|] == code;
  }

  lemma {:induction false} DigitRunOfDigits(s: string)
    requires AllDigits(s)
    ensures DigitRun(s) == |s|
  {
    if s != [] {
      DigitRunOfDigits(s[1..]);
    }
  }

  /** The encoder reads back exactly the number that `ansi-` + its decimal spelling was made from. */
  lemma ClassOfNumber(n: nat)
    ensures AnsiCode("ansi-" + Decimal(n)) == Some(n)
  {
    ClassOfDigits(Decimal(n));
    DecimalRoundTrip(n);
  }
}
