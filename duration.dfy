/**
 * The driver's conversion of the time-duration argument ("7y", "7", "7m")
 * into a number of months, as written, and the conversion its help text
 * describes.
 */
module Duration {

  predicate IsDigit(c: char) {
    '0' <= c <= '9'
  }

  /** On ASCII characters Python's `str.isnumeric()` holds exactly for the digits. */
  predicate IsAscii(c: char) {
    c as int < 128
  }

  predicate AllDigits(s: string) {
    forall i :: 0 <= i < |s| ==> IsDigit(s[i])
  }

  function DigitValue(c: char): nat
    requires IsDigit(c)
  {
    c as int - '0' as int
  }

  function DigitChar(d: nat): char
    requires d < 10
  {
    ('0' as int + d) as char
  }

  /** Python's `int()` on a string of decimal digits, most significant first. */
  function DigitsValue(s: string): nat
    requires AllDigits(s)
  {
    if s == [] then 0 else DigitsValue(s[..|s| - 1]) * 10 + DigitValue(s[|s| - 1])
  }

  /** Python's `str()` of a natural number: its decimal digits without leading zeros. */
  function Decimal(n: nat): (s: string)
    ensures s != [] && AllDigits(s)
    decreases n
  {
    if n < 10 then [DigitChar(n)] else Decimal(n / 10) + [DigitChar(n % 10)]
  }

  lemma {:induction false} DecimalRoundTrip(n: nat)
    ensures DigitsValue(Decimal(n)) == n
    decreases n
  {
    var s := Decimal(n);
    if n < 10 {
      assert s[..|s| - 1] == [];
    } else {
      DecimalRoundTrip(n / 10);
      assert s[..|s| - 1] == Decimal(n / 10);
    }
  }

  /** The argument after conversion: a month count, or the text left as it was given. */
  datatype TimeDuration = Unconverted(text: string) | Months(count: nat)

  /** The number part: the whole text when it ends in a digit, else all but its last character. */
  function NumberText(s: string): string
    requires s != []
  {
    if IsDigit(s[|s| - 1]) then s else s[..|s| - 1]
  }

  /**
   * The conversion does not fail: the text is not empty (its last character
   * is read) and, unless it ends in 'm', its number part is a non-empty
   * string of digits (for `int()`). The last character is ASCII, where
   * `isnumeric()` and IsDigit agree.
   */
  predicate Convertible(s: string) {
    s != [] && IsAscii(s[|s| - 1]) &&
    (s[|s| - 1] == 'm' || (NumberText(s) != [] && AllDigits(NumberText(s))))
  }

  /**
   * As written: text ending in 'm' is left unconverted; any other text loses
   * a non-digit last character and the number is taken as years.
   */
  function ParseTimeDuration(s: string): (d: TimeDuration)
    requires Convertible(s)
    ensures d.Unconverted? <==> s[|s| - 1] == 'm'
    ensures d.Unconverted? ==> d.text == s
    ensures d.Months? ==> d.count % 12 == 0
  {
    if s[|s| - 1] != 'm' then Months(DigitsValue(NumberText(s)) * 12) else Unconverted(s)
  }

  /** A text ending in a digit is read whole, as years. */
  lemma DigitEndingReadWhole(s: string)
    requires s != [] && AllDigits(s)
    ensures Convertible(s) && ParseTimeDuration(s) == Months(12 * DigitsValue(s))
  {
    assert IsDigit(s[|s| - 1]);
  }

  /** A non-digit last character other than 'm' is dropped, exactly that one character. */
  lemma OneUnitCharacterDropped(body: string, unit: char)
    requires body != [] && AllDigits(body) && IsAscii(unit) && !IsDigit(unit) && unit != 'm'
    ensures Convertible(body + [unit]) && ParseTimeDuration(body + [unit]) == Months(12 * DigitsValue(body))
  {
    var s := body + [unit];
    assert s[..|s| - 1] == body;
  }

  /** `str(n) + "y"` and `str(n)` both convert to `12 * n` months. */
  lemma YearsRoundTrip(n: nat)
    ensures Convertible(Decimal(n) + "y") && ParseTimeDuration(Decimal(n) + "y") == Months(12 * n)
    ensures Convertible(Decimal(n)) && ParseTimeDuration(Decimal(n)) == Months(12 * n)
  {
    DecimalRoundTrip(n);
    OneUnitCharacterDropped(Decimal(n), 'y');
    DigitEndingReadWhole(Decimal(n));
  }

  /** As written, `str(n) + "m"` is never converted to `n` months. */
  lemma MonthSuffixLeftUnconverted(n: nat)
    ensures Convertible(Decimal(n) + "m")
    ensures ParseTimeDuration(Decimal(n) + "m") == Unconverted(Decimal(n) + "m")
  {
    var s := Decimal(n) + "m";
    assert s[|s| - 1] == 'm';
  }

  /** The conversion the help text describes needs a non-empty digit number part for every unit. */
  predicate ConvertibleIntended(s: string) {
    s != [] && IsAscii(s[|s| - 1]) && NumberText(s) != [] && AllDigits(NumberText(s))
  }

  /** As the help text describes it: 'm' counts months; 'y' or no unit counts years. */
  function ParseTimeDurationIntended(s: string): (months: nat)
    requires ConvertibleIntended(s)
    ensures s[|s| - 1] != 'm' ==> Convertible(s) && ParseTimeDuration(s) == Months(months)
  {
    if s[|s| - 1] == 'm' then DigitsValue(NumberText(s)) else DigitsValue(NumberText(s)) * 12
  }

  /** `str(n) + "m"` is `n` months; `str(n) + "y"` and `str(n)` are `12 * n` months. */
  lemma IntendedRoundTrip(n: nat)
    ensures ConvertibleIntended(Decimal(n) + "m") && ParseTimeDurationIntended(Decimal(n) + "m") == n
    ensures ConvertibleIntended(Decimal(n) + "y") && ParseTimeDurationIntended(Decimal(n) + "y") == 12 * n
    ensures ConvertibleIntended(Decimal(n)) && ParseTimeDurationIntended(Decimal(n)) == 12 * n
  {
    DecimalRoundTrip(n);
    var m := Decimal(n) + "m";
    assert m[..|m| - 1] == Decimal(n);
    YearsRoundTrip(n);
  }
}
