/** The pure rules of the shift handlers: which `shift_start` values are
    accepted, how `shift_end` follows from the start, and how the date stamp
    of a new shift is written. */
module ShiftRules {
  import opened Outcomes
  import opened JsText

  /** A field of the JSON request body as the handler receives it. */
  datatype JsonValue = Missing | Null | Boolean(b: bool) | Number(n: real) | Text(s: string) | Structured

  /** The hours a shift may start at, in the order the handlers list them. */
  const ALLOWED_STARTS: seq<int> := [0, 8, 16]

  predicate IsShiftHour(h: int) {
    h in ALLOWED_STARTS
  }

  /** `[0, 8, 16].includes(shift_start)`: the SameValueZero comparison of
      `includes` matches only a JSON number equal to a listed hour, so
      strings, fractions and every other value are refused. */
  function StartHour(v: JsonValue): (h: Option<int>)
    ensures h.Some? <==> exists i :: 0 <= i < |ALLOWED_STARTS| && v == Number(ALLOWED_STARTS[i] as real)
    ensures h.Some? ==> IsShiftHour(h.value) && v == Number(h.value as real)
  {
    if v.Number? && v.n.Floor as real == v.n && IsShiftHour(v.n.Floor) then Some(v.n.Floor) else None
  }

  /** `(shift_start + 8) % 24`; for the hours the handlers let through, Dafny's
      remainder agrees with JavaScript's. Each allowed start maps to the next
      allowed hour, 16 wrapping round to 0. */
  function ShiftEnd(start: int): (end: int)
    requires 0 <= start
    ensures 0 <= end < 24
    ensures IsShiftHour(start) ==> IsShiftHour(end) && end == (if start == 16 then 0 else start + 8)
  {
    (start + 8) % 24
  }

  /** The local calendar reading of `new Date()`: `getFullYear()`,
      `getMonth()` (counted from 0) and `getDate()`. */
  datatype LocalDate = LocalDate(year: int, monthIndex: int, day: int)

  /** The ranges a clock reading takes, for years written without a sign. */
  predicate IsCalendarReading(d: LocalDate) {
    0 <= d.year && 0 <= d.monthIndex <= 11 && 1 <= d.day <= 31
  }

  /** The date stamp of a new shift: the year, the month counted from one and
      the day, joined by `-`, month and day padded with `0` to two characters.
      For a clock reading the stamp is the year's digits, `-`, the month in
      two digits, `-`, the day in two digits. */
  function FormatDate(d: LocalDate): (stamp: string)
    ensures IsCalendarReading(d) ==>
      stamp == Digits(d.year) + "-" + TwoDigits(d.monthIndex + 1) + "-" + TwoDigits(d.day)
  {
    PaddedTwoDigits(d.monthIndex + 1);
    PaddedTwoDigits(d.day);
    NumberToString(d.year) + "-" + PadStart(NumberToString(d.monthIndex + 1), 2, '0')
      + "-" + PadStart(NumberToString(d.day), 2, '0')
  }

  /** Exactly two decimal digits for `n`, with a leading zero below ten. */
  function TwoDigits(n: int): (s: string)
    requires 0 <= n < 100
    ensures |s| == 2 && IsDigits(s)
    ensures ParseDigits(s) == n
  {
    var s := [DigitChar(n / 10), DigitChar(n % 10)];
    assert s[..1][..0] == [];
    assert ParseDigits(s[..1]) == n / 10;
    s
  }

  lemma PaddedTwoDigits(n: int)
    ensures 1 <= n < 100 ==> PadStart(NumberToString(n), 2, '0') == TwoDigits(n)
  {
    if 10 <= n < 100 {
      assert Digits(n / 10) == [DigitChar(n / 10)];
    }
  }

  /** Distinct days get distinct stamps, so comparing stamps compares days. */
  lemma FormatDateInjective(d: LocalDate, e: LocalDate)
    requires IsCalendarReading(d) && IsCalendarReading(e)
    requires FormatDate(d) == FormatDate(e)
    ensures d == e
  {
    var sd := Digits(d.year) + "-" + TwoDigits(d.monthIndex + 1) + "-" + TwoDigits(d.day);
    var se := Digits(e.year) + "-" + TwoDigits(e.monthIndex + 1) + "-" + TwoDigits(e.day);
    assert sd == FormatDate(d) == FormatDate(e) == se;
    StampInjective(d, e);
  }

  /** The year, month and day can be read back from the closed form of a
      stamp. */
  lemma StampInjective(d: LocalDate, e: LocalDate)
    requires IsCalendarReading(d) && IsCalendarReading(e)
    requires Digits(d.year) + "-" + TwoDigits(d.monthIndex + 1) + "-" + TwoDigits(d.day)
      == Digits(e.year) + "-" + TwoDigits(e.monthIndex + 1) + "-" + TwoDigits(e.day)
    ensures d == e
  {
    var yd, md, dd := Digits(d.year), TwoDigits(d.monthIndex + 1), TwoDigits(d.day);
    var ye, me, de := Digits(e.year), TwoDigits(e.monthIndex + 1), TwoDigits(e.day);
    var s := yd + "-" + md + "-" + dd;
    assert s == ye + "-" + me + "-" + de;
    StampFields(yd, md, dd);
    StampFields(ye, me, de);
    assert yd == ye && md == me && dd == de;
    DigitsInjective(d.year, e.year);
    TwoDigitsInjective(d.monthIndex + 1, e.monthIndex + 1);
    TwoDigitsInjective(d.day, e.day);
  }

  /** The three fields of a stamp can be cut back out of it. */
  lemma StampFields(year: string, month: string, day: string)
    requires |month| == 2 && |day| == 2
    ensures var s := year + "-" + month + "-" + day;
      s[..|s| - 6] == year && s[|s| - 5..|s| - 3] == month && s[|s| - 2..] == day
  {
    var s := year + "-" + month + "-" + day;
    assert s == year + (['-'] + month + ['-'] + day);
  }

  lemma TwoDigitsInjective(m: int, n: int)
    requires 0 <= m < 100 && 0 <= n < 100
    requires TwoDigits(m) == TwoDigits(n)
    ensures m == n
  {
    assert DigitChar(m / 10) == DigitChar(n / 10) && DigitChar(m % 10) == DigitChar(n % 10);
  }
}
