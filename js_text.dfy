/** The JavaScript string operations the handlers use: `String.prototype.trim`
    for the worker-name check, and `String(n)` with `padStart` for the date
    stamp of a new shift. */
module JsText {

  /** The WhiteSpace and LineTerminator code points that `trim` strips. */
  predicate IsWhiteSpace(c: char) {
    || c == '\t' || c == '\n' || c == '\U{000B}' || c == '\U{000C}' || c == '\r'
    || c == ' ' || c == '\U{00A0}' || c == '\U{1680}'
    || ('\U{2000}' <= c <= '\U{200A}')
    || c == '\U{2028}' || c == '\U{2029}' || c == '\U{202F}' || c == '\U{205F}'
    || c == '\U{3000}' || c == '\U{FEFF}'
  }

  predicate AllWhiteSpace(s: string) {
    forall i :: 0 <= i < |s| ==> IsWhiteSpace(s[i])
  }

  /** Length of the whitespace run at the front of `s`. */
  function LeadingSpace(s: string): (n: nat)
    ensures n <= |s|
    ensures AllWhiteSpace(s[..n])
    ensures n < |s| ==> !IsWhiteSpace(s[n])
  {
    if s == [] || !IsWhiteSpace(s[0]) then 0
    else
      var k := LeadingSpace(s[1..]);
      assert s[..1 + k] == [s[0]] + s[1..][..k];
      1 + k
  }

  /** Length of the whitespace run at the back of `s`. */
  function TrailingSpace(s: string): (n: nat)
    ensures n <= |s|
    ensures AllWhiteSpace(s[|s| - n..])
    ensures n < |s| ==> !IsWhiteSpace(s[|s| - 1 - n])
  {
    if s == [] || !IsWhiteSpace(s[|s| - 1]) then 0
    else
      var t := s[..|s| - 1];
      var k := TrailingSpace(t);
      assert s[|s| - (1 + k)..] == t[|t| - k..] + [s[|s| - 1]];
      1 + k
  }

  /** `s.trim()`: `s` without its leading and trailing whitespace. The result
      neither starts nor ends with whitespace, and it is empty exactly when
      `s` is all whitespace; `TrimIsSlice` shows it is `s` cut only at
      whitespace. */
  function Trim(s: string): (r: string)
    ensures r == [] || (!IsWhiteSpace(r[0]) && !IsWhiteSpace(r[|r| - 1]))
    ensures |r| == 0 <==> AllWhiteSpace(s)
  {
    var i := LeadingSpace(s);
    var t := s[i..];
    var j := i + |t| - TrailingSpace(t);
    TrimBounds(s, i, j);
    s[i..j]
  }

  /** `s.trim()` is a slice of `s` with only whitespace cut off either end. */
  lemma TrimIsSlice(s: string)
    ensures exists i, j :: 0 <= i <= j <= |s| && Trim(s) == s[i..j] && AllWhiteSpace(s[..i]) && AllWhiteSpace(s[j..])
  {
    var i := LeadingSpace(s);
    var j := i + |s[i..]| - TrailingSpace(s[i..]);
    TrimBounds(s, i, j);
    assert Trim(s) == s[i..j];
  }

  /** The cut points of `Trim`: whitespace outside `i..j`, and none at its ends. */
  lemma TrimBounds(s: string, i: nat, j: nat)
    requires i == LeadingSpace(s) && j == i + |s[i..]| - TrailingSpace(s[i..])
    ensures i <= j <= |s|
    ensures AllWhiteSpace(s[..i]) && AllWhiteSpace(s[j..])
    ensures i < j ==> !IsWhiteSpace(s[i]) && !IsWhiteSpace(s[j - 1])
    ensures i == j <==> AllWhiteSpace(s)
  {
    var t := s[i..];
    var k := TrailingSpace(t);
    assert s[j..] == t[|t| - k..];
    if i == j {
      if i < |s| {
        assert false;
      }
      assert s[..i] == s;
    } else {
      assert t[|t| - 1 - k] == s[j - 1];
    }
  }

  function DigitChar(d: int): (c: char)
    requires 0 <= d <= 9
    ensures '0' <= c <= '9'
  {
    (d + '0' as int) as char
  }

  function DigitValue(c: char): int {
    c as int - '0' as int
  }

  predicate IsDigits(s: string) {
    forall i :: 0 <= i < |s| ==> '0' <= s[i] <= '9'
  }

  /** Decimal digits of `n` with no leading zero, as `String(n)` writes a
      non-negative integral number. */
  function Digits(n: nat): (s: string)
    ensures |s| >= 1 && IsDigits(s)
    ensures |s| > 1 ==> s[0] != '0'
    decreases n
  {
    if n < 10 then [DigitChar(n)] else Digits(n / 10) + [DigitChar(n % 10)]
  }

  /** The number a string of decimal digits denotes. */
  function ParseDigits(s: string): nat
    requires IsDigits(s)
  {
    if s == [] then 0 else 10 * ParseDigits(s[..|s| - 1]) + DigitValue(s[|s| - 1])
  }

  /** Reading back the digits `String(n)` wrote gives `n` again. */
  lemma {:induction false} ParseDigitsOfDigits(n: nat)
    ensures ParseDigits(Digits(n)) == n
  {
    if n >= 10 {
      var s := Digits(n);
      assert s[..|s| - 1] == Digits(n / 10);
      ParseDigitsOfDigits(n / 10);
    }
  }

  /** Two numbers print alike only if they are equal. */
  lemma DigitsInjective(m: nat, n: nat)
    requires Digits(m) == Digits(n)
    ensures m == n
  {
    ParseDigitsOfDigits(m);
    ParseDigitsOfDigits(n);
  }

  /** `String(n)` for an integral number: its decimal digits, after a `-`
      exactly when it is negative. */
  function NumberToString(n: int): (s: string)
    ensures |s| >= 1 && (s[0] == '-' <==> n < 0)
  {
    if n < 0 then "-" + Digits(-n) else Digits(n)
  }

  /** The digits `String(n)` writes read back as the magnitude of `n`. */
  lemma NumberToStringReadsBack(n: int)
    ensures 0 <= n ==> IsDigits(NumberToString(n)) && ParseDigits(NumberToString(n)) == n
    ensures n < 0 ==> IsDigits(NumberToString(n)[1..]) && ParseDigits(NumberToString(n)[1..]) == -n
  {
    if n < 0 {
      assert NumberToString(n)[1..] == Digits(-n);
      ParseDigitsOfDigits(-n);
    } else {
      ParseDigitsOfDigits(n);
    }
  }

  /** `s.padStart(width, fill)` with a one-character fill string. */
  function PadStart(s: string, width: nat, fill: char): (r: string)
    ensures |r| == if |s| < width then width else |s|
    ensures r[|r| - |s|..] == s
    ensures forall i :: 0 <= i < |r| - |s| ==> r[i] == fill
  {
    if |s| >= width then s else seq(width - |s|, _ => fill) + s
  }
}
