/**
 * The character classes of <ctype.h> in the "C" locale (the program never
 * calls setlocale), and decimal numerals.
 */
module CType {

  predicate IsDigit(c: char) { '0' <= c <= '9' }

  predicate IsAlpha(c: char) { 'A' <= c <= 'Z' || 'a' <= c <= 'z' }

  predicate IsAlnum(c: char) { IsDigit(c) || IsAlpha(c) }

  /** isspace: blank, \t, \n, \v, \f and \r */
  predicate IsSpace(c: char) { c == ' ' || '\t' <= c <= '\r' }

  /** A C string never holds the terminating NUL inside its text. */
  predicate CString(s: string) { forall i :: 0 <= i < |s| ==> s[i] != '\0' }

  predicate AllDigits(s: string) { forall i :: 0 <= i < |s| ==> IsDigit(s[i]) }

  function DigitValue(c: char): (d: nat)
    requires IsDigit(c)
    ensures d < 10
  {
    c as int - '0' as int
  }

  function DigitChar(d: nat): (c: char)
    requires d < 10
    ensures IsDigit(c) && DigitValue(c) == d
  {
    ('0' as int + d) as char
  }

  /** The value of a run of decimal digits, read left to right as `v = v * 10 + digit`. */
  function Value(s: string): nat
    requires AllDigits(s)
  {
    if s == [] then 0 else Value(s[..|s| - 1]) * 10 + DigitValue(s[|s| - 1])
  }

  /** The shortest decimal numeral of `n`. */
  function Render(n: nat): (s: string)
  {
    if n < 10 then [DigitChar(n)] else Render(n / 10) + [DigitChar(n % 10)]
  }

  /** Reading back a rendered numeral gives the number: every nat has a numeral. */
  lemma {:induction false} RenderRoundTrip(n: nat)
    ensures |Render(n)| > 0 && AllDigits(Render(n)) && Value(Render(n)) == n
  {
    if n >= 10 {
      RenderRoundTrip(n / 10);
      var s := Render(n);
      assert s[..|s| - 1] == Render(n / 10);
    }
  }
}
