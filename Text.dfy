/** Character classes and decimal numerals shared by the rewriter's passes. */
module Text {

  datatype Option<+T> = None | Some(value: T)

  /** A JavaScript line terminator: the characters the regex `.` and `$` (with
      the `m` flag) treat as ending a line. */
  predicate IsLineTerminator(c: char) {
    c == '\n' || c == '\r' || c == '\U{2028}' || c == '\U{2029}'
  }

  /** What the regex class `\d` matches: an ASCII decimal digit. */
  predicate IsDigit(c: char) {
    '0' <= c <= '9'
  }

  predicate IsAscii(c: char) {
    c < 128 as char
  }

  /** `pat` occurs in `s` at position `i`. */
  predicate StartsAt(s: string, i: nat, pat: string) {
    i + |pat| <= |s| && s[i..i + |pat|] == pat
  }

  /** `pat` occurs somewhere in `s`. */
  predicate Occurs(s: string, pat: string) {
    exists i :: 0 <= i <= |s| && StartsAt(s, i, pat)
  }

  function DigitChar(d: nat): (c: char)
    requires d < 10
    ensures IsDigit(c)
  {
    ('0' as int + d) as char
  }

  function DigitValue(c: char): (d: nat)
    requires IsDigit(c)
    ensures d < 10 && DigitChar(d) == c
  {
    (c as int - '0' as int) as nat
  }

  /** The decimal numeral of `n` without leading zeros, as produced by a
      JavaScript template literal `${n}` for a non-negative integer. */
  function NatToDecimal(n: nat): (ds: string)
    ensures |ds| > 0
    ensures forall i :: 0 <= i < |ds| ==> IsDigit(ds[i])
    ensures n >= 10 ==> ds[0] != '0'
  {
    if n < 10 then [DigitChar(n)] else NatToDecimal(n / 10) + [DigitChar(n % 10)]
  }

  /** The value of a string of decimal digits, as `parseInt(ds)` computes it
      (leading zeros allowed). */
  function DecimalValue(ds: string): nat
    requires forall i :: 0 <= i < |ds| ==> IsDigit(ds[i])
  {
    if ds == [] then 0 else DecimalValue(ds[..|ds| - 1]) * 10 + DigitValue(ds[|ds| - 1])
  }

  /** Reading back a numeral gives the number it was written from. */
  lemma {:induction false} DecimalRoundTrip(n: nat)
    ensures DecimalValue(NatToDecimal(n)) == n
  {
    if n >= 10 {
      var ds := NatToDecimal(n);
      var front := NatToDecimal(n / 10);
      assert ds[..|ds| - 1] == front;
      DecimalRoundTrip(n / 10);
      assert DigitValue(DigitChar(n % 10)) == n % 10;
    }
  }

  /** A character put before a text that ends in `rest` gives a text that
      ends in the same `rest`. */
  lemma ConsJoin(c: char, t: string, whole: string, rest: string, x: string, y: string)
    requires whole == [c] + t && x == t + rest && y == [c] + x
    ensures y == whole + rest
  {
  }

  /** The first character of `x + y` and what follows it. */
  lemma ConsSplit(x: string, y: string)
    requires x != []
    ensures (x + y)[0] == x[0] && (x + y)[1..] == x[1..] + y && x == [x[0]] + x[1..]
  {
  }

  lemma Assoc(a: string, b: string, c: string)
    ensures a + (b + c) == a + b + c
  {
  }
}
