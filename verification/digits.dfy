/**
 * Decimal digit strings: the maximal digit run that `\d+` consumes, the value
 * `parseInt(…, 10)` gives a digit string, and the decimal text JavaScript
 * produces when it turns a non-negative integer back into a string.
 */
module Digits {

  predicate IsDigit(c: char) {
    '0' <= c <= '9'
  }

  predicate AllDigits(s: string) {
    forall i :: 0 <= i < |s| ==> IsDigit(s[i])
  }

  /** Numeric value of one decimal digit character. */
  function DigitValue(c: char): (d: nat)
    requires IsDigit(c)
    ensures d < 10
  {
    (c as int - '0' as int) as nat
  }

  /** The character for a digit value below ten. */
  function DigitChar(d: nat): (c: char)
    requires d < 10
    ensures IsDigit(c) && DigitValue(c) == d
  {
    ('0' as int + d) as char
  }

  /**
   * End of the maximal run of digits that starts at `i`: what a greedy `\d+`
   * consumes when it starts there (the run is empty when `s[i]` is not a digit).
   */
  function RunEnd(s: string, i: nat): (j: nat)
    requires i <= |s|
    ensures i <= j <= |s|
    ensures AllDigits(s[i..j])
    ensures j < |s| ==> !IsDigit(s[j])
    decreases |s| - i
  {
    if i < |s| && IsDigit(s[i]) then RunEnd(s, i + 1) else i
  }

  /** A digit run that ends at a non-digit is exactly the maximal run. */
  lemma {:induction false} RunEndExact(s: string, i: nat, j: nat)
    requires i <= j <= |s|
    requires AllDigits(s[i..j])
    requires j < |s| ==> !IsDigit(s[j])
    ensures RunEnd(s, i) == j
    decreases j - i
  {
    if i < j {
      assert IsDigit(s[i..j][0]);
      assert s[i + 1..j] == s[i..j][1..];
      RunEndExact(s, i + 1, j);
    }
  }

  /** A digit run covers at least the digits that are known to follow `i`. */
  lemma {:induction false} RunEndCovers(s: string, i: nat, j: nat)
    requires i <= j <= |s|
    requires AllDigits(s[i..j])
    ensures RunEnd(s, i) >= j
    decreases j - i
  {
    if i < j {
      assert IsDigit(s[i..j][0]);
      assert s[i + 1..j] == s[i..j][1..];
      RunEndCovers(s, i + 1, j);
    }
  }

  /** Decimal value of a digit string, most significant digit first. */
  function Value(d: string): (v: nat)
    requires AllDigits(d)
    ensures |d| == 1 ==> v == DigitValue(d[0])
  {
    if |d| == 0 then 0 else Value(d[..|d| - 1]) * 10 + DigitValue(d[|d| - 1])
  }

  /** A digit string has value zero exactly when all its digits are `0`. */
  lemma {:induction false} ValueZero(d: string)
    requires AllDigits(d)
    ensures Value(d) == 0 <==> forall i :: 0 <= i < |d| ==> d[i] == '0'
    decreases |d|
  {
    if |d| > 0 {
      var init := d[..|d| - 1];
      ValueZero(init);
      assert forall i :: 0 <= i < |init| ==> init[i] == d[i];
    }
  }

  /** Leading zeros do not change the value: `parseInt('007', 10)` is 7. */
  lemma {:induction false} ValueLeadingZero(d: string)
    requires AllDigits(d) && |d| > 0 && d[0] == '0'
    ensures Value(d) == Value(d[1..])
    decreases |d|
  {
    if |d| > 1 {
      var init := d[..|d| - 1];
      assert d[1..][..|d| - 2] == init[1..];
      ValueLeadingZero(init);
    }
  }

  /** Decimal text of a non-negative integer, without leading zeros. */
  function Show(n: nat): (d: string)
    ensures |d| > 0 && AllDigits(d)
    ensures Value(d) == n
    ensures |d| > 1 ==> d[0] != '0'
  {
    if n < 10 then [DigitChar(n)]
    else
      var prefix := Show(n / 10);
      var d := prefix + [DigitChar(n % 10)];
      assert d[..|d| - 1] == prefix;
      d
  }

  /** Decimal text of an integer, as JavaScript prints it: a `-` before the digits of a negative one. */
  function ShowInt(z: int): (t: string)
    ensures z >= 0 ==> |t| > 0 && AllDigits(t) && Value(t) == z && (|t| > 1 ==> t[0] != '0')
    ensures z < 0 ==> |t| > 1 && t[0] == '-' && AllDigits(t[1..]) && Value(t[1..]) == -z
    ensures z < 0 ==> t[1] != '0'
  {
    if z >= 0 then Show(z)
    else
      var d := Show(-z);
      assert ("-" + d)[1..] == d;
      "-" + d
  }
}
