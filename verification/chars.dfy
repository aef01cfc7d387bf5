/** ASCII character classes of the response grammars (the `\w` and `\d` of
    Python regular expressions, restricted to ASCII), maximal runs of a class,
    and the decimal digit strings that Python's `int` accepts. */
module Chars {

  /** Python `\d` on ASCII input. */
  predicate IsDigit(c: char) {
    '0' <= c <= '9'
  }

  /** Python `\w` on ASCII input: `[A-Za-z0-9_]`. */
  predicate IsWordChar(c: char) {
    IsDigit(c) || 'a' <= c <= 'z' || 'A' <= c <= 'Z' || c == '_'
  }

  /** The two character classes the scanners repeat. */
  datatype CharClass = Word | Digit

  predicate InClass(c: char, cls: CharClass) {
    match cls
    case Word => IsWordChar(c)
    case Digit => IsDigit(c)
  }

  /** Every character of `t` belongs to `cls`. */
  predicate AllIn(t: string, cls: CharClass) {
    forall i :: 0 <= i < |t| ==> InClass(t[i], cls)
  }

  /** A non-empty run of decimal digits, the text of Python `\d+`. */
  predicate IsDigits(t: string) {
    |t| > 0 && AllIn(t, Digit)
  }

  /** Length of the maximal run of `cls` characters starting at index `k`:
      what a greedy `\w+` or `\d+` consumes before it meets a character
      outside the class or the end of the text. */
  function RunLength(t: string, k: nat, cls: CharClass): (n: nat)
    requires k <= |t|
    ensures k + n <= |t|
    decreases |t| - k
  {
    if k == |t| || !InClass(t[k], cls) then 0 else 1 + RunLength(t, k + 1, cls)
  }

  /** The run read from `k`, as a slice, lies in `cls`. */
  lemma RunSliceAllIn(t: string, k: nat, cls: CharClass)
    requires k <= |t|
    ensures AllIn(t[k..k + RunLength(t, k, cls)], cls)
  {
    var n := RunLength(t, k, cls);
    RunLengthIsMaximalRun(t, k, cls);
    var w := t[k..k + n];
    forall i | 0 <= i < |w|
      ensures InClass(w[i], cls)
    {
      assert w[i] == t[k + i];
    }
  }

  /** The run covers only class characters and stops at a character outside
      the class or at the end. */
  lemma {:induction false} RunLengthIsMaximalRun(t: string, k: nat, cls: CharClass)
    requires k <= |t|
    ensures forall i :: k <= i < k + RunLength(t, k, cls) ==> InClass(t[i], cls)
    ensures k + RunLength(t, k, cls) == |t| || !InClass(t[k + RunLength(t, k, cls)], cls)
    decreases |t| - k
  {
    if k < |t| && InClass(t[k], cls) {
      RunLengthIsMaximalRun(t, k + 1, cls);
    }
  }

  /** The run length is the only length with those properties. */
  lemma {:induction false} RunLengthUnique(t: string, k: nat, cls: CharClass, m: nat)
    requires k + m <= |t|
    requires forall i :: k <= i < k + m ==> InClass(t[i], cls)
    requires k + m == |t| || !InClass(t[k + m], cls)
    ensures RunLength(t, k, cls) == m
    decreases m
  {
    if m > 0 {
      RunLengthUnique(t, k + 1, cls, m - 1);
    }
  }

  function DigitValue(c: char): (d: nat)
    requires IsDigit(c)
    ensures d < 10
  {
    (c - '0') as nat
  }

  function DigitChar(d: nat): (c: char)
    requires d < 10
    ensures IsDigit(c) && DigitValue(c) == d
  {
    ('0' as int + d) as char
  }

  /** The number a string of decimal digits denotes; leading zeros are
      allowed, as in Python's `int("007") == 7`. */
  function DigitsValue(t: string): nat
    requires AllIn(t, Digit)
  {
    if |t| == 0 then 0
    else DigitsValue(t[..|t| - 1]) * 10 + DigitValue(t[|t| - 1])
  }

  /** Appending a digit multiplies the value by ten and adds the digit. */
  lemma DigitsValueSnoc(t: string, c: char)
    requires AllIn(t, Digit) && IsDigit(c)
    ensures AllIn(t + [c], Digit)
    ensures DigitsValue(t + [c]) == DigitsValue(t) * 10 + DigitValue(c)
  {
    assert (t + [c])[..|t|] == t;
  }

  /** Shortest decimal spelling of `n`, as Python's `str(n)`. */
  function NatToDigits(n: nat): (t: string)
    ensures IsDigits(t)
  {
    if n < 10 then [DigitChar(n)] else NatToDigits(n / 10) + [DigitChar(n % 10)]
  }

  /** Reading back the spelling of a number gives the number. */
  lemma {:induction false} NatToDigitsRoundTrip(n: nat)
    ensures DigitsValue(NatToDigits(n)) == n
  {
    var t := NatToDigits(n);
    if n >= 10 {
      NatToDigitsRoundTrip(n / 10);
      assert t[..|t| - 1] == NatToDigits(n / 10);
    }
  }
}
