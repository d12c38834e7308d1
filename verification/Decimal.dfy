/** Decimal numerals, as written by std::to_string and read back by std::stoi, and the
    string searches and joins the id lists use. */
module Decimal {

  predicate IsDigit(c: char) {
    '0' <= c <= '9'
  }

  predicate AllDigits(s: string) {
    forall i :: 0 <= i < |s| ==> IsDigit(s[i])
  }

  function DigitChar(d: int): (c: char)
    requires 0 <= d < 10
    ensures IsDigit(c)
  {
    '0' + d as char
  }

  function DigitValue(c: char): (d: nat)
    requires IsDigit(c)
    ensures d < 10
  {
    c as int - '0' as int
  }

  /** std::to_string of a non-negative number. */
  function ToString(n: nat): (s: string)
    ensures |s| > 0 && AllDigits(s)
  {
    if n < 10 then [DigitChar(n)] else ToString(n / 10) + [DigitChar(n % 10)]
  }

  /** std::stoi of a string of digits. */
  function ToNat(s: string): nat
    requires AllDigits(s)
  {
    if s == [] then 0
    else ToNat(s[..|s| - 1]) * 10 + DigitValue(s[|s| - 1])
  }

  lemma {:induction false} ToNatToString(n: nat)
    ensures ToNat(ToString(n)) == n
  {
    var s := ToString(n);
    if n < 10 {
      assert s[..0] == "";
    } else {
      ToNatToString(n / 10);
      assert s[..|s| - 1] == ToString(n / 10);
    }
  }

  /** std::string::find of one character; -1 stands for npos. */
  function Find(s: string, c: char): (p: int)
    ensures -1 <= p < |s|
    ensures p >= 0 ==> s[p] == c && c !in s[..p]
    ensures p == -1 ==> c !in s
  {
    if s == [] then -1
    else if s[0] == c then 0
    else
      var q := Find(s[1..], c);
      assert s == [s[0]] + s[1..];
      if q == -1 then -1 else
        assert s[..q + 1] == [s[0]] + s[1..][..q];
        q + 1
  }

  lemma FindAt(a: string, c: char, b: string)
    requires c !in a
    ensures Find(a + [c] + b, c) == |a|
  {
    assert (a + [c] + b)[|a|] == c;
  }

  lemma FindNone(a: string, c: char)
    requires c !in a
    ensures Find(a, c) == -1
  {
  }

  lemma DigitsHaveNo(s: string, c: char)
    requires AllDigits(s) && !IsDigit(c)
    ensures c !in s
  {
  }
}
