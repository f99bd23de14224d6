/** Decimal text of integers, as printed by the kernel's sprintf/snprintf
    with "%d" and "%ld", and the parse that undoes it. */
module Decimal {

  predicate IsDigit(c: char) { '0' <= c <= '9' }

  function DigitChar(d: nat): (c: char)
    requires d < 10
    ensures IsDigit(c)
  {
    (48 + d) as char
  }

  function DigitValue(c: char): (d: nat)
    requires IsDigit(c)
  {
    (c as int - 48) as nat
  }

  /** The digits of `n` without leading zeros ("0" for zero). */
  function Digits(n: nat): (s: seq<char>)
    ensures |s| >= 1 && (forall i :: 0 <= i < |s| ==> IsDigit(s[i]))
    ensures s[0] == '0' <==> n == 0
  {
    if n < 10 then [DigitChar(n)] else Digits(n / 10) + [DigitChar(n % 10)]
  }

  /** "%d" of a signed value: a minus sign for negative values, then the digits. */
  function FormatInt(i: int): (s: string)
  {
    if i < 0 then ['-'] + Digits(-i) else Digits(i)
  }

  function ParseDigits(s: seq<char>): (n: nat)
    requires forall i :: 0 <= i < |s| ==> IsDigit(s[i])
  {
    if s == [] then 0 else ParseDigits(s[..|s| - 1]) * 10 + DigitValue(s[|s| - 1])
  }

  function ParseInt(s: string): (n: int)
    requires (|s| > 0 && s[0] == '-') ==> forall i :: 1 <= i < |s| ==> IsDigit(s[i])
    requires (|s| == 0 || s[0] != '-') ==> forall i :: 0 <= i < |s| ==> IsDigit(s[i])
  {
    if |s| > 0 && s[0] == '-' then -(ParseDigits(s[1..]) as int) else ParseDigits(s)
  }

  lemma {:induction false} ParseDigitsOf(n: nat)
    ensures ParseDigits(Digits(n)) == n
  {
    if n >= 10 {
      var s := Digits(n);
      assert s[..|s| - 1] == Digits(n / 10);
      ParseDigitsOf(n / 10);
    }
  }

  /** A run of digits as "%d" prints one: at least one digit, and no
      leading zero unless the run is "0" itself. */
  predicate Canonical(d: seq<char>)
  {
    |d| >= 1 && (forall k :: 0 <= k < |d| ==> IsDigit(d[k])) && (d[0] == '0' ==> |d| == 1)
  }

  /** `s` is the text "%d" prints for `v`: a minus sign only before a
      non-zero digit run, then the digits of `v`'s magnitude. */
  predicate Denotes(s: string, v: int)
  {
    if |s| > 0 && s[0] == '-' then Canonical(s[1..]) && s[1] != '0' && ParseInt(s) == v
    else Canonical(s) && ParseInt(s) == v
  }

  /** Reading back the printed text yields the printed value. */
  lemma ParseFormat(i: int)
    ensures Denotes(FormatInt(i), i)
  {
    var s := FormatInt(i);
    if i < 0 {
      assert s[0] == '-' && s[1..] == Digits(-i);
      ParseDigitsOf(-i);
    } else {
      assert s == Digits(i) && IsDigit(s[0]);
      ParseDigitsOf(i);
    }
  }

  /** A digit run that does not start with '0' is worth at least 1. */
  lemma {:induction false} ParseDigitsPositive(d: seq<char>)
    requires Canonical(d) && d[0] != '0'
    ensures ParseDigits(d) >= 1
  {
    if |d| > 1 {
      ParseDigitsPositive(d[..|d| - 1]);
    }
  }

  /** A canonical digit run is the only text of its value. */
  lemma {:induction false} CanonicalDigits(d: seq<char>)
    requires Canonical(d)
    ensures d == Digits(ParseDigits(d))
  {
    var n := ParseDigits(d);
    if |d| == 1 {
      assert d[..|d| - 1] == [] && ParseDigits([]) == 0;
      assert n == DigitValue(d[0]);
      assert DigitChar(DigitValue(d[0])) == d[0];
    } else {
      var p := d[..|d| - 1];
      assert p[0] == d[0];
      ParseDigitsPositive(p);
      CanonicalDigits(p);
      assert n / 10 == ParseDigits(p) && n % 10 == DigitValue(d[|d| - 1]);
      assert DigitChar(DigitValue(d[|d| - 1])) == d[|d| - 1];
      assert d == p + [d[|d| - 1]];
    }
  }

  /** "%d" has exactly one text per value: `s` denotes `v` precisely when it
      is FormatInt(v). */
  lemma DenotesExactly(s: string, v: int)
    ensures Denotes(s, v) <==> s == FormatInt(v)
  {
    if s == FormatInt(v) {
      ParseFormat(v);
    }
    if Denotes(s, v) {
      if |s| > 0 && s[0] == '-' {
        var d := s[1..];
        CanonicalDigits(d);
        ParseDigitsPositive(d);
        assert s == ['-'] + d;
      } else {
        CanonicalDigits(s);
      }
    }
  }

  function Pow10(k: nat): (p: nat)
  {
    if k == 0 then 1 else 10 * Pow10(k - 1)
  }

  /** A value below 10^k prints in at most k digits. */
  lemma {:induction false} DigitsLength(n: nat, k: nat)
    requires 1 <= k && n < Pow10(k)
    ensures |Digits(n)| <= k
  {
    if n >= 10 {
      assert k >= 2;
      DigitsLength(n / 10, k - 1);
    }
  }
}
