/**
 Decimal rendering of integers, as Rust's `to_string` produces it for the
 unsigned and signed integer types: the shortest run of ASCII digits, with a
 leading '-' for a negative value and no '+' sign. `Value` and `ParseInt` read
 such strings back and serve as the inverse against which the rendering is
 proved.
 */
module Decimal {
  import opened Wrappers

  predicate IsDigit(c: char) {
    '0' <= c <= '9'
  }

  predicate AllDigits(s: string) {
    forall i :: 0 <= i < |s| ==> IsDigit(s[i])
  }

  /** A digit string in canonical form: non-empty and without a leading zero, except "0" itself. */
  predicate Canonical(s: string) {
    |s| >= 1 && AllDigits(s) && (s[0] == '0' ==> s == "0")
  }

  function DigitValue(c: char): (d: nat)
    requires IsDigit(c)
    ensures d < 10
  {
    (c as int) - ('0' as int)
  }

  function DigitChar(d: nat): (c: char)
    requires d < 10
    ensures IsDigit(c) && DigitValue(c) == d
  {
    (('0' as int) + d) as char
  }

  /** The number a digit string denotes, most significant digit first. */
  function Value(s: string): nat
    requires AllDigits(s)
  {
    if s == [] then 0 else Value(s[..|s| - 1]) * 10 + DigitValue(s[|s| - 1])
  }

  /** Rendering of a non-negative integer (every unsigned type's `to_string`). */
  function FromNat(n: nat): (s: string)
    ensures Canonical(s)
    ensures Value(s) == n
    decreases n
  {
    if n < 10 then [DigitChar(n)]
    else
      var p := FromNat(n / 10);
      assert (p + [DigitChar(n % 10)])[..|p|] == p;
      p + [DigitChar(n % 10)]
  }

  /** Rendering of a signed integer (every signed type's `to_string`). */
  function FromInt(x: int): (s: string)
    ensures |s| >= 1
    ensures x >= 0 ==> Canonical(s)
    ensures x < 0 ==> s[0] == '-' && Canonical(s[1..]) && s[1..] != "0"
  {
    if x >= 0 then FromNat(x) else "-" + FromNat(-x)
  }

  /** Reads back what `FromInt` writes: an optional '-' followed by digits. */
  function ParseInt(s: string): Option<int> {
    if |s| >= 2 && s[0] == '-' && AllDigits(s[1..]) then Some(0 - Value(s[1..]))
    else if |s| >= 1 && AllDigits(s) then Some(Value(s))
    else None
  }

  /** Only the digit string "0...0" denotes zero. */
  lemma {:induction false} ValueZero(s: string)
    requires AllDigits(s) && Value(s) == 0
    ensures forall i :: 0 <= i < |s| ==> s[i] == '0'
    decreases |s|
  {
    if s != [] {
      var p := s[..|s| - 1];
      assert AllDigits(p);
      ValueZero(p);
      forall i | 0 <= i < |s| ensures s[i] == '0' {
        if i < |s| - 1 { assert s[i] == p[i]; }
      }
    }
  }

  /** Rendering is onto the canonical digit strings: a canonical string is the rendering of its value. */
  lemma {:induction false} FromNatOfValue(s: string)
    requires Canonical(s)
    ensures FromNat(Value(s)) == s
    decreases |s|
  {
    if |s| > 1 {
      var p := s[..|s| - 1];
      var d := DigitValue(s[|s| - 1]);
      assert AllDigits(p);
      if Value(p) == 0 {
        ValueZero(p);
        assert false;
      }
      assert p[0] == s[0];
      assert Canonical(p);
      FromNatOfValue(p);
      var n := Value(s);
      assert n == Value(p) * 10 + d;
      assert n / 10 == Value(p) && n % 10 == d;
      assert DigitChar(d) == s[|s| - 1];
      assert s == p + [s[|s| - 1]];
    } else {
      assert s == [DigitChar(DigitValue(s[0]))];
    }
  }

  /** `ParseInt` recovers every value `FromInt` renders. */
  lemma ParseOfFromInt(x: int)
    ensures ParseInt(FromInt(x)) == Some(x)
  {
  }

  /** A rendered number holds no character other than digits and a leading '-'. */
  lemma FromIntChars(x: int, c: char)
    requires c != '-' && !IsDigit(c)
    ensures c !in FromInt(x)
  {
  }
}
