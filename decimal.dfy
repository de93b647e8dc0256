/** Decimal text of integers, as a Kotlin string template renders an `Int` or
    a `Long` (`"Code: ${code}"`, the time stamp in a download's file name),
    and the reading that undoes it. */
module Decimal {

  predicate IsDigit(c: char) {
    '0' <= c <= '9'
  }

  function DigitChar(d: nat): (c: char)
    requires d < 10
    ensures IsDigit(c) && DigitValue(c) == d
  {
    "0123456789"[d]
  }

  function DigitValue(c: char): nat {
    if IsDigit(c) then (c as int - '0' as int) as nat else 0
  }

  /** The shortest decimal text of `n`: at least one digit, and no leading
      zero unless the text is the single digit `0`. */
  function NatText(n: nat): (s: string)
    ensures |s| >= 1
    ensures forall i :: 0 <= i < |s| ==> IsDigit(s[i])
    ensures |s| > 1 ==> s[0] != '0'
    ensures n < 10 <==> |s| == 1
  {
    if n < 10 then [DigitChar(n)] else NatText(n / 10) + [DigitChar(n % 10)]
  }

  /** `Integer.toString` / `Long.toString`: a minus sign before the text of
      the magnitude when negative. */
  function IntText(i: int): (s: string)
    ensures |s| >= 1
    ensures forall k :: 0 <= k < |s| ==> IsDigit(s[k]) || s[k] == '-'
    ensures s[0] == '-' <==> i < 0
  {
    if i < 0 then "-" + NatText(-i) else NatText(i)
  }

  /** The value of a run of digits, most significant first. */
  function ReadNat(s: string): nat
    decreases |s|
  {
    if s == [] then 0 else ReadNat(s[..|s| - 1]) * 10 + DigitValue(s[|s| - 1])
  }

  /** An optional minus sign, then digits. */
  function ReadInt(s: string): int {
    if |s| > 0 && s[0] == '-' then 0 - ReadNat(s[1..]) as int else ReadNat(s)
  }

  lemma {:induction false} ReadNatText(n: nat)
    ensures ReadNat(NatText(n)) == n
  {
    var s := NatText(n);
    if n < 10 {
      assert s[..|s| - 1] == [];
    } else {
      assert s[..|s| - 1] == NatText(n / 10);
      ReadNatText(n / 10);
    }
  }

  /** Reading the text of an integer gives the integer back. */
  lemma ReadIntText(i: int)
    ensures ReadInt(IntText(i)) == i
  {
    if i < 0 {
      ReadNegativeText(i);
    } else {
      ReadNatText(i);
    }
  }

  lemma ReadNegativeText(i: int)
    requires i < 0
    ensures ReadInt(IntText(i)) == i
  {
    var n: nat := -i;
    NegativeText(i, n);
    ReadNatText(n);
    ReadSigned(NatText(n), n);
  }

  lemma NegativeText(i: int, n: nat)
    requires i < 0 && n == -i
    ensures IntText(i) == "-" + NatText(n)
  {
  }

  lemma ReadSigned(t: string, n: nat)
    requires ReadNat(t) == n
    ensures ReadInt("-" + t) == 0 - n as int
  {
    assert ("-" + t)[1..] == t;
  }
}
