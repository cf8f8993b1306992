/** Decimal rendering of integers as JavaScript's `String(n)` and
    template literals print them, `padStart(2, '0')`, and the parsers that
    read such renderings back. */
module Decimal {
  import opened Optional

  predicate IsDigit(c: char) {
    '0' <= c <= '9'
  }

  function DigitChar(d: nat): (c: char)
    requires d < 10
    ensures IsDigit(c) && c as int - '0' as int == d
  {
    ('0' as int + d) as char
  }

  /** `String(n)` for a non-negative integer: its decimal digits, no leading zero. */
  function NatToString(n: nat): (r: string)
    ensures |r| >= 1
    ensures forall i :: 0 <= i < |r| ==> IsDigit(r[i])
    ensures n < 10 <==> |r| == 1
    ensures 10 <= n < 100 <==> |r| == 2
    ensures |r| > 1 ==> r[0] != '0'
  {
    if n < 10 then [DigitChar(n)] else NatToString(n / 10) + [DigitChar(n % 10)]
  }

  /** `String(i)` for any integer: a minus sign before the digits of a negative one. */
  function IntToString(i: int): (r: string)
    ensures |r| >= 1
    ensures i < 0 <==> r[0] == '-'
  {
    if i < 0 then "-" + NatToString(-i) else NatToString(i)
  }

  /** `String(n).padStart(2, '0')`: one leading zero when the rendering has one digit. */
  function PadStart2(s: string): (r: string)
    ensures |s| >= 2 ==> r == s
    ensures |s| < 2 ==> |r| == 2 && r[2 - |s|..] == s && forall i :: 0 <= i < 2 - |s| ==> r[i] == '0'
  {
    if |s| >= 2 then s else seq(2 - |s|, _ => '0') + s
  }

  /** The value of a non-empty run of digits; anything else is not a number. */
  function ParseNat(s: string): (r: Option<nat>)
    ensures r.Some? <==> |s| >= 1 && forall i :: 0 <= i < |s| ==> IsDigit(s[i])
  {
    if |s| == 0 || !IsDigit(s[|s| - 1]) then None
    else if |s| == 1 then Some(s[0] as int - '0' as int)
    else match ParseNat(s[..|s| - 1])
      case None => None
      case Some(v) => Some(v * 10 + (s[|s| - 1] as int - '0' as int))
  }

  /** The value of an optional minus sign followed by digits. */
  function ParseInt(s: string): Option<int> {
    if |s| >= 1 && s[0] == '-' then
      match ParseNat(s[1..])
      case None => None
      case Some(v) => if v == 0 then None else Some(0 - v)
    else
      match ParseNat(s)
      case None => None
      case Some(v) => Some(v as int)
  }

  lemma {:induction false} ParseNatToString(n: nat)
    ensures ParseNat(NatToString(n)) == Some(n)
  {
    if n >= 10 {
      var s := NatToString(n);
      assert s[..|s| - 1] == NatToString(n / 10);
      ParseNatToString(n / 10);
    }
  }

  lemma ParseIntToString(i: int)
    ensures ParseInt(IntToString(i)) == Some(i)
  {
    if i < 0 {
      var d := NatToString(-i);
      ParseNatToString(-i);
      ParseSigned(d, -i);
    } else {
      var d := NatToString(i);
      ParseNatToString(i);
      ParseUnsigned(d, i);
    }
  }

  lemma ParseSigned(d: string, n: nat)
    requires n > 0 && |d| >= 1 && IsDigit(d[0]) && ParseNat(d) == Some(n)
    ensures ParseInt("-" + d) == Some(-(n as int))
  {
    var s := "-" + d;
    assert s[0] == '-' && s[1..] == d;
    assert ParseInt(s) == (match ParseNat(d) case None => None case Some(v) => if v == 0 then None else Some(0 - v));
  }

  lemma ParseUnsigned(d: string, n: nat)
    requires |d| >= 1 && IsDigit(d[0]) && ParseNat(d) == Some(n)
    ensures ParseInt(d) == Some(n)
  {
  }

  /** Rendering is injective, so distinct integers are printed differently. */
  lemma IntToStringInjective(i: int, j: int)
    ensures IntToString(i) == IntToString(j) ==> i == j
  {
    ParseIntToString(i);
    ParseIntToString(j);
  }

  /** Two-digit padding of a number below 100 reads back as that number. */
  lemma ParsePadded(n: nat)
    requires n < 100
    ensures |PadStart2(NatToString(n))| == 2
    ensures ParseNat(PadStart2(NatToString(n))) == Some(n)
  {
    var s := PadStart2(NatToString(n));
    if n < 10 {
      assert NatToString(n) == [DigitChar(n)];
      assert s == ['0', DigitChar(n)];
      ParseTwoDigits('0', DigitChar(n));
    } else {
      assert s == NatToString(n);
      ParseNatToString(n);
    }
  }

  lemma ParseTwoDigits(a: char, b: char)
    requires IsDigit(a) && IsDigit(b)
    ensures ParseNat([a, b]) == Some((a as int - '0' as int) * 10 + (b as int - '0' as int))
  {
    assert [a, b][..1] == [a];
  }
}
