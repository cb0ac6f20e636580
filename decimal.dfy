/** Decimal rendering of integers, as a template literal prints them in a message. */
module Decimal {

  /** The character of a decimal digit. */
  function DigitChar(d: nat): (ch: char)
    requires d < 10
    ensures '0' <= ch <= '9'
    ensures DigitValue(ch) == d
  {
    ('0' as int + d) as char
  }

  /** The value of a decimal digit character (0 for any other character). */
  function DigitValue(ch: char): nat {
    if '0' <= ch <= '9' then ch as int - '0' as int else 0
  }

  /** Decimal digits of `n`, most significant first, without leading zeros. */
  function NatToString(n: nat): (s: string)
    ensures |s| >= 1
    ensures forall i :: 0 <= i < |s| ==> '0' <= s[i] <= '9'
    ensures |s| > 1 ==> s[0] != '0'
    ensures s[0] == '0' <==> n == 0
  {
    if n < 10 then [DigitChar(n)] else NatToString(n / 10) + [DigitChar(n % 10)]
  }

  /** Decimal text of `n`, with a leading minus sign when it is negative. */
  function IntToString(n: int): (s: string)
    ensures |s| >= 1
    ensures s[0] == '-' <==> n < 0
    ensures forall i :: 0 < i < |s| ==> '0' <= s[i] <= '9'
    ensures n < 0 ==> |s| > 1 && s[1] != '0'
    ensures n >= 0 ==> '0' <= s[0] <= '9' && (|s| > 1 ==> s[0] != '0')
  {
    if n < 0 then "-" + NatToString(-n) else NatToString(n)
  }

  /** The number a string of decimal digits denotes. */
  function ParseNat(s: string): nat {
    if s == [] then 0 else 10 * ParseNat(s[..|s| - 1]) + DigitValue(s[|s| - 1])
  }

  /** The number a decimal text with an optional leading minus sign denotes. */
  function ParseInt(s: string): int {
    if |s| > 0 && s[0] == '-' then -(ParseNat(s[1..]) as int) else ParseNat(s)
  }

  /** Reading back the digits of `n` gives `n`. */
  lemma {:induction false} ParseNatToString(n: nat)
    ensures ParseNat(NatToString(n)) == n
  {
    var s := NatToString(n);
    if n >= 10 {
      var q, d := n / 10, n % 10;
      ParseNatToString(q);
      assert s == NatToString(q) + [DigitChar(d)];
      assert s[..|s| - 1] == NatToString(q);
      assert ParseNat(s) == 10 * q + d;
    }
  }

  /** A digit character is the character of its own value. */
  lemma DigitCharValue(ch: char)
    requires '0' <= ch <= '9'
    ensures DigitValue(ch) < 10 && DigitChar(DigitValue(ch)) == ch
  {
  }

  /** A digit string that does not start with `0` denotes a positive number. */
  lemma {:induction false} ParseNatPositive(s: string)
    requires |s| >= 1 && s[0] != '0'
    requires forall i :: 0 <= i < |s| ==> '0' <= s[i] <= '9'
    ensures ParseNat(s) >= 1
  {
    if |s| > 1 {
      ParseNatPositive(s[..|s| - 1]);
    }
  }

  /** The digits of `n` are the only digit string without leading zeros that denotes `n`:
      the decimal text of a number is unique. */
  lemma {:induction false} NatToStringCanonical(s: string, n: nat)
    requires |s| >= 1 && (|s| > 1 ==> s[0] != '0')
    requires forall i :: 0 <= i < |s| ==> '0' <= s[i] <= '9'
    requires ParseNat(s) == n
    ensures s == NatToString(n)
  {
    var last := s[|s| - 1];
    DigitCharValue(last);
    if |s| == 1 {
      assert s == [last];
    } else {
      var p := s[..|s| - 1];
      ParseNatPositive(p);
      var q := ParseNat(p);
      assert n == 10 * q + DigitValue(last);
      assert n / 10 == q && n % 10 == DigitValue(last);
      NatToStringCanonical(p, q);
      assert s == p + [last];
    }
  }

  /** Reading back the text of `n` gives `n`: the message names the number exactly. */
  lemma IntToStringRoundTrip(n: int)
    ensures ParseInt(IntToString(n)) == n
  {
    if n < 0 {
      ParseNatToString(-n);
      assert IntToString(n)[1..] == NatToString(-n);
    } else {
      ParseNatToString(n);
    }
  }

  /** A text shaped as `IntToString` promises (an optional minus sign, then digits without
      a leading zero, and no "-0") that denotes `n` is the text of `n`. */
  lemma IntToStringCanonical(s: string, n: int)
    requires |s| >= 1 && ParseInt(s) == n
    requires forall i :: 0 < i < |s| ==> '0' <= s[i] <= '9'
    requires s[0] == '-' ==> |s| > 1 && s[1] != '0'
    requires s[0] != '-' ==> '0' <= s[0] <= '9' && (|s| > 1 ==> s[0] != '0')
    ensures s == IntToString(n)
  {
    if s[0] == '-' {
      var t := s[1..];
      ParseNatPositive(t);
      NatToStringCanonical(t, -n);
      assert s == "-" + t;
    } else {
      NatToStringCanonical(s, n);
    }
  }

  /** Different numbers have different texts. */
  lemma IntToStringInjective(m: int, n: int)
    requires IntToString(m) == IntToString(n)
    ensures m == n
  {
    IntToStringRoundTrip(m);
    IntToStringRoundTrip(n);
  }
}
