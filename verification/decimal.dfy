/** Decimal spelling of numbers as the viewer's helpers produce and read it:
    `String(n)` for integers, `Number(s)` for digit strings and
    `String.prototype.padStart` as used by `pad`. */
module Decimal {
  import opened Wrappers

  predicate IsDigit(c: char) {
    '0' <= c <= '9'
  }

  predicate AllDigits(s: string) {
    forall i :: 0 <= i < |s| ==> IsDigit(s[i])
  }

  function DigitValue(c: char): nat
    requires IsDigit(c)
  {
    (c as int) - ('0' as int)
  }

  function DigitChar(d: nat): (c: char)
    requires d < 10
    ensures IsDigit(c) && DigitValue(c) == d
  {
    ('0' as int + d) as char
  }

  function Pow10(k: nat): (p: nat)
    ensures p >= 1
  {
    if k == 0 then 1 else 10 * Pow10(k - 1)
  }

  /** The number a string of decimal digits denotes, most significant digit
      first; the empty string denotes 0. */
  function DigitsValue(s: string): nat
    requires AllDigits(s)
  {
    if |s| == 0 then 0 else DigitsValue(s[..|s| - 1]) * 10 + DigitValue(s[|s| - 1])
  }

  /** `String(n)` for a non-negative integer: the shortest decimal spelling of `n`. */
  function NatToString(n: nat): (s: string)
    ensures 1 <= |s|
    decreases n
  {
    if n < 10 then [DigitChar(n)] else NatToString(n / 10) + [DigitChar(n % 10)]
  }

  /** `String(n)` for any integer: a leading minus sign for negative values. */
  function IntToString(n: int): (s: string)
    ensures 1 <= |s|
    ensures n < 0 <==> s[0] == '-'
  {
    if n < 0 then
      "-" + NatToString(-n)
    else
      NatToStringSpells(n);
      NatToString(n)
  }

  /** `Number(s)` restricted to the spellings the viewer produces: a string of
      decimal digits denotes its value (the empty string denotes 0, as in
      JavaScript); every other string is `None`, standing for `NaN` or a
      spelling outside the model. */
  function ToNumber(s: string): (r: Option<nat>)
    ensures r.Some? <==> AllDigits(s)
  {
    if AllDigits(s) then Some(DigitsValue(s)) else None
  }

  /** `s.padStart(width, fill)` for a one-character filler: `s` itself when it
      is already `width` long, otherwise `s` behind enough copies of `fill`. */
  function PadStart(s: string, width: nat, fill: char): (r: string)
    ensures |r| == if |s| >= width then |s| else width
    ensures r[|r| - |s|..] == s
    ensures forall i :: 0 <= i < |r| - |s| ==> r[i] == fill
    decreases width - |s|
  {
    if |s| >= width then s else PadStart([fill] + s, width, fill)
  }

  /** `pad(n)`: the decimal spelling of `n`, with a leading zero when it
      has a single digit. */
  function Pad(n: nat): (r: string)
    ensures 2 <= |r|
    ensures n < 100 <==> |r| == 2
  {
    NatToStringSpells(n);
    if n < 10 then
      ['0', DigitChar(n)]
    else
      assert n < 100 <==> |NatToString(n)| <= 2 by {
        if |NatToString(n)| >= 3 {
          Pow10Monotone(2, |NatToString(n)| - 1);
        } else {
          Pow10Monotone(|NatToString(n)|, 2);
        }
      }
      NatToString(n)
  }

  /** `pad` is `String(n).padStart(2, "0")`. */
  lemma PadIsPadStart(n: nat)
    ensures Pad(n) == PadStart(NatToString(n), 2, '0')
  {
    NatToStringSpells(n);
    if n < 10 {
      var s := NatToString(n);
      assert s == [DigitChar(n)];
      assert PadStart(s, 2, '0') == PadStart(['0'] + s, 2, '0');
      assert ['0'] + s == ['0', DigitChar(n)];
    }
  }

  /** `String(n)` is a digit string without superfluous leading zeros whose
      value is `n`, and it has as many digits as `n` needs. */
  lemma {:induction false} NatToStringSpells(n: nat)
    ensures var s := NatToString(n);
      && AllDigits(s) && DigitsValue(s) == n
      && n < Pow10(|s|)
      && (|s| > 1 ==> s[0] != '0' && Pow10(|s| - 1) <= n)
    decreases n
  {
    if n >= 10 {
      NatToStringSpells(n / 10);
      var s := NatToString(n);
      assert s[..|s| - 1] == NatToString(n / 10);
    }
  }

  /** `pad(n)` is a digit string of value `n`. */
  lemma PadSpells(n: nat)
    ensures AllDigits(Pad(n)) && ToNumber(Pad(n)) == Some(n)
  {
    NatToStringSpells(n);
    if n < 10 {
      var s := NatToString(n);
      assert s == [DigitChar(n)];
      LeadingZero(s);
      assert ['0'] + s == ['0', DigitChar(n)];
    }
  }

  lemma Pow10Monotone(j: nat, k: nat)
    requires j <= k
    ensures Pow10(j) <= Pow10(k)
    decreases k - j
  {
    if j < k {
      Pow10Monotone(j, k - 1);
    }
  }

  /** A leading zero does not change the value of a digit string. */
  lemma {:induction false} LeadingZero(s: string)
    requires AllDigits(s)
    ensures AllDigits(['0'] + s) && DigitsValue(['0'] + s) == DigitsValue(s)
    decreases |s|
  {
    var z := ['0'] + s;
    if |s| > 0 {
      LeadingZero(s[..|s| - 1]);
      assert z[..|z| - 1] == ['0'] + s[..|s| - 1];
    }
  }

  /** `Number(String(n)) == n`: reading back the spelling `String` produces
      gives the same number. */
  lemma NumberOfString(n: nat)
    ensures ToNumber(NatToString(n)) == Some(n)
  {
    NatToStringSpells(n);
  }

  /** Distinct integers have distinct spellings. */
  lemma IntToStringInjective(a: int, b: int)
    requires IntToString(a) == IntToString(b)
    ensures a == b
  {
    if a < 0 && b < 0 {
      DropSign(NatToString(-a), NatToString(-b));
      NatToStringInjective(-a, -b);
    } else if a >= 0 && b >= 0 {
      NatToStringInjective(a, b);
    }
  }

  lemma NatToStringInjective(a: nat, b: nat)
    requires NatToString(a) == NatToString(b)
    ensures a == b
  {
    NatToStringSpells(a);
    NatToStringSpells(b);
  }

  lemma DropSign(s: string, t: string)
    requires "-" + s == "-" + t
    ensures s == t
  {
    assert s == ("-" + s)[1..];
    assert t == ("-" + t)[1..];
  }

  /** Distinct numbers are padded to distinct strings. */
  lemma PadInjective(a: nat, b: nat)
    requires Pad(a) == Pad(b)
    ensures a == b
  {
    PadSpells(a);
    PadSpells(b);
  }
}
