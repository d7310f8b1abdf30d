/** Keys compare as strings in the order of the days they name, which is
    what makes zero-padded `YYYY-MM-DD` keys sortable as text. */
module KeyOrder {
  import opened Decimal
  import opened Calendar
  import opened DateKey

  /** `a < b` on strings: the first differing character decides, and a
      proper prefix comes first. */
  predicate LexLess(a: string, b: string) {
    if |a| == 0 then |b| > 0
    else if |b| == 0 then false
    else a[0] < b[0] || (a[0] == b[0] && LexLess(a[1..], b[1..]))
  }

  /** Behind equally long heads, the heads decide and the tails break ties. */
  lemma {:induction false} LexAppend(x: string, y: string, r: string, s: string)
    requires |x| == |y|
    ensures LexLess(x + r, y + s) <==> LexLess(x, y) || (x == y && LexLess(r, s))
    decreases |x|
  {
    if |x| == 0 {
      assert x + r == r && y + s == s;
    } else {
      LexAppend(x[1..], y[1..], r, s);
      assert (x + r)[1..] == x[1..] + r;
      assert (y + s)[1..] == y[1..] + s;
      assert x == y <==> x[0] == y[0] && x[1..] == y[1..];
    }
  }

  /** Equally long digit strings compare as text exactly as their values
      compare as numbers. */
  lemma {:induction false} LexDigits(x: string, y: string)
    requires |x| == |y| && AllDigits(x) && AllDigits(y)
    ensures LexLess(x, y) <==> DigitsValue(x) < DigitsValue(y)
    ensures x == y <==> DigitsValue(x) == DigitsValue(y)
    decreases |x|
  {
    if |x| > 0 {
      var n := |x| - 1;
      var x', y' := x[..n], y[..n];
      LexDigits(x', y');
      LexAppend(x', y', [x[n]], [y[n]]);
      assert x == x' + [x[n]] && y == y' + [y[n]];
      assert x == y <==> x' == y' && x[n] == y[n];
    }
  }

  /** Two keys compare field by field: year, then month, then day. */
  lemma KeyFields(y: string, m: string, d: string, y': string, m': string, d': string)
    requires |y| == |y'| && |m| == |m'|
    ensures LexLess(y + "-" + m + "-" + d, y' + "-" + m' + "-" + d') <==>
              LexLess(y, y') || (y == y' && (LexLess(m, m') || (m == m' && LexLess(d, d'))))
  {
    assert y + "-" + m + "-" + d == y + ("-" + (m + ("-" + d)));
    assert y' + "-" + m' + "-" + d' == y' + ("-" + (m' + ("-" + d')));
    assert !LexLess("-", "-");
    LexAppend("-", "-", d, d');
    LexAppend(m, m', "-" + d, "-" + d');
    LexAppend("-", "-", m + ("-" + d), m' + ("-" + d'));
    LexAppend(y, y', "-" + (m + ("-" + d)), "-" + (m' + ("-" + d')));
  }

  /** For days in the years 1000..9999, one key is smaller than another as
      text exactly when its day is earlier. */
  lemma KeyOrderIsDayOrder(a: Date, b: Date)
    requires Valid(a) && Valid(b)
    requires 1000 <= a.year <= 9999 && 1000 <= b.year <= 9999
    ensures LexLess(ToKey(a), ToKey(b)) <==> Before(a, b)
  {
    YearOrder(a.year, b.year);
    PadOrder(a.month, b.month);
    PadOrder(a.day, b.day);
    KeyFields(IntToString(a.year), Pad(a.month), Pad(a.day),
              IntToString(b.year), Pad(b.month), Pad(b.day));
  }

  /** Four-digit years compare as text as they compare as numbers. */
  lemma YearOrder(p: int, q: int)
    requires 1000 <= p <= 9999 && 1000 <= q <= 9999
    ensures |IntToString(p)| == |IntToString(q)|
    ensures LexLess(IntToString(p), IntToString(q)) <==> p < q
    ensures IntToString(p) == IntToString(q) <==> p == q
  {
    FourDigits(p);
    FourDigits(q);
    NatToStringSpells(p);
    NatToStringSpells(q);
    LexDigits(IntToString(p), IntToString(q));
  }

  /** Padded months and days compare as text as they compare as numbers. */
  lemma PadOrder(p: nat, q: nat)
    requires p < 100 && q < 100
    ensures |Pad(p)| == |Pad(q)|
    ensures LexLess(Pad(p), Pad(q)) <==> p < q
    ensures Pad(p) == Pad(q) <==> p == q
  {
    var x, y := Pad(p), Pad(q);
    PadSpells(p);
    PadSpells(q);
    assert |x| == 2 && |y| == 2;
    assert DigitsValue(x) == p && DigitsValue(y) == q;
    LexDigits(x, y);
  }
}
