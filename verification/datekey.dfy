/** The `YYYY-MM-DD` key that names a day's note: `toKey` writes it,
    `parseKey` reads it back through `split("-")`, `Number` and the `Date`
    constructor. */
module DateKey {
  import opened Wrappers
  import opened Decimal
  import opened Calendar

  /** `s.split(sep)` for a one-character separator: the pieces between the
      separators, in order; a string without a separator is a single piece. */
  function Split(s: string, sep: char): (parts: seq<string>)
    ensures |parts| >= 1
  {
    if |s| == 0 then
      [""]
    else
      var rest := Split(s[1..], sep);
      if s[0] == sep then [""] + rest else [[s[0]] + rest[0]] + rest[1..]
  }

  /** Splitting loses nothing: joining the pieces with the separator gives
      the string back, and no piece contains the separator. */
  lemma {:induction false} SplitJoinsBack(s: string, sep: char)
    ensures Join(Split(s, sep), sep) == s
    ensures forall i :: 0 <= i < |Split(s, sep)| ==> sep !in Split(s, sep)[i]
    decreases |s|
  {
    if |s| > 0 {
      SplitJoinsBack(s[1..], sep);
      var rest := Split(s[1..], sep);
      var parts := Split(s, sep);
      if s[0] == sep {
        assert parts[1..] == rest;
        assert forall i :: 1 <= i < |parts| ==> parts[i] == rest[i - 1];
      } else {
        assert parts[1..] == rest[1..];
        assert |rest| > 1 ==> rest == [rest[0]] + rest[1..];
        assert forall i :: 1 <= i < |parts| ==> parts[i] == rest[i];
        assert [s[0]] + s[1..] == s;
      }
    }
  }

  /** `parts.join(sep)`. */
  function Join(parts: seq<string>, sep: char): string
    requires |parts| >= 1
  {
    if |parts| == 1 then parts[0] else parts[0] + [sep] + Join(parts[1..], sep)
  }

  /** `toKey(d)`: the year as `String` spells it, the month (1..12) and the
      day of month each padded to two digits, separated by dashes. */
  function ToKey(d: Date): string
    requires Valid(d)
  {
    IntToString(d.year) + "-" + Pad(d.month) + "-" + Pad(d.day)
  }

  /** Every key ends in `-mm-dd`; a year with four digits makes it the
      ten-character `YYYY-MM-DD` with dashes at positions 4 and 7. */
  lemma KeyShape(d: Date)
    requires Valid(d)
    ensures var key := ToKey(d);
      && |key| >= 7 && key[|key| - 6] == '-' && key[|key| - 3] == '-'
      && (1000 <= d.year <= 9999 ==> |key| == 10 && key[4] == '-' && key[7] == '-')
  {
    Layout(IntToString(d.year), Pad(d.month), Pad(d.day));
    if 1000 <= d.year <= 9999 {
      FourDigits(d.year);
    }
  }

  /** `parseKey(key)`: the first three dash-separated pieces read as numbers
      and handed to `new Date(y, m - 1, d)`. `None` when a piece is missing
      or is not a digit string (JavaScript gets `NaN` and an Invalid Date). */
  function ParseKey(key: string): (r: Option<Date>)
    ensures r.Some? ==> Valid(r.value)
    ensures r.Some? <==>
              var parts := Split(key, '-');
              |parts| >= 3 && AllDigits(parts[0]) && AllDigits(parts[1]) && AllDigits(parts[2])
  {
    var parts := Split(key, '-');
    if |parts| < 3 then
      None
    else
      match (ToNumber(parts[0]), ToNumber(parts[1]), ToNumber(parts[2]))
      case (Some(y), Some(m), Some(d)) => Some(NewDate(y, m as int - 1, d))
      case _ => None
  }

  /** Joining pieces that hold no separator and splitting the result gives
      the pieces back. */
  lemma {:induction false} SplitJoin(parts: seq<string>, sep: char)
    requires |parts| >= 1
    requires forall i :: 0 <= i < |parts| ==> sep !in parts[i]
    ensures Split(Join(parts, sep), sep) == parts
    decreases |parts|
  {
    if |parts| == 1 {
      SplitWhole(parts[0], sep);
    } else {
      SplitJoin(parts[1..], sep);
      SplitAfter(parts[0], Join(parts[1..], sep), sep);
      assert parts == [parts[0]] + parts[1..];
    }
  }

  lemma {:induction false} SplitWhole(a: string, sep: char)
    requires sep !in a
    ensures Split(a, sep) == [a]
    decreases |a|
  {
    if |a| > 0 {
      SplitWhole(a[1..], sep);
      assert [a[0]] + a[1..] == a;
    }
  }

  lemma {:induction false} SplitAfter(a: string, b: string, sep: char)
    requires sep !in a
    ensures Split(a + [sep] + b, sep) == [a] + Split(b, sep)
    decreases |a|
  {
    var s := a + [sep] + b;
    if |a| == 0 {
      assert s[1..] == b;
    } else {
      assert s[1..] == a[1..] + [sep] + b;
      SplitAfter(a[1..], b, sep);
      assert [a[0]] + a[1..] == a;
    }
  }

  /** Where the pieces of `y-mm-dd` sit. */
  lemma Layout(y: string, m: string, dd: string)
    requires |m| == 2 && |dd| == 2
    ensures var k := y + "-" + m + "-" + dd;
      && |k| == |y| + 6 && k[..|y|] == y
      && k[|k| - 6] == '-' && k[|k| - 3] == '-'
      && k[|k| - 5..|k| - 3] == m && k[|k| - 2..] == dd
  {
    var k := y + "-" + m + "-" + dd;
    assert k[|k| - 5..|k| - 3] == m;
    assert k[|k| - 2..] == dd;
    assert k[..|y|] == y;
  }

  lemma JoinThree(y: string, m: string, dd: string)
    ensures Join([y, m, dd], '-') == y + "-" + m + "-" + dd
  {
    assert [y, m, dd][1..] == [m, dd];
    assert [m, dd][1..] == [dd];
    assert Join([m, dd], '-') == m + "-" + dd;
    assert y + "-" + m + "-" + dd == y + ("-" + (m + "-" + dd));
  }

  lemma NoDash(s: string)
    requires AllDigits(s)
    ensures '-' !in s
  {
    assert forall i :: 0 <= i < |s| ==> IsDigit(s[i]);
  }

  /** A year with four digits is spelled with exactly four characters. */
  lemma FourDigits(y: int)
    requires 1000 <= y <= 9999
    ensures |IntToString(y)| == 4
  {
    var s := NatToString(y);
    NatToStringSpells(y);
    if |s| < 4 {
      Pow10Monotone(|s|, 3);
    } else if |s| > 4 {
      Pow10Monotone(4, |s| - 1);
    }
  }

  /** The pieces of a key are its year, month and day spellings. */
  lemma SplitKey(d: Date)
    requires Valid(d) && d.year >= 0
    ensures Split(ToKey(d), '-') == [NatToString(d.year), Pad(d.month), Pad(d.day)]
  {
    PiecesHaveNoDash(d);
    SplitThree(IntToString(d.year), Pad(d.month), Pad(d.day));
  }

  lemma PiecesHaveNoDash(d: Date)
    requires Valid(d) && d.year >= 0
    ensures '-' !in IntToString(d.year) && '-' !in Pad(d.month) && '-' !in Pad(d.day)
  {
    NatToStringSpells(d.year);
    PadSpells(d.month);
    PadSpells(d.day);
    NoDash(IntToString(d.year));
    NoDash(Pad(d.month));
    NoDash(Pad(d.day));
  }

  lemma SplitThree(y: string, m: string, dd: string)
    requires '-' !in y && '-' !in m && '-' !in dd
    ensures Split(y + "-" + m + "-" + dd, '-') == [y, m, dd]
  {
    var parts := [y, m, dd];
    JoinThree(y, m, dd);
    assert forall i :: 0 <= i < |parts| ==> '-' !in parts[i] by {
      assert parts[0] == y && parts[1] == m && parts[2] == dd;
    }
    SplitJoin(parts, '-');
  }

  /** `parseKey(toKey(d))` is `d` for every year from 100 on: an archive
      button that stores a day's key loads that day again. */
  lemma ParseToKey(d: Date)
    requires Valid(d) && d.year >= 100
    ensures ParseKey(ToKey(d)) == Some(d)
  {
    assert NewDate(d.year, d.month - 1, d.day) == d;
    KeyReadsBack(d);
  }

  /** For years 0..99 the round trip moves the day into the 1900s, because
      `new Date` reads a two-digit year as 19yy. */
  lemma ParseToKeyTwoDigitYear(d: Date)
    requires Valid(d) && 0 <= d.year <= 99
    requires Valid(Date(1900 + d.year, d.month, d.day))
    ensures ParseKey(ToKey(d)) == Some(Date(1900 + d.year, d.month, d.day))
  {
    TwoDigitYear(d.year, d.month, d.day);
    KeyReadsBack(d);
  }

  /** The one day of years 0..99 that the 1900s lack: the leap day of the
      year 0 (a leap year) reads back as the 1st of March 1900 (not one). */
  lemma TwoDigitLeapDay(d: Date)
    requires d == Date(0, 2, 29)
    ensures ParseKey(ToKey(d)) == Some(Date(1900, 3, 1))
  {
    assert Valid(d) by {
      assert IsLeapYear(0) by {
        assert 0 % 4 == 0 && 0 % 400 == 0;
      }
    }
    LeapDayOfYearZero(d.year, d.month - 1, d.day);
    KeyReadsBack(d);
  }

  lemma LeapDayOfYearZero(y: int, mi: int, dt: int)
    requires y == 0 && mi == 1 && dt == 29
    ensures NewDate(y, mi, dt) == Date(1900, 3, 1)
  {
    assert Normalize(1900, 1, 29) == Date(1900, 3, 1) by {
      NineteenHundredIsCommon();
      CommonFebruaryOverflow(1900);
    }
    assert NewDate(y, mi, dt) == Normalize(1900, 1, 29);
  }

  /** 1900 is divisible by 100 but not by 400, so it is not a leap year. */
  lemma NineteenHundredIsCommon()
    ensures !IsLeapYear(1900)
  {
    assert 1900 == 100 * 19 && 1900 == 400 * 4 + 300;
  }

  /** In a common year the 29th of February is the 1st of March. */
  lemma CommonFebruaryOverflow(y: int)
    requires !IsLeapYear(y)
    ensures Normalize(y, 1, 29) == Date(y, 3, 1)
  {
    var first, last, march := Date(y, 2, 1), Date(y, 2, 28), Date(y, 3, 1);
    assert Next(last) == march;
    assert DayNumber(last) == DayNumber(first) + 27;
    assert MonthStart(y, 1) == first;
    NormalizeCounts(y, 1, 29);
    DayNumberInjective(Normalize(y, 1, 29), march);
  }

  /** Every day of years 0..99 other than the leap day of the year 0 has a
      counterpart in the 1900s, so `ParseToKeyTwoDigitYear` covers them all. */
  lemma TwoDigitYearsCovered(d: Date)
    requires Valid(d) && 0 <= d.year <= 99
    ensures Valid(Date(1900 + d.year, d.month, d.day)) <==> d != Date(0, 2, 29)
  {
  }

  lemma TwoDigitYear(y: int, m: int, dd: int)
    requires 0 <= y <= 99 && Valid(Date(1900 + y, m, dd))
    ensures NewDate(y, m - 1, dd) == Date(1900 + y, m, dd)
  {
  }

  /** For a negative year the key starts with `-`, so `split` yields an empty
      first piece, which `Number` reads as 0. The year's digits are then read
      as the month (so the month index is one less) and the month as the
      day of the month, and the constructor reads the year 0 as 1900. */
  lemma KeyReadsBackNegative(d: Date)
    requires Valid(d) && d.year < 0
    ensures ParseKey(ToKey(d)) == Some(NewDate(0, -d.year - 1, d.month))
  {
    SplitNegativeKey(d);
    ParseNegativeFields(ToKey(d), d);
  }

  /** The pieces of a key for a negative year: an empty one, then the
      digits of the year, the padded month and the padded day. */
  lemma SplitNegativeKey(d: Date)
    requires Valid(d) && d.year < 0
    ensures Split(ToKey(d), '-') == ["", NatToString(-d.year), Pad(d.month), Pad(d.day)]
  {
    var n, m, dd := NatToString(-d.year), Pad(d.month), Pad(d.day);
    assert '-' !in n && '-' !in m && '-' !in dd by {
      NatToStringSpells(-d.year);
      PadSpells(d.month);
      PadSpells(d.day);
      NoDash(n);
      NoDash(m);
      NoDash(dd);
    }
    var tail := n + "-" + m + "-" + dd;
    assert ToKey(d) == "-" + tail;
    SplitThree(n, m, dd);
    SplitLeadingDash(tail);
  }

  lemma SplitLeadingDash(s: string)
    ensures Split("-" + s, '-') == [""] + Split(s, '-')
  {
    assert ("-" + s)[1..] == s;
  }

  /** A key whose pieces are empty, then spell the digits of `-d.year`, the
      padded month and the padded day, parses to `new Date(0, -d.year - 1,
      d.month)`: the empty piece is read as 0. */
  lemma ParseNegativeFields(key: string, d: Date)
    requires Valid(d) && d.year < 0
    requires Split(key, '-') == ["", NatToString(-d.year), Pad(d.month), Pad(d.day)]
    ensures ParseKey(key) == Some(NewDate(0, -d.year - 1, d.month))
  {
    var parts := Split(key, '-');
    assert AllDigits(parts[0]) && DigitsValue(parts[0]) == 0;
    assert AllDigits(parts[1]) && DigitsValue(parts[1]) == -d.year by { NatToStringSpells(-d.year); }
    assert AllDigits(parts[2]) && DigitsValue(parts[2]) == d.month by { PadSpells(d.month); }
    ParseDigitFields(key, 0, -d.year - 1, d.month);
  }

  /** A key whose first three pieces are digit strings parses to the `Date`
      their values name, the month read as a month index one less. */
  lemma ParseDigitFields(key: string, y: int, mi: int, dt: int)
    requires var parts := Split(key, '-');
      && |parts| >= 3 && AllDigits(parts[0]) && AllDigits(parts[1]) && AllDigits(parts[2])
      && DigitsValue(parts[0]) == y && DigitsValue(parts[1]) - 1 == mi && DigitsValue(parts[2]) == dt
    ensures ParseKey(key) == Some(NewDate(y, mi, dt))
  {
  }

  /** No day with a negative year survives the round trip: its key reads
      back as a day from 1900 on. */
  lemma ParseToKeyNegativeYear(d: Date)
    requires Valid(d) && d.year < 0
    ensures ParseKey(ToKey(d)).Some?
    ensures ParseKey(ToKey(d)) != Some(d)
  {
    var mi := -d.year - 1;
    var r := NewDate(0, mi, d.month);
    var first := Date(1900, 1, 1);
    NormalizeCounts(1900, mi, d.month);
    assert DayNumber(first) <= DayNumber(MonthStart(1900, mi)) by {
      BeforeTotal(MonthStart(1900, mi), first);
      BeforeIffEarlier(MonthStart(1900, mi), first);
    }
    assert DayNumber(d) < DayNumber(first) by {
      BeforeIffEarlier(d, first);
    }
    assert r != d;
    KeyReadsBackNegative(d);
  }

  /** The key `-5-03-04` of the 4th of March of the year -5 reads back as
      the 3rd of May 1900. */
  lemma NegativeYearExample()
    ensures ParseKey(ToKey(Date(-5, 3, 4))) == Some(Date(1900, 5, 3))
  {
    KeyReadsBackNegative(Date(-5, 3, 4));
  }

  /** The pieces of a key for a non-negative year are read as the year,
      month and day and handed to the `Date` constructor. */
  lemma KeyReadsBack(d: Date)
    requires Valid(d) && d.year >= 0
    ensures ParseKey(ToKey(d)) == Some(NewDate(d.year, d.month - 1, d.day))
  {
    SplitKey(d);
    ParseFields(ToKey(d), d.year, d.month, d.day);
  }

  /** A key whose pieces spell `y`, `m` and `dd` parses to `new Date(y, m - 1, dd)`. */
  lemma ParseFields(key: string, y: nat, m: nat, dd: nat)
    requires Split(key, '-') == [NatToString(y), Pad(m), Pad(dd)]
    ensures ParseKey(key) == Some(NewDate(y, m - 1, dd))
  {
    NumberOfString(y);
    PadSpells(m);
    PadSpells(dd);
  }

  /** Different days have different keys. */
  lemma ToKeyInjective(a: Date, b: Date)
    requires Valid(a) && Valid(b) && ToKey(a) == ToKey(b)
    ensures a == b
  {
    SameYear(a, b);
    SameMonth(a, b);
    SameDay(a, b);
  }

  lemma SameYear(a: Date, b: Date)
    requires Valid(a) && Valid(b) && ToKey(a) == ToKey(b)
    ensures a.year == b.year
  {
    SameYearSpelling(a, b);
    IntToStringInjective(a.year, b.year);
  }

  lemma SameYearSpelling(a: Date, b: Date)
    requires Valid(a) && Valid(b) && ToKey(a) == ToKey(b)
    ensures IntToString(a.year) == IntToString(b.year)
  {
    YearThenRest(a);
    YearThenRest(b);
    CancelSuffix(IntToString(a.year), "-" + Pad(a.month) + "-" + Pad(a.day),
                 IntToString(b.year), "-" + Pad(b.month) + "-" + Pad(b.day));
  }

  lemma YearThenRest(d: Date)
    requires Valid(d)
    ensures ToKey(d) == IntToString(d.year) + ("-" + Pad(d.month) + "-" + Pad(d.day))
  {
    Regroup(IntToString(d.year), Pad(d.month), Pad(d.day));
  }

  lemma Regroup(y: string, m: string, dd: string)
    ensures y + "-" + m + "-" + dd == y + ("-" + m + "-" + dd)
  {
  }

  lemma CancelSuffix(p: string, t: string, q: string, u: string)
    requires p + t == q + u && |t| == |u|
    ensures p == q
  {
    assert p == (p + t)[..|p|];
    assert q == (q + u)[..|q|];
  }

  lemma SameMonth(a: Date, b: Date)
    requires Valid(a) && Valid(b) && ToKey(a) == ToKey(b)
    ensures a.month == b.month
  {
    SamePads(a, b);
    PadInjective(a.month, b.month);
  }

  lemma SameDay(a: Date, b: Date)
    requires Valid(a) && Valid(b) && ToKey(a) == ToKey(b)
    ensures a.day == b.day
  {
    SamePads(a, b);
    PadInjective(a.day, b.day);
  }

  lemma SamePads(a: Date, b: Date)
    requires Valid(a) && Valid(b) && ToKey(a) == ToKey(b)
    ensures Pad(a.month) == Pad(b.month) && Pad(a.day) == Pad(b.day)
  {
    var ta := "-" + Pad(a.month) + "-" + Pad(a.day);
    var tb := "-" + Pad(b.month) + "-" + Pad(b.day);
    YearThenRest(a);
    YearThenRest(b);
    CancelPrefix(IntToString(a.year), ta, IntToString(b.year), tb);
    SplitTail(Pad(a.month), Pad(a.day), Pad(b.month), Pad(b.day));
  }

  lemma CancelPrefix(p: string, t: string, q: string, u: string)
    requires p + t == q + u && |t| == |u|
    ensures t == u
  {
    assert t == (p + t)[|p|..];
    assert u == (q + u)[|q|..];
  }

  lemma SplitTail(m: string, dd: string, m': string, dd': string)
    requires |m| == 2 && |dd| == 2 && |m'| == 2 && |dd'| == 2
    requires "-" + m + "-" + dd == "-" + m' + "-" + dd'
    ensures m == m' && dd == dd'
  {
    var t, t' := "-" + m + "-" + dd, "-" + m' + "-" + dd';
    assert m == t[1..3] && m' == t'[1..3];
    assert dd == t[4..] && dd' == t'[4..];
  }
}
