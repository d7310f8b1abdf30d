/** The pure part of the viewer: the configured settings, `loadNote`'s
    clamping, key, "Today" flag, next-button flag and image path, and the
    list of keys `buildArchive` puts in the archive. The current moment is a
    parameter `today` (a whole day); the page's elements are not modelled. */
module Viewer {
  import opened Wrappers
  import opened Decimal
  import opened Calendar
  import opened DateKey
  import opened KeyOrder

  /** The settings at the top of the script. */
  const START_DATE: string := "2026-02-20"
  const EXT: string := "jpg"
  const NOTES_FOLDER: string := "notes"

  /** The earliest day, the image file extension and the folder of notes. */
  datatype Config = Config(start: Date, ext: string, notesFolder: string)

  /** The settings as the script holds them: `start` is `parseKey(START_DATE)`. */
  function AppConfig(): (c: Config)
    ensures c.start == Date(2026, 2, 20) && Valid(c.start)
    ensures c.ext == EXT && c.notesFolder == NOTES_FOLDER
  {
    StartDateParses();
    Config(ParseKey(START_DATE).value, EXT, NOTES_FOLDER)
  }

  /** What `loadNote` leaves on the page: the day it stored in `current`, its
      key, the status text, the image source and whether "next" is disabled. */
  datatype View = View(current: Date, key: string, status: string, src: string, nextDisabled: bool)

  /** `if (dateObj < start) dateObj = new Date(start)`: the later of the
      requested day and the start day. */
  function Clamp(start: Date, d: Date): (r: Date)
    requires Valid(start) && Valid(d)
    ensures Valid(r)
    ensures !Before(r, start) && !Before(r, d)
    ensures r == d || r == start
  {
    if Before(d, start) then start else d
  }

  /** `loadNote(dateObj)` with `todayKey = toKey(today)`. */
  function LoadNote(cfg: Config, today: Date, requested: Date): (v: View)
    requires Valid(cfg.start) && Valid(today) && Valid(requested)
    ensures Valid(v.current) && !Before(v.current, cfg.start)
    ensures !Before(requested, cfg.start) ==> v.current == requested
    ensures Before(requested, cfg.start) ==> v.current == cfg.start
    ensures v.key == ToKey(v.current)
    ensures v.status == (if v.current == today then "Today" else "")
    ensures v.nextDisabled <==> v.current == today
    ensures v.src == cfg.notesFolder + "/" + v.key + "." + cfg.ext
  {
    var current := Clamp(cfg.start, requested);
    var key := ToKey(current);
    var todayKey := ToKey(today);
    if key == todayKey then
      ToKeyInjective(current, today);
      View(current, key, "Today", cfg.notesFolder + "/" + key + "." + cfg.ext, true)
    else
      View(current, key, "", cfg.notesFolder + "/" + key + "." + cfg.ext, false)
  }

  /** The days `buildArchive` walks through from `d`: `d` itself and the
      days after it, one calendar day apart, for as long as they are not
      later than today. */
  function ArchiveDays(d: Date, today: Date): (days: seq<Date>)
    requires Valid(d) && Valid(today)
    ensures forall i :: 0 <= i < |days| ==> Valid(days[i])
    decreases DayNumber(today) - DayNumber(d)
  {
    if Before(today, d) then
      []
    else
      BeforeIffEarlier(today, d);
      [d] + ArchiveDays(Next(d), today)
  }

  /** `f` applied to every element of `s`, in order. */
  function Map<A, B>(f: A --> B, s: seq<A>): (r: seq<B>)
    requires forall i :: 0 <= i < |s| ==> f.requires(s[i])
    ensures |r| == |s| && forall i :: 0 <= i < |s| ==> r[i] == f(s[i])
  {
    seq(|s|, i requires 0 <= i < |s| => f(s[i]))
  }

  lemma MoveHead<T>(a: seq<T>, x: T, r: seq<T>)
    ensures a + ([x] + r) == (a + [x]) + r
  {
  }

  lemma MapCons<A, B>(f: A --> B, x: A, s: seq<A>)
    requires f.requires(x) && forall i :: 0 <= i < |s| ==> f.requires(s[i])
    ensures Map(f, [x] + s) == [f(x)] + Map(f, s)
  {
  }

  /** `buildArchive()`: the key of each archive button, in the order the
      buttons are appended. */
  method BuildArchive(start: Date, today: Date) returns (keys: seq<string>)
    requires Valid(start) && Valid(today)
    ensures keys == Map(ToKey, ArchiveDays(start, today))
  {
    keys := [];
    var d := start;
    while !Before(today, d)
      invariant Valid(d)
      invariant keys + Map(ToKey, ArchiveDays(d, today)) == Map(ToKey, ArchiveDays(start, today))
      decreases DayNumber(today) - DayNumber(d)
    {
      BeforeIffEarlier(today, d);
      ghost var rest := ArchiveDays(Next(d), today);
      MapCons(ToKey, d, rest);
      MoveHead(keys, ToKey(d), Map(ToKey, rest));
      keys := keys + [ToKey(d)];
      AddDaysOne(d);
      d := AddDays(d, 1);
    }
  }

  /** Choosing an archive button: `loadNote(parseKey(key))`. `None` when the
      key does not parse. */
  function SelectKey(cfg: Config, today: Date, key: string): (v: Option<View>)
    requires Valid(cfg.start) && Valid(today)
    ensures v.Some? <==> ParseKey(key).Some?
  {
    match ParseKey(key)
    case Some(d) => Some(LoadNote(cfg, today, d))
    case None => None
  }

  // ---- properties ----

  /** `START_DATE` is the key of 2026-02-20 and parses back to that day. */
  lemma StartDateParses()
    ensures START_DATE == ToKey(Date(2026, 2, 20))
    ensures ParseKey(START_DATE) == Some(Date(2026, 2, 20))
  {
    var d := Date(2026, 2, 20);
    assert Valid(d);
    StartDateSpelled();
    ParseToKey(d);
  }

  lemma StartDateSpelled()
    ensures ToKey(Date(2026, 2, 20)) == START_DATE
  {
    assert Valid(Date(2026, 2, 20));
    YearSpelled();
    PadsSpelled();
  }

  lemma YearSpelled()
    ensures IntToString(2026) == "2026"
  {
    assert NatToString(2) == "2";
    assert NatToString(20) == "20";
    assert NatToString(202) == "202";
  }

  lemma PadsSpelled()
    ensures Pad(2) == "02" && Pad(20) == "20"
  {
    PadSpells(2);
    PadSpells(20);
    assert NatToString(2) == "2";
  }

  /** Loading the day a view shows gives the same view again. */
  lemma LoadNoteIdempotent(cfg: Config, today: Date, requested: Date)
    requires Valid(cfg.start) && Valid(today) && Valid(requested)
    ensures LoadNote(cfg, today, LoadNote(cfg, today, requested).current)
              == LoadNote(cfg, today, requested)
  {
  }

  /** Different days are shown from different image files. */
  lemma NotePathsDistinct(cfg: Config, today: Date, a: Date, b: Date)
    requires Valid(cfg.start) && Valid(today) && Valid(a) && Valid(b)
    requires LoadNote(cfg, today, a).current != LoadNote(cfg, today, b).current
    ensures LoadNote(cfg, today, a).src != LoadNote(cfg, today, b).src
  {
    var va, vb := LoadNote(cfg, today, a), LoadNote(cfg, today, b);
    if va.src == vb.src {
      MiddleOf(cfg.notesFolder + "/", va.key, cfg.ext, vb.key);
      ToKeyInjective(va.current, vb.current);
    }
  }

  /** The key can be read back out of an image path. */
  lemma MiddleOf(p: string, k: string, e: string, k': string)
    requires p + k + "." + e == p + k' + "." + e
    ensures k == k'
  {
    var s, s' := p + k + "." + e, p + k' + "." + e;
    assert |k| == |k'|;
    assert k == s[|p|..|p| + |k|];
    assert k' == s'[|p|..|p| + |k'|];
  }

  /** From a day between the start day and today, "previous" keeps the shown
      day between the start day and today. */
  lemma PreviousStaysInRange(cfg: Config, today: Date, current: Date)
    requires Valid(cfg.start) && Valid(today) && Valid(current)
    requires !Before(current, cfg.start) && !Before(today, current)
    ensures var w := LoadNote(cfg, today, AddDays(current, -1));
      !Before(w.current, cfg.start) && !Before(today, w.current)
  {
    var e := AddDays(current, -1);
    BeforeIffEarlier(today, e);
    BeforeIffEarlier(today, current);
    BeforeTransitive(today, cfg.start, current);
  }

  /** From a day between the start day and today, "next", when it is not
      disabled, keeps the shown day between the start day and today: the
      viewer never shows a day after today. */
  lemma NextStaysInRange(cfg: Config, today: Date, current: Date)
    requires Valid(cfg.start) && Valid(today) && Valid(current)
    requires !Before(current, cfg.start) && !Before(today, current)
    requires !LoadNote(cfg, today, current).nextDisabled
    ensures var w := LoadNote(cfg, today, AddDays(current, 1));
      w.current == AddDays(current, 1) && !Before(today, w.current)
  {
    var e := AddDays(current, 1);
    BeforeTotal(current, today);
    BeforeIffEarlier(current, today);
    BeforeIffEarlier(today, e);
    AddDaysLater(current, 1);
    BeforeTransitive(e, current, cfg.start);
  }

  // ---- navigation ----

  /** The inputs that move the viewer: the "previous" and "next" buttons,
      the left and right arrow keys and the "today" link. */
  datatype Input = PrevButton | NextButton | ArrowLeft | ArrowRight | JumpToday

  /** The handlers as the script registers them. A click on a disabled
      button is not delivered, so "next" does nothing once it is disabled;
      the right arrow key loads the following day whatever the button's
      state. */
  function Navigate(cfg: Config, today: Date, v: View, input: Input): (w: View)
    requires Valid(cfg.start) && Valid(today) && Valid(v.current)
    ensures Valid(w.current)
    ensures w == v || w == LoadNote(cfg, today, w.current)
    ensures w == v || !Before(w.current, cfg.start)
    ensures input == PrevButton || input == ArrowLeft ==>
              w.current == Clamp(cfg.start, AddDays(v.current, -1))
    ensures input == NextButton && v.nextDisabled ==> w == v
    ensures input == NextButton && !v.nextDisabled ==>
              w.current == Clamp(cfg.start, AddDays(v.current, 1))
    ensures input == ArrowRight ==> w.current == Clamp(cfg.start, AddDays(v.current, 1))
    ensures input == JumpToday ==> w.current == Clamp(cfg.start, today)
  {
    match input
    case PrevButton => LoadNote(cfg, today, AddDays(v.current, -1))
    case ArrowLeft => LoadNote(cfg, today, AddDays(v.current, -1))
    case NextButton => if v.nextDisabled then v else LoadNote(cfg, today, AddDays(v.current, 1))
    case ArrowRight => LoadNote(cfg, today, AddDays(v.current, 1))
    case JumpToday => LoadNote(cfg, today, today)
  }

  /** The handlers with the right arrow key obeying the same guard as the
      "next" button. */
  function NavigateGuarded(cfg: Config, today: Date, v: View, input: Input): (w: View)
    requires Valid(cfg.start) && Valid(today) && Valid(v.current)
    ensures Valid(w.current)
    ensures w == v || w == LoadNote(cfg, today, w.current)
    ensures input != ArrowRight ==> w == Navigate(cfg, today, v, input)
    ensures input == ArrowRight && v.nextDisabled ==> w == v
    ensures input == ArrowRight && !v.nextDisabled ==>
              w.current == Clamp(cfg.start, AddDays(v.current, 1))
  {
    match input
    case ArrowRight => Navigate(cfg, today, v, NextButton)
    case _ => Navigate(cfg, today, v, input)
  }

  /** A view as `loadNote` leaves it for a day between the start day and
      today: its "next" flag is set exactly on today. */
  predicate InRange(cfg: Config, today: Date, v: View) {
    Valid(v.current) && !Before(v.current, cfg.start) && !Before(today, v.current)
    && (v.nextDisabled <==> v.current == today)
  }

  /** Pressing the right arrow key on today's note shows tomorrow's: the
      handlers as written do show a day after today. */
  lemma ArrowRightPassesToday(cfg: Config, today: Date)
    requires Valid(cfg.start) && Valid(today) && !Before(today, cfg.start)
    ensures var v := LoadNote(cfg, today, today);
      var w := Navigate(cfg, today, v, ArrowRight);
      v.nextDisabled && w.current == AddDays(today, 1) && Before(today, w.current)
  {
    var e := AddDays(today, 1);
    AddDaysLater(today, 1);
    BeforeTransitive(e, today, cfg.start);
  }

  /** With the guard on the arrow key every input keeps the viewer between
      the start day and today, with "next" disabled exactly on today. */
  lemma NavigationStaysInRange(cfg: Config, today: Date, v: View, input: Input)
    requires Valid(cfg.start) && Valid(today) && !Before(today, cfg.start)
    requires InRange(cfg, today, v)
    ensures InRange(cfg, today, NavigateGuarded(cfg, today, v, input))
  {
    var back, forth := AddDays(v.current, -1), AddDays(v.current, 1);
    match input
    case PrevButton =>
      StepBackNotAfter(today, v.current);
      LoadNoteInRange(cfg, today, back);
    case ArrowLeft =>
      StepBackNotAfter(today, v.current);
      LoadNoteInRange(cfg, today, back);
    case JumpToday =>
      LoadNoteInRange(cfg, today, today);
    case _ =>
      if !v.nextDisabled {
        StepForthNotAfter(today, v.current);
        LoadNoteInRange(cfg, today, forth);
      }
  }

  /** `loadNote` of a day no later than today shows a day between the start
      day and today. */
  lemma LoadNoteInRange(cfg: Config, today: Date, r: Date)
    requires Valid(cfg.start) && Valid(today) && Valid(r)
    requires !Before(today, cfg.start) && !Before(today, r)
    ensures InRange(cfg, today, LoadNote(cfg, today, r))
  {
  }

  lemma StepBackNotAfter(today: Date, d: Date)
    requires Valid(today) && Valid(d) && !Before(today, d)
    ensures !Before(today, AddDays(d, -1))
  {
    BeforeIffEarlier(today, d);
    BeforeIffEarlier(today, AddDays(d, -1));
  }

  lemma StepForthNotAfter(today: Date, d: Date)
    requires Valid(today) && Valid(d) && !Before(today, d) && d != today
    ensures !Before(today, AddDays(d, 1))
  {
    BeforeTotal(d, today);
    BeforeIffEarlier(d, today);
    BeforeIffEarlier(today, AddDays(d, 1));
  }

  // ---- the archive ----

  /** The archive from `d` has one entry per day from `d` to today, and none
      when `d` is later than today. */
  lemma {:induction false} ArchiveLength(d: Date, today: Date)
    requires Valid(d) && Valid(today)
    ensures |ArchiveDays(d, today)| == if Before(today, d) then 0 else DayNumber(today) - DayNumber(d) + 1
    decreases DayNumber(today) - DayNumber(d)
  {
    BeforeIffEarlier(today, d);
    if !Before(today, d) {
      var e := Next(d);
      ArchiveLength(e, today);
      BeforeIffEarlier(today, e);
    }
  }

  /** Entry `k` of the archive from `d` is the day `k` days after `d`. */
  lemma {:induction false} ArchiveDayAt(d: Date, today: Date, k: nat)
    requires Valid(d) && Valid(today) && k < |ArchiveDays(d, today)|
    ensures ArchiveDays(d, today)[k] == AddDays(d, k)
    decreases DayNumber(today) - DayNumber(d)
  {
    var e := Next(d);
    ArchiveCons(d, today);
    if k == 0 {
      AddDaysZero(d);
    } else {
      ConsIndex(d, ArchiveDays(e, today), k);
      AddDaysFromNext(d, k);
      BeforeIffEarlier(today, d);
      ArchiveDayAt(e, today, k - 1);
    }
  }

  /** A non-empty archive is its first day followed by the archive from the
      next day. */
  lemma ArchiveCons(d: Date, today: Date)
    requires Valid(d) && Valid(today) && |ArchiveDays(d, today)| > 0
    ensures !Before(today, d)
    ensures ArchiveDays(d, today) == [d] + ArchiveDays(Next(d), today)
  {
  }

  lemma ConsIndex<T>(x: T, s: seq<T>, k: nat)
    requires 0 < k <= |s|
    ensures ([x] + s)[k] == s[k - 1]
  {
  }

  /** The archive starts at the start day and ends today; it is empty
      exactly when the start day is later than today. */
  lemma ArchiveEnds(start: Date, today: Date)
    requires Valid(start) && Valid(today)
    ensures var days := ArchiveDays(start, today);
      && (|days| == 0 <==> Before(today, start))
      && (|days| > 0 ==> days[0] == start && days[|days| - 1] == today)
  {
    ArchiveLength(start, today);
    BeforeIffEarlier(today, start);
    if !Before(today, start) {
      ArchiveLast(start, today);
    }
  }

  lemma ArchiveLast(start: Date, today: Date)
    requires Valid(start) && Valid(today) && !Before(today, start)
    ensures |ArchiveDays(start, today)| > 0
    ensures ArchiveDays(start, today)[|ArchiveDays(start, today)| - 1] == today
  {
    var n := DayNumber(today) - DayNumber(start);
    ArchiveLength(start, today);
    ArchiveDayAt(start, today, n);
    AddDaysReaches(start, today);
  }

  /** Consecutive entries are one `addDays(_, 1)` apart. */
  lemma ArchiveConsecutive(start: Date, today: Date, i: nat)
    requires Valid(start) && Valid(today) && i + 1 < |ArchiveDays(start, today)|
    ensures ArchiveDays(start, today)[i + 1] == AddDays(ArchiveDays(start, today)[i], 1)
  {
    ArchiveDayAt(start, today, i);
    ArchiveDayAt(start, today, i + 1);
    AddDaysAdd(start, i, 1);
  }

  /** Entries are in strictly increasing chronological order, so no day is
      listed twice. */
  lemma ArchiveAscending(start: Date, today: Date, i: nat, j: nat)
    requires Valid(start) && Valid(today) && i < j < |ArchiveDays(start, today)|
    ensures Before(ArchiveDays(start, today)[i], ArchiveDays(start, today)[j])
  {
    ArchiveDayAt(start, today, i);
    ArchiveDayAt(start, today, j);
    BeforeIffEarlier(ArchiveDays(start, today)[i], ArchiveDays(start, today)[j]);
  }

  /** A day is listed exactly when it lies between the start day and today. */
  lemma ArchiveComplete(start: Date, today: Date, e: Date)
    requires Valid(start) && Valid(today) && Valid(e)
    ensures e in ArchiveDays(start, today) <==> !Before(e, start) && !Before(today, e)
  {
    var days := ArchiveDays(start, today);
    ArchiveLength(start, today);
    BeforeIffEarlier(e, start);
    BeforeIffEarlier(today, e);
    BeforeIffEarlier(today, start);
    if !Before(e, start) && !Before(today, e) {
      var k := DayNumber(e) - DayNumber(start);
      ArchiveDayAt(start, today, k);
      AddDaysReaches(start, e);
    }
    if e in days {
      var k :| 0 <= k < |days| && days[k] == e;
      ArchiveDayAt(start, today, k);
    }
  }

  /** No two archive buttons carry the same key. */
  lemma ArchiveKeysDistinct(start: Date, today: Date, i: nat, j: nat)
    requires Valid(start) && Valid(today) && i < j < |ArchiveDays(start, today)|
    ensures Map(ToKey, ArchiveDays(start, today))[i] != Map(ToKey, ArchiveDays(start, today))[j]
  {
    var days := ArchiveDays(start, today);
    ArchiveAscending(start, today, i, j);
    if ToKey(days[i]) == ToKey(days[j]) {
      ToKeyInjective(days[i], days[j]);
    }
  }

  /** For start days and todays in the years 1000..9999 the archive's keys
      are in strictly increasing text order, so sorting the buttons by their
      labels keeps them in day order. */
  lemma ArchiveKeysAscending(start: Date, today: Date, i: nat, j: nat)
    requires Valid(start) && Valid(today)
    requires 1000 <= start.year && today.year <= 9999
    requires i < j < |ArchiveDays(start, today)|
    ensures LexLess(Map(ToKey, ArchiveDays(start, today))[i], Map(ToKey, ArchiveDays(start, today))[j])
  {
    var days := ArchiveDays(start, today);
    ArchiveAscending(start, today, i, j);
    ArchiveComplete(start, today, days[i]);
    ArchiveComplete(start, today, days[j]);
    KeyOrderIsDayOrder(days[i], days[j]);
  }

  /** Choosing the button for entry `i` loads exactly that day and shows its
      key: the key the button stored parses back to the listed day. */
  lemma ArchiveSelectionLoadsEntry(cfg: Config, today: Date, i: nat)
    requires Valid(cfg.start) && Valid(today) && cfg.start.year >= 100
    requires i < |ArchiveDays(cfg.start, today)|
    ensures var day := ArchiveDays(cfg.start, today)[i];
      var key := Map(ToKey, ArchiveDays(cfg.start, today))[i];
      && SelectKey(cfg, today, key) == Some(LoadNote(cfg, today, day))
      && LoadNote(cfg, today, day).current == day
      && LoadNote(cfg, today, day).key == key
  {
    var days := ArchiveDays(cfg.start, today);
    var day := days[i];
    ArchiveComplete(cfg.start, today, day);
    ParseToKey(day);
  }
}
