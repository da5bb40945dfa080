/**
 * The relative-time label of the client UI's file list
 * (frontend/src/components/FileSharing.jsx:165-175), on integer
 * millisecond timestamps. The locale date shown for anything a week old
 * or more is passed in as text.
 */
module RelativeTime {
  import opened Numerals

  const MsPerMinute: nat := 60000
  const MinutesPerHour: nat := 60
  const MinutesPerDay: nat := 1440
  const MinutesPerWeek: nat := 10080

  /** The five kinds of label, with the count each relative one shows. */
  datatype Label =
    | JustNow
    | MinutesAgo(minutes: nat)
    | HoursAgo(hours: nat)
    | DaysAgo(days: nat)
    | LocaleDate

  /** `Math.floor((now - date) / 60000)`: whole minutes elapsed, rounded down. */
  function MinutesBetween(dateMs: int, nowMs: int): (diff: int)
    ensures diff * MsPerMinute <= nowMs - dateMs < (diff + 1) * MsPerMinute
  {
    (nowMs - dateMs) / MsPerMinute
  }

  /**
   * The if-chain of FileSharing.jsx:170-174 on the minute difference: a
   * relative label shows 1 to 59 minutes, 1 to 23 hours or 1 to 6 days.
   */
  function Classify(diff: int): (l: Label)
    ensures l.MinutesAgo? ==> 1 <= l.minutes < MinutesPerHour
    ensures l.HoursAgo? ==> 1 <= l.hours < 24
    ensures l.DaysAgo? ==> 1 <= l.days < 7
  {
    if diff < 1 then JustNow
    else if diff < MinutesPerHour then MinutesAgo(diff)
    else if diff < MinutesPerDay then HoursAgo(diff / MinutesPerHour)
    else if diff < MinutesPerWeek then DaysAgo(diff / MinutesPerDay)
    else LocaleDate
  }

  /**
   * The text shown for a label; `localeDate` stands for
   * `date.toLocaleDateString()`. A counted label reads as digits followed
   * by " ago".
   */
  function Text(l: Label, localeDate: string): (t: string)
    ensures l.MinutesAgo? || l.HoursAgo? || l.DaysAgo? ==>
      |t| >= 6 && IsDigit(t[0]) && t[|t| - 4..] == " ago"
  {
    match l
    case JustNow => "Just now"
    case MinutesAgo(m) => NatToString(m) + "m ago"
    case HoursAgo(h) => NatToString(h) + "h ago"
    case DaysAgo(d) => NatToString(d) + "d ago"
    case LocaleDate => localeDate
  }

  /**
   * `formatDate` (FileSharing.jsx:165-175): the text for a date seen at
   * time now. Less than a minute (or a future date) reads "Just now"; a
   * week or more shows the locale date.
   */
  function FormatDate(dateMs: int, nowMs: int, localeDate: string): (t: string)
    ensures nowMs - dateMs < MsPerMinute ==> t == "Just now"
    ensures nowMs - dateMs >= MinutesPerWeek * MsPerMinute ==> t == localeDate
  {
    Text(Classify(MinutesBetween(dateMs, nowMs)), localeDate)
  }

  /**
   * Each range of the minute difference selects its bucket, and only it;
   * together the ranges cover every integer. The hour count lies in 1..23
   * and the day count in 1..6, each the whole units elapsed.
   */
  lemma ClassifyBuckets(diff: int)
    ensures Classify(diff).JustNow? <==> diff < 1
    ensures Classify(diff).MinutesAgo? <==> 1 <= diff < 60
    ensures Classify(diff).HoursAgo? <==> 60 <= diff < 1440
    ensures Classify(diff).DaysAgo? <==> 1440 <= diff < 10080
    ensures Classify(diff).LocaleDate? <==> diff >= 10080
    ensures Classify(diff).MinutesAgo? ==> Classify(diff).minutes == diff
    ensures Classify(diff).HoursAgo? ==> var h := Classify(diff).hours;
      1 <= h <= 23 && h * 60 <= diff < (h + 1) * 60
    ensures Classify(diff).DaysAgo? ==> var d := Classify(diff).days;
      1 <= d <= 6 && d * 1440 <= diff < (d + 1) * 1440
  {
  }

  /** The text of each bucket, with the count it shows. */
  lemma FormatDateTexts(dateMs: int, nowMs: int, localeDate: string)
    ensures var diff, t := MinutesBetween(dateMs, nowMs), FormatDate(dateMs, nowMs, localeDate);
      && (diff < 1 ==> t == "Just now")
      && (1 <= diff < 60 ==> t == NatToString(diff) + "m ago")
      && (60 <= diff < 1440 ==> t == NatToString(diff / 60) + "h ago")
      && (1440 <= diff < 10080 ==> t == NatToString(diff / 1440) + "d ago")
      && (diff >= 10080 ==> t == localeDate)
  {
  }

  /** A future date (negative difference) and anything under a minute read "Just now". */
  lemma FutureIsJustNow(dateMs: int, nowMs: int, localeDate: string)
    requires nowMs - dateMs < MsPerMinute
    ensures FormatDate(dateMs, nowMs, localeDate) == "Just now"
  {
  }

  /** The number of a unit, 0 for "Just now" up to 4 for the locale date. */
  function Rank(l: Label): (k: nat)
    ensures k <= 4
  {
    match l
    case JustNow => 0
    case MinutesAgo(_) => 1
    case HoursAgo(_) => 2
    case DaysAgo(_) => 3
    case LocaleDate => 4
  }

  /**
   * A larger difference never selects a finer unit, and within one unit
   * the count it shows never decreases.
   */
  lemma ClassifyMonotone(d1: int, d2: int)
    requires d1 <= d2
    ensures Rank(Classify(d1)) <= Rank(Classify(d2))
    ensures Classify(d1).MinutesAgo? && Classify(d2).MinutesAgo? ==> Classify(d1).minutes <= Classify(d2).minutes
    ensures Classify(d1).HoursAgo? && Classify(d2).HoursAgo? ==> Classify(d1).hours <= Classify(d2).hours
    ensures Classify(d1).DaysAgo? && Classify(d2).DaysAgo? ==> Classify(d1).days <= Classify(d2).days
  {
    ClassifyBuckets(d1);
    ClassifyBuckets(d2);
  }

  /** As time passes for one date, the label only ever moves to a coarser unit. */
  lemma FormatDateMonotoneInTime(dateMs: int, now1: int, now2: int)
    requires now1 <= now2
    ensures Rank(Classify(MinutesBetween(dateMs, now1))) <= Rank(Classify(MinutesBetween(dateMs, now2)))
  {
    var d1, d2 := MinutesBetween(dateMs, now1), MinutesBetween(dateMs, now2);
    assert d1 <= d2;
    ClassifyMonotone(d1, d2);
  }

  /** The count a minutes, hours or days label shows. */
  function Amount(l: Label): nat {
    match l
    case MinutesAgo(m) => m
    case HoursAgo(h) => h
    case DaysAgo(d) => d
    case _ => 0
  }

  /** The unit letter a minutes, hours or days label shows. */
  function UnitLetter(l: Label): char {
    match l
    case MinutesAgo(_) => 'm'
    case HoursAgo(_) => 'h'
    case _ => 'd'
  }

  lemma CountedTextShape(l: Label, localeDate: string)
    requires l.MinutesAgo? || l.HoursAgo? || l.DaysAgo?
    ensures Text(l, localeDate) == NatToString(Amount(l)) + [UnitLetter(l)] + " ago"
    ensures Text(l, localeDate) != "Just now"
  {
    assert IsDigit(Text(l, localeDate)[0]);
  }

  /**
   * A relative text names its unit and count unambiguously: two relative
   * labels with the same text are the same label.
   */
  lemma TextDeterminesLabel(l1: Label, l2: Label, localeDate: string)
    requires !l1.LocaleDate? && !l2.LocaleDate?
    requires Text(l1, localeDate) == Text(l2, localeDate)
    ensures l1 == l2
  {
    var t := Text(l1, localeDate);
    if !l1.JustNow? && !l2.JustNow? {
      CountedTextShape(l1, localeDate);
      CountedTextShape(l2, localeDate);
      var s1, s2 := NatToString(Amount(l1)), NatToString(Amount(l2));
      assert |s1| == |s2|;
      assert s1 == t[..|s1|] && s2 == t[..|s2|];
      assert UnitLetter(l1) == t[|s1|] == UnitLetter(l2);
      NatToStringInjective(Amount(l1), Amount(l2));
    } else if !l1.JustNow? {
      CountedTextShape(l1, localeDate);
    } else if !l2.JustNow? {
      CountedTextShape(l2, localeDate);
    }
  }
}
