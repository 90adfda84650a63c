/**
 * `timeAgo` (lib/timeAgo.ts): a relative time such as "3 hours ago" for the
 * difference `now - timestamp` in milliseconds. The clock reading and the
 * localised short date (`toLocaleDateString`) are parameters.
 */
module TimeAgo {
  import opened Strings

  const MinuteMs: int := 60 * 1000
  const HourMs: int := 60 * MinuteMs
  const DayMs: int := 24 * HourMs

  /** The branch `timeAgo` takes, with the count it prints. */
  datatype Ago =
    | JustNow
    | Minutes(n: nat)
    | Hours(n: nat)
    | Days(n: nat)
    | Months(n: nat)
    | LocaleDate
    | Years(n: nat)

  /**
   * The chain of floor divisions and early returns. Dafny's `/` by a positive
   * divisor rounds toward negative infinity, as `Math.floor(x / y)` does.
   */
  function Classify(diff: int): (a: Ago)
    ensures a.Minutes? ==> 1 <= a.n < 60
    ensures a.Hours? ==> 1 <= a.n < 24
    ensures a.Days? ==> 1 <= a.n < 30
    ensures a.Months? ==> 1 <= a.n < 12
    ensures a.Years? ==> a.n >= 2
  {
    var seconds := diff / 1000;
    var minutes := seconds / 60;
    var hours := minutes / 60;
    var days := hours / 24;
    var months := days / 30;
    var years := days / 365;
    if seconds < 60 then JustNow
    else if minutes < 60 then Minutes(minutes)
    else if hours < 24 then Hours(hours)
    else if days < 30 then Days(days)
    else if months < 12 then Months(months)
    else if years < 2 then LocaleDate
    else Years(years)
  }

  /** "N unit ago", with a plural "s" unless N is one. */
  function CountAgo(n: nat, unit: string): (r: string)
    ensures StartsWith(r, NatToString(n) + " " + unit)
    ensures |r| >= 4 && r[|r| - 4..] == " ago"
  {
    NatToString(n) + " " + unit + (if n == 1 then "" else "s") + " ago"
  }

  /** `timeAgo` for `diff = now - timestamp`; `localeDate` is the timestamp's short date. */
  function TimeAgo(diff: int, localeDate: string): (r: string)
    ensures Classify(diff) != LocaleDate ==> (Classify(diff) == JustNow <==> r == "Just now")
    ensures Classify(diff) != JustNow && Classify(diff) != LocaleDate ==>
      |r| >= 4 && r[|r| - 4..] == " ago" && IsDigit(r[0])
  {
    match Classify(diff)
    case JustNow => "Just now"
    case Minutes(n) => CountAgo(n, "minute")
    case Hours(n) => CountAgo(n, "hour")
    case Days(n) => CountAgo(n, "day")
    case Months(n) => CountAgo(n, "month")
    case LocaleDate => localeDate
    case Years(n) => NatToString(n) + " years ago"
  }

  /**
   * Each branch covers one range of the difference, and the ranges tile the
   * integers: under a minute (the future included) is "Just now"; then
   * minutes, hours, days under 30, months while days < 360, the short date
   * while days < 730, and whole years of 365 days from there on.
   */
  lemma {:induction false} BranchRanges(diff: int)
    ensures (Classify(diff) == JustNow) <==> diff < MinuteMs
    ensures Classify(diff).Minutes? <==> MinuteMs <= diff < HourMs
    ensures Classify(diff).Hours? <==> HourMs <= diff < DayMs
    ensures Classify(diff).Days? <==> DayMs <= diff < 30 * DayMs
    ensures Classify(diff).Months? <==> 30 * DayMs <= diff < 360 * DayMs
    ensures (Classify(diff) == LocaleDate) <==> 360 * DayMs <= diff < 730 * DayMs
    ensures Classify(diff).Years? <==> 730 * DayMs <= diff
    ensures Classify(diff).Minutes? ==> Classify(diff).n == diff / MinuteMs
    ensures Classify(diff).Hours? ==> Classify(diff).n == diff / HourMs
    ensures Classify(diff).Days? ==> Classify(diff).n == diff / DayMs
    ensures Classify(diff).Months? ==> Classify(diff).n == diff / (30 * DayMs)
    ensures Classify(diff).Years? ==> Classify(diff).n == diff / (365 * DayMs) && Classify(diff).n >= 2
  {
    var seconds := diff / 1000;
    var minutes := diff / MinuteMs;
    var hours := diff / HourMs;
    var days := diff / DayMs;
    assert seconds / 60 == minutes;
    assert minutes / 60 == hours;
    assert hours / 24 == days;
    assert days / 30 == diff / (30 * DayMs);
    assert days / 365 == diff / (365 * DayMs);
    assert seconds < 60 <==> diff < MinuteMs;
    assert minutes < 60 <==> diff < HourMs;
    assert hours < 24 <==> diff < DayMs;
    assert days < 30 <==> diff < 30 * DayMs;
    assert days / 30 < 12 <==> diff < 360 * DayMs;
    assert days / 365 < 2 <==> diff < 730 * DayMs;
  }

  /** The minute, hour, day and month texts: the count, the unit, "s" exactly when the count is not one. */
  lemma CountAgoPlural(n: nat, unit: string)
    ensures var t := CountAgo(n, unit);
      t == NatToString(n) + " " + unit + " ago" || t == NatToString(n) + " " + unit + "s ago"
    ensures (CountAgo(n, unit) == NatToString(n) + " " + unit + "s ago") <==> n != 1
  {
    var a := NatToString(n) + " " + unit + " ago";
    var b := NatToString(n) + " " + unit + "s ago";
    assert |a| != |b|;
  }

  /** Two or more years back the text is "N years ago", N being whole 365-day years. */
  lemma YearsText(diff: int, localeDate: string)
    requires diff >= 730 * DayMs
    ensures TimeAgo(diff, localeDate) == NatToString(diff / (365 * DayMs)) + " years ago"
  {
    BranchRanges(diff);
  }

  /** Under a minute, the future included, the text is "Just now". */
  lemma JustNowText(diff: int, localeDate: string)
    requires diff < MinuteMs
    ensures TimeAgo(diff, localeDate) == "Just now"
  {
    BranchRanges(diff);
  }

  /** From a minute to an hour back the text counts whole minutes. */
  lemma MinutesText(diff: int, localeDate: string)
    requires MinuteMs <= diff < HourMs
    ensures TimeAgo(diff, localeDate) == CountAgo(diff / MinuteMs, "minute")
  {
    BranchRanges(diff);
  }

  /** From an hour to a day back the text counts whole hours. */
  lemma HoursText(diff: int, localeDate: string)
    requires HourMs <= diff < DayMs
    ensures TimeAgo(diff, localeDate) == CountAgo(diff / HourMs, "hour")
  {
    BranchRanges(diff);
  }

  /** From a day to 30 days back the text counts whole days. */
  lemma DaysText(diff: int, localeDate: string)
    requires DayMs <= diff < 30 * DayMs
    ensures TimeAgo(diff, localeDate) == CountAgo(diff / DayMs, "day")
  {
    BranchRanges(diff);
  }

  /** From 30 to 360 days back the text counts whole months of 30 days. */
  lemma MonthsText(diff: int, localeDate: string)
    requires 30 * DayMs <= diff < 360 * DayMs
    ensures TimeAgo(diff, localeDate) == CountAgo(diff / (30 * DayMs), "month")
  {
    BranchRanges(diff);
  }

  /** Days 360 to 729 back show the short date rather than "12 months ago" or "1 years ago". */
  lemma LocaleDateText(diff: int, localeDate: string)
    requires 360 * DayMs <= diff < 730 * DayMs
    ensures TimeAgo(diff, localeDate) == localeDate
  {
    BranchRanges(diff);
  }
}
