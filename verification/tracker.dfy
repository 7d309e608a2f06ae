/** The consistency chart of ProgressTracker.tsx: a count of performed
    prayers for each of the last seven records, the headline count and the
    bar colour. */
module Tracker {
  import opened Types
  import opened JsArray
  import Store

  function BoolToNat(b: bool): nat {
    if b then 1 else 0
  }

  /** `Object.values(day.prayers).filter(p => p).length`. */
  function CountTrue(p: Prayers): (c: nat)
    ensures c <= 5
    ensures c == 0 <==> NonePerformed(p)
    ensures c == 5 <==> AllPerformed(p)
  {
    PerformedByField(p);
    BoolToNat(p.fajr) + BoolToNat(p.dhuhr) + BoolToNat(p.asr) +
    BoolToNat(p.maghrib) + BoolToNat(p.isha)
  }

  /** Setting one flag moves the count by exactly that flag's change. */
  lemma CountAfterSet(p: Prayers, n: PrayerName, b: bool)
    ensures CountTrue(SetFlag(p, n, b)) == CountTrue(p) - BoolToNat(Flag(p, n)) + BoolToNat(b)
  {
  }

  /** The chart series: for the last seven records, oldest first, the number
      of prayers performed that day. */
  function ChartData(history: seq<DailyProgress>): (counts: seq<nat>)
    ensures |counts| == Min(7, |history|)
    ensures forall i :: 0 <= i < |counts| ==>
              counts[i] == CountTrue(history[|history| - |counts| + i].prayers)
    ensures forall i :: 0 <= i < |counts| ==> counts[i] <= 5
  {
    var days := SliceLast(history, 7);
    seq(|days|, i requires 0 <= i < |days| => CountTrue(days[i].prayers))
  }

  /** The big number beside the chart: the count of the last charted day, or
      0 for an empty chart. It is the newest record's count, whatever day
      that record is for. */
  function Headline(history: seq<DailyProgress>): (c: nat)
    ensures |history| == 0 ==> c == 0
    ensures |history| > 0 ==> c == CountTrue(history[|history| - 1].prayers)
    ensures c <= 5
  {
    var chart := ChartData(history);
    if |chart| > 0 then chart[|chart| - 1] else 0
  }

  /** The headline labels its number as today's count, but it is the newest
      record's count: on a new day, before the first tap commits a record,
      it shows the previous day's count. */
  lemma HeadlineShowsAnotherDay()
    ensures var h := [DailyProgress("Thu Oct 08 2026", Prayers(true, true, true, true, true))];
            && !Store.HasDate(h, "Fri Oct 09 2026")
            && Headline(h) == 5
  {
    var day := DailyProgress("Thu Oct 08 2026", Prayers(true, true, true, true, true));
    assert AllPerformed(day.prayers);
    assert [day][0].date != "Fri Oct 09 2026";
  }

  /** The count the label promises: that of the record for `today`, or 0
      while the history has none. */
  function TodayCount(history: seq<DailyProgress>, today: string): (c: nat)
    ensures c <= 5
    ensures !Store.HasDate(history, today) ==> c == 0
    ensures Store.HasDate(history, today) ==>
              exists i :: 0 <= i < |history| && history[i].date == today && c == CountTrue(history[i].prayers)
  {
    var day := Store.GetOrCreate(history, today);
    assert Store.HasDate(history, today) ==> Store.IsFirstWithDate(history, today, day);
    CountTrue(day.prayers)
  }

  /** Where the history holds one record per day and the newest is
      today's, the headline and today's count agree. */
  lemma TodayCountIsHeadlineWhenLastIsToday(history: seq<DailyProgress>, today: string)
    requires Store.UniqueDates(history)
    requires |history| > 0 && history[|history| - 1].date == today
    ensures TodayCount(history, today) == Headline(history)
  {
    var last := |history| - 1;
    assert Store.HasDate(history, today);
    var day := Store.GetOrCreate(history, today);
    var i :| 0 <= i < |history| && history[i] == day && day.date == today &&
      forall j :: 0 <= j < i ==> history[j].date != today;
    assert i == last;
  }

  /** The two bar fills: the full-day colour and the partial-day colour. */
  datatype BarColour = Complete | Partial

  /** `entry.count === 5 ? '#059669' : '#10b981'`. */
  function BarFill(count: nat): BarColour {
    if count == 5 then Complete else Partial
  }

  /** A bar takes the full-day colour exactly when every prayer of its record
      was performed. */
  lemma CompleteBarIffAllPerformed(history: seq<DailyProgress>, i: nat)
    requires i < |ChartData(history)|
    ensures BarFill(ChartData(history)[i]) == Complete <==>
            AllPerformed(history[|history| - |ChartData(history)| + i].prayers)
  {
  }
}
