/** The next-prayer selector of App.tsx: reads each of the five timings as
    minutes of the day and picks the first one still ahead of the current
    minute, wrapping to the first prayer of the next day. */
module Schedule {
  import opened Wrappers
  import opened Types
  import opened Constants
  import JsArray

  /** `now.getHours() * 60 + now.getMinutes()`: a wall-clock time as minutes
      since midnight. */
  function MinuteOfDay(hours: nat, minutes: nat): (r: nat)
    requires hours < 24 && minutes < 60
    ensures r < 24 * 60
    ensures r / 60 == hours && r % 60 == minutes
  {
    hours * 60 + minutes
  }

  predicate IsDigit(c: char) {
    '0' <= c <= '9'
  }

  predicate AllDigits(s: string) {
    forall i :: 0 <= i < |s| ==> IsDigit(s[i])
  }

  /** `Number(s)` for a non-empty run of decimal digits. */
  function DecimalValue(s: string): nat
    requires AllDigits(s)
    decreases |s|
  {
    if |s| == 0 then 0
    else DecimalValue(s[..|s| - 1]) * 10 + (s[|s| - 1] as int - '0' as int)
  }

  /** Position `i` of `s` is a colon with a non-empty run of decimal digits
      on each side, and nothing else in `s`. */
  predicate IsClockAt(s: string, i: int) {
    && 0 < i < |s| - 1
    && s[i] == ':'
    && AllDigits(s[..i])
    && AllDigits(s[i + 1..])
  }

  /** `const [h, m] = s.split(':').map(Number); h * 60 + m` for a timing of
      the form digits, colon, digits. Any other string yields None here; the
      source gives `NaN` for most of them, but not for every one (a third
      field or an empty side still reads as a number there). */
  function ParseTime(s: string): (r: Option<nat>)
    ensures r.Some? ==> ':' in s
  {
    if ':' !in s then None
    else
      var i := JsArray.IndexOf(s, ':');
      var hh := s[..i];
      var mm := s[i + 1..];
      if 0 < |hh| && 0 < |mm| && AllDigits(hh) && AllDigits(mm)
      then Some(DecimalValue(hh) * 60 + DecimalValue(mm))
      else None
  }

  /** A colon with only digits before it is the first colon. */
  lemma ClockColonIsFirst(s: string, i: int)
    requires IsClockAt(s, i)
    ensures ':' in s && JsArray.IndexOf(s, ':') == i
  {
    assert s[i] == ':';
  }

  /** A timing reads exactly when it is one colon between two non-empty
      runs of decimal digits, and then it reads as hours * 60 + minutes. */
  lemma ParseTimeReadsClock(s: string)
    ensures ParseTime(s).Some? <==> exists i :: IsClockAt(s, i)
    ensures forall i :: IsClockAt(s, i) ==>
              ParseTime(s) == Some(DecimalValue(s[..i]) * 60 + DecimalValue(s[i + 1..]))
  {
    if ':' in s {
      var i := JsArray.IndexOf(s, ':');
      if ParseTime(s).Some? {
        assert IsClockAt(s, i);
      }
      forall j | IsClockAt(s, j)
        ensures ParseTime(s) == Some(DecimalValue(s[..j]) * 60 + DecimalValue(s[j + 1..]))
      {
        ClockColonIsFirst(s, j);
      }
    }
  }

  /** A decimal digit character. */
  function Digit(d: nat): (c: char)
    requires d < 10
    ensures IsDigit(c) && c as int - '0' as int == d
  {
    ('0' as int + d) as char
  }

  /** A number below one hundred as two digits, zero-padded. */
  function TwoDigits(n: nat): (s: string)
    requires n < 100
    ensures |s| == 2 && AllDigits(s) && DecimalValue(s) == n
  {
    var s := [Digit(n / 10), Digit(n % 10)];
    assert s[..1] == [Digit(n / 10)];
    assert [Digit(n / 10)][..0] == [];
    assert DecimalValue(s[..1]) == n / 10;
    assert DecimalValue(s) == DecimalValue(s[..1]) * 10 + n % 10;
    s
  }

  /** The "HH:MM" form in which the timing service reports a time. */
  function FormatTime(hours: nat, minutes: nat): (s: string)
    requires hours < 100 && minutes < 100
    ensures |s| == 5
  {
    TwoDigits(hours) + ":" + TwoDigits(minutes)
  }

  /** Reading back a formatted time gives its minute of the day. */
  lemma ParseFormattedTime(hours: nat, minutes: nat)
    requires hours < 100 && minutes < 100
    ensures ParseTime(FormatTime(hours, minutes)) == Some(hours * 60 + minutes)
  {
    var s := FormatTime(hours, minutes);
    var hh := TwoDigits(hours);
    var mm := TwoDigits(minutes);
    assert s[2] == ':';
    assert ':' !in s[..2] by {
      assert s[..2] == hh;
    }
    assert JsArray.IndexOf(s, ':') == 2;
    assert s[..2] == hh;
    assert s[3..] == mm;
  }

  /** The timing of prayer `n` is strictly after minute `now`. An equal time
      counts as passed, and an unreadable time is never after anything. */
  predicate IsLater(t: PrayerTimes, n: PrayerName, now: int) {
    match Minutes(t, n)
    case Some(v) => v > now
    case None => false
  }

  /** The minute of the day at which prayer `n` falls, if its timing reads. */
  function Minutes(t: PrayerTimes, n: PrayerName): Option<nat> {
    ParseTime(Timing(t, n).value)
  }

  /** `n` is the prayer the selector is after: still ahead, and every prayer
      declared before it has passed. */
  predicate IsFirstLater(t: PrayerTimes, now: int, n: PrayerName) {
    && IsLater(t, n, now)
    && forall m: PrayerName :: DeclarationIndex(m) < DeclarationIndex(n) ==> !IsLater(t, m, now)
  }

  /** Position `i` of `names` holds a prayer still ahead, and every earlier
      position holds one that has passed. */
  predicate IsFirstLaterAt(names: seq<PrayerName>, t: PrayerTimes, now: int, i: int) {
    && 0 <= i < |names|
    && IsLater(t, names[i], now)
    && forall j :: 0 <= j < i ==> !IsLater(t, names[j], now)
  }

  /** The scan of the `for` loop: the first name of `names` whose time is
      still ahead. */
  function FirstLater(names: seq<PrayerName>, t: PrayerTimes, now: int): (r: Option<PrayerName>)
    ensures r.None? <==> forall i :: 0 <= i < |names| ==> !IsLater(t, names[i], now)
    ensures r.Some? ==> exists i :: IsFirstLaterAt(names, t, now, i) && names[i] == r.value
  {
    if |names| == 0 then None
    else if IsLater(t, names[0], now) then
      assert IsFirstLaterAt(names, t, now, 0);
      Some(names[0])
    else
      var r := FirstLater(names[1..], t, now);
      assert forall i :: 0 < i < |names| ==> names[i] == names[1..][i - 1];
      if r.Some? then
        var i :| IsFirstLaterAt(names[1..], t, now, i) && names[1..][i] == r.value;
        assert IsFirstLaterAt(names, t, now, i + 1);
        r
      else
        r
  }

  /** The position of the first-later name in the canonical list is the
      earliest position of any later prayer, because the list follows the
      declaration order. */
  lemma FirstLaterIsEarliest(t: PrayerTimes, now: int, i: nat)
    requires IsFirstLaterAt(PrayerNames(), t, now, i)
    ensures IsFirstLater(t, now, PrayerNames()[i])
  {
    var names := PrayerNames();
    forall m: PrayerName | DeclarationIndex(m) < DeclarationIndex(names[i])
      ensures !IsLater(t, m, now)
    {
      assert m in names;
      var k :| 0 <= k < |names| && names[k] == m;
    }
  }

  /** `nextPrayer`: no answer without timing data; otherwise the first prayer,
      in prayer order, still ahead of `now`, or Fajr of the next day when all five have
      passed. */
  function NextPrayer(data: Option<PrayerTimes>, now: int): (r: Option<PrayerName>)
    ensures data.None? <==> r.None?
    ensures r.Some? ==> r.value in PrayerNames()
    ensures data.Some? && (exists m: PrayerName :: IsLater(data.value, m, now)) ==>
              IsFirstLater(data.value, now, r.value)
    ensures data.Some? && (forall m: PrayerName :: !IsLater(data.value, m, now)) ==>
              r == Some(Fajr)
  {
    match data
    case None => None
    case Some(t) =>
      match FirstLater(PrayerNames(), t, now)
      case Some(n) =>
        var i :| IsFirstLaterAt(PrayerNames(), t, now, i) && PrayerNames()[i] == n;
        FirstLaterIsEarliest(t, now, i);
        Some(n)
      case None =>
        assert forall m: PrayerName :: !IsLater(t, m, now) by {
          forall m: PrayerName
            ensures !IsLater(t, m, now)
          {
            assert m in PrayerNames();
          }
        }
        Some(Fajr)
  }

  /** The wrap-around answer is the first name of the canonical order. */
  lemma WrapAroundIsFirstPrayer(t: PrayerTimes, now: int)
    requires forall m: PrayerName :: !IsLater(t, m, now)
    ensures NextPrayer(Some(t), now) == Some(PrayerNames()[0])
  {
  }

  /** At most one prayer is the first one still ahead. */
  lemma FirstLaterUnique(t: PrayerTimes, now: int, n: PrayerName, n': PrayerName)
    requires IsFirstLater(t, now, n) && IsFirstLater(t, now, n')
    ensures n == n'
  {
  }

  /** Every prayer timing reads, and each falls strictly after the prayers
      declared before it: the usual shape of one day's timetable. */
  predicate InDayOrder(t: PrayerTimes) {
    forall m: PrayerName, n: PrayerName :: DeclarationIndex(m) < DeclarationIndex(n) ==>
      Minutes(t, m).Some? && Minutes(t, n).Some? && Minutes(t, m).value < Minutes(t, n).value
  }

  /** `n` is still ahead and no prayer still ahead falls sooner. */
  predicate IsSoonestLater(t: PrayerTimes, now: int, n: PrayerName) {
    && IsLater(t, n, now)
    && forall m: PrayerName :: IsLater(t, m, now) ==>
         Minutes(t, n).Some? && Minutes(t, m).Some? && Minutes(t, n).value <= Minutes(t, m).value
  }

  /** Distinct prayers have distinct declaration positions. */
  lemma DeclarationIndexInjective(m: PrayerName, n: PrayerName)
    requires m != n
    ensures DeclarationIndex(m) != DeclarationIndex(n)
  {
  }

  /** On a timetable in day order the selector's answer, whenever some
      prayer is still ahead, is the soonest prayer ahead, and no other
      prayer is. */
  lemma NextPrayerIsSoonestWhenOrdered(t: PrayerTimes, now: int)
    requires InDayOrder(t)
    requires exists m: PrayerName :: IsLater(t, m, now)
    ensures IsSoonestLater(t, now, NextPrayer(Some(t), now).value)
    ensures forall n: PrayerName :: IsSoonestLater(t, now, n) ==> n == NextPrayer(Some(t), now).value
  {
    var r := NextPrayer(Some(t), now).value;
    assert IsFirstLater(t, now, r);
    forall m: PrayerName | IsLater(t, m, now) && m != r
      ensures DeclarationIndex(r) < DeclarationIndex(m)
    {
      DeclarationIndexInjective(m, r);
    }
  }

  /** When Isha falls after midnight, the selector ignores it: at 00:10 with
      Fajr at 02:30 and Isha at 00:45 the answer is Fajr, although Isha is
      still ahead and comes sooner. */
  lemma IshaAfterMidnightPassedOver(t: PrayerTimes)
    requires Minutes(t, Fajr) == Some(2 * 60 + 30) && Minutes(t, Isha) == Some(45)
    ensures NextPrayer(Some(t), MinuteOfDay(0, 10)) == Some(Fajr)
    ensures IsLater(t, Isha, MinuteOfDay(0, 10)) && !IsSoonestLater(t, MinuteOfDay(0, 10), Fajr)
  {
    var now := MinuteOfDay(0, 10);
    assert IsFirstLater(t, now, Fajr);
    FirstLaterUnique(t, now, NextPrayer(Some(t), now).value, Fajr);
  }

  /** The five prayer timings of `t` read as Fajr 05:00, Dhuhr 12:30,
      Asr 15:45, Maghrib 18:10 and Isha 19:40. */
  predicate IsSampleDay(t: PrayerTimes) {
    && Minutes(t, Fajr) == Some(5 * 60)
    && Minutes(t, Dhuhr) == Some(12 * 60 + 30)
    && Minutes(t, Asr) == Some(15 * 60 + 45)
    && Minutes(t, Maghrib) == Some(18 * 60 + 10)
    && Minutes(t, Isha) == Some(19 * 60 + 40)
  }

  /** A timing table as the service would send it for the sample day. */
  function SampleDay(): PrayerTimes {
    PrayerTimes(FormatTime(5, 0), FormatTime(6, 30), FormatTime(12, 30), FormatTime(15, 45),
                FormatTime(18, 10), FormatTime(19, 40), None, None)
  }

  /** Each timing of the sample table reads as the minute it was written
      from; one lemma per timing keeps each proof small. */
  lemma SampleFajrReads()
    ensures ParseTime(SampleDay().fajr) == Some(5 * 60)
  {
    ParseFormattedTime(5, 0);
  }

  lemma SampleDhuhrReads()
    ensures ParseTime(SampleDay().dhuhr) == Some(12 * 60 + 30)
  {
    ParseFormattedTime(12, 30);
  }

  lemma SampleAsrReads()
    ensures ParseTime(SampleDay().asr) == Some(15 * 60 + 45)
  {
    ParseFormattedTime(15, 45);
  }

  lemma SampleMaghribReads()
    ensures ParseTime(SampleDay().maghrib) == Some(18 * 60 + 10)
  {
    ParseFormattedTime(18, 10);
  }

  lemma SampleIshaReads()
    ensures ParseTime(SampleDay().isha) == Some(19 * 60 + 40)
  {
    ParseFormattedTime(19, 40);
  }

  /** The service's table for the sample day reads as the sample day. */
  lemma SampleDayIsSample()
    ensures IsSampleDay(SampleDay())
  {
    SampleFajrReads();
    SampleDhuhrReads();
    SampleAsrReads();
    SampleMaghribReads();
    SampleIshaReads();
  }

  /** The sample day's timetable is in day order. */
  lemma SampleDayInOrder(t: PrayerTimes)
    requires IsSampleDay(t)
    ensures InDayOrder(t)
  {
  }

  /** On a sample day at 13:00 the next prayer is Asr. */
  lemma SampleAfternoon(t: PrayerTimes)
    requires IsSampleDay(t)
    ensures NextPrayer(Some(t), MinuteOfDay(13, 0)) == Some(Asr)
  {
    var now := MinuteOfDay(13, 0);
    assert IsLater(t, Asr, now);
    assert !IsLater(t, Fajr, now) && !IsLater(t, Dhuhr, now);
    assert IsFirstLater(t, now, Asr);
    FirstLaterUnique(t, now, NextPrayer(Some(t), now).value, Asr);
  }

  /** On a sample day at exactly 12:30 Dhuhr counts as passed, so the next
      prayer is Asr. */
  lemma SampleAtDhuhr(t: PrayerTimes)
    requires IsSampleDay(t)
    ensures NextPrayer(Some(t), MinuteOfDay(12, 30)) == Some(Asr)
  {
    var now := MinuteOfDay(12, 30);
    assert IsLater(t, Asr, now);
    assert !IsLater(t, Fajr, now) && !IsLater(t, Dhuhr, now);
    assert IsFirstLater(t, now, Asr);
    FirstLaterUnique(t, now, NextPrayer(Some(t), now).value, Asr);
  }

  /** On a sample day at 20:00 every prayer has passed. */
  lemma SampleAllPassedAtNight(t: PrayerTimes)
    requires IsSampleDay(t)
    ensures forall m: PrayerName :: !IsLater(t, m, MinuteOfDay(20, 0))
  {
    var now := MinuteOfDay(20, 0);
    assert !IsLater(t, Fajr, now) && !IsLater(t, Dhuhr, now) && !IsLater(t, Asr, now);
    assert !IsLater(t, Maghrib, now) && !IsLater(t, Isha, now);
  }

  /** On a sample day at 20:00 the answer is the next day's Fajr. */
  lemma SampleNight(t: PrayerTimes)
    requires IsSampleDay(t)
    ensures NextPrayer(Some(t), MinuteOfDay(20, 0)) == Some(Fajr)
  {
    SampleAllPassedAtNight(t);
  }
}
