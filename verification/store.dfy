/** The daily-progress store of App.tsx: the profile's history of day
    records, the record held as "today", the get-or-create lookup and the
    toggle that commits by replacing the day's record. */
module Store {
  import opened Wrappers
  import opened Types
  import opened Constants
  import JsArray

  /** Whether some record of `h` is keyed by the day `d`. */
  predicate HasDate(h: seq<DailyProgress>, d: string) {
    exists i :: 0 <= i < |h| && h[i].date == d
  }

  /** The store's invariant: at most one record per day key. */
  predicate UniqueDates(h: seq<DailyProgress>) {
    forall i, j :: 0 <= i < j < |h| ==> h[i].date != h[j].date
  }

  /** `x` is the record `find` meets first when looking for day `d`. */
  predicate IsFirstWithDate(h: seq<DailyProgress>, d: string, x: DailyProgress) {
    exists i :: 0 <= i < |h| && h[i] == x && x.date == d &&
      forall j :: 0 <= j < i ==> h[j].date != d
  }

  /** Number of records keyed by `d`. */
  function CountDate(h: seq<DailyProgress>, d: string): (c: nat)
    ensures c <= |h|
    ensures c == 0 <==> !HasDate(h, d)
  {
    if |h| == 0 then 0
    else
      var rest := CountDate(h[1..], d);
      assert HasDate(h, d) <==> h[0].date == d || HasDate(h[1..], d) by {
        if HasDate(h[1..], d) {
          var i :| 0 <= i < |h[1..]| && h[1..][i].date == d;
          assert h[i + 1].date == d;
        }
        if HasDate(h, d) && h[0].date != d {
          var i :| 0 <= i < |h| && h[i].date == d;
          assert h[1..][i - 1].date == d;
        }
      }
      (if h[0].date == d then 1 else 0) + rest
  }

  /** Counting over a concatenation adds the counts of the parts. */
  lemma {:induction false} CountDateConcat(a: seq<DailyProgress>, b: seq<DailyProgress>, d: string)
    ensures CountDate(a + b, d) == CountDate(a, d) + CountDate(b, d)
  {
    if |a| > 0 {
      assert (a + b)[1..] == a[1..] + b;
      CountDateConcat(a[1..], b, d);
    } else {
      assert a + b == b;
    }
  }

  /** Under the invariant no day has more than one record. */
  lemma {:induction false} UniqueCountAtMostOne(h: seq<DailyProgress>, d: string)
    requires UniqueDates(h)
    ensures CountDate(h, d) <= 1
  {
    if |h| > 0 {
      UniqueCountAtMostOne(h[1..], d);
      if h[0].date == d {
        assert !HasDate(h[1..], d);
      }
    }
  }

  /** `history.find(h => h.date === d)`: the first record for the day, if
      any. */
  function Find(h: seq<DailyProgress>, d: string): (r: Option<DailyProgress>)
    ensures r.None? <==> !HasDate(h, d)
    ensures r.Some? ==> IsFirstWithDate(h, d, r.value)
  {
    if |h| == 0 then None
    else if h[0].date == d then
      Some(h[0])
    else
      var r := Find(h[1..], d);
      assert HasDate(h[1..], d) ==> HasDate(h, d) by {
        if HasDate(h[1..], d) {
          var i :| 0 <= i < |h[1..]| && h[1..][i].date == d;
          assert h[i + 1].date == d;
        }
      }
      assert HasDate(h, d) ==> HasDate(h[1..], d) by {
        if HasDate(h, d) {
          var i :| 0 <= i < |h| && h[i].date == d;
          assert h[1..][i - 1].date == d;
        }
      }
      if r.Some? then
        assert IsFirstWithDate(h, d, r.value) by {
          var i :| 0 <= i < |h[1..]| && h[1..][i] == r.value && r.value.date == d &&
            forall j :: 0 <= j < i ==> h[1..][j].date != d;
          assert h[i + 1] == r.value;
          assert forall j :: 0 <= j < i + 1 ==> h[j].date != d by {
            forall j | 0 <= j < i + 1
              ensures h[j].date != d
            {
              if j > 0 {
                assert h[j] == h[1..][j - 1];
              }
            }
          }
        }
        r
      else
        r
  }

  /** The effect of App.tsx that derives "today" from the history: the first
      record for the day, or a fresh record with every flag false. It never
      changes the history. */
  function GetOrCreate(h: seq<DailyProgress>, d: string): (r: DailyProgress)
    ensures r.date == d
    ensures HasDate(h, d) ==> IsFirstWithDate(h, d, r)
    ensures !HasDate(h, d) ==> NonePerformed(r.prayers)
  {
    match Find(h, d)
    case Some(existing) => existing
    case None => DailyProgress(d, NoPrayers())
  }

  /** The updated day of `togglePrayer`: the named flag negated. */
  function Flip(day: DailyProgress, n: PrayerName): (r: DailyProgress)
    ensures r.date == day.date
    ensures Flag(r.prayers, n) == !Flag(day.prayers, n)
    ensures forall m: PrayerName :: m != n ==> Flag(r.prayers, m) == Flag(day.prayers, m)
  {
    day.(prayers := SetFlag(day.prayers, n, !Flag(day.prayers, n)))
  }

  /** Flipping the same flag twice gives back the original record. */
  lemma FlipTwice(day: DailyProgress, n: PrayerName)
    ensures Flip(Flip(day, n), n) == day
  {
    FlagsDetermineRecord(Flip(Flip(day, n), n).prayers, day.prayers);
  }

  /** `history.filter(h => h.date !== d)`: every record of another day, in
      history order. */
  function RemoveDate(h: seq<DailyProgress>, d: string): (r: seq<DailyProgress>)
    ensures forall x :: x in r <==> x in h && x.date != d
    ensures |r| == |h| - CountDate(h, d)
    ensures !HasDate(r, d)
  {
    if |h| == 0 then []
    else
      var rest := RemoveDate(h[1..], d);
      assert forall x :: x in h <==> x == h[0] || x in h[1..] by {
        assert h == [h[0]] + h[1..];
      }
      if h[0].date == d then rest else [h[0]] + rest
  }

  /** Filtering a concatenation filters each part: the kept records of
      other days stay in their relative order. */
  lemma {:induction false} RemoveDateConcat(a: seq<DailyProgress>, b: seq<DailyProgress>, d: string)
    ensures RemoveDate(a + b, d) == RemoveDate(a, d) + RemoveDate(b, d)
  {
    if |a| == 0 {
      assert a + b == b;
    } else {
      assert (a + b)[1..] == a[1..] + b;
      RemoveDateConcat(a[1..], b, d);
    }
  }

  /** Filtering a history that holds no record of the day changes nothing. */
  lemma {:induction false} RemoveAbsentDate(h: seq<DailyProgress>, d: string)
    requires !HasDate(h, d)
    ensures RemoveDate(h, d) == h
  {
    if |h| > 0 {
      assert h[0].date != d;
      assert !HasDate(h[1..], d);
      RemoveAbsentDate(h[1..], d);
      assert h == [h[0]] + h[1..];
    }
  }

  /** Filtering keeps the invariant. */
  lemma {:induction false} RemoveDateKeepsUnique(h: seq<DailyProgress>, d: string)
    requires UniqueDates(h)
    ensures UniqueDates(RemoveDate(h, d))
  {
    if |h| > 0 {
      assert UniqueDates(h[1..]);
      RemoveDateKeepsUnique(h[1..], d);
      var rest := RemoveDate(h[1..], d);
      if h[0].date != d {
        PrependKeepsUnique(h[0], rest);
      }
    }
  }

  /** A record of a day the history lacks can go in front without creating
      a duplicate. */
  lemma PrependKeepsUnique(x: DailyProgress, h: seq<DailyProgress>)
    requires UniqueDates(h) && !HasDate(h, x.date)
    ensures UniqueDates([x] + h)
  {
    var r := [x] + h;
    forall i, j | 0 <= i < j < |r|
      ensures r[i].date != r[j].date
    {
      assert r[j] == h[j - 1];
      if i > 0 {
        assert r[i] == h[i - 1];
      }
    }
  }

  /** Finding a day in a history that lacks it, extended by one record, sees
      only that record. */
  lemma {:induction false} FindAfterAppend(a: seq<DailyProgress>, x: DailyProgress)
    requires !HasDate(a, x.date)
    ensures Find(a + [x], x.date) == Some(x)
  {
    if |a| > 0 {
      assert a[0].date != x.date;
      assert (a + [x])[1..] == a[1..] + [x];
      assert !HasDate(a[1..], x.date);
      FindAfterAppend(a[1..], x);
    }
  }

  /** The commit of `togglePrayer`: drop every record of the updated day and
      append the updated record at the end. */
  function Commit(h: seq<DailyProgress>, rec: DailyProgress): (r: seq<DailyProgress>)
    ensures |r| == |h| - CountDate(h, rec.date) + 1
    ensures r[|r| - 1] == rec
    ensures forall x :: x in r <==> x == rec || (x in h && x.date != rec.date)
    ensures CountDate(r, rec.date) == 1
    ensures Find(r, rec.date) == Some(rec)
    ensures UniqueDates(h) ==> UniqueDates(r)
  {
    var kept := RemoveDate(h, rec.date);
    CountDateConcat(kept, [rec], rec.date);
    assert CountDate([rec], rec.date) == 1 by {
      assert [rec][1..] == [];
    }
    FindAfterAppend(kept, rec);
    CommitKeepsUnique(h, rec);
    kept + [rec]
  }

  /** Appending the record after removing its day keeps the invariant. */
  lemma CommitKeepsUnique(h: seq<DailyProgress>, rec: DailyProgress)
    ensures UniqueDates(h) ==> UniqueDates(RemoveDate(h, rec.date) + [rec])
  {
    if UniqueDates(h) {
      var kept := RemoveDate(h, rec.date);
      RemoveDateKeepsUnique(h, rec.date);
      var r := kept + [rec];
      forall i, j | 0 <= i < j < |r|
        ensures r[i].date != r[j].date
      {
        if j == |r| - 1 {
          assert r[i] in kept;
        } else {
          assert r[i] == kept[i] && r[j] == kept[j];
        }
      }
    }
  }

  /** Apart from the committed day, the history is untouched: removing that
      day from the history before and after the commit gives the same
      sequence, so every other record keeps its place in the order. */
  lemma CommitOnlyTouchesItsDate(h: seq<DailyProgress>, rec: DailyProgress)
    ensures RemoveDate(Commit(h, rec), rec.date) == RemoveDate(h, rec.date)
  {
    var kept := RemoveDate(h, rec.date);
    RemoveDateConcat(kept, [rec], rec.date);
    RemoveAbsentDate(kept, rec.date);
    assert RemoveDate([rec], rec.date) == [] by {
      assert [rec][1..] == [];
    }
  }

  /** The history panel of the progress view: the last five records,
      newest first. */
  function RecentDays(h: seq<DailyProgress>): (r: seq<DailyProgress>)
    ensures |r| == if |h| < 5 then |h| else 5
    ensures forall i :: 0 <= i < |r| ==> r[i] == h[|h| - 1 - i]
  {
    var last := JsArray.SliceLast(h, 5);
    assert last == h[|h| - |last|..];
    seq(|last|, i requires 0 <= i < |last| => last[|last| - 1 - i])
  }

  /** The default calculation method of a new profile. */
  const DefaultMethodId: int := 2

  /** The session of App.tsx: the profile (which owns the history) and the
      record held as today's progress, absent until first derived. */
  datatype Session = Session(profile: UserProfile, today: Option<DailyProgress>)

  /** The state at start-up: the saved profile if there is one, else the
      default profile with an empty history; no record is held yet. */
  function Load(saved: Option<UserProfile>): (s: Session)
    ensures s.today.None?
    ensures saved.Some? ==> s.profile == saved.value
    ensures saved.None? ==> s.profile.history == [] && IsKnownMethod(s.profile.calculationMethod)
  {
    assert PrayerMethods()[0].id == DefaultMethodId;
    var default := UserProfile("Guest", DefaultMethodId, 0, true, []);
    Session(saved.GetOr(default), None)
  }

  /** The held record is what the history says about its day, and the
      history has at most one record per day. */
  predicate Coherent(s: Session) {
    && UniqueDates(s.profile.history)
    && (s.today.Some? ==> GetOrCreate(s.profile.history, s.today.value.date) == s.today.value)
  }

  /** Re-deriving today's record for the day key `todayStr`; the profile is
      left as it is. */
  function SyncToday(s: Session, todayStr: string): (r: Session)
    ensures r.profile == s.profile
    ensures r.today.Some? && r.today.value.date == todayStr
    ensures UniqueDates(s.profile.history) ==> Coherent(r)
  {
    Session(s.profile, Some(GetOrCreate(s.profile.history, todayStr)))
  }

  /** `togglePrayer(n)`: nothing happens while no record is held; otherwise
      the held record's flag for `n` is negated, the result becomes the held
      record and is committed to the history. */
  function Toggle(s: Session, n: PrayerName): (r: Session)
    ensures s.today.None? ==> r == s
    ensures s.today.Some? ==>
      && r.today.Some?
      && r.today.value.date == s.today.value.date
      && Flag(r.today.value.prayers, n) == !Flag(s.today.value.prayers, n)
      && (forall m: PrayerName :: m != n ==>
            Flag(r.today.value.prayers, m) == Flag(s.today.value.prayers, m))
      && r.profile == s.profile.(history := Commit(s.profile.history, r.today.value))
      && GetOrCreate(r.profile.history, s.today.value.date) == r.today.value
    ensures Coherent(s) ==> Coherent(r)
  {
    match s.today
    case None => s
    case Some(day) =>
      var updated := Flip(day, n);
      Session(s.profile.(history := Commit(s.profile.history, updated)), Some(updated))
  }

  /** Toggling the same prayer twice restores the held record, while the
      history keeps the day's record, now at the end. */
  lemma ToggleTwice(s: Session, n: PrayerName)
    requires s.today.Some?
    ensures Toggle(Toggle(s, n), n).today == s.today
    ensures Toggle(Toggle(s, n), n).profile.history == Commit(s.profile.history, s.today.value)
  {
    var day := s.today.value;
    var h := s.profile.history;
    FlipTwice(day, n);
    CommitOnlyTouchesItsDate(h, Flip(day, n));
  }

  /** The first toggle of a day the history does not know yet appends exactly
      one record, with only the toggled flag set. */
  lemma FirstToggleOfDay(s: Session, d: string, n: PrayerName)
    requires !HasDate(s.profile.history, d)
    ensures Toggle(SyncToday(s, d), n).today.Some?
    ensures Toggle(SyncToday(s, d), n).profile.history ==
            s.profile.history + [Toggle(SyncToday(s, d), n).today.value]
    ensures Toggle(SyncToday(s, d), n).today.value.date == d
    ensures forall m: PrayerName ::
              Flag(Toggle(SyncToday(s, d), n).today.value.prayers, m) <==> m == n
  {
    RemoveAbsentDate(s.profile.history, d);
  }

  /** What can happen to a session: the derivation effect runs for some day,
      or the user taps a prayer. */
  datatype Event = Sync(todayStr: string) | Tap(prayer: PrayerName)

  function Step(s: Session, e: Event): Session {
    match e
    case Sync(d) => SyncToday(s, d)
    case Tap(n) => Toggle(s, n)
  }

  function Run(s: Session, events: seq<Event>): Session
    decreases |events|
  {
    if |events| == 0 then s else Run(Step(s, events[0]), events[1..])
  }

  /** Whatever sequence of derivations and taps follows a coherent state, the
      history never holds two records of one day and the held record agrees
      with the history. */
  lemma {:induction false} RunKeepsCoherent(s: Session, events: seq<Event>)
    requires Coherent(s)
    ensures Coherent(Run(s, events))
    decreases |events|
  {
    if |events| > 0 {
      RunKeepsCoherent(Step(s, events[0]), events[1..]);
    }
  }

  /** A session loaded from scratch is coherent, and so is every session it
      can reach. */
  lemma FreshSessionStaysCoherent(events: seq<Event>)
    ensures Coherent(Run(Load(None), events))
  {
    RunKeepsCoherent(Load(None), events);
  }
}
