/** The records of the prayer companion: the keys of a day's timing table,
    the five prayers that carry a progress flag, a day's progress record,
    a guidance recommendation and the user profile. */
module Types {
  import opened Wrappers

  /** Every key of a day's timing table, in the order the table declares
      them. */
  datatype TimingKey = Fajr | Sunrise | Dhuhr | Asr | Maghrib | Isha | Imsak | Iftar

  /** The keys that are prayers: every timing key except the sunrise mark
      and the two optional fasting marks. */
  predicate IsPrayerKey(k: TimingKey) {
    !(k.Sunrise? || k.Imsak? || k.Iftar?)
  }

  /** The position of a key in the declaration of the timing table. The six
      required marks, Fajr to Isha, are declared in chronological order; the
      optional Imsak (before Fajr) and Iftar (at Maghrib) are declared last. */
  function DeclarationIndex(k: TimingKey): nat {
    match k
    case Fajr => 0
    case Sunrise => 1
    case Dhuhr => 2
    case Asr => 3
    case Maghrib => 4
    case Isha => 5
    case Imsak => 6
    case Iftar => 7
  }

  /** A prayer name, i.e. a timing key that carries a progress flag. */
  type PrayerName = k: TimingKey | IsPrayerKey(k) witness Fajr

  /** The wire spelling of a timing key. */
  function KeyName(k: TimingKey): string {
    match k
    case Fajr => "Fajr"
    case Sunrise => "Sunrise"
    case Dhuhr => "Dhuhr"
    case Asr => "Asr"
    case Maghrib => "Maghrib"
    case Isha => "Isha"
    case Imsak => "Imsak"
    case Iftar => "Iftar"
  }

  /** Every wire spelling is a non-empty run of ASCII letters. */
  lemma KeyNameIsWord(k: TimingKey)
    ensures |KeyName(k)| > 0
    ensures forall i :: 0 <= i < |KeyName(k)| ==>
              'A' <= KeyName(k)[i] <= 'Z' || 'a' <= KeyName(k)[i] <= 'z'
  {
  }

  /** Reads a timing key back from its wire spelling. */
  function ParseKey(s: string): (r: Option<TimingKey>)
    ensures r.Some? ==> KeyName(r.value) == s
    ensures r.None? ==> forall k: TimingKey :: KeyName(k) != s
  {
    if s == "Fajr" then Some(Fajr)
    else if s == "Sunrise" then Some(Sunrise)
    else if s == "Dhuhr" then Some(Dhuhr)
    else if s == "Asr" then Some(Asr)
    else if s == "Maghrib" then Some(Maghrib)
    else if s == "Isha" then Some(Isha)
    else if s == "Imsak" then Some(Imsak)
    else if s == "Iftar" then Some(Iftar)
    else None
  }

  /** Spelling a key and reading it back gives the key again. */
  lemma KeyNameRoundTrip(k: TimingKey)
    ensures ParseKey(KeyName(k)) == Some(k)
  {
  }

  /** A day's timing table as the timing service returns it: hour:minute
      strings, the two fasting marks optional. */
  datatype PrayerTimes = PrayerTimes(
    fajr: string, sunrise: string, dhuhr: string, asr: string,
    maghrib: string, isha: string,
    imsak: Option<string>, iftar: Option<string>)

  /** `timings[k]`: the entry of the table under key `k`, absent only for an
      optional key the table leaves out. */
  function Timing(t: PrayerTimes, k: TimingKey): (r: Option<string>)
    ensures r.None? ==> k == Imsak || k == Iftar
    ensures IsPrayerKey(k) ==> r.Some?
  {
    match k
    case Fajr => Some(t.fajr)
    case Sunrise => Some(t.sunrise)
    case Dhuhr => Some(t.dhuhr)
    case Asr => Some(t.asr)
    case Maghrib => Some(t.maghrib)
    case Isha => Some(t.isha)
    case Imsak => t.imsak
    case Iftar => t.iftar
  }

  /** The five performed-flags of a day, one per prayer name. */
  datatype Prayers = Prayers(fajr: bool, dhuhr: bool, asr: bool, maghrib: bool, isha: bool)

  /** One record of the progress history: an opaque calendar-day key and the
      day's five flags. */
  datatype DailyProgress = DailyProgress(date: string, prayers: Prayers)

  /** `prayers[n]`. */
  function Flag(p: Prayers, n: PrayerName): bool {
    match n
    case Fajr => p.fajr
    case Dhuhr => p.dhuhr
    case Asr => p.asr
    case Maghrib => p.maghrib
    case Isha => p.isha
  }

  /** `{ ...p, [n]: b }`: sets the flag of `n` and keeps the other four. */
  function SetFlag(p: Prayers, n: PrayerName, b: bool): (r: Prayers)
    ensures Flag(r, n) == b
    ensures forall m: PrayerName :: m != n ==> Flag(r, m) == Flag(p, m)
  {
    match n
    case Fajr => p.(fajr := b)
    case Dhuhr => p.(dhuhr := b)
    case Asr => p.(asr := b)
    case Maghrib => p.(maghrib := b)
    case Isha => p.(isha := b)
  }

  /** Two flag sets are the same value exactly when they agree on every
      prayer name: the five flags are all a record holds. */
  lemma FlagsDetermineRecord(p: Prayers, q: Prayers)
    ensures p == q <==> forall n: PrayerName :: Flag(p, n) == Flag(q, n)
  {
    if forall n: PrayerName :: Flag(p, n) == Flag(q, n) {
      assert Flag(p, Fajr) == Flag(q, Fajr);
      assert Flag(p, Dhuhr) == Flag(q, Dhuhr);
      assert Flag(p, Asr) == Flag(q, Asr);
      assert Flag(p, Maghrib) == Flag(q, Maghrib);
      assert Flag(p, Isha) == Flag(q, Isha);
    }
  }

  /** Every prayer of the day was performed. */
  predicate AllPerformed(p: Prayers) {
    forall n: PrayerName :: Flag(p, n)
  }

  /** No prayer of the day was performed. */
  predicate NonePerformed(p: Prayers) {
    forall n: PrayerName :: !Flag(p, n)
  }

  /** The two predicates field by field. */
  lemma PerformedByField(p: Prayers)
    ensures AllPerformed(p) <==> p.fajr && p.dhuhr && p.asr && p.maghrib && p.isha
    ensures NonePerformed(p) <==> !(p.fajr || p.dhuhr || p.asr || p.maghrib || p.isha)
  {
    assert Flag(p, Fajr) == p.fajr && Flag(p, Dhuhr) == p.dhuhr && Flag(p, Asr) == p.asr;
    assert Flag(p, Maghrib) == p.maghrib && Flag(p, Isha) == p.isha;
  }

  /** The flags of a day nobody has marked yet. */
  function NoPrayers(): (r: Prayers)
    ensures NonePerformed(r)
  {
    Prayers(false, false, false, false, false)
  }

  /** The closed set of recommendation kinds. */
  datatype RecommendationType = Dua | Verse | Habit | Quote

  /** The wire spelling of a recommendation kind. */
  function TypeTag(t: RecommendationType): string {
    match t
    case Dua => "dua"
    case Verse => "verse"
    case Habit => "habit"
    case Quote => "quote"
  }

  /** Reads a recommendation kind from its tag; anything outside the four
      declared tags is rejected. */
  function ParseTypeTag(s: string): (r: Option<RecommendationType>)
    ensures r.Some? <==> s in {"dua", "verse", "habit", "quote"}
    ensures r.Some? ==> TypeTag(r.value) == s
  {
    if s == "dua" then Some(Dua)
    else if s == "verse" then Some(Verse)
    else if s == "habit" then Some(Habit)
    else if s == "quote" then Some(Quote)
    else None
  }

  /** Spelling a kind and reading it back gives the kind again. */
  lemma TypeTagRoundTrip(t: RecommendationType)
    ensures ParseTypeTag(TypeTag(t)) == Some(t)
  {
  }

  /** One piece of guidance: kind, title, body and rationale are required;
      the original-language text, its translation and the citation are
      optional. */
  datatype AIRecommendation = AIRecommendation(
    kind: RecommendationType,
    title: string,
    content: string,
    arabic: Option<string>,
    translation: Option<string>,
    source: Option<string>,
    reasoning: string)

  /** The jurisprudential school: 0 for Shafi/Hanbali/Maliki, 1 for Hanafi. */
  type School = s: int | 0 <= s <= 1

  /** The persisted aggregate: settings plus the ordered progress history. */
  datatype UserProfile = UserProfile(
    name: string,
    calculationMethod: int,
    school: School,
    notificationsEnabled: bool,
    history: seq<DailyProgress>)
}
