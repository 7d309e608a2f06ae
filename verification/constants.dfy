/** The fixed tables of the application: the canonical list of prayer names
    and the calculation methods offered to the user. */
module Constants {
  import opened Types

  /** The five prayer names in canonical order. Every scan over "the
      prayers of a day" walks this list. */
  function PrayerNames(): (r: seq<PrayerName>)
    ensures |r| == 5
    ensures forall n: PrayerName :: n in r
    ensures forall i, j :: 0 <= i < j < |r| ==> DeclarationIndex(r[i]) < DeclarationIndex(r[j])
    ensures r[0] == Fajr
  {
    [Fajr, Dhuhr, Asr, Maghrib, Isha]
  }

  /** No name appears twice in the canonical list, and the timing marks that
      are not prayers (sunrise and the two fasting marks) do not appear. */
  lemma PrayerNamesDistinct()
    ensures forall i, j :: 0 <= i < j < |PrayerNames()| ==> PrayerNames()[i] != PrayerNames()[j]
    ensures forall i :: 0 <= i < |PrayerNames()| ==>
              KeyName(PrayerNames()[i]) !in {"Sunrise", "Imsak", "Iftar"}
  {
  }

  /** A calculation method the timing service understands. */
  datatype PrayerMethod = PrayerMethod(id: int, name: string)

  /** The methods offered in the settings, in display order. */
  function PrayerMethods(): (r: seq<PrayerMethod>)
    ensures |r| == 10
    ensures forall i, j :: 0 <= i < j < |r| ==> r[i].id != r[j].id
  {
    [ PrayerMethod(2, "ISNA (North America)"),
      PrayerMethod(3, "Muslim World League"),
      PrayerMethod(4, "Umm al-Qura (Makkah)"),
      PrayerMethod(5, "Egyptian General Authority"),
      PrayerMethod(1, "University of Islamic Sciences, Karachi"),
      PrayerMethod(8, "Gulf Region"),
      PrayerMethod(9, "Kuwait"),
      PrayerMethod(10, "Qatar"),
      PrayerMethod(11, "Majlis Ugama Islam Singapura"),
      PrayerMethod(12, "Union des Organisations Islamiques de France") ]
  }

  /** Whether `id` names one of the offered methods. */
  predicate IsKnownMethod(id: int) {
    exists i :: 0 <= i < |PrayerMethods()| && PrayerMethods()[i].id == id
  }
}
