/** The guidance fetcher of geminiService.ts, without the generative service
    itself: the summary of recent history that goes into the prompt, and the
    fallback that turns any failure into an empty list. */
module Guidance {
  import opened Wrappers
  import opened Types
  import opened Constants
  import opened JsArray
  import Tracker

  /** Prayer names listed in strictly increasing declaration order, i.e. in
      the key order of a progress record. */
  predicate InKeyOrder(ns: seq<PrayerName>) {
    forall i, j :: 0 <= i < j < |ns| ==> DeclarationIndex(ns[i]) < DeclarationIndex(ns[j])
  }

  /** Putting the head of an ordered list in front of an ordered selection
      from its tail keeps the order. */
  lemma PrependKeepsOrder(names: seq<PrayerName>, rest: seq<PrayerName>)
    requires |names| > 0
    requires forall n :: n in rest ==> n in names[1..]
    ensures InKeyOrder(names) && InKeyOrder(rest) ==> InKeyOrder([names[0]] + rest)
  {
    if InKeyOrder(names) && InKeyOrder(rest) {
      PrependOrdered(names, rest);
    }
  }

  lemma PrependOrdered(names: seq<PrayerName>, rest: seq<PrayerName>)
    requires |names| > 0 && InKeyOrder(names) && InKeyOrder(rest)
    requires forall n :: n in rest ==> n in names[1..]
    ensures InKeyOrder([names[0]] + rest)
  {
    forall k | 0 <= k < |rest|
      ensures DeclarationIndex(names[0]) < DeclarationIndex(rest[k])
    {
      assert rest[k] in names[1..];
      var m :| 0 <= m < |names[1..]| && names[1..][m] == rest[k];
      assert names[m + 1] == rest[k];
    }
  }

  /** The names of `names` whose flag is set in `p`, in the order of
      `names`. */
  function PerformedAmong(names: seq<PrayerName>, p: Prayers): (r: seq<PrayerName>)
    ensures forall n :: n in r <==> n in names && Flag(p, n)
    ensures InKeyOrder(names) ==> InKeyOrder(r)
  {
    if |names| == 0 then []
    else
      var rest := PerformedAmong(names[1..], p);
      assert forall n :: n in names <==> n == names[0] || n in names[1..] by {
        assert names == [names[0]] + names[1..];
      }
      if Flag(p, names[0]) then
        PrependKeepsOrder(names, rest);
        [names[0]] + rest
      else
        rest
  }

  /** `Object.entries(h.prayers).filter(([_, v]) => v).map(([k]) => k)`: the
      performed prayers in the record's key order, which is the canonical
      order. */
  function Completed(p: Prayers): (r: seq<PrayerName>)
    ensures forall n: PrayerName :: n in r <==> Flag(p, n)
    ensures InKeyOrder(r)
    ensures |r| == 0 <==> NonePerformed(p)
  {
    var r := PerformedAmong(PrayerNames(), p);
    assert |r| == 0 <==> NonePerformed(p) by {
      if |r| > 0 {
        assert r[0] in r;
      }
    }
    r
  }

  /** The chart's count of a record is the number of prayers the summary
      lists for it. */
  lemma CountIsCompletedLength(p: Prayers)
    ensures Tracker.CountTrue(p) == |Completed(p)|
  {
    var n0 := PrayerNames();
    var n1 := n0[1..];
    var n2 := n1[1..];
    var n3 := n2[1..];
    var n4 := n3[1..];
    assert n0[0] == Fajr && n1[0] == Dhuhr && n2[0] == Asr && n3[0] == Maghrib && n4[0] == Isha;
    assert n4[1..] == [];
    PerformedAmongStep(n0, p);
    PerformedAmongStep(n1, p);
    PerformedAmongStep(n2, p);
    PerformedAmongStep(n3, p);
    PerformedAmongStep(n4, p);
  }

  /** Each name contributes one entry when its flag is set and none
      otherwise. */
  lemma PerformedAmongStep(names: seq<PrayerName>, p: Prayers)
    requires |names| > 0
    ensures |PerformedAmong(names, p)| ==
            Tracker.BoolToNat(Flag(p, names[0])) + |PerformedAmong(names[1..], p)|
  {
  }

  /** The wire spellings of a list of names. */
  function NameStrings(ns: seq<PrayerName>): (r: seq<string>)
    ensures |r| == |ns|
    ensures forall i :: 0 <= i < |ns| ==> r[i] == KeyName(ns[i])
  {
    seq(|ns|, i requires 0 <= i < |ns| => KeyName(ns[i]))
  }

  /** The spelled names hold no punctuation, space or line break. */
  lemma NameStringsArePlain(ns: seq<PrayerName>)
    ensures forall i :: 0 <= i < |ns| ==>
              && '\n' !in NameStrings(ns)[i] && ':' !in NameStrings(ns)[i]
              && ',' !in NameStrings(ns)[i] && ' ' !in NameStrings(ns)[i]
  {
    forall i | 0 <= i < |ns|
      ensures && '\n' !in NameStrings(ns)[i] && ':' !in NameStrings(ns)[i]
              && ',' !in NameStrings(ns)[i] && ' ' !in NameStrings(ns)[i]
    {
      KeyNameIsWord(ns[i]);
    }
  }

  /** The spelled names joined by a comma and a space: empty only for no
      names, and free of line breaks and colons. */
  lemma JoinedNamesArePlain(ns: seq<PrayerName>)
    ensures |Join(NameStrings(ns), ", ")| == 0 <==> |ns| == 0
    ensures '\n' !in Join(NameStrings(ns), ", ") && ':' !in Join(NameStrings(ns), ", ")
  {
    var names := NameStrings(ns);
    NameStringsArePlain(ns);
    JoinAvoids(names, ", ", '\n');
    JoinAvoids(names, ", ", ':');
    if |names| > 0 {
      assert |Join(names, ", ")| >= |names[0]|;
      KeyNameIsWord(ns[0]);
    }
  }

  /** `completed || 'None'`: the performed names separated by a comma and a
      space, or the word None when no prayer was performed. */
  function LineBody(p: Prayers): (body: string)
    ensures NonePerformed(p) ==> body == "None"
    ensures '\n' !in body && ':' !in body
  {
    JoinedNamesArePlain(Completed(p));
    var completed := Join(NameStrings(Completed(p)), ", ");
    if completed == "" then "None" else completed
  }

  /** One summary line: `${h.date}: ${completed || 'None'}`. */
  function SummaryLine(d: DailyProgress): (line: string)
    ensures |line| > |d.date| + 2
    ensures line[..|d.date| + 2] == d.date + ": "
    ensures line[|d.date| + 2..] == LineBody(d.prayers)
    ensures '\n' !in d.date ==> '\n' !in line
  {
    d.date + ": " + LineBody(d.prayers)
  }

  /** Drops one leading space. */
  function DropSpace(s: string): string {
    if |s| > 0 && s[0] == ' ' then s[1..] else s
  }

  /** The names a line body lists: none for the word None, otherwise the
      comma-separated items without the space that follows each comma. */
  function Items(body: string): seq<string> {
    if body == "None" then []
    else
      var pieces := Split(body, ',');
      seq(|pieces|, i requires 0 <= i < |pieces| => if i == 0 then pieces[0] else DropSpace(pieces[i]))
  }

  /** Reads the five flags back from a line body. */
  function DecodeBody(body: string): Prayers {
    var items := Items(body);
    Prayers(KeyName(Fajr) in items, KeyName(Dhuhr) in items, KeyName(Asr) in items,
            KeyName(Maghrib) in items, KeyName(Isha) in items)
  }

  /** A name is listed exactly when it is among the names spelled. */
  lemma NameListed(ns: seq<PrayerName>, n: PrayerName)
    ensures KeyName(n) in NameStrings(ns) <==> n in ns
  {
    if KeyName(n) in NameStrings(ns) {
      var i :| 0 <= i < |ns| && NameStrings(ns)[i] == KeyName(n);
      KeyNameRoundTrip(n);
      KeyNameRoundTrip(ns[i]);
    }
    if n in ns {
      var i :| 0 <= i < |ns| && ns[i] == n;
      assert NameStrings(ns)[i] == KeyName(n);
    }
  }

  /** Joining plain words with a comma and a space and reading the items
      back gives the words. */
  lemma ItemsOfJoin(names: seq<string>)
    requires |names| > 0
    requires forall i :: 0 <= i < |names| ==> ',' !in names[i]
    requires Join(names, ", ") != "None"
    ensures Items(Join(names, ", ")) == names
  {
    SplitJoinCommaSpace(names);
    ItemsOfPieces(Join(names, ", "), names);
  }

  /** When a body splits at its commas into the words, each after the
      first preceded by a space, its items are the words. */
  lemma ItemsOfPieces(body: string, names: seq<string>)
    requires body != "None"
    requires |Split(body, ',')| == |names| > 0
    requires Split(body, ',')[0] == names[0]
    requires forall i :: 0 < i < |names| ==> Split(body, ',')[i] == " " + names[i]
    ensures Items(body) == names
  {
    var pieces := Split(body, ',');
    var items := Items(body);
    forall i | 0 < i < |names|
      ensures items[i] == names[i]
    {
      assert (" " + names[i])[1..] == names[i];
    }
  }

  /** A list of one or more prayer names never reads as the word None. */
  lemma JoinedNamesAreNotNone(ns: seq<PrayerName>)
    requires |ns| > 0
    ensures Join(NameStrings(ns), ", ") != "None"
  {
    var names := NameStrings(ns);
    var body := Join(names, ", ");
    if |names| == 1 {
      KeyNameRoundTrip(ns[0]);
      assert ParseKey("None") == None;
    } else {
      assert body[..|names[0]| + 2] == names[0] + ", ";
      assert body[|names[0]|] == ',';
    }
  }

  /** The items of a line body are exactly the performed prayers, spelled
      out in key order. */
  lemma LineBodyListsPerformed(p: Prayers)
    ensures Items(LineBody(p)) == NameStrings(Completed(p))
    ensures |Completed(p)| > 0 ==>
      |Split(LineBody(p), ',')| == |Completed(p)| &&
      Split(LineBody(p), ',')[0] == KeyName(Completed(p)[0]) &&
      forall i :: 0 < i < |Completed(p)| ==> Split(LineBody(p), ',')[i] == " " + KeyName(Completed(p)[i])
  {
    var names := NameStrings(Completed(p));
    if |names| > 0 {
      NameStringsArePlain(Completed(p));
      JoinedNamesAreNotNone(Completed(p));
      assert |Join(names, ", ")| > 0;
      assert LineBody(p) == Join(names, ", ");
      SplitJoinCommaSpace(names);
      ItemsOfJoin(names);
    }
  }

  /** A body whose items spell `ns` decodes to the flags of membership in
      `ns`. */
  lemma DecodeSpelledItems(body: string, ns: seq<PrayerName>)
    requires Items(body) == NameStrings(ns)
    ensures DecodeBody(body) == Prayers(Fajr in ns, Dhuhr in ns, Asr in ns, Maghrib in ns, Isha in ns)
  {
    NameListed(ns, Fajr);
    NameListed(ns, Dhuhr);
    NameListed(ns, Asr);
    NameListed(ns, Maghrib);
    NameListed(ns, Isha);
  }

  /** Membership in the completed list gives back every flag. */
  lemma CompletedGivesFlags(p: Prayers)
    ensures Prayers(Fajr in Completed(p), Dhuhr in Completed(p), Asr in Completed(p),
                    Maghrib in Completed(p), Isha in Completed(p)) == p
  {
    var done := Completed(p);
    assert Flag(p, Fajr) == (Fajr in done) && Flag(p, Dhuhr) == (Dhuhr in done);
    assert Flag(p, Asr) == (Asr in done) && Flag(p, Maghrib) == (Maghrib in done);
    assert Flag(p, Isha) == (Isha in done);
  }

  /** A line body loses nothing: reading it back gives the record's flags. */
  lemma LineBodyRoundTrip(p: Prayers)
    ensures DecodeBody(LineBody(p)) == p
  {
    LineBodyListsPerformed(p);
    DecodeSpelledItems(LineBody(p), Completed(p));
    CompletedGivesFlags(p);
  }

  /** Reads a record back from a summary line: the day key up to the first
      colon, then a space, then the body. */
  function DecodeLine(line: string): Option<DailyProgress> {
    if ':' !in line then None
    else
      var i := IndexOf(line, ':');
      if i + 1 < |line| && line[i + 1] == ' '
      then Some(DailyProgress(line[..i], DecodeBody(line[i + 2..])))
      else None
  }

  /** A summary line of a record whose day key holds no colon reads back as
      that record. */
  lemma SummaryLineRoundTrip(d: DailyProgress)
    requires ':' !in d.date
    ensures DecodeLine(SummaryLine(d)) == Some(d)
  {
    DecodeLineSplitsAtKey(d.date, LineBody(d.prayers));
    LineBodyRoundTrip(d.prayers);
  }

  /** A line made of a colon-free key, ": " and a body reads back as that
      key with the body's flags. */
  lemma DecodeLineSplitsAtKey(date: string, body: string)
    requires ':' !in date
    ensures DecodeLine(date + ": " + body) == Some(DailyProgress(date, DecodeBody(body)))
  {
    var line := date + ": " + body;
    var k := |date|;
    assert line[k] == ':' && line[k + 1] == ' ';
    assert line[..k] == date;
    assert IndexOf(line, ':') == k;
    assert line[k + 2..] == body;
  }

  /** The summary lines of `days`, in order. */
  function Lines(days: seq<DailyProgress>): (lines: seq<string>)
    ensures |lines| == |days|
    ensures forall i :: 0 <= i < |days| ==> lines[i] == SummaryLine(days[i])
  {
    seq(|days|, i requires 0 <= i < |days| => SummaryLine(days[i]))
  }

  /** The `recentHistory` block of the prompt: one line for each of the last
      three records, oldest first, joined by newlines. */
  function Summary(history: seq<DailyProgress>): (s: string)
    ensures s == "" <==> |history| == 0
  {
    var lines := Lines(SliceLast(history, 3));
    assert |lines| > 0 ==> |Join(lines, "\n")| > 0 by {
      if |lines| > 0 {
        assert |Join(lines, "\n")| >= |lines[0]|;
      }
    }
    Join(lines, "\n")
  }

  /** When no day key contains a line break, the summary splits back into
      exactly the lines of the last three records, so it holds
      `min(3, |history|)` lines in history order. */
  lemma SummarySplitsIntoRecentLines(history: seq<DailyProgress>)
    requires |history| > 0
    requires forall i :: 0 <= i < |history| ==> '\n' !in history[i].date
    ensures Split(Summary(history), '\n') == Lines(SliceLast(history, 3))
    ensures |Split(Summary(history), '\n')| == Min(3, |history|)
  {
    var recent := SliceLast(history, 3);
    var lines := Lines(recent);
    forall i | 0 <= i < |lines|
      ensures '\n' !in lines[i]
    {
      assert recent[i] == history[|history| - |recent| + i];
    }
    SplitJoin(lines, '\n');
  }

  /** No day key holds a colon or a line break; the keys the application
      writes, such as "Fri Oct 09 2026", hold neither. */
  predicate PlainDayKeys(history: seq<DailyProgress>) {
    forall i :: 0 <= i < |history| ==> ':' !in history[i].date && '\n' !in history[i].date
  }

  /** Reads every line back, failing if any line does not decode. */
  function DecodeLines(lines: seq<string>): Option<seq<DailyProgress>> {
    MapAll(DecodeLine, lines)
  }

  /** Reads the records back from a summary; the empty text is the summary
      of no records. */
  function DecodeSummary(s: string): Option<seq<DailyProgress>> {
    if s == "" then Some([]) else DecodeLines(Split(s, '\n'))
  }

  /** The summary is lossless for the last three records and says nothing
      about older ones: when no day key holds a colon or a line break,
      reading the summary back gives exactly the last three records, oldest
      first (all of them when there are fewer). */
  lemma SummaryRoundTrip(history: seq<DailyProgress>)
    ensures PlainDayKeys(history) ==> DecodeSummary(Summary(history)) == Some(SliceLast(history, 3))
  {
    var recent := SliceLast(history, 3);
    if PlainDayKeys(history) && |history| > 0 {
      SummarySplitsIntoRecentLines(history);
      var lines := Lines(recent);
      forall i | 0 <= i < |lines|
        ensures DecodeLine(lines[i]) == Some(recent[i])
      {
        assert recent[i] == history[|history| - |recent| + i];
        SummaryLineRoundTrip(recent[i]);
      }
      MapAllSucceeds(DecodeLine, lines, recent);
      assert Summary(history) != "";
      assert DecodeSummary(Summary(history)) == DecodeLines(Lines(recent));
    }
  }

  /** What the generative service sees: the user's name, the current prayer
      phase and the history summary. The surrounding instruction text is
      fixed. */
  datatype Prompt = Prompt(userName: string, currentPrayer: string, recentHistory: string)

  /** The outcome of the request: a failure of any kind (transport, quota,
      unparsable reply), or the parsed list of recommendations. */
  datatype Reply = Failed | Parsed(recommendations: seq<AIRecommendation>)

  /** The prompt of `getPersonalizedGuidance`: the name and phase as given,
      and a history block from which exactly the last three records can be
      read back. */
  function BuildPrompt(history: seq<DailyProgress>, currentPrayer: string, userName: string): (p: Prompt)
    ensures p.userName == userName && p.currentPrayer == currentPrayer
    ensures p.recentHistory == "" <==> |history| == 0
    ensures PlainDayKeys(history) ==> DecodeSummary(p.recentHistory) == Some(SliceLast(history, 3))
  {
    SummaryRoundTrip(history);
    Prompt(userName, currentPrayer, Summary(history))
  }

  /** `getPersonalizedGuidance`: asks `service` with the prompt built from
      the history and returns its recommendations; any failure is caught
      and becomes the empty list, so the caller never sees an error. */
  function GetPersonalizedGuidance(
    history: seq<DailyProgress>, currentPrayer: string, userName: string,
    service: Prompt -> Reply): (r: seq<AIRecommendation>)
    ensures service(BuildPrompt(history, currentPrayer, userName)).Failed? ==> r == []
    ensures service(BuildPrompt(history, currentPrayer, userName)).Parsed? ==>
              r == service(BuildPrompt(history, currentPrayer, userName)).recommendations
  {
    match service(BuildPrompt(history, currentPrayer, userName))
    case Failed => []
    case Parsed(recs) => recs
  }

  /** Records older than the last three never reach the service. */
  lemma GuidanceSeesOnlyLastThree(
    h1: seq<DailyProgress>, h2: seq<DailyProgress>, currentPrayer: string, userName: string,
    service: Prompt -> Reply)
    requires SliceLast(h1, 3) == SliceLast(h2, 3)
    ensures GetPersonalizedGuidance(h1, currentPrayer, userName, service) ==
            GetPersonalizedGuidance(h2, currentPrayer, userName, service)
  {
  }
}
