/** One tick of the countdown session: choose the next prayer, render the time
    left until it, and highlight its card. */
module Scheduler {
  import opened Decimal
  import opened Clock
  import opened Schedule
  import opened Countdown
  import opened Highlight

  /** What one tick publishes: the next prayer's name, the `HH:MM:SS` text and
      the cards after highlighting. */
  datatype Display = Display(prayerName: string, countdown: string, cards: seq<Card>)

  /** The remaining time is strictly positive and at most one day, so its hours
      never exceed twenty-four. */
  lemma RemainingWithinADay(j: Jadwal, now: int)
    requires j.Valid() && IsMoment(now)
    ensures var c := Decompose(NextPrayer(j, now).at - now);
      c.Normal() && c.hours <= 24
  {
    var diff := NextPrayer(j, now).at - now;
    var c := Decompose(diff);
    assert c.Millis() == c.hours * 3600000 + c.minutes * 60000 + c.seconds * 1000;
    assert c.hours * 3600000 <= diff <= 86400000;
  }

  /** One tick at moment `now`. The countdown text is eight characters whose
      fields read back as the decomposition of the strictly positive time left,
      and exactly the cards named for the chosen prayer carry the highlight. */
  function Tick(j: Jadwal, now: int, cards: seq<Card>): (d: Display)
    requires j.Valid() && IsMoment(now)
    ensures d.prayerName == NextPrayer(j, now).name
    ensures NextPrayer(j, now).at - now > 0
    ensures d.countdown == CountdownText(NextPrayer(j, now).at - now)
    ensures var c := Decompose(NextPrayer(j, now).at - now);
      && c.Normal() && c.hours <= 24
      && |d.countdown| == 8 && d.countdown[2] == ':' && d.countdown[5] == ':'
      && AllDigits(d.countdown[..2]) && Value(d.countdown[..2]) == c.hours
      && AllDigits(d.countdown[3..5]) && Value(d.countdown[3..5]) == c.minutes
      && AllDigits(d.countdown[6..]) && Value(d.countdown[6..]) == c.seconds
    ensures |d.cards| == |cards|
    ensures forall i :: 0 <= i < |cards| ==>
      (d.cards[i].Highlighted() <==> Matches(cards[i], d.prayerName))
  {
    var next := NextPrayer(j, now);
    var c := Decompose(next.at - now);
    RemainingWithinADay(j, now);
    RenderReadsBack(c);
    Display(next.name, Render(c), HighlightCards(cards, next.name))
  }

  /** The schedule 04:30, 12:00, 15:15, 18:00, 19:15. */
  function SampleJadwal(): Jadwal {
    Jadwal(TimeOfDay(4, 30), TimeOfDay(12, 0), TimeOfDay(15, 15), TimeOfDay(18, 0), TimeOfDay(19, 15))
  }

  /** The moment `h:m:s` after midnight. */
  function At(h: nat, m: nat, s: nat): int {
    Span(h, m, s).Millis()
  }

  lemma SampleSelection(now: int, i: nat)
    requires IsMoment(now) && i < 5 && FirstUpcoming(Entries(SampleJadwal()), now, i)
    ensures NextPrayer(SampleJadwal(), now) == Target(Entries(SampleJadwal())[i].name, TodayAt(Entries(SampleJadwal())[i].time))
  {
    var ps := Entries(SampleJadwal());
    assert WellTimed(ps);
    var t := SelectNext(ps, now);
    var k :| FirstUpcoming(ps, now, k) && t == Target(ps[k].name, TodayAt(ps[k].time));
    FirstUpcomingUnique(ps, now, k, i);
  }

  lemma SmallFields()
    ensures Field(0) == "00" && Field(1) == "01" && Field(9) == "09"
    ensures Field(14) == "14" && Field(59) == "59"
  {
    ShowTwoDigits(1, 4);
    ShowTwoDigits(5, 9);
  }

  /** Between Ashar (15:15) and Maghrib (18:00) the next prayer is Maghrib. */
  lemma MaghribIsNext(now: int)
    requires At(15, 15, 0) <= now < At(18, 0, 0)
    ensures NextPrayer(SampleJadwal(), now) == Target("Maghrib", 64800000)
  {
    var ps := Entries(SampleJadwal());
    assert TodayAt(ps[3].time) == 64800000;
    assert forall k :: 0 <= k < 3 ==> TodayAt(ps[k].time) <= now;
    assert FirstUpcoming(ps, now, 3);
    SampleSelection(now, 3);
  }

  lemma RenderSamples()
    ensures Render(Span(0, 0, 1)) == "00:00:01"
    ensures Render(Span(9, 14, 59)) == "09:14:59"
  {
    SmallFields();
  }

  /** What a tick shows, given the next prayer and the span left until it. */
  lemma TickShows(j: Jadwal, now: int, c: Span)
    requires j.Valid() && IsMoment(now) && Decompose(NextPrayer(j, now).at - now) == c
    ensures Tick(j, now, []).prayerName == NextPrayer(j, now).name
    ensures Tick(j, now, []).countdown == Render(c)
  {
  }

  /** One second before Maghrib the countdown shows Maghrib and "00:00:01". */
  lemma OneSecondBeforeMaghrib()
    ensures Tick(SampleJadwal(), At(17, 59, 59), []).prayerName == "Maghrib"
    ensures Tick(SampleJadwal(), At(17, 59, 59), []).countdown == "00:00:01"
  {
    var now := At(17, 59, 59);
    assert now == 64799000;
    MaghribIsNext(now);
    var c := Span(0, 0, 1);
    assert c.Millis() + 0 == 1000;
    DecomposeMillis(c, 0);
    TickShows(SampleJadwal(), now, c);
    RenderSamples();
  }

  /** From Isya (19:15) to midnight the next prayer is the following date's Subuh. */
  lemma SubuhTomorrowAfterIsya(now: int)
    requires At(19, 15, 0) <= now < MsPerDay
    ensures NextPrayer(SampleJadwal(), now) == Target("Subuh", MsPerDay + 16200000)
  {
    var ps := Entries(SampleJadwal());
    assert forall k :: 0 <= k < 5 ==> TodayAt(ps[k].time) <= At(19, 15, 0);
    assert AllPassed(ps, now);
  }

  /** One second after Isya the countdown wraps to Subuh on the following date:
      four hours, forty-four minutes and fifty-nine seconds to midnight plus
      four and a half hours, "09:14:59". */
  lemma JustAfterIsya()
    ensures Tick(SampleJadwal(), At(19, 15, 1), []).prayerName == "Subuh"
    ensures Tick(SampleJadwal(), At(19, 15, 1), []).countdown == "09:14:59"
  {
    var now := At(19, 15, 1);
    assert now == 69301000;
    SubuhTomorrowAfterIsya(now);
    var c := Span(9, 14, 59);
    assert c.Millis() + 0 == 33299000 == MsPerDay + 16200000 - 69301000;
    DecomposeMillis(c, 0);
    TickShows(SampleJadwal(), now, c);
    RenderSamples();
  }

  /** The tick as written: the next prayer is chosen at moment `now`, but the
      countdown subtracts a second reading of the clock, `later`, taken after
      the choice. Everything but the countdown text is as in `Tick`. */
  function TickAsWritten(j: Jadwal, now: int, later: int, cards: seq<Card>): (d: Display)
    requires j.Valid() && IsMoment(now)
    ensures d.prayerName == NextPrayer(j, now).name
    ensures |d.cards| == |cards|
    ensures forall i :: 0 <= i < |cards| ==>
      (d.cards[i].Highlighted() <==> Matches(cards[i], d.prayerName))
  {
    var next := NextPrayer(j, now);
    Display(next.name, CountdownText(next.at - later), HighlightCards(cards, next.name))
  }

  /** When the clock passes Maghrib between the two readings, the tick as
      written shows a negative countdown in every field. */
  lemma StaleReadingShowsNegative()
    ensures TickAsWritten(SampleJadwal(), 64799999, 64800001, []).countdown == "-1:-1:-1"
  {
    MaghribIsNext(64799999);
    MinusOneMillisecond();
  }

  /** One millisecond past the target, every field of the countdown is minus one. */
  lemma MinusOneMillisecond()
    ensures CountdownText(-1) == "-1:-1:-1"
  {
    assert JsRem(-1, MsPerHour) == -1 && JsRem(-1, MsPerMinute) == -1;
    assert FloorDiv(-1, MsPerHour) == -1 && FloorDiv(-1, MsPerMinute) == -1 && FloorDiv(-1, MsPerSecond) == -1;
    assert Decompose(-1) == Span(-1, -1, -1);
    assert Field(-1) == "-1";
  }

  /** With a single reading of the clock the tick as written is `Tick`. */
  lemma AsWrittenWithOneReading(j: Jadwal, now: int, cards: seq<Card>)
    requires j.Valid() && IsMoment(now)
    ensures TickAsWritten(j, now, now, cards) == Tick(j, now, cards)
  {
  }
}
