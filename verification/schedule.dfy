/** Choosing the next prayer: the first of today's five entries, in their fixed
    daily order, that is strictly later than now; after the last one has passed,
    the first entry again on the following date. */
module Schedule {
  import opened Wrappers
  import opened Clock

  /** One `{ name, time }` element of the list built before each countdown session. */
  datatype Prayer = Prayer(name: string, time: TimeOfDay)

  /** The day's `jadwal` object: one time of day per named prayer. */
  datatype Jadwal = Jadwal(
    subuh: TimeOfDay,
    dzuhur: TimeOfDay,
    ashar: TimeOfDay,
    maghrib: TimeOfDay,
    isya: TimeOfDay)
  {
    predicate Valid() {
      subuh.Valid() && dzuhur.Valid() && ashar.Valid() && maghrib.Valid() && isya.Valid()
    }
  }

  /** The next prayer and the moment it falls at, in milliseconds from today's midnight. */
  datatype Target = Target(name: string, at: int)

  /** The display names in the fixed daily order. */
  const DailyOrder: seq<string> := ["Subuh", "Dzuhur", "Ashar", "Maghrib", "Isya"]

  /** The five entries of a day's schedule, named in the daily order, each
      paired with its own time: no name twice, and every time valid exactly
      when the schedule is. */
  function Entries(j: Jadwal): (ps: seq<Prayer>)
    ensures |ps| == |DailyOrder| && forall i :: 0 <= i < |ps| ==> ps[i].name == DailyOrder[i]
    ensures ps[0].time == j.subuh && ps[1].time == j.dzuhur && ps[2].time == j.ashar
      && ps[3].time == j.maghrib && ps[4].time == j.isya
    ensures forall i, k :: 0 <= i < k < |ps| ==> ps[i].name != ps[k].name
    ensures WellTimed(ps) <==> j.Valid()
  {
    var ps := [
      Prayer("Subuh", j.subuh),
      Prayer("Dzuhur", j.dzuhur),
      Prayer("Ashar", j.ashar),
      Prayer("Maghrib", j.maghrib),
      Prayer("Isya", j.isya) ];
    assert WellTimed(ps) ==>
      ps[0].time.Valid() && ps[1].time.Valid() && ps[2].time.Valid()
      && ps[3].time.Valid() && ps[4].time.Valid();
    ps
  }

  predicate WellTimed(ps: seq<Prayer>) {
    forall i :: 0 <= i < |ps| ==> ps[i].time.Valid()
  }

  /** The entry's moment today lies strictly after `now`. */
  predicate Upcoming(p: Prayer, now: int) {
    p.time.Valid() && now < TodayAt(p.time)
  }

  /** Entry `i` is the first upcoming one. */
  predicate FirstUpcoming(ps: seq<Prayer>, now: int, i: int) {
    && 0 <= i < |ps|
    && Upcoming(ps[i], now)
    && forall k :: 0 <= k < i ==> !Upcoming(ps[k], now)
  }

  /** Every entry has passed: the time for today is at or before `now`. */
  predicate AllPassed(ps: seq<Prayer>, now: int) {
    forall k :: 0 <= k < |ps| ==> !Upcoming(ps[k], now)
  }

  /** The index of the first upcoming entry at or after `from`, if any. */
  function FirstUpcomingFrom(ps: seq<Prayer>, now: int, from: nat): (r: Option<nat>)
    requires from <= |ps|
    ensures r.Some? ==> from <= r.value < |ps| && Upcoming(ps[r.value], now)
    ensures r.Some? ==> forall k :: from <= k < r.value ==> !Upcoming(ps[k], now)
    ensures r.None? ==> forall k :: from <= k < |ps| ==> !Upcoming(ps[k], now)
    decreases |ps| - from
  {
    if from == |ps| then None
    else if Upcoming(ps[from], now) then Some(from)
    else FirstUpcomingFrom(ps, now, from + 1)
  }

  /** There is at most one first upcoming entry. */
  lemma FirstUpcomingUnique(ps: seq<Prayer>, now: int, i: int, j: int)
    requires FirstUpcoming(ps, now, i) && FirstUpcoming(ps, now, j)
    ensures i == j
  {
  }

  /** The next prayer from a non-empty, well-timed list of entries: the first
      upcoming entry at its moment today, or else the first entry at its time
      of day on the following date. */
  function SelectNext(ps: seq<Prayer>, now: int): (t: Target)
    requires |ps| > 0 && WellTimed(ps) && IsMoment(now)
    ensures now < t.at <= now + MsPerDay
    ensures !AllPassed(ps, now) ==>
      exists i :: FirstUpcoming(ps, now, i) && t == Target(ps[i].name, TodayAt(ps[i].time))
    ensures AllPassed(ps, now) ==> t == Target(ps[0].name, TomorrowAt(ps[0].time))
  {
    match FirstUpcomingFrom(ps, now, 0)
    case Some(i) => Target(ps[i].name, TodayAt(ps[i].time))
    case None =>
      assert !Upcoming(ps[0], now);
      Target(ps[0].name, TomorrowAt(ps[0].time))
  }

  /** The position in the list of the entry `SelectNext` chose. */
  function SelectedIndex(ps: seq<Prayer>, now: int): (i: nat)
    requires |ps| > 0 && WellTimed(ps) && IsMoment(now)
    ensures i < |ps| && SelectNext(ps, now).name == ps[i].name
    ensures !AllPassed(ps, now) ==> FirstUpcoming(ps, now, i)
    ensures AllPassed(ps, now) ==> i == 0
  {
    match FirstUpcomingFrom(ps, now, 0)
    case Some(i) => i
    case None => 0
  }

  /** The chosen name is always the name of one of the entries. */
  lemma SelectedIsListed(ps: seq<Prayer>, now: int)
    requires |ps| > 0 && WellTimed(ps) && IsMoment(now)
    ensures exists i :: 0 <= i < |ps| && SelectNext(ps, now).name == ps[i].name
  {
    var i := SelectedIndex(ps, now);
  }

  /** The selection as the source performs it: a `for … of` scan that breaks
      at the first upcoming entry, then the wrap to the following date when the
      scan found nothing. */
  method ScanForNext(ps: seq<Prayer>, now: int) returns (t: Target)
    requires |ps| > 0 && WellTimed(ps) && IsMoment(now)
    ensures t == SelectNext(ps, now)
  {
    var next: Option<Target> := None;
    var i := 0;
    while i < |ps|
      invariant 0 <= i <= |ps|
      invariant next == None
      invariant forall k :: 0 <= k < i ==> !Upcoming(ps[k], now)
    {
      var prayerTime := TodayAt(ps[i].time);
      if prayerTime > now {
        next := Some(Target(ps[i].name, prayerTime));
        break;
      }
      i := i + 1;
    }
    if next.None? {
      next := Some(Target(ps[0].name, TomorrowAt(ps[0].time)));
      assert AllPassed(ps, now);
    } else {
      var s := SelectNext(ps, now);
      var j :| FirstUpcoming(ps, now, j) && s == Target(ps[j].name, TodayAt(ps[j].time));
      FirstUpcomingUnique(ps, now, i, j);
    }
    t := next.value;
  }

  /** The next prayer of a day's schedule. Its name is one of the five, and
      after Isya it is Subuh at Subuh's time of day on the following date. */
  function NextPrayer(j: Jadwal, now: int): (t: Target)
    requires j.Valid() && IsMoment(now)
    ensures now < t.at <= now + MsPerDay
    ensures t.name in DailyOrder
    ensures AllPassed(Entries(j), now) ==> t == Target("Subuh", TomorrowAt(j.subuh))
    ensures now < TodayAt(j.subuh) ==> t == Target("Subuh", TodayAt(j.subuh))
    ensures !AllPassed(Entries(j), now) ==>
      exists i :: FirstUpcoming(Entries(j), now, i)
        && t == Target(Entries(j)[i].name, TodayAt(Entries(j)[i].time))
  {
    var ps := Entries(j);
    assert WellTimed(ps);
    SelectedIsListed(ps, now);
    if now < TodayAt(j.subuh) then
      FirstUpcomingUnique(ps, now, SelectedIndex(ps, now), 0);
      SelectNext(ps, now)
    else
      SelectNext(ps, now)
  }

  /** The entries fall at strictly increasing moments of the day, as the five
      prayers of a real schedule do. */
  predicate Chronological(ps: seq<Prayer>)
    requires WellTimed(ps)
  {
    forall i, k :: 0 <= i < k < |ps| ==> TodayAt(ps[i].time) < TodayAt(ps[k].time)
  }

  /** On a chronological schedule the choice is by interval: the next prayer
      today is the entry whose predecessor has passed and which has not, and the
      wrap to tomorrow happens exactly when now is at or after the last entry. */
  lemma ChronologicalSelection(ps: seq<Prayer>, now: int)
    requires |ps| > 0 && WellTimed(ps) && Chronological(ps) && IsMoment(now)
    ensures AllPassed(ps, now) <==> TodayAt(ps[|ps| - 1].time) <= now
    ensures forall i :: 0 <= i < |ps| ==>
      (FirstUpcoming(ps, now, i) <==>
        (i == 0 || TodayAt(ps[i - 1].time) <= now) && now < TodayAt(ps[i].time))
  {
    var last := |ps| - 1;
    if TodayAt(ps[last].time) <= now {
      forall k | 0 <= k < |ps|
        ensures !Upcoming(ps[k], now)
      {
        if k < last {
          assert TodayAt(ps[k].time) < TodayAt(ps[last].time);
        }
      }
    }
    forall i | 0 <= i < |ps| && (i == 0 || TodayAt(ps[i - 1].time) <= now) && now < TodayAt(ps[i].time)
      ensures FirstUpcoming(ps, now, i)
    {
      forall k | 0 <= k < i
        ensures !Upcoming(ps[k], now)
      {
        if k < i - 1 {
          assert TodayAt(ps[k].time) < TodayAt(ps[i - 1].time);
        }
      }
    }
    forall i | FirstUpcoming(ps, now, i) && i > 0
      ensures TodayAt(ps[i - 1].time) <= now
    {
      assert !Upcoming(ps[i - 1], now);
    }
  }
}
