/** The request path of a day's schedule: the city identifier and today's date,
    the month and day each padded to two digits. */
module Fetcher {
  import opened Decimal

  /** The local date as `getFullYear()`, `getMonth()` (counted from zero) and `getDate()`. */
  datatype CalendarDate = CalendarDate(year: int, monthIndex: int, day: int) {
    predicate Valid() {
      0 <= monthIndex < 12 && 1 <= day <= 31
    }
  }

  /** `${year}/${month}/${day}`. The year is printed as is; the month
      (`getMonth() + 1`) and the day each take exactly two digits, so they can
      be read back from the last five characters: the month text lies between
      "01" and "12" and the day text between "01" and "31". */
  function DatePath(d: CalendarDate): (p: string)
    requires d.Valid()
    ensures var y := JsString(d.year);
      && |p| == |y| + 6
      && p[..|y|] == y && p[|y|] == '/' && p[|y| + 3] == '/'
    ensures var mm := p[|p| - 5..|p| - 3];
      AllDigits(mm) && Value(mm) == d.monthIndex + 1
    ensures var dd := p[|p| - 2..];
      AllDigits(dd) && Value(dd) == d.day
  {
    var y, mm, dd := JsString(d.year), Field(d.monthIndex + 1), Field(d.day);
    FieldOfNat(d.monthIndex + 1);
    FieldOfNat(d.day);
    DateParts(y, mm, dd);
    y + "/" + mm + "/" + dd
  }

  lemma DateParts(y: string, mm: string, dd: string)
    requires |mm| == 2 && |dd| == 2
    ensures var p := y + "/" + mm + "/" + dd;
      && |p| == |y| + 6
      && p[..|y|] == y && p[|y|] == '/' && p[|y| + 3] == '/'
      && p[|p| - 5..|p| - 3] == mm && p[|p| - 2..] == dd
  {
  }

  /** The schedule request path below the service's base address: the fixed
      prefix, the city identifier, a slash, then the date path. */
  function SchedulePath(cityId: string, d: CalendarDate): (p: string)
    requires d.Valid()
    ensures var n := |"/sholat/jadwal/"|;
      && |p| == n + |cityId| + 1 + |DatePath(d)|
      && p[..n] == "/sholat/jadwal/" && p[n..n + |cityId|] == cityId
      && p[n + |cityId|] == '/' && p[n + |cityId| + 1..] == DatePath(d)
  {
    var date := DatePath(d);
    PathParts("/sholat/jadwal/", cityId, date);
    "/sholat/jadwal/" + cityId + "/" + date
  }

  lemma PathParts(prefix: string, id: string, date: string)
    ensures var p := prefix + id + "/" + date;
      && |p| == |prefix| + |id| + 1 + |date|
      && p[..|prefix|] == prefix && p[|prefix|..|prefix| + |id|] == id
      && p[|prefix| + |id|] == '/' && p[|prefix| + |id| + 1..] == date
  {
  }
}
