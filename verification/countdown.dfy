/** The countdown text: a millisecond difference split into hours, minutes and
    seconds with `Math.floor` and JavaScript's `%`, each field padded to two
    characters and joined with colons. */
module Countdown {
  import opened Decimal
  import opened Clock

  /** The quotient rounded toward zero, as the remainder below pairs with. */
  function TruncDiv(a: int, b: int): int
    requires b > 0
  {
    if a >= 0 then a / b else -((-a) / b)
  }

  /** JavaScript's `a % b` for a positive divisor: the remainder takes the sign
      of the dividend (truncating division), unlike Dafny's `%`. */
  function JsRem(a: int, b: int): (r: int)
    requires b > 0
    ensures a == TruncDiv(a, b) * b + r
    ensures a >= 0 ==> 0 <= r < b
    ensures a < 0 ==> -b < r <= 0
  {
    if a >= 0 then a % b
    else
      var q := (-a) / b;
      assert -a == q * b + (-a) % b;
      assert (-q) * b == -(q * b);
      -((-a) % b)
  }

  /** `Math.floor(a / b)` for a positive divisor: the greatest `q` with `q * b <= a`. */
  function FloorDiv(a: int, b: int): (q: int)
    requires b > 0
    ensures q * b <= a < q * b + b
  {
    a / b
  }

  datatype Span = Span(hours: int, minutes: int, seconds: int) {
    /** The milliseconds the three fields account for. */
    function Millis(): int {
      hours * MsPerHour + minutes * MsPerMinute + seconds * MsPerSecond
    }

    /** The fields of a non-negative span in their usual ranges. */
    predicate Normal() {
      hours >= 0 && 0 <= minutes < 60 && 0 <= seconds < 60
    }
  }

  lemma FloorOfRem(diff: int)
    requires diff >= 0
    ensures FloorDiv(JsRem(diff, MsPerHour), MsPerMinute) == diff % MsPerHour / MsPerMinute
    ensures FloorDiv(JsRem(diff, MsPerMinute), MsPerSecond) == diff % MsPerMinute / MsPerSecond
  {
  }

  /** The whole hours, minutes and seconds of a millisecond difference. For a
      non-negative difference the fields are in range and account for it up to
      the dropped milliseconds; for a negative one every field is at or below
      zero. */
  function Decompose(diff: int): (c: Span)
    ensures diff >= 0 ==> c.Normal() && c.Millis() <= diff < c.Millis() + MsPerSecond
    ensures diff < 0 ==> c.hours < 0 && -60 <= c.minutes <= 0 && -60 <= c.seconds <= 0
  {
    var c := Span(
      FloorDiv(diff, MsPerHour),
      FloorDiv(JsRem(diff, MsPerHour), MsPerMinute),
      FloorDiv(JsRem(diff, MsPerMinute), MsPerSecond));
    if diff >= 0 then
      DecomposeNonNegative(diff);
      c
    else
      c
  }

  lemma DecomposeNonNegative(diff: int)
    requires diff >= 0
    ensures
      var h, m, s := diff / MsPerHour, diff % MsPerHour / MsPerMinute, diff % MsPerMinute / MsPerSecond;
      && 0 <= m < 60 && 0 <= s < 60
      && h * MsPerHour + m * MsPerMinute + s * MsPerSecond <= diff
      && diff < h * MsPerHour + m * MsPerMinute + s * MsPerSecond + MsPerSecond
  {
    FloorOfRem(diff);
    var h, rh := diff / MsPerHour, diff % MsPerHour;
    var m, rm := rh / MsPerMinute, rh % MsPerMinute;
    var s := rm / MsPerSecond;
    assert diff == h * MsPerHour + rh;
    assert rh == m * MsPerMinute + rm;
    assert rm < MsPerMinute;
    MinuteRemainder(diff);
    assert diff % MsPerMinute == rm;
  }

  /** Taking the remainder by an hour first does not change the remainder by a minute. */
  lemma MinuteRemainder(diff: int)
    requires diff >= 0
    ensures diff % MsPerHour % MsPerMinute == diff % MsPerMinute
  {
    var h, rh := diff / 3600000, diff % 3600000;
    var m, rm := rh / 60000, rh % 60000;
    assert diff == h * 3600000 + rh && rh == m * 60000 + rm;
    assert diff == (h * 60 + m) * 60000 + rm;
    DivUnique(diff, 60000, h * 60 + m, rm);
  }

  /** Division by a positive number is determined by any quotient and
      remainder in range. */
  lemma DivUnique(x: int, b: int, q: int, r: int)
    requires b > 0 && 0 <= r < b && x == q * b + r
    ensures x / b == q && x % b == r
  {
    var q', r' := x / b, x % b;
    assert x == q' * b + r' && 0 <= r' < b;
    if q' < q {
      MulStep(q - q', q', b);
    } else if q < q' {
      MulStep(q' - q, q, b);
    }
  }

  lemma MulStep(k: int, q: int, b: int)
    requires k >= 1 && b > 0
    ensures (k + q) * b >= q * b + b
  {
    assert (k + q) * b == k * b + q * b;
    assert k * b >= b;
  }

  /** Decomposition recovers the fields of any normal span, whatever the
      milliseconds below one second. */
  lemma DecomposeMillis(c: Span, extra: int)
    requires c.Normal() && 0 <= extra < MsPerSecond
    ensures Decompose(c.Millis() + extra) == c
  {
    var diff := c.Millis() + extra;
    var sub := c.seconds * 1000 + extra;
    var rest := c.minutes * 60000 + sub;
    assert c.Millis() == c.hours * 3600000 + c.minutes * 60000 + c.seconds * 1000;
    assert diff == c.hours * 3600000 + rest;
    DivUnique(diff, 3600000, c.hours, rest);
    DivUnique(rest, 60000, c.minutes, sub);
    assert diff == (c.hours * 60 + c.minutes) * 60000 + sub;
    DivUnique(diff, 60000, c.hours * 60 + c.minutes, sub);
    DivUnique(sub, 1000, c.seconds, extra);
  }

  /** `HH:MM:SS` with each field padded to two characters. No field is shorter
      than two characters, and negative hours show a minus sign first. */
  function Render(c: Span): (r: string)
    ensures |r| >= 8
    ensures c.hours < 0 ==> r[0] == '-'
  {
    FieldShape(c.hours);
    FieldShape(c.minutes);
    FieldShape(c.seconds);
    Field(c.hours) + ":" + Field(c.minutes) + ":" + Field(c.seconds)
  }

  /** The countdown text for a millisecond difference. A negative difference
      shows a minus sign first; one under a hundred hours shows `HH:MM:SS`
      whose fields, read back, account for the difference up to the dropped
      milliseconds. */
  function CountdownText(diff: int): (r: string)
    ensures |r| >= 8
    ensures diff < 0 ==> r[0] == '-'
    ensures 0 <= diff < 100 * MsPerHour ==>
      && |r| == 8 && r[2] == ':' && r[5] == ':'
      && AllDigits(r[..2]) && AllDigits(r[3..5]) && AllDigits(r[6..])
      && var shown := Span(Value(r[..2]), Value(r[3..5]), Value(r[6..]));
      && shown.Millis() <= diff < shown.Millis() + MsPerSecond
  {
    var c := Decompose(diff);
    if 0 <= diff < 100 * MsPerHour then
      HoursBelow(c.hours, c.Millis(), diff);
      RenderReadsBack(c);
      Render(c)
    else
      Render(c)
  }

  /** Whole hours within a span under a hundred hours number fewer than a hundred. */
  lemma HoursBelow(h: int, millis: int, diff: int)
    requires 0 <= h && h * 3600000 <= millis <= diff < 360000000
    ensures h < 100
  {
    if h >= 100 {
      MulStep(h - 99, 99, 3600000);
    }
  }

  lemma SplitThree(a: string, b: string, c: string)
    requires |a| == 2 && |b| == 2
    ensures var t := a + ":" + b + ":" + c;
      && t[..2] == a && t[2] == ':' && t[3..5] == b && t[5] == ':' && t[6..] == c
  {
  }

  /** A normal span under one hundred hours renders as `HH:MM:SS`: eight
      characters, colons at the third and sixth, and each field reads back as
      the number it shows. */
  lemma RenderReadsBack(c: Span)
    requires c.Normal() && c.hours < 100
    ensures var t := Render(c);
      && |t| == 8 && t[2] == ':' && t[5] == ':'
      && AllDigits(t[..2]) && AllDigits(t[3..5]) && AllDigits(t[6..])
      && Value(t[..2]) == c.hours && Value(t[3..5]) == c.minutes && Value(t[6..]) == c.seconds
  {
    FieldOfNat(c.hours);
    FieldOfNat(c.minutes);
    FieldOfNat(c.seconds);
    SplitThree(Field(c.hours), Field(c.minutes), Field(c.seconds));
  }
}
