/** Decimal text of integers as JavaScript produces it with `String(n)`,
    and the `padStart(2, '0')` padding applied to every displayed field. */
module Decimal {

  predicate IsDigit(c: char) {
    '0' <= c <= '9'
  }

  predicate AllDigits(s: string) {
    forall i :: 0 <= i < |s| ==> IsDigit(s[i])
  }

  function DigitValue(c: char): (d: nat)
    requires IsDigit(c)
    ensures d < 10
  {
    (c as int) - ('0' as int)
  }

  function DigitChar(d: nat): (c: char)
    requires d < 10
    ensures IsDigit(c) && DigitValue(c) == d
  {
    (('0' as int) + d) as char
  }

  /** The number a string of decimal digits denotes (leading zeros allowed). */
  function Value(s: string): nat
    requires AllDigits(s)
    decreases |s|
  {
    if |s| == 0 then 0 else Value(s[..|s| - 1]) * 10 + DigitValue(s[|s| - 1])
  }

  /** `String(n)` for a non-negative integer: the shortest decimal text of `n`. */
  function Show(n: nat): (s: string)
    ensures |s| >= 1 && AllDigits(s)
    ensures Value(s) == n
    ensures (s[0] == '0') == (n == 0)
    ensures (|s| == 1) == (n < 10)
  {
    if n < 10 then [DigitChar(n)]
    else
      var s := Show(n / 10) + [DigitChar(n % 10)];
      assert s[..|s| - 1] == Show(n / 10);
      s
  }

  /** `String(n)` for any integer: a minus sign precedes the digits of a negative number. */
  function JsString(n: int): (s: string)
    ensures n >= 0 ==> s == Show(n)
    ensures n < 0 ==> |s| >= 2 && s[0] == '-' && s[1..] == Show(-n)
  {
    if n < 0 then "-" + Show(-n) else Show(n)
  }

  /** `s.padStart(width, fill)` with a one-character fill: copies of `fill`
      are put in front of `s` until it is `width` characters long. */
  function PadStart(s: string, width: nat, fill: char): (r: string)
    ensures |r| == if |s| >= width then |s| else width
    ensures r[|r| - |s|..] == s
    ensures forall i :: 0 <= i < |r| - |s| ==> r[i] == fill
    decreases width - |s|
  {
    if |s| >= width then s
    else
      var r := PadStart([fill] + s, width, fill);
      PadStep(r, s, fill);
      r
  }

  /** A text ending in `fill` then `s`, filled before that, is filled before `s`. */
  lemma PadStep(r: string, s: string, fill: char)
    requires |s| + 1 <= |r| && r[|r| - |s| - 1..] == [fill] + s
    requires forall i :: 0 <= i < |r| - |s| - 1 ==> r[i] == fill
    ensures r[|r| - |s|..] == s
    ensures forall i :: 0 <= i < |r| - |s| ==> r[i] == fill
  {
    assert r[|r| - |s| - 1] == fill;
    assert r[|r| - |s|..] == r[|r| - |s| - 1..][1..];
  }

  /** One displayed field, `String(n).padStart(2, '0')`: a single digit gets one
      leading zero, and every other text is already two characters long. */
  function Field(n: int): string {
    if 0 <= n < 10 then ['0', DigitChar(n)] else JsString(n)
  }

  /** Every field has at least two characters, and a negative one starts with a minus sign. */
  lemma FieldShape(n: int)
    ensures |Field(n)| >= 2
    ensures n < 0 ==> Field(n)[0] == '-'
  {
  }

  /** `Field` is exactly `padStart(2, '0')` applied to `String(n)`. */
  lemma FieldIsPadStart(n: int)
    ensures Field(n) == PadStart(JsString(n), 2, '0')
  {
    if 0 <= n < 10 {
      var s := JsString(n);
      assert |s| == 1;
      assert PadStart(s, 2, '0') == PadStart(['0'] + s, 2, '0');
    }
  }

  /** A non-negative field is at least two digits long, reads back as `n`, and a
      value below ten gets exactly one leading zero; larger values are unpadded. */
  lemma FieldOfNat(n: nat)
    ensures |Field(n)| >= 2 && AllDigits(Field(n))
    ensures Value(Field(n)) == n
    ensures n < 10 ==> Field(n) == ['0', DigitChar(n)]
    ensures n >= 10 ==> Field(n) == Show(n)
    ensures n < 100 ==> |Field(n)| == 2
  {
    if n < 10 {
      var f := Field(n);
      assert f == ['0', DigitChar(n)];
      ValueOfTwo(f);
    } else if n < 100 {
      assert |Show(n / 10)| == 1;
    }
  }

  /** Two digits read as tens and units. */
  lemma ValueOfTwo(s: string)
    requires |s| == 2 && AllDigits(s)
    ensures Value(s) == DigitValue(s[0]) * 10 + DigitValue(s[1])
  {
    var head := s[..1];
    assert head[..0] == [];
    assert Value(head) == Value(head[..0]) * 10 + DigitValue(head[0]);
    assert Value(s) == Value(head) * 10 + DigitValue(s[1]);
  }

  lemma DigitRoundTrip(c: char)
    requires IsDigit(c)
    ensures DigitChar(DigitValue(c)) == c
  {
  }

  lemma TensAndUnits(a: nat, b: nat)
    requires b < 10
    ensures (a * 10 + b) / 10 == a && (a * 10 + b) % 10 == b
  {
  }

  /** The text of a number from ten to ninety-nine is its tens digit then its units digit. */
  lemma ShowTwoDigits(a: nat, b: nat)
    requires 1 <= a < 10 && b < 10
    ensures Show(a * 10 + b) == [DigitChar(a), DigitChar(b)]
  {
    var v := a * 10 + b;
    TensAndUnits(a, b);
    ShowOfTwoDigits(v);
  }

  /** A number from ten to ninety-nine shows as its tens digit then its units digit. */
  lemma ShowOfTwoDigits(v: nat)
    requires 10 <= v < 100
    ensures Show(v) == [DigitChar(v / 10), DigitChar(v % 10)]
  {
    ShowStep(v);
    assert Show(v / 10) == [DigitChar(v / 10)];
  }

  /** The text of a number from ten up is the text of its tens then its last digit. */
  lemma ShowStep(v: nat)
    requires v >= 10
    ensures Show(v) == Show(v / 10) + [DigitChar(v % 10)]
  {
  }

  /** Any two-digit text is the field of its own value: the padding of
      `FieldOfNat` is undone by reading and redone by showing. */
  lemma TwoDigitField(s: string)
    requires |s| == 2 && AllDigits(s)
    ensures Value(s) < 100
    ensures Field(Value(s)) == s
  {
    ValueOfTwo(s);
    var a, b := DigitValue(s[0]), DigitValue(s[1]);
    DigitRoundTrip(s[0]);
    DigitRoundTrip(s[1]);
    FieldOfNat(a * 10 + b);
    if a == 0 {
      assert Field(b) == ['0', DigitChar(b)];
    } else {
      ShowTwoDigits(a, b);
    }
    assert s == [s[0], s[1]];
  }
}
