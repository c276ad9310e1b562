/** Wall-clock readings as the ingestion scripts use them: a `datetime` value,
    and its rendering with the format `%Y%m%d_%H%M%S` that both scripts embed
    in their output file names. The clocks themselves are not modelled: every
    reading is passed in as a parameter. */
module Clock {

  /** The fields of a Python `datetime` (time zone left out). */
  datatype Moment = Moment(year: int, month: int, day: int,
                           hour: int, minute: int, second: int, microsecond: int)
  {
    /** The ranges `datetime` enforces on its own fields (MINYEAR = 1, MAXYEAR = 9999). */
    predicate InRange() {
      && 1 <= year <= 9999 && 1 <= month <= 12 && 1 <= day <= 31
      && 0 <= hour < 24 && 0 <= minute < 60 && 0 <= second < 60
      && 0 <= microsecond < 1000000
    }
  }

  /** Every `datetime` object satisfies its own range invariant. */
  type DateTime = m: Moment | m.InRange() witness Moment(1, 1, 1, 0, 0, 0, 0)

  /** Two readings that agree down to the second (the resolution of the file-name stamp). */
  predicate SameSecond(a: DateTime, b: DateTime) {
    && a.year == b.year && a.month == b.month && a.day == b.day
    && a.hour == b.hour && a.minute == b.minute && a.second == b.second
  }

  function Pow10(n: nat): (r: nat)
  {
    if n == 0 then 1 else 10 * Pow10(n - 1)
  }

  predicate IsDigit(c: char) {
    '0' <= c <= '9'
  }

  predicate AllDigits(s: string) {
    forall i :: 0 <= i < |s| ==> IsDigit(s[i])
  }

  function DigitChar(d: nat): (c: char)
    requires d < 10
    ensures IsDigit(c) && c as int - '0' as int == d
  {
    ('0' as int + d) as char
  }

  /** The last `width` decimal digits of `n`, zero-padded on the left, as
      `strftime` prints the fields `%m`, `%d`, `%H`, `%M`, `%S` (width 2) and
      `%Y` (width 4). */
  function Digits(n: nat, width: nat): (r: string)
    ensures |r| == width
    ensures AllDigits(r)
  {
    if width == 0 then [] else Digits(n / 10, width - 1) + [DigitChar(n % 10)]
  }

  /** The number a string of decimal digits denotes: the inverse of `Digits`. */
  function DigitsValue(s: string): (r: nat)
    requires AllDigits(s)
  {
    if s == [] then 0 else 10 * DigitsValue(s[..|s| - 1]) + (s[|s| - 1] as int - '0' as int)
  }

  /** Zero padding loses nothing as long as the number fits the width. */
  lemma {:induction false} DigitsRoundTrip(n: nat, width: nat)
    requires n < Pow10(width)
    ensures DigitsValue(Digits(n, width)) == n
  {
    if width > 0 {
      DigitsRoundTrip(n / 10, width - 1);
      var s := Digits(n, width);
      assert s[..|s| - 1] == Digits(n / 10, width - 1);
    }
  }

  /** `strftime('%Y%m%d_%H%M%S')`: eight date digits, an underscore, six time digits. */
  function Strftime(t: DateTime): (r: string)
    ensures |r| == 15 && r[8] == '_'
    ensures AllDigits(r[..8]) && AllDigits(r[9..])
  {
    var date := Digits(t.year, 4) + Digits(t.month, 2) + Digits(t.day, 2);
    var time := Digits(t.hour, 2) + Digits(t.minute, 2) + Digits(t.second, 2);
    assert (date + "_" + time)[..8] == date;
    assert (date + "_" + time)[9..] == time;
    date + "_" + time
  }

  /** Each field of the stamp can be read back from its fixed position, so the
      stamp records the reading to the second. */
  lemma StrftimeFields(t: DateTime)
    ensures DigitsValue(Strftime(t)[0..4]) == t.year
    ensures DigitsValue(Strftime(t)[4..6]) == t.month
    ensures DigitsValue(Strftime(t)[6..8]) == t.day
    ensures DigitsValue(Strftime(t)[9..11]) == t.hour
    ensures DigitsValue(Strftime(t)[11..13]) == t.minute
    ensures DigitsValue(Strftime(t)[13..15]) == t.second
  {
    var s := Strftime(t);
    assert s[0..4] == Digits(t.year, 4);
    assert s[4..6] == Digits(t.month, 2);
    assert s[6..8] == Digits(t.day, 2);
    assert s[9..11] == Digits(t.hour, 2);
    assert s[11..13] == Digits(t.minute, 2);
    assert s[13..15] == Digits(t.second, 2);
    assert Pow10(2) == 100 && Pow10(4) == 10000;
    DigitsRoundTrip(t.year, 4);
    DigitsRoundTrip(t.month, 2);
    DigitsRoundTrip(t.day, 2);
    DigitsRoundTrip(t.hour, 2);
    DigitsRoundTrip(t.minute, 2);
    DigitsRoundTrip(t.second, 2);
  }

  /** Two stamps are equal exactly when the readings agree to the second:
      the names are collision-safe at second granularity, and no finer. */
  lemma StrftimeInjective(a: DateTime, b: DateTime)
    ensures Strftime(a) == Strftime(b) <==> SameSecond(a, b)
  {
    if Strftime(a) == Strftime(b) {
      StrftimeFields(a);
      StrftimeFields(b);
    }
  }
}
