/** UTC wall-clock readings and `datetime.isoformat(timespec='seconds')`,
    the format of an entity's `updated_at`. */
module Timestamps {

  datatype DateTime = DateTime(
    year: int, month: int, day: int,
    hour: int, minute: int, second: int, microsecond: int)

  predicate IsLeapYear(y: int) {
    y % 4 == 0 && (y % 100 != 0 || y % 400 == 0)
  }

  function DaysInMonth(y: int, m: int): int
    requires 1 <= m <= 12
  {
    if m == 2 then (if IsLeapYear(y) then 29 else 28)
    else if m == 4 || m == 6 || m == 9 || m == 11 then 30
    else 31
  }

  /** The ranges Python's `datetime` enforces on its fields. */
  predicate IsValidDateTime(t: DateTime) {
    && 1 <= t.year <= 9999
    && 1 <= t.month <= 12
    && 1 <= t.day <= DaysInMonth(t.year, t.month)
    && 0 <= t.hour < 24
    && 0 <= t.minute < 60
    && 0 <= t.second < 60
    && 0 <= t.microsecond < 1000000
  }

  /** A reading of `datetime.now(UTC)`. */
  type UtcDateTime = t: DateTime | IsValidDateTime(t) witness DateTime(1970, 1, 1, 0, 0, 0, 0)

  function Digit(d: int): char
    requires 0 <= d < 10
  {
    ('0' as int + d) as char
  }

  /** The number a string of decimal digits denotes. */
  function DecimalValue(s: string): int
    decreases |s|
  {
    if s == [] then 0 else DecimalValue(s[..|s| - 1]) * 10 + (s[|s| - 1] as int - '0' as int)
  }

  predicate AllDigits(s: string) {
    forall i :: 0 <= i < |s| ==> '0' <= s[i] <= '9'
  }

  /** `n` zero-padded to two digits. */
  function Pad2(n: int): (r: string)
    requires 0 <= n < 100
    ensures |r| == 2 && AllDigits(r) && DecimalValue(r) == n
  {
    var r := [Digit(n / 10), Digit(n % 10)];
    assert r[..1] == [Digit(n / 10)];
    assert r[..1][..0] == [];
    assert DecimalValue(r[..1]) == n / 10;
    r
  }

  /** `n` zero-padded to four digits. */
  function Pad4(n: int): (r: string)
    requires 0 <= n < 10000
    ensures |r| == 4 && AllDigits(r) && DecimalValue(r) == n
  {
    var r := Pad2(n / 100) + Pad2(n % 100);
    assert r[..3][..2] == Pad2(n / 100);
    assert r[..3] == Pad2(n / 100) + [r[2]];
    assert r[..2] == Pad2(n / 100);
    assert DecimalValue(Pad2(n / 100)[..1]) * 10 + (Pad2(n / 100)[1] as int - '0' as int) == n / 100;
    r
  }

  /** `dt.isoformat(timespec='seconds')` of a UTC-aware datetime: `YYYY-MM-DDTHH:MM:SS+00:00`,
      microseconds dropped. */
  function IsoFormatSeconds(t: UtcDateTime): (r: string)
    ensures |r| == 25
    ensures r[4] == '-' && r[7] == '-' && r[10] == 'T' && r[13] == ':' && r[16] == ':'
    ensures r[19..] == "+00:00"
    ensures AllDigits(r[0..4]) && DecimalValue(r[0..4]) == t.year
    ensures AllDigits(r[5..7]) && DecimalValue(r[5..7]) == t.month
    ensures AllDigits(r[8..10]) && DecimalValue(r[8..10]) == t.day
    ensures AllDigits(r[11..13]) && DecimalValue(r[11..13]) == t.hour
    ensures AllDigits(r[14..16]) && DecimalValue(r[14..16]) == t.minute
    ensures AllDigits(r[17..19]) && DecimalValue(r[17..19]) == t.second
  {
    var y, mo, d := Pad4(t.year), Pad2(t.month), Pad2(t.day);
    var h, mi, s := Pad2(t.hour), Pad2(t.minute), Pad2(t.second);
    var r := y + "-" + mo + "-" + d + "T" + h + ":" + mi + ":" + s + "+00:00";
    assert r[0..4] == y && r[5..7] == mo && r[8..10] == d;
    assert r[11..13] == h && r[14..16] == mi && r[17..19] == s;
    r
  }

  /** The stamp identifies the reading up to the second: two readings give the same
      stamp exactly when they agree on every field but the microseconds. */
  lemma IsoFormatSecondsPrecision(t1: UtcDateTime, t2: UtcDateTime)
    ensures IsoFormatSeconds(t1) == IsoFormatSeconds(t2) <==>
      t1.(microsecond := 0) == t2.(microsecond := 0)
  {
    var r1, r2 := IsoFormatSeconds(t1), IsoFormatSeconds(t2);
    if r1 == r2 {
      assert r1[0..4] == r2[0..4] && r1[5..7] == r2[5..7] && r1[8..10] == r2[8..10];
      assert r1[11..13] == r2[11..13] && r1[14..16] == r2[14..16] && r1[17..19] == r2[17..19];
    }
  }
}
