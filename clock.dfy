/**
 * Calendar values used by visualize.py: the parsed timestamp of an
 * observation, the hour bucket it falls in, and the two strftime texts the
 * renderer builds from it: the bucket key '%Y-%m-%d %H:00'
 * (visualize.py:24), which the renderer sorts as text, and the cell label
 * '%H:%M' (visualize.py:61).
 */
module Clock {

  type Year = y: int | 1 <= y <= 9999 witness 1
  type Month = m: int | 1 <= m <= 12 witness 1
  type Day = d: int | 1 <= d <= 31 witness 1
  type Hour = h: int | 0 <= h < 24
  type Minute = m: int | 0 <= m < 60

  /** A parsed timestamp, to the minute (seconds never reach the picture). */
  datatype Moment = Moment(year: Year, month: Month, day: Day, hour: Hour, minute: Minute)

  /** The date and hour that name a bucket. */
  datatype HourKey = HourKey(year: Year, month: Month, day: Day, hour: Hour)

  /** The bucket a moment falls in. */
  function HourOf(m: Moment): HourKey {
    HourKey(m.year, m.month, m.day, m.hour)
  }

  /** Chronological order of hour keys: by year, then month, day and hour. */
  predicate Before(a: HourKey, b: HourKey) {
    || a.year < b.year
    || (a.year == b.year && a.month < b.month)
    || (a.year == b.year && a.month == b.month && a.day < b.day)
    || (a.year == b.year && a.month == b.month && a.day == b.day && a.hour < b.hour)
  }

  function Pow10(n: nat): (p: nat)
    ensures p >= 1
  {
    if n == 0 then 1 else 10 * Pow10(n - 1)
  }

  function DigitChar(d: int): (c: char)
    requires 0 <= d < 10
    ensures '0' <= c <= '9'
  {
    ('0' as int + d) as char
  }

  predicate IsDigits(s: string) {
    forall i :: 0 <= i < |s| ==> '0' <= s[i] <= '9'
  }

  /** The number a string of decimal digits spells, most significant first. */
  function DigitsValue(s: string): nat
    requires IsDigits(s)
  {
    if s == [] then 0 else 10 * DigitsValue(s[..|s| - 1]) + (s[|s| - 1] as int - '0' as int)
  }

  /** `n` in decimal, zero-padded to exactly `width` digits (strftime's %m, %d, %H, %M, %Y). */
  function Pad(n: nat, width: nat): (s: string)
    requires n < Pow10(width)
    ensures |s| == width && IsDigits(s)
  {
    if width == 0 then "" else Pad(n / 10, width - 1) + [DigitChar(n % 10)]
  }

  /** Reading a padded number back gives the number: Pad is a faithful encoding. */
  lemma {:induction false} PadReadsBack(n: nat, width: nat)
    requires n < Pow10(width)
    ensures DigitsValue(Pad(n, width)) == n
  {
    if width > 0 {
      var s := Pad(n, width);
      assert s[..|s| - 1] == Pad(n / 10, width - 1);
      PadReadsBack(n / 10, width - 1);
    }
  }

  /** The '%H:%M' label drawn inside a cell (visualize.py:61). */
  function TimeLabel(m: Moment): (s: string)
    ensures |s| == 5 && s[2] == ':'
    ensures IsDigits(s[..2]) && IsDigits(s[3..])
  {
    Pad(m.hour, 2) + ":" + Pad(m.minute, 2)
  }

  /** The label shows exactly the hour and the minute of the observation. */
  lemma TimeLabelReadsBack(m: Moment)
    ensures DigitsValue(TimeLabel(m)[..2]) == m.hour
    ensures DigitsValue(TimeLabel(m)[3..]) == m.minute
  {
    var s := TimeLabel(m);
    assert s[..2] == Pad(m.hour, 2);
    assert s[3..] == Pad(m.minute, 2);
    PadReadsBack(m.hour, 2);
    PadReadsBack(m.minute, 2);
  }

  /** The bucket key text '%Y-%m-%d %H:00' of visualize.py:24. */
  function HourKeyText(k: HourKey): (s: string)
    ensures |s| == 16
  {
    Pad(k.year, 4) + ("-" + (Pad(k.month, 2) + ("-" + (Pad(k.day, 2) + (" " + (Pad(k.hour, 2) + ":00"))))))
  }

  /** Python's `<` on str: lexicographic by code point, a proper prefix first. */
  predicate TextBefore(a: string, b: string) {
    if a == [] then b != []
    else if b == [] then false
    else if a[0] != b[0] then a[0] < b[0]
    else TextBefore(a[1..], b[1..])
  }

  /** Comparing two texts whose heads have equal length compares the heads first. */
  lemma {:induction false} TextBeforeConcat(x: string, y: string, x': string, y': string)
    requires |x| == |x'|
    ensures TextBefore(x + y, x' + y') <==> TextBefore(x, x') || (x == x' && TextBefore(y, y'))
  {
    if x != [] {
      assert (x + y)[1..] == x[1..] + y;
      assert (x' + y')[1..] == x'[1..] + y';
      TextBeforeConcat(x[1..], y, x'[1..], y');
      if x[0] == x'[0] {
        assert x == x' <==> x[1..] == x'[1..] by {
          if x[1..] == x'[1..] { assert x == [x[0]] + x[1..]; assert x' == [x'[0]] + x'[1..]; }
        }
      }
    } else {
      assert x + y == y;
      assert x' + y' == y';
    }
  }

  /** Zero-padded numbers of one width sort as text exactly as they sort as numbers. */
  lemma {:induction false} PadOrder(n: nat, m: nat, width: nat)
    requires n < Pow10(width) && m < Pow10(width)
    ensures TextBefore(Pad(n, width), Pad(m, width)) <==> n < m
  {
    if width == 0 {
      assert n == 0 && m == 0;
    } else {
      var hn, hm := Pad(n / 10, width - 1), Pad(m / 10, width - 1);
      var dn, dm := [DigitChar(n % 10)], [DigitChar(m % 10)];
      TextBeforeConcat(hn, dn, hm, dm);
      PadOrder(n / 10, m / 10, width - 1);
      PadReadsBack(n / 10, width - 1);
      PadReadsBack(m / 10, width - 1);
      assert TextBefore(dn, dm) <==> n % 10 < m % 10;
      assert hn == hm <==> n / 10 == m / 10;
      LastDigitOrder(n, m);
    }
  }

  /** Numbers compare as their leading digits do, and on a tie as their last digits do. */
  lemma LastDigitOrder(n: nat, m: nat)
    ensures n < m <==> n / 10 < m / 10 || (n / 10 == m / 10 && n % 10 < m % 10)
  {
    assert n == 10 * (n / 10) + n % 10;
    assert m == 10 * (m / 10) + m % 10;
  }

  /**
   * A zero-padded field followed by a separator and the rest of the text:
   * the field decides, and only a tie passes the decision to the rest.
   */
  lemma FieldThenRest(n: nat, m: nat, width: nat, sep: char, r: string, r': string)
    requires n < Pow10(width) && m < Pow10(width)
    ensures TextBefore(Pad(n, width) + ([sep] + r), Pad(m, width) + ([sep] + r'))
            <==> n < m || (n == m && TextBefore(r, r'))
  {
    TextBeforeConcat(Pad(n, width), [sep] + r, Pad(m, width), [sep] + r');
    TextBeforeConcat([sep], r, [sep], r');
    TextBeforeIrreflexive([sep]);
    PadOrder(n, m, width);
    PadReadsBack(n, width);
    PadReadsBack(m, width);
  }

  /**
   * Sorting bucket keys as '%Y-%m-%d %H:00' text, as visualize.py:30 does,
   * orders them chronologically: text order and date-hour order agree.
   */
  lemma HourKeyTextOrder(a: HourKey, b: HourKey)
    ensures TextBefore(HourKeyText(a), HourKeyText(b)) <==> Before(a, b)
  {
    TextBeforeIrreflexive("00");
    assert ":00" == [':'] + "00";
    FieldThenRest(a.hour, b.hour, 2, ':', "00", "00");
    var tH, tH' := Pad(a.hour, 2) + ":00", Pad(b.hour, 2) + ":00";
    assert TextBefore(tH, tH') <==> a.hour < b.hour;
    FieldThenRest(a.day, b.day, 2, ' ', tH, tH');
    var tD, tD' := Pad(a.day, 2) + (" " + tH), Pad(b.day, 2) + (" " + tH');
    FieldThenRest(a.month, b.month, 2, '-', tD, tD');
    var tM, tM' := Pad(a.month, 2) + ("-" + tD), Pad(b.month, 2) + ("-" + tD');
    FieldThenRest(a.year, b.year, 4, '-', tM, tM');
  }

  lemma {:induction false} TextBeforeIrreflexive(s: string)
    ensures !TextBefore(s, s)
  {
    if s != [] {
      TextBeforeIrreflexive(s[1..]);
    }
  }
}
