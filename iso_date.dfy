/**
 * The calendar-date text of an ECMAScript Date: `d.toISOString()` followed
 * by `.split('T')[0]`.
 *
 * A time value is an integer number of milliseconds since
 * 1970-01-01T00:00:00Z, at most 8.64e15 in magnitude (section 21.4.1.1 of
 * ECMA-262). The day number is its floor division by the milliseconds of a
 * day, the UTC calendar date comes from the proleptic Gregorian calendar,
 * and the ISO text writes the year with four digits for 0..9999 and as a
 * sign followed by six digits otherwise (section 21.4.1.32 of ECMA-262).
 */
module IsoDate {
  import opened Wrappers

  const MsPerDay: int := 86_400_000
  const MaxTime: int := 8_640_000_000_000_000

  /** A valid (non-NaN) time value of a Date. */
  type Timestamp = t: int | -MaxTime <= t <= MaxTime

  /** A proleptic Gregorian calendar date. */
  datatype Civil = Civil(year: int, month: int, day: int)

  predicate IsLeap(y: int) {
    y % 4 == 0 && (y % 100 != 0 || y % 400 == 0)
  }

  function DaysInMonth(y: int, m: int): int {
    if m == 2 then (if IsLeap(y) then 29 else 28)
    else if m == 4 || m == 6 || m == 9 || m == 11 then 30
    else 31
  }

  predicate ValidCivil(c: Civil) {
    1 <= c.month <= 12 && 1 <= c.day <= DaysInMonth(c.year, c.month)
  }

  // ---------------------------------------------------------------------
  // Day number to calendar date. Days are counted in 400-year eras that
  // start on 1 March, so that the leap day is the last day of its year.
  // ---------------------------------------------------------------------

  /**
   * Splits a day of an era into the year of the era and the day of that
   * (March-based) year: 36524-day centuries, 1461-day groups of four
   * years, 365-day years, with the era's last day closing the fourth
   * century and every group's last day closing its fourth year.
   */
  function SplitEra(doe: int): (r: (int, int))
    requires 0 <= doe < 146097
    ensures 0 <= r.0 < 400 && 0 <= r.1 < 366
    ensures 365 * r.0 + r.0 / 4 - r.0 / 100 + r.1 == doe
    ensures r.1 == 365 ==> (r.0 + 1) % 4 == 0 && ((r.0 + 1) % 100 != 0 || r.0 == 399)
  {
    var century := if doe == 146096 then 3 else doe / 36524;
    var inCentury := doe - 36524 * century;
    var group := inCentury / 1461;
    var inGroup := inCentury - 1461 * group;
    var year := if inGroup == 1460 then 3 else inGroup / 365;
    var yoe := 100 * century + 4 * group + year;
    assert yoe / 4 == 25 * century + group;
    assert yoe / 100 == century;
    (yoe, inGroup - 365 * year)
  }

  /** The month of a March-based day of the year, 0 for March to 11 for February. */
  function MonthIndex(doy: int): (mp: int)
    requires 0 <= doy < 366
    ensures 0 <= mp < 12
    ensures 0 <= doy - (153 * mp + 2) / 5 < 31
    ensures doy < (153 * (mp + 1) + 2) / 5
  {
    (5 * doy + 2) / 153
  }

  /** The calendar month (1..12) of a March-based month index. */
  function MonthOf(mp: int): int {
    if mp < 10 then mp + 3 else mp - 9
  }

  /** The day of the month computed from a day of the year never exceeds that month's length in year `y`. */
  lemma DayFitsMonth(y: int, doy: int)
    requires 0 <= doy < 366
    requires doy == 365 ==> IsLeap(y)
    ensures var mp := MonthIndex(doy);
      doy - (153 * mp + 2) / 5 + 1 <= DaysInMonth(y, MonthOf(mp))
  {
  }

  /** Whole eras of 400 years change neither the remainder by 4 nor the remainder by 100 of a year. */
  lemma EraShiftMod4(era: int, yoe: int)
    requires 0 <= yoe < 400 && (yoe + 1) % 4 == 0
    ensures (yoe + era * 400 + 1) % 4 == 0
  {
    assert yoe + era * 400 + 1 == 4 * ((yoe + 1) / 4 + 100 * era);
  }

  lemma EraShiftMod100(era: int, yoe: int)
    requires 0 <= yoe < 400
    ensures (yoe + era * 400 + 1) % 100 == (yoe + 1) % 100
  {
    assert yoe + era * 400 + 1 == 100 * ((yoe + 1) / 100 + 4 * era) + (yoe + 1) % 100;
  }

  /** The last year of a group of four years, other than a century's unless it closes the era, is a leap year. */
  lemma EraYearLeap(era: int, yoe: int)
    requires 0 <= yoe < 400
    requires (yoe + 1) % 4 == 0 && ((yoe + 1) % 100 != 0 || yoe == 399)
    ensures IsLeap(yoe + era * 400 + 1)
  {
    EraShiftMod4(era, yoe);
    if yoe == 399 {
      assert yoe + era * 400 + 1 == 400 * (era + 1);
    } else {
      EraShiftMod100(era, yoe);
    }
  }

  /** The calendar date of day `doy` of year `yoe` of a 400-year era. */
  function CivilInEra(era: int, yoe: int, doy: int): (c: Civil)
    requires 0 <= yoe < 400 && 0 <= doy < 366
    requires doy == 365 ==> (yoe + 1) % 4 == 0 && ((yoe + 1) % 100 != 0 || yoe == 399)
    ensures ValidCivil(c)
  {
    var mp := MonthIndex(doy);
    var m := MonthOf(mp);
    var y := yoe + era * 400 + (if m <= 2 then 1 else 0);
    if doy == 365 then
      EraYearLeap(era, yoe);
      DayFitsMonth(y, doy);
      Civil(y, m, doy - (153 * mp + 2) / 5 + 1)
    else
      DayFitsMonth(y, doy);
      Civil(y, m, doy - (153 * mp + 2) / 5 + 1)
  }

  /** The calendar date of a day number (day 0 is 1970-01-01). */
  function CivilFromDays(days: int): (c: Civil)
    ensures ValidCivil(c)
  {
    var z := days + 719468;
    var era := z / 146097;
    var (yoe, doy) := SplitEra(z - era * 146097);
    CivilInEra(era, yoe, doy)
  }

  /** The day number of a calendar date, computed independently of CivilFromDays. */
  function DaysFromCivil(c: Civil): int {
    var y := c.year - (if c.month <= 2 then 1 else 0);
    var era := y / 400;
    var yoe := y - era * 400;
    var doy := (153 * (if c.month > 2 then c.month - 3 else c.month + 9) + 2) / 5 + c.day - 1;
    var doe := yoe * 365 + yoe / 4 - yoe / 100 + doy;
    era * 146097 + doe - 719468
  }

  lemma DaysFromCivilOf(era: int, yoe: int, doy: int)
    requires 0 <= yoe < 400 && 0 <= doy < 366
    requires doy == 365 ==> (yoe + 1) % 4 == 0 && ((yoe + 1) % 100 != 0 || yoe == 399)
    ensures DaysFromCivil(CivilInEra(era, yoe, doy)) == era * 146097 + 365 * yoe + yoe / 4 - yoe / 100 + doy - 719468
  {
    var mp := MonthIndex(doy);
    var m := MonthOf(mp);
    var y := yoe + era * 400;
    assert CivilInEra(era, yoe, doy) == Civil(y + (if m <= 2 then 1 else 0), m, doy - (153 * mp + 2) / 5 + 1);
    assert y / 400 == era;
    assert (if m > 2 then m - 3 else m + 9) == mp;
  }

  /** Converting a day number to a date and back gives the day number: no two days share a date. */
  lemma CivilRoundTrip(days: int)
    ensures DaysFromCivil(CivilFromDays(days)) == days
  {
    var z := days + 719468;
    var era := z / 146097;
    var doe := z - era * 146097;
    var (yoe, doy) := SplitEra(doe);
    assert CivilFromDays(days) == CivilInEra(era, yoe, doy);
    DaysFromCivilOf(era, yoe, doy);
  }

  /** Every valid time value falls in a year of at most six digits. */
  lemma CivilFromDaysYearRange(days: int)
    requires -100_000_001 <= days <= 100_000_000
    ensures -999_999 <= CivilFromDays(days).year <= 999_999
  {
    var z := days + 719468;
    var era := z / 146097;
    assert -700 <= era <= 700;
    var (yoe, doy) := SplitEra(z - era * 146097);
  }

  /** The UTC calendar date of a time value. */
  function CivilOf(t: Timestamp): (c: Civil)
    ensures ValidCivil(c)
    ensures -999_999 <= c.year <= 999_999
  {
    CivilFromDaysYearRange(t / MsPerDay);
    CivilFromDays(t / MsPerDay)
  }

  // ---------------------------------------------------------------------
  // Decimal text.
  // ---------------------------------------------------------------------

  predicate IsDigit(c: char) {
    '0' <= c <= '9'
  }

  predicate AllDigits(s: string) {
    forall i | 0 <= i < |s| :: IsDigit(s[i])
  }

  function DigitChar(d: int): (c: char)
    requires 0 <= d < 10
    ensures IsDigit(c) && c as int - '0' as int == d
  {
    (d + '0' as int) as char
  }

  function Pow10(k: nat): (p: nat)
    ensures p >= 1
  {
    if k == 0 then 1 else 10 * Pow10(k - 1)
  }

  /** The shortest decimal text of `n`. */
  function Digits(n: nat): (s: string)
    ensures 1 <= |s| && AllDigits(s)
  {
    if n < 10 then [DigitChar(n)] else Digits(n / 10) + [DigitChar(n % 10)]
  }

  function Zeros(k: nat): (s: string)
    ensures |s| == k && AllDigits(s)
  {
    seq(k, _ => '0')
  }

  /** The decimal text of `n`, padded with leading zeros to at least `width` characters. */
  function Pad(n: nat, width: nat): (s: string)
    ensures AllDigits(s)
  {
    var ds := Digits(n);
    if |ds| < width then Zeros(width - |ds|) + ds else ds
  }

  lemma {:induction false} DigitsLength(n: nat, width: nat)
    requires 1 <= width && n < Pow10(width)
    ensures |Digits(n)| <= width
  {
    if n >= 10 {
      DigitsLength(n / 10, width - 1);
    }
  }

  lemma PadLength(n: nat, width: nat)
    requires 1 <= width && n < Pow10(width)
    ensures |Pad(n, width)| == width
  {
    DigitsLength(n, width);
  }

  /** The value of a digit string, most significant digit first. */
  function ParseNat(s: string): nat
    requires AllDigits(s)
  {
    if s == [] then 0 else 10 * ParseNat(s[..|s| - 1]) + (s[|s| - 1] as int - '0' as int)
  }

  lemma {:induction false} ParseDigits(n: nat)
    ensures ParseNat(Digits(n)) == n
  {
    if n >= 10 {
      var s := Digits(n / 10) + [DigitChar(n % 10)];
      assert s[..|s| - 1] == Digits(n / 10);
      ParseDigits(n / 10);
    }
  }

  lemma {:induction false} ParseLeadingZeros(k: nat, s: string)
    requires AllDigits(s)
    ensures ParseNat(Zeros(k) + s) == ParseNat(s)
    decreases |s|, k
  {
    var t := Zeros(k) + s;
    if s == [] {
      assert t == Zeros(k);
      if k > 0 {
        assert t[..|t| - 1] == Zeros(k - 1) + s;
        ParseLeadingZeros(k - 1, s);
      }
    } else {
      assert t[..|t| - 1] == Zeros(k) + s[..|s| - 1];
      ParseLeadingZeros(k, s[..|s| - 1]);
    }
  }

  /** Padding does not change the value the text denotes. */
  lemma ParsePad(n: nat, width: nat)
    ensures ParseNat(Pad(n, width)) == n
  {
    ParseDigits(n);
    if |Digits(n)| < width {
      ParseLeadingZeros(width - |Digits(n)|, Digits(n));
    }
  }

  function Abs(x: int): nat {
    if x < 0 then -x else x
  }

  /** The year field: four digits for 0..9999, otherwise a sign and six digits. */
  function YearText(y: int): string {
    if 0 <= y <= 9999 then Pad(y, 4)
    else (if y < 0 then "-" else "+") + Pad(Abs(y), 6)
  }

  /** `YYYY-MM-DD` (or `±YYYYYY-MM-DD`) for a calendar date. */
  function DateText(c: Civil): string
    requires ValidCivil(c)
  {
    YearText(c.year) + "-" + Pad(c.month, 2) + "-" + Pad(c.day, 2)
  }

  /** `HH:mm:ss.sssZ` for the milliseconds elapsed in a day. */
  function TimeText(ms: int): string
    requires 0 <= ms < MsPerDay
  {
    Pad(ms / 3_600_000, 2) + ":" + Pad(ms / 60_000 % 60, 2) + ":"
      + Pad(ms / 1000 % 60, 2) + "." + Pad(ms % 1000, 3) + "Z"
  }

  /** `Date.prototype.toISOString` on a valid date. */
  function ToIsoString(t: Timestamp): string {
    DateText(CivilOf(t)) + "T" + TimeText(t % MsPerDay)
  }

  /** `s.split(sep)[0]`: the text before the first `sep`, or all of `s` when there is none. */
  function SplitHead(s: string, sep: char): (r: string)
    ensures sep !in r
    ensures r <= s
    ensures |r| < |s| ==> s[|r|] == sep
  {
    if s == [] || s[0] == sep then [] else [s[0]] + SplitHead(s[1..], sep)
  }

  /** The `date` field of a post summary: `pubDate.toISOString().split('T')[0]`. */
  function DateOnly(t: Timestamp): string {
    SplitHead(ToIsoString(t), 'T')
  }

  lemma {:induction false} SplitHeadAt(a: string, sep: char, b: string)
    requires sep !in a
    ensures SplitHead(a + [sep] + b, sep) == a
  {
    if a != [] {
      assert (a + [sep] + b)[1..] == a[1..] + [sep] + b;
      SplitHeadAt(a[1..], sep, b);
    }
  }

  lemma DigitsHaveNoT(s: string)
    requires AllDigits(s)
    ensures 'T' !in s
  {
  }

  lemma DateTextHasNoT(c: Civil)
    requires ValidCivil(c)
    ensures 'T' !in DateText(c)
  {
    DigitsHaveNoT(Pad(c.month, 2));
    DigitsHaveNoT(Pad(c.day, 2));
    if 0 <= c.year <= 9999 {
      DigitsHaveNoT(Pad(c.year, 4));
    } else {
      DigitsHaveNoT(Pad(Abs(c.year), 6));
    }
  }

  /** Splitting the ISO text at 'T' keeps exactly its calendar-date part. */
  lemma DateOnlyIsDateText(t: Timestamp)
    ensures DateOnly(t) == DateText(CivilOf(t))
  {
    DateTextHasNoT(CivilOf(t));
    SplitHeadAt(DateText(CivilOf(t)), 'T', TimeText(t % MsPerDay));
  }

  // ---------------------------------------------------------------------
  // Reading a date text back.
  // ---------------------------------------------------------------------

  /** Reads `YYYY-MM-DD` or `±YYYYYY-MM-DD`; None for any other text. */
  function DecodeDate(s: string): Option<Civil> {
    var n := |s|;
    if n < 10 || s[n - 6] != '-' || s[n - 3] != '-' then None
    else if !AllDigits(s[n - 5..n - 3]) || !AllDigits(s[n - 2..]) then None
    else
      var month := ParseNat(s[n - 5..n - 3]);
      var day := ParseNat(s[n - 2..]);
      if n == 10 && AllDigits(s[..4]) then
        Some(Civil(ParseNat(s[..4]), month, day))
      else if n == 13 && (s[0] == '+' || s[0] == '-') && AllDigits(s[1..7]) then
        var y: int := ParseNat(s[1..7]);
        Some(Civil(if s[0] == '-' then -y else y, month, day))
      else None
  }

  lemma LengthsFit(c: Civil)
    requires ValidCivil(c) && -999_999 <= c.year <= 999_999
    ensures |Pad(c.month, 2)| == 2 && |Pad(c.day, 2)| == 2
    ensures 0 <= c.year <= 9999 ==> |Pad(c.year, 4)| == 4
    ensures !(0 <= c.year <= 9999) ==> |Pad(Abs(c.year), 6)| == 6
  {
    PadLength(c.month, 2);
    PadLength(c.day, 2);
    if 0 <= c.year <= 9999 {
      PadLength(c.year, 4);
    } else {
      PadLength(Abs(c.year), 6);
    }
  }

  /** Where the parts of `ys-ms-ds` sit, for two-character month and day texts. */
  lemma DateLayout(ys: string, ms: string, ds: string)
    requires |ms| == 2 && |ds| == 2
    ensures var s := ys + "-" + ms + "-" + ds; var n := |s|;
      n == |ys| + 6 && s[n - 6] == '-' && s[n - 3] == '-'
      && s[n - 5..n - 3] == ms && s[n - 2..] == ds && s[..|ys|] == ys
  {
  }

  /** The date text names exactly the calendar date it was written from. */
  lemma DecodeDateText(c: Civil)
    requires ValidCivil(c) && -999_999 <= c.year <= 999_999
    ensures DecodeDate(DateText(c)) == Some(c)
  {
    LengthsFit(c);
    var ys := YearText(c.year);
    DateLayout(ys, Pad(c.month, 2), Pad(c.day, 2));
    ParsePad(c.month, 2);
    ParsePad(c.day, 2);
    if 0 <= c.year <= 9999 {
      ParsePad(c.year, 4);
    } else {
      assert ys[1..] == Pad(Abs(c.year), 6);
      ParsePad(Abs(c.year), 6);
    }
  }

  /** The `date` field decodes to the UTC calendar date of the time value. */
  lemma DateOnlyDecodes(t: Timestamp)
    ensures DecodeDate(DateOnly(t)) == Some(CivilOf(t))
  {
    DateOnlyIsDateText(t);
    DecodeDateText(CivilOf(t));
  }

  /** For the years 0000..9999 the `date` field is ten characters: four digits, '-', two digits, '-', two digits. */
  lemma DateOnlyShape(t: Timestamp)
    requires 0 <= CivilOf(t).year <= 9999
    ensures var s := DateOnly(t);
      |s| == 10 && s[4] == '-' && s[7] == '-'
      && AllDigits(s[..4]) && AllDigits(s[5..7]) && AllDigits(s[8..])
  {
    var c := CivilOf(t);
    DateOnlyIsDateText(t);
    LengthsFit(c);
    var s := DateText(c);
    assert s == Pad(c.year, 4) + "-" + Pad(c.month, 2) + "-" + Pad(c.day, 2);
    assert s[..4] == Pad(c.year, 4);
    assert s[5..7] == Pad(c.month, 2);
    assert s[8..] == Pad(c.day, 2);
  }

  /** 2024-01-01T00:00:00Z, the first date of the tests, falls on 1 January 2024. */
  lemma CivilOfExample()
    ensures CivilOf(1_704_067_200_000) == Civil(2024, 1, 1)
  {
    assert 1_704_067_200_000 / MsPerDay == 19723;
    assert 739191 / 146097 == 5;
    assert SplitEra(8706) == (23, 306);
    assert MonthIndex(306) == 10;
  }

  lemma DateTextExample()
    ensures DateText(Civil(2024, 1, 1)) == "2024-01-01"
  {
    assert Digits(20) == "20";
    assert Digits(202) == "202";
    assert Digits(2024) == "2024";
    assert Pad(1, 2) == "01";
  }

  /** The date text of 2024-01-01T00:00:00Z is "2024-01-01". */
  lemma DateOnlyExample()
    ensures DateOnly(1_704_067_200_000) == "2024-01-01"
  {
    CivilOfExample();
    DateTextExample();
    DateOnlyIsDateText(1_704_067_200_000);
  }
}
