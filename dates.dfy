/** The fixed date layout `dd-MM-yyyy HH:mm:ss:fff` the writer puts on the
    wire.  In a .NET custom format `:` stands for the culture's time separator,
    so the separator is a parameter; `-` and the space are literal. */
module Dates {
  import opened Wrappers

  /** A Gregorian `DateTime` to the millisecond. */
  datatype DateTime = DateTime(year: int, month: int, day: int, hour: int, minute: int, second: int, millisecond: int)

  /** Leap years of the Gregorian calendar. */
  predicate IsLeapYear(year: int) {
    year % 4 == 0 && (year % 100 != 0 || year % 400 == 0)
  }

  /** `DateTime.DaysInMonth`. */
  function DaysInMonth(year: int, month: int): int {
    if month == 2 then (if IsLeapYear(year) then 29 else 28)
    else if month == 4 || month == 6 || month == 9 || month == 11 then 30
    else 31
  }

  predicate ValidDate(d: DateTime) {
    && 1 <= d.year <= 9999 && 1 <= d.month <= 12 && 1 <= d.day <= DaysInMonth(d.year, d.month)
    && 0 <= d.hour < 24 && 0 <= d.minute < 60 && 0 <= d.second < 60 && 0 <= d.millisecond < 1000
  }

  /** `DateTime.MinValue`: 1 January 0001, midnight. */
  const MinValue := DateTime(1, 1, 1, 0, 0, 0, 0)

  function Pow10(w: nat): nat {
    if w == 0 then 1 else 10 * Pow10(w - 1)
  }

  function DigitChar(d: int): char
    requires 0 <= d < 10
  {
    ('0' as int + d) as char
  }

  /** The last `width` decimal digits of `n`, zero-padded on the left (the
      `dd`, `MM`, `yyyy`, `HH`, `mm`, `ss` and `fff` specifiers). */
  function Digits(n: nat, width: nat): string
    decreases width
  {
    if width == 0 then "" else Digits(n / 10, width - 1) + [DigitChar(n % 10)]
  }

  /** A field is made of decimal digits only. */
  lemma {:induction false} DigitsAreDigits(n: nat, width: nat)
    ensures forall c | c in Digits(n, width) :: '0' <= c <= '9'
    decreases width
  {
    if width > 0 {
      DigitsAreDigits(n / 10, width - 1);
    }
  }

  /** Reference decoder of a run of decimal digits. */
  function ParseDigits(s: string): nat
    decreases |s|
  {
    if s == [] then 0
    else 10 * ParseDigits(s[..|s| - 1]) + (if '0' <= s[|s| - 1] <= '9' then s[|s| - 1] as int - '0' as int else 0)
  }

  /** `d.ToString("dd-MM-yyyy HH:mm:ss:fff", culture)` with the culture's
      time separator `sep`. */
  function FormatDate(d: DateTime, sep: string): string
    requires ValidDate(d)
  {
    Digits(d.day, 2) + ("-" + (Digits(d.month, 2) + ("-" + (Digits(d.year, 4) + (" "
      + (Digits(d.hour, 2) + (sep + (Digits(d.minute, 2) + (sep + (Digits(d.second, 2) + (sep
      + Digits(d.millisecond, 3))))))))))))
  }

  /** Reference decoder of the fixed layout: the seven fields, each read
      from its position, stepping over the separator that follows it. */
  function LayoutFields(s: string, sep: string): Option<seq<string>> {
    var n := |sep|;
    if |s| != 20 + 3 * n then None
    else
      var r1 := s[3..];
      var r2 := r1[3..];
      var r3 := r2[5..];
      var r4 := r3[2 + n..];
      var r5 := r4[2 + n..];
      Some([s[..2], r1[..2], r2[..4], r3[..2], r4[..2], r5[..2], r5[2 + n..]])
  }

  /** Reference decoder of a date in the fixed layout. */
  function ParseFixedDate(s: string, sep: string): Option<DateTime> {
    match LayoutFields(s, sep)
    case None => None
    case Some(f) =>
      Some(DateTime(ParseDigits(f[2]), ParseDigits(f[1]), ParseDigits(f[0]),
                    ParseDigits(f[3]), ParseDigits(f[4]), ParseDigits(f[5]), ParseDigits(f[6])))
  }

  /** A zero-padded field is `width` characters long and reads back as the
      number it was made from. */
  lemma {:induction false} DigitsRoundTrip(n: nat, width: nat)
    requires n < Pow10(width)
    ensures |Digits(n, width)| == width
    ensures ParseDigits(Digits(n, width)) == n
    decreases width
  {
    if width > 0 {
      DigitsRoundTrip(n / 10, width - 1);
      var s := Digits(n, width);
      assert s[..|s| - 1] == Digits(n / 10, width - 1);
    }
  }

  /** The written layout loses nothing: it has a fixed length and the
      reference decoder recovers the date from it. */
  lemma FormatDateRoundTrip(d: DateTime, sep: string)
    requires ValidDate(d)
    ensures |FormatDate(d, sep)| == 20 + 3 * |sep|
    ensures ParseFixedDate(FormatDate(d, sep), sep) == Some(d)
  {
    DigitsRoundTrip(d.day, 2);
    DigitsRoundTrip(d.month, 2);
    DigitsRoundTrip(d.year, 4);
    DigitsRoundTrip(d.hour, 2);
    DigitsRoundTrip(d.minute, 2);
    DigitsRoundTrip(d.second, 2);
    DigitsRoundTrip(d.millisecond, 3);
    ParseLayout(Digits(d.day, 2), Digits(d.month, 2), Digits(d.year, 4),
                Digits(d.hour, 2), Digits(d.minute, 2), Digits(d.second, 2), Digits(d.millisecond, 3), sep);
    assert FormatDate(d, sep) == Digits(d.day, 2) + ("-" + (Digits(d.month, 2) + ("-" + (Digits(d.year, 4) + (" "
      + (Digits(d.hour, 2) + (sep + (Digits(d.minute, 2) + (sep + (Digits(d.second, 2) + (sep
      + Digits(d.millisecond, 3))))))))))));
  }

  /** The decoder finds the seven fields of any text in the layout. */
  lemma ParseLayout(dd: string, mo: string, yy: string, hh: string, mi: string, ss: string, ms: string, sep: string)
    requires |dd| == 2 && |mo| == 2 && |yy| == 4 && |hh| == 2 && |mi| == 2 && |ss| == 2 && |ms| == 3
    ensures var s := dd + ("-" + (mo + ("-" + (yy + (" " + (hh + (sep + (mi + (sep + (ss + (sep + ms)))))))))));
      LayoutFields(s, sep) == Some([dd, mo, yy, hh, mi, ss, ms])
  {
    var r5 := ss + (sep + ms);
    var r4 := mi + (sep + r5);
    var r3 := hh + (sep + r4);
    var r2 := yy + (" " + r3);
    var r1 := mo + ("-" + r2);
    Peel(dd, "-", r1);
    Peel(mo, "-", r2);
    Peel(yy, " ", r3);
    Peel(hh, sep, r4);
    Peel(mi, sep, r5);
    Peel(ss, sep, ms);
  }

  /** A field followed by a separator and the rest of the text: the field is
      the prefix, and the rest starts right after the separator. */
  lemma Peel(field: string, separator: string, rest: string)
    ensures var s := field + (separator + rest);
      |s| == |field| + |separator| + |rest| && s[..|field|] == field && s[|field| + |separator|..] == rest
  {
  }

  /** What the writer emits for a date it cannot parse: `DateTime.MinValue`
      in the invariant culture. */
  lemma MinValueText()
    ensures ValidDate(MinValue)
    ensures FormatDate(MinValue, ":") == "01-01-0001 00:00:00:000"
  {
    ZeroDigits();
    OneDigits();
    var t := "00" + (":" + ("00" + (":" + ("00" + (":" + "000")))));
    assert t == "00:00:00:000";
    var s := "01" + ("-" + ("01" + ("-" + ("0001" + (" " + t)))));
    assert s == "01-01-0001 00:00:00:000";
  }

  lemma ZeroDigits()
    ensures Digits(0, 2) == "00" && Digits(0, 3) == "000"
  {
    assert Digits(0, 1) == "0";
  }

  lemma OneDigits()
    ensures Digits(1, 2) == "01" && Digits(1, 4) == "0001"
  {
    assert Digits(0, 1) == "0";
    assert Digits(0, 2) == "00";
    assert Digits(0, 3) == "000";
  }
}
