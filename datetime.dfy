/** The one date-time layout the service reads and writes, "2006-01-02 15:04:05"
    (article/model/model.go:56): a four-digit year, two-digit month, day, hour,
    minute and second, separated by '-', ' ' and ':', with no zone and no fraction.
    A time is kept to the second as six integer fields. */
module DateTime {
  import opened Wrappers
  import opened Decimal

  datatype DateTime = DateTime(year: int, month: int, day: int, hour: int, minute: int, second: int)

  /** Go's zero time.Time{}: January 1 of year 1, 00:00:00 UTC. */
  const Zero: DateTime := DateTime(1, 1, 1, 0, 0, 0)

  const Layout: string := "2006-01-02 15:04:05"

  /** Gregorian leap years (time.isLeap). */
  predicate IsLeap(year: int) {
    year % 4 == 0 && (year % 100 != 0 || year % 400 == 0)
  }

  function DaysIn(month: int, year: int): (n: int)
    requires 1 <= month <= 12
    ensures 28 <= n <= 31
  {
    if month == 2 then (if IsLeap(year) then 29 else 28)
    else if month == 4 || month == 6 || month == 9 || month == 11 then 30
    else 31
  }

  /** A calendar time: month, day of month, hour, minute and second in range. */
  predicate Valid(t: DateTime) {
    && 1 <= t.month <= 12
    && 1 <= t.day <= DaysIn(t.month, t.year)
    && 0 <= t.hour < 24
    && 0 <= t.minute < 60
    && 0 <= t.second < 60
  }

  /** A calendar time the layout can write with its four year digits. */
  predicate Writable(t: DateTime) {
    Valid(t) && 0 <= t.year < 10000
  }

  /** The text has the layout's shape: digits and separators in their columns. */
  predicate Shaped(s: string) {
    && |s| == 19
    && s[4] == '-' && s[7] == '-' && s[10] == ' ' && s[13] == ':' && s[16] == ':'
    && AllDigits(s[0..4]) && AllDigits(s[5..7]) && AllDigits(s[8..10])
    && AllDigits(s[11..13]) && AllDigits(s[14..16]) && AllDigits(s[17..19])
  }

  /** The six numbers a shaped text spells. */
  function FieldsOf(s: string): DateTime
    requires Shaped(s)
  {
    DateTime(ValueOf(s[0..4]), ValueOf(s[5..7]), ValueOf(s[8..10]),
             ValueOf(s[11..13]), ValueOf(s[14..16]), ValueOf(s[17..19]))
  }

  /** time.Parse(DateTimeLayout, s): fails unless `s` has the layout's shape and
      names a real calendar time (a month 01-12, a day the month has, hour 00-23,
      minute and second 00-59). */
  function Parse(s: string): (r: Option<DateTime>)
    ensures r.Some? ==> |s| == |Layout| && Writable(r.value)
    ensures !Shaped(s) ==> r == None
  {
    if Shaped(s) && Valid(FieldsOf(s)) then
      ValueOfBound(s[0..4]);
      Some(FieldsOf(s))
    else None
  }

  /** The layout's separators put between the six rendered fields. */
  function Glue(y: string, mo: string, d: string, h: string, mi: string, se: string): string {
    y + "-" + mo + "-" + d + " " + h + ":" + mi + ":" + se
  }

  /** t.Format(DateTimeLayout). */
  function Format(t: DateTime): string {
    Glue(PadInt(t.year, 4), PadInt(t.month, 2), PadInt(t.day, 2),
         PadInt(t.hour, 2), PadInt(t.minute, 2), PadInt(t.second, 2))
  }

  /** Where each field of a glued text sits. */
  lemma GlueColumns(y: string, mo: string, d: string, h: string, mi: string, se: string)
    requires |y| == 4 && |mo| == 2 && |d| == 2 && |h| == 2 && |mi| == 2 && |se| == 2
    ensures var s := Glue(y, mo, d, h, mi, se);
      && |s| == 19
      && s[0..4] == y && s[5..7] == mo && s[8..10] == d
      && s[11..13] == h && s[14..16] == mi && s[17..19] == se
      && s[4] == '-' && s[7] == '-' && s[10] == ' ' && s[13] == ':' && s[16] == ':'
  {
    var p := y + "-" + mo + "-" + d + " " + h + ":" + mi + ":";
    assert |p| == 17;
    MiddleOf(y + "-" + mo + "-", d, " " + h + ":" + mi + ":" + se);
    MiddleOf(y + "-", mo, "-" + d + " " + h + ":" + mi + ":" + se);
    MiddleOf([], y, "-" + mo + "-" + d + " " + h + ":" + mi + ":" + se);
    MiddleOf(y + "-" + mo + "-" + d + " ", h, ":" + mi + ":" + se);
    MiddleOf(y + "-" + mo + "-" + d + " " + h + ":", mi, ":" + se);
    MiddleOf(p, se, []);
  }

  /** The middle part of a concatenation, by its columns. */
  lemma MiddleOf(a: string, b: string, c: string)
    ensures (a + b + c)[|a|..|a| + |b|] == b
  {
    assert (a + b + c)[|a|..|a| + |b|] == (a + b + c)[..|a| + |b|][|a|..];
    assert (a + b + c)[..|a| + |b|] == a + b;
  }

  /** A text of the layout's shape is the glue of its own columns. */
  lemma GlueOfColumns(s: string)
    requires |s| == 19
    requires s[4] == '-' && s[7] == '-' && s[10] == ' ' && s[13] == ':' && s[16] == ':'
    ensures s == Glue(s[0..4], s[5..7], s[8..10], s[11..13], s[14..16], s[17..19])
  {
    var g := Glue(s[0..4], s[5..7], s[8..10], s[11..13], s[14..16], s[17..19]);
    GlueColumns(s[0..4], s[5..7], s[8..10], s[11..13], s[14..16], s[17..19]);
    assert forall i :: 0 <= i < 19 ==> g[i] == s[i] by {
      forall i | 0 <= i < 19 ensures g[i] == s[i] {
        if i < 4 { assert g[i] == g[0..4][i]; }
        else if 4 < i < 7 { assert g[i] == g[5..7][i - 5]; }
        else if 7 < i < 10 { assert g[i] == g[8..10][i - 8]; }
        else if 10 < i < 13 { assert g[i] == g[11..13][i - 11]; }
        else if 13 < i < 16 { assert g[i] == g[14..16][i - 14]; }
        else if 16 < i { assert g[i] == g[17..19][i - 17]; }
      }
    }
  }

  /** Formatting a writable time and parsing the text back gives the same time. */
  lemma ParseFormat(t: DateTime)
    requires Writable(t)
    ensures |Format(t)| == |Layout|
    ensures Parse(Format(t)) == Some(t)
  {
    PadIntFits(t.year, 4);
    PadIntFits(t.month, 2);
    PadIntFits(t.day, 2);
    PadIntFits(t.hour, 2);
    PadIntFits(t.minute, 2);
    PadIntFits(t.second, 2);
    GlueColumns(PadInt(t.year, 4), PadInt(t.month, 2), PadInt(t.day, 2),
                PadInt(t.hour, 2), PadInt(t.minute, 2), PadInt(t.second, 2));
    var s := Format(t);
    assert Shaped(s);
    assert FieldsOf(s) == t;
  }

  /** Every accepted text is the canonical rendering of the time it denotes: two
      different texts never parse to the same time. */
  lemma FormatParse(s: string)
    requires Parse(s).Some?
    ensures Format(Parse(s).value) == s
  {
    var t := Parse(s).value;
    FieldFits(s[0..4]);
    FieldFits(s[5..7]);
    FieldFits(s[8..10]);
    FieldFits(s[11..13]);
    FieldFits(s[14..16]);
    FieldFits(s[17..19]);
    GlueOfColumns(s);
  }

  /** A column of digits is the padded rendering of its own value. */
  lemma FieldFits(f: string)
    requires 1 <= |f| && AllDigits(f)
    ensures PadInt(ValueOf(f), |f|) == f
  {
    ValueOfBound(f);
    PadIntFits(ValueOf(f), |f|);
    FixedOfValue(f);
  }

  /** The zero time is writable and prints as year 1. */
  lemma ZeroFormat()
    ensures Writable(Zero)
    ensures Format(Zero) == "0001-01-01 00:00:00"
  {
    var y, one, zero := PadInt(1, 4), PadInt(1, 2), PadInt(0, 2);
    PaddedSmall();
    assert Format(Zero) == Glue(y, one, one, zero, zero, zero);
  }

  lemma PaddedSmall()
    ensures PadInt(1, 4) == "0001" && PadInt(1, 2) == "01" && PadInt(0, 2) == "00"
  {
    assert DigitChar(0) == '0' && DigitChar(1) == '1';
    assert Fixed(0, 1) == "0";
    assert Fixed(0, 2) == "00";
    assert Fixed(0, 3) == "000";
    assert Fixed(1, 2) == "01";
    assert Fixed(1, 4) == "0001";
    PadIntFits(1, 4);
    PadIntFits(1, 2);
    PadIntFits(0, 2);
  }
}
