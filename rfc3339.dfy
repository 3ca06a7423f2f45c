/**
  The `date-time` production of section 5.6 of RFC 3339, with the value
  restrictions of its section 5.7 (month and day ranges, leap years, a leap
  second 60). ABNF literals are case-insensitive, so the separator may be
  `T` or `t` and the UTC designator `Z` or `z`. This predicate stands for the
  date parser the frontmatter check calls.
*/
module Rfc3339 {

  predicate IsDigit(c: char) { '0' <= c <= '9' }

  predicate AllDigits(s: string) {
    forall i :: 0 <= i < |s| ==> IsDigit(s[i])
  }

  /** The decimal value of a string of digits. */
  function Number(s: string): nat
    requires AllDigits(s)
  {
    if s == [] then 0 else Number(s[..|s| - 1]) * 10 + (s[|s| - 1] as int - '0' as int)
  }

  predicate IsLeapYear(y: nat) {
    y % 4 == 0 && (y % 100 != 0 || y % 400 == 0)
  }

  function DaysInMonth(y: nat, m: nat): nat
    requires 1 <= m <= 12
  {
    if m == 2 then (if IsLeapYear(y) then 29 else 28)
    else if m == 4 || m == 6 || m == 9 || m == 11 then 30
    else 31
  }

  /** `full-date = date-fullyear "-" date-month "-" date-mday` */
  predicate IsFullDate(d: string) {
    && |d| == 10
    && AllDigits(d[..4]) && d[4] == '-' && AllDigits(d[5..7]) && d[7] == '-' && AllDigits(d[8..])
    && var y, m, day := Number(d[..4]), Number(d[5..7]), Number(d[8..]);
       1 <= m <= 12 && 1 <= day <= DaysInMonth(y, m)
  }

  /** `time-hour ":" time-minute ":" time-second`, the fixed part of `partial-time` */
  predicate IsTimeOfDay(t: string) {
    && |t| == 8
    && AllDigits(t[..2]) && t[2] == ':' && AllDigits(t[3..5]) && t[5] == ':' && AllDigits(t[6..])
    && Number(t[..2]) <= 23 && Number(t[3..5]) <= 59 && Number(t[6..]) <= 60
  }

  /** `time-offset = "Z" / time-numoffset`, `time-numoffset = ("+" / "-") time-hour ":" time-minute` */
  predicate IsTimeOffset(s: string) {
    || s == "Z" || s == "z"
    || (&& |s| == 6 && (s[0] == '+' || s[0] == '-')
        && AllDigits(s[1..3]) && s[3] == ':' && AllDigits(s[4..])
        && Number(s[1..3]) <= 23 && Number(s[4..]) <= 59)
  }

  /** More fraction digits, then the offset. */
  predicate IsFractionTail(s: string) {
    || IsTimeOffset(s)
    || (|s| > 0 && IsDigit(s[0]) && IsFractionTail(s[1..]))
  }

  /** What follows the seconds: `[time-secfrac] time-offset`, `time-secfrac = "." 1*DIGIT` */
  predicate IsTimeTail(s: string) {
    || IsTimeOffset(s)
    || (|s| >= 2 && s[0] == '.' && IsDigit(s[1]) && IsFractionTail(s[2..]))
  }

  /** `date-time = full-date "T" full-time` */
  predicate IsDateTime(s: string) {
    && |s| >= 20
    && IsFullDate(s[..10])
    && (s[10] == 'T' || s[10] == 't')
    && IsTimeOfDay(s[11..19])
    && IsTimeTail(s[19..])
  }

  /** A timestamp as its fields; the partner the grammar is checked against. */
  datatype Offset = Utc | East(hours: nat, minutes: nat) | West(hours: nat, minutes: nat)

  datatype DateTime = DateTime(
    year: nat, month: nat, day: nat,
    hour: nat, minute: nat, second: nat,
    fraction: string,
    offset: Offset)

  predicate WellFormed(dt: DateTime) {
    && dt.year <= 9999 && 1 <= dt.month <= 12 && 1 <= dt.day <= DaysInMonth(dt.year, dt.month)
    && dt.hour <= 23 && dt.minute <= 59 && dt.second <= 60
    && AllDigits(dt.fraction)
    && (dt.offset.East? || dt.offset.West? ==> dt.offset.hours <= 23 && dt.offset.minutes <= 59)
  }

  function Digit(n: nat): (c: char)
    requires n < 10
    ensures IsDigit(c)
  {
    ('0' as int + n) as char
  }

  function Pad2(n: nat): (s: string)
    requires n < 100
    ensures |s| == 2 && AllDigits(s)
  {
    [Digit(n / 10), Digit(n % 10)]
  }

  function Pad4(n: nat): (s: string)
    requires n < 10000
    ensures |s| == 4 && AllDigits(s)
  {
    Pad2(n / 100) + Pad2(n % 100)
  }

  function FormatOffset(o: Offset): string
    requires o.East? || o.West? ==> o.hours < 100 && o.minutes < 100
  {
    match o
    case Utc => "Z"
    case East(h, m) => "+" + Pad2(h) + ":" + Pad2(m)
    case West(h, m) => "-" + Pad2(h) + ":" + Pad2(m)
  }

  function FormatDate(dt: DateTime): (s: string)
    requires WellFormed(dt)
    ensures |s| == 10
  {
    Pad4(dt.year) + "-" + Pad2(dt.month) + "-" + Pad2(dt.day)
  }

  function FormatTimeOfDay(dt: DateTime): (s: string)
    requires WellFormed(dt)
    ensures |s| == 8
  {
    Pad2(dt.hour) + ":" + Pad2(dt.minute) + ":" + Pad2(dt.second)
  }

  function FormatTail(dt: DateTime): string
    requires WellFormed(dt)
  {
    (if dt.fraction == [] then "" else "." + dt.fraction) + FormatOffset(dt.offset)
  }

  /** The canonical RFC 3339 rendering of a timestamp. */
  function Format(dt: DateTime): string
    requires WellFormed(dt)
  {
    FormatDate(dt) + "T" + FormatTimeOfDay(dt) + FormatTail(dt)
  }

  lemma DigitValue(n: nat)
    requires n < 10
    ensures Digit(n) as int - '0' as int == n
  {
  }

  lemma NumberPad2(n: nat)
    requires n < 100
    ensures Number(Pad2(n)) == n
  {
    var s := Pad2(n);
    assert s[..1] == [Digit(n / 10)];
    assert s[..1][..0] == [];
    DigitValue(n / 10);
    DigitValue(n % 10);
    assert Number(s[..1]) == n / 10;
  }

  lemma {:induction false} NumberAppend(s: string, t: string)
    requires AllDigits(s) && AllDigits(t)
    ensures AllDigits(s + t)
    ensures Number(s + t) == Number(s) * Pow10(|t|) + Number(t)
  {
    if t == [] {
      assert s + t == s;
    } else {
      var st := s + t;
      var t' := t[..|t| - 1];
      var d := t[|t| - 1] as int - '0' as int;
      assert st[..|st| - 1] == s + t';
      assert st[|st| - 1] == t[|t| - 1];
      NumberAppend(s, t');
      var a, b, p := Number(s), Number(t'), Pow10(|t'|);
      assert Number(st) == (a * p + b) * 10 + d;
      assert Number(t) == b * 10 + d;
      assert Pow10(|t|) == p * 10;
      MulShift(a, p, b, d);
    }
  }

  /** `(a * p + b) * 10 + d == a * (p * 10) + (b * 10 + d)` */
  lemma MulShift(a: int, p: int, b: int, d: int)
    ensures (a * p + b) * 10 + d == a * (p * 10) + (b * 10 + d)
  {
  }

  function Pow10(n: nat): (p: nat)
    ensures p >= 1
  {
    if n == 0 then 1 else 10 * Pow10(n - 1)
  }

  lemma NumberPad4(n: nat)
    requires n < 10000
    ensures Number(Pad4(n)) == n
  {
    NumberAppend(Pad2(n / 100), Pad2(n % 100));
    NumberPad2(n / 100);
    NumberPad2(n % 100);
  }

  lemma {:induction false} FractionTailAccepts(f: string, o: string)
    requires AllDigits(f) && IsTimeOffset(o)
    ensures IsFractionTail(f + o)
  {
    if f == [] {
      assert f + o == o;
    } else {
      assert (f + o)[0] == f[0];
      assert (f + o)[1..] == f[1..] + o;
      assert AllDigits(f[1..]) by {
        forall i | 0 <= i < |f[1..]| ensures IsDigit(f[1..][i]) {
          assert f[1..][i] == f[i + 1];
        }
      }
      FractionTailAccepts(f[1..], o);
    }
  }

  lemma OffsetAccepted(o: Offset)
    requires o.East? || o.West? ==> o.hours <= 23 && o.minutes <= 59
    ensures IsTimeOffset(FormatOffset(o))
  {
    if !o.Utc? {
      var s := FormatOffset(o);
      assert s[1..3] == Pad2(o.hours) && s[4..] == Pad2(o.minutes);
      NumberPad2(o.hours);
      NumberPad2(o.minutes);
    }
  }

  lemma FullDateAccepted(dt: DateTime)
    requires WellFormed(dt)
    ensures IsFullDate(FormatDate(dt))
  {
    var d := FormatDate(dt);
    assert d[..4] == Pad4(dt.year) && d[5..7] == Pad2(dt.month) && d[8..] == Pad2(dt.day);
    NumberPad4(dt.year);
    NumberPad2(dt.month);
    NumberPad2(dt.day);
  }

  lemma TimeOfDayAccepted(dt: DateTime)
    requires WellFormed(dt)
    ensures IsTimeOfDay(FormatTimeOfDay(dt))
  {
    var t := FormatTimeOfDay(dt);
    assert t[..2] == Pad2(dt.hour) && t[3..5] == Pad2(dt.minute) && t[6..] == Pad2(dt.second);
    NumberPad2(dt.hour);
    NumberPad2(dt.minute);
    NumberPad2(dt.second);
  }

  lemma TailAccepted(dt: DateTime)
    requires WellFormed(dt)
    ensures IsTimeTail(FormatTail(dt))
  {
    var off := FormatOffset(dt.offset);
    OffsetAccepted(dt.offset);
    if dt.fraction == [] {
      assert FormatTail(dt) == off;
    } else {
      var tail := FormatTail(dt);
      assert tail == ['.'] + dt.fraction + off;
      assert tail[0] == '.' && tail[1] == dt.fraction[0] && IsDigit(dt.fraction[0]);
      assert tail[2..] == dt.fraction[1..] + off;
      assert AllDigits(dt.fraction[1..]) by {
        forall i | 0 <= i < |dt.fraction[1..]| ensures IsDigit(dt.fraction[1..][i]) {
          assert dt.fraction[1..][i] == dt.fraction[i + 1];
        }
      }
      FractionTailAccepts(dt.fraction[1..], off);
    }
  }

  /** Every well-formed timestamp, written canonically, passes the date check. */
  lemma FormatIsDateTime(dt: DateTime)
    requires WellFormed(dt)
    ensures IsDateTime(Format(dt))
  {
    var s := Format(dt);
    assert s[..10] == FormatDate(dt);
    assert s[10] == 'T';
    assert s[11..19] == FormatTimeOfDay(dt);
    assert s[19..] == FormatTail(dt);
    FullDateAccepted(dt);
    TimeOfDayAccepted(dt);
    TailAccepted(dt);
  }

  /** The timestamps the tool's date check is exercised with. */
  lemma AcceptsExample()
    ensures IsDateTime("2021-01-01T00:00:00Z")
  {
    var dt := DateTime(2021, 1, 1, 0, 0, 0, "", Utc);
    FormatIsDateTime(dt);
    FormatExample();
  }

  lemma FormatExample()
    ensures Format(DateTime(2021, 1, 1, 0, 0, 0, "", Utc)) == "2021-01-01T00:00:00Z"
  {
  }

  lemma RejectsExamples()
    ensures !IsDateTime("not-a-date")
    ensures !IsDateTime("...")
  {
  }

  /** 2021 is not a leap year, so February has no 29th. */
  lemma RejectsNonLeapDay()
    ensures !IsDateTime("2021-02-29T00:00:00Z")
  {
    NoFebruary29In2021();
    assert "2021-02-29T00:00:00Z"[..10] == "2021-02-29";
  }

  lemma NoFebruary29In2021()
    ensures !IsFullDate("2021-02-29")
  {
    var d := "2021-02-29";
    assert d[..4] == Pad4(2021) by { assert Pad4(2021) == "2021"; }
    assert d[5..7] == Pad2(2) && d[8..] == Pad2(29);
    NumberPad4(2021);
    NumberPad2(2);
    NumberPad2(29);
    assert Number(d[..4]) == 2021 && Number(d[5..7]) == 2 && Number(d[8..]) == 29;
    assert !IsLeapYear(2021) && DaysInMonth(2021, 2) == 28;
  }
}
