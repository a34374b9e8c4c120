/**
 * `datetime.strptime(text, "%Y-%m-%d %H:%M")`, the only date parsing the bot does.
 *
 * Python compiles the format to a regular expression: `%Y` is four digits, `%m` is
 * `1[0-2]|0[1-9]|[1-9]`, `%d` is `3[01]|[12]\d|0[1-9]|[1-9]| [1-9]`, `%H` is
 * `2[0-3]|[0-1]\d|\d`, `%M` is `[0-5]\d|\d`, and the blank between date and time becomes
 * `\s+`. The match must cover the whole text, and the fields must then form a real date.
 * Every field is followed by a character that is not a digit (or by the end of the text),
 * so reading two digits when two are present, and one digit otherwise, picks the same
 * alternative the regular expression would.
 */
module DateParse {
  import opened Wrappers
  import opened DateTimes

  predicate IsDigit(c: char) {
    '0' <= c <= '9'
  }

  function DigitValue(c: char): (d: int)
    requires IsDigit(c)
    ensures 0 <= d <= 9
  {
    c as int - '0' as int
  }

  /** Python's `\s` on text: `str.isspace`, ASCII and Unicode blanks alike. */
  predicate IsSpace(c: char) {
    var n := c as int;
    (9 <= n <= 13) || (28 <= n <= 32) || n == 0x85 || n == 0xA0 || n == 0x1680 ||
    (0x2000 <= n <= 0x200A) || n == 0x2028 || n == 0x2029 || n == 0x202F ||
    n == 0x205F || n == 0x3000
  }

  /** A field read from the text: its value and the position just after it. */
  datatype Field = Field(value: int, next: nat)

  /** `\d\d\d\d` at the start of the text. */
  function Year(s: string): (r: Option<Field>)
    ensures r.Some? ==> r.value.next == 4 <= |s| && 0 <= r.value.value <= 9999
  {
    if |s| >= 4 && IsDigit(s[0]) && IsDigit(s[1]) && IsDigit(s[2]) && IsDigit(s[3]) then
      Some(Field(1000 * DigitValue(s[0]) + 100 * DigitValue(s[1]) +
                 10 * DigitValue(s[2]) + DigitValue(s[3]), 4))
    else None
  }

  /**
   * A number field at position i: a two-digit form whose value lies in [lo, hi], or, when
   * no second digit follows, a single digit not below oneLo.
   */
  function Number(s: string, i: nat, lo: int, hi: int, oneLo: int): (r: Option<Field>)
    ensures r.Some? ==> i < r.value.next <= |s| && r.value.next <= i + 2
    ensures r.Some? ==> (lo <= r.value.value <= hi) || (oneLo <= r.value.value <= 9)
  {
    if i + 1 < |s| && IsDigit(s[i]) && IsDigit(s[i + 1]) then
      var v := 10 * DigitValue(s[i]) + DigitValue(s[i + 1]);
      if lo <= v <= hi then Some(Field(v, i + 2)) else None
    else if i < |s| && IsDigit(s[i]) && oneLo <= DigitValue(s[i]) then
      Some(Field(DigitValue(s[i]), i + 1))
    else None
  }

  /** `%d`: a number from 1 to 31, a digit from 1 to 9, or a blank and such a digit. */
  function Day(s: string, i: nat): (r: Option<Field>)
    ensures r.Some? ==> i < r.value.next <= |s| && 1 <= r.value.value <= 31
  {
    if i + 1 < |s| && s[i] == ' ' && '1' <= s[i + 1] <= '9' then
      Some(Field(DigitValue(s[i + 1]), i + 2))
    else Number(s, i, 1, 31, 1)
  }

  /** The literal character c at position i. */
  function Literal(s: string, i: nat, c: char): (r: Option<nat>)
    ensures r.Some? ==> i < |s| && s[i] == c && r.value == i + 1
  {
    if i < |s| && s[i] == c then Some(i + 1) else None
  }

  /** End of the run of blanks that starts at position i. */
  function SpanSpaces(s: string, i: nat): (j: nat)
    requires i <= |s|
    ensures i <= j <= |s|
    ensures forall k :: i <= k < j ==> IsSpace(s[k])
    ensures j < |s| ==> !IsSpace(s[j])
    decreases |s| - i
  {
    if i < |s| && IsSpace(s[i]) then SpanSpaces(s, i + 1) else i
  }

  /** `\s+`: one blank or more, as many as there are. */
  function Spaces(s: string, i: nat): (r: Option<nat>)
    requires i <= |s|
    ensures r.Some? ==> i < r.value <= |s|
  {
    var j := SpanSpaces(s, i);
    if j == i then None else Some(j)
  }

  /**
   * The timestamp the text denotes, or None where strptime raises ValueError: text that
   * does not match the format, text left over after the minutes, year 0, or a day the
   * month does not have.
   */
  function Parse(s: string): (r: Option<DateTime>)
    ensures r.Some? ==> Valid(r.value) && WholeMinute(r.value)
  {
    var year :- Year(s);
    var afterYear :- Literal(s, year.next, '-');
    var month :- Number(s, afterYear, 1, 12, 1);
    var afterMonth :- Literal(s, month.next, '-');
    var day :- Day(s, afterMonth);
    var afterDay :- Spaces(s, day.next);
    var hour :- Number(s, afterDay, 0, 23, 0);
    var afterHour :- Literal(s, hour.next, ':');
    var minute :- Number(s, afterHour, 0, 59, 0);
    if minute.next == |s| && 1 <= year.value && day.value <= DaysInMonth(year.value, month.value)
    then Some(DateTime(year.value, month.value, day.value, hour.value, minute.value, 0, 0))
    else None
  }

  function DigitChar(d: int): (c: char)
    requires 0 <= d <= 9
    ensures IsDigit(c) && DigitValue(c) == d
  {
    ('0' as int + d) as char
  }

  function Pad2(n: int): (s: string)
    requires 0 <= n < 100
    ensures |s| == 2 && IsDigit(s[0]) && IsDigit(s[1])
    ensures 10 * DigitValue(s[0]) + DigitValue(s[1]) == n
  {
    [DigitChar(n / 10), DigitChar(n % 10)]
  }

  function Pad4(n: int): (s: string)
    requires 0 <= n < 10000
    ensures |s| == 4 && IsDigit(s[0]) && IsDigit(s[1]) && IsDigit(s[2]) && IsDigit(s[3])
    ensures 1000 * DigitValue(s[0]) + 100 * DigitValue(s[1]) +
            10 * DigitValue(s[2]) + DigitValue(s[3]) == n
  {
    Pad2(n / 100) + Pad2(n % 100)
  }

  /** The "YYYY-MM-DD HH:MM" form the /assign command asks its users for. */
  function Format(t: DateTime): (s: string)
    requires Valid(t)
    ensures |s| == 16
  {
    Pad4(t.year) + "-" + Pad2(t.month) + "-" + Pad2(t.day) + " " + Pad2(t.hour) + ":" +
    Pad2(t.minute)
  }

  /** Every whole-minute timestamp written in the documented form parses back to itself. */
  lemma ParseFormat(t: DateTime)
    requires Valid(t) && WholeMinute(t)
    ensures Parse(Format(t)) == Some(t)
  {
    var s := Format(t);
    var y, mo, d, h, mi := Pad4(t.year), Pad2(t.month), Pad2(t.day), Pad2(t.hour), Pad2(t.minute);
    assert s == y + "-" + mo + "-" + d + " " + h + ":" + mi;
    assert s[0] == y[0] && s[1] == y[1] && s[2] == y[2] && s[3] == y[3] && s[4] == '-';
    assert s[5] == mo[0] && s[6] == mo[1] && s[7] == '-';
    assert s[8] == d[0] && s[9] == d[1] && s[10] == ' ';
    assert s[11] == h[0] && s[12] == h[1] && s[13] == ':';
    assert s[14] == mi[0] && s[15] == mi[1];
    assert Year(s) == Some(Field(t.year, 4));
    assert Number(s, 5, 1, 12, 1) == Some(Field(t.month, 7));
    assert Day(s, 8) == Some(Field(t.day, 10));
    assert SpanSpaces(s, 11) == 11;
    assert SpanSpaces(s, 10) == 11;
    assert Number(s, 11, 0, 23, 0) == Some(Field(t.hour, 13));
    assert Number(s, 14, 0, 59, 0) == Some(Field(t.minute, 16));
  }

  /** Any text that parses has a canonical spelling that parses to the same timestamp. */
  lemma ParsedHasCanonicalForm(s: string)
    requires Parse(s).Some?
    ensures Parse(Format(Parse(s).value)) == Parse(s)
  {
    ParseFormat(Parse(s).value);
  }

  /** A number below 100 without a leading zero. */
  function Unpadded(n: int): (s: string)
    requires 0 <= n < 100
    ensures 1 <= |s| <= 2 && (|s| == 1 <==> n < 10)
  {
    if n < 10 then [DigitChar(n)] else Pad2(n)
  }

  /** The year padded to four digits, the other fields without leading zeros. */
  function FormatUnpadded(t: DateTime): string
    requires Valid(t)
  {
    Pad4(t.year) + "-" + Unpadded(t.month) + "-" + Unpadded(t.day) + " " + Unpadded(t.hour) +
    ":" + Unpadded(t.minute)
  }

  /** A number field written without a leading zero, and followed by a non-digit, reads back. */
  lemma NumberReadsUnpadded(p: string, n: int, q: string, lo: int, hi: int, oneLo: int)
    requires 0 <= n < 100 && (q == [] || !IsDigit(q[0]))
    requires if n < 10 then oneLo <= n else lo <= n <= hi
    ensures Number(p + Unpadded(n) + q, |p|, lo, hi, oneLo) == Some(Field(n, |p| + |Unpadded(n)|))
  {
    var s, u := p + Unpadded(n) + q, Unpadded(n);
    assert s[|p|] == u[0];
    if n >= 10 {
      assert s[|p| + 1] == u[1];
    } else if q != [] {
      assert s[|p| + 1] == q[0];
    }
  }

  /** Parse succeeds with t once each field has been read as t's. */
  lemma ParseFromFields(s: string, t: DateTime, a: nat, ma: nat, b: nat, db: nat, c: nat,
                        hc: nat, e: nat)
    requires Valid(t) && WholeMinute(t)
    requires Year(s) == Some(Field(t.year, 4)) && Literal(s, 4, '-') == Some(a)
    requires Number(s, a, 1, 12, 1) == Some(Field(t.month, ma)) && Literal(s, ma, '-') == Some(b)
    requires Day(s, b) == Some(Field(t.day, db)) && db <= |s| && Spaces(s, db) == Some(c)
    requires Number(s, c, 0, 23, 0) == Some(Field(t.hour, hc)) && Literal(s, hc, ':') == Some(e)
    requires Number(s, e, 0, 59, 0) == Some(Field(t.minute, |s|))
    ensures Parse(s) == Some(t)
  {
  }

  lemma UnpaddedYear(t: DateTime)
    requires Valid(t)
    ensures Year(FormatUnpadded(t)) == Some(Field(t.year, 4))
    ensures Literal(FormatUnpadded(t), 4, '-') == Some(5)
  {
    var y, q := Pad4(t.year), "-" + Unpadded(t.month) + "-" + Unpadded(t.day) + " " +
                              Unpadded(t.hour) + ":" + Unpadded(t.minute);
    var s := FormatUnpadded(t);
    assert s == y + q;
    assert s[0] == y[0] && s[1] == y[1] && s[2] == y[2] && s[3] == y[3] && s[4] == q[0];
  }

  lemma UnpaddedMonth(t: DateTime)
    requires Valid(t)
    ensures var s, a := FormatUnpadded(t), 5 + |Unpadded(t.month)|;
            Number(s, 5, 1, 12, 1) == Some(Field(t.month, a)) && Literal(s, a, '-') == Some(a + 1)
  {
    var p, u := Pad4(t.year) + "-", Unpadded(t.month);
    var q := "-" + Unpadded(t.day) + " " + Unpadded(t.hour) + ":" + Unpadded(t.minute);
    var s := FormatUnpadded(t);
    assert s == p + u + q;
    NumberReadsUnpadded(p, t.month, q, 1, 12, 1);
    assert s[|p| + |u|] == q[0];
  }

  lemma UnpaddedDay(t: DateTime)
    requires Valid(t)
    ensures var s, b := FormatUnpadded(t), 6 + |Unpadded(t.month)|;
            var db := b + |Unpadded(t.day)|;
            Day(s, b) == Some(Field(t.day, db)) && db < |s| && Spaces(s, db) == Some(db + 1)
  {
    var p, u := Pad4(t.year) + "-" + Unpadded(t.month) + "-", Unpadded(t.day);
    var q := " " + Unpadded(t.hour) + ":" + Unpadded(t.minute);
    var s := FormatUnpadded(t);
    assert s == p + u + q;
    NumberReadsUnpadded(p, t.day, q, 1, 31, 1);
    assert s[|p|] == u[0];
    var db := |p| + |u|;
    assert s[db] == q[0] && s[db + 1] == q[1];
    assert SpanSpaces(s, db + 1) == db + 1;
  }

  lemma UnpaddedHour(t: DateTime)
    requires Valid(t)
    ensures var s, c := FormatUnpadded(t), 7 + |Unpadded(t.month)| + |Unpadded(t.day)|;
            var hc := c + |Unpadded(t.hour)|;
            Number(s, c, 0, 23, 0) == Some(Field(t.hour, hc)) && Literal(s, hc, ':') == Some(hc + 1)
  {
    var p := Pad4(t.year) + "-" + Unpadded(t.month) + "-" + Unpadded(t.day) + " ";
    var u, q := Unpadded(t.hour), ":" + Unpadded(t.minute);
    var s := FormatUnpadded(t);
    assert s == p + u + q;
    NumberReadsUnpadded(p, t.hour, q, 0, 23, 0);
    assert s[|p| + |u|] == q[0];
  }

  lemma UnpaddedMinute(t: DateTime)
    requires Valid(t)
    ensures var s := FormatUnpadded(t);
            var e := 8 + |Unpadded(t.month)| + |Unpadded(t.day)| + |Unpadded(t.hour)|;
            Number(s, e, 0, 59, 0) == Some(Field(t.minute, |s|))
  {
    var p := Pad4(t.year) + "-" + Unpadded(t.month) + "-" + Unpadded(t.day) + " " +
             Unpadded(t.hour) + ":";
    var s := FormatUnpadded(t);
    assert s == p + Unpadded(t.minute) + [];
    NumberReadsUnpadded(p, t.minute, [], 0, 59, 0);
  }

  /**
   * strptime accepts month, day, hour and minute without leading zeros: the unpadded spelling
   * of every valid whole-minute timestamp parses to that timestamp.
   */
  lemma ParseUnpadded(t: DateTime)
    requires Valid(t) && WholeMinute(t)
    ensures Parse(FormatUnpadded(t)) == Some(t)
  {
    var s, mo, d, h := FormatUnpadded(t), |Unpadded(t.month)|, |Unpadded(t.day)|,
                       |Unpadded(t.hour)|;
    UnpaddedYear(t);
    UnpaddedMonth(t);
    UnpaddedDay(t);
    UnpaddedHour(t);
    UnpaddedMinute(t);
    ParseFromFields(s, t, 5, 5 + mo, 6 + mo, 6 + mo + d, 7 + mo + d, 7 + mo + d + h,
                    8 + mo + d + h);
  }

  /** strptime accepts unpadded month, day, hour and minute. */
  lemma AcceptsUnpaddedFields()
    ensures Parse("2024-1-5 9:7") == Some(DateTime(2024, 1, 5, 9, 7, 0, 0))
  {
    var s := "2024-1-5 9:7";
    assert Year(s) == Some(Field(2024, 4));
    assert Number(s, 5, 1, 12, 1) == Some(Field(1, 6));
    assert Day(s, 7) == Some(Field(5, 8));
    assert SpanSpaces(s, 9) == 9;
    assert Spaces(s, 8) == Some(9);
    assert Number(s, 9, 0, 23, 0) == Some(Field(9, 10));
    assert Number(s, 11, 0, 59, 0) == Some(Field(7, 12));
  }

  /** A day written as a blank and a digit, and a tab among the blanks, are accepted. */
  lemma AcceptsBlankPaddedDay()
    ensures Parse("2024-01- 5\t 10:00") == Some(DateTime(2024, 1, 5, 10, 0, 0, 0))
  {
    var s := "2024-01- 5\t 10:00";
    assert Year(s) == Some(Field(2024, 4));
    assert Number(s, 5, 1, 12, 1) == Some(Field(1, 7));
    assert Day(s, 8) == Some(Field(5, 10));
    assert SpanSpaces(s, 12) == 12;
    assert SpanSpaces(s, 10) == 12;
    assert Number(s, 12, 0, 23, 0) == Some(Field(10, 14));
    assert Number(s, 15, 0, 59, 0) == Some(Field(0, 17));
  }

  /** A leap day parses in a leap year. */
  lemma AcceptsLeapDay()
    ensures Parse("2024-02-29 10:00") == Some(DateTime(2024, 2, 29, 10, 0, 0, 0))
  {
    var s := "2024-02-29 10:00";
    assert Year(s) == Some(Field(2024, 4));
    assert Number(s, 5, 1, 12, 1) == Some(Field(2, 7));
    assert Day(s, 8) == Some(Field(29, 10));
    assert SpanSpaces(s, 11) == 11;
    assert Spaces(s, 10) == Some(11);
    assert Number(s, 11, 0, 23, 0) == Some(Field(10, 13));
    assert Number(s, 14, 0, 59, 0) == Some(Field(0, 16));
  }

  /** The same leap day is refused in a common year: the text matches, the date does not exist. */
  lemma RefusesMissingDay()
    ensures Parse("2023-02-29 10:00") == None
  {
    var s := "2023-02-29 10:00";
    assert Year(s) == Some(Field(2023, 4));
    assert Number(s, 5, 1, 12, 1) == Some(Field(2, 7));
    assert Day(s, 8) == Some(Field(29, 10));
    assert SpanSpaces(s, 11) == 11;
    assert Spaces(s, 10) == Some(11);
    assert Number(s, 11, 0, 23, 0) == Some(Field(10, 13));
    assert Number(s, 14, 0, 59, 0) == Some(Field(0, 16));
  }

  /** Hour 24 is refused. */
  lemma RefusesHourOutOfRange()
    ensures Parse("2024-01-01 24:00") == None
  {
    var s := "2024-01-01 24:00";
    assert Year(s) == Some(Field(2024, 4));
    assert Number(s, 5, 1, 12, 1) == Some(Field(1, 7));
    assert Day(s, 8) == Some(Field(1, 10));
    assert SpanSpaces(s, 11) == 11;
    assert Spaces(s, 10) == Some(11);
    assert Number(s, 11, 0, 23, 0) == None;
  }

  /** Text after the minutes is refused ("unconverted data remains"). */
  lemma RefusesTrailingText()
    ensures Parse("2024-01-01 10:00 ") == None
  {
    var s := "2024-01-01 10:00 ";
    assert Year(s) == Some(Field(2024, 4));
    assert Number(s, 5, 1, 12, 1) == Some(Field(1, 7));
    assert Day(s, 8) == Some(Field(1, 10));
    assert SpanSpaces(s, 11) == 11;
    assert Spaces(s, 10) == Some(11);
    assert Number(s, 11, 0, 23, 0) == Some(Field(10, 13));
    assert Number(s, 14, 0, 59, 0) == Some(Field(0, 16));
  }
}
