/**
 * Calendar dates as Python's `datetime.date` holds them, the `"%Y-%m-%d"`
 * text the store writes with `strftime`, and the `strptime` reading the bot
 * applies to typed dates.
 */
module Dates {
  import opened Common
  import opened Text

  datatype Date = Date(year: int, month: int, day: int)

  predicate IsLeapYear(year: int) {
    year % 4 == 0 && (year % 100 != 0 || year % 400 == 0)
  }

  function DaysInMonth(year: int, month: int): (n: int)
    requires 1 <= month <= 12
    ensures 28 <= n <= 31
    ensures n == 29 <==> month == 2 && IsLeapYear(year)
  {
    if month == 2 then (if IsLeapYear(year) then 29 else 28)
    else if month == 4 || month == 6 || month == 9 || month == 11 then 30
    else 31
  }

  /** The dates `datetime.date` accepts: years 1 to 9999 of the proleptic Gregorian calendar. */
  predicate IsValidDate(d: Date) {
    && 1 <= d.year <= 9999
    && 1 <= d.month <= 12
    && 1 <= d.day <= DaysInMonth(d.year, d.month)
  }

  type CalendarDate = d: Date | IsValidDate(d) witness Date(2000, 1, 1)

  function Pow10(width: nat): (p: nat)
    ensures p >= 1
  {
    if width == 0 then 1 else 10 * Pow10(width - 1)
  }

  /** The last `width` decimal digits of `n`, zero-padded on the left, as `%0<width>d` writes them. */
  function Pad(n: nat, width: nat): (r: string)
    ensures |r| == width && forall i :: 0 <= i < width ==> IsDigit(r[i])
  {
    if width == 0 then [] else Pad(n / 10, width - 1) + [DigitChar(n % 10)]
  }

  /** `d.strftime("%Y-%m-%d")`: a four-digit year, then a two-digit month and day. */
  function Format(d: CalendarDate): (r: string)
    ensures |r| == 10 && r[4] == '-' && r[7] == '-'
    ensures forall i :: 0 <= i < 10 && i != 4 && i != 7 ==> IsDigit(r[i])
  {
    Pad(d.year, 4) + "-" + Pad(d.month, 2) + "-" + Pad(d.day, 2)
  }

  /** What `%Y` matches in `strptime`: exactly four digits. */
  predicate IsYearField(y: string) {
    |y| == 4 && forall i :: 0 <= i < 4 ==> IsDigit(y[i])
  }

  /** What `%m` matches in `strptime`: `1[0-2]`, `0[1-9]` or `[1-9]`. */
  predicate IsMonthField(m: string) {
    || (|m| == 2 && m[0] == '1' && '0' <= m[1] <= '2')
    || (|m| == 2 && m[0] == '0' && '1' <= m[1] <= '9')
    || (|m| == 1 && '1' <= m[0] <= '9')
  }

  /** What `%d` matches in `strptime`: `3[01]`, `[12]` and a digit, `0[1-9]`, `[1-9]` or a space and `[1-9]`. */
  predicate IsDayField(d: string) {
    || (|d| == 2 && d[0] == '3' && '0' <= d[1] <= '1')
    || (|d| == 2 && '1' <= d[0] <= '2' && IsDigit(d[1]))
    || (|d| == 2 && d[0] == '0' && '1' <= d[1] <= '9')
    || (|d| == 1 && '1' <= d[0] <= '9')
    || (|d| == 2 && d[0] == ' ' && '1' <= d[1] <= '9')
  }

  /**
   * `datetime.strptime(text, "%Y-%m-%d").date()`. The whole text must match
   * year, dash, month, dash, day, and the numbers must form a real date;
   * `None` stands for the `ValueError` raised otherwise. Neither field
   * pattern contains a dash, so the month is exactly the text between the
   * first two dashes.
   */
  function ParseDate(text: string): (r: Option<CalendarDate>)
    ensures r.Some? ==> 8 <= |text| <= 10 && text[4] == '-'
  {
    if |text| < 5 || text[4] != '-' || !IsYearField(text[..4]) then None
    else
      var rest := text[5..];
      match IndexOf(rest, '-')
      case None => None
      case Some(k) =>
        var m := rest[..k];
        var d := rest[k + 1..];
        if !IsMonthField(m) || !IsDayField(d) then None
        else DateOfFields(text[..4], m, d)
  }

  /** The `date` built from the matched fields: each is read with `int()`, and the date must exist. */
  function DateOfFields(y: string, m: string, d: string): Option<CalendarDate> {
    match (ParseInt(y), ParseInt(m), ParseInt(d))
    case (Some(year), Some(month), Some(day)) =>
      var date := Date(year, month, day);
      if IsValidDate(date) then Some(date) else None
    case _ => None
  }

  /** Appending a digit shifts the value read so far one decimal place. */
  lemma DigitsValueSnoc(s: string, c: char)
    requires forall i :: 0 <= i < |s| ==> IsDigit(s[i])
    requires IsDigit(c)
    ensures DigitsValue(s + [c]) == DigitsValue(s) * 10 + DigitValue(c)
  {
    assert (s + [c])[..|s|] == s;
  }

  /** A padded number reads back as itself when it fits in the width. */
  lemma {:induction false} DigitsValueOfPad(n: nat, width: nat)
    requires n < Pow10(width)
    ensures DigitsValue(Pad(n, width)) == n
  {
    if width > 0 {
      DigitsValueOfPad(n / 10, width - 1);
      DigitsValueSnoc(Pad(n / 10, width - 1), DigitChar(n % 10));
    }
  }

  /** Padding the value of a digit string to its own length gives the string back. */
  lemma {:induction false} PadOfDigitsValue(s: string)
    requires forall i :: 0 <= i < |s| ==> IsDigit(s[i])
    ensures Pad(DigitsValue(s), |s|) == s
  {
    if |s| > 0 {
      var init := s[..|s| - 1];
      PadOfDigitsValue(init);
      assert s == init + [s[|s| - 1]];
    }
  }

  /** A padded field of the width `Format` uses is read back by `int()` as its value. */
  lemma ParseIntOfPad(n: nat, width: nat)
    requires 0 < width && n < Pow10(width)
    ensures ParseInt(Pad(n, width)) == Some(n)
  {
    ParseIntOfDigits(Pad(n, width));
    DigitsValueOfPad(n, width);
  }

  /** The two-digit month `Format` writes is one `%m` accepts. */
  lemma MonthFieldOfPad(month: int)
    requires 1 <= month <= 12
    ensures IsMonthField(Pad(month, 2))
  {
    assert Pad(month, 2) == [DigitChar(month / 10), DigitChar(month % 10)];
  }

  /** The two-digit day `Format` writes is one `%d` accepts. */
  lemma DayFieldOfPad(day: int)
    requires 1 <= day <= 31
    ensures IsDayField(Pad(day, 2))
  {
    assert Pad(day, 2) == [DigitChar(day / 10), DigitChar(day % 10)];
  }

  lemma MonthFieldHasNoDash(m: string)
    requires IsMonthField(m)
    ensures '-' !in m
  {
  }

  /** The pieces of a text built from a year field, a month field and a day field. */
  lemma ShapeOfFields(y: string, m: string, d: string)
    requires IsYearField(y) && IsMonthField(m)
    ensures var t := y + "-" + m + "-" + d;
      && |t| >= 5 && t[4] == '-' && t[..4] == y && t[5..] == m + ['-'] + d
      && IndexOf(t[5..], '-') == Some(|m|)
      && t[5..][..|m|] == m && t[5..][|m| + 1..] == d
  {
    MonthFieldHasNoDash(m);
    IndexOfAfterPiece(m, '-', d);
    assert (m + ['-'] + d)[..|m|] == m;
    assert (m + ['-'] + d)[|m| + 1..] == d;
  }

  /** How `ParseDate` splits a text of the shape year, dash, month, dash, day. */
  lemma ParseDateOfFields(y: string, m: string, d: string)
    requires IsYearField(y) && IsMonthField(m) && IsDayField(d)
    ensures ParseDate(y + "-" + m + "-" + d) == DateOfFields(y, m, d)
  {
    ShapeOfFields(y, m, d);
  }

  /** Writing a date with `strftime("%Y-%m-%d")` and reading it back with `strptime` gives the date. */
  lemma ParseDateOfFormat(d: CalendarDate)
    ensures ParseDate(Format(d)) == Some(d)
  {
    assert Pow10(2) == 100 && Pow10(4) == 10000 by {
      assert Pow10(1) == 10;
      assert Pow10(3) == 1000;
    }
    MonthFieldOfPad(d.month);
    DayFieldOfPad(d.day);
    ParseIntOfPad(d.year, 4);
    ParseIntOfPad(d.month, 2);
    ParseIntOfPad(d.day, 2);
    ParseDateOfFields(Pad(d.year, 4), Pad(d.month, 2), Pad(d.day, 2));
    assert DateOfFields(Pad(d.year, 4), Pad(d.month, 2), Pad(d.day, 2)) == Some(d);
  }

  /** What an accepted text is made of: the three fields `ParseDate` matched and read. */
  lemma FieldsOfParseDate(t: string)
    requires ParseDate(t).Some?
    ensures IndexOf(t[5..], '-').Some?
    ensures var k := IndexOf(t[5..], '-').value;
      && IsYearField(t[..4]) && IsMonthField(t[5..][..k]) && IsDayField(t[5..][k + 1..])
      && DateOfFields(t[..4], t[5..][..k], t[5..][k + 1..]) == ParseDate(t)
  {
    assert |t| >= 5 && t[4] == '-' && IsYearField(t[..4]);
    var rest := t[5..];
    assert IndexOf(rest, '-').Some?;
    var k := IndexOf(rest, '-').value;
    assert IsMonthField(rest[..k]) && IsDayField(rest[k + 1..]);
  }

  /** Fields made of digits only are read as their digits' value. */
  lemma DateOfDigitFields(y: string, m: string, d: string)
    requires 0 < |y| && forall i :: 0 <= i < |y| ==> IsDigit(y[i])
    requires 0 < |m| && forall i :: 0 <= i < |m| ==> IsDigit(m[i])
    requires 0 < |d| && forall i :: 0 <= i < |d| ==> IsDigit(d[i])
    requires DateOfFields(y, m, d).Some?
    ensures DateOfFields(y, m, d).value == Date(DigitsValue(y), DigitsValue(m), DigitsValue(d))
  {
    ParseIntOfDigits(y);
    ParseIntOfDigits(m);
    ParseIntOfDigits(d);
  }

  /** A month and a day field of four characters together are two digits each, unless the day starts with a space. */
  lemma WideFieldsAreDigits(m: string, d: string)
    requires IsMonthField(m) && IsDayField(d) && |m| + |d| == 4 && d[0] != ' '
    ensures |m| == 2 && |d| == 2
    ensures forall i :: 0 <= i < 2 ==> IsDigit(m[i]) && IsDigit(d[i])
  {
  }

  /** A text with dashes at 4 and `5 + k` is its three fields joined by dashes. */
  lemma TextOfFields(t: string, k: nat)
    requires 5 + k < |t| && t[4] == '-' && t[5 + k] == '-'
    ensures t == t[..4] + "-" + t[5..][..k] + "-" + t[5..][k + 1..]
  {
  }

  /** Digit fields of the widths `Format` writes are written back unchanged. */
  lemma FormatOfFields(y: string, m: string, d: string)
    requires IsYearField(y) && IsMonthField(m) && IsDayField(d)
    requires |m| + |d| == 4 && d[0] != ' '
    requires DateOfFields(y, m, d).Some?
    ensures Format(DateOfFields(y, m, d).value) == y + "-" + m + "-" + d
  {
    WideFieldsAreDigits(m, d);
    DateOfDigitFields(y, m, d);
    PadOfDigitsValue(y);
    PadOfDigitsValue(m);
    PadOfDigitsValue(d);
  }

  /**
   * The converse: a ten-character text `strptime` accepts, whose day does not
   * start with the space `%d` allows, is exactly the text `strftime` writes
   * for the date read.
   */
  lemma FormatOfParseDate(t: string)
    requires ParseDate(t).Some? && |t| == 10 && t[8] != ' '
    ensures Format(ParseDate(t).value) == t
  {
    FieldsOfParseDate(t);
    var rest := t[5..];
    var k := IndexOf(rest, '-').value;
    var y, m, d := t[..4], rest[..k], rest[k + 1..];
    TextOfFields(t, k);
    assert d[0] == t[8] by { assert |m| == 2; }
    FormatOfFields(y, m, d);
  }
}
