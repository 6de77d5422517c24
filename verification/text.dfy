/**
 * The parts of Python's string and integer semantics the bot relies on:
 * `str.strip()`, `str.split(sep)`, `sep.join(...)`, `str(n)` for an integer
 * and `int(text)` in base 10.
 */
module Text {
  import opened Common

  /** The characters for which Python's `str.isspace()` holds. */
  predicate IsSpace(c: char) {
    || c == ' '
    || '\t' <= c <= '\r'
    || '\U{1c}' <= c <= '\U{1f}'
    || c == '\U{85}' || c == '\U{a0}' || c == '\U{1680}'
    || '\U{2000}' <= c <= '\U{200a}'
    || c == '\U{2028}' || c == '\U{2029}' || c == '\U{202f}' || c == '\U{205f}' || c == '\U{3000}'
  }

  /** `s` without its leading whitespace. */
  function TrimStart(s: string): (r: string)
    ensures |r| <= |s| && r == s[|s| - |r|..]
    ensures |r| > 0 ==> !IsSpace(r[0])
    ensures forall i :: 0 <= i < |s| - |r| ==> IsSpace(s[i])
  {
    if |s| > 0 && IsSpace(s[0]) then
      var r := TrimStart(s[1..]);
      assert s[1..][|s| - 1 - |r|..] == s[|s| - |r|..];
      assert forall i :: 1 <= i < |s| - |r| ==> s[i] == s[1..][i - 1];
      r
    else s
  }

  /** `s` without its trailing whitespace. */
  function TrimEnd(s: string): (r: string)
    ensures |r| <= |s| && r == s[..|r|]
    ensures |r| > 0 ==> !IsSpace(r[|r| - 1])
    ensures forall i :: |r| <= i < |s| ==> IsSpace(s[i])
  {
    if |s| > 0 && IsSpace(s[|s| - 1]) then TrimEnd(s[..|s| - 1]) else s
  }

  /** Python's `s.strip()`: whitespace removed from both ends, nothing else touched. */
  function Strip(s: string): (r: string)
    ensures |r| <= |s|
    ensures |r| > 0 ==> !IsSpace(r[0]) && !IsSpace(r[|r| - 1])
    ensures (forall i :: 0 <= i < |s| ==> IsSpace(s[i])) ==> r == []
    ensures |s| > 0 && !IsSpace(s[0]) && !IsSpace(s[|s| - 1]) ==> r == s
  {
    var t := TrimStart(s);
    var r := TrimEnd(t);
    assert |r| > 0 ==> r[0] == t[0];
    r
  }

  /**
   * `Strip` removes whitespace and nothing else: its result is the slice of
   * `s` starting at `i`, and every character before or after that slice is
   * whitespace.
   */
  lemma StripIsSlice(s: string) returns (i: nat)
    ensures i + |Strip(s)| <= |s| && Strip(s) == s[i..i + |Strip(s)|]
    ensures forall j :: 0 <= j < i ==> IsSpace(s[j])
    ensures forall j :: i + |Strip(s)| <= j < |s| ==> IsSpace(s[j])
  {
    var t := TrimStart(s);
    i := |s| - |t|;
    assert t == s[i..];
    assert forall j :: 0 <= j < i ==> IsSpace(s[j]);
    var r := TrimEnd(t);
    SliceOfSuffix(s, t, r, i);
    assert Strip(s) == r;
  }

  /** A prefix of the suffix of `s` from `i` is the slice of `s` from `i`. */
  lemma SliceOfSuffix(s: string, t: string, r: string, i: nat)
    requires i <= |s| && t == s[i..] && |r| <= |t| && r == t[..|r|]
    requires forall j :: |r| <= j < |t| ==> IsSpace(t[j])
    ensures i + |r| <= |s| && r == s[i..i + |r|]
    ensures forall j :: i + |r| <= j < |s| ==> IsSpace(s[j])
  {
    forall j | i + |r| <= j < |s|
      ensures IsSpace(s[j])
    {
      assert s[j] == t[j - i];
    }
  }

  /** Whitespace around a text whose ends are not whitespace is exactly what `Strip` removes. */
  lemma {:induction false} StripOfPadded(before: string, t: string, after: string)
    requires forall j :: 0 <= j < |before| ==> IsSpace(before[j])
    requires forall j :: 0 <= j < |after| ==> IsSpace(after[j])
    requires |t| > 0 && !IsSpace(t[0]) && !IsSpace(t[|t| - 1])
    ensures Strip(before + t + after) == t
  {
    var s := before + (t + after);
    assert before + t + after == s;
    TrimStartOfPadded(before, t + after);
    TrimEndOfPadded(t, after);
    assert Strip(s) == TrimEnd(TrimStart(s)) == TrimEnd(t + after);
  }

  lemma {:induction false} TrimStartOfPadded(before: string, u: string)
    requires forall j :: 0 <= j < |before| ==> IsSpace(before[j])
    requires |u| > 0 && !IsSpace(u[0])
    ensures TrimStart(before + u) == u
    decreases |before|
  {
    if |before| > 0 {
      assert (before + u)[1..] == before[1..] + u;
      TrimStartOfPadded(before[1..], u);
    }
  }

  lemma {:induction false} TrimEndOfPadded(t: string, after: string)
    requires forall j :: 0 <= j < |after| ==> IsSpace(after[j])
    requires |t| > 0 && !IsSpace(t[|t| - 1])
    ensures TrimEnd(t + after) == t
    decreases |after|
  {
    if |after| > 0 {
      var a' := after[..|after| - 1];
      assert (t + after)[..|t + after| - 1] == t + a';
      TrimEndOfPadded(t, a');
    } else {
      assert t + after == t;
    }
  }

  /** The position of the first `c` in `s`, or `None` when `c` does not occur. */
  function IndexOf(s: string, c: char): (r: Option<nat>)
    ensures r.None? <==> c !in s
    ensures r.Some? ==> r.value < |s| && s[r.value] == c && c !in s[..r.value]
  {
    if |s| == 0 then None
    else if s[0] == c then Some(0)
    else
      assert s == [s[0]] + s[1..];
      match IndexOf(s[1..], c)
      case None => None
      case Some(k) =>
        assert s[..k + 1] == [s[0]] + s[1..][..k];
        Some(k + 1)
  }

  /** `sep.join(pieces)`. */
  function Join(pieces: seq<string>, sep: char): string {
    if |pieces| == 0 then ""
    else if |pieces| == 1 then pieces[0]
    else pieces[0] + [sep] + Join(pieces[1..], sep)
  }

  /** Joining two or three pieces puts one separator between neighbours. */
  lemma JoinOfFew(a: string, b: string, c: string, sep: char)
    ensures Join([a, b], sep) == a + [sep] + b
    ensures Join([a, b, c], sep) == a + [sep] + b + [sep] + c
  {
    assert [a, b][1..] == [b];
    assert [b, c][1..] == [c];
    assert Join([b, c], sep) == b + [sep] + c;
    assert [a, b, c][1..] == [b, c];
  }

  /** Joining one more piece appends a separator and that piece. */
  lemma {:induction false} JoinSnoc(pieces: seq<string>, x: string, sep: char)
    requires |pieces| >= 1
    ensures Join(pieces + [x], sep) == Join(pieces, sep) + [sep] + x
    decreases |pieces|
  {
    var p := pieces + [x];
    if |pieces| > 1 {
      assert p[1..] == pieces[1..] + [x];
      JoinSnoc(pieces[1..], x, sep);
    } else {
      assert p == [pieces[0], x];
      JoinOfFew(pieces[0], x, x, sep);
    }
  }

  /**
   * Python's `s.split(sep)` for a one-character separator: the pieces between
   * the occurrences of `sep`, empty pieces included, so never an empty list.
   */
  function Split(s: string, sep: char): (r: seq<string>)
    ensures |r| >= 1
    ensures forall i :: 0 <= i < |r| ==> sep !in r[i]
    ensures Join(r, sep) == s
    decreases |s|
  {
    match IndexOf(s, sep)
    case None => [s]
    case Some(k) =>
      var rest := Split(s[k + 1..], sep);
      var r := [s[..k]] + rest;
      assert r[1..] == rest;
      assert s == s[..k] + [sep] + s[k + 1..];
      r
  }

  /** The first separator in `p + [sep] + t` is the one after `p` when `p` holds none. */
  lemma {:induction false} IndexOfAfterPiece(p: string, sep: char, t: string)
    requires sep !in p
    ensures IndexOf(p + [sep] + t, sep) == Some(|p|)
    decreases |p|
  {
    var s := p + [sep] + t;
    if |p| > 0 {
      assert s[0] == p[0];
      assert s[1..] == p[1..] + [sep] + t;
      IndexOfAfterPiece(p[1..], sep, t);
    }
  }

  /** Splitting what was joined gives the pieces back, when no piece holds the separator. */
  lemma {:induction false} SplitOfJoin(pieces: seq<string>, sep: char)
    requires |pieces| >= 1
    requires forall i :: 0 <= i < |pieces| ==> sep !in pieces[i]
    ensures Split(Join(pieces, sep), sep) == pieces
    decreases |pieces|
  {
    if |pieces| > 1 {
      var rest := Join(pieces[1..], sep);
      var s := pieces[0] + [sep] + rest;
      assert Join(pieces, sep) == s;
      IndexOfAfterPiece(pieces[0], sep, rest);
      assert s[..|pieces[0]|] == pieces[0];
      assert s[|pieces[0]| + 1..] == rest;
      assert Split(s, sep) == [pieces[0]] + Split(rest, sep);
      SplitOfJoin(pieces[1..], sep);
      assert pieces == [pieces[0]] + pieces[1..];
    }
  }

  predicate IsDigit(c: char) {
    '0' <= c <= '9'
  }

  /** The character of a decimal digit. */
  function DigitChar(d: int): (c: char)
    requires 0 <= d < 10
    ensures IsDigit(c)
  {
    ('0' as int + d) as char
  }

  /** The value of a decimal digit character. */
  function DigitValue(c: char): int
    requires IsDigit(c)
  {
    c as int - '0' as int
  }

  /** `str(n)` for a non-negative integer: decimal digits without a leading zero. */
  function NatToString(n: nat): (r: string)
    ensures 0 < |r| && forall i :: 0 <= i < |r| ==> IsDigit(r[i])
    ensures |r| > 1 ==> r[0] != '0'
    ensures r[0] == '0' <==> n == 0
  {
    if n < 10 then [DigitChar(n)] else NatToString(n / 10) + [DigitChar(n % 10)]
  }

  /** `str(n)` (and `f"{n}"`) for any integer: a minus sign exactly for negatives, then digits. */
  function IntToString(n: int): (r: string)
    ensures 0 < |r|
    ensures r[0] == '-' <==> n < 0
    ensures forall i :: (if n < 0 then 1 else 0) <= i < |r| ==> IsDigit(r[i])
    ensures var k := if n < 0 then 1 else 0; |r| > k + 1 ==> r[k] != '0'
    ensures var k := if n < 0 then 1 else 0; k < |r| && (r[k] == '0' <==> n == 0)
  {
    if n < 0 then "-" + NatToString(-n) else NatToString(n)
  }

  /** Decimal digits with single underscores between them, the digit part `int()` accepts. */
  predicate IsDigitGroups(s: string) {
    && 0 < |s|
    && IsDigit(s[0]) && IsDigit(s[|s| - 1])
    && (forall i :: 0 <= i < |s| ==> IsDigit(s[i]) || s[i] == '_')
    && (forall i :: 0 < i < |s| ==> s[i] == '_' ==> s[i - 1] != '_')
  }

  /** The value of the digits of `s`, read in base 10 with underscores skipped. */
  function DigitsValue(s: string): nat
    requires forall i :: 0 <= i < |s| ==> IsDigit(s[i]) || s[i] == '_'
  {
    if |s| == 0 then 0
    else
      var init := s[..|s| - 1];
      var last := s[|s| - 1];
      if last == '_' then DigitsValue(init) else DigitsValue(init) * 10 + DigitValue(last)
  }

  /**
   * U+001C to U+001F: whitespace to `str.isspace()` and `str.strip()`, but not
   * to `int()`, which skips only the ASCII whitespace below them and the
   * non-ASCII whitespace above.
   */
  predicate IsInformationSeparator(c: char) {
    '\U{1c}' <= c <= '\U{1f}'
  }

  /**
   * Python's `int(text)` in base 10: whitespace around the number is ignored,
   * one optional sign, then digit groups. An information separator anywhere
   * is neither skipped nor a digit. `None` stands for the `ValueError`.
   */
  function ParseInt(text: string): Option<int> {
    if exists i :: 0 <= i < |text| && IsInformationSeparator(text[i]) then None
    else ParseNumeral(Strip(text))
  }

  /** An information separator, even where `strip()` would remove it, makes `int()` fail. */
  lemma InformationSeparatorStopsParse(before: string, c: char, after: string)
    requires IsInformationSeparator(c)
    ensures ParseInt(before + [c] + after).None?
  {
    assert (before + [c] + after)[|before|] == c;
  }

  /** What `int()` makes of the text once stripped: one optional sign, then digit groups. */
  function ParseNumeral(t: string): (r: Option<int>)
    ensures |t| == 0 ==> r.None?
  {
    if |t| > 0 && (t[0] == '+' || t[0] == '-') then
      var body := t[1..];
      if IsDigitGroups(body) then
        var v: int := DigitsValue(body);
        Some(if t[0] == '-' then -v else v)
      else None
    else if IsDigitGroups(t) then Some(DigitsValue(t))
    else None
  }

  /** Reading back the digits `str` writes for a natural number gives the number. */
  lemma {:induction false} DigitsValueOfNatToString(n: nat)
    ensures DigitsValue(NatToString(n)) == n
  {
    if n >= 10 {
      var p := NatToString(n / 10);
      DigitsValueOfNatToString(n / 10);
      var s := p + [DigitChar(n % 10)];
      assert s[..|s| - 1] == p;
    }
  }

  /** Text that starts and ends with a digit or a sign has nothing to strip. */
  lemma StripOfNumeral(s: string)
    requires 0 < |s| && (IsDigit(s[0]) || s[0] == '-') && IsDigit(s[|s| - 1])
    ensures Strip(s) == s
  {
    NumeralCharIsNotSpace(s[0]);
    NumeralCharIsNotSpace(s[|s| - 1]);
  }

  lemma NumeralCharIsNotSpace(c: char)
    requires IsDigit(c) || c == '-'
    ensures !IsSpace(c)
  {
  }

  /** A numeral with nothing to strip is read exactly as `ParseNumeral` reads it. */
  lemma ParseIntOfNumeral(s: string)
    requires 0 < |s| && (IsDigit(s[0]) || s[0] == '-') && IsDigit(s[|s| - 1])
    ensures ParseInt(s) == ParseNumeral(s)
  {
    StripOfNumeral(s);
    if exists i :: 0 <= i < |s| && IsInformationSeparator(s[i]) {
      var i :| 0 <= i < |s| && IsInformationSeparator(s[i]);
      assert !IsDigit(s[i]) && s[i] != '_' && 0 < i;
      assert s[1..][i - 1] == s[i];
    }
  }

  /** A text that is all digits is read by `int()` as its digits' value. */
  lemma ParseIntOfDigits(s: string)
    requires 0 < |s| && forall i :: 0 <= i < |s| ==> IsDigit(s[i])
    ensures ParseInt(s) == Some(DigitsValue(s))
  {
    ParseIntOfNumeral(s);
    DigitsNumeral(s);
  }

  lemma DigitsNumeral(s: string)
    requires 0 < |s| && forall i :: 0 <= i < |s| ==> IsDigit(s[i])
    ensures ParseNumeral(s) == Some(DigitsValue(s))
  {
    assert IsDigitGroups(s);
  }

  /** A minus sign followed by digits is read by `int()` as the negated value. */
  lemma ParseIntOfNegativeDigits(t: string, s: string)
    requires 0 < |s| && forall i :: 0 <= i < |s| ==> IsDigit(s[i])
    requires t == "-" + s
    ensures ParseInt(t) == Some(-(DigitsValue(s) as int))
  {
    assert t[0] == '-' && t[|t| - 1] == s[|s| - 1];
    ParseIntOfNumeral(t);
    NegativeNumeral(t, s);
  }

  lemma NegativeNumeral(t: string, s: string)
    requires 0 < |s| && forall i :: 0 <= i < |s| ==> IsDigit(s[i])
    requires t == "-" + s
    ensures ParseNumeral(t) == Some(-(DigitsValue(s) as int))
  {
    assert t[0] == '-' && t[1..] == s;
    assert IsDigitGroups(s);
  }

  /** `int(str(n)) == n` for every integer `n`. */
  lemma IntToStringRoundTrip(n: int)
    ensures ParseInt(IntToString(n)) == Some(n)
  {
    if n < 0 {
      NegativeRoundTrip(n);
    } else {
      NaturalRoundTrip(n);
    }
  }

  lemma NegativeRoundTrip(n: int)
    requires n < 0
    ensures ParseInt(IntToString(n)) == Some(n)
  {
    var m: nat := -n;
    assert IntToString(n) == "-" + NatToString(m);
    MinusNumeralRoundTrip(m);
  }

  /** `int("-" + str(m)) == -m`. */
  lemma MinusNumeralRoundTrip(m: nat)
    ensures ParseInt("-" + NatToString(m)) == Some(-(m as int))
  {
    var digits := NatToString(m);
    DigitsValueOfNatToString(m);
    ParseIntOfNegativeDigits("-" + digits, digits);
  }

  lemma NaturalRoundTrip(n: nat)
    ensures ParseInt(IntToString(n)) == Some(n)
  {
    var digits := NatToString(n);
    assert IntToString(n) == digits;
    DigitsValueOfNatToString(n);
    ParseIntOfDigits(digits);
  }
}
