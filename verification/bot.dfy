/**
 * The decisions `bot.py` makes around the store: who may use the bot, how
 * buttons carry employee keys and months, how the position text and the
 * report buttons become arguments, and how a typed date becomes a mark. The
 * chat transport, keyboards and message texts are not modelled.
 */
module Bot {
  import opened Common
  import opened Text
  import opened Dates
  import opened Db
  import opened StoreProperties

  // ---------------------------------------------------------------- access

  /** The pieces `if x` keeps: every non-empty one, in order, and nothing else. */
  function NonEmptyPieces(pieces: seq<string>): (r: seq<string>)
    ensures forall i :: 0 <= i < |r| ==> r[i] != ""
    ensures (forall i :: 0 <= i < |pieces| ==> pieces[i] != "") ==> r == pieces
    ensures IsSubsequence(r, pieces)
    ensures multiset(r) == multiset(pieces)["" := 0]
    decreases |pieces|
  {
    if |pieces| == 0 then []
    else
      var init, last := pieces[..|pieces| - 1], pieces[|pieces| - 1];
      assert pieces == init + [last];
      assert multiset(pieces) == multiset(init) + multiset{last};
      var kept := NonEmptyPieces(init);
      if last == "" then
        assert multiset(pieces)["" := 0] == multiset(init)["" := 0];
        kept
      else
        assert (kept + [last])[..|kept|] == kept;
        assert multiset(pieces)["" := 0] == multiset(init)["" := 0] + multiset{last};
        kept + [last]
  }

  /**
   * `[read(x) for x in pieces]`, where `read` may fail; `None` stands for the
   * exception of the first piece it rejects.
   */
  function ReadAll(pieces: seq<string>, read: string -> Option<int>): (r: Option<seq<int>>)
    ensures r.Some? <==> forall i :: 0 <= i < |pieces| ==> read(pieces[i]).Some?
    ensures r.Some? ==> |r.value| == |pieces| && forall i :: 0 <= i < |pieces| ==> read(pieces[i]) == Some(r.value[i])
  {
    if |pieces| == 0 then Some([])
    else match (read(pieces[0]), ReadAll(pieces[1..], read))
      case (Some(n), Some(rest)) => Some([n] + rest)
      case (None, _) => None
      case (_, None) =>
        assert forall i :: 1 <= i < |pieces| ==> pieces[i] == pieces[1..][i - 1];
        None
  }

  /**
   * `ADMIN_IDS = [int(x) for x in os.getenv("ADMIN_IDS", "").split(",") if x]`:
   * the setting (absent when the variable is unset) split on commas, empty
   * pieces dropped, every other piece read with `int()`.
   */
  function ParseAdminIds(setting: Option<string>): (r: Option<seq<int>>)
    ensures setting.None? || setting == Some("") ==> r == Some([])
    ensures r.None? <==> exists x :: x in Split(setting.GetOr(""), ',') && x != "" && ParseInt(x).None?
  {
    var pieces := Split(setting.GetOr(""), ',');
    var kept := NonEmptyPieces(pieces);
    var r := ReadAll(kept, ParseInt);
    assert r.None? <==> exists i :: 0 <= i < |kept| && ParseInt(kept[i]).None?;
    NonEmptyPiecesMembers(pieces);
    r
  }

  /** The kept pieces are exactly the non-empty ones. */
  lemma NonEmptyPiecesMembers(pieces: seq<string>)
    ensures forall x :: x in NonEmptyPieces(pieces) <==> x in pieces && x != ""
  {
    var kept := NonEmptyPieces(pieces);
    forall x
      ensures x in kept <==> x in pieces && x != ""
    {
      assert x in kept <==> x in multiset(kept);
      assert x in pieces <==> x in multiset(pieces);
    }
  }

  /** `check_admin`: an empty allow-list lets everybody in, otherwise only the listed users. */
  function IsAdmin(adminIds: seq<int>, userId: int): bool {
    !(|adminIds| > 0 && userId !in adminIds)
  }

  /** The decimal texts of `ids`, in order. */
  function IdTexts(ids: seq<int>): (r: seq<string>)
    ensures |r| == |ids| && forall i :: 0 <= i < |ids| ==> r[i] == IntToString(ids[i])
  {
    seq(|ids|, i requires 0 <= i < |ids| => IntToString(ids[i]))
  }

  /** The setting that lists `ids`: their decimal texts joined by commas. */
  function AdminIdsText(ids: seq<int>): string {
    Join(IdTexts(ids), ',')
  }

  /** The decimal text of an integer is non-empty and holds neither separator the bot splits on. */
  lemma NumberHasNoSeparator(n: int)
    ensures IntToString(n) != "" && IntToString(n) != "all"
    ensures ',' !in IntToString(n) && '_' !in IntToString(n)
  {
    var t := IntToString(n);
    assert forall i :: 0 <= i < |t| ==> t[i] == '-' || IsDigit(t[i]);
  }

  /** Splitting the setting gives back the decimal texts, none of them empty. */
  lemma SplitOfAdminIdsText(ids: seq<int>)
    requires |ids| > 0
    ensures NonEmptyPieces(Split(AdminIdsText(ids), ',')) == IdTexts(ids)
  {
    var texts := IdTexts(ids);
    forall i | 0 <= i < |texts|
      ensures ',' !in texts[i] && texts[i] != ""
    {
      NumberHasNoSeparator(ids[i]);
    }
    SplitOfJoin(texts, ',');
  }

  /** `int()` reads every decimal text back as its number. */
  lemma ReadAllOfIdTexts(ids: seq<int>)
    ensures ReadAll(IdTexts(ids), ParseInt) == Some(ids)
  {
    var texts := IdTexts(ids);
    forall i | 0 <= i < |texts|
      ensures ParseInt(texts[i]) == Some(ids[i])
    {
      IntToStringRoundTrip(ids[i]);
    }
    var r := ReadAll(texts, ParseInt);
    assert r.Some? && |r.value| == |ids|;
    assert forall i :: 0 <= i < |ids| ==> Some(r.value[i]) == ParseInt(texts[i]);
    assert r.value == ids;
  }

  /** Reading the setting that lists `ids` gives `ids` back; the empty list is the empty setting. */
  lemma AdminIdsRoundTrip(ids: seq<int>)
    ensures ParseAdminIds(Some(AdminIdsText(ids))) == Some(ids)
  {
    if |ids| == 0 {
      assert AdminIdsText(ids) == "";
    } else {
      SplitOfAdminIdsText(ids);
      ReadAllOfIdTexts(ids);
    }
  }

  /**
   * A trailing comma adds an empty piece, which is dropped: the setting
   * `"1,2,"` reads as `[1, 2]`, and a lone `","` as the empty list.
   */
  lemma AdminIdsTrailingComma(ids: seq<int>)
    ensures ParseAdminIds(Some(AdminIdsText(ids) + ",")) == Some(ids)
  {
    if |ids| == 0 {
      SplitOfLoneComma();
      assert AdminIdsText(ids) + "," == ",";
    } else {
      SplitWithTrailingComma(ids);
      DropsTrailingEmpty(IdTexts(ids));
      ReadAllOfIdTexts(ids);
    }
  }

  lemma SplitOfLoneComma()
    ensures NonEmptyPieces(Split(",", ',')) == []
  {
    JoinOfFew("", "", "", ',');
    SplitOfJoin(["", ""], ',');
  }

  lemma SplitWithTrailingComma(ids: seq<int>)
    requires |ids| > 0
    ensures Split(AdminIdsText(ids) + ",", ',') == IdTexts(ids) + [""]
  {
    var texts := IdTexts(ids);
    var pieces := texts + [""];
    IdTextsArePlain(ids);
    assert forall i :: 0 <= i < |pieces| ==> ',' !in pieces[i] by {
      forall i | 0 <= i < |pieces| ensures ',' !in pieces[i] {
        if i < |texts| { assert pieces[i] == texts[i]; }
      }
    }
    JoinSnoc(texts, "", ',');
    assert Join(pieces, ',') == AdminIdsText(ids) + ",";
    SplitOfJoin(pieces, ',');
  }

  /** The decimal texts of `ids` are non-empty and hold no comma. */
  lemma IdTextsArePlain(ids: seq<int>)
    ensures forall i :: 0 <= i < |IdTexts(ids)| ==> ',' !in IdTexts(ids)[i] && IdTexts(ids)[i] != ""
  {
    forall i | 0 <= i < |ids|
      ensures ',' !in IdTexts(ids)[i] && IdTexts(ids)[i] != ""
    {
      NumberHasNoSeparator(ids[i]);
    }
  }

  lemma DropsTrailingEmpty(texts: seq<string>)
    requires forall i :: 0 <= i < |texts| ==> texts[i] != ""
    ensures NonEmptyPieces(texts + [""]) == texts
  {
    assert (texts + [""])[..|texts|] == texts;
  }

  /**
   * Access under a configured list: with the setting listing `ids`, a user
   * gets in exactly when the list is empty or names them; with the variable
   * unset everybody gets in.
   */
  lemma AccessFollowsSetting(ids: seq<int>, userId: int)
    ensures var parsed := ParseAdminIds(Some(AdminIdsText(ids)));
      parsed.Some? && (IsAdmin(parsed.value, userId) <==> ids == [] || userId in ids)
    ensures var parsed := ParseAdminIds(None);
      parsed.Some? && IsAdmin(parsed.value, userId)
  {
    AdminIdsRoundTrip(ids);
  }

  // ------------------------------------------------------------- callbacks

  /** The words before the number on each kind of button, as `split("_")` sees them. */
  const DeletePrefix: seq<string> := ["del"]
  const MarkPrefix: seq<string> := ["mark"]
  const HistoryPrefix: seq<string> := ["hist"]
  const MonthPrefix: seq<string> := ["rep", "month"]
  const YearPrefix: seq<string> := ["rep", "year"]

  /** A prefix whose words hold no underscore, as every prefix above. */
  predicate IsPrefix(prefix: seq<string>) {
    forall i :: 0 <= i < |prefix| ==> '_' !in prefix[i]
  }

  /** The data of a button: the prefix words and the last field joined by underscores. */
  function ButtonData(prefix: seq<string>, last: string): string {
    Join(prefix + [last], '_')
  }

  /** `f"del_{id}"`, `f"rep_month_{i}"` and the like: a button carrying the number `n`. */
  function CallbackData(prefix: seq<string>, n: int): string {
    ButtonData(prefix, IntToString(n))
  }

  /** `int(data.split("_")[index])`; `None` stands for the `IndexError` or `ValueError`. */
  function CallbackField(data: string, index: nat): Option<int> {
    var parts := Split(data, '_');
    if index < |parts| then ParseInt(parts[index]) else None
  }

  /** Splitting a button's data on underscores gives back its prefix words and last field. */
  lemma SplitOfButtonData(prefix: seq<string>, last: string)
    requires IsPrefix(prefix) && '_' !in last
    ensures Split(ButtonData(prefix, last), '_') == prefix + [last]
  {
    SplitOfJoin(prefix + [last], '_');
  }

  /**
   * A button carrying `n` read back with `int(data.split("_")[k])`, where `k`
   * is the number of prefix words, gives `n`: key 1 for `del`, `mark` and
   * `hist`, field 2 for `rep_month`.
   */
  lemma CallbackRoundTrip(prefix: seq<string>, n: int)
    requires IsPrefix(prefix)
    ensures CallbackField(CallbackData(prefix, n), |prefix|) == Some(n)
  {
    NumberHasNoSeparator(n);
    SplitOfButtonData(prefix, IntToString(n));
    assert (prefix + [IntToString(n)])[|prefix|] == IntToString(n);
    IntToStringRoundTrip(n);
  }

  // ----------------------------------------------------------- dialogue steps

  /** `add_employee_position`: a lone dash means no position; any other text is kept as typed. */
  function PositionFromText(text: string): (r: Option<string>)
    ensures r.None? <==> text == "-"
    ensures r.Some? ==> r.value == text
  {
    if text == "-" then None else Some(text)
  }

  /**
   * `report_year_select`: the `(month, year)` filter a year button selects.
   * `rep_year_all` drops the chosen month as well; a numbered year keeps the
   * month chosen before (absent if none was). `None` stands for the
   * exception of a missing field, a missing month or an unreadable year.
   */
  function ReportChoice(data: string, chosenMonth: Option<int>): Option<(Option<int>, Option<int>)> {
    var parts := Split(data, '_');
    if |parts| < 3 then None
    else if parts[2] == "all" then Some((None, None))
    else if chosenMonth.None? then None
    else match ParseInt(parts[2])
      case None => None
      case Some(year) => Some((chosenMonth, Some(year)))
  }

  /** The lifetime button `rep_year_all` selects no filter at all, whatever month was chosen. */
  lemma AllYearsChoosesNoFilter(chosenMonth: Option<int>)
    ensures ReportChoice(ButtonData(YearPrefix, "all"), chosenMonth) == Some((None, None))
  {
    SplitOfButtonData(YearPrefix, "all");
  }

  /**
   * A numbered year button selects the chosen month of that year; stated for
   * every two-word prefix, `rep_year` among them.
   */
  lemma YearButtonChoosesMonthAndYear(prefix: seq<string>, year: int, month: int)
    requires IsPrefix(prefix) && |prefix| == 2
    ensures ReportChoice(CallbackData(prefix, year), Some(month)) == Some((Some(month), Some(year)))
  {
    var t := IntToString(year);
    NumberHasNoSeparator(year);
    IntToStringRoundTrip(year);
    ChoiceOfYearField(prefix, t, year, month);
  }

  /** `ReportChoice` on a two-word prefix and a last field, other than `all`, that `int()` reads. */
  lemma ChoiceOfYearField(prefix: seq<string>, t: string, year: int, month: int)
    requires IsPrefix(prefix) && |prefix| == 2 && '_' !in t
    requires t != "all" && ParseInt(t) == Some(year)
    ensures ReportChoice(ButtonData(prefix, t), Some(month)) == Some((Some(month), Some(year)))
  {
    SplitOfButtonData(prefix, t);
  }

  /**
   * The buttons the bot builds read back as they were built: the employee
   * key at field 1 of `del_`, `mark_` and `hist_`, the month at field 2 of
   * `rep_month_`, and a numbered `rep_year_` button chooses that year with
   * the month chosen before.
   */
  lemma BotButtonsRoundTrip(n: int, month: int)
    ensures CallbackField(CallbackData(DeletePrefix, n), 1) == Some(n)
    ensures CallbackField(CallbackData(MarkPrefix, n), 1) == Some(n)
    ensures CallbackField(CallbackData(HistoryPrefix, n), 1) == Some(n)
    ensures CallbackField(CallbackData(MonthPrefix, n), 2) == Some(n)
    ensures ReportChoice(CallbackData(YearPrefix, n), Some(month)) == Some((Some(month), Some(n)))
  {
    assert IsPrefix(DeletePrefix) && IsPrefix(MarkPrefix) && IsPrefix(HistoryPrefix);
    assert IsPrefix(MonthPrefix) && IsPrefix(YearPrefix);
    CallbackRoundTrip(DeletePrefix, n);
    CallbackRoundTrip(MarkPrefix, n);
    CallbackRoundTrip(HistoryPrefix, n);
    CallbackRoundTrip(MonthPrefix, n);
    YearButtonChoosesMonthAndYear(YearPrefix, n, month);
  }

  /** The conversation state a handler returns. */
  datatype Next = End | AwaitDate | Stay

  /**
   * `mark_attendance_choice`: "today" marks the selected employee on the
   * supplied current date; "other date" asks for a date; any other button
   * changes nothing.
   */
  function MarkChoice(s: Store, employeeId: int, choice: string, today: CalendarDate): (r: (Store, Next))
    ensures choice == "mark_today" ==> r.1 == End && r.0 == MarkAttendance(s, employeeId, None, today)
    ensures choice != "mark_today" ==> r.0 == s && (r.1 == AwaitDate <==> choice == "mark_other")
    ensures choice != "mark_today" && choice != "mark_other" ==> r.1 == Stay
  {
    if choice == "mark_today" then (MarkAttendance(s, employeeId, None, today), End)
    else if choice == "mark_other" then (s, AwaitDate)
    else (s, Stay)
  }

  /**
   * `mark_attendance_date`: the text is stripped and read as `YYYY-MM-DD`;
   * a text that does not read records nothing and keeps asking, a text that
   * does records exactly one mark of that date for the selected employee.
   */
  function EnterDate(s: Store, employeeId: int, text: string): (r: (Store, Next))
    ensures r.1 == AwaitDate <==> ParseDate(Strip(text)).None?
    ensures r.1 == AwaitDate ==> r.0 == s
    ensures r.1 != AwaitDate ==>
      && r.1 == End
      && r.0.employees == s.employees
      && |r.0.ledger| == |s.ledger| + 1 && r.0.ledger[..|s.ledger|] == s.ledger
      && r.0.ledger[|s.ledger|].employeeId == employeeId
      && ParseDate(Strip(text)) == Some(r.0.ledger[|s.ledger|].date)
  {
    match ParseDate(Strip(text))
    case None => (s, AwaitDate)
    // A day is given, so the current date passed along is never used.
    case Some(day) => (MarkAttendance(s, employeeId, Some(day), day), End)
  }

  /** Typing a date exactly as the bot's reports print it marks that date. */
  lemma EnterFormattedDate(s: Store, employeeId: int, d: CalendarDate)
    ensures EnterDate(s, employeeId, Format(d)) == (MarkAttendance(s, employeeId, Some(d), d), End)
  {
    var t := Format(d);
    StripOfNumeral(t);
    ParseDateOfFormat(d);
  }

  /** Whitespace typed around a date, such as a leading space or the newline, is ignored. */
  lemma EnterPaddedDate(s: Store, employeeId: int, d: CalendarDate, before: string, after: string)
    requires forall j :: 0 <= j < |before| ==> IsSpace(before[j])
    requires forall j :: 0 <= j < |after| ==> IsSpace(after[j])
    ensures EnterDate(s, employeeId, before + Format(d) + after) == (MarkAttendance(s, employeeId, Some(d), d), End)
  {
    var t := Format(d);
    StripOfNumeral(t);
    StripOfPadded(before, t, after);
    ParseDateOfFormat(d);
  }

  /** `delete_employee_confirm`: the key read from the button, then `delete_employee`. */
  function DeleteConfirm(s: Store, data: string): Option<Store> {
    match CallbackField(data, 1)
    case None => None
    case Some(id) => Some(DeleteEmployee(s, id))
  }

  /** Pressing an employee's delete button deletes that employee and its records. */
  lemma DeleteButtonDeletes(s: Store, k: int)
    requires Valid(s) && 0 <= k < |s.employees|
    ensures var r := DeleteConfirm(s, CallbackData(DeletePrefix, s.employees[k].id));
      && r.Some?
      && (forall e :: e in r.value.employees <==> e in s.employees && e.id != s.employees[k].id)
      && (forall a :: a in r.value.ledger <==> a in s.ledger && a.employeeId != s.employees[k].id)
  {
    CallbackRoundTrip(DeletePrefix, s.employees[k].id);
    assert HasEmployee(s, s.employees[k].id);
  }

  /**
   * `employee_history_show`: the lifetime history of the employee on the
   * button; `Some(None)` is the "no data" answer (unknown key or no days),
   * `None` the exception of unreadable data.
   */
  function HistoryShown(s: Store, data: string): Option<Option<Row>> {
    match CallbackField(data, 1)
    case None => None
    case Some(id) =>
      match History(s, id, None, None)
      case None => Some(None)
      case Some(row) => if |row.days| == 0 then Some(None) else Some(Some(row))
  }

  /**
   * Pressing an employee's history button shows that employee's lifetime
   * report entry, or the "no data" answer when it lists no days.
   */
  lemma HistoryButtonShowsReportEntry(s: Store, k: int)
    requires Valid(s) && 0 <= k < |s.employees|
    ensures var entry := Report(s, None, None)[k];
      HistoryShown(s, CallbackData(HistoryPrefix, s.employees[k].id))
        == Some(if |entry.days| == 0 then None else Some(entry))
  {
    CallbackRoundTrip(HistoryPrefix, s.employees[k].id);
    HistoryIsReportEntry(s, k, None, None);
  }
}
