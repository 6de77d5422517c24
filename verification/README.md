# Staff attendance bot — Dafny model

This project models the core of a Telegram bot that keeps staff attendance.
An administrator registers employees, marks the days they were present, and
asks for reports, optionally filtered by month and year.

The model has two parts:

- **The store (`db.py`).** An employee directory and an attendance ledger,
  each held as a sequence in the order the database returns rows. Both are
  kept in one immutable `Store` together with the next primary key of each
  table. Adding, deleting, marking, reporting and history are pure functions
  on that store.
- **The decisions `bot.py` makes around the store.** These are:
  - reading the `ADMIN_IDS` setting and the admin check, which guards only
    `start` and adding an employee (bot.py:34, bot.py:47); deleting, marking,
    reports and history do not call it;
  - the data carried by inline buttons and how it is read back;
  - the `-` that means "no position";
  - the month/year filter chosen from the report buttons;
  - the step that turns a typed date into a mark.

The Python pieces these decisions rely on are modelled as far as the bot
uses them:

- `str.strip`, `str.split` with one separator character, `str(int)`, `int(str)`;
- `date.strftime("%Y-%m-%d")` and `datetime.strptime(text, "%Y-%m-%d")`.

Files and modules:

| file | module | contents |
|---|---|---|
| `common.dfy` | `Common` | `Option`, the subsequence relation, distinct keys |
| `text.dfy` | `Text` | whitespace stripping, splitting and joining, integer text in both directions |
| `dates.dfy` | `Dates` | calendar dates, the `YYYY-MM-DD` writer and the `strptime` reader |
| `db.dfy` | `Db` | the store and its operations |
| `db_properties.dfy` | `StoreProperties` | properties relating several store operations |
| `bot.dfy` | `Bot` | the bot's decision logic |

Where the code differs from what an attendance store might be expected to
do, the model follows the code:

- Names are not checked. An empty name is stored like any other.
- Marking attendance does not check that the employee exists. It stores a
  record with whatever key it is given.
- `add_employee` returns nothing, so `AddEmployee` returns only the new store.
- Deleting an unknown key changes nothing. In particular it keeps any records
  that carry that key without a matching directory entry.
- Report days are in ledger order. The queries have no `ORDER BY`, so the days
  are not sorted.
- The filters test Python truthiness (`if month:`). A month or year of `0`
  therefore switches that filter off, exactly as an absent one does (`Db.IsSet`).
- Marking twice on the same day stores two records, and both are counted.

## Model

| member | source | states |
|---|---|---|
| Db.Empty | db.py:30-31 | The freshly created tables are empty, and their key counters satisfy the store invariant. |
| Db.AddEmployee | db.py:34-39 | Exactly one entry is appended with the given name and position. Earlier entries and the ledger are unchanged. On a valid store the new key is used by no existing employee, and the store stays valid. |
| Db.FindEmployee | db.py:44 | Looking up a primary key finds nothing exactly when no entry has that key; otherwise it gives a position holding that key. |
| Db.WithoutEmployee | db.py:46 | Deleting an entry keeps exactly the entries with other keys, in their order. |
| Db.WithoutRecordsOf | db.py:18 | The cascade keeps exactly the records of other employees, in ledger order. |
| Db.DeleteEmployee | db.py:42-48 | An unknown key changes nothing. A known key removes that employee and all of its records and keeps everything else, in order. Validity is preserved. |
| Db.MarkAttendance | db.py:58-65 | Exactly one record is appended, carrying the given employee key and dated `day`, or `today` when no day is given. The directory and earlier records are unchanged, the new record key is fresh, and the key of the employee is not checked. |
| Db.Selected | db.py:73-77 | A record is selected if and only if it belongs to the employee, its month equals the month filter (or that filter is unset) and its year equals the year filter (or that filter is unset). The selection keeps ledger order. |
| Db.Report | db.py:68-86 | One entry per employee, in directory order, with that employee's name and position, the formatted dates of the selected records as days, and `total == |days|`. |
| Db.History | db.py:89-102 | An unknown key gives no result. A known key gives that employee's report entry under the same filter. |
| StoreProperties.UnsetFilterSelectsAll | db.py:74-77 | With neither filter set, whether absent or zero, the query selects every record of the employee, in ledger order. |
| StoreProperties.FilteredIsSubsequence | db.py:73-78 | A filtered query is a subsequence of the unfiltered one: nothing is added or reordered. |
| StoreProperties.DaysOfSubsequence | db.py:78 | Formatting the records preserves the subsequence relation between two queries. |
| StoreProperties.ReportFilterSemantics | db.py:72-84 | Each filtered report entry lists a subsequence of that employee's lifetime days. With no filter set, it equals the lifetime entry. |
| StoreProperties.HistoryIsReportEntry | db.py:95-102 | On a valid store, the history of the employee at position `i` is exactly entry `i` of the report under the same filter. |
| StoreProperties.SelectedIgnoresOtherRecords | db.py:18 | Removing one employee's records leaves every other employee's query unchanged. |
| StoreProperties.WithoutAbsentEmployee | db.py:44-48 | Removing a key that no entry has leaves the directory unchanged. |
| StoreProperties.WithoutUniqueEmployee | db.py:46 | With distinct keys, removing the key of entry `k` removes entry `k` and nothing else. |
| StoreProperties.DeleteUniqueEmployee | db.py:42-48 | Deleting the employee at position `k` of a valid store leaves the directory without entry `k`, and the ledger without that employee's records. |
| StoreProperties.ReportWithoutEntry | db.py:68-86 | Removing entry `k` and its records removes entry `k` of every report and keeps every other entry as it was. |
| StoreProperties.DeleteRemovesOneReportEntry | db.py:42-48 | Deleting the employee at position `k` removes exactly report entry `k`. All other entries keep their days and totals. |
| StoreProperties.DeletedEmployeeIsGone | db.py:42-48 | After a delete, no listed employee has the deleted key, and its history is absent. |
| StoreProperties.MarkExtendsOneReportEntry | db.py:58-65 | A mark adds its formatted date to the end of the marked employee's entry when the date passes the filter, and the total grows by one. Every other entry, name and position is unchanged. |
| StoreProperties.DuplicateMarksCountTwice | db.py:58-65 | Marking the same employee on the same date twice stores two records. Both appear in the report, and the total grows by two. |
| StoreProperties.SelectedOfUnknownKey | db.py:73 | A key no record carries selects nothing. |
| StoreProperties.AddAppendsEmptyReportEntry | db.py:34-39 | When no orphan record carries the next key, adding an employee appends one report entry with no days and total 0, and keeps the other entries. |
| StoreProperties.AddedEmployeeListedOnce | db.py:51-55 | After adding to a valid store, the listing holds one new entry with the given name and position and a key new to the store; without it the listing is the old one. |
| Text.Strip | bot.py:139 | The result is no longer than the text, and neither of its ends is whitespace. All-whitespace text gives the empty text. Text with non-whitespace ends is unchanged. |
| Text.StripIsSlice | bot.py:139 | `strip()` removes whitespace and nothing else: the result is one contiguous slice of the text, and every character before and after that slice is whitespace. |
| Text.StripOfPadded | bot.py:139 | Any run of whitespace before and after a text whose ends are not whitespace is exactly what `strip()` removes. |
| Text.Split | bot.py:20 | The pieces are never an empty list, none holds the separator, and joining them with the separator gives the text back. |
| Text.SplitOfJoin | bot.py:84 | Splitting the joined pieces gives those pieces back, when no piece holds the separator. |
| Text.IntToString | bot.py:74 | `f"{n}"` is non-empty and starts with `-` exactly for negative numbers. Every other character is a digit, and the first digit is `0` only for 0, so there is no `+` and no leading zero. |
| Text.IntToStringRoundTrip | bot.py:84 | `int(str(n)) == n` for every integer. |
| Text.ParseIntOfDigits | bot.py:20 | `int()` reads a digit string as its decimal value. |
| Dates.DaysInMonth | bot.py:142 | Every month has 28 to 31 days, and 29 exactly for February of a leap year. |
| Dates.Pad | db.py:78 | A padded field has the requested width and only digits. |
| Dates.Format | db.py:78 | `strftime("%Y-%m-%d")` writes ten characters: digits, with dashes at positions 4 and 7. |
| Dates.ParseDate | bot.py:142 | A text `strptime` accepts is 8 to 10 characters long with a dash at position 4. |
| Dates.ParseDateOfFormat | bot.py:142 | Reading back a formatted date with `strptime` gives the same date. |
| Dates.FormatOfParseDate | bot.py:142 | A ten-character text that `strptime` accepts, and whose day does not start with a space, is exactly the `strftime` text of the date it reads. |
| Bot.NonEmptyPieces | bot.py:20 | `if x` keeps every non-empty piece, as often as it occurs and in order, and drops every empty one. |
| Bot.ReadAll | bot.py:20 | The list comprehension succeeds exactly when every piece reads, and then it holds each piece's value at the same position. |
| Bot.ParseAdminIds | bot.py:20 | An unset or empty `ADMIN_IDS` gives the empty list. Reading fails, so the bot does not start, exactly when some non-empty comma-separated piece is not an integer. |
| Bot.AdminIdsRoundTrip | bot.py:20 | A setting listing some ids, comma-separated, reads back as exactly those ids. |
| Bot.AdminIdsTrailingComma | bot.py:20 | A trailing comma is ignored: the listing of `ids` followed by `,` reads back as `ids`, and a lone `,` as the empty list. |
| Bot.AccessFollowsSetting | bot.py:25-30 | With the setting listing `ids`, a user is allowed exactly when `ids` is empty or contains the user. With the variable unset, everyone is allowed. |
| Bot.SplitOfButtonData | bot.py:183 | Splitting a button's data on `_` gives back the prefix words and the last field. |
| Bot.CallbackRoundTrip | bot.py:84 | For every integer, `del_{id}`, `mark_{id}` and `hist_{id}` give the id back at index 1 (also used at bot.py:105 and bot.py:224), and `rep_month_{i}` gives `i` back at index 2 (bot.py:164). |
| Bot.BotButtonsRoundTrip | bot.py:96-105 | The `mark_{id}` button built for an employee gives that key back at field 1, as do `del_{id}` (bot.py:74, 84) and `hist_{id}` (bot.py:215, 224). `rep_month_{i}` gives `i` back at field 2 (bot.py:154, 164), and `rep_year_{y}` chooses year `y` with the month chosen before (bot.py:170-188). |
| Bot.PositionFromText | bot.py:60-63 | A lone `-` means no position. Any other text is kept verbatim. |
| Bot.AllYearsChoosesNoFilter | bot.py:183-185 | `rep_year_all` selects no month and no year, whatever month was chosen before. |
| Bot.YearButtonChoosesMonthAndYear | bot.py:186-188 | A numbered year button selects the chosen month together with that year. |
| Bot.MarkChoice | bot.py:128-135 | "today" marks the selected employee on the supplied current date and ends the dialogue. "other date" asks for a date and changes nothing. Any other data, such as a stale `mark_{id}` button, changes nothing and leaves the dialogue where it is. |
| Bot.EnterDate | bot.py:138-148 | The stripped text fails to read exactly when the dialogue keeps asking, and then nothing is recorded. Otherwise exactly one record is appended for the selected employee, dated as read, and the dialogue ends. |
| Bot.EnterFormattedDate | bot.py:139-146 | Typing a date as the reports print it marks exactly that date. |
| Bot.EnterPaddedDate | bot.py:139-146 | Whitespace typed around such a date, a leading space or a trailing newline, is ignored: exactly that date is marked. |
| Bot.DeleteButtonDeletes | bot.py:81-85 | Pressing an employee's delete button removes that employee and that employee's records, and nothing else. |
| Bot.HistoryButtonShowsReportEntry | bot.py:221-228 | Pressing an employee's history button shows that employee's lifetime report entry, or the "no data" answer when it has no days. |

## Left out

- The SQLAlchemy engine, sessions, `DATABASE_URL` and `init_db`. The store is an
  in-memory value, and the ORM cascade is an explicit filter (`Db.WithoutRecordsOf`).
- SQL `extract` is field access on the `Date` datatype.
- Transactions, atomicity and concurrent access. The code has no logic of its own
  for these, and each model operation is a single step.
- Primary keys are counters that never hand out a key twice. A database that
  assigns the largest key plus one could reuse the key of a deleted last row.
  The foreign key is not enforced by the model, just as `mark_attendance` does
  not check it.
- Wall-clock reads (`date.today()`, `datetime.now()`) are parameters (`today`).
  The two year buttons that `report_month_select` builds from the current year
  are therefore not modelled as a list.
- Telegram handlers, keyboards, reply texts, the `ConversationHandler` wiring in
  `main` and `run_polling` are transport and UI. So are the report and history
  message formatting, and the "no data" reply for an empty report.
- `report_utils.py` (xlsx and PDF rendering) is not part of this model.
- The conversation's `user_data` (the chosen employee key and the chosen month)
  becomes parameters: `employeeId` in `Bot.MarkChoice` and `Bot.EnterDate`,
  `chosenMonth` in `Bot.ReportChoice`.
- Text.ParseInt: only ASCII digits are read. Python's `int()` also accepts other
  Unicode decimal digits. The function has no contract of its own; what it does
  is stated by `Text.IntToStringRoundTrip` and `Text.ParseIntOfDigits`. Its
  whitespace is that of `int()`, not of `str.strip()`: the information separators
  U+001C to U+001F, which `strip()` removes, make `int()` fail, so a setting
  such as `ADMIN_IDS="\x1c5"` stops the bot (`Text.IsInformationSeparator`).
- Dates.ParseDate: `%Y`, `%m` and `%d` are matched with ASCII digits only, while
  Python's `\d` also matches other Unicode digits.
- Dates.Format: years below 1000 are zero-padded to four digits. Whether
  Python's `strftime` pads them depends on the platform's C library.
- Db.ListEmployees: no contract of its own, since it returns the directory as
  stored. Its properties are stated by `StoreProperties.AddedEmployeeListedOnce`
  and `StoreProperties.DeletedEmployeeIsGone`.
- Bot.IsAdmin: no contract of its own. The allow-list rule is stated by
  `Bot.AccessFollowsSetting` for every configured list.
- Bot.CallbackData: no contract of its own. It builds `f"del_{emp.id}"`,
  `f"mark_{emp.id}"`, `f"hist_{emp.id}"` and `f"rep_month_{i}"` (bot.py:74, 96,
  215, 154), and what it builds is stated through its decoder by
  `Bot.CallbackRoundTrip` and `Bot.BotButtonsRoundTrip`.
- Bot.CallbackField: no contract of its own. It is `int(query.data.split("_")[k])`
  (bot.py:84, 105, 164, 224), and its round trip with `Bot.CallbackData` is
  stated by `Bot.CallbackRoundTrip` and `Bot.BotButtonsRoundTrip`.
- Db.DaysOf: no contract of its own. It is the `strftime` list of db.py:78 and
  db.py:100, and its properties are stated by `Db.Report`,
  `StoreProperties.DaysOfSubsequence` and `StoreProperties.MarkExtendsOneReportEntry`.
- Bot.ReportChoice, Bot.DeleteConfirm and Bot.HistoryShown: no contracts of
  their own. Their behaviour on the buttons the bot builds is stated by:
  - `Bot.AllYearsChoosesNoFilter` and `Bot.YearButtonChoosesMonthAndYear`;
  - `Bot.DeleteButtonDeletes`;
  - `Bot.HistoryButtonShowsReportEntry`.
- Selecting the employee on a mark button (bot.py:102-106) has no member of its
  own: it only reads the key, which `Bot.BotButtonsRoundTrip` covers.
- Row order. `query(...).all()` has no `ORDER BY`, and SQL does not promise any
  order for such a query. The model assumes rows come back in insertion order.
  Every "appended at the end" and "in ledger order" claim rests on that
  assumption.
