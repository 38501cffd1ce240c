# MyFriendsApp, modelled in Dafny

`MyFriendsApp` is a console contact manager. It keeps a list of friend records.
Each record holds:

- first and last name;
- an optional birthday (month and day);
- city, phone, street address, nickname, email, state and ZIP.

At start-up it loads the records from a CSV file. A main menu then offers four choices:

1. create a record;
2. search the records, then delete or edit one of them;
3. run reports: an alphabetical listing, a listing by upcoming birthday, or mailing labels;
4. save the list back to the file and exit.

Any exception that escapes an operation ends the program without saving. This includes end of console input and a failed `int()`.

The model has seven modules:

- `Wrappers`: `Option` and `Result`.
- `Text`: the Python string operations the program uses (`lower`, `upper`, `in`,
  `isdigit`, `int()`, `str()`, string `<`).
- `Records`: the record, the file's columns and the record ↔ row mapping.
- `Ordering`: Python's stable `sorted`.
- `Reports`: the three reports.
- `Search`: the search filter, the choice of a match, removal and the edit rule.
- `App`: the whole program.

`App` states each operation twice:

- as a function on a `Session` value (list, file, unread console lines, reports shown);
- as a method of the class `FriendsApp`, whose fields hold that state and change step by step.

Each method's `ensures` ties its final state, and the exception it raised, to the function.
Lemmas then prove what the program promises about those functions.

## Model

| member | source | states |
|---|---|---|
| Text.ParseIntNeedsDigit | app.py:61-62 | `int()` succeeds only on an answer containing a digit, so a blank birthday answer leaves the record without a birthday |
| Text.IntRoundTrip | app.py:43-44 | reading back the numeral `str()` writes for an integer gives that integer |
| Text.UpperIsYes | app.py:97 | `confirm.upper() == "YES"` holds exactly for the eight case variants of "yes" |
| Text.ContainsAtOffset | app.py:80 | the substring test `query in name` holds exactly when the query occurs at some offset of the name |
| Text.StrLessIrreflexive | app.py:119 | Python's string `<` is irreflexive |
| Text.StrLessTransitive | app.py:119 | Python's string `<` is transitive |
| Text.StrLessTotal | app.py:119 | any two distinct strings are ordered one way or the other |
| Ordering.SortAscending | app.py:119 | sorting distinct (key, position) entries yields an ascending rearrangement of them (same multiset) |
| Ordering.StableOrderCorrect | app.py:119 | the order `sorted` produces is a permutation of the positions, non-decreasing by key, with equal keys in original order |
| Ordering.StableOrderUnique | app.py:119 | any stable, non-decreasing arrangement of all positions is that order, so the result does not depend on the sorting algorithm |
| Records.SavedRowShape | app.py:35-52 | a saved row has a cell for every column of the header; the birthday cells are empty exactly when the record has no birthday |
| Records.LoadedBirthday | app.py:22-23 | a loaded record has a birthday exactly when both birthday cells are non-empty, and then it holds their two integers |
| Records.LoadFailsOn | app.py:20-30 | loading a row fails exactly when a cell it reads is missing (the day cell is read only after a non-empty month) or a non-empty pair of birthday cells is not two integers |
| Records.LoadFaultOrder | app.py:20-30 | a failing row raises `ValueError` exactly when the names and both birthday cells are present and non-empty and one is not an integer, even if a detail column is missing; otherwise `KeyError` |
| Records.EmptyMonthSkipsDay | app.py:22 | a row with an empty birthday month loads, without a birthday, even when the file has no `birthday_day` column |
| Records.BirthdayRoundTrip | app.py:22-23 | the birthday cells `save_to_file` writes (lines 43-44) read back as the same birthday, or none |
| Records.RowRoundTrip | app.py:21-31 | loading the row `save_to_file` writes for a record (lines 40-52) gives back that record, field for field |
| Reports.AlphabeticalSorted | app.py:118-120 | the alphabetical listing holds every record once, ordered by last name then first name, ties kept in list order |
| Reports.UpcomingSorted | app.py:121-122 | the birthday listing holds every record once, non-decreasing by days until the birthday (999 without one), ties kept in list order |
| Reports.BirthdaylessLast | app.py:122 | when every day count is below 999, all records without a birthday come after all records with one |
| Reports.UpcomingLines | app.py:123-124 | the listing prints each record with its day count, in sorted order, up to the first record without a birthday, where it stops |
| Reports.MailingLabels | app.py:125-127 | one label per record, in list order, made of that record's name, street and city/state/ZIP |
| Search.Matches | app.py:79-80 | the matches are exactly the positions of records whose lowered first or last name contains the lowered query, in increasing order |
| Search.MatchesExactly | app.py:79-80 | a record is listed if and only if the lowered query occurs at some offset of its lowered first or last name |
| Search.EmptyQueryMatchesAll | app.py:79-80 | the empty query lists every record, in list order |
| Search.SelectCases | app.py:89-93 | a non-digit answer cancels; k in 1..n picks the k-th match; 0 picks the last match (index -1); a larger number raises `IndexError` |
| Search.RemoveAtExactlyOne | app.py:98 | deletion removes exactly the chosen record and keeps the others in order (the multiset loses exactly that one copy) |
| Search.EditedFields | app.py:103-107 | an edit replaces city, phone and email each exactly when its answer is non-empty, and no other field |
| Search.BlankEditKeepsRecord | app.py:105-107 | blank answers leave the record unchanged |
| App.LoadRows | app.py:19-31 | loading reads at most one record per row and ends without error exactly when every row loads |
| App.LoadRowsAt | app.py:19-31 | row i's record is appended at position i when the row loads; otherwise loading stops there with that row's exception |
| App.LoadRowsExactly | app.py:19-31 | the loaded records are those of the rows before the first failing row, in file order, and that row's exception is the one raised |
| App.SaveLoadRoundTrip | app.py:12-52 | loading the rows `save_to_file` writes gives back the same list, in order, without error |
| App.SavedSessionReloads | app.py:133-134 | a new session started on a saved file begins with exactly the saved list |
| App.ReadBirthday | app.py:60-65 | the birthday prompts consume at most two console lines, and no more than remain |
| App.CreateSpec | app.py:54-75 | creating only reads console lines from the front, never touches the file or the reports |
| App.CreateAppends | app.py:54-75 | creating appends one record: names from the first two answers; the birthday from the next two when both are integers, none otherwise; after a non-integer month the day is not asked for; the seven details from the lines that follow, after which reading resumes; on an exception the list is unchanged |
| App.EditSpec | app.py:103-107 | editing only consumes console input and leaves the file and reports alone |
| App.Advance | app.py:79 | reading a line drops exactly the first unread console line |
| App.ReadFromTransitive | app.py:79-101 | proof step: reading lines in two stretches is reading them from the front |
| App.SearchSpec | app.py:78-101 | searching only consumes console input and never writes the file or shows a report |
| App.ChooseSpec | app.py:89-93 | the choice step only consumes console input and leaves the file and reports alone |
| App.ActSpec | app.py:94-101 | the action step only consumes console input and leaves the file and reports alone |
| App.SearchWithoutSelectionKeepsList | app.py:82-91 | with no match, or with a non-numeric answer such as the empty one, the search ends normally with the list unchanged |
| App.ChoosePicked | app.py:89-94 | proof step: answering with k in 1..n goes on to the action on the k-th match |
| App.SearchMatched | app.py:79-89 | proof step: a search with matches goes on to the choice among them |
| App.SearchDelete | app.py:93-99 | after "D", the picked match is removed exactly when the confirmation upper-cases to "YES", and the list is otherwise unchanged |
| App.EditAnswered | app.py:103-107 | proof step: three answers replace the record at its position by its edit and consume three lines |
| App.SearchEdit | app.py:93-101 | after "E", only the picked record changes, to its edit by the next three answers |
| App.ActDeletesOnlyOnYes | app.py:94-101 | an action other than "D" or "E" (any case) leaves the list alone; a record is removed only after "D" and a confirmation that upper-cases to "YES", and it is the picked one |
| App.ActChangesAtMostOne | app.py:94-101 | the action on a picked record removes it, edits it, or changes nothing |
| App.SearchChangesAtMostOne | app.py:78-101 | whatever the answers, a search leaves the list unchanged, removes one record, or edits one record |
| App.ReportStep | app.py:118-131 | showing a report (or ignoring an unknown choice) never changes the list, the file or the unread console lines |
| App.ReportsSpec | app.py:109-131 | the reports menu only consumes console input and never writes the file |
| App.ReportsStep | app.py:116-131 | proof step: a choice other than "3.9" shows its report and the menu repeats unless the report raised |
| App.ReportsKeepList | app.py:109-131 | running reports never changes the list |
| App.ConsList | app.py:116-129 | proof step: a choice read before a later "3.9" keeps that "3.9" the first one among the choices |
| App.ReportsReturnOnlyOnNine | app.py:128-129 | the reports menu returns normally only at the first "3.9" read |
| App.ReportsIgnoreOtherChoices | app.py:130-131 | an unrecognised reports choice changes nothing but the console position |
| App.Dispatch | app.py:143-148 | the operation a main-menu choice other than "4" runs only consumes console lines from the front and never writes the file |
| App.MainIgnoresOtherChoices | app.py:153-154 | an unrecognised main-menu choice changes nothing but the console position |
| App.MainStep | app.py:141-154 | proof step: a choice other than "4" runs its operation, and the menu goes on only when the operation raised nothing |
| App.FileWrittenOnlyOnExit | app.py:133-154 | the file changes only when the session ends through "4", and then it holds the final list; a crash leaves it as it was |
| App.ExitOnlyOnFour | app.py:149-152 | a session ends normally only right after reading a "4" |
| App.FriendsApp.constructor | app.py:8-10 | a new app starts with an empty list |
| App.FriendsApp.ReadLine | app.py:56 | `input()` returns the next console line and consumes it, or raises at end of input |
| App.FriendsApp.LoadFromFile | app.py:12-31 | the load loop appends each row's record in file order, stopping at the first failing row, as `LoadSpec` says |
| App.FriendsApp.SaveToFile | app.py:33-52 | the file becomes one row per record of the list, in list order |
| App.FriendsApp.ReadLines | app.py:67-73 | reads the next n console lines, or all that remain |
| App.FriendsApp.AskBirthday | app.py:60-65 | the `try` block reads month then day as `ReadBirthday` says, swallowing every failure |
| App.FriendsApp.CreateFriend | app.py:54-75 | the prompts of `create_friend`, proved equal to `CreateSpec` |
| App.FriendsApp.EditFriend | app.py:103-107 | each answer is assigned as soon as it is read, proved equal to `EditSpec` |
| App.FriendsApp.SearchFriend | app.py:78-101 | the search dialogue, proved equal to `SearchSpec` |
| App.FriendsApp.PrintUpcoming | app.py:123-124 | prints one line per record with its day count, and stops at the first record without a birthday |
| App.FriendsApp.PrintLabels | app.py:126-127 | prints one label per record, in list order |
| App.FriendsApp.ShowReport | app.py:118-131 | shows the report for one choice, proved equal to `ReportStep` |
| App.FriendsApp.RunReports | app.py:109-131 | the reports loop, proved equal to `ReportsSpec` |
| App.FriendsApp.MainMenu | app.py:133-154 | load, then the menu loop until "4" or an exception, proved equal to `RunSpec` |

## Left out

- File I/O, `os.path.exists` and CSV syntax: the file is a value. It is either absent or a sequence of data rows, each a map from column to cell text. Quoting, escaping and the header line are not modelled.
- `csv.DictReader` quirks: a short row gives `None` cells, and extra fields go to a `None` key. A row has a cell exactly for the columns the header names. A header that lacks a column raises `KeyError` only when a row reaches the read of that cell; `birthday_day` is read only after a non-empty month.
- Printed text: prompts, menus and messages are not modelled. Reports are recorded as values: the records of a listing, the (record, days) lines of the birthday listing, and the three lines of each mailing label. `str(Person)` is not modelled.
- friend.py and birthday.py are not part of this model.
  - `Person` is a value with the fields app.py uses.
  - `set_birthday` stores the (month, day) pair as given. Any range check it makes is not modelled.
  - `Birthday.days_until` depends on today's date. It becomes a function `daysUntil` supplied when the app is constructed.
- The file name `friendsdatabase.csv`: there is only one file, so its name plays no part.
- Case mapping, `isdigit` and `int()` are their ASCII parts:
  - `lower`/`upper` map only A–Z/a–z;
  - `isdigit` accepts only 0–9;
  - `int()` accepts ASCII whitespace, one sign and ASCII digits, with no `_` separators and no other Unicode digits.
- `Text.ParseIntNeedsDigit`: states only the necessary condition for `int()` to succeed. The exact accepted language is `ParseInt` itself.
- Object identity: the records are values. The chosen record is removed or edited at its position, which matches removal by identity. `list.remove` compares with `==`; if `Person` defines equality, an equal earlier duplicate would be removed instead, and that is not modelled.
- Exceptions other than those named in `Fault` (I/O errors, `KeyboardInterrupt`, a `set_birthday` failure while loading) are not modelled; the named ones end the program without saving, as an uncaught exception does.

