/** The contact-list manager `MyFriendsApp` of app.py.

    Its state is the in-memory list of records (`self.friends`), the backing
    file (absent, or a sequence of data rows), the console lines not yet read
    by `input()`, and the reports shown so far. The functions of the first half
    say what each operation does to that state; the class `FriendsApp` performs
    the operations step by step and is proved to agree with them. An exception
    that escapes an operation ends the program: it is returned as a `Fault`,
    the menu loop stops, and nothing is saved. */
module App {
  import opened Wrappers
  import opened Text
  import opened Records
  import opened Ordering
  import opened Reports
  import opened Search

  /** Everything the program reads and changes. */
  datatype Session = Session(
    friends: seq<Person>,
    file: Option<seq<Row>>,
    input: seq<string>,
    shown: seq<Report>)

  /** The state after an operation, and the exception that ended it, if any. */
  datatype Step = Step(s: Session, fault: Option<Fault>)

  /** How a session ends: by menu choice "4", or by an exception. */
  datatype Outcome = SavedAndExited | Crashed(fault: Fault)

  datatype Finish = Finish(s: Session, outcome: Outcome)

  /** `input` is what remains of `before` after reading some lines from its front. */
  predicate ReadFrom(before: seq<string>, after: seq<string>) {
    |after| <= |before| && after == before[|before| - |after|..]
  }

  // ---------------------------------------------------------------- loading

  /** The records read from the rows before the first row that fails, and that
      row's exception. */
  datatype Loaded = Loaded(people: seq<Person>, fault: Option<Fault>)

  /** The `for row in reader` loop of `load_from_file`. */
  function LoadRows(rows: seq<Row>): (r: Loaded)
    ensures |r.people| <= |rows|
    ensures r.fault.None? <==> |r.people| == |rows|
  {
    if rows == [] then Loaded([], None)
    else
      match RowToPerson(rows[0])
      case Failure(e) => Loaded([], Some(e))
      case Success(p) =>
        var rest := LoadRows(rows[1..]);
        Loaded([p] + rest.people, rest.fault)
  }

  /** Reading goes on past row `i` exactly when that row loads. */
  lemma {:induction false} LoadRowsAt(rows: seq<Row>, i: nat)
    requires i < |rows| && i <= |LoadRows(rows).people|
    ensures RowToPerson(rows[i]).Success? ==>
      i < |LoadRows(rows).people| && LoadRows(rows).people[i] == RowToPerson(rows[i]).value
    ensures RowToPerson(rows[i]).Failure? ==>
      |LoadRows(rows).people| == i && LoadRows(rows).fault == Some(RowToPerson(rows[i]).error)
    decreases i
  {
    if i > 0 {
      LoadRowsAt(rows[1..], i - 1);
      assert rows[1..][i - 1] == rows[i];
    }
  }

  /** The records read are those of the rows before the first row that fails,
      in file order, and that row's exception is the one raised. */
  lemma LoadRowsExactly(rows: seq<Row>)
    ensures var r := LoadRows(rows);
      (forall i :: 0 <= i < |r.people| ==> RowToPerson(rows[i]) == Success(r.people[i])) &&
      (r.fault.Some? ==> RowToPerson(rows[|r.people|]) == Failure(r.fault.value))
  {
    var r := LoadRows(rows);
    forall i | 0 <= i < |r.people|
      ensures RowToPerson(rows[i]) == Success(r.people[i])
    {
      LoadRowsAt(rows, i);
    }
    if r.fault.Some? {
      LoadRowsAt(rows, |r.people|);
    }
  }

  /** `load_from_file`: nothing when the file does not exist, otherwise every
      row's record appended in file order, up to the first row that fails. */
  function LoadSpec(s: Session): Step {
    if s.file.None? then Step(s, None)
    else
      var loaded := LoadRows(s.file.value);
      Step(s.(friends := s.friends + loaded.people), loaded.fault)
  }

  /** The data rows `save_to_file` writes, one per record in list order. */
  function SaveRows(friends: seq<Person>): seq<Row> {
    seq(|friends|, i requires 0 <= i < |friends| => PersonToRow(friends[i]))
  }

  /** `save_to_file`: the file is replaced by the rows of the whole list. */
  function SaveSpec(s: Session): Session {
    s.(file := Some(SaveRows(s.friends)))
  }

  /** Loading what was saved gives back the same records in the same order. */
  lemma {:induction false} SaveLoadRoundTrip(friends: seq<Person>)
    ensures LoadRows(SaveRows(friends)) == Loaded(friends, None)
  {
    var rows := SaveRows(friends);
    var r := LoadRows(rows);
    forall i | 0 <= i < |friends|
      ensures RowToPerson(rows[i]) == Success(friends[i])
    {
      RowRoundTrip(friends[i]);
    }
    LoadRowsExactly(rows);
    assert |r.people| == |friends|;
    assert r.people == friends;
  }

  /** A session started on a file that an earlier session saved begins with
      exactly the records that session had. */
  lemma SavedSessionReloads(friends: seq<Person>, input: seq<string>)
    ensures LoadSpec(Session([], Some(SaveRows(friends)), input, [])) ==
      Step(Session(friends, Some(SaveRows(friends)), input, []), None)
  {
    SaveLoadRoundTrip(friends);
  }

  // ---------------------------------------------------------------- creating

  /** The birthday `create_friend` attaches and how many lines it reads for it:
      the day is read only after the month parsed, and any failure (a non-integer
      or the end of input) is swallowed by the bare `except`. */
  datatype BirthdayAnswer = BirthdayAnswer(birthday: Option<Birthday>, used: nat)

  function ReadBirthday(lines: seq<string>): (r: BirthdayAnswer)
    ensures r.used <= |lines| && r.used <= 2
  {
    if lines == [] then BirthdayAnswer(None, 0)
    else
      match ParseInt(lines[0])
      case None => BirthdayAnswer(None, 1)
      case Some(m) =>
        if |lines| < 2 then BirthdayAnswer(None, 1)
        else
          match ParseInt(lines[1])
          case None => BirthdayAnswer(None, 2)
          case Some(d) => BirthdayAnswer(Some(Birthday(m, d)), 2)
  }

  /** The number of free-text fields `create_friend` reads after the birthday. */
  const DetailCount: nat := 7

  /** `create_friend`: first and last name, the birthday, then city, phone,
      street address, nickname, email, state and ZIP; the record is appended. */
  function CreateSpec(s: Session): (r: Step)
    ensures ReadFrom(s.input, r.s.input)
    ensures r.s.file == s.file && r.s.shown == s.shown
  {
    var lines := s.input;
    if |lines| < 2 then Step(s.(input := []), Some(EndOfInput))
    else
      var answer := ReadBirthday(lines[2..]);
      var rest := lines[2 + answer.used..];
      if |rest| < DetailCount then Step(s.(input := []), Some(EndOfInput))
      else
        var p := Person(lines[0], lines[1], answer.birthday,
                        rest[0], rest[1], rest[2], rest[3], rest[4], rest[5], rest[6]);
        Step(s.(friends := s.friends + [p], input := rest[DetailCount..]), None)
  }

  /** Creating only appends: on success the list gains one record at its end.
      Its names are the first two answers. The birthday is the next two answers
      when both are integers, and none otherwise. After a month that is not an
      integer the day is never asked for, so the details start one line earlier.
      The seven details are the lines that follow, and reading resumes after
      them. On failure the list is unchanged. */
  lemma CreateAppends(s: Session)
    ensures var r := CreateSpec(s);
      (r.fault.Some? ==> r.s.friends == s.friends) &&
      (r.fault.None? ==>
         var d := if ParseInt(s.input[2]).Some? then 4 else 3;
         |s.input| >= d + DetailCount &&
         |r.s.friends| == |s.friends| + 1 && r.s.friends[..|s.friends|] == s.friends &&
         var p := r.s.friends[|s.friends|];
         p.firstName == s.input[0] && p.lastName == s.input[1] &&
         p.birthday == (if d == 4 && ParseInt(s.input[3]).Some?
                        then Some(Birthday(ParseInt(s.input[2]).value, ParseInt(s.input[3]).value))
                        else None) &&
         p.city == s.input[d] && p.phone == s.input[d + 1] && p.streetAddress == s.input[d + 2] &&
         p.nickname == s.input[d + 3] && p.emailAddress == s.input[d + 4] &&
         p.state == s.input[d + 5] && p.zip == s.input[d + 6] &&
         r.s.input == s.input[d + DetailCount..])
  {
    var r := CreateSpec(s);
    if r.fault.None? {
      assert r.s.friends[..|s.friends|] == s.friends;
    }
  }

  // ---------------------------------------------------------------- searching

  /** `edit_friend` on the record at position `i`: city, phone and email are
      read in turn, each assigned as soon as it is read. */
  function EditSpec(s: Session, i: nat): (r: Step)
    requires i < |s.friends|
    ensures ReadFrom(s.input, r.s.input)
    ensures r.s.file == s.file && r.s.shown == s.shown
  {
    var n := if |s.input| < 3 then |s.input| else 3;
    var p := Edited(s.friends[i], s.input[..n]);
    Step(s.(friends := s.friends[i := p], input := s.input[n..]),
         if n < 3 then Some(EndOfInput) else None)
  }

  /** Drops the line just read from the console. */
  function Advance(s: Session): (r: Session)
    requires s.input != []
    ensures ReadFrom(s.input, r.input) && |r.input| == |s.input| - 1
  {
    s.(input := s.input[1..])
  }

  lemma ReadFromTransitive(a: seq<string>, b: seq<string>, c: seq<string>)
    requires ReadFrom(a, b) && ReadFrom(b, c)
    ensures ReadFrom(a, c)
  {
    assert a[|a| - |b|..][|b| - |c|..] == a[|a| - |c|..];
  }

  /** `search_friend`: read the query and list the matches; with none, return. */
  function SearchSpec(s: Session): (r: Step)
    ensures ReadFrom(s.input, r.s.input)
    ensures r.s.file == s.file && r.s.shown == s.shown
  {
    if s.input == [] then Step(s, Some(EndOfInput))
    else
      var matches := Matches(s.friends, Lower(s.input[0]));
      var s1 := Advance(s);
      if matches == [] then Step(s1, None)
      else
        var r := ChooseSpec(s1, matches);
        ReadFromTransitive(s.input, s1.input, r.s.input);
        r
  }

  /** Read the choice among the matches: cancel, pick one, or fail on an index
      past the end. */
  function ChooseSpec(s: Session, matches: seq<nat>): (r: Step)
    requires forall k :: 0 <= k < |matches| ==> matches[k] < |s.friends|
    ensures ReadFrom(s.input, r.s.input)
    ensures r.s.file == s.file && r.s.shown == s.shown
  {
    if s.input == [] then Step(s, Some(EndOfInput))
    else
      var s1 := Advance(s);
      match Select(matches, s.input[0])
      case Cancel => Step(s1, None)
      case OutOfRange => Step(s1, Some(IndexOutOfRange))
      case Picked(i) =>
        assert i < |s.friends|;
        var r := ActSpec(s1, i);
        ReadFromTransitive(s.input, s1.input, r.s.input);
        r
  }

  /** Read the action for the picked record at position `i`: "D" (any case)
      asks for confirmation and deletes, "E" edits, anything else returns. */
  function ActSpec(s: Session, i: nat): (r: Step)
    requires i < |s.friends|
    ensures ReadFrom(s.input, r.s.input)
    ensures r.s.file == s.file && r.s.shown == s.shown
  {
    if s.input == [] then Step(s, Some(EndOfInput))
    else
      var action := Upper(s.input[0]);
      var s1 := Advance(s);
      var r :=
        if action == "D" then
          if s1.input == [] then Step(s1, Some(EndOfInput))
          else
            var s2 := Advance(s1);
            if Upper(s1.input[0]) == "YES" then Step(s2.(friends := RemoveAt(s2.friends, i)), None)
            else Step(s2, None)
        else if action == "E" then EditSpec(s1, i)
        else Step(s1, None);
      ReadFromTransitive(s.input, s1.input, r.s.input);
      r
  }

  /** With no match, or with an answer that is not all digits (the empty answer
      included), the search leaves the list as it was. */
  lemma SearchWithoutSelectionKeepsList(s: Session)
    requires |s.input| >= 1
    requires var matches := Matches(s.friends, Lower(s.input[0]));
      matches == [] || (|s.input| >= 2 && !IsDigits(s.input[1]))
    ensures SearchSpec(s).s.friends == s.friends && SearchSpec(s).fault == None
  {
    var matches := Matches(s.friends, Lower(s.input[0]));
    if matches != [] {
      SelectCases(matches, s.input[1]);
    }
  }

  /** Answering with the position `k` of a match goes on to the action on that
      match. */
  lemma ChoosePicked(s: Session, matches: seq<nat>, k: nat)
    requires forall j :: 0 <= j < |matches| ==> matches[j] < |s.friends|
    requires |s.input| >= 1 && 1 <= k <= |matches|
    requires IsDigits(s.input[0]) && DigitsValue(s.input[0]) == k
    ensures ChooseSpec(s, matches) == ActSpec(Advance(s), matches[k - 1])
  {
    SelectCases(matches, s.input[0]);
  }

  /** A search whose query has matches goes on to the choice among them. */
  lemma SearchMatched(s: Session)
    requires |s.input| >= 1 && Matches(s.friends, Lower(s.input[0])) != []
    ensures SearchSpec(s) == ChooseSpec(Advance(s), Matches(s.friends, Lower(s.input[0])))
  {
  }

  /** Deleting the picked match removes exactly that record when the
      confirmation, upper-cased, is "YES", and nothing otherwise. */
  lemma SearchDelete(s: Session, k: nat)
    requires |s.input| >= 4
    requires var matches := Matches(s.friends, Lower(s.input[0]));
      1 <= k <= |matches| && IsDigits(s.input[1]) && DigitsValue(s.input[1]) == k &&
      Upper(s.input[2]) == "D"
    ensures var matches := Matches(s.friends, Lower(s.input[0]));
      var r := SearchSpec(s);
      r.fault == None && r.s.input == s.input[4..] &&
      r.s.friends == (if Upper(s.input[3]) == "YES" then RemoveAt(s.friends, matches[k - 1]) else s.friends)
  {
    var matches := Matches(s.friends, Lower(s.input[0]));
    var s1 := Advance(s);
    var s2 := Advance(s1);
    SearchMatched(s);
    ChoosePicked(s1, matches, k);
    assert s2.input[1..][1..] == s.input[4..];
  }

  /** Three answers to the edit prompts replace the record at `i` by its edit. */
  lemma EditAnswered(s: Session, i: nat)
    requires i < |s.friends| && |s.input| >= 3
    ensures EditSpec(s, i) ==
      Step(s.(friends := s.friends[i := Edited(s.friends[i], [s.input[0], s.input[1], s.input[2]])],
              input := s.input[3..]), None)
  {
    assert s.input[..3] == [s.input[0], s.input[1], s.input[2]];
  }

  /** Editing the picked match replaces that record, and only it, by its edit:
      city, phone and email, each replaced exactly when its answer is non-empty. */
  lemma SearchEdit(s: Session, k: nat)
    requires |s.input| >= 6
    requires var matches := Matches(s.friends, Lower(s.input[0]));
      1 <= k <= |matches| && IsDigits(s.input[1]) && DigitsValue(s.input[1]) == k &&
      Upper(s.input[2]) == "E"
    ensures var matches := Matches(s.friends, Lower(s.input[0]));
      var i := matches[k - 1];
      var r := SearchSpec(s);
      r.fault == None && r.s.input == s.input[6..] &&
      r.s.friends == s.friends[i := Edited(s.friends[i], [s.input[3], s.input[4], s.input[5]])]
  {
    var matches := Matches(s.friends, Lower(s.input[0]));
    var s1 := Advance(s);
    var s2 := Advance(s1);
    var s3 := Advance(s2);
    SearchMatched(s);
    ChoosePicked(s1, matches, k);
    assert ActSpec(s2, matches[k - 1]) == EditSpec(s3, matches[k - 1]);
    EditAnswered(s3, matches[k - 1]);
    assert s3.input[3..] == s.input[6..];
  }

  /** `after` is `before` unchanged, with one record removed, or with one
      record replaced by an edit of it. */
  ghost predicate ChangesAtMostOne(before: seq<Person>, after: seq<Person>) {
    after == before ||
    (exists i :: 0 <= i < |before| && after == RemoveAt(before, i)) ||
    (exists i, answers: seq<string> :: 0 <= i < |before| && |answers| <= 3 &&
       after == before[i := Edited(before[i], answers)])
  }

  /** The action on a picked record removes it, edits it, or changes nothing. */
  lemma ActChangesAtMostOne(s: Session, i: nat)
    requires i < |s.friends|
    ensures ChangesAtMostOne(s.friends, ActSpec(s, i).s.friends)
  {
    var r := ActSpec(s, i);
    if s.input != [] && Upper(s.input[0]) == "E" {
      var t := s.input[1..];
      var n := if |t| < 3 then |t| else 3;
      var answers := t[..n];
      assert r.s.friends == s.friends[i := Edited(s.friends[i], answers)];
    } else if r.s.friends != s.friends {
      assert r.s.friends == RemoveAt(s.friends, i);
    }
  }

  /** The guard of the action: an answer other than "D" or "E" (any case)
      leaves the list alone, and a record goes only after "D" and a confirmation
      that upper-cases to "YES", and then it is the picked one. */
  lemma ActDeletesOnlyOnYes(s: Session, i: nat)
    requires i < |s.friends|
    ensures s.input == [] || Upper(s.input[0]) !in {"D", "E"} ==> ActSpec(s, i).s.friends == s.friends
    ensures |ActSpec(s, i).s.friends| < |s.friends| ==>
      |s.input| >= 2 && Upper(s.input[0]) == "D" && Upper(s.input[1]) == "YES" &&
      ActSpec(s, i).s.friends == RemoveAt(s.friends, i)
  {
  }

  /** Whatever the answers, a search leaves the list as it was, removes one
      record, or replaces one record by an edit of it. */
  lemma SearchChangesAtMostOne(s: Session)
    ensures ChangesAtMostOne(s.friends, SearchSpec(s).s.friends)
  {
    if |s.input| >= 2 {
      var matches := Matches(s.friends, Lower(s.input[0]));
      var s1 := Advance(s);
      if matches != [] && Select(matches, s1.input[0]).Picked? {
        var i := Select(matches, s1.input[0]).pos;
        assert i in matches;
        var s2 := Advance(s1);
        assert SearchSpec(s) == ChooseSpec(s1, matches) == ActSpec(s2, i);
        ActChangesAtMostOne(s2, i);
      }
    }
  }

  // ---------------------------------------------------------------- reports

  /** One reports-menu choice other than "3.9": "3.1", "3.2" and "3.3" show a
      report, anything else is ignored. The birthday listing stops the program
      at the first record without a birthday. */
  function ReportStep(choice: string, s: Session, daysUntil: Birthday -> nat): (r: Step)
    ensures r.s.friends == s.friends && r.s.input == s.input && r.s.file == s.file
  {
    if choice == "3.1" then
      Step(s.(shown := s.shown + [AlphabeticalListing(Alphabetical(s.friends))]), None)
    else if choice == "3.2" then
      var sorted := ByUpcomingBirthday(s.friends, daysUntil);
      var lines := UpcomingLines(sorted, daysUntil);
      Step(s.(shown := s.shown + [UpcomingListing(lines)]),
           if |lines| < |sorted| then Some(NoBirthday) else None)
    else if choice == "3.3" then
      Step(s.(shown := s.shown + [LabelListing(MailingLabels(s.friends))]), None)
    else Step(s, None)
  }

  /** The `while True` loop of `run_reports`: "3.9" returns, any other choice
      runs its step and the loop goes on unless the step raised. */
  function ReportsSpec(s: Session, daysUntil: Birthday -> nat): (r: Step)
    ensures ReadFrom(s.input, r.s.input)
    ensures r.s.file == s.file
    decreases |s.input|
  {
    if s.input == [] then Step(s, Some(EndOfInput))
    else
      var s1 := Advance(s);
      if s.input[0] == "3.9" then Step(s1, None)
      else
        var r := ReportStep(s.input[0], s1, daysUntil);
        if r.fault.Some? then r
        else
          var f := ReportsSpec(r.s, daysUntil);
          ReadFromTransitive(s.input, s1.input, f.s.input);
          f
  }

  /** One round of the reports loop for a choice other than "3.9". */
  lemma ReportsStep(s: Session, daysUntil: Birthday -> nat)
    requires s.input != [] && s.input[0] != "3.9"
    ensures var r := ReportStep(s.input[0], Advance(s), daysUntil);
      r.s.input == s.input[1..] &&
      ReportsSpec(s, daysUntil) == (if r.fault.Some? then r else ReportsSpec(r.s, daysUntil))
  {
  }

  /** Reports never change the list. */
  lemma {:induction false} ReportsKeepList(s: Session, daysUntil: Birthday -> nat)
    ensures ReportsSpec(s, daysUntil).s.friends == s.friends
    decreases |s.input|
  {
    if s.input != [] && s.input[0] != "3.9" {
      ReportsStep(s, daysUntil);
      var r := ReportStep(s.input[0], Advance(s), daysUntil);
      if r.fault.None? {
        ReportsKeepList(r.s, daysUntil);
      }
    }
  }

  /** Putting back a line read before a "3.9" that was not one keeps the
      "3.9" the first. */
  lemma ConsList(lines: seq<string>, rest: seq<string>, before: seq<string>, after: seq<string>)
    requires lines != [] && lines[0] != "3.9" && rest == lines[1..]
    requires rest == before + ["3.9"] + after && "3.9" !in before
    ensures lines == ([lines[0]] + before) + ["3.9"] + after && "3.9" !in [lines[0]] + before
  {
  }

  /** The reports menu returns normally only on a "3.9": the first "3.9" among
      the choices read, after which reading resumes. */
  lemma {:induction false} ReportsReturnOnlyOnNine(s: Session, daysUntil: Birthday -> nat)
    ensures var r := ReportsSpec(s, daysUntil);
      r.fault.None? ==>
        exists before :: s.input == before + ["3.9"] + r.s.input && "3.9" !in before
    decreases |s.input|
  {
    var r := ReportsSpec(s, daysUntil);
    if s.input != [] && r.fault.None? {
      if s.input[0] == "3.9" {
        assert s.input == [] + ["3.9"] + r.s.input;
      } else {
        ReportsStep(s, daysUntil);
        var next := ReportStep(s.input[0], Advance(s), daysUntil).s;
        ReportsReturnOnlyOnNine(next, daysUntil);
        var before :| next.input == before + ["3.9"] + r.s.input && "3.9" !in before;
        ConsList(s.input, next.input, before, r.s.input);
      }
    }
  }

  // ---------------------------------------------------------------- main menu

  /** The operation a main-menu choice other than "4" runs: "1" creates, "2"
      searches, "3" runs the reports menu; anything else does nothing. */
  function Dispatch(choice: string, s: Session, daysUntil: Birthday -> nat): (r: Step)
    ensures ReadFrom(s.input, r.s.input)
    ensures r.s.file == s.file
  {
    if choice == "1" then CreateSpec(s)
    else if choice == "2" then SearchSpec(s)
    else if choice == "3" then ReportsSpec(s, daysUntil)
    else Step(s, None)
  }

  /** The `while True` loop of `main_menu`: "4" saves and ends the session,
      every other choice runs its operation and the loop goes on. */
  function MainSpec(s: Session, daysUntil: Birthday -> nat): (f: Finish)
    decreases |s.input|
  {
    if s.input == [] then Finish(s, Crashed(EndOfInput))
    else
      var choice := s.input[0];
      var s1 := Advance(s);
      if choice == "4" then Finish(SaveSpec(s1), SavedAndExited)
      else
        var r := Dispatch(choice, s1, daysUntil);
        if r.fault.Some? then Finish(r.s, Crashed(r.fault.value))
        else MainSpec(r.s, daysUntil)
  }

  /** `main_menu`: load the file, then run the menu loop. */
  function RunSpec(s: Session, daysUntil: Birthday -> nat): Finish {
    var loaded := LoadSpec(s);
    if loaded.fault.Some? then Finish(loaded.s, Crashed(loaded.fault.value))
    else MainSpec(loaded.s, daysUntil)
  }

  /** An unrecognised main-menu choice changes nothing but the input. */
  lemma MainIgnoresOtherChoices(s: Session, daysUntil: Birthday -> nat)
    requires s.input != [] && s.input[0] !in {"1", "2", "3", "4"}
    ensures MainSpec(s, daysUntil) == MainSpec(s.(input := s.input[1..]), daysUntil)
  {
  }

  /** An unrecognised reports-menu choice changes nothing but the input. */
  lemma ReportsIgnoreOtherChoices(s: Session, daysUntil: Birthday -> nat)
    requires s.input != [] && s.input[0] !in {"3.1", "3.2", "3.3", "3.9"}
    ensures ReportsSpec(s, daysUntil) == ReportsSpec(s.(input := s.input[1..]), daysUntil)
  {
  }

  /** The file is written only when the session ends through "4", and then it
      holds exactly the final list; a session that ends in an exception leaves
      the file as it found it. */
  lemma {:induction false} FileWrittenOnlyOnExit(s: Session, daysUntil: Birthday -> nat)
    ensures var f := MainSpec(s, daysUntil);
      f.s.file == (if f.outcome == SavedAndExited then Some(SaveRows(f.s.friends)) else s.file)
    decreases |s.input|
  {
    if s.input != [] && s.input[0] != "4" {
      var r := Dispatch(s.input[0], Advance(s), daysUntil);
      if r.fault.None? {
        FileWrittenOnlyOnExit(r.s, daysUntil);
      }
    }
  }

  /** One round of the menu loop for a choice other than "4": the session goes
      on, from what the operation left, only when the operation raised nothing. */
  lemma MainStep(s: Session, daysUntil: Birthday -> nat)
    requires s.input != [] && s.input[0] != "4"
    ensures var r := Dispatch(s.input[0], Advance(s), daysUntil);
      ReadFrom(s.input, r.s.input) &&
      MainSpec(s, daysUntil) ==
        (if r.fault.Some? then Finish(r.s, Crashed(r.fault.value)) else MainSpec(r.s, daysUntil))
  {
    var s1 := Advance(s);
    ReadFromTransitive(s.input, s1.input, Dispatch(s.input[0], s1, daysUntil).s.input);
  }

  /** A session ends normally only right after reading a "4": that line and
      what remains of the console are the unread end of the console. */
  lemma {:induction false} ExitOnlyOnFour(s: Session, daysUntil: Birthday -> nat)
    ensures var f := MainSpec(s, daysUntil);
      f.outcome == SavedAndExited ==> ReadFrom(s.input, ["4"] + f.s.input)
    decreases |s.input|
  {
    if s.input != [] {
      if s.input[0] == "4" {
        assert s.input == ["4"] + Advance(s).input;
      } else {
        MainStep(s, daysUntil);
        var r := Dispatch(s.input[0], Advance(s), daysUntil);
        if r.fault.None? {
          ExitOnlyOnFour(r.s, daysUntil);
          var f := MainSpec(r.s, daysUntil);
          if f.outcome == SavedAndExited {
            ReadFromTransitive(s.input, r.s.input, ["4"] + f.s.input);
          }
        }
      }
    }
  }

  // ---------------------------------------------------------------- the class

  class FriendsApp {
    var friends: seq<Person>
    var file: Option<seq<Row>>
    var input: seq<string>
    var shown: seq<Report>
    /** `Birthday.days_until`, which depends on today's date. */
    const daysUntil: Birthday -> nat

    function State(): Session
      reads this
    {
      Session(friends, file, input, shown)
    }

    /** `MyFriendsApp()`: an empty list, given the file and the console. */
    constructor (file: Option<seq<Row>>, input: seq<string>, daysUntil: Birthday -> nat)
      ensures State() == Session([], file, input, []) && this.daysUntil == daysUntil
    {
      this.friends := [];
      this.file := file;
      this.input := input;
      this.shown := [];
      this.daysUntil := daysUntil;
    }

    /** `input()`: the next console line, or `None` at the end of input. */
    method ReadLine() returns (line: Option<string>)
      modifies this`input
      ensures old(input) == [] ==> line == None && input == []
      ensures old(input) != [] ==> line == Some(old(input)[0]) && input == old(input)[1..]
    {
      if input == [] {
        line := None;
      } else {
        line := Some(input[0]);
        input := input[1..];
      }
    }

    method LoadFromFile() returns (fault: Option<Fault>)
      modifies this`friends
      ensures Step(State(), fault) == LoadSpec(old(State()))
    {
      if file.None? {
        return None;
      }
      var rows := file.value;
      ghost var loaded := LoadRows(rows);
      ghost var n := |friends|;
      var i := 0;
      while i < |rows|
        invariant i <= |loaded.people|
        invariant |friends| == n + i && friends[..n] == old(friends)
        invariant forall k :: 0 <= k < i ==> friends[n + k] == loaded.people[k]
      {
        LoadRowsAt(rows, i);
        match RowToPerson(rows[i])
        case Failure(e) =>
          assert friends == old(friends) + loaded.people;
          return Some(e);
        case Success(p) =>
          friends := friends + [p];
          i := i + 1;
      }
      assert friends == old(friends) + loaded.people;
      return None;
    }

    method SaveToFile()
      modifies this`file
      ensures State() == SaveSpec(old(State()))
    {
      var rows: seq<Row> := [];
      for i := 0 to |friends|
        invariant rows == SaveRows(friends[..i])
      {
        assert friends[..i + 1] == friends[..i] + [friends[i]];
        rows := rows + [PersonToRow(friends[i])];
      }
      assert friends[..|friends|] == friends;
      file := Some(rows);
    }

    /** Reads `n` console lines, or all that are left when fewer remain. */
    method ReadLines(n: nat) returns (lines: seq<string>)
      modifies this`input
      ensures |old(input)| >= n ==> lines == old(input)[..n] && input == old(input)[n..]
      ensures |old(input)| < n ==> lines == old(input) && input == []
    {
      lines := [];
      while |lines| < n && input != []
        invariant lines + input == old(input) && |lines| <= n
        decreases n - |lines|
      {
        var line := ReadLine();
        lines := lines + [line.value];
      }
      assert old(input)[..|lines|] == lines;
    }

    /** The `try` block of `create_friend`: month, then day; a failure leaves
        the record without a birthday. */
    method AskBirthday() returns (birthday: Option<Birthday>)
      modifies this`input
      ensures var answer := ReadBirthday(old(input));
        birthday == answer.birthday && input == old(input)[answer.used..]
    {
      birthday := None;
      var month := ReadLine();
      if month.Some? && ParseInt(month.value).Some? {
        var day := ReadLine();
        if day.Some? && ParseInt(day.value).Some? {
          birthday := Some(Birthday(ParseInt(month.value).value, ParseInt(day.value).value));
        }
      }
    }

    method CreateFriend() returns (fault: Option<Fault>)
      modifies this`friends, this`input
      ensures Step(State(), fault) == CreateSpec(old(State()))
    {
      var names := ReadLines(2);
      if |names| < 2 {
        return Some(EndOfInput);
      }
      var birthday := AskBirthday();
      var details := ReadLines(DetailCount);
      if |details| < DetailCount {
        return Some(EndOfInput);
      }
      friends := friends + [Person(names[0], names[1], birthday, details[0], details[1],
                                   details[2], details[3], details[4], details[5], details[6])];
      return None;
    }

    /** `edit_friend` on the record at position `i`. */
    method EditFriend(i: nat) returns (fault: Option<Fault>)
      requires i < |friends|
      modifies this`friends, this`input
      ensures Step(State(), fault) == EditSpec(old(State()), i)
    {
      ghost var start := old(input);
      var answer := ReadLine();
      if answer.None? {
        return Some(EndOfInput);
      }
      friends := friends[i := friends[i].(city := KeepOrReplace(answer.value, friends[i].city))];
      answer := ReadLine();
      if answer.None? {
        assert start[..1] == [start[0]];
        return Some(EndOfInput);
      }
      friends := friends[i := friends[i].(phone := KeepOrReplace(answer.value, friends[i].phone))];
      answer := ReadLine();
      if answer.None? {
        assert start[..2] == [start[0], start[1]];
        return Some(EndOfInput);
      }
      friends := friends[i := friends[i].(emailAddress := KeepOrReplace(answer.value, friends[i].emailAddress))];
      assert start[..3] == [start[0], start[1], start[2]];
      return None;
    }

    method SearchFriend() returns (fault: Option<Fault>)
      modifies this`friends, this`input
      ensures Step(State(), fault) == SearchSpec(old(State()))
    {
      var query := ReadLine();
      if query.None? {
        return Some(EndOfInput);
      }
      var matches := Matches(friends, Lower(query.value));
      if matches == [] {
        return None;
      }
      var choice := ReadLine();
      if choice.None? {
        return Some(EndOfInput);
      }
      match Select(matches, choice.value)
      case Cancel =>
        return None;
      case OutOfRange =>
        return Some(IndexOutOfRange);
      case Picked(i) =>
        assert i in matches;
        var action := ReadLine();
        if action.None? {
          return Some(EndOfInput);
        }
        if Upper(action.value) == "D" {
          var confirm := ReadLine();
          if confirm.None? {
            return Some(EndOfInput);
          }
          if Upper(confirm.value) == "YES" {
            friends := RemoveAt(friends, i);
          }
          return None;
        } else if Upper(action.value) == "E" {
          fault := EditFriend(i);
          return fault;
        }
        return None;
    }

    /** The printing loop of the birthday listing: one line per record until
        one without a birthday is reached. */
    method PrintUpcoming(sorted: seq<Person>) returns (lines: seq<UpcomingLine>, complete: bool)
      ensures |lines| <= |sorted|
      ensures forall k :: 0 <= k < |lines| ==>
        sorted[k].birthday.Some? && lines[k] == UpcomingLine(sorted[k], daysUntil(sorted[k].birthday.value))
      ensures complete <==> |lines| == |sorted|
      ensures !complete ==> sorted[|lines|].birthday.None?
    {
      lines := [];
      for i := 0 to |sorted|
        invariant |lines| == i
        invariant forall k :: 0 <= k < i ==>
          sorted[k].birthday.Some? && lines[k] == UpcomingLine(sorted[k], daysUntil(sorted[k].birthday.value))
      {
        if sorted[i].birthday.None? {
          return lines, false;
        }
        lines := lines + [UpcomingLine(sorted[i], daysUntil(sorted[i].birthday.value))];
      }
      return lines, true;
    }

    /** The printing loop of the mailing labels, in list order. */
    method PrintLabels() returns (labels: seq<Label>)
      ensures |labels| == |friends|
      ensures forall i :: 0 <= i < |friends| ==> labels[i] == LabelOf(friends[i])
    {
      labels := [];
      for i := 0 to |friends|
        invariant |labels| == i
        invariant forall k :: 0 <= k < i ==> labels[k] == LabelOf(friends[k])
      {
        labels := labels + [LabelOf(friends[i])];
      }
    }

    /** One report of `run_reports`, for a choice other than "3.9". */
    method ShowReport(choice: string) returns (fault: Option<Fault>)
      modifies this`shown
      ensures Step(State(), fault) == ReportStep(choice, old(State()), daysUntil)
    {
      fault := None;
      if choice == "3.1" {
        shown := shown + [AlphabeticalListing(Alphabetical(friends))];
      } else if choice == "3.2" {
        var sorted := ByUpcomingBirthday(friends, daysUntil);
        var lines, complete := PrintUpcoming(sorted);
        assert lines == UpcomingLines(sorted, daysUntil);
        shown := shown + [UpcomingListing(lines)];
        if !complete {
          fault := Some(NoBirthday);
        }
      } else if choice == "3.3" {
        var labels := PrintLabels();
        assert labels == MailingLabels(friends);
        shown := shown + [LabelListing(labels)];
      }
    }

    method RunReports() returns (fault: Option<Fault>)
      modifies this`input, this`shown
      ensures Step(State(), fault) == ReportsSpec(old(State()), daysUntil)
    {
      while true
        invariant ReportsSpec(State(), daysUntil) == ReportsSpec(old(State()), daysUntil)
        decreases |input|
      {
        var choice := ReadLine();
        if choice.None? {
          return Some(EndOfInput);
        }
        if choice.value == "3.9" {
          return None;
        }
        fault := ShowReport(choice.value);
        if fault.Some? {
          return fault;
        }
      }
    }

    method MainMenu() returns (outcome: Outcome)
      modifies this
      ensures Finish(State(), outcome) == RunSpec(old(State()), daysUntil)
    {
      var fault := LoadFromFile();
      if fault.Some? {
        return Crashed(fault.value);
      }
      while true
        invariant MainSpec(State(), daysUntil) == RunSpec(old(State()), daysUntil)
        decreases |input|
      {
        var choice := ReadLine();
        if choice.None? {
          return Crashed(EndOfInput);
        }
        if choice.value == "1" {
          fault := CreateFriend();
        } else if choice.value == "2" {
          fault := SearchFriend();
        } else if choice.value == "3" {
          fault := RunReports();
        } else if choice.value == "4" {
          SaveToFile();
          return SavedAndExited;
        } else {
          fault := None;
        }
        if fault.Some? {
          return Crashed(fault.value);
        }
      }
    }
  }
}
