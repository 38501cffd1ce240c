/** A contact record and its mapping to and from one row of the backing file
    (`load_from_file` and `save_to_file` in app.py). A row is a map from column
    name to cell text, as `csv.DictReader` and `csv.DictWriter` present it. */
module Records {
  import opened Wrappers
  import opened Text

  /** A month/day pair, stored as `set_birthday` receives it. */
  datatype Birthday = Birthday(month: int, day: int)

  datatype Person = Person(
    firstName: string,
    lastName: string,
    birthday: Option<Birthday>,
    city: string,
    phone: string,
    streetAddress: string,
    nickname: string,
    emailAddress: string,
    state: string,
    zip: string)

  /** The columns of the backing file, in the file's order; `Name` gives each
      one's header text. */
  datatype Column =
    | FirstName | LastName | BirthdayMonth | BirthdayDay | City | Phone
    | StreetAddress | Nickname | EmailAddress | State | Zip
  {
    function Name(): string {
      match this
      case FirstName => "first_name"
      case LastName => "last_name"
      case BirthdayMonth => "birthday_month"
      case BirthdayDay => "birthday_day"
      case City => "city"
      case Phone => "phone"
      case StreetAddress => "street_address"
      case Nickname => "nickname"
      case EmailAddress => "email_address"
      case State => "state"
      case Zip => "zip"
    }
  }

  /** One data row of the file, keyed by column. */
  type Row = map<Column, string>

  /** Python exceptions that escape an operation and end the program. */
  datatype Fault =
    | EndOfInput       // EOFError from input() once the console is exhausted
    | IndexOutOfRange  // IndexError from choosing past the last search match
    | NotANumber       // ValueError from int() on a birthday cell
    | MissingColumn    // KeyError from a row without one of the columns
    | NoBirthday       // AttributeError from days_until() on a missing birthday

  /** The row has cells for the two names and the birthday month, the cells
      `load_from_file` reads first. */
  predicate HasLeadColumns(row: Row) {
    FirstName in row && LastName in row && BirthdayMonth in row
  }

  /** The row has cells for the seven detail columns, read after the birthday. */
  predicate HasDetailColumns(row: Row) {
    City in row && Phone in row && StreetAddress in row && Nickname in row &&
    EmailAddress in row && State in row && Zip in row
  }

  /** The cell `save_to_file` writes under `column` for one record: a birthday
      becomes its two numerals, a missing one two empty cells; every other cell
      is the field of that name. */
  function Cell(p: Person, column: Column): string {
    match column
    case FirstName => p.firstName
    case LastName => p.lastName
    case BirthdayMonth => if p.birthday.Some? then IntToString(p.birthday.value.month) else ""
    case BirthdayDay => if p.birthday.Some? then IntToString(p.birthday.value.day) else ""
    case City => p.city
    case Phone => p.phone
    case StreetAddress => p.streetAddress
    case Nickname => p.nickname
    case EmailAddress => p.emailAddress
    case State => p.state
    case Zip => p.zip
  }

  /** The row `save_to_file` writes for one record. */
  function PersonToRow(p: Person): Row {
    map c: Column :: Cell(p, c)
  }

  /** The birthday `load_from_file` reads from the two birthday cells: none
      unless both are non-empty, and then both must be integers. */
  function ParseBirthday(month: string, day: string): Result<Option<Birthday>, Fault> {
    if month != "" && day != "" then
      match (ParseInt(month), ParseInt(day))
      case (Some(m), Some(d)) => Success(Some(Birthday(m, d)))
      case _ => Failure(NotANumber)
    else Success(None)
  }

  /** The record `load_from_file` builds from one row, reading the cells in
      the order the source does: the names, the birthday month, the birthday day
      only when the month is non-empty (the `and` short-circuits), the integer
      conversions, then the seven details. A missing cell raises `KeyError` at
      the point it is read, a bad integer `ValueError`. */
  function RowToPerson(row: Row): Result<Person, Fault> {
    if !HasLeadColumns(row) then Failure(MissingColumn)
    else if row[BirthdayMonth] != "" && BirthdayDay !in row then Failure(MissingColumn)
    else
      var day := if row[BirthdayMonth] != "" then row[BirthdayDay] else "";
      match ParseBirthday(row[BirthdayMonth], day)
      case Failure(e) => Failure(e)
      case Success(birthday) =>
        if !HasDetailColumns(row) then Failure(MissingColumn)
        else
          Success(Person(row[FirstName], row[LastName], birthday,
                         row[City], row[Phone], row[StreetAddress], row[Nickname],
                         row[EmailAddress], row[State], row[Zip]))
  }

  /** A saved row has exactly the file's columns; its birthday cells are empty
      exactly when the record has no birthday, and the other cells copy the fields. */
  lemma SavedRowShape(p: Person)
    ensures forall c: Column :: c in PersonToRow(p) && PersonToRow(p)[c] == Cell(p, c)
    ensures (PersonToRow(p)[BirthdayMonth] == "") <==> p.birthday.None?
    ensures (PersonToRow(p)[BirthdayDay] == "") <==> p.birthday.None?
  {
  }

  /** A loaded record carries a birthday exactly when both birthday cells are
      non-empty, and then the birthday holds the two parsed integers. */
  lemma LoadedBirthday(row: Row)
    requires RowToPerson(row).Success?
    ensures RowToPerson(row).value.birthday.Some? <==>
      row[BirthdayMonth] != "" && row[BirthdayDay] != ""
    ensures RowToPerson(row).value.birthday.Some? ==>
      ParseInt(row[BirthdayMonth]) == Some(RowToPerson(row).value.birthday.value.month) &&
      ParseInt(row[BirthdayDay]) == Some(RowToPerson(row).value.birthday.value.day)
  {
  }

  /** Loading fails exactly when a cell it reads is missing, or a non-empty
      pair of birthday cells is not two integers. The day cell is read only
      after a non-empty month. */
  lemma LoadFailsOn(row: Row)
    ensures RowToPerson(row).Failure? <==>
      !HasLeadColumns(row) ||
      (row[BirthdayMonth] != "" && BirthdayDay !in row) ||
      (row[BirthdayMonth] != "" && row[BirthdayDay] != "" &&
       (ParseInt(row[BirthdayMonth]).None? || ParseInt(row[BirthdayDay]).None?)) ||
      !HasDetailColumns(row)
  {
  }

  /** Which exception a failing row raises: `ValueError` exactly when the
      names and both birthday cells are present, both birthday cells are
      non-empty and one of them is not an integer, whatever detail cells are
      missing; `KeyError` otherwise. */
  lemma LoadFaultOrder(row: Row)
    ensures RowToPerson(row) == Failure(NotANumber) <==>
      HasLeadColumns(row) && BirthdayDay in row &&
      row[BirthdayMonth] != "" && row[BirthdayDay] != "" &&
      (ParseInt(row[BirthdayMonth]).None? || ParseInt(row[BirthdayDay]).None?)
    ensures RowToPerson(row).Failure? ==>
      RowToPerson(row).error == NotANumber || RowToPerson(row).error == MissingColumn
  {
  }

  /** A row with an empty birthday month loads without a birthday even when the
      file has no `birthday_day` column at all. */
  lemma EmptyMonthSkipsDay(row: Row)
    requires HasLeadColumns(row) && HasDetailColumns(row) && row[BirthdayMonth] == ""
    ensures RowToPerson(row).Success? && RowToPerson(row).value.birthday == None
    ensures RowToPerson(row).value.firstName == row[FirstName] &&
      RowToPerson(row).value.lastName == row[LastName]
  {
  }

  /** The birthday cells of a saved record read back as its birthday. */
  lemma BirthdayRoundTrip(p: Person)
    ensures ParseBirthday(Cell(p, BirthdayMonth), Cell(p, BirthdayDay)) == Success(p.birthday)
  {
    if p.birthday.Some? {
      var b := p.birthday.value;
      IntRoundTrip(b.month);
      IntRoundTrip(b.day);
      assert Cell(p, BirthdayMonth) == IntToString(b.month) && Cell(p, BirthdayDay) == IntToString(b.day);
    }
  }

  /** Saving a record and loading the row back reproduces it field for field. */
  lemma RowRoundTrip(p: Person)
    ensures RowToPerson(PersonToRow(p)) == Success(p)
  {
    var row := PersonToRow(p);
    BirthdayRoundTrip(p);
    var q := Person(Cell(p, FirstName), Cell(p, LastName), p.birthday, Cell(p, City), Cell(p, Phone),
                    Cell(p, StreetAddress), Cell(p, Nickname), Cell(p, EmailAddress), Cell(p, State), Cell(p, Zip));
    assert q == p;
    assert RowToPerson(row) == Success(q);
  }
}
