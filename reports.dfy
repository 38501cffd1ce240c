/** The three read-only reports of `run_reports` in app.py: the alphabetical
    listing, the upcoming-birthday listing and the mailing labels. */
module Reports {
  import opened Wrappers
  import opened Text
  import opened Records
  import opened Ordering

  /** The sort key of the alphabetical listing: `(last_name, first_name)`. */
  function NameKey(p: Person): SortKey {
    ByName(p.lastName, p.firstName)
  }

  /** The key a record without a birthday sorts by in the birthday listing. */
  const NoBirthdayDays: nat := 999

  /** The sort key of the birthday listing: days until the next birthday, or
      999 when there is none. */
  function BirthdayKey(p: Person, daysUntil: Birthday -> nat): SortKey {
    ByDays(if p.birthday.Some? then daysUntil(p.birthday.value) else NoBirthdayDays)
  }

  function NameKeys(friends: seq<Person>): (keys: seq<SortKey>)
    ensures |keys| == |friends|
  {
    seq(|friends|, i requires 0 <= i < |friends| => NameKey(friends[i]))
  }

  function BirthdayKeys(friends: seq<Person>, daysUntil: Birthday -> nat): (keys: seq<SortKey>)
    ensures |keys| == |friends|
  {
    seq(|friends|, i requires 0 <= i < |friends| => BirthdayKey(friends[i], daysUntil))
  }

  /** The records at the given positions, in that order. */
  function Arrange(friends: seq<Person>, order: seq<nat>): (r: seq<Person>)
    requires forall k :: 0 <= k < |order| ==> order[k] < |friends|
    ensures |r| == |order|
  {
    seq(|order|, k requires 0 <= k < |order| => friends[order[k]])
  }

  /** `sorted(friends, key=lambda x: (x.last_name, x.first_name))`. */
  function Alphabetical(friends: seq<Person>): seq<Person> {
    var keys := NameKeys(friends);
    StableOrderCorrect(keys);
    Arrange(friends, StableOrder(keys))
  }

  /** `sorted(friends, key=lambda f: f._birthday.days_until() if f._birthday else 999)`. */
  function ByUpcomingBirthday(friends: seq<Person>, daysUntil: Birthday -> nat): seq<Person> {
    var keys := BirthdayKeys(friends, daysUntil);
    StableOrderCorrect(keys);
    Arrange(friends, StableOrder(keys))
  }

  /** The alphabetical listing holds every record once, is non-decreasing by
      last name and then first name (Python's string order), and keeps records
      with the same two names in list order. */
  lemma AlphabeticalSorted(friends: seq<Person>)
    ensures var order := StableOrder(NameKeys(friends));
      IsPermutation(order, |friends|) &&
      Alphabetical(friends) == Arrange(friends, order) &&
      (forall a, b :: 0 <= a < b < |order| ==>
         var x, y := friends[order[a]], friends[order[b]];
         !(StrLess(y.lastName, x.lastName) ||
           (y.lastName == x.lastName && StrLess(y.firstName, x.firstName)))) &&
      (forall a, b :: 0 <= a < b < |order| ==>
         var x, y := friends[order[a]], friends[order[b]];
         x.lastName == y.lastName && x.firstName == y.firstName ==> order[a] < order[b])
  {
    var keys := NameKeys(friends);
    var order := StableOrder(keys);
    StableOrderCorrect(keys);
    forall a, b | 0 <= a < b < |order|
      ensures var x, y := friends[order[a]], friends[order[b]];
        !(StrLess(y.lastName, x.lastName) ||
          (y.lastName == x.lastName && StrLess(y.firstName, x.firstName)))
      ensures var x, y := friends[order[a]], friends[order[b]];
        x.lastName == y.lastName && x.firstName == y.firstName ==> order[a] < order[b]
    {
      assert !KeyLess(keys[order[b]], keys[order[a]]);
    }
  }

  /** The birthday listing holds every record once, is non-decreasing by its
      key, and keeps records with equal keys in list order. */
  lemma UpcomingSorted(friends: seq<Person>, daysUntil: Birthday -> nat)
    ensures var order := StableOrder(BirthdayKeys(friends, daysUntil));
      IsPermutation(order, |friends|) &&
      ByUpcomingBirthday(friends, daysUntil) == Arrange(friends, order) &&
      (forall a, b :: 0 <= a < b < |order| ==>
         BirthdayKey(friends[order[a]], daysUntil).days <= BirthdayKey(friends[order[b]], daysUntil).days) &&
      (forall a, b :: 0 <= a < b < |order| ==>
         BirthdayKey(friends[order[a]], daysUntil) == BirthdayKey(friends[order[b]], daysUntil) ==>
         order[a] < order[b])
  {
    var keys := BirthdayKeys(friends, daysUntil);
    var order := StableOrder(keys);
    StableOrderCorrect(keys);
    forall a, b | 0 <= a < b < |order|
      ensures BirthdayKey(friends[order[a]], daysUntil).days <= BirthdayKey(friends[order[b]], daysUntil).days
    {
      assert !KeyLess(keys[order[b]], keys[order[a]]);
    }
  }

  /** When every day count is below the sentinel (a year has fewer than 999
      days), every record without a birthday comes after every record with one. */
  lemma BirthdaylessLast(friends: seq<Person>, daysUntil: Birthday -> nat)
    requires forall b :: daysUntil(b) < NoBirthdayDays
    ensures var r := ByUpcomingBirthday(friends, daysUntil);
      forall a, b :: 0 <= a < b < |r| && r[a].birthday.None? ==> r[b].birthday.None?
  {
    UpcomingSorted(friends, daysUntil);
    var order := StableOrder(BirthdayKeys(friends, daysUntil));
    var r := ByUpcomingBirthday(friends, daysUntil);
    forall a, b | 0 <= a < b < |r| && r[a].birthday.None?
      ensures r[b].birthday.None?
    {
      assert r[a] == friends[order[a]] && r[b] == friends[order[b]];
      if r[b].birthday.Some? {
        assert daysUntil(r[b].birthday.value) < NoBirthdayDays;
      }
    }
  }

  /** One line of the birthday listing: the record and its day count. */
  datatype UpcomingLine = UpcomingLine(person: Person, days: nat)

  /** The lines the birthday listing prints before it reaches a record without
      a birthday, where `days_until()` on the missing birthday stops the program. */
  function UpcomingLines(sorted: seq<Person>, daysUntil: Birthday -> nat): (lines: seq<UpcomingLine>)
    ensures |lines| <= |sorted|
    ensures forall k :: 0 <= k < |lines| ==>
      sorted[k].birthday.Some? && lines[k] == UpcomingLine(sorted[k], daysUntil(sorted[k].birthday.value))
    ensures |lines| < |sorted| ==> sorted[|lines|].birthday.None?
  {
    if sorted == [] || sorted[0].birthday.None? then []
    else [UpcomingLine(sorted[0], daysUntil(sorted[0].birthday.value))] + UpcomingLines(sorted[1..], daysUntil)
  }

  /** A mailing label: the name line, the street line and the city line. */
  datatype Label = Label(name: string, street: string, place: string)

  function LabelOf(p: Person): Label {
    Label(p.firstName + " " + p.lastName, p.streetAddress, p.city + ", " + p.state + " " + p.zip)
  }

  /** The mailing labels, one per record, in list order. */
  function MailingLabels(friends: seq<Person>): (labels: seq<Label>)
    ensures |labels| == |friends|
    ensures forall i :: 0 <= i < |friends| ==> labels[i] == LabelOf(friends[i])
  {
    if friends == [] then [] else [LabelOf(friends[0])] + MailingLabels(friends[1..])
  }

  /** What a report shows. */
  datatype Report =
    | AlphabeticalListing(people: seq<Person>)
    | UpcomingListing(lines: seq<UpcomingLine>)
    | LabelListing(labels: seq<Label>)
}
