/** The pure rules behind `search_friend` and `edit_friend` in app.py: the
    case-insensitive name filter, Python's list indexing when a match is picked,
    removal of the picked record, and the blank-keeps-old edit rule. Records are
    identified by their position in the list, so a duplicate of the picked
    record is never mistaken for it. */
module Search {
  import opened Wrappers
  import opened Text
  import opened Records

  /** `query in f.first_name.lower() or query in f.last_name.lower()`, for a
      query that has already been lowered. */
  predicate IsMatch(p: Person, query: string) {
    Contains(Lower(p.firstName), query) || Contains(Lower(p.lastName), query)
  }

  /** The positions of the matching records, in list order (the comprehension
      that builds `matches`). */
  function Matches(friends: seq<Person>, query: string): (r: seq<nat>)
    ensures forall k :: 0 <= k < |r| ==> r[k] < |friends| && IsMatch(friends[r[k]], query)
    ensures forall k, l :: 0 <= k < l < |r| ==> r[k] < r[l]
    ensures forall i :: 0 <= i < |friends| && IsMatch(friends[i], query) ==> i in r
    decreases |friends|
  {
    if friends == [] then []
    else
      var last := |friends| - 1;
      var earlier := Matches(friends[..last], query);
      if IsMatch(friends[last], query) then earlier + [last] else earlier
  }

  /** The matched records themselves, as the search prints them. */
  function Matched(friends: seq<Person>, query: string): (r: seq<Person>)
    ensures |r| == |Matches(friends, query)|
  {
    var m := Matches(friends, query);
    seq(|m|, k requires 0 <= k < |m| => friends[m[k]])
  }

  /** A record is listed exactly when its lowered first or last name contains
      the lowered query: the list is the matching positions in increasing order. */
  lemma MatchesExactly(friends: seq<Person>, rawQuery: string, i: nat)
    requires i < |friends|
    ensures i in Matches(friends, Lower(rawQuery)) <==>
      (exists k :: OccursAt(Lower(friends[i].firstName), Lower(rawQuery), k)) ||
      (exists k :: OccursAt(Lower(friends[i].lastName), Lower(rawQuery), k))
  {
    var m := Matches(friends, Lower(rawQuery));
    ContainsAtOffset(Lower(friends[i].firstName), Lower(rawQuery));
    ContainsAtOffset(Lower(friends[i].lastName), Lower(rawQuery));
    if i in m {
      var k :| 0 <= k < |m| && m[k] == i;
    }
  }

  /** The empty query lists every record, in list order. */
  lemma {:induction false} EmptyQueryMatchesAll(friends: seq<Person>)
    ensures var m := Matches(friends, Lower(""));
      |m| == |friends| && forall k :: 0 <= k < |m| ==> m[k] == k
    decreases |friends|
  {
    assert Lower("") == "";
    if friends != [] {
      var last := |friends| - 1;
      EmptyQueryMatchesAll(friends[..last]);
      EmptyOccursEverywhere(Lower(friends[last].firstName));
      assert Matches(friends, "") == Matches(friends[..last], "") + [last];
    }
  }

  /** Python's `s[i]` for an integer index: a negative index counts from the
      end; `None` stands for the `IndexError` outside `-|s| <= i < |s|`. */
  function PyIndex<T>(s: seq<T>, i: int): Option<T> {
    if 0 <= i < |s| then Some(s[i])
    else if -|s| <= i < 0 then Some(s[|s| + i])
    else None
  }

  /** What the answer to "Enter number to edit/delete" does. */
  datatype Selection = Cancel | Picked(pos: nat) | OutOfRange

  /** `if not choice.isdigit(): return` then `matches[int(choice) - 1]`. */
  function Select(matches: seq<nat>, choice: string): Selection {
    if !IsDigits(choice) then Cancel
    else
      match PyIndex(matches, DigitsValue(choice) - 1)
      case Some(pos) => Picked(pos)
      case None => OutOfRange
  }

  /** Over a non-empty match list: a non-digit answer (the empty one included)
      cancels; `k` in `1..|matches|` picks the k-th match; `0` picks the last
      match (index -1); anything larger raises `IndexError`. */
  lemma SelectCases(matches: seq<nat>, choice: string)
    requires |matches| > 0
    ensures Select(matches, choice) == Cancel <==> !IsDigits(choice)
    ensures IsDigits(choice) ==>
      var k := DigitsValue(choice);
      (1 <= k <= |matches| ==> Select(matches, choice) == Picked(matches[k - 1])) &&
      (k == 0 ==> Select(matches, choice) == Picked(matches[|matches| - 1])) &&
      (k > |matches| <==> Select(matches, choice) == OutOfRange)
  {
  }

  /** `friends.remove(selected)` for the record at position `i`. */
  function RemoveAt(friends: seq<Person>, i: nat): seq<Person>
    requires i < |friends|
  {
    friends[..i] + friends[i + 1..]
  }

  /** Removal drops exactly that one record: one fewer, the others keep their
      relative order, and the multiset of records loses exactly one copy. */
  lemma RemoveAtExactlyOne(friends: seq<Person>, i: nat)
    requires i < |friends|
    ensures var r := RemoveAt(friends, i);
      |r| == |friends| - 1 &&
      (forall k :: 0 <= k < i ==> r[k] == friends[k]) &&
      (forall k :: i <= k < |r| ==> r[k] == friends[k + 1]) &&
      multiset(r) + multiset{friends[i]} == multiset(friends)
  {
    assert friends == friends[..i] + [friends[i]] + friends[i + 1..];
  }

  /** `input(...) or current`: a blank answer keeps the current value. */
  function KeepOrReplace(answer: string, current: string): string {
    if answer == "" then current else answer
  }

  /** The record after `edit_friend` has read `answers` (up to three: city,
      phone and email, in that order). */
  function Edited(p: Person, answers: seq<string>): Person
    requires |answers| <= 3
  {
    var p1 := if |answers| > 0 then p.(city := KeepOrReplace(answers[0], p.city)) else p;
    var p2 := if |answers| > 1 then p1.(phone := KeepOrReplace(answers[1], p1.phone)) else p1;
    if |answers| > 2 then p2.(emailAddress := KeepOrReplace(answers[2], p2.emailAddress)) else p2
  }

  /** A full edit replaces city, phone and email each exactly when the answer is
      non-empty, and leaves every other field as it was. */
  lemma EditedFields(p: Person, city: string, phone: string, email: string)
    ensures var q := Edited(p, [city, phone, email]);
      (q.city == if city != "" then city else p.city) &&
      (q.phone == if phone != "" then phone else p.phone) &&
      (q.emailAddress == if email != "" then email else p.emailAddress) &&
      q.(city := p.city, phone := p.phone, emailAddress := p.emailAddress) == p
  {
  }

  /** Blank answers change nothing. */
  lemma BlankEditKeepsRecord(p: Person, answers: seq<string>)
    requires |answers| <= 3 && forall k :: 0 <= k < |answers| ==> answers[k] == ""
    ensures Edited(p, answers) == p
  {
  }
}
