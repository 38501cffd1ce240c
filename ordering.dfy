/** Python's `sorted(xs, key=...)`: a stable sort. Stability makes the result
    unique: it is the order of the positions `0..n-1` by (key, position). The
    model sorts (key, position) entries by insertion and proves that any other
    stable order of the same keys is this one. */
module Ordering {
  import opened Text

  /** The two kinds of key the reports sort by: the tuple
      `(last_name, first_name)` and a day count. One report uses one kind. */
  datatype SortKey = ByName(last: string, first: string) | ByDays(days: nat)

  /** Python's `<` on keys: tuples lexicographically, integers numerically. */
  predicate KeyLess(a: SortKey, b: SortKey) {
    match (a, b)
    case (ByName(l1, f1), ByName(l2, f2)) => StrLess(l1, l2) || (l1 == l2 && StrLess(f1, f2))
    case (ByDays(x), ByDays(y)) => x < y
    case (ByDays(_), ByName(_, _)) => true
    case (ByName(_, _), ByDays(_)) => false
  }

  lemma KeyLessIrreflexive(a: SortKey)
    ensures !KeyLess(a, a)
  {
    if a.ByName? {
      StrLessIrreflexive(a.last);
      StrLessIrreflexive(a.first);
    }
  }

  lemma KeyLessTransitive(a: SortKey, b: SortKey, c: SortKey)
    requires KeyLess(a, b) && KeyLess(b, c)
    ensures KeyLess(a, c)
  {
    if a.ByName? && b.ByName? && c.ByName? {
      if StrLess(a.last, b.last) && StrLess(b.last, c.last) {
        StrLessTransitive(a.last, b.last, c.last);
      } else if StrLess(a.last, b.last) || StrLess(b.last, c.last) {
      } else {
        StrLessTransitive(a.first, b.first, c.first);
      }
    }
  }

  lemma KeyLessTotal(a: SortKey, b: SortKey)
    ensures a == b || KeyLess(a, b) || KeyLess(b, a)
  {
    if a.ByName? && b.ByName? {
      StrLessTotal(a.last, b.last);
      StrLessTotal(a.first, b.first);
    }
  }

  /** A key together with the position of its element in the unsorted list. */
  datatype Entry = Entry(key: SortKey, pos: nat)

  /** The order of a stable sort: by key, ties by original position. */
  predicate Before(a: Entry, b: Entry) {
    KeyLess(a.key, b.key) || (a.key == b.key && a.pos < b.pos)
  }

  lemma BeforeIrreflexive(a: Entry)
    ensures !Before(a, a)
  {
    KeyLessIrreflexive(a.key);
  }

  lemma BeforeTransitive(a: Entry, b: Entry, c: Entry)
    requires Before(a, b) && Before(b, c)
    ensures Before(a, c)
  {
    if KeyLess(a.key, b.key) && KeyLess(b.key, c.key) {
      KeyLessTransitive(a.key, b.key, c.key);
    }
  }

  lemma BeforeTotal(a: Entry, b: Entry)
    ensures a == b || Before(a, b) || Before(b, a)
  {
    KeyLessTotal(a.key, b.key);
  }

  /** Strictly increasing in `Before`. */
  predicate Ascending(s: seq<Entry>) {
    forall i, j :: 0 <= i < j < |s| ==> Before(s[i], s[j])
  }

  function Insert(e: Entry, s: seq<Entry>): seq<Entry> {
    if s == [] then [e]
    else if Before(s[0], e) then [s[0]] + Insert(e, s[1..])
    else [e] + s
  }

  function InsertionSort(s: seq<Entry>): seq<Entry> {
    if s == [] then [] else Insert(s[0], InsertionSort(s[1..]))
  }

  /** An entry before the inserted one and before every entry of the list is
      before every entry of the result. */
  lemma {:induction false} InsertAbove(x: Entry, e: Entry, s: seq<Entry>)
    requires Before(x, e) && forall k :: 0 <= k < |s| ==> Before(x, s[k])
    ensures forall k :: 0 <= k < |Insert(e, s)| ==> Before(x, Insert(e, s)[k])
  {
    if s != [] && Before(s[0], e) {
      InsertAbove(x, e, s[1..]);
      assert Insert(e, s) == [s[0]] + Insert(e, s[1..]);
    }
  }

  /** Inserting adds exactly the new entry. */
  lemma {:induction false} InsertAdds(e: Entry, s: seq<Entry>)
    ensures multiset(Insert(e, s)) == multiset(s) + multiset{e}
  {
    if s != [] && Before(s[0], e) {
      InsertAdds(e, s[1..]);
      assert s == [s[0]] + s[1..];
    }
  }

  /** Inserting a new entry into an ascending list keeps it ascending and adds
      exactly that entry. */
  lemma {:induction false} InsertAscending(e: Entry, s: seq<Entry>)
    requires Ascending(s) && e !in s
    ensures Ascending(Insert(e, s))
    ensures multiset(Insert(e, s)) == multiset(s) + multiset{e}
  {
    InsertAdds(e, s);
    if s == [] {
    } else if Before(s[0], e) {
      var t := s[1..];
      assert Ascending(t);
      InsertAscending(e, t);
      InsertAbove(s[0], e, t);
    } else {
      BeforeTotal(s[0], e);
      forall j | 0 <= j < |s|
        ensures Before(e, s[j])
      {
        if j > 0 {
          BeforeTransitive(e, s[0], s[j]);
        }
      }
    }
  }

  predicate Distinct(s: seq<Entry>) {
    forall i, j :: 0 <= i < j < |s| ==> s[i] != s[j]
  }

  /** Sorting distinct entries yields an ascending rearrangement of them. */
  lemma {:induction false} SortAscending(s: seq<Entry>)
    requires Distinct(s)
    ensures Ascending(InsertionSort(s))
    ensures multiset(InsertionSort(s)) == multiset(s)
  {
    if s != [] {
      var t := s[1..];
      assert Distinct(t);
      SortAscending(t);
      assert s[0] !in multiset(InsertionSort(t));
      InsertAscending(s[0], InsertionSort(t));
      assert s == [s[0]] + t;
    }
  }

  /** Two ascending lists with the same elements are the same list: there is
      only one strictly ordered arrangement of a set under `Before`. */
  lemma {:induction false} AscendingUnique(a: seq<Entry>, b: seq<Entry>)
    requires Ascending(a) && Ascending(b)
    requires forall x :: x in a <==> x in b
    ensures a == b
  {
    assert a != [] ==> a[0] in b;
    assert b != [] ==> b[0] in a;
    if a != [] {
      assert a[0] == b[0] by {
        if a[0] != b[0] {
          assert a[0] in b && b[0] in a;
          var i :| 0 <= i < |a| && a[i] == b[0];
          var j :| 0 <= j < |b| && b[j] == a[0];
          BeforeTransitive(a[0], b[0], a[0]);
          BeforeIrreflexive(a[0]);
        }
      }
      forall x
        ensures x in a[1..] <==> x in b[1..]
      {
        BeforeIrreflexive(x);
        if x in a[1..] {
          var i :| 0 <= i < |a[1..]| && a[1..][i] == x;
          assert a[i + 1] == x;
          assert x in b;
          var j :| 0 <= j < |b| && b[j] == x;
          assert j != 0;
          assert b[1..][j - 1] == x;
        }
        if x in b[1..] {
          var j :| 0 <= j < |b[1..]| && b[1..][j] == x;
          assert b[j + 1] == x;
          assert x in a;
          var i :| 0 <= i < |a| && a[i] == x;
          assert i != 0;
          assert a[1..][i - 1] == x;
        }
      }
      AscendingUnique(a[1..], b[1..]);
      assert a == [a[0]] + a[1..] && b == [b[0]] + b[1..];
    }
  }

  /** The entries of an unsorted list of keys, each with its position. */
  function Entries(keys: seq<SortKey>): (r: seq<Entry>)
    ensures |r| == |keys| && forall i :: 0 <= i < |r| ==> r[i] == Entry(keys[i], i)
  {
    seq(|keys|, i requires 0 <= i < |keys| => Entry(keys[i], i))
  }

  /** The positions of `keys` in the order `sorted(range(n), key=...)` gives. */
  function StableOrder(keys: seq<SortKey>): seq<nat> {
    var sorted := InsertionSort(Entries(keys));
    seq(|sorted|, k requires 0 <= k < |sorted| => sorted[k].pos)
  }

  /** `order` lists every position below `n` exactly once. */
  predicate IsPermutation(order: seq<nat>, n: nat) {
    |order| == n &&
    (forall k :: 0 <= k < |order| ==> order[k] < n) &&
    (forall a, b :: 0 <= a < b < |order| ==> order[a] != order[b]) &&
    (forall i :: 0 <= i < n ==> i in order)
  }

  /** `order` is a stable arrangement of `keys`: non-decreasing by key, and
      equal keys keep their original relative order. */
  predicate IsStableArrangement(keys: seq<SortKey>, order: seq<nat>)
    requires forall k :: 0 <= k < |order| ==> order[k] < |keys|
  {
    (forall a, b :: 0 <= a < b < |order| ==> !KeyLess(keys[order[b]], keys[order[a]])) &&
    (forall a, b :: 0 <= a < b < |order| && keys[order[a]] == keys[order[b]] ==> order[a] < order[b])
  }

  /** The sorted positions are a permutation, non-decreasing by key and stable. */
  lemma StableOrderCorrect(keys: seq<SortKey>)
    ensures IsPermutation(StableOrder(keys), |keys|)
    ensures IsStableArrangement(keys, StableOrder(keys))
  {
    var es := Entries(keys);
    var sorted := InsertionSort(es);
    var order := StableOrder(keys);
    SortAscending(es);
    assert |sorted| == |es| by {
      assert |multiset(sorted)| == |multiset(es)|;
    }
    forall k | 0 <= k < |sorted|
      ensures order[k] < |keys| && sorted[k] == Entry(keys[order[k]], order[k])
    {
      assert sorted[k] in multiset(es);
    }
    forall a, b | 0 <= a < b < |order|
      ensures !KeyLess(keys[order[b]], keys[order[a]])
      ensures keys[order[a]] == keys[order[b]] ==> order[a] < order[b]
      ensures order[a] != order[b]
    {
      assert Before(sorted[a], sorted[b]);
      KeyLessIrreflexive(keys[order[a]]);
      if KeyLess(keys[order[b]], keys[order[a]]) && KeyLess(keys[order[a]], keys[order[b]]) {
        KeyLessTransitive(keys[order[a]], keys[order[b]], keys[order[a]]);
      }
    }
    forall i | 0 <= i < |keys|
      ensures i in order
    {
      assert es[i] in multiset(sorted);
      var k :| 0 <= k < |sorted| && sorted[k] == es[i];
      assert order[k] == i;
    }
  }

  /** Any permutation that is a stable arrangement of `keys` is `StableOrder(keys)`:
      every stable sort, whatever its algorithm, produces this order. */
  lemma StableOrderUnique(keys: seq<SortKey>, order: seq<nat>)
    requires forall k :: 0 <= k < |order| ==> order[k] < |keys|
    requires forall i :: 0 <= i < |keys| ==> i in order
    requires IsStableArrangement(keys, order)
    ensures order == StableOrder(keys)
  {
    var es := Entries(keys);
    var mine := seq(|order|, k requires 0 <= k < |order| => Entry(keys[order[k]], order[k]));
    forall a, b | 0 <= a < b < |mine|
      ensures Before(mine[a], mine[b])
    {
      KeyLessTotal(keys[order[a]], keys[order[b]]);
    }
    var sorted := InsertionSort(es);
    SortAscending(es);
    forall x
      ensures x in mine <==> x in sorted
    {
      assert x in sorted <==> x in multiset(es);
      if x in mine {
        var k :| 0 <= k < |mine| && mine[k] == x;
        assert es[order[k]] == x;
      }
      if x in es {
        var i :| 0 <= i < |es| && es[i] == x;
        assert i in order;
        var k :| 0 <= k < |order| && order[k] == i;
        assert mine[k] == x;
      }
    }
    AscendingUnique(mine, sorted);
  }
}
