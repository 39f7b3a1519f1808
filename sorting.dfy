/** Stable sorting by an integer key: the model of LINQ `OrderBy` (a stable sort) and of the
    `List.Sort` calls of the source. */
module Sorting {

  /** `s` is in non-decreasing order of `key`. */
  ghost predicate SortedBy<T>(s: seq<T>, key: T -> int)
  {
    forall i, j :: 0 <= i < j < |s| ==> key(s[i]) <= key(s[j])
  }

  /** Inserts `x` after every element whose key is not greater than its own. */
  function InsertBy<T>(s: seq<T>, x: T, key: T -> int): (r: seq<T>)
    ensures |r| == |s| + 1 && (r[0] == x || (|s| > 0 && r[0] == s[0]))
  {
    if s == [] then [x]
    else if key(x) < key(s[0]) then [x] + s
    else [s[0]] + InsertBy(s[1..], x, key)
  }

  /** Inserting adds exactly `x`. */
  lemma {:induction false} InsertByMultiset<T>(s: seq<T>, x: T, key: T -> int)
    ensures multiset(InsertBy(s, x, key)) == multiset(s) + multiset{x}
  {
    if s != [] && key(x) >= key(s[0]) {
      InsertByMultiset(s[1..], x, key);
      assert s == [s[0]] + s[1..];
    }
  }

  /** Inserting into a sorted sequence keeps it sorted. */
  lemma {:induction false} InsertBySorted<T>(s: seq<T>, x: T, key: T -> int)
    requires SortedBy(s, key)
    ensures SortedBy(InsertBy(s, x, key), key)
  {
    if s != [] && key(x) >= key(s[0]) {
      InsertBySorted(s[1..], x, key);
      var rest := InsertBy(s[1..], x, key);
      assert key(s[0]) <= key(rest[0]);
    }
  }

  /** Stable insertion sort: elements with equal keys keep their input order. */
  function SortBy<T>(s: seq<T>, key: T -> int): (r: seq<T>)
    ensures multiset(r) == multiset(s)
    ensures SortedBy(r, key)
  {
    if s == [] then []
    else
      var init, last := s[..|s| - 1], s[|s| - 1];
      assert s == init + [last];
      var sorted := SortBy(init, key);
      InsertByMultiset(sorted, last, key);
      InsertBySorted(sorted, last, key);
      InsertBy(sorted, last, key)
  }

  /** The elements of `s` whose flag in `picks` is set, in their order in `s`. */
  function Picked<T>(s: seq<T>, picks: seq<bool>): (r: seq<T>)
    requires |picks| == |s|
    ensures |r| <= |s|
  {
    if s == [] then []
    else
      var rest := Picked(s[..|s| - 1], picks[..|s| - 1]);
      if picks[|s| - 1] then rest + [s[|s| - 1]] else rest
  }

  /** Picking takes elements of `s` and no element more often than `s` holds it. */
  lemma {:induction false} PickedMultiset<T>(s: seq<T>, picks: seq<bool>)
    requires |picks| == |s|
    ensures multiset(Picked(s, picks)) <= multiset(s)
  {
    if s != [] {
      var n := |s| - 1;
      PickedMultiset(s[..n], picks[..n]);
      assert s == s[..n] + [s[n]];
    }
  }

  /** Picking from a sorted sequence gives a sorted sequence. */
  lemma {:induction false} PickedSorted<T>(s: seq<T>, picks: seq<bool>, key: T -> int)
    requires |picks| == |s| && SortedBy(s, key)
    ensures SortedBy(Picked(s, picks), key)
  {
    if s != [] {
      var n := |s| - 1;
      var rest := Picked(s[..n], picks[..n]);
      PickedSorted(s[..n], picks[..n], key);
      if picks[n] {
        PickedMultiset(s[..n], picks[..n]);
        forall i | 0 <= i < |rest|
          ensures key(rest[i]) <= key(s[n])
        {
          assert rest[i] in multiset(s[..n]);
          var j :| 0 <= j < n && s[..n][j] == rest[i];
          assert s[j] == rest[i];
        }
      }
    }
  }

  /** A selection from a sorted sequence is a sorted sub-multiset of it. */
  lemma PickedSortedSubset<T>(s: seq<T>, picks: seq<bool>, key: T -> int)
    requires |picks| == |s| && SortedBy(s, key)
    ensures multiset(Picked(s, picks)) <= multiset(s) && SortedBy(Picked(s, picks), key)
  {
    PickedMultiset(s, picks);
    PickedSorted(s, picks, key);
  }
}
