/**
 * Python's stable `list.sort(key=..., reverse=...)` and `sorted(...)` on a string key,
 * specified as an insertion sort.
 */
module Sorting {
  import opened Text

  /** `a` goes strictly before `b`: a smaller key, or a larger one when `descending` (`reverse=True`). */
  predicate Before<T>(key: T -> string, descending: bool, a: T, b: T) {
    if descending then LexLess(key(b), key(a)) else LexLess(key(a), key(b))
  }

  /** No element goes strictly before an element to its left. */
  predicate SortedBy<T>(s: seq<T>, key: T -> string, descending: bool) {
    forall i, j :: 0 <= i < j < |s| ==> !Before(key, descending, s[j], s[i])
  }

  /** Places `x` after every element it does not strictly precede, so equal keys keep their order. */
  function Insert<T>(x: T, r: seq<T>, key: T -> string, descending: bool): seq<T> {
    if r == [] then [x]
    else if Before(key, descending, x, r[0]) then [x] + r
    else [r[0]] + Insert(x, r[1..], key, descending)
  }

  /** The sorted list, inserting the elements in their original order. */
  function SortBy<T>(s: seq<T>, key: T -> string, descending: bool): seq<T> {
    if s == [] then []
    else Insert(s[|s| - 1], SortBy(s[..|s| - 1], key, descending), key, descending)
  }

  lemma BeforeIrreflexive<T>(key: T -> string, descending: bool, a: T)
    ensures !Before(key, descending, a, a)
  {
    LexLessIrreflexive(key(a));
  }

  lemma BeforeTransitive<T>(key: T -> string, descending: bool, a: T, b: T, c: T)
    requires Before(key, descending, a, b) && Before(key, descending, b, c)
    ensures Before(key, descending, a, c)
  {
    if descending {
      LexLessTransitive(key(c), key(b), key(a));
    } else {
      LexLessTransitive(key(a), key(b), key(c));
    }
  }

  /** Putting `x` in front of a sorted list it strictly precedes keeps the list sorted. */
  lemma PrependSorted<T>(x: T, r: seq<T>, key: T -> string, descending: bool)
    requires SortedBy(r, key, descending) && r != [] && Before(key, descending, x, r[0])
    ensures SortedBy([x] + r, key, descending)
  {
    var out := [x] + r;
    forall i, j | 0 <= i < j < |out| ensures !Before(key, descending, out[j], out[i]) {
      assert out[j] == r[j - 1];
      if i == 0 {
        if Before(key, descending, out[j], x) {
          BeforeTransitive(key, descending, out[j], x, r[0]);
          BeforeIrreflexive(key, descending, r[0]);
        }
      } else {
        assert out[i] == r[i - 1];
      }
    }
  }

  /** Putting `y` in front of a sorted list none of whose elements strictly precedes it keeps it sorted. */
  lemma ConsSorted<T>(y: T, rest: seq<T>, key: T -> string, descending: bool)
    requires SortedBy(rest, key, descending)
    requires forall e :: e in multiset(rest) ==> !Before(key, descending, e, y)
    ensures SortedBy([y] + rest, key, descending)
  {
    var out := [y] + rest;
    forall i, j | 0 <= i < j < |out| ensures !Before(key, descending, out[j], out[i]) {
      assert out[j] == rest[j - 1];
      if i == 0 {
        assert out[j] in multiset(rest);
      } else {
        assert out[i] == rest[i - 1];
      }
    }
  }

  lemma {:induction false} InsertSorted<T>(x: T, r: seq<T>, key: T -> string, descending: bool)
    requires SortedBy(r, key, descending)
    ensures multiset(Insert(x, r, key, descending)) == multiset(r) + multiset{x}
    ensures SortedBy(Insert(x, r, key, descending), key, descending)
  {
    if r == [] {
    } else if Before(key, descending, x, r[0]) {
      PrependSorted(x, r, key, descending);
    } else {
      var rest := Insert(x, r[1..], key, descending);
      assert SortedBy(r[1..], key, descending) by {
        forall i, j | 0 <= i < j < |r[1..]| ensures !Before(key, descending, r[1..][j], r[1..][i]) {
          assert r[1..][j] == r[j + 1] && r[1..][i] == r[i + 1];
        }
      }
      InsertSorted(x, r[1..], key, descending);
      assert r == [r[0]] + r[1..];
      forall e | e in multiset(rest) ensures !Before(key, descending, e, r[0]) {
        if e != x {
          assert e in multiset(r[1..]);
          var k :| 0 <= k < |r[1..]| && r[1..][k] == e;
          assert r[k + 1] == e;
        }
      }
      ConsSorted(r[0], rest, key, descending);
    }
  }

  /** The sort yields a sorted permutation of its input. */
  lemma {:induction false} SortBySorted<T>(s: seq<T>, key: T -> string, descending: bool)
    ensures multiset(SortBy(s, key, descending)) == multiset(s)
    ensures SortedBy(SortBy(s, key, descending), key, descending)
  {
    if s != [] {
      var init := s[..|s| - 1];
      SortBySorted(init, key, descending);
      InsertSorted(s[|s| - 1], SortBy(init, key, descending), key, descending);
      assert s == init + [s[|s| - 1]];
    }
  }

  /** When every key is the same, the sort leaves the list as it was. */
  lemma {:induction false} SortBySameKey<T>(s: seq<T>, key: T -> string, descending: bool, k: string)
    requires forall i :: 0 <= i < |s| ==> key(s[i]) == k
    ensures SortBy(s, key, descending) == s
  {
    if s != [] {
      var init := s[..|s| - 1];
      SortBySameKey(init, key, descending, k);
      InsertSameKey(s[|s| - 1], init, key, descending, k);
      assert s == init + [s[|s| - 1]];
    }
  }

  lemma {:induction false} InsertSameKey<T>(x: T, r: seq<T>, key: T -> string, descending: bool, k: string)
    requires key(x) == k && forall i :: 0 <= i < |r| ==> key(r[i]) == k
    ensures Insert(x, r, key, descending) == r + [x]
  {
    if r != [] {
      LexLessIrreflexive(k);
      InsertSameKey(x, r[1..], key, descending, k);
      assert r == [r[0]] + r[1..];
    }
  }
}
