/**
 * The two sorts the scheduler relies on: `sorted(blocked, key=lambda x: x[0])` and
 * `schedule.sort(key=...)`. Python's sorts are stable; both are modelled by one stable
 * insertion sort over a pair of integers compared lexicographically.
 */
module Sorting {

  type Key = (int, int)

  /** Lexicographic order on keys, as Python compares tuples. */
  predicate KeyLe(a: Key, b: Key)
  {
    a.0 < b.0 || (a.0 == b.0 && a.1 <= b.1)
  }

  predicate SortedBy<T>(s: seq<T>, key: T -> Key)
  {
    forall i, j :: 0 <= i < j < |s| ==> KeyLe(key(s[i]), key(s[j]))
  }

  /** Puts x before the first element whose key is not smaller, so equal keys keep x first. */
  function Insert<T>(x: T, s: seq<T>, key: T -> Key): seq<T>
  {
    if s == [] then [x]
    else if KeyLe(key(x), key(s[0])) then [x] + s
    else [s[0]] + Insert(x, s[1..], key)
  }

  /** A stable sort: an element is inserted ahead of every later element with an equal key. */
  function SortBy<T>(s: seq<T>, key: T -> Key): seq<T>
  {
    if s == [] then [] else Insert(s[0], SortBy(s[1..], key), key)
  }

  lemma {:induction false} InsertPermutes<T>(x: T, s: seq<T>, key: T -> Key)
    ensures multiset(Insert(x, s, key)) == multiset(s) + multiset{x}
  {
    if s != [] && !KeyLe(key(x), key(s[0])) {
      InsertPermutes(x, s[1..], key);
      assert s == [s[0]] + s[1..];
    }
  }

  lemma SortedCons<T>(h: T, t: seq<T>, key: T -> Key)
    requires SortedBy(t, key)
    requires forall y :: y in t ==> KeyLe(key(h), key(y))
    ensures SortedBy([h] + t, key)
  {
    var out := [h] + t;
    forall i, j | 0 <= i < j < |out| ensures KeyLe(key(out[i]), key(out[j])) {
      assert out[j] == t[j - 1];
      if i > 0 {
        assert out[i] == t[i - 1];
      }
    }
  }

  lemma SortedTail<T>(s: seq<T>, key: T -> Key)
    requires s != [] && SortedBy(s, key)
    ensures SortedBy(s[1..], key)
    ensures forall y :: y in s[1..] ==> KeyLe(key(s[0]), key(y))
  {
    var t := s[1..];
    forall i, j | 0 <= i < j < |t| ensures KeyLe(key(t[i]), key(t[j])) {
      assert t[i] == s[i + 1] && t[j] == s[j + 1];
    }
    forall y | y in t ensures KeyLe(key(s[0]), key(y)) {
      var k :| 0 <= k < |t| && t[k] == y;
      assert s[k + 1] == y;
    }
  }

  lemma {:induction false} InsertSorted<T>(x: T, s: seq<T>, key: T -> Key)
    requires SortedBy(s, key)
    ensures SortedBy(Insert(x, s, key), key)
  {
    if s == [] {
    } else if KeyLe(key(x), key(s[0])) {
      SortedTail(s, key);
      forall y | y in s ensures KeyLe(key(x), key(y)) {
        if y != s[0] {
          assert y in s[1..] by { var k :| 0 <= k < |s| && s[k] == y; assert s[1..][k - 1] == y; }
        }
      }
      SortedCons(x, s, key);
    } else {
      SortedTail(s, key);
      InsertSorted(x, s[1..], key);
      InsertPermutes(x, s[1..], key);
      var r := Insert(x, s[1..], key);
      forall y | y in r ensures KeyLe(key(s[0]), key(y)) {
        assert y in multiset(r);
        if y != x {
          assert y in multiset(s[1..]);
        }
      }
      SortedCons(s[0], r, key);
    }
  }

  lemma {:induction false} InsertLength<T>(x: T, s: seq<T>, key: T -> Key)
    ensures |Insert(x, s, key)| == |s| + 1
  {
    if s != [] && !KeyLe(key(x), key(s[0])) {
      InsertLength(x, s[1..], key);
    }
  }

  /** SortBy returns its input reordered by non-decreasing key. */
  lemma {:induction false} SortByCorrect<T>(s: seq<T>, key: T -> Key)
    ensures SortedBy(SortBy(s, key), key)
    ensures multiset(SortBy(s, key)) == multiset(s)
    ensures |SortBy(s, key)| == |s|
  {
    if s != [] {
      var rest := SortBy(s[1..], key);
      SortByCorrect(s[1..], key);
      InsertSorted(s[0], rest, key);
      InsertPermutes(s[0], rest, key);
      InsertLength(s[0], rest, key);
      assert s == [s[0]] + s[1..];
      assert multiset(s) == multiset{s[0]} + multiset(s[1..]);
    }
  }

  /** Sorting a sorted sequence changes nothing, so sorting twice is sorting once. */
  lemma {:induction false} SortBySorted<T>(s: seq<T>, key: T -> Key)
    requires SortedBy(s, key)
    ensures SortBy(s, key) == s
  {
    if s != [] {
      SortedTail(s, key);
      SortBySorted(s[1..], key);
      if s[1..] != [] {
        assert s[1] in s[1..];
      }
      assert [s[0]] + s[1..] == s;
    }
  }

  /** Sorting neither loses nor invents elements. */
  lemma SortByMembers<T>(s: seq<T>, key: T -> Key, x: T)
    ensures x in SortBy(s, key) <==> x in s
  {
    SortByCorrect(s, key);
    assert x in SortBy(s, key) <==> x in multiset(SortBy(s, key));
    assert x in s <==> x in multiset(s);
  }
}
