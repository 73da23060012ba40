/**
 * Ruby's `sort_by { |x| -key(x) }`: order by a key, largest first. Ruby's sort is not
 * stable, so only "sorted and a permutation of the input" is promised; the insertion
 * sort below is one such order.
 */
module Sorting {

  ghost predicate SortedDesc<T>(s: seq<T>, key: T -> int) {
    forall i, j :: 0 <= i < j < |s| ==> key(s[i]) >= key(s[j])
  }

  /** No two elements of `s` share an identity. */
  ghost predicate DistinctBy<T, K>(s: seq<T>, id: T -> K) {
    forall i, j :: 0 <= i < j < |s| ==> id(s[i]) != id(s[j])
  }

  /** In a sorted list the first element has the largest key. */
  lemma HeadIsLargest<T>(s: seq<T>, key: T -> int)
    requires SortedDesc(s, key) && s != []
    ensures forall y :: y in s ==> key(s[0]) >= key(y)
  {
    forall y | y in s ensures key(s[0]) >= key(y) {
      var k :| 0 <= k < |s| && s[k] == y;
      assert k == 0 || key(s[0]) >= key(s[k]);
    }
  }

  /** Putting an element with a key at least every other key in front keeps a list sorted. */
  lemma ConsSorted<T>(x: T, s: seq<T>, key: T -> int)
    requires SortedDesc(s, key) && forall y :: y in s ==> key(x) >= key(y)
    ensures SortedDesc([x] + s, key)
  {
    var r := [x] + s;
    forall i, j | 0 <= i < j < |r| ensures key(r[i]) >= key(r[j]) {
      assert r[j] == s[j - 1];
      if i > 0 {
        assert r[i] == s[i - 1];
      } else {
        assert s[j - 1] in s;
      }
    }
  }

  function Insert<T(!new)>(x: T, s: seq<T>, key: T -> int): (r: seq<T>)
    requires SortedDesc(s, key)
    ensures SortedDesc(r, key)
    ensures multiset(r) == multiset(s) + multiset{x}
  {
    if s == [] then [x]
    else if key(x) >= key(s[0]) then
      HeadIsLargest(s, key);
      ConsSorted(x, s, key);
      [x] + s
    else
      assert s == [s[0]] + s[1..];
      SuffixSorted(s, key);
      var rest := Insert(x, s[1..], key);
      InsertedBelowHead(x, s, rest, key);
      ConsSorted(s[0], rest, key);
      [s[0]] + rest
  }

  /** Whatever `x` was inserted among the tail of `s` stays below the head of `s`. */
  lemma InsertedBelowHead<T>(x: T, s: seq<T>, rest: seq<T>, key: T -> int)
    requires SortedDesc(s, key) && s != [] && key(x) < key(s[0])
    requires multiset(rest) == multiset(s[1..]) + multiset{x}
    ensures forall y :: y in rest ==> key(s[0]) >= key(y)
  {
    HeadIsLargest(s, key);
    forall y | y in rest ensures key(s[0]) >= key(y) {
      assert y in multiset(rest);
      if y != x {
        assert y in multiset(s[1..]);
        assert y in s[1..];
        assert y in s;
      }
    }
  }

  lemma SuffixSorted<T>(s: seq<T>, key: T -> int)
    requires SortedDesc(s, key) && s != []
    ensures SortedDesc(s[1..], key)
  {
    forall i, j | 0 <= i < j < |s[1..]| ensures key(s[1..][i]) >= key(s[1..][j]) {
      assert s[1..][i] == s[i + 1] && s[1..][j] == s[j + 1];
    }
  }

  function SortDesc<T(!new)>(s: seq<T>, key: T -> int): (r: seq<T>)
    ensures SortedDesc(r, key)
    ensures multiset(r) == multiset(s)
  {
    if s == [] then []
    else
      assert s == [s[0]] + s[1..];
      Insert(s[0], SortDesc(s[1..], key), key)
  }

  lemma {:induction false} InsertKeepsDistinct<T(!new), K>(x: T, s: seq<T>, key: T -> int, id: T -> K)
    requires SortedDesc(s, key) && DistinctBy(s, id)
    requires forall y :: y in s ==> id(y) != id(x)
    ensures DistinctBy(Insert(x, s, key), id)
  {
    if s != [] && key(x) < key(s[0]) {
      InsertKeepsDistinct(x, s[1..], key, id);
      var r := Insert(x, s, key);
      assert r == [s[0]] + Insert(x, s[1..], key);
      forall i, j | 0 <= i < j < |r| ensures id(r[i]) != id(r[j]) {
        if i == 0 {
          assert r[j] in multiset(Insert(x, s[1..], key));
        }
      }
    }
  }

  /** Sorting never merges or splits identities. */
  lemma {:induction false} SortKeepsDistinct<T(!new), K>(s: seq<T>, key: T -> int, id: T -> K)
    requires DistinctBy(s, id)
    ensures DistinctBy(SortDesc(s, key), id)
  {
    if s != [] {
      SortKeepsDistinct(s[1..], key, id);
      forall y | y in SortDesc(s[1..], key) ensures id(y) != id(s[0]) {
        assert y in multiset(s[1..]);
        var k :| 0 <= k < |s[1..]| && s[1..][k] == y;
        assert s[k + 1] == y;
      }
      InsertKeepsDistinct(s[0], SortDesc(s[1..], key), key, id);
    }
  }
}
