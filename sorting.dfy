/**
 * The sort step. `Array.prototype.sort` is supplied by the JavaScript engine
 * and its algorithm and stability are not fixed, so the table only relies on
 * its result being a permutation of the input ordered by the comparator.
 * Insertion sort realises that contract here.
 */
module Sorting {

  /** `cmp(a, b) <= 0` ("a may come before b") is total and transitive. */
  ghost predicate TotalPreorder<T(!new)>(cmp: (T, T) -> int) {
    && (forall a, b :: cmp(a, b) <= 0 || cmp(b, a) <= 0)
    && (forall a, b, c :: cmp(a, b) <= 0 && cmp(b, c) <= 0 ==> cmp(a, c) <= 0)
  }

  /** No element is ordered after an element that follows it. */
  predicate SortedBy<T>(s: seq<T>, cmp: (T, T) -> int) {
    forall i, j :: 0 <= i < j < |s| ==> cmp(s[i], s[j]) <= 0
  }

  /** Inserts `x` into the sorted `s` after the last element that may precede it. */
  method Insert<T(!new)>(s: seq<T>, x: T, cmp: (T, T) -> int) returns (r: seq<T>)
    requires TotalPreorder(cmp) && SortedBy(s, cmp)
    ensures SortedBy(r, cmp)
    ensures multiset(r) == multiset(s) + multiset{x}
  {
    var j := |s|;
    while j > 0 && cmp(s[j - 1], x) > 0
      invariant 0 <= j <= |s|
      invariant forall k :: j <= k < |s| ==> cmp(s[k], x) > 0
    {
      j := j - 1;
    }
    r := s[..j] + [x] + s[j..];
    InsertionKeepsElements(s, x, j);
    InsertionPointOrders(s, x, j, cmp);
  }

  /** Putting `x` anywhere into `s` adds exactly `x` to its elements. */
  lemma InsertionKeepsElements<T>(s: seq<T>, x: T, j: int)
    requires 0 <= j <= |s|
    ensures multiset(s[..j] + [x] + s[j..]) == multiset(s) + multiset{x}
  {
    assert s == s[..j] + s[j..];
  }

  /** Putting `x` at a position where it follows its predecessor and precedes its successor keeps the order. */
  lemma InsertionPointOrders<T(!new)>(s: seq<T>, x: T, j: int, cmp: (T, T) -> int)
    requires TotalPreorder(cmp) && SortedBy(s, cmp) && 0 <= j <= |s|
    requires j > 0 ==> cmp(s[j - 1], x) <= 0
    requires forall k :: j <= k < |s| ==> cmp(s[k], x) > 0
    ensures SortedBy(s[..j] + [x] + s[j..], cmp)
  {
    var r := s[..j] + [x] + s[j..];
    forall a, b | 0 <= a < b < |r| ensures cmp(r[a], r[b]) <= 0 {
      if b < j {
        assert r[a] == s[a] && r[b] == s[b];
      } else if b == j {
        assert r[a] == s[a] && r[b] == x;
        if a < j - 1 {
          assert cmp(s[a], s[j - 1]) <= 0;
        }
      } else if a < j {
        assert r[a] == s[a] && r[b] == s[b - 1];
      } else if a == j {
        assert r[a] == x && r[b] == s[b - 1];
        assert cmp(s[b - 1], x) > 0;
      } else {
        assert r[a] == s[a - 1] && r[b] == s[b - 1];
      }
    }
  }

  /** Sorts `s` by `cmp`: the result is a permutation of `s` in comparator order. */
  method Sort<T(!new)>(s: seq<T>, cmp: (T, T) -> int) returns (r: seq<T>)
    requires TotalPreorder(cmp)
    ensures SortedBy(r, cmp)
    ensures multiset(r) == multiset(s)
  {
    r := [];
    var i := 0;
    while i < |s|
      invariant 0 <= i <= |s|
      invariant SortedBy(r, cmp)
      invariant multiset(r) == multiset(s[..i])
    {
      assert s[..i + 1] == s[..i] + [s[i]];
      r := Insert(r, s[i], cmp);
      i := i + 1;
    }
    assert s[..|s|] == s;
  }
}
