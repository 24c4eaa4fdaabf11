/**
 * `Array.prototype.sort` with a comparator, as a stable insertion sort on a
 * sort key. Both comparators of the core (calendar instances and active
 * tasks) order by a key of three integers compared lexicographically;
 * the modules that use them prove their comparator agrees with the key.
 */
module Sorting {

  datatype SortKey = SortKey(a: int, b: int, c: int)

  /** Lexicographic order on keys. */
  predicate KeyLe(x: SortKey, y: SortKey) {
    x.a < y.a || (x.a == y.a && (x.b < y.b || (x.b == y.b && x.c <= y.c)))
  }

  lemma KeyLeTotal(x: SortKey, y: SortKey)
    ensures KeyLe(x, y) || KeyLe(y, x)
    ensures KeyLe(x, y) && KeyLe(y, x) ==> x == y
  {
  }

  lemma KeyLeTransitive(x: SortKey, y: SortKey, z: SortKey)
    requires KeyLe(x, y) && KeyLe(y, z)
    ensures KeyLe(x, z)
  {
  }

  /** Each element's key is at most the next one's. */
  predicate SortedBy<T>(s: seq<T>, key: T -> SortKey) {
    forall i :: 0 <= i < |s| - 1 ==> KeyLe(key(s[i]), key(s[i + 1]))
  }

  /** Any two elements of a sorted sequence are in key order. */
  lemma {:induction false} SortedOrdered<T>(s: seq<T>, key: T -> SortKey, i: int, j: int)
    requires SortedBy(s, key) && 0 <= i < j < |s|
    ensures KeyLe(key(s[i]), key(s[j]))
    decreases j - i
  {
    if i + 1 < j {
      SortedOrdered(s, key, i + 1, j);
      KeyLeTransitive(key(s[i]), key(s[i + 1]), key(s[j]));
    }
  }

  /** `x` placed before the first element whose key is not below its own. */
  function InsertBy<T(==)>(x: T, s: seq<T>, key: T -> SortKey): (r: seq<T>)
    requires SortedBy(s, key)
    ensures SortedBy(r, key)
    ensures multiset(r) == multiset(s) + multiset{x}
    ensures |r| == |s| + 1 && (r[0] == x || (s != [] && r[0] == s[0]))
  {
    if s == [] || KeyLe(key(x), key(s[0])) then [x] + s
    else
      var rest := InsertBy(x, s[1..], key);
      KeyLeTotal(key(x), key(s[0]));
      assert s == [s[0]] + s[1..];
      [s[0]] + rest
  }

  /** The elements of `s` in key order; equal keys keep their input order. */
  function SortBy<T(==)>(s: seq<T>, key: T -> SortKey): (r: seq<T>)
    ensures SortedBy(r, key)
    ensures multiset(r) == multiset(s)
  {
    if s == [] then []
    else
      assert s == [s[0]] + s[1..];
      InsertBy(s[0], SortBy(s[1..], key), key)
  }

  /** Sorting what is already sorted changes nothing; in particular sorting is idempotent. */
  lemma {:induction false} SortBySorted<T>(s: seq<T>, key: T -> SortKey)
    requires SortedBy(s, key)
    ensures SortBy(s, key) == s
  {
    if s != [] {
      assert SortedBy(s[1..], key);
      SortBySorted(s[1..], key);
      assert s == [s[0]] + s[1..];
    }
  }

  lemma SortByIdempotent<T>(s: seq<T>, key: T -> SortKey)
    ensures SortBy(SortBy(s, key), key) == SortBy(s, key)
  {
    SortBySorted(SortBy(s, key), key);
  }
}
