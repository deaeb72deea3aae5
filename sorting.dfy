/** `Array.prototype.sort` with a comparator that compares integer keys,
    modelled by insertion sort: the result holds the same elements and is
    ordered by the key. */
module Sorting {

  predicate SortedBy<T>(s: seq<T>, key: T -> int) {
    forall i, j :: 0 <= i < j < |s| ==> key(s[i]) <= key(s[j])
  }

  /** `x` placed before the first element of `s` whose key is not smaller. */
  function Insert<T(==,!new)>(x: T, s: seq<T>, key: T -> int): (r: seq<T>)
    requires SortedBy(s, key)
    ensures SortedBy(r, key)
    ensures multiset(r) == multiset(s) + multiset{x}
  {
    if |s| == 0 then [x]
    else if key(x) <= key(s[0]) then
      assert forall i :: 0 <= i < |s| ==> key(s[0]) <= key(s[i]);
      [x] + s
    else
      var rest := Insert(x, s[1..], key);
      assert s == [s[0]] + s[1..];
      KeysAtLeast(rest, x, s[1..], key, key(s[0]));
      [s[0]] + rest
  }

  /** Every element of a sequence made of `t` and `x` has a key of at least `b`
      when every element of `t` and `x` have. */
  lemma KeysAtLeast<T>(r: seq<T>, x: T, t: seq<T>, key: T -> int, b: int)
    requires multiset(r) == multiset(t) + multiset{x}
    requires key(x) >= b && forall i :: 0 <= i < |t| ==> key(t[i]) >= b
    ensures forall i :: 0 <= i < |r| ==> key(r[i]) >= b
  {
    forall i | 0 <= i < |r|
      ensures key(r[i]) >= b
    {
      assert r[i] in multiset(r);
      if r[i] != x {
        assert r[i] in multiset(t);
        var j :| 0 <= j < |t| && t[j] == r[i];
      }
    }
  }

  function SortBy<T(==,!new)>(s: seq<T>, key: T -> int): (r: seq<T>)
    ensures SortedBy(r, key)
    ensures multiset(r) == multiset(s)
  {
    if |s| == 0 then []
    else
      assert s == [s[0]] + s[1..];
      Insert(s[0], SortBy(s[1..], key), key)
  }
}
