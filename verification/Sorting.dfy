/** What `std::sort` and `std::stable_sort` promise, with a body that keeps the promise. */
module Sorting {

  ghost predicate Ordered<T>(s: seq<T>, key: T -> int) {
    forall i, j :: 0 <= i < j < |s| ==> key(s[i]) <= key(s[j])
  }

  /** The elements of `s` whose key is `k`, in the order `s` has them. */
  ghost function WithKey<T>(s: seq<T>, key: T -> int, k: int): seq<T> {
    if s == [] then [] else
    var rest := WithKey(s[..|s| - 1], key, k);
    if key(s[|s| - 1]) == k then rest + [s[|s| - 1]] else rest
  }

  /** Of each element in turn it takes just those with the key. */
  lemma WithKeyInTurn<T>(s: seq<T>, x: T, key: T -> int, k: int)
    ensures WithKey([], key, k) == []
    ensures WithKey(s + [x], key, k) == WithKey(s, key, k) + if key(x) == k then [x] else []
  {
    assert (s + [x])[..|s|] == s;
  }

  /** Insert `x` after every element whose key is not greater. */
  function Insert<T>(s: seq<T>, x: T, key: T -> int): (r: seq<T>)
    ensures |r| == |s| + 1 && multiset(r) == multiset(s) + multiset{x}
  {
    if s == [] || key(s[|s| - 1]) <= key(x) then s + [x]
    else
      assert s == s[..|s| - 1] + [s[|s| - 1]];
      Insert(s[..|s| - 1], x, key) + [s[|s| - 1]]
  }

  lemma {:induction false} InsertKeepsOrder<T>(s: seq<T>, x: T, key: T -> int, top: int)
    requires Ordered(s, key) && key(x) <= top && forall i :: 0 <= i < |s| ==> key(s[i]) <= top
    ensures Ordered(Insert(s, x, key), key)
    ensures forall i :: 0 <= i <= |s| ==> key(Insert(s, x, key)[i]) <= top
  {
    if s != [] && key(x) < key(s[|s| - 1]) {
      InsertKeepsOrder(s[..|s| - 1], x, key, key(s[|s| - 1]));
    }
  }

  lemma {:induction false} InsertKeepsTies<T>(s: seq<T>, x: T, key: T -> int, k: int)
    ensures WithKey(Insert(s, x, key), key, k) == WithKey(s + [x], key, k)
  {
    assert (s + [x])[..|s|] == s;
    if s != [] && key(x) < key(s[|s| - 1]) {
      var n := |s| - 1;
      InsertKeepsTies(s[..n], x, key, k);
      assert (s[..n] + [x])[..n] == s[..n];
      assert Insert(s, x, key)[..n + 1] == Insert(s[..n], x, key);
    }
  }

  method StableSort<T>(s: seq<T>, key: T -> int) returns (r: seq<T>)
    ensures Ordered(r, key)
    ensures multiset(r) == multiset(s) && |r| == |s|
    ensures forall k :: WithKey(r, key, k) == WithKey(s, key, k)
  {
    r := [];
    for n := 0 to |s|
      invariant Ordered(r, key)
      invariant multiset(r) == multiset(s[..n]) && |r| == n
      invariant forall k :: WithKey(r, key, k) == WithKey(s[..n], key, k)
    {
      InsertKeepsOrder(r, s[n], key,
                       if n == 0 || key(r[n - 1]) < key(s[n]) then key(s[n]) else key(r[n - 1]));
      assert s[..n + 1] == s[..n] + [s[n]];
      forall k ensures WithKey(Insert(r, s[n], key), key, k) == WithKey(s[..n + 1], key, k) {
        InsertKeepsTies(r, s[n], key, k);
        assert (r + [s[n]])[..n] == r && s[..n + 1][..n] == s[..n];
      }
      r := Insert(r, s[n], key);
    }
    assert s[..|s|] == s;
  }

  /** `std::sort` promises the order but not what becomes of ties. */
  method Sort<T>(s: seq<T>, key: T -> int) returns (r: seq<T>)
    ensures Ordered(r, key)
    ensures multiset(r) == multiset(s) && |r| == |s|
  {
    r := StableSort(s, key);
  }
}
