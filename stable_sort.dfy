/** Stable sorting by a key, as `Array.prototype.sort` does it: ECMAScript
    (2019 onwards) requires the sort to be stable, so elements whose keys
    compare equal keep their relative order. The keys are compared with a
    strict total order `lt`; "x's key precedes y's" is the comparator
    returning a negative number for (x, y).

    The specification is a functional insertion sort (`Sort`); the in-place
    method `InsertionSort` is proved to compute it, and `SortCharacterised`
    shows that `Sort` is the ONLY sorted, order-preserving rearrangement, so
    any stable sort of the same array yields the same result. */
module StableSort {

  /** `lt` is irreflexive, transitive and relates any two different keys. */
  ghost predicate StrictTotalOrder<K(!new)>(lt: (K, K) -> bool) {
    (forall x :: !lt(x, x)) &&
    (forall x, y, z :: lt(x, y) && lt(y, z) ==> lt(x, z)) &&
    (forall x, y :: x == y || lt(x, y) || lt(y, x))
  }

  /** No element comes after an element whose key its own key precedes. */
  ghost predicate Sorted<T, K>(s: seq<T>, key: T -> K, lt: (K, K) -> bool) {
    forall i, j :: 0 <= i < j < |s| ==> !lt(key(s[j]), key(s[i]))
  }

  /** The subsequence of the elements whose key is `k`, in their order in `s`. */
  ghost function WithKey<T, K>(s: seq<T>, key: T -> K, k: K): seq<T>
    decreases |s|
  {
    if s == [] then []
    else WithKey(s[..|s| - 1], key, k) + (if key(s[|s| - 1]) == k then [s[|s| - 1]] else [])
  }

  /** `t` holds, for every key, the same elements in the same order as `s`. */
  ghost predicate Stable<T, K(!new)>(t: seq<T>, s: seq<T>, key: T -> K) {
    forall k :: WithKey(t, key, k) == WithKey(s, key, k)
  }

  /** Inserts `x` behind the last element of `s` whose key `x`'s key does not
      precede: the step an insertion sort makes with one new element. */
  ghost function Insert<T, K>(s: seq<T>, x: T, key: T -> K, lt: (K, K) -> bool): seq<T>
    decreases |s|
  {
    if s == [] then [x]
    else if lt(key(x), key(s[|s| - 1])) then Insert(s[..|s| - 1], x, key, lt) + [s[|s| - 1]]
    else s + [x]
  }

  /** The stable sort of `s`: its elements inserted one by one, left to right. */
  ghost function Sort<T, K>(s: seq<T>, key: T -> K, lt: (K, K) -> bool): seq<T>
    decreases |s|
  {
    if s == [] then []
    else Insert(Sort(s[..|s| - 1], key, lt), s[|s| - 1], key, lt)
  }

  lemma {:induction false} WithKeyMembers<T, K>(s: seq<T>, key: T -> K, k: K)
    ensures forall x :: x in WithKey(s, key, k) <==> x in s && key(x) == k
    decreases |s|
  {
    if s != [] {
      var n := |s| - 1;
      WithKeyMembers(s[..n], key, k);
      assert s == s[..n] + [s[n]];
    }
  }

  lemma {:induction false} InsertPermutes<T, K>(s: seq<T>, x: T, key: T -> K, lt: (K, K) -> bool)
    ensures multiset(Insert(s, x, key, lt)) == multiset(s) + multiset{x}
    decreases |s|
  {
    if s != [] {
      var n := |s| - 1;
      assert s == s[..n] + [s[n]];
      if lt(key(x), key(s[n])) {
        InsertPermutes(s[..n], x, key, lt);
      }
    }
  }

  lemma {:induction false} InsertSorted<T, K(!new)>(s: seq<T>, x: T, key: T -> K, lt: (K, K) -> bool)
    requires StrictTotalOrder(lt) && Sorted(s, key, lt)
    ensures Sorted(Insert(s, x, key, lt), key, lt)
    decreases |s|
  {
    if s != [] {
      var n := |s| - 1;
      var r := Insert(s, x, key, lt);
      if lt(key(x), key(s[n])) {
        var r' := Insert(s[..n], x, key, lt);
        InsertSorted(s[..n], x, key, lt);
        InsertPermutes(s[..n], x, key, lt);
        forall i | 0 <= i < |r'|
          ensures !lt(key(s[n]), key(r'[i]))
        {
          assert r'[i] in multiset(r');
          if r'[i] != x {
            assert r'[i] in s[..n];
          }
        }
      } else {
        forall i | 0 <= i < n
          ensures !lt(key(x), key(s[i]))
        {
          assert !lt(key(s[n]), key(s[i]));
        }
      }
    }
  }

  lemma {:induction false} InsertWithKey<T, K(!new)>(s: seq<T>, x: T, key: T -> K, lt: (K, K) -> bool, k: K)
    requires StrictTotalOrder(lt)
    ensures WithKey(Insert(s, x, key, lt), key, k) == WithKey(s, key, k) + WithKey([x], key, k)
    decreases |s|
  {
    assert WithKey([x], key, k) == (if key(x) == k then [x] else []) by {
      assert [x][..0] == [];
    }
    if s == [] {
    } else {
      var n := |s| - 1;
      assert s == s[..n] + [s[n]];
      if lt(key(x), key(s[n])) {
        var r' := Insert(s[..n], x, key, lt);
        assert (r' + [s[n]])[..|r'|] == r';
        InsertWithKey(s[..n], x, key, lt, k);
        // x and s[n] cannot both have key k, since x's key precedes s[n]'s
      } else {
        assert (s + [x])[..|s|] == s;
      }
    }
  }

  lemma {:induction false} SortPermutes<T, K>(s: seq<T>, key: T -> K, lt: (K, K) -> bool)
    ensures multiset(Sort(s, key, lt)) == multiset(s)
    decreases |s|
  {
    if s != [] {
      var n := |s| - 1;
      assert s == s[..n] + [s[n]];
      SortPermutes(s[..n], key, lt);
      InsertPermutes(Sort(s[..n], key, lt), s[n], key, lt);
    }
  }

  /** Sorting keeps the length. */
  lemma SortLength<T, K>(s: seq<T>, key: T -> K, lt: (K, K) -> bool)
    ensures |Sort(s, key, lt)| == |s|
  {
    SortPermutes(s, key, lt);
    assert |multiset(Sort(s, key, lt))| == |multiset(s)|;
  }

  /** Sorting neither adds nor loses an element. */
  lemma SortMembers<T, K>(s: seq<T>, key: T -> K, lt: (K, K) -> bool)
    ensures forall x :: x in Sort(s, key, lt) <==> x in s
  {
    SortPermutes(s, key, lt);
    forall x
      ensures x in Sort(s, key, lt) <==> x in s
    {
      assert x in Sort(s, key, lt) <==> x in multiset(Sort(s, key, lt));
      assert x in s <==> x in multiset(s);
    }
  }

  lemma {:induction false} SortSorted<T, K(!new)>(s: seq<T>, key: T -> K, lt: (K, K) -> bool)
    requires StrictTotalOrder(lt)
    ensures Sorted(Sort(s, key, lt), key, lt)
    decreases |s|
  {
    if s != [] {
      var n := |s| - 1;
      SortSorted(s[..n], key, lt);
      InsertSorted(Sort(s[..n], key, lt), s[n], key, lt);
    }
  }

  lemma {:induction false} SortStable<T, K(!new)>(s: seq<T>, key: T -> K, lt: (K, K) -> bool, k: K)
    requires StrictTotalOrder(lt)
    ensures WithKey(Sort(s, key, lt), key, k) == WithKey(s, key, k)
    decreases |s|
  {
    if s != [] {
      var n := |s| - 1;
      SortStable(s[..n], key, lt, k);
      InsertWithKey(Sort(s[..n], key, lt), s[n], key, lt, k);
      assert [s[n]][..0] == [];
    }
  }

  /** In two sorted sequences that agree on every key's subsequence, the
      last elements have the same key. */
  lemma LastKeysAgree<T, K(!new)>(t: seq<T>, u: seq<T>, key: T -> K, lt: (K, K) -> bool)
    requires StrictTotalOrder(lt) && Sorted(t, key, lt) && Sorted(u, key, lt)
    requires t != [] && u != []
    requires forall k :: WithKey(t, key, k) == WithKey(u, key, k)
    ensures key(t[|t| - 1]) == key(u[|u| - 1])
  {
    var n, m := |t| - 1, |u| - 1;
    var kt, ku := key(t[n]), key(u[m]);
    WithKeyMembers(t, key, ku);
    WithKeyMembers(u, key, ku);
    WithKeyMembers(t, key, kt);
    WithKeyMembers(u, key, kt);
    assert u[m] in WithKey(u, key, ku);
    assert WithKey(t, key, ku) == WithKey(u, key, ku);
    var i :| 0 <= i < |t| && t[i] == u[m];
    assert !lt(kt, ku) by {
      if i < n {
      }
    }
    assert t[n] in WithKey(t, key, kt);
    assert WithKey(t, key, kt) == WithKey(u, key, kt);
    var j :| 0 <= j < |u| && u[j] == t[n];
    assert !lt(ku, kt) by {
      if j < m {
      }
    }
  }

  /** Removing last elements with a common key keeps the per-key agreement. */
  lemma DropLastAgree<T, K>(t: seq<T>, u: seq<T>, tp: seq<T>, up: seq<T>, key: T -> K)
    requires t != [] && u != [] && key(t[|t| - 1]) == key(u[|u| - 1])
    requires tp == t[..|t| - 1] && up == u[..|u| - 1]
    requires forall k :: WithKey(t, key, k) == WithKey(u, key, k)
    ensures t[|t| - 1] == u[|u| - 1]
    ensures forall k :: WithKey(tp, key, k) == WithKey(up, key, k)
  {
    var n, m := |t| - 1, |u| - 1;
    var kt := key(t[n]);
    forall k
      ensures WithKey(t[..n], key, k) == WithKey(u[..m], key, k)
    {
      var wt, wu := WithKey(t[..n], key, k), WithKey(u[..m], key, k);
      assert WithKey(t, key, k) == WithKey(u, key, k);
      if kt == k {
        assert WithKey(t, key, k) == wt + [t[n]];
        assert WithKey(u, key, k) == wu + [u[m]];
        assert wt == (wt + [t[n]])[..|wt|];
        assert wu == (wu + [u[m]])[..|wu|];
      } else {
        assert WithKey(t, key, k) == wt + [];
        assert WithKey(u, key, k) == wu + [];
        assert wt + [] == wt && wu + [] == wu;
      }
    }
    var wt, wu := WithKey(t[..n], key, kt), WithKey(u[..m], key, kt);
    assert WithKey(t, key, kt) == wt + [t[n]];
    assert WithKey(u, key, kt) == wu + [u[m]];
    assert WithKey(t, key, kt) == WithKey(u, key, kt);
    assert (wt + [t[n]])[|wt|] == t[n];
  }

  /** Two sorted sequences that agree on every key's subsequence are equal. */
  lemma {:induction false} SortedStableUnique<T, K(!new)>(t: seq<T>, u: seq<T>, key: T -> K, lt: (K, K) -> bool)
    requires StrictTotalOrder(lt) && Sorted(t, key, lt) && Sorted(u, key, lt)
    requires forall k :: WithKey(t, key, k) == WithKey(u, key, k)
    ensures t == u
    decreases |t|
  {
    if t == [] || u == [] {
      var v := if t == [] then u else t;
      if v != [] {
        var k := key(v[|v| - 1]);
        WithKeyMembers(v, key, k);
        assert false;
      }
    } else {
      var n, m := |t| - 1, |u| - 1;
      LastKeysAgree(t, u, key, lt);
      DropLastAgree(t, u, t[..n], u[..m], key);
      SortedStableUnique(t[..n], u[..m], key, lt);
      assert t == t[..n] + [t[n]] && u == u[..m] + [u[m]];
    }
  }

  /** `Sort(s)` is exactly the sorted sequence that keeps, for every key, the
      elements with that key in their order in `s`. */
  lemma SortCharacterised<T, K(!new)>(s: seq<T>, t: seq<T>, key: T -> K, lt: (K, K) -> bool)
    requires StrictTotalOrder(lt)
    ensures t == Sort(s, key, lt) <==> Sorted(t, key, lt) && Stable(t, s, key)
  {
    var r := Sort(s, key, lt);
    SortSorted(s, key, lt);
    forall k
      ensures WithKey(r, key, k) == WithKey(s, key, k)
    {
      SortStable(s, key, lt, k);
    }
    if Sorted(t, key, lt) && Stable(t, s, key) {
      forall k
        ensures WithKey(t, key, k) == WithKey(r, key, k)
      {
        assert WithKey(t, key, k) == WithKey(s, key, k);
      }
      SortedStableUnique(t, r, key, lt);
    }
  }

  /** No two elements of `s` share a key. */
  ghost predicate UniqueKeys<T, K>(s: seq<T>, key: T -> K) {
    forall i, j :: 0 <= i < j < |s| ==> key(s[i]) != key(s[j])
  }

  /** Every element's key strictly precedes the keys of the elements after it. */
  ghost predicate StrictlySorted<T, K>(s: seq<T>, key: T -> K, lt: (K, K) -> bool) {
    forall i, j :: 0 <= i < j < |s| ==> lt(key(s[i]), key(s[j]))
  }

  lemma {:induction false} InsertStrictlySorted<T, K(!new)>(s: seq<T>, x: T, key: T -> K, lt: (K, K) -> bool)
    requires StrictTotalOrder(lt) && StrictlySorted(s, key, lt)
    requires forall y :: y in s ==> key(y) != key(x)
    ensures StrictlySorted(Insert(s, x, key, lt), key, lt)
    decreases |s|
  {
    if s != [] {
      var n := |s| - 1;
      if lt(key(x), key(s[n])) {
        var r' := Insert(s[..n], x, key, lt);
        InsertStrictlySorted(s[..n], x, key, lt);
        InsertPermutes(s[..n], x, key, lt);
        forall i | 0 <= i < |r'|
          ensures lt(key(r'[i]), key(s[n]))
        {
          assert r'[i] in multiset(r');
          if r'[i] != x {
            assert r'[i] in s[..n];
          }
        }
      } else {
        assert s[n] in s;
        forall i | 0 <= i < n
          ensures lt(key(s[i]), key(x))
        {
          assert lt(key(s[i]), key(s[n]));
        }
      }
    }
  }

  /** Sorting elements with pairwise different keys puts them in strictly
      ascending key order. */
  lemma {:induction false} SortStrictlySorted<T, K(!new)>(s: seq<T>, key: T -> K, lt: (K, K) -> bool)
    requires StrictTotalOrder(lt) && UniqueKeys(s, key)
    ensures StrictlySorted(Sort(s, key, lt), key, lt)
    decreases |s|
  {
    if s != [] {
      var n := |s| - 1;
      SortStrictlySorted(s[..n], key, lt);
      SortPermutes(s[..n], key, lt);
      forall y | y in Sort(s[..n], key, lt)
        ensures key(y) != key(s[n])
      {
        assert y in multiset(Sort(s[..n], key, lt));
        var i :| 0 <= i < n && s[..n][i] == y;
        assert s[i] == y;
      }
      InsertStrictlySorted(Sort(s[..n], key, lt), s[n], key, lt);
    }
  }

  /** Where `Insert` puts `x`: behind position `j - 1`, when every element
      from `j` on has a key that `x`'s key precedes and the element before
      `j` does not. */
  lemma {:induction false} InsertAt<T, K>(p: seq<T>, j: nat, x: T, key: T -> K, lt: (K, K) -> bool)
    requires j <= |p| && (j == 0 || !lt(key(x), key(p[j - 1])))
    requires forall k :: j <= k < |p| ==> lt(key(x), key(p[k]))
    ensures Insert(p, x, key, lt) == p[..j] + [x] + p[j..]
    decreases |p|
  {
    if |p| == j {
      assert p[..j] == p && p[j..] == [];
    } else {
      var n := |p| - 1;
      var q := p[..n];
      assert lt(key(x), key(p[n]));
      assert Insert(p, x, key, lt) == Insert(q, x, key, lt) + [p[n]];
      assert forall k :: j <= k < |q| ==> q[k] == p[k];
      InsertAt(q, j, x, key, lt);
      assert q[..j] == p[..j];
      assert q[j..] + [p[n]] == p[j..];
    }
  }

  /** A sequence that agrees with `p` before `j`, holds `x` at `j` and `p`
      shifted one place after it. */
  lemma Assemble<T>(b: seq<T>, p: seq<T>, j: nat, x: T)
    requires j <= |p| && |b| == |p| + 1 && b[j] == x
    requires forall k :: 0 <= k < j ==> b[k] == p[k]
    requires forall k :: j < k < |b| ==> b[k] == p[k - 1]
    ensures b == p[..j] + [x] + p[j..]
  {
  }

  /** Inserts `a[i]` into the prefix `a[..i]`, shifting greater elements one
      place to the right. */
  method ShiftInsert<T, K>(a: array<T>, i: nat, key: T -> K, lt: (K, K) -> bool)
    requires i < a.Length
    modifies a
    ensures a[..i + 1] == Insert(old(a[..i]), old(a[i]), key, lt)
    ensures forall k :: i < k < a.Length ==> a[k] == old(a[k])
  {
    ghost var p := a[..i];
    var x := a[i];
    var j := i;
    while j > 0 && lt(key(x), key(a[j - 1]))
      invariant 0 <= j <= i
      invariant forall k :: 0 <= k < j ==> a[k] == p[k]
      invariant forall k :: j < k <= i ==> a[k] == p[k - 1]
      invariant forall k :: i < k < a.Length ==> a[k] == old(a[k])
      invariant forall k :: j <= k < i ==> lt(key(x), key(p[k]))
    {
      a[j] := a[j - 1];
      j := j - 1;
    }
    InsertAt(p, j, x, key, lt);
    a[j] := x;
    Assemble(a[..i + 1], p, j, x);
  }

  /** The insertion sort the model runs where `useSwapForm` and `WalletPage`
      call `sort` on a freshly built array. */
  method InsertionSort<T, K>(a: array<T>, key: T -> K, lt: (K, K) -> bool)
    modifies a
    ensures a[..] == Sort(old(a[..]), key, lt)
  {
    ghost var s := a[..];
    var i := 0;
    while i < a.Length
      invariant 0 <= i <= a.Length
      invariant a[..i] == Sort(s[..i], key, lt)
      invariant forall k :: i <= k < a.Length ==> a[k] == s[k]
    {
      ShiftInsert(a, i, key, lt);
      assert s[..i + 1][..i] == s[..i];
      i := i + 1;
    }
    assert s[..a.Length] == s;
    assert a[..] == a[..a.Length];
  }
}
