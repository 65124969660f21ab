/** Sums over lists and sets that do not depend on the order of summation. */
module Sums {
  import opened Bytes

  function Sum<T>(s: seq<T>, f: T -> int): int {
    if s == [] then 0 else f(s[0]) + Sum(s[1..], f)
  }

  lemma {:induction false} SumSplit<T>(a: seq<T>, b: seq<T>, f: T -> int)
    ensures Sum(a + b, f) == Sum(a, f) + Sum(b, f)
  {
    if a == [] {
      assert a + b == b;
    } else {
      assert (a + b)[1..] == a[1..] + b;
      SumSplit(a[1..], b, f);
    }
  }

  lemma SumWithout<T>(s: seq<T>, j: nat, f: T -> int)
    requires j < |s|
    ensures Sum(s, f) == f(s[j]) + Sum(s[..j] + s[j + 1..], f)
    ensures multiset(s[..j] + s[j + 1..]) == multiset(s) - multiset{s[j]}
  {
    TakenOut(s, j);
    SumAround(s[..j], s[j], s[j + 1..], f);
  }

  lemma SumAround<T>(a: seq<T>, x: T, b: seq<T>, f: T -> int)
    ensures Sum(a + [x] + b, f) == f(x) + Sum(a + b, f)
  {
    SumSplit(a + [x], b, f);
    SumSplit(a, [x], f);
    SumSplit(a, b, f);
  }

  /** Rearranging a list does not change its sum. */
  lemma {:induction false} SumOfPermutation<T>(s: seq<T>, t: seq<T>, f: T -> int)
    requires multiset(s) == multiset(t)
    ensures Sum(s, f) == Sum(t, f)
    decreases |s|
  {
    if s == [] {
      assert |multiset(t)| == 0;
    } else {
      assert s[0] in multiset(t);
      var j :| 0 <= j < |t| && t[j] == s[0];
      var rest := t[..j] + t[j + 1..];
      SumWithout(t, j, f);
      assert multiset(s[1..]) == multiset(rest) by { assert s == [s[0]] + s[1..]; }
      SumOfPermutation(s[1..], rest, f);
    }
  }

  lemma {:induction false} SumAgrees<T>(s: seq<T>, f: T -> int, g: T -> int)
    requires forall x :: x in s ==> f(x) == g(x)
    ensures Sum(s, f) == Sum(s, g)
  {
    if s != [] {
      assert forall x :: x in s[1..] ==> x in s;
      SumAgrees(s[1..], f, g);
    }
  }

  lemma {:induction false} SumAdds<T>(s: seq<T>, f: T -> int, g: T -> int, h: T -> int)
    requires forall x :: x in s ==> h(x) == f(x) + g(x)
    ensures Sum(s, h) == Sum(s, f) + Sum(s, g)
  {
    if s != [] {
      assert forall x :: x in s[1..] ==> x in s;
      SumAdds(s[1..], f, g, h);
    }
  }

  lemma SumSnoc<T>(s: seq<T>, i: nat, f: T -> int)
    requires i < |s|
    ensures Sum(s[..i + 1], f) == Sum(s[..i], f) + f(s[i])
  {
    assert s[..i + 1] == s[..i] + [s[i]];
    SumSplit(s[..i], [s[i]], f);
  }

  lemma {:induction false} SumNonNegative<T>(s: seq<T>, f: T -> int)
    requires forall x :: x in s ==> f(x) >= 0
    ensures Sum(s, f) >= 0
  {
    if s != [] {
      assert forall x :: x in s[1..] ==> x in s;
      SumNonNegative(s[1..], f);
    }
  }

  lemma {:induction false} SumZero<T>(s: seq<T>, f: T -> int)
    requires forall x :: x in s ==> f(x) == 0
    ensures Sum(s, f) == 0
  {
    if s != [] {
      assert forall x :: x in s[1..] ==> x in s;
      SumZero(s[1..], f);
    }
  }

  lemma {:induction false} SumAtMost<T>(s: seq<T>, f: T -> int, g: T -> int)
    requires forall x :: x in s ==> f(x) <= g(x)
    ensures Sum(s, f) <= Sum(s, g)
  {
    if s != [] {
      assert forall x :: x in s[1..] ==> x in s;
      SumAtMost(s[1..], f, g);
    }
  }

  lemma {:induction false} SumAtLeastOne<T>(s: seq<T>, j: nat, f: T -> int)
    requires j < |s| && forall x :: x in s ==> f(x) >= 0
    ensures Sum(s, f) >= f(s[j])
  {
    SumWithout(s, j, f);
    SumNonNegative(s[..j] + s[j + 1..], f);
  }

  lemma {:induction false} SumAtLeastTwo<T>(s: seq<T>, i: nat, j: nat, f: T -> int)
    requires i < j < |s| && forall x :: x in s ==> f(x) >= 0
    ensures Sum(s, f) >= f(s[i]) + f(s[j])
  {
    assert forall x :: x in s[1..] ==> x in s;
    if i == 0 { SumAtLeastOne(s[1..], j - 1, f); } else { SumAtLeastTwo(s[1..], i - 1, j - 1, f); }
  }

  function Each<T, U>(s: seq<T>, f: T -> U): seq<U> {
    if s == [] then [] else [f(s[0])] + Each(s[1..], f)
  }

  lemma {:induction false} EachSplit<T, U>(a: seq<T>, b: seq<T>, f: T -> U)
    ensures Each(a + b, f) == Each(a, f) + Each(b, f)
  {
    if a == [] {
      assert a + b == b;
    } else {
      assert (a + b)[1..] == a[1..] + b;
      EachSplit(a[1..], b, f);
    }
  }

  lemma Middle<T>(a: seq<T>, x: T, b: seq<T>)
    ensures multiset(a + [x] + b) == multiset(a + b) + multiset{x}
  {
  }

  lemma TakenOut<T>(s: seq<T>, j: nat)
    requires j < |s|
    ensures s == s[..j] + [s[j]] + s[j + 1..]
    ensures multiset(s[..j] + s[j + 1..]) == multiset(s) - multiset{s[j]}
  {
    assert s == s[..j] + [s[j]] + s[j + 1..];
    Middle(s[..j], s[j], s[j + 1..]);
  }

  /** Mapping a rearranged list gives a rearranged result. */
  lemma {:induction false} EachOfPermutation<T, U>(s: seq<T>, t: seq<T>, f: T -> U)
    requires multiset(s) == multiset(t)
    ensures multiset(Each(s, f)) == multiset(Each(t, f))
    decreases |s|
  {
    if s == [] {
      assert |multiset(t)| == 0;
    } else {
      assert s[0] in multiset(t);
      var j :| 0 <= j < |t| && t[j] == s[0];
      TakenOut(s, 0);
      TakenOut(t, j);
      EachOfPermutation(s[..0] + s[0 + 1..], t[..j] + t[j + 1..], f);
      EachAround(s[..0], s[0], s[0 + 1..], f);
      EachAround(t[..j], t[j], t[j + 1..], f);
    }
  }

  lemma EachAround<T, U>(a: seq<T>, x: T, b: seq<T>, f: T -> U)
    ensures multiset(Each(a + [x] + b, f)) == multiset(Each(a + b, f)) + multiset{f(x)}
  {
    EachSplit(a + [x], b, f);
    EachSplit(a, [x], f);
    EachSplit(a, b, f);
    assert Each([x], f) == [f(x)];
    Middle(Each(a, f), f(x), Each(b, f));
  }

  lemma {:induction false} EachIs<T, U>(s: seq<T>, f: T -> U)
    ensures |Each(s, f)| == |s|
    ensures forall i :: 0 <= i < |s| ==> Each(s, f)[i] == f(s[i])
  {
    if s != [] { EachIs(s[1..], f); }
  }

  /** A sum of zeros and ones reaches the length of the list exactly when all are ones. */
  lemma {:induction false} SumOfFlags<T>(s: seq<T>, f: T -> int)
    requires forall x :: x in s ==> 0 <= f(x) <= 1
    ensures 0 <= Sum(s, f) <= |s|
    ensures Sum(s, f) == |s| <==> forall x :: x in s ==> f(x) == 1
  {
    if s != [] {
      assert forall x :: x in s[1..] ==> x in s;
      assert forall x :: x in s ==> x == s[0] || x in s[1..];
      SumOfFlags(s[1..], f);
    }
  }

  /** An order in which a map or set of keys may be ranged over: each key once. */
  ghost predicate IsOrder(s: seq<Bytes>, keys: set<Bytes>) {
    multiset(s) == multiset(keys)
  }

  lemma OrderFacts(s: seq<Bytes>, keys: set<Bytes>)
    requires IsOrder(s, keys)
    ensures forall k :: k in s <==> k in keys
    ensures forall i, j :: 0 <= i < j < |s| ==> s[i] != s[j]
    ensures |s| == |keys|
  {
    forall k ensures k in s <==> k in keys {
      assert k in s <==> k in multiset(s);
      assert k in multiset(keys) <==> k in keys;
    }
    forall i, j | 0 <= i < j < |s| ensures s[i] != s[j] {
      assert s == s[..i] + [s[i]] + s[i + 1..];
      assert multiset(s)[s[i]] == 1;
      assert s[j] in s[i + 1..];
    }
    assert |multiset(s)| == |s|;
  }

  lemma {:induction false} SortedIsOrder(keys: set<Bytes>)
    ensures IsOrder(Sorted(keys), keys)
  {
    var r := Sorted(keys);
    forall k ensures multiset(r)[k] == multiset(keys)[k] {
      if k in r {
        var i :| 0 <= i < |r| && r[i] == k;
        OccursOnce(r, i);
      }
    }
  }

  lemma OccursOnce(r: seq<Bytes>, i: nat)
    requires Ascending(r) && i < |r|
    ensures multiset(r)[r[i]] == 1
  {
    assert r == r[..i] + [r[i]] + r[i + 1..];
    forall j | 0 <= j < |r| && j != i ensures r[j] != r[i] { LessIsTotal(r[j], r[i]); }
    assert r[i] !in r[..i] && r[i] !in r[i + 1..];
  }

  /** The sum over a set of keys. */
  ghost function SetSum(keys: set<Bytes>, f: Bytes -> int): int {
    Sum(Sorted(keys), f)
  }

  lemma SumInAnyOrder(s: seq<Bytes>, keys: set<Bytes>, f: Bytes -> int)
    requires IsOrder(s, keys)
    ensures Sum(s, f) == SetSum(keys, f)
  {
    SortedIsOrder(keys);
    SumOfPermutation(s, Sorted(keys), f);
  }

  // ---- sums of the values of a map

  function AmountOf<K>(m: map<K, int>, k: K): int {
    if k in m then m[k] else 0
  }

  ghost function MapSum<K(!new)>(m: map<K, int>): int {
    if m == map[] then 0
    else
      var k :| k in m;
      m[k] + MapSum(m - {k})
  }

  lemma {:induction false} MapSumWithout<K(!new)>(m: map<K, int>, a: K)
    ensures MapSum(m - {a}) == MapSum(m) - AmountOf(m, a)
    decreases |m|
  {
    if a !in m {
      assert m - {a} == m;
    } else {
      var k :| k in m && MapSum(m) == m[k] + MapSum(m - {k});
      if k != a {
        MapSumWithout(m - {k}, a);
        MapSumWithout(m - {a}, k);
        assert m - {k} - {a} == m - {a} - {k};
      }
    }
  }

  lemma MapSumWith<K(!new)>(m: map<K, int>, a: K, x: int)
    ensures MapSum(m[a := x]) == MapSum(m) - AmountOf(m, a) + x
  {
    MapSumWithout(m, a);
    MapSumWithout(m[a := x], a);
    assert m[a := x] - {a} == m - {a};
  }

  lemma {:induction false} MapSumNonNegative<K(!new)>(m: map<K, int>)
    requires forall k :: k in m ==> m[k] >= 0
    ensures MapSum(m) >= 0
    decreases |m|
  {
    if m != map[] {
      var k :| k in m && MapSum(m) == m[k] + MapSum(m - {k});
      MapSumNonNegative(m - {k});
    }
  }
}
