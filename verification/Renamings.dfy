/** Renaming the keys of a store, one step or many. */
module Renamings {

  /** `m'` holds exactly the renamed keys of `m`, and every value comes from a key renamed there. */
  ghost predicate RenamedBy<K(!new), V(!new)>(m: map<K, V>, m': map<K, V>, g: K -> K) {
    && (forall k :: k in m ==> g(k) in m')
    && (forall k :: k in m' ==> exists o :: o in m && g(o) == k && m[o] == m'[k])
  }

  ghost predicate InjectiveOn<K(!new), V(!new)>(m: map<K, V>, g: K -> K) {
    forall a, b :: a in m && b in m && g(a) == g(b) ==> a == b
  }

  lemma Source<K(!new), V(!new)>(m: map<K, V>, m': map<K, V>, g: K -> K, k: K) returns (o: K)
    requires RenamedBy(m, m', g) && k in m'
    ensures o in m && g(o) == k
  {
    o :| o in m && g(o) == k;
  }

  lemma RenamedPair<K(!new), V(!new)>(m: map<K, V>, m': map<K, V>, g: K -> K, a: K, b: K)
    requires RenamedBy(m, m', g) && m.Keys == {a, b} && g(a) != g(b)
    ensures m' == map[g(a) := m[a], g(b) := m[b]]
  {
    assert a in m && b in m;
    forall k | k in m' ensures k == g(a) || k == g(b) { var o :| o in m && g(o) == k; }
  }

  lemma RenamedByAgain<K(!new), V(!new)>(m: map<K, V>, m1: map<K, V>, m2: map<K, V>, g: K -> K, h: K -> K, gh: K -> K)
    requires RenamedBy(m, m1, g) && RenamedBy(m1, m2, h)
    requires forall k :: k in m ==> gh(k) == h(g(k))
    ensures RenamedBy(m, m2, gh)
  {
    forall k | k in m2 ensures exists o :: o in m && gh(o) == k && m[o] == m2[k] {
      var o1 :| o1 in m1 && h(o1) == k && m1[o1] == m2[k];
      var o :| o in m && g(o) == o1 && m[o] == m1[o1];
      assert gh(o) == k;
    }
  }

  lemma SameRenaming<K(!new), V(!new)>(m: map<K, V>, m': map<K, V>, g: K -> K, h: K -> K)
    requires RenamedBy(m, m', g)
    requires forall k :: k in m ==> g(k) == h(k)
    ensures RenamedBy(m, m', h)
  {
    forall k | k in m' ensures exists o :: o in m && h(o) == k && m[o] == m'[k] {
      var o :| o in m && g(o) == k && m[o] == m'[k];
      assert h(o) == k;
    }
  }

  ghost function Image<K(!new)>(s: set<K>, g: K -> K): set<K> {
    set k | k in s :: g(k)
  }

  lemma {:induction false} ImageSize<K(!new)>(s: set<K>, g: K -> K)
    ensures |Image(s, g)| <= |s|
    ensures |Image(s, g)| == |s| <==> forall a, b :: a in s && b in s && g(a) == g(b) ==> a == b
    decreases |s|
  {
    if s != {} {
      var x :| x in s;
      var r := s - {x};
      ImageSize(r, g);
      assert Image(s, g) == Image(r, g) + {g(x)};
      if g(x) in Image(r, g) {
        assert Image(s, g) == Image(r, g);
        var y :| y in r && g(y) == g(x);
        assert x in s && y in s && x != y;
      } else if |Image(r, g)| == |r| {
        assert forall y :: y in r ==> g(y) in Image(r, g);
        assert forall a, b :: a in s && b in s && g(a) == g(b) ==> a == b;
      } else {
        var a, b :| a in r && b in r && g(a) == g(b) && a != b;
        assert a in s && b in s;
      }
    }
  }

  /** A renaming keeps every entry apart exactly when it is injective on the keys present. */
  lemma LosslessIffInjective<K(!new), V(!new)>(m: map<K, V>, m': map<K, V>, g: K -> K)
    requires RenamedBy(m, m', g)
    ensures |m'| <= |m|
    ensures |m'| == |m| <==> InjectiveOn(m, g)
    ensures InjectiveOn(m, g) ==> forall k :: k in m ==> m'[g(k)] == m[k]
  {
    assert m'.Keys == Image(m.Keys, g);
    ImageSize(m.Keys, g);
    assert |m'| == |m'.Keys| && |m| == |m.Keys|;
  }

  /** The renaming halfway through a walk: the keys in `done` have moved. */
  ghost function MoveSome<K(!new)>(done: set<K>, g: K -> K): K -> K {
    k => if k in done then g(k) else k
  }

  /** Moving one more entry during a walk whose targets are never keys still to be visited. */
  lemma MoveOne<K(!new), V(!new)>(m: map<K, V>, d: map<K, V>, done: set<K>, k: K, g: K -> K)
    requires RenamedBy(m, d, MoveSome(done, g))
    requires k in m && k !in done && g(k) != k
    requires forall o :: o in done ==> g(o) != k
    ensures k in d && d[k] == m[k]
    ensures RenamedBy(m, d[g(k) := m[k]] - {k}, MoveSome(done + {k}, g))
  {
    var d', h, h' := d[g(k) := m[k]] - {k}, MoveSome(done, g), MoveSome(done + {k}, g);
    assert forall o :: o != k ==> h'(o) == h(o);
    assert h(k) == k && h'(k) == g(k);
    forall x | x in d' ensures exists o :: o in m && h'(o) == x && m[o] == d'[x] {
      if x == g(k) {
        assert h'(k) == x;
      } else {
        var o :| o in m && h(o) == x && m[o] == d[x];
        assert h'(o) == x;
      }
    }
  }

  /** A list of keys to move, none twice, none of them the target of another. */
  ghost predicate IsWalk<K(!new), V(!new)>(m: map<K, V>, ks: seq<K>, g: K -> K) {
    && (forall i, j :: 0 <= i < j < |ks| ==> ks[i] != ks[j])
    && (forall i :: 0 <= i < |ks| ==> ks[i] in m)
    && (forall a, b :: a in ks && b in ks ==> g(a) != b)
    && (forall k :: k in m && k !in ks ==> g(k) == k)
  }

  ghost function Done<K(!new)>(ks: seq<K>, i: nat): set<K>
    requires i <= |ks|
  {
    if i == 0 then {} else Done(ks, i - 1) + {ks[i - 1]}
  }

  lemma {:induction false} DoneAre<K(!new)>(ks: seq<K>, i: nat)
    requires i <= |ks|
    ensures Done(ks, i) == set k | k in ks[..i]
  {
    if i > 0 {
      DoneAre(ks, i - 1);
      assert ks[..i] == ks[..i - 1] + [ks[i - 1]];
    }
  }

  lemma WalkStep<K(!new), V(!new)>(m: map<K, V>, d: map<K, V>, ks: seq<K>, i: nat, g: K -> K)
    requires IsWalk(m, ks, g) && i < |ks|
    requires RenamedBy(m, d, MoveSome(Done(ks, i), g))
    ensures RenamedBy(m, d[g(ks[i]) := m[ks[i]]] - {ks[i]}, MoveSome(Done(ks, i + 1), g))
  {
    DoneAre(ks, i);
    assert forall o :: o in Done(ks, i) ==> o in ks;
    MoveOne(m, d, Done(ks, i), ks[i], g);
  }

  lemma AllDone<K(!new), V(!new)>(m: map<K, V>, ks: seq<K>, g: K -> K)
    requires IsWalk(m, ks, g)
    ensures forall k :: k in m ==> MoveSome(Done(ks, |ks|), g)(k) == g(k)
  {
    DoneAre(ks, |ks|);
    assert ks[..|ks|] == ks;
  }

  lemma WalkEnd<K(!new), V(!new)>(m: map<K, V>, d: map<K, V>, ks: seq<K>, g: K -> K)
    requires IsWalk(m, ks, g)
    requires RenamedBy(m, d, MoveSome(Done(ks, |ks|), g))
    ensures RenamedBy(m, d, g)
  {
    AllDone(m, ks, g);
    SameRenaming(m, d, MoveSome(Done(ks, |ks|), g), g);
  }

  /** Two entries taken out before a renaming and put back after it, at keys nothing else reaches. */
  lemma RestorePair<K(!new), V(!new)>(m: map<K, V>, m1: map<K, V>, m2: map<K, V>, a: K, b: K, g: K -> K, h: K -> K)
    requires a in m && b in m && RenamedBy(m - {a, b}, m1, g)
    requires h(a) !in m1 && h(b) !in m1 && h(a) != h(b)
    requires forall k :: k in m && k != a && k != b ==> h(k) == g(k)
    requires m2 == map[h(a) := m[a], h(b) := m[b]] + m1
    ensures RenamedBy(m, m2, h)
  {
    forall k | k in m2 ensures exists o :: o in m && h(o) == k && m[o] == m2[k] {
      if k in m1 {
        var o :| o in m - {a, b} && g(o) == k && m[o] == m1[k];
        assert h(o) == k;
      }
    }
    forall k | k in m ensures h(k) in m2 {
      if k != a && k != b { assert k in m - {a, b}; }
    }
  }
}
