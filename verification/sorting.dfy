/**
 * Python's `sorted(xs, key=k)` on string keys: a stable sort in the
 * code-point order of the keys, written here as an insertion sort, with
 * the facts the rest of the model uses about it, and the maps over
 * sequences that the loops of the program build up element by element.
 */
module Sorting {
  import opened Text

  predicate SortedBy<T>(s: seq<T>, key: T -> string)
  {
    forall i, j :: 0 <= i < j < |s| ==> LessEq(key(s[i]), key(s[j]))
  }

  predicate DistinctKeys<T>(s: seq<T>, key: T -> string)
  {
    forall i, j :: 0 <= i < j < |s| ==> key(s[i]) != key(s[j])
  }

  function Identity(s: string): string
  {
    s
  }

  /** Puts `x` before the first element whose key is not below `key(x)`. */
  function InsertBy<T>(x: T, s: seq<T>, key: T -> string): (r: seq<T>)
    ensures multiset(r) == multiset(s) + multiset{x}
    ensures SortedBy(s, key) ==> SortedBy(r, key)
  {
    if s == [] || LessEq(key(x), key(s[0])) then
      InsertedFirst(x, s, key);
      [x] + s
    else
      var tail := InsertBy(x, s[1..], key);
      assert s == [s[0]] + s[1..];
      InsertedLater(x, s, key, tail);
      [s[0]] + tail
  }

  lemma InsertedFirst<T>(x: T, s: seq<T>, key: T -> string)
    requires s == [] || LessEq(key(x), key(s[0]))
    ensures SortedBy(s, key) ==> SortedBy([x] + s, key)
  {
    if SortedBy(s, key) && s != [] {
      forall j | 0 < j < |s| + 1
        ensures LessEq(key(x), key(([x] + s)[j]))
      {
        if j > 1 {
          LessEqTransitive(key(x), key(s[0]), key(s[j - 1]));
        }
      }
    }
  }

  lemma InsertedLater<T>(x: T, s: seq<T>, key: T -> string, tail: seq<T>)
    requires s != [] && !LessEq(key(x), key(s[0]))
    requires multiset(tail) == multiset(s[1..]) + multiset{x}
    requires SortedBy(s[1..], key) ==> SortedBy(tail, key)
    ensures SortedBy(s, key) ==> SortedBy([s[0]] + tail, key)
  {
    if SortedBy(s, key) {
      LessEqTotal(key(x), key(s[0]));
      forall j | 0 <= j < |tail|
        ensures LessEq(key(s[0]), key(tail[j]))
      {
        assert tail[j] in multiset(tail);
        if tail[j] != x {
          assert tail[j] in multiset(s[1..]);
          var k :| 0 <= k < |s[1..]| && s[1..][k] == tail[j];
          assert s[k + 1] == tail[j];
        }
      }
    }
  }

  /** `sorted(s, key=key)`. */
  function SortBy<T>(s: seq<T>, key: T -> string): (r: seq<T>)
    ensures multiset(r) == multiset(s) && |r| == |s|
    ensures SortedBy(r, key)
  {
    if s == [] then []
    else
      assert s == [s[0]] + s[1..];
      InsertBy(s[0], SortBy(s[1..], key), key)
  }

  /** Holds of the elements whose key is `k`. */
  function WithKey<T>(key: T -> string, k: string): T -> bool
  {
    x => key(x) == k
  }

  lemma FilterCons<T>(p: T -> bool, x: T, s: seq<T>)
    ensures Filter(p, [x] + s) == (if p(x) then [x] else []) + Filter(p, s)
  {
    assert ([x] + s)[1..] == s;
  }

  /** `x` goes in front of every element with the same key. */
  lemma {:induction false} InsertByStable<T>(x: T, s: seq<T>, key: T -> string, k: string)
    ensures Filter(WithKey(key, k), InsertBy(x, s, key)) ==
            (if key(x) == k then [x] else []) + Filter(WithKey(key, k), s)
    decreases |s|
  {
    var p := WithKey(key, k);
    if s == [] || LessEq(key(x), key(s[0])) {
      FilterCons(p, x, s);
    } else {
      LessEqReflexive(key(x));
      assert p(x) == (key(x) == k) && p(s[0]) == (key(s[0]) == k);
      var tail := InsertBy(x, s[1..], key);
      assert InsertBy(x, s, key) == [s[0]] + tail;
      InsertByStable(x, s[1..], key, k);
      FilterCons(p, s[0], tail);
      FilterCons(p, s[0], s[1..]);
      assert s == [s[0]] + s[1..];
      if key(x) == k {
        assert !p(s[0]);
      }
    }
  }

  /**
   * `sorted` is stable: the elements that share a key come out in the
   * order they went in.
   */
  lemma {:induction false} SortByStable<T>(s: seq<T>, key: T -> string, k: string)
    ensures Filter(WithKey(key, k), SortBy(s, key)) == Filter(WithKey(key, k), s)
    decreases |s|
  {
    if s != [] {
      SortByStable(s[1..], key, k);
      InsertByStable(s[0], SortBy(s[1..], key), key, k);
      FilterCons(WithKey(key, k), s[0], s[1..]);
      assert s == [s[0]] + s[1..];
    }
  }

  /** Sorting keeps exactly the elements it was given. */
  lemma SortByMembers<T>(s: seq<T>, key: T -> string)
    ensures forall x :: x in SortBy(s, key) <==> x in s
  {
    var r := SortBy(s, key);
    forall x
      ensures x in r <==> x in s
    {
      assert x in r <==> x in multiset(r);
      assert x in s <==> x in multiset(s);
    }
  }

  lemma SortByMember<T>(s: seq<T>, key: T -> string, x: T)
    ensures x in SortBy(s, key) <==> x in s
  {
    assert x in SortBy(s, key) <==> x in multiset(SortBy(s, key));
    assert x in s <==> x in multiset(s);
  }

  /** Sorting a sequence whose keys are distinct gives one whose keys are distinct. */
  lemma {:induction false} SortByDistinct<T>(s: seq<T>, key: T -> string)
    requires DistinctKeys(s, key)
    ensures DistinctKeys(SortBy(s, key), key)
    decreases |s|
  {
    if s != [] {
      var tail := s[1..];
      assert DistinctKeys(tail, key);
      SortByDistinct(tail, key);
      forall y | y in SortBy(tail, key)
        ensures key(y) != key(s[0])
      {
        assert y in multiset(SortBy(tail, key));
        assert y in multiset(tail);
        var k :| 0 <= k < |tail| && tail[k] == y;
        assert s[k + 1] == y;
      }
      InsertDistinct(s[0], SortBy(tail, key), key);
    }
  }

  lemma {:induction false} InsertDistinct<T>(x: T, s: seq<T>, key: T -> string)
    requires DistinctKeys(s, key)
    requires forall y :: y in s ==> key(y) != key(x)
    ensures DistinctKeys(InsertBy(x, s, key), key)
    decreases |s|
  {
    if s != [] && !LessEq(key(x), key(s[0])) {
      var tail := InsertBy(x, s[1..], key);
      assert DistinctKeys(s[1..], key);
      InsertDistinct(x, s[1..], key);
      forall j | 0 <= j < |tail|
        ensures key(tail[j]) != key(s[0])
      {
        assert tail[j] in multiset(tail);
        if tail[j] != x {
          assert tail[j] in multiset(s[1..]);
          var k :| 0 <= k < |s[1..]| && s[1..][k] == tail[j];
          assert s[k + 1] == tail[j];
        }
      }
    }
  }

  /**
   * A sequence sorted by distinct keys is determined by its elements: two
   * such sequences holding the same elements are equal.
   */
  lemma {:induction false} SortedUnique<T>(a: seq<T>, b: seq<T>, key: T -> string)
    requires SortedBy(a, key) && DistinctKeys(a, key)
    requires SortedBy(b, key) && DistinctKeys(b, key)
    requires forall x :: x in a <==> x in b
    ensures a == b
    decreases |a|
  {
    NonEmptyHasMember(a);
    NonEmptyHasMember(b);
    if a != [] && b != [] {
      assert a[0] in b && b[0] in a;
      var i :| 0 <= i < |a| && a[i] == b[0];
      var j :| 0 <= j < |b| && b[j] == a[0];
      if i != 0 && j != 0 {
        assert LessEq(key(a[0]), key(a[i]));
        assert LessEq(key(b[0]), key(b[j]));
        LessEqAntisymmetric(key(a[0]), key(a[i]));
        assert false;
      }
      assert a[0] == b[0];
      forall x
        ensures x in a[1..] <==> x in b[1..]
      {
        if x in a[1..] {
          var k :| 0 <= k < |a[1..]| && a[1..][k] == x;
          assert a[k + 1] == x && x != a[0];
          assert x in b;
          var m :| 0 <= m < |b| && b[m] == x;
          assert m != 0;
          assert b[1..][m - 1] == x;
        }
        if x in b[1..] {
          var k :| 0 <= k < |b[1..]| && b[1..][k] == x;
          assert b[k + 1] == x && x != b[0];
          assert x in a;
          var m :| 0 <= m < |a| && a[m] == x;
          assert m != 0;
          assert a[1..][m - 1] == x;
        }
      }
      SortedUnique(a[1..], b[1..], key);
      assert a == [a[0]] + a[1..];
      assert b == [b[0]] + b[1..];
    }
  }

  lemma NonEmptyHasMember<T>(s: seq<T>)
    ensures s == [] <==> forall x :: x !in s
  {
    if s != [] {
      assert s[0] in s;
    }
  }

  function MapSeq<T, U>(f: T -> U, s: seq<T>): (r: seq<U>)
    ensures |r| == |s|
    ensures forall i :: 0 <= i < |s| ==> r[i] == f(s[i])
  {
    if s == [] then [] else [f(s[0])] + MapSeq(f, s[1..])
  }

  /** Sorting commutes with a map that carries each key along unchanged. */
  lemma {:induction false} SortByMap<T, U>(f: T -> U, s: seq<T>, k1: T -> string, k2: U -> string)
    requires forall x :: k2(f(x)) == k1(x)
    ensures SortBy(MapSeq(f, s), k2) == MapSeq(f, SortBy(s, k1))
    decreases |s|
  {
    if s != [] {
      var m := MapSeq(f, s);
      assert m[0] == f(s[0]);
      assert m[1..] == MapSeq(f, s[1..]);
      SortByMap(f, s[1..], k1, k2);
      InsertByMap(f, s[0], SortBy(s[1..], k1), k1, k2);
    }
  }

  lemma {:induction false} InsertByMap<T, U>(f: T -> U, x: T, s: seq<T>, k1: T -> string, k2: U -> string)
    requires forall y :: k2(f(y)) == k1(y)
    ensures InsertBy(f(x), MapSeq(f, s), k2) == MapSeq(f, InsertBy(x, s, k1))
    decreases |s|
  {
    if s != [] {
      var m := MapSeq(f, s);
      assert m[0] == f(s[0]);
      assert m[1..] == MapSeq(f, s[1..]);
      if !LessEq(k1(x), k1(s[0])) {
        InsertByMap(f, x, s[1..], k1, k2);
        var t := InsertBy(x, s[1..], k1);
        assert MapSeq(f, [s[0]] + t) == [f(s[0])] + MapSeq(f, t);
      } else {
        assert MapSeq(f, [x] + s) == [f(x)] + MapSeq(f, s);
      }
    }
  }

  /** `f` applied to the elements of `s[..i + 1]` is one more element than on `s[..i]`. */
  lemma MapSeqSnoc<T, U>(f: T -> U, s: seq<T>, i: nat)
    requires i < |s|
    ensures MapSeq(f, s[..i + 1]) == MapSeq(f, s[..i]) + [f(s[i])]
  {
    var a, b := MapSeq(f, s[..i + 1]), MapSeq(f, s[..i]) + [f(s[i])];
    assert forall k :: 0 <= k < |a| ==> a[k] == b[k];
  }

  /** The concatenation of `f(x)` over the elements `x` of `s`, in order. */
  function FlatMap<T, U>(f: T -> seq<U>, s: seq<T>): seq<U>
  {
    if s == [] then [] else FlatMap(f, s[..|s| - 1]) + f(s[|s| - 1])
  }

  lemma FlatMapStep<T, U>(f: T -> seq<U>, s: seq<T>, i: nat)
    requires i < |s|
    ensures FlatMap(f, s[..i + 1]) == FlatMap(f, s[..i]) + f(s[i])
  {
    assert s[..i + 1][..i] == s[..i];
  }

  /** An element of the concatenation comes from the image of some element. */
  lemma {:induction false} FlatMapMembers<T, U>(f: T -> seq<U>, s: seq<T>, y: U)
    ensures y in FlatMap(f, s) <==> exists x :: x in s && y in f(x)
    decreases |s|
  {
    if s != [] {
      var init, last := s[..|s| - 1], s[|s| - 1];
      FlatMapMembers(f, init, y);
      assert s == init + [last];
      assert forall x :: x in s <==> x in init || x == last;
    }
  }

  /** Mapping by `f` then `g` is mapping by their composition `h`. */
  lemma MapSeqCompose<T, U, V>(f: T -> U, g: U -> V, h: T -> V, s: seq<T>)
    requires forall x :: h(x) == g(f(x))
    ensures MapSeq(h, s) == MapSeq(g, MapSeq(f, s))
  {
    var a, b := MapSeq(h, s), MapSeq(g, MapSeq(f, s));
    assert forall k :: 0 <= k < |a| ==> a[k] == b[k];
  }

  /** The elements of `s` that satisfy `p`, in order. */
  function Filter<T>(p: T -> bool, s: seq<T>): seq<T>
  {
    if s == [] then [] else (if p(s[0]) then [s[0]] else []) + Filter(p, s[1..])
  }

  /** Filtering keeps exactly the elements that satisfy `p`. */
  lemma {:induction false} FilterMember<T>(p: T -> bool, s: seq<T>, x: T)
    ensures x in Filter(p, s) <==> x in s && p(x)
    decreases |s|
  {
    if s != [] {
      FilterMember(p, s[1..], x);
      assert x in s <==> x == s[0] || x in s[1..];
    }
  }

  /** Filtering keeps a sequence sorted by distinct keys sorted by distinct keys. */
  lemma {:induction false} FilterSorted<T>(p: T -> bool, s: seq<T>, key: T -> string)
    requires SortedBy(s, key) && DistinctKeys(s, key)
    ensures SortedBy(Filter(p, s), key) && DistinctKeys(Filter(p, s), key)
    decreases |s|
  {
    if s != [] {
      var rest := s[1..];
      var tail := Filter(p, rest);
      FilterSorted(p, rest, key);
      if p(s[0]) {
        forall y | y in tail
          ensures LessEq(key(s[0]), key(y)) && key(s[0]) != key(y)
        {
          FilterMember(p, rest, y);
          var k :| 0 <= k < |rest| && rest[k] == y;
          assert s[k + 1] == y;
        }
        var r := [s[0]] + tail;
        forall i, j | 0 <= i < j < |r|
          ensures LessEq(key(r[i]), key(r[j])) && key(r[i]) != key(r[j])
        {
          if i == 0 {
            assert r[j] in tail;
          } else {
            assert r[i] == tail[i - 1] && r[j] == tail[j - 1];
          }
        }
      }
    }
  }

  /** Some element of `s` satisfies `P` exactly when one of all but the last does, or the last does. */
  lemma ExistsSnoc<T>(P: T -> bool, s: seq<T>, init: seq<T>)
    requires s != [] && init == s[..|s| - 1]
    ensures (exists i :: 0 <= i < |s| && P(s[i])) <==>
            (exists i :: 0 <= i < |init| && P(init[i])) || P(s[|s| - 1])
  {
    if exists i :: 0 <= i < |s| && P(s[i]) {
      var i :| 0 <= i < |s| && P(s[i]);
      if i < |init| {
        assert init[i] == s[i];
      }
    }
    if exists i :: 0 <= i < |init| && P(init[i]) {
      var i :| 0 <= i < |init| && P(init[i]);
      assert init[i] == s[i];
    }
  }

}
