/** Partitions with a value per class, independent of how they are represented. */
module Partitions {

  /** Elements are the indices; equal class numbers mean same class, and `val` repeats the value
      of the class at every member. */
  datatype Part<T> = Part(cls: seq<nat>, val: seq<T>)

  predicate IsPart<T(==)>(p: Part<T>) {
    && |p.cls| == |p.val|
    && forall x, y :: 0 <= x < |p.cls| && 0 <= y < |p.cls| && p.cls[x] == p.cls[y] ==> p.val[x] == p.val[y]
  }

  predicate Same<T>(p: Part<T>, x: nat, y: nat)
    requires x < |p.cls| && y < |p.cls|
  {
    p.cls[x] == p.cls[y]
  }

  ghost predicate AlikeAt<T>(p: Part<T>, q: Part<T>, x: nat, y: nat)
    requires x < |p.cls| == |q.cls| && y < |p.cls|
  {
    Same(p, x, y) <==> Same(q, x, y)
  }

  /** The same classes with the same values, whatever the class numbers. */
  ghost predicate Alike<T>(p: Part<T>, q: Part<T>) {
    && |p.cls| == |q.cls|
    && p.val == q.val
    && forall x, y :: 0 <= x < |p.cls| && 0 <= y < |p.cls| ==> AlikeAt(p, q, x, y)
  }

  /** Merge the classes of `a` and `b`; nothing happens if they are one class already. */
  function Union<T>(p: Part<T>, a: nat, b: nat, merge: (T, T) -> T): (r: Part<T>)
    requires |p.cls| == |p.val| && a < |p.cls| && b < |p.cls|
    ensures |r.cls| == |r.val| == |p.cls|
  {
    if p.cls[a] == p.cls[b] then p
    else Part(
      seq(|p.cls|, i requires 0 <= i < |p.cls| => if p.cls[i] == p.cls[b] then p.cls[a] else p.cls[i]),
      seq(|p.val|, i requires 0 <= i < |p.cls| == |p.val| =>
        if p.cls[i] == p.cls[a] || p.cls[i] == p.cls[b] then merge(p.val[a], p.val[b]) else p.val[i]))
  }

  lemma UnionAlike<T>(p: Part<T>, q: Part<T>, a: nat, b: nat, merge: (T, T) -> T)
    requires |p.cls| == |p.val| && |q.cls| == |q.val| && Alike(p, q) && a < |p.cls| && b < |p.cls|
    ensures Alike(Union(p, a, b, merge), Union(q, a, b, merge))
  {
    assert AlikeAt(p, q, a, b);
    var p', q' := Union(p, a, b, merge), Union(q, a, b, merge);
    forall x | 0 <= x < |p.cls| ensures p'.val[x] == q'.val[x] {
      assert AlikeAt(p, q, x, a);
      assert AlikeAt(p, q, x, b);
    }
    forall x, y | 0 <= x < |p.cls| && 0 <= y < |p.cls| ensures AlikeAt(p', q', x, y) {
      UnionSame(p, a, b, merge, x, y);
      UnionSame(q, a, b, merge, x, y);
      assert AlikeAt(p, q, x, y);
      assert AlikeAt(p, q, x, a);
      assert AlikeAt(p, q, x, b);
      assert AlikeAt(p, q, y, a);
      assert AlikeAt(p, q, y, b);
    }
  }

  lemma UnionSame<T>(p: Part<T>, a: nat, b: nat, merge: (T, T) -> T, x: nat, y: nat)
    requires |p.cls| == |p.val| && a < |p.cls| && b < |p.cls| && x < |p.cls| && y < |p.cls|
    ensures Same(Union(p, a, b, merge), x, y) <==>
            Same(p, x, y) || (Same(p, x, a) && Same(p, b, y)) || (Same(p, x, b) && Same(p, a, y))
  {
  }

  lemma AlikeBack<T>(p: Part<T>, q: Part<T>)
    requires Alike(p, q)
    ensures Alike(q, p)
  {
    forall x, y | 0 <= x < |p.cls| && 0 <= y < |p.cls| ensures AlikeAt(q, p, x, y) {
      assert AlikeAt(p, q, x, y);
    }
  }

  lemma AlikeTrans<T>(p: Part<T>, q: Part<T>, r: Part<T>)
    requires Alike(p, q) && Alike(q, r)
    ensures Alike(p, r)
  {
    forall x, y | 0 <= x < |p.cls| && 0 <= y < |p.cls| ensures AlikeAt(p, r, x, y) {
      assert AlikeAt(p, q, x, y);
      assert AlikeAt(q, r, x, y);
    }
  }

  // ----- sequences of unions -----

  predicate Within(pairs: seq<(nat, nat)>, n: nat) {
    forall i :: 0 <= i < |pairs| ==> pairs[i].0 < n && pairs[i].1 < n
  }

  function UnionAll<T>(p: Part<T>, pairs: seq<(nat, nat)>, merge: (T, T) -> T): (r: Part<T>)
    requires |p.cls| == |p.val| && Within(pairs, |p.cls|)
    ensures |r.cls| == |r.val| == |p.cls|
  {
    if pairs == [] then p
    else
      var last := pairs[|pairs| - 1];
      Union(UnionAll(p, pairs[..|pairs| - 1], merge), last.0, last.1, merge)
  }

  ghost predicate Equivalence(r: (nat, nat) -> bool) {
    && (forall x :: r(x, x))
    && (forall x, y :: r(x, y) ==> r(y, x))
    && (forall x, y, z :: r(x, y) && r(y, z) ==> r(x, z))
  }

  ghost predicate Contains(r: (nat, nat) -> bool, pairs: seq<(nat, nat)>) {
    forall i :: 0 <= i < |pairs| ==> r(pairs[i].0, pairs[i].1)
  }

  ghost predicate Relates(r: (nat, nat) -> bool, pairs: seq<(nat, nat)>, x: nat, y: nat) {
    Equivalence(r) && Contains(r, pairs) ==> r(x, y)
  }

  /** Every equivalence that relates the pairs relates the two. */
  ghost predicate Forced(pairs: seq<(nat, nat)>, x: nat, y: nat) {
    forall r :: Relates(r, pairs, x, y)
  }

  ghost predicate ForcedAt<T>(p: Part<T>, pairs: seq<(nat, nat)>, x: nat, y: nat)
    requires x < |p.cls| && y < |p.cls|
  {
    Same(p, x, y) <==> Forced(pairs, x, y)
  }

  /** The classes are those of the least equivalence that relates the pairs. */
  ghost predicate IsLeast<T>(p: Part<T>, pairs: seq<(nat, nat)>) {
    && Within(pairs, |p.cls|)
    && forall x, y :: 0 <= x < |p.cls| && 0 <= y < |p.cls| ==> ForcedAt(p, pairs, x, y)
  }

  /** The classes as a relation on all numbers. */
  function Rel<T>(p: Part<T>): (nat, nat) -> bool {
    (x: nat, y: nat) => x == y || (x < |p.cls| && y < |p.cls| && p.cls[x] == p.cls[y])
  }

  /** A partition that identifies the pairs is as coarse as the least equivalence. */
  lemma ForcedWithin<T>(p: Part<T>, pairs: seq<(nat, nat)>, x: nat, y: nat)
    requires Within(pairs, |p.cls|) && forall i :: 0 <= i < |pairs| ==> Same(p, pairs[i].0, pairs[i].1)
    requires Forced(pairs, x, y) && x < |p.cls| && y < |p.cls|
    ensures Same(p, x, y)
  {
    var r := Rel(p);
    assert Equivalence(r) && Contains(r, pairs);
    assert Relates(r, pairs, x, y);
  }

  lemma LeastContains<T>(p: Part<T>, pairs: seq<(nat, nat)>, i: nat)
    requires IsLeast(p, pairs) && i < |pairs|
    ensures Same(p, pairs[i].0, pairs[i].1)
  {
    assert ForcedAt(p, pairs, pairs[i].0, pairs[i].1);
  }

  lemma LeastAlike<T>(p: Part<T>, q: Part<T>, pairs: seq<(nat, nat)>)
    requires IsLeast(p, pairs) && |q.cls| == |p.cls|
    requires forall x, y :: 0 <= x < |p.cls| && 0 <= y < |p.cls| ==> AlikeAt(p, q, x, y)
    ensures IsLeast(q, pairs)
  {
    forall x, y | 0 <= x < |p.cls| && 0 <= y < |p.cls| ensures ForcedAt(q, pairs, x, y) {
      assert ForcedAt(p, pairs, x, y) && AlikeAt(p, q, x, y);
    }
  }

  /** A union adds its pair. */
  lemma UnionLeast<T>(p: Part<T>, a: nat, b: nat, merge: (T, T) -> T, pairs: seq<(nat, nat)>)
    requires |p.cls| == |p.val| && a < |p.cls| && b < |p.cls| && IsLeast(p, pairs)
    ensures IsLeast(Union(p, a, b, merge), pairs + [(a, b)])
  {
    var q, all := Union(p, a, b, merge), pairs + [(a, b)];
    forall i | 0 <= i < |all| ensures Same(q, all[i].0, all[i].1) {
      UnionSame(p, a, b, merge, all[i].0, all[i].1);
      if i < |pairs| { LeastContains(p, pairs, i); }
    }
    forall x, y | 0 <= x < |p.cls| && 0 <= y < |p.cls| ensures ForcedAt(q, all, x, y) {
      if Forced(all, x, y) { ForcedWithin(q, all, x, y); }
      if Same(q, x, y) { UnionForced(p, a, b, merge, pairs, x, y); }
    }
  }

  lemma UnionForced<T>(p: Part<T>, a: nat, b: nat, merge: (T, T) -> T, pairs: seq<(nat, nat)>, x: nat, y: nat)
    requires |p.cls| == |p.val| && a < |p.cls| && b < |p.cls| && x < |p.cls| && y < |p.cls| && IsLeast(p, pairs)
    requires Same(Union(p, a, b, merge), x, y)
    ensures Forced(pairs + [(a, b)], x, y)
  {
    var all := pairs + [(a, b)];
    UnionSame(p, a, b, merge, x, y);
    assert ForcedAt(p, pairs, x, y) && ForcedAt(p, pairs, x, a) && ForcedAt(p, pairs, x, b);
    assert ForcedAt(p, pairs, b, y) && ForcedAt(p, pairs, a, y);
    forall r: (nat, nat) -> bool ensures Relates(r, all, x, y) {
      if Equivalence(r) && Contains(r, all) {
        assert Contains(r, pairs) by { assert forall i :: 0 <= i < |pairs| ==> all[i] == pairs[i]; }
        assert r(all[|pairs|].0, all[|pairs|].1);
        if Same(p, x, y) {
          assert Relates(r, pairs, x, y);
        } else if Same(p, x, a) && Same(p, b, y) {
          assert Relates(r, pairs, x, a) && Relates(r, pairs, b, y);
        } else {
          assert Relates(r, pairs, x, b) && Relates(r, pairs, a, y);
        }
      }
    }
  }

  /** A new index adds nothing. */
  lemma PushLeast<T>(p: Part<T>, idx: nat, elem: T, pairs: seq<(nat, nat)>)
    requires IsLeast(p, pairs) && idx == |p.cls| && idx !in p.cls
    ensures IsLeast(Part(p.cls + [idx], p.val + [elem]), pairs)
  {
    var q := Part(p.cls + [idx], p.val + [elem]);
    forall i | 0 <= i < |pairs| ensures Same(q, pairs[i].0, pairs[i].1) { LeastContains(p, pairs, i); }
    forall x, y | 0 <= x < |q.cls| && 0 <= y < |q.cls| ensures ForcedAt(q, pairs, x, y) {
      if Forced(pairs, x, y) { ForcedWithin(q, pairs, x, y); }
      if Same(q, x, y) && x != y {
        assert ForcedAt(p, pairs, x, y);
      }
    }
  }

  /** Without unions every index is alone. */
  lemma NothingUnited<T>(p: Part<T>)
    requires forall x, y :: 0 <= x < y < |p.cls| ==> p.cls[x] != p.cls[y]
    ensures IsLeast(p, [])
  {
    forall x, y | 0 <= x < |p.cls| && 0 <= y < |p.cls| ensures ForcedAt(p, [], x, y) {
      if Forced([], x, y) { ForcedWithin(p, [], x, y); }
    }
  }

  /** After any sequence of unions the classes are those of the least equivalence that relates the
      united pairs. */
  lemma {:induction false} UnionAllLeast<T>(p: Part<T>, base: seq<(nat, nat)>, pairs: seq<(nat, nat)>,
                                            merge: (T, T) -> T)
    requires |p.cls| == |p.val| && IsLeast(p, base) && Within(pairs, |p.cls|)
    ensures IsLeast(UnionAll(p, pairs, merge), base + pairs)
  {
    if pairs == [] {
      assert base + pairs == base;
    } else {
      var init, last := pairs[..|pairs| - 1], pairs[|pairs| - 1];
      UnionAllLeast(p, base, init, merge);
      UnionLeast(UnionAll(p, init, merge), last.0, last.1, merge, base + init);
      assert base + init + [last] == base + pairs;
    }
  }

  // ----- uniting many indices with the first -----

  function WithFirst(first: nat, rest: seq<nat>): (r: seq<(nat, nat)>)
    ensures |r| == |rest| && forall i :: 0 <= i < |r| ==> r[i] == (first, rest[i])
  {
    seq(|rest|, i requires 0 <= i < |rest| => (first, rest[i]))
  }

  predicate InRange(xs: seq<nat>, n: nat) {
    forall i :: 0 <= i < |xs| ==> xs[i] < n
  }

  function UnionFirst<T>(p: Part<T>, first: nat, rest: seq<nat>, merge: (T, T) -> T): (r: Part<T>)
    requires |p.cls| == |p.val| && first < |p.cls| && InRange(rest, |p.cls|)
    ensures |r.cls| == |r.val| == |p.cls|
  {
    if rest == [] then p
    else Union(UnionFirst(p, first, rest[..|rest| - 1], merge), first, rest[|rest| - 1], merge)
  }

  lemma {:induction false} UnionFirstIsAll<T>(p: Part<T>, first: nat, rest: seq<nat>, merge: (T, T) -> T)
    requires |p.cls| == |p.val| && first < |p.cls| && InRange(rest, |p.cls|)
    ensures UnionFirst(p, first, rest, merge) == UnionAll(p, WithFirst(first, rest), merge)
  {
    if rest != [] {
      var init := rest[..|rest| - 1];
      UnionFirstIsAll(p, first, init, merge);
      assert WithFirst(first, rest)[..|rest| - 1] == WithFirst(first, init);
    }
  }

  lemma NextUnion<T>(p: Part<T>, q: Part<T>, q': Part<T>, first: nat, rest: seq<nat>, i: nat, merge: (T, T) -> T)
    requires |p.cls| == |p.val| && |q.cls| == |q.val| && InRange(rest, |p.cls|) && first < |p.cls| && i < |rest|
    requires Alike(q, UnionFirst(p, first, rest[..i], merge)) && |q.cls| == |p.cls|
    requires Alike(q', Union(q, first, rest[i], merge))
    ensures Alike(q', UnionFirst(p, first, rest[..i + 1], merge))
  {
    assert rest[..i + 1][..i] == rest[..i];
    var q0 := UnionFirst(p, first, rest[..i], merge);
    UnionAlike(q, q0, first, rest[i], merge);
    AlikeTrans(q', Union(q, first, rest[i], merge), Union(q0, first, rest[i], merge));
  }

  function MultiUnion<T>(p: Part<T>, indices: seq<nat>, merge: (T, T) -> T): (r: Part<T>)
    requires |p.cls| == |p.val| && InRange(indices, |p.cls|)
  {
    if indices == [] then p else UnionFirst(p, indices[0], indices[1..], merge)
  }

  /** The indices whose class is met for the first time. */
  function FirstMet<T>(p: Part<T>, indices: seq<nat>): (r: seq<nat>)
    requires InRange(indices, |p.cls|)
    ensures InRange(r, |p.cls|)
  {
    if indices == [] then []
    else
      var init, last := indices[..|indices| - 1], indices[|indices| - 1];
      var met := FirstMet(p, init);
      if exists i :: 0 <= i < |init| && p.cls[init[i]] == p.cls[last] then met else met + [last]
  }

  function Values<T>(p: Part<T>, xs: seq<nat>): (r: seq<T>)
    requires |p.cls| == |p.val| && InRange(xs, |p.cls|)
    ensures |r| == |xs| && forall i :: 0 <= i < |r| ==> r[i] == p.val[xs[i]]
  {
    seq(|xs|, i requires 0 <= i < |xs| => p.val[xs[i]])
  }

  /** A non-empty list merged left to right. */
  function Fold<T>(merge: (T, T) -> T, xs: seq<T>): T
    requires xs != []
  {
    if |xs| == 1 then xs[0] else merge(Fold(merge, xs[..|xs| - 1]), xs[|xs| - 1])
  }

  /** All indices end up in one class, whose value is the fold over the distinct classes in the
      order in which they are met; every other class is as before. */
  lemma {:induction false} MultiUnionMeaning<T>(p: Part<T>, indices: seq<nat>, merge: (T, T) -> T)
    requires IsPart(p) && InRange(indices, |p.cls|) && indices != []
    ensures FirstMet(p, indices) != []
    ensures var q := MultiUnion(p, indices, merge);
            && |q.cls| == |q.val| == |p.cls|
            && forall x :: 0 <= x < |p.cls| ==> MultiAt(p, q, indices, merge, x)
    decreases |indices|
  {
    if |indices| == 1 {
      MultiUnionOne(p, indices, merge);
    } else {
      var init := indices[..|indices| - 1];
      MultiUnionMeaning(p, init, merge);
      MultiUnionNext(p, indices, init, merge);
    }
  }

  lemma MultiUnionOne<T>(p: Part<T>, indices: seq<nat>, merge: (T, T) -> T)
    requires IsPart(p) && InRange(indices, |p.cls|) && |indices| == 1
    ensures FirstMet(p, indices) != [] && MultiUnion(p, indices, merge) == p
    ensures forall x :: 0 <= x < |p.cls| ==> MultiAt(p, p, indices, merge, x)
  {
    assert FirstMet(p, indices[..0]) == [];
    assert FirstMet(p, indices) == [indices[0]];
    forall x | 0 <= x < |p.cls| ensures MultiAt(p, p, indices, merge, x) {
      assert Met(p, indices, x) <==> p.cls[x] == p.cls[indices[0]] by {
        if p.cls[x] == p.cls[indices[0]] { assert Met(p, indices, x); }
      }
    }
  }

  lemma MultiUnionNext<T>(p: Part<T>, indices: seq<nat>, init: seq<nat>, merge: (T, T) -> T)
    requires IsPart(p) && InRange(indices, |p.cls|) && |indices| > 1
    requires init == indices[..|indices| - 1] && InRange(init, |p.cls|) && FirstMet(p, init) != []
    requires var q0 := MultiUnion(p, init, merge);
             |q0.cls| == |q0.val| == |p.cls| && forall x :: 0 <= x < |p.cls| ==> MultiAt(p, q0, init, merge, x)
    ensures FirstMet(p, indices) != []
    ensures var q := MultiUnion(p, indices, merge);
            |q.cls| == |q.val| == |p.cls| && forall x :: 0 <= x < |p.cls| ==> MultiAt(p, q, indices, merge, x)
  {
    var first, last := indices[0], indices[|indices| - 1];
    var q0, q := MultiUnion(p, init, merge), MultiUnion(p, indices, merge);
    assert init[1..] == indices[1..][..|indices| - 2];
    assert q == Union(q0, first, last, merge);
    assert MultiAt(p, q0, init, merge, first) && MultiAt(p, q0, init, merge, last);
    assert Met(p, init, first) by { assert p.cls[init[0]] == p.cls[first]; }
    assert FirstMet(p, indices) == if Met(p, init, last) then FirstMet(p, init) else FirstMet(p, init) + [last];
    assert indices == init + [last];
    forall x | 0 <= x < |p.cls| ensures MultiAt(p, q, indices, merge, x) {
      assert MultiAt(p, q0, init, merge, x);
      MetLast(p, indices, x);
      MultiStep(p, q0, q, init, last, merge, x);
    }
  }

  predicate Met<T>(p: Part<T>, indices: seq<nat>, x: nat)
    requires InRange(indices, |p.cls|) && x < |p.cls|
  {
    exists i :: 0 <= i < |indices| && p.cls[indices[i]] == p.cls[x]
  }

  ghost predicate MultiAt<T>(p: Part<T>, q: Part<T>, indices: seq<nat>, merge: (T, T) -> T, x: nat)
    requires |p.cls| == |p.val| == |q.cls| == |q.val| && InRange(indices, |p.cls|) && indices != [] && x < |p.cls|
    requires FirstMet(p, indices) != []
  {
    if Met(p, indices, x) then
      Same(q, x, indices[0]) && q.val[x] == Fold(merge, Values(p, FirstMet(p, indices)))
    else
      q.val[x] == p.val[x] && forall y :: 0 <= y < |p.cls| ==> (Same(q, x, y) <==> Same(p, x, y))
  }

  lemma MetLast<T>(p: Part<T>, indices: seq<nat>, x: nat)
    requires InRange(indices, |p.cls|) && x < |p.cls| && indices != []
    ensures Met(p, indices, x) <==> Met(p, indices[..|indices| - 1], x) || p.cls[indices[|indices| - 1]] == p.cls[x]
  {
    var init := indices[..|indices| - 1];
    if Met(p, init, x) {
      var i :| 0 <= i < |init| && p.cls[init[i]] == p.cls[x];
      assert indices[i] == init[i];
    }
    if Met(p, indices, x) {
      var i :| 0 <= i < |indices| && p.cls[indices[i]] == p.cls[x];
      if i < |init| { assert init[i] == indices[i]; }
    }
  }

  lemma ValuesMore<T>(p: Part<T>, xs: seq<nat>, x: nat)
    requires |p.cls| == |p.val| && InRange(xs, |p.cls|) && x < |p.cls|
    ensures Values(p, xs + [x]) == Values(p, xs) + [p.val[x]]
    ensures Values(p, xs + [x])[..|xs|] == Values(p, xs)
  {
  }

  lemma MultiStep<T>(p: Part<T>, q0: Part<T>, q: Part<T>, init: seq<nat>, last: nat, merge: (T, T) -> T, x: nat)
    requires IsPart(p) && |q0.cls| == |q0.val| == |p.cls| && InRange(init, |p.cls|) && init != [] && last < |p.cls| &&
             x < |p.cls|
    requires FirstMet(p, init) != [] && q == Union(q0, init[0], last, merge)
    requires Met(p, init, init[0]) && MultiAt(p, q0, init, merge, init[0]) && MultiAt(p, q0, init, merge, last) &&
             MultiAt(p, q0, init, merge, x)
    requires FirstMet(p, init + [last]) == if Met(p, init, last) then FirstMet(p, init) else FirstMet(p, init) + [last]
    requires Met(p, init + [last], x) <==> Met(p, init, x) || p.cls[last] == p.cls[x]
    ensures FirstMet(p, init + [last]) != [] && MultiAt(p, q, init + [last], merge, x)
  {
    var first := init[0];
    assert (init + [last])[0] == first;
    if Met(p, init, last) {
      assert q == q0;
    } else {
      assert !Same(q0, last, first) by {
        assert Same(q0, last, first) <==> Same(p, last, first);
      }
      ValuesMore(p, FirstMet(p, init), last);
      assert Same(q0, last, x) <==> Same(p, last, x);
      forall y | 0 <= y < |p.cls| ensures Same(q, x, y) <==>
        Same(q0, x, y) || (Same(q0, x, first) && Same(q0, last, y)) || (Same(q0, x, last) && Same(q0, first, y))
      {
        UnionSame(q0, first, last, merge, x, y);
      }
      if !Met(p, init + [last], x) {
        assert Same(q0, x, first) <==> Same(p, x, first);
      }
    }
  }

  // ----- merges that form a semilattice -----

  ghost predicate Semilattice<T(!new)>(merge: (T, T) -> T) {
    forall a: T, b: T, c: T :: Laws(merge, a, b, c)
  }

  predicate Laws<T(==)>(merge: (T, T) -> T, a: T, b: T, c: T) {
    && merge(merge(a, b), c) == merge(a, merge(b, c))
    && merge(a, b) == merge(b, a)
    && merge(a, a) == a
  }

  predicate Leq<T(==)>(merge: (T, T) -> T, a: T, b: T) {
    merge(a, b) == b
  }

  ghost predicate UpperBound<T>(merge: (T, T) -> T, xs: seq<T>, u: T) {
    forall i :: 0 <= i < |xs| ==> Leq(merge, xs[i], u)
  }

  /** The fold is the join: an upper bound below every other. */
  lemma {:induction false} FoldIsJoin<T(!new)>(merge: (T, T) -> T, xs: seq<T>)
    requires Semilattice(merge) && xs != []
    ensures UpperBound(merge, xs, Fold(merge, xs))
    ensures forall u: T | UpperBound(merge, xs, u) :: Leq(merge, Fold(merge, xs), u)
  {
    if |xs| == 1 {
      assert Laws(merge, xs[0], xs[0], xs[0]);
    } else {
      var init, last := xs[..|xs| - 1], xs[|xs| - 1];
      FoldIsJoin(merge, init);
      var f := Fold(merge, init);
      forall i | 0 <= i < |xs| ensures Leq(merge, xs[i], merge(f, last)) {
        if i < |init| {
          assert Leq(merge, init[i], f);
          assert Laws(merge, xs[i], f, last);
        } else {
          assert Laws(merge, last, merge(f, last), last) && Laws(merge, f, last, last) && Laws(merge, last, last, last);
        }
      }
      forall u: T | UpperBound(merge, xs, u) ensures Leq(merge, merge(f, last), u) {
        assert UpperBound(merge, init, u) by {
          forall i | 0 <= i < |init| ensures Leq(merge, init[i], u) { assert Leq(merge, xs[i], u); }
        }
        assert Leq(merge, f, u) && Leq(merge, xs[|xs| - 1], u);
        assert Laws(merge, f, last, u);
      }
    }
  }

  /** So the order of the classes, and repetitions, are immaterial. */
  lemma FoldOrderFree<T(!new)>(merge: (T, T) -> T, xs: seq<T>, ys: seq<T>)
    requires Semilattice(merge) && xs != [] && ys != []
    requires forall x :: x in xs <==> x in ys
    ensures Fold(merge, xs) == Fold(merge, ys)
  {
    FoldIsJoin(merge, xs);
    FoldIsJoin(merge, ys);
    var f, g := Fold(merge, xs), Fold(merge, ys);
    assert UpperBound(merge, ys, f) by {
      forall i | 0 <= i < |ys| ensures Leq(merge, ys[i], f) {
        assert ys[i] in xs;
        var j :| 0 <= j < |xs| && xs[j] == ys[i];
        assert Leq(merge, xs[j], f);
      }
    }
    assert UpperBound(merge, xs, g) by {
      forall i | 0 <= i < |xs| ensures Leq(merge, xs[i], g) {
        assert xs[i] in ys;
        var j :| 0 <= j < |ys| && ys[j] == xs[i];
        assert Leq(merge, ys[j], g);
      }
    }
    assert Laws(merge, f, g, g);
  }

  /** `u` is the least upper bound. */
  ghost predicate IsJoin<T(!new)>(merge: (T, T) -> T, xs: seq<T>, u: T) {
    UpperBound(merge, xs, u) && forall v: T | UpperBound(merge, xs, v) :: Leq(merge, u, v)
  }

  lemma {:induction false} FirstMetCovers<T>(p: Part<T>, indices: seq<nat>)
    requires IsPart(p) && InRange(indices, |p.cls|)
    ensures forall v :: v in Values(p, FirstMet(p, indices)) <==> v in Values(p, indices)
  {
    if indices != [] {
      var init, last := indices[..|indices| - 1], indices[|indices| - 1];
      FirstMetCovers(p, init);
      assert Values(p, indices) == Values(p, init) + [p.val[last]];
      if i :| 0 <= i < |init| && p.cls[init[i]] == p.cls[last] {
        assert Values(p, init)[i] == p.val[last];
      } else {
        var met := FirstMet(p, init);
        assert Values(p, met + [last]) == Values(p, met) + [p.val[last]];
      }
    }
  }

  /** With such a merge, the value of the united class is the least upper bound of the values met. */
  lemma MultiUnionJoin<T(!new)>(p: Part<T>, indices: seq<nat>, merge: (T, T) -> T, x: nat)
    requires IsPart(p) && InRange(indices, |p.cls|) && indices != [] && Semilattice(merge)
    requires x < |p.cls| && Met(p, indices, x)
    ensures IsJoin(merge, Values(p, indices), MultiUnion(p, indices, merge).val[x])
  {
    MultiUnionMeaning(p, indices, merge);
    assert MultiAt(p, MultiUnion(p, indices, merge), indices, merge, x);
    FirstMetCovers(p, indices);
    FoldOrderFree(merge, Values(p, FirstMet(p, indices)), Values(p, indices));
    FoldIsJoin(merge, Values(p, indices));
  }

  /** So permuting and repeating the indices leaves the same partition. */
  lemma MultiUnionOrderFree<T(!new)>(p: Part<T>, xs: seq<nat>, ys: seq<nat>, merge: (T, T) -> T)
    requires IsPart(p) && InRange(xs, |p.cls|) && InRange(ys, |p.cls|) && Semilattice(merge)
    requires forall x :: x in xs <==> x in ys
    ensures Alike(MultiUnion(p, xs, merge), MultiUnion(p, ys, merge))
  {
    if xs == [] {
      var _ := SomeMember(ys);
    } else {
      assert xs[0] in ys;
      MultiUnionMeaning(p, xs, merge);
      MultiUnionMeaning(p, ys, merge);
      SameFold(p, xs, ys, merge);
      MultiUnionAlike(p, xs, ys, merge);
    }
  }

  lemma SomeMember(xs: seq<nat>) returns (x: nat)
    ensures xs != [] ==> x in xs
  {
    x := if xs == [] then 0 else xs[0];
  }

  lemma MultiUnionAlike<T>(p: Part<T>, xs: seq<nat>, ys: seq<nat>, merge: (T, T) -> T)
    requires IsPart(p) && InRange(xs, |p.cls|) && InRange(ys, |p.cls|) && xs != [] && ys != []
    requires FirstMet(p, xs) != [] && FirstMet(p, ys) != [] && forall x :: x in xs <==> x in ys
    requires Fold(merge, Values(p, FirstMet(p, xs))) == Fold(merge, Values(p, FirstMet(p, ys)))
    requires var q := MultiUnion(p, xs, merge);
             |q.cls| == |q.val| == |p.cls| && forall x :: 0 <= x < |p.cls| ==> MultiAt(p, q, xs, merge, x)
    requires var r := MultiUnion(p, ys, merge);
             |r.cls| == |r.val| == |p.cls| && forall x :: 0 <= x < |p.cls| ==> MultiAt(p, r, ys, merge, x)
    ensures Alike(MultiUnion(p, xs, merge), MultiUnion(p, ys, merge))
  {
    var q, r := MultiUnion(p, xs, merge), MultiUnion(p, ys, merge);
    forall x | 0 <= x < |p.cls| ensures Met(p, xs, x) <==> Met(p, ys, x) {
      if Met(p, xs, x) { MetWithin(p, xs, ys, x); }
      if Met(p, ys, x) { MetWithin(p, ys, xs, x); }
    }
    forall x | 0 <= x < |p.cls| ensures q.val[x] == r.val[x] {
      assert MultiAt(p, q, xs, merge, x) && MultiAt(p, r, ys, merge, x);
    }
    forall x, y | 0 <= x < |p.cls| && 0 <= y < |p.cls| ensures AlikeAt(q, r, x, y) {
      MultiAlikeAt(p, q, r, xs, ys, merge, x, y);
    }
  }

  lemma MultiAlikeAt<T>(p: Part<T>, q: Part<T>, r: Part<T>, xs: seq<nat>, ys: seq<nat>, merge: (T, T) -> T, x: nat,
                        y: nat)
    requires IsPart(p) && InRange(xs, |p.cls|) && InRange(ys, |p.cls|) && xs != [] && ys != []
    requires FirstMet(p, xs) != [] && FirstMet(p, ys) != [] && x < |p.cls| && y < |p.cls|
    requires |q.cls| == |q.val| == |r.cls| == |r.val| == |p.cls|
    requires MultiAt(p, q, xs, merge, x) && MultiAt(p, q, xs, merge, y) && (Met(p, xs, x) <==> Met(p, ys, x))
    requires MultiAt(p, r, ys, merge, x) && MultiAt(p, r, ys, merge, y) && (Met(p, xs, y) <==> Met(p, ys, y))
    ensures AlikeAt(q, r, x, y)
  {
    if Met(p, xs, x) && !Met(p, xs, y) {
      assert !Same(p, y, x) by {
        var i :| 0 <= i < |xs| && p.cls[xs[i]] == p.cls[x];
        assert p.cls[xs[i]] != p.cls[y];
      }
    } else if !Met(p, xs, x) && Met(p, xs, y) {
      assert Same(q, x, y) <==> Same(p, x, y);
      assert Same(r, x, y) <==> Same(p, x, y);
    }
  }

  lemma SameFold<T(!new)>(p: Part<T>, xs: seq<nat>, ys: seq<nat>, merge: (T, T) -> T)
    requires IsPart(p) && InRange(xs, |p.cls|) && InRange(ys, |p.cls|) && Semilattice(merge)
    requires FirstMet(p, xs) != [] && FirstMet(p, ys) != [] && forall x :: x in xs <==> x in ys
    ensures Fold(merge, Values(p, FirstMet(p, xs))) == Fold(merge, Values(p, FirstMet(p, ys)))
  {
    var vs, ws := Values(p, FirstMet(p, xs)), Values(p, FirstMet(p, ys));
    assert forall v :: v in vs <==> v in ws by {
      FirstMetCovers(p, xs);
      FirstMetCovers(p, ys);
      ValuesWithin(p, xs, ys);
      ValuesWithin(p, ys, xs);
    }
    FoldOrderFree(merge, vs, ws);
  }

  lemma ValuesWithin<T>(p: Part<T>, xs: seq<nat>, ys: seq<nat>)
    requires |p.cls| == |p.val| && InRange(xs, |p.cls|) && InRange(ys, |p.cls|)
    requires forall x :: x in xs ==> x in ys
    ensures forall v :: v in Values(p, xs) ==> v in Values(p, ys)
  {
    forall v | v in Values(p, xs) ensures v in Values(p, ys) {
      var i :| 0 <= i < |xs| && p.val[xs[i]] == v;
      assert xs[i] in ys;
      var j :| 0 <= j < |ys| && ys[j] == xs[i];
      assert Values(p, ys)[j] == v;
    }
  }

  lemma MetWithin<T>(p: Part<T>, xs: seq<nat>, ys: seq<nat>, x: nat)
    requires InRange(xs, |p.cls|) && InRange(ys, |p.cls|) && x < |p.cls|
    requires Met(p, xs, x) && forall z :: z in xs ==> z in ys
    ensures Met(p, ys, x)
  {
    var i :| 0 <= i < |xs| && p.cls[xs[i]] == p.cls[x];
    assert xs[i] in ys;
    var j :| 0 <= j < |ys| && ys[j] == xs[i];
  }

  // ----- merging the values of another partition into this one -----

  /** The value at `x` after the values of `other` at the first `k` indices have been merged in. */
  function MergedAt<T>(p: Part<T>, other: seq<T>, merge: (T, T) -> T, x: nat, k: nat): T
    requires |p.cls| == |p.val| && x < |p.cls| && k <= |p.cls| && k <= |other|
  {
    if k == 0 then p.val[x]
    else
      var v := MergedAt(p, other, merge, x, k - 1);
      if p.cls[k - 1] == p.cls[x] then merge(v, other[k - 1]) else v
  }

  function MergeWith<T>(p: Part<T>, other: seq<T>, merge: (T, T) -> T, k: nat): (r: Part<T>)
    requires |p.cls| == |p.val| && k <= |p.cls| && k <= |other|
    ensures r.cls == p.cls && |r.val| == |p.val|
  {
    Part(p.cls, seq(|p.cls|, x requires 0 <= x < |p.cls| => MergedAt(p, other, merge, x, k)))
  }

  lemma NoMerge<T>(p: Part<T>, other: seq<T>, merge: (T, T) -> T)
    requires |p.cls| == |p.val|
    ensures MergeWith(p, other, merge, 0) == p
  {
    assert MergeWith(p, other, merge, 0).val == p.val;
  }

  /** One more value merged into the class of `k`. */
  ghost predicate MergedIn<T>(q: Part<T>, q': Part<T>, k: nat, elem: T, merge: (T, T) -> T) {
    && |q.cls| == |q.val| && q'.cls == q.cls && |q'.val| == |q.val| && k < |q.cls|
    && forall i :: 0 <= i < |q.cls| ==> q'.val[i] == if q.cls[i] == q.cls[k] then merge(q.val[k], elem) else q.val[i]
  }

  lemma NextMerge<T>(p: Part<T>, other: seq<T>, merge: (T, T) -> T, q: Part<T>, q': Part<T>, k: nat)
    requires |p.cls| == |p.val| && k < |p.cls| && k < |other| && q == MergeWith(p, other, merge, k)
    requires IsPart(p) && MergedIn(q, q', k, other[k], merge)
    ensures q' == MergeWith(p, other, merge, k + 1)
  {
    var r := MergeWith(p, other, merge, k + 1);
    forall i | 0 <= i < |q.cls| ensures q'.val[i] == r.val[i] {
      if p.cls[i] == p.cls[k] { MergedSame(p, other, merge, i, k, k); }
    }
  }

  /** Members of one class get the same merged value. */
  lemma {:induction false} MergedSame<T>(p: Part<T>, other: seq<T>, merge: (T, T) -> T, x: nat, y: nat, k: nat)
    requires IsPart(p) && x < |p.cls| && y < |p.cls| && k <= |p.cls| && k <= |other| && Same(p, x, y)
    ensures MergedAt(p, other, merge, x, k) == MergedAt(p, other, merge, y, k)
  {
    if k > 0 {
      MergedSame(p, other, merge, x, y, k - 1);
    }
  }

  /** The merged value is the fold, in ascending order, over the other values at the class's members. */
  function Members<T>(p: Part<T>, other: seq<T>, x: nat, k: nat): seq<T>
    requires x < |p.cls| && k <= |p.cls| && k <= |other|
  {
    if k == 0 then [] else Members(p, other, x, k - 1) + (if p.cls[k - 1] == p.cls[x] then [other[k - 1]] else [])
  }

  lemma {:induction false} MergedIsFold<T>(p: Part<T>, other: seq<T>, merge: (T, T) -> T, x: nat, k: nat)
    requires |p.cls| == |p.val| && x < |p.cls| && k <= |p.cls| && k <= |other|
    ensures MergedAt(p, other, merge, x, k) == Fold(merge, [p.val[x]] + Members(p, other, x, k))
  {
    if k > 0 {
      MergedIsFold(p, other, merge, x, k - 1);
      var ms := Members(p, other, x, k - 1);
      if p.cls[k - 1] == p.cls[x] {
        var all := [p.val[x]] + Members(p, other, x, k);
        assert all == [p.val[x]] + ms + [other[k - 1]];
        assert all[..|all| - 1] == [p.val[x]] + ms;
      } else {
        assert Members(p, other, x, k) == ms;
      }
    } else {
      assert [p.val[x]] + Members(p, other, x, 0) == [p.val[x]];
    }
  }
}
