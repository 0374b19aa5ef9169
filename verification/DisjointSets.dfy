/** Union-find with a payload per class: a forest of parents with path compression, union by
    size, and circular lists that enumerate the classes. */
module DisjointSets {
  import opened Logic
  import Partitions

  function Pow2(n: nat): nat {
    if n == 0 then 1 else 2 * Pow2(n - 1)
  }

  lemma {:induction false} Pow2Mono(m: nat, n: nat)
    requires m <= n
    ensures Pow2(m) <= Pow2(n)
  {
    if m < n {
      Pow2Mono(m, n - 1);
    }
  }

  /** The three stored arrays, and what they stand for: the root of every index, a rank that
      grows towards the root, and the members of every root's class in the order of `next`. */
  datatype Forest = Forest(
    parent: seq<nat>, size: seq<nat>, next: seq<nat>,
    rep: seq<nat>, height: seq<nat>, ring: map<nat, seq<nat>>)

  ghost predicate Lengths(f: Forest) {
    |f.parent| == |f.size| == |f.next| == |f.rep| == |f.height|
  }

  predicate IsRoot(f: Forest, r: nat) {
    r < |f.rep| && f.rep[r] == r
  }

  /** The parents lead to the root. */
  ghost predicate TreeAt(f: Forest, i: nat)
    requires Lengths(f) && i < |f.parent|
  {
    var p, r := f.parent[i], f.rep[i];
    && p < |f.parent| && r < |f.parent|
    && f.rep[r] == r && f.rep[p] == r
    && (p == i <==> r == i)
    && (p != i ==> f.height[i] < f.height[p])
    && f.height[i] <= f.height[r]
  }

  /** The list of a root: exactly the members of its class, once each, starting from the root,
      in the circular order of `next`. */
  ghost predicate RingAt(f: Forest, r: nat)
    requires Lengths(f)
  {
    && r in f.ring
    && var ring := f.ring[r];
    && ring != [] && ring[0] == r
    && (forall k :: 0 <= k < |ring| ==> ring[k] < |f.rep| && f.rep[ring[k]] == r)
    && (forall i :: 0 <= i < |f.rep| && f.rep[i] == r ==> i in ring)
    && (forall j, k :: 0 <= j < k < |ring| ==> ring[j] != ring[k])
    && (forall k :: 0 <= k < |ring| ==> f.next[ring[k]] == ring[if k + 1 == |ring| then 0 else k + 1])
  }

  /** The size of a class is the length of its list, and its tree is at most logarithmically high. */
  ghost predicate SizeAt(f: Forest, r: nat)
    requires Lengths(f)
  {
    r < |f.size| && r in f.ring && f.size[r] == |f.ring[r]| && Pow2(f.height[r]) <= f.size[r]
  }

  ghost predicate Ok(f: Forest) {
    && Lengths(f)
    && (forall i :: 0 <= i < |f.parent| ==> TreeAt(f, i))
    && (forall r {:trigger RingAt(f, r)} :: IsRoot(f, r) ==> RingAt(f, r))
    && (forall r {:trigger SizeAt(f, r)} :: IsRoot(f, r) ==> SizeAt(f, r))
  }

  // ----- adding an index -----

  function Added(f: Forest): Forest {
    var n := |f.parent|;
    Forest(f.parent + [n], f.size + [1], f.next + [n], f.rep + [n], f.height + [0], f.ring[n := [n]])
  }

  lemma AddedOk(f: Forest)
    requires Ok(f)
    ensures Ok(Added(f))
  {
    var n, g := |f.parent|, Added(f);
    forall i | 0 <= i < |g.parent| ensures TreeAt(g, i) {
      if i < n { assert TreeAt(f, i); }
    }
    forall r: nat | IsRoot(g, r) ensures RingAt(g, r) && SizeAt(g, r) {
      if r < n {
        assert IsRoot(f, r) && RingAt(f, r) && SizeAt(f, r);
      } else {
        forall i | 0 <= i < |g.rep| && g.rep[i] == r ensures i in g.ring[r] {
          assert i < n ==> TreeAt(f, i);
        }
      }
    }
  }

  // ----- path compression -----

  function Compressed(f: Forest, i: nat): Forest
    requires Lengths(f) && i < |f.parent|
  {
    f.(parent := f.parent[i := f.rep[i]])
  }

  lemma CompressedOk(f: Forest, i: nat)
    requires Ok(f) && i < |f.parent|
    ensures Ok(Compressed(f, i))
  {
    var g := Compressed(f, i);
    assert TreeAt(f, i);
    forall j | 0 <= j < |g.parent| ensures TreeAt(g, j) {
      assert TreeAt(f, j) && TreeAt(f, f.parent[j]);
    }
    forall r | IsRoot(g, r) ensures RingAt(g, r) && SizeAt(g, r) {
      assert IsRoot(f, r) && RingAt(f, r) && SizeAt(f, r);
    }
  }

  // ----- linking two roots -----

  /** Swapping the successors of two roots splices their two circular lists into one. */
  function Spliced(f: Forest, child: nat, root: nat): seq<nat>
    requires child in f.ring && root in f.ring && f.ring[child] != [] && f.ring[root] != []
  {
    [root] + f.ring[child][1..] + [child] + f.ring[root][1..]
  }

  function Linked(f: Forest, child: nat, root: nat): Forest
    requires Lengths(f) && child < |f.parent| && root < |f.parent| && child != root
    requires child in f.ring && root in f.ring && f.ring[child] != [] && f.ring[root] != []
  {
    Forest(
      f.parent[child := root],
      f.size[root := f.size[root] + f.size[child]],
      f.next[child := f.next[root]][root := f.next[child]],
      seq(|f.rep|, i requires 0 <= i < |f.rep| => if f.rep[i] == child then root else f.rep[i]),
      f.height[root := if f.height[child] < f.height[root] then f.height[root] else f.height[child] + 1],
      f.ring[root := Spliced(f, child, root)])
  }

  lemma LinkedTree(f: Forest, child: nat, root: nat, i: nat)
    requires Ok(f) && IsRoot(f, child) && IsRoot(f, root) && child != root && i < |f.parent|
    ensures RingAt(f, child) && RingAt(f, root) && TreeAt(Linked(f, child, root), i)
  {
    assert RingAt(f, child) && RingAt(f, root);
    assert TreeAt(f, i) && TreeAt(f, child) && TreeAt(f, root) && TreeAt(f, f.parent[i]);
  }

  lemma LinkedOther(f: Forest, child: nat, root: nat, r: nat)
    requires Ok(f) && IsRoot(f, child) && IsRoot(f, root) && child != root && IsRoot(f, r) && r != child && r != root
    ensures RingAt(f, child) && RingAt(f, root) && RingAt(Linked(f, child, root), r) &&
            SizeAt(Linked(f, child, root), r)
  {
    assert RingAt(f, child) && RingAt(f, root) && RingAt(f, r) && SizeAt(f, r);
    var ring := f.ring[r];
    forall k | 0 <= k < |ring| ensures ring[k] != child && ring[k] != root {
      assert f.rep[ring[k]] == r;
    }
  }

  lemma LinkedMembers(f: Forest, child: nat, root: nat, i: nat)
    requires Ok(f) && IsRoot(f, child) && IsRoot(f, root) && child != root && i < |f.rep|
    ensures RingAt(f, child) && RingAt(f, root)
    ensures i in Spliced(f, child, root) <==> f.rep[i] == child || f.rep[i] == root
  {
    assert RingAt(f, child) && RingAt(f, root);
    var a, b := f.ring[child], f.ring[root];
    assert a == [child] + a[1..] && b == [root] + b[1..];
    assert i in Spliced(f, child, root) <==> i in a || i in b;
  }

  lemma LinkedRing(f: Forest, child: nat, root: nat)
    requires Ok(f) && IsRoot(f, child) && IsRoot(f, root) && child != root
    ensures RingAt(f, child) && RingAt(f, root) && RingAt(Linked(f, child, root), root)
  {
    assert RingAt(f, child) && RingAt(f, root);
    var g, ring := Linked(f, child, root), Spliced(f, child, root);
    forall k | 0 <= k < |ring| ensures ring[k] < |g.rep| && g.rep[ring[k]] == root {
      SplicedRep(f, child, root, k);
    }
    forall i | 0 <= i < |g.rep| && g.rep[i] == root ensures i in ring {
      LinkedMembers(f, child, root, i);
    }
    forall j, k | 0 <= j < k < |ring| ensures ring[j] != ring[k] {
      SplicedDistinct(f, child, root, j, k);
    }
    forall k | 0 <= k < |ring| ensures g.next[ring[k]] == ring[if k + 1 == |ring| then 0 else k + 1] {
      SplicedNext(f, child, root, k);
    }
  }

  lemma SplicedRep(f: Forest, child: nat, root: nat, k: nat)
    requires Lengths(f) && IsRoot(f, child) && IsRoot(f, root) && child != root && RingAt(f, child) && RingAt(f, root)
    requires k < |Spliced(f, child, root)|
    ensures var x := Spliced(f, child, root)[k]; x < |f.rep| && Linked(f, child, root).rep[x] == root
  {
    var a, b, ring := f.ring[child], f.ring[root], Spliced(f, child, root);
    assert 0 < k < |a| ==> ring[k] == a[k];
    assert |a| < k ==> ring[k] == b[k - |a|];
  }

  lemma SplicedDistinct(f: Forest, child: nat, root: nat, j: nat, k: nat)
    requires Lengths(f) && IsRoot(f, child) && IsRoot(f, root) && child != root && RingAt(f, child) && RingAt(f, root)
    requires j < k < |Spliced(f, child, root)|
    ensures Spliced(f, child, root)[j] != Spliced(f, child, root)[k]
  {
    SplicedFrom(f, child, root, j);
    SplicedFrom(f, child, root, k);
  }

  /** An element of the new ring comes from one of the two rings, whose heads have changed places. */
  lemma SplicedFrom(f: Forest, child: nat, root: nat, i: nat)
    requires Lengths(f) && IsRoot(f, child) && IsRoot(f, root) && child != root && RingAt(f, child) && RingAt(f, root)
    requires i < |Spliced(f, child, root)|
    ensures var a, b, x := f.ring[child], f.ring[root], Spliced(f, child, root)[i];
            && x < |f.rep| && f.rep[x] == (if i == 0 then root else if i <= |a| then child else root)
            && x == (if i == 0 then b[0] else if i < |a| then a[i] else if i == |a| then a[0] else b[i - |a|])
  {
  }

  lemma SplicedNext(f: Forest, child: nat, root: nat, k: nat)
    requires Lengths(f) && IsRoot(f, child) && IsRoot(f, root) && child != root && RingAt(f, child) && RingAt(f, root)
    requires k < |Spliced(f, child, root)|
    ensures var ring := Spliced(f, child, root);
            ring[k] < |f.next| && Linked(f, child, root).next[ring[k]] == ring[if k + 1 == |ring| then 0 else k + 1]
  {
    var a, b, ring, g := f.ring[child], f.ring[root], Spliced(f, child, root), Linked(f, child, root);
    var m := |a|;
    if k == 0 {
      assert f.next[a[0]] == a[if 1 == m then 0 else 1];
    } else if k < m {
      assert ring[k] == a[k] && f.rep[a[k]] == child && a[k] != a[0];
      assert f.next[a[k]] == a[if k + 1 == m then 0 else k + 1];
    } else if k == m {
      assert f.next[b[0]] == b[if 1 == |b| then 0 else 1];
    } else {
      assert ring[k] == b[k - m] && f.rep[b[k - m]] == root && b[k - m] != b[0];
      assert f.next[b[k - m]] == b[if k - m + 1 == |b| then 0 else k - m + 1];
    }
  }

  /** Linking the root of the smaller class under the other keeps every property. */
  lemma LinkedOk(f: Forest, child: nat, root: nat)
    requires Ok(f) && IsRoot(f, child) && IsRoot(f, root) && child != root
    requires f.size[child] <= f.size[root]
    ensures RingAt(f, child) && RingAt(f, root) && Ok(Linked(f, child, root))
  {
    assert RingAt(f, child) && RingAt(f, root) && SizeAt(f, child) && SizeAt(f, root);
    var g := Linked(f, child, root);
    forall i | 0 <= i < |g.parent| ensures TreeAt(g, i) {
      LinkedTree(f, child, root, i);
    }
    LinkedRing(f, child, root);
    assert SizeAt(g, root);
    forall r | IsRoot(g, r) ensures RingAt(g, r) && SizeAt(g, r) {
      if r != root {
        assert r != child;
        LinkedOther(f, child, root, r);
      }
    }
  }

  // ----- what the representation guarantees -----

  function Slack(f: Forest, x: nat): nat
    requires Lengths(f) && x < |f.rep|
  {
    var r := f.rep[x];
    if r < |f.height| && f.height[x] <= f.height[r] then f.height[r] - f.height[x] else 0
  }

  lemma Nearer(f: Forest, i: nat)
    requires Ok(f) && i < |f.parent|
    ensures var p := f.parent[i];
            p < |f.parent| && f.rep[p] == f.rep[i] && if p == i then f.rep[i] == i else Slack(f, p) < Slack(f, i)
  {
    assert TreeAt(f, i) && TreeAt(f, f.parent[i]);
  }

  /** Steps from an index to its root. */
  ghost function Depth(f: Forest, x: nat): nat
    requires Ok(f) && x < |f.parent|
    decreases Slack(f, x)
  {
    assert TreeAt(f, x);
    if f.parent[x] == x then 0
    else
      assert TreeAt(f, f.parent[x]);
      1 + Depth(f, f.parent[x])
  }

  /** No index is deeper than the logarithm of the size of its class. */
  lemma DepthBound(f: Forest, x: nat)
    requires Ok(f) && x < |f.parent|
    ensures f.rep[x] in f.ring && Pow2(Depth(f, x)) <= |f.ring[f.rep[x]]|
  {
    DepthBelowHeight(f, x);
    assert TreeAt(f, x);
    var r := f.rep[x];
    assert IsRoot(f, r) && RingAt(f, r) && SizeAt(f, r);
    Pow2Mono(Depth(f, x), f.height[r]);
  }

  lemma {:induction false} DepthBelowHeight(f: Forest, x: nat)
    requires Ok(f) && x < |f.parent|
    ensures f.rep[x] < |f.height| && Depth(f, x) + f.height[x] <= f.height[f.rep[x]]
    decreases Depth(f, x)
  {
    assert TreeAt(f, x);
    if f.parent[x] != x {
      DepthBelowHeight(f, f.parent[x]);
    }
  }

  /** `next` is a permutation ... */
  lemma NextInjective(f: Forest, x: nat, y: nat)
    requires Ok(f) && x < |f.next| && y < |f.next| && f.next[x] == f.next[y]
    ensures x == y
  {
    NextInClass(f, x);
    NextInClass(f, y);
    var j := Place(f, x);
    var k := Place(f, y);
    var ring := f.ring[f.rep[x]];
    var j', k' := if j + 1 == |ring| then 0 else j + 1, if k + 1 == |ring| then 0 else k + 1;
    assert ring[j'] == ring[k'];
    assert j' == k';
  }

  lemma Place(f: Forest, x: nat) returns (k: nat)
    requires Ok(f) && x < |f.next|
    ensures TreeAt(f, x) && RingAt(f, f.rep[x]) && k < |f.ring[f.rep[x]]| && f.ring[f.rep[x]][k] == x
  {
    assert TreeAt(f, x) && IsRoot(f, f.rep[x]) && RingAt(f, f.rep[x]);
    k :| 0 <= k < |f.ring[f.rep[x]]| && f.ring[f.rep[x]][k] == x;
  }

  lemma NextInClass(f: Forest, x: nat)
    requires Ok(f) && x < |f.next|
    ensures f.next[x] < |f.next| && f.rep[f.next[x]] == f.rep[x]
  {
    var k := Place(f, x);
    var ring := f.ring[f.rep[x]];
    assert f.rep[ring[if k + 1 == |ring| then 0 else k + 1]] == f.rep[x];
  }

  ghost function Follow(f: Forest, x: nat, k: nat): nat
    requires Ok(f) && x < |f.next|
    ensures Follow(f, x, k) < |f.next|
  {
    if k == 0 then x
    else
      var y := Follow(f, x, k - 1);
      NextInClass(f, y);
      f.next[y]
  }

  /** ... whose cycles are exactly the classes. */
  lemma CyclesAreClasses(f: Forest, x: nat, y: nat)
    requires Ok(f) && x < |f.next| && y < |f.next|
    ensures f.rep[x] == f.rep[y] <==> exists k: nat :: Follow(f, x, k) == y
  {
    var i := Place(f, x);
    var j := Place(f, y);
    if f.rep[x] == f.rep[y] {
      var n := |f.ring[f.rep[x]]|;
      var k := if i <= j then j - i else n - i + j;
      FollowRing(f, x, i, k);
      assert Follow(f, x, k) == y;
    }
    if k: nat :| Follow(f, x, k) == y {
      FollowStays(f, x, k);
    }
  }

  lemma {:induction false} FollowStays(f: Forest, x: nat, k: nat)
    requires Ok(f) && x < |f.next|
    ensures f.rep[Follow(f, x, k)] == f.rep[x]
  {
    if k > 0 {
      FollowStays(f, x, k - 1);
      NextInClass(f, Follow(f, x, k - 1));
    }
  }

  lemma {:induction false} FollowRing(f: Forest, x: nat, i: nat, k: nat)
    requires Ok(f) && x < |f.next| && TreeAt(f, x) && RingAt(f, f.rep[x])
    requires i < |f.ring[f.rep[x]]| && f.ring[f.rep[x]][i] == x && k < |f.ring[f.rep[x]]|
    ensures var ring := f.ring[f.rep[x]];
            Follow(f, x, k) == ring[if i + k < |ring| then i + k else i + k - |ring|]
  {
    if k > 0 {
      FollowRing(f, x, i, k - 1);
      var ring := f.ring[f.rep[x]];
      var j := if i + k - 1 < |ring| then i + k - 1 else i + k - 1 - |ring|;
      assert f.next[ring[j]] == ring[if j + 1 == |ring| then 0 else j + 1];
    }
  }

  // ----- the payloads -----

  predicate Keyed<T>(rep: seq<nat>, payload: map<nat, T>) {
    forall i :: 0 <= i < |rep| ==> rep[i] in payload
  }

  /** The partition that the forest and the payloads of its roots stand for. */
  function ViewOf<T>(rep: seq<nat>, payload: map<nat, T>): (p: Partitions.Part<T>)
    requires Keyed(rep, payload)
    ensures |p.cls| == |p.val| == |rep|
  {
    Partitions.Part(rep, seq(|rep|, i requires 0 <= i < |rep| => payload[rep[i]]))
  }

  /** The values of two roots replaced by one. */
  function Rekeyed<T>(payload: map<nat, T>, root1: nat, root2: nat, root: nat, elem: T): map<nat, T> {
    (payload - {root1} - {root2})[root := elem]
  }

  ghost predicate RootsOnly<T>(f: Forest, payload: map<nat, T>) {
    forall r: nat :: r in payload ==> IsRoot(f, r)
  }

  lemma LinkedKeyed<T>(f: Forest, child: nat, root: nat, payload: map<nat, T>, root1: nat, root2: nat, elem: T)
    requires Lengths(f) && IsRoot(f, child) && IsRoot(f, root) && child != root && RingAt(f, child) && RingAt(f, root)
    requires Keyed(f.rep, payload) && RootsOnly(f, payload)
    requires (root1 == child && root2 == root) || (root1 == root && root2 == child)
    ensures var payload' := Rekeyed(payload, root1, root2, root, elem);
            Keyed(Linked(f, child, root).rep, payload') && RootsOnly(Linked(f, child, root), payload')
  {
    var payload' := Rekeyed(payload, root1, root2, root, elem);
    assert payload'.Keys == payload.Keys - {child} + {root};
  }

  lemma LinkedValue<T>(f: Forest, child: nat, root: nat, payload: map<nat, T>, root1: nat, root2: nat, elem: T, x: nat)
    requires Lengths(f) && IsRoot(f, child) && IsRoot(f, root) && child != root && Keyed(f.rep, payload) && x < |f.rep|
    requires (root1 == child && root2 == root) || (root1 == root && root2 == child)
    requires RingAt(f, child) && RingAt(f, root)
    ensures var payload', r := Rekeyed(payload, root1, root2, root, elem), Linked(f, child, root).rep[x];
            && r in payload'
            && payload'[r] == if f.rep[x] == root1 || f.rep[x] == root2 then elem else payload[f.rep[x]]
  {
  }

  /** Linking two roots, and giving the merged value to the survivor, unites their classes. */
  lemma LinkedView<T>(f: Forest, child: nat, root: nat, payload: map<nat, T>, root1: nat, root2: nat, idx1: nat,
                      idx2: nat, merge: (T, T) -> T)
    requires Lengths(f) && IsRoot(f, child) && IsRoot(f, root) && child != root && RingAt(f, child) && RingAt(f, root)
    requires Keyed(f.rep, payload) && RootsOnly(f, payload)
    requires idx1 < |f.rep| && idx2 < |f.rep| && f.rep[idx1] == root1 && f.rep[idx2] == root2
    requires (root1 == child && root2 == root) || (root1 == root && root2 == child)
    ensures var payload' := Rekeyed(payload, root1, root2, root, merge(payload[root1], payload[root2]));
            && Keyed(Linked(f, child, root).rep, payload') && RootsOnly(Linked(f, child, root), payload')
            && Partitions.Alike(ViewOf(Linked(f, child, root).rep, payload'),
                                Partitions.Union(ViewOf(f.rep, payload), idx1, idx2, merge))
  {
    var g := Linked(f, child, root);
    var payload' := Rekeyed(payload, root1, root2, root, merge(payload[root1], payload[root2]));
    LinkedKeyed(f, child, root, payload, root1, root2, merge(payload[root1], payload[root2]));
    var p, q := Partitions.Union(ViewOf(f.rep, payload), idx1, idx2, merge), ViewOf(g.rep, payload');
    forall x | 0 <= x < |g.rep| ensures q.val[x] == p.val[x] {
      LinkedValue(f, child, root, payload, root1, root2, merge(payload[root1], payload[root2]), x);
    }
    forall x, y | 0 <= x < |g.rep| && 0 <= y < |g.rep| ensures Partitions.AlikeAt(q, p, x, y) {
    }
  }

  /** The same, with the history of unions. */
  lemma UnitedView<T>(f: Forest, child: nat, root: nat, payload: map<nat, T>, idx1: nat, idx2: nat, merge: (T, T) -> T,
                      united: seq<(nat, nat)>)
    requires Lengths(f) && IsRoot(f, child) && IsRoot(f, root) && child != root && RingAt(f, child) && RingAt(f, root)
    requires Keyed(f.rep, payload) && RootsOnly(f, payload) && Partitions.IsLeast(ViewOf(f.rep, payload), united)
    requires idx1 < |f.rep| && idx2 < |f.rep|
    requires (f.rep[idx1] == child && f.rep[idx2] == root) || (f.rep[idx1] == root && f.rep[idx2] == child)
    ensures var root1, root2, rep := f.rep[idx1], f.rep[idx2], Linked(f, child, root).rep;
            var payload' := Rekeyed(payload, root1, root2, root, merge(payload[root1], payload[root2]));
            && Keyed(rep, payload') && RootsOnly(Linked(f, child, root), payload')
            && Partitions.Alike(ViewOf(rep, payload'), Partitions.Union(ViewOf(f.rep, payload), idx1, idx2, merge))
            && Partitions.IsLeast(ViewOf(rep, payload'), united + [(idx1, idx2)])
  {
    var root1, root2 := f.rep[idx1], f.rep[idx2];
    LinkedView(f, child, root, payload, root1, root2, idx1, idx2, merge);
    var payload' := Rekeyed(payload, root1, root2, root, merge(payload[root1], payload[root2]));
    var p, q := ViewOf(f.rep, payload), ViewOf(Linked(f, child, root).rep, payload');
    Partitions.UnionLeast(p, idx1, idx2, merge, united);
    Partitions.AlikeBack(q, Partitions.Union(p, idx1, idx2, merge));
    Partitions.LeastAlike(Partitions.Union(p, idx1, idx2, merge), q, united + [(idx1, idx2)]);
  }

  function Singletons(n: nat): Forest {
    var ids := seq(n, i => i);
    Forest(ids, seq(n, i => 1), ids, ids, seq(n, i => 0), map i: nat | i < n :: [i])
  }

  lemma SingletonsOk<T>(elems: seq<T>, payload: map<nat, T>)
    requires payload == map i: nat | i < |elems| :: elems[i]
    ensures var f := Singletons(|elems|);
            && Ok(f) && Keyed(f.rep, payload) && RootsOnly(f, payload)
            && ViewOf(f.rep, payload).val == elems && Partitions.IsLeast(ViewOf(f.rep, payload), [])
  {
    Partitions.NothingUnited(ViewOf(Singletons(|elems|).rep, payload));
  }

  class DisjointSetsMap<T> {
    var payload: map<nat, T>
    var parent: seq<nat>
    var size: seq<nat>
    var next: seq<nat>
    ghost var rep: seq<nat>
    ghost var height: seq<nat>
    ghost var ring: map<nat, seq<nat>>
    /** The pairs of indices united so far. */
    ghost var united: seq<(nat, nat)>

    ghost function State(): Forest
      reads this
    {
      Forest(parent, size, next, rep, height, ring)
    }

    /** The payload keys are exactly the roots, and the classes are those of the least equivalence
        that relates the united pairs. */
    ghost predicate Valid()
      reads this
    {
      && Ok(State()) && Keyed(rep, payload) && RootsOnly(State(), payload)
      && Partitions.IsLeast(ViewOf(rep, payload), united)
    }

    ghost function View(): Partitions.Part<T>
      reads this
      requires Valid()
    {
      ViewOf(rep, payload)
    }

    constructor ()
      ensures Valid() && View() == Partitions.Part([], []) && united == []
    {
      payload, parent, size, next := map[], [], [], [];
      rep, height, ring, united := [], [], map[], [];
    }

    /** Every element starts as a class of its own. */
    constructor FromIter(elems: seq<T>)
      ensures Valid() && View().val == elems && united == []
      ensures forall i :: 0 <= i < |elems| ==> View().cls[i] == i
    {
      payload := map i: nat | i < |elems| :: elems[i];
      parent := seq(|elems|, i => i);
      size := seq(|elems|, i => 1);
      next := seq(|elems|, i => i);
      rep, height := seq(|elems|, i => i), seq(|elems|, i => 0);
      ring := map i: nat | i < |elems| :: [i];
      united := [];
      SingletonsOk(elems, map i: nat | i < |elems| :: elems[i]);
    }

    method Push(elem: T) returns (idx: nat)
      requires Valid()
      modifies this
      ensures Valid() && united == old(united)
      ensures var v := old(View()); idx == |v.cls| && View() == Partitions.Part(v.cls + [idx], v.val + [elem])
    {
      ghost var f := State();
      AddedOk(f);
      forall i | 0 <= i < |rep| ensures rep[i] != |parent| { assert TreeAt(f, i); }
      Partitions.PushLeast(View(), |parent|, elem, united);
      ghost var v := View();
      idx := |parent|;
      payload := payload[idx := elem];
      parent, size, next := parent + [idx], size + [1], next + [idx];
      rep, height, ring := rep + [idx], height + [0], ring[idx := [idx]];
      assert ViewOf(rep, payload) == Partitions.Part(v.cls + [idx], v.val + [elem]);
    }

    /** The root of an index.  Every index on the way is hung directly under the root; nothing else changes. */
    method UncheckedFind(elem: nat) returns (root: nat)
      requires Valid() && elem < |parent|
      modifies `parent
      ensures Valid() && root == rep[elem]
      ensures |parent| == old(|parent|) && parent[elem] == root
      ensures forall i :: 0 <= i < |parent| ==> parent[i] == old(parent[i]) || parent[i] == rep[i]
      decreases Slack(State(), elem)
    {
      Nearer(State(), elem);
      var p := parent[elem];
      if p != elem {
        var r := UncheckedFind(p);
        CompressedOk(State(), elem);
        parent := parent[elem := r];
      }
      root := parent[elem];
    }

    method Find(elem: nat) returns (root: Option<nat>)
      requires Valid()
      modifies `parent
      ensures Valid() && |parent| == old(|parent|)
      ensures root == if elem < |rep| then Some(rep[elem]) else None
    {
      if elem >= |parent| {
        return None;
      }
      assert TreeAt(State(), elem);
      var r := UncheckedFind(parent[elem]);
      return Some(r);
    }

    method SameSet(idx1: nat, idx2: nat) returns (same: bool)
      requires Valid() && idx1 < |parent| && idx2 < |parent|
      modifies `parent
      ensures Valid() && |parent| == old(|parent|)
      ensures same <==> Partitions.Same(View(), idx1, idx2)
      ensures same <==> Partitions.Forced(united, idx1, idx2)
    {
      var root1 := UncheckedFind(idx1);
      var root2 := UncheckedFind(idx2);
      same := root1 == root2;
      assert Partitions.ForcedAt(View(), united, idx1, idx2);
    }

    method Get(idx: nat) returns (elem: Option<T>)
      requires Valid()
      modifies `parent
      ensures Valid() && |parent| == old(|parent|)
      ensures elem == if idx < |rep| then Some(View().val[idx]) else None
    {
      var root := Find(idx);
      match root
      case None => elem := None;
      case Some(r) => elem := Some(payload[r]);
    }

    /** Replace the value of a class, for all its members. */
    method Update(idx: nat, elem: T) returns (was: Option<T>)
      requires Valid()
      modifies `parent, `payload
      ensures Valid() && |parent| == old(|parent|)
      ensures was == if idx < |rep| then Some(old(View()).val[idx]) else None
      ensures View().cls == old(View()).cls
      ensures forall i :: 0 <= i < |rep| ==>
                View().val[i] == if idx < |rep| && rep[i] == rep[idx] then elem else old(View()).val[i]
    {
      var root := Find(idx);
      match root
      case None => was := None;
      case Some(r) =>
        was := Some(payload[r]);
        ghost var v := View();
        payload := payload[r := elem];
        Partitions.LeastAlike(v, ViewOf(rep, payload), united);
    }

    method Union(idx1: nat, idx2: nat, merge: (T, T) -> T)
      requires Valid() && idx1 < |parent| && idx2 < |parent|
      modifies this
      ensures Valid() && |parent| == old(|parent|)
      ensures Partitions.Alike(View(), Partitions.Union(old(View()), idx1, idx2, merge))
      ensures united == old(united) + [(idx1, idx2)]
    {
      var root1 := UncheckedFind(idx1);
      var root2 := UncheckedFind(idx2);
      assert TreeAt(State(), idx1) && TreeAt(State(), idx2);
      if root1 == root2 {
        Partitions.UnionLeast(View(), idx1, idx2, merge, united);
        united := united + [(idx1, idx2)];
      } else {
        LinkClasses(root1, root2, idx1, idx2, merge);
      }
    }

    /** The case of two different roots. */
    method LinkClasses(root1: nat, root2: nat, ghost idx1: nat, ghost idx2: nat, merge: (T, T) -> T)
      requires Valid() && idx1 < |parent| && idx2 < |parent| && rep[idx1] == root1 && rep[idx2] == root2
      requires IsRoot(State(), root1) && IsRoot(State(), root2) && root1 != root2
      modifies this
      ensures Valid() && |parent| == old(|parent|)
      ensures Partitions.Alike(View(), Partitions.Union(old(View()), idx1, idx2, merge))
      ensures united == old(united) + [(idx1, idx2)]
    {
      ghost var f := State();
      var root;
      ghost var child;
      root, child := Link(root1, root2);
      UnitedView(f, child, root, payload, idx1, idx2, merge, united);
      united := united + [(idx1, idx2)];
      var elem1, elem2 := payload[root1], payload[root2];
      payload := Rekeyed(payload, root1, root2, root, merge(elem1, elem2));
    }

    /** Splice the lists of two roots and hang the root of the smaller class under the other. */
    method Link(root1: nat, root2: nat) returns (root: nat, ghost child: nat)
      requires Ok(State()) && IsRoot(State(), root1) && IsRoot(State(), root2) && root1 != root2
      modifies `parent, `size, `next, `rep, `height, `ring
      ensures (root == root1 && child == root2) || (root == root2 && child == root1)
      ensures RingAt(old(State()), root1) && RingAt(old(State()), root2)
      ensures State() == Linked(old(State()), child, root) && Ok(State())
    {
      ghost var f := State();
      assert RingAt(f, root1) && RingAt(f, root2);
      next := next[root1 := next[root2]][root2 := next[root1]];
      if size[root1] <= size[root2] {
        parent := parent[root1 := root2];
        size := size[root2 := size[root2] + size[root1]];
        root, child := root2, root1;
      } else {
        parent := parent[root2 := root1];
        size := size[root1 := size[root1] + size[root2]];
        root, child := root1, root2;
      }
      ghost var g := Linked(f, child, root);
      rep, height, ring := g.rep, g.height, g.ring;
      assert next == g.next;
      LinkedOk(f, child, root);
    }

    /** Unite all the indices with the first. */
    method MultiUnion(indices: seq<nat>, merge: (T, T) -> T)
      requires Valid() && Partitions.InRange(indices, |parent|)
      modifies this
      ensures Valid() && |parent| == old(|parent|)
      ensures Partitions.Alike(View(), Partitions.MultiUnion(old(View()), indices, merge))
      ensures united == old(united) + if indices == [] then [] else Partitions.WithFirst(indices[0], indices[1..])
    {
      if indices == [] {
        return;
      }
      var first, rest := indices[0], indices[1..];
      ghost var v := View();
      var i := 0;
      while i < |rest|
        invariant i <= |rest| && Valid() && |parent| == old(|parent|)
        invariant Partitions.Alike(View(), Partitions.UnionFirst(v, first, rest[..i], merge))
        invariant united == old(united) + Partitions.WithFirst(first, rest[..i])
      {
        UnionNext(v, first, rest, i, merge);
        i := i + 1;
      }
      assert rest[..|rest|] == rest;
    }

    method UnionNext(ghost v: Partitions.Part<T>, first: nat, rest: seq<nat>, i: nat, merge: (T, T) -> T)
      requires Valid() && |v.cls| == |v.val| == |parent| && first < |parent| && Partitions.InRange(rest, |parent|) &&
               i < |rest|
      requires Partitions.Alike(View(), Partitions.UnionFirst(v, first, rest[..i], merge))
      modifies this
      ensures Valid() && |parent| == old(|parent|)
      ensures Partitions.Alike(View(), Partitions.UnionFirst(v, first, rest[..i + 1], merge))
      ensures united == old(united) + [(first, rest[i])]
    {
      ghost var before := View();
      Union(first, rest[i], merge);
      Partitions.NextUnion(v, before, View(), first, rest, i, merge);
    }

    /** An iterator over the class of an index. */
    method SetOf(idx: nat) returns (s: Set)
      requires Valid() && idx < |parent|
      modifies `parent
      ensures Valid() && |parent| == old(|parent|)
      ensures fresh(s) && s.Valid() && Lists(s.todo, View(), idx)
    {
      var root := UncheckedFind(idx);
      assert TreeAt(State(), idx) && IsRoot(State(), root) && RingAt(State(), root) && SizeAt(State(), root);
      s := new Set(next, root, size[root], ring[root]);
    }

    /** Merge the values of the other map, index by index, into the classes of this one. */
    method MergeWith(other: DisjointSetsMap<T>, merge: (T, T) -> T)
      requires Valid() && other.Valid() && this != other
      modifies `parent, `payload, other`parent
      ensures Valid() && other.Valid() && other.View() == old(other.View())
      ensures var n := if |parent| <= |other.parent| then |parent| else |other.parent|;
              n <= |old(View()).cls| && n <= |other.View().val| &&
              View() == Partitions.MergeWith(old(View()), other.View().val, merge, n)
    {
      var n := if |parent| <= |other.parent| then |parent| else |other.parent|;
      MergeUpTo(other, n, merge);
    }

    method MergeUpTo(other: DisjointSetsMap<T>, n: nat, merge: (T, T) -> T)
      requires Valid() && other.Valid() && this != other && n <= |parent| && n <= |other.parent|
      modifies `parent, `payload, other`parent
      ensures Valid() && other.Valid() && other.View() == old(other.View())
      ensures View() == Partitions.MergeWith(old(View()), old(other.View()).val, merge, n)
    {
      ghost var v, w := View(), other.View();
      Partitions.NoMerge(v, w.val, merge);
      var idx := 0;
      while idx < n
        invariant idx <= n && Valid() && other.Valid() && other.View() == w
        invariant View() == Partitions.MergeWith(v, w.val, merge, idx)
      {
        MergeNext(other, v, w.val, idx, merge);
        idx := idx + 1;
      }
    }

    method MergeNext(other: DisjointSetsMap<T>, ghost v: Partitions.Part<T>, ghost w: seq<T>, idx: nat,
                     merge: (T, T) -> T)
      requires Valid() && other.Valid() && this != other && idx < |parent| == |v.cls| && idx < |other.parent|
      requires Partitions.IsPart(v) && w == other.View().val && View() == Partitions.MergeWith(v, w, merge, idx)
      modifies `parent, `payload, other`parent
      ensures Valid() && other.Valid() && other.View() == old(other.View())
      ensures View() == Partitions.MergeWith(v, w, merge, idx + 1)
    {
      ghost var before := View();
      MergeAt(other, idx, merge);
      Partitions.NextMerge(v, w, merge, before, View(), idx);
    }

    method MergeAt(other: DisjointSetsMap<T>, idx: nat, merge: (T, T) -> T)
      requires Valid() && other.Valid() && this != other && idx < |parent| && idx < |other.parent|
      modifies `parent, `payload, other`parent
      ensures Valid() && other.Valid() && other.View() == old(other.View())
      ensures Partitions.MergedIn(old(View()), View(), idx, other.View().val[idx], merge)
    {
      var elem1 := Get(idx);
      var elem2 := other.Get(idx);
      var _ := Update(idx, merge(elem1.value, elem2.value));
    }
  }

  /** The members of the class of `idx`, once each. */
  ghost predicate Lists<T>(xs: seq<nat>, p: Partitions.Part<T>, idx: nat) {
    && idx < |p.cls|
    && (forall j, k :: 0 <= j < k < |xs| ==> xs[j] != xs[k])
    && (forall i: nat :: i in xs <==> i < |p.cls| && Partitions.Same(p, i, idx))
  }

  /** An iterator along the circular list of a class. */
  class Set {
    const next: seq<nat>
    var remaining: nat
    var current: nat
    ghost var todo: seq<nat>

    ghost predicate Valid()
      reads this
    {
      && |todo| == remaining
      && (todo != [] ==> current == todo[0])
      && (forall k :: 0 <= k < |todo| ==> todo[k] < |next|)
      && (forall k :: 0 <= k < |todo| - 1 ==> next[todo[k]] == todo[k + 1])
    }

    constructor (next: seq<nat>, root: nat, size: nat, ghost members: seq<nat>)
      requires |members| == size && (members != [] ==> members[0] == root)
      requires forall k :: 0 <= k < |members| ==> members[k] < |next|
      requires forall k :: 0 <= k < |members| - 1 ==> next[members[k]] == members[k + 1]
      ensures Valid() && todo == members
    {
      this.next, remaining, current, todo := next, size, root, members;
    }

    /** The members come out one by one; after the last there is nothing, for ever. */
    method Next() returns (r: Option<nat>)
      requires Valid()
      modifies this
      ensures Valid()
      ensures if old(todo) == [] then r == None && todo == [] else r == Some(old(todo)[0]) && todo == old(todo)[1..]
    {
      if remaining == 0 {
        return None;
      }
      r := Some(current);
      current := next[current];
      remaining := remaining - 1;
      todo := todo[1..];
    }
  }
}
