/** Following edges, and stopping at join points, never meets a block twice. */
module Visit {
  import opened Mir

  /** Every visited block has a visited predecessor, but for the start and the join points. */
  ghost predicate Closed(body: Body, visited: set<nat>) {
    forall x {:trigger HasPredIn(body, visited, x)} :: x in visited && x != 0 ==>
        IsJoinPoint(body, x) || HasPredIn(body, visited, x)
  }

  ghost predicate HasPredIn(body: Body, from: set<nat>, x: nat) {
    exists b: nat, i: nat :: b in from && Edge(body, b, i, x)
  }

  /** The block may be entered next. */
  ghost predicate Enterable(body: Body, visited: set<nat>, t: nat) {
    && t < |body.blocks| && t !in visited && Closed(body, visited)
    && (t == 0 || IsJoinPoint(body, t) || HasPredIn(body, visited, t))
  }

  /** What a traversal that starts in `t` adds. */
  ghost predicate DescendsFrom(body: Body, t: nat, added: set<nat>) {
    forall x {:trigger HasPredIn(body, added, x)} :: x in added ==> x == t || HasPredIn(body, added, x)
  }

  /** What the traversal of the edges of `b` adds. */
  ghost predicate DescendsBelow(body: Body, b: nat, added: set<nat>) {
    forall x {:trigger HasPredIn(body, added + {b}, x)} :: x in added ==> HasPredIn(body, added + {b}, x)
  }

  /** No successor of `b` from the `i`-th on has been visited, but for join points. */
  ghost predicate Ahead(body: Body, visited: set<nat>, b: nat, i: nat)
    requires b < |body.blocks|
  {
    forall j :: i <= j < |Successors(body.blocks[b])| ==> NotMet(body, visited, Successors(body.blocks[b])[j])
  }

  ghost predicate NotMet(body: Body, visited: set<nat>, t: nat) {
    t in visited ==> IsJoinPoint(body, t)
  }

  lemma PredMore(body: Body, from0: set<nat>, from1: set<nat>, x: nat)
    requires HasPredIn(body, from0, x) && from0 <= from1
    ensures HasPredIn(body, from1, x)
  {
    var b: nat, i: nat :| b in from0 && Edge(body, b, i, x);
    assert b in from1 && Edge(body, b, i, x);
  }

  predicate Visiting(body: Body, visited: set<nat>, b: nat) {
    b in visited && b < |body.blocks|
  }

  lemma UniqueEdge(body: Body, b1: nat, i1: nat, b2: nat, i2: nat, t: nat)
    requires !IsJoinPoint(body, t) && Edge(body, b1, i1, t) && Edge(body, b2, i2, t)
    ensures b1 == b2 && i1 == i2 && t != 0
  {
    assert !TwoEdges(body, b1, i1, b2, i2, t);
  }

  /** When a block is entered, none of its successors has been visited. */
  lemma SuccessorsAhead(body: Body, visited: set<nat>, b: nat)
    requires WellTargeted(body) && Enterable(body, visited, b)
    ensures Ahead(body, visited + {b}, b, 0) && Closed(body, visited + {b}) && Visiting(body, visited + {b}, b)
  {
    forall j | 0 <= j < |Successors(body.blocks[b])|
      ensures NotMet(body, visited + {b}, Successors(body.blocks[b])[j])
    {
      var x := Successors(body.blocks[b])[j];
      assert Edge(body, b, j, x);
      if x in visited + {b} && !IsJoinPoint(body, x) {
        UniqueEdge(body, b, j, b, j, x);
        assert HasPredIn(body, visited, x);
        var b', i' :| b' in visited && Edge(body, b', i', x);
        UniqueEdge(body, b, j, b', i', x);
      }
    }
    forall x | x in visited + {b} && x != 0 && !IsJoinPoint(body, x) ensures HasPredIn(body, visited + {b}, x) {
      PredMore(body, visited, visited + {b}, x);
    }
  }

  lemma EdgeEnterable(body: Body, visited: set<nat>, b: nat, i: nat)
    requires WellTargeted(body) && Visiting(body, visited, b) && Closed(body, visited) && Ahead(body, visited, b, i)
    requires i < |Successors(body.blocks[b])| && (JoinFree(body) || !IsJoinPoint(body, Successors(body.blocks[b])[i]))
    ensures Enterable(body, visited, Successors(body.blocks[b])[i])
  {
    var t := Successors(body.blocks[b])[i];
    assert Edge(body, b, i, t) && NotMet(body, visited, t);
  }

  /** After the traversal of the `i`-th successor, the later ones are still ahead. */
  lemma NextAhead(body: Body, visited: set<nat>, b: nat, i: nat, added: set<nat>)
    requires Visiting(body, visited, b)
    requires i < |Successors(body.blocks[b])| && Ahead(body, visited, b, i) && added !! visited
    requires DescendsFrom(body, Successors(body.blocks[b])[i], added)
    ensures Ahead(body, visited + added, b, i + 1)
    ensures DescendsBelow(body, b, added)
  {
    var t := Successors(body.blocks[b])[i];
    assert Edge(body, b, i, t);
    forall j | i + 1 <= j < |Successors(body.blocks[b])|
      ensures NotMet(body, visited + added, Successors(body.blocks[b])[j])
    {
      var x := Successors(body.blocks[b])[j];
      assert Edge(body, b, j, x) && NotMet(body, visited, x);
      if x in added && !IsJoinPoint(body, x) {
        if x == t {
          UniqueEdge(body, b, i, b, j, x);
        } else {
          assert HasPredIn(body, added, x);
          var b', i' :| b' in added && Edge(body, b', i', x);
          UniqueEdge(body, b, j, b', i', x);
        }
      }
    }
    forall x | x in added ensures HasPredIn(body, added + {b}, x) {
      if x == t {
        assert b in added + {b} && Edge(body, b, i, x);
      } else {
        PredMore(body, added, added + {b}, x);
      }
    }
  }

  lemma BelowUnion(body: Body, b: nat, added1: set<nat>, added2: set<nat>)
    requires DescendsBelow(body, b, added1) && DescendsBelow(body, b, added2)
    ensures DescendsBelow(body, b, added1 + added2)
  {
    forall x | x in added1 + added2 ensures HasPredIn(body, added1 + added2 + {b}, x) {
      if x in added1 {
        PredMore(body, added1 + {b}, added1 + added2 + {b}, x);
      } else {
        PredMore(body, added2 + {b}, added1 + added2 + {b}, x);
      }
    }
  }

  /** The same, for the blocks visited since `v0`. */
  lemma NextVisited(body: Body, v0: set<nat>, v1: set<nat>, v2: set<nat>, b: nat, i: nat)
    requires Visiting(body, v1, b) && v0 <= v1 <= v2
    requires i < |Successors(body.blocks[b])| && Ahead(body, v1, b, i)
    requires DescendsBelow(body, b, v1 - v0) && DescendsFrom(body, Successors(body.blocks[b])[i], v2 - v1)
    ensures Ahead(body, v2, b, i + 1)
    ensures DescendsBelow(body, b, v2 - v0)
  {
    NextAhead(body, v1, b, i, v2 - v1);
    assert v1 + (v2 - v1) == v2 && (v1 - v0) + (v2 - v1) == v2 - v0;
    BelowUnion(body, b, v1 - v0, v2 - v1);
  }

  /** The block itself and what has been visited below it. */
  lemma FromBelow(body: Body, b: nat, v0: set<nat>, v1: set<nat>)
    requires b !in v0 && v0 + {b} <= v1 && DescendsBelow(body, b, v1 - (v0 + {b}))
    ensures DescendsFrom(body, b, v1 - v0)
  {
    var added := v1 - (v0 + {b});
    assert v1 - v0 == added + {b};
    forall x | x in v1 - v0 && x != b ensures HasPredIn(body, v1 - v0, x) {
      assert HasPredIn(body, added + {b}, x);
    }
  }

  function Blocks(n: nat): (r: set<nat>)
    ensures forall b: nat :: b in r <==> b < n
  {
    if n == 0 then {} else Blocks(n - 1) + {n - 1}
  }
}
