/**
 * Dependency graphs and the reference order: again and again emit the least identifier whose
 * installed dependencies have all been emitted. src/extension-sort.ts computes the same order
 * with in-degree counters and a sorted queue.
 */
module DependencyGraph {
  import opened StringOrder

  /** Each installed identifier with the other installed identifiers it depends on. */
  type Graph = map<Id, set<Id>>

  ghost predicate Closed(g: Graph) {
    forall x :: x in g ==> g[x] <= g.Keys && x !in g[x]
  }

  ghost function Ready(g: Graph, done: set<Id>): set<Id> {
    set x | x in g.Keys && x !in done && g[x] <= done
  }

  ghost function Greedy(g: Graph, done: seq<Id>): seq<Id>
    decreases |g.Keys - Elems(done)|
  {
    var ready := Ready(g, Elems(done));
    if ready == {} then done
    else
      var next := Least(ready);
      assert g.Keys - Elems(done + [next]) == (g.Keys - Elems(done)) - {next};
      Greedy(g, done + [next])
  }

  ghost function Order(g: Graph): seq<Id> {
    Greedy(g, [])
  }

  ghost function Leftover(g: Graph): set<Id> {
    g.Keys - Elems(Order(g))
  }

  // ---- Dependency-respecting orders ----

  /** Every identifier occurs at most once and after all its installed dependencies. */
  ghost predicate Respects(g: Graph, t: seq<Id>) {
    forall i :: 0 <= i < |t| ==> t[i] in Ready(g, Elems(t[..i]))
  }

  /** The readable form of Respects. */
  lemma RespectsMeaning(g: Graph, t: seq<Id>)
    ensures Respects(g, t) <==>
            && Distinct(t)
            && Elems(t) <= g.Keys
            && forall i, d :: 0 <= i < |t| && d in g[t[i]] ==> exists j :: 0 <= j < i && t[j] == d
  {
    if Respects(g, t) {
      forall i, j | 0 <= i < j < |t| ensures t[i] != t[j] {
        assert t[j] in Ready(g, Elems(t[..j]));
        assert t[..j][i] == t[i];
      }
      forall x | x in Elems(t) ensures x in g.Keys {
        var i :| 0 <= i < |t| && t[i] == x;
        assert t[i] in Ready(g, Elems(t[..i]));
      }
      forall i, d | 0 <= i < |t| && d in g[t[i]] ensures exists j :: 0 <= j < i && t[j] == d {
        assert t[i] in Ready(g, Elems(t[..i]));
        assert d in t[..i];
      }
    }
    if Distinct(t) && Elems(t) <= g.Keys
       && forall i, d :: 0 <= i < |t| && d in g[t[i]] ==> exists j :: 0 <= j < i && t[j] == d
    {
      forall i | 0 <= i < |t| ensures t[i] in Ready(g, Elems(t[..i])) {
        assert t[i] in Elems(t);
        forall d | d in g[t[i]] ensures d in t[..i] {
          var j :| 0 <= j < i && t[j] == d;
          assert t[..i][j] == d;
        }
      }
    }
  }

  /** Element number i of t is the least identifier ready after the first i. */
  ghost predicate GreedyAt(g: Graph, t: seq<Id>, i: nat)
    requires i < |t|
  {
    var ready := Ready(g, Elems(t[..i]));
    ready != {} && t[i] == Least(ready)
  }

  /** Each step of Greedy takes the least ready identifier, and it stops when none is ready. */
  lemma {:induction false} GreedySteps(g: Graph, done: seq<Id>)
    ensures done <= Greedy(g, done)
    ensures forall i :: |done| <= i < |Greedy(g, done)| ==> GreedyAt(g, Greedy(g, done), i)
    ensures Ready(g, Elems(Greedy(g, done))) == {}
    decreases |g.Keys - Elems(done)|
  {
    var ready := Ready(g, Elems(done));
    if ready != {} {
      var next := Least(ready);
      assert g.Keys - Elems(done + [next]) == (g.Keys - Elems(done)) - {next};
      GreedySteps(g, done + [next]);
      var r := Greedy(g, done + [next]);
      assert r == Greedy(g, done);
      assert r[..|done|] == done && r[|done|] == next;
      assert GreedyAt(g, r, |done|);
    }
  }

  lemma OrderRespects(g: Graph)
    ensures Respects(g, Order(g))
  {
    GreedySteps(g, []);
    forall i | 0 <= i < |Order(g)| ensures Order(g)[i] in Ready(g, Elems(Order(g)[..i])) {
      assert GreedyAt(g, Order(g), i);
    }
  }

  /** t is smaller than u, or a prefix of it. */
  ghost predicate LexLeast(t: seq<Id>, u: seq<Id>) {
    t <= u || exists i :: 0 <= i < |t| && i < |u| && t[..i] == u[..i] && Less(t[i], u[i])
  }

  ghost predicate FirstDifference(t: seq<Id>, u: seq<Id>, i: nat) {
    i <= |t| && i <= |u| && t[..i] == u[..i] && (i == |t| || i == |u| || t[i] != u[i])
  }

  lemma {:induction false} FirstDifferenceExists(t: seq<Id>, u: seq<Id>, k: nat)
    requires k <= |t| && k <= |u| && t[..k] == u[..k]
    ensures exists i :: FirstDifference(t, u, i)
    decreases |t| - k
  {
    if k < |t| && k < |u| && t[k] == u[k] {
      assert t[..k + 1] == t[..k] + [t[k]] && u[..k + 1] == u[..k] + [u[k]];
      FirstDifferenceExists(t, u, k + 1);
    } else {
      assert FirstDifference(t, u, k);
    }
  }

  /** No dependency-respecting order, complete or not, gets further than the reference order. */
  lemma {:induction false} RespectingWithinOrder(g: Graph, t: seq<Id>)
    requires Respects(g, t)
    ensures Elems(t) <= Elems(Order(g))
  {
    if t != [] {
      var init, x := t[..|t| - 1], t[|t| - 1];
      forall i | 0 <= i < |init| ensures init[i] in Ready(g, Elems(init[..i])) {
        assert t[i] in Ready(g, Elems(t[..i]));
        assert init[..i] == t[..i];
      }
      RespectingWithinOrder(g, init);
      assert x in Ready(g, Elems(init));
      GreedySteps(g, []);
      assert x in Elems(Order(g)) || x in Ready(g, Elems(Order(g)));
      SplitLast(t);
    }
  }

  /** The reference order is the least of all dependency-respecting orders that are complete. */
  lemma OrderIsLexLeast(g: Graph, t: seq<Id>)
    requires Respects(g, t) && Elems(t) == g.Keys - Leftover(g)
    ensures LexLeast(Order(g), t)
  {
    var o := Order(g);
    GreedySteps(g, []);
    OrderRespects(g);
    FirstDifferenceExists(o, t, 0);
    var i: nat :| FirstDifference(o, t, i);
    if i == |o| {
      assert o <= t;
    } else {
      assert o[i] in Elems(o) && o[i] in Elems(t);
      assert o[i] in Ready(g, Elems(o[..i]));
      assert i < |t|;
      assert t[i] in Ready(g, Elems(t[..i]));
      assert GreedyAt(g, o, i);
    }
  }

  // ---- Leftovers and cycles ----

  /** A dependency chain: each element depends on the next one. */
  ghost predicate Chain(g: Graph, p: seq<Id>) {
    && (forall i :: 0 <= i < |p| ==> p[i] in g)
    && (forall i :: 0 <= i && i + 1 < |p| ==> p[i + 1] in g[p[i]])
  }

  ghost predicate ChainToCycle(g: Graph, x: Id, p: seq<Id>) {
    Chain(g, p) && p != [] && p[0] == x && !Distinct(p)
  }

  /** Following dependencies from x can come back to an identifier already passed. */
  ghost predicate ReachesCycle(g: Graph, x: Id) {
    exists p :: ChainToCycle(g, x, p)
  }

  /** A leftover always has a leftover dependency. */
  lemma LeftoverHasLeftoverDependency(g: Graph, x: Id)
    requires Closed(g) && x in Leftover(g)
    ensures exists d :: d in g[x] && d in Leftover(g)
  {
    GreedySteps(g, []);
    assert x !in Ready(g, Elems(Order(g)));
  }

  lemma {:induction false} LeftoverChain(g: Graph, x: Id, n: nat) returns (p: seq<Id>)
    requires Closed(g) && x in Leftover(g)
    ensures |p| == n + 1 && p[0] == x && Chain(g, p)
    decreases n
  {
    if n == 0 {
      p := [x];
    } else {
      LeftoverHasLeftoverDependency(g, x);
      var d :| d in g[x] && d in Leftover(g);
      var q := LeftoverChain(g, d, n - 1);
      p := [x] + q;
    }
  }

  lemma {:induction false} DistinctFits(p: seq<Id>, S: set<Id>)
    requires Distinct(p) && Elems(p) <= S
    ensures |p| <= |S|
  {
    if p != [] {
      var init, x := p[..|p| - 1], p[|p| - 1];
      SplitLast(p);
      DistinctFits(init, S - {x});
    }
  }

  /** Along a chain the positions in the reference order go strictly down. */
  lemma {:induction false} ChainInOrderDescends(g: Graph, p: seq<Id>, i: nat, j: nat, a: nat) returns (b: nat)
    requires Closed(g) && Chain(g, p) && i < j < |p| && a < |Order(g)| && Order(g)[a] == p[i]
    ensures b < a && Order(g)[b] == p[j]
    decreases j - i
  {
    OrderRespects(g);
    assert Order(g)[a] in Ready(g, Elems(Order(g)[..a]));
    assert p[i + 1] in g[p[i]];
    assert p[i + 1] in Order(g)[..a];
    var c :| 0 <= c < a && Order(g)[..a][c] == p[i + 1];
    if i + 1 == j {
      b := c;
    } else {
      b := ChainInOrderDescends(g, p, i + 1, j, c);
    }
  }

  lemma {:induction false} ChainStaysInOrder(g: Graph, p: seq<Id>, i: nat)
    requires Closed(g) && Chain(g, p) && i < |p| && p[0] in Order(g)
    ensures p[i] in Order(g)
  {
    if i > 0 {
      var a :| 0 <= a < |Order(g)| && Order(g)[a] == p[0];
      var b := ChainInOrderDescends(g, p, 0, i, a);
    }
  }

  /** The leftovers are exactly the identifiers whose dependency chains reach a cycle. */
  lemma LeftoverIffReachesCycle(g: Graph, x: Id)
    requires Closed(g) && x in g
    ensures x in Leftover(g) <==> ReachesCycle(g, x)
  {
    if x in Leftover(g) {
      var p := LeftoverChain(g, x, |g.Keys|);
      if Distinct(p) {
        DistinctFits(p, g.Keys);
      }
      assert ChainToCycle(g, x, p);
    }
    if ReachesCycle(g, x) && x in Order(g) {
      var p :| ChainToCycle(g, x, p);
      var i, j :| 0 <= i < j < |p| && p[i] == p[j];
      ChainStaysInOrder(g, p, i);
      var a :| 0 <= a < |Order(g)| && Order(g)[a] == p[i];
      var b := ChainInOrderDescends(g, p, i, j, a);
      OrderRespects(g);
      RespectsMeaning(g, Order(g));
      assert false;
    }
  }

  /** Nothing is left over exactly when the graph has no cycle. */
  lemma AcyclicIffNothingLeft(g: Graph)
    requires Closed(g)
    ensures Leftover(g) == {} <==> forall p :: Chain(g, p) ==> Distinct(p)
  {
    if Leftover(g) == {} {
      forall p | Chain(g, p) ensures Distinct(p) {
        if !Distinct(p) {
          assert ChainToCycle(g, p[0], p);
          LeftoverIffReachesCycle(g, p[0]);
        }
      }
    } else {
      var x :| x in Leftover(g);
      LeftoverIffReachesCycle(g, x);
    }
  }
}
