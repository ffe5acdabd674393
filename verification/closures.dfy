/**
 * Graph notions shared by both resolvers, over an adjacency given as one
 * list of successor indices per node: the closure of a seed set, cycles,
 * and orders in which every node comes after all of its successors.
 */
module Closures {
  import opened Graph

  /** Every successor index designates a node. */
  predicate AdjacencyBelow(succ: seq<seq<nat>>)
  {
    forall n :: 0 <= n < |succ| ==> AllBelow(succ[n], |succ|)
  }

  /** The node indices of a graph with `bound` nodes. */
  function Below(bound: nat): (r: set<nat>)
    ensures forall x: nat :: x in r <==> x < bound
  {
    if bound == 0 then {} else Below(bound - 1) + {bound - 1}
  }

  /** All successors of the members of `s`. */
  function Successors(succ: seq<seq<nat>>, s: set<nat>): set<nat>
  {
    set n, u | n in s && n < |succ| && u in succ[n] :: u
  }

  lemma SuccessorsBelow(succ: seq<seq<nat>>, s: set<nat>)
    requires AdjacencyBelow(succ)
    ensures Successors(succ, s) <= Below(|succ|)
  {
    forall u | u in Successors(succ, s) ensures u < |succ| {
      var n :| n in s && n < |succ| && u in succ[n];
      assert AllBelow(succ[n], |succ|);
    }
  }

  /** No edge leaves `s`. */
  predicate Closed(succ: seq<seq<nat>>, s: set<nat>)
  {
    forall n, u :: n in s && n < |succ| && u in succ[n] ==> u in s
  }

  /** The nodes reachable from `seeds`, seeds included, computed by adding all
      new successors at once until nothing new appears. */
  function Closure(succ: seq<seq<nat>>, seeds: set<nat>): (c: set<nat>)
    requires AdjacencyBelow(succ) && seeds <= Below(|succ|)
    ensures seeds <= c <= Below(|succ|)
    ensures Closed(succ, c)
    decreases Below(|succ|) - seeds
  {
    var up := Successors(succ, seeds) - seeds;
    if up == {} then
      assert Closed(succ, seeds) by {
        forall n, u | n in seeds && n < |succ| && u in succ[n] ensures u in seeds {
          assert u in Successors(succ, seeds);
          assert u !in up;
        }
      }
      seeds
    else
      SuccessorsBelow(succ, seeds);
      Closure(succ, seeds + up)
  }

  /** The closure is the least closed superset of the seeds. */
  lemma {:induction false} ClosureLeast(succ: seq<seq<nat>>, seeds: set<nat>, s: set<nat>)
    requires AdjacencyBelow(succ) && seeds <= Below(|succ|)
    requires seeds <= s && Closed(succ, s)
    ensures Closure(succ, seeds) <= s
    decreases Below(|succ|) - seeds
  {
    var up := Successors(succ, seeds) - seeds;
    if up != {} {
      assert up <= s;
      SuccessorsBelow(succ, seeds);
      ClosureLeast(succ, seeds + up, s);
    }
  }

  /** A walk of at least one step that ends where it starts. */
  predicate IsCycle(succ: seq<seq<nat>>, path: seq<nat>)
  {
    && |path| >= 2
    && path[0] == path[|path| - 1]
    && forall k :: 0 <= k < |path| - 1 ==> path[k] < |succ| && path[k + 1] in succ[path[k]]
  }

  predicate CycleWithin(succ: seq<seq<nat>>, s: set<nat>, path: seq<nat>)
  {
    IsCycle(succ, path) && forall k :: 0 <= k < |path| ==> path[k] in s
  }

  ghost predicate HasCycleWithin(succ: seq<seq<nat>>, s: set<nat>)
  {
    exists path :: CycleWithin(succ, s, path)
  }

  /** Every member of `order` comes after all of its successors. */
  predicate Topological(succ: seq<seq<nat>>, order: seq<nat>)
  {
    forall i :: 0 <= i < |order| ==> order[i] < |succ| && forall u :: u in succ[order[i]] ==> u in order[..i]
  }

  /** The members of a topological order are closed under successors. */
  lemma TopologicalClosed(succ: seq<seq<nat>>, order: seq<nat>)
    requires Topological(succ, order)
    ensures Closed(succ, Elems(order))
  {
    forall n, u | n in Elems(order) && n < |succ| && u in succ[n] ensures u in Elems(order) {
      var i :| 0 <= i < |order| && order[i] == n;
      var j :| 0 <= j < i && order[..i][j] == u;
      assert order[j] == u;
    }
  }

  /** Appending a node all of whose successors are already listed keeps an order topological. */
  lemma TopologicalAppend(succ: seq<seq<nat>>, order: seq<nat>, x: nat)
    requires Topological(succ, order) && x < |succ|
    requires forall j :: 0 <= j < |succ[x]| ==> succ[x][j] in Elems(order)
    ensures Topological(succ, order + [x])
  {
    var o := order + [x];
    forall i | 0 <= i < |o| ensures o[i] < |succ| && forall u :: u in succ[o[i]] ==> u in o[..i] {
      if i < |order| {
        assert o[i] == order[i] && o[..i] == order[..i];
      } else {
        assert o[..i] == order;
        forall u | u in succ[x] ensures u in order {
          var j :| 0 <= j < |succ[x]| && succ[x][j] == u;
          assert u in Elems(order);
        }
      }
    }
  }

  lemma IndexOfBefore(order: seq<nat>, x: nat, i: nat)
    requires i <= |order| && x in order[..i]
    ensures x in order && IndexOf(order, x) < i
  {
    var j :| 0 <= j < i && order[j] == x;
  }

  /** Along a walk through a topological order, first positions strictly decrease. */
  lemma {:induction false} WalkDescends(succ: seq<seq<nat>>, order: seq<nat>, path: seq<nat>, k: nat)
    requires Topological(succ, order)
    requires 0 < k < |path| && path[0] in order
    requires forall m :: 0 <= m < k ==> path[m] < |succ| && path[m + 1] in succ[path[m]]
    ensures path[k] in order && IndexOf(order, path[k]) < IndexOf(order, path[0])
  {
    var x := path[k - 1];
    if k > 1 {
      WalkDescends(succ, order, path, k - 1);
    }
    var i := IndexOf(order, x);
    assert order[i] == x;
    IndexOfBefore(order, path[k], i);
  }

  /** An order that lists all of `s` topologically leaves no cycle within `s`. */
  lemma TopologicalAcyclic(succ: seq<seq<nat>>, order: seq<nat>, s: set<nat>)
    requires Topological(succ, order) && s <= Elems(order)
    ensures !HasCycleWithin(succ, s)
  {
    if path :| CycleWithin(succ, s, path) {
      assert path[0] in Elems(order);
      WalkDescends(succ, order, path, |path| - 1);
      assert false;
    }
  }

  lemma SubsetCard(a: set<nat>, b: set<nat>)
    requires a <= b
    ensures |a| <= |b|
  {
    assert b == a + (b - a);
  }

  lemma {:induction false} NoDupCard(w: seq<nat>)
    requires NoDup(w)
    ensures |Elems(w)| == |w|
  {
    if |w| > 0 {
      var p := w[..|w| - 1];
      NoDupCard(p);
      assert w == p + [w[|w| - 1]];
      ElemsAppend(p, w[|w| - 1]);
    }
  }

  /** A sequence longer than the set it draws from repeats an element. */
  lemma PigeonHole(w: seq<nat>, s: set<nat>)
    requires Elems(w) <= s && |w| > |s|
    ensures !NoDup(w)
  {
    if NoDup(w) {
      NoDupCard(w);
      SubsetCard(Elems(w), s);
    }
  }

  /** Every member of `s` has a successor in `s`. */
  ghost predicate Stuck(succ: seq<seq<nat>>, s: set<nat>)
  {
    forall n {:trigger succ[n]} :: n in s ==> n < |succ| && exists u :: u in succ[n] && u in s
  }

  /** A non-empty stuck set holds a cycle. */
  lemma StuckSetHasCycle(succ: seq<seq<nat>>, s: set<nat>)
    requires s != {} && Stuck(succ, s)
    ensures HasCycleWithin(succ, s)
  {
    var w := StuckWalk(succ, s, |s| + 1);
    PigeonHole(w, s);
    var i, j :| 0 <= i < j < |w| && w[i] == w[j];
    var path := w[i..j + 1];
    assert CycleWithin(succ, s, path) by {
      forall k | 0 <= k < |path| ensures path[k] in s {
        assert path[k] == w[i + k];
        assert w[i + k] in Elems(w);
      }
      forall k | 0 <= k < |path| - 1 ensures path[k] < |succ| && path[k + 1] in succ[path[k]] {
        assert path[k] == w[i + k] && path[k + 1] == w[i + k + 1];
      }
    }
  }

  /** A walk of `len` nodes that never leaves a stuck set. */
  lemma {:induction false} StuckWalk(succ: seq<seq<nat>>, s: set<nat>, len: nat) returns (w: seq<nat>)
    requires s != {} && len >= 1 && Stuck(succ, s)
    ensures |w| == len && Elems(w) <= s
    ensures forall m :: 0 <= m < |w| - 1 ==> w[m] < |succ| && w[m + 1] in succ[w[m]]
  {
    if len == 1 {
      var x :| x in s;
      w := [x];
    } else {
      var v := StuckWalk(succ, s, len - 1);
      var last := v[|v| - 1];
      assert last in Elems(v);
      assert last < |succ| && exists u :: u in succ[last] && u in s;
      var u :| u in succ[last] && u in s;
      w := v + [u];
      ElemsAppend(v, u);
    }
  }
}
