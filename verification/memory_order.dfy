/**
 * The memory-aware scheduler: deduplicated producer (`ups`) and consumer
 * (`downs`) lists, the set `todo` of nodes the outputs need, and a greedy
 * loop that always emits the ready node whose choice keeps the fewest
 * bytes alive.
 */
module MemoryOrder {
  import opened Graph
  import opened Closures
  import opened NodeCosts

  /** The producer lists of all nodes. */
  function UpsAll(nodes: seq<Node>, extra: seq<Dependency>): (ups: seq<seq<nat>>)
    requires WellFormed(nodes, extra)
    ensures |ups| == |nodes| && AdjacencyBelow(ups)
    ensures forall i :: 0 <= i < |nodes| ==> ups[i] == Ups(nodes, extra, i)
  {
    var ups := seq(|nodes|, i requires 0 <= i < |nodes| => Ups(nodes, extra, i));
    assert AdjacencyBelow(ups) by {
      forall i | 0 <= i < |nodes| ensures AllBelow(ups[i], |nodes|) {
        UpsContents(nodes, extra, i);
      }
    }
    ups
  }

  /** `downs` is the reverse of `ups`, without repetitions, and both only
      name nodes. */
  ghost predicate Mirrored(ups: seq<seq<nat>>, downs: seq<seq<nat>>)
  {
    && |ups| == |downs|
    && AdjacencyBelow(ups) && AdjacencyBelow(downs)
    && (forall i, j :: 0 <= i < |ups| && 0 <= j < |ups| ==> (j in downs[i] <==> i in ups[j]))
    && (forall i :: 0 <= i < |downs| ==> NoDup(downs[i]))
  }

  /** Recording a new producer `up` of `down` on both sides keeps the lists mirrored. */
  lemma MirroredPush(ups: seq<seq<nat>>, downs: seq<seq<nat>>, down: nat, up: nat)
    requires Mirrored(ups, downs) && down < |ups| && up < |ups| && up !in ups[down]
    ensures Mirrored(ups[down := ups[down] + [up]], downs[up := downs[up] + [down]])
  {
    var ups', downs' := ups[down := ups[down] + [up]], downs[up := downs[up] + [down]];
    forall i, j | 0 <= i < |ups| && 0 <= j < |ups| ensures j in downs'[i] <==> i in ups'[j] {
      assert j in downs'[i] <==> j in downs[i] || (i == up && j == down);
      assert i in ups'[j] <==> i in ups[j] || (i == up && j == down);
    }
    assert down !in downs[up];
    NoDupAppend(downs[up], down);
  }

  /** Records `up` as a producer of `down`, and `down` as a consumer of
      `up`, unless `up` is already listed for `down`. */
  method Link(ups: seq<seq<nat>>, downs: seq<seq<nat>>, down: nat, up: nat)
    returns (ups': seq<seq<nat>>, downs': seq<seq<nat>>)
    requires Mirrored(ups, downs) && down < |ups| && up < |ups|
    ensures Mirrored(ups', downs')
    ensures ups' == ups[down := if up in ups[down] then ups[down] else ups[down] + [up]]
  {
    if up in ups[down] {
      ups', downs' := ups, downs;
    } else {
      MirroredPush(ups, downs, down, up);
      ups' := ups[down := ups[down] + [up]];
      downs' := downs[up := downs[up] + [down]];
    }
  }

  /** Links every input producer of node `ix`, in order, into lists where
      `ix` has no producer yet. */
  method LinkInputs(ups: seq<seq<nat>>, downs: seq<seq<nat>>, ix: nat, inputs: seq<nat>)
    returns (ups': seq<seq<nat>>, downs': seq<seq<nat>>)
    requires Mirrored(ups, downs) && ix < |ups| && ups[ix] == [] && AllBelow(inputs, |ups|)
    ensures Mirrored(ups', downs')
    ensures ups' == ups[ix := Dedup(inputs)]
  {
    ups', downs' := ups, downs;
    assert Dedup(inputs[..0]) == [];
    for k := 0 to |inputs|
      invariant Mirrored(ups', downs')
      invariant ups' == ups[ix := Dedup(inputs[..k])]
    {
      assert inputs[..k + 1] == inputs[..k] + [inputs[k]];
      DedupSnoc(inputs[..k], inputs[k]);
      ups', downs' := Link(ups', downs', ix, inputs[k]);
    }
    assert inputs[..|inputs|] == inputs;
  }

  /** The first pass: the input producers of every node, node by node. */
  method LinkAllInputs(nodes: seq<Node>) returns (ups: seq<seq<nat>>, downs: seq<seq<nat>>)
    requires forall n, k :: 0 <= n < |nodes| && 0 <= k < |nodes[n].inputs| ==> nodes[n].inputs[k] < |nodes|
    ensures |ups| == |nodes| && Mirrored(ups, downs)
    ensures forall i :: 0 <= i < |nodes| ==> ups[i] == Dedup(nodes[i].inputs)
  {
    ups := seq(|nodes|, _ => []);
    downs := seq(|nodes|, _ => []);
    for ix := 0 to |nodes|
      invariant |ups| == |nodes| && Mirrored(ups, downs)
      invariant forall i :: 0 <= i < ix ==> ups[i] == Dedup(nodes[i].inputs)
      invariant forall i :: ix <= i < |nodes| ==> ups[i] == []
    {
      ups, downs := LinkInputs(ups, downs, ix, nodes[ix].inputs);
    }
  }

  /** The second pass: the extra dependencies, in their order. */
  method LinkExtras(nodes: seq<Node>, extra: seq<Dependency>, ups0: seq<seq<nat>>, downs0: seq<seq<nat>>)
    returns (ups: seq<seq<nat>>, downs: seq<seq<nat>>)
    requires WellFormed(nodes, extra) && |ups0| == |nodes| && Mirrored(ups0, downs0)
    requires forall i :: 0 <= i < |nodes| ==> ups0[i] == Dedup(nodes[i].inputs)
    ensures |ups| == |nodes| && Mirrored(ups, downs)
    ensures forall i :: 0 <= i < |nodes| ==> ups[i] == Ups(nodes, extra, i)
  {
    ups, downs := ups0, downs0;
    forall i | 0 <= i < |nodes| ensures ups[i] == Dedup(nodes[i].inputs + ExtraProducers(extra[..0], i)) {
      assert ExtraProducers(extra[..0], i) == [];
      assert nodes[i].inputs + [] == nodes[i].inputs;
    }
    for t := 0 to |extra|
      invariant |ups| == |nodes| && Mirrored(ups, downs)
      invariant forall i :: 0 <= i < |nodes| ==> ups[i] == Dedup(nodes[i].inputs + ExtraProducers(extra[..t], i))
    {
      var (down, up) := extra[t];
      ExtraStep(nodes, extra, t, ups);
      ups, downs := Link(ups, downs, down, up);
    }
    assert extra[..|extra|] == extra;
  }

  /** Builds `ups` and `downs`: first from the node inputs, node by node,
      then from the extra dependencies, in their order; a producer already
      listed for a consumer is skipped on both sides. */
  method BuildAdjacency(nodes: seq<Node>, extra: seq<Dependency>) returns (ups: seq<seq<nat>>, downs: seq<seq<nat>>)
    requires WellFormed(nodes, extra)
    ensures ups == UpsAll(nodes, extra)
    ensures Mirrored(ups, downs)
  {
    ups, downs := LinkAllInputs(nodes);
    ups, downs := LinkExtras(nodes, extra, ups, downs);
  }

  /** Looking at the extra pair `extra[t]` changes the expected producer
      list of its consumer only, by the same rule `Link` applies. */
  lemma ExtraStep(nodes: seq<Node>, extra: seq<Dependency>, t: nat, ups: seq<seq<nat>>)
    requires t < |extra| && |ups| == |nodes|
    requires forall i :: 0 <= i < |nodes| ==> ups[i] == Dedup(nodes[i].inputs + ExtraProducers(extra[..t], i))
    ensures forall i :: 0 <= i < |nodes| ==>
      Dedup(nodes[i].inputs + ExtraProducers(extra[..t + 1], i)) ==
        if i == extra[t].0 && extra[t].1 !in ups[i] then ups[i] + [extra[t].1] else ups[i]
  {
    var (down, up) := extra[t];
    forall i | 0 <= i < |nodes|
      ensures Dedup(nodes[i].inputs + ExtraProducers(extra[..t + 1], i)) ==
        if i == down && up !in ups[i] then ups[i] + [up] else ups[i]
    {
      ExtraProducersSnoc(extra, t, i);
      if i == down {
        assert nodes[i].inputs + ExtraProducers(extra[..t + 1], i) ==
          (nodes[i].inputs + ExtraProducers(extra[..t], i)) + [up];
        DedupSnoc(nodes[i].inputs + ExtraProducers(extra[..t], i), up);
      } else {
        assert ExtraProducers(extra[..t + 1], i) == ExtraProducers(extra[..t], i);
      }
    }
  }

  /** Grows `todo` from the outputs by all their missing producers at once
      until no producer is missing. */
  method RequiredNodes(ups: seq<seq<nat>>, outputs: seq<nat>) returns (todo: set<nat>)
    requires AdjacencyBelow(ups) && AllBelow(outputs, |ups|)
    ensures Elems(outputs) <= Below(|ups|)
    ensures todo == Closure(ups, Elems(outputs))
  {
    assert Elems(outputs) <= Below(|ups|);
    todo := Elems(outputs);
    while true
      invariant todo <= Below(|ups|)
      invariant Closure(ups, todo) == Closure(ups, Elems(outputs))
      decreases Below(|ups|) - todo
    {
      var up := Successors(ups, todo) - todo;
      if |up| == 0 {
        break;
      }
      SuccessorsBelow(ups, todo);
      todo := todo + up;
    }
  }

  /** None of the producers of `n` is still to do. */
  predicate Ready(ups: seq<seq<nat>>, todo: set<nat>, n: nat)
  {
    n < |ups| && forall u :: u in ups[n] ==> u !in todo
  }

  /** The nodes of `todo` that can run now. */
  ghost function ReadySet(ups: seq<seq<nat>>, todo: set<nat>): set<nat>
  {
    set n | n in todo && Ready(ups, todo, n)
  }

  /** The producers whose value is alive once `c` has run: the ones, `c`
      included, that are not to do any more and that some other node of
      `todo` still consumes. */
  function ActiveSet(ups: seq<seq<nat>>, todo: set<nat>, c: nat): set<nat>
  {
    set d, u | d in todo && d != c && d < |ups| && u in ups[d] && (u == c || u !in todo) :: u
  }

  /** The sum of `costs[n]` over the members `n < k` of `s`. */
  function SumBelow(costs: seq<nat>, s: set<nat>, k: nat): nat
    requires k <= |costs|
  {
    if k == 0 then 0 else SumBelow(costs, s, k - 1) + (if k - 1 in s then costs[k - 1] else 0)
  }

  /** The key the scheduler minimizes when it considers `c`. */
  function ActiveCost(costs: seq<nat>, ups: seq<seq<nat>>, todo: set<nat>, c: nat): nat
  {
    SumBelow(costs, ActiveSet(ups, todo, c), |costs|)
  }

  /** `c` is a ready member of `todo` of least active cost, and the least
      index among those of that cost. */
  ghost predicate IsBestReady(costs: seq<nat>, ups: seq<seq<nat>>, todo: set<nat>, c: nat)
  {
    && c in todo && Ready(ups, todo, c)
    && forall d :: d in todo && Ready(ups, todo, d) ==>
         || ActiveCost(costs, ups, todo, c) < ActiveCost(costs, ups, todo, d)
         || (ActiveCost(costs, ups, todo, c) == ActiveCost(costs, ups, todo, d) && c <= d)
  }

  /** Every step of `order` emitted the best ready node of what was left of `all`. */
  ghost predicate Greedy(costs: seq<nat>, ups: seq<seq<nat>>, all: set<nat>, order: seq<nat>)
  {
    forall i :: 0 <= i < |order| ==> IsBestReady(costs, ups, all - Elems(order[..i]), order[i])
  }

  /** Among the ready candidates, visited in increasing index order, the
      first one of least active cost; None when no candidate is ready. */
  method SelectNext(costs: seq<nat>, ups: seq<seq<nat>>, todo: set<nat>, candidates: set<nat>)
    returns (next: Option<nat>)
    requires |costs| == |ups|
    requires candidates <= Below(|ups|)
    ensures next.None? <==> forall d :: d in candidates ==> !Ready(ups, todo, d)
    ensures next.Some? ==> next.value in candidates && Ready(ups, todo, next.value)
    ensures next.Some? ==> forall d :: d in candidates && Ready(ups, todo, d) ==>
      || ActiveCost(costs, ups, todo, next.value) < ActiveCost(costs, ups, todo, d)
      || (ActiveCost(costs, ups, todo, next.value) == ActiveCost(costs, ups, todo, d) && next.value <= d)
  {
    next := None;
    var best := 0;
    for n := 0 to |ups|
      invariant next.None? <==> forall d :: d in candidates && d < n ==> !Ready(ups, todo, d)
      invariant next.Some? ==> next.value < n && next.value in candidates && Ready(ups, todo, next.value)
      invariant next.Some? ==> best == ActiveCost(costs, ups, todo, next.value)
      invariant next.Some? ==> forall d :: d in candidates && d < n && Ready(ups, todo, d) ==>
        best < ActiveCost(costs, ups, todo, d) || (best == ActiveCost(costs, ups, todo, d) && next.value <= d)
    {
      if n in candidates && Ready(ups, todo, n) {
        var cost := ActiveCost(costs, ups, todo, n);
        if next.None? || cost < best {
          next, best := Some(n), cost;
        }
      }
    }
  }

  /** In a closed `todo`, the ready nodes are those without producers. */
  lemma InitialCandidates(ups: seq<seq<nat>>, todo: set<nat>)
    requires todo <= Below(|ups|) && Closed(ups, todo)
    ensures ReadySet(ups, todo) == set n | n in todo && n < |ups| && |ups[n]| == 0
  {
    forall n | n in todo && n < |ups| && |ups[n]| > 0 ensures !Ready(ups, todo, n) {
      assert ups[n][0] in ups[n];
    }
  }

  /** Removing the emitted node `next` from `todo` can only make consumers
      of `next` ready. */
  lemma CandidatesAfter(ups: seq<seq<nat>>, downs: seq<seq<nat>>, todo: set<nat>, next: nat)
    requires Mirrored(ups, downs) && todo <= Below(|ups|) && next < |ups|
    ensures ReadySet(ups, todo - {next}) ==
      (ReadySet(ups, todo) - {next}) + set n | n in downs[next] && n in todo - {next} && Ready(ups, todo - {next}, n)
  {
    forall n | n in todo - {next} && Ready(ups, todo - {next}, n) && !Ready(ups, todo, n)
      ensures n in downs[next]
    {
      var u :| u in ups[n] && u in todo;
      assert u == next;
    }
  }

  /** A non-empty `todo` with no ready node holds a cycle. */
  lemma NoReadyMeansCycle(ups: seq<seq<nat>>, todo: set<nat>, all: set<nat>)
    requires todo != {} && todo <= all && todo <= Below(|ups|)
    requires ReadySet(ups, todo) == {}
    ensures HasCycleWithin(ups, all)
  {
    assert Stuck(ups, todo) by {
      forall n {:trigger ups[n]} | n in todo ensures n < |ups| && exists u :: u in ups[n] && u in todo {
        assert n !in ReadySet(ups, todo);
      }
    }
    StuckSetHasCycle(ups, todo);
    var path :| CycleWithin(ups, todo, path);
    assert CycleWithin(ups, all, path);
  }

  /** Emitting the best ready node extends a greedy order. */
  lemma GreedyAppend(costs: seq<nat>, ups: seq<seq<nat>>, all: set<nat>, order: seq<nat>, next: nat)
    requires Greedy(costs, ups, all, order)
    requires IsBestReady(costs, ups, all - Elems(order), next)
    ensures Greedy(costs, ups, all, order + [next])
  {
    var o := order + [next];
    forall i | 0 <= i < |o| ensures IsBestReady(costs, ups, all - Elems(o[..i]), o[i]) {
      if i < |order| {
        assert o[..i] == order[..i] && o[i] == order[i];
      } else {
        assert o[..i] == order;
      }
    }
  }

  /** One step of the scheduling loop: the emitted node extends a
      duplicate-free topological order of the required nodes. */
  lemma EmitStep(ups: seq<seq<nat>>, all: set<nat>, order: seq<nat>, todo: set<nat>, next: nat)
    requires Closed(ups, all) && todo == all - Elems(order) && Elems(order) <= all
    requires NoDup(order) && Topological(ups, order)
    requires next in todo && Ready(ups, todo, next)
    ensures todo - {next} == all - Elems(order + [next]) && Elems(order + [next]) <= all
    ensures NoDup(order + [next]) && Topological(ups, order + [next])
  {
    ElemsAppend(order, next);
    NoDupAppend(order, next);
    forall j | 0 <= j < |ups[next]| ensures ups[next][j] in Elems(order) {
      assert ups[next][j] in ups[next];
    }
    TopologicalAppend(ups, order, next);
  }

  /** The scheduler's loop invariant: `todo` is what remains of `all` once
      `order` has run, `order` is a duplicate-free topological greedy prefix,
      and the candidates are exactly the ready nodes still to do. */
  ghost predicate Scheduling(costs: seq<nat>, ups: seq<seq<nat>>, all: set<nat>, order: seq<nat>, todo: set<nat>, candidates: set<nat>)
  {
    && todo == all - Elems(order) && Elems(order) <= all
    && NoDup(order) && Topological(ups, order)
    && candidates == ReadySet(ups, todo)
    && Greedy(costs, ups, all, order)
  }

  /** Emitting the best ready node keeps the scheduler's invariant, with the
      candidates refreshed from the consumers of that node. */
  lemma ScheduleStep(costs: seq<nat>, ups: seq<seq<nat>>, downs: seq<seq<nat>>, all: set<nat>,
                     order: seq<nat>, todo: set<nat>, candidates: set<nat>, next: nat)
    requires Mirrored(ups, downs) && all <= Below(|ups|) && Closed(ups, all)
    requires Scheduling(costs, ups, all, order, todo, candidates)
    requires IsBestReady(costs, ups, todo, next)
    ensures next < |downs|
    ensures Scheduling(costs, ups, all, order + [next], todo - {next},
      (candidates - {next}) + set m | m in downs[next] && m in todo - {next} && Ready(ups, todo - {next}, m))
  {
    GreedyAppend(costs, ups, all, order, next);
    EmitStep(ups, all, order, todo, next);
    CandidatesAfter(ups, downs, todo, next);
  }

  /** Add to the candidates every consumer of `next` that is still to do and
      whose producers are all done. */
  method AddReadyConsumers(ups: seq<seq<nat>>, downs: seq<seq<nat>>, todo: set<nat>, next: nat, candidates: set<nat>)
    returns (added: set<nat>)
    requires next < |downs|
    ensures added == candidates + set m | m in downs[next] && m in todo && Ready(ups, todo, m)
  {
    added := candidates;
    for k := 0 to |downs[next]|
      invariant added == candidates + set m | m in downs[next][..k] && m in todo && Ready(ups, todo, m)
    {
      var m := downs[next][k];
      assert downs[next][..k + 1] == downs[next][..k] + [m];
      if m in todo && m < |ups| && forall u :: u in ups[m] ==> u !in todo {
        added := added + {m};
      }
    }
    assert downs[next][..|downs[next]|] == downs[next];
  }

  /** The scheduling loop: starting from the nodes of `todo` without
      producers, emits one best ready node at a time until `todo` is empty,
      and fails when work remains but nothing is ready. */
  method Schedule(costs: seq<nat>, ups: seq<seq<nat>>, downs: seq<seq<nat>>, todo0: set<nat>)
    returns (r: Result<seq<nat>>)
    requires Mirrored(ups, downs) && |costs| == |ups|
    requires todo0 <= Below(|ups|) && Closed(ups, todo0)
    ensures r.Ok? ==> NoDup(r.value) && Topological(ups, r.value) && Elems(r.value) == todo0
    ensures r.Ok? ==> Greedy(costs, ups, todo0, r.value)
    ensures r.Err? ==> r.error == DependencyLoopDetected
    ensures r.Err? <==> HasCycleWithin(ups, todo0)
  {
    var todo: set<nat> := todo0;
    var order: seq<nat> := [];
    var candidates: set<nat> := set n | n in todo && n < |ups| && |ups[n]| == 0;
    InitialCandidates(ups, todo);
    while |todo| > 0
      invariant Scheduling(costs, ups, todo0, order, todo, candidates)
      decreases |todo|
    {
      var next := SelectNext(costs, ups, todo, candidates);
      if next.None? {
        NoReadyMeansCycle(ups, todo, todo0);
        return Err(DependencyLoopDetected);
      }
      var n := next.value;
      ScheduleStep(costs, ups, downs, todo0, order, todo, candidates, n);
      order := order + [n];
      todo := todo - {n};
      candidates := AddReadyConsumers(ups, downs, todo, n, candidates - {n});
    }
    TopologicalAcyclic(ups, order, todo0);
    r := Ok(order);
  }

  /** Find a working evaluation order for a list of nodes, emitting at each
      step the ready node that keeps the least memory alive. Model inputs
      play no part. */
  method EvalOrderForNodesMemory(nodes: seq<Node>, modelInputs: seq<nat>, modelOutputs: seq<nat>, extra: seq<Dependency>)
    returns (r: Result<seq<nat>>)
    requires WellFormed(nodes, extra) && AllBelow(modelOutputs, |nodes|)
    ensures Elems(modelOutputs) <= Below(|nodes|)
    ensures r.Ok? ==> NoDup(r.value) && Topological(UpsAll(nodes, extra), r.value)
    ensures r.Ok? ==> Elems(r.value) == Closure(UpsAll(nodes, extra), Elems(modelOutputs))
    ensures r.Ok? ==> Greedy(Costs(nodes), UpsAll(nodes, extra), Closure(UpsAll(nodes, extra), Elems(modelOutputs)), r.value)
    ensures r.Err? ==> r.error == DependencyLoopDetected
    ensures r.Err? <==> HasCycleWithin(UpsAll(nodes, extra), Closure(UpsAll(nodes, extra), Elems(modelOutputs)))
  {
    var ups, downs := BuildAdjacency(nodes, extra);
    var costs := Costs(nodes);
    var todo := RequiredNodes(ups, modelOutputs);
    r := Schedule(costs, ups, downs, todo);
  }
}
