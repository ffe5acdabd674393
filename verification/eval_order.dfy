/**
 * The depth-first linearizer: an explicit stack of (node, next dependency
 * index) frames, a `done` set of emitted nodes and, per model output, a
 * `pending` set of nodes opened on the current path.
 */
module EvalOrder {
  import opened Graph
  import opened Closures

  type Frame = (nat, nat)

  /** What the linearizer resolves below each node: nothing for a declared
      model input (it is emitted as soon as it is reached), the dependency
      list `Deps` for every other node. */
  function Expand(nodes: seq<Node>, extra: seq<Dependency>, modelInputs: seq<nat>): (e: seq<seq<nat>>)
    requires WellFormed(nodes, extra)
    ensures |e| == |nodes| && AdjacencyBelow(e)
    ensures forall n :: 0 <= n < |nodes| ==> e[n] == if n in modelInputs then [] else Deps(nodes, extra, n)
  {
    var e := seq(|nodes|, n requires 0 <= n < |nodes| => if n in modelInputs then [] else Deps(nodes, extra, n));
    assert AdjacencyBelow(e) by {
      forall n | 0 <= n < |nodes| ensures AllBelow(e[n], |nodes|) {
        DepsContents(nodes, extra, n);
      }
    }
    e
  }

  /** The linearizer's working state while it resolves one model output. */
  datatype Walk = Walk(done: set<nat>, order: seq<nat>, pending: set<nat>, stack: seq<Frame>)

  /** One turn of the linearizer's loop, over the resolved dependency lists
      `e`: the top frame's node is emitted once its index has passed all of
      its dependencies; otherwise the dependency at its index is stepped
      past when emitted, is a loop when open, and is opened on a new frame
      when neither. */
  function StepWalk(e: seq<seq<nat>>, w: Walk): Result<Walk>
    requires |w.stack| > 0
  {
    var top := w.stack[|w.stack| - 1];
    if top.0 >= |e| || top.1 >= |e[top.0]| then
      Ok(Walk(w.done + {top.0}, w.order + [top.0], w.pending - {top.0}, w.stack[..|w.stack| - 1]))
    else
      var p := e[top.0][top.1];
      if p in w.done then Ok(w.(stack := w.stack[..|w.stack| - 1] + [(top.0, top.1 + 1)]))
      else if p in w.pending then Err(LoopDetected)
      else Ok(w.(pending := w.pending + {p}, stack := w.stack + [(p, 0)]))
  }

  /** The loop run for at most `fuel` turns: it stops early when the stack
      is empty or a loop is found. */
  function WalkFrom(e: seq<seq<nat>>, w: Walk, fuel: nat): Result<Walk>
    decreases fuel
  {
    if fuel == 0 || |w.stack| == 0 then Ok(w)
    else
      match StepWalk(e, w)
      case Err(x) => Err(x)
      case Ok(w') => WalkFrom(e, w', fuel - 1)
  }

  /** The walk has stopped: a loop was found or the stack is empty. */
  predicate Finished(r: Result<Walk>)
  {
    r.Err? || |r.value.stack| == 0
  }

  /** The linearizer as a reference definition: the outputs in turn, each not
      yet emitted resolved by a walk that starts from a single frame on it
      with nothing open, each walk given at most `fuel` turns; `None` when a
      walk has not finished within them. */
  function Linearize(e: seq<seq<nat>>, outputs: seq<nat>, done: set<nat>, order: seq<nat>, fuel: nat): Option<Result<seq<nat>>>
    decreases |outputs|
  {
    if |outputs| == 0 then Some(Ok(order))
    else if outputs[0] in done then Linearize(e, outputs[1..], done, order, fuel)
    else
      match WalkFrom(e, Walk(done, order, {}, [(outputs[0], 0)]), fuel)
      case Err(x) => Some(Err(x))
      case Ok(w) => if |w.stack| > 0 then None else Linearize(e, outputs[1..], w.done, w.order, fuel)
  }

  /** More fuel does not change a walk that finished. */
  lemma {:induction false} WalkFromMore(e: seq<seq<nat>>, w: Walk, fuel: nat, more: nat)
    requires Finished(WalkFrom(e, w, fuel))
    ensures WalkFrom(e, w, fuel + more) == WalkFrom(e, w, fuel)
    decreases fuel
  {
    if fuel > 0 && |w.stack| > 0 && StepWalk(e, w).Ok? {
      WalkFromMore(e, StepWalk(e, w).value, fuel - 1, more);
    }
  }

  /** One more turn of a walk that has not stopped is one more step. */
  lemma {:induction false} WalkFromSnoc(e: seq<seq<nat>>, w: Walk, fuel: nat)
    requires WalkFrom(e, w, fuel).Ok? && |WalkFrom(e, w, fuel).value.stack| > 0
    ensures WalkFrom(e, w, fuel + 1) == StepWalk(e, WalkFrom(e, w, fuel).value)
    decreases fuel
  {
    if fuel > 0 {
      WalkFromSnoc(e, StepWalk(e, w).value, fuel - 1);
    }
  }

  /** The walk from `w0` is at `r` after `k` turns. */
  ghost predicate Reached(e: seq<seq<nat>>, w0: Walk, k: nat, r: Result<Walk>)
  {
    forall fuel: nat :: fuel == k ==> WalkFrom(e, w0, fuel) == r
  }

  lemma ReachedStart(e: seq<seq<nat>>, w0: Walk)
    ensures Reached(e, w0, 0, Ok(w0))
  {
  }

  /** The walk from `w0` stops at `r`. */
  ghost predicate Resolves(e: seq<seq<nat>>, w0: Walk, r: Result<Walk>)
  {
    exists fuel: nat :: WalkFrom(e, w0, fuel) == r
  }

  lemma ReachedResolves(e: seq<seq<nat>>, w0: Walk, k: nat, r: Result<Walk>)
    requires Reached(e, w0, k, r)
    ensures Resolves(e, w0, r)
  {
    assert WalkFrom(e, w0, k) == r;
  }

  /** The four outcomes of one more turn of a walk that has not stopped. */
  lemma EmitTurn(e: seq<seq<nat>>, w0: Walk, k: nat, w: Walk)
    requires Reached(e, w0, k, Ok(w)) && |w.stack| > 0
    requires w.stack[|w.stack| - 1].0 < |e| && w.stack[|w.stack| - 1].1 == |e[w.stack[|w.stack| - 1].0]|
    ensures Reached(e, w0, k + 1, Ok(Walk(w.done + {w.stack[|w.stack| - 1].0}, w.order + [w.stack[|w.stack| - 1].0],
                                           w.pending - {w.stack[|w.stack| - 1].0}, w.stack[..|w.stack| - 1])))
  {
    WalkFromSnoc(e, w0, k);
    assert WalkFrom(e, w0, k) == Ok(w);
  }

  lemma AdvanceTurn(e: seq<seq<nat>>, w0: Walk, k: nat, w: Walk)
    requires Reached(e, w0, k, Ok(w)) && |w.stack| > 0
    requires w.stack[|w.stack| - 1].0 < |e| && w.stack[|w.stack| - 1].1 < |e[w.stack[|w.stack| - 1].0]|
    requires e[w.stack[|w.stack| - 1].0][w.stack[|w.stack| - 1].1] in w.done
    ensures Reached(e, w0, k + 1,
      Ok(w.(stack := w.stack[..|w.stack| - 1] + [(w.stack[|w.stack| - 1].0, w.stack[|w.stack| - 1].1 + 1)])))
  {
    WalkFromSnoc(e, w0, k);
    assert WalkFrom(e, w0, k) == Ok(w);
  }

  lemma LoopTurn(e: seq<seq<nat>>, w0: Walk, k: nat, w: Walk)
    requires Reached(e, w0, k, Ok(w)) && |w.stack| > 0
    requires w.stack[|w.stack| - 1].0 < |e| && w.stack[|w.stack| - 1].1 < |e[w.stack[|w.stack| - 1].0]|
    requires e[w.stack[|w.stack| - 1].0][w.stack[|w.stack| - 1].1] !in w.done
    requires e[w.stack[|w.stack| - 1].0][w.stack[|w.stack| - 1].1] in w.pending
    ensures Reached(e, w0, k + 1, Err(LoopDetected))
  {
    WalkFromSnoc(e, w0, k);
    assert WalkFrom(e, w0, k) == Ok(w);
  }

  lemma PushTurn(e: seq<seq<nat>>, w0: Walk, k: nat, w: Walk)
    requires Reached(e, w0, k, Ok(w)) && |w.stack| > 0
    requires w.stack[|w.stack| - 1].0 < |e| && w.stack[|w.stack| - 1].1 < |e[w.stack[|w.stack| - 1].0]|
    requires e[w.stack[|w.stack| - 1].0][w.stack[|w.stack| - 1].1] !in w.done
    requires e[w.stack[|w.stack| - 1].0][w.stack[|w.stack| - 1].1] !in w.pending
    ensures Reached(e, w0, k + 1,
      Ok(w.(pending := w.pending + {e[w.stack[|w.stack| - 1].0][w.stack[|w.stack| - 1].1]},
            stack := w.stack + [(e[w.stack[|w.stack| - 1].0][w.stack[|w.stack| - 1].1], 0)])))
  {
    WalkFromSnoc(e, w0, k);
    assert WalkFrom(e, w0, k) == Ok(w);
  }

  /** More fuel does not change a run of the reference that finished. */
  lemma {:induction false} LinearizeMore(e: seq<seq<nat>>, outputs: seq<nat>, done: set<nat>, order: seq<nat>, fuel: nat, more: nat)
    requires Linearize(e, outputs, done, order, fuel).Some?
    ensures Linearize(e, outputs, done, order, fuel + more) == Linearize(e, outputs, done, order, fuel)
    decreases |outputs|
  {
    if |outputs| > 0 {
      if outputs[0] in done {
        LinearizeMore(e, outputs[1..], done, order, fuel, more);
      } else {
        var w0 := Walk(done, order, {}, [(outputs[0], 0)]);
        WalkFromMore(e, w0, fuel, more);
        if WalkFrom(e, w0, fuel).Ok? {
          var w := WalkFrom(e, w0, fuel).value;
          LinearizeMore(e, outputs[1..], w.done, w.order, fuel, more);
        }
      }
    }
  }

  /** Two runs of the reference that both finish give the same answer, so the
      answer does not depend on the fuel. */
  lemma LinearizeDeterministic(e: seq<seq<nat>>, outputs: seq<nat>, fuel: nat, fuel': nat)
    requires Linearize(e, outputs, {}, [], fuel).Some? && Linearize(e, outputs, {}, [], fuel').Some?
    ensures Linearize(e, outputs, {}, [], fuel) == Linearize(e, outputs, {}, [], fuel')
  {
    if fuel <= fuel' {
      LinearizeMore(e, outputs, {}, [], fuel, fuel' - fuel);
    } else {
      LinearizeMore(e, outputs, {}, [], fuel', fuel - fuel');
    }
  }

  /** Resuming the reference at output `t` with `done` and `order` gives what
      running it from the start gives, for any fuel from `fuel` on. */
  ghost predicate Resumes(e: seq<seq<nat>>, outputs: seq<nat>, t: nat, done: set<nat>, order: seq<nat>, fuel: nat)
    requires t <= |outputs|
  {
    forall f: nat :: fuel <= f ==> Linearize(e, outputs, {}, [], f) == Linearize(e, outputs[t..], done, order, f)
  }

  /** With any fuel from `fuel` on, the reference gives `r`. */
  ghost predicate LinearizesAt(e: seq<seq<nat>>, outputs: seq<nat>, fuel: nat, r: Result<seq<nat>>)
  {
    forall f: nat :: fuel <= f ==> Linearize(e, outputs, {}, [], f) == Some(r)
  }

  /** The reference finishes with `r` once given enough fuel. */
  ghost predicate Linearizes(e: seq<seq<nat>>, outputs: seq<nat>, r: Result<seq<nat>>)
  {
    exists fuel: nat :: LinearizesAt(e, outputs, fuel, r)
  }

  lemma LinearizesFrom(e: seq<seq<nat>>, outputs: seq<nat>, fuel: nat, r: Result<seq<nat>>)
    requires LinearizesAt(e, outputs, fuel, r)
    ensures Linearizes(e, outputs, r)
  {
  }

  /** The reference has at most one answer for given dependency lists and
      outputs. */
  lemma LinearizesUnique(e: seq<seq<nat>>, outputs: seq<nat>, r: Result<seq<nat>>, r': Result<seq<nat>>)
    requires Linearizes(e, outputs, r) && Linearizes(e, outputs, r')
    ensures r == r'
  {
    var fuel :| LinearizesAt(e, outputs, fuel, r);
    var fuel' :| LinearizesAt(e, outputs, fuel', r');
    var f := if fuel <= fuel' then fuel' else fuel;
    assert Linearize(e, outputs, {}, [], f) == Some(r);
  }

  lemma ResumeEnd(e: seq<seq<nat>>, outputs: seq<nat>, done: set<nat>, order: seq<nat>, fuel: nat)
    requires Resumes(e, outputs, |outputs|, done, order, fuel)
    ensures LinearizesAt(e, outputs, fuel, Ok(order))
  {
    assert outputs[|outputs|..] == [];
  }

  lemma ResumeSkip(e: seq<seq<nat>>, outputs: seq<nat>, t: nat, done: set<nat>, order: seq<nat>, fuel: nat)
    requires t < |outputs| && Resumes(e, outputs, t, done, order, fuel) && outputs[t] in done
    requires Elems(outputs[..t]) <= done
    ensures Resumes(e, outputs, t + 1, done, order, fuel)
    ensures Elems(outputs[..t + 1]) <= done
  {
    assert outputs[t..][1..] == outputs[t + 1..];
    assert outputs[..t + 1] == outputs[..t] + [outputs[t]];
    ElemsAppend(outputs[..t], outputs[t]);
  }

  lemma ResumeWalk(e: seq<seq<nat>>, outputs: seq<nat>, t: nat, done: set<nat>, order: seq<nat>, fuel: nat,
                   r: Result<Walk>) returns (fuel': nat)
    requires t < |outputs| && Resumes(e, outputs, t, done, order, fuel) && outputs[t] !in done
    requires Resolves(e, Walk(done, order, {}, [(outputs[t], 0)]), r) && Finished(r)
    ensures r.Ok? ==> Resumes(e, outputs, t + 1, r.value.done, r.value.order, fuel')
    ensures r.Err? ==> LinearizesAt(e, outputs, fuel', Err(r.error))
  {
    var w0 := Walk(done, order, {}, [(outputs[t], 0)]);
    var g :| WalkFrom(e, w0, g) == r;
    fuel' := fuel + g;
    assert outputs[t..][1..] == outputs[t + 1..];
    forall f: nat | fuel' <= f
      ensures Linearize(e, outputs, {}, [], f) ==
        if r.Ok? then Linearize(e, outputs[t + 1..], r.value.done, r.value.order, f) else Some(Err(r.error))
    {
      WalkFromMore(e, w0, g, f - g);
    }
  }

  /** The nodes of the frames above the bottom one. */
  ghost function OpenAbove(stack: seq<Frame>): set<nat>
  {
    set m | 1 <= m < |stack| :: stack[m].0
  }

  /** The shape of the frame stack between iterations: every frame's node is
      in the closure and not yet emitted, its index is at most its dependency
      count, every frame below the top waits on the node of the frame above it
      (the dependency at its index), every dependency a frame has moved past is
      emitted, and the frames above the bottom hold distinct nodes. */
  ghost predicate Frames(e: seq<seq<nat>>, c: set<nat>, done: set<nat>, stack: seq<Frame>)
  {
    && (forall m :: 0 <= m < |stack| ==> stack[m].0 in c && stack[m].0 !in done)
    && (forall m :: 0 <= m < |stack| ==> stack[m].0 < |e| && stack[m].1 <= |e[stack[m].0]|)
    && Linked(e, stack)
    && (forall m, j :: 0 <= m < |stack| && 0 <= j < stack[m].1 ==> e[stack[m].0][j] in done)
    && (forall m, m' :: 1 <= m < m' < |stack| ==> stack[m].0 != stack[m'].0)
  }

  /** Frame `f` is waiting on the node of frame `g`: that node is the
      dependency at `f`'s index. */
  ghost predicate Waits(e: seq<seq<nat>>, f: Frame, g: Frame)
  {
    f.0 < |e| && f.1 < |e[f.0]| && g.0 == e[f.0][f.1]
  }

  /** Every frame below the top waits on the frame just above it. */
  ghost predicate Linked(e: seq<seq<nat>>, stack: seq<Frame>)
    decreases |stack|
  {
    |stack| <= 1 || (Linked(e, stack[..|stack| - 1]) && Waits(e, stack[|stack| - 2], stack[|stack| - 1]))
  }

  lemma {:induction false} LinkedAt(e: seq<seq<nat>>, stack: seq<Frame>, m: nat)
    requires Linked(e, stack) && m + 1 < |stack|
    ensures Waits(e, stack[m], stack[m + 1])
  {
    var init := stack[..|stack| - 1];
    if m + 2 < |stack| {
      LinkedAt(e, init, m);
      assert init[m] == stack[m] && init[m + 1] == stack[m + 1];
    }
  }

  /** How many dependencies the top frame still has to look at. */
  ghost function TopRemaining(e: seq<seq<nat>>, stack: seq<Frame>): nat
  {
    if |stack| == 0 then 0
    else
      var top := stack[|stack| - 1];
      if top.0 < |e| && top.1 <= |e[top.0]| then |e[top.0]| - top.1 else 0
  }

  /** A frame that has resolved all its dependencies never has a copy of its
      node below it: the bottom frame waits on a node that is still open. */
  lemma EmittedOnce(e: seq<seq<nat>>, c: set<nat>, done: set<nat>, stack: seq<Frame>)
    requires Frames(e, c, done, stack) && |stack| >= 1
    requires stack[|stack| - 1].1 == |e[stack[|stack| - 1].0]|
    ensures forall m :: 0 <= m < |stack| - 1 ==> stack[m].0 != stack[|stack| - 1].0
  {
    var top := stack[|stack| - 1];
    if |stack| >= 2 {
      var bottom := stack[0];
      LinkedAt(e, stack, 0);
      assert stack[1].0 !in done && stack[1].0 == e[bottom.0][bottom.1];
      assert forall j :: 0 <= j < top.1 ==> e[top.0][j] in done;
    }
  }

  /** Popping a frame whose node occurs nowhere else closes that node. */
  lemma OpenAbovePop(stack: seq<Frame>)
    requires |stack| >= 1
    requires forall m :: 0 <= m < |stack| - 1 ==> stack[m].0 != stack[|stack| - 1].0
    ensures OpenAbove(stack[..|stack| - 1]) == OpenAbove(stack) - {stack[|stack| - 1].0}
  {
  }

  /** Pushing a frame opens its node. */
  lemma OpenAbovePush(stack: seq<Frame>, f: Frame)
    requires |stack| >= 1
    ensures OpenAbove(stack + [f]) == OpenAbove(stack) + {f.0}
  {
    var s := stack + [f];
    assert s[|stack|] == f;
    forall x | x in OpenAbove(stack) ensures x in OpenAbove(s) {
      var m :| 1 <= m < |stack| && stack[m].0 == x;
      assert s[m] == stack[m];
    }
  }

  /** Replacing the top frame by one on the same node opens nothing new. */
  lemma OpenAboveAdvance(stack: seq<Frame>, f: Frame)
    requires |stack| >= 1 && f.0 == stack[|stack| - 1].0
    ensures OpenAbove(stack[..|stack| - 1] + [f]) == OpenAbove(stack)
  {
    var s := stack[..|stack| - 1] + [f];
    forall x | x in OpenAbove(stack) ensures x in OpenAbove(s) {
      var m :| 1 <= m < |stack| && stack[m].0 == x;
      assert s[m].0 == x;
    }
    forall x | x in OpenAbove(s) ensures x in OpenAbove(stack) {
      var m :| 1 <= m < |s| && s[m].0 == x;
      assert stack[m].0 == x;
    }
  }

  /** The frame stack and the matching `pending` set. */
  ghost predicate Walking(e: seq<seq<nat>>, c: set<nat>, done: set<nat>, pending: set<nat>, stack: seq<Frame>)
  {
    Frames(e, c, done, stack) && pending == OpenAbove(stack)
  }

  /** Emitting the top frame's node, whose dependencies are all resolved,
      keeps the stack shape for the frames below and closes that node. */
  lemma EmitKeepsFrames(e: seq<seq<nat>>, c: set<nat>, done: set<nat>, pending: set<nat>, stack: seq<Frame>,
                        current: nat, next: nat)
    requires Walking(e, c, done, pending, stack) && |stack| >= 1
    requires stack[|stack| - 1] == (current, next) && next == |e[current]|
    ensures current !in done && current in c && current < |e|
    ensures forall j :: 0 <= j < |e[current]| ==> e[current][j] in done
    ensures Walking(e, c, done + {current}, pending - {current}, stack[..|stack| - 1])
    ensures Below(|e|) - (done + {current}) < Below(|e|) - done
  {
    var last := |stack| - 1;
    assert stack[last].0 == current && stack[last].1 == next;
    forall j | 0 <= j < |e[current]| ensures e[current][j] in done {
      assert e[stack[last].0][j] in done;
    }
    EmittedOnce(e, c, done, stack);
    OpenAbovePop(stack);
    var s, done' := stack[..last], done + {current};
    forall m | 0 <= m < |s| ensures s[m].0 in c && s[m].0 !in done' {
      assert s[m] == stack[m];
    }
    forall m | 0 <= m < |s| ensures s[m].0 < |e| && s[m].1 <= |e[s[m].0]| {
      assert s[m] == stack[m];
    }
    assert Linked(e, s);
    forall m, j | 0 <= m < |s| && 0 <= j < s[m].1 ensures e[s[m].0][j] in done' {
      assert s[m] == stack[m];
    }
    forall m, m' | 1 <= m < m' < |s| ensures s[m].0 != s[m'].0 {
      assert s[m] == stack[m] && s[m'] == stack[m'];
    }
    assert Frames(e, c, done', s);
  }

  /** Moving the top frame past an emitted dependency keeps the stack shape. */
  lemma AdvanceKeepsFrames(e: seq<seq<nat>>, c: set<nat>, done: set<nat>, pending: set<nat>, stack: seq<Frame>,
                           current: nat, next: nat)
    requires Walking(e, c, done, pending, stack) && |stack| >= 1
    requires stack[|stack| - 1] == (current, next) && next < |e[current]| && e[current][next] in done
    ensures Walking(e, c, done, pending, stack[..|stack| - 1] + [(current, next + 1)])
    ensures TopRemaining(e, stack[..|stack| - 1] + [(current, next + 1)]) < TopRemaining(e, stack)
  {
    var last := |stack| - 1;
    var s := stack[..last] + [(current, next + 1)];
    assert |s| == |stack| && s[last] == (current, next + 1);
    assert forall m :: 0 <= m < last ==> s[m] == stack[m];
    assert forall m :: 0 <= m < |s| ==> s[m].0 == stack[m].0;
    forall m | 0 <= m < |s| ensures s[m].0 in c && s[m].0 !in done {
      assert stack[m].0 in c && stack[m].0 !in done;
    }
    forall m | 0 <= m < |s| ensures s[m].0 < |e| && s[m].1 <= |e[s[m].0]| {
      assert stack[m].0 < |e|;
    }
    if last >= 1 {
      assert s[..last] == stack[..last];
      assert Waits(e, stack[last - 1], stack[last]);
      assert s[last - 1] == stack[last - 1];
    }
    assert Linked(e, s);
    forall m, j | 0 <= m < |s| && 0 <= j < s[m].1 ensures e[s[m].0][j] in done {
      if m < last {
        assert s[m] == stack[m];
      } else if j < next {
        assert e[stack[last].0][j] in done;
      }
    }
    forall m, m' | 1 <= m < m' < |s| ensures s[m].0 != s[m'].0 {
      assert stack[m].0 != stack[m'].0;
    }
    assert Frames(e, c, done, s);
    OpenAboveAdvance(stack, (current, next + 1));
  }

  /** Opening a dependency that is neither emitted nor open pushes a valid frame. */
  lemma PushKeepsFrames(e: seq<seq<nat>>, c: set<nat>, done: set<nat>, pending: set<nat>, stack: seq<Frame>,
                        current: nat, next: nat, p: nat)
    requires AdjacencyBelow(e) && Closed(e, c) && Walking(e, c, done, pending, stack) && |stack| >= 1
    requires stack[|stack| - 1] == (current, next) && next < |e[current]| && p == e[current][next]
    requires p !in done && p !in pending
    ensures Walking(e, c, done, pending + {p}, stack + [(p, 0)])
    ensures Below(|e|) - done - (pending + {p}) < Below(|e|) - done - pending
  {
    var last := |stack| - 1;
    var s := stack + [(p, 0)];
    assert |s| == |stack| + 1 && s[|stack|] == (p, 0);
    assert forall m :: 0 <= m < |stack| ==> s[m] == stack[m];
    assert stack[last].0 == current && current in c && current < |e|;
    assert p < |e| && p in c by {
      assert AllBelow(e[current], |e|);
      assert p in e[current];
    }
    forall m | 0 <= m < |s| ensures s[m].0 in c && s[m].0 !in done {
    }
    forall m | 0 <= m < |s| ensures s[m].0 < |e| && s[m].1 <= |e[s[m].0]| {
    }
    assert s[..|stack|] == stack;
    assert Waits(e, s[last], s[|stack|]);
    assert Linked(e, s);
    forall m, j | 0 <= m < |s| && 0 <= j < s[m].1 ensures e[s[m].0][j] in done {
      assert m < |stack|;
    }
    forall m | 1 <= m < |stack| ensures stack[m].0 != p {
      assert stack[m].0 in OpenAbove(stack);
    }
    forall m, m' | 1 <= m < m' < |s| ensures s[m].0 != s[m'].0 {
      if m' < |stack| {
        assert stack[m].0 != stack[m'].0;
      }
    }
    assert Frames(e, c, done, s);
    OpenAbovePush(stack, (p, 0));
  }

  /** A dependency of the top frame that is open closes a cycle through the
      frames from the one holding it up to the top. */
  lemma CycleOnStack(e: seq<seq<nat>>, c: set<nat>, done: set<nat>, stack: seq<Frame>, m: nat)
    requires Frames(e, c, done, stack)
    requires 1 <= m < |stack|
    requires stack[|stack| - 1].1 < |e[stack[|stack| - 1].0]|
    requires e[stack[|stack| - 1].0][stack[|stack| - 1].1] == stack[m].0
    ensures HasCycleWithin(e, c)
  {
    var top := stack[|stack| - 1];
    var path := seq(|stack| - m, k requires 0 <= k < |stack| - m => stack[m + k].0) + [stack[m].0];
    assert |path| == |stack| - m + 1;
    forall k | 0 <= k < |path| - 1 ensures path[k] < |e| && path[k + 1] in e[path[k]] {
      assert path[k] == stack[m + k].0;
      if k < |path| - 2 {
        assert path[k + 1] == stack[m + k + 1].0;
        LinkedAt(e, stack, m + k);
      } else {
        assert path[k + 1] == e[top.0][top.1];
      }
    }
    assert CycleWithin(e, c, path);
  }

  /** What has been emitted so far: `order` extends `order0`, lists each
      node once and each after its dependencies, and its nodes, all in `c`,
      are the `done` set. */
  ghost predicate Emitted(e: seq<seq<nat>>, c: set<nat>, order0: seq<nat>, done: set<nat>, order: seq<nat>)
  {
    && done == Elems(order) && done <= c
    && NoDup(order) && Topological(e, order)
    && |order| >= |order0| && order[..|order0|] == order0
  }

  /** Emitting a node of `c` not yet done whose dependencies are all done
      keeps the emitted prefix valid. */
  lemma EmitKeepsOrder(e: seq<seq<nat>>, c: set<nat>, order0: seq<nat>, done: set<nat>, order: seq<nat>, x: nat)
    requires Emitted(e, c, order0, done, order)
    requires x in c && x !in done && x < |e| && forall j :: 0 <= j < |e[x]| ==> e[x][j] in done
    ensures Emitted(e, c, order0, done + {x}, order + [x])
  {
    ElemsAppend(order, x);
    TopologicalAppend(e, order, x);
    NoDupAppend(order, x);
    PrefixAppend(order, order0, x);
  }

  /** The state the linearizer keeps between turns while it resolves
      `target`: the emitted prefix, the target either emitted or at the
      bottom of the stack, a non-empty stack until something is emitted,
      the frame stack with its `pending` set, and the agreement with the
      reference walk after `turns` turns. */
  ghost predicate Resolving(e: seq<seq<nat>>, c: set<nat>, target: nat, order0: seq<nat>, w0: Walk, turns: nat,
                            done: set<nat>, order: seq<nat>, pending: set<nat>, stack: seq<Frame>)
  {
    && Emitted(e, c, order0, done, order)
    && (target in done || (|stack| > 0 && stack[0].0 == target))
    && (|order| == |order0| ==> |stack| > 0)
    && Walking(e, c, done, pending, stack)
    && Reached(e, w0, turns, Ok(Walk(done, order, pending, stack)))
  }

  /** The loop's termination order: fewer nodes left to emit, or as many and
      fewer left to open, or as many of both and fewer dependencies left to
      look at on the top frame. */
  ghost predicate Progress(e: seq<seq<nat>>, done: set<nat>, pending: set<nat>, stack: seq<Frame>,
                           done': set<nat>, pending': set<nat>, stack': seq<Frame>)
  {
    || Below(|e|) - done' < Below(|e|) - done
    || (done' == done && Below(|e|) - done' - pending' < Below(|e|) - done - pending)
    || (done' == done && pending' == pending && TopRemaining(e, stack') < TopRemaining(e, stack))
  }

  /** The four kinds of turn, each from a state kept between turns. */
  lemma EmitStep(e: seq<seq<nat>>, c: set<nat>, target: nat, order0: seq<nat>, w0: Walk, turns: nat,
                 done: set<nat>, order: seq<nat>, pending: set<nat>, stack: seq<Frame>, current: nat, next: nat)
    requires Resolving(e, c, target, order0, w0, turns, done, order, pending, stack) && |stack| > 0
    requires stack[|stack| - 1] == (current, next) && next == |e[current]|
    ensures Resolving(e, c, target, order0, w0, turns + 1, done + {current}, order + [current], pending - {current}, stack[..|stack| - 1])
    ensures Progress(e, done, pending, stack, done + {current}, pending - {current}, stack[..|stack| - 1])
  {
    EmitKeepsFrames(e, c, done, pending, stack, current, next);
    EmitTurn(e, w0, turns, Walk(done, order, pending, stack));
    EmitKeepsOrder(e, c, order0, done, order, current);
  }

  lemma AdvanceStep(e: seq<seq<nat>>, c: set<nat>, target: nat, order0: seq<nat>, w0: Walk, turns: nat,
                    done: set<nat>, order: seq<nat>, pending: set<nat>, stack: seq<Frame>, current: nat, next: nat)
    requires Resolving(e, c, target, order0, w0, turns, done, order, pending, stack) && |stack| > 0
    requires stack[|stack| - 1] == (current, next) && next < |e[current]| && e[current][next] in done
    ensures Resolving(e, c, target, order0, w0, turns + 1, done, order, pending, stack[..|stack| - 1] + [(current, next + 1)])
    ensures Progress(e, done, pending, stack, done, pending, stack[..|stack| - 1] + [(current, next + 1)])
  {
    AdvanceKeepsFrames(e, c, done, pending, stack, current, next);
    AdvanceTurn(e, w0, turns, Walk(done, order, pending, stack));
  }

  lemma LoopStep(e: seq<seq<nat>>, c: set<nat>, target: nat, order0: seq<nat>, w0: Walk, turns: nat,
                 done: set<nat>, order: seq<nat>, pending: set<nat>, stack: seq<Frame>, current: nat, next: nat)
    requires Resolving(e, c, target, order0, w0, turns, done, order, pending, stack) && |stack| > 0
    requires stack[|stack| - 1] == (current, next) && next < |e[current]|
    requires e[current][next] !in done && e[current][next] in pending
    ensures HasCycleWithin(e, c) && Reached(e, w0, turns + 1, Err(LoopDetected))
  {
    var m :| 1 <= m < |stack| && stack[m].0 == e[current][next];
    CycleOnStack(e, c, done, stack, m);
    LoopTurn(e, w0, turns, Walk(done, order, pending, stack));
  }

  lemma PushStep(e: seq<seq<nat>>, c: set<nat>, target: nat, order0: seq<nat>, w0: Walk, turns: nat,
                 done: set<nat>, order: seq<nat>, pending: set<nat>, stack: seq<Frame>, current: nat, next: nat)
    requires AdjacencyBelow(e) && Closed(e, c)
    requires Resolving(e, c, target, order0, w0, turns, done, order, pending, stack) && |stack| > 0
    requires stack[|stack| - 1] == (current, next) && next < |e[current]|
    requires e[current][next] !in done && e[current][next] !in pending
    ensures Resolving(e, c, target, order0, w0, turns + 1, done, order, pending + {e[current][next]}, stack + [(e[current][next], 0)])
    ensures Progress(e, done, pending, stack, done, pending + {e[current][next]}, stack + [(e[current][next], 0)])
  {
    PushKeepsFrames(e, c, done, pending, stack, current, next, e[current][next]);
    PushTurn(e, w0, turns, Walk(done, order, pending, stack));
  }

  /** One pass of the outer loop: resolve `target` depth-first, appending to
      `order` every node it needs that is not yet `done`, the target last, or
      report a loop. */
  method ResolveOutput(nodes: seq<Node>, modelInputs: seq<nat>, extra: seq<Dependency>,
                       ghost e: seq<seq<nat>>, ghost c: set<nat>, target: nat, done0: set<nat>, order0: seq<nat>)
    returns (r: Result<()>, done: set<nat>, order: seq<nat>)
    requires WellFormed(nodes, extra) && e == Expand(nodes, extra, modelInputs)
    requires target in c && target !in done0 && c <= Below(|nodes|) && Closed(e, c)
    requires Emitted(e, c, order0, done0, order0)
    ensures r.Ok? ==> Emitted(e, c, order0, done, order) && target in done && |order| > |order0|
    ensures r.Err? ==> r.error == LoopDetected && HasCycleWithin(e, c)
    ensures Resolves(e, Walk(done0, order0, {}, [(target, 0)]), if r.Ok? then Ok(Walk(done, order, {}, [])) else Err(r.error))
  {
    done, order := done0, order0;
    var stack: seq<Frame> := [(target, 0)];
    var pending: set<nat> := {};
    ghost var w0 := Walk(done, order, pending, stack);
    ghost var turns := 0;
    ReachedStart(e, w0);
    while |stack| > 0
      invariant Resolving(e, c, target, order0, w0, turns, done, order, pending, stack)
      decreases Below(|e|) - done, Below(|e|) - done - pending, TopRemaining(e, stack)
    {
      // The top frame is popped and, unless its node is emitted, pushed back
      // with its next index; both are expressed as one update of the top.
      var (current, next) := stack[|stack| - 1];
      var depsFromInputs := |nodes[current].inputs|;
      var allDepsCount := depsFromInputs + |ExtraProducers(extra, current)|;
      assert current !in modelInputs ==> allDepsCount == |e[current]| by {
        DepsContents(nodes, extra, current);
      }
      if current in modelInputs || next == allDepsCount {
        EmitStep(e, c, target, order0, w0, turns, done, order, pending, stack, current, next);
        stack := stack[..|stack| - 1];
        order := order + [current];
        done := done + {current};
        pending := pending - {current};
      } else {
        var precursor := Deps(nodes, extra, current)[next];
        if precursor in done {
          AdvanceStep(e, c, target, order0, w0, turns, done, order, pending, stack, current, next);
          stack := stack[..|stack| - 1] + [(current, next + 1)];
        } else if precursor in pending {
          LoopStep(e, c, target, order0, w0, turns, done, order, pending, stack, current, next);
          ReachedResolves(e, w0, turns + 1, Err(LoopDetected));
          return Err(LoopDetected), done, order;
        } else {
          PushStep(e, c, target, order0, w0, turns, done, order, pending, stack, current, next);
          pending := pending + {precursor};
          stack := stack + [(precursor, 0)];
        }
      }
      turns := turns + 1;
    }
    assert pending == {};
    ReachedResolves(e, w0, turns, Ok(Walk(done, order, pending, stack)));
    r := Ok(());
  }

  /** `ResolveOutput` on output `t`, followed in the reference definition. */
  method ResolveNext(nodes: seq<Node>, modelInputs: seq<nat>, modelOutputs: seq<nat>, extra: seq<Dependency>,
                     ghost e: seq<seq<nat>>, ghost c: set<nat>, t: nat, done0: set<nat>, order0: seq<nat>, ghost fuel0: nat)
    returns (r: Result<()>, done: set<nat>, order: seq<nat>, ghost fuel: nat)
    requires WellFormed(nodes, extra) && e == Expand(nodes, extra, modelInputs)
    requires t < |modelOutputs| && modelOutputs[t] in c && modelOutputs[t] !in done0 && c <= Below(|nodes|) && Closed(e, c)
    requires Emitted(e, c, [], done0, order0) && Resumes(e, modelOutputs, t, done0, order0, fuel0)
    requires Elems(modelOutputs[..t]) <= done0
    ensures r.Ok? ==> Emitted(e, c, [], done, order) && Elems(modelOutputs[..t + 1]) <= done
    ensures r.Ok? ==> Resumes(e, modelOutputs, t + 1, done, order, fuel)
    ensures r.Err? ==> r.error == LoopDetected && HasCycleWithin(e, c)
    ensures r.Err? ==> LinearizesAt(e, modelOutputs, fuel, Err(r.error))
  {
    r, done, order := ResolveOutput(nodes, modelInputs, extra, e, c, modelOutputs[t], done0, order0);
    if r.Ok? {
      forall x | x in done0 ensures x in done {
        var k :| 0 <= k < |order0| && order0[k] == x;
        assert order[k] == x;
      }
      ElemsPrefix(modelOutputs, t);
    }
    fuel := ResumeWalk(e, modelOutputs, t, done0, order0, fuel0,
                       if r.Ok? then Ok(Walk(done, order, {}, [])) else Err(r.error));
  }

  /** Find a working evaluation order for a list of nodes. */
  method EvalOrderForNodes(nodes: seq<Node>, modelInputs: seq<nat>, modelOutputs: seq<nat>, extra: seq<Dependency>)
    returns (r: Result<seq<nat>>)
    requires WellFormed(nodes, extra) && AllBelow(modelOutputs, |nodes|)
    ensures Elems(modelOutputs) <= Below(|nodes|)
    ensures r.Ok? ==> NoDup(r.value)
    ensures r.Ok? ==> Topological(Expand(nodes, extra, modelInputs), r.value)
    ensures r.Ok? ==> Elems(r.value) == Closure(Expand(nodes, extra, modelInputs), Elems(modelOutputs))
    ensures r.Err? ==> r.error == LoopDetected
    ensures r.Err? <==> HasCycleWithin(Expand(nodes, extra, modelInputs), Closure(Expand(nodes, extra, modelInputs), Elems(modelOutputs)))
    ensures Linearizes(Expand(nodes, extra, modelInputs), modelOutputs, r)
  {
    ghost var e := Expand(nodes, extra, modelInputs);
    assert Elems(modelOutputs) <= Below(|nodes|);
    ghost var c := Closure(e, Elems(modelOutputs));
    var done: set<nat> := {};
    var order: seq<nat> := [];
    ghost var fuel: nat := 0;
    for t := 0 to |modelOutputs|
      invariant Emitted(e, c, [], done, order)
      invariant Elems(modelOutputs[..t]) <= done
      invariant Resumes(e, modelOutputs, t, done, order, fuel)
    {
      var target := modelOutputs[t];
      if target !in done {
        assert target in Elems(modelOutputs);
        var resolved;
        resolved, done, order, fuel := ResolveNext(nodes, modelInputs, modelOutputs, extra, e, c, t, done, order, fuel);
        if resolved.Err? {
          LinearizesFrom(e, modelOutputs, fuel, Err(resolved.error));
          return Err(resolved.error);
        }
      } else {
        ResumeSkip(e, modelOutputs, t, done, order, fuel);
      }
    }
    assert modelOutputs[..|modelOutputs|] == modelOutputs;
    TopologicalClosed(e, order);
    ClosureLeast(e, Elems(modelOutputs), Elems(order));
    TopologicalAcyclic(e, order, c);
    ResumeEnd(e, modelOutputs, done, order, fuel);
    LinearizesFrom(e, modelOutputs, fuel, Ok(order));
    r := Ok(order);
  }
}
