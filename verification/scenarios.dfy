/**
 * The linearizer on the three small graphs the source's unit tests build:
 * a source and a constant feeding an addition, a source added to itself,
 * and an addition whose second input is rewired to the negation that
 * consumes it. Node 0 is the model input in each; facts are one-element
 * 32-bit float tensors.
 */
module Scenarios {
  import opened Graph
  import opened EvalOrder

  const Scalar: Fact := Typed(4, Some([1]))

  /** a = 0 (source), b = 1 (constant), add = 2 over (a, b). */
  const SimpleNodes: seq<Node> := [Node([], [Scalar]), Node([], [Scalar]), Node([0, 1], [Scalar])]

  /** a = 0 (source), add = 1 over (a, a). */
  const DiamondNodes: seq<Node> := [Node([], [Scalar]), Node([0, 0], [Scalar])]

  /** a = 0 (source), add = 1 over (a, neg), neg = 2 over (add, a). */
  const LoopNodes: seq<Node> := [Node([], [Scalar]), Node([0, 2], [Scalar]), Node([1, 0], [Scalar])]

  /** A walk that goes through `ws` one turn at a time. */
  lemma {:induction false} WalkAlong(e: seq<seq<nat>>, ws: seq<Walk>)
    requires |ws| > 0
    requires forall i :: 0 <= i < |ws| - 1 ==> |ws[i].stack| > 0 && StepWalk(e, ws[i]) == Ok(ws[i + 1])
    ensures WalkFrom(e, ws[0], |ws| - 1) == Ok(ws[|ws| - 1])
    decreases |ws|
  {
    if |ws| > 1 {
      WalkAlong(e, ws[1..]);
    }
  }

  /** A single output resolved by one walk that stops within `fuel` turns. */
  lemma OneOutput(e: seq<seq<nat>>, target: nat, fuel: nat, w: Result<Walk>)
    requires Reached(e, Walk({}, [], {}, [(target, 0)]), fuel, w) && Finished(w)
    ensures Linearizes(e, [target], if w.Ok? then Ok(w.value.order) else Err(w.error))
  {
    var r := if w.Ok? then Ok(w.value.order) else Err(w.error);
    assert WalkFrom(e, Walk({}, [], {}, [(target, 0)]), fuel) == w;
    assert [target][1..] == [];
    assert Linearize(e, [target], {}, [], fuel) == Some(r);
    forall f: nat | fuel <= f ensures Linearize(e, [target], {}, [], f) == Some(r) {
      LinearizeMore(e, [target], {}, [], fuel, f - fuel);
    }
    LinearizesFrom(e, [target], fuel, r);
  }

  lemma SimpleExpands()
    ensures WellFormed(SimpleNodes, [])
    ensures Expand(SimpleNodes, [], [0]) == [[], [], [0, 1]]
  {
    var e := Expand(SimpleNodes, [], [0]);
    assert IsLeaf(SimpleNodes, 0) && IsLeaf(SimpleNodes, 1);
    assert InputsWhere(SimpleNodes, [1], false) == [];
    assert InputsWhere(SimpleNodes, [1], true) == [1];
    assert Deps(SimpleNodes, [], 2) == [0, 1];
    assert e[1] == [] && e[2] == [0, 1];
  }

  /** From `add`: open `a`, emit it, step past it, open `b`, emit it, step
      past it, emit `add`. */
  lemma SimpleWalk()
    ensures Reached([[], [], [0, 1]], Walk({}, [], {}, [(2, 0)]), 7, Ok(Walk({0, 1, 2}, [0, 1, 2], {}, [])))
  {
    var e: seq<seq<nat>> := [[], [], [0, 1]];
    var w0 := Walk({}, [], {}, [(2, 0)]);
    var w1 := w0.(pending := {0}, stack := [(2, 0), (0, 0)]);
    assert StepWalk(e, w0) == Ok(w1) by {
      assert w0.stack[0] == (2, 0) && w0.pending + {0} == {0} && w0.stack + [(0, 0)] == w1.stack;
    }
    var w2 := Walk({0}, [0], {}, [(2, 0)]);
    assert StepWalk(e, w1) == Ok(w2) by {
      assert w1.stack[1] == (0, 0) && w1.pending - {0} == {} && w1.stack[..1] == w2.stack;
      assert w1.done + {0} == w2.done && w1.order + [0] == w2.order;
    }
    var w3 := w2.(stack := [(2, 1)]);
    assert StepWalk(e, w2) == Ok(w3) by {
      assert w2.stack[0] == (2, 0) && w2.stack[..0] + [(2, 1)] == w3.stack;
    }
    var w4 := w3.(pending := {1}, stack := [(2, 1), (1, 0)]);
    assert StepWalk(e, w3) == Ok(w4) by {
      assert w3.stack[0] == (2, 1) && w3.pending + {1} == {1} && w3.stack + [(1, 0)] == w4.stack;
    }
    var w5 := Walk({0, 1}, [0, 1], {}, [(2, 1)]);
    assert StepWalk(e, w4) == Ok(w5) by {
      assert w4.stack[1] == (1, 0) && w4.pending - {1} == {} && w4.stack[..1] == w5.stack;
      assert w4.done + {1} == w5.done && w4.order + [1] == w5.order;
    }
    var w6 := w5.(stack := [(2, 2)]);
    assert StepWalk(e, w5) == Ok(w6) by {
      assert w5.stack[0] == (2, 1) && w5.stack[..0] + [(2, 2)] == w6.stack;
    }
    var w7 := Walk({0, 1, 2}, [0, 1, 2], {}, []);
    assert StepWalk(e, w6) == Ok(w7) by {
      assert w6.stack[0] == (2, 2) && w6.stack[..0] == w7.stack;
      assert w6.done + {2} == w7.done && w6.order + [2] == w7.order && w6.pending - {2} == {};
    }
    WalkAlong(e, [w0, w1, w2, w3, w4, w5, w6, w7]);
  }

  lemma SimpleLinearizes()
    ensures Linearizes(Expand(SimpleNodes, [], [0]), [2], Ok([0, 1, 2]))
  {
    SimpleExpands();
    SimpleWalk();
    OneOutput([[], [], [0, 1]], 2, 7, Ok(Walk({0, 1, 2}, [0, 1, 2], {}, [])));
  }

  /** The `simple` test: the source, then the constant, then the addition. */
  method Simple() returns (r: Result<seq<nat>>)
    ensures r == Ok([0, 1, 2])
  {
    SimpleExpands();
    r := EvalOrderForNodes(SimpleNodes, [0], [2], []);
    SimpleLinearizes();
    LinearizesUnique(Expand(SimpleNodes, [], [0]), [2], r, Ok([0, 1, 2]));
  }

  lemma DiamondExpands()
    ensures WellFormed(DiamondNodes, [])
    ensures Expand(DiamondNodes, [], [0]) == [[], [0, 0]]
  {
    var e := Expand(DiamondNodes, [], [0]);
    assert IsLeaf(DiamondNodes, 0);
    assert InputsWhere(DiamondNodes, [0], false) == [];
    assert InputsWhere(DiamondNodes, [0], true) == [0];
    assert Deps(DiamondNodes, [], 1) == [0, 0];
    assert e[1] == [0, 0];
  }

  /** From `add`: open `a`, emit it, step past both uses of it, emit `add`. */
  lemma DiamondWalk()
    ensures Reached([[], [0, 0]], Walk({}, [], {}, [(1, 0)]), 5, Ok(Walk({0, 1}, [0, 1], {}, [])))
  {
    var e: seq<seq<nat>> := [[], [0, 0]];
    var w0 := Walk({}, [], {}, [(1, 0)]);
    var w1 := w0.(pending := {0}, stack := [(1, 0), (0, 0)]);
    assert StepWalk(e, w0) == Ok(w1) by {
      assert w0.stack[0] == (1, 0) && w0.pending + {0} == {0} && w0.stack + [(0, 0)] == w1.stack;
    }
    var w2 := Walk({0}, [0], {}, [(1, 0)]);
    assert StepWalk(e, w1) == Ok(w2) by {
      assert w1.stack[1] == (0, 0) && w1.pending - {0} == {} && w1.stack[..1] == w2.stack;
      assert w1.done + {0} == w2.done && w1.order + [0] == w2.order;
    }
    var w3 := w2.(stack := [(1, 1)]);
    assert StepWalk(e, w2) == Ok(w3) by {
      assert w2.stack[0] == (1, 0) && w2.stack[..0] + [(1, 1)] == w3.stack;
    }
    var w4 := w2.(stack := [(1, 2)]);
    assert StepWalk(e, w3) == Ok(w4) by {
      assert w3.stack[0] == (1, 1) && w3.stack[..0] + [(1, 2)] == w4.stack;
    }
    var w5 := Walk({0, 1}, [0, 1], {}, []);
    assert StepWalk(e, w4) == Ok(w5) by {
      assert w4.stack[0] == (1, 2) && w4.stack[..0] == w5.stack;
      assert w4.done + {1} == w5.done && w4.order + [1] == w5.order && w4.pending - {1} == {};
    }
    WalkAlong(e, [w0, w1, w2, w3, w4, w5]);
  }

  lemma DiamondLinearizes()
    ensures Linearizes(Expand(DiamondNodes, [], [0]), [1], Ok([0, 1]))
  {
    DiamondExpands();
    DiamondWalk();
    OneOutput([[], [0, 0]], 1, 5, Ok(Walk({0, 1}, [0, 1], {}, [])));
  }

  /** The `diamond` test: the source once, then the addition. */
  method Diamond() returns (r: Result<seq<nat>>)
    ensures r == Ok([0, 1])
  {
    DiamondExpands();
    r := EvalOrderForNodes(DiamondNodes, [0], [1], []);
    DiamondLinearizes();
    LinearizesUnique(Expand(DiamondNodes, [], [0]), [1], r, Ok([0, 1]));
  }

  lemma LoopExpands()
    ensures WellFormed(LoopNodes, [])
    ensures Expand(LoopNodes, [], [0]) == [[], [2, 0], [1, 0]]
  {
    var e := Expand(LoopNodes, [], [0]);
    assert IsLeaf(LoopNodes, 0) && !IsLeaf(LoopNodes, 1) && !IsLeaf(LoopNodes, 2);
    assert InputsWhere(LoopNodes, [0], false) == [];
    assert InputsWhere(LoopNodes, [0], true) == [0];
    assert InputsWhere(LoopNodes, [2], false) == [2];
    assert InputsWhere(LoopNodes, [2], true) == [];
    assert Deps(LoopNodes, [], 1) == [2, 0];
    assert Deps(LoopNodes, [], 2) == [1, 0];
    assert e[1] == [2, 0] && e[2] == [1, 0];
  }

  /** From `neg`: open `add`, open `neg` again above it, then meet the open
      `add` as the first dependency of `neg`. */
  lemma LoopWalk()
    ensures Reached([[], [2, 0], [1, 0]], Walk({}, [], {}, [(2, 0)]), 3, Err(LoopDetected))
  {
    var e: seq<seq<nat>> := [[], [2, 0], [1, 0]];
    var w0 := Walk({}, [], {}, [(2, 0)]);
    var w1 := w0.(pending := {1}, stack := [(2, 0), (1, 0)]);
    assert StepWalk(e, w0) == Ok(w1) by {
      assert w0.stack[0] == (2, 0) && w0.pending + {1} == {1} && w0.stack + [(1, 0)] == w1.stack;
    }
    var w2 := w0.(pending := {1, 2}, stack := [(2, 0), (1, 0), (2, 0)]);
    assert StepWalk(e, w1) == Ok(w2) by {
      assert w1.stack[1] == (1, 0) && w1.pending + {2} == {1, 2} && w1.stack + [(2, 0)] == w2.stack;
    }
    assert StepWalk(e, w2) == Err(LoopDetected) by {
      assert w2.stack[2] == (2, 0);
    }
    WalkAlong(e, [w0, w1, w2]);
    WalkFromSnoc(e, w0, 2);
  }

  lemma LoopLinearizes()
    ensures Linearizes(Expand(LoopNodes, [], [0]), [2], Err(LoopDetected))
  {
    LoopExpands();
    LoopWalk();
    OneOutput([[], [2, 0], [1, 0]], 2, 3, Err(LoopDetected));
  }

  /** The `dodge_loop` test: the rewired graph has a loop, which is reported
      rather than walked forever. */
  method DodgeLoop() returns (r: Result<seq<nat>>)
    ensures r == Err(LoopDetected)
  {
    LoopExpands();
    r := EvalOrderForNodes(LoopNodes, [0], [2], []);
    LoopLinearizes();
    LinearizesUnique(Expand(LoopNodes, [], [0]), [2], r, Err(LoopDetected));
  }
}
