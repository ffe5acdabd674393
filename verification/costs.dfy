/**
 * The memory weight the scheduler attaches to each node: the byte size of
 * its outputs, counting an output whose type or shape is not fully known
 * as free.
 */
module NodeCosts {
  import opened Graph

  /** The number of elements of a tensor with the given dimensions. */
  function Product(dims: seq<nat>): nat
  {
    if |dims| == 0 then 1 else dims[0] * Product(dims[1..])
  }

  /** Bytes of one output: datum width times element count when the fact is
      typed and its shape concrete, and 0 otherwise. */
  function FactCost(f: Fact): nat
  {
    match f
    case Untyped => 0
    case Typed(width, shape) =>
      match shape
      case None => 0
      case Some(dims) => width * Product(dims)
  }

  /** Sum of the output costs of a node. */
  function NodeCost(outputs: seq<Fact>): nat
  {
    if |outputs| == 0 then 0 else FactCost(outputs[0]) + NodeCost(outputs[1..])
  }

  /** An output whose cost is 0: no typed fact, a shape that is not
      concrete, a datum width of 0, or a dimension of 0. */
  predicate Free(f: Fact)
  {
    f.Untyped? || f.shape.None? || f.width == 0 || 0 in f.shape.value
  }

  /** The cost table, one entry per node; an entry is 0 exactly when every
      output of its node is free. */
  function Costs(nodes: seq<Node>): (costs: seq<nat>)
    ensures |costs| == |nodes|
    ensures forall i :: 0 <= i < |nodes| ==> costs[i] == NodeCost(nodes[i].outputs)
    ensures forall i :: 0 <= i < |nodes| ==>
      (costs[i] == 0 <==> forall k :: 0 <= k < |nodes[i].outputs| ==> Free(nodes[i].outputs[k]))
  {
    var costs := seq(|nodes|, i requires 0 <= i < |nodes| => NodeCost(nodes[i].outputs));
    assert forall i :: 0 <= i < |nodes| ==>
      (costs[i] == 0 <==> forall k :: 0 <= k < |nodes[i].outputs| ==> Free(nodes[i].outputs[k])) by {
      forall i | 0 <= i < |nodes|
        ensures costs[i] == 0 <==> forall k :: 0 <= k < |nodes[i].outputs| ==> Free(nodes[i].outputs[k])
      {
        NodeCostZero(nodes[i].outputs);
        forall k | 0 <= k < |nodes[i].outputs| ensures FactCost(nodes[i].outputs[k]) == 0 <==> Free(nodes[i].outputs[k]) {
          FactCostZero(nodes[i].outputs[k]);
        }
      }
    }
    costs
  }

  /** A tensor is empty exactly when one of its dimensions is 0; a scalar
      (no dimensions) holds one element. */
  lemma {:induction false} ProductZero(dims: seq<nat>)
    ensures Product(dims) == 0 <==> 0 in dims
    ensures |dims| == 0 ==> Product(dims) == 1
  {
    if |dims| > 0 {
      ProductZero(dims[1..]);
      assert dims == [dims[0]] + dims[1..];
    }
  }

  /** An output costs nothing exactly when it is free. */
  lemma FactCostZero(f: Fact)
    ensures FactCost(f) == 0 <==> Free(f)
  {
    if f.Typed? && f.shape.Some? {
      ProductZero(f.shape.value);
    }
  }

  /** Node cost adds up over a split of the output list. */
  lemma {:induction false} NodeCostAppend(a: seq<Fact>, b: seq<Fact>)
    ensures NodeCost(a + b) == NodeCost(a) + NodeCost(b)
  {
    if |a| > 0 {
      NodeCostAppend(a[1..], b);
      assert (a + b)[1..] == a[1..] + b;
    } else {
      assert a + b == b;
    }
  }

  /** A node is free exactly when every one of its outputs is. */
  lemma {:induction false} NodeCostZero(outputs: seq<Fact>)
    ensures NodeCost(outputs) == 0 <==> forall k :: 0 <= k < |outputs| ==> FactCost(outputs[k]) == 0
  {
    if |outputs| > 0 {
      NodeCostZero(outputs[1..]);
      assert forall k :: 1 <= k < |outputs| ==> outputs[1..][k - 1] == outputs[k];
    }
  }
}
