/**
 * The data the evaluation-order resolvers work on: a dense array of nodes,
 * each with its ordered producer list and its output facts, plus extra
 * (consumer, producer) ordering pairs. Also the per-node dependency lists
 * both resolvers derive from that data.
 */
module Graph {

  datatype Option<T> = None | Some(value: T)

  /** Shape and type knowledge about one node output: either no typed fact is
      available, or a datum byte width and a shape that may be concrete. */
  datatype Fact = Untyped | Typed(width: nat, shape: Option<seq<nat>>)

  /** A node: the producer node of each of its inputs (order and repetitions
      kept, `add(a, a)` lists `a` twice) and the facts of its outputs. */
  datatype Node = Node(inputs: seq<nat>, outputs: seq<Fact>)

  /** An extra ordering constraint: the consumer must run after the producer. */
  type Dependency = (nat, nat)

  datatype OrderError =
    | LoopDetected             // raised by the depth-first linearizer
    | DependencyLoopDetected   // raised by the memory-aware scheduler

  datatype Result<T> = Ok(value: T) | Err(error: OrderError)

  /** Every node index mentioned by the graph designates a node. */
  predicate WellFormed(nodes: seq<Node>, extra: seq<Dependency>)
  {
    && (forall n, k :: 0 <= n < |nodes| && 0 <= k < |nodes[n].inputs| ==> nodes[n].inputs[k] < |nodes|)
    && (forall e :: 0 <= e < |extra| ==> extra[e].0 < |nodes| && extra[e].1 < |nodes|)
  }

  predicate AllBelow(s: seq<nat>, bound: nat)
  {
    forall k :: 0 <= k < |s| ==> s[k] < bound
  }

  function Elems(s: seq<nat>): set<nat>
  {
    set k | 0 <= k < |s| :: s[k]
  }

  lemma ElemsAppend(v: seq<nat>, u: nat)
    ensures Elems(v + [u]) == Elems(v) + {u}
  {
    var w := v + [u];
    forall x | x in Elems(v) ensures x in Elems(w) {
      var k :| 0 <= k < |v| && v[k] == x;
      assert w[k] == x;
    }
    assert w[|v|] == u;
  }

  /** Growing a prefix by one position adds that position's element. */
  lemma ElemsPrefix(s: seq<nat>, t: nat)
    requires t < |s|
    ensures Elems(s[..t + 1]) == Elems(s[..t]) + {s[t]}
  {
    assert s[..t + 1] == s[..t] + [s[t]];
    ElemsAppend(s[..t], s[t]);
  }

  lemma PrefixAppend(v: seq<nat>, p: seq<nat>, u: nat)
    requires |p| <= |v| && v[..|p|] == p
    ensures (v + [u])[..|p|] == p
  {
    assert (v + [u])[..|p|] == v[..|p|];
  }

  predicate NoDup(s: seq<nat>)
  {
    forall i, j :: 0 <= i < j < |s| ==> s[i] != s[j]
  }

  lemma NoDupAppend(v: seq<nat>, u: nat)
    requires NoDup(v) && u !in v
    ensures NoDup(v + [u])
  {
    var w := v + [u];
    forall i, j | 0 <= i < j < |w| ensures w[i] != w[j] {
      if j == |v| {
        assert w[i] == v[i];
      } else {
        assert w[i] == v[i] && w[j] == v[j];
      }
    }
  }

  predicate IsLeaf(nodes: seq<Node>, n: nat)
    requires n < |nodes|
  {
    |nodes[n].inputs| == 0
  }

  /** The producers of the extra dependencies whose consumer is `n`, in the
      order the pairs are listed. */
  function ExtraProducers(extra: seq<Dependency>, n: nat): seq<nat>
  {
    if |extra| == 0 then []
    else
      var last := extra[|extra| - 1];
      ExtraProducers(extra[..|extra| - 1], n) + (if last.0 == n then [last.1] else [])
  }

  /** The extra producers of `n` are exactly the producers paired with `n`. */
  lemma {:induction false} ExtraProducersContents(extra: seq<Dependency>, n: nat)
    ensures forall p :: p in ExtraProducers(extra, n) <==> (n, p) in extra
  {
    if |extra| > 0 {
      var init := extra[..|extra| - 1];
      ExtraProducersContents(init, n);
      assert extra == init + [extra[|extra| - 1]];
    }
  }

  /** Looking at one more pair extends the producer list of its consumer only. */
  lemma ExtraProducersSnoc(extra: seq<Dependency>, t: nat, n: nat)
    requires t < |extra|
    ensures ExtraProducers(extra[..t + 1], n) ==
      ExtraProducers(extra[..t], n) + (if extra[t].0 == n then [extra[t].1] else [])
  {
    assert extra[..t + 1][..t] == extra[..t];
  }

  /** The entries of `ins` whose producer is a leaf (`leaf`) or is not (`!leaf`),
      in their original order. */
  function InputsWhere(nodes: seq<Node>, ins: seq<nat>, leaf: bool): seq<nat>
    requires AllBelow(ins, |nodes|)
  {
    if |ins| == 0 then []
    else (if IsLeaf(nodes, ins[0]) == leaf then [ins[0]] else []) + InputsWhere(nodes, ins[1..], leaf)
  }

  /** The filter keeps exactly the entries of the requested leafness. */
  lemma {:induction false} InputsWhereContents(nodes: seq<Node>, ins: seq<nat>, leaf: bool)
    requires AllBelow(ins, |nodes|)
    ensures forall x :: x in InputsWhere(nodes, ins, leaf) <==> x in ins && IsLeaf(nodes, x) == leaf
  {
    if |ins| > 0 {
      InputsWhereContents(nodes, ins[1..], leaf);
      assert ins == [ins[0]] + ins[1..];
    }
  }

  /** Splitting the inputs by leafness loses and invents nothing. */
  lemma {:induction false} InputsWherePartition(nodes: seq<Node>, ins: seq<nat>)
    requires AllBelow(ins, |nodes|)
    ensures multiset(InputsWhere(nodes, ins, false)) + multiset(InputsWhere(nodes, ins, true)) == multiset(ins)
  {
    if |ins| > 0 {
      InputsWherePartition(nodes, ins[1..]);
      assert ins == [ins[0]] + ins[1..];
    }
  }

  /** The dependency list the depth-first linearizer walks for node `n`:
      inputs whose producer has inputs of its own, then the extra producers
      registered for `n`, then inputs whose producer is a leaf. */
  function Deps(nodes: seq<Node>, extra: seq<Dependency>, n: nat): seq<nat>
    requires WellFormed(nodes, extra) && n < |nodes|
  {
    assert AllBelow(nodes[n].inputs, |nodes|);
    InputsWhere(nodes, nodes[n].inputs, false) + ExtraProducers(extra, n) + InputsWhere(nodes, nodes[n].inputs, true)
  }

  /** The linearizer's dependency list of `n` holds exactly its input
      producers (with their repetitions) and its extra producers, so its
      length is the dependency count the linearizer compares against. */
  lemma DepsContents(nodes: seq<Node>, extra: seq<Dependency>, n: nat)
    requires WellFormed(nodes, extra) && n < |nodes|
    ensures multiset(Deps(nodes, extra, n)) == multiset(nodes[n].inputs) + multiset(ExtraProducers(extra, n))
    ensures |Deps(nodes, extra, n)| == |nodes[n].inputs| + |ExtraProducers(extra, n)|
    ensures forall x :: x in Deps(nodes, extra, n) <==> x in nodes[n].inputs || (n, x) in extra
    ensures AllBelow(Deps(nodes, extra, n), |nodes|)
  {
    var ins, ex := nodes[n].inputs, ExtraProducers(extra, n);
    var d := Deps(nodes, extra, n);
    assert AllBelow(ins, |nodes|);
    InputsWherePartition(nodes, ins);
    ExtraProducersContents(extra, n);
    assert multiset(d) == multiset(ins) + multiset(ex);
    MultisetLength(d, ins, ex);
    forall x ensures x in d <==> x in ins || (n, x) in extra {
      assert x in d <==> x in multiset(d);
      assert x in ins <==> x in multiset(ins);
      assert x in ex <==> x in multiset(ex);
    }
    forall k | 0 <= k < |d| ensures d[k] < |nodes| {
      assert d[k] in d;
    }
  }

  lemma MultisetLength(d: seq<nat>, a: seq<nat>, b: seq<nat>)
    requires multiset(d) == multiset(a) + multiset(b)
    ensures |d| == |a| + |b|
  {
    assert |multiset(d)| == |d|;
  }

  /** The first position of `x` in `s`. */
  function IndexOf(s: seq<nat>, x: nat): (i: nat)
    requires x in s
    ensures i < |s| && s[i] == x && x !in s[..i]
  {
    if s[0] == x then 0 else 1 + IndexOf(s[1..], x)
  }

  /** Order of first occurrences, repetitions dropped. */
  function Dedup(s: seq<nat>): seq<nat>
  {
    if |s| == 0 then []
    else
      var d := Dedup(s[..|s| - 1]);
      var x := s[|s| - 1];
      if x in d then d else d + [x]
  }

  /** Deduplication keeps every element once and invents none. */
  lemma {:induction false} DedupContents(s: seq<nat>)
    ensures NoDup(Dedup(s))
    ensures forall x :: x in Dedup(s) <==> x in s
  {
    if |s| > 0 {
      var init, x := s[..|s| - 1], s[|s| - 1];
      DedupContents(init);
      assert s == init + [x];
      if x !in Dedup(init) {
        NoDupAppend(Dedup(init), x);
      }
    }
  }

  /** Deduplicating one more element appends it only if it is new. */
  lemma DedupSnoc(s: seq<nat>, x: nat)
    ensures Dedup(s + [x]) == if x in Dedup(s) then Dedup(s) else Dedup(s) + [x]
  {
    assert (s + [x])[..|s|] == s;
  }

  /** The deduplicated producers of node `i` (its input producers, then its
      extra producers), which the memory-aware scheduler calls `ups[i]`. */
  function Ups(nodes: seq<Node>, extra: seq<Dependency>, i: nat): seq<nat>
    requires i < |nodes|
  {
    Dedup(nodes[i].inputs + ExtraProducers(extra, i))
  }

  lemma UpsContents(nodes: seq<Node>, extra: seq<Dependency>, i: nat)
    requires WellFormed(nodes, extra) && i < |nodes|
    ensures NoDup(Ups(nodes, extra, i))
    ensures forall x :: x in Ups(nodes, extra, i) <==> x in nodes[i].inputs || (i, x) in extra
    ensures AllBelow(Ups(nodes, extra, i), |nodes|)
  {
    var u := Ups(nodes, extra, i);
    DedupContents(nodes[i].inputs + ExtraProducers(extra, i));
    ExtraProducersContents(extra, i);
    forall k | 0 <= k < |u| ensures u[k] < |nodes| {
      assert u[k] in u;
      if u[k] in nodes[i].inputs {
      } else {
        assert (i, u[k]) in extra;
      }
    }
  }
}
