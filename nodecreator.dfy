/** Node creation with an initial operand, and splitter nodes: a node
    inserted to gather some of the edges into or out of a node. */
module NodeCreator {
  import opened Operands
  import opened Graph

  /** The references to the listed slots. */
  function Refs(listed: seq<nat>): set<Ref> {
    set k | 0 <= k < |listed| :: At(listed[k])
  }

  lemma RefsOfPrefix(listed: seq<nat>, n: nat)
    requires n < |listed|
    ensures Refs(listed[..n + 1]) == Refs(listed[..n]) + {At(listed[n])}
  {
    var a, b := Refs(listed[..n + 1]), Refs(listed[..n]) + {At(listed[n])};
    forall r | r in a ensures r in b {
      var k :| 0 <= k < n + 1 && r == At(listed[..n + 1][k]);
      if k < n { assert r == At(listed[..n][k]); }
    }
    forall r | r in b ensures r in a {
      if r != At(listed[n]) {
        var k :| 0 <= k < n && r == At(listed[..n][k]);
        assert r == At(listed[..n + 1][k]);
      } else {
        assert r == At(listed[..n + 1][n]);
      }
    }
  }

  /** The loop of `createSplitterNodeBefore`: each listed incoming node in
      turn is disconnected from `index` and connected to `created`. */
  function RedirectIncomings(edges: set<(Ref, Ref)>, incomings: seq<nat>, index: nat, created: nat): set<(Ref, Ref)>
    decreases |incomings|
  {
    if incomings == [] then edges
    else
      var last := incomings[|incomings| - 1];
      var before := RedirectIncomings(edges, incomings[..|incomings| - 1], index, created);
      Connect(Disconnect(before, At(last), At(index)), At(last), At(created))
  }

  /** The loop of `createSplitterNodeAfter`: each listed outgoing node in
      turn loses its edge from `index` and gains one from `created`. */
  function RedirectOutgoings(edges: set<(Ref, Ref)>, outgoings: seq<nat>, index: nat, created: nat): set<(Ref, Ref)>
    decreases |outgoings|
  {
    if outgoings == [] then edges
    else
      var last := outgoings[|outgoings| - 1];
      var before := RedirectOutgoings(edges, outgoings[..|outgoings| - 1], index, created);
      Connect(Disconnect(before, At(index), At(last)), At(created), At(last))
  }

  /** Redirecting the incomings: a listed node keeps no edge to `index` and
      has one to `created`; every other edge is kept as it was. */
  lemma {:induction false} RedirectIncomingsEffect(edges: set<(Ref, Ref)>, incomings: seq<nat>, index: nat, created: nat)
    requires index != created
    ensures forall e :: e in RedirectIncomings(edges, incomings, index, created) <==>
      || (e in edges && !(e.0 in Refs(incomings) && e.1 == At(index)))
      || (e.0 in Refs(incomings) && e.1 == At(created))
    decreases |incomings|
  {
    if incomings != [] {
      var n := |incomings| - 1;
      RedirectIncomingsEffect(edges, incomings[..n], index, created);
      RefsOfPrefix(incomings, n);
      assert incomings[..n + 1] == incomings;
    }
  }

  /** Redirecting the outgoings: `index` keeps no edge to a listed node,
      `created` has one to each; every other edge is kept as it was. */
  lemma {:induction false} RedirectOutgoingsEffect(edges: set<(Ref, Ref)>, outgoings: seq<nat>, index: nat, created: nat)
    requires index != created
    ensures forall e :: e in RedirectOutgoings(edges, outgoings, index, created) <==>
      || (e in edges && !(e.0 == At(index) && e.1 in Refs(outgoings)))
      || (e.0 == At(created) && e.1 in Refs(outgoings))
    decreases |outgoings|
  {
    if outgoings != [] {
      var n := |outgoings| - 1;
      RedirectOutgoingsEffect(edges, outgoings[..n], index, created);
      RefsOfPrefix(outgoings, n);
      assert outgoings[..n + 1] == outgoings;
    }
  }

  /** `createNodeBefore(index, initial)`: a connectable node before `index`
      whose stack holds just `initial`. */
  method CreateNodeBeforeWith(g: NodeGraph, index: nat, initial: Operand) returns (created: nat)
    requires g.Valid() && index < g.size
    modifies g
    ensures g.Valid() && created == old(g.size) && g.size == old(g.size) + 1
    ensures g.connectable[created] && g.stacks == old(g.stacks) + [[initial]]
    ensures g.nodes == InsertAt(old(g.nodes), if index in old(g.nodes) then IndexOf(old(g.nodes), index) else 0, created)
    ensures (g.previous, g.next) == Links(old(g.previous) + [Null], old(g.next) + [Null], [old(g.previous[index]), At(created), At(index)])
    ensures g.destination == old(g.destination) + [Null] && g.edges == old(g.edges)
  {
    created := g.CreateNodeBefore(index, true);
    g.stacks := g.stacks[created := [initial]];
  }

  /** `createNodeAfter(index, initial)`: a connectable node after `index`
      whose stack holds just `initial`. */
  method CreateNodeAfterWith(g: NodeGraph, index: nat, initial: Operand) returns (created: nat)
    requires g.Valid() && index < g.size
    modifies g
    ensures g.Valid() && created == old(g.size) && g.size == old(g.size) + 1
    ensures g.connectable[created] && g.stacks == old(g.stacks) + [[initial]]
    ensures g.nodes == InsertAt(old(g.nodes), IndexOf(old(g.nodes), index) + 1, created)
    ensures (g.previous, g.next) == Links(old(g.previous) + [Null], old(g.next) + [Null], [At(index), At(created), old(g.next[index])])
    ensures g.destination == old(g.destination)[index := if old(g.destination[index]) == Null then At(created) else old(g.destination[index])] + [Null]
    ensures g.edges == old(g.edges)
  {
    created := g.CreateNodeAfter(index, true);
    g.stacks := g.stacks[created := [initial]];
  }

  /** `createSplitterNodeBefore(index, incomings)`: a splitter node before
      `index` that takes over the edges of the listed incoming nodes into
      `index`, and has an edge to `index` itself. */
  method CreateSplitterNodeBefore(g: NodeGraph, index: nat, incomings: seq<nat>) returns (created: nat)
    requires g.Valid() && index < g.size && AllBelow(incomings, g.size)
    modifies g
    ensures g.Valid() && created == old(g.size) && g.size == old(g.size) + 1 && !g.connectable[created]
    ensures g.additionalCall == old(g.additionalCall) + [0]
    ensures g.nodes == InsertAt(old(g.nodes), if index in old(g.nodes) then IndexOf(old(g.nodes), index) else 0, created)
    ensures (g.previous, g.next) == Links(old(g.previous) + [Null], old(g.next) + [Null], [old(g.previous[index]), At(created), At(index)])
    ensures g.edges == Connect(RedirectIncomings(old(g.edges), incomings, index, created), At(created), At(index))
    ensures forall i :: i in incomings ==> (At(i), At(index)) !in g.edges && (At(i), At(created)) in g.edges
    ensures (At(created), At(index)) in g.edges
    ensures forall e :: e in old(g.edges) && !(e.0 in Refs(incomings) && e.1 == At(index)) ==> e in g.edges
  {
    created := g.CreateNodeBefore(index, false);
    ghost var edges0, nodes1, previous1, next1 := g.edges, g.nodes, g.previous, g.next;
    var k := 0;
    while k < |incomings|
      invariant 0 <= k <= |incomings| && g.Valid() && created == old(g.size) && g.size == old(g.size) + 1
      invariant g.edges == RedirectIncomings(edges0, incomings[..k], index, created)
      invariant !g.connectable[created]
      invariant g.additionalCall == old(g.additionalCall) + [0]
      invariant g.nodes == nodes1 && g.previous == previous1 && g.next == next1
    {
      var incoming := incomings[k];
      g.edges := Disconnect(g.edges, At(incoming), At(index));
      g.edges := Connect(g.edges, At(incoming), At(created));
      assert incomings[..k + 1][..k] == incomings[..k];
      k := k + 1;
    }
    assert incomings[..k] == incomings;
    g.edges := Connect(g.edges, At(created), At(index));
    RedirectIncomingsEffect(edges0, incomings, index, created);
    forall i | i in incomings ensures At(i) in Refs(incomings) {
      var j :| 0 <= j < |incomings| && incomings[j] == i;
      assert i < created;
    }
  }

  /** `createSplitterNodeAfter(index, outgoings)`: a splitter node, created
      before `index` in appearance order, that takes over the edges from
      `index` to the listed outgoing nodes; `index` gets an edge to it. */
  method CreateSplitterNodeAfter(g: NodeGraph, index: nat, outgoings: seq<nat>) returns (created: nat)
    requires g.Valid() && index < g.size && AllBelow(outgoings, g.size)
    modifies g
    ensures g.Valid() && created == old(g.size) && g.size == old(g.size) + 1 && !g.connectable[created]
    ensures g.nodes == InsertAt(old(g.nodes), if index in old(g.nodes) then IndexOf(old(g.nodes), index) else 0, created)
    ensures (g.previous, g.next) == Links(old(g.previous) + [Null], old(g.next) + [Null], [old(g.previous[index]), At(created), At(index)])
    ensures g.edges == Connect(RedirectOutgoings(old(g.edges), outgoings, index, created), At(index), At(created))
    ensures forall o :: o in outgoings ==> (At(created), At(o)) in g.edges
    ensures forall o :: o in outgoings ==> (At(index), At(o)) !in g.edges
    ensures (At(index), At(created)) in g.edges
    ensures forall e :: e in old(g.edges) && !(e.0 == At(index) && e.1 in Refs(outgoings)) ==> e in g.edges
  {
    created := g.CreateNodeBefore(index, false);
    ghost var edges0, nodes1, previous1, next1 := g.edges, g.nodes, g.previous, g.next;
    var k := 0;
    while k < |outgoings|
      invariant 0 <= k <= |outgoings| && g.Valid() && created == old(g.size) && g.size == old(g.size) + 1
      invariant g.edges == RedirectOutgoings(edges0, outgoings[..k], index, created)
      invariant !g.connectable[created]
      invariant g.nodes == nodes1 && g.previous == previous1 && g.next == next1
    {
      var outgoing := outgoings[k];
      g.edges := Disconnect(g.edges, At(index), At(outgoing));
      g.edges := Connect(g.edges, At(created), At(outgoing));
      assert outgoings[..k + 1][..k] == outgoings[..k];
      k := k + 1;
    }
    assert outgoings[..k] == outgoings;
    g.edges := Connect(g.edges, At(index), At(created));
    RedirectOutgoingsEffect(edges0, outgoings, index, created);
    forall o | o in outgoings ensures At(o) in Refs(outgoings) {
      var j :| 0 <= j < |outgoings| && outgoings[j] == o;
      assert o < created;
    }
  }
}
