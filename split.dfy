/** The split of a node whose stack mixes conditions with other operands:
    the part that is not the run of conditions moves to a new node created
    after it, together with the edges that part is responsible for. */
module Splitter {
  import opened Wrappers
  import opened Operands
  import opened Graph
  import opened Conditions
  import opened Merger

  // ---------------------------------------------------------------------
  // Moving edges from one node to another
  // ---------------------------------------------------------------------

  /** The nodes the conditions jump to, either way. */
  function Targets(cs: seq<Condition>): set<Ref> {
    (set k | 0 <= k < |cs| :: cs[k].thenNode) + (set k | 0 <= k < |cs| :: cs[k].elzeNode)
  }

  /** The nodes the conditions jump to when they hold. */
  function Thens(cs: seq<Condition>): set<Ref> {
    set k | 0 <= k < |cs| :: cs[k].thenNode
  }

  lemma TargetsOfPrefix(cs: seq<Condition>, n: nat)
    requires n < |cs|
    ensures Targets(cs[..n + 1]) == Targets(cs[..n]) + {cs[n].thenNode, cs[n].elzeNode}
  {
    var a, b := Targets(cs[..n + 1]), Targets(cs[..n]) + {cs[n].thenNode, cs[n].elzeNode};
    forall r | r in a ensures r in b {
      var k :| 0 <= k < n + 1 && (r == cs[..n + 1][k].thenNode || r == cs[..n + 1][k].elzeNode);
      if k < n {
        assert cs[..n + 1][k] == cs[..n][k];
      }
    }
    forall r | r in b ensures r in a {
      if r == cs[n].thenNode || r == cs[n].elzeNode {
        assert cs[..n + 1][n] == cs[n];
      } else {
        var k :| 0 <= k < n && (r == cs[..n][k].thenNode || r == cs[..n][k].elzeNode);
        assert cs[..n + 1][k] == cs[..n][k];
      }
    }
  }

  /** The edges after every edge from `from` to a node of `moved` has been
      replaced by an edge from `to` to the same node (a null node gets no
      edge). */
  function MoveEdges(edges: set<(Ref, Ref)>, from: Ref, to: Ref, moved: set<Ref>): (r: set<(Ref, Ref)>)
    requires to != Null
  {
    (set e | e in edges && !(e.0 == from && e.1 in moved)) + (set t | t in moved && t != Null :: (to, t))
  }

  /** The edges kept and the edges gained by a move. */
  lemma MoveEdgesMembers(edges: set<(Ref, Ref)>, from: Ref, to: Ref, moved: set<Ref>)
    requires to != Null
    ensures forall e :: e in MoveEdges(edges, from, to, moved) <==>
      || (e in edges && !(e.0 == from && e.1 in moved))
      || (e.0 == to && e.1 in moved && e.1 != Null)
  {
  }

  /** One more moved node is one more disconnection and connection. */
  lemma MoveOneMore(edges: set<(Ref, Ref)>, from: Ref, to: Ref, moved: set<Ref>, t: Ref)
    requires to != Null && from != to
    ensures MoveEdges(edges, from, to, moved + {t}) ==
      Connect(Disconnect(MoveEdges(edges, from, to, moved), from, t), to, t)
  {
    var a, b := MoveEdges(edges, from, to, moved + {t}), Connect(Disconnect(MoveEdges(edges, from, to, moved), from, t), to, t);
    MoveEdgesMembers(edges, from, to, moved + {t});
    MoveEdgesMembers(edges, from, to, moved);
    assert forall e :: e in a <==> e in b;
  }

  /** The edge loop of the conditional-tail split, in the order of the
      source: for each condition, `from` loses its edges to the condition's
      two targets and `to` gains them. */
  function MoveConditionEdges(edges: set<(Ref, Ref)>, from: nat, to: nat, cs: seq<Condition>): set<(Ref, Ref)>
    decreases |cs|
  {
    if cs == [] then edges
    else
      var c := cs[|cs| - 1];
      var before := MoveConditionEdges(edges, from, to, cs[..|cs| - 1]);
      Connect(Connect(Disconnect(Disconnect(before, At(from), c.thenNode), At(from), c.elzeNode),
                      At(to), c.thenNode), At(to), c.elzeNode)
  }

  /** The order of the conditions does not matter: the loop moves exactly
      the edges to their targets. */
  lemma {:induction false} MoveConditionEdgesMoves(edges: set<(Ref, Ref)>, from: nat, to: nat, cs: seq<Condition>)
    requires from != to
    ensures MoveConditionEdges(edges, from, to, cs) == MoveEdges(edges, At(from), At(to), Targets(cs))
    decreases |cs|
  {
    if cs == [] {
      assert MoveEdges(edges, At(from), At(to), {}) == edges;
    } else {
      var n := |cs| - 1;
      var c := cs[n];
      var moved := Targets(cs[..n]);
      var F, T, a, b := At(from), At(to), c.thenNode, c.elzeNode;
      var m0 := MoveEdges(edges, F, T, moved);
      calc {
        MoveConditionEdges(edges, from, to, cs);
        Connect(Connect(Disconnect(Disconnect(MoveConditionEdges(edges, from, to, cs[..n]), F, a), F, b), T, a), T, b);
        { MoveConditionEdgesMoves(edges, from, to, cs[..n]); }
        Connect(Connect(Disconnect(Disconnect(m0, F, a), F, b), T, a), T, b);
        { SwapConnectDisconnect(Disconnect(m0, F, a), T, a, F, b); }
        Connect(Disconnect(Connect(Disconnect(m0, F, a), T, a), F, b), T, b);
        { MoveOneMore(edges, F, T, moved, a); }
        Connect(Disconnect(MoveEdges(edges, F, T, moved + {a}), F, b), T, b);
        { MoveOneMore(edges, F, T, moved + {a}, b); }
        MoveEdges(edges, F, T, moved + {a} + {b});
        { TargetsOfPrefix(cs, n); assert cs[..n + 1] == cs; }
        MoveEdges(edges, F, T, Targets(cs));
      }
    }
  }

  /** Connecting from one node and disconnecting from another commute. */
  lemma SwapConnectDisconnect(edges: set<(Ref, Ref)>, to: Ref, a: Ref, from: Ref, b: Ref)
    requires to != from
    ensures Connect(Disconnect(edges, from, b), to, a) == Disconnect(Connect(edges, to, a), from, b)
  {
  }

  // ---------------------------------------------------------------------
  // The split
  // ---------------------------------------------------------------------

  /** The stacks and edges after the conditional-tail split of node `base`
      whose stack `s` has a run of `count` conditions on top: `created`
      takes the run, `base` keeps the rest, the edges to the run's targets
      move from `base` to `created`, and `base` gets an edge to `created`. */
  ghost predicate TailSplit(s: seq<Operand>, count: nat, base: nat, created: nat,
                            stacks0: seq<seq<Operand>>, edges0: set<(Ref, Ref)>,
                            stacks: seq<seq<Operand>>, edges: set<(Ref, Ref)>)
  {
    && count <= |s| && base < |stacks0|
    && (forall k :: 0 <= k < count ==> s[k].Cond?)
    && stacks == stacks0[base := s[count..]] + [s[..count]]
    && edges == Connect(MoveEdges(edges0, At(base), At(created), Targets(CondsIn(s, 0, count))), At(base), At(created))
  }

  /** The stacks and edges after the conditional-head split of node `base`
      whose stack `s` has `start` operands above its run of conditions
      `run`: `created` takes those operands, the edges of `base` that no
      condition of the run jumps to when it holds move to `created`, `base`
      gets an edge to `created` and `created` one to `destination`, where
      `base` went before. */
  ghost predicate HeadSplit(s: seq<Operand>, start: nat, run: seq<Condition>, base: nat, created: nat, destination: Ref,
                            stacks0: seq<seq<Operand>>, edges0: set<(Ref, Ref)>,
                            stacks: seq<seq<Operand>>, edges: set<(Ref, Ref)>)
  {
    && start <= |s| && base < |stacks0|
    && stacks == stacks0[base := s[start..]] + [s[..start]]
    && edges == Connect(Connect(MoveEdges(edges0, At(base), At(created), Outgoing(edges0, At(base)) - Thens(run)),
                                At(base), At(created)),
                        At(created), destination)
  }

  /** The conditional-tail split: the stack is `[non-condition] [condition]`
      with the run on top. The created node takes the `count` conditions,
      in their order, with their edges; the base node keeps the rest and
      gets an edge to the created node. */
  method SplitTail(g: NodeGraph, base: nat, count: nat) returns (created: nat)
    requires g.Valid() && base < g.size && 0 < count < |g.stacks[base]|
    requires forall k :: 0 <= k < count ==> g.stacks[base][k].Cond?
    modifies g
    ensures g.Valid() && created == old(g.size) && g.size == old(g.size) + 1
    ensures TailSplit(old(g.stacks[base]), count, base, created,
                      old(g.stacks), old(g.edges), g.stacks, g.edges)
    ensures g.nodes == InsertAt(old(g.nodes), IndexOf(old(g.nodes), base) + 1, created)
    ensures (g.previous, g.next) == Links(old(g.previous) + [Null], old(g.next) + [Null], [At(base), At(created), old(g.next[base])])
    ensures g.destination == old(g.destination)[base := if old(g.destination[base]) == Null then At(created) else old(g.destination[base])] + [Null]
  {
    var remaining, moved, edges := MoveConditions(g.stacks[base], count, g.edges, base, g.size);
    edges := Connect(edges, At(base), At(g.size));
    var stacks := g.stacks[base := remaining] + [moved];
    assert TailSplit(g.stacks[base], count, base, g.size, g.stacks, g.edges, stacks, edges);
    created := g.CreateNodeAfter(base, true);
    Install(g, stacks, edges);
  }

  /** Replaces the stacks and the edges of the graph, leaving the rest. */
  method Install(g: NodeGraph, stacks: seq<seq<Operand>>, edges: set<(Ref, Ref)>)
    requires g.Valid() && |stacks| == g.size
    modifies g`stacks, g`edges
    ensures g.Valid() && g.stacks == stacks && g.edges == edges
  {
    g.stacks, g.edges := stacks, edges;
  }

  /** The loop of the conditional-tail split: the `count` conditions on top
      of `s` are taken off one by one, the top one first, and appended below
      those already moved; each moves its two edges from `base` to
      `created`. */
  method MoveConditions(s: seq<Operand>, count: nat, edges: set<(Ref, Ref)>, base: nat, created: nat)
    returns (remaining: seq<Operand>, moved: seq<Operand>, edges': set<(Ref, Ref)>)
    requires count <= |s| && base != created
    requires forall k :: 0 <= k < count ==> s[k].Cond?
    ensures remaining == s[count..] && moved == s[..count]
    ensures edges' == MoveEdges(edges, At(base), At(created), Targets(CondsIn(s, 0, count)))
  {
    ghost var run := CondsIn(s, 0, count);
    remaining, moved, edges' := s, [], edges;
    var i := 0;
    while i < count
      invariant 0 <= i <= count && remaining == s[i..] && moved == s[..i]
      invariant edges' == MoveConditionEdges(edges, base, created, run[..i])
    {
      var condition := remaining[0].c;
      assert condition == run[i];
      remaining := remaining[1..];
      edges' := Disconnect(edges', At(base), condition.thenNode);
      edges' := Disconnect(edges', At(base), condition.elzeNode);
      edges' := Connect(edges', At(created), condition.thenNode);
      edges' := Connect(edges', At(created), condition.elzeNode);
      moved := moved + [Cond(condition)];
      assert s[i..][1..] == s[i + 1..] && s[..i] + [s[i]] == s[..i + 1];
      assert run[..i + 1][..i] == run[..i];
      i := i + 1;
    }
    assert run[..count] == run;
    MoveConditionEdgesMoves(edges, base, created, run);
  }

  /** The conditional-head split: the stack is `[condition] [non-condition]`
      with the run at the bottom. The created node takes the `start`
      operands above the run; every edge of the base node that no condition
      of the run jumps to when it holds moves to the created node; the base
      node gets an edge to the created node, and the created node one to
      where the base node went before the split. A base node without
      destination gives no such edge, so the created node never gets an
      edge to itself. */
  method SplitHead(g: NodeGraph, base: nat, start: nat, run: seq<Condition>) returns (created: nat)
    requires g.Valid() && base < g.size && 0 < start <= |g.stacks[base]|
    requires EdgesWithin(g.edges, g.size) && Within(g.destination[base], g.size)
    modifies g
    ensures g.Valid() && created == old(g.size) && g.size == old(g.size) + 1
    ensures HeadSplit(old(g.stacks[base]), start, run, base, created, old(g.destination[base]),
                      old(g.stacks), old(g.edges), g.stacks, g.edges)
    ensures (At(created), At(created)) !in g.edges
    ensures g.nodes == InsertAt(old(g.nodes), IndexOf(old(g.nodes), base) + 1, created)
    ensures (g.previous, g.next) == Links(old(g.previous) + [Null], old(g.next) + [Null], [At(base), At(created), old(g.next[base])])
    ensures g.destination == old(g.destination)[base := if old(g.destination[base]) == Null then At(created) else old(g.destination[base])] + [Null]
  {
    ghost var edges0 := g.edges;
    var next := g.destination[base];
    var moved, remaining := CutStack(g.stacks[base], start);
    var transitions := Outgoing(g.edges, At(base)) - Thens(run);
    created := g.CreateNodeAfter(base, true);
    var edges := MoveTransitions(g.edges, base, created, transitions);
    edges := Connect(edges, At(base), At(created));
    edges := Connect(edges, At(created), next);
    HeadSplitNoSelfEdge(edges0, base, created, run, next);
    g.stacks := g.stacks[base := remaining][created := moved];
    g.edges := edges;
  }

  /** The conditional-head split in the order the source performs it: the
      created node is connected, last, to the destination of the base node
      as it stands after `createNodeAfter`, or to its own destination when
      that is null. `createNodeAfter` has already made the created node the
      destination of a base node that had none, so such a split connects the
      created node to itself. A base node with a destination is split exactly
      as by `SplitHead`. */
  method AsWrittenSplitHead(g: NodeGraph, base: nat, start: nat, run: seq<Condition>) returns (created: nat)
    requires g.Valid() && base < g.size && 0 < start <= |g.stacks[base]|
    modifies g
    ensures g.Valid() && created == old(g.size) && g.size == old(g.size) + 1
    ensures old(g.destination[base]) == Null ==> (At(created), At(created)) in g.edges
    ensures old(g.destination[base]) != Null ==>
      HeadSplit(old(g.stacks[base]), start, run, base, created, old(g.destination[base]),
                old(g.stacks), old(g.edges), g.stacks, g.edges)
  {
    var moved, remaining := CutStack(g.stacks[base], start);
    var transitions := Outgoing(g.edges, At(base)) - Thens(run);
    created := g.CreateNodeAfter(base, true);
    var edges := MoveTransitions(g.edges, base, created, transitions);
    edges := Connect(edges, At(base), At(created));
    var baseDestination, createdDestination := g.destination[base], g.destination[created];
    edges := Connect(edges, At(created), if baseDestination == Null then createdDestination else baseDestination);
    g.stacks := g.stacks[base := remaining][created := moved];
    g.edges := edges;
  }

  /** The operand loop of the conditional-head split: the `start` operands
      on top of `s` are taken off one by one and appended below those
      already moved. */
  method CutStack(s: seq<Operand>, start: nat) returns (moved: seq<Operand>, remaining: seq<Operand>)
    requires start <= |s|
    ensures moved == s[..start] && remaining == s[start..]
  {
    remaining, moved := s, [];
    var i := 0;
    while i < start
      invariant 0 <= i <= start && remaining == s[i..] && moved == s[..i]
    {
      moved := moved + [remaining[0]];
      remaining := remaining[1..];
      assert s[i..][1..] == s[i + 1..] && s[..i] + [s[i]] == s[..i + 1];
      i := i + 1;
    }
  }

  /** The created node of a conditional-head split gets no edge to itself
      when every edge and the destination stay among the older nodes. */
  lemma HeadSplitNoSelfEdge(edges0: set<(Ref, Ref)>, base: nat, created: nat, run: seq<Condition>, next: Ref)
    requires EdgesWithin(edges0, created) && Within(next, created) && base < created
    ensures (At(created), At(created)) !in
      Connect(Connect(MoveEdges(edges0, At(base), At(created), Outgoing(edges0, At(base)) - Thens(run)),
                      At(base), At(created)),
              At(created), next)
  {
    var transitions := Outgoing(edges0, At(base)) - Thens(run);
    MoveEdgesMembers(edges0, At(base), At(created), transitions);
    assert forall t :: t in transitions ==> Within(t, created);
  }

  /** The transition loop of the conditional-head split: each transition in
      turn loses its edge from `base` and gains one from `created`. */
  method MoveTransitions(edges: set<(Ref, Ref)>, base: nat, created: nat, transitions: set<Ref>)
    returns (edges': set<(Ref, Ref)>)
    requires base != created
    ensures edges' == MoveEdges(edges, At(base), At(created), transitions)
  {
    edges' := edges;
    var pending := transitions;
    while pending != {}
      invariant pending <= transitions
      invariant edges' == MoveEdges(edges, At(base), At(created), transitions - pending)
      decreases pending
    {
      var transition :| transition in pending;
      MoveOneMore(edges, At(base), At(created), transitions - pending, transition);
      edges' := Disconnect(edges', At(base), transition);
      edges' := Connect(edges', At(created), transition);
      assert transitions - (pending - {transition}) == (transitions - pending) + {transition};
      pending := pending - {transition};
    }
    assert transitions - pending == transitions;
  }

  /** `split()` of the condition search of node `base`: the search runs
      first (with its `elze` fix); a node whose stack is neither free of
      conditions nor all conditions is split when its run of conditions is
      on top (conditional tail) or at the bottom (conditional head). A node
      with its run in the middle is left as the search left it. */
  method Split(g: NodeGraph, base: nat) returns (info: ConditionInfo, created: Option<nat>)
    requires g.Valid() && base < g.size
    requires EdgesWithin(g.edges, g.size) && Within(g.destination[base], g.size)
    modifies g
    ensures g.Valid()
    ensures info == Info(old(g.stacks[base]))
    ensures var s := FixFirstElze(old(g.stacks[base]), old(g.destination[base]));
      && (created.Some? <==> 0 < info.count < |s| && (info.conditionalTail || info.conditionalHead))
      && (created.None? ==>
            && g.stacks == old(g.stacks)[base := s] && g.size == old(g.size)
            && g.edges == old(g.edges) && g.nodes == old(g.nodes) && g.destination == old(g.destination))
      && (created.Some? ==> created.value == old(g.size) && g.size == old(g.size) + 1)
      && (created.Some? && info.conditionalTail ==>
            TailSplit(s, info.count, base, created.value,
                      old(g.stacks)[base := s], old(g.edges), g.stacks, g.edges))
      && (created.Some? && !info.conditionalTail ==>
            && info.conditionalHead
            && HeadSplit(s, info.start, CondsIn(s, info.start, info.count), base, created.value, old(g.destination[base]),
                         old(g.stacks)[base := s], old(g.edges), g.stacks, g.edges)
            && (At(created.value), At(created.value)) !in g.edges)
  {
    var fixed;
    info, fixed := ScanConditions(g.stacks[base], g.destination[base]);
    g.stacks := g.stacks[base := fixed];
    if info.count != 0 && info.count != |fixed| {
      if info.conditionalTail {
        var c := SplitTail(g, base, info.count);
        return info, Some(c);
      } else if info.conditionalHead {
        var c := SplitHead(g, base, info.start, CondsIn(fixed, info.start, info.count));
        return info, Some(c);
      }
    }
    created := None;
  }
}
