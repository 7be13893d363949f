/** The method decompiler: the visitor that records each instruction in the
    window, keeps the current node, opens a node per label, simulates the
    operand stack for the instructions it handles, disposes emptied nodes
    and merges conditions as nodes are completed. */
module Decompiler {
  import opened Wrappers
  import opened Opcodes
  import opened Operands
  import opened Window
  import opened Graph
  import opened Conditions
  import opened Merger
  import opened StackRules
  import opened Util

  // ---------------------------------------------------------------------
  // Facts about disposal used by the decompiler
  // ---------------------------------------------------------------------

  /** Two families of stacks that agree on everything but condition targets. */
  predicate AllSameShape(a: seq<seq<Operand>>, b: seq<seq<Operand>>) {
    |a| == |b| && forall k :: 0 <= k < |a| ==> SameShape(a[k], b[k])
  }

  lemma AllSameShapeTransitive(a: seq<seq<Operand>>, b: seq<seq<Operand>>, c: seq<seq<Operand>>)
    requires AllSameShape(a, b) && AllSameShape(b, c)
    ensures AllSameShape(a, c)
  {
    forall k | 0 <= k < |a| ensures SameShape(a[k], c[k]) {
      SameShapeTransitive(a[k], b[k], c[k]);
    }
  }

  /** Stacking two pairs of same-shaped stacks gives same-shaped stacks. */
  lemma SameShapeConcat(x: seq<Operand>, y: seq<Operand>, x': seq<Operand>, y': seq<Operand>)
    requires SameShape(x, x') && SameShape(y, y')
    ensures SameShape(x + y, x' + y')
  {
    forall k | 0 <= k < |x + y|
      ensures if (x + y)[k].Cond? then (x' + y')[k].Cond? && (x' + y')[k].c.test == (x + y)[k].c.test
              else (x' + y')[k] == (x + y)[k]
    {
      if k >= |x| {
        assert (x + y)[k] == y[k - |x|] && (x' + y')[k] == y'[k - |x|];
      }
    }
  }

  /** The transfer of disposal moves same-shaped stacks to same-shaped
      stacks. */
  lemma TransferKeepsShapes(a: seq<seq<Operand>>, b: seq<seq<Operand>>, t: nat, prev: Ref, clearStack: bool)
    requires AllSameShape(a, b) && t < |a| && (prev.At? ==> prev.id < |a|)
    ensures AllSameShape(TransferStack(a, t, prev, clearStack), TransferStack(b, t, prev, clearStack))
  {
    var ta, tb := TransferStack(a, t, prev, clearStack), TransferStack(b, t, prev, clearStack);
    forall k | 0 <= k < |a| ensures SameShape(ta[k], tb[k]) {
      if k != t && !clearStack && prev == At(k) {
        SameShapeConcat(a[t], a[k], b[t], b[k]);
      }
    }
  }

  /** Retargeting the predecessors of a disposed node keeps every shape. */
  lemma RetargetKeepsShapes(stacks: seq<seq<Operand>>, ins: set<Ref>, t: nat, d: Ref)
    ensures AllSameShape(stacks, RetargetStacks(stacks, ins, t, d))
  {
  }

  /** Disposing a node whose stack is empty moves no operand. */
  lemma TransferOfEmpty(stacks: seq<seq<Operand>>, t: nat, prev: Ref, clearStack: bool)
    requires t < |stacks| && stacks[t] == [] && (prev.At? ==> prev.id < |stacks|)
    ensures TransferStack(stacks, t, prev, clearStack) == stacks
  {
    var r := TransferStack(stacks, t, prev, clearStack);
    forall k | 0 <= k < |stacks| ensures r[k] == stacks[k] {
      if k != t && !clearStack && prev == At(k) {
        assert stacks[t] + stacks[k] == stacks[k];
      }
    }
  }

  /** No edge starts or ends at `r`. */
  predicate NoEdgeAt(edges: set<(Ref, Ref)>, r: Ref) {
    forall e :: e in edges ==> e.0 != r && e.1 != r
  }

  /** Disposal isolates the disposed node and connects no node that had no
      edge. */
  lemma BypassIsolates(edges: set<(Ref, Ref)>, t: Ref)
    ensures NoEdgeAt(Bypass(edges, t), t)
    ensures forall r :: NoEdgeAt(edges, r) ==> NoEdgeAt(Bypass(edges, t), r)
  {
    BypassSound(edges, t);
  }

  /** Whether `r` is a node of the list. */
  predicate Listed(r: Ref, nodes: seq<nat>) {
    r.At? && r.id in nodes
  }

  // ---------------------------------------------------------------------
  // The arena as a value: what disposal, merging and entering a node do
  // ---------------------------------------------------------------------

  /** The part of the decompiler's state that disposal, merging and the
      entry of a node change: the list of nodes, the links, the edges, the
      destinations, the stacks and the current node. */
  datatype Arena = Arena(nodes: seq<nat>, previous: seq<Ref>, next: seq<Ref>, edges: set<(Ref, Ref)>,
                         destination: seq<Ref>, stacks: seq<seq<Operand>>, current: Ref)

  /** One slot per node in every per-node sequence, a list of distinct
      allocated nodes, and links that stay among the slots. */
  ghost predicate ArenaOk(a: Arena) {
    && |a.next| == |a.previous| && |a.destination| == |a.previous| && |a.stacks| == |a.previous|
    && AllBelow(a.nodes, |a.previous|) && Distinct(a.nodes)
    && (forall n :: 0 <= n < |a.previous| ==> LinkOk(a.previous[n], |a.previous|) && LinkOk(a.next[n], |a.previous|))
  }

  /** The first step of `dispose(t, clearStack, recursive)`: `t` leaves the
      list of nodes, its neighbours are linked, its edges are bypassed, the
      conditions and destinations of its predecessors that jumped to it jump
      to its destination, its operands move to its previous node (or are
      dropped), and the current node moves back when it was `t`. The stack of
      `t` ends up empty and no edge is left at it. */
  function DisposeStep(a: Arena, t: nat, clearStack: bool): (r: Arena)
    requires ArenaOk(a) && t < |a.previous|
    ensures |r.previous| == |a.previous| && |r.stacks| == |a.stacks| && r.stacks[t] == []
    ensures NoEdgeAt(r.edges, At(t))
    ensures r.current == (if a.current == At(t) then a.previous[t] else a.current)
  {
    var ins := Incoming(a.edges, At(t));
    var links := Links(a.previous, a.next, [a.previous[t], a.next[t]]);
    BypassIsolates(a.edges, At(t));
    Arena(RemoveFirst(a.nodes, t), links.0, links.1, Bypass(a.edges, At(t)),
          RetargetDestinations(a.destination, ins, t, a.destination[t]),
          TransferStack(RetargetStacks(a.stacks, ins, t, a.destination[t]), t, a.previous[t], clearStack),
          if a.current == At(t) then a.previous[t] else a.current)
  }

  /** Disposing a listed node keeps the arena well formed, removes exactly
      that node from the list, moves no operand other than its own, and
      leaves without edges every node that had none. */
  lemma DisposeStepOk(a: Arena, t: nat, clearStack: bool)
    requires ArenaOk(a) && t in a.nodes
    ensures t < |a.previous|
    ensures var r := DisposeStep(a, t, clearStack);
      && ArenaOk(r) && |r.nodes| == |a.nodes| - 1
      && (forall y :: y in r.nodes <==> y in a.nodes && y != t)
      && AllSameShape(TransferStack(a.stacks, t, a.previous[t], clearStack), r.stacks)
      && (forall x :: NoEdgeAt(a.edges, x) ==> NoEdgeAt(r.edges, x))
  {
    var r := DisposeStep(a, t, clearStack);
    var size := |a.previous|;
    RemoveFirstOfDistinct(a.nodes, t, size);
    LinksTwo(a.previous, a.next, a.previous[t], a.next[t]);
    forall n | 0 <= n < size ensures LinkOk(r.previous[n], size) && LinkOk(r.next[n], size) {
      assert LinkOk(a.previous[n], size) && LinkOk(a.next[n], size);
    }
    var ins := Incoming(a.edges, At(t));
    RetargetKeepsShapes(a.stacks, ins, t, a.destination[t]);
    TransferKeepsShapes(a.stacks, RetargetStacks(a.stacks, ins, t, a.destination[t]), t, a.previous[t], clearStack);
    BypassIsolates(a.edges, At(t));
  }

  /** The whole of `dispose(t, clearStack, recursive)`: an unlisted `t`
      changes nothing; otherwise `t` is disposed, and when `recursive` and
      the previous node of `t` is left with an empty stack, that node is
      disposed the same way. */
  function DisposeChain(a: Arena, t: Ref, clearStack: bool, recursive: bool): (r: Arena)
    requires ArenaOk(a) && LinkOk(t, |a.previous|)
    ensures ArenaOk(r) && |r.previous| == |a.previous|
    ensures forall y :: y in r.nodes ==> y in a.nodes
    ensures Listed(t, a.nodes) ==> t.id !in r.nodes && |r.nodes| < |a.nodes|
    decreases |a.nodes|
  {
    if !Listed(t, a.nodes) then a
    else
      DisposeStepOk(a, t.id, clearStack);
      var b := DisposeStep(a, t.id, clearStack);
      var before := a.previous[t.id];
      if recursive && before.At? && b.stacks[before.id] == [] then DisposeChain(b, before, clearStack, recursive)
      else b
  }

  /** Disposal moves the operands of the disposed node and no others: the
      recursive part only disposes nodes whose stacks are empty. The disposed
      node ends up with an empty stack and no edge, and no node without edges
      gains one. */
  lemma {:induction false} DisposeChainMovesOnlyTarget(a: Arena, t: Ref, clearStack: bool, recursive: bool)
    requires ArenaOk(a) && Listed(t, a.nodes)
    ensures t.id < |a.previous|
    ensures var r := DisposeChain(a, t, clearStack, recursive);
      && AllSameShape(TransferStack(a.stacks, t.id, a.previous[t.id], clearStack), r.stacks)
      && r.stacks[t.id] == [] && NoEdgeAt(r.edges, t)
      && (forall x :: NoEdgeAt(a.edges, x) ==> NoEdgeAt(r.edges, x))
    decreases |a.nodes|
  {
    DisposeStepOk(a, t.id, clearStack);
    var b := DisposeStep(a, t.id, clearStack);
    var before := a.previous[t.id];
    if recursive && before.At? && b.stacks[before.id] == [] && Listed(before, b.nodes) {
      DisposeChainMovesOnlyTarget(b, before, clearStack, recursive);
      TransferOfEmpty(b.stacks, before.id, b.previous[before.id], clearStack);
      var r := DisposeChain(b, before, clearStack, recursive);
      AllSameShapeTransitive(TransferStack(a.stacks, t.id, before, clearStack), b.stacks, r.stacks);
    }
  }

  /** The stack of a node after `merge` within the node, and the condition
      the merge loop ends with as `right`: the stack as the search's `elze`
      fix leaves it with its run of conditions folded. */
  ghost function MergeIn(s: seq<Operand>, destination: Ref): (seq<Operand>, Option<Condition>) {
    var info := Info(s);
    var fixed := FixFirstElze(s, destination);
    if info.count == 0 then (s, None)
    else
      FixKeepsRun(s, destination);
      var run := CondsIn(fixed, info.start, info.count);
      var merged := Fold(run[0], run[1..]);
      (Layout(fixed[..info.start], merged, fixed[info.start + info.count..]), Some(merged[|merged| - 1]))
  }

  /** `MergeIn` is what `MergeStack` computes. */
  lemma MergeInIsMergeStack(s: seq<Operand>, destination: Ref)
    ensures var info, fixed := Info(s), FixFirstElze(s, destination);
      && (info.count == 0 ==> MergeIn(s, destination) == (s, None))
      && (info.count > 0 ==>
            && (forall k :: info.start <= k < info.start + info.count ==> fixed[k].Cond?)
            && var run := CondsIn(fixed, info.start, info.count);
               var merged := Fold(run[0], run[1..]);
               MergeIn(s, destination) == (Layout(fixed[..info.start], merged, fixed[info.start + info.count..]), Some(merged[|merged| - 1])))
  {
    if Info(s).count > 0 {
      FixKeepsRun(s, destination);
    }
  }

  /** The test of `merge` across nodes: the node `id` starts with its run of
      conditions, and its previous node ends with a condition that can merge
      with `right` and whose `elze` node is `id`. */
  predicate CrossMerges(a: Arena, id: nat, info: ConditionInfo, right: Condition)
    requires ArenaOk(a) && id < |a.previous|
  {
    var before := a.previous[id];
    && info.conditionalHead && before.At? && a.stacks[before.id] != [] && a.stacks[before.id][0].Cond?
    && CanMerge(a.stacks[before.id][0].c, right) && a.stacks[before.id][0].c.elzeNode == At(id)
  }

  /** When the cross-node test holds for a listed node, disposing it puts
      its stack on top of its previous node's stack, with at most the
      targets of its conditions changed: the run of conditions the node
      starts with comes right above the condition its previous node ends
      with, where the merge of the previous node finds them together. */
  lemma CrossMergeStacks(a: Arena, id: nat, info: ConditionInfo, right: Condition)
    requires ArenaOk(a) && id < |a.previous| && id in a.nodes && a.previous[id] != At(id)
    requires CrossMerges(a, id, info, right)
    ensures var p := a.previous[id].id;
      && a.stacks[p][0].Cond? && a.stacks[p][0].c.elzeNode == At(id)
      && SameShape(a.stacks[id] + a.stacks[p], DisposeChain(a, At(id), false, true).stacks[p])
  {
    DisposeChainMovesOnlyTarget(a, At(id), false, true);
  }

  /** The whole of `merge(node)`: the node's run of conditions is merged;
      when the cross-node test holds, the node is disposed (its operands go
      on top of its previous node's stack) and its previous node is merged
      in turn. The recursive merge runs only when the node was listed, so
      that each round removes a node. */
  ghost function MergeChain(a: Arena, node: Ref): (r: Arena)
    requires ArenaOk(a) && LinkOk(node, |a.previous|)
    ensures ArenaOk(r) && |r.previous| == |a.previous|
    ensures forall y :: y in r.nodes ==> y in a.nodes
    decreases |a.nodes|
  {
    if node.Null? then a
    else
      var id := node.id;
      var (stack, right) := MergeIn(a.stacks[id], a.destination[id]);
      var b := a.(stacks := a.stacks[id := stack]);
      if right.Some? && CrossMerges(b, id, Info(a.stacks[id]), right.value) then
        var c := DisposeChain(b, node, false, true);
        if Listed(node, b.nodes) then MergeChain(c, c.previous[id]) else c
      else b
  }

  /** The linking part of `visitLabel(label)` with `n` the label's node: a
      current node without destination gets an edge to `n` and `n` as its
      destination; `n` is linked after the current node, becomes the current
      node and is appended to the list of nodes. */
  function Enter(a: Arena, n: nat): (r: Arena)
    requires ArenaOk(a) && n < |a.previous| && n !in a.nodes && LinkOk(a.current, |a.previous|)
    ensures ArenaOk(r) && |r.previous| == |a.previous|
    ensures r.current == At(n) && r.nodes == a.nodes + [n] && r.stacks == a.stacks
    ensures r.previous[n] == a.current && (a.current.At? ==> r.next[a.current.id] == At(n))
    ensures forall k :: 0 <= k < |a.previous| && k != n ==> r.previous[k] == a.previous[k]
    ensures a.current.At? && a.destination[a.current.id] == Null ==>
      r.edges == a.edges + {(a.current, At(n))} && r.destination == a.destination[a.current.id := At(n)]
    ensures !(a.current.At? && a.destination[a.current.id] == Null) ==>
      r.edges == a.edges && r.destination == a.destination
  {
    var size := |a.previous|;
    var attach := a.current.At? && a.destination[a.current.id] == Null;
    var links := Links(a.previous, a.next, [a.current, At(n)]);
    LinksTwo(a.previous, a.next, a.current, At(n));
    InsertIntoDistinct(a.nodes, |a.nodes|, n, size);
    assert InsertAt(a.nodes, |a.nodes|, n) == a.nodes + [n];
    assert forall k :: 0 <= k < size ==> LinkOk(a.previous[k], size) && LinkOk(a.next[k], size);
    Arena(a.nodes + [n], links.0, links.1,
          if attach then Connect(a.edges, a.current, At(n)) else a.edges,
          if attach then a.destination[a.current.id := At(n)] else a.destination,
          a.stacks, At(n))
  }

  /** `Enter` followed by the merge of the node before `n` when the list
      then holds two nodes or more. */
  ghost function Entered(a: Arena, n: nat): Arena
    requires ArenaOk(a) && n < |a.previous| && n !in a.nodes && LinkOk(a.current, |a.previous|)
  {
    var e := Enter(a, n);
    if 1 < |e.nodes| then MergeChain(e, e.previous[n]) else e
  }

  /** The arena with one more slot: a node with no links, no destination
      and an empty stack, not yet listed. */
  function Grow(a: Arena): (r: Arena)
    requires ArenaOk(a)
    ensures ArenaOk(r) && |r.previous| == |a.previous| + 1 && |a.previous| !in r.nodes
    ensures r.nodes == a.nodes && r.edges == a.edges && r.current == a.current
  {
    LinksGrow(a.previous, |a.previous|);
    LinksGrow(a.next, |a.previous|);
    a.(previous := a.previous + [Null], next := a.next + [Null], destination := a.destination + [Null],
       stacks := a.stacks + [[]])
  }

  class MethodDecompiler {
    const graph: NodeGraph
    const window: InstructionWindow
    /** Whether the decompiled method's return type is boolean. */
    const returnsBoolean: bool
    /** The node the visited instructions currently go to. */
    var current: Ref
    /** The number given to the next node opened for a label. */
    var counter: nat
    /** The node cached on each label seen so far (`label.info`). */
    var labels: map<int, nat>
    /** The labels visited so far. */
    ghost var visited: set<int>

    ghost predicate Valid()
      reads this, graph, window
    {
      && graph.Valid() && window.Valid()
      && LinkOk(current, graph.size)
      && EdgesWithin(graph.edges, graph.size)
      && (forall n :: 0 <= n < graph.size ==> Within(graph.destination[n], graph.size))
      && (forall l :: l in labels ==> labels[l] < graph.size)
      && (forall l :: l in labels && l !in visited ==> labels[l] !in graph.nodes)
      && (forall l, m :: l in labels && m in labels && l != m ==> labels[l] != labels[m])
    }

    /** The arena part of the state. */
    ghost function State(): Arena
      reads this, graph
    {
      Arena(graph.nodes, graph.previous, graph.next, graph.edges, graph.destination, graph.stacks, current)
    }

    constructor (returnsBoolean: bool)
      ensures Valid() && fresh(graph) && fresh(window) && fresh(window.records)
      ensures this.returnsBoolean == returnsBoolean && current == Null && counter == 0
      ensures labels == map[] && graph.size == 0 && graph.nodes == []
    {
      graph := new NodeGraph();
      window := new InstructionWindow();
      this.returnsBoolean := returnsBoolean;
      current := Null;
      counter := 0;
      labels := map[];
      visited := {};
    }

    /** `getNode(label)`: the node cached on the label, or a new node,
        numbered by the counter, cached on it. */
    method GetNode(lbl: int) returns (node: nat)
      requires Valid()
      modifies this, graph
      ensures Valid() && lbl in labels && labels[lbl] == node && node < graph.size
      ensures current == old(current) && visited == old(visited)
      ensures lbl in old(labels) ==>
        node == old(labels[lbl]) && labels == old(labels) && counter == old(counter) && unchanged(graph)
      ensures lbl !in old(labels) ==>
        && node == old(graph.size) && labels == old(labels)[lbl := node] && counter == old(counter) + 1
        && graph.size == old(graph.size) + 1 && State() == Grow(old(State()))
    {
      if lbl in labels {
        node := labels[lbl];
      } else {
        node := graph.Allocate(true);
        counter := counter + 1;
        labels := labels[lbl := node];
      }
    }

    /** `dispose(target, clearStack, recursive)`: the arena becomes
        `DisposeChain` of the old one. A listed target leaves the list of
        nodes and the graph, the current node moves to its previous node
        when it was the target, and when `recursive` the previous node is
        disposed in turn if its stack is left empty. A target that is not
        listed changes nothing. */
    method Dispose(target: Ref, clearStack: bool, recursive: bool)
      requires Valid() && LinkOk(target, graph.size)
      modifies this, graph
      ensures Valid() && graph.size == old(graph.size)
      ensures labels == old(labels) && visited == old(visited) && counter == old(counter)
      ensures State() == DisposeChain(old(State()), target, clearStack, recursive)
      ensures !Listed(target, old(graph.nodes)) ==> unchanged(graph) && current == old(current)
      ensures Listed(target, old(graph.nodes)) ==>
        && target.id !in graph.nodes && |graph.nodes| < |old(graph.nodes)|
        && graph.stacks[target.id] == [] && NoEdgeAt(graph.edges, target)
        && AllSameShape(TransferStack(old(graph.stacks), target.id, old(graph.previous[target.id]), clearStack), graph.stacks)
      ensures forall n :: n in graph.nodes ==> n in old(graph.nodes)
      ensures forall r :: NoEdgeAt(old(graph.edges), r) ==> NoEdgeAt(graph.edges, r)
      decreases |graph.nodes|
    {
      if !Listed(target, graph.nodes) {
        return;
      }
      ghost var a0 := State();
      var before := graph.previous[target.id];
      DisposeOne(target.id, clearStack);
      if recursive && before.At? && graph.stacks[before.id] == [] {
        Dispose(before, clearStack, recursive);
      }
      DisposeChainMovesOnlyTarget(a0, target, clearStack, recursive);
    }

    /** The first step of `dispose`: the arena becomes `DisposeStep` of the
        old one. */
    method DisposeOne(t: nat, clearStack: bool)
      requires Valid() && Listed(At(t), graph.nodes)
      modifies this, graph
      ensures Valid() && graph.size == old(graph.size)
      ensures labels == old(labels) && visited == old(visited) && counter == old(counter)
      ensures State() == DisposeStep(old(State()), t, clearStack)
      ensures |graph.nodes| < |old(graph.nodes)|
    {
      // `link` leaves the target's own previous link as it was
      var before := graph.previous[t];
      DisposeStepOk(State(), t, clearStack);
      graph.Unlink(t, clearStack);
      if current == At(t) {
        current := before;
      }
    }

    /** The in-node part of `merge(node)`: the search of the
        `SequentialConditionInfo` constructor, with its `elze` fix, then the
        right-to-left merge of the run of conditions it found. The stack of
        the node becomes the fixed stack with its run folded; nothing else
        changes. `right` is the deepest condition of the merged run. */
    method MergeWithin(id: nat) returns (info: ConditionInfo, right: Option<Condition>)
      requires Valid() && id < graph.size
      modifies graph`stacks
      ensures Valid()
      ensures info == Info(old(graph.stacks[id])) && (right.Some? <==> info.count > 0)
      ensures var fixed := FixFirstElze(old(graph.stacks[id]), old(graph.destination[id]));
        && (info.count == 0 ==> graph.stacks == old(graph.stacks)[id := old(graph.stacks[id])])
        && (info.count > 0 ==>
              var run := CondsIn(fixed, info.start, info.count);
              var merged := Fold(run[0], run[1..]);
              && graph.stacks == old(graph.stacks)[id := Layout(fixed[..info.start], merged, fixed[info.start + info.count..])]
              && right.value == merged[|merged| - 1])
      ensures (graph.stacks[id], right) == MergeIn(old(graph.stacks[id]), old(graph.destination[id]))
    {
      var merged;
      info, merged, right := MergeStack(graph.stacks[id], graph.destination[id]);
      MergeInIsMergeStack(graph.stacks[id], graph.destination[id]);
      graph.stacks := graph.stacks[id := merged];
    }

    /** The cross-node part of `merge(node)` for the node `id` once its run
        is merged with `right` as the condition the merge loop ended with:
        when the cross-node test holds, the node is disposed, its operands
        going on top of its previous node's stack. `listed` says whether the
        node was in the list, and so whether it was removed. */
    method MergeAcross(id: nat, info: ConditionInfo, right: Condition) returns (listed: bool)
      requires Valid() && id < graph.size
      modifies this, graph
      ensures Valid() && graph.size == old(graph.size)
      ensures labels == old(labels) && visited == old(visited) && counter == old(counter)
      ensures listed <==> CrossMerges(old(State()), id, info, right) && id in old(graph.nodes)
      ensures listed ==> |graph.nodes| < |old(graph.nodes)|
      ensures State() ==
        if CrossMerges(old(State()), id, info, right) then DisposeChain(old(State()), At(id), false, true) else old(State())
    {
      listed := false;
      var before := graph.previous[id];
      if info.conditionalHead && before.At? && graph.stacks[before.id] != [] && graph.stacks[before.id][0].Cond? {
        var condition := graph.stacks[before.id][0].c;
        if CanMerge(condition, right) && condition.elzeNode == At(id) {
          listed := id in graph.nodes;
          Dispose(At(id), false, true);
        }
      }
    }

    /** `merge(node)`: the arena becomes `MergeChain` of the old one. The run
        of conditions of the node is merged; then, when the node starts with
        that run and its previous node ends with a condition that can merge
        with the run's deepest condition and whose `elze` node is this node,
        the node is disposed (its operands go on top of the previous node's
        stack) and the previous node is merged. */
    method Merge(node: Ref)
      requires Valid() && LinkOk(node, graph.size)
      modifies this, graph
      ensures Valid() && graph.size == old(graph.size)
      ensures labels == old(labels) && visited == old(visited) && counter == old(counter)
      ensures State() == MergeChain(old(State()), node)
      decreases |graph.nodes|
    {
      if node.Null? {
        return;
      }
      ghost var a0 := State();
      var id := node.id;
      var info, right := MergeWithin(id);
      ghost var b := State();
      assert b == a0.(stacks := a0.stacks[id := MergeIn(a0.stacks[id], a0.destination[id]).0]);
      if right.None? {
        return;
      }
      var listed := MergeAcross(id, info, right.value);
      if listed {
        Merge(graph.previous[id]);
      }
    }

    /** The start of `visitLabel`: a current node without destination gets
        an edge to `n` and `n` as its destination. */
    method Attach(n: nat)
      requires Valid() && n < graph.size
      modifies graph
      ensures Valid() && graph.size == old(graph.size) && graph.nodes == old(graph.nodes)
      ensures graph.previous == old(graph.previous) && graph.next == old(graph.next) && graph.stacks == old(graph.stacks)
      ensures current.At? && old(graph.destination[current.id]) == Null ==>
        && graph.edges == old(graph.edges) + {(current, At(n))}
        && graph.destination == old(graph.destination)[current.id := At(n)]
      ensures !(current.At? && old(graph.destination[current.id]) == Null) ==>
        graph.edges == old(graph.edges) && graph.destination == old(graph.destination)
    {
      if current.At? && graph.destination[current.id] == Null {
        graph.edges := Connect(graph.edges, current, At(n));
        graph.destination := graph.destination[current.id := At(n)];
      }
    }

    /** The linking part of `visitLabel`: `n` is attached to the current
        node, linked after it, becomes the current node and is appended to
        the list of nodes. */
    method LinkNode(n: nat)
      requires Valid() && n < graph.size && n !in graph.nodes
      requires forall l :: l in labels && l !in visited ==> labels[l] != n
      modifies this, graph
      ensures Valid() && graph.size == old(graph.size)
      ensures labels == old(labels) && visited == old(visited) && counter == old(counter)
      ensures State() == Enter(old(State()), n)
    {
      Attach(n);
      current := graph.Link([current, At(n)]);
      graph.Append(n);
    }

    /** The rest of `visitLabel` once the node of the label is known: link
        it (`Enter`), then merge the node before it when there are two nodes
        or more; the arena becomes `Entered` of the old one. */
    method EnterNode(n: nat)
      requires Valid() && n < graph.size && n !in graph.nodes
      requires forall l :: l in labels && l !in visited ==> labels[l] != n
      modifies this, graph
      ensures Valid() && graph.size == old(graph.size)
      ensures labels == old(labels) && visited == old(visited) && counter == old(counter)
      ensures State() == Entered(old(State()), n)
    {
      LinkNode(n);
      if 1 < |graph.nodes| {
        Merge(graph.previous[n]);
      }
    }

    /** `record(opcode)`: the opcode goes into the window; when slot zero of
        the window is still zero and the opcode is not a label, a label is
        visited first, which opens a new node (`synthetic`). */
    method RecordOp(opcode: int) returns (synthetic: bool)
      requires Valid()
      modifies this, graph, window, window.records
      ensures Valid() && labels == old(labels) && visited == old(visited)
      ensures window.records == old(window.records)
      ensures synthetic <==> old(window.records[0]) == 0 && opcode != LABEL
      ensures !synthetic ==>
        && (window.records[..], window.recordIndex) == Push(old(window.records[..]), old(window.recordIndex), opcode)
        && unchanged(graph) && current == old(current) && counter == old(counter)
      ensures synthetic ==>
        && (var (r, k) := Push(old(window.records[..]), old(window.recordIndex), LABEL);
            (window.records[..], window.recordIndex) == Push(r, k, opcode))
        && graph.size == old(graph.size) + 1 && counter == old(counter) + 1
        && State() == Entered(Grow(old(State())), old(graph.size))
    {
      synthetic := window.Record(opcode);
      if synthetic {
        var n := graph.Allocate(true);
        counter := counter + 1;
        EnterNode(n);
      }
    }

    /** `visitLabel(label)`: records the label, takes the label's node and
        enters it. A label is visited once. */
    method VisitLabel(lbl: int)
      requires Valid() && lbl !in visited
      modifies this, graph, window, window.records
      ensures Valid() && visited == old(visited) + {lbl} && lbl in labels
      ensures window.records == old(window.records)
      ensures (window.records[..], window.recordIndex) == Push(old(window.records[..]), old(window.recordIndex), LABEL)
      ensures lbl in old(labels) ==> labels == old(labels) && counter == old(counter)
      ensures lbl !in old(labels) ==> labels == old(labels)[lbl := old(graph.size)] && counter == old(counter) + 1
      ensures State() == Entered(if lbl in old(labels) then old(State()) else Grow(old(State())), labels[lbl])
    {
      var _ := RecordOp(LABEL);
      var n := GetNode(lbl);
      visited := visited + {lbl};
      EnterNode(n);
    }
    // -------------------------------------------------------------------
    // Instruction effects. Each runs after the instruction was recorded;
    // a fault aborts the decompilation, and the state it leaves is not
    // specified.
    // -------------------------------------------------------------------

    /** Pushes an operand on the current node; a missing current node is a
        null dereference. */
    method PushOperand(o: Operand) returns (outcome: Outcome<Fault>)
      requires Valid()
      modifies graph
      ensures Valid() && graph.size == old(graph.size)
      ensures current.Null? ==> outcome == Fail(NullPointer) && unchanged(graph)
      ensures current.At? ==>
        && outcome == Pass && graph.stacks == old(graph.stacks)[current.id := [o] + old(graph.stacks[current.id])]
        && graph.nodes == old(graph.nodes) && graph.edges == old(graph.edges)
        && graph.previous == old(graph.previous) && graph.next == old(graph.next)
        && graph.destination == old(graph.destination)
    {
      if current.Null? {
        return Fail(NullPointer);
      }
      graph.stacks := graph.stacks[current.id := [o] + graph.stacks[current.id]];
      return Pass;
    }

    /** The end of the `ireturn` case: the top value of the current node,
        normalized for a boolean method, becomes `return v;` and the node's
        destination the termination node. */
    method ReturnTop() returns (outcome: Outcome<Fault>)
      requires Valid()
      modifies graph
      ensures Valid() && graph.size == old(graph.size)
      ensures current.Null? ==> outcome == Fail(NullPointer) && unchanged(graph)
      ensures current.At? ==>
        var r := ReturnStatement(old(graph.stacks[current.id]), returnsBoolean);
        && (r.Failure? ==> outcome == Fail(r.error) && unchanged(graph))
        && (r.Success? ==>
              && outcome == Pass
              && graph.stacks == old(graph.stacks)[current.id := r.value]
              && graph.destination == old(graph.destination)[current.id := Termination]
              && graph.nodes == old(graph.nodes) && graph.edges == old(graph.edges)
              && graph.previous == old(graph.previous) && graph.next == old(graph.next))
    {
      if current.Null? {
        return Fail(NullPointer);
      }
      var returned := ReturnStatement(graph.stacks[current.id], returnsBoolean);
      if returned.Failure? {
        return Fail(returned.error);
      }
      graph.stacks := graph.stacks[current.id := returned.value];
      graph.destination := graph.destination[current.id := Termination];
      return Pass;
    }

    /** `if (node.stack.isEmpty()) dispose(node)`: removing an empty node
        moves no operand, so every stack keeps its operands; only condition
        targets may change. */
    method DisposeIfEmpty(node: Ref)
      requires Valid() && node.At? && node.id < graph.size
      modifies this, graph
      ensures Valid() && graph.size == old(graph.size)
      ensures labels == old(labels) && visited == old(visited) && counter == old(counter)
      ensures AllSameShape(old(graph.stacks), graph.stacks)
    {
      if graph.stacks[node.id] == [] {
        ghost var prev := graph.previous[node.id];
        Dispose(node, false, true);
        if Listed(node, old(graph.nodes)) {
          TransferOfEmpty(old(graph.stacks), node.id, prev, false);
        }
      }
    }

    /** The start of the `ireturn` case when a boolean pattern matched: four
        operands are removed from the current node, the previous node is
        disposed when its stack is empty, and in the 1-first form the
        operand then on top is inverted. The disposal may retarget the
        conditions of the current node, so its stack is what `DropBranch`
        gives up to condition targets. */
    method DropOtherBranch(pattern: ReturnPattern) returns (outcome: Outcome<Fault>)
      requires Valid() && pattern != Plain
      modifies this, graph
      ensures Valid() && graph.size == old(graph.size)
      ensures labels == old(labels) && visited == old(visited) && counter == old(counter)
      ensures old(current).Null? ==> outcome == Fail(NullPointer) && unchanged(graph)
      ensures old(current).At? && |old(graph.stacks[current.id])| < 4 ==> outcome == Fail(StackUnderflow)
      ensures old(current).At? && |old(graph.stacks[current.id])| >= 4 && old(graph.previous[current.id]).Null? ==>
        outcome == Fail(NullPointer)
      ensures outcome.Pass? && current == old(current) ==>
        var d := DropBranch(old(graph.stacks[current.id]), pattern);
        d.Success? && SameShape(d.value, graph.stacks[current.id])
    {
      if current.Null? {
        return Fail(NullPointer);
      }
      ghost var c0 := current;
      ghost var s0 := graph.stacks[current.id];
      var c := current.id;
      if |graph.stacks[c]| < 4 {
        return Fail(StackUnderflow);
      }
      graph.stacks := graph.stacks[c := graph.stacks[c][4..]];
      var before := graph.previous[c];
      if before.Null? {
        return Fail(NullPointer);
      }
      DisposeIfEmpty(before);
      if pattern == OneFirst {
        if current.Null? {
          return Fail(NullPointer);
        }
        var inverted := InvertTop(graph.stacks[current.id]);
        if inverted.Failure? {
          return Fail(inverted.error);
        }
        if current == c0 {
          InvertTopKeepsShape(s0[4..], graph.stacks[current.id]);
        }
        graph.stacks := graph.stacks[current.id := inverted.value];
      }
      return Pass;
    }

    /** The two pattern tests of the `ireturn` case, in the order of the
        source: the 0-first forms, then the 1-first forms. */
    method MatchReturn() returns (pattern: ReturnPattern)
      requires window.Valid()
      ensures pattern == PatternOf(window.records[..], window.recordIndex)
    {
      var zeroFirst := window.Match(ZERO_FIRST_SHORT);
      if !zeroFirst {
        zeroFirst := window.Match(ZERO_FIRST_LONG);
      }
      var oneFirst := false;
      if !zeroFirst {
        oneFirst := window.Match(ONE_FIRST_SHORT);
        if !oneFirst {
          oneFirst := window.Match(ONE_FIRST_LONG);
        }
      }
      pattern := if zeroFirst then ZeroFirst else if oneFirst then OneFirst else Plain;
    }

    /** The `ireturn` case of `visitInsn`: the window decides the pattern;
        a boolean pattern drops the other branch first, then the top value
        is returned. */
    method ReturnEffect() returns (outcome: Outcome<Fault>)
      requires Valid()
      modifies this, graph
      ensures Valid() && graph.size == old(graph.size)
      ensures labels == old(labels) && visited == old(visited) && counter == old(counter)
      ensures var pattern := PatternOf(window.records[..], window.recordIndex);
        && (old(current).Null? ==> outcome == Fail(NullPointer) && unchanged(graph))
        && (pattern == Plain && old(current).At? ==>
              var r := ReturnStatement(old(graph.stacks[current.id]), returnsBoolean);
              && current == old(current)
              && (r.Failure? ==> outcome == Fail(r.error) && unchanged(graph))
              && (r.Success? ==>
                    && outcome == Pass
                    && graph.stacks == old(graph.stacks)[current.id := r.value]
                    && graph.destination == old(graph.destination)[current.id := Termination]
                    && graph.nodes == old(graph.nodes) && graph.edges == old(graph.edges)
                    && graph.previous == old(graph.previous) && graph.next == old(graph.next)))
        && (pattern != Plain && old(current).At? && |old(graph.stacks[current.id])| < 4 ==>
              outcome == Fail(StackUnderflow))
        && (pattern != Plain && old(current).At? && |old(graph.stacks[current.id])| >= 4 && old(graph.previous[current.id]).Null? ==>
              outcome == Fail(NullPointer))
        && (outcome.Pass? && current == old(current) ==>
              var r := ReturnStack(old(graph.stacks[current.id]), pattern, returnsBoolean);
              r.Success? && SameShape(r.value, graph.stacks[current.id]))
      ensures outcome.Pass? ==>
        && current.At? && graph.destination[current.id] == Termination
        && |graph.stacks[current.id]| >= 3
        && graph.stacks[current.id][0] == End && graph.stacks[current.id][2] == ReturnKeyword
    {
      var pattern := MatchReturn();
      if pattern == Plain {
        outcome := ReturnTop();
      } else {
        outcome := ReturnBoolean(pattern);
      }
    }

    /** The `ireturn` case after a boolean pattern matched: the other
        branch is dropped, then the top value is returned. */
    method ReturnBoolean(pattern: ReturnPattern) returns (outcome: Outcome<Fault>)
      requires Valid() && pattern != Plain
      modifies this, graph
      ensures Valid() && graph.size == old(graph.size)
      ensures labels == old(labels) && visited == old(visited) && counter == old(counter)
      ensures old(current).Null? ==> outcome == Fail(NullPointer) && unchanged(graph)
      ensures old(current).At? && |old(graph.stacks[current.id])| < 4 ==> outcome == Fail(StackUnderflow)
      ensures old(current).At? && |old(graph.stacks[current.id])| >= 4 && old(graph.previous[current.id]).Null? ==>
        outcome == Fail(NullPointer)
      ensures outcome.Pass? && current == old(current) ==>
        var r := ReturnStack(old(graph.stacks[current.id]), pattern, returnsBoolean);
        r.Success? && SameShape(r.value, graph.stacks[current.id])
      ensures outcome.Pass? ==>
        && current.At? && graph.destination[current.id] == Termination
        && |graph.stacks[current.id]| >= 3
        && graph.stacks[current.id][0] == End && graph.stacks[current.id][2] == ReturnKeyword
    {
      ghost var c0 := current;
      ghost var s0 := if current.At? then graph.stacks[current.id] else [];
      outcome := DropOtherBranch(pattern);
      if outcome.Fail? {
        return;
      }
      ghost var s1 := if current.At? then graph.stacks[current.id] else [];
      outcome := ReturnTop();
      if outcome.Pass? && current == c0 {
        ReturnStatementKeepsShape(DropBranch(s0, pattern).value, s1, returnsBoolean);
      }
    }

    /** `visitInsn(opcode)` after recording: iconst_<i> pushes its integer,
        `ireturn` returns the top value; other opcodes change nothing. */
    method InsnEffect(opcode: int) returns (outcome: Outcome<Fault>)
      requires Valid()
      modifies this, graph
      ensures Valid() && graph.size == old(graph.size)
      ensures labels == old(labels) && visited == old(visited) && counter == old(counter)
      ensures IntConstant(opcode).Some? ==>
        && current == old(current)
        && (current.Null? ==> outcome == Fail(NullPointer) && unchanged(graph))
        && (current.At? ==>
              && outcome == Pass
              && graph.stacks == old(graph.stacks)[current.id := [Number(IntConstant(opcode).value, Int)] + old(graph.stacks[current.id])])
      ensures IntConstant(opcode).None? && opcode != IRETURN ==>
        outcome == Pass && unchanged(graph) && current == old(current)
      ensures opcode == IRETURN && outcome.Pass? ==> current.At? && graph.destination[current.id] == Termination
    {
      var value := IntConstant(opcode);
      if value.Some? {
        outcome := PushOperand(Number(value.value, Int));
      } else if opcode == IRETURN {
        outcome := ReturnEffect();
      } else {
        outcome := Pass;
      }
    }

    /** `visitInsn(opcode)`. */
    method VisitInsn(opcode: int) returns (outcome: Outcome<Fault>)
      requires Valid()
      modifies this, graph, window, window.records
      ensures Valid() && labels == old(labels) && visited == old(visited)
      ensures window.records == old(window.records)
      ensures old(window.records[0]) == 0 && opcode != LABEL ==>
        var (r, k) := Push(old(window.records[..]), old(window.recordIndex), LABEL);
        (window.records[..], window.recordIndex) == Push(r, k, opcode)
      ensures !(old(window.records[0]) == 0 && opcode != LABEL) ==>
        (window.records[..], window.recordIndex) == Push(old(window.records[..]), old(window.recordIndex), opcode)
    {
      var _ := RecordOp(opcode);
      outcome := InsnEffect(opcode);
    }

    /** `visitIntInsn(opcode, operand)` after recording: bipush and sipush
        push the integer operand; newarray replaces the top operand by a new
        array of the element type its tag names, and an unknown tag is an
        error before anything else. */
    method IntInsnEffect(opcode: int, operand: int) returns (outcome: Outcome<Fault>)
      requires Valid()
      modifies graph
      ensures Valid() && graph.size == old(graph.size)
      ensures opcode == BIPUSH || opcode == SIPUSH ==>
        && (current.Null? ==> outcome == Fail(NullPointer) && unchanged(graph))
        && (current.At? ==>
              && outcome == Pass
              && graph.stacks == old(graph.stacks)[current.id := [Number(operand, Int)] + old(graph.stacks[current.id])])
      ensures opcode == NEWARRAY ==>
        && (ArrayElement(operand).Failure? ==> outcome == Fail(UnknownArrayType(operand)) && unchanged(graph))
        && (ArrayElement(operand).Success? && current.Null? ==> outcome == Fail(NullPointer) && unchanged(graph))
        && (ArrayElement(operand).Success? && current.At? ==>
              var r := NewArrayStack(old(graph.stacks[current.id]), operand);
              && (r.Failure? ==> outcome == Fail(r.error) && unchanged(graph))
              && (r.Success? ==> outcome == Pass && graph.stacks == old(graph.stacks)[current.id := r.value]))
      ensures opcode != BIPUSH && opcode != SIPUSH && opcode != NEWARRAY ==> outcome == Pass && unchanged(graph)
      ensures graph.nodes == old(graph.nodes) && graph.edges == old(graph.edges) && graph.destination == old(graph.destination)
    {
      if opcode == BIPUSH || opcode == SIPUSH {
        outcome := PushOperand(Number(operand, Int));
      } else if opcode == NEWARRAY {
        var element := ArrayElement(operand);
        if element.Failure? {
          return Fail(element.error);
        }
        if current.Null? {
          return Fail(NullPointer);
        }
        var r := NewArrayStack(graph.stacks[current.id], operand);
        if r.Failure? {
          return Fail(r.error);
        }
        graph.stacks := graph.stacks[current.id := r.value];
        outcome := Pass;
      } else {
        outcome := Pass;
      }
    }

    /** `visitIntInsn(opcode, operand)`. */
    method VisitIntInsn(opcode: int, operand: int) returns (outcome: Outcome<Fault>)
      requires Valid()
      modifies this, graph, window, window.records
      ensures Valid() && labels == old(labels) && visited == old(visited)
      ensures window.records == old(window.records)
      ensures old(window.records[0]) == 0 && opcode != LABEL ==>
        var (r, k) := Push(old(window.records[..]), old(window.recordIndex), LABEL);
        (window.records[..], window.recordIndex) == Push(r, k, opcode)
      ensures !(old(window.records[0]) == 0 && opcode != LABEL) ==>
        (window.records[..], window.recordIndex) == Push(old(window.records[..]), old(window.recordIndex), opcode)
    {
      var _ := RecordOp(opcode);
      outcome := IntInsnEffect(opcode, operand);
    }

    /** `visitMethodInsn` after recording: one operand is popped per
        parameter, the last argument first, and `contexts` holds them in
        declaration order; for a method returning void, the operand then on
        top becomes a statement. The owner class is loaded too, which has no
        effect on the stack. */
    method MethodInsnEffect(parameterTypes: seq<AsmType>, returnType: AsmType)
      returns (outcome: Outcome<Fault>, contexts: seq<Operand>)
      requires Valid()
      modifies graph
      ensures Valid() && graph.size == old(graph.size)
      ensures graph.nodes == old(graph.nodes) && graph.edges == old(graph.edges) && graph.destination == old(graph.destination)
      ensures var n := |parameterTypes|; var void := LoadType(returnType) == VoidClass;
        && (current.Null? ==>
              && (outcome == Pass <==> n == 0 && !void)
              && (outcome.Fail? ==> outcome.error == NullPointer)
              && unchanged(graph))
        && (current.At? ==>
              var s := old(graph.stacks[current.id]);
              && (n > |s| ==> outcome == Fail(StackUnderflow))
              && (n <= |s| ==>
                    && outcome == Pass && contexts == Reverse(s[..n])
                    && graph.stacks == old(graph.stacks)[current.id :=
                         if void && n < |s| then [End, s[n]] + s[n + 1..] else s[n..]]))
    {
      var parameters := LoadAll(parameterTypes);
      contexts := [];
      ghost var s := if current.At? then graph.stacks[current.id] else [];
      var i := 0;
      while i < parameters.Length
        invariant 0 <= i <= parameters.Length && graph.Valid() && graph.size == old(graph.size)
        invariant graph.nodes == old(graph.nodes) && graph.edges == old(graph.edges)
        invariant graph.destination == old(graph.destination) && graph.previous == old(graph.previous)
        invariant graph.next == old(graph.next)
        invariant current.Null? ==> i == 0 && unchanged(graph)
        invariant current.At? ==>
          && i <= |s| && graph.stacks == old(graph.stacks)[current.id := s[i..]]
          && |contexts| == i && forall k :: 0 <= k < i ==> contexts[k] == s[i - 1 - k]
      {
        if current.Null? {
          return Fail(NullPointer), contexts;
        }
        if graph.stacks[current.id] == [] {
          return Fail(StackUnderflow), contexts;
        }
        contexts := [graph.stacks[current.id][0]] + contexts;
        graph.stacks := graph.stacks[current.id := graph.stacks[current.id][1..]];
        assert s[i + 1..] == s[i..][1..];
        i := i + 1;
      }
      var immediately := LoadType(returnType) == VoidClass;
      if immediately {
        if current.Null? {
          return Fail(NullPointer), contexts;
        }
        if graph.stacks[current.id] != [] {
          var top := graph.stacks[current.id][0];
          graph.stacks := graph.stacks[current.id := [End, top] + graph.stacks[current.id][1..]];
          assert s[i..][1..] == s[i + 1..];
        }
      }
      outcome := Pass;
    }

    /** `visitMethodInsn`. */
    method VisitMethodInsn(opcode: int, parameterTypes: seq<AsmType>, returnType: AsmType)
      returns (outcome: Outcome<Fault>)
      requires Valid()
      modifies this, graph, window, window.records
      ensures Valid() && labels == old(labels) && visited == old(visited)
      ensures window.records == old(window.records)
      ensures old(window.records[0]) == 0 && opcode != LABEL ==>
        var (r, k) := Push(old(window.records[..]), old(window.recordIndex), LABEL);
        (window.records[..], window.recordIndex) == Push(r, k, opcode)
      ensures !(old(window.records[0]) == 0 && opcode != LABEL) ==>
        (window.records[..], window.recordIndex) == Push(old(window.records[..]), old(window.recordIndex), opcode)
    {
      var _ := RecordOp(opcode);
      var contexts;
      outcome, contexts := MethodInsnEffect(parameterTypes, returnType);
    }
  }
}
