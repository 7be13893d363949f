/** The switch operand: its cases grouped by the node each jumps to, the
    test whether the default node really is a default, and the search for
    the node that follows the whole switch. The graph queries the search
    relies on (reachability, dominance, the outgoing walk) are not computed
    here; they are parameters. */
module Switches {
  import opened Wrappers
  import opened Operands
  import opened Graph
  import opened NodeCreator

  // ---------------------------------------------------------------------
  // The cases: a multimap from case nodes to the keys that lead there
  // ---------------------------------------------------------------------

  /** A multimap: the nodes in the order they were first put, and for each
      node the keys put with it, in order. */
  datatype CaseMap = CaseMap(keys: seq<Ref>, values: map<Ref, seq<int>>)

  predicate DistinctRefs(s: seq<Ref>) {
    forall i, j :: 0 <= i < j < |s| ==> s[i] != s[j]
  }

  /** Every node is listed once, and exactly the listed nodes have keys. */
  predicate WellFormed(m: CaseMap) {
    && DistinctRefs(m.keys)
    && (forall n :: n in m.values ==> n in m.keys)
    && (forall n :: n in m.keys ==> n in m.values)
  }

  const EMPTY := CaseMap([], map[])

  /** `put(node, key)`: a node not yet listed is appended to the nodes; the
      key is appended to the node's keys. */
  function Put(m: CaseMap, node: Ref, key: int): (r: CaseMap)
    requires WellFormed(m)
    ensures WellFormed(r)
  {
    if node in m.values then CaseMap(m.keys, m.values[node := m.values[node] + [key]])
    else CaseMap(m.keys + [node], m.values[node := [key]])
  }

  /** The multimap after putting `keys[i]` with `nodes[i]` for each `i` in
      turn. */
  function PutAll(nodes: seq<Ref>, keys: seq<int>): (r: CaseMap)
    requires |nodes| == |keys|
    ensures WellFormed(r)
    decreases |keys|
  {
    if keys == [] then EMPTY
    else
      var n := |keys| - 1;
      Put(PutAll(nodes[..n], keys[..n]), nodes[n], keys[n])
  }

  /** The keys put with `node`, in order. */
  function KeysOf(nodes: seq<Ref>, keys: seq<int>, node: Ref): seq<int>
    requires |nodes| == |keys|
    decreases |keys|
  {
    if keys == [] then []
    else
      var n := |keys| - 1;
      KeysOf(nodes[..n], keys[..n], node) + (if nodes[n] == node then [keys[n]] else [])
  }

  /** The constructor's loop groups the keys by node: the listed nodes are
      the case nodes, each with exactly its keys in their order, and the
      first case node is listed first. */
  lemma {:induction false} PutAllGroups(nodes: seq<Ref>, keys: seq<int>)
    requires |nodes| == |keys|
    ensures var m := PutAll(nodes, keys);
      && (forall x :: x in m.values <==> x in nodes)
      && (forall x :: x in m.values ==> m.values[x] == KeysOf(nodes, keys, x))
      && (keys != [] ==> m.keys[0] == nodes[0])
    decreases |keys|
  {
    if keys != [] {
      var n := |keys| - 1;
      PutAllGroups(nodes[..n], keys[..n]);
      var m0 := PutAll(nodes[..n], keys[..n]);
      var m := PutAll(nodes, keys);
      assert m == Put(m0, nodes[n], keys[n]);
      assert nodes == nodes[..n] + [nodes[n]];
      forall x | x in m.values ensures m.values[x] == KeysOf(nodes, keys, x) {
        assert KeysOf(nodes, keys, x) == KeysOf(nodes[..n], keys[..n], x) + (if nodes[n] == x then [keys[n]] else []);
        if x != nodes[n] {
          assert x in m0.values;
        } else if x !in m0.values {
          assert x !in nodes[..n];
          KeysOfAbsent(nodes[..n], keys[..n], x);
        }
      }
      if n > 0 {
        assert m0.keys[0] == nodes[..n][0];
      }
    }
  }

  /** A node never put has no keys. */
  lemma {:induction false} KeysOfAbsent(nodes: seq<Ref>, keys: seq<int>, node: Ref)
    requires |nodes| == |keys| && node !in nodes
    ensures KeysOf(nodes, keys, node) == []
    decreases |keys|
  {
    if keys != [] {
      var n := |keys| - 1;
      assert nodes == nodes[..n] + [nodes[n]];
      KeysOfAbsent(nodes[..n], keys[..n], node);
    }
  }

  /** The sequence without any occurrence of `x`, order kept. */
  function Without(s: seq<Ref>, x: Ref): (r: seq<Ref>)
    ensures forall y :: y in r <==> y in s && y != x
    ensures DistinctRefs(s) ==> DistinctRefs(r)
    ensures |r| <= |s|
  {
    if s == [] then []
    else
      var rest := Without(s[1..], x);
      assert DistinctRefs(s) ==> DistinctRefs(s[1..]) && s[0] !in s[1..];
      if s[0] == x then rest else [s[0]] + rest
  }

  /** `remove(node)`: the node leaves the multimap with its keys; the
      other nodes keep their keys and their order. */
  function RemoveKey(m: CaseMap, node: Ref): (r: CaseMap)
    requires WellFormed(m)
    ensures WellFormed(r) && node !in r.values
    ensures forall x :: x in r.values <==> x in m.values && x != node
    ensures forall x :: x in r.values ==> r.values[x] == m.values[x]
  {
    CaseMap(Without(m.keys, node), m.values - {node})
  }

  // ---------------------------------------------------------------------
  // The nodes of a switch
  // ---------------------------------------------------------------------

  /** The sequence without its nulls, order kept. */
  function NonNull(s: seq<Ref>): (r: seq<Ref>)
    ensures forall y :: y in r <==> y in s && y != Null
    ensures |s| > 0 && s[0] != Null ==> |r| > 0 && r[0] == s[0]
  {
    Without(s, Null)
  }

  /** `nodes()`: the default node first, then the case nodes, nulls
      skipped. */
  function CaseNodes(keys: seq<Ref>, defaultNode: Ref): (r: seq<Ref>)
    ensures Null !in r
    ensures forall y :: y in r <==> y != Null && (y == defaultNode || y in keys)
    ensures defaultNode != Null ==> |r| > 0 && r[0] == defaultNode
  {
    NonNull([defaultNode] + keys)
  }

  // ---------------------------------------------------------------------
  // Is the default node really a default?
  // ---------------------------------------------------------------------

  /** The case nodes other than `node`. */
  function Others(keys: seq<Ref>, node: Ref): set<Ref> {
    set k | k in keys && k != node
  }

  /** The nodes of `candidates`, in order, that reach `defaultNode`
      without passing through another case node of `keys`. */
  function Reaching(candidates: seq<Ref>, keys: seq<Ref>, defaultNode: Ref,
                    canReachTo: (Ref, Ref, set<Ref>) -> bool): (r: seq<Ref>)
    ensures |r| <= |candidates|
  {
    if candidates == [] then []
    else
      var rest := Reaching(candidates[1..], keys, defaultNode, canReachTo);
      if canReachTo(candidates[0], defaultNode, Others(keys, candidates[0])) then [candidates[0]] + rest else rest
  }

  /** The filter keeps exactly the candidates that reach the default node,
      each as often as it is a candidate. */
  lemma {:induction false} ReachingMembers(candidates: seq<Ref>, keys: seq<Ref>, defaultNode: Ref,
                                           canReachTo: (Ref, Ref, set<Ref>) -> bool)
    ensures var r := Reaching(candidates, keys, defaultNode, canReachTo);
      && (forall x :: x in r <==> x in candidates && canReachTo(x, defaultNode, Others(keys, x)))
      && (DistinctRefs(candidates) ==> DistinctRefs(r))
  {
    if candidates != [] {
      ReachingMembers(candidates[1..], keys, defaultNode, canReachTo);
      assert DistinctRefs(candidates) ==> DistinctRefs(candidates[1..]) && candidates[0] !in candidates[1..];
    }
  }

  /** `isReallyDefaultNode()`: with no case directly connected to the
      default node it is a default; with one, it is a default when that
      case is declared right before it (a fall-through), and the exit of
      the switch otherwise; with two or more it is the exit. */
  function IsReallyDefault(keys: seq<Ref>, defaultNode: Ref,
                           canReachTo: (Ref, Ref, set<Ref>) -> bool,
                           isBefore: (Ref, Ref, set<Ref>) -> bool): bool
  {
    var directly := Reaching(keys, keys, defaultNode, canReachTo);
    if |directly| == 0 then true
    else if |directly| == 1 then isBefore(directly[0], defaultNode, Others(keys, directly[0]))
    else false
  }

  /** A default node no case reaches directly is a default. */
  lemma NoDirectCase(keys: seq<Ref>, defaultNode: Ref,
                     canReachTo: (Ref, Ref, set<Ref>) -> bool,
                     isBefore: (Ref, Ref, set<Ref>) -> bool)
    requires forall k :: k in keys ==> !canReachTo(k, defaultNode, Others(keys, k))
    ensures IsReallyDefault(keys, defaultNode, canReachTo, isBefore)
  {
    var directly := Reaching(keys, keys, defaultNode, canReachTo);
    ReachingMembers(keys, keys, defaultNode, canReachTo);
    if |directly| > 0 {
      assert directly[0] in directly;
    }
  }

  /** A default node reached directly by two cases is the exit of the
      switch. */
  lemma TwoDirectCases(keys: seq<Ref>, defaultNode: Ref,
                       canReachTo: (Ref, Ref, set<Ref>) -> bool,
                       isBefore: (Ref, Ref, set<Ref>) -> bool,
                       a: Ref, b: Ref)
    requires DistinctRefs(keys) && a in keys && b in keys && a != b
    requires canReachTo(a, defaultNode, Others(keys, a)) && canReachTo(b, defaultNode, Others(keys, b))
    ensures !IsReallyDefault(keys, defaultNode, canReachTo, isBefore)
  {
    var directly := Reaching(keys, keys, defaultNode, canReachTo);
    ReachingMembers(keys, keys, defaultNode, canReachTo);
    assert a in directly && b in directly;
  }

  /** A default node reached directly by one case only is a default
      exactly when that case is declared right before it. */
  lemma OneDirectCase(keys: seq<Ref>, defaultNode: Ref,
                      canReachTo: (Ref, Ref, set<Ref>) -> bool,
                      isBefore: (Ref, Ref, set<Ref>) -> bool,
                      a: Ref)
    requires DistinctRefs(keys) && a in keys && canReachTo(a, defaultNode, Others(keys, a))
    requires forall b :: b in keys && canReachTo(b, defaultNode, Others(keys, b)) ==> b == a
    ensures IsReallyDefault(keys, defaultNode, canReachTo, isBefore) == isBefore(a, defaultNode, Others(keys, a))
  {
    var directly := Reaching(keys, keys, defaultNode, canReachTo);
    ReachingMembers(keys, keys, defaultNode, canReachTo);
    assert a in directly;
    forall k | 0 <= k < |directly| ensures directly[k] == a {
      assert directly[k] in directly;
    }
    OnlyOne(directly, a);
  }

  /** A sequence without repetitions holding nothing but `a`, at least
      once, is `[a]`. */
  lemma OnlyOne(s: seq<Ref>, a: Ref)
    requires DistinctRefs(s) && a in s && forall k :: 0 <= k < |s| ==> s[k] == a
    ensures s == [a]
  {
    DistinctCount(s);
    assert (set x | x in s) == {a};
  }

  /** A sequence without repetitions has as many elements as its set. */
  lemma {:induction false} DistinctCount(s: seq<Ref>)
    requires DistinctRefs(s)
    ensures |set x | x in s| == |s|
  {
    if s != [] {
      var rest := s[1..];
      assert DistinctRefs(rest);
      DistinctCount(rest);
      assert (set x | x in s) == {s[0]} + (set x | x in rest);
      assert s[0] !in (set x | x in rest);
    }
  }

  // ---------------------------------------------------------------------
  // The follow search
  // ---------------------------------------------------------------------

  /** The candidates of the follow search: for each node of `nodes` in
      turn, the first node its outgoing walk reaches that it does not
      dominate, when there is one. */
  function Escapes(nodes: seq<Ref>, firstEscape: Ref -> Option<Ref>): (r: seq<Ref>)
    ensures |r| <= |nodes|
  {
    if nodes == [] then []
    else
      var rest := Escapes(nodes[1..], firstEscape);
      match firstEscape(nodes[0])
      case Some(x) => [x] + rest
      case None => rest
  }

  /** The candidates are exactly the nodes found from some node of the
      switch, and there is none only when no node finds one. */
  lemma {:induction false} EscapesFound(nodes: seq<Ref>, firstEscape: Ref -> Option<Ref>)
    ensures Escapes(nodes, firstEscape) == [] <==> forall n :: n in nodes ==> firstEscape(n).None?
    ensures forall x :: x in Escapes(nodes, firstEscape) <==> exists n :: n in nodes && firstEscape(n) == Some(x)
  {
    if nodes != [] {
      EscapesFound(nodes[1..], firstEscape);
      assert forall n :: n in nodes <==> n == nodes[0] || n in nodes[1..];
    }
  }

  /** A candidate found from nodes that escape to allocated nodes is an
      allocated node. */
  lemma {:induction false} EscapeWithin(nodes: seq<Ref>, firstEscape: Ref -> Option<Ref>, size: nat, x: Ref)
    requires forall n :: firstEscape(n).Some? ==> firstEscape(n).value.At? && firstEscape(n).value.id < size
    requires x in Escapes(nodes, firstEscape)
    ensures x.At? && x.id < size
  {
    if firstEscape(nodes[0]) != Some(x) {
      EscapeWithin(nodes[1..], firstEscape, size, x);
    }
  }

  /** The operand a switch is on: for a switch on strings, the string the
      `hashCode()` call is made on; a string switch on anything but a method
      call is a failed downcast. */
  function Scrutinee(condition: Operand, switchForString: bool): (r: Result<Operand, Fault>)
    ensures r.Failure? <==> switchForString && !condition.MethodCall?
    ensures r.Failure? ==> r.error == ClassCast
    ensures r.Success? && !switchForString ==> r.value == condition
    ensures r.Success? && switchForString ==> r.value == condition.owner && r.value < condition
  {
    if !switchForString then Success(condition)
    else if condition.MethodCall? then Success(condition.owner)
    else Failure(ClassCast)
  }

  class OperandSwitch {
    const condition: Operand
    const switchForString: bool
    var cases: CaseMap
    var defaultNode: Ref
    /** The node after the switch, once `Analyze` has run. */
    var follow: Ref

    /** The constructor: the case nodes are grouped by node with their
        keys; a switch on strings is on the string whose hash the compiled
        code switches on. */
    constructor (condition: Operand, keys: seq<int>, caseNodes: seq<Ref>, defaultNode: Ref, switchForString: bool)
      requires |keys| <= |caseNodes|
      requires Scrutinee(condition, switchForString).Success?
      ensures this.condition == Scrutinee(condition, switchForString).value
      ensures this.switchForString == switchForString && this.defaultNode == defaultNode && follow == Null
      ensures cases == PutAll(caseNodes[..|keys|], keys)
    {
      this.condition := Scrutinee(condition, switchForString).value;
      this.switchForString := switchForString;
      this.defaultNode := defaultNode;
      follow := Null;
      cases := EMPTY;
      new;
      var i := 0;
      while i < |keys|
        invariant 0 <= i <= |keys| && cases == PutAll(caseNodes[..i], keys[..i])
        invariant this.defaultNode == defaultNode && follow == Null
      {
        assert caseNodes[..i + 1][..i] == caseNodes[..i] && keys[..i + 1][..i] == keys[..i];
        cases := Put(cases, caseNodes[i], keys[i]);
        i := i + 1;
      }
      assert keys[..i] == keys;
    }

    /** `nodes()`: the default node first when there is one, then the case
        nodes; never null. */
    function Nodes(): (r: seq<Ref>)
      reads this
      ensures Null !in r
      ensures forall y :: y in r <==> y != Null && (y == defaultNode || y in cases.keys)
      ensures defaultNode != Null ==> |r| > 0 && r[0] == defaultNode
    {
      CaseNodes(cases.keys, defaultNode)
    }

    /** `analyze(manipulator)`. The default node leaves the cases (a switch
        on strings takes `stringCases` instead, the cases its desugaring
        finds). A default node that is not really one is the follow, and the
        switch has no default. Otherwise the follow is the last candidate of
        the search, or the default node when there is none (then no
        default); a switch that keeps its default gets a splitter node
        before the follow gathering the follow's incoming edges from nodes
        dominated by a case, and the splitter is the follow, called once
        more. */
    method Analyze(g: NodeGraph, stringCases: CaseMap,
                   canReachTo: (Ref, Ref, set<Ref>) -> bool,
                   isBefore: (Ref, Ref, set<Ref>) -> bool,
                   firstEscape: Ref -> Option<Ref>,
                   dominatedIncomings: (Ref, seq<Ref>) -> seq<nat>)
      requires WellFormed(cases) && WellFormed(stringCases) && g.Valid()
      requires forall n :: firstEscape(n).Some? ==> firstEscape(n).value.At? && firstEscape(n).value.id < g.size
      requires forall f, cs :: AllBelow(dominatedIncomings(f, cs), g.size)
      modifies this, g
      ensures WellFormed(cases)
      ensures cases == if switchForString then stringCases else RemoveKey(old(cases), old(defaultNode))
      ensures var d := old(defaultNode);
        var genuine := IsReallyDefault(cases.keys, d, canReachTo, isBefore);
        var escapes := Escapes(CaseNodes(cases.keys, d), firstEscape);
        && (!genuine || escapes == [] ==>
              && follow == d && defaultNode == Null && unchanged(g))
        && (genuine && escapes != [] && d == Null ==>
              && follow == escapes[|escapes| - 1] && defaultNode == Null && unchanged(g))
        && (genuine && escapes != [] && d != Null ==>
              var last := escapes[|escapes| - 1];
              && defaultNode == d
              && g.Valid() && follow == At(old(g.size)) && g.size == old(g.size) + 1
              && last.At?
              && g.edges == Connect(RedirectIncomings(old(g.edges), dominatedIncomings(last, CaseNodes(cases.keys, d)), last.id, old(g.size)),
                                    At(old(g.size)), last)
              && g.additionalCall == old(g.additionalCall) + [1])
    {
      cases := RemoveKey(cases, defaultNode);
      if switchForString {
        cases := stringCases;
      }
      PlaceFollow(g, canReachTo, isBefore, firstEscape, dominatedIncomings);
    }

    /** The second half of `analyze`, once the cases are settled: the
        follow search, and the splitter of a switch that keeps its
        default. */
    method PlaceFollow(g: NodeGraph,
                       canReachTo: (Ref, Ref, set<Ref>) -> bool,
                       isBefore: (Ref, Ref, set<Ref>) -> bool,
                       firstEscape: Ref -> Option<Ref>,
                       dominatedIncomings: (Ref, seq<Ref>) -> seq<nat>)
      requires g.Valid()
      requires forall n :: firstEscape(n).Some? ==> firstEscape(n).value.At? && firstEscape(n).value.id < g.size
      requires forall f, cs :: AllBelow(dominatedIncomings(f, cs), g.size)
      modifies this`defaultNode, this`follow, g
      ensures var d := old(defaultNode);
        var genuine := IsReallyDefault(cases.keys, d, canReachTo, isBefore);
        var escapes := Escapes(CaseNodes(cases.keys, d), firstEscape);
        && (!genuine || escapes == [] ==>
              && follow == d && defaultNode == Null && unchanged(g))
        && (genuine && escapes != [] && d == Null ==>
              && follow == escapes[|escapes| - 1] && defaultNode == Null && unchanged(g))
        && (genuine && escapes != [] && d != Null ==>
              var last := escapes[|escapes| - 1];
              && defaultNode == d
              && g.Valid() && follow == At(old(g.size)) && g.size == old(g.size) + 1
              && last.At?
              && g.edges == Connect(RedirectIncomings(old(g.edges), dominatedIncomings(last, CaseNodes(cases.keys, d)), last.id, old(g.size)),
                                    At(old(g.size)), last)
              && g.additionalCall == old(g.additionalCall) + [1])
    {
      var nodes := Nodes();
      var found, kept := FindFollow(cases.keys, defaultNode, canReachTo, isBefore, firstEscape);
      defaultNode := kept;
      if kept == Null {
        follow := found;
      } else {
        EscapeWithin(nodes, firstEscape, g.size, found);
        var created := FollowSplitter(g, found.id, dominatedIncomings(found, nodes));
        follow := At(created);
      }
    }
  }

  /** The splitter the follow of a switch with a default gets: it gathers
      the listed incoming edges of the follow, leads to the follow, and is
      called once. */
  method FollowSplitter(g: NodeGraph, follow: nat, incomings: seq<nat>) returns (created: nat)
    requires g.Valid() && follow < g.size && AllBelow(incomings, g.size)
    modifies g
    ensures g.Valid() && created == old(g.size) && g.size == old(g.size) + 1
    ensures g.edges == Connect(RedirectIncomings(old(g.edges), incomings, follow, created), At(created), At(follow))
    ensures g.additionalCall == old(g.additionalCall) + [1]
  {
    created := CreateSplitterNodeBefore(g, follow, incomings);
    g.additionalCall := g.additionalCall[created := g.additionalCall[created] + 1];
  }

  /** The follow search of `analyze`: a default node that is really one is
      kept and the follow is the last candidate of the search; without a
      candidate, or when the default node is the exit of the switch, that
      node is the follow and no default is kept. */
  method FindFollow(keys: seq<Ref>, defaultNode: Ref,
                    canReachTo: (Ref, Ref, set<Ref>) -> bool,
                    isBefore: (Ref, Ref, set<Ref>) -> bool,
                    firstEscape: Ref -> Option<Ref>)
    returns (follow: Ref, kept: Ref)
    ensures var nodes := CaseNodes(keys, defaultNode);
      var escapes := Escapes(nodes, firstEscape);
      && (kept == Null || kept == defaultNode)
      && (kept != Null ==> follow in escapes)
      && (IsReallyDefault(keys, defaultNode, canReachTo, isBefore) && escapes != [] ==>
            kept == defaultNode && follow == escapes[|escapes| - 1])
      && (!IsReallyDefault(keys, defaultNode, canReachTo, isBefore) || escapes == [] ==>
            kept == Null && follow == defaultNode)
  {
    var candidates := Escapes(CaseNodes(keys, defaultNode), firstEscape);
    follow, kept := defaultNode, Null;
    if IsReallyDefault(keys, defaultNode, canReachTo, isBefore) && candidates != [] {
      var i := 0;
      while i < |candidates|
        invariant 0 <= i <= |candidates|
        invariant i > 0 ==> follow == candidates[i - 1]
      {
        follow := candidates[i];
        i := i + 1;
      }
      kept := defaultNode;
    }
  }
}
