/** The control-flow node graph: an arena of nodes addressed by slot number,
    each with an operand stack, a previous/next link in appearance order, a
    destination and a line number; the edges between nodes; and the list of
    nodes in appearance order. */
module Graph {
  import opened Operands

  // ---------------------------------------------------------------------
  // Lists of nodes
  // ---------------------------------------------------------------------

  predicate Distinct(s: seq<nat>) {
    forall i, j :: 0 <= i < j < |s| ==> s[i] != s[j]
  }

  /** Every element of the list is a slot below `bound`. */
  predicate AllBelow(s: seq<nat>, bound: nat) {
    forall i :: 0 <= i < |s| ==> s[i] < bound
  }

  /** `indexOf`: the position of the first occurrence of `x`, or -1. */
  function IndexOf(s: seq<nat>, x: nat): (r: int)
    ensures -1 <= r < |s|
    ensures r == -1 <==> x !in s
    ensures r >= 0 ==> s[r] == x && x !in s[..r]
  {
    if s == [] then -1
    else if s[0] == x then 0
    else
      var k := IndexOf(s[1..], x);
      assert s[1..][..if k < 0 then 0 else k] == s[1..if k < 0 then 1 else k + 1];
      if k < 0 then -1 else k + 1
  }

  /** `remove(Object)`: the list without the first occurrence of `x`. */
  function RemoveFirst(s: seq<nat>, x: nat): (r: seq<nat>)
  {
    var k := IndexOf(s, x);
    if k < 0 then s else s[..k] + s[k + 1..]
  }

  /** `add(index, element)`: `x` inserted before position `k`. */
  function InsertAt(s: seq<nat>, k: nat, x: nat): (r: seq<nat>)
    requires k <= |s|
    ensures |r| == |s| + 1 && r[k] == x && r[..k] == s[..k] && r[k + 1..] == s[k..]
  {
    s[..k] + [x] + s[k..]
  }

  /** Removing an element from a list without repetitions removes exactly
      that element and keeps the order of the others. */
  lemma RemoveFirstOfDistinct(s: seq<nat>, x: nat, bound: nat)
    requires Distinct(s) && x in s && AllBelow(s, bound)
    ensures var r := RemoveFirst(s, x);
      Distinct(r) && AllBelow(r, bound) && |r| == |s| - 1 && x !in r && forall y :: y in r <==> y in s && y != x
  {
    RemoveFirstStaysDistinct(s, x, bound);
    RemoveFirstMembers(s, x);
  }

  /** The elements of the list after the removal, by position. */
  lemma RemoveAtPositions(s: seq<nat>, k: nat)
    requires k < |s|
    ensures var r := s[..k] + s[k + 1..];
      |r| == |s| - 1 && forall i :: 0 <= i < |r| ==> r[i] == if i < k then s[i] else s[i + 1]
  {
  }

  lemma RemoveFirstStaysDistinct(s: seq<nat>, x: nat, bound: nat)
    requires Distinct(s) && x in s && AllBelow(s, bound)
    ensures var r := RemoveFirst(s, x);
      Distinct(r) && AllBelow(r, bound) && |r| == |s| - 1
  {
    var k := IndexOf(s, x);
    RemoveAtPositions(s, k);
    SkipOneStaysDistinct(s, s[..k] + s[k + 1..], k, bound);
  }

  /** A list that is another one without its k-th element keeps its
      elements distinct and below the bound. */
  lemma SkipOneStaysDistinct(s: seq<nat>, r: seq<nat>, k: nat, bound: nat)
    requires Distinct(s) && AllBelow(s, bound) && |r| == |s| - 1
    requires forall i {:trigger r[i]} :: 0 <= i < |r| ==> r[i] == if i < k then s[i] else s[i + 1]
    ensures Distinct(r) && AllBelow(r, bound)
  {
    forall i | 0 <= i < |r| ensures r[i] < bound {
      var i' := if i < k then i else i + 1;
      assert r[i] == s[i'];
    }
    forall i, j | 0 <= i < j < |r| ensures r[i] != r[j] {
      var i', j' := if i < k then i else i + 1, if j < k then j else j + 1;
      assert r[i] == s[i'];
      assert r[j] == s[j'];
      assert i' < j' < |s|;
    }
  }

  lemma RemoveFirstMembers(s: seq<nat>, x: nat)
    requires Distinct(s) && x in s
    ensures var r := RemoveFirst(s, x);
      x !in r && forall y :: y in r <==> y in s && y != x
  {
    var k := IndexOf(s, x);
    RemoveAtPositions(s, k);
    SkipOneMembers(s, s[..k] + s[k + 1..], k);
  }

  /** A list that is another one without its k-th element holds exactly
      the others, when the list has no repetitions. */
  lemma SkipOneMembers(s: seq<nat>, r: seq<nat>, k: nat)
    requires Distinct(s) && k < |s| && |r| == |s| - 1
    requires forall i {:trigger r[i]} :: 0 <= i < |r| ==> r[i] == if i < k then s[i] else s[i + 1]
    ensures forall y :: y in r <==> y in s && y != s[k]
  {
    forall y | y in r ensures y in s && y != s[k] {
      var i :| 0 <= i < |r| && r[i] == y;
      var i' := if i < k then i else i + 1;
      assert y == s[i'] && i' != k;
    }
    forall y | y in s && y != s[k] ensures y in r {
      var i :| 0 <= i < |s| && s[i] == y;
      if i < k { assert r[i] == y; } else { assert r[i - 1] == y; }
    }
  }

  lemma InsertIntoDistinct(s: seq<nat>, k: nat, x: nat, bound: nat)
    requires Distinct(s) && x !in s && k <= |s| && AllBelow(s, bound) && x < bound
    ensures Distinct(InsertAt(s, k, x)) && AllBelow(InsertAt(s, k, x), bound)
    ensures forall y :: y in InsertAt(s, k, x) <==> y in s || y == x
  {
    var r := InsertAt(s, k, x);
    forall i, j | 0 <= i < j < |r| ensures r[i] != r[j] {
      if j < k { assert r[i] == s[i] && r[j] == s[j]; }
      else if i > k { assert r[i] == s[i - 1] && r[j] == s[j - 1]; }
      else if i == k { assert r[j] == s[j - 1]; }
      else if j == k { assert r[i] == s[i]; }
      else { assert r[i] == s[i] && r[j] == s[j - 1]; }
    }
    forall y ensures y in r <==> y in s || y == x {
      if y in s {
        var i :| 0 <= i < |s| && s[i] == y;
        if i < k { assert r[i] == y; } else { assert r[i + 1] == y; }
      }
      if y in r {
        var i :| 0 <= i < |r| && r[i] == y;
        if i < k { assert y == s[i]; } else if i > k { assert y == s[i - 1]; }
      }
    }
  }

  // ---------------------------------------------------------------------
  // Appearance-order links
  // ---------------------------------------------------------------------

  /** A previous/next reference is null or names an allocated slot. */
  predicate LinkOk(r: Ref, size: nat) {
    r.Null? || (r.At? && r.id < size)
  }

  /** Links into the first `n` slots stay valid when a slot with a null
      link is added. */
  lemma LinksGrow(links: seq<Ref>, n: nat)
    requires |links| == n && forall k :: 0 <= k < n ==> LinkOk(links[k], n)
    ensures forall k :: 0 <= k < n + 1 ==> LinkOk((links + [Null])[k], n + 1)
  {
    forall k | 0 <= k < n + 1 ensures LinkOk((links + [Null])[k], n + 1) {
      if k < n { assert LinkOk(links[k], n); }
    }
  }

  /** One step of `link`: `a.next := b` when `a` is non-null and
      `b.previous := a` when `b` is non-null. */
  function LinkStep(previous: seq<Ref>, next: seq<Ref>, a: Ref, b: Ref): (r: (seq<Ref>, seq<Ref>))
    requires LinkOk(a, |previous|) && LinkOk(b, |previous|) && |next| == |previous|
    ensures |r.0| == |previous| && |r.1| == |next|
  {
    (if b.At? then previous[b.id := a] else previous,
     if a.At? then next[a.id := b] else next)
  }

  /** `link(chain...)`: every adjacent pair of the chain linked, left to right. */
  function Links(previous: seq<Ref>, next: seq<Ref>, chain: seq<Ref>): (r: (seq<Ref>, seq<Ref>))
    requires |next| == |previous| && forall k :: 0 <= k < |chain| ==> LinkOk(chain[k], |previous|)
    ensures |r.0| == |previous| && |r.1| == |next|
    decreases |chain|
  {
    if |chain| < 2 then (previous, next)
    else
      var (p, n) := Links(previous, next, chain[..|chain| - 1]);
      LinkStep(p, n, chain[|chain| - 2], chain[|chain| - 1])
  }

  /** Linking two nodes: each points at the other, nothing else changes. */
  lemma LinksTwo(previous: seq<Ref>, next: seq<Ref>, a: Ref, b: Ref)
    requires |next| == |previous| && LinkOk(a, |previous|) && LinkOk(b, |previous|)
    ensures var (p, n) := Links(previous, next, [a, b]);
      && (forall k :: 0 <= k < |p| ==> p[k] == (if b == At(k) then a else previous[k]))
      && (forall k :: 0 <= k < |n| ==> n[k] == (if a == At(k) then b else next[k]))
  {
    assert [a, b][..1] == [a];
  }

  /** Linking three nodes `a, c, b` splices `c` between `a` and `b`. */
  lemma LinksThree(previous: seq<Ref>, next: seq<Ref>, a: Ref, c: Ref, b: Ref)
    requires |next| == |previous| && LinkOk(a, |previous|) && LinkOk(c, |previous|) && LinkOk(b, |previous|)
    ensures var (p, n) := Links(previous, next, [a, c, b]);
      && (forall k :: 0 <= k < |p| ==> p[k] == (if b == At(k) then c else if c == At(k) then a else previous[k]))
      && (forall k :: 0 <= k < |n| ==> n[k] == (if c == At(k) then b else if a == At(k) then c else next[k]))
  {
    assert [a, c, b][..2] == [a, c];
    LinksTwo(previous, next, a, c);
    var (p1, n1) := Links(previous, next, [a, c]);
    var (p, n) := Links(previous, next, [a, c, b]);
    assert (p, n) == LinkStep(p1, n1, c, b);
    forall k | 0 <= k < |p|
      ensures p[k] == (if b == At(k) then c else if c == At(k) then a else previous[k])
    {
      assert p1[k] == (if c == At(k) then a else previous[k]);
    }
    forall k | 0 <= k < |n|
      ensures n[k] == (if c == At(k) then b else if a == At(k) then c else next[k])
    {
      assert n1[k] == (if a == At(k) then c else next[k]);
    }
  }

  // ---------------------------------------------------------------------
  // Edges. Each node's `outgoing` and `incoming` sets are the two views of
  // one set of pairs, so `connect` and `disconnect` update both at once.
  // ---------------------------------------------------------------------

  function Outgoing(edges: set<(Ref, Ref)>, n: Ref): set<Ref> {
    set e | e in edges && e.0 == n :: e.1
  }

  function Incoming(edges: set<(Ref, Ref)>, n: Ref): set<Ref> {
    set e | e in edges && e.1 == n :: e.0
  }

  /** A reference to an allocated slot, or to no slot at all. */
  predicate Within(r: Ref, size: nat) {
    r.At? ==> r.id < size
  }

  /** Every edge joins references within the arena. */
  predicate EdgesWithin(edges: set<(Ref, Ref)>, size: nat) {
    forall e :: e in edges ==> Within(e.0, size) && Within(e.1, size)
  }

  /** `a.connect(b)`: adds the edge; a null end adds nothing. */
  function Connect(edges: set<(Ref, Ref)>, a: Ref, b: Ref): (r: set<(Ref, Ref)>)
    ensures a != Null && b != Null ==> r == edges + {(a, b)}
    ensures a == Null || b == Null ==> r == edges
  {
    if a == Null || b == Null then edges else edges + {(a, b)}
  }

  /** `a.disconnect(b)`: removes the edge. */
  function Disconnect(edges: set<(Ref, Ref)>, a: Ref, b: Ref): (r: set<(Ref, Ref)>)
    ensures r == edges - {(a, b)}
  {
    edges - {(a, b)}
  }

  /** The edge rewiring of disposal: every predecessor of `t` is connected
      to every successor of `t`, then every edge at `t` is dropped. */
  function Bypass(edges: set<(Ref, Ref)>, t: Ref): (r: set<(Ref, Ref)>)
  {
    var ins := Incoming(edges, t);
    var outs := Outgoing(edges, t);
    set e | e in edges + (set i, o | i in ins && o in outs :: (i, o)) && e.0 != t && e.1 != t
  }

  /** Disposal leaves no edge at the disposed node, keeps every edge away
      from it, and turns each path through it into a direct edge. */
  lemma BypassSound(edges: set<(Ref, Ref)>, t: Ref)
    ensures forall e :: e in Bypass(edges, t) ==> e.0 != t && e.1 != t
    ensures forall e :: e in edges && e.0 != t && e.1 != t ==> e in Bypass(edges, t)
    ensures forall i, o :: (i, t) in edges && (t, o) in edges && i != t && o != t ==> (i, o) in Bypass(edges, t)
    ensures forall e :: e in Bypass(edges, t) && e !in edges ==> (e.0, t) in edges && (t, e.1) in edges
  {
    var ins := Incoming(edges, t);
    var outs := Outgoing(edges, t);
    forall i, o | (i, t) in edges && (t, o) in edges && i != t && o != t
      ensures (i, o) in Bypass(edges, t)
    {
      assert i in ins && o in outs;
    }
  }

  // ---------------------------------------------------------------------
  // Disposal: the retargeting of the predecessors of a disposed node
  // ---------------------------------------------------------------------

  /** Every node of `ins` whose destination is `t` gets destination `d`. */
  function RetargetDestinations(dest: seq<Ref>, ins: set<Ref>, t: nat, d: Ref): (r: seq<Ref>)
    ensures |r| == |dest|
    ensures forall k :: 0 <= k < |dest| ==> r[k] == (if At(k) in ins && dest[k] == At(t) then d else dest[k])
  {
    seq(|dest|, k requires 0 <= k < |dest| => if At(k) in ins && dest[k] == At(t) then d else dest[k])
  }

  /** Every condition on the stack of a node of `ins` that targets `t`
      targets `d` instead. */
  function RetargetStacks(stacks: seq<seq<Operand>>, ins: set<Ref>, t: nat, d: Ref): (r: seq<seq<Operand>>)
    ensures |r| == |stacks|
    ensures forall k :: 0 <= k < |stacks| ==> r[k] == (if At(k) in ins then RetargetStack(stacks[k], At(t), d) else stacks[k])
  {
    seq(|stacks|, k requires 0 <= k < |stacks| => if At(k) in ins then RetargetStack(stacks[k], At(t), d) else stacks[k])
  }

  /** The stacks after disposal of `t`: when the stack is kept, the operands
      of `t` go on top of the stack of its previous node `prev` in their
      order; the stack of `t` ends up empty either way. */
  function TransferStack(stacks: seq<seq<Operand>>, t: nat, prev: Ref, clearStack: bool): (r: seq<seq<Operand>>)
    requires t < |stacks| && (prev.At? ==> prev.id < |stacks|)
    ensures |r| == |stacks| && r[t] == []
    ensures forall k :: 0 <= k < |stacks| && k != t ==>
      r[k] == (if !clearStack && prev == At(k) then stacks[t] + stacks[k] else stacks[k])
  {
    var kept := if !clearStack && prev.At? then stacks[prev.id := stacks[t] + stacks[prev.id]] else stacks;
    kept[t := []]
  }

  /** The retargeting loop of disposal: visits the predecessors of `t` one
      by one; a predecessor whose destination is `t` gets destination `d`,
      and the conditions on its stack that target `t` target `d`. */
  method RetargetIncoming(dest: seq<Ref>, stacks: seq<seq<Operand>>, incoming: set<Ref>, t: nat, d: Ref)
    returns (dest': seq<Ref>, stacks': seq<seq<Operand>>)
    requires |dest| == |stacks|
    ensures dest' == RetargetDestinations(dest, incoming, t, d)
    ensures stacks' == RetargetStacks(stacks, incoming, t, d)
  {
    dest', stacks' := dest, stacks;
    var pending := incoming;
    while pending != {}
      invariant pending <= incoming
      invariant dest' == RetargetDestinations(dest, incoming - pending, t, d)
      invariant stacks' == RetargetStacks(stacks, incoming - pending, t, d)
      decreases pending
    {
      var node :| node in pending;
      ghost var done := incoming - pending;
      RetargetOneMore(dest, stacks, done, node, t, d);
      if node.At? && node.id < |dest| {
        if dest'[node.id] == At(t) {
          dest' := dest'[node.id := d];
        }
        stacks' := stacks'[node.id := RetargetStack(stacks'[node.id], At(t), d)];
      }
      assert incoming - (pending - {node}) == done + {node};
      pending := pending - {node};
    }
  }

  /** One more visited predecessor: its destination and stack are
      retargeted, unless it was visited before. */
  lemma RetargetOneMore(dest: seq<Ref>, stacks: seq<seq<Operand>>, done: set<Ref>, node: Ref, t: nat, d: Ref)
    requires |dest| == |stacks| && node !in done
    ensures var dest0, stacks0 := RetargetDestinations(dest, done, t, d), RetargetStacks(stacks, done, t, d);
      && RetargetDestinations(dest, done + {node}, t, d) ==
           (if node.At? && node.id < |dest| && dest0[node.id] == At(t) then dest0[node.id := d] else dest0)
      && RetargetStacks(stacks, done + {node}, t, d) ==
           (if node.At? && node.id < |dest| then stacks0[node.id := RetargetStack(stacks0[node.id], At(t), d)] else stacks0)
  {
  }

  /** After disposal of `t` no predecessor of it refers to it: neither by its
      destination nor by a condition target, provided the destination of
      `t` is not `t` itself. */
  lemma {:induction false} RetargetLeavesNoPredecessorReference(dest: seq<Ref>, stacks: seq<seq<Operand>>, ins: set<Ref>, t: nat)
    requires t < |dest| == |stacks| && dest[t] != At(t)
    ensures forall k :: 0 <= k < |dest| && At(k) in ins ==> RetargetDestinations(dest, ins, t, dest[t])[k] != At(t)
    ensures forall k, j :: 0 <= k < |stacks| && At(k) in ins && 0 <= j < |stacks[k]| && stacks[k][j].Cond? ==>
      && RetargetStacks(stacks, ins, t, dest[t])[k][j].c.thenNode != At(t)
      && RetargetStacks(stacks, ins, t, dest[t])[k][j].c.elzeNode != At(t)
    ensures forall k :: 0 <= k < |stacks| ==> SameShape(stacks[k], RetargetStacks(stacks, ins, t, dest[t])[k])
  {
    forall k | 0 <= k < |stacks|
      ensures SameShape(stacks[k], RetargetStacks(stacks, ins, t, dest[t])[k])
    {
      if At(k) in ins {
        RetargetLeavesNoReference(stacks[k], At(t), dest[t]);
      }
    }
    forall k | 0 <= k < |stacks| && At(k) in ins
      ensures forall j :: 0 <= j < |stacks[k]| && stacks[k][j].Cond? ==>
        && RetargetStacks(stacks, ins, t, dest[t])[k][j].c.thenNode != At(t)
        && RetargetStacks(stacks, ins, t, dest[t])[k][j].c.elzeNode != At(t)
    {
      RetargetLeavesNoReference(stacks[k], At(t), dest[t]);
    }
  }

  // ---------------------------------------------------------------------
  // The arena
  // ---------------------------------------------------------------------

  /** The line number of a node that has none. */
  const NO_LINE := -1

  class NodeGraph {
    /** Number of allocated slots; every slot below it is a node. */
    var size: nat
    /** The nodes in appearance order. */
    var nodes: seq<nat>
    var previous: seq<Ref>
    var next: seq<Ref>
    var destination: seq<Ref>
    /** Each node's operand stack, top first. */
    var stacks: seq<seq<Operand>>
    var lineNumber: seq<int>
    /** False for a splitter node, which only gathers edges. */
    var connectable: seq<bool>
    var additionalCall: seq<int>
    var edges: set<(Ref, Ref)>

    ghost predicate Valid()
      reads this
    {
      && |previous| == size && |next| == size && |destination| == size && |stacks| == size
      && |lineNumber| == size && |connectable| == size && |additionalCall| == size
      && AllBelow(nodes, size) && Distinct(nodes)
      && (forall n :: 0 <= n < size ==> LinkOk(previous[n], size) && LinkOk(next[n], size))
    }

    constructor ()
      ensures Valid() && size == 0 && nodes == [] && edges == {}
    {
      size, nodes := 0, [];
      previous, next, destination, stacks := [], [], [], [];
      lineNumber, connectable, additionalCall := [], [], [];
      edges := {};
    }

    /** A new node in a fresh slot: no links, no destination, empty stack,
        no line number. The list of nodes and the edges are untouched. */
    method Allocate(isConnectable: bool) returns (n: nat)
      requires Valid()
      modifies this
      ensures Valid() && n == old(size) && size == old(size) + 1
      ensures previous == old(previous) + [Null] && next == old(next) + [Null]
      ensures destination == old(destination) + [Null] && stacks == old(stacks) + [[]]
      ensures lineNumber == old(lineNumber) + [NO_LINE] && connectable == old(connectable) + [isConnectable]
      ensures additionalCall == old(additionalCall) + [0]
      ensures nodes == old(nodes) && edges == old(edges)
    {
      n := size;
      size := size + 1;
      previous, next, destination := previous + [Null], next + [Null], destination + [Null];
      stacks, lineNumber := stacks + [[]], lineNumber + [NO_LINE];
      connectable, additionalCall := connectable + [isConnectable], additionalCall + [0];
      LinksGrow(old(previous), n);
      LinksGrow(old(next), n);
    }

    /** `link(chain...)`: links each adjacent pair of the chain in turn and
        returns the last element. */
    method Link(chain: seq<Ref>) returns (last: Ref)
      requires Valid() && |chain| > 0
      requires forall k :: 0 <= k < |chain| ==> LinkOk(chain[k], size)
      modifies this
      ensures Valid() && (previous, next) == Links(old(previous), old(next), chain)
      ensures last == chain[|chain| - 1]
      ensures size == old(size) && nodes == old(nodes) && destination == old(destination)
      ensures stacks == old(stacks) && lineNumber == old(lineNumber) && edges == old(edges)
      ensures connectable == old(connectable) && additionalCall == old(additionalCall)
    {
      var i := 0;
      while i < |chain| - 1
        invariant 0 <= i <= |chain| - 1
        invariant |previous| == size && |next| == size
        invariant (previous, next) == Links(old(previous), old(next), chain[..i + 1])
        invariant forall n :: 0 <= n < size ==> LinkOk(previous[n], size) && LinkOk(next[n], size)
        invariant size == old(size) && nodes == old(nodes) && destination == old(destination)
        invariant stacks == old(stacks) && lineNumber == old(lineNumber) && edges == old(edges)
        invariant connectable == old(connectable) && additionalCall == old(additionalCall)
      {
        var a, b := chain[i], chain[i + 1];
        if a.At? {
          next := next[a.id := b];
        }
        if b.At? {
          previous := previous[b.id := a];
        }
        assert chain[..i + 2][..i + 1] == chain[..i + 1];
        i := i + 1;
      }
      assert chain[..|chain|] == chain;
      last := chain[|chain| - 1];
    }

    /** `nodes.add(n)`: appends an unlisted node to the list of nodes. */
    method Append(n: nat)
      requires Valid() && n < size && n !in nodes
      modifies this
      ensures Valid() && nodes == old(nodes) + [n]
      ensures size == old(size) && previous == old(previous) && next == old(next) && destination == old(destination)
      ensures stacks == old(stacks) && lineNumber == old(lineNumber) && edges == old(edges)
      ensures connectable == old(connectable) && additionalCall == old(additionalCall)
    {
      InsertIntoDistinct(nodes, |nodes|, n, size);
      assert InsertAt(nodes, |nodes|, n) == nodes + [n];
      nodes := nodes + [n];
    }

    /** `createNodeAfter(index)` (with `isConnectable` true) and
        `createNodeAfter(index, connectable)`: a new node placed right after `index` in
        the list of nodes (at the front when `index` is not listed) and
        between `index` and its next node in the link chain. It takes over
        the line number of `index`, which loses it, and becomes the
        destination of `index` when that had none. */
    method CreateNodeAfter(index: nat, isConnectable: bool) returns (created: nat)
      requires Valid() && index < size
      modifies this
      ensures Valid() && created == old(size) && size == old(size) + 1
      ensures nodes == InsertAt(old(nodes), IndexOf(old(nodes), index) + 1, created)
      ensures (previous, next) == Links(old(previous) + [Null], old(next) + [Null], [At(index), At(created), old(next[index])])
      ensures lineNumber == old(lineNumber)[index := NO_LINE] + [old(lineNumber[index])]
      ensures destination == old(destination)[index := if old(destination[index]) == Null then At(created) else old(destination[index])] + [Null]
      ensures stacks == old(stacks) + [[]] && edges == old(edges)
      ensures connectable == old(connectable) + [isConnectable] && additionalCall == old(additionalCall) + [0]
    {
      var listed, position := nodes, IndexOf(nodes, index) + 1;
      var lines, destinations, after := lineNumber, destination, next[index];
      created := Allocate(isConnectable);
      lineNumber := lines[index := NO_LINE] + [lines[index]];
      if destinations[index] == Null {
        destination := destinations[index := At(created)] + [Null];
      }
      var _ := Link([At(index), At(created), after]);
      Insert(position, created);
    }

    /** `createNodeBefore(index, connectable)`: the mirror image of
        `CreateNodeAfter`. A new node placed right before `index` in the list
        of nodes (at the front when `index` is not listed) and between the
        previous node of `index` and `index` in the link chain; no line
        number, destination, stack or edge. */
    method CreateNodeBefore(index: nat, isConnectable: bool) returns (created: nat)
      requires Valid() && index < size
      modifies this
      ensures Valid() && created == old(size) && size == old(size) + 1
      ensures nodes == InsertAt(old(nodes), if index in old(nodes) then IndexOf(old(nodes), index) else 0, created)
      ensures (previous, next) == Links(old(previous) + [Null], old(next) + [Null], [old(previous[index]), At(created), At(index)])
      ensures lineNumber == old(lineNumber) + [NO_LINE] && destination == old(destination) + [Null]
      ensures stacks == old(stacks) + [[]] && edges == old(edges)
      ensures connectable == old(connectable) + [isConnectable] && additionalCall == old(additionalCall) + [0]
    {
      var position := if index in nodes then IndexOf(nodes, index) else 0;
      created := Allocate(isConnectable);
      var before := previous[index];
      var _ := Link([before, At(created), At(index)]);
      Insert(position, created);
    }

    /** `nodes.add(position, n)`: an unlisted node enters the list of
        nodes at the position. */
    method Insert(position: nat, n: nat)
      requires Valid() && n < size && n !in nodes && position <= |nodes|
      modifies this`nodes
      ensures Valid() && nodes == InsertAt(old(nodes), position, n)
    {
      InsertIntoDistinct(nodes, position, n, size);
      nodes := InsertAt(nodes, position, n);
    }

    /** The graph part of `dispose(target, clearStack, ...)` for a listed
        node `t`: `t` leaves the list of nodes; its previous and next nodes
        are linked to each other; every predecessor is connected to every
        successor and every edge at `t` is dropped; every predecessor whose
        destination or condition target was `t` gets the destination of `t`
        instead; the operands of `t` go on top of its previous node's stack
        unless `clearStack`; the stack of `t` ends up empty. */
    method Unlink(t: nat, clearStack: bool)
      requires Valid() && t < size && t in nodes
      modifies this
      ensures Valid() && size == old(size)
      ensures nodes == RemoveFirst(old(nodes), t)
      ensures (previous, next) == Links(old(previous), old(next), [old(previous[t]), old(next[t])])
      ensures edges == Bypass(old(edges), At(t))
      ensures destination == RetargetDestinations(old(destination), Incoming(old(edges), At(t)), t, old(destination[t]))
      ensures stacks == TransferStack(
        RetargetStacks(old(stacks), Incoming(old(edges), At(t)), t, old(destination[t])), t, old(previous[t]), clearStack)
      ensures lineNumber == old(lineNumber) && connectable == old(connectable) && additionalCall == old(additionalCall)
    {
      RemoveFirstOfDistinct(nodes, t, size);
      nodes := RemoveFirst(nodes, t);
      var before, after := previous[t], next[t];
      var _ := Link([before, after]);

      var incoming := Incoming(edges, At(t));
      var target := destination[t];
      edges := Bypass(edges, At(t));

      var dest, sts := RetargetIncoming(destination, stacks, incoming, t, target);
      destination := dest;

      if !clearStack && before.At? {
        sts := sts[before.id := sts[t] + sts[before.id]];
      }
      stacks := sts[t := []];
    }
  }
}
