/** Loop structures: the roles a loop gives to its nodes (entrance, first
    node, checkpoint, exit), the write-once stamps that tell each node which
    loop it ends or heads, and the infinite loop `for (;;)`. */
module Loops {
  import opened Wrappers
  import opened Operands

  // ---------------------------------------------------------------------
  // Write-once cells
  // ---------------------------------------------------------------------

  /** A variable that can be fixed: once fixed, setting it has no effect. */
  datatype Cell<T> = Cell(value: Option<T>, fixed: bool)

  /** `set(v)`: takes `v` unless the cell is fixed. */
  function Set<T>(c: Cell<T>, v: T): (r: Cell<T>)
    ensures r.fixed == c.fixed
    ensures c.fixed ==> r == c
  {
    if c.fixed then c else Cell(Some(v), false)
  }

  /** `fix()`: no later `set` changes the value. */
  function Fix<T>(c: Cell<T>): (r: Cell<T>)
    ensures r.fixed && r.value == c.value
  {
    Cell(c.value, true)
  }

  /** What a loop does to the stamp of one of its nodes: `set` then `fix`. */
  function Stamp<T>(c: Cell<T>, loop: T): Cell<T> {
    Fix(Set(c, loop))
  }

  /** The first loop to stamp a cell owns it for good: the stamp holds
      that loop when the cell was free, later stamps change nothing, and a
      cell fixed before is left as it was. */
  lemma StampIsWriteOnce<T>(c: Cell<T>, first: T, later: T)
    ensures Stamp(c, first).fixed
    ensures !c.fixed ==> Stamp(c, first).value == Some(first)
    ensures c.fixed ==> Stamp(c, first) == c
    ensures Stamp(Stamp(c, first), later) == Stamp(c, first)
  {
  }

  // ---------------------------------------------------------------------
  // Loops
  // ---------------------------------------------------------------------

  /** A structure built from the nodes; only its identity matters here. */
  datatype Structure = Structure(id: nat)

  /** The two loop stamps of every node: the loop the node is the exit of
      (`loopExit`) and the loop whose checkpoint it is (`loopHeader`). A
      node not in a map has a free, unfixed cell. */
  class NodeStamps {
    var loopExit: map<Ref, Cell<Loopable>>
    var loopHeader: map<Ref, Cell<Loopable>>

    constructor ()
      ensures loopExit == map[] && loopHeader == map[]
    {
      loopExit := map[];
      loopHeader := map[];
    }

    function ExitOf(n: Ref): (r: Cell<Loopable>)
      reads this
      ensures n !in loopExit ==> r == Cell(None, false)
    {
      if n in loopExit then loopExit[n] else Cell(None, false)
    }

    function HeaderOf(n: Ref): (r: Cell<Loopable>)
      reads this
      ensures n !in loopHeader ==> r == Cell(None, false)
    {
      if n in loopHeader then loopHeader[n] else Cell(None, false)
    }
  }

  /** A loop of the structured code. Its roles never change once it is
      built. */
  class Loopable {
    /** The node the structure is built for. */
    const that: Ref
    /** The node that dominates every node of the loop. */
    const entrance: Ref
    /** The node control reaches when the loop ends, if any. */
    const exit: Ref
    /** The first node the loop body runs. */
    const first: Ref
    /** The condition or update node of the loop, if any. */
    const checkpoint: Ref

    /** The constructor stamps the exit node with this loop as the loop it
        ends, and the checkpoint with this loop as the loop it heads; a
        null exit or checkpoint is left alone, and a stamp fixed by an
        earlier loop is kept. */
    constructor (that: Ref, entrance: Ref, exit: Ref, first: Ref, checkpoint: Ref, stamps: NodeStamps)
      modifies stamps
      ensures this.that == that && this.entrance == entrance && this.exit == exit
      ensures this.first == first && this.checkpoint == checkpoint
      ensures stamps.loopExit ==
        if exit == Null then old(stamps.loopExit) else old(stamps.loopExit)[exit := Stamp(old(stamps.ExitOf(exit)), this)]
      ensures stamps.loopHeader ==
        if checkpoint == Null then old(stamps.loopHeader) else old(stamps.loopHeader)[checkpoint := Stamp(old(stamps.HeaderOf(checkpoint)), this)]
    {
      this.that := that;
      this.entrance := entrance;
      this.exit := exit;
      this.first := first;
      this.checkpoint := checkpoint;
      new;
      if exit != Null {
        var cell := Set(stamps.ExitOf(exit), this);
        stamps.loopExit := stamps.loopExit[exit := Fix(cell)];
      }
      if checkpoint != Null {
        var cell := Set(stamps.HeaderOf(checkpoint), this);
        stamps.loopHeader := stamps.loopHeader[checkpoint := Fix(cell)];
      }
    }

    /** `containsAsHeader(node)`: the node is the entrance, the checkpoint
        or the first node of the loop. */
    predicate ContainsAsHeader(n: Ref) {
      n == entrance || n == checkpoint || n == first
    }
  }

  // ---------------------------------------------------------------------
  // The infinite loop
  // ---------------------------------------------------------------------

  /** What `writeCode` hands to the coder: the loop's label, the structures
      its body writes, and the structure written after it. */
  datatype CoderCall = WriteInfiniteLoop(loopLabel: string, body: seq<Structure>, follow: Option<Structure>)

  /** `for (;;)` around `inner`, followed by `follow`. The loop is a
      `Loopable` whose header node `that` is entrance, first node and
      checkpoint at once, and whose exit is the follow node. */
  class InfiniteLoop {
    const loop: Loopable
    /** The structure of the loop body, if the body node gave one. */
    const inner: Option<Structure>
    /** The structure after the loop, if there is one. */
    const follow: Option<Structure>

    /** The constructor. The structures of the body and of what follows
        are built by the nodes themselves (`analyze` and `process`), which
        are not part of this model; they come in as `innerStructure` and
        `followStructure`. */
    constructor (that: Ref, innerStructure: Option<Structure>, followNode: Ref, followStructure: Option<Structure>, stamps: NodeStamps)
      modifies stamps
      ensures fresh(loop)
      ensures loop.that == that && loop.entrance == that && loop.first == that && loop.checkpoint == that
      ensures loop.exit == followNode
      ensures inner == innerStructure && follow == followStructure
      ensures stamps.loopExit ==
        if followNode == Null then old(stamps.loopExit) else old(stamps.loopExit)[followNode := Stamp(old(stamps.ExitOf(followNode)), loop)]
      ensures stamps.loopHeader ==
        if that == Null then old(stamps.loopHeader) else old(stamps.loopHeader)[that := Stamp(old(stamps.HeaderOf(that)), loop)]
    {
      loop := new Loopable(that, that, followNode, that, that, stamps);
      inner := innerStructure;
      follow := followStructure;
    }

    /** `children()`: the body structure, null or not. */
    function Children(): (r: seq<Option<Structure>>)
      ensures |r| == 1 && r[0] == inner
    {
      [inner]
    }

    /** `follower()`: the structure after the loop, or nothing when there is
        none. */
    function Follower(): (r: seq<Structure>)
      ensures |r| <= 1
      ensures r == [] <==> follow.None?
      ensures forall s :: s in r <==> follow == Some(s)
    {
      if follow.Some? then [follow.value] else []
    }

    /** `writeCode(coder)`: the infinite loop under its label, whose body
        writes the inner structure when there is one, followed by the
        follow structure. */
    function WriteCode(loopLabel: string): (r: CoderCall)
      ensures r.loopLabel == loopLabel && r.follow == follow
      ensures |r.body| <= 1 && (r.body == [] <==> inner.None?)
    {
      WriteInfiniteLoop(loopLabel, if inner.Some? then [inner.value] else [], follow)
    }
  }

  /** The body written is the child that is not null, and what the coder
      is told follows the loop is its follower. */
  lemma WriteCodeWritesChildren(l: InfiniteLoop, loopLabel: string)
    ensures forall s :: s in l.WriteCode(loopLabel).body <==> Some(s) in l.Children()
    ensures forall s :: l.WriteCode(loopLabel).follow == Some(s) <==> s in l.Follower()
  {
  }

  /** An infinite loop is headed by its header node alone. */
  lemma InfiniteLoopHeader(l: InfiniteLoop, that: Ref, n: Ref)
    requires l.loop.that == that && l.loop.entrance == that && l.loop.first == that && l.loop.checkpoint == that
    ensures l.loop.ContainsAsHeader(n) <==> n == that
  {
  }
}
