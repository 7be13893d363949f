# Method decompiler core of reincarnation, in Dafny

This project models the core of the method decompiler of *reincarnation*, a
decompiler of Java bytecode into Java source. It also proves properties of
that model. The decompiler is a visitor over the instructions of one method:

- It records every visited opcode in a ten-slot ring buffer, the
  *instruction window*. A backward-looking pattern test over the window
  recognises short instruction idioms, such as the compiled form of
  `return c ? false : true`.
- It splits the method into *nodes*, one per label. The nodes are kept in
  their order of appearance and linked by `previous`/`next`. They are joined
  by control-flow edges, and each may have a *destination*.
- Each node has an operand stack. The visitors push, pop and rewrite
  operands on the stack of the *current* node.
- Once a node is complete, the *condition merger* looks for the run of
  condition operands on its stack. It fixes the `elze` target of the first
  condition and folds the run from right to left into compound conditions.
  A node that starts with conditions may be merged into its previous node,
  which *disposes* the node.
- Around this core sit:
  - the switch operand, which groups its cases and finds the node that
    follows the switch;
  - the splitter nodes of `NodeCreator`;
  - the loop structures (`Loopable`, `InfiniteLoop`);
  - the opcode/type tables of `Util`;
  - the assign and binary operands.

## Orientation and representation

- **Stacks are stored top first.** `s[0]` is the operand that `peek(0)` and
  `remove(0)` return in the source, which is the *last* element of the
  source's deque. `addOperand` prepends and `pollLast` takes `s[0]`.
  `addAll` onto a previous node puts the moved operands in front of that
  node's stack.
- **Nodes live in an arena.**
  - `Graph.NodeGraph` holds one slot per node: `previous`, `next`,
    `destination`, `stacks`, `lineNumber`, `connectable` and
    `additionalCall`, each a sequence indexed by slot.
  - The appearance list `nodes` is a sequence of slots.
  - Edges are one set of pairs. `connect` adds a pair and `disconnect`
    removes one, so the incoming and outgoing views always agree.
  - A reference is `Null`, `Termination` or `At(slot)`.
- **Faults.** A Java exception the source can raise becomes a `Fault`
  value, carried in a `Result` or `Outcome`. These are:
  - a null dereference, as `NullPointer`;
  - removing from an empty stack, as `StackUnderflow`;
  - an unknown opcode or array tag (`throw new Error()` in the source), as
    `UnknownOpcode` or `UnknownArrayType`;
  - the default value of `char`;
  - a failed downcast.

  The state a fault leaves behind is not specified, because it aborts the
  decompilation.
- **Graph queries are parameters.** Reachability (`canReachTo`), ordering
  (`isBefore`), dominance and the recursive outgoing walk come in as
  function parameters of the switch analysis. `Node.java` is not part of
  this model.

## Assumptions where the code is not visible

`OperandCondition`, `Node`, `MultiMap` and `Operand` are not part of this
model. Their behaviour is assumed as follows:

- The compound condition `new OperandCondition(left, right)` keeps the
  `then`/`elze` targets of `right`. Its test is `left || right` when both
  share `then`, and `!left && right` otherwise (`Conditions.Join`).
- `invert()` negates the test and keeps the targets.
- `peek(0)` on an empty stack yields no condition.
- `MultiMap` keeps its keys in insertion order.
- `addExpression(x)` pushes `x` followed by the statement end `;`.
- `target.getDestination()` in `dispose` is the target's `destination`
  field (`Decompiler.DisposeStep`, `Graph.NodeGraph.Unlink`).
- `connect` with a null end adds no edge (`Graph.Connect`). The tail split
  relies on this when it connects the created node to a condition whose
  `elze` is null.
- `NodeCreator.createNodeBefore(index, connectable)` is abstract
  (NodeCreator.java:22). The model gives it the mirror image of
  `createNodeAfter`: a new node right before `index` in the list of nodes
  (at the front when `index` is not listed) and between `index`'s previous
  node and `index` in the link chain, with no line number, destination,
  stack or edge (`Graph.NodeGraph.CreateNodeBefore`).
- `NodeCreator.createNodeAfter(index, connectable)` is abstract too
  (NodeCreator.java:61). The model takes it to be the decompiler's own
  `createNodeAfter(index)` (JavaMethodDecompiler.java:663-683), with the
  `connectable` flag of the new node set as given
  (`Graph.NodeGraph.CreateNodeAfter`).

## Model

| member | source | states |
|---|---|---|
| Window.Slot | src/main/java/reincarnation/JavaMethodDecompiler.java:805 | the ring-buffer slot a pattern entry is compared with is always a valid slot |
| Window.Push | src/main/java/reincarnation/JavaMethodDecompiler.java:788-792 | a write stores the opcode at the write index, leaves the other nine slots alone and wraps the index from ten to zero |
| Window.PushExtendsMatch | src/main/java/reincarnation/JavaMethodDecompiler.java:803-992 | after a write, the window matches `p + [q]` exactly when it matched `p` before and `q` accepts the written opcode |
| Window.PushedOpcodeMatches | src/main/java/reincarnation/JavaMethodDecompiler.java:782-806 | after any write, the one-element pattern of that exact opcode matches |
| Window.InstructionWindow.constructor | src/main/java/reincarnation/JavaMethodDecompiler.java:191-194 | a fresh window of ten zero slots, written from slot zero |
| Window.InstructionWindow.Record | src/main/java/reincarnation/JavaMethodDecompiler.java:782-793 | a synthetic label is recorded first exactly when slot zero is still zero and the opcode is not a label; then the opcode is written |
| Window.InstructionWindow.Store | src/main/java/reincarnation/JavaMethodDecompiler.java:788-792 | the in-place array write and index advance equal `Push` on the old contents |
| Window.InstructionWindow.Match | src/main/java/reincarnation/JavaMethodDecompiler.java:803-992 | the element-by-element loop returns true exactly when every entry of the pattern accepts its recorded opcode |
| Opcodes.CategoryRejectsItself | src/main/java/reincarnation/JavaMethodDecompiler.java:826-988 | a wildcard category never matches its own pseudo-opcode |
| Opcodes.JumpIsCmpOrGoto | src/main/java/reincarnation/JavaMethodDecompiler.java:889-934 | JUMP accepts exactly the conditional branches CMP accepts plus `goto` |
| StackRules.IntConstant | src/main/java/reincarnation/JavaMethodDecompiler.java:263-289 | exactly `iconst_m1` to `iconst_5` push a constant, in the range -1 to 5 |
| StackRules.IntConstantsAreDistinct | src/main/java/reincarnation/JavaMethodDecompiler.java:263-289 | `iconst_0`, `iconst_1` and `iconst_m1` push 0, 1 and -1, and no two opcodes push the same value |
| StackRules.PatternOf | src/main/java/reincarnation/JavaMethodDecompiler.java:293-305 | the 0-first pattern is chosen exactly when one of its two forms matches; the 1-first pattern only when one of its forms matches |
| StackRules.PatternsExclusive | src/main/java/reincarnation/JavaMethodDecompiler.java:293-305 | no window matches a 0-first and a 1-first form at once, so the 1-first pattern is chosen exactly when one of its forms matches |
| StackRules.Normalize | src/main/java/reincarnation/JavaMethodDecompiler.java:324-332 | in a boolean method the digits 0 and 1 become `false` and `true` and an ambiguous ternary is cast; in any other method the value is kept |
| StackRules.NormalizeLeavesNoDigit | src/main/java/reincarnation/JavaMethodDecompiler.java:324-332 | a normalized value is never a digit or an ambiguous ternary, and normalizing is idempotent |
| StackRules.ReturnStatement | src/main/java/reincarnation/JavaMethodDecompiler.java:322-334 | an empty stack underflows; otherwise `return v ;` replaces the top value and the rest of the stack is kept |
| StackRules.InvertTop | src/main/java/reincarnation/JavaMethodDecompiler.java:319 | an empty stack is a null dereference; otherwise only the top may change |
| StackRules.ReturnStackEffect | src/main/java/reincarnation/JavaMethodDecompiler.java:291-335 | an `ireturn` succeeds exactly when the stack holds more than the removed operands; it removes four operands after a boolean pattern, returns the normalized next value (negated if it is a condition in the 1-first form) and keeps the rest |
| StackRules.ReturnStatementKeepsShape | src/main/java/reincarnation/JavaMethodDecompiler.java:322-334 | returning from two stacks that differ only in condition targets gives two such stacks |
| StackRules.InvertTopKeepsShape | src/main/java/reincarnation/JavaMethodDecompiler.java:319 | inverting the top of two stacks that differ only in condition targets gives two such stacks |
| StackRules.ArrayElement | src/main/java/reincarnation/JavaMethodDecompiler.java:367-406 | each of the eight `newarray` tags names its element type; any other tag is an error carrying the tag |
| StackRules.ArrayElementRoundTrip | src/main/java/reincarnation/JavaMethodDecompiler.java:367-406 | the tag table is a bijection between the eight tags and the eight primitive types |
| StackRules.NewArrayStack | src/main/java/reincarnation/JavaMethodDecompiler.java:366-409 | an unknown tag fails before the stack is read; an empty stack underflows; otherwise the top operand becomes the size of a new array of that element type |
| StackRules.Reverse | src/main/java/reincarnation/JavaMethodDecompiler.java:460-462 | the arguments are the popped operands in reverse order |
| StackRules.Increment | src/main/java/reincarnation/JavaMethodDecompiler.java:1005-1011 | the text is the variable plus two operator characters |
| StackRules.IncrementInjective | src/main/java/reincarnation/JavaMethodDecompiler.java:1005-1011 | the four forms of one variable are distinct texts, and each gives the variable back |
| Graph.IndexOf | src/main/java/reincarnation/JavaMethodDecompiler.java:679 | the position of the first occurrence, or -1 exactly when the node is absent |
| Graph.InsertAt | src/main/java/reincarnation/JavaMethodDecompiler.java:679 | the element sits at the position, with the prefix before it and the suffix after it unchanged |
| Graph.RemoveFirstOfDistinct | src/main/java/reincarnation/JavaMethodDecompiler.java:594 | removing a listed node from a list without repetitions shortens it by one, keeps it without repetitions and removes that node only |
| Graph.InsertIntoDistinct | src/main/java/reincarnation/JavaMethodDecompiler.java:430 | inserting an unlisted node keeps the list free of repetitions, and its members are the old ones plus the node |
| Graph.Links | src/main/java/reincarnation/JavaMethodDecompiler.java:713-724 | linking a chain of nodes keeps every link table the same length |
| Graph.LinksTwo | src/main/java/reincarnation/JavaMethodDecompiler.java:713-724 | linking `a, b` sets `a.next` to `b` and `b.previous` to `a` and changes nothing else |
| Graph.LinksThree | src/main/java/reincarnation/JavaMethodDecompiler.java:672 | linking `a, c, b` splices `c` between `a` and `b` and changes nothing else |
| Graph.Connect | src/main/java/reincarnation/JavaMethodDecompiler.java:601 | connecting adds the edge, and a null end adds nothing |
| Graph.Disconnect | src/main/java/reincarnation/JavaMethodDecompiler.java:607 | disconnecting removes exactly that edge |
| Graph.BypassSound | src/main/java/reincarnation/JavaMethodDecompiler.java:599-629 | after disposal no edge touches the target, every other edge is kept, each predecessor is connected to each successor, and no other edge is added |
| Graph.RetargetDestinations | src/main/java/reincarnation/JavaMethodDecompiler.java:609-611 | exactly the predecessors whose destination was the target get the target's destination |
| Graph.RetargetStacks | src/main/java/reincarnation/JavaMethodDecompiler.java:613-625 | exactly the stacks of predecessors have their conditions retargeted |
| Graph.TransferStack | src/main/java/reincarnation/JavaMethodDecompiler.java:632-639 | the target's stack ends empty; its operands go on top of the previous node's stack unless the stack is cleared; every other stack is kept |
| Graph.RetargetIncoming | src/main/java/reincarnation/JavaMethodDecompiler.java:606-626 | the loop over the incoming nodes yields the retargeted destinations and stacks, whatever the order of the loop |
| Graph.RetargetLeavesNoPredecessorReference | src/main/java/reincarnation/JavaMethodDecompiler.java:606-626 | after retargeting, no predecessor's destination or condition points at the disposed node, and each stack keeps its shape |
| Graph.NodeGraph.constructor | src/main/java/reincarnation/JavaMethodDecompiler.java:228-236 | the decompiler starts with no node and no edge |
| Graph.NodeGraph.Allocate | src/main/java/reincarnation/JavaMethodDecompiler.java:698 | a new node gets a fresh slot with no links, no destination, an empty stack and no line number |
| Graph.NodeGraph.Link | src/main/java/reincarnation/JavaMethodDecompiler.java:713-724 | the loop links every adjacent pair of the chain and returns the last element; nothing else changes |
| Graph.NodeGraph.Append | src/main/java/reincarnation/JavaMethodDecompiler.java:430 | an unlisted node is appended to the list of nodes |
| Graph.NodeGraph.CreateNodeAfter | src/main/java/reincarnation/JavaMethodDecompiler.java:663-683 | the new node follows `index` in the list and in the link chain; it takes over the line number; it becomes the destination of `index` when that had none |
| Graph.NodeGraph.CreateNodeBefore | src/main/java/reincarnation/NodeCreator.java:22 | the new node precedes `index` in the list and in the link chain |
| Graph.NodeGraph.Insert | src/main/java/reincarnation/JavaMethodDecompiler.java:679 | an unlisted node enters the list of nodes at the position |
| Graph.NodeGraph.Unlink | src/main/java/reincarnation/JavaMethodDecompiler.java:591-639 | the graph part of disposal: list, links, edges, destinations, condition targets and stacks, each stated in terms of the old state |
| Decompiler.AllSameShapeTransitive | src/main/java/reincarnation/JavaMethodDecompiler.java:647-650 | stacks that differ only in condition targets stay so through repeated disposals |
| Decompiler.TransferKeepsShapes | src/main/java/reincarnation/JavaMethodDecompiler.java:632-639 | moving operands to the previous node preserves "differs only in condition targets" |
| Decompiler.TransferOfEmpty | src/main/java/reincarnation/JavaMethodDecompiler.java:632-639 | disposing a node with an empty stack moves no operand |
| Decompiler.BypassIsolates | src/main/java/reincarnation/JavaMethodDecompiler.java:599-629 | disposal isolates the target and connects no node that had no edge |
| Decompiler.MethodDecompiler.constructor | src/main/java/reincarnation/JavaMethodDecompiler.java:228-236 | a decompiler with an empty graph, an empty window, no current node and a zero counter |
| Decompiler.MethodDecompiler.GetNode | src/main/java/reincarnation/JavaMethodDecompiler.java:693-703 | a label already seen gives back its cached node and changes nothing; a new label gets a new node numbered by the counter, which advances |
| Decompiler.DisposeStep | src/main/java/reincarnation/JavaMethodDecompiler.java:591-644 | one disposal step on the arena leaves the disposed node with an empty stack and no edge, and moves the current node back when it was the target |
| Decompiler.DisposeStepOk | src/main/java/reincarnation/JavaMethodDecompiler.java:591-644 | a disposal step keeps the arena well formed, removes exactly the target from the list, moves no operand but the target's and gives no edge to a node without edges |
| Decompiler.DisposeChain | src/main/java/reincarnation/JavaMethodDecompiler.java:590-653 | the recursive disposal keeps the arena well formed, removes only listed nodes, and removes a listed target |
| Decompiler.DisposeChainMovesOnlyTarget | src/main/java/reincarnation/JavaMethodDecompiler.java:632-653 | the recursive part disposes only nodes with empty stacks, so the whole disposal moves the target's operands and no others, and leaves the target with no operand and no edge |
| Decompiler.MethodDecompiler.Dispose | src/main/java/reincarnation/JavaMethodDecompiler.java:590-653 | in both modes the arena becomes `DisposeChain` of the old one: the first step as `DisposeStep` (relink, bypass, retargeting to the target's destination, operand transfer, move of the current node), then, when recursive, the disposal of the previous node if its stack is left empty; an unlisted target changes nothing |
| Decompiler.MethodDecompiler.DisposeOne | src/main/java/reincarnation/JavaMethodDecompiler.java:591-644 | the arena becomes `DisposeStep` of the old one |
| Decompiler.MethodDecompiler.MergeWithin | src/main/java/reincarnation/JavaMethodDecompiler.java:736-759 | the node's stack becomes its `elze`-fixed stack with the run of conditions folded; a stack without conditions is unchanged |
| Decompiler.MergeChain | src/main/java/reincarnation/JavaMethodDecompiler.java:731-777 | the whole merge, in-node fold then the cross-node disposal and re-merge, keeps the arena well formed and adds no node |
| Decompiler.CrossMergeStacks | src/main/java/reincarnation/JavaMethodDecompiler.java:762-775 | when the cross-node test holds, disposing the node puts its stack on top of its previous node's, so its run of conditions comes right above the previous node's last condition, whose `elze` is the node |
| Decompiler.MethodDecompiler.MergeAcross | src/main/java/reincarnation/JavaMethodDecompiler.java:762-775 | the node is disposed into its previous node exactly when it starts with its run and the previous node's top condition can merge with the run's deepest condition and has the node as `elze`; otherwise nothing changes |
| Decompiler.MethodDecompiler.Merge | src/main/java/reincarnation/JavaMethodDecompiler.java:731-777 | the arena becomes `MergeChain` of the old one: the in-node merge, then, when the cross-node test holds, the disposal of the node and the merge of its previous node |
| Decompiler.MethodDecompiler.Attach | src/main/java/reincarnation/JavaMethodDecompiler.java:423-426 | a current node without destination gets an edge to the new node and that node as destination; otherwise nothing changes |
| Decompiler.Enter | src/main/java/reincarnation/JavaMethodDecompiler.java:423-430 | the label's node becomes current, is appended to the list and linked after the old current node, which gets it as destination and an edge to it when it had no destination |
| Decompiler.Grow | src/main/java/reincarnation/JavaMethodDecompiler.java:693-703 | a new label's node is a fresh slot, not listed, with the rest of the arena unchanged |
| Decompiler.MethodDecompiler.LinkNode | src/main/java/reincarnation/JavaMethodDecompiler.java:423-430 | the arena becomes `Enter` of the old one |
| Decompiler.MethodDecompiler.EnterNode | src/main/java/reincarnation/JavaMethodDecompiler.java:423-435 | the arena becomes `Entered` of the old one: `Enter`, then `MergeChain` from the node before the label's node when two nodes or more are listed |
| Decompiler.MethodDecompiler.RecordOp | src/main/java/reincarnation/JavaMethodDecompiler.java:782-793 | the window is written as `Record` states; only a synthetic label opens a node, and then the arena is `Entered` of the old one grown by that node |
| Decompiler.MethodDecompiler.VisitLabel | src/main/java/reincarnation/JavaMethodDecompiler.java:417-435 | `LABEL` is pushed on the window; the label's node is its cached node or a fresh one numbered by the counter; the arena becomes `Entered` of the old one (grown by the fresh node) with that node |
| Decompiler.MethodDecompiler.PushOperand | src/main/java/reincarnation/JavaMethodDecompiler.java:264 | the operand goes on top of the current node's stack; a missing current node is a null dereference |
| Decompiler.MethodDecompiler.ReturnTop | src/main/java/reincarnation/JavaMethodDecompiler.java:322-335 | the current stack becomes `ReturnStatement` of it and the destination becomes the termination node, or the stack underflows |
| Decompiler.MethodDecompiler.DisposeIfEmpty | src/main/java/reincarnation/JavaMethodDecompiler.java:304 | disposing an empty previous node keeps every operand of every stack; only condition targets may change |
| Decompiler.MethodDecompiler.DropOtherBranch | src/main/java/reincarnation/JavaMethodDecompiler.java:298-319 | fewer than four operands underflow; a missing previous node is a null dereference; otherwise the stack is `DropBranch` of it, up to condition targets |
| Decompiler.MethodDecompiler.MatchReturn | src/main/java/reincarnation/JavaMethodDecompiler.java:293-305 | the four window tests, in source order, give `PatternOf` the window |
| Decompiler.MethodDecompiler.ReturnEffect | src/main/java/reincarnation/JavaMethodDecompiler.java:291-336 | the `ireturn` case: every fault case, and on success the stack is `ReturnStack` up to condition targets, ends with `return v ;` on top and leads to the termination node |
| Decompiler.MethodDecompiler.ReturnBoolean | src/main/java/reincarnation/JavaMethodDecompiler.java:293-335 | the `ireturn` case after a boolean pattern, with the same fault and success statements |
| Decompiler.MethodDecompiler.InsnEffect | src/main/java/reincarnation/JavaMethodDecompiler.java:262-337 | `iconst_<i>` pushes its integer, `ireturn` returns and ends the node at the termination node, and any other opcode changes nothing |
| Decompiler.MethodDecompiler.VisitInsn | src/main/java/reincarnation/JavaMethodDecompiler.java:258-338 | the opcode is pushed on the window, after a synthetic `LABEL` when slot zero is still zero; the decompiler stays well formed |
| Decompiler.MethodDecompiler.IntInsnEffect | src/main/java/reincarnation/JavaMethodDecompiler.java:350-410 | `bipush`/`sipush` push the operand; `newarray` is `NewArrayStack` on the current stack, with its error cases; any other opcode changes nothing |
| Decompiler.MethodDecompiler.VisitIntInsn | src/main/java/reincarnation/JavaMethodDecompiler.java:344-411 | the opcode is pushed on the window, after a synthetic `LABEL` when slot zero is still zero; the decompiler stays well formed |
| Decompiler.MethodDecompiler.MethodInsnEffect | src/main/java/reincarnation/JavaMethodDecompiler.java:442-473 | one operand is popped per parameter, in reverse declaration order, or the stack underflows; for a void method the next operand becomes a statement |
| Decompiler.MethodDecompiler.VisitMethodInsn | src/main/java/reincarnation/JavaMethodDecompiler.java:442-473 | the opcode is pushed on the window, after a synthetic `LABEL` when slot zero is still zero; the decompiler stays well formed |
| Locals.NameOf | src/main/java/reincarnation/JavaMethodDecompiler.java:1072-1082 | the name is `this` exactly for slot 0 of an instance method |
| Locals.NameOfInjective | src/main/java/reincarnation/JavaMethodDecompiler.java:1072-1082 | different slots have different names, and `local<n>` numbers the slot from one less in an instance method |
| Locals.SlotsAreTheKeptSlots | src/main/java/reincarnation/JavaMethodDecompiler.java:1092-1101 | the listed names are those of the non-ignored slots in range, none twice |
| Locals.LocalVariables.constructor | src/main/java/reincarnation/JavaMethodDecompiler.java:1023-1039 | no slots, no ignored slot, no type |
| Locals.LocalVariables.Name | src/main/java/reincarnation/JavaMethodDecompiler.java:1061-1083 | the name of the slot; a long or double access marks the next slot as ignored |
| Locals.LocalVariables.Names | src/main/java/reincarnation/JavaMethodDecompiler.java:1092-1101 | the loop lists the names of the non-ignored slots below `max`, never `this` |
| Locals.LocalVariables.Type | src/main/java/reincarnation/JavaMethodDecompiler.java:1111-1119 | a slot's type cell is created on first use and is the same cell ever after |
| Locals.NoNamesBelowZero | src/main/java/reincarnation/JavaMethodDecompiler.java:1026 | with `max` at zero, no name is listed |
| Conditions.RunConcat | src/main/java/reincarnation/JavaMethodDecompiler.java:742-759 | the lower part of a run is tested first and the upper part decides when none of it holds |
| Conditions.StackedRunsInline | src/main/java/reincarnation/JavaMethodDecompiler.java:762-775 | a node's run put on top of its previous node's run `[c] + below` leads where the previous run led, with the fall-through of `c` to its `elze` node replaced by where the node's run leads |
| Conditions.RunTestsTopLast | src/main/java/reincarnation/JavaMethodDecompiler.java:742-759 | in a run of conditions the top one is tested last |
| Conditions.Join | src/main/java/reincarnation/JavaMethodDecompiler.java:752 | the compound condition keeps the targets of the right condition |
| Conditions.JoinSemantics | src/main/java/reincarnation/JavaMethodDecompiler.java:1272-1274 | for a mergeable pair, the compound condition leads to the left `then` when the left test holds and where the right one leads otherwise |
| Conditions.Fold | src/main/java/reincarnation/JavaMethodDecompiler.java:747-759 | the fold yields between one and all of the conditions |
| Conditions.FoldKeepsRun | src/main/java/reincarnation/JavaMethodDecompiler.java:747-759 | merging a run that falls through keeps where it leads, for every outcome of the comparisons |
| Conditions.FoldKeepsLeads | src/main/java/reincarnation/JavaMethodDecompiler.java:747-759 | the merged run leads where the unmerged run led |
| Conditions.FoldIsStable | src/main/java/reincarnation/JavaMethodDecompiler.java:747-759 | no two adjacent conditions of the result can merge any more |
| Conditions.FoldHead | src/main/java/reincarnation/JavaMethodDecompiler.java:752-756 | the top of a fold keeps the targets of the condition it started from |
| Conditions.Conds | src/main/java/reincarnation/JavaMethodDecompiler.java:1165-1183 | the condition operands of a list of conditions, position by position |
| Conditions.FirstCondition | src/main/java/reincarnation/JavaMethodDecompiler.java:1154-1173 | the topmost condition's position, or -1 exactly when there is none |
| Conditions.RunLength | src/main/java/reincarnation/JavaMethodDecompiler.java:1154-1186 | the run is all conditions and stops at the bottom or at a non-condition |
| Conditions.Info | src/main/java/reincarnation/JavaMethodDecompiler.java:1149-1196 | start, count and both flags: the first run of conditions from the top, a head exactly when the run reaches the bottom, a tail exactly when it starts at the top |
| Conditions.FixFirstElze | src/main/java/reincarnation/JavaMethodDecompiler.java:1158-1178 | only the first condition may change, only in its `elze` node, and every condition keeps its test |
| Merger.RunLengthIsWhereRunStops | src/main/java/reincarnation/JavaMethodDecompiler.java:1154-1186 | a run length is fixed by where the run stops |
| Merger.FirstConditionAt | src/main/java/reincarnation/JavaMethodDecompiler.java:1173-1179 | the run starts at the topmost condition, which is the one the `elze` fix applies to |
| Merger.ScanConditions | src/main/java/reincarnation/JavaMethodDecompiler.java:1149-1196 | the search loop computes `Info` and `FixFirstElze` of the stack |
| Merger.MergeStep | src/main/java/reincarnation/JavaMethodDecompiler.java:752-754 | one `remove` plus `set` replaces two adjacent conditions by their compound condition in place |
| Merger.LayoutHoldsConditions | src/main/java/reincarnation/JavaMethodDecompiler.java:747-759 | a laid-out run is all condition operands |
| Merger.MergeLoopFolds | src/main/java/reincarnation/JavaMethodDecompiler.java:747-759 | the index-based loop over the stack leaves the fold of the run in place and ends with the fold's deepest condition |
| Merger.MergeLoopOnRun | src/main/java/reincarnation/JavaMethodDecompiler.java:743-759 | started on a found run, the loop folds that run in place |
| Merger.MergeRun | src/main/java/reincarnation/JavaMethodDecompiler.java:743-759 | the merge loop leaves the stack with its run replaced by `Fold` and holds the fold's deepest condition |
| Merger.FixKeepsRun | src/main/java/reincarnation/JavaMethodDecompiler.java:1176-1178 | the `elze` fix keeps the run of conditions where the search found it |
| Merger.MergeStack | src/main/java/reincarnation/JavaMethodDecompiler.java:736-759 | search then merge: a stack without conditions is kept; otherwise the fixed stack with its run folded |
| Splitter.MoveEdgesMembers | src/main/java/reincarnation/JavaMethodDecompiler.java:1246-1252 | a move drops the moved edges of the source node and gives the target node an edge to each moved node |
| Splitter.MoveConditionEdgesMoves | src/main/java/reincarnation/JavaMethodDecompiler.java:1212-1225 | the tail loop moves exactly the edges to the targets of the moved conditions, whatever their order |
| Splitter.SplitTail | src/main/java/reincarnation/JavaMethodDecompiler.java:1207-1229 | the created node takes the run with its edges, the base keeps the rest and gets an edge to the created node, and the created node sits after the base |
| Splitter.MoveConditions | src/main/java/reincarnation/JavaMethodDecompiler.java:1212-1225 | the loop moves the top conditions, in order, and their edges |
| Splitter.SplitHead | src/main/java/reincarnation/JavaMethodDecompiler.java:1229-1258 | the created node takes the operands above the run and the base's non-`then` transitions; base leads to created, and created to the base's old destination, never to itself |
| Splitter.AsWrittenSplitHead | src/main/java/reincarnation/JavaMethodDecompiler.java:1232-1258 | the as-written order of operations: a base node without destination gives the created node an edge to itself; a base node with one is split as `HeadSplit` states |
| Splitter.CutStack | src/main/java/reincarnation/JavaMethodDecompiler.java:1234-1237 | the loop moves the top operands, in order |
| Splitter.HeadSplitNoSelfEdge | src/main/java/reincarnation/JavaMethodDecompiler.java:1239-1258 | when every edge and the destination stay among older nodes, the created node gets no edge to itself |
| Splitter.MoveTransitions | src/main/java/reincarnation/JavaMethodDecompiler.java:1246-1252 | the loop over the transitions moves exactly their edges |
| Splitter.Split | src/main/java/reincarnation/JavaMethodDecompiler.java:1203-1261 | a node is split exactly when it mixes conditions with other operands and its run is at the top or the bottom; each case as `TailSplit` or `HeadSplit` |
| NodeCreator.RedirectIncomingsEffect | src/main/java/reincarnation/NodeCreator.java:45-48 | a listed incoming node loses its edge to `index` and gains one to the new node; every other edge is kept |
| NodeCreator.RedirectOutgoingsEffect | src/main/java/reincarnation/NodeCreator.java:84-87 | `index` loses its edges to the listed nodes and the new node gains them; every other edge is kept |
| NodeCreator.CreateNodeBeforeWith | src/main/java/reincarnation/NodeCreator.java:31-33 | a connectable node before `index`, in the list and the link chain, holding just the initial operand |
| NodeCreator.CreateNodeAfterWith | src/main/java/reincarnation/NodeCreator.java:70-72 | a connectable node after `index`, in the list and the link chain, holding just the initial operand and becoming `index`'s destination when it had none |
| NodeCreator.CreateSplitterNodeBefore | src/main/java/reincarnation/NodeCreator.java:42-52 | a non-connectable node before `index`, in the list and the link chain, takes over the listed incoming edges and leads to `index` |
| NodeCreator.CreateSplitterNodeAfter | src/main/java/reincarnation/NodeCreator.java:81-91 | a non-connectable node, placed before `index` as the source does, takes over the edges to the listed outgoing nodes, and `index` leads to it |
| Switches.Put | src/main/java/reincarnation/OperandSwitch.java:55 | putting a key keeps the multimap well formed |
| Switches.PutAllGroups | src/main/java/reincarnation/OperandSwitch.java:54-56 | the keys are grouped by case node, in order, and the first case node is listed first |
| Switches.RemoveKey | src/main/java/reincarnation/OperandSwitch.java:99 | removing a node drops it with its keys and keeps every other node's keys |
| Switches.CaseNodes | src/main/java/reincarnation/OperandSwitch.java:199-201 | the default node first, then the case nodes, never null |
| Switches.ReachingMembers | src/main/java/reincarnation/OperandSwitch.java:169-171 | the directly connected cases are exactly those that reach the default node avoiding the other cases |
| Switches.NoDirectCase | src/main/java/reincarnation/OperandSwitch.java:173-176 | with no directly connected case the default node is a real default |
| Switches.OneDirectCase | src/main/java/reincarnation/OperandSwitch.java:178-185 | with one directly connected case, the default node is a default exactly when that case is declared right before it |
| Switches.TwoDirectCases | src/main/java/reincarnation/OperandSwitch.java:187-190 | with two directly connected cases, the default node is the exit |
| Switches.EscapesFound | src/main/java/reincarnation/OperandSwitch.java:127-131 | the candidates are exactly the nodes the walks find, and there is none only when no walk finds one |
| Switches.EscapeWithin | src/main/java/reincarnation/OperandSwitch.java:127-131 | a candidate is an allocated node |
| Switches.Scrutinee | src/main/java/reincarnation/OperandSwitch.java:49 | a string switch is on the owner of the `hashCode` call, and anything but a method call there is a failed downcast |
| Switches.OperandSwitch.constructor | src/main/java/reincarnation/OperandSwitch.java:48-59 | the scrutinee, the flags and the cases grouped by node |
| Switches.OperandSwitch.Nodes | src/main/java/reincarnation/OperandSwitch.java:199-201 | the default node first when there is one, then the case nodes; never null |
| Switches.OperandSwitch.Analyze | src/main/java/reincarnation/OperandSwitch.java:97-153 | the cases lose the default node; a default that is not real, or no candidate, makes it the follow with no default; otherwise the follow is the last candidate, behind a splitter when the default is kept |
| Switches.OperandSwitch.PlaceFollow | src/main/java/reincarnation/OperandSwitch.java:126-152 | the three follow cases of `analyze` and the splitter of a switch that keeps its default |
| Switches.FollowSplitter | src/main/java/reincarnation/OperandSwitch.java:146-151 | the splitter gathers the listed incoming edges, leads to the follow and is called once more |
| Switches.FindFollow | src/main/java/reincarnation/OperandSwitch.java:126-144 | a real default with candidates is kept and the follow is the last candidate; otherwise the default node is the follow and no default is kept |
| Loops.Set | src/main/java/reincarnation/structure/Loopable.java:46 | setting a fixed cell changes nothing |
| Loops.Fix | src/main/java/reincarnation/structure/Loopable.java:47 | fixing keeps the value |
| Loops.StampIsWriteOnce | src/main/java/reincarnation/structure/Loopable.java:45-53 | the first loop to stamp a free cell owns it, and later stamps change nothing |
| Loops.NodeStamps.ExitOf | src/main/java/reincarnation/structure/Loopable.java:46 | a node never stamped has a free cell |
| Loops.NodeStamps.HeaderOf | src/main/java/reincarnation/structure/Loopable.java:51 | a node never stamped has a free cell |
| Loops.Loopable.constructor | src/main/java/reincarnation/structure/Loopable.java:38-54 | the roles are stored; the exit and the checkpoint are stamped, unless null |
| Loops.InfiniteLoop.constructor | src/main/java/reincarnation/structure/InfiniteLoop.java:34-39 | the header node is entrance, first node and checkpoint, and the follow node is the exit |
| Loops.InfiniteLoop.Children | src/main/java/reincarnation/structure/InfiniteLoop.java:45-47 | the single child is the body, null or not |
| Loops.InfiniteLoop.Follower | src/main/java/reincarnation/structure/InfiniteLoop.java:53-55 | the follow structure, or nothing exactly when it is null |
| Loops.InfiniteLoop.WriteCode | src/main/java/reincarnation/structure/InfiniteLoop.java:61-67 | the loop label and follow are passed on, and the body is written exactly when there is one |
| Loops.WriteCodeWritesChildren | src/main/java/reincarnation/structure/InfiniteLoop.java:45-67 | the written body is the non-null child, and the follow passed on is the follower |
| Loops.InfiniteLoopHeader | src/main/java/reincarnation/structure/Loopable.java:62-64 | an infinite loop is headed by its header node alone |
| Util.LoadOpcode | src/main/java/reincarnation/Util.java:40-133 | each listed opcode has its class, and any other opcode is an error |
| Util.TypedFamiliesFollowCycle | src/main/java/reincarnation/Util.java:40-122 | the typed loads, stores, returns and arithmetic come as int, long, float and double in that order |
| Util.ShiftsAndBitwiseAlternate | src/main/java/reincarnation/Util.java:40-122 | the shifts and bitwise operations alternate int and long |
| Util.ConversionsByTarget | src/main/java/reincarnation/Util.java:40-122 | a conversion is classified by the type it converts to |
| Util.LoadType | src/main/java/reincarnation/Util.java:141-182 | primitives and void map to their classes; nothing else does |
| Util.LoadName | src/main/java/reincarnation/Util.java:31-33 | null for a null name, otherwise the class of that object type |
| Util.LoadAll | src/main/java/reincarnation/Util.java:190-197 | a fresh array whose element i is the class of type i |
| Util.DefaultValueFor | src/main/java/reincarnation/Util.java:205-233 | fails exactly for `char` |
| Util.DefaultValueIsTypedZero | src/main/java/reincarnation/Util.java:205-233 | the default of a primitive other than `char` is its typed zero (false for boolean), and anything else defaults to null |
| AssignOperators.SymbolRoundTrip | src/main/java/reincarnation/OperandAssign.java:79-137 | every symbol reads back as its operator |
| AssignOperators.SymbolsDistinct | src/main/java/reincarnation/OperandAssign.java:79-137 | no two operators share a symbol |
| AssignOperators.SymbolShape | src/main/java/reincarnation/OperandAssign.java:80-114 | every symbol is non-empty, ends with `=` and holds no space |
| OperandAssign.MakeAssign | src/main/java/reincarnation/OperandAssign.java:44-50 | construction fails exactly when an argument is null; otherwise the assignment holds them |
| OperandAssign.Children | src/main/java/reincarnation/OperandAssign.java:64-66 | left, then right |
| OperandAssign.AssignText | src/main/java/reincarnation/OperandAssign.java:72-74 | the text's length is the parts' lengths plus two spaces |
| OperandAssign.AssignTextInjective | src/main/java/reincarnation/OperandAssign.java:72-74 | when the left text has no space, the text determines left, operator and right |
| OperandBinary.MakeBinary | src/main/java/reincarnation/OperandBinary.java:40-45 | construction fails exactly when an argument is null; otherwise the operation holds them and infers the left operand's type |
| OperandBinary.Children | src/main/java/reincarnation/OperandBinary.java:51-53 | left, then right |
| OperandBinary.WriteCode | src/main/java/reincarnation/OperandBinary.java:59-61 | one binary-operation request with the operand's own parts |
| OperandBinary.ChildrenOfMade | src/main/java/reincarnation/OperandBinary.java:40-53 | the children of a built operation are the operands it was built from |
| Operands.Invert | src/main/java/reincarnation/JavaMethodDecompiler.java:319 | the test is negated and the targets are kept |
| Operands.RemoveAt | src/main/java/reincarnation/JavaMethodDecompiler.java:298 | `remove(i)` shifts every element below `i` up by one |
| Operands.RetargetStack | src/main/java/reincarnation/JavaMethodDecompiler.java:613-625 | only condition targets equal to the disposed node change |
| Operands.RetargetLeavesNoReference | src/main/java/reincarnation/JavaMethodDecompiler.java:613-625 | after retargeting, no condition points at the old target |

## Left out

- Decompiler.MethodDecompiler.Merge: after disposing, the model merges the previous node only when the disposed node was listed; the source merges it either way. This keeps the recursion well founded.
- Decompiler.MethodDecompiler.Merge: that the fold of the combined run after the cross-node transfer keeps where it leads is not proved. `FoldKeepsLeads` needs every condition below the top to fall through, and the disposal retargets the previous node's last condition to a non-null `elze`. What is proved is that stacking the two runs leads where the two nodes led (`StackedRunsInline`).
- Decompiler.MethodDecompiler.VisitInsn, VisitIntInsn, VisitMethodInsn: these state the window write and well-formedness. Their stack effects are stated by `InsnEffect`, `IntInsnEffect` and `MethodInsnEffect`, which run the same code after the record; the contracts of the visits do not repeat them.
- Decompiler.MethodDecompiler.DropOtherBranch, ReturnEffect, ReturnBoolean: the stack after disposing the previous node is stated only up to condition targets. Disposal may retarget the current node's conditions. When disposal moves the current node, only the fault cases and the final `return` shape are stated.
- Decompiler.MethodDecompiler.MethodInsnEffect: the owner class and parameter classes are loaded by reflection, which is not computed. Only the stack effect is modelled.
- Switches.OperandSwitch.Analyze: `cases.sort()` is left out, because `MultiMap`'s ordering is not part of this model. The string-switch desugaring is left out too: reading each case's string, re-keying by the condition's `then` node and disposing the old case blocks. Its result comes in as `stringCases`.
- The switch operand's `children`, `toString`, `writeCode` and `structurize`, and `markAsStatement`, are left out: they only print or hand on state.
- Loops: `Breakable`, labels, `toString` and the structures built by `analyze`/`process` are not part of this model; they are inputs. The stamps are made on the `Loopable` the infinite loop is built on.
- Locals: `InferredType` is an opaque cell; type inference is not part of this model.
- `visitVarInsn`, `visitEnd`, the Java coder, `Coder` and `Classes` are left out, and so are the other visitors of the decompiler. They build source text or call into libraries outside the core.
- Util.LoadType: array and object types are looked up by reflection (`Class.forName`, `Array.newInstance`). These lookups are not computed; they are represented by the type's name.
- OperandAssign.MakeAssign: the type binding between left and right (`bindTo`) and `build()` are left out, because the type cells are outside this model.
- OperandBinary.MakeBinary: the binary operator enumeration is carried by its symbol only.
- Line numbers are carried only where `createNodeAfter` moves them. The concurrency of the source's collections plays no part here, so it is not modelled.
- Integer widths: `bipush`/`sipush` operands and iconst values are unbounded integers. The instructions keep them within byte or short range, and no arithmetic is done on them.

## Findings

| source | as written | input that shows it | evidently intended | confidence | as-written member | corrected member |
|---|---|---|---|---|---|---|
| src/main/java/reincarnation/JavaMethodDecompiler.java:1232-1258 | the conditional-head split calls `createNodeAfter(base)` first. That sets `base.destination = created` when the base had no destination. The last line then connects `created` to `base.destination`, which is `created` itself | a node with no destination whose stack is `[x, c]`: one non-condition `x` on top of one condition `c` at the bottom | the created node leads where the base node went before the split, and to nothing when it had no destination; it never gets an edge to itself | not executed | Splitter.AsWrittenSplitHead | Splitter.SplitHead |
