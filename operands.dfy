/** Operands: the expression tree the decompiler builds on each node's
    stack, references to nodes, and the stack discipline of a node. */
module Operands {
  import opened AssignOperators

  /** The fatal errors of the decompiler: a null dereference, removing from
      an empty stack, an opcode or array type tag with no meaning for the
      operation, the default value of char, and a failed downcast. Each
      aborts the decompilation of the method. */
  datatype Fault =
    | NullPointer
    | StackUnderflow
    | UnknownOpcode(opcode: int)
    | UnknownArrayType(atype: int)
    | NoDefaultForChar
    | ClassCast

  /** A reference to a node of the graph: a slot of the node arena, the
      distinguished termination node, or null. */
  datatype Ref = Null | Termination | At(id: nat)

  /** The primitive sorts of the Java type system. */
  datatype Primitive = Int | Long | Float | Double | Char | Byte | Short | Boolean

  /** A runtime class as the decompiler handles it: a primitive class, void,
      Object, a one-dimensional primitive array class, a class found by name
      through reflection (not computed here), or a type cell not yet resolved. */
  datatype JavaClass =
    | PrimitiveClass(p: Primitive)
    | VoidClass
    | ObjectClass
    | PrimitiveArray(element: Primitive)
    | Reflected(name: string)
    | Unresolved

  /** The boolean expression of a condition: a compiled comparison (by the
      opcode of its branch), a negation, or a short-circuit combination. */
  datatype Test =
    | Compare(opcode: int)
    | Not(inner: Test)
    | And(left: Test, right: Test)
    | Or(left: Test, right: Test)

  /** A condition operand: its test, the node reached when it holds (`then` in the source)
      and the node reached otherwise (`elze`). */
  datatype Condition = Condition(test: Test, thenNode: Ref, elzeNode: Ref)

  /** The binary operators are an enumeration outside this model; they are
      carried by their symbol. */
  datatype BinaryOperator = BinaryOperator(symbol: string)

  datatype Operand =
    | Number(value: int, kind: Primitive)        // a numeric literal
    | Expression(text: string)                   // an expression carried as text
    | BooleanLiteral(b: bool)
    | NullLiteral                                // the null reference
    | ReturnKeyword                              // the `return` marker of a return statement
    | End                                        // the `;` that closes a statement
    | Cond(c: Condition)
    | NewArray(size: Operand, arrayClass: JavaClass)
    | ZeroOneTernary(choice: Condition)          // `c ? 1 : 0`, before its type is known
    | BooleanCast(operand: Operand)
    | Assign(left: Operand, op: AssignOperator, right: Operand)
    | Binary(left: Operand, bop: BinaryOperator, right: Operand, inferred: JavaClass)
    | MethodCall(owner: Operand, name: string)   // `owner.name(...)`, arguments not modelled

  /** The type an operand infers. Numbers and booleans know theirs, a binary
      operation carries the type set when it was built; the type cells of
      the other kinds are outside this model and stay unresolved. */
  function Infer(o: Operand): JavaClass {
    match o
    case Number(_, kind) => PrimitiveClass(kind)
    case BooleanLiteral(_) => PrimitiveClass(Boolean)
    case Binary(_, _, _, t) => t
    case _ => Unresolved
  }

  /** Whether an operand prints as the single digit `d` (0 or 1): an integral
      literal of that value, or an expression whose text is that digit. */
  predicate PrintsAsDigit(o: Operand, d: int)
    requires d == 0 || d == 1
  {
    || (o.Number? && o.kind in {Int, Long, Short, Byte} && o.value == d)
    || o == Expression(if d == 0 then "0" else "1")
  }

  /** Logical negation of a condition, keeping its targets. */
  function Invert(c: Condition): (r: Condition)
    ensures r.thenNode == c.thenNode && r.elzeNode == c.elzeNode && r.test == Not(c.test)
  {
    Condition(Not(c.test), c.thenNode, c.elzeNode)
  }

  // ---------------------------------------------------------------------
  // The stack of a node. It is stored top first: element i is what the
  // node's `peek(i)` returns, so `remove(0)` and `peek(0)` work on s[0],
  // `addOperand` prepends, and an operand added at the bottom is appended.
  // ---------------------------------------------------------------------

  /** `remove(i)`: the stack without its i-th element from the top. */
  function RemoveAt(s: seq<Operand>, i: nat): (r: seq<Operand>)
    requires i < |s|
    ensures |r| == |s| - 1
    ensures forall k :: 0 <= k < i ==> r[k] == s[k]
    ensures forall k :: i <= k < |r| ==> r[k] == s[k + 1]
  {
    s[..i] + s[i + 1..]
  }

  /** Applies a retargeting of node references to a condition: every target
      equal to `from` becomes `to`. */
  function RetargetCondition(c: Condition, from: Ref, to: Ref): (r: Condition)
    ensures r.test == c.test
    ensures r.thenNode == (if c.thenNode == from then to else c.thenNode)
    ensures r.elzeNode == (if c.elzeNode == from then to else c.elzeNode)
  {
    Condition(c.test,
              if c.thenNode == from then to else c.thenNode,
              if c.elzeNode == from then to else c.elzeNode)
  }

  /** Retargets every condition operand of a stack; other operands stay. */
  function RetargetStack(s: seq<Operand>, from: Ref, to: Ref): (r: seq<Operand>)
    ensures SameShape(s, r)
    ensures forall k :: 0 <= k < |s| ==>
      r[k] == (if s[k].Cond? then Cond(RetargetCondition(s[k].c, from, to)) else s[k])
  {
    seq(|s|, k requires 0 <= k < |s| =>
      if s[k].Cond? then Cond(RetargetCondition(s[k].c, from, to)) else s[k])
  }

  /** Two stacks agree on everything but the targets of their conditions. */
  predicate SameShape(s: seq<Operand>, t: seq<Operand>) {
    && |s| == |t|
    && forall k :: 0 <= k < |s| ==>
         if s[k].Cond? then t[k].Cond? && t[k].c.test == s[k].c.test else t[k] == s[k]
  }

  lemma SameShapeTransitive(s: seq<Operand>, t: seq<Operand>, u: seq<Operand>)
    requires SameShape(s, t) && SameShape(t, u)
    ensures SameShape(s, u)
  {
  }

  /** After retargeting, no condition of the stack points at the old target
      any more (provided the new target differs from it). */
  lemma RetargetLeavesNoReference(s: seq<Operand>, from: Ref, to: Ref)
    requires from != to
    ensures forall k :: 0 <= k < |s| && s[k].Cond? ==>
      RetargetStack(s, from, to)[k].c.thenNode != from && RetargetStack(s, from, to)[k].c.elzeNode != from
  {
  }
}
