/** The binary operand: construction, children and code emission. */
module OperandBinary {
  import opened Wrappers
  import opened Operands

  /** A request to the code emitter; the binary operand issues one kind. */
  datatype CoderCall = WriteBinaryOperation(left: Operand, op: BinaryOperator, right: Operand)

  /** The constructor: each of left, operator and right must be non-null
      (`None` stands for a null argument); the new operand's type cell is set
      to the type the left operand infers. */
  function MakeBinary(left: Option<Operand>, op: Option<BinaryOperator>, right: Option<Operand>): (r: Result<Operand, Fault>)
    ensures r.Success? <==> left.Some? && op.Some? && right.Some?
    ensures r.Failure? ==> r.error == NullPointer
    ensures r.Success? ==>
      && r.value.Binary? && r.value.left == left.value && r.value.bop == op.value && r.value.right == right.value
      && Infer(r.value) == Infer(left.value)
  {
    if left.None? || op.None? || right.None? then Failure(NullPointer)
    else Success(Binary(left.value, op.value, right.value, Infer(left.value)))
  }

  /** The children of a binary operation: left, then right. */
  function Children(o: Operand): (r: seq<Operand>)
    requires o.Binary?
    ensures |r| == 2 && r[0] == o.left && r[1] == o.right
  {
    [o.left, o.right]
  }

  /** `writeCode`: a single binary-operation request with the operand's own
      left, operator and right, in that order. */
  function WriteCode(o: Operand): (r: seq<CoderCall>)
    requires o.Binary?
    ensures |r| == 1 && r[0].left == o.left && r[0].op == o.bop && r[0].right == o.right
  {
    [WriteBinaryOperation(o.left, o.bop, o.right)]
  }

  /** Building a binary operation and asking for its children gives back
      the two operands it was built from. */
  lemma ChildrenOfMade(left: Operand, op: BinaryOperator, right: Operand)
    ensures var r := MakeBinary(Some(left), Some(op), Some(right));
      r.Success? && Children(r.value) == [left, right]
  {
  }
}
