/** The twelve assignment operators of the assign operand. */
module AssignOperators {
  import opened Wrappers

  datatype AssignOperator =
    | ASSIGN | AND | OR | XOR | PLUS | MINUS | MULTIPLY | DIVIDE | REMAINDER
    | LEFT_SHIFT | RIGHT_SHIFT | UNSIGNED_RIGHT_SHIFT

  /** The source symbol of an operator, which is also what its `toString`
      returns. */
  function Symbol(op: AssignOperator): string {
    match op
    case ASSIGN => "="
    case AND => "&="
    case OR => "|="
    case XOR => "^="
    case PLUS => "+="
    case MINUS => "-="
    case MULTIPLY => "*="
    case DIVIDE => "/="
    case REMAINDER => "%="
    case LEFT_SHIFT => "<<="
    case RIGHT_SHIFT => ">>="
    case UNSIGNED_RIGHT_SHIFT => ">>>="
  }

  /** Reads an operator back from its symbol. */
  function FromSymbol(s: string): (r: Option<AssignOperator>)
  {
    if s == "=" then Some(ASSIGN)
    else if s == "&=" then Some(AND)
    else if s == "|=" then Some(OR)
    else if s == "^=" then Some(XOR)
    else if s == "+=" then Some(PLUS)
    else if s == "-=" then Some(MINUS)
    else if s == "*=" then Some(MULTIPLY)
    else if s == "/=" then Some(DIVIDE)
    else if s == "%=" then Some(REMAINDER)
    else if s == "<<=" then Some(LEFT_SHIFT)
    else if s == ">>=" then Some(RIGHT_SHIFT)
    else if s == ">>>=" then Some(UNSIGNED_RIGHT_SHIFT)
    else None
  }

  /** Every symbol reads back as its operator, so no two operators share a
      symbol. */
  lemma SymbolRoundTrip(op: AssignOperator)
    ensures FromSymbol(Symbol(op)) == Some(op)
  {
  }

  lemma {:induction false} SymbolsDistinct(a: AssignOperator, b: AssignOperator)
    ensures Symbol(a) == Symbol(b) ==> a == b
  {
    SymbolRoundTrip(a);
    SymbolRoundTrip(b);
  }

  /** Every symbol is non-empty, ends with `=`, and holds no space. */
  lemma SymbolShape(op: AssignOperator)
    ensures |Symbol(op)| > 0 && Symbol(op)[|Symbol(op)| - 1] == '='
    ensures ' ' !in Symbol(op)
  {
  }
}

/** The assign operand: construction, children and text. */
module OperandAssign {
  import opened Wrappers
  import opened AssignOperators
  import opened Operands

  /** The constructor: each of left, operator and right must be non-null
      (`None` stands for a null argument). */
  function MakeAssign(left: Option<Operand>, op: Option<AssignOperator>, right: Option<Operand>): (r: Result<Operand, Fault>)
    ensures r.Success? <==> left.Some? && op.Some? && right.Some?
    ensures r.Success? ==>
      r.value.Assign? && r.value.left == left.value && r.value.op == op.value && r.value.right == right.value
  {
    if left.None? || op.None? || right.None? then Failure(NullPointer)
    else Success(Assign(left.value, op.value, right.value))
  }

  /** The children of an assignment: left, then right. */
  function Children(o: Operand): (r: seq<Operand>)
    requires o.Assign?
    ensures |r| == 2 && r[0] == o.left && r[1] == o.right
  {
    [o.left, o.right]
  }

  /** `toString`: left, a space, the operator symbol, a space, right, given
      the texts of the two operands. */
  function AssignText(left: string, op: AssignOperator, right: string): (r: string)
    ensures |r| == |left| + |Symbol(op)| + |right| + 2
  {
    left + " " + Symbol(op) + " " + right
  }

  /** When the left text holds no space, the text of an assignment
      determines its left text, its operator and its right text. */
  lemma {:induction false} AssignTextInjective(l1: string, op1: AssignOperator, r1: string,
                                               l2: string, op2: AssignOperator, r2: string)
    requires ' ' !in l1 && ' ' !in l2
    requires AssignText(l1, op1, r1) == AssignText(l2, op2, r2)
    ensures l1 == l2 && op1 == op2 && r1 == r2
  {
    SymbolShape(op1);
    SymbolShape(op2);
    var rest1 := Symbol(op1) + " " + r1;
    var rest2 := Symbol(op2) + " " + r2;
    assert AssignText(l1, op1, r1) == l1 + " " + rest1;
    assert AssignText(l2, op2, r2) == l2 + " " + rest2;
    PrefixBeforeFirstSpace(l1, rest1, l2, rest2);
    PrefixBeforeFirstSpace(Symbol(op1), r1, Symbol(op2), r2);
    SymbolsDistinct(op1, op2);
  }

  /** In `a + " " + b` with no space in `a`, the first space sits at |a|. */
  lemma FirstSpace(a: string, b: string)
    requires ' ' !in a
    ensures |a| < |a + " " + b| && (a + " " + b)[|a|] == ' ' && (a + " " + b)[..|a|] == a
    ensures forall k :: 0 <= k < |a| ==> (a + " " + b)[k] != ' '
  {
  }

  lemma PrefixBeforeFirstSpace(a: string, b: string, c: string, d: string)
    requires ' ' !in a && ' ' !in c
    requires a + " " + b == c + " " + d
    ensures a == c && b == d
  {
    var s := a + " " + b;
    FirstSpace(a, b);
    FirstSpace(c, d);
    if |a| != |c| {
      assert false;
    }
    assert a == s[..|a|] == c;
    assert b == s[|a| + 1..] == d;
  }
}
