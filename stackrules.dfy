/** The stack rules of the instruction visitors that do not touch the node
    graph: integer constants, the boolean-return patterns and the rewriting
    of a returned value, the newarray type table, the argument popping of an
    invocation, and the text of an increment. Stacks are top first. */
module StackRules {
  import opened Wrappers
  import opened Opcodes
  import opened Operands
  import opened Window

  // ---------------------------------------------------------------------
  // Integer constants
  // ---------------------------------------------------------------------

  /** The value an iconst_<i> instruction pushes (iconst_m1 to iconst_5),
      or nothing for any other opcode. */
  function IntConstant(opcode: int): (r: Option<int>)
    ensures r.Some? <==> ICONST_M1 <= opcode <= ICONST_5
    ensures r.Some? ==> -1 <= r.value <= 5
  {
    if ICONST_M1 <= opcode <= ICONST_5 then Some(opcode - ICONST_0) else None
  }

  /** The constants are numbered consecutively: iconst_0 pushes 0, iconst_1
      pushes 1 and iconst_m1 pushes -1, and no two push the same value. */
  lemma IntConstantsAreDistinct(a: int, b: int)
    requires IntConstant(a).Some? && IntConstant(b).Some?
    ensures IntConstant(a) == IntConstant(b) ==> a == b
    ensures IntConstant(ICONST_0) == Some(0) && IntConstant(ICONST_1) == Some(1) && IntConstant(ICONST_M1) == Some(-1)
  {
  }

  // ---------------------------------------------------------------------
  // Returning a boolean
  // ---------------------------------------------------------------------

  /** `return c ? false : true` compiled with the 0 branch first, short and
      long forms, and the same with the 1 branch first. */
  const ZERO_FIRST_SHORT: seq<int> := [JUMP, ICONST_0, IRETURN, LABEL, FRAME, ICONST_1, IRETURN]
  const ZERO_FIRST_LONG: seq<int> := [JUMP, LABEL, FRAME, ICONST_0, IRETURN, LABEL, FRAME, ICONST_1, IRETURN]
  const ONE_FIRST_SHORT: seq<int> := [JUMP, ICONST_1, IRETURN, LABEL, FRAME, ICONST_0, IRETURN]
  const ONE_FIRST_LONG: seq<int> := [JUMP, LABEL, FRAME, ICONST_1, IRETURN, LABEL, FRAME, ICONST_0, IRETURN]

  /** Which shape of return the window shows at an `ireturn`. */
  datatype ReturnPattern = Plain | ZeroFirst | OneFirst

  /** The patterns are tried in the order of the source: the 0-first ones,
      then the 1-first ones. */
  function PatternOf(records: seq<int>, index: nat): (r: ReturnPattern)
    requires |records| == SIZE && index < SIZE
    ensures r == ZeroFirst <==>
      WindowMatches(records, index, ZERO_FIRST_SHORT) || WindowMatches(records, index, ZERO_FIRST_LONG)
    ensures r == OneFirst ==>
      WindowMatches(records, index, ONE_FIRST_SHORT) || WindowMatches(records, index, ONE_FIRST_LONG)
  {
    if WindowMatches(records, index, ZERO_FIRST_SHORT) || WindowMatches(records, index, ZERO_FIRST_LONG) then ZeroFirst
    else if WindowMatches(records, index, ONE_FIRST_SHORT) || WindowMatches(records, index, ONE_FIRST_LONG) then OneFirst
    else Plain
  }

  /** The order in which the patterns are tried does not matter: no window
      matches a 0-first and a 1-first pattern at once, because the opcode
      recorded just before the final `ireturn` is iconst_1 in the one and
      iconst_0 in the other. So a window showing a 1-first pattern is
      classified as such. */
  lemma PatternsExclusive(records: seq<int>, index: nat)
    requires |records| == SIZE && index < SIZE
    ensures !(WindowMatches(records, index, ZERO_FIRST_SHORT) || WindowMatches(records, index, ZERO_FIRST_LONG))
         || !(WindowMatches(records, index, ONE_FIRST_SHORT) || WindowMatches(records, index, ONE_FIRST_LONG))
    ensures PatternOf(records, index) == OneFirst <==>
      WindowMatches(records, index, ONE_FIRST_SHORT) || WindowMatches(records, index, ONE_FIRST_LONG)
  {
    var last := Slot(index, 5, 7);
    assert Slot(index, 7, 9) == last;
    if WindowMatches(records, index, ZERO_FIRST_SHORT) {
      assert Accepts(ZERO_FIRST_SHORT[5], records[last]);
    }
    if WindowMatches(records, index, ZERO_FIRST_LONG) {
      assert Accepts(ZERO_FIRST_LONG[7], records[last]);
    }
    if WindowMatches(records, index, ONE_FIRST_SHORT) {
      assert Accepts(ONE_FIRST_SHORT[5], records[last]);
    }
    if WindowMatches(records, index, ONE_FIRST_LONG) {
      assert Accepts(ONE_FIRST_LONG[7], records[last]);
    }
  }

  /** The returned value of a method whose return type is boolean: the
      literals 0 and 1 become `false` and `true`, and an ambiguous `c ? 1 : 0`
      is cast to boolean. Every other value, and every value of a method
      with another return type, is kept. */
  function Normalize(o: Operand, returnsBoolean: bool): (r: Operand)
    ensures !returnsBoolean ==> r == o
    ensures returnsBoolean && PrintsAsDigit(o, 0) ==> r == Expression("false")
    ensures returnsBoolean && PrintsAsDigit(o, 1) ==> r == Expression("true")
    ensures returnsBoolean && o.ZeroOneTernary? ==> r == BooleanCast(o)
  {
    if !returnsBoolean then o
    else if PrintsAsDigit(o, 0) then Expression("false")
    else if PrintsAsDigit(o, 1) then Expression("true")
    else if o.ZeroOneTernary? then BooleanCast(o)
    else o
  }

  /** A boolean method returns no integer digit and no ambiguous ternary,
      and normalizing twice changes nothing more. */
  lemma NormalizeLeavesNoDigit(o: Operand)
    ensures var r := Normalize(o, true);
      !PrintsAsDigit(r, 0) && !PrintsAsDigit(r, 1) && !r.ZeroOneTernary?
    ensures Normalize(Normalize(o, true), true) == Normalize(o, true)
  {
  }

  /** `addExpression(Return, operand)`: the statement `return operand;`
      on top of the stack. */
  function ReturnStatement(s: seq<Operand>, returnsBoolean: bool): (r: Result<seq<Operand>, Fault>)
    ensures r.Failure? <==> s == []
    ensures r.Failure? ==> r.error == StackUnderflow
    ensures r.Success? ==> |r.value| == |s| + 2 && r.value[3..] == s[1..]
  {
    if s == [] then Failure(StackUnderflow)
    else Success([End, Normalize(s[0], returnsBoolean), ReturnKeyword] + s[1..])
  }

  /** `peek(0).invert()`: negates the top operand when it is a condition;
      an empty stack has no top to invert. */
  function InvertTop(s: seq<Operand>): (r: Result<seq<Operand>, Fault>)
    ensures r.Failure? <==> s == []
    ensures r.Failure? ==> r.error == NullPointer
    ensures r.Success? ==> |r.value| == |s| && r.value[1..] == s[1..]
  {
    if s == [] then Failure(NullPointer)
    else if s[0].Cond? then Success(s[0 := Cond(Invert(s[0].c))])
    else Success(s)
  }

  /** What a boolean pattern does before the value is returned: it removes
      the four operands of the branch compiled for the other literal (the
      literal, the `;`, the literal's expression and the `return`), and the
      1-first pattern inverts the condition then on top. */
  function DropBranch(s: seq<Operand>, pattern: ReturnPattern): (r: Result<seq<Operand>, Fault>)
  {
    if pattern == Plain then Success(s)
    else if |s| < 4 then Failure(StackUnderflow)
    else if pattern == ZeroFirst then Success(s[4..])
    else InvertTop(s[4..])
  }

  /** The stack of the returning node after an `ireturn`, when no node is
      disposed meanwhile: the branch is dropped, then the top value becomes
      the returned value. */
  function ReturnStack(s: seq<Operand>, pattern: ReturnPattern, returnsBoolean: bool): (r: Result<seq<Operand>, Fault>)
  {
    var dropped :- DropBranch(s, pattern);
    ReturnStatement(dropped, returnsBoolean)
  }

  /** What an `ireturn` leaves: the statement `return v;` on top, where `v`
      is the normalized top value; exactly four more operands are gone when
      a boolean pattern matched, and in the 1-first pattern a condition on
      top is returned negated. The stack fails only when it runs short. */
  lemma ReturnStackEffect(s: seq<Operand>, pattern: ReturnPattern, returnsBoolean: bool)
    ensures var r := ReturnStack(s, pattern, returnsBoolean);
      var removed := if pattern == Plain then 0 else 4;
      && (r.Success? <==> |s| > removed)
      && (r.Success? ==>
            && |r.value| == |s| - removed + 2
            && r.value[0] == End && r.value[2] == ReturnKeyword
            && r.value[3..] == s[removed + 1..]
            && r.value[1] == Normalize(
                 if pattern == OneFirst && s[removed].Cond? then Cond(Invert(s[removed].c)) else s[removed],
                 returnsBoolean))
  {
    if pattern != Plain && |s| > 4 {
      assert s[4..][1..] == s[5..];
    }
  }

  /** Returning from two stacks that differ only in condition targets
      gives two such stacks: a returned condition stays a condition with
      the same test. */
  lemma ReturnStatementKeepsShape(a: seq<Operand>, b: seq<Operand>, returnsBoolean: bool)
    requires SameShape(a, b)
    ensures ReturnStatement(a, returnsBoolean).Success? == ReturnStatement(b, returnsBoolean).Success?
    ensures ReturnStatement(a, returnsBoolean).Success? ==>
      SameShape(ReturnStatement(a, returnsBoolean).value, ReturnStatement(b, returnsBoolean).value)
  {
    if a != [] {
      var ra, rb := ReturnStatement(a, returnsBoolean).value, ReturnStatement(b, returnsBoolean).value;
      assert ra[3..] == a[1..] && rb[3..] == b[1..];
      forall k | 3 <= k < |ra|
        ensures if ra[k].Cond? then rb[k].Cond? && rb[k].c.test == ra[k].c.test else rb[k] == ra[k]
      {
        assert ra[k] == a[k - 2] && rb[k] == b[k - 2];
      }
    }
  }

  /** Inverting the top of two stacks that differ only in condition targets
      gives two such stacks. */
  lemma InvertTopKeepsShape(a: seq<Operand>, b: seq<Operand>)
    requires SameShape(a, b)
    ensures InvertTop(a).Success? == InvertTop(b).Success?
    ensures InvertTop(a).Success? ==> SameShape(InvertTop(a).value, InvertTop(b).value)
  {
  }

  // ---------------------------------------------------------------------
  // newarray
  // ---------------------------------------------------------------------

  /** The element type of `newarray` by its array type tag (JVMS section
      6.5, newarray); any other tag is a fatal error. */
  function ArrayElement(atype: int): (r: Result<Primitive, Fault>)
    ensures r.Failure? <==> !(T_BOOLEAN <= atype <= T_LONG)
    ensures r.Failure? ==> r.error == UnknownArrayType(atype)
  {
    if atype == T_INT then Success(Int)
    else if atype == T_LONG then Success(Long)
    else if atype == T_FLOAT then Success(Float)
    else if atype == T_DOUBLE then Success(Double)
    else if atype == T_BOOLEAN then Success(Boolean)
    else if atype == T_BYTE then Success(Byte)
    else if atype == T_CHAR then Success(Char)
    else if atype == T_SHORT then Success(Short)
    else Failure(UnknownArrayType(atype))
  }

  /** The array type tag of a primitive sort. */
  function ArrayTypeTag(p: Primitive): int {
    match p
    case Boolean => T_BOOLEAN
    case Char => T_CHAR
    case Float => T_FLOAT
    case Double => T_DOUBLE
    case Byte => T_BYTE
    case Short => T_SHORT
    case Int => T_INT
    case Long => T_LONG
  }

  /** The table is a bijection between the eight tags and the eight
      primitive sorts. */
  lemma ArrayElementRoundTrip(p: Primitive, atype: int)
    ensures ArrayElement(ArrayTypeTag(p)) == Success(p)
    ensures ArrayElement(atype).Success? ==> ArrayTypeTag(ArrayElement(atype).value) == atype
  {
  }

  /** `newarray`: the array of the element type, sized by the operand on
      top of the stack, replaces that operand. */
  function NewArrayStack(s: seq<Operand>, atype: int): (r: Result<seq<Operand>, Fault>)
    ensures r.Success? <==> ArrayElement(atype).Success? && s != []
    ensures ArrayElement(atype).Failure? ==> r == Failure(UnknownArrayType(atype))
    ensures ArrayElement(atype).Success? && s == [] ==> r == Failure(StackUnderflow)
    ensures r.Success? ==>
      && |r.value| == |s| && r.value[1..] == s[1..]
      && r.value[0] == NewArray(s[0], PrimitiveArray(ArrayElement(atype).value))
  {
    var element :- ArrayElement(atype);
    if s == [] then Failure(StackUnderflow)
    else Success([NewArray(s[0], PrimitiveArray(element))] + s[1..])
  }

  // ---------------------------------------------------------------------
  // Invocation
  // ---------------------------------------------------------------------

  /** The arguments of an invocation in declaration order, from the
      operands popped for them (the last argument first). */
  function Reverse(s: seq<Operand>): (r: seq<Operand>)
    ensures |r| == |s| && forall k :: 0 <= k < |s| ==> r[k] == s[|s| - 1 - k]
  {
    if s == [] then [] else Reverse(s[1..]) + [s[0]]
  }

  // ---------------------------------------------------------------------
  // Increment
  // ---------------------------------------------------------------------

  /** `increment(context, type, increase, post)`: `x++`, `x--`, `++x` or
      `--x`. */
  function Increment(context: string, increase: bool, post: bool): (r: string)
    ensures |r| == |context| + 2
  {
    var op := if increase then "++" else "--";
    if post then context + op else op + context
  }

  /** Whether a character is one of the two of an increment operator. */
  predicate IsSign(c: char) {
    c == '+' || c == '-'
  }

  /** The four forms of a variable name that neither starts nor ends with a
      sign are four different texts, and each gives the name back. */
  lemma IncrementInjective(context: string, increase1: bool, post1: bool, increase2: bool, post2: bool)
    requires |context| > 0 && !IsSign(context[0]) && !IsSign(context[|context| - 1])
    ensures Increment(context, increase1, post1) == Increment(context, increase2, post2) ==>
      increase1 == increase2 && post1 == post2
    ensures var r := Increment(context, increase1, post1);
      (if post1 then r[..|context|] else r[2..]) == context
  {
    var r1, r2 := Increment(context, increase1, post1), Increment(context, increase2, post2);
    if r1 == r2 && post1 == post2 {
      if post1 {
        assert r1[|context|] == r2[|context|];
      } else {
        assert r1[0] == r2[0];
      }
    }
  }
}
