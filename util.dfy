/** Classification of opcodes and types into runtime classes, and the
    default value of a type. */
module Util {
  import opened Wrappers
  import opened Opcodes
  import opened Operands

  /** A type as the bytecode reader describes it. Only the sort of a
      primitive or void matters here; array and object types are resolved by
      reflection, which is outside this model. */
  datatype AsmType =
    | PrimitiveType(p: Primitive)
    | VoidType
    | ArrayType(descriptor: string)
    | ObjectType(internalName: string)

  /** `load(int)`: the class of the value an arithmetic, constant, load,
      store, return or conversion opcode produces or handles. Any other
      opcode is a fatal error. */
  function LoadOpcode(op: int): (r: Result<JavaClass, Fault>)
    ensures r.Failure? ==> r.error == UnknownOpcode(op)
  {
    if op in {IADD, IAND, ICONST_0, ICONST_1, ICONST_2, ICONST_3, ICONST_4, ICONST_5, ICONST_M1,
              IDIV, ILOAD, IMUL, INEG, IOR, IREM, IRETURN, ISHL, ISHR, ISTORE, ISUB, IUSHR, IXOR,
              L2I, F2I, D2I} then Success(PrimitiveClass(Int))
    else if op in {LADD, LAND, LCONST_0, LCONST_1, LDIV, LLOAD, LMUL, LNEG, LOR, LREM, LRETURN,
                   LSHL, LSHR, LSTORE, LSUB, LUSHR, LXOR, I2L, F2L, D2L} then Success(PrimitiveClass(Long))
    else if op in {FADD, FCONST_0, FCONST_1, FCONST_2, FDIV, FLOAD, FMUL, FNEG, FREM, FRETURN,
                   FSTORE, FSUB, I2F, L2F, D2F} then Success(PrimitiveClass(Float))
    else if op in {DADD, DCONST_0, DCONST_1, DDIV, DLOAD, DMUL, DNEG, DREM, DRETURN, DSTORE,
                   DSUB, I2D, L2D, F2D} then Success(PrimitiveClass(Double))
    else if op in {ALOAD, ASTORE} then Success(ObjectClass)
    else Failure(UnknownOpcode(op))
  }

  /** The four numeric sorts in the order the instruction set repeats them
      (the i-, l-, f- and d- variants of one instruction are consecutive). */
  function NumericCycle(k: nat): Primitive {
    match k % 4
    case 0 => Int
    case 1 => Long
    case 2 => Float
    case _ => Double
  }

  /** Against the layout of the instruction set: the typed loads, stores and
      returns, and add, sub, mul, div, rem and neg, each come as four
      consecutive opcodes for int, long, float and double, and `load(int)`
      gives exactly that sort. */
  lemma {:induction false} TypedFamiliesFollowCycle(op: int)
    requires ILOAD <= op <= DLOAD || ISTORE <= op <= DSTORE || IRETURN <= op <= DRETURN || IADD <= op <= DNEG
    ensures LoadOpcode(op) == Success(PrimitiveClass(NumericCycle(
      if op <= DLOAD then op - ILOAD else if op <= DSTORE then op - ISTORE
      else if op <= DNEG then op - IADD else op - IRETURN)))
  {
    if ILOAD <= op <= DLOAD {
      assert op in {ILOAD, LLOAD, FLOAD, DLOAD};
    } else if ISTORE <= op <= DSTORE {
      assert op in {ISTORE, LSTORE, FSTORE, DSTORE};
    } else if IRETURN <= op <= DRETURN {
      assert op in {IRETURN, LRETURN, FRETURN, DRETURN};
    } else {
      assert IADD <= op <= DNEG;
    }
  }

  /** The shifts and bitwise operations alternate int and long. */
  lemma ShiftsAndBitwiseAlternate(op: int)
    requires ISHL <= op <= LXOR
    ensures LoadOpcode(op) == Success(PrimitiveClass(if (op - ISHL) % 2 == 0 then Int else Long))
  {
  }

  /** A conversion is classified by the sort it converts to. */
  lemma ConversionsByTarget()
    ensures forall op :: op in {L2I, F2I, D2I} ==> LoadOpcode(op) == Success(PrimitiveClass(Int))
    ensures forall op :: op in {I2L, F2L, D2L} ==> LoadOpcode(op) == Success(PrimitiveClass(Long))
    ensures forall op :: op in {I2F, L2F, D2F} ==> LoadOpcode(op) == Success(PrimitiveClass(Float))
    ensures forall op :: op in {I2D, L2D, F2D} ==> LoadOpcode(op) == Success(PrimitiveClass(Double))
  {
  }

  /** `load(Type)`: the primitive sorts and void map to their classes; array
      and object types are looked up by reflection, whose answer is not
      computed here. */
  function LoadType(t: AsmType): (r: JavaClass)
    ensures t.PrimitiveType? <==> r.PrimitiveClass?
    ensures t.PrimitiveType? ==> r.p == t.p
    ensures t.VoidType? <==> r.VoidClass?
  {
    match t
    case PrimitiveType(p) => PrimitiveClass(p)
    case VoidType => VoidClass
    case ArrayType(d) => Reflected(d)
    case ObjectType(n) => Reflected(n)
  }

  /** `load(String)`: null for a null internal name, otherwise the class of
      the object type of that name. */
  function LoadName(internalName: Option<string>): (r: Option<JavaClass>)
    ensures internalName.None? <==> r.None?
    ensures r.Some? ==> r.value == LoadType(ObjectType(internalName.value))
  {
    match internalName
    case None => None
    case Some(n) => Some(LoadType(ObjectType(n)))
  }

  /** `load(Type[])`: a fresh array of the same length whose element i is
      the class of type i. */
  method LoadAll(types: seq<AsmType>) returns (classes: array<JavaClass>)
    ensures fresh(classes) && classes.Length == |types|
    ensures forall i :: 0 <= i < |types| ==> classes[i] == LoadType(types[i])
  {
    classes := new JavaClass[|types|](_ => Unresolved);
    var i := 0;
    while i < classes.Length
      invariant 0 <= i <= classes.Length
      invariant forall k :: 0 <= k < i ==> classes[k] == LoadType(types[k])
    {
      classes[i] := LoadType(types[i]);
      i := i + 1;
    }
  }

  /** `defaultValueFor`: the zero of each numeric primitive, false for
      boolean, a fatal error for char, and null for every other class. */
  function DefaultValueFor(c: JavaClass): (r: Result<Operand, Fault>)
    ensures r.Failure? <==> c == PrimitiveClass(Char)
  {
    match c
    case PrimitiveClass(Int) => Success(Number(0, Int))
    case PrimitiveClass(Long) => Success(Number(0, Long))
    case PrimitiveClass(Float) => Success(Number(0, Float))
    case PrimitiveClass(Double) => Success(Number(0, Double))
    case PrimitiveClass(Char) => Failure(NoDefaultForChar)
    case PrimitiveClass(Byte) => Success(Number(0, Byte))
    case PrimitiveClass(Short) => Success(Number(0, Short))
    case PrimitiveClass(Boolean) => Success(BooleanLiteral(false))
    case _ => Success(NullLiteral)
  }

  /** The default of a primitive other than char has that very type and is
      its zero (false for boolean); every non-primitive class defaults to
      null. */
  lemma DefaultValueIsTypedZero(c: JavaClass)
    ensures c.PrimitiveClass? && c.p != Char ==>
      && DefaultValueFor(c).Success?
      && Infer(DefaultValueFor(c).value) == c
      && (DefaultValueFor(c).value.Number? ==> DefaultValueFor(c).value.value == 0)
      && (c.p == Boolean <==> DefaultValueFor(c).value == BooleanLiteral(false))
    ensures !c.PrimitiveClass? ==> DefaultValueFor(c) == Success(NullLiteral)
  {
  }
}
