/** Opcode numbers of the Java Virtual Machine instruction set (chapter 6 of
    the Java Virtual Machine Specification, Java SE), the pseudo-opcodes the
    decompiler records for labels and stack-map frames, and the wildcard
    categories its instruction-window patterns may use. */
module Opcodes {

  // Constants (JVMS section 6.5: aconst_null .. dconst_1, bipush, sipush)
  const NOP := 0
  const ICONST_M1 := 2
  const ICONST_0 := 3
  const ICONST_1 := 4
  const ICONST_2 := 5
  const ICONST_3 := 6
  const ICONST_4 := 7
  const ICONST_5 := 8
  const LCONST_0 := 9
  const LCONST_1 := 10
  const FCONST_0 := 11
  const FCONST_1 := 12
  const FCONST_2 := 13
  const DCONST_0 := 14
  const DCONST_1 := 15
  const BIPUSH := 16
  const SIPUSH := 17

  // Loads and stores
  const ILOAD := 21
  const LLOAD := 22
  const FLOAD := 23
  const DLOAD := 24
  const ALOAD := 25
  const IALOAD := 46
  const ISTORE := 54
  const LSTORE := 55
  const FSTORE := 56
  const DSTORE := 57
  const ASTORE := 58

  // Stack manipulation
  const DUP := 89
  const DUP_X1 := 90
  const DUP_X2 := 91
  const DUP2 := 92
  const DUP2_X1 := 93
  const DUP2_X2 := 94

  // Arithmetic
  const IADD := 96
  const LADD := 97
  const FADD := 98
  const DADD := 99
  const ISUB := 100
  const LSUB := 101
  const FSUB := 102
  const DSUB := 103
  const IMUL := 104
  const LMUL := 105
  const FMUL := 106
  const DMUL := 107
  const IDIV := 108
  const LDIV := 109
  const FDIV := 110
  const DDIV := 111
  const IREM := 112
  const LREM := 113
  const FREM := 114
  const DREM := 115
  const INEG := 116
  const LNEG := 117
  const FNEG := 118
  const DNEG := 119
  const ISHL := 120
  const LSHL := 121
  const ISHR := 122
  const LSHR := 123
  const IUSHR := 124
  const LUSHR := 125
  const IAND := 126
  const LAND := 127
  const IOR := 128
  const LOR := 129
  const IXOR := 130
  const LXOR := 131
  const IINC := 132

  // Conversions
  const I2L := 133
  const I2F := 134
  const I2D := 135
  const L2I := 136
  const L2F := 137
  const L2D := 138
  const F2I := 139
  const F2L := 140
  const F2D := 141
  const D2I := 142
  const D2L := 143
  const D2F := 144

  // Comparisons
  const LCMP := 148
  const FCMPL := 149
  const FCMPG := 150
  const DCMPL := 151
  const DCMPG := 152
  const IFEQ := 153
  const IFNE := 154
  const IFLT := 155
  const IFGE := 156
  const IFGT := 157
  const IFLE := 158
  const IF_ICMPEQ := 159
  const IF_ICMPNE := 160
  const IF_ICMPLT := 161
  const IF_ICMPGE := 162
  const IF_ICMPGT := 163
  const IF_ICMPLE := 164
  const IF_ACMPEQ := 165
  const IF_ACMPNE := 166

  // Control
  const GOTO := 167
  const IRETURN := 172
  const LRETURN := 173
  const FRETURN := 174
  const DRETURN := 175
  const ARETURN := 176
  const RETURN := 177

  // References
  const INVOKEVIRTUAL := 182
  const INVOKESPECIAL := 183
  const INVOKESTATIC := 184
  const INVOKEINTERFACE := 185
  const NEWARRAY := 188
  const ANEWARRAY := 189
  const ARRAYLENGTH := 190
  const IFNULL := 198
  const IFNONNULL := 199

  // Array type tags of newarray (JVMS section 6.5, newarray, Table 6.5.newarray-A)
  const T_BOOLEAN := 4
  const T_CHAR := 5
  const T_FLOAT := 6
  const T_DOUBLE := 7
  const T_BYTE := 8
  const T_SHORT := 9
  const T_INT := 10
  const T_LONG := 11

  // Pseudo-opcodes the decompiler records besides real instructions
  const LABEL := 300
  const FRAME_NEW := 400
  const FRAME_FULL := 401
  const FRAME_APPEND := 402
  const FRAME_CHOP := 403
  const FRAME_SAME := 404
  const FRAME_SAME1 := 405

  // Wildcard categories usable in a window pattern
  const FRAME := 406
  const JUMP := 410
  const ADD := 420
  const SUB := 421
  const CONSTANT_0 := 430
  const CONSTANT_1 := 431
  const DUPLICATE := 440
  const DUPLICATE_AWAY := 441
  const RETURNS := 450
  const INCREMENT := 460
  const FCMP := 470
  const DCMP := 471
  const CMP := 472
  const INVOKE := 480

  /** The conditional branches: every if<cond>, if_icmp<cond>, if_acmp<cond>,
      ifnull and ifnonnull instruction. */
  predicate IsConditionalJump(op: int) {
    op in {IFEQ, IFGE, IFGT, IFLE, IFLT, IFNE, IFNONNULL, IFNULL,
           IF_ACMPEQ, IF_ACMPNE, IF_ICMPEQ, IF_ICMPGE, IF_ICMPGT, IF_ICMPLE, IF_ICMPLT, IF_ICMPNE}
  }

  /** The set of recorded opcodes a wildcard category stands for; empty for an
      exact opcode (including INCREMENT, which no case of the matcher handles). */
  function Members(category: int): set<int> {
    if category == ADD then {IADD, LADD, FADD, DADD}
    else if category == SUB then {ISUB, LSUB, FSUB, DSUB}
    else if category == CONSTANT_0 then {ICONST_0, LCONST_0, FCONST_0, DCONST_0}
    else if category == CONSTANT_1 then {ICONST_1, LCONST_1, FCONST_1, DCONST_1}
    else if category == DUPLICATE then {DUP, DUP2}
    else if category == DUPLICATE_AWAY then {DUP_X1, DUP2_X1}
    else if category == RETURNS then {RETURN, IRETURN, ARETURN, LRETURN, FRETURN, DRETURN}
    else if category == JUMP then
      {IFEQ, IFGE, IFGT, IFLE, IFLT, IFNE, IFNONNULL, IFNULL,
       IF_ACMPEQ, IF_ACMPNE, IF_ICMPEQ, IF_ICMPGE, IF_ICMPGT, IF_ICMPLE, IF_ICMPLT, IF_ICMPNE, GOTO}
    else if category == CMP then
      {IFEQ, IFGE, IFGT, IFLE, IFLT, IFNE, IFNONNULL, IFNULL,
       IF_ACMPEQ, IF_ACMPNE, IF_ICMPEQ, IF_ICMPGE, IF_ICMPGT, IF_ICMPLE, IF_ICMPLT, IF_ICMPNE}
    else if category == FCMP then {FCMPG, FCMPL}
    else if category == DCMP then {DCMPG, DCMPL}
    else if category == FRAME then {FRAME_APPEND, FRAME_CHOP, FRAME_FULL, FRAME_NEW, FRAME_SAME, FRAME_SAME1}
    else if category == INVOKE then {INVOKEINTERFACE, INVOKESPECIAL, INVOKESTATIC, INVOKEVIRTUAL}
    else {}
  }

  /** Whether a pattern element names a wildcard category handled by the matcher. */
  predicate IsCategory(p: int) {
    p in {ADD, SUB, CONSTANT_0, CONSTANT_1, DUPLICATE, DUPLICATE_AWAY, RETURNS,
          JUMP, CMP, FCMP, DCMP, FRAME, INVOKE}
  }

  /** Whether one recorded opcode satisfies one pattern element: a category
      accepts exactly its members, anything else only itself. */
  predicate Accepts(p: int, recorded: int) {
    if IsCategory(p) then recorded in Members(p) else recorded == p
  }

  /** A category never accepts itself: categories are not real instructions. */
  lemma CategoryRejectsItself(p: int)
    requires IsCategory(p)
    ensures !Accepts(p, p)
  {
  }

  /** JUMP is CMP plus the unconditional GOTO, and nothing else. */
  lemma JumpIsCmpOrGoto(op: int)
    ensures Accepts(JUMP, op) <==> (Accepts(CMP, op) || op == GOTO)
    ensures Accepts(CMP, op) <==> IsConditionalJump(op)
    ensures Accepts(JUMP, GOTO) && !Accepts(CMP, GOTO)
  {
  }
}
