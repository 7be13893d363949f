/** The local variables of the decompiled method: the name of each
    variable slot, the slots to skip because they hold the second half of a
    long or double, and a type cell per slot. */
module Locals {
  import opened Opcodes

  /** The name of a local variable: `this`, or `local<n>`. */
  datatype VarName = This | Local(n: int)

  /** The name of the variable in slot `order`. Slot 0 of an instance method
      holds `this`, so the other slots are numbered from one less; a static
      method numbers its slots from zero. */
  function NameOf(isStatic: bool, order: int): (r: VarName)
    ensures r == This <==> order == (if isStatic then -1 else 0)
  {
    var n := if isStatic then order else order - 1;
    if n == -1 then This else Local(n)
  }

  /** Different slots have different names, and the slot can be read back
      from the name. */
  lemma NameOfInjective(isStatic: bool, a: int, b: int)
    ensures NameOf(isStatic, a) == NameOf(isStatic, b) ==> a == b
    ensures NameOf(isStatic, a).Local? ==> NameOf(isStatic, a).n == (if isStatic then a else a - 1)
  {
  }

  /** Whether an access by this opcode takes two slots (long and double). */
  predicate IsWide(opcode: int) {
    opcode == LLOAD || opcode == LSTORE || opcode == DLOAD || opcode == DSTORE
  }

  /** The names `names()` lists: the slots from `lo` up to `hi`, in order,
      except the ignored ones. */
  function Slots(isStatic: bool, lo: int, hi: int, ignores: seq<int>): seq<VarName>
    decreases hi - lo
  {
    if hi <= lo then []
    else Slots(isStatic, lo, hi - 1, ignores) + (if hi - 1 in ignores then [] else [NameOf(isStatic, hi - 1)])
  }

  /** The listed names are those of the slots in range that are not
      ignored, none twice. */
  lemma {:induction false} SlotsAreTheKeptSlots(isStatic: bool, lo: int, hi: int, ignores: seq<int>)
    ensures var r := Slots(isStatic, lo, hi, ignores);
      && (forall i :: lo <= i < hi && i !in ignores ==> NameOf(isStatic, i) in r)
      && (forall k :: 0 <= k < |r| ==> r[k] != NameOf(isStatic, hi) && r[k] != NameOf(isStatic, lo - 1))
      && (forall j, k :: 0 <= j < k < |r| ==> r[j] != r[k])
      && (lo <= hi ==> |r| <= hi - lo)
    decreases hi - lo
  {
    if lo < hi {
      var r0 := Slots(isStatic, lo, hi - 1, ignores);
      SlotsAreTheKeptSlots(isStatic, lo, hi - 1, ignores);
      var r := Slots(isStatic, lo, hi, ignores);
      forall k | 0 <= k < |r0| ensures r0[k] != NameOf(isStatic, hi) {
        // every name of r0 is that of a slot below hi - 1
        SlotBelow(isStatic, lo, hi - 1, ignores, k);
        var i :| lo <= i < hi - 1 && r0[k] == NameOf(isStatic, i);
        NameOfInjective(isStatic, i, hi);
      }
      forall k | 0 <= k < |r0| ensures r0[k] != NameOf(isStatic, hi - 1) {
        SlotBelow(isStatic, lo, hi - 1, ignores, k);
        var i :| lo <= i < hi - 1 && r0[k] == NameOf(isStatic, i);
        NameOfInjective(isStatic, i, hi - 1);
      }
      NameOfInjective(isStatic, hi - 1, hi);
      NameOfInjective(isStatic, hi - 1, lo - 1);
      NameOfInjective(isStatic, hi, lo - 1);
    } else {
      NameOfInjective(isStatic, hi, lo - 1);
    }
  }

  /** Every listed name is that of a slot in range. */
  lemma {:induction false} SlotBelow(isStatic: bool, lo: int, hi: int, ignores: seq<int>, k: nat)
    requires k < |Slots(isStatic, lo, hi, ignores)|
    ensures exists i :: lo <= i < hi && Slots(isStatic, lo, hi, ignores)[k] == NameOf(isStatic, i)
    decreases hi - lo
  {
    var r0 := Slots(isStatic, lo, hi - 1, ignores);
    if k < |r0| {
      SlotBelow(isStatic, lo, hi - 1, ignores, k);
      var i :| lo <= i < hi - 1 && r0[k] == NameOf(isStatic, i);
      assert Slots(isStatic, lo, hi, ignores)[k] == NameOf(isStatic, i);
    } else {
      assert Slots(isStatic, lo, hi, ignores)[k] == NameOf(isStatic, hi - 1);
    }
  }

  /** A type cell, inferred later; only its identity matters here. */
  class InferredType {
    constructor () {
    }
  }

  class LocalVariables {
    /** Whether the decompiled method is static. */
    const isStatic: bool
    /** The number of slots; nothing raises it from zero. */
    var max: int
    /** The slots holding the second half of a long or double. */
    var ignores: seq<int>
    /** The type cell of each slot asked for so far. */
    var types: map<int, InferredType>

    constructor (isStatic: bool)
      ensures this.isStatic == isStatic && max == 0 && ignores == [] && types == map[]
    {
      this.isStatic := isStatic;
      max := 0;
      ignores := [];
      types := map[];
    }

    /** `name(order, opcode)`: the variable's name; a long or double access
        marks the next slot as one to skip. */
    method Name(order: int, opcode: int) returns (name: VarName)
      modifies this
      ensures name == NameOf(isStatic, order)
      ensures ignores == old(ignores) + (if IsWide(opcode) then [order + 1] else [])
      ensures max == old(max) && types == old(types)
    {
      if IsWide(opcode) {
        ignores := ignores + [order + 1];
      }
      var n := order;
      if !isStatic {
        n := n - 1;
      }
      if n == -1 {
        return This;
      }
      return Local(n);
    }

    /** `names()`: the names of the slots below `max`, skipping `this` and
        the ignored slots. It uses `name(i)`, which passes no opcode and so
        marks nothing. */
    method Names() returns (names: seq<VarName>)
      ensures names == Slots(isStatic, if isStatic then 0 else 1, max, ignores)
      ensures This !in names
    {
      var lo := if isStatic then 0 else 1;
      names := [];
      var i := lo;
      if i < max {
        while i < max
          invariant lo <= i <= max
          invariant names == Slots(isStatic, lo, i, ignores)
        {
          if i !in ignores {
            names := names + [NameOf(isStatic, i)];
          }
          i := i + 1;
        }
      }
      SlotsAreTheKeptSlots(isStatic, lo, max, ignores);
    }

    /** `type(position)`: the type cell of the slot, created on first use
        and the same cell ever after. */
    method Type(position: int) returns (t: InferredType)
      modifies this
      ensures position in types && t == types[position]
      ensures position in old(types) ==> t == old(types[position]) && types == old(types)
      ensures position !in old(types) ==> fresh(t) && types == old(types)[position := t]
      ensures max == old(max) && ignores == old(ignores)
    {
      if position in types {
        return types[position];
      }
      t := new InferredType();
      types := types[position := t];
    }
  }

  /** As long as nothing raises `max`, `names()` lists nothing. */
  lemma NoNamesBelowZero(isStatic: bool, ignores: seq<int>)
    ensures Slots(isStatic, if isStatic then 0 else 1, 0, ignores) == []
  {
  }
}
