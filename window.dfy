/** The instruction window: a ten-slot ring buffer of the opcodes most
    recently visited, and the backward-looking pattern test over it. */
module Window {
  import opened Opcodes

  /** Number of slots of the ring buffer. */
  const SIZE := 10

  /** The slot holding the entry `i` of a pattern of length `n` when the next
      write goes to slot `index`: the pattern's last element is compared with
      the most recently written slot. */
  function Slot(index: nat, i: nat, n: nat): (s: nat)
    requires index < SIZE && i < n <= SIZE
    ensures s < SIZE
  {
    (index + i + SIZE - n) % SIZE
  }

  /** The pattern `p` matches the window (`records`, `index`): entry `i` of
      the pattern accepts the opcode recorded |p|-i writes ago. */
  predicate WindowMatches(records: seq<int>, index: nat, p: seq<int>)
    requires |records| == SIZE && index < SIZE && |p| <= SIZE
  {
    forall i :: 0 <= i < |p| ==> Accepts(p[i], records[Slot(index, i, |p|)])
  }

  /** One write into the ring buffer: the opcode goes to slot `index` and the
      index advances, wrapping from ten back to zero. */
  function Push(records: seq<int>, index: nat, opcode: int): (r: (seq<int>, nat))
    requires |records| == SIZE && index < SIZE
    ensures |r.0| == SIZE && r.1 < SIZE
    ensures r.0[index] == opcode
    ensures forall j :: 0 <= j < SIZE && j != index ==> r.0[j] == records[j]
  {
    (records[index := opcode], if index + 1 == SIZE then 0 else index + 1)
  }

  /** Pushing an opcode extends every pattern by one element: the window
      after the push matches `p + [q]` exactly when the window before it
      matched `p` and `q` accepts the pushed opcode. */
  lemma {:induction false} PushExtendsMatch(records: seq<int>, index: nat, opcode: int, p: seq<int>, q: int)
    requires |records| == SIZE && index < SIZE && |p| < SIZE
    ensures var (r, k) := Push(records, index, opcode);
      WindowMatches(r, k, p + [q]) <==> WindowMatches(records, index, p) && Accepts(q, opcode)
  {
    var (r, k) := Push(records, index, opcode);
    var n := |p| + 1;
    assert Slot(k, n - 1, n) == index;
    forall i | 0 <= i < |p|
      ensures Slot(k, i, n) == Slot(index, i, |p|) && Slot(k, i, n) != index
    {
      assert k == (index + 1) % SIZE;
    }
    if WindowMatches(records, index, p) && Accepts(q, opcode) {
      forall i | 0 <= i < n ensures Accepts((p + [q])[i], r[Slot(k, i, n)]) {
        if i < |p| {
          assert (p + [q])[i] == p[i];
        }
      }
    }
    if WindowMatches(r, k, p + [q]) {
      assert Accepts((p + [q])[n - 1], r[Slot(k, n - 1, n)]);
      forall i | 0 <= i < |p| ensures Accepts(p[i], records[Slot(index, i, |p|)]) {
        assert Accepts((p + [q])[i], r[Slot(k, i, n)]);
      }
    }
  }

  /** The window of a decompiler: `records` holds the last ten recorded
      opcodes and `recordIndex` the slot the next one is written to. */
  class InstructionWindow {
    var records: array<int>
    var recordIndex: nat

    ghost predicate Valid()
      reads this
    {
      records.Length == SIZE && recordIndex < SIZE
    }

    /** A fresh window: all slots zero, writing starts at slot zero. */
    constructor ()
      ensures Valid() && fresh(records)
      ensures records[..] == seq(SIZE, _ => 0) && recordIndex == 0
    {
      records := new int[SIZE](_ => 0);
      recordIndex := 0;
    }

    /** Records one visited opcode. While slot zero still holds zero and the
        opcode is not a label, a synthetic label is recorded first (the
        decompiler then opens a node for it): `synthetic` says so. */
    method Record(opcode: int) returns (synthetic: bool)
      requires Valid()
      modifies this, records
      ensures Valid() && records == old(records)
      ensures synthetic <==> old(records[0]) == 0 && opcode != LABEL
      ensures !synthetic ==> (records[..], recordIndex) == Push(old(records[..]), old(recordIndex), opcode)
      ensures synthetic ==>
        var (r, k) := Push(old(records[..]), old(recordIndex), LABEL);
        (records[..], recordIndex) == Push(r, k, opcode)
    {
      synthetic := records[0] == 0 && opcode != LABEL;
      if synthetic {
        Store(LABEL);
      }
      Store(opcode);
    }

    /** The write itself: store at `recordIndex`, advance, wrap at ten. */
    method Store(opcode: int)
      requires Valid()
      modifies this, records
      ensures Valid() && records == old(records)
      ensures (records[..], recordIndex) == Push(old(records[..]), old(recordIndex), opcode)
    {
      records[recordIndex] := opcode;
      recordIndex := recordIndex + 1;
      if recordIndex == records.Length {
        recordIndex := 0;
      }
    }

    /** The pattern test: compares the pattern element by element with the
        most recent |p| records, stopping at the first mismatch. It changes
        nothing. */
    method Match(p: seq<int>) returns (b: bool)
      requires Valid() && |p| <= SIZE
      ensures b == WindowMatches(records[..], recordIndex, p)
    {
      var i := 0;
      while i < |p|
        invariant 0 <= i <= |p|
        invariant forall j :: 0 <= j < i ==> Accepts(p[j], records[Slot(recordIndex, j, |p|)])
      {
        var recorded := records[(recordIndex + i + records.Length - |p|) % records.Length];
        if !Accepts(p[i], recorded) {
          return false;
        }
        i := i + 1;
      }
      return true;
    }
  }

  /** After any write, a one-element pattern of that exact opcode matches. */
  lemma {:induction false} PushedOpcodeMatches(records: seq<int>, index: nat, opcode: int)
    requires |records| == SIZE && index < SIZE && !IsCategory(opcode)
    ensures var (r, k) := Push(records, index, opcode); WindowMatches(r, k, [opcode])
  {
    PushExtendsMatch(records, index, opcode, [], opcode);
  }
}
