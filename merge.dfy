/** The two loops of the condition merger that work on one node's stack:
    the search for the run of conditions, and the right-to-left merge of
    that run. */
module Merger {
  import opened Wrappers
  import opened Operands
  import opened Conditions

  /** A run length is determined by where the run stops. */
  lemma {:induction false} RunLengthIsWhereRunStops(s: seq<Operand>, i: nat, n: nat)
    requires i + n <= |s|
    requires forall k :: i <= k < i + n ==> s[k].Cond?
    requires i + n == |s| || !s[i + n].Cond?
    ensures RunLength(s, i) == n
    decreases n
  {
    if n > 0 {
      RunLengthIsWhereRunStops(s, i + 1, n - 1);
    }
  }

  /** When the topmost condition sits at `i`, the search starts its run
      there, and the `elze` fix applies to that condition. */
  lemma FirstConditionAt(s: seq<Operand>, i: nat, destination: Ref)
    requires i < |s| && s[i].Cond? && forall k :: 0 <= k < i ==> !s[k].Cond?
    ensures Info(s).start == i && Info(s).count > 0
    ensures FixFirstElze(s, destination) ==
      if ReturnKeyword !in s[..i] && s[i].c.elzeNode == Null && s[i].c.thenNode != destination
      then s[i := Cond(Condition(s[i].c.test, s[i].c.thenNode, destination))]
      else s
  {
    assert FirstCondition(s) == i;
  }

  /** The search of the `SequentialConditionInfo` constructor: walks the
      stack from the top, skipping non-condition operands (noting a
      `return`) until the first condition, then counting conditions until
      the first non-condition; fixes the `elze` node of the first condition
      on the way. */
  method ScanConditions(s: seq<Operand>, destination: Ref) returns (info: ConditionInfo, t: seq<Operand>)
    ensures info == Info(s)
    ensures t == FixFirstElze(s, destination)
  {
    var returned := false;
    var start, count := 0, 0;
    t := s;
    var index := 0;
    while index < |s|
      invariant 0 <= index <= |s|
      invariant count == 0 ==> start == 0 && t == s && (forall k :: 0 <= k < index ==> !s[k].Cond?)
      invariant count == 0 ==> returned == (ReturnKeyword in s[..index])
      invariant count > 0 ==> start == FirstCondition(s) && start + count == index
      invariant count > 0 ==> forall k :: start <= k < index ==> s[k].Cond?
      invariant count > 0 ==> t == FixFirstElze(s, destination)
    {
      var operand := s[index];
      if !operand.Cond? {
        if count == 0 {
          if operand == ReturnKeyword {
            returned := true;
          }
          assert s[..index + 1] == s[..index] + [operand];
          index := index + 1;
          continue;
        } else {
          break;
        }
      }
      var condition := operand.c;
      if count == 0 {
        start := index;
        FirstConditionAt(s, index, destination);
        if !returned && condition.elzeNode == Null && condition.thenNode != destination {
          t := t[index := Cond(Condition(condition.test, condition.thenNode, destination))];
        }
      }
      count := count + 1;
      index := index + 1;
    }
    if count > 0 {
      RunLengthIsWhereRunStops(s, start, count);
    }
    info := ConditionInfo(start, count, |s| == start + count, start == 0 && count > 0);
  }

  /** A stack holding the conditions `cs` between `above` and `below`. */
  function Layout(above: seq<Operand>, cs: seq<Condition>, below: seq<Operand>): seq<Operand> {
    above + Conds(cs) + below
  }

  /** The loop reads the condition at position |above| + k of a layout. */
  lemma LayoutAt(above: seq<Operand>, cs: seq<Condition>, below: seq<Operand>, k: nat)
    requires k < |cs|
    ensures |above| + k < |Layout(above, cs, below)| && Layout(above, cs, below)[|above| + k] == Cond(cs[k])
  {
  }

  /** One merge of the loop: `right` at position p and the condition below
      it give way to the compound condition `merged`. */
  lemma MergeStep(above: seq<Operand>, done: seq<Condition>, right: Condition,
                  rest: seq<Condition>, below: seq<Operand>, merged: Condition)
    requires rest != []
    ensures var t := Layout(above, done + [right] + rest, below);
      var p := |above| + |done|;
      && p + 1 < |t| && t[p + 1] == Cond(rest[0])
      && RemoveAt(t, p)[p := Cond(merged)] == Layout(above, done + [merged] + rest[1..], below)
  {
    var cs := done + [right] + rest;
    var ds := done + [merged] + rest[1..];
    var t := Layout(above, cs, below);
    var p := |above| + |done|;
    var u := Layout(above, ds, below);
    var v := RemoveAt(t, p)[p := Cond(merged)];
    LayoutAt(above, cs, below, |done| + 1);
    assert |v| == |u|;
    forall k | 0 <= k < |u| ensures v[k] == u[k] {
      LayoutIndex(above, ds, below, k);
      if k < p {
        LayoutIndex(above, cs, below, k);
        assert v[k] == t[k];
      } else if k > p {
        LayoutIndex(above, cs, below, k + 1);
        assert v[k] == t[k + 1];
        if k < p + |rest| {
          assert cs[k - |above| + 1] == ds[k - |above|];
        }
      }
    }
  }

  /** The operand at each position of a layout. */
  lemma LayoutIndex(above: seq<Operand>, cs: seq<Condition>, below: seq<Operand>, k: nat)
    requires k < |above| + |cs| + |below|
    ensures var t := Layout(above, cs, below);
      |t| == |above| + |cs| + |below|
      && t[k] == if k < |above| then above[k]
                 else if k < |above| + |cs| then Cond(cs[k - |above|])
                 else below[k - |above| - |cs|]
  {
  }

  /** The conditions of positions `start` to `start + count` of a stack. */
  function CondsIn(s: seq<Operand>, start: nat, count: nat): (run: seq<Condition>)
    requires start + count <= |s| && forall k :: start <= k < start + count ==> s[k].Cond?
    ensures |run| == count && Conds(run) == s[start..start + count]
  {
    seq(count, k requires 0 <= k < count => s[start + k].c)
  }

  /** The operands a layout gives its conditions are condition operands. */
  lemma LayoutHoldsConditions(above: seq<Operand>, cs: seq<Condition>, below: seq<Operand>)
    ensures var t := Layout(above, cs, below);
      |t| == |above| + |cs| + |below| && forall k :: |above| <= k < |above| + |cs| ==> t[k].Cond?
  {
    var t := Layout(above, cs, below);
    forall k | |above| <= k < |above| + |cs| ensures t[k].Cond? {
      LayoutAt(above, cs, below, k - |above|);
    }
  }

  /** The merge loop from the state where `right` sits at position `p` and
      the `n` operands below it are the conditions still to visit. */
  function MergeLoop(t: seq<Operand>, p: nat, right: Condition, n: nat): (seq<Operand>, Condition)
    requires p + n < |t| && forall k :: p < k <= p + n ==> t[k].Cond?
    decreases n
  {
    if n == 0 then (t, right)
    else
      var left := t[p + 1].c;
      if CanMerge(left, right) then
        var merged := Join(left, right);
        MergeLoop(RemoveAt(t, p)[p := Cond(merged)], p, merged, n - 1)
      else MergeLoop(t, p + 1, left, n - 1)
  }

  /** The loop over a stack laid out as `done`, `right` and `rest` between
      `above` and `below` ends with `done` followed by the fold of `right`
      over `rest`, and with the fold's deepest condition in hand. */
  ghost predicate LoopFolds(above: seq<Operand>, done: seq<Condition>, right: Condition,
                            rest: seq<Condition>, below: seq<Operand>)
  {
    var t := Layout(above, done + [right] + rest, below);
    var p := |above| + |done|;
    && p + |rest| < |t| && (forall k :: p < k <= p + |rest| ==> t[k].Cond?)
    && MergeLoop(t, p, right, |rest|).0 == Layout(above, done + Fold(right, rest), below)
    && MergeLoop(t, p, right, |rest|).1 == Fold(right, rest)[|Fold(right, rest)| - 1]
  }

  /** The merge loop folds every layout. */
  lemma {:induction false} MergeLoopFolds(above: seq<Operand>, done: seq<Condition>, right: Condition,
                                          rest: seq<Condition>, below: seq<Operand>)
    ensures LoopFolds(above, done, right, rest, below)
    decreases |rest|
  {
    if rest == [] {
      LoopFoldsAtEnd(above, done, right, below);
    } else if CanMerge(rest[0], right) {
      MergeLoopFolds(above, done, Join(rest[0], right), rest[1..], below);
      LoopFoldsMerging(above, done, right, rest, below);
    } else {
      MergeLoopFolds(above, done + [right], rest[0], rest[1..], below);
      LoopFoldsKeeping(above, done, right, rest, below);
    }
  }

  /** With nothing left to visit, the loop leaves the layout as it is. */
  lemma LoopFoldsAtEnd(above: seq<Operand>, done: seq<Condition>, right: Condition, below: seq<Operand>)
    ensures LoopFolds(above, done, right, [], below)
  {
    LayoutHoldsConditions(above, done + [right] + [], below);
    assert done + [right] + [] == done + Fold(right, []);
  }

  /** A merge of `right` with the next condition leaves the loop where the
      merged condition is `right`. */
  lemma LoopFoldsMerging(above: seq<Operand>, done: seq<Condition>, right: Condition,
                         rest: seq<Condition>, below: seq<Operand>)
    requires rest != [] && CanMerge(rest[0], right)
    requires LoopFolds(above, done, Join(rest[0], right), rest[1..], below)
    ensures LoopFolds(above, done, right, rest, below)
  {
    var t := Layout(above, done + [right] + rest, below);
    var p := |above| + |done|;
    var merged := Join(rest[0], right);
    LayoutHoldsConditions(above, done + [right] + rest, below);
    MergeStep(above, done, right, rest, below, merged);
    assert MergeLoop(t, p, right, |rest|) == MergeLoop(RemoveAt(t, p)[p := Cond(merged)], p, merged, |rest| - 1);
  }

  /** A condition that cannot merge with `right` becomes the new `right`
      one position further down. */
  lemma LoopFoldsKeeping(above: seq<Operand>, done: seq<Condition>, right: Condition,
                         rest: seq<Condition>, below: seq<Operand>)
    requires rest != [] && !CanMerge(rest[0], right)
    requires LoopFolds(above, done + [right], rest[0], rest[1..], below)
    ensures LoopFolds(above, done, right, rest, below)
  {
    var cs := done + [right] + rest;
    var t := Layout(above, cs, below);
    var p := |above| + |done|;
    var left, tail := rest[0], rest[1..];
    LayoutHoldsConditions(above, cs, below);
    assert cs == (done + [right]) + [left] + tail;
    LayoutAt(above, cs, below, |done| + 1);
    assert MergeLoop(t, p, right, |rest|) == MergeLoop(t, p + 1, left, |tail|);
    assert Fold(right, rest) == [right] + Fold(left, tail);
    assert (done + [right]) + Fold(left, tail) == done + Fold(right, rest);
  }

  /** The loop started on a run of `count` conditions at `start` folds that
      run in place. */
  lemma MergeLoopOnRun(s: seq<Operand>, start: nat, count: nat)
    requires 0 < count && start + count <= |s| && forall k :: start <= k < start + count ==> s[k].Cond?
    ensures var run := CondsIn(s, start, count);
      && MergeLoop(s, start, s[start].c, count - 1).0 == Layout(s[..start], Fold(run[0], run[1..]), s[start + count..])
      && MergeLoop(s, start, s[start].c, count - 1).1 == Fold(run[0], run[1..])[|Fold(run[0], run[1..])| - 1]
  {
    var run := CondsIn(s, start, count);
    RunLayout(s, start, count);
    MergeLoopFolds(s[..start], [], run[0], run[1..], s[start + count..]);
  }

  /** A stack is the layout of its run of conditions. */
  lemma RunLayout(s: seq<Operand>, start: nat, count: nat)
    requires 0 < count && start + count <= |s| && forall k :: start <= k < start + count ==> s[k].Cond?
    ensures var run := CondsIn(s, start, count);
      && s == Layout(s[..start], [] + [run[0]] + run[1..], s[start + count..])
      && s[start].c == run[0] && |run[1..]| == count - 1 && |s[..start]| == start
  {
    var run := CondsIn(s, start, count);
    assert [] + [run[0]] + run[1..] == run;
    assert s == s[..start] + s[start..start + count] + s[start + count..];
  }

  /** The merge loop of `merge` over the run of `count` conditions at
      `start`: walks the run from its top condition down, replacing each
      pair it can merge by their compound condition. `right` is the
      condition the loop ends with: the deepest one of the merged run. */
  method MergeRun(s: seq<Operand>, start: nat, count: nat) returns (t: seq<Operand>, right: Condition)
    requires 0 < count && start + count <= |s| && forall k :: start <= k < start + count ==> s[k].Cond?
    ensures var run := CondsIn(s, start, count);
      t == Layout(s[..start], Fold(run[0], run[1..]), s[start + count..])
    ensures var run := CondsIn(s, start, count);
      right == Fold(run[0], run[1..])[|Fold(run[0], run[1..])| - 1]
  {
    var position: int := start;
    t := s;
    right := t[position].c;
    var index := 1;
    while index < count
      invariant 1 <= index <= count && 0 <= position + index - 1
      invariant position + index - 1 + (count - index) < |t|
      invariant forall k :: position + index - 1 < k <= position + count - 1 ==> t[k].Cond?
      invariant t[position + index - 1] == Cond(right)
      invariant MergeLoop(t, position + index - 1, right, count - index) == MergeLoop(s, start, s[start].c, count - 1)
    {
      var left := t[position + index].c;
      if CanMerge(left, right) {
        position := position - 1;
        var removed := t[position + index].c;
        t := RemoveAt(t, position + index);
        right := Join(left, removed);
        t := t[position + index := Cond(right)];
      } else {
        right := left;
      }
      index := index + 1;
    }
    MergeLoopOnRun(s, start, count);
  }

  /** The `elze` fix keeps the run of conditions where the search found
      it. */
  lemma FixKeepsRun(s: seq<Operand>, destination: Ref)
    ensures var info, fixed := Info(s), FixFirstElze(s, destination);
      && info.start + info.count <= |fixed|
      && forall k :: info.start <= k < info.start + info.count ==> fixed[k].Cond?
  {
    var info, fixed := Info(s), FixFirstElze(s, destination);
    forall k | info.start <= k < info.start + info.count ensures fixed[k].Cond? {
      assert s[k].Cond?;
    }
  }

  /** The in-node part of `merge(node)` on the node's stack `s`: the
      search of the `SequentialConditionInfo` constructor, with its `elze`
      fix, then the right-to-left merge of the run of conditions it found.
      A stack without conditions is left as it is; otherwise the result is
      the fixed stack with its run folded, and `right` is the deepest
      condition of the merged run. */
  method MergeStack(s: seq<Operand>, destination: Ref) returns (info: ConditionInfo, t: seq<Operand>, right: Option<Condition>)
    ensures info == Info(s) && (right.Some? <==> info.count > 0)
    ensures info.count == 0 ==> t == s
    ensures var fixed := FixFirstElze(s, destination);
      info.count > 0 ==>
        var run := CondsIn(fixed, info.start, info.count);
        var merged := Fold(run[0], run[1..]);
        && t == Layout(fixed[..info.start], merged, fixed[info.start + info.count..])
        && right.value == merged[|merged| - 1]
  {
    var fixed;
    info, fixed := ScanConditions(s, destination);
    if info.count == 0 {
      return info, s, None;
    }
    FixKeepsRun(s, destination);
    var last;
    t, last := MergeRun(fixed, info.start, info.count);
    right := Some(last);
  }
}
