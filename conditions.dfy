/** The condition merger's pure core: the search for the run of condition
    operands on a node's stack, the mergeability test, the right-to-left
    fold of a run into compound conditions, and what a run of conditions
    means as control flow. */
module Conditions {
  import opened Operands

  // ---------------------------------------------------------------------
  // Where a run of conditions jumps
  // ---------------------------------------------------------------------

  /** The value of a test when the comparisons in `holds` are true and all
      others false. */
  predicate Eval(t: Test, holds: set<Test>) {
    match t
    case Compare(_) => t in holds
    case Not(inner) => !Eval(inner, holds)
    case And(l, r) => Eval(l, holds) && Eval(r, holds)
    case Or(l, r) => Eval(l, holds) || Eval(r, holds)
  }

  /** The node a condition leads to. */
  function Target(c: Condition, holds: set<Test>): Ref {
    if Eval(c.test, holds) then c.thenNode else c.elzeNode
  }

  /** Where the conditions `run` (top first) lead when control reaching the
      top of the run goes to `fallback`. The deepest condition was compiled
      first and is tested first: when it holds control jumps to its `then`
      node, otherwise it falls through to the next one. */
  function Run(run: seq<Condition>, fallback: Ref, holds: set<Test>): Ref
    decreases |run|
  {
    if run == [] then fallback
    else
      var deepest := run[|run| - 1];
      if Eval(deepest.test, holds) then deepest.thenNode else Run(run[..|run| - 1], fallback, holds)
  }

  /** Where a whole run (top first) leads: the top condition decides between
      its two targets when every condition below it fails. */
  function Leads(run: seq<Condition>, holds: set<Test>): Ref
    requires |run| > 0
  {
    Run(run[1..], Target(run[0], holds), holds)
  }

  /** The top condition of a run is tested last. */
  lemma {:induction false} RunTestsTopLast(c: Condition, below: seq<Condition>, fallback: Ref, holds: set<Test>)
    ensures Run([c] + below, fallback, holds) ==
      Run(below, if Eval(c.test, holds) then c.thenNode else fallback, holds)
    decreases |below|
  {
    if below != [] {
      var n := |below| - 1;
      assert ([c] + below)[..|below|] == [c] + below[..n];
      RunTestsTopLast(c, below[..n], fallback, holds);
    }
  }

  /** A run split in two: the lower part `y` is tested first, and the
      upper part `x` decides where control goes when none of `y` holds. */
  lemma {:induction false} RunConcat(x: seq<Condition>, y: seq<Condition>, fallback: Ref, holds: set<Test>)
    ensures Run(x + y, fallback, holds) == Run(y, Run(x, fallback, holds), holds)
    decreases |y|
  {
    if y == [] {
      assert x + y == x;
    } else {
      var n := |y| - 1;
      assert (x + y)[..|x + y| - 1] == x + y[..n];
      assert (x + y)[|x + y| - 1] == y[n];
      RunConcat(x, y[..n], fallback, holds);
    }
  }

  /** The run a node starts with, put on top of the run `[c] + below` its
      previous node ends with, leads where the previous node's run led,
      except that where `c` fell through to its `elze` node the node's own
      run now decides. Only the test and the `then` node of `c` matter once
      it is below the top, so a copy `c'` of `c` with another `elze` node
      leads the same way. */
  lemma {:induction false} StackedRunsInline(run: seq<Condition>, c: Condition, c': Condition, below: seq<Condition>, holds: set<Test>)
    requires |run| > 0 && c'.test == c.test && c'.thenNode == c.thenNode
    ensures Leads([c] + below, holds) == Run(below, if Eval(c.test, holds) then c.thenNode else c.elzeNode, holds)
    ensures Leads(run + [c'] + below, holds) ==
      Run(below, if Eval(c.test, holds) then c.thenNode else Leads(run, holds), holds)
  {
    assert ([c] + below)[1..] == below;
    assert (run + [c'] + below)[1..] == run[1..] + ([c'] + below);
    assert (run + [c'] + below)[0] == run[0];
    RunConcat(run[1..], [c'] + below, Target(run[0], holds), holds);
    RunTestsTopLast(c', below, Leads(run, holds), holds);
  }

  // ---------------------------------------------------------------------
  // Merging two conditions
  // ---------------------------------------------------------------------

  /** `canMerge`: the left (earlier) condition jumps where the right one
      jumps when it holds, or where it goes when it fails. */
  predicate CanMerge(left: Condition, right: Condition) {
    left.thenNode == right.thenNode || left.thenNode == right.elzeNode
  }

  /** The compound condition of two mergeable conditions: it keeps the
      targets of the right one; its test is `left || right` when the two
      share their `then` node and `!left && right` otherwise. */
  function Join(left: Condition, right: Condition): (r: Condition)
    ensures r.thenNode == right.thenNode && r.elzeNode == right.elzeNode
  {
    if left.thenNode == right.thenNode then Condition(Or(left.test, right.test), right.thenNode, right.elzeNode)
    else Condition(And(Not(left.test), right.test), right.thenNode, right.elzeNode)
  }

  /** The compound condition leads where the pair led: to the left one's
      `then` node when the left test holds, and where the right one leads
      otherwise. */
  lemma JoinSemantics(left: Condition, right: Condition, holds: set<Test>)
    requires CanMerge(left, right)
    ensures Target(Join(left, right), holds) ==
      if Eval(left.test, holds) then left.thenNode else Target(right, holds)
  {
    if left.thenNode == right.thenNode {
      assert Eval(Join(left, right).test, holds) == (Eval(left.test, holds) || Eval(right.test, holds));
    } else {
      assert Eval(Join(left, right).test, holds) == (!Eval(left.test, holds) && Eval(right.test, holds));
    }
  }

  // ---------------------------------------------------------------------
  // The fold over a run
  // ---------------------------------------------------------------------

  /** The merge loop over a run: `right` is the condition merged so far and
      `rest` the conditions below it, nearest first. Each condition that can
      merge with `right` is joined into it; otherwise `right` is final and
      the condition becomes the new `right`. The result is top first. */
  function Fold(right: Condition, rest: seq<Condition>): (r: seq<Condition>)
    ensures 1 <= |r| <= |rest| + 1
    decreases |rest|
  {
    if rest == [] then [right]
    else if CanMerge(rest[0], right) then Fold(Join(rest[0], right), rest[1..])
    else [right] + Fold(rest[0], rest[1..])
  }

  /** The conditions still to merge below `right`: none has an `elze` node
      of its own (it falls through), and each has a `then` node. */
  predicate FallsThrough(rest: seq<Condition>) {
    forall k :: 0 <= k < |rest| ==> rest[k].elzeNode == Null && rest[k].thenNode != Null
  }

  /** Below a condition that falls through itself, merging keeps where the
      run leads for every fallback. */
  lemma {:induction false} FoldKeepsRun(c: Condition, rest: seq<Condition>, fallback: Ref, holds: set<Test>)
    requires c.elzeNode == Null && FallsThrough(rest)
    ensures Run(Fold(c, rest), fallback, holds) == Run([c] + rest, fallback, holds)
    decreases |rest|
  {
    if rest != [] {
      var r0, below := rest[0], rest[1..];
      assert rest == [r0] + below;
      assert [c] + rest == [c, r0] + below;
      RunTestsTopLast(c, [r0] + below, fallback, holds);
      var f1 := if Eval(c.test, holds) then c.thenNode else fallback;
      RunTestsTopLast(r0, below, f1, holds);
      if CanMerge(r0, c) {
        var j := Join(r0, c);
        FoldKeepsRun(j, below, fallback, holds);
        RunTestsTopLast(j, below, fallback, holds);
      } else {
        FoldKeepsRun(r0, below, f1, holds);
        RunTestsTopLast(c, Fold(r0, below), fallback, holds);
        RunTestsTopLast(r0, below, f1, holds);
      }
    }
  }

  /** Merging a run keeps where it leads, whatever the comparisons yield,
      provided the conditions below the top one fall through. */
  lemma {:induction false} FoldKeepsLeads(right: Condition, rest: seq<Condition>, holds: set<Test>)
    requires FallsThrough(rest)
    ensures Leads(Fold(right, rest), holds) == Run(rest, Target(right, holds), holds)
    decreases |rest|
  {
    if rest != [] {
      var r0, below := rest[0], rest[1..];
      assert rest == [r0] + below;
      if CanMerge(r0, right) {
        var j := Join(r0, right);
        FoldKeepsLeads(j, below, holds);
        JoinSemantics(r0, right, holds);
        RunTestsTopLast(r0, below, Target(right, holds), holds);
      } else {
        var f := Fold(r0, below);
        assert Fold(right, rest) == [right] + f;
        assert ([right] + f)[1..] == f;
        FoldKeepsRun(r0, below, Target(right, holds), holds);
      }
    }
  }

  /** The merge loop reaches a fixed point: the conditions it produces
      cannot merge any further. */
  lemma {:induction false} FoldIsStable(right: Condition, rest: seq<Condition>)
    ensures var r := Fold(right, rest);
      forall k :: 0 <= k < |r| - 1 ==> !CanMerge(r[k + 1], r[k])
    decreases |rest|
  {
    if rest != [] {
      if CanMerge(rest[0], right) {
        assert Fold(right, rest) == Fold(Join(rest[0], right), rest[1..]);
        FoldIsStable(Join(rest[0], right), rest[1..]);
      } else {
        var f := Fold(rest[0], rest[1..]);
        FoldIsStable(rest[0], rest[1..]);
        FoldHead(rest[0], rest[1..]);
        var r := [right] + f;
        forall k | 0 <= k < |r| - 1 ensures !CanMerge(r[k + 1], r[k]) {
          if k > 0 { assert r[k] == f[k - 1] && r[k + 1] == f[k]; }
        }
      }
    }
  }

  /** The top condition of a fold keeps the `then` and `elze` nodes of the
      condition the fold started from. */
  lemma {:induction false} FoldHead(right: Condition, rest: seq<Condition>)
    ensures Fold(right, rest)[0].thenNode == right.thenNode
    ensures Fold(right, rest)[0].elzeNode == right.elzeNode
    decreases |rest|
  {
    if rest != [] && CanMerge(rest[0], right) {
      FoldHead(Join(rest[0], right), rest[1..]);
    }
  }

  // ---------------------------------------------------------------------
  // The run of conditions on a stack
  // ---------------------------------------------------------------------

  /** Condition operands, as stack elements. */
  function Conds(cs: seq<Condition>): (r: seq<Operand>)
    ensures |r| == |cs| && forall k :: 0 <= k < |cs| ==> r[k] == Cond(cs[k])
  {
    seq(|cs|, k requires 0 <= k < |cs| => Cond(cs[k]))
  }

  /** The position of the topmost condition operand, or -1. */
  function FirstCondition(s: seq<Operand>): (r: int)
    ensures -1 <= r < |s|
    ensures r == -1 <==> forall k :: 0 <= k < |s| ==> !s[k].Cond?
    ensures r >= 0 ==> s[r].Cond? && forall k :: 0 <= k < r ==> !s[k].Cond?
  {
    if s == [] then -1
    else if s[0].Cond? then 0
    else
      var k := FirstCondition(s[1..]);
      if k < 0 then -1 else k + 1
  }

  /** The number of consecutive condition operands from position `i` down. */
  function RunLength(s: seq<Operand>, i: nat): (n: nat)
    requires i <= |s|
    ensures i + n <= |s|
    ensures forall k :: i <= k < i + n ==> s[k].Cond?
    ensures i + n == |s| || !s[i + n].Cond?
    decreases |s| - i
  {
    if i == |s| || !s[i].Cond? then 0 else 1 + RunLength(s, i + 1)
  }

  /** What the search finds: the position of the first condition (0 when
      there is none), how many follow in a row, whether they reach the
      bottom of the stack (the node starts with conditions) and whether
      they start at the top (the node ends with conditions). */
  datatype ConditionInfo = ConditionInfo(start: nat, count: nat, conditionalHead: bool, conditionalTail: bool)

  /** The search of the `SequentialConditionInfo` constructor. */
  function Info(s: seq<Operand>): (r: ConditionInfo)
    ensures r.start + r.count <= |s|
    ensures forall k :: r.start <= k < r.start + r.count ==> s[k].Cond?
    ensures r.count > 0 ==> (forall k :: 0 <= k < r.start ==> !s[k].Cond?) && (r.start + r.count == |s| || !s[r.start + r.count].Cond?)
    ensures r.count == 0 <==> forall k :: 0 <= k < |s| ==> !s[k].Cond?
    ensures r.conditionalHead <==> |s| == r.start + r.count
    ensures r.conditionalTail <==> r.start == 0 && r.count > 0
  {
    var first := FirstCondition(s);
    var start := if first < 0 then 0 else first;
    var count := if first < 0 then 0 else RunLength(s, first);
    ConditionInfo(start, count, |s| == start + count, start == 0 && count > 0)
  }

  /** The side effect of the search: when no `return` precedes the first
      condition, and that condition has no `elze` node and does not jump to
      the node's destination, its `elze` node becomes that destination. */
  function FixFirstElze(s: seq<Operand>, destination: Ref): (r: seq<Operand>)
    ensures SameShape(s, r)
    ensures forall k :: 0 <= k < |s| && k != Info(s).start ==> r[k] == s[k]
  {
    var info := Info(s);
    if info.count > 0 && ReturnKeyword !in s[..info.start]
       && s[info.start].c.elzeNode == Null && s[info.start].c.thenNode != destination
    then s[info.start := Cond(Condition(s[info.start].c.test, s[info.start].c.thenNode, destination))]
    else s
  }
}
