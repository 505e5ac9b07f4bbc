/** Which AND and OR predicates pass the reorder-invariance checker: an exact condition. */
module PruningOrders {
  import opened Wrappers
  import opened Sequences
  import opened NextPermutation
  import opened Pruning
  import opened ReorderInvariance

  /** Outcomes form a chain, and combining two of them takes the higher one. */
  function Height(op: Connective, o: Outcome): nat {
    match o
    case AllMatch => if op == Conjunction then 0 else 3
    case Unknown => 1
    case SomeMatch => 2
    case NoMatch => if op == Conjunction then 3 else 0
  }

  lemma JoinIsHigher(op: Connective, a: Outcome, b: Outcome)
    ensures Join(op, a, b) == if Height(op, a) >= Height(op, b) then a else b
    ensures Height(op, a) == Height(op, b) ==> a == b
  {
  }

  predicate HasEvidence(operands: seq<Explanation>) {
    exists i :: 0 <= i < |operands| && operands[i].steps != []
  }

  /** `top` is the highest outcome among the operands that carry evidence. */
  predicate IsTop(op: Connective, operands: seq<Explanation>, top: Outcome) {
    && (exists e :: e in operands && e.steps != [] && e.finalOutcome == top)
    && forall e :: e in operands && e.steps != [] ==> Height(op, e.finalOutcome) <= Height(op, top)
  }

  function Pass(e: Explanation): Result<Explanation> {
    Ok(e)
  }

  function OutcomeOf(e: Explanation): Outcome {
    e.finalOutcome
  }

  function Combiner(op: Connective): (Explanation, Explanation) -> Explanation {
    (a: Explanation, b: Explanation) => Combine(op, a, b)
  }

  lemma CombineTop(op: Connective, a: Explanation, b: Explanation, rest: seq<Explanation>, top: Outcome)
    requires IsTop(op, [Combine(op, a, b)] + rest, top)
    ensures IsTop(op, [a, b] + rest, top)
  {
    var c := Combine(op, a, b);
    var before, after := [c] + rest, [a, b] + rest;
    JoinIsHigher(op, a.finalOutcome, b.finalOutcome);
    assert a == after[0] && b == after[1] && c == before[0];
    assert forall e :: e in after <==> e == a || e == b || e in rest;
    assert forall e :: e in before <==> e == c || e in rest;
    var w :| w in before && w.steps != [] && w.finalOutcome == top;
    if w == c {
      assert (a.steps != [] && a.finalOutcome == top) || (b.steps != [] && b.finalOutcome == top);
    }
  }

  /** The fold keeps the highest outcome with evidence; without any evidence it keeps the last operand. */
  lemma {:induction false} FoldKeepsTop(op: Connective, acc: Explanation, rest: seq<Explanation>)
    ensures FoldFrom(acc, rest, Pass, Combiner(op)).Ok?
    ensures var r := FoldFrom(acc, rest, Pass, Combiner(op)).value;
      if HasEvidence([acc] + rest) then r.steps != [] && IsTop(op, [acc] + rest, r.finalOutcome)
      else r == ([acc] + rest)[|rest|]
    decreases |rest|
  {
    if rest == [] {
      assert [acc] + rest == [acc];
      assert acc in [acc];
    } else {
      var next := Combine(op, acc, rest[0]);
      FoldKeepsTop(op, next, rest[1..]);
      assert [acc] + rest == [acc, rest[0]] + rest[1..];
      EvidenceSurvives(op, acc, rest[0], rest[1..]);
      if HasEvidence([acc] + rest) {
        var r := FoldFrom(next, rest[1..], Pass, Combiner(op)).value;
        CombineTop(op, acc, rest[0], rest[1..], r.finalOutcome);
      }
    }
  }

  lemma EvidenceSurvives(op: Connective, a: Explanation, b: Explanation, rest: seq<Explanation>)
    ensures HasEvidence([a, b] + rest) <==> HasEvidence([Combine(op, a, b)] + rest)
  {
    var before, after := [a, b] + rest, [Combine(op, a, b)] + rest;
    if HasEvidence(before) {
      var i :| 0 <= i < |before| && before[i].steps != [];
      if i >= 2 {
        assert after[i - 1] == before[i];
      } else {
        assert after[0].steps != [];
      }
    }
    if HasEvidence(after) {
      var i :| 0 <= i < |after| && after[i].steps != [];
      if i >= 1 {
        assert before[i + 1] == after[i];
      } else {
        assert before[0].steps != [] || before[1].steps != [];
      }
    }
  }

  lemma FoldOf(op: Connective, operands: seq<Explanation>)
    requires operands != []
    ensures var r := Fold(operands, Pass, Combiner(op));
      && r.Ok?
      && (HasEvidence(operands) ==> IsTop(op, operands, r.value.finalOutcome))
      && (!HasEvidence(operands) ==> r.value == operands[|operands| - 1])
  {
    FoldKeepsTop(op, operands[0], operands[1..]);
    assert operands == [operands[0]] + operands[1..];
  }

  lemma TopUnique(op: Connective, s: seq<Explanation>, t: seq<Explanation>, a: Outcome, b: Outcome)
    requires IsTop(op, s, a) && IsTop(op, t, b)
    requires forall e :: e in s <==> e in t
    ensures a == b
  {
    JoinIsHigher(op, a, b);
    var x :| x in s && x.steps != [] && x.finalOutcome == a;
    var y :| y in t && y.steps != [] && y.finalOutcome == b;
    assert x in t && y in s;
  }

  lemma SameMembersSameEvidence(s: seq<Explanation>, t: seq<Explanation>)
    requires forall e :: e in s <==> e in t
    ensures HasEvidence(s) ==> HasEvidence(t)
  {
    if HasEvidence(s) {
      var i :| 0 <= i < |s| && s[i].steps != [];
      assert s[i] in t;
    }
  }

  predicate AllOneOutcome(operands: seq<Explanation>) {
    forall i, j :: 0 <= i < |operands| && 0 <= j < |operands| ==> operands[i].finalOutcome == operands[j].finalOutcome
  }

  /** An AND or an OR is free of the operand order exactly when some operand carries evidence, or all
      outcomes are the same. */
  lemma OrderFreeExactly(op: Connective, operands: seq<Explanation>)
    requires operands != []
    ensures OrderFree(operands, Pass, Combiner(op), OutcomeOf) <==> HasEvidence(operands) || AllOneOutcome(operands)
  {
    if HasEvidence(operands) || AllOneOutcome(operands) {
      forall p | Ordering(p, |operands|) ensures SameOutcome(operands, p, Pass, Combiner(op), OutcomeOf) {
        OneOrder(op, operands, p);
      }
    } else {
      OtherLast(op, operands);
    }
  }

  lemma OneOrder(op: Connective, operands: seq<Explanation>, p: seq<int>)
    requires operands != [] && Ordering(p, |operands|)
    requires HasEvidence(operands) || AllOneOutcome(operands)
    ensures SameOutcome(operands, p, Pass, Combiner(op), OutcomeOf)
  {
    PermutedMembers(operands, p);
    var other := Permuted(operands, p);
    FoldOf(op, operands);
    FoldOf(op, other);
    SameMembersSameEvidence(operands, other);
    SameMembersSameEvidence(other, operands);
    if HasEvidence(operands) {
      TopUnique(op, operands, other, Fold(operands, Pass, Combiner(op)).value.finalOutcome,
                Fold(other, Pass, Combiner(op)).value.finalOutcome);
    } else {
      assert other[|other| - 1] in operands;
    }
  }

  lemma DiffersFromLast(operands: seq<Explanation>) returns (k: nat)
    requires operands != [] && !AllOneOutcome(operands)
    ensures k < |operands| - 1 && operands[k].finalOutcome != operands[|operands| - 1].finalOutcome
  {
    var n := |operands|;
    var i, j :| 0 <= i < n && 0 <= j < n && operands[i].finalOutcome != operands[j].finalOutcome;
    k := if operands[i].finalOutcome != operands[n - 1].finalOutcome then i else j;
  }

  /** The ordering that swaps operand `k` with the last one. */
  lemma MoveLast(operands: seq<Explanation>, k: nat) returns (p: seq<int>)
    requires k < |operands| - 1
    ensures Ordering(p, |operands|) && |p| == |operands|
    ensures (forall i :: 0 <= i < |p| ==> 0 <= p[i] < |operands|) && p[|p| - 1] == k
  {
    hide LexLt, SameElements;
    var n := |operands|;
    var id := Identity(n);
    p := id[k := id[n - 1]][n - 1 := id[k]];
    SwapClimbs(id, k, n - 1);
  }

  /** Without evidence, an operand with another outcome moved to the end changes the result. */
  lemma OtherLast(op: Connective, operands: seq<Explanation>)
    requires operands != [] && !HasEvidence(operands) && !AllOneOutcome(operands)
    ensures !OrderFree(operands, Pass, Combiner(op), OutcomeOf)
  {
    var k := DiffersFromLast(operands);
    var p := MoveLast(operands, k);
    var other := Permuted(operands, p);
    PermutedMembers(operands, p);
    SameMembersSameEvidence(other, operands);
    FoldOf(op, operands);
    FoldOf(op, other);
    hide Fold, Ordering, HasEvidence, AllOneOutcome, IsTop;
    assert !SameOutcome(operands, p, Pass, Combiner(op), OutcomeOf);
  }
}
