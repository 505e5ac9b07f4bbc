/** Nested pruning predicates (`evaluate_pruning_predicate`): each carries evidence, so none of their ANDs and
    ORs depends on the operand order. */
module PruningQueries {
  import opened Wrappers
  import opened Pruning
  import opened ReorderInvariance
  import opened PruningOrders

  /** A predicate of the fixture language. What a leaf finds out is a parameter: one recorded step, or an
      error for a predicate that cannot be read. */
  datatype Query =
    | Leaf(finding: Result<Step>)
    | Not(operand: Query)
    | Group(op: Connective, operands: seq<Query>)

  function Negated(o: Outcome): Outcome {
    match o
    case AllMatch => NoMatch
    case NoMatch => AllMatch
    case _ => o
  }

  /** `single_step`: one step, whose outcome is the final one. */
  function SingleStep(step: Step): Explanation {
    Explanation([step], step.outcome)
  }

  function Given(r: Result<Explanation>): Result<Explanation> {
    r
  }

  /** `evaluate_pruning_predicate`; a group folds its operands in their declared order. A checked group
      evaluates as a plain one whenever the check passes, which `QueriesAreOrderFree` decides. */
  function Explain(q: Query): Result<Explanation>
    decreases q, 0
  {
    match q
    case Leaf(finding) => if finding.Err? then Err(finding.error) else Ok(SingleStep(finding.value))
    case Not(operand) =>
      var e :- Explain(operand);
      Ok(e.(finalOutcome := Negated(e.finalOutcome)))
    case Group(op, operands) => Fold(ExplainAll(operands), Given, Combiner(op))
  }

  function ExplainAll(qs: seq<Query>): (r: seq<Result<Explanation>>)
    ensures |r| == |qs|
    decreases qs, 0
  {
    if qs == [] then [] else [Explain(qs[0])] + ExplainAll(qs[1..])
  }

  lemma {:induction false} ExplainAllAt(qs: seq<Query>, i: nat)
    requires i < |qs|
    ensures ExplainAll(qs)[i] == Explain(qs[i])
  {
    if i > 0 {
      ExplainAllAt(qs[1..], i - 1);
    }
  }

  lemma {:induction false} FoldFromKeepsSteps(op: Connective, acc: Explanation, rest: seq<Result<Explanation>>)
    requires acc.steps != [] && FoldFrom(acc, rest, Given, Combiner(op)).Ok?
    ensures FoldFrom(acc, rest, Given, Combiner(op)).value.steps != []
    decreases |rest|
  {
    if rest != [] {
      FoldFromKeepsSteps(op, Combine(op, acc, rest[0].value), rest[1..]);
    }
  }

  /** Every explained predicate carries a step, at any nesting. */
  lemma EveryQueryHasEvidence(q: Query)
    requires Explain(q).Ok?
    ensures Explain(q).value.steps != []
    decreases q
  {
    match q {
      case Leaf(_) =>
      case Not(operand) => EveryQueryHasEvidence(operand);
      case Group(op, operands) =>
        ExplainAllAt(operands, 0);
        EveryQueryHasEvidence(operands[0]);
        FoldFromKeepsSteps(op, Explain(operands[0]).value, ExplainAll(operands)[1..]);
    }
  }

  /** The explanations of operands that all have one. */
  function Explained(qs: seq<Query>): (es: seq<Explanation>)
    requires forall q :: q in qs ==> Explain(q).Ok?
    ensures |es| == |qs| && forall i :: 0 <= i < |qs| ==> Explain(qs[i]) == Ok(es[i])
  {
    seq(|qs|, i requires 0 <= i < |qs| => assert qs[i] in qs; Explain(qs[i]).value)
  }

  lemma {:induction false} FoldFromExplained(op: Connective, acc: Explanation, qs: seq<Query>)
    requires forall q :: q in qs ==> Explain(q).Ok?
    ensures FoldFrom(acc, qs, Explain, Combiner(op)) == FoldFrom(acc, Explained(qs), Pass, Combiner(op))
    decreases |qs|
  {
    if qs != [] {
      assert Explained(qs)[1..] == Explained(qs[1..]);
      FoldFromExplained(op, Combine(op, acc, Explained(qs)[0]), qs[1..]);
    }
  }

  lemma FoldExplained(op: Connective, qs: seq<Query>)
    requires qs != [] && forall q :: q in qs ==> Explain(q).Ok?
    ensures Fold(qs, Explain, Combiner(op)) == Fold(Explained(qs), Pass, Combiner(op))
  {
    hide Explain;
    assert qs[0] in qs;
    assert Explained(qs)[1..] == Explained(qs[1..]);
    FoldFromExplained(op, Explained(qs)[0], qs[1..]);
  }

  /** What the checker sees: an AND or an OR passes it exactly when each of its operands can be explained.
      The operands may be nested to any depth. */
  lemma QueriesAreOrderFree(op: Connective, qs: seq<Query>)
    requires qs != []
    ensures OrderFree(qs, Explain, Combiner(op), OutcomeOf) <==> forall q :: q in qs ==> Explain(q).Ok?
  {
    if forall q :: q in qs ==> Explain(q).Ok? {
      forall p | Ordering(p, |qs|) ensures SameOutcome(qs, p, Explain, Combiner(op), OutcomeOf) {
        SameOutcomeInOrder(op, qs, p);
      }
    } else {
      var id := Identity(|qs|);
      FoldOutcome(qs, Explain, Combiner(op));
      assert Ordering(id, |qs|);
      assert !SameOutcome(qs, id, Explain, Combiner(op), OutcomeOf);
    }
  }

  lemma SameOutcomeInOrder(op: Connective, qs: seq<Query>, p: seq<int>)
    requires qs != [] && Ordering(p, |qs|) && forall q :: q in qs ==> Explain(q).Ok?
    ensures SameOutcome(qs, p, Explain, Combiner(op), OutcomeOf)
  {
    PermutedMembers(qs, p);
    var es, other := Explained(qs), Permuted(qs, p);
    assert qs[0] in qs;
    EveryQueryHasEvidence(qs[0]);
    assert es[0].steps != [];
    OneOrder(op, es, p);
    hide Explain, Ordering;
    assert Explained(other) == Permuted(es, p);
    FoldExplained(op, qs);
    FoldExplained(op, other);
  }

  /** Without steps the order does count: hand-made explanations that only carry an outcome. */
  lemma StepsAreNeeded(op: Connective) returns (operands: seq<Explanation>)
    ensures operands == [Explanation([], AllMatch), Explanation([], NoMatch)]
    ensures !OrderFree(operands, Pass, Combiner(op), OutcomeOf)
  {
    operands := [Explanation([], AllMatch), Explanation([], NoMatch)];
    assert operands[0].finalOutcome != operands[1].finalOutcome;
    OrderFreeExactly(op, operands);
  }
}
