/** Zone outcomes and explanations (`predicate.rs`, `pruning.rs`): what AND and OR do with them. */
module Pruning {

  datatype Outcome = AllMatch | NoMatch | SomeMatch | Unknown

  datatype Step = Step(evidence: nat, outcome: Outcome)

  datatype Explanation = Explanation(steps: seq<Step>, finalOutcome: Outcome)

  function OutcomeAnd(a: Outcome, b: Outcome): Outcome {
    match (a, b)
    case (NoMatch, _) => NoMatch
    case (_, NoMatch) => NoMatch
    case (AllMatch, x) => x
    case (x, AllMatch) => x
    case (Unknown, Unknown) => Unknown
    case (Unknown, SomeMatch) => SomeMatch
    case (SomeMatch, Unknown) => SomeMatch
    case (SomeMatch, SomeMatch) => SomeMatch
  }

  function OutcomeOr(a: Outcome, b: Outcome): Outcome {
    match (a, b)
    case (AllMatch, _) => AllMatch
    case (_, AllMatch) => AllMatch
    case (NoMatch, x) => x
    case (x, NoMatch) => x
    case (Unknown, Unknown) => Unknown
    case (Unknown, SomeMatch) => SomeMatch
    case (SomeMatch, Unknown) => SomeMatch
    case (SomeMatch, SomeMatch) => SomeMatch
  }

  datatype Connective = Conjunction | Disjunction

  function Join(op: Connective, a: Outcome, b: Outcome): Outcome {
    if op == Conjunction then OutcomeAnd(a, b) else OutcomeOr(a, b)
  }

  /** `PruningExplanation::and` and `::or`: an explanation without steps gives way to the other one,
      whatever its outcome. */
  function Combine(op: Connective, a: Explanation, b: Explanation): Explanation {
    if a.steps == [] then b
    else if b.steps == [] then a
    else Explanation(a.steps + b.steps, Join(op, a.finalOutcome, b.finalOutcome))
  }
}
