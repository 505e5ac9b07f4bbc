/** What a pruning outcome says about the rows of a zone, in SQL's three-valued logic: a zone is skipped only when no
    row of it satisfies the predicate, at any nesting. */
module PruningSound {
  import opened Wrappers
  import opened Pruning
  import opened PruningQueries
  import opened ReorderInvariance
  import opened PruningOrders

  // ---- three-valued logic -------------------------------------------------------------------------------

  /** What a predicate makes of a row; a comparison with null is neither true nor false. */
  datatype Verdict = True | False | Null

  function Opposite(v: Verdict): Verdict {
    match v
    case True => False
    case False => True
    case Null => Null
  }

  function Both(v: Verdict, w: Verdict): Verdict {
    if v == False || w == False then False else if v == Null || w == Null then Null else True
  }

  function Either(v: Verdict, w: Verdict): Verdict {
    if v == True || w == True then True else if v == Null || w == Null then Null else False
  }

  /** A predicate over rows, with what each leaf found out about the zone. */
  datatype Predicate =
    | Test(finding: Result<Step>, verdict: nat -> Verdict)
    | Negation(operand: Predicate)
    | Nested(op: Connective, operands: seq<Predicate>)

  function VerdictOf(p: Predicate, row: nat): Verdict
    decreases p, 0
  {
    match p
    case Test(_, verdict) => verdict(row)
    case Negation(operand) => Opposite(VerdictOf(operand, row))
    case Nested(op, operands) => VerdictOfAll(op, operands, row)
  }

  function VerdictOfAll(op: Connective, ps: seq<Predicate>, row: nat): Verdict
    decreases ps, 0
  {
    if ps == [] then (if op == Conjunction then True else False)
    else if op == Conjunction then Both(VerdictOf(ps[0], row), VerdictOfAll(op, ps[1..], row))
    else Either(VerdictOf(ps[0], row), VerdictOfAll(op, ps[1..], row))
  }

  /** The query that is evaluated. */
  function QueryOf(p: Predicate): Query
    decreases p, 0
  {
    match p
    case Test(finding, _) => Leaf(finding)
    case Negation(operand) => Not(QueryOf(operand))
    case Nested(op, operands) => Group(op, QueriesOf(operands))
  }

  function QueriesOf(ps: seq<Predicate>): (qs: seq<Query>)
    ensures |qs| == |ps|
    decreases ps, 0
  {
    if ps == [] then [] else [QueryOf(ps[0])] + QueriesOf(ps[1..])
  }

  // ---- soundness ----------------------------------------------------------------------------------------

  /** What an outcome claims: `NoMatch` that no row satisfies the predicate, `AllMatch` that none fails it. */
  predicate Claims(o: Outcome, v: Verdict) {
    (o == NoMatch ==> v != True) && (o == AllMatch ==> v != False)
  }

  /** Every leaf is right about this row. */
  predicate LeavesRight(p: Predicate, row: nat)
    decreases p, 0
  {
    match p
    case Test(finding, verdict) => finding.Ok? ==> Claims(finding.value.outcome, verdict(row))
    case Negation(operand) => LeavesRight(operand, row)
    case Nested(_, operands) => AllRight(operands, row)
  }

  predicate AllRight(ps: seq<Predicate>, row: nat)
    decreases ps, 0
  {
    ps == [] || (LeavesRight(ps[0], row) && AllRight(ps[1..], row))
  }

  lemma JoinClaims(op: Connective, a: Outcome, b: Outcome, v: Verdict, w: Verdict)
    requires Claims(a, v) && Claims(b, w)
    ensures Claims(Join(op, a, b), if op == Conjunction then Both(v, w) else Either(v, w))
  {
  }

  lemma QueriesSplit(ps: seq<Predicate>)
    requires ps != []
    ensures ExplainAll(QueriesOf(ps)) == [Explain(QueryOf(ps[0]))] + ExplainAll(QueriesOf(ps[1..]))
  {
    hide Explain;
    assert QueriesOf(ps)[1..] == QueriesOf(ps[1..]);
  }

  function Joined(op: Connective, v: Verdict, w: Verdict): Verdict {
    if op == Conjunction then Both(v, w) else Either(v, w)
  }

  lemma JoinedAssociates(op: Connective, u: Verdict, v: Verdict, w: Verdict)
    ensures Joined(op, Joined(op, u, v), w) == Joined(op, u, Joined(op, v, w))
    ensures Joined(op, u, if op == Conjunction then True else False) == u
  {
  }

  /** The rest of a fold: an outcome that is right about the operands so far, and operands still to come. */
  lemma FoldSound(op: Connective, acc: Explanation, v: Verdict, ps: seq<Predicate>, row: nat)
    requires acc.steps != [] && Claims(acc.finalOutcome, v) && AllRight(ps, row)
    requires FoldFrom(acc, ExplainAll(QueriesOf(ps)), Given, Combiner(op)).Ok?
    ensures Claims(FoldFrom(acc, ExplainAll(QueriesOf(ps)), Given, Combiner(op)).value.finalOutcome,
      Joined(op, v, VerdictOfAll(op, ps, row)))
    decreases ps, 0
  {
    if ps == [] {
      JoinedAssociates(op, v, v, v);
    } else {
      QueriesSplit(ps);
      var first := Explain(QueryOf(ps[0]));
      var rest := ExplainAll(QueriesOf(ps[1..]));
      assert ([first] + rest)[1..] == rest && first.Ok?;
      ExplanationSound(ps[0], row);
      EveryQueryHasEvidence(QueryOf(ps[0]));
      hide Explain, ExplainAll, QueriesOf, LeavesRight;
      var w := VerdictOf(ps[0], row);
      JoinClaims(op, acc.finalOutcome, first.value.finalOutcome, v, w);
      FoldSound(op, Combine(op, acc, first.value), Joined(op, v, w), ps[1..], row);
      JoinedAssociates(op, v, w, VerdictOfAll(op, ps[1..], row));
    }
  }

  /** An explained predicate is right about every row that its leaves are right about. */
  lemma ExplanationSound(p: Predicate, row: nat)
    requires LeavesRight(p, row) && Explain(QueryOf(p)).Ok?
    ensures Claims(Explain(QueryOf(p)).value.finalOutcome, VerdictOf(p, row))
    decreases p, 1
  {
    match p {
      case Test(_, _) =>
      case Negation(operand) => ExplanationSound(operand, row);
      case Nested(op, operands) => NestedSound(p, op, operands, row);
    }
  }

  lemma NestedSound(p: Predicate, op: Connective, operands: seq<Predicate>, row: nat)
    requires p == Nested(op, operands) && LeavesRight(p, row) && Explain(QueryOf(p)).Ok?
    ensures Claims(Explain(QueryOf(p)).value.finalOutcome, VerdictOf(p, row))
    decreases p, 0
  {
    var first := Explain(QueryOf(operands[0]));
    QueriesSplit(operands);
    var rest := ExplainAll(QueriesOf(operands[1..]));
    assert ([first] + rest)[1..] == rest && first.Ok?;
    ExplanationSound(operands[0], row);
    EveryQueryHasEvidence(QueryOf(operands[0]));
    FoldSound(op, first.value, VerdictOf(operands[0], row), operands[1..], row);
  }

  /** A zone whose predicate comes out as `NoMatch` has no row that satisfies it: skipping the zone loses nothing. One
      that comes out as `AllMatch` has no row that fails it, so all its rows satisfy it exactly when the predicate is
      null for none of them. */
  lemma PrunedZonesLoseNothing(p: Predicate, zone: set<nat>)
    requires Explain(QueryOf(p)).Ok? && forall row :: row in zone ==> LeavesRight(p, row)
    ensures Explain(QueryOf(p)).value.finalOutcome == NoMatch ==> forall row :: row in zone ==>
      VerdictOf(p, row) != True
    ensures Explain(QueryOf(p)).value.finalOutcome == AllMatch ==>
      ((forall row :: row in zone ==> VerdictOf(p, row) == True) <==>
       (forall row :: row in zone ==> VerdictOf(p, row) != Null))
  {
    forall row | row in zone ensures Claims(Explain(QueryOf(p)).value.finalOutcome, VerdictOf(p, row)) {
      ExplanationSound(p, row);
    }
    hide Explain, VerdictOf, QueryOf;
  }

  /** A zone of nulls: no row satisfies a comparison, so the comparison comes out as `NoMatch`; its negation then comes
      out as `AllMatch`, although no row satisfies the negation either. */
  lemma NegatedNullsClaimAll(row: nat) returns (p: Predicate)
    ensures p.Negation? && p.operand.Test? && p.operand.finding == Ok(Step(0, NoMatch))
    ensures LeavesRight(p, row) && VerdictOf(p, row) == Null
    ensures Explain(QueryOf(p)).Ok? && Explain(QueryOf(p)).value.finalOutcome == AllMatch
  {
    p := Negation(Test(Ok(Step(0, NoMatch)), (_: nat) => Null));
  }
}
