/** The checker that tries every operand order (`evaluate_reorder_invariant`). */
module ReorderInvariance {
  import opened Wrappers
  import opened Sequences
  import opened Bits
  import opened NextPermutation

  // ---- folding --------------------------------------------------------------------------------

  function FoldFrom<T, E>(acc: E, operands: seq<T>, eval: T -> Result<E>, combine: (E, E) -> E): Result<E> {
    if operands == [] then Ok(acc)
    else
      var next :- eval(operands[0]);
      FoldFrom(combine(acc, next), operands[1..], eval, combine)
  }

  function Fold<T, E>(operands: seq<T>, eval: T -> Result<E>, combine: (E, E) -> E): Result<E> {
    if operands == [] then Err(BadSection)
    else
      var first :- eval(operands[0]);
      FoldFrom(first, operands[1..], eval, combine)
  }

  method FoldInOrder<T, E>(operands: seq<T>, eval: T -> Result<E>, combine: (E, E) -> E) returns (r: Result<E>)
    ensures r == Fold(operands, eval, combine)
  {
    if operands == [] {
      return Err(BadSection);
    }
    r := eval(operands[0]);
    if r.Err? {
      return;
    }
    var explanation := r.value;
    for i := 1 to |operands|
      invariant FoldFrom(explanation, operands[i..], eval, combine) == Fold(operands, eval, combine)
    {
      assert operands[i..][1..] == operands[i + 1..];
      var next := eval(operands[i]);
      if next.Err? {
        return Err(next.error);
      }
      explanation := combine(explanation, next.value);
    }
    r := Ok(explanation);
  }

  lemma {:induction false} FoldFromSucceeds<T, E>(acc: E, operands: seq<T>, eval: T -> Result<E>, combine: (E, E) -> E)
    requires forall x :: x in operands ==> eval(x).Ok?
    ensures FoldFrom(acc, operands, eval, combine).Ok?
  {
    if operands != [] {
      assert operands[0] in operands;
      FoldFromSucceeds(combine(acc, eval(operands[0]).value), operands[1..], eval, combine);
    }
  }

  lemma {:induction false} FoldFromFails<T, E>(acc: E, operands: seq<T>, eval: T -> Result<E>, combine: (E, E) -> E,
      i: nat)
    requires i < |operands| && eval(operands[i]).Err?
    ensures FoldFrom(acc, operands, eval, combine).Err?
  {
    if i > 0 && eval(operands[0]).Ok? {
      FoldFromFails(combine(acc, eval(operands[0]).value), operands[1..], eval, combine, i - 1);
    }
  }

  /** A fold fails exactly when an operand does. */
  lemma FoldOutcome<T, E>(operands: seq<T>, eval: T -> Result<E>, combine: (E, E) -> E)
    requires operands != []
    ensures Fold(operands, eval, combine).Ok? <==> forall x :: x in operands ==> eval(x).Ok?
  {
    if forall x :: x in operands ==> eval(x).Ok? {
      assert operands[0] in operands;
      FoldFromSucceeds(eval(operands[0]).value, operands[1..], eval, combine);
    } else {
      var i :| 0 <= i < |operands| && eval(operands[i]).Err?;
      if i > 0 && eval(operands[0]).Ok? {
        FoldFromFails(eval(operands[0]).value, operands[1..], eval, combine, i - 1);
      }
    }
  }

  // ---- orderings ------------------------------------------------------------------------------

  function Identity(n: nat): (r: seq<int>)
    ensures |r| == n && forall i :: 0 <= i < n ==> r[i] == i
  {
    seq(n, i => i)
  }

  /** The orderings of `n` operands. */
  ghost predicate Ordering(p: seq<int>, n: nat) {
    SameElements(Identity(n), p)
  }

  lemma OrderingShape(p: seq<int>, n: nat)
    requires Ordering(p, n)
    ensures |p| == n && Distinct(p)
    ensures forall i :: 0 <= i < n ==> 0 <= p[i] < n
    ensures forall k :: 0 <= k < n ==> k in p
  {
    var id := Identity(n);
    assert |multiset(id)| == |multiset(p)|;
    DistinctMultiset(id);
    forall i | 0 <= i < n ensures 0 <= p[i] < n {
      assert p[i] in multiset(p);
    }
    forall i, j | 0 <= i < j < n ensures p[i] != p[j] {
      RepeatCounts(p, i, j);
    }
    forall k | 0 <= k < n ensures k in p {
      assert id[k] in multiset(id);
      assert k in multiset(p);
    }
  }

  function Permuted<T>(operands: seq<T>, p: seq<int>): (r: seq<T>)
    requires |p| == |operands| && forall i :: 0 <= i < |p| ==> 0 <= p[i] < |operands|
    ensures |r| == |operands|
    ensures forall i :: 0 <= i < |r| ==> r[i] == operands[p[i]]
  {
    seq(|p|, i requires 0 <= i < |p| => operands[p[i]])
  }

  lemma PermutedMembers<T>(operands: seq<T>, p: seq<int>)
    requires Ordering(p, |operands|)
    ensures |p| == |operands| && forall i :: 0 <= i < |p| ==> 0 <= p[i] < |operands|
    ensures forall x :: x in Permuted(operands, p) <==> x in operands
  {
    OrderingShape(p, |operands|);
    forall x | x in operands ensures x in Permuted(operands, p) {
      var k :| 0 <= k < |operands| && operands[k] == x;
      assert k in p;
      var i :| 0 <= i < |p| && p[i] == k;
      assert Permuted(operands, p)[i] == x;
    }
  }

  // ---- termination: the rank of an arrangement in base n ---------------------------------------

  function PowN(n: nat, k: nat): (p: nat) {
    if k == 0 then 1 else n * PowN(n, k - 1)
  }

  function Rank(p: seq<int>, n: nat): nat
    requires forall i :: 0 <= i < |p| ==> 0 <= p[i] < n
  {
    if p == [] then 0 else p[0] * PowN(n, |p| - 1) + Rank(p[1..], n)
  }

  lemma {:induction false} RankBound(p: seq<int>, n: nat)
    requires forall i :: 0 <= i < |p| ==> 0 <= p[i] < n
    ensures Rank(p, n) < PowN(n, |p|)
  {
    if p != [] {
      RankBound(p[1..], n);
      MulGap(n, p[0], PowN(n, |p| - 1));
    }
  }

  lemma {:induction false} RankGrows(p: seq<int>, q: seq<int>, n: nat)
    requires |p| == |q| && LexLt(p, q)
    requires forall i :: 0 <= i < |p| ==> 0 <= p[i] < n && 0 <= q[i] < n
    ensures Rank(p, n) < Rank(q, n)
  {
    var unit := PowN(n, |p| - 1);
    if p[0] < q[0] {
      RankBound(p[1..], n);
      MulGap(q[0], p[0], unit);
    } else {
      RankGrows(p[1..], q[1..], n);
    }
  }

  // ---- the checker ------------------------------------------------------------------------------

  /** Every ordering of the operands folds to the outcome of the declared order. */
  ghost predicate OrderFree<T, E, O>(operands: seq<T>, eval: T -> Result<E>, combine: (E, E) -> E, outcome: E -> O) {
    forall p :: Ordering(p, |operands|) ==> SameOutcome(operands, p, eval, combine, outcome)
  }

  ghost predicate SameOutcome<T, E, O>(
    operands: seq<T>, p: seq<int>, eval: T -> Result<E>, combine: (E, E) -> E, outcome: E -> O)
  {
    && |p| == |operands| && (forall i :: 0 <= i < |p| ==> 0 <= p[i] < |operands|)
    && var declared := Fold(operands, eval, combine);
       var other := Fold(Permuted(operands, p), eval, combine);
       declared.Ok? && other.Ok? && outcome(other.value) == outcome(declared.value)
  }

  /** The arrangements tried so far: strictly ascending, so none is tried twice, and complete up to
      the current one. */
  ghost predicate Covers(tried: seq<seq<int>>, current: seq<int>, n: nat) {
    && |tried| > 0 && tried[|tried| - 1] == current
    && SortedBy(tried, LexLt)
    && (forall p :: p in tried ==> Ordering(p, n))
    && (forall p :: Ordering(p, n) && LexLe(p, current) ==> p in tried)
  }

  lemma IdentityCovers(n: nat)
    ensures Covers([Identity(n)], Identity(n), n)
  {
    forall p | Ordering(p, n) && LexLe(p, Identity(n)) ensures p in [Identity(n)] {
      AscendingIsLeast(Identity(n), p);
      LexAsymmetric(p, Identity(n));
    }
  }

  lemma SuccessorCovers(tried: seq<seq<int>>, current: seq<int>, next: seq<int>, n: nat)
    requires Covers(tried, current, n) && IsSuccessor(current, next)
    ensures Covers(tried + [next], next, n)
  {
    var all := tried + [next];
    assert current in tried;
    forall i, j | 0 <= i < j < |all| ensures LexLt(all[i], all[j]) {
      if j == |tried| && i < |tried| - 1 {
        assert LexLt(tried[i], current);
        LexTransitive(tried[i], current, next);
      }
    }
    forall p | Ordering(p, n) && LexLe(p, next) ensures p in all {
      LexConnected(p, current);
      if LexLt(current, p) {
        LexAsymmetric(p, next);
      }
    }
  }

  /** Every ordering once. */
  ghost predicate Complete(tried: seq<seq<int>>, n: nat) {
    Distinct(tried) && forall p :: p in tried <==> Ordering(p, n)
  }

  lemma LastCovers(tried: seq<seq<int>>, current: seq<int>, n: nat)
    requires Covers(tried, current, n) && NonIncreasing(current)
    ensures Complete(tried, n)
  {
    assert current in tried;
    forall p | Ordering(p, n) ensures p in tried {
      NonIncreasingIsGreatest(current, p);
    }
    forall i, j | 0 <= i < j < |tried| ensures tried[i] != tried[j] {
      LexIrreflexive(tried[i]);
    }
  }

  /** `evaluate_reorder_invariant`. `Ok` comes with the explanation of the declared order, and only
      after every ordering, each tried exactly once, has given the same outcome. */
  method EvaluateReorderInvariant<T, E, O(==)>(
    operands: seq<T>, eval: T -> Result<E>, combine: (E, E) -> E, outcome: E -> O)
    returns (r: Result<E>, ghost tried: seq<seq<int>>)
    ensures r.Ok? <==> operands != [] && OrderFree(operands, eval, combine, outcome)
    ensures r.Ok? ==> r == Fold(operands, eval, combine)
    ensures r.Ok? ==> Complete(tried, |operands|)
    ensures r.Err? && operands != [] && (forall x :: x in operands ==> eval(x).Ok?) ==> r.error == BadSection
  {
    hide Covers, Fold, LexLt, IsSuccessor;
    tried := [];
    if operands == [] {
      return Err(BadSection), [];
    }
    var n := |operands|;
    var canonical := FoldInOrder(operands, eval, combine);
    FoldOutcome(operands, eval, combine);
    assert Ordering(Identity(n), n);
    if canonical.Err? {
      assert !SameOutcome(operands, Identity(n), eval, combine, outcome);
      return canonical, [];
    }
    var permutation := new int[n](i => i);
    assert permutation[..] == Identity(n);
    tried := [Identity(n)];
    IdentityCovers(n);
    IdentityAgrees(operands, eval, combine, outcome);
    var more := true;
    while more
      invariant permutation.Length == n && fresh(permutation)
      invariant more ==> Covers(tried, permutation[..], n) && Ordering(permutation[..], n)
      invariant !more ==> Complete(tried, n)
      invariant forall p :: p in tried ==> SameOutcome(operands, p, eval, combine, outcome)
      decreases more, if more then RemainingRank(permutation[..], n) else 0
    {
      ghost var before := permutation[..];
      more := Next(permutation);
      if more {
        ghost var after := permutation[..];
        SuccessorCovers(tried, before, after, n);
        SuccessorRanks(before, after, n);
        tried := tried + [after];
        PermutedMembers(operands, after);
        var permuted := Permuted(operands, permutation[..]);
        var alternative := FoldInOrder(permuted, eval, combine);
        FoldOutcome(permuted, eval, combine);
        if outcome(alternative.value) != outcome(canonical.value) {
          assert !SameOutcome(operands, after, eval, combine, outcome);
          return Err(BadSection), tried;
        }
      } else {
        LastCovers(tried, before, n);
      }
    }
    return canonical, tried;
  }

  lemma IdentityAgrees<T, E, O>(operands: seq<T>, eval: T -> Result<E>, combine: (E, E) -> E, outcome: E -> O)
    requires Fold(operands, eval, combine).Ok?
    ensures SameOutcome(operands, Identity(|operands|), eval, combine, outcome)
  {
    assert Permuted(operands, Identity(|operands|)) == operands;
  }

  lemma SuccessorRanks(before: seq<int>, after: seq<int>, n: nat)
    requires Ordering(before, n) && IsSuccessor(before, after)
    ensures Ordering(after, n) && RemainingRank(after, n) < RemainingRank(before, n)
  {
    OrderingShape(before, n);
    OrderingShape(after, n);
    RankGrows(before, after, n);
    RankBound(after, n);
  }

  ghost function RemainingRank(p: seq<int>, n: nat): nat
    requires Ordering(p, n)
  {
    OrderingShape(p, n);
    RankBound(p, n);
    PowN(n, n) - Rank(p, n)
  }
}
