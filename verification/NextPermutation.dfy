/** The in-place lexicographic step of the conformance checker (`next_permutation`). */
module NextPermutation {
  import opened Sequences

  predicate NonIncreasing(s: seq<int>) {
    forall i, j :: 0 <= i < j < |s| ==> s[i] >= s[j]
  }

  predicate Ascending(s: seq<int>) {
    forall i, j :: 0 <= i < j < |s| ==> s[i] <= s[j]
  }

  ghost predicate SameElements(s: seq<int>, t: seq<int>) {
    multiset(s) == multiset(t)
  }

  /** `t` is the next arrangement after `s`: nothing lies strictly between them. */
  ghost predicate IsSuccessor(s: seq<int>, t: seq<int>) {
    && SameElements(s, t) && LexLt(s, t)
    && forall q :: SameElements(s, q) && LexLt(s, q) ==> LexLe(t, q)
  }

  function Reversed(s: seq<int>): (r: seq<int>)
    ensures |r| == |s|
    ensures forall k :: 0 <= k < |s| ==> r[k] == s[|s| - 1 - k]
  {
    seq(|s|, k requires 0 <= k < |s| => s[|s| - 1 - k])
  }

  lemma {:induction false} ReversedMultiset(s: seq<int>)
    ensures SameElements(s, Reversed(s))
  {
    if s != [] {
      ReversedMultiset(s[1..]);
      assert s == [s[0]] + s[1..];
      assert Reversed(s) == Reversed(s[1..]) + [s[0]];
    }
  }

  method ReverseFrom(a: array<int>, from: nat)
    requires from <= a.Length
    modifies a
    ensures a[..] == old(a[..from]) + Reversed(old(a[from..]))
  {
    var lo, hi := from, a.Length;
    while lo + 1 < hi
      invariant from <= lo <= hi + 1 && hi <= a.Length && lo - from == a.Length - hi
      invariant forall k :: 0 <= k < from || lo <= k < hi ==> a[k] == old(a[k])
      invariant forall k :: from <= k < lo || hi <= k < a.Length ==> a[k] == old(a[a.Length - 1 - (k - from)])
    {
      hi := hi - 1;
      a[lo], a[hi] := a[hi], a[lo];
      lo := lo + 1;
    }
    ghost var before := old(a[from..]);
    forall k | from <= k < a.Length ensures a[k] == Reversed(before)[k - from] {
      assert before[|before| - 1 - (k - from)] == old(a[a.Length - 1 - (k - from)]);
    }
  }

  // ---- extreme arrangements -----------------------------------------------------------------

  lemma HeadMember(s: seq<int>, q: seq<int>)
    requires SameElements(s, q)
    ensures |s| == |q|
    ensures q != [] ==> q[0] in s
    ensures s != [] && q != [] && s[0] == q[0] ==> SameElements(s[1..], q[1..])
  {
    assert |multiset(s)| == |multiset(q)|;
    if q != [] {
      assert q[0] in multiset(q);
      TailElements(s);
      TailElements(q);
    }
  }

  lemma TailElements(s: seq<int>)
    requires s != []
    ensures multiset(s[1..]) == multiset(s) - multiset{s[0]}
  {
    assert s == [s[0]] + s[1..];
  }

  lemma {:induction false} AscendingIsLeast(s: seq<int>, q: seq<int>)
    requires Ascending(s) && SameElements(s, q)
    ensures LexLe(s, q)
  {
    HeadMember(s, q);
    if s != [] && s[0] == q[0] {
      AscendingIsLeast(s[1..], q[1..]);
      assert s == [s[0]] + s[1..] && q == [q[0]] + q[1..];
    }
  }

  /** A non-increasing arrangement is the last one. */
  lemma {:induction false} NonIncreasingIsGreatest(s: seq<int>, q: seq<int>)
    requires NonIncreasing(s) && SameElements(s, q)
    ensures LexLe(q, s)
  {
    HeadMember(s, q);
    if s != [] && s[0] == q[0] {
      NonIncreasingIsGreatest(s[1..], q[1..]);
      assert s == [s[0]] + s[1..] && q == [q[0]] + q[1..];
    }
  }

  lemma {:induction false} LexSharedPrefix(p: seq<int>, s: seq<int>, t: seq<int>)
    ensures LexLt(p + s, p + t) <==> LexLt(s, t)
  {
    if p == [] {
      assert p + s == s && p + t == t;
    } else {
      LexSharedPrefix(p[1..], s, t);
      assert (p + s)[1..] == p[1..] + s && (p + t)[1..] == p[1..] + t;
    }
  }

  /** An arrangement either departs from `p` or continues it with the same remaining elements. */
  lemma {:induction false} PrefixOrDeparts(p: seq<int>, s: seq<int>, q: seq<int>)
    requires SameElements(p + s, q)
    ensures LexLt(q, p + s) || (p <= q && SameElements(s, q[|p|..])) || forall t :: |t| == |s| ==> LexLt(p + t, q)
    decreases |p|
  {
    HeadMember(p + s, q);
    if p == [] {
      assert p + s == s && q[0..] == q;
    } else if q[0] == p[0] {
      assert (p + s)[1..] == p[1..] + s;
      PrefixOrDeparts(p[1..], s, q[1..]);
      assert q == [q[0]] + q[1..];
      assert forall t :: (p + t)[1..] == p[1..] + t;
      assert q[1..][|p| - 1..] == q[|p|..];
    }
  }

  // ---- the step -----------------------------------------------------------------------------

  /** The shape the two scans find: a pivot below a non-increasing suffix, whose element `j` is the
      last one above the pivot. */
  ghost predicate Pivot(suffix: seq<int>, pivot: int, j: nat) {
    && NonIncreasing(suffix) && j < |suffix| && suffix[j] > pivot
    && forall k :: j < k < |suffix| ==> suffix[k] <= pivot
  }

  lemma SwappedSuffixAscends(suffix: seq<int>, pivot: int, j: nat)
    requires Pivot(suffix, pivot, j)
    ensures Ascending(Reversed(suffix[j := pivot]))
    ensures SameElements([pivot] + suffix, [suffix[j]] + Reversed(suffix[j := pivot]))
  {
    ReversedMultiset(suffix[j := pivot]);
    assert suffix[j := pivot] == suffix[..j] + [pivot] + suffix[j + 1..];
    assert suffix == suffix[..j] + [suffix[j]] + suffix[j + 1..];
  }

  /** Replacing the pivot by the least larger element and sorting the rest is the next arrangement. */
  lemma TailSuccessor(suffix: seq<int>, pivot: int, j: nat)
    requires Pivot(suffix, pivot, j)
    ensures IsSuccessor([pivot] + suffix, [suffix[j]] + Reversed(suffix[j := pivot]))
  {
    var s, t := [pivot] + suffix, [suffix[j]] + Reversed(suffix[j := pivot]);
    SwappedSuffixAscends(suffix, pivot, j);
    forall q | SameElements(s, q) && LexLt(s, q) ensures LexLe(t, q) {
      TailBound(suffix, pivot, j, q);
    }
  }

  lemma LexHead(a: seq<int>, b: seq<int>)
    requires a != [] && b != []
    ensures LexLt(a, b) <==> a[0] < b[0] || (a[0] == b[0] && LexLt(a[1..], b[1..]))
  {
  }

  lemma TailBound(suffix: seq<int>, pivot: int, j: nat, q: seq<int>)
    requires Pivot(suffix, pivot, j)
    requires SameElements([pivot] + suffix, q) && LexLt([pivot] + suffix, q)
    ensures LexLe([suffix[j]] + Reversed(suffix[j := pivot]), q)
  {
    var s, t := [pivot] + suffix, [suffix[j]] + Reversed(suffix[j := pivot]);
    SwappedSuffixAscends(suffix, pivot, j);
    HeadMember(s, q);
    HeadMember(t, q);
    assert s[1..] == suffix && t[1..] == Reversed(suffix[j := pivot]);
    assert NonIncreasing(suffix) && Ascending(t[1..]);
    LexHead(s, q);
    LexHead(t, q);
    hide Reversed, SameElements, LexLt, Pivot, NonIncreasing, Ascending;
    if q[0] == pivot {
      NonIncreasingIsGreatest(suffix, q[1..]);
      LexAsymmetric(suffix, q[1..]);
    } else if q[0] == suffix[j] {
      AscendingIsLeast(t[1..], q[1..]);
      assert q == [q[0]] + q[1..];
    } else {
      assert q[0] in suffix;
      PivotGap(suffix, pivot, j, q[0]);
    }
  }

  /** No element of the suffix lies strictly between the pivot and element `j`. */
  lemma PivotGap(suffix: seq<int>, pivot: int, j: nat, x: int)
    requires Pivot(suffix, pivot, j) && x in suffix && x > pivot
    ensures x >= suffix[j]
  {
  }

  lemma LexAsymmetric(a: seq<int>, b: seq<int>)
    ensures LexLt(a, b) ==> !LexLe(b, a)
  {
    if LexLt(a, b) && LexLt(b, a) {
      LexTransitive(a, b, a);
    }
    LexIrreflexive(a);
  }

  lemma PrefixedSuccessor(p: seq<int>, s: seq<int>, t: seq<int>)
    requires IsSuccessor(s, t)
    ensures IsSuccessor(p + s, p + t)
  {
    assert |multiset(s)| == |multiset(t)|;
    LexSharedPrefix(p, s, t);
    forall q | SameElements(p + s, q) && LexLt(p + s, q) ensures LexLe(p + t, q) {
      PrefixOrDeparts(p, s, q);
      LexAsymmetric(p + s, q);
      if p <= q && SameElements(s, q[|p|..]) {
        assert q == p + q[|p|..];
        LexSharedPrefix(p, s, q[|p|..]);
        LexSharedPrefix(p, t, q[|p|..]);
      }
    }
  }

  lemma ReversedAscends(s: seq<int>)
    requires NonIncreasing(s)
    ensures Ascending(Reversed(s))
  {
  }

  lemma ShortArrangement(s: seq<int>)
    requires |s| < 2
    ensures NonIncreasing(s) && Ascending(s) && Reversed(s) == s
  {
  }

  /** `next_permutation`: the immediate lexicographic successor, or `false` on the last arrangement,
      which is then turned into the first. */
  method Next(a: array<int>) returns (more: bool)
    modifies a
    ensures more ==> IsSuccessor(old(a[..]), a[..])
    ensures !more ==> NonIncreasing(old(a[..])) && a[..] == Reversed(old(a[..])) && Ascending(a[..])
  {
    hide IsSuccessor, NonIncreasing, Ascending, Pivot, Reversed;
    ghost var s := a[..];
    if a.Length < 2 {
      ShortArrangement(s);
      return false;
    }
    var i := ScanPivot(a);
    if i == 0 {
      assert a[0..] == s;
      ReverseFrom(a, 0);
      ReversedAscends(s);
      assert s[..0] + Reversed(s) == Reversed(s);
      return false;
    }
    var j := ScanSwap(a, i - 1);
    SwapThenReverse(a, i - 1, j);
    return true;
  }

  /** The second scan: the last element above the pivot. */
  method ScanSwap(a: array<int>, pivot: nat) returns (j: nat)
    requires pivot + 1 < a.Length && NonIncreasing(a[pivot + 1..]) && a[pivot] < a[pivot + 1]
    ensures pivot < j < a.Length && Pivot(a[pivot + 1..], a[pivot], j - pivot - 1)
  {
    j := a.Length - 1;
    while a[j] <= a[pivot]
      invariant pivot < j < a.Length
      invariant forall k :: j < k < a.Length ==> a[k] <= a[pivot]
      decreases j
    {
      j := j - 1;
    }
  }

  /** The first scan: where the longest non-increasing suffix starts. */
  method ScanPivot(a: array<int>) returns (i: nat)
    requires a.Length >= 2
    ensures i < a.Length && NonIncreasing(a[i..])
    ensures i > 0 ==> a[i - 1] < a[i]
  {
    i := a.Length - 1;
    while i > 0 && a[i - 1] >= a[i]
      invariant 0 <= i < a.Length
      invariant NonIncreasing(a[i..])
    {
      assert a[i - 1..] == [a[i - 1]] + a[i..];
      i := i - 1;
    }
  }

  /** `slice.swap(pivot, j)` and `slice[i..].reverse()`. */
  method SwapThenReverse(a: array<int>, pivot: nat, j: nat)
    requires pivot < j < a.Length && Pivot(a[pivot + 1..], a[pivot], j - pivot - 1)
    modifies a
    ensures IsSuccessor(old(a[..]), a[..])
  {
    hide IsSuccessor, LexLt;
    ghost var s := a[..];
    assert a[pivot + 1..] == s[pivot + 1..];
    SwapAndReverse(s, pivot, j);
    a[pivot], a[j] := a[j], a[pivot];
    ghost var swapped := s[pivot := s[j]][j := s[pivot]];
    assert a[..] == swapped;
    assert a[..pivot + 1] == swapped[..pivot + 1] && a[pivot + 1..] == swapped[pivot + 1..];
    ReverseFrom(a, pivot + 1);
  }

  lemma SwapAndReverse(s: seq<int>, pivot: nat, j: nat)
    requires pivot < j < |s| && Pivot(s[pivot + 1..], s[pivot], j - pivot - 1)
    ensures var swapped := s[pivot := s[j]][j := s[pivot]];
      IsSuccessor(s, swapped[..pivot + 1] + Reversed(swapped[pivot + 1..]))
  {
    hide IsSuccessor;
    var suffix, k := s[pivot + 1..], j - pivot - 1;
    TailSuccessor(suffix, s[pivot], k);
    PrefixedSuccessor(s[..pivot], [s[pivot]] + suffix, [suffix[k]] + Reversed(suffix[k := s[pivot]]));
    SwapPieces(s, pivot, j);
  }

  lemma SwapPieces(s: seq<int>, pivot: nat, j: nat)
    requires pivot < j < |s|
    ensures var suffix, k := s[pivot + 1..], j - pivot - 1;
      var swapped := s[pivot := s[j]][j := s[pivot]];
      && s == s[..pivot] + ([s[pivot]] + suffix)
      && swapped[..pivot + 1] + Reversed(swapped[pivot + 1..])
         == s[..pivot] + ([suffix[k]] + Reversed(suffix[k := s[pivot]]))
  {
    var suffix, k := s[pivot + 1..], j - pivot - 1;
    var swapped := s[pivot := s[j]][j := s[pivot]];
    assert swapped[pivot + 1..] == suffix[k := s[pivot]];
    assert swapped[..pivot + 1] == s[..pivot] + [s[j]];
  }

  /** `false` means that no later arrangement exists, and the other way round. */
  lemma LastArrangement(s: seq<int>)
    ensures NonIncreasing(s) <==> forall q :: SameElements(s, q) ==> LexLe(q, s)
  {
    if NonIncreasing(s) {
      forall q | SameElements(s, q) ensures LexLe(q, s) {
        NonIncreasingIsGreatest(s, q);
      }
    } else {
      var i, j :| 0 <= i < j < |s| && s[i] < s[j];
      SwapClimbs(s, i, j);
      LexAsymmetric(s, s[i := s[j]][j := s[i]]);
    }
  }

  lemma SwapClimbs(s: seq<int>, i: nat, j: nat)
    requires i < j < |s| && s[i] < s[j]
    ensures SameElements(s, s[i := s[j]][j := s[i]]) && LexLt(s, s[i := s[j]][j := s[i]])
  {
    var mid, end := s[i + 1..j], s[j + 1..];
    var low, high := [s[i]] + mid + [s[j]] + end, [s[j]] + mid + [s[i]] + end;
    LexSharedPrefix(s[..i], low, high);
    SwapAt(s, i, j);
  }

  lemma SwapAt(s: seq<int>, i: nat, j: nat)
    requires i < j < |s|
    ensures var mid, end := s[i + 1..j], s[j + 1..];
      && s == s[..i] + ([s[i]] + mid + [s[j]] + end)
      && s[i := s[j]][j := s[i]] == s[..i] + ([s[j]] + mid + [s[i]] + end)
  {
  }
}
