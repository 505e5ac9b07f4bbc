/** Ordered sets: what a `BTreeSet` collected from a list holds, and the order it iterates in. */
module Ordered {
  import opened Sequences

  ghost predicate StrictOrder<T(!new)>(lt: (T, T) -> bool) {
    && (forall x :: !lt(x, x))
    && (forall x, y :: x == y || lt(x, y) || lt(y, x))
    && (forall x, y, z :: lt(x, y) && lt(y, z) ==> lt(x, z))
  }

  /** `insert`: an element already there stays once. */
  function InsertUnique<T(==)>(x: T, s: seq<T>, lt: (T, T) -> bool): seq<T> {
    if s == [] then [x]
    else if x == s[0] then s
    else if lt(x, s[0]) then [x] + s
    else [s[0]] + InsertUnique(x, s[1..], lt)
  }

  /** `collect::<BTreeSet<_>>()`, in iteration order. */
  function Collect<T(==)>(list: seq<T>, lt: (T, T) -> bool): seq<T> {
    if list == [] then [] else InsertUnique(list[|list| - 1], Collect(list[..|list| - 1], lt), lt)
  }

  lemma {:induction false} InsertUniqueMembers<T>(x: T, s: seq<T>, lt: (T, T) -> bool, y: T)
    ensures y in InsertUnique(x, s, lt) <==> y == x || y in s
  {
    if s != [] && x != s[0] && !lt(x, s[0]) {
      InsertUniqueMembers(x, s[1..], lt, y);
      assert s == [s[0]] + s[1..];
    }
  }

  lemma {:induction false} InsertUniqueSorts<T(!new)>(x: T, s: seq<T>, lt: (T, T) -> bool)
    requires StrictOrder(lt) && SortedBy(s, lt)
    ensures SortedBy(InsertUnique(x, s, lt), lt)
  {
    if s != [] && x != s[0] && !lt(x, s[0]) {
      InsertUniqueSorts(x, s[1..], lt);
      var rest := InsertUnique(x, s[1..], lt);
      forall k | 0 <= k < |rest| ensures lt(s[0], rest[k]) {
        InsertUniqueMembers(x, s[1..], lt, rest[k]);
      }
    }
  }

  lemma {:induction false} CollectMembers<T>(list: seq<T>, lt: (T, T) -> bool, y: T)
    ensures y in Collect(list, lt) <==> y in list
  {
    if list != [] {
      var init, last := list[..|list| - 1], list[|list| - 1];
      CollectMembers(init, lt, y);
      InsertUniqueMembers(last, Collect(init, lt), lt, y);
      assert list == init + [last];
    }
  }

  lemma {:induction false} CollectSorts<T(!new)>(list: seq<T>, lt: (T, T) -> bool)
    requires StrictOrder(lt)
    ensures SortedBy(Collect(list, lt), lt)
  {
    if list != [] {
      CollectSorts(list[..|list| - 1], lt);
      InsertUniqueSorts(list[|list| - 1], Collect(list[..|list| - 1], lt), lt);
    }
  }

  /** A collected set depends on the elements alone, not on their order or repetition. */
  lemma CollectDependsOnElements<T(!new)>(a: seq<T>, b: seq<T>, lt: (T, T) -> bool)
    requires StrictOrder(lt) && forall x :: x in a <==> x in b
    ensures Collect(a, lt) == Collect(b, lt)
  {
    hide Collect;
    CollectSorts(a, lt);
    CollectSorts(b, lt);
    forall x ensures x in Collect(a, lt) <==> x in Collect(b, lt) {
      CollectMembers(a, lt, x);
      CollectMembers(b, lt, x);
    }
    StrictlySortedUnique(Collect(a, lt), Collect(b, lt), lt);
  }

  lemma {:induction false} CollectAppend<T>(a: seq<T>, b: seq<T>, lt: (T, T) -> bool)
    ensures Collect(a + b, lt) == InsertAll(Collect(a, lt), b, lt)
  {
    if b == [] {
      assert a + b == a;
    } else {
      CollectAppend(a, b[..|b| - 1], lt);
      assert (a + b)[..|a + b| - 1] == a + b[..|b| - 1];
    }
  }

  /** `extend`. */
  function InsertAll<T(==)>(s: seq<T>, list: seq<T>, lt: (T, T) -> bool): seq<T> {
    if list == [] then s else InsertUnique(list[|list| - 1], InsertAll(s, list[..|list| - 1], lt), lt)
  }

  /** Where `x` is: the result of a binary search in a strictly sorted sequence. */
  function Position<T(==)>(s: seq<T>, x: T): (i: nat)
    requires x in s
    ensures i < |s| && s[i] == x
  {
    if s[0] == x then 0 else 1 + Position(s[1..], x)
  }

  lemma SortedPositionUnique<T(!new)>(s: seq<T>, lt: (T, T) -> bool, i: nat)
    requires StrictOrder(lt) && SortedBy(s, lt) && i < |s|
    ensures Position(s, s[i]) == i
  {
    var j := Position(s, s[i]);
    assert !lt(s[i], s[j]) && !lt(s[j], s[i]);
  }

  predicate Less(a: int, b: int) {
    a < b
  }

  lemma LessIsStrict()
    ensures StrictOrder(Less)
  {
  }
}
