/** Facts about sequences shared by the codecs, the exporters and the sorters. */
module Sequences {

  // ---- concatenation --------------------------------------------------------------------

  function Flatten<T>(rows: seq<seq<T>>): seq<T> {
    if rows == [] then [] else rows[0] + Flatten(rows[1..])
  }

  lemma {:induction false} FlattenAppend<T>(a: seq<seq<T>>, b: seq<seq<T>>)
    ensures Flatten(a + b) == Flatten(a) + Flatten(b)
  {
    if a == [] {
      assert a + b == b;
    } else {
      FlattenAppend(a[1..], b);
      assert (a + b)[1..] == a[1..] + b;
      assert Flatten(a + b) == a[0] + (Flatten(a[1..]) + Flatten(b));
    }
  }

  lemma FlattenSnoc<T>(a: seq<seq<T>>, row: seq<T>)
    ensures Flatten(a + [row]) == Flatten(a) + row
  {
    FlattenAppend(a, [row]);
    assert Flatten([row]) == row + Flatten([]);
  }

  /** Running totals of the row lengths, starting at 0: Arrow's offset buffer. */
  function Offsets<T>(rows: seq<seq<T>>): (offsets: seq<nat>)
    ensures |offsets| == |rows| + 1
  {
    if rows == [] then [0]
    else Offsets(rows[..|rows| - 1]) + [|Flatten(rows)|]
  }

  lemma {:induction false} OffsetAt<T>(rows: seq<seq<T>>, i: nat)
    requires i <= |rows|
    ensures Offsets(rows)[i] == |Flatten(rows[..i])|
  {
    if i < |rows| {
      var init := rows[..|rows| - 1];
      OffsetAt(init, i);
      assert init[..i] == rows[..i];
    } else {
      assert rows[..i] == rows;
    }
  }

  /** Row `i` is the slice of the concatenation between its two offsets. */
  lemma RowSlice<T>(rows: seq<seq<T>>, i: nat)
    requires i < |rows|
    ensures Offsets(rows)[i] <= Offsets(rows)[i + 1] <= |Flatten(rows)|
    ensures Flatten(rows)[Offsets(rows)[i]..Offsets(rows)[i + 1]] == rows[i]
  {
    OffsetAt(rows, i);
    OffsetAt(rows, i + 1);
    assert rows[..i + 1] == rows[..i] + [rows[i]];
    FlattenSnoc(rows[..i], rows[i]);
    assert rows == rows[..i + 1] + rows[i + 1..];
    FlattenAppend(rows[..i + 1], rows[i + 1..]);
  }

  lemma {:induction false} OffsetsMonotone<T>(rows: seq<seq<T>>, i: nat, j: nat)
    requires i <= j <= |rows|
    ensures Offsets(rows)[i] <= Offsets(rows)[j] <= |Flatten(rows)|
    decreases j - i
  {
    OffsetAt(rows, j);
    assert rows == rows[..j] + rows[j..];
    FlattenAppend(rows[..j], rows[j..]);
    if i < j {
      OffsetsMonotone(rows, i + 1, j);
      RowSlice(rows, i);
    }
  }

  // ---- lexicographic order --------------------------------------------------------------

  /** Rust's `Ord` on slices: first difference decides, a proper prefix is smaller. */
  predicate LexLt(a: seq<int>, b: seq<int>) {
    if b == [] then false
    else if a == [] then true
    else a[0] < b[0] || (a[0] == b[0] && LexLt(a[1..], b[1..]))
  }

  predicate LexLe(a: seq<int>, b: seq<int>) {
    a == b || LexLt(a, b)
  }

  lemma LexIrreflexive(a: seq<int>)
    ensures !LexLt(a, a)
  {
  }

  lemma {:induction false} LexTransitive(a: seq<int>, b: seq<int>, c: seq<int>)
    requires LexLt(a, b) && LexLt(b, c)
    ensures LexLt(a, c)
  {
    if a != [] && a[0] == b[0] == c[0] {
      LexTransitive(a[1..], b[1..], c[1..]);
    }
  }

  lemma {:induction false} LexConnected(a: seq<int>, b: seq<int>)
    ensures LexLt(a, b) || a == b || LexLt(b, a)
  {
    if a != [] && b != [] && a[0] == b[0] {
      LexConnected(a[1..], b[1..]);
      if a[1..] == b[1..] {
        assert a == [a[0]] + a[1..] == [b[0]] + b[1..] == b;
      }
    }
  }

  // ---- ascending numbers ----------------------------------------------------------------

  /** No two neighbours out of order: what `windows(2)` checks. */
  predicate Ascends(s: seq<int>) {
    forall i :: 0 < i < |s| ==> s[i - 1] < s[i]
  }

  predicate StrictlyAscending(s: seq<int>) {
    forall i, j :: 0 <= i < j < |s| ==> s[i] < s[j]
  }

  lemma {:induction false} AscendsFar(s: seq<int>, i: nat, j: nat)
    requires Ascends(s) && i <= j < |s|
    ensures s[i] <= s[j] && (i < j ==> s[i] < s[j])
    decreases j - i
  {
    if i < j {
      AscendsFar(s, i + 1, j);
    }
  }

  // ---- sorting --------------------------------------------------------------------------

  ghost predicate TotalPreorder<T(!new)>(le: (T, T) -> bool) {
    && (forall x, y :: le(x, y) || le(y, x))
    && (forall x, y, z :: le(x, y) && le(y, z) ==> le(x, z))
  }

  predicate SortedBy<T>(s: seq<T>, le: (T, T) -> bool) {
    forall i, j :: 0 <= i < j < |s| ==> le(s[i], s[j])
  }

  function Insert<T>(x: T, s: seq<T>, le: (T, T) -> bool): seq<T> {
    if s == [] || le(x, s[0]) then [x] + s
    else [s[0]] + Insert(x, s[1..], le)
  }

  /** The contract of Rust's stable `sort_by`: equal elements keep their source order. */
  function StableSort<T>(s: seq<T>, le: (T, T) -> bool): seq<T> {
    if s == [] then [] else Insert(s[0], StableSort(s[1..], le), le)
  }

  lemma {:induction false} InsertPermutes<T>(x: T, s: seq<T>, le: (T, T) -> bool)
    ensures multiset(Insert(x, s, le)) == multiset{x} + multiset(s)
  {
    if !(s == [] || le(x, s[0])) {
      InsertPermutes(x, s[1..], le);
      assert s == [s[0]] + s[1..];
    }
  }

  lemma {:induction false} SortPermutes<T>(s: seq<T>, le: (T, T) -> bool)
    ensures multiset(StableSort(s, le)) == multiset(s)
    ensures |StableSort(s, le)| == |s|
  {
    if s != [] {
      SortPermutes(s[1..], le);
      InsertPermutes(s[0], StableSort(s[1..], le), le);
      assert s == [s[0]] + s[1..];
    }
    assert |multiset(StableSort(s, le))| == |multiset(s)|;
  }

  lemma SortMembers<T>(s: seq<T>, le: (T, T) -> bool)
    ensures forall x :: x in StableSort(s, le) <==> x in s
  {
    SortPermutes(s, le);
    forall x ensures x in StableSort(s, le) <==> x in s {
      assert x in multiset(StableSort(s, le)) <==> x in multiset(s);
    }
  }

  lemma {:induction false} InsertSorts<T(!new)>(x: T, s: seq<T>, le: (T, T) -> bool)
    requires TotalPreorder(le) && SortedBy(s, le)
    ensures SortedBy(Insert(x, s, le), le)
  {
    if s == [] || le(x, s[0]) {
    } else {
      InsertSorts(x, s[1..], le);
      var r := Insert(x, s[1..], le);
      InsertPermutes(x, s[1..], le);
      forall k | 0 <= k < |r| ensures le(s[0], r[k]) {
        assert r[k] in multiset(r);
      }
    }
  }

  lemma {:induction false} SortSorts<T(!new)>(s: seq<T>, le: (T, T) -> bool)
    requires TotalPreorder(le)
    ensures SortedBy(StableSort(s, le), le)
  {
    if s != [] {
      SortSorts(s[1..], le);
      InsertSorts(s[0], StableSort(s[1..], le), le);
    }
  }

  predicate Distinct<T(==)>(s: seq<T>) {
    forall i, j :: 0 <= i < j < |s| ==> s[i] != s[j]
  }

  /** A strictly ordered sequence is determined by its set of elements. */
  lemma {:induction false} StrictlySortedUnique<T(!new)>(a: seq<T>, b: seq<T>, lt: (T, T) -> bool)
    requires SortedBy(a, lt) && SortedBy(b, lt)
    requires forall x, y :: lt(x, y) ==> !lt(y, x)
    requires forall x :: x in a <==> x in b
    ensures a == b
  {
    assert a != [] ==> a[0] in a && b != [];
    assert b != [] ==> b[0] in b && a != [];
    if a != [] {
      assert a[0] in b && b[0] in a;
      assert a[0] == b[0];
      forall x ensures x in a[1..] <==> x in b[1..] {
        assert x in a[1..] ==> x in a && x != a[0];
        assert x in b[1..] ==> x in b && x != b[0];
      }
      StrictlySortedUnique(a[1..], b[1..], lt);
      assert a == [a[0]] + a[1..] == b;
    }
  }

  lemma {:induction false} DistinctMultiset<T>(s: seq<T>)
    requires Distinct(s)
    ensures forall x :: multiset(s)[x] <= 1
  {
    if s != [] {
      DistinctMultiset(s[1..]);
      assert s == [s[0]] + s[1..];
    }
  }

  /** In a permutation of a strictly ordered sequence any two positions are ordered one way or the other. */
  lemma PermutationOfStrict<T(!new)>(s: seq<T>, sorted: seq<T>, lt: (T, T) -> bool, i: nat, j: nat)
    requires multiset(s) == multiset(sorted) && SortedBy(sorted, lt)
    requires forall x :: !lt(x, x)
    requires i < j < |s|
    ensures lt(s[i], s[j]) || lt(s[j], s[i])
  {
    assert s[i] in multiset(sorted) && s[j] in multiset(sorted);
    var p :| 0 <= p < |sorted| && sorted[p] == s[i];
    var q :| 0 <= q < |sorted| && sorted[q] == s[j];
    DistinctMultiset(sorted);
    RepeatCounts(s, i, j);
  }

  lemma RepeatCounts<T>(s: seq<T>, i: nat, j: nat)
    requires i < j < |s|
    ensures s[i] == s[j] ==> multiset(s)[s[i]] >= 2
  {
    assert s == s[..i] + [s[i]] + s[i + 1..j] + [s[j]] + s[j + 1..];
  }
}
