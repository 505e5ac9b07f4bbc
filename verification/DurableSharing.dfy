/** Shared temporary names: exactly when cleanup can hit another publisher's file, and exactly when a torn
    file can reach the final path. */
module DurableSharing {
  import opened Wrappers
  import opened Durable
  import opened DurableSteps
  import opened DurableSafety

  /** Before any publisher starts, whatever names they use; only the final name is not one of them. */
  predicate InitApart(s: State) {
    && TempsApart(s) && |s.past| == 1 && s.renames == []
    && (forall ino :: ino in s.files ==> ino < s.next && s.files[ino].owner == None && s.files[ino].synced)
    && (forall n :: n in s.past[0] ==> s.past[0][n] in s.files)
    && (forall i :: 0 <= i < |s.pubs| ==> s.pubs[i].phase == Idle && s.pubs[i].tmp !in s.past[0])
    && s.initial == FinalContent(s)
  }

  predicate TempsApart(s: State) {
    forall i :: 0 <= i < |s.pubs| ==> s.pubs[i].tmp != s.final
  }

  predicate Share(s: State, i: nat, j: nat) {
    i < |s.pubs| && j < |s.pubs| && i != j && s.pubs[i].tmp == s.pubs[j].tmp
  }

  predicate AtMostTwoShare(s: State) {
    forall i, j, k :: 0 <= i < |s.pubs| && 0 <= j < |s.pubs| && 0 <= k < |s.pubs| ==>
      !(Share(s, i, j) && Share(s, j, k) && i != k)
  }

  // ---- cleanup ----------------------------------------------------------------------------------------

  /** No run leads to a cleanup that would remove a file of another publisher. */
  ghost predicate OnlyOwnRemoved(s: State) {
    forall events: seq<Event>, t: State, j: nat ::
      Runs(s, events, t) && Enabled(t, Remove(j)) && HasTemp(t, j) ==> Holds(t, j, TempInode(t, j))
  }

  /** Cleanup never removes another publisher's file exactly when no two publishers share a name. */
  lemma CleanupIsSafeExactly(s: State)
    requires InitApart(s)
    ensures OnlyOwnRemoved(s) <==> NamesDistinct(s)
  {
    if NamesDistinct(s) {
      forall events: seq<Event>, t: State, j: nat | Runs(s, events, t) && Enabled(t, Remove(j)) && HasTemp(t, j)
        ensures Holds(t, j, TempInode(t, j))
      {
        InitInv(s);
        RunInv(s, events, t);
        TempIsOwn(t, j);
      }
    } else {
      var i, j :| 0 <= i < j < |s.pubs| && s.pubs[i].tmp == s.pubs[j].tmp;
      var t := Collision(s, i, j);
      assert !OnlyOwnRemoved(s);
    }
  }

  lemma Collision(s: State, i: nat, j: nat) returns (t: State)
    requires InitApart(s) && Share(s, i, j)
    ensures Runs(s, [Create(i), CreateFails(j)], t)
    ensures Enabled(t, Remove(j)) && HasTemp(t, j) && !Holds(t, j, TempInode(t, j))
  {
    var a := Apply(s, Create(i));
    t := Apply(a, CreateFails(j));
    RunsOne(a, CreateFails(j), t);
    RunsMore(s, Create(i), [CreateFails(j)], t);
  }

  // ---- three sharers tear -----------------------------------------------------------------------------

  /** The final path holds the initial content or one publisher's whole payload. */
  predicate Whole(s: State, t: State) {
    t.past != [] &&
    (FinalContent(t) == s.initial || exists i :: 0 <= i < |s.pubs| && FinalContent(t) == Some(s.pubs[i].payload))
  }

  ghost predicate NeverTorn(s: State) {
    forall events: seq<Event>, t: State :: Runs(s, events, t) ==> Whole(s, t)
  }

  /** More bytes than any payload has. */
  function MoreThan(pubs: seq<Publisher>): (n: nat)
    ensures forall i :: 0 <= i < |pubs| ==> |pubs[i].payload| < n
  {
    if pubs == [] then 0
    else
      var n, last := MoreThan(pubs[..|pubs| - 1]), |pubs[|pubs| - 1].payload|;
      if last < n then n else last + 1
  }

  /** A content that is neither the initial one nor anyone's payload. */
  lemma Strange(s: State) returns (g: seq<byte>)
    ensures s.initial != Some(g) && forall i :: 0 <= i < |s.pubs| ==> s.pubs[i].payload != g
  {
    var n := MoreThan(s.pubs) + (if s.initial.Some? then |s.initial.value| + 1 else 0);
    g := seq(n, _ => 0);
  }

  /** The first sharer has written its file. */
  predicate FirstWritten(s: State, a: State, i: nat, j: nat, k: nat) {
    && SamePlan(s, a) && a.past != [] && In(a, i, Written) && In(a, j, Idle) && In(a, k, Idle) && HasTemp(a, i)
    && forall ino :: ino in a.files ==> ino < a.next
  }

  lemma FirstWrites(s: State, i: nat, j: nat, k: nat) returns (events: seq<Event>, a: State)
    requires InitApart(s) && Share(s, i, j) && Share(s, j, k) && i != k
    ensures Runs(s, events, a) && FirstWritten(s, a, i, j, k)
  {
    var file, payload := s.next, s.pubs[i].payload;
    var b := Apply(s, Create(i));
    var c := Apply(b, Write(i, file, |payload|));
    assert payload[..|payload|] == payload;
    a := Apply(c, WriteDone(i, file));
    events := [Create(i)] + ([Write(i, file, |payload|)] + [WriteDone(i, file)]);
    RunsOne(c, WriteDone(i, file), a);
    RunsMore(b, Write(i, file, |payload|), [WriteDone(i, file)], a);
    RunsMore(s, Create(i), [Write(i, file, |payload|)] + [WriteDone(i, file)], a);
  }

  /** The name of the first sharer leads to the third one's open, empty file. */
  predicate NameTaken(s: State, b: State, i: nat, k: nat) {
    && SamePlan(s, b) && b.past != [] && In(b, i, Written) && In(b, k, Writing) && i != k
    && HasTemp(b, i) && Holds(b, k, TempInode(b, i))
  }

  /** The second sharer cleans up, and the third one takes the free name. */
  lemma NameChangesHands(s: State, a: State, i: nat, j: nat, k: nat) returns (events: seq<Event>, b: State)
    requires FirstWritten(s, a, i, j, k) && Share(s, i, j) && Share(s, j, k) && i != k
    ensures Runs(a, events, b) && NameTaken(s, b, i, k)
  {
    var c := Apply(a, CreateFails(j));
    var d := Apply(c, Remove(j));
    assert d.pubs[k].tmp !in d.Live();
    b := Apply(d, Create(k));
    events := [CreateFails(j)] + ([Remove(j)] + [Create(k)]);
    RunsOne(d, Create(k), b);
    RunsMore(c, Remove(j), [Create(k)], b);
    RunsMore(a, CreateFails(j), [Remove(j)] + [Create(k)], b);
  }

  /** The third sharer's unsynced file is at the final path. */
  predicate UnsyncedAtFinal(s: State, c: State) {
    SamePlan(s, c) && c.past != [] && c.final in c.Live() && c.Live()[c.final] in c.files
      && !c.files[c.Live()[c.final]].synced
  }

  /** The first sharer syncs and renames by name, with a write of the third one in between. */
  lemma RenamesWrongFile(s: State, b: State, i: nat, k: nat) returns (events: seq<Event>, c: State)
    requires NameTaken(s, b, i, k) && TempsApart(s)
    ensures Runs(b, events, c) && UnsyncedAtFinal(s, c)
  {
    var file := TempInode(b, i);
    var d := Apply(b, Sync(i));
    var e := Apply(d, Write(k, file, 0));
    c := Apply(e, Rename(i));
    events := [Sync(i)] + ([Write(k, file, 0)] + [Rename(i)]);
    RunsOne(e, Rename(i), c);
    RunsMore(d, Write(k, file, 0), [Rename(i)], c);
    RunsMore(b, Sync(i), [Write(k, file, 0)] + [Rename(i)], c);
  }

  /** A crash then leaves anything there. */
  lemma CrashTears(s: State, c: State, g: seq<byte>) returns (e: Event, t: State)
    requires UnsyncedAtFinal(s, c)
    ensures Runs(c, [e], t) && t.past != [] && FinalContent(t) == Some(g)
  {
    e := Crash(c.Live(), _ => g);
    var last := |c.past| - 1;
    assert c.past[last] == c.Live();
    assert Recoverable(c.past, c.Live());
    t := Apply(c, e);
    RunsOne(c, e, t);
  }

  /** Three publishers that share a temporary name can leave a torn file at the final path, whatever they write. */
  lemma SharedNamesTear(s: State, i: nat, j: nat, k: nat) returns (events: seq<Event>, t: State)
    requires InitApart(s) && Share(s, i, j) && Share(s, j, k) && i != k
    ensures Runs(s, events, t) && !Whole(s, t)
  {
    hide Runs, FirstWritten, NameTaken, UnsyncedAtFinal, FinalContent, InitApart;
    var g := Strange(s);
    var first, a := FirstWrites(s, i, j, k);
    var second, b := NameChangesHands(s, a, i, j, k);
    TempsApartOf(s);
    var third, c := RenamesWrongFile(s, b, i, k);
    var crash, d := CrashTears(s, c, g);
    RunsAppend(b, third, c, [crash], d);
    RunsAppend(a, second, b, third + [crash], d);
    RunsAppend(s, first, a, second + (third + [crash]), d);
    events, t := first + (second + (third + [crash])), d;
  }

  lemma TempsApartOf(s: State)
    requires InitApart(s)
    ensures TempsApart(s)
  {
  }
}
