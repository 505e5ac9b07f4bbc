/** What the durable-replace protocol guarantees over whole runs, and what it needs for that. */
module DurableSafety {
  import opened Wrappers
  import opened Ordered
  import opened Durable
  import opened DurableSteps

  // ---- whole runs ---------------------------------------------------------------------------------

  lemma StepPlan(s: State, e: Event)
    requires Enabled(s, e)
    ensures SamePlan(s, Apply(s, e))
  {
  }

  lemma {:induction false} RunInv(s: State, events: seq<Event>, t: State)
    requires Inv(s) && Runs(s, events, t)
    ensures Inv(t) && SamePlan(s, t)
    decreases |events|
  {
    if events != [] {
      StepInv(s, events[0]);
      StepPlan(s, events[0]);
      hide Inv, Apply, Enabled;
      RunInv(Apply(s, events[0]), events[1..], t);
    }
  }

  /** The final path holds the initial content or the whole payload of a publisher that renamed. */
  lemma FinalIsComplete(s: State)
    requires Inv(s)
    ensures FinalContent(s) == s.initial ||
      exists i :: 0 <= i < |s.pubs| && i in s.renames && FinalContent(s) == Some(s.pubs[i].payload)
  {
    assert DirectoryOk(s, s.Live());
  }

  /** Atomicity: after any interleaving of publishers, failures and crashes, the final path holds the
      initial content or one publisher's whole payload. */
  lemma PublishIsAtomic(s: State, events: seq<Event>, t: State)
    requires Init(s) && Runs(s, events, t)
    ensures t.past != []
    ensures FinalContent(t) == s.initial || exists i :: 0 <= i < |s.pubs| && FinalContent(t) == Some(s.pubs[i].payload)
  {
    InitInv(s);
    RunInv(s, events, t);
    FinalIsComplete(t);
    hide Inv, Runs, Init, FinalContent;
  }

  /** Without a rename nothing reaches the final path, whatever else fails or crashes. */
  lemma NoRenameNoChange(s: State, events: seq<Event>, t: State)
    requires Init(s) && Runs(s, events, t) && forall k :: 0 <= k < |events| ==> !events[k].Rename?
    ensures t.past != [] && FinalContent(t) == s.initial
  {
    InitInv(s);
    RunInv(s, events, t);
    RenamesOnlyByRename(s, events, t);
    FinalIsComplete(t);
    hide Inv, Runs, Init, FinalContent;
  }

  lemma {:induction false} RenamesOnlyByRename(s: State, events: seq<Event>, t: State)
    requires Runs(s, events, t) && forall k :: 0 <= k < |events| ==> !events[k].Rename?
    ensures t.renames == s.renames
    decreases |events|
  {
    if events != [] {
      var u := Apply(s, events[0]);
      assert !events[0].Rename?;
      assert u.renames == s.renames;
      hide Apply, Enabled;
      RenamesOnlyByRename(u, events[1..], t);
    }
  }

  /** Rewriting a publisher's own temporary file, not yet renamed, does not touch the file at the final path. */
  lemma TouchKeepsFinal(s: State, t: State, i: nat, file: File)
    requires Inv(s) && HasTemp(s, i) && i !in s.renames && t.final == s.final && t.past == s.past
    requires t.files == s.files[TempInode(s, i) := file]
    ensures FinalContent(t) == FinalContent(s)
  {
    TempIsOwn(s, i);
    assert DirectoryOk(s, s.Live());
    hide Complete, Rank, ProgressOk, RanksOk;
  }

  /** Directory changes under a temporary name do not touch the final name. */
  lemma DirectoryKeepsFinal(s: State, t: State)
    requires s.past != [] && t.past != [] && t.final == s.final
    requires s.final in t.Live() <==> s.final in s.Live()
    requires s.final in s.Live() ==> t.Live()[s.final] == s.Live()[s.final]
    requires s.final in s.Live() ==> s.Live()[s.final] in s.files && s.Live()[s.final] in t.files
    requires s.final in s.Live() ==> t.files[s.Live()[s.final]] == s.files[s.Live()[s.final]]
    ensures FinalContent(t) == FinalContent(s)
  {
  }

  lemma WriteKeepsFinal(s: State, i: nat, file: Inode, n: nat)
    requires Inv(s) && Enabled(s, Write(i, file, n))
    ensures FinalContent(Apply(s, Write(i, file, n))) == FinalContent(s)
  {
    assert ProgressOk(s, i);
    hide Complete, Rank, ProgressOk, RanksOk, DirectoryOk, FinalContent, FilesOk, OneFileEach, RenamesOk, NamesDistinct;
    HoldsTemp(s, i, file);
    var t := Apply(s, Write(i, file, n));
    TouchKeepsFinal(s, t, i, t.files[file]);
  }

  lemma SyncKeepsFinal(s: State, i: nat)
    requires Inv(s) && Enabled(s, Sync(i))
    ensures FinalContent(Apply(s, Sync(i))) == FinalContent(s)
  {
    assert ProgressOk(s, i);
    hide Complete, Rank, ProgressOk, RanksOk, DirectoryOk, FinalContent, FilesOk, OneFileEach, RenamesOk, NamesDistinct;
    var t := Apply(s, Sync(i));
    TouchKeepsFinal(s, t, i, t.files[TempInode(s, i)]);
  }

  lemma CreateKeepsFinal(s: State, i: nat)
    requires Inv(s) && Enabled(s, Create(i))
    ensures FinalContent(Apply(s, Create(i))) == FinalContent(s)
  {
    assert DirectoryOk(s, s.Live());
    hide Complete, Rank, ProgressOk, RanksOk, OneFileEach, FinalContent, RenamesOk, DirectoryOk;
    DirectoryKeepsFinal(s, Apply(s, Create(i)));
  }

  lemma RemoveKeepsFinal(s: State, i: nat)
    requires Inv(s) && Enabled(s, Remove(i))
    ensures FinalContent(Apply(s, Remove(i))) == FinalContent(s)
  {
    assert DirectoryOk(s, s.Live());
    hide Complete, Rank, ProgressOk, RanksOk, OneFileEach, FinalContent, RenamesOk, DirectoryOk;
    DirectoryKeepsFinal(s, Apply(s, Remove(i)));
  }

  /** Steps that touch neither files nor the current directory. */
  lemma QuietStepKeepsFinal(s: State, e: Event)
    requires Enabled(s, e)
    requires !e.Rename? && !e.Crash? && !e.Write? && !e.Sync? && !e.Create? && !e.Remove?
    ensures FinalContent(Apply(s, e)) == FinalContent(s)
  {
  }

  /** A publisher's own steps leave the final path alone; only a rename or a crash moves it. */
  lemma OnlyRenameMovesFinal(s: State, e: Event)
    requires Inv(s) && Enabled(s, e) && !e.Rename? && !e.Crash?
    ensures FinalContent(Apply(s, e)) == FinalContent(s)
  {
    hide Inv, Apply, Enabled, FinalContent;
    match e {
      case Write(i, file, n) => WriteKeepsFinal(s, i, file, n);
      case Sync(i) => SyncKeepsFinal(s, i);
      case Create(i) => CreateKeepsFinal(s, i);
      case Remove(i) => RemoveKeepsFinal(s, i);
      case _ => QuietStepKeepsFinal(s, e);
    }
  }

  /** A publisher that has returned stays where it is. */
  lemma PublishedStays(s: State, e: Event, i: nat)
    requires Enabled(s, e) && In(s, i, Published)
    ensures In(Apply(s, e), i, Published)
  {
  }

  lemma {:induction false} PublishedForever(s: State, events: seq<Event>, t: State, i: nat)
    requires Runs(s, events, t) && In(s, i, Published)
    ensures In(t, i, Published)
    decreases |events|
  {
    if events != [] {
      PublishedStays(s, events[0], i);
      hide Apply, Enabled;
      PublishedForever(Apply(s, events[0]), events[1..], t, i);
    }
  }

  /** Durability: once a publisher has returned success, every later state, crashes included, has at the
      final path its payload or that of a publisher that renamed after it. */
  lemma OkMeansDurable(s: State, events: seq<Event>, t: State, i: nat) returns (j: nat)
    requires Inv(s) && In(s, i, Published) && Runs(s, events, t)
    ensures t.past != [] && i in t.renames && j in t.renames && j < |s.pubs|
    ensures Position(t.renames, j) >= Position(t.renames, i)
    ensures FinalContent(t) == Some(s.pubs[j].payload)
  {
    hide Runs;
    RunInv(s, events, t);
    PublishedForever(s, events, t, i);
    j := PublishedInv(t, i);
  }

  /** In every state: the final file of a state with a published rename is that rename's or a later one's. */
  lemma PublishedInv(t: State, i: nat) returns (j: nat)
    requires Inv(t) && In(t, i, Published)
    ensures i in t.renames && j in t.renames && j < |t.pubs|
    ensures Position(t.renames, j) >= Position(t.renames, i)
    ensures FinalContent(t) == Some(t.pubs[j].payload)
  {
    assert ProgressOk(t, i);
    assert Rank(t, t.past[|t.past| - 1]) >= Position(t.renames, i) + 1;
    assert DirectoryOk(t, t.Live());
    hide NamesDistinct, FilesOk, RanksOk, ProgressOk, DirectoryOk, Position;
    j := t.files[t.Live()[t.final]].owner.value;
  }

  /** Cleanup removes nothing but the publisher's own temporary file. */
  lemma CleanupRemovesOwn(s: State, i: nat, n: Name)
    requires Inv(s) && Enabled(s, Remove(i)) && n in s.Live() && n !in Apply(s, Remove(i)).Live()
    ensures n == s.pubs[i].tmp && s.Live()[n] in s.files && s.files[s.Live()[n]].owner == Some(i)
  {
    assert DirectoryOk(s, s.Live());
  }

  // ---- what distinct names are for ------------------------------------------------------------------

  /** Whoever finds its temporary name taken cleans up the file behind it: the publisher that created the
      file goes on without its name. */
  lemma CollisionRemovesOthersFile(s: State, i: nat, j: nat) returns (t: State)
    requires s.past != [] && i != j && In(s, i, Idle) && In(s, j, Idle)
    requires s.pubs[i].tmp == s.pubs[j].tmp && s.pubs[i].tmp !in s.Live()
    ensures Runs(s, [Create(i), CreateFails(j), Remove(j)], t)
    ensures In(t, i, Writing) && !HasTemp(t, i)
  {
    var a := Apply(s, Create(i));
    var b := Apply(a, CreateFails(j));
    t := Apply(b, Remove(j));
    RunsOne(b, Remove(j), t);
    RunsMore(a, CreateFails(j), [Remove(j)], t);
    RunsMore(s, Create(i), [CreateFails(j), Remove(j)], t);
  }

  lemma RunsOne(s: State, e: Event, t: State)
    requires Enabled(s, e) && t == Apply(s, e)
    ensures Runs(s, [e], t)
  {
    assert [e][1..] == [];
  }

  lemma RunsMore(s: State, e: Event, events: seq<Event>, t: State)
    requires Enabled(s, e) && Runs(Apply(s, e), events, t)
    ensures Runs(s, [e] + events, t)
  {
    assert ([e] + events)[1..] == events;
  }

  lemma RunsFirst(s: State, events: seq<Event>, t: State)
    requires Runs(s, events, t) && events != []
    ensures Enabled(s, events[0]) && Runs(Apply(s, events[0]), events[1..], t)
  {
  }

  lemma RunsNone(s: State, t: State)
    requires Runs(s, [], t)
    ensures s == t
  {
  }

  lemma {:induction false} RunsAppend(s: State, first: seq<Event>, t: State, second: seq<Event>, u: State)
    requires Runs(s, first, t) && Runs(t, second, u)
    ensures Runs(s, first + second, u)
    decreases |first|
  {
    hide Apply, Enabled, Runs;
    if first == [] {
      RunsNone(s, t);
      assert first + second == second;
    } else {
      RunsFirst(s, first, t);
      RunsAppend(Apply(s, first[0]), first[1..], t, second, u);
      RunsMore(s, first[0], first[1..] + second, u);
      assert [first[0]] + (first[1..] + second) == first + second;
    }
  }
}
