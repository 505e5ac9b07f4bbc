/** Two publishers may share a temporary name: the final path stays whole. With three it can tear. */
module DurablePairs {
  import opened Wrappers
  import opened Durable
  import opened DurableSteps
  import opened DurableSafety
  import opened DurableSharing

  // ---- the invariant for shared names -----------------------------------------------------------------

  predicate Active(phase: Phase) {
    phase == Writing || phase == Written || phase == Synced
  }

  /** A file fit for the final path: the old one, on disk, or one whose creator has renamed. */
  predicate FinalOk(s: State, ino: Inode) {
    ino in s.files &&
    match s.files[ino].owner
    case None => s.files[ino].synced && s.initial == Some(s.files[ino].content)
    case Some(i) => i in s.renames
  }

  predicate EntriesOk(s: State, d: Directory) {
    && (forall n :: n in d ==> d[n] in s.files)
    && (s.final in d ==> FinalOk(s, d[s.final]))
    && (s.final !in d ==> s.initial == None)
  }

  /** While a publisher is at work, its name leads to its own file; if the name is gone, whoever shares it
      has given up. */
  predicate NameOk(s: State, i: nat)
    requires s.past != [] && i < |s.pubs|
  {
    Active(s.pubs[i].phase) ==>
      if s.pubs[i].tmp in s.Live() then Holds(s, i, s.Live()[s.pubs[i].tmp])
      else forall j :: 0 <= j < |s.pubs| && Share(s, i, j) ==> s.pubs[j].phase == Failed
  }

  /** What a publisher's phase says of its file. */
  predicate FileOk(s: State, ino: Inode)
    requires ino in s.files && (s.files[ino].owner.Some? ==> s.files[ino].owner.value < |s.pubs|)
  {
    s.files[ino].owner.Some? ==>
      var i, file := s.files[ino].owner.value, s.files[ino];
      && (s.pubs[i].phase == Written || s.pubs[i].phase == Synced || i in s.renames ==>
        file.content == s.pubs[i].payload)
      && (s.pubs[i].phase == Synced || i in s.renames ==> file.synced)
  }

  predicate RenamersDone(s: State) {
    forall i :: i in s.renames ==> i < |s.pubs| && s.pubs[i].phase != Idle && !Active(s.pubs[i].phase)
  }

  predicate NamesOk(s: State) {
    TempsApart(s) && AtMostTwoShare(s)
  }

  predicate AllEntries(s: State) {
    forall k :: 0 <= k < |s.past| ==> EntriesOk(s, s.past[k])
  }

  predicate AllNames(s: State)
    requires s.past != []
  {
    forall i :: 0 <= i < |s.pubs| ==> NameOk(s, i)
  }

  predicate AllFiles(s: State)
    requires FilesOk(s)
  {
    forall ino :: ino in s.files ==> FileOk(s, ino)
  }

  predicate PairInv(s: State) {
    && s.past != [] && NamesOk(s) && FilesOk(s) && OneFileEach(s) && RenamersDone(s)
    && AllEntries(s) && AllNames(s) && AllFiles(s)
  }

  lemma InitPairInv(s: State)
    requires InitApart(s) && AtMostTwoShare(s)
    ensures PairInv(s)
  {
    hide AtMostTwoShare;
  }

  /** The final path of a state with the invariant is whole. */
  lemma PairWhole(s: State)
    requires PairInv(s)
    ensures Whole(s, s)
  {
    hide NamesOk, AllNames, RenamersDone, OneFileEach;
    assert EntriesOk(s, s.Live());
    if s.final in s.Live() {
      assert FileOk(s, s.Live()[s.final]);
    }
  }

  // ---- what carries over ------------------------------------------------------------------------------

  lemma NamesStay(s: State, t: State)
    requires NamesOk(s) && SamePlan(s, t)
    ensures NamesOk(t)
  {
    forall i, j | Share(t, i, j) ensures Share(s, i, j) {
    }
  }

  /** Files keep their creators, and the old one on disk stays as it is. */
  predicate FinalsStay(s: State, t: State) {
    && (forall ino :: ino in s.files ==>
          ino in t.files && t.files[ino].owner == s.files[ino].owner
          && (s.files[ino].owner.None? && s.files[ino].synced ==> t.files[ino] == s.files[ino]))
    && (forall i :: i in s.renames ==> i in t.renames)
  }

  lemma EntriesStay(s: State, t: State, d: Directory)
    requires EntriesOk(s, d) && SamePlan(s, t) && FinalsStay(s, t)
    ensures EntriesOk(t, d)
  {
  }

  lemma PastEntriesStay(s: State, t: State)
    requires AllEntries(s) && SamePlan(s, t) && FinalsStay(s, t)
    ensures forall k :: 0 <= k < |s.past| ==> EntriesOk(t, s.past[k])
  {
    hide EntriesOk, SamePlan, FinalsStay;
    forall k | 0 <= k < |s.past| ensures EntriesOk(t, s.past[k]) {
      assert EntriesOk(s, s.past[k]);
      EntriesStay(s, t, s.past[k]);
    }
  }

  /** The others' names, when publisher `i` changes only its own phase and its own name in the directory. */
  lemma OtherNameStays(s: State, t: State, i: nat, j: nat)
    requires s.past != [] && t.past != [] && i < |s.pubs| && j < |s.pubs| && SamePlan(s, t) && NameOk(s, j) && j != i
    requires forall k :: 0 <= k < |s.pubs| && k != i ==> t.pubs[k] == s.pubs[k]
    requires forall ino :: ino in s.files ==> ino in t.files && t.files[ino].owner == s.files[ino].owner
    requires s.pubs[j].tmp in t.Live() <==> s.pubs[j].tmp in s.Live()
    requires s.pubs[j].tmp in t.Live() ==> t.Live()[s.pubs[j].tmp] == s.Live()[s.pubs[j].tmp]
    requires Share(s, i, j) && Active(s.pubs[j].phase) && s.pubs[j].tmp !in s.Live() ==> t.pubs[i].phase == Failed
    ensures NameOk(t, j)
  {
    forall k | 0 <= k < |t.pubs| && Share(t, j, k) ensures Share(s, j, k) {
    }
  }

  lemma FilesOkStays(s: State, t: State, i: nat)
    requires FilesOk(s) && i < |s.pubs| && SamePlan(s, t) && t.next == s.next
    requires forall ino :: ino in t.files ==> ino in s.files && t.files[ino].owner == s.files[ino].owner
    requires forall k :: 0 <= k < |s.pubs| && k != i ==> t.pubs[k] == s.pubs[k]
    requires t.pubs[i].phase != Idle
    ensures FilesOk(t)
  {
  }

  lemma RenamersStay(s: State, t: State, i: nat)
    requires RenamersDone(s) && i < |s.pubs| && SamePlan(s, t)
    requires forall k :: 0 <= k < |s.pubs| && k != i ==> t.pubs[k] == s.pubs[k]
    requires t.renames == s.renames && (i in s.renames ==> t.pubs[i].phase != Idle && !Active(t.pubs[i].phase))
    ensures RenamersDone(t)
  {
  }

  // ---- steps ------------------------------------------------------------------------------------------

  /** The other publishers stay as they are. */
  predicate OthersStay(s: State, t: State, i: nat) {
    SamePlan(s, t) && i < |s.pubs| && forall k :: 0 <= k < |s.pubs| && k != i ==> t.pubs[k] == s.pubs[k]
  }

  /** Without a change of the current directory the others' names are as good as before. */
  lemma QuietNames(s: State, t: State, i: nat)
    requires s.past != [] && t.past != [] && AllNames(s) && OthersStay(s, t, i) && t.Live() == s.Live()
    requires forall ino :: ino in s.files ==> ino in t.files && t.files[ino].owner == s.files[ino].owner
    requires s.pubs[i].phase != Failed
    ensures forall j :: 0 <= j < |s.pubs| && j != i ==> NameOk(t, j)
  {
    forall j | 0 <= j < |s.pubs| && j != i ensures NameOk(t, j) {
      assert NameOk(s, j);
      if Share(s, i, j) {
        assert Share(s, j, i);
      }
      OtherNameStays(s, t, i, j);
    }
  }

  /** A step that only moves a publisher to another phase, and at most syncs the directory. */
  lemma QuietPair(s: State, t: State, i: nat)
    requires PairInv(s) && OthersStay(s, t, i) && t.files == s.files && t.next == s.next && t.renames == s.renames
    requires t.past == s.past || t.past == [s.Live()]
    requires s.pubs[i].phase != Failed && t.pubs[i].phase != Idle && t.pubs[i].phase != Synced
    requires Active(t.pubs[i].phase) ==> Active(s.pubs[i].phase) && i !in s.renames
    requires t.pubs[i].phase == Written ==> forall ino :: Holds(s, i, ino) ==> s.files[ino].content == s.pubs[i].payload
    ensures PairInv(t)
  {
    hide NamesOk, EntriesOk, FinalOk, FilesOk, OneFileEach, Share, RenamersDone;
    NamesStay(s, t);
    PastEntriesStay(s, t);
    FilesOkStays(s, t, i);
    RenamersOf(s);
    RenamersStay(s, t, i);
    OwnersStay(s, t);
    QuietNames(s, t, i);
    assert NameOk(s, i);
    QuietName(s, t, i);
    hide NameOk;
    forall ino | ino in t.files ensures FileOk(t, ino) {
      OwnersInRange(s, ino);
      assert FileOk(s, ino);
    }
  }

  lemma RenamersOf(s: State)
    requires RenamersDone(s)
    ensures forall i :: i in s.renames ==> i < |s.pubs| && s.pubs[i].phase != Idle && !Active(s.pubs[i].phase)
  {
  }

  lemma OwnersInRange(s: State, ino: Inode)
    requires FilesOk(s) && ino in s.files
    ensures s.files[ino].owner.Some? ==> s.files[ino].owner.value < |s.pubs|
  {
  }

  lemma QuietName(s: State, t: State, i: nat)
    requires s.past != [] && t.past != [] && OthersStay(s, t, i) && t.Live() == s.Live()
    requires forall ino :: ino in s.files ==> ino in t.files && t.files[ino].owner == s.files[ino].owner
    requires NameOk(s, i) && (Active(t.pubs[i].phase) ==> Active(s.pubs[i].phase))
    ensures NameOk(t, i)
  {
    forall k | 0 <= k < |t.pubs| && Share(t, i, k) ensures Share(s, i, k) {
    }
  }

  // ---- create -----------------------------------------------------------------------------------------

  lemma EntriesWithName(t: State, d: Directory, name: Name, ino: Inode)
    requires EntriesOk(t, d) && name != t.final && ino in t.files
    ensures EntriesOk(t, d[name := ino])
  {
    hide FinalOk;
  }

  lemma EntriesWithout(t: State, d: Directory, name: Name)
    requires EntriesOk(t, d) && name != t.final
    ensures EntriesOk(t, d - {name})
  {
    hide FinalOk;
  }

  lemma NotThree(s: State, i: nat, j: nat, k: nat)
    requires AtMostTwoShare(s) && Share(s, i, j) && Share(s, j, k)
    ensures k == i
  {
  }

  /** A free name has no sharer at work. */
  lemma FreeNameIdle(s: State, i: nat, j: nat)
    requires s.past != [] && AllNames(s) && In(s, i, Idle) && s.pubs[i].tmp !in s.Live() && Share(s, i, j)
    ensures !Active(s.pubs[j].phase)
  {
    assert NameOk(s, j) && Share(s, j, i);
  }

  lemma CreateFilesOk(s: State, i: nat)
    requires FilesOk(s) && Enabled(s, Create(i))
    ensures FilesOk(Apply(s, Create(i)))
    ensures s.next !in s.files && forall ino :: ino in s.files ==> s.files[ino].owner != Some(i)
  {
  }

  lemma CreatePair(s: State, i: nat)
    requires PairInv(s) && Enabled(s, Create(i))
    ensures PairInv(Apply(s, Create(i)))
  {
    hide NamesOk, EntriesOk, FinalOk, FilesOk, OneFileEach, Share, RenamersDone, NameOk;
    var t := Apply(s, Create(i));
    CreateFilesOk(s, i);
    NamesStay(s, t);
    PastEntriesStay(s, t);
    TempNotFinal(s, i);
    EntriesWithName(t, s.Live(), s.pubs[i].tmp, s.next);
    CreateOneFile(s, i);
    RenamersOf(s);
    RenamersStay(s, t, i);
    CreateNames(s, i);
    forall ino | ino in t.files ensures FileOk(t, ino) {
      if ino != s.next {
        OwnersInRange(s, ino);
        assert FileOk(s, ino);
      }
    }
  }

  lemma TempNotFinal(s: State, i: nat)
    requires NamesOk(s) && i < |s.pubs|
    ensures s.pubs[i].tmp != s.final
  {
  }

  lemma CreateNames(s: State, i: nat)
    requires PairInv(s) && Enabled(s, Create(i))
    ensures AllNames(Apply(s, Create(i)))
  {
    hide NamesOk, EntriesOk, OneFileEach, RenamersDone;
    var t := Apply(s, Create(i));
    CreateFilesOk(s, i);
    hide FilesOk;
    forall j | 0 <= j < |t.pubs| ensures NameOk(t, j) {
      if j != i {
        if Share(s, i, j) {
          FreeNameIdle(s, i, j);
        } else {
          assert NameOk(s, j);
          OtherNameStays(s, t, i, j);
        }
      }
    }
  }

  // ---- write and sync ---------------------------------------------------------------------------------

  lemma WritePair(s: State, i: nat, file: Inode, n: nat)
    requires PairInv(s) && Enabled(s, Write(i, file, n))
    ensures PairInv(Apply(s, Write(i, file, n)))
  {
    hide NamesOk, EntriesOk, FinalOk, FilesOk, OneFileEach, Share, RenamersDone;
    var t := Apply(s, Write(i, file, n));
    NamesStay(s, t);
    PastEntriesStay(s, t);
    FilesOkStays(s, t, i);
    RenamersOf(s);
    RenamersStay(s, t, i);
    OwnersStay(s, t);
    QuietNames(s, t, i);
    assert NameOk(s, i);
    QuietName(s, t, i);
    hide NameOk;
    forall ino | ino in t.files ensures FileOk(t, ino) {
      OwnersInRange(s, ino);
      assert FileOk(s, ino);
    }
  }

  lemma OnlyFile(s: State, i: nat, a: Inode, b: Inode)
    requires OneFileEach(s) && Holds(s, i, a) && Holds(s, i, b)
    ensures a == b
  {
  }

  lemma SyncPair(s: State, i: nat)
    requires PairInv(s) && Enabled(s, Sync(i))
    ensures PairInv(Apply(s, Sync(i)))
  {
    hide NamesOk, EntriesOk, FinalOk, FilesOk, OneFileEach, Share, RenamersDone;
    var t, file := Apply(s, Sync(i)), TempInode(s, i);
    assert NameOk(s, i);
    assert Holds(s, i, file);
    NamesStay(s, t);
    PastEntriesStay(s, t);
    FilesOkStays(s, t, i);
    RenamersOf(s);
    RenamersStay(s, t, i);
    OwnersStay(s, t);
    QuietNames(s, t, i);
    QuietName(s, t, i);
    hide NameOk;
    forall ino | ino in t.files ensures FileOk(t, ino) {
      OwnersInRange(s, ino);
      assert FileOk(s, ino);
      if Holds(s, i, ino) {
        OnlyFile(s, i, ino, file);
      }
    }
  }

  // ---- rename and remove ------------------------------------------------------------------------------

  /** Of two publishers that share a name, only one is at work while the name is there. */
  lemma OneAtWork(s: State, i: nat, j: nat)
    requires s.past != [] && Share(s, i, j) && NameOk(s, i) && NameOk(s, j) && s.pubs[i].tmp in s.Live()
    requires Active(s.pubs[i].phase)
    ensures !Active(s.pubs[j].phase)
  {
  }

  lemma RenameEntries(s: State, t: State, i: nat)
    requires HasTemp(s, i) && EntriesOk(t, s.Live()) && s.pubs[i].tmp != s.final
    requires t.final == s.final && t.files == s.files && Holds(s, i, TempInode(s, i)) && i in t.renames
    ensures EntriesOk(t, (s.Live() - {s.pubs[i].tmp})[s.final := TempInode(s, i)])
  {
  }

  lemma RenamePair(s: State, i: nat)
    requires PairInv(s) && Enabled(s, Rename(i))
    ensures PairInv(Apply(s, Rename(i)))
  {
    hide NamesOk, EntriesOk, FinalOk, FilesOk, OneFileEach, Share, RenamersDone;
    var t, file := Apply(s, Rename(i)), TempInode(s, i);
    assert NameOk(s, i);
    assert Holds(s, i, file);
    NamesStay(s, t);
    PastEntriesStay(s, t);
    TempNotFinal(s, i);
    EntriesStay(s, t, s.Live());
    RenameEntries(s, t, i);
    FilesOkStays(s, t, i);
    OwnersStay(s, t);
    RenamersOf(s);
    RenamerJoins(s, t, i);
    RenameNames(s, i);
    hide NameOk;
    forall ino | ino in t.files ensures FileOk(t, ino) {
      OwnersInRange(s, ino);
      assert FileOk(s, ino);
      if Holds(s, i, ino) {
        OnlyFile(s, i, ino, file);
      }
    }
  }

  lemma RenamerJoins(s: State, t: State, i: nat)
    requires RenamersDone(s) && OthersStay(s, t, i) && t.renames == s.renames + [i] && t.pubs[i].phase == Renamed
    ensures RenamersDone(t)
  {
  }

  lemma RenameNames(s: State, i: nat)
    requires PairInv(s) && Enabled(s, Rename(i))
    ensures AllNames(Apply(s, Rename(i)))
  {
    hide EntriesOk, OneFileEach, RenamersDone, FilesOk, AtMostTwoShare;
    var t := Apply(s, Rename(i));
    assert NameOk(s, i);
    forall j | 0 <= j < |t.pubs| ensures NameOk(t, j) {
      if j != i {
        assert NameOk(s, j);
        if Share(s, i, j) {
          OneAtWork(s, i, j);
        } else {
          OtherNameStays(s, t, i, j);
        }
      }
    }
  }

  lemma RemovePair(s: State, i: nat)
    requires PairInv(s) && Enabled(s, Remove(i))
    ensures PairInv(Apply(s, Remove(i)))
  {
    hide NamesOk, EntriesOk, FinalOk, FilesOk, OneFileEach, Share, RenamersDone, NameOk;
    var t := Apply(s, Remove(i));
    NamesStay(s, t);
    PastEntriesStay(s, t);
    TempNotFinal(s, i);
    EntriesStay(s, t, s.Live());
    EntriesWithout(t, s.Live(), s.pubs[i].tmp);
    FilesOkStays(s, t, i);
    OwnersStay(s, t);
    RenamersOf(s);
    RenamersStay(s, t, i);
    RemoveNames(s, i);
    forall ino | ino in t.files ensures FileOk(t, ino) {
      OwnersInRange(s, ino);
      assert FileOk(s, ino);
    }
  }

  lemma RemoveNames(s: State, i: nat)
    requires PairInv(s) && Enabled(s, Remove(i))
    ensures AllNames(Apply(s, Remove(i)))
  {
    hide EntriesOk, OneFileEach, RenamersDone, FilesOk, AtMostTwoShare;
    var t := Apply(s, Remove(i));
    forall j | 0 <= j < |t.pubs| ensures NameOk(t, j) {
      if j != i {
        assert NameOk(s, j);
        if Share(s, i, j) {
          forall k | 0 <= k < |t.pubs| && Share(t, j, k) ensures t.pubs[k].phase == Failed {
            NotThree(s, i, j, k);
          }
        } else {
          OtherNameStays(s, t, i, j);
        }
      }
    }
  }

  // ---- crash ------------------------------------------------------------------------------------------

  lemma CrashEntries(s: State, t: State, d: Directory)
    requires AllEntries(s) && Recoverable(s.past, d) && SamePlan(s, t) && FinalsStay(s, t)
    ensures EntriesOk(t, d)
  {
    PastEntriesStay(s, t);
    hide Recoverable, FinalOk, FinalsStay;
    var k := ComesFrom(s.past, d, s.final);
    assert EntriesOk(t, s.past[k]);
    forall n | n in d ensures d[n] in t.files {
      var j := ComesFrom(s.past, d, n);
      assert EntriesOk(t, s.past[j]);
    }
  }

  lemma CrashPair(s: State, recovered: Directory, garbage: Inode -> seq<byte>)
    requires PairInv(s) && Enabled(s, Crash(recovered, garbage))
    ensures PairInv(Apply(s, Crash(recovered, garbage)))
  {
    hide NamesOk, EntriesOk, FinalOk, OneFileEach, Share, Recoverable;
    var t := Apply(s, Crash(recovered, garbage));
    NamesStay(s, t);
    CrashEntries(s, t, recovered);
    OwnersStay(s, t);
    forall ino | ino in t.files ensures FileOk(t, ino) {
      assert FileOk(s, ino);
    }
  }

  // ---- all runs ---------------------------------------------------------------------------------------

  lemma WriteDonePair(s: State, i: nat, file: Inode)
    requires PairInv(s) && Enabled(s, WriteDone(i, file))
    ensures PairInv(Apply(s, WriteDone(i, file)))
  {
    RenamersOf(s);
    hide NamesOk, AllEntries, AllNames, AllFiles, FilesOk, RenamersDone, OneFileEach;
    forall ino | Holds(s, i, ino) ensures s.files[ino].content == s.pubs[i].payload {
      OnlyFile(s, i, ino, file);
    }
    QuietPair(s, Apply(s, WriteDone(i, file)), i);
  }

  lemma OtherPair(s: State, e: Event)
    requires PairInv(s) && Enabled(s, e)
    requires !e.Create? && !e.Write? && !e.WriteDone? && !e.Sync? && !e.Rename? && !e.Remove? && !e.Crash?
    ensures PairInv(Apply(s, e))
  {
    hide PairInv;
    PairPast(s);
    QuietPair(s, Apply(s, e), e.i);
  }

  lemma PairPast(s: State)
    requires PairInv(s)
    ensures s.past != []
  {
  }

  lemma StepPair(s: State, e: Event)
    requires PairInv(s) && Enabled(s, e)
    ensures PairInv(Apply(s, e))
  {
    hide PairInv, Apply, Enabled;
    match e {
      case Create(i) => CreatePair(s, i);
      case Write(i, file, n) => WritePair(s, i, file, n);
      case WriteDone(i, file) => WriteDonePair(s, i, file);
      case Sync(i) => SyncPair(s, i);
      case Rename(i) => RenamePair(s, i);
      case Remove(i) => RemovePair(s, i);
      case Crash(recovered, garbage) => CrashPair(s, recovered, garbage);
      case _ => OtherPair(s, e);
    }
  }

  lemma {:induction false} RunPair(s: State, events: seq<Event>, t: State)
    requires PairInv(s) && Runs(s, events, t)
    ensures PairInv(t) && SamePlan(s, t)
    decreases |events|
  {
    if events != [] {
      StepPair(s, events[0]);
      StepPlan(s, events[0]);
      hide PairInv, Apply, Enabled;
      RunPair(Apply(s, events[0]), events[1..], t);
    }
  }

  /** No run leaves a torn file at the final path exactly when no three publishers share a temporary name. */
  lemma SharingTearsExactly(s: State)
    requires InitApart(s)
    ensures NeverTorn(s) <==> AtMostTwoShare(s)
  {
    if AtMostTwoShare(s) {
      InitPairInv(s);
      hide PairInv, InitApart, FinalContent;
      forall events: seq<Event>, t: State | Runs(s, events, t) ensures Whole(s, t) {
        RunPair(s, events, t);
        PairWhole(t);
      }
    } else {
      var i, j, k :| 0 <= i < |s.pubs| && 0 <= j < |s.pubs| && 0 <= k < |s.pubs| &&
                     Share(s, i, j) && Share(s, j, k) && i != k;
      hide Runs, Whole, InitApart;
      var events, t := SharedNamesTear(s, i, j, k);
    }
  }
}
