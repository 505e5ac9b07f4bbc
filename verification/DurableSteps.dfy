/** Every step of the durable-replace protocol, by any publisher, and every crash keeps the invariant. */
module DurableSteps {
  import opened Wrappers
  import opened Ordered
  import opened Durable

  // ---- every step keeps the invariant ---------------------------------------------------------------

  /** A directory state keeps its standing while the files it names keep their owner and content, and
      publishers and renames stay. */
  predicate SamePlan(s: State, t: State) {
    && t.final == s.final && t.initial == s.initial && |t.pubs| == |s.pubs|
    && forall i :: 0 <= i < |s.pubs| ==> t.pubs[i].tmp == s.pubs[i].tmp && t.pubs[i].payload == s.pubs[i].payload
  }

  /** Files stay, and the complete ones stay as they are. */
  predicate FilesStay(s: State, t: State) {
    forall ino :: ino in s.files ==>
      ino in t.files && t.files[ino].owner == s.files[ino].owner && (Complete(s, ino) ==> t.files[ino] == s.files[ino])
  }

  lemma DirectoryStays(s: State, t: State, d: Directory)
    requires SamePlan(s, t) && FilesStay(s, t) && DirectoryOk(s, d) && forall i :: i in s.renames ==> i in t.renames
    ensures DirectoryOk(t, d)
  {
  }

  lemma RankStays(s: State, t: State, d: Directory)
    requires SamePlan(s, t) && FilesStay(s, t) && DirectoryOk(s, d) && t.renames == s.renames
    ensures Rank(t, d) == Rank(s, d)
  {
  }

  lemma {:induction false} PositionStays(renames: seq<nat>, i: nat, last: nat)
    requires i in renames
    ensures Position(renames + [last], i) == Position(renames, i)
  {
    if renames[0] != i {
      assert (renames + [last])[1..] == renames[1..] + [last];
      PositionStays(renames[1..], i, last);
    }
  }

  lemma {:induction false} PositionLast(renames: seq<nat>, last: nat)
    requires last !in renames
    ensures Position(renames + [last], last) == |renames|
  {
    if renames != [] {
      assert (renames + [last])[1..] == renames[1..] + [last];
      PositionLast(renames[1..], last);
    }
  }

  /** A publisher whose phase, temporary file and rename stay. */
  predicate Undisturbed(s: State, t: State, j: nat) {
    && s.past != [] && t.past != [] && j < |s.pubs| && j < |t.pubs| && t.pubs[j] == s.pubs[j]
    && (j in t.renames <==> j in s.renames)
    && (HasTemp(s, j) ==>
          && HasTemp(t, j) && TempInode(t, j) == TempInode(s, j)
          && t.files[TempInode(t, j)] == s.files[TempInode(s, j)])
  }

  lemma ProgressStays(s: State, t: State, j: nat)
    requires Undisturbed(s, t, j) && ProgressOk(s, j)
    ensures ProgressOk(t, j)
  {
  }

  /** Everything about the directory states seen so far carries over. */
  lemma PastStays(s: State, t: State)
    requires Inv(s) && SamePlan(s, t) && FilesStay(s, t) && t.renames == s.renames
    ensures forall k :: 0 <= k < |s.past| ==> DirectoryOk(t, s.past[k]) && Rank(t, s.past[k]) == Rank(s, s.past[k])
  {
    hide Complete, Rank, DirectoryOk, FilesStay;
    forall k | 0 <= k < |s.past| ensures DirectoryOk(t, s.past[k]) && Rank(t, s.past[k]) == Rank(s, s.past[k]) {
      DirectoryStays(s, t, s.past[k]);
      RankStays(s, t, s.past[k]);
    }
  }

  /** A step of publisher `i` that leaves the others alone and at most adds a directory state `d` of the
      same rank. */
  lemma StepInvOf(s: State, t: State, i: nat)
    requires Inv(s) && SamePlan(s, t) && FilesStay(s, t) && t.renames == s.renames && i < |s.pubs| && t.past != []
    requires FilesOk(t) && OneFileEach(t) && ProgressOk(t, i)
    requires t.past == s.past || (|t.past| == |s.past| + 1 && t.past[..|s.past|] == s.past
      && DirectoryOk(t, t.Live()) && Rank(t, t.Live()) == Rank(s, s.Live()))
    requires t.pubs[i].phase != Renamed && t.pubs[i].phase != Published
    requires forall j :: 0 <= j < |s.pubs| && j != i ==> Undisturbed(s, t, j)
    ensures Inv(t)
  {
    hide Complete, Rank, DirectoryOk, FilesStay, FilesOk, OneFileEach, Undisturbed;
    PastStays(s, t);
    forall j | 0 <= j < |s.pubs| && j != i ensures ProgressOk(t, j) && t.pubs[j] == s.pubs[j] {
      ProgressStays(s, t, j);
      SamePublisher(s, t, j);
    }
    hide ProgressOk;
    RanksStay(s, t);
  }

  lemma SamePublisher(s: State, t: State, j: nat)
    requires Undisturbed(s, t, j)
    ensures j < |s.pubs| && j < |t.pubs| && t.pubs[j] == s.pubs[j]
  {
  }

  lemma RanksStay(s: State, t: State)
    requires s.past != [] && RanksOk(s) && t.renames == s.renames && |t.pubs| == |s.pubs|
    requires forall k :: 0 <= k < |s.past| ==> Rank(t, s.past[k]) == Rank(s, s.past[k])
    requires t.past == s.past || (|t.past| == |s.past| + 1 && t.past[..|s.past|] == s.past
      && Rank(t, t.Live()) == Rank(s, s.Live()))
    requires forall j :: 0 <= j < |s.pubs| && (t.pubs[j].phase == Renamed || t.pubs[j].phase == Published) ==>
      t.pubs[j] == s.pubs[j]
    ensures RanksOk(t)
  {
    hide Rank;
    forall k | 0 <= k < |s.past| ensures t.past[k] == s.past[k] {
      assert t.past != s.past ==> t.past[..|s.past|][k] == s.past[k];
    }
  }

  lemma OwnersStay(s: State, t: State)
    requires OneFileEach(s)
    requires forall ino :: ino in t.files ==> ino in s.files && t.files[ino].owner == s.files[ino].owner
    ensures OneFileEach(t)
  {
  }

  // ---- publishers' steps -----------------------------------------------------------------------------

  /** Moving a publisher to another phase. */
  lemma PhaseInv(s: State, i: nat, phase: Phase)
    requires Inv(s) && i < |s.pubs| && phase != Idle && phase != Renamed && phase != Published
    requires ProgressOk(At(s, i, phase), i)
    ensures Inv(At(s, i, phase))
  {
    hide Rank, DirectoryOk, ProgressOk;
    OwnersStay(s, At(s, i, phase));
    hide OneFileEach;
    StepInvOf(s, At(s, i, phase), i);
  }

  /** Without a name that is not the final one. */
  lemma DirectoryWithout(t: State, d: Directory, name: Name)
    requires DirectoryOk(t, d) && name != t.final
    ensures DirectoryOk(t, d - {name}) && Rank(t, d - {name}) == Rank(t, d)
  {
    hide Complete;
  }

  /** With a publisher's temporary name for its own file. */
  lemma DirectoryWithTemp(t: State, d: Directory, i: nat, ino: Inode)
    requires DirectoryOk(t, d) && NamesDistinct(t) && i < |t.pubs| && ino in t.files && t.files[ino].owner == Some(i)
    ensures DirectoryOk(t, d[t.pubs[i].tmp := ino]) && Rank(t, d[t.pubs[i].tmp := ino]) == Rank(t, d)
  {
    hide Complete;
  }

  lemma CreateInv(s: State, i: nat)
    requires Inv(s) && Enabled(s, Create(i))
    ensures Inv(Apply(s, Create(i)))
  {
    hide Complete, Rank, DirectoryOk, OneFileEach, RanksOk;
    var t := Apply(s, Create(i));
    assert s.next !in s.files;
    assert ProgressOk(s, i);
    CreateOneFile(s, i);
    DirectoryStays(s, t, s.Live());
    RankStays(s, t, s.Live());
    DirectoryWithTemp(t, s.Live(), i, s.next);
    StepInvOf(s, t, i);
  }

  lemma CreateOneFile(s: State, i: nat)
    requires FilesOk(s) && OneFileEach(s) && Enabled(s, Create(i))
    ensures OneFileEach(Apply(s, Create(i)))
  {
  }

  /** The temporary file of a publisher that has not renamed is its own, and no one reads it at the final path. */
  lemma TempIsOwn(s: State, i: nat)
    requires Inv(s) && HasTemp(s, i)
    ensures s.files[TempInode(s, i)].owner == Some(i)
    ensures i !in s.renames ==> !Complete(s, TempInode(s, i))
    ensures forall j :: 0 <= j < |s.pubs| && j != i && HasTemp(s, j) ==> TempInode(s, j) != TempInode(s, i)
  {
    assert DirectoryOk(s, s.Live());
    forall j | 0 <= j < |s.pubs| && j != i && HasTemp(s, j) ensures TempInode(s, j) != TempInode(s, i) {
      assert s.files[TempInode(s, j)].owner == Some(j);
    }
  }

  /** Writing or syncing the own temporary file. */
  lemma TouchInv(s: State, t: State, i: nat, file: File)
    requires Inv(s) && HasTemp(s, i) && i !in s.renames && s.pubs[i].phase != Idle
    requires t == s.(files := s.files[TempInode(s, i) := file], pubs := t.pubs)
      && file.owner == s.files[TempInode(s, i)].owner
    requires |t.pubs| == |s.pubs| && t.pubs == s.pubs[i := s.pubs[i].(phase := t.pubs[i].phase)]
    requires t.pubs[i].phase != Idle && t.pubs[i].phase != Renamed && t.pubs[i].phase != Published && ProgressOk(t, i)
    ensures Inv(t)
  {
    hide Rank, DirectoryOk, ProgressOk, Complete, FilesStay, FilesOk, OneFileEach;
    TempIsOwn(s, i);
    TouchStays(s, t, i, file);
    TouchFilesOk(s, t, i, file);
    OwnersStay(s, t);
    StepInvOf(s, t, i);
  }

  lemma TouchStays(s: State, t: State, i: nat, file: File)
    requires HasTemp(s, i) && !Complete(s, TempInode(s, i)) && t.files == s.files[TempInode(s, i) := file]
    requires file.owner == s.files[TempInode(s, i)].owner
    ensures FilesStay(s, t)
  {
  }

  lemma TouchFilesOk(s: State, t: State, i: nat, file: File)
    requires FilesOk(s) && HasTemp(s, i) && s.pubs[i].phase != Idle && t.next == s.next
    requires t.files == s.files[TempInode(s, i) := file] && file.owner == s.files[TempInode(s, i)].owner
    requires |t.pubs| == |s.pubs| && t.pubs == s.pubs[i := s.pubs[i].(phase := t.pubs[i].phase)]
      && t.pubs[i].phase != Idle
    ensures FilesOk(t)
  {
  }

  /** The file a publisher at work holds is the one its temporary name leads to. */
  lemma HoldsTemp(s: State, i: nat, file: Inode)
    requires Inv(s) && HasTemp(s, i) && Holds(s, i, file)
    ensures file == TempInode(s, i)
  {
    TempIsOwn(s, i);
    hide DirectoryOk, ProgressOk, RanksOk, Rank;
  }

  lemma WriteInv(s: State, i: nat, file: Inode, n: nat)
    requires Inv(s) && Enabled(s, Write(i, file, n))
    ensures Inv(Apply(s, Write(i, file, n)))
  {
    assert ProgressOk(s, i);
    HoldsTemp(s, i, file);
    var t := Apply(s, Write(i, file, n));
    assert ProgressOk(t, i);
    hide Rank, DirectoryOk, ProgressOk, Complete;
    TouchInv(s, t, i, s.files[TempInode(s, i)].(content := s.pubs[i].payload[..n], synced := false));
  }

  lemma SyncInv(s: State, i: nat)
    requires Inv(s) && Enabled(s, Sync(i))
    ensures Inv(Apply(s, Sync(i)))
  {
    assert ProgressOk(s, i);
    var t := Apply(s, Sync(i));
    assert ProgressOk(t, i);
    hide Rank, DirectoryOk, ProgressOk, Complete;
    TouchInv(s, t, i, s.files[TempInode(s, i)].(synced := true));
  }

  lemma RemoveInv(s: State, i: nat)
    requires Inv(s) && Enabled(s, Remove(i))
    ensures Inv(Apply(s, Remove(i)))
  {
    hide Complete, Rank, DirectoryOk, OneFileEach, RanksOk;
    var t := Apply(s, Remove(i));
    OwnersStay(s, t);
    DirectoryStays(s, t, s.Live());
    RankStays(s, t, s.Live());
    DirectoryWithout(t, s.Live(), s.pubs[i].tmp);
    StepInvOf(s, t, i);
  }

  // ---- rename, directory sync and crash ----------------------------------------------------------------

  /** A rename appended to the list keeps the rank of every directory state before it. */
  lemma RankBeforeRename(s: State, t: State, d: Directory, i: nat)
    requires DirectoryOk(s, d) && t.final == s.final && t.files == s.files && t.renames == s.renames + [i]
    ensures Rank(t, d) == Rank(s, d) <= |s.renames|
  {
    if s.final in d && s.files[d[s.final]].owner.Some? {
      PositionStays(s.renames, s.files[d[s.final]].owner.value, i);
    }
  }

  /** The directory state a rename leaves behind. */
  lemma RenamedDirectory(s: State, t: State, i: nat, d: Directory)
    requires Inv(s) && In(s, i, Synced) && HasTemp(s, i) && ProgressOk(s, i)
    requires SamePlan(s, t) && t.files == s.files && t.renames == s.renames + [i]
    requires d == (s.Live() - {s.pubs[i].tmp})[s.final := TempInode(s, i)]
    ensures DirectoryOk(t, d) && Rank(t, d) == |s.renames| + 1
  {
    TempIsOwn(s, i);
    PositionLast(s.renames, i);
    assert DirectoryOk(s, s.Live());
    hide Position;
  }

  lemma RenameInv(s: State, i: nat)
    requires Inv(s) && Enabled(s, Rename(i))
    ensures Inv(Apply(s, Rename(i)))
  {
    hide RanksOk, OneFileEach;
    var t := Apply(s, Rename(i));
    assert ProgressOk(s, i);
    OwnersStay(s, t);
    RenamedDirectory(s, t, i, t.Live());
    TempIsOwn(s, i);
    forall k | 0 <= k < |s.past|
      ensures DirectoryOk(t, s.past[k]) && Rank(t, s.past[k]) == Rank(s, s.past[k]) <= |s.renames|
    {
      DirectoryStays(s, t, s.past[k]);
      RankBeforeRename(s, t, s.past[k], i);
    }
    hide Rank, DirectoryOk, Complete, Position;
    RenameProgress(s, t, i);
    RenameRanks(s, t, i);
  }

  lemma RenameProgress(s: State, t: State, i: nat)
    requires Inv(s) && Enabled(s, Rename(i)) && t == Apply(s, Rename(i))
    ensures forall j :: 0 <= j < |s.pubs| ==> ProgressOk(t, j)
  {
    assert ProgressOk(s, i);
    TempIsOwn(s, i);
    forall j | 0 <= j < |s.pubs| ensures ProgressOk(t, j) {
      assert ProgressOk(s, j);
      if j != i {
        ProgressStays(s, t, j);
      }
    }
  }

  lemma RenameRanks(s: State, t: State, i: nat)
    requires Inv(s) && Enabled(s, Rename(i)) && t == Apply(s, Rename(i)) && i !in s.renames
    requires forall k :: 0 <= k < |s.past| ==> Rank(t, s.past[k]) == Rank(s, s.past[k]) <= |s.renames|
    requires Rank(t, t.Live()) == |s.renames| + 1
    ensures RanksOk(t)
  {
    hide Rank;
    PositionLast(s.renames, i);
    forall j | 0 <= j < |s.pubs| && j in s.renames ensures Position(t.renames, j) == Position(s.renames, j) {
      PositionStays(s.renames, j, i);
    }
  }

  lemma SyncDirInv(s: State, i: nat)
    requires Inv(s) && Enabled(s, SyncDir(i))
    ensures Inv(Apply(s, SyncDir(i)))
  {
    hide Rank, DirectoryOk, Complete, Position, OneFileEach;
    var t := Apply(s, SyncDir(i));
    OwnersStay(s, t);
    assert FilesStay(s, t);
    PastStays(s, t);
    SyncDirProgress(s, t, i);
    hide ProgressOk, FilesStay;
  }

  lemma SyncDirProgress(s: State, t: State, i: nat)
    requires Inv(s) && Enabled(s, SyncDir(i)) && t == Apply(s, SyncDir(i))
    ensures forall j :: 0 <= j < |s.pubs| ==> ProgressOk(t, j)
  {
    hide Rank, DirectoryOk, Complete, RanksOk, FilesOk;
    forall j | 0 <= j < |s.pubs| ensures ProgressOk(t, j) {
      assert ProgressOk(s, j);
    }
  }

  /** The directory state a recovered name comes from. */
  lemma ComesFrom(past: seq<Directory>, d: Directory, n: Name) returns (k: nat)
    requires Recoverable(past, d)
    ensures k < |past| && (n in d <==> n in past[k]) && (n in d ==> past[k][n] == d[n])
  {
    if n in d {
      k :| 0 <= k < |past| && n in past[k] && past[k][n] == d[n];
    } else {
      k :| 0 <= k < |past| && n !in past[k];
    }
  }

  lemma SameFinalSameRank(t: State, d: Directory, e: Directory)
    requires (t.final in d <==> t.final in e) && (t.final in d ==> d[t.final] == e[t.final])
    ensures Rank(t, d) == Rank(t, e)
    ensures (t.final in d ==> Complete(t, d[t.final])) <==> (t.final in e ==> Complete(t, e[t.final]))
  {
    hide Complete;
  }

  /** A recovered directory names, for each entry, what some earlier state named. */
  lemma RecoveredDirectory(s: State, t: State, d: Directory) returns (k: nat)
    requires Inv(s) && Recoverable(s.past, d) && SamePlan(s, t) && FilesStay(s, t) && t.renames == s.renames
    ensures DirectoryOk(t, d)
    ensures k < |s.past| && Rank(t, d) == Rank(s, s.past[k])
  {
    PastStays(s, t);
    hide Complete, Rank, Recoverable, FilesStay;
    k := ComesFrom(s.past, d, s.final);
    SameFinalSameRank(t, d, s.past[k]);
    assert DirectoryOk(t, s.past[k]);
    forall n | n in d ensures d[n] in t.files {
      var j := ComesFrom(s.past, d, n);
      assert DirectoryOk(t, s.past[j]);
    }
    forall i | 0 <= i < |t.pubs| && t.pubs[i].tmp in d ensures t.files[d[t.pubs[i].tmp]].owner == Some(i) {
      var j := ComesFrom(s.past, d, t.pubs[i].tmp);
      assert DirectoryOk(t, s.past[j]);
    }
  }

  lemma CrashKeepsFiles(s: State, t: State, garbage: Inode -> seq<byte>)
    requires t.files == Recovered(s.files, garbage)
    ensures FilesStay(s, t)
  {
  }

  lemma CrashProgress(s: State, t: State)
    requires Inv(s) && t.past != [] && t.pubs == AfterCrash(s.pubs) && t.renames == s.renames
    ensures forall j :: 0 <= j < |t.pubs| ==> ProgressOk(t, j)
  {
    hide Rank, DirectoryOk, RanksOk;
    forall j | 0 <= j < |t.pubs| ensures ProgressOk(t, j) {
      assert ProgressOk(s, j);
    }
  }

  lemma CrashRanks(s: State, t: State, k: nat)
    requires Inv(s) && t.pubs == AfterCrash(s.pubs) && t.renames == s.renames && |t.past| == 1
    requires k < |s.past| && Rank(t, t.past[0]) == Rank(s, s.past[k])
    ensures RanksOk(t)
  {
    hide Rank, DirectoryOk, ProgressOk, Position;
  }

  lemma CrashInv(s: State, recovered: Directory, garbage: Inode -> seq<byte>)
    requires Inv(s) && Enabled(s, Crash(recovered, garbage))
    ensures Inv(Apply(s, Crash(recovered, garbage)))
  {
    var t := Apply(s, Crash(recovered, garbage));
    CrashKeepsFiles(s, t, garbage);
    OwnersStay(s, t);
    CrashProgress(s, t);
    hide Rank, DirectoryOk, ProgressOk, RanksOk, FilesStay, Recoverable, OneFileEach;
    var k := RecoveredDirectory(s, t, recovered);
    CrashRanks(s, t, k);
  }

  /** Every step keeps the invariant. */
  lemma StepInv(s: State, e: Event)
    requires Inv(s) && Enabled(s, e)
    ensures Inv(Apply(s, e))
  {
    hide Inv;
    match e {
      case Create(i) => CreateInv(s, i);
      case Write(i, file, n) => WriteInv(s, i, file, n);
      case WriteDone(i, file) => WriteDoneInv(s, i, file);
      case Sync(i) => SyncInv(s, i);
      case Rename(i) => RenameInv(s, i);
      case SyncDir(i) => SyncDirInv(s, i);
      case Remove(i) => RemoveInv(s, i);
      case Crash(recovered, garbage) => CrashInv(s, recovered, garbage);
      case CreateFails(i) => PhaseInv(s, i, Cleaning);
      case WriteFails(i) => PhaseInv(s, i, Cleaning);
      case SyncFails(i) => PhaseInv(s, i, Cleaning);
      case RenameFails(i) => PhaseInv(s, i, Cleaning);
      case SyncDirFails(i) => PhaseInv(s, i, Cleaning);
      case RemoveFails(i) => PhaseInv(s, i, Failed);
    }
  }

  lemma WriteDoneInv(s: State, i: nat, file: Inode)
    requires Inv(s) && Enabled(s, WriteDone(i, file))
    ensures Inv(Apply(s, WriteDone(i, file)))
  {
    assert ProgressOk(s, i);
    HoldsTemp(s, i, file);
    PhaseInv(s, i, Written);
  }
}
