/** The durable-replace protocol (`durable.rs`) as a state machine: publishers, faults and crashes over a
    directory and files of which only the synced part survives. */
module Durable {
  import opened Wrappers
  import opened Ordered

  type Name = string
  type Inode = nat
  type Directory = map<Name, Inode>

  /** `synced`: the content is on disk. `owner`: the publisher that created the file, if one did. */
  datatype File = File(content: seq<byte>, synced: bool, owner: Option<nat>)

  datatype Phase = Idle | Writing | Written | Synced | Renamed | Cleaning | Published | Failed | Dead

  datatype Publisher = Publisher(tmp: Name, payload: seq<byte>, phase: Phase)

  /** `past` lists the directory states since the last directory sync, the current one last: each name
      may come back from a crash as any of them has it. `renames` lists the publishers that renamed, in order. */
  datatype State = State(
    final: Name, initial: Option<seq<byte>>, past: seq<Directory>, files: map<Inode, File>, next: Inode,
    pubs: seq<Publisher>, renames: seq<nat>)
  {
    function Live(): Directory
      requires past != []
    {
      past[|past| - 1]
    }
  }

  datatype Event =
    | Create(i: nat) | CreateFails(i: nat)
    | Write(i: nat, file: Inode, n: nat) | WriteDone(i: nat, file: Inode) | WriteFails(i: nat)
    | Sync(i: nat) | SyncFails(i: nat)
    | Rename(i: nat) | RenameFails(i: nat)
    | SyncDir(i: nat) | SyncDirFails(i: nat)
    | Remove(i: nat) | RemoveFails(i: nat)
    | Crash(recovered: Directory, garbage: Inode -> seq<byte>)

  // ---- steps ------------------------------------------------------------------------------------

  function At(s: State, i: nat, phase: Phase): State
    requires i < |s.pubs|
  {
    s.(pubs := s.pubs[i := s.pubs[i].(phase := phase)])
  }

  predicate In(s: State, i: nat, phase: Phase) {
    i < |s.pubs| && s.pubs[i].phase == phase
  }

  /** The publisher's temporary name is in the directory, for a file that exists. */
  predicate HasTemp(s: State, i: nat) {
    s.past != [] && i < |s.pubs| && s.pubs[i].tmp in s.Live() && s.Live()[s.pubs[i].tmp] in s.files
  }

  function TempInode(s: State, i: nat): Inode
    requires HasTemp(s, i)
  {
    s.Live()[s.pubs[i].tmp]
  }

  /** The open file of a publisher is the one it created, whatever has become of its name. */
  predicate Holds(s: State, i: nat, file: Inode) {
    file in s.files && s.files[file].owner == Some(i)
  }

  /** Every name comes back as some state since the last sync has it. */
  ghost predicate Recoverable(past: seq<Directory>, d: Directory) {
    && (forall n :: n in d ==> exists k :: 0 <= k < |past| && n in past[k] && past[k][n] == d[n])
    && (forall n :: n !in d ==> exists k :: 0 <= k < |past| && n !in past[k])
  }

  ghost predicate Enabled(s: State, e: Event) {
    s.past != [] &&
    match e
    case Create(i) => In(s, i, Idle) && s.pubs[i].tmp !in s.Live()
    case CreateFails(i) => In(s, i, Idle)
    case Write(i, file, n) => In(s, i, Writing) && Holds(s, i, file) && n <= |s.pubs[i].payload|
    case WriteDone(i, file) => In(s, i, Writing) && Holds(s, i, file) && s.files[file].content == s.pubs[i].payload
    case WriteFails(i) => In(s, i, Writing)
    case Sync(i) => In(s, i, Written) && HasTemp(s, i)
    case SyncFails(i) => In(s, i, Written)
    case Rename(i) => In(s, i, Synced) && HasTemp(s, i)
    case RenameFails(i) => In(s, i, Synced)
    case SyncDir(i) => In(s, i, Renamed)
    case SyncDirFails(i) => In(s, i, Renamed)
    case Remove(i) => In(s, i, Cleaning)
    case RemoveFails(i) => In(s, i, Cleaning)
    case Crash(recovered, _) => Recoverable(s.past, recovered)
  }

  predicate Alive(phase: Phase) {
    phase == Writing || phase == Written || phase == Synced || phase == Renamed || phase == Cleaning
  }

  /** A crash kills the publishers at work. */
  function AfterCrash(pubs: seq<Publisher>): (r: seq<Publisher>)
    ensures |r| == |pubs|
    ensures forall i :: 0 <= i < |pubs| ==> r[i] == if Alive(pubs[i].phase) then pubs[i].(phase := Dead) else pubs[i]
  {
    seq(|pubs|, i requires 0 <= i < |pubs| => if Alive(pubs[i].phase) then pubs[i].(phase := Dead) else pubs[i])
  }

  function Recovered(files: map<Inode, File>, garbage: Inode -> seq<byte>): map<Inode, File> {
    map ino | ino in files :: if files[ino].synced then files[ino]
      else files[ino].(content := garbage(ino), synced := true)
  }

  function Apply(s: State, e: Event): State
    requires Enabled(s, e)
  {
    match e
    case Create(i) =>
      At(s, i, Writing).(
        past := s.past + [s.Live()[s.pubs[i].tmp := s.next]],
        files := s.files[s.next := File([], false, Some(i))], next := s.next + 1)
    case Write(i, file, n) =>
      s.(files := s.files[file := s.files[file].(content := s.pubs[i].payload[..n], synced := false)])
    case WriteDone(i, _) => At(s, i, Written)
    case Sync(i) => At(s, i, Synced).(files := s.files[TempInode(s, i) := s.files[TempInode(s, i)].(synced := true)])
    case Rename(i) =>
      At(s, i, Renamed).(
        past := s.past + [(s.Live() - {s.pubs[i].tmp})[s.final := TempInode(s, i)]], renames := s.renames + [i])
    case SyncDir(i) => At(s, i, Published).(past := [s.Live()])
    case Remove(i) => At(s, i, Failed).(past := s.past + [s.Live() - {s.pubs[i].tmp}])
    case RemoveFails(i) => At(s, i, Failed)
    case Crash(recovered, garbage) =>
      s.(past := [recovered], files := Recovered(s.files, garbage), pubs := AfterCrash(s.pubs))
    case CreateFails(i) => At(s, i, Cleaning)
    case WriteFails(i) => At(s, i, Cleaning)
    case SyncFails(i) => At(s, i, Cleaning)
    case RenameFails(i) => At(s, i, Cleaning)
    case SyncDirFails(i) => At(s, i, Cleaning)
  }

  /** A run: events applied one after the other, each enabled. */
  ghost predicate Runs(s: State, events: seq<Event>, t: State)
    decreases |events|
  {
    if events == [] then s == t
    else Enabled(s, events[0]) && Runs(Apply(s, events[0]), events[1..], t)
  }

  // ---- the invariant ------------------------------------------------------------------------------

  /** Temporary names are distinct and none is the final name. */
  predicate NamesDistinct(s: State) {
    && (forall i, j :: 0 <= i < j < |s.pubs| ==> s.pubs[i].tmp != s.pubs[j].tmp)
    && (forall i :: 0 <= i < |s.pubs| ==> s.pubs[i].tmp != s.final)
  }

  /** A file fit to be read at the final path: on disk, and the old content or a renamer's whole payload. */
  predicate Complete(s: State, ino: Inode) {
    ino in s.files && s.files[ino].synced &&
    match s.files[ino].owner
    case None => s.initial == Some(s.files[ino].content)
    case Some(i) => i < |s.pubs| && i in s.renames && s.files[ino].content == s.pubs[i].payload
  }

  /** One directory state: its files exist, temporary names lead to their publisher's file, and the final
      name, if there, to a complete file. */
  predicate DirectoryOk(s: State, d: Directory) {
    && (forall n :: n in d ==> d[n] in s.files)
    && (forall i :: 0 <= i < |s.pubs| && s.pubs[i].tmp in d ==> s.files[d[s.pubs[i].tmp]].owner == Some(i))
    && (s.final in d ==> Complete(s, d[s.final]))
    && (s.final !in d ==> s.initial == None)
  }

  /** How far a publisher has come with its file. */
  predicate ProgressOk(s: State, i: nat)
    requires i < |s.pubs| && s.past != []
  {
    match s.pubs[i].phase
    case Idle => i !in s.renames
    case Writing => i !in s.renames && HasTemp(s, i)
    case Written => i !in s.renames && HasTemp(s, i) && s.files[TempInode(s, i)].content == s.pubs[i].payload
    case Synced =>
      i !in s.renames && HasTemp(s, i) && s.files[TempInode(s, i)].content == s.pubs[i].payload
        && s.files[TempInode(s, i)].synced
    case Renamed => i in s.renames
    case Published => i in s.renames
    case _ => true
  }

  /** Which rename put the file at the final name of a directory state: 0 for none. */
  function Rank(s: State, d: Directory): nat {
    if s.final in d && d[s.final] in s.files && s.files[d[s.final]].owner.Some?
      && s.files[d[s.final]].owner.value in s.renames
    then Position(s.renames, s.files[d[s.final]].owner.value) + 1
    else 0
  }

  predicate FilesOk(s: State) {
    && (forall ino :: ino in s.files ==> ino < s.next)
    && (forall ino :: ino in s.files && s.files[ino].owner.Some? ==> s.files[ino].owner.value < |s.pubs|)
    && (forall ino :: ino in s.files && s.files[ino].owner.Some? ==> s.pubs[s.files[ino].owner.value].phase != Idle)
  }

  /** No publisher has created two files. */
  predicate OneFileEach(s: State) {
    forall a, b :: a in s.files && b in s.files && s.files[a].owner.Some? && s.files[a].owner == s.files[b].owner ==>
      a == b
  }

  predicate RenamesOk(s: State) {
    && (forall k :: 0 <= k < |s.renames| ==> s.renames[k] < |s.pubs|)
    && (forall k, l :: 0 <= k < l < |s.renames| ==> s.renames[k] != s.renames[l])
  }

  /** Later directory states carry later renames; a published rename is in all of them. */
  predicate RanksOk(s: State)
    requires s.past != []
  {
    && (forall k, l :: 0 <= k <= l < |s.past| ==> Rank(s, s.past[k]) <= Rank(s, s.past[l]))
    && (forall i :: 0 <= i < |s.pubs| && s.pubs[i].phase == Renamed && i in s.renames ==>
          Rank(s, s.Live()) >= Position(s.renames, i) + 1)
    && (forall i, k :: 0 <= i < |s.pubs| && s.pubs[i].phase == Published && i in s.renames && 0 <= k < |s.past| ==>
          Rank(s, s.past[k]) >= Position(s.renames, i) + 1)
  }

  predicate Inv(s: State) {
    && s.past != [] && NamesDistinct(s) && FilesOk(s) && OneFileEach(s) && RenamesOk(s)
    && (forall k :: 0 <= k < |s.past| ==> DirectoryOk(s, s.past[k]))
    && (forall i :: 0 <= i < |s.pubs| ==> ProgressOk(s, i))
    && RanksOk(s)
  }

  /** What the final path holds. */
  function FinalContent(s: State): Option<seq<byte>>
    requires s.past != []
  {
    if s.final in s.Live() && s.Live()[s.final] in s.files then Some(s.files[s.Live()[s.final]].content) else None
  }

  /** Before any publisher starts: a directory without their names, the old file, if any, on disk. */
  predicate Init(s: State) {
    && NamesDistinct(s) && |s.past| == 1 && s.renames == []
    && (forall ino :: ino in s.files ==> ino < s.next && s.files[ino].owner == None && s.files[ino].synced)
    && (forall n :: n in s.past[0] ==> s.past[0][n] in s.files)
    && (forall i :: 0 <= i < |s.pubs| ==> s.pubs[i].phase == Idle && s.pubs[i].tmp !in s.past[0])
    && s.initial == FinalContent(s)
  }

  lemma InitInv(s: State)
    requires Init(s)
    ensures Inv(s)
  {
  }
}
