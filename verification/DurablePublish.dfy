/** One publisher's call of the durable-replace protocol, and the temporary names it uses (`durable.rs`). */
module DurablePublish {
  import opened Wrappers
  import opened Durable
  import opened DurableSteps
  import opened DurableSafety

  // ---- temporary names ------------------------------------------------------------------------------

  function Digit(n: nat): char
    requires n < 10
  {
    "0123456789"[n]
  }

  /** `format!("{}", n)`. */
  function Decimal(n: nat): (s: string)
    ensures s != []
  {
    if n < 10 then [Digit(n)] else Decimal(n / 10) + [Digit(n % 10)]
  }

  predicate NoDot(s: string) {
    forall i :: 0 <= i < |s| ==> s[i] != '.'
  }

  lemma {:induction false} DecimalHasNoDot(n: nat)
    ensures NoDot(Decimal(n))
  {
    if n >= 10 {
      DecimalHasNoDot(n / 10);
    }
  }

  lemma DigitInjective(a: nat, b: nat)
    requires a < 10 && b < 10 && Digit(a) == Digit(b)
    ensures a == b
  {
  }

  lemma {:induction false} DecimalInjective(a: nat, b: nat)
    requires Decimal(a) == Decimal(b)
    ensures a == b
  {
    var s := Decimal(a);
    DecimalLast(a);
    DecimalLast(b);
    DigitInjective(a % 10, b % 10);
    if a >= 10 && b >= 10 {
      assert Decimal(a / 10) == s[..|s| - 1] == Decimal(b / 10);
      DecimalInjective(a / 10, b / 10);
    } else {
      DecimalLength(a);
      DecimalLength(b);
    }
  }

  lemma DecimalLast(n: nat)
    ensures Decimal(n)[|Decimal(n)| - 1] == Digit(n % 10)
    ensures n >= 10 ==> Decimal(n)[..|Decimal(n)| - 1] == Decimal(n / 10)
  {
  }

  lemma DecimalLength(n: nat)
    ensures n < 10 <==> |Decimal(n)| == 1
  {
  }

  function FirstDot(s: string): nat {
    if s == [] || s[0] == '.' then 0 else 1 + FirstDot(s[1..])
  }

  lemma {:induction false} DotAfter(a: string, rest: string)
    requires NoDot(a)
    ensures FirstDot(a + "." + rest) == |a|
  {
    if a == [] {
      assert (a + "." + rest)[0] == '.';
    } else {
      DotAfter(a[1..], rest);
      assert (a + "." + rest)[1..] == a[1..] + "." + rest;
    }
  }

  /** Where the first dot is decides the part before it. */
  lemma SplitAtDot(a: string, rest: string, b: string, other: string)
    requires NoDot(a) && NoDot(b) && a + "." + rest == b + "." + other
    ensures a == b && rest == other
  {
    var whole := a + "." + rest;
    DotAfter(a, rest);
    DotAfter(b, other);
    assert whole[..|a|] == a && (b + "." + other)[..|b|] == b;
    assert whole[|a| + 1..] == rest && (b + "." + other)[|b| + 1..] == other;
  }

  const SUFFIX := ".cove.tmp."

  /** `<final>.cove.tmp.<pid>.<nanos>.<counter>`. */
  function TempName(final: Name, pid: nat, nanos: nat, counter: nat): Name {
    final + SUFFIX + (Decimal(pid) + "." + (Decimal(nanos) + "." + Decimal(counter)))
  }

  /** Names differ as soon as process, time or counter differ, and are never the final name. */
  lemma TempNamesDiffer(final: Name, pid: nat, nanos: nat, counter: nat, pid': nat, nanos': nat, counter': nat)
    ensures TempName(final, pid, nanos, counter) == TempName(final, pid', nanos', counter') ==>
      pid == pid' && nanos == nanos' && counter == counter'
    ensures TempName(final, pid, nanos, counter) != final
  {
    var tail, tail' := Decimal(nanos) + "." + Decimal(counter), Decimal(nanos') + "." + Decimal(counter');
    var name, name' := TempName(final, pid, nanos, counter), TempName(final, pid', nanos', counter');
    hide Decimal;
    assert |name| > |final|;
    if name == name' {
      assert name[|final + SUFFIX|..] == Decimal(pid) + "." + tail;
      assert name'[|final + SUFFIX|..] == Decimal(pid') + "." + tail';
      DecimalHasNoDot(pid);
      DecimalHasNoDot(pid');
      SplitAtDot(Decimal(pid), tail, Decimal(pid'), tail');
      DecimalHasNoDot(nanos);
      DecimalHasNoDot(nanos');
      SplitAtDot(Decimal(nanos), Decimal(counter), Decimal(nanos'), Decimal(counter'));
      DecimalInjective(pid, pid');
      DecimalInjective(nanos, nanos');
      DecimalInjective(counter, counter');
    }
  }

  /** `TEMP_COUNTER` of one process: `fetch_add(1)` hands out each value once before it wraps. */
  class TempCounter {
    var next: u64
    ghost var given: set<nat>

    ghost predicate Valid()
      reads this
    {
      forall k: nat :: k in given <==> k < next
    }

    constructor ()
      ensures Valid() && given == {}
    {
      next := 0;
      given := {};
    }

    /** `temp_path_for`: a name this process has not given out, until the counter wraps. */
    method TempPathFor(final: Name, pid: nat, nanos: nat) returns (name: Name)
      requires Valid() && next + 1 < TWO_64
      modifies this
      ensures Valid() && next == old(next) + 1 && given == old(given) + {old(next)}
      ensures name == TempName(final, pid, nanos, old(next))
      ensures forall k, nanos': nat :: k in old(given) ==> name != TempName(final, pid, nanos', k)
      ensures name != final
    {
      name := TempName(final, pid, nanos, next);
      forall k, nanos': nat | k in given ensures name != TempName(final, pid, nanos', k) {
        TempNamesDiffer(final, pid, nanos, next, pid, nanos', k);
      }
      TempNamesDiffer(final, pid, nanos, next, pid, nanos, next);
      given := given + {next};
      next := next + 1;
    }
  }

  // ---- the steps of one publisher ----------------------------------------------------------------------

  predicate OwnStep(e: Event, i: nat) {
    !e.Crash? && e.i == i
  }

  function PhaseAfter(e: Event): Phase
    requires !e.Crash?
  {
    match e
    case Create(_) => Writing
    case Write(_, _, _) => Writing
    case WriteDone(_, _) => Written
    case Sync(_) => Synced
    case Rename(_) => Renamed
    case SyncDir(_) => Published
    case Remove(_) => Failed
    case RemoveFails(_) => Failed
    case _ => Cleaning
  }

  /** Plans stay, and so does every other publisher. */
  predicate SameButFor(s: State, t: State, i: nat) {
    SamePlan(s, t) && forall j :: 0 <= j < |s.pubs| && j != i ==> t.pubs[j] == s.pubs[j]
  }

  lemma StepEffect(s: State, e: Event, i: nat)
    requires Enabled(s, e) && OwnStep(e, i)
    ensures In(Apply(s, e), i, PhaseAfter(e)) && SameButFor(s, Apply(s, e), i) && Apply(s, e).past != []
    ensures !e.Rename? ==> Apply(s, e).renames == s.renames
  {
  }

  lemma RenameEffect(s: State, i: nat)
    requires Inv(s) && Enabled(s, Rename(i))
    ensures var t := Apply(s, Rename(i));
      t.renames == s.renames + [i] && t.pubs[i].tmp !in t.Live() && FinalContent(t) == Some(s.pubs[i].payload)
  {
    assert ProgressOk(s, i);
    hide DirectoryOk, Complete, Rank, RanksOk;
  }

  lemma RemoveEffect(s: State, i: nat)
    requires Enabled(s, Remove(i))
    ensures Apply(s, Remove(i)).pubs[i].tmp !in Apply(s, Remove(i)).Live()
  {
  }

  /** The whole payload written: nothing is left to write. */
  lemma WriteEffect(s: State, i: nat, file: Inode)
    requires i < |s.pubs| && Enabled(s, Write(i, file, |s.pubs[i].payload|))
    ensures Enabled(Apply(s, Write(i, file, |s.pubs[i].payload|)), WriteDone(i, file))
  {
    assert s.pubs[i].payload[..|s.pubs[i].payload|] == s.pubs[i].payload;
  }

  lemma TempIsHeld(s: State, i: nat)
    requires Inv(s) && HasTemp(s, i)
    ensures Holds(s, i, TempInode(s, i))
  {
    TempIsOwn(s, i);
  }

  /** A publisher at work has its temporary file and has not renamed. */
  lemma AtWork(s: State, i: nat)
    requires Inv(s) && i < |s.pubs| && s.pubs[i].phase in {Writing, Written, Synced}
    ensures HasTemp(s, i) && i !in s.renames
  {
    assert ProgressOk(s, i);
  }

  lemma NotStarted(s: State, i: nat)
    requires Inv(s) && In(s, i, Idle)
    ensures i !in s.renames && s.past != []
  {
    assert ProgressOk(s, i);
  }

  lemma HasPast(s: State)
    requires Inv(s)
    ensures s.past != []
  {
  }

  // ---- one call -------------------------------------------------------------------------------------

  /** Which backend steps fail, and how much of the payload a failing write leaves behind. */
  datatype Faults = Faults(create: bool, write: bool, written: nat, sync: bool, rename: bool, syncDir: bool,
    remove: bool)

  /** The file system as one call of the protocol drives it; `events` is the run that led from `start` here. */
  class Disk {
    var state: State
    ghost var start: State
    ghost var events: seq<Event>

    ghost predicate Valid()
      reads this
    {
      Inv(state) && Runs(start, events, state)
    }

    constructor (s: State)
      requires Inv(s)
      ensures Valid() && state == start == s && events == []
    {
      state := s;
      start := s;
      events := [];
    }

    /** What a step of publisher `i` other than its rename leaves as it was. */
    twostate predicate Kept(i: nat)
      reads this
    {
      && start == old(start) && old(state).past != [] && state.past != []
      && SameButFor(old(state), state, i) && state.renames == old(state).renames
      && FinalContent(state) == FinalContent(old(state))
    }

    method Step(i: nat, e: Event)
      requires Valid() && Enabled(state, e) && OwnStep(e, i)
      modifies this
      ensures Valid() && state == Apply(old(state), e) && events == old(events) + [e] && start == old(start)
      ensures In(state, i, PhaseAfter(e)) && SameButFor(old(state), state, i)
      ensures !e.Rename? ==> Kept(i)
    {
      StepInv(state, e);
      StepEffect(state, e, i);
      if !e.Rename? {
        OnlyRenameMovesFinal(state, e);
      }
      hide Inv, Apply, Enabled, FinalContent, SameButFor, In;
      RunsOne(state, e, Apply(state, e));
      RunsAppend(start, events, state, [e], Apply(state, e));
      state := Apply(state, e);
      events := events + [e];
    }

    /** `write_all` into the new file. */
    method WriteAll(i: nat, f: Faults) returns (ok: bool)
      requires Valid() && In(state, i, Writing)
      modifies this
      ensures Valid() && Kept(i)
      ensures In(state, i, if ok then Written else Cleaning) && ok == !f.write
    {
      hide Inv, Apply, Runs, FinalContent;
      AtWork(state, i);
      TempIsHeld(state, i);
      var payload, file := state.pubs[i].payload, TempInode(state, i);
      if f.write {
        Step(i, Write(i, file, if f.written < |payload| then f.written else |payload|));
        Step(i, WriteFails(i));
        return false;
      }
      WriteEffect(state, i, file);
      Step(i, Write(i, file, |payload|));
      Step(i, WriteDone(i, file));
      return true;
    }

    /** `write_new_file`: creates the name, which must be free, then writes all bytes. */
    method WriteNewFile(i: nat, f: Faults) returns (ok: bool)
      requires Valid() && In(state, i, Idle)
      modifies this
      ensures Valid() && Kept(i)
      ensures In(state, i, if ok then Written else Cleaning)
      ensures ok <==> !f.create && !f.write && old(state).pubs[i].tmp !in old(state).Live()
    {
      hide Inv, Apply, Runs, FinalContent;
      NotStarted(state, i);
      if f.create || state.pubs[i].tmp in state.Live() {
        Step(i, CreateFails(i));
        return false;
      }
      Step(i, Create(i));
      ok := WriteAll(i, f);
    }

    /** `sync_file`: opens the file by its name and syncs it. */
    method SyncFile(i: nat, f: Faults) returns (ok: bool)
      requires Valid() && In(state, i, Written)
      modifies this
      ensures Valid() && Kept(i)
      ensures In(state, i, if ok then Synced else Cleaning) && ok == !f.sync
    {
      hide Inv, Apply, Runs, FinalContent;
      AtWork(state, i);
      Step(i, if f.sync then SyncFails(i) else Sync(i));
      return !f.sync;
    }

    method RenameFile(i: nat, f: Faults) returns (ok: bool)
      requires Valid() && In(state, i, Synced)
      modifies this
      ensures Valid() && start == old(start) && SameButFor(old(state), state, i)
      ensures In(state, i, if ok then Renamed else Cleaning) && ok == !f.rename
      ensures !ok ==> Kept(i)
      ensures ok ==> state.renames == old(state).renames + [i] && state.pubs[i].tmp !in state.Live()
      ensures ok ==> FinalContent(state) == Some(state.pubs[i].payload)
    {
      hide Inv, Apply, Runs, FinalContent;
      AtWork(state, i);
      if f.rename {
        Step(i, RenameFails(i));
        return false;
      }
      RenameEffect(state, i);
      Step(i, Rename(i));
      return true;
    }

    /** `sync_parent_dir`: what makes the rename outlive a crash. */
    method SyncParentDir(i: nat, f: Faults) returns (ok: bool)
      requires Valid() && In(state, i, Renamed)
      modifies this
      ensures Valid() && Kept(i)
      ensures In(state, i, if ok then Published else Cleaning) && ok == !f.syncDir
      ensures ok ==> state.Live() == old(state).Live()
    {
      hide Inv, Runs, FinalContent;
      HasPast(state);
      Step(i, if f.syncDir then SyncDirFails(i) else SyncDir(i));
      return !f.syncDir;
    }

    /** `remove_file`, whose own failure is ignored. */
    method RemoveFile(i: nat, f: Faults)
      requires Valid() && In(state, i, Cleaning)
      modifies this
      ensures Valid() && Kept(i) && In(state, i, Failed)
      ensures !f.remove ==> state.pubs[i].tmp !in state.Live()
    {
      hide Inv, Apply, Runs, FinalContent;
      HasPast(state);
      if f.remove {
        Step(i, RemoveFails(i));
      } else {
        RemoveEffect(state, i);
        Step(i, Remove(i));
      }
    }

    /** `durable_replace_with_backend` without interference: success exactly when the name is free and no step
        fails; before the rename a failure leaves the final path as it was; from the rename on it holds the
        new content, even when the call then fails; the temporary name is gone unless its removal fails. */
    method DurableReplace(i: nat, f: Faults) returns (r: Result<Name>)
      requires Valid() && In(state, i, Idle)
      modifies this
      ensures Valid() && start == old(start) && SameButFor(old(state), state, i) && state.past != []
      ensures In(state, i, if r.Ok? then Published else Failed)
      ensures r.Ok? ==> r.value == old(state).pubs[i].tmp
      ensures old(state).past != []
      ensures r.Ok? <==> old(state).pubs[i].tmp !in old(state).Live()
                         && !f.create && !f.write && !f.sync && !f.rename && !f.syncDir
      ensures FinalContent(state) ==
        if old(state).pubs[i].tmp !in old(state).Live() && !f.create && !f.write && !f.sync && !f.rename
        then Some(old(state).pubs[i].payload) else FinalContent(old(state))
      ensures r.Ok? || !f.remove ==> state.pubs[i].tmp !in state.Live()
    {
      hide Inv, Apply, Runs, FinalContent;
      var ok := WriteNewFile(i, f);
      if ok {
        ok := SyncFile(i, f);
      }
      if ok {
        ok := RenameFile(i, f);
        if ok {
          ok := SyncParentDir(i, f);
        }
      }
      if ok {
        return Ok(state.pubs[i].tmp);
      }
      RemoveFile(i, f);
      return Err(Io);
    }
  }
}
