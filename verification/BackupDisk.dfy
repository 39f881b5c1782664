/** Writing a backup on a file system that can lose power at any moment
    (internal/backup/backup.go, write). Until it is synced, a file may come back
    with any content; until the directory is synced, any of the changes to it
    may be missing. */
module BackupDisk {
  import opened BackupNames
  import opened TextOrder

  /** Torn stands for anything that is not a complete snapshot. */
  datatype Content = Torn | Whole(snapshot: int)

  datatype File = File(content: Content, synced: bool)

  datatype Change = Link(name: string, ino: int) | Unlink(name: string) | Rename(temp: string, name: string, ino: int)

  type Dir = map<string, int>

  /** The directory as programs see it, and as it is on disk before the changes still pending. */
  datatype Disk = Disk(dir: Dir, files: map<int, File>, durable: Dir, pending: seq<Change>, nextIno: int)

  datatype Phase =
    | Idle
    | Preparing(name: string)
    | Cleared(name: string)
    | Filling(name: string, ino: int)
    | Filled(name: string, ino: int, snapshot: int)
    | Synced(name: string, ino: int, snapshot: int)
    | Renamed(name: string, ino: int, snapshot: int)
    | Failed(name: string)
    | Listing
    | Pruning(left: seq<string>)

  datatype State = State(disk: Disk, phase: Phase)

  datatype Event =
    | Begin(name: string) | ClearTemp(ok: bool)
    | StartVacuum | Fill | FinishVacuum(snapshot: int) | FailVacuum
    | SyncFile(ok: bool) | RenameTemp(ok: bool) | SyncDir(ok: bool) | Cleanup(ok: bool)
    | ListNames(names: seq<string>, keep: nat) | FailList | PruneOne(ok: bool) | EndPrune
    | Crash(survives: seq<bool>, contents: map<int, Content>)

  function Changed(d: Dir, c: Change): Dir {
    match c
    case Link(n, i) => d[n := i]
    case Unlink(n) => d - {n}
    case Rename(t, n, i) => (d - {t})[n := i]
  }

  /** The directory after some of the pending changes, in their order. */
  function Surviving(d: Dir, pending: seq<Change>, survives: seq<bool>): Dir
    requires |survives| == |pending|
  {
    if pending == [] then d
    else
      var k := |pending| - 1;
      var before := Surviving(d, pending[..k], survives[..k]);
      if survives[k] then Changed(before, pending[k]) else before
  }

  function Recorded(k: Disk, c: Change): Disk {
    k.(dir := Changed(k.dir, c), pending := k.pending + [c])
  }

  function Written(k: Disk, ino: int, f: File): Disk {
    k.(files := k.files[ino := f])
  }

  /** What a crash leaves: unsynced files hold anything, pending changes survive or not. */
  function AfterCrash(k: Disk, survives: seq<bool>, contents: map<int, Content>): Disk
    requires |survives| == |k.pending|
  {
    var d := Surviving(k.durable, k.pending, survives);
    var files := map i | i in k.files ::
      if k.files[i].synced || i !in contents then k.files[i].(synced := true) else File(contents[i], true);
    Disk(d, files, d, [], k.nextIno)
  }

  /** All backups of the directory, oldest first. */
  ghost predicate ListsBackups(names: seq<string>, d: Dir) {
    Ascending(names) && forall n :: n in names <==> n in d && IsBackupName(n)
  }

  ghost predicate Enabled(s: State, e: Event) {
    match e
    case Begin(_) => s.phase.Idle?
    case ClearTemp(_) => s.phase.Preparing?
    case StartVacuum => s.phase.Cleared? && TempName(s.phase.name) !in s.disk.dir
    case Fill => s.phase.Filling?
    case FinishVacuum(_) => s.phase.Filling?
    case FailVacuum => s.phase.Filling? || s.phase.Cleared?
    case SyncFile(_) => s.phase.Filled?
    case RenameTemp(_) => s.phase.Synced?
    case SyncDir(_) => s.phase.Renamed?
    case Cleanup(_) => s.phase.Failed?
    case ListNames(names, _) => s.phase.Listing? && ListsBackups(names, s.disk.dir)
    case FailList => s.phase.Listing?
    case PruneOne(ok) => s.phase.Pruning? && s.phase.left != [] && (ok ==> s.phase.left[0] in s.disk.dir)
    case EndPrune => s.phase.Pruning? && s.phase.left == []
    case Crash(survives, _) => |survives| == |s.disk.pending|
  }

  /** Removing a name that may not exist. */
  function Removed(k: Disk, name: string): Disk {
    if name in k.dir then Recorded(k, Unlink(name)) else k
  }

  function Next(s: State, e: Event): State
    requires Enabled(s, e)
  {
    var k := s.disk;
    match e
    case Begin(n) => State(k, Preparing(n))
    case ClearTemp(ok) =>
      if !ok && TempName(s.phase.name) in k.dir then State(k, Idle)
      else State(Removed(k, TempName(s.phase.name)), Cleared(s.phase.name))
    case StartVacuum =>
      var made := Written(k, k.nextIno, File(Torn, false)).(nextIno := k.nextIno + 1);
      State(Recorded(made, Link(TempName(s.phase.name), k.nextIno)), Filling(s.phase.name, k.nextIno))
    case Fill => State(Written(k, s.phase.ino, File(Torn, false)), s.phase)
    case FinishVacuum(x) => State(Written(k, s.phase.ino, File(Whole(x), false)), Filled(s.phase.name, s.phase.ino, x))
    case FailVacuum => State(k, Failed(s.phase.name))
    case SyncFile(ok) =>
      if ok then State(Written(k, s.phase.ino, File(Whole(s.phase.snapshot), true)),
                       Synced(s.phase.name, s.phase.ino, s.phase.snapshot))
      else State(k, Failed(s.phase.name))
    case RenameTemp(ok) =>
      if ok then State(Recorded(k, Rename(TempName(s.phase.name), s.phase.name, s.phase.ino)),
                       Renamed(s.phase.name, s.phase.ino, s.phase.snapshot))
      else State(k, Failed(s.phase.name))
    case SyncDir(ok) => State(if ok then k.(durable := k.dir, pending := []) else k, Listing)
    case Cleanup(ok) => State(if ok then Removed(k, TempName(s.phase.name)) else k, Idle)
    case ListNames(names, keep) => State(k, Pruning(names[..Excess(|names|, keep)]))
    case FailList => State(k, Idle)
    case PruneOne(ok) => State(if ok then Recorded(k, Unlink(s.phase.left[0])) else k, Pruning(s.phase.left[1..]))
    case EndPrune => State(k, Idle)
    case Crash(survives, contents) => State(AfterCrash(k, survives, contents), Idle)
  }

  /** An empty or leftover directory with no half-written backup in it. */
  ghost predicate IsStart(s: State) {
    s.phase.Idle? && s.disk.pending == [] && s.disk.durable == s.disk.dir && DiskInv(s.disk)
  }

  ghost predicate Follows(states: seq<State>, events: seq<Event>, n: nat)
    requires |states| == |events| + 1 && n < |events|
  {
    Enabled(states[n], events[n]) && states[n + 1] == Next(states[n], events[n])
  }

  ghost predicate Run(states: seq<State>, events: seq<Event>) {
    && |states| == |events| + 1 && IsStart(states[0])
    && forall n :: 0 <= n < |events| ==> Follows(states, events, n)
  }

  // ---- The invariant

  /** The file is complete, and on disk. */
  predicate IsSafe(files: map<int, File>, ino: int) {
    ino in files && files[ino].synced && files[ino].content.Whole?
  }

  /** Every backup name leads to a safe file. */
  ghost predicate IsSound(d: Dir, files: map<int, File>) {
    forall n :: n in d && IsBackupName(n) ==> IsSafe(files, d[n])
  }

  predicate IsSoundChange(c: Change, files: map<int, File>) {
    !c.Unlink? && IsBackupName(c.name) ==> IsSafe(files, c.ino)
  }

  ghost predicate DiskInv(k: Disk) {
    && IsSound(k.dir, k.files) && IsSound(k.durable, k.files)
    && (forall i :: 0 <= i < |k.pending| ==> IsSoundChange(k.pending[i], k.files))
    && (forall i :: i in k.files ==> i < k.nextIno)
  }

  ghost predicate PhaseInv(s: State) {
    match s.phase
    case Filling(_, i) => i in s.disk.files && !s.disk.files[i].synced
    case Filled(_, i, x) => i in s.disk.files && s.disk.files[i] == File(Whole(x), false)
    case Synced(_, i, x) => i in s.disk.files && s.disk.files[i] == File(Whole(x), true)
    case Renamed(n, i, x) => i in s.disk.files && s.disk.files[i] == File(Whole(x), true) && n in s.disk.dir
        && s.disk.dir[n] == i
    case _ => true
  }

  /** Writing a file that is new or not synced touches no backup. */
  lemma WrittenIsHarmless(k: Disk, ino: int, f: File)
    requires DiskInv(k) && ino < k.nextIno && (ino in k.files ==> !k.files[ino].synced)
    ensures DiskInv(Written(k, ino, f))
  {
    assert forall i :: IsSafe(k.files, i) ==> i != ino && IsSafe(Written(k, ino, f).files, i);
  }

  lemma RecordedIsHarmless(k: Disk, c: Change)
    requires DiskInv(k) && IsSoundChange(c, k.files)
    ensures DiskInv(Recorded(k, c))
  {
  }

  lemma {:induction false} SurvivingIsSound(d: Dir, pending: seq<Change>, survives: seq<bool>, files: map<int, File>)
    requires |survives| == |pending| && IsSound(d, files)
    requires forall i :: 0 <= i < |pending| ==> IsSoundChange(pending[i], files)
    ensures IsSound(Surviving(d, pending, survives), files)
  {
    if pending != [] {
      var k := |pending| - 1;
      SurvivingIsSound(d, pending[..k], survives[..k], files);
      assert IsSoundChange(pending[k], files);
    }
  }

  lemma CrashIsHarmless(k: Disk, survives: seq<bool>, contents: map<int, Content>)
    requires DiskInv(k) && |survives| == |k.pending|
    ensures DiskInv(AfterCrash(k, survives, contents))
  {
    SurvivingIsSound(k.durable, k.pending, survives, k.files);
    assert forall i :: IsSafe(k.files, i) ==> IsSafe(AfterCrash(k, survives, contents).files, i);
  }

  lemma NextKeepsInv(s: State, e: Event)
    requires DiskInv(s.disk) && PhaseInv(s) && Enabled(s, e)
    ensures DiskInv(Next(s, e).disk) && PhaseInv(Next(s, e))
  {
    var k := s.disk;
    match e {
      case StartVacuum =>
        var grown := k.(nextIno := k.nextIno + 1);
        WrittenIsHarmless(grown, k.nextIno, File(Torn, false));
        TempIsNoBackup(s.phase.name);
        RecordedIsHarmless(Written(grown, k.nextIno, File(Torn, false)), Link(TempName(s.phase.name), k.nextIno));
      case Fill => WrittenIsHarmless(k, s.phase.ino, File(Torn, false));
      case FinishVacuum(x) => WrittenIsHarmless(k, s.phase.ino, File(Whole(x), false));
      case SyncFile(ok) => WrittenIsHarmless(k, s.phase.ino, File(Whole(s.phase.snapshot), true));
      case RenameTemp(ok) => RecordedIsHarmless(k, Rename(TempName(s.phase.name), s.phase.name, s.phase.ino));
      case ClearTemp(ok) => RecordedIsHarmless(k, Unlink(TempName(s.phase.name)));
      case Cleanup(ok) => RecordedIsHarmless(k, Unlink(TempName(s.phase.name)));
      case PruneOne(ok) => RecordedIsHarmless(k, Unlink(s.phase.left[0]));
      case Crash(survives, contents) => CrashIsHarmless(k, survives, contents);
      case _ =>
    }
  }

  lemma {:induction false} RunKeepsInv(states: seq<State>, events: seq<Event>, n: nat)
    requires Run(states, events) && n <= |events|
    ensures DiskInv(states[n].disk) && PhaseInv(states[n])
  {
    if n > 0 {
      RunKeepsInv(states, events, n - 1);
      assert Follows(states, events, n - 1);
      NextKeepsInv(states[n - 1], events[n - 1]);
    }
  }

  /** At every point of every run, crashes included, and after a crash at that
      point: each file under a backup's name is a complete snapshot. */
  lemma BackupsAreComplete(states: seq<State>, events: seq<Event>, n: nat, name: string,
                           survives: seq<bool>, contents: map<int, Content>)
    requires Run(states, events) && n <= |events| && IsBackupName(name) && |survives| == |states[n].disk.pending|
    ensures var k := states[n].disk; name in k.dir ==> IsSafe(k.files, k.dir[name])
    ensures var k := AfterCrash(states[n].disk, survives, contents); name in k.dir ==> IsSafe(k.files, k.dir[name])
  {
    RunKeepsInv(states, events, n);
    CrashIsHarmless(states[n].disk, survives, contents);
  }

  // ---- A finished backup

  /** The change makes the name lead somewhere else, or nowhere. */
  predicate Touches(c: Change, name: string) {
    c.name == name || (c.Rename? && c.temp == name)
  }

  /** The name leads to a synced copy of the snapshot, on disk too, and nothing
      still pending is about the name. */
  ghost predicate Held(k: Disk, name: string, ino: int, snapshot: int) {
    && name in k.dir && k.dir[name] == ino && name in k.durable && k.durable[name] == ino
    && ino in k.files && k.files[ino] == File(Whole(snapshot), true)
    && forall i :: 0 <= i < |k.pending| ==> !Touches(k.pending[i], name)
  }

  /** The file under the name is the snapshot, complete. */
  predicate LeadsTo(k: Disk, name: string, snapshot: int) {
    name in k.dir && k.dir[name] in k.files && k.files[k.dir[name]].content == Whole(snapshot)
  }

  /** The step puts another file in the name's place. */
  predicate Rewrites(s: State, e: Event, name: string) {
    e == RenameTemp(true) && s.phase.Synced? && s.phase.name == name
  }

  /** The step deletes the file under the name. */
  predicate Prunes(s: State, e: Event, name: string) {
    e == PruneOne(true) && s.phase.Pruning? && s.phase.left != [] && s.phase.left[0] == name
  }

  predicate Replaces(s: State, e: Event, name: string) {
    Prunes(s, e, name) || Rewrites(s, e, name)
  }

  /** As every name a backup is given is. */
  predicate IsPrefixed(name: string) {
    "netis-" <= name
  }

  lemma TempIsNotPrefixed(name: string)
    ensures !IsPrefixed(TempName(name))
  {
    assert TempName(name)[0] == '.' && "netis-"[0] == 'n';
  }

  lemma {:induction false} SurvivingKeepsName(d: Dir, pending: seq<Change>, survives: seq<bool>, name: string)
    requires |survives| == |pending| && name in d && forall i :: 0 <= i < |pending| ==> !Touches(pending[i], name)
    ensures name in Surviving(d, pending, survives) && Surviving(d, pending, survives)[name] == d[name]
  {
    if pending != [] {
      var k := |pending| - 1;
      SurvivingKeepsName(d, pending[..k], survives[..k], name);
      assert !Touches(pending[k], name);
    }
  }

  lemma CrashHolds(k: Disk, survives: seq<bool>, contents: map<int, Content>, name: string, ino: int, snapshot: int)
    requires Held(k, name, ino, snapshot) && |survives| == |k.pending|
    ensures Held(AfterCrash(k, survives, contents), name, ino, snapshot)
  {
    SurvivingKeepsName(k.durable, k.pending, survives, name);
  }

  lemma NextHolds(s: State, e: Event, name: string, ino: int, snapshot: int)
    requires DiskInv(s.disk) && PhaseInv(s) && Enabled(s, e)
    requires Held(s.disk, name, ino, snapshot) && IsPrefixed(name) && !Replaces(s, e, name)
    ensures Held(Next(s, e).disk, name, ino, snapshot)
  {
    match e {
      case StartVacuum => TempIsNotPrefixed(s.phase.name);
      case RenameTemp(_) => TempIsNotPrefixed(s.phase.name);
      case ClearTemp(_) => TempIsNotPrefixed(s.phase.name);
      case Cleanup(_) => TempIsNotPrefixed(s.phase.name);
      case Crash(survives, contents) => CrashHolds(s.disk, survives, contents, name, ino, snapshot);
      case _ =>
    }
  }

  lemma SyncDirHolds(s: State)
    requires PhaseInv(s) && Enabled(s, SyncDir(true))
    ensures Held(Next(s, SyncDir(true)).disk, s.phase.name, s.phase.ino, s.phase.snapshot)
  {
  }

  lemma {:induction false} RunHolds(states: seq<State>, events: seq<Event>, n: nat, m: nat)
    requires Run(states, events) && n < m <= |events| && events[n] == SyncDir(true) && states[n].phase.Renamed?
    requires IsPrefixed(states[n].phase.name)
    requires forall i :: n < i < m ==> !Replaces(states[i], events[i], states[n].phase.name)
    ensures Held(states[m].disk, states[n].phase.name, states[n].phase.ino, states[n].phase.snapshot)
    decreases m
  {
    var w := states[n].phase;
    if m == n + 1 {
      RunKeepsInv(states, events, n);
      assert Follows(states, events, n);
      SyncDirHolds(states[n]);
    } else {
      RunHolds(states, events, n, m - 1);
      RunKeepsInv(states, events, m - 1);
      assert Follows(states, events, m - 1);
      NextHolds(states[m - 1], events[m - 1], w.name, w.ino, w.snapshot);
    }
  }

  /** Once the directory is synced, the backup just written stays, with the
      snapshot that was taken: through pruning of other names, later backups and
      any number of crashes, and after one more crash at any point, until its own
      name is pruned or written again. */
  lemma SyncedBackupSurvives(states: seq<State>, events: seq<Event>, n: nat, m: nat,
                             survives: seq<bool>, contents: map<int, Content>)
    requires Run(states, events) && n < m <= |events| && events[n] == SyncDir(true) && states[n].phase.Renamed?
    requires IsPrefixed(states[n].phase.name)
    requires forall i :: n < i < m ==> !Replaces(states[i], events[i], states[n].phase.name)
    requires |survives| == |states[m].disk.pending|
    ensures LeadsTo(states[m].disk, states[n].phase.name, states[n].phase.snapshot)
    ensures LeadsTo(AfterCrash(states[m].disk, survives, contents), states[n].phase.name, states[n].phase.snapshot)
  {
    RunHolds(states, events, n, m);
    CrashHolds(states[m].disk, survives, contents, states[n].phase.name, states[n].phase.ino, states[n].phase.snapshot);
  }

  // ---- A finished backup and the prunes after it

  /** The listing has fewer backups newer than this one than are kept. */
  ghost predicate Spares(e: Event, name: string) {
    e.ListNames? ==> |Newer(e.names, name)| < e.keep
  }

  predicate IsLeft(s: State, name: string) {
    s.phase.Pruning? && name in s.phase.left
  }

  /** A backup that a listing finds is up for removal exactly when the listing does not spare it. */
  lemma ListingDecides(s: State, names: seq<string>, keep: nat, name: string)
    requires Enabled(s, ListNames(names, keep)) && name in names
    ensures IsLeft(Next(s, ListNames(names, keep)), name) <==> !Spares(ListNames(names, keep), name)
  {
    SparedExactly(names, keep, name);
  }

  lemma NextSpares(s: State, e: Event, name: string)
    requires Enabled(s, e) && !IsLeft(s, name) && Spares(e, name)
    ensures !IsLeft(Next(s, e), name)
  {
    match e {
      case ListNames(names, keep) =>
        if name in names {
          ListingDecides(s, names, keep, name);
        }
      case _ =>
    }
  }

  lemma {:induction false} NeverLeft(states: seq<State>, events: seq<Event>, n: nat, m: nat, name: string)
    requires Run(states, events) && n < m <= |events| && events[n] == SyncDir(true)
    requires forall i :: n < i < m ==> Spares(events[i], name)
    ensures !IsLeft(states[m], name)
    decreases m
  {
    assert Follows(states, events, m - 1);
    if n + 1 < m {
      NeverLeft(states, events, n, m - 1, name);
      NextSpares(states[m - 1], events[m - 1], name);
    }
  }

  /** A finished backup stays as long as it is not written again and whenever a
      prune lists the directory fewer backups are newer than are kept. */
  lemma BackupOutlivesPrunes(states: seq<State>, events: seq<Event>, n: nat, m: nat,
                             survives: seq<bool>, contents: map<int, Content>)
    requires Run(states, events) && n < m <= |events| && events[n] == SyncDir(true) && states[n].phase.Renamed?
    requires IsPrefixed(states[n].phase.name)
    requires forall i :: n < i < m ==> Spares(events[i], states[n].phase.name)
    requires forall i :: n < i < m ==> !Rewrites(states[i], events[i], states[n].phase.name)
    requires |survives| == |states[m].disk.pending|
    ensures LeadsTo(states[m].disk, states[n].phase.name, states[n].phase.snapshot)
    ensures LeadsTo(AfterCrash(states[m].disk, survives, contents), states[n].phase.name, states[n].phase.snapshot)
  {
    forall i | n < i < m
      ensures !Replaces(states[i], events[i], states[n].phase.name)
    {
      NeverLeft(states, events, n, i, states[n].phase.name);
    }
    SyncedBackupSurvives(states, events, n, m, survives, contents);
  }

  /** The name is the greatest of each listing, and at least one backup is kept. */
  ghost predicate ListsAsNewest(e: Event, name: string) {
    e.ListNames? ==> e.keep > 0 && forall x :: x in e.names ==> !Less(name, x)
  }

  /** In particular the prune right after a write spares the new backup, if its
      name is the greatest. */
  lemma NewestBackupStays(states: seq<State>, events: seq<Event>, n: nat, m: nat,
                          survives: seq<bool>, contents: map<int, Content>)
    requires Run(states, events) && n < m <= |events| && events[n] == SyncDir(true) && states[n].phase.Renamed?
    requires IsPrefixed(states[n].phase.name)
    requires forall i :: n < i < m ==> ListsAsNewest(events[i], states[n].phase.name)
    requires forall i :: n < i < m ==> !Rewrites(states[i], events[i], states[n].phase.name)
    requires |survives| == |states[m].disk.pending|
    ensures LeadsTo(states[m].disk, states[n].phase.name, states[n].phase.snapshot)
    ensures LeadsTo(AfterCrash(states[m].disk, survives, contents), states[n].phase.name, states[n].phase.snapshot)
  {
    forall i | n < i < m
      ensures Spares(events[i], states[n].phase.name)
    {
      assert ListsAsNewest(events[i], states[n].phase.name);
      if events[i].ListNames? {
        assert Newer(events[i].names, states[n].phase.name) == {};
      }
    }
    BackupOutlivesPrunes(states, events, n, m, survives, contents);
  }

  // ---- A write and a prune that succeed

  /** The steps of a write that meets no error. */
  predicate Writes(events: seq<Event>, n: nat, name: string, snapshot: int) {
    && n + 7 <= |events|
    && events[n] == Begin(name) && events[n + 1] == ClearTemp(true) && events[n + 2] == StartVacuum
    && events[n + 3] == FinishVacuum(snapshot) && events[n + 4] == SyncFile(true) && events[n + 5] == RenameTemp(true)
    && events[n + 6] == SyncDir(true)
  }

  lemma StepAt(states: seq<State>, events: seq<Event>, n: nat)
    requires Run(states, events) && n < |events|
    ensures Enabled(states[n], events[n]) && states[n + 1] == Next(states[n], events[n])
  {
    assert Follows(states, events, n);
  }

  lemma VacuumStarts(states: seq<State>, events: seq<Event>, n: nat, name: string, snapshot: int)
    requires Run(states, events) && Writes(events, n, name, snapshot)
    ensures states[n + 3].phase.Filling? && states[n + 3].phase.name == name
  {
    StepAt(states, events, n);
    StepAt(states, events, n + 1);
    StepAt(states, events, n + 2);
  }

  lemma FileIsSynced(states: seq<State>, events: seq<Event>, n: nat, name: string, snapshot: int)
    requires Run(states, events) && Writes(events, n, name, snapshot)
    ensures states[n + 5].phase.Synced? && states[n + 5].phase.name == name && states[n + 5].phase.snapshot == snapshot
    ensures states[n + 5].phase.ino in states[n + 5].disk.files
    ensures states[n + 5].disk.files[states[n + 5].phase.ino] == File(Whole(snapshot), true)
  {
    VacuumStarts(states, events, n, name, snapshot);
    StepAt(states, events, n + 3);
    StepAt(states, events, n + 4);
  }

  /** A write that meets no error leaves the snapshot under its name, on disk and
      with no temporary file, and the prune comes next. */
  lemma WriteMakesBackup(states: seq<State>, events: seq<Event>, n: nat, name: string, snapshot: int)
    requires Run(states, events) && Writes(events, n, name, snapshot)
    ensures LeadsTo(states[n + 7].disk, name, snapshot) && states[n + 7].phase.Listing?
    ensures TempName(name) !in states[n + 7].disk.dir
    ensures states[n + 7].disk.pending == [] && states[n + 7].disk.durable == states[n + 7].disk.dir
  {
    FileIsSynced(states, events, n, name, snapshot);
    StepAt(states, events, n + 5);
    StepAt(states, events, n + 6);
    assert |TempName(name)| != |name|;
  }

  /** The events can happen one after another, and lead from s to t. */
  ghost predicate Leads(s: State, events: seq<Event>, t: State)
    decreases |events|
  {
    if events == [] then t == s
    else Enabled(s, events[0]) && Leads(Next(s, events[0]), events[1..], t)
  }

  /** And such a write is possible whenever none is under way. */
  lemma WriteIsPossible(s: State, name: string, snapshot: int) returns (t: State)
    requires s.phase.Idle? && DiskInv(s.disk)
    ensures Leads(s, [Begin(name), ClearTemp(true), StartVacuum], t)
    ensures t.phase == Filling(name, s.disk.nextIno)
    ensures exists u :: Leads(t, [FinishVacuum(snapshot), SyncFile(true), RenameTemp(true), SyncDir(true)], u)
                        && LeadsTo(u.disk, name, snapshot) && u.phase.Listing?
  {
    var s1 := Next(s, Begin(name));
    var s2 := Next(s1, ClearTemp(true));
    t := Next(s2, StartVacuum);
    LeadsThree(s, Begin(name), ClearTemp(true), StartVacuum);
    var u := VacuumIsFinished(t, name, s.disk.nextIno, snapshot);
  }

  lemma LeadsThree(s: State, a: Event, b: Event, c: Event)
    requires Enabled(s, a) && Enabled(Next(s, a), b) && Enabled(Next(Next(s, a), b), c)
    ensures Leads(s, [a, b, c], Next(Next(Next(s, a), b), c))
  {
    var s1, s2 := Next(s, a), Next(Next(s, a), b);
    assert Leads(Next(s2, c), [], Next(s2, c)) && [c][1..] == [];
    assert Leads(s2, [c], Next(s2, c)) && [b, c][1..] == [c];
    assert Leads(s1, [b, c], Next(s2, c)) && [a, b, c][1..] == [b, c];
  }

  lemma VacuumIsFinished(t: State, name: string, ino: int, snapshot: int) returns (u: State)
    requires t.phase == Filling(name, ino)
    ensures Leads(t, [FinishVacuum(snapshot), SyncFile(true), RenameTemp(true), SyncDir(true)], u)
    ensures LeadsTo(u.disk, name, snapshot) && u.phase.Listing?
  {
    var a, b, c, d := FinishVacuum(snapshot), SyncFile(true), RenameTemp(true), SyncDir(true);
    var t1 := Next(t, a);
    LeadsThree(t1, b, c, d);
    u := Next(Next(Next(t1, b), c), d);
    assert [a, b, c, d][1..] == [b, c, d];
  }

  /** From a listing to the end of a prune whose removals all succeed. */
  ghost predicate PrunesAll(states: seq<State>, events: seq<Event>, n: nat, m: nat) {
    && Run(states, events) && n < m < |events| && events[n].ListNames? && events[m] == EndPrune
    && forall i :: n < i < m ==> events[i] == PruneOne(true)
  }

  /** How far the prune has got. */
  ghost predicate PrunedTo(states: seq<State>, n: nat, i: nat, names: seq<string>, keep: nat)
    requires n < |states| && i < |states|
  {
    && n < i && i - n - 1 <= Excess(|names|, keep)
    && states[i].phase == Pruning(names[..Excess(|names|, keep)][i - n - 1..])
    && forall x :: x in states[i].disk.dir <==> x in states[n].disk.dir && x !in names[..i - n - 1]
  }

  lemma {:induction false} PruneGoesOn(states: seq<State>, events: seq<Event>, n: nat, m: nat, i: nat)
    requires PrunesAll(states, events, n, m) && n < i <= m
    ensures PrunedTo(states, n, i, events[n].names, events[n].keep)
    decreases i
  {
    var names, keep := events[n].names, events[n].keep;
    var doomed := names[..Excess(|names|, keep)];
    StepAt(states, events, i - 1);
    if i == n + 1 {
      assert doomed[0..] == doomed && names[..0] == [];
    } else {
      PruneGoesOn(states, events, n, m, i - 1);
      var j := i - n - 2;
      assert doomed[j..][1..] == doomed[j + 1..] && doomed[j..][0] == names[j];
      assert names[..j + 1] == names[..j] + [names[j]];
    }
  }

  /** The directory then has the newest backups, as many as are kept, and
      everything else it had. */
  lemma PruneLeavesNewest(states: seq<State>, events: seq<Event>, n: nat, m: nat, x: string)
    requires PrunesAll(states, events, n, m)
    ensures var names := events[n].names;
            x in states[m + 1].disk.dir <==>
              x in states[n].disk.dir && (IsBackupName(x) ==> x in names[Excess(|names|, events[n].keep)..])
  {
    var names, keep := events[n].names, events[n].keep;
    var k := Excess(|names|, keep);
    PruneGoesOn(states, events, n, m, m);
    StepAt(states, events, n);
    StepAt(states, events, m);
    assert names[..k][m - n - 1..] == [];
    NewestAreNotDoomed(names, keep, x);
    assert names == names[..k] + names[k..];
    assert x in Doomed(names, keep, {}) <==> x in names[..k];
  }
}
