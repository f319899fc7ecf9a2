// A run of the database, from its creation on, in which a compaction brings a deleted value back.
module DatabaseResurfaces {
  import opened Basics
  import opened InternalKeys
  import opened ReadSpec
  import opened Versions
  import opened CompactionInputs
  import opened Compactions
  import opened CompactionTheorems
  import opened CompactionResurfaces
  import opened Flushes
  import opened VersionBuilders
  import opened VersionSteps
  import opened Databases
  import opened DatabaseLogs
  import opened DatabaseManifest
  import opened DatabaseSteps

  // ---------------------------------------------------------------- versions and the edits that lead to them

  lemma AddedIsListed(v: Version, level: nat, f: File, e: Edit, v': Version)
    requires ValidVersion(v) && Added(v, level, f, v') && e.deleted == {} && e.added == [NewFile(level, f)]
    ensures Lists(v', ApplyEdit(SetsOf(v), e))
  {
    forall l | 0 <= l < NUM_LEVELS
      ensures SortedFiles(v'[l]) && forall g :: g in v'[l] <==> g in ApplyEdit(SetsOf(v), e)[l]
    {
      assert ValidLevel(v, l);
      assert AddedAt(e, l) == if l == level then {f} else {} by {
        if l == level { assert e.added[0].file == f; }
      }
    }
  }

  lemma InstalledIsListed(v: Version, level: nat, in0: seq<File>, in1: seq<File>, outs: seq<File>, e: Edit, v': Version)
    requires ValidVersion(v) && Installed(v, level, in0, in1, outs, v')
    requires (forall g :: g in in0 ==> g in v[level]) && (forall g :: g in in1 ==> g in v[level + 1])
    requires e.deleted == NumbersAt(level, in0) + NumbersAt(level + 1, in1) && e.added == FilesAt(level + 1, outs)
    ensures Lists(v', ApplyEdit(SetsOf(v), e))
  {
    forall l | 0 <= l < NUM_LEVELS
      ensures SortedFiles(v'[l]) && forall g :: g in v'[l] <==> g in ApplyEdit(SetsOf(v), e)[l]
    {
      assert ValidLevel(v, l);
      AddedAtFiles(level + 1, outs, e, l);
      assert SetsOf(v)[l] == set g | g in v[l];
      forall g | g in v[l]
        ensures (l, g.number) in e.deleted <==> (l == level && g in in0) || (l == level + 1 && g in in1)
      {
        DeletedByNumber(v, level, in0, in1, l, g);
      }
    }
  }

  // ---------------------------------------------------------------- from one quiet state to the next

  /** Up, with nothing in the memtables and nothing under way. */
  ghost predicate Quiet(db: Db, v: Version, next: nat, last: SequenceNumber, snapshots: seq<SequenceNumber>) {
    && db.mode.Up? && db.disk.current in db.disk.manifests
    && var m := db.mode.memory;
    && m == Memory({}, None, m.logfile, v, m.logfile, next, last, {}, snapshots, None)
    && m.logfile in db.disk.logs
  }

  ghost function Written(db: Db, r: seq<Entry>): Db
    requires db.mode.Up? && db.mode.memory.logfile in db.disk.logs
             && db.mode.memory.lastSequence + |r| <= MAX_SEQUENCE_NUMBER
  {
    var m := db.mode.memory;
    var es := set e | e in r;
    db.(disk := db.disk.(logs := db.disk.logs[m.logfile := db.disk.logs[m.logfile] + [r]]),
        mode := Up(m.(mem := m.mem + es, lastSequence := m.lastSequence + |r|)), history := db.history + es)
  }

  ghost function Rotated(db: Db): Db
    requires db.mode.Up?
  {
    var m := db.mode.memory;
    db.(disk := db.disk.(logs := db.disk.logs[m.nextFile := []]),
        mode := Up(m.(mem := {}, imm := Some(m.mem), logfile := m.nextFile, nextFile := m.nextFile + 1)))
  }

  /** Done with a flush if `flushed`, with a compaction otherwise. */
  ghost function DoneWith(db: Db, flushed: bool): Db
    requires db.mode.Up? && db.mode.memory.pending.Some? && db.mode.memory.pending.value.logNumber.Some?
  {
    var m := db.mode.memory;
    db.(mode := Up(m.(version := db.recorded, logNumber := m.pending.value.logNumber.value, pending := None,
                      imm := if flushed then None else m.imm)))
  }

  /** A full memtable has become immutable, and one table file has been made for it. */
  ghost predicate Full(db: Db, v: Version, next: nat, last: SequenceNumber, snapshots: seq<SequenceNumber>,
                       es: set<Entry>) {
    && db.mode.Up? && db.disk.current in db.disk.manifests
    && var m := db.mode.memory;
    && m == Memory({}, Some(es), next, v, m.logNumber, next + 2, last, {next + 1}, snapshots, None)
    && m.logfile in db.disk.logs
  }

  /** A batch is written, the memtable rotated, and a table file made. */
  ghost function AfterWrite(db: Db, r: seq<Entry>): Db
    requires db.mode.Up? && db.mode.memory.logfile in db.disk.logs
             && db.mode.memory.lastSequence + |r| <= MAX_SEQUENCE_NUMBER
  {
    TablesMade(Rotated(Written(db, r)), 1)
  }

  lemma WriteAndRotate(db: Db, v: Version, next: nat, last: SequenceNumber, snapshots: seq<SequenceNumber>,
                       r: seq<Entry>)
    requires Reachable(db) && Quiet(db, v, next, last, snapshots) && FreshRecord(r, last)
    ensures Reachable(AfterWrite(db, r)) && Full(AfterWrite(db, r), v, next, last + |r|, snapshots, set e | e in r)
    ensures AfterWrite(db, r).history == db.history + (set e | e in r) && AfterWrite(db, r).safe == db.safe
  {
    hide Reachable;
    assert WriteStep(db, r, Written(db, r));
    ReachStep(db, Write(r), Written(db, r));
    assert RotateStep(Written(db, r), Rotated(Written(db, r)));
    ReachStep(Written(db, r), Rotate, Rotated(Written(db, r)));
    ReachTables(Rotated(Written(db, r)), 1);
    assert Allocated(next + 1, 1) == Allocated(next + 1, 0) + {next + 1};
    assert {} + (set e | e in r) == (set e | e in r);
  }

  /** The table of the immutable memtable is recorded and installed. */
  lemma FlushFull(db: Db, v: Version, next: nat, last: SequenceNumber, snapshots: seq<SequenceNumber>, es: set<Entry>,
                  level: nat, f: File, v': Version) returns (db': Db)
    requires Reachable(db) && Full(db, v, next, last, snapshots, es) && es != {} && level < |v|
    requires ValidFile(f) && f.number == next + 1 && LevelEntries([f]) == es && AllowedLevel(v, level, f)
             && Added(v, level, f, v')
    ensures Reachable(db') && Quiet(db', v', next + 2, last, snapshots) && db'.history == db.history
            && db'.safe == db.safe
  {
    hide Reachable, Inv, AllowedLevel, Added, ValidFile, LevelEntries, Lists, ApplyEdit, Step;
    ReachableInv(db);
    UpIsValid(db);
    AddedIsListed(v, level, f, FlushEdit(level, Some(f), next, next + 2, last), v');
    FlushIsStep(db, level, Some(f), v');
    var flushed := Flushed(db, level, Some(f), v');
    ReachStep(db, Flush(level, Some(f)), flushed);
    db' := DoneWith(flushed, true);
    InstallIsStep(flushed, db');
    ReachStep(flushed, Install, db');
  }

  lemma InstallIsStep(db: Db, db': Db)
    requires InstallStep(db, db')
    ensures Step(db, Install, db')
  {
  }

  lemma UpIsValid(db: Db)
    requires Inv(db) && db.mode.Up?
    ensures ValidVersion(db.mode.memory.version)
  {
  }

  /** A compaction writes `k` tables, is recorded and installed. */
  lemma CompactQuiet(db: Db, v: Version, next: nat, last: SequenceNumber, snapshots: seq<SequenceNumber>, level: nat,
                     in0: seq<File>, in1: seq<File>, merged: seq<Entry>, outs: seq<File>, v': Version, k: nat)
    returns (db': Db)
    requires Reachable(db) && Quiet(db, v, next, last, snapshots) && last < MAX_SEQUENCE_NUMBER
    requires GoodPick(v, level, in0, in1)
    requires CompactionRun(v, level, in0, in1, SmallestSnapshot(snapshots, last), merged, outs)
    requires (forall f :: f in outs ==> next <= f.number < next + k) && NumbersAscend(outs)
    requires Installed(v, level, in0, in1, outs, v')
    ensures Reachable(db') && Quiet(db', v', next + k, last, snapshots) && db'.history == db.history
    ensures db'.safe == (db.safe && NothingResurfaces(v, level, in0, in1, SmallestSnapshot(snapshots, last)))
  {
    PickedFiles(v, level, in0, in1);
    AllocatedMembers(next, k);
    ReachTables(db, k);
    hide Reachable, Inv, GoodPick, CompactionRun, NumbersAscend, Installed, Lists, ApplyEdit, Step, NothingResurfaces;
    hide Allocated;
    var snapshot := SmallestSnapshot(snapshots, last);
    var made := TablesMade(db, k);
    ReachableInv(made);
    var e := CompactionEdit(level, in0, in1, outs, made.mode.memory.logNumber, next + k, last);
    InstalledIsListed(v, level, in0, in1, outs, e, v');
    CompactionIsStep(made, level, in0, in1, merged, outs, v');
    var compacted := Dropping(made, level, in0, in1, snapshot, outs, v');
    ReachStep(made, Compact(level, in0, in1, snapshot, merged, outs), compacted);
    db' := DoneWith(compacted, false);
    InstallIsStep(compacted, db');
    ReachStep(compacted, Install, db');
  }

  lemma PickedFiles(v: Version, level: nat, in0: seq<File>, in1: seq<File>)
    requires GoodPick(v, level, in0, in1)
    ensures ValidVersion(v) && |v| == NUM_LEVELS && level + 1 < |v|
    ensures (forall f :: f in in0 ==> f in v[level]) && forall f :: f in in1 ==> f in v[level + 1]
  {
  }

  lemma TakeOne(db: Db, v: Version, next: nat, last: SequenceNumber) returns (db': Db)
    requires Reachable(db) && Quiet(db, v, next, last, [])
    ensures Reachable(db') && Quiet(db', v, next, last, [last]) && db'.history == db.history && db'.safe == db.safe
  {
    hide Reachable;
    db' := db.(mode := Up(db.mode.memory.(snapshots := [] + [last])));
    assert SnapshotStep(db, db');
    ReachStep(db, TakeSnapshot, db');
  }

  lemma ReleaseOne(db: Db, v: Version, next: nat, last: SequenceNumber, s: SequenceNumber) returns (db': Db)
    requires Reachable(db) && Quiet(db, v, next, last, [s])
    ensures Reachable(db') && Quiet(db', v, next, last, []) && db'.history == db.history && db'.safe == db.safe
  {
    hide Reachable;
    assert [s][..0] + [s][0 + 1..] == [];
    db' := db.(mode := Up(db.mode.memory.(snapshots := [s][..0] + [s][0 + 1..])));
    assert ReleaseStep(db, 0, db');
    ReachStep(db, ReleaseSnapshot(0), db');
  }

  // ---------------------------------------------------------------- opening a new database

  const NONE: Version := [[], [], [], [], [], [], []]
  const FIRST_EDIT := Edit({}, [], Some(0), Some(2), Some(0))
  const CREATED := Db(Disk({}, map[], map[1 := [FIRST_EDIT]], 1), Down, NONE, {}, {}, 0, true)
  const OPENING := OpenState([], 3, 2, 4, 0)

  lemma CreatedIsInit()
    ensures Init(CREATED)
  {
    assert CREATED.recorded == seq(NUM_LEVELS, _ => []);
  }

  lemma MayOpen()
    ensures OpenStep(CREATED, OPENING, CREATED.(mode := Opening(OPENING)))
  {
    var edits := [FIRST_EDIT];
    assert LastNextFile(edits) == 2 && LastLogNumber(edits) == 0 && LastSequenceOf(edits) == 0;
    assert Logged(CREATED.disk) == {} && LevelEntries([]) == {};
  }

  lemma NewManifest()
    ensures Lists(NONE, Replay(NoFiles(), [SnapshotEdit([]), OpenEdit(OPENING)]))
    ensures forall l :: 0 <= l < |NONE| ==> AddedAt(SnapshotEdit([]), l) == set f | f in NONE[l]
  {
    var snap, open := SnapshotEdit([]), OpenEdit(OPENING);
    var edits := [snap, open];
    assert edits[..1] == [snap] && [snap][..0] == [];
    forall l | 0 <= l < NUM_LEVELS
      ensures AddedAt(snap, l) == {} && AddedAt(open, l) == {} && NONE[l] == []
    {
    }
    assert Replay(NoFiles(), [snap]) == ApplyEdit(NoFiles(), snap);
  }

  /** A database is created and opened. */
  lemma OpenNew() returns (db: Db)
    ensures Reachable(db) && Quiet(db, NONE, 4, 0, []) && db.history == {} && db.safe
  {
    hide Reachable;
    CreatedIsInit();
    ReachInit(CREATED);
    MayOpen();
    var db1 := CREATED.(mode := Opening(OPENING));
    ReachStep(CREATED, Open(OPENING), db1);
    var db2 := db1.(disk := db1.disk.(logs := db1.disk.logs[3 := []]));
    assert OpenWriteStep(db1, NewLogFile, db2);
    ReachStep(db1, OpenWrite(NewLogFile), db2);
    var edits := [SnapshotEdit([]), OpenEdit(OPENING)];
    var db3 := db2.(disk := db2.disk.(manifests := db2.disk.manifests[2 := edits]));
    assert OpenWriteStep(db2, ManifestFile(edits), db3);
    ReachStep(db2, OpenWrite(ManifestFile(edits)), db3);
    db := db3.(disk := db3.disk.(current := 2), mode := Up(Memory({}, None, 3, NONE, 3, 4, 0, {}, [], None)));
    NewManifest();
    assert OpenDoneStep(db3, [], db);
    ReachStep(db3, OpenDone([]), db);
  }

  // ---------------------------------------------------------------- the run

  const PUT_OLD := [Entry(Key(2, 1, Value), [7])]
  const DELETE_AND_PUT := [Entry(Key(2, 2, Deletion), []), Entry(Key(1, 3, Value), [6])]
  const PUT_NEW := [Entry(Key(1, 4, Value), [5])]

  const OLDEST := HIDDEN.(number := 5)
  const MIDDLE := MARKER.(number := 7)

  const FLUSHED: Version := [[], [], [OLDEST], [], [], [], []]
  const STACKED: Version := [[], [MIDDLE], [OLDEST], [], [], [], []]
  const SPLIT: Version := [[], [], [MARKER, HIDDEN], [], [], [], []]
  const SPLIT_ENTRIES := [Entry(Key(1, 3, Value), [6]), Entry(Key(2, 2, Deletion), []), Entry(Key(2, 1, Value), [7])]

  lemma TablesAreValid()
    ensures ValidFile(OLDEST) && ValidFile(MIDDLE) && ValidFile(UPPER)
    ensures LevelEntries([OLDEST]) == set e | e in PUT_OLD
    ensures LevelEntries([MIDDLE]) == set e | e in DELETE_AND_PUT
    ensures LevelEntries([UPPER]) == set e | e in PUT_NEW
  {
    forall i, j ensures InOrder(MIDDLE.table, i, j) { }
    forall e ensures e in LevelEntries([MIDDLE]) <==> e in DELETE_AND_PUT {
      assert MIDDLE in [MIDDLE];
      assert e in MIDDLE.table <==> e == MIDDLE.table[0] || e == MIDDLE.table[1];
      assert e in DELETE_AND_PUT <==> e == DELETE_AND_PUT[0] || e == DELETE_AND_PUT[1];
    }
    assert OLDEST in [OLDEST] && UPPER in [UPPER];
  }

  /** The first value of key 2 goes to level 2; its deletion, flushed later, to level 1. */
  lemma ReachStacked() returns (db: Db)
    ensures Reachable(db) && Quiet(db, STACKED, 8, 3, [1]) && db.safe
    ensures db.history == (set e | e in PUT_OLD) + (set e | e in DELETE_AND_PUT)
  {
    hide Reachable, Quiet, ValidFile, LevelEntries;
    TablesAreValid();
    var db0 := OpenNew();
    var db1 := FlushBatch(db0, NONE, 4, 0, [], PUT_OLD, 2, OLDEST, FLUSHED);
    var db2 := TakeOne(db1, FLUSHED, 6, 1);
    db := FlushBatch(db2, FLUSHED, 6, 1, [1], DELETE_AND_PUT, 1, MIDDLE, STACKED);
  }

  lemma FlushBatch(db: Db, v: Version, next: nat, last: SequenceNumber, snapshots: seq<SequenceNumber>, r: seq<Entry>,
                   level: nat, f: File, v': Version) returns (db': Db)
    requires Reachable(db) && Quiet(db, v, next, last, snapshots) && FreshRecord(r, last) && r != [] && level < |v|
    requires ValidFile(f) && f.number == next + 1 && LevelEntries([f]) == (set e | e in r)
    requires AllowedLevel(v, level, f) && Added(v, level, f, v')
    ensures Reachable(db') && Quiet(db', v', next + 2, last + |r|, snapshots)
    ensures db'.history == db.history + (set e | e in r) && db'.safe == db.safe
  {
    hide Reachable, ValidFile, LevelEntries, AllowedLevel, Added;
    WriteAndRotate(db, v, next, last, snapshots, r);
    var es := set e | e in r;
    assert r[0] in es;
    db' := FlushFull(AfterWrite(db, r), v, next, last + |r|, snapshots, es, level, f, v');
  }

  /** With a snapshot at 1 the compaction of level 1 keeps everything, and cuts between the deletion and the value
      below it. */
  lemma KeepsAll()
    requires ValidVersion(STACKED)
    ensures GoodPick(STACKED, 1, [MIDDLE], [OLDEST])
    ensures CompactionRun(STACKED, 1, [MIDDLE], [OLDEST], 1, SPLIT_ENTRIES, [MARKER, HIDDEN])
  {
    KeepsAllPick();
    forall i, j ensures InOrder(SPLIT_ENTRIES, i, j) { }
    assert MIDDLE in [MIDDLE] && OLDEST in [OLDEST];
    forall e
      ensures e in SPLIT_ENTRIES <==> e in InputEntries([MIDDLE], [OLDEST])
    {
      assert e in SPLIT_ENTRIES <==> e == SPLIT_ENTRIES[0] || e == SPLIT_ENTRIES[1] || e == SPLIT_ENTRIES[2];
      assert e in MIDDLE.table <==> e == MIDDLE.table[0] || e == MIDDLE.table[1];
      assert e in OLDEST.table <==> e == OLDEST.table[0];
    }
    KeepsAllCut();
  }

  lemma KeepsAllPick()
    requires ValidVersion(STACKED)
    ensures GoodPick(STACKED, 1, [MIDDLE], [OLDEST])
  {
    forall f | f in [MIDDLE] ensures f in STACKED[1] { }
    forall f | f in [OLDEST] ensures f in STACKED[2] { }
    forall f | f in STACKED[1] ensures f in [MIDDLE] { }
    forall f | f in STACKED[2] ensures f in [OLDEST] { }
    forall i, j ensures EndsBefore([MIDDLE], i, j) && EndsBefore([OLDEST], i, j) { }
  }

  lemma KeepsAllCut()
    ensures Flatten([MARKER, HIDDEN]) == Kept(SPLIT_ENTRIES, 3, 1, STACKED, 1)
  {
    var es := SPLIT_ENTRIES;
    assert !Dropped(es, 0, 1, STACKED, 1) && !Dropped(es, 1, 1, STACKED, 1) && !Dropped(es, 2, 1, STACKED, 1);
    assert Kept(es, 0, 1, STACKED, 1) == [];
    assert Kept(es, 1, 1, STACKED, 1) == [es[0]];
    assert Kept(es, 2, 1, STACKED, 1) == [es[0], es[1]];
    assert Kept(es, 3, 1, STACKED, 1) == es;
    assert [MARKER, HIDDEN][..1] == [MARKER] && [MARKER][..0] == [];
    assert Flatten([MARKER]) == MARKER.table;
  }

  lemma SplitIsInstalled()
    ensures Installed(STACKED, 1, [MIDDLE], [OLDEST], [MARKER, HIDDEN], SPLIT)
  {
    forall f ensures f in SPLIT[2] <==> f == MARKER || f == HIDDEN { }
    forall f ensures f in STACKED[2] <==> f == OLDEST { }
    forall f ensures f in STACKED[1] <==> f == MIDDLE { }
  }

  lemma SplitIsSafe()
    ensures NothingResurfaces(STACKED, 1, [MIDDLE], [OLDEST], 1)
  {
    forall u ensures Read(LeftBehind(STACKED, 1, [OLDEST]), u, 1) == None {
      assert LeftBehind(STACKED, 1, [OLDEST]) == {};
    }
  }

  /** The version of module CompactionResurfaces is one the database can be in. */
  lemma ReachBefore() returns (db: Db)
    ensures Reachable(db) && Quiet(db, BEFORE, 12, 4, []) && db.safe
    ensures db.history == (set e | e in PUT_OLD) + (set e | e in DELETE_AND_PUT) + (set e | e in PUT_NEW)
  {
    hide Reachable, Quiet, ValidFile, LevelEntries, GoodPick, CompactionRun, Installed, Inv, NothingResurfaces;
    TablesAreValid();
    var db0 := ReachStacked();
    ReachableInv(db0);
    QuietIsValid(db0, STACKED, 8, 3, [1]);
    KeepsAll();
    SplitIsInstalled();
    SplitIsSafe();
    SplitNumbers();
    var db1 := CompactQuiet(db0, STACKED, 8, 3, [1], 1, [MIDDLE], [OLDEST], SPLIT_ENTRIES, [MARKER, HIDDEN], SPLIT, 2);
    var db2 := FlushBatch(db1, SPLIT, 10, 3, [1], PUT_NEW, 1, UPPER, BEFORE);
    db := ReleaseOne(db2, BEFORE, 12, 4, 1);
  }

  lemma SplitNumbers()
    ensures (forall f :: f in [MARKER, HIDDEN] ==> 8 <= f.number < 8 + 2) && NumbersAscend([MARKER, HIDDEN])
  {
    forall i, j ensures NumberedBefore([MARKER, HIDDEN], i, j) { }
  }

  lemma QuietIsValid(db: Db, v: Version, next: nat, last: SequenceNumber, snapshots: seq<SequenceNumber>)
    requires Inv(db) && Quiet(db, v, next, last, snapshots)
    ensures ValidVersion(v)
  {
  }

  /** A run of the database after which the latest read returns the value of key 2 although the key was deleted. */
  lemma DeletionIsForgotten() returns (states: seq<Db>, labels: seq<Label>)
    ensures Run(states, labels) && var db := states[|labels|];
            && db.mode.Up? && !db.safe && db.mode.memory.version == AFTER
            && Read(db.history, 2, db.mode.memory.lastSequence) == None
            && Read(InMemory(db.mode.memory), 2, db.mode.memory.lastSequence) == Some([7])
  {
    hide GoodPick, CompactionRun, Installed, NothingResurfaces, Inv, Read, Step;
    var db0 := ReachBefore();
    DeletedValueComesBack();
    OutputNumbers();
    var db := CompactQuiet(db0, BEFORE, 12, 4, [], 1, [UPPER], [MARKER], MERGED, [OUTPUT], AFTER, 1);
    assert InMemory(db.mode.memory) == Entries(AFTER);
    DeletedInHistory(db.history);
    states, labels :| Run(states, labels) && states[|labels|] == db;
  }

  lemma OutputNumbers()
    ensures (forall f :: f in [OUTPUT] ==> 12 <= f.number < 12 + 1) && NumbersAscend([OUTPUT])
  {
    forall i, j ensures NumberedBefore([OUTPUT], i, j) { }
  }

  lemma DeletedInHistory(history: set<Entry>)
    requires history == (set e | e in PUT_OLD) + (set e | e in DELETE_AND_PUT) + (set e | e in PUT_NEW)
    ensures Read(history, 2, 4) == None
  {
    assert DELETE_AND_PUT[0] in history;
    forall e ensures e in history <==> e in {PUT_OLD[0], DELETE_AND_PUT[0], DELETE_AND_PUT[1], PUT_NEW[0]} {
      assert e in DELETE_AND_PUT <==> e == DELETE_AND_PUT[0] || e == DELETE_AND_PUT[1];
    }
    ReadNewest(history, 2, 4, DELETE_AND_PUT[0]);
  }
}
