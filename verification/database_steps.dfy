// What the code records in the manifest is a step of the database: CompactMemTable and the compaction part of
// BackgroundCompaction in db/db_impl.cc, each up to its call of LogAndApply.
module DatabaseSteps {
  import opened Basics
  import opened InternalKeys
  import opened ReadSpec
  import opened Versions
  import opened CompactionInputs
  import opened Compactions
  import opened CompactionTheorems
  import opened CompactionPicking
  import opened Flushes
  import opened MemTables
  import opened VersionBuilders
  import opened VersionSteps
  import opened Databases
  import opened DatabaseManifest
  import opened DatabaseCode

  // ---------------------------------------------------------------- where the steps lead

  /** `k` file numbers, allocated from `next` on. */
  ghost function Allocated(next: nat, k: nat): set<nat> {
    if k == 0 then {} else Allocated(next, k - 1) + {next + k - 1}
  }

  lemma {:induction false} AllocatedMembers(next: nat, k: nat)
    ensures forall n :: n in Allocated(next, k) <==> next <= n < next + k
  {
    if k > 0 { AllocatedMembers(next, k - 1); }
  }

  /** The database once `k` tables have been written under the next numbers. */
  ghost function TablesMade(db: Db, k: nat): Db
    requires db.mode.Up?
  {
    var m := db.mode.memory;
    var made := Allocated(m.nextFile, k);
    db.(disk := db.disk.(tables := db.disk.tables + made),
        mode := Up(m.(outputs := m.outputs + made, nextFile := m.nextFile + k)))
  }

  lemma {:induction false} ReachTables(db: Db, k: nat)
    requires Reachable(db) && db.mode.Up? && db.mode.memory.pending.None?
    ensures Reachable(TablesMade(db, k))
  {
    hide Reachable;
    if k == 0 {
      assert db.disk.tables + {} == db.disk.tables && db.mode.memory.outputs + {} == db.mode.memory.outputs;
      assert TablesMade(db, 0) == db;
    } else {
      ReachTables(db, k - 1);
      OneTable(db, k - 1);
      ReachStep(TablesMade(db, k - 1), Table, TablesMade(db, k));
    }
  }

  lemma OneTable(db: Db, k: nat)
    requires db.mode.Up? && db.mode.memory.pending.None?
    ensures Step(TablesMade(db, k), Table, TablesMade(db, k + 1))
  {
    var before, m := TablesMade(db, k), db.mode.memory;
    var made, n := Allocated(m.nextFile, k), m.nextFile + k;
    assert db.disk.tables + (made + {n}) == before.disk.tables + {n};
    assert m.outputs + (made + {n}) == before.mode.memory.outputs + {n};
  }

  /** The edit is in the manifest, and the version it leads to is not installed yet. */
  ghost function Recorded(db: Db, e: Edit, v': Version): Db
    requires db.mode.Up? && db.disk.current in db.disk.manifests
  {
    db.(disk := db.disk.(manifests := db.disk.manifests[db.disk.current := Edits(db.disk) + [e]]),
        mode := Up(db.mode.memory.(pending := Some(e), outputs := {})), recorded := v')
  }

  ghost function Flushed(db: Db, level: nat, f: Option<File>, v': Version): Db
    requires db.mode.Up? && db.disk.current in db.disk.manifests
  {
    var m := db.mode.memory;
    Recorded(db, FlushEdit(level, f, m.logfile, m.nextFile, m.lastSequence), v')
  }

  ghost function Compacted(db: Db, level: nat, in0: seq<File>, in1: seq<File>, outs: seq<File>, v': Version): Db
    requires db.mode.Up? && db.disk.current in db.disk.manifests
  {
    var m := db.mode.memory;
    Recorded(db, CompactionEdit(level, in0, in1, outs, m.logNumber, m.nextFile, m.lastSequence), v')
  }

  /** The same, with what a compaction drops and the snapshot it was run at. */
  ghost function Dropping(db: Db, level: nat, in0: seq<File>, in1: seq<File>, snapshot: SequenceNumber, outs: seq<File>,
                          v': Version): Db
    requires db.mode.Up? && db.disk.current in db.disk.manifests && level + 1 < |db.mode.memory.version|
  {
    var v := db.mode.memory.version;
    Compacted(db, level, in0, in1, outs, v').(dropped := db.dropped + (Entries(v) - Entries(v')), floor := snapshot,
                                             safe := db.safe && NothingResurfaces(v, level, in0, in1, snapshot))
  }

  // ---------------------------------------------------------------- what LogAndApply needs

  /** The manifest's files carry allocated numbers, and the version lists each file at one level. */
  lemma VersionNumbers(db: Db)
    requires Inv(db) && db.mode.Up? && db.mode.memory.pending.None?
    ensures var m := db.mode.memory;
            db.recorded == m.version && forall p :: p in PairsOf(SetsOf(m.version)) ==> p.1 < m.nextFile
  {
    BaseOf(db.disk, db.recorded, db.mode.memory.nextFile);
  }

  lemma FlushApplies(level: nat, f: Option<File>, e: Edit, pairs: set<(nat, nat)>, next: nat)
    requires level < NUM_LEVELS && e.added == (if f.Some? then [NewFile(level, f.value)] else [])
    requires (f.Some? ==> f.value.number >= next) && forall p :: p in pairs ==> p.1 < next
    ensures DistinctAdds(e) && AddedPairs(e) !! pairs && forall i :: 0 <= i < |e.added| ==>
            e.added[i].level < NUM_LEVELS
  {
  }

  lemma CompactionApplies(level: nat, outs: seq<File>, e: Edit, pairs: set<(nat, nat)>, next: nat)
    requires level + 1 < NUM_LEVELS && e.added == FilesAt(level + 1, outs) && NumbersAscend(outs)
    requires (forall f :: f in outs ==> f.number >= next) && forall p :: p in pairs ==> p.1 < next
    ensures DistinctAdds(e) && AddedPairs(e) !! pairs && forall i :: 0 <= i < |e.added| ==>
            e.added[i].level < NUM_LEVELS
  {
    CompactionPairs(level, outs, e);
    AscendingDiffer(outs);
  }

  lemma MoveApplies(v: Version, level: nat, f: File, e: Edit)
    requires ValidVersion(v) && level + 1 < NUM_LEVELS && f in v[level] && e.added == FilesAt(level + 1, [f])
    ensures DistinctAdds(e) && AddedPairs(e) !! PairsOf(SetsOf(v)) && forall i :: 0 <= i < |e.added| ==>
            e.added[i].level < |v|
  {
    CompactionPairs(level, [f], e);
    forall p | p in PairsOf(SetsOf(v))
      ensures p !in AddedPairs(e)
    {
      var l, g :| 0 <= l < |v| && g in v[l] && p == (l, g.number);
      assert NumbersDiffer(v, l, level);
    }
  }

  lemma LevelsSorted(v: Version)
    requires ValidVersion(v)
    ensures forall l :: 0 <= l < |v| ==> SortedFiles(v[l])
  {
    forall l | 0 <= l < |v| ensures SortedFiles(v[l]) { assert ValidLevel(v, l); }
  }

  // ---------------------------------------------------------------- the code takes steps of the database

  /** The parts of the running database that the code reads. */
  ghost predicate Running(db: Db, current: Version, nextFile: nat, last: SequenceNumber) {
    && db.mode.Up? && db.disk.current in db.disk.manifests
    && var m := db.mode.memory;
    m.pending.None? && m.version == current && m.nextFile == nextFile && m.lastSequence == last
  }

  lemma FlushIsStep(db: Db, level: nat, f: Option<File>, v': Version)
    requires Inv(db) && db.mode.Up? && db.mode.memory.pending.None? && db.mode.memory.imm.Some? && level < NUM_LEVELS
    requires var m := db.mode.memory;
             && (f.None? <==> m.imm.value == {})
             && (f.Some? ==> && ValidFile(f.value) && f.value.number in m.outputs
                             && LevelEntries([f.value]) == m.imm.value && AllowedLevel(m.version, level, f.value))
             && Lists(v', ApplyEdit(SetsOf(m.version), FlushEdit(level, f, m.logfile, m.nextFile, m.lastSequence)))
    ensures Step(db, Flush(level, f), Flushed(db, level, f, v'))
  {
    hide AllowedLevel, Lists, ApplyEdit, LevelEntries;
  }

  /** CompactMemTable with its LogAndApply up to the manifest: writing the table and recording it are steps of the
      database. */
  method FlushMemTable(ghost db: Db, imm: MemTable, current: Version, logfile: nat, nextFile: nat, last: SequenceNumber,
                       maxFileSize: nat, fileSize: seq<Entry> -> nat)
    returns (edit: Edit, level: nat, f: Option<File>, v': Version)
    requires Reachable(db) && Running(db, current, nextFile, last) && db.mode.memory.logfile == logfile
    requires imm.Valid() && db.mode.memory.imm == Some(imm.Contents())
    ensures Reachable(TablesMade(db, 1))
            && Step(TablesMade(db, 1), Flush(level, f), Flushed(TablesMade(db, 1), level, f, v'))
    ensures Flushed(TablesMade(db, 1), level, f, v').mode.memory.pending == Some(edit)
    ensures f.Some? ==> && f.value.number == nextFile && f.value.size == fileSize(f.value.table)
                        && ValidVersion(current)
                        && IsPickedLevel(current, f.value.smallest.user, f.value.largest.user, maxFileSize, level)
  {
    ReachableInv(db);
    VersionNumbers(db);
    AllocatedMembers(nextFile, 1);
    edit, level, f := CompactMemTable(imm, current, nextFile, logfile, nextFile + 1, last, maxFileSize, fileSize);
    FlushApplies(level, f, edit, PairsOf(SetsOf(current)), nextFile);
    LevelsSorted(current);
    v' := ApplyOne(current, edit);
    ReachTables(db, 1);
    ReachableInv(TablesMade(db, 1));
    FlushIsStep(TablesMade(db, 1), level, f, v');
  }

  /** compact->smallest_snapshot: what no live reader is below. */
  function SmallestSnapshot(snapshots: seq<SequenceNumber>, last: SequenceNumber): SequenceNumber {
    if snapshots == [] then last else snapshots[0]
  }

  lemma SnapshotAllowed(db: Db)
    requires Inv(db) && db.mode.Up?
    ensures db.disk.current in db.disk.manifests
    ensures var m := db.mode.memory;
            var s := SmallestSnapshot(m.snapshots, m.lastSequence);
            db.floor <= s <= m.lastSequence && forall i :: 0 <= i < |m.snapshots| ==> s <= m.snapshots[i]
  {
  }

  lemma MoveIsStep(db: Db, level: nat, f: File, v': Version)
    requires Inv(db) && db.mode.Up? && db.mode.memory.pending.None?
    requires var m := db.mode.memory;
             && GoodPick(m.version, level, [f], [])
             && Lists(v', ApplyEdit(SetsOf(m.version),
                                    CompactionEdit(level, [f], [], [f], m.logNumber, m.nextFile, m.lastSequence)))
    ensures Step(db, Move(level, f), Compacted(db, level, [f], [], [f], v'))
  {
    hide GoodPick, Lists, ApplyEdit;
  }

  lemma CompactStepIsStep(db: Db, level: nat, in0: seq<File>, in1: seq<File>, snapshot: SequenceNumber,
                          merged: seq<Entry>, outs: seq<File>, db': Db)
    requires CompactStep(db, level, in0, in1, snapshot, merged, outs, db')
    ensures Step(db, Compact(level, in0, in1, snapshot, merged, outs), db')
  {
    hide CompactStep;
  }

  lemma CompactionIsStep(db: Db, level: nat, in0: seq<File>, in1: seq<File>, merged: seq<Entry>, outs: seq<File>,
                         v': Version)
    requires Inv(db) && db.mode.Up? && db.mode.memory.pending.None? && db.mode.memory.lastSequence < MAX_SEQUENCE_NUMBER
    requires var m := db.mode.memory;
             var snapshot := SmallestSnapshot(m.snapshots, m.lastSequence);
             && GoodPick(m.version, level, in0, in1)
             && CompactionRun(m.version, level, in0, in1, snapshot, merged, outs)
             && (forall f :: f in outs ==> f.number in m.outputs) && NumbersAscend(outs)
             && Lists(v', ApplyEdit(SetsOf(m.version),
                                    CompactionEdit(level, in0, in1, outs, m.logNumber, m.nextFile, m.lastSequence)))
    ensures var snapshot := SmallestSnapshot(db.mode.memory.snapshots, db.mode.memory.lastSequence);
            level + 1 < |db.mode.memory.version|
            && Step(db, Compact(level, in0, in1, snapshot, merged, outs),
                    Dropping(db, level, in0, in1, snapshot, outs, v'))
  {
    hide Inv, GoodPick, CompactionRun, NumbersAscend, Lists, ApplyEdit, NothingResurfaces, Entries, SmallestSnapshot;
    SnapshotAllowed(db);
    PickedLevel(db.mode.memory.version, level, in0, in1);
    var snapshot := SmallestSnapshot(db.mode.memory.snapshots, db.mode.memory.lastSequence);
    CompactStepIsStep(db, level, in0, in1, snapshot, merged, outs, Dropping(db, level, in0, in1, snapshot, outs, v'));
  }

  lemma PickedLevel(v: Version, level: nat, in0: seq<File>, in1: seq<File>)
    requires GoodPick(v, level, in0, in1)
    ensures |v| == NUM_LEVELS && level + 1 < |v|
  {
  }

  /** A compaction with its LogAndApply up to the manifest: the tables it writes and the edit it records, whether a
      trivial move or not, are steps of the database, at the oldest live snapshot. */
  method RunCompaction(ghost db: Db, c: Compaction, manual: bool, snapshots: seq<SequenceNumber>,
                       fileSize: seq<Entry> -> nat, logNumber: nat, nextFile: nat, last: SequenceNumber)
    returns (edit: Edit, trivial: bool, outs: seq<File>, next: nat, v': Version, ghost merged: seq<Entry>)
    requires Reachable(db) && Running(db, c.version, nextFile, last) && Ready(c) && last < MAX_SEQUENCE_NUMBER
    requires db.mode.memory.logNumber == logNumber && db.mode.memory.snapshots == snapshots
    modifies c`levelPtrs, c`grandparentIndex, c`seenKey, c`overlappedBytes
    ensures nextFile <= next && Reachable(TablesMade(db, next - nextFile)) && c.level + 1 < |c.version|
    ensures var mid := TablesMade(db, next - nextFile);
            var l := if trivial then Move(c.level, c.inputs0[0])
                     else Compact(c.level, c.inputs0, c.inputs1, SmallestSnapshot(snapshots, last), merged, outs);
            var db' := if trivial then Compacted(mid, c.level, c.inputs0, c.inputs1, outs, v')
                       else Dropping(mid, c.level, c.inputs0, c.inputs1, SmallestSnapshot(snapshots, last), outs, v');
            Step(mid, l, db') && db'.mode.memory.pending == Some(edit)
    ensures trivial ==> next == nextFile && |c.inputs0| == 1
  {
    hide Inv, Reachable, Step, Lists, ApplyEdit, NumbersAscend, CompactionRun, ValidVersion, SmallestSnapshot;
    hide Allocated, PairsOf;
    hide DistinctAdds, AddedPairs, Entries, NothingResurfaces;
    var snapshot := SmallestSnapshot(snapshots, last);
    PickedLevel(c.version, c.level, c.inputs0, c.inputs1);
    ReachableInv(db);
    VersionNumbers(db);
    edit, trivial, outs, next := CompactionPicking.Compact(c, manual, snapshot, fileSize, logNumber, nextFile, last);
    var k := next - nextFile;
    AllocatedMembers(nextFile, k);
    merged := [];
    ReachTables(db, k);
    ReachableInv(TablesMade(db, k));
    LevelsSorted(c.version);
    if trivial {
      assert c.inputs0 == [c.inputs0[0]] == outs;
      MoveApplies(c.version, c.level, c.inputs0[0], edit);
      v' := ApplyOne(c.version, edit);
      MoveIsStep(TablesMade(db, k), c.level, c.inputs0[0], v');
    } else {
      merged :| CompactionRun(c.version, c.level, c.inputs0, c.inputs1, snapshot, merged, outs);
      CompactionApplies(c.level, outs, edit, PairsOf(SetsOf(c.version)), nextFile);
      v' := ApplyOne(c.version, edit);
      CompactionIsStep(TablesMade(db, k), c.level, c.inputs0, c.inputs1, merged, outs, v');
    }
  }
}
