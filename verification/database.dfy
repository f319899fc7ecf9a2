// The database as a state machine over its durable and in-memory steps, with a crash possible between any two:
// db/db_impl.cc together with LogAndApply and Recover in db/version_set.cc.  Appends are durable, renames atomic.
module Databases {
  import opened Basics
  import opened InternalKeys
  import opened ReadSpec
  import opened Versions
  import opened CompactionInputs
  import opened Compactions
  import opened CompactionTheorems
  import opened Flushes
  import opened VersionBuilders
  import opened VersionSteps

  /** A write-ahead log is a list of records, each the entries of one write batch. */
  type Log = seq<seq<Entry>>

  /** `current` is the manifest CURRENT names; a manifest is the list of edits recorded in it. */
  datatype Disk = Disk(tables: set<nat>, logs: map<nat, Log>, manifests: map<nat, seq<Edit>>, current: nat)

  datatype Memory = Memory(mem: set<Entry>, imm: Option<set<Entry>>, logfile: nat, version: Version, logNumber: nat,
                           nextFile: nat, lastSequence: SequenceNumber, outputs: set<nat>,
                           snapshots: seq<SequenceNumber>, pending: Option<Edit>)

  /** DB::Open under way: the level-0 tables made from the logs, and the numbers chosen for the new log and manifest. */
  datatype OpenState = OpenState(files: seq<File>, newLog: nat, manifest: nat, nextFile: nat,
                                 lastSequence: SequenceNumber)

  datatype Mode = Down | Opening(open: OpenState) | Up(memory: Memory)

  /** `recorded` is the version the current manifest describes; `history` every entry ever committed;
      `dropped` what compactions removed.  Reads are promised for sequence numbers from `floor` on, as long as `safe`:
      every compaction so far met the condition NothingResurfaces. */
  datatype Db = Db(disk: Disk, mode: Mode, recorded: Version, history: set<Entry>, dropped: set<Entry>,
                   floor: SequenceNumber, safe: bool)

  // ---------------------------------------------------------------- reading a manifest

  ghost function NoFiles(): LevelSets {
    seq(NUM_LEVELS, _ => {})
  }

  function LastLogNumber(edits: seq<Edit>): nat {
    if edits == [] then 0
    else match edits[|edits| - 1].logNumber { case Some(n) => n case None => LastLogNumber(edits[..|edits| - 1]) }
  }

  function LastNextFile(edits: seq<Edit>): nat {
    if edits == [] then 0
    else match edits[|edits| - 1].nextFile { case Some(n) => n case None => LastNextFile(edits[..|edits| - 1]) }
  }

  function LastSequenceOf(edits: seq<Edit>): SequenceNumber {
    if edits == [] then 0
    else match edits[|edits| - 1].lastSequence { case Some(n) => n case None => LastSequenceOf(edits[..|edits| - 1]) }
  }

  // ---------------------------------------------------------------- logs

  ghost function RecordSet(log: Log): set<Entry> {
    set r, e | r in log && e in r :: e
  }

  ghost function LogRange(logs: map<nat, Log>, lo: nat, hi: nat): set<Entry> {
    set n, r, e | n in logs && lo <= n < hi && r in logs[n] && e in r :: e
  }

  ghost function LogEntries(logs: map<nat, Log>, from: nat): set<Entry> {
    set n, r, e | n in logs && from <= n && r in logs[n] && e in r :: e
  }

  predicate SnLess(e: Entry, d: Entry) {
    e.key.sn < d.key.sn
  }

  ghost predicate SnBelow(a: set<Entry>, b: set<Entry>) {
    forall e, d {:trigger SnLess(e, d)} :: e in a && d in b ==> SnLess(e, d)
  }

  ghost predicate InLog(logs: map<nat, Log>, from: nat, n: nat, i: int) {
    n in logs && from <= n && 0 <= i < |logs[n]|
  }

  predicate Earlier(n: nat, i: int, m: nat, j: int) {
    n < m || (n == m && i < j)
  }

  ghost predicate RecordSorted(r: seq<Entry>) {
    forall a, b :: 0 <= a < b < |r| ==> r[a].key.sn < r[b].key.sn
  }

  ghost predicate RecordBefore(r: seq<Entry>, q: seq<Entry>) {
    forall e, d {:trigger SnLess(e, d)} :: e in r && d in q ==> SnLess(e, d)
  }

  /** Read in order, the records of the live logs carry increasing sequence numbers. */
  ghost predicate LogsOrdered(logs: map<nat, Log>, from: nat) {
    && (forall n, i {:trigger InLog(logs, from, n, i)} :: InLog(logs, from, n, i) ==> RecordSorted(logs[n][i]))
    && forall n, i, m, j {:trigger InLog(logs, from, n, i), InLog(logs, from, m, j)} ::
         InLog(logs, from, n, i) && InLog(logs, from, m, j) && Earlier(n, i, m, j) ==>
           RecordBefore(logs[n][i], logs[m][j])
  }

  ghost predicate ReadsAgree(contents: set<Entry>, history: set<Entry>, floor: SequenceNumber) {
    forall u, s {:trigger Read(contents, u, s)} :: floor <= s ==> Read(contents, u, s) == Read(history, u, s)
  }

  ghost predicate SnAtMost(a: set<Entry>, s: SequenceNumber) {
    forall e :: e in a ==> e.key.sn <= s
  }

  /** The number of some entry, or zero. */
  ghost predicate Attained(a: set<Entry>, s: SequenceNumber) {
    s == 0 || exists e :: e in a && e.key.sn == s
  }

  // ---------------------------------------------------------------- the invariant

  ghost function Edits(d: Disk): seq<Edit>
    requires d.current in d.manifests
  {
    d.manifests[d.current]
  }

  /** Every (level, number) pair ever recorded: numbers are below `next`, and files only move down. */
  ghost predicate PairsBelow(pairs: set<(nat, nat)>, v: Version, next: nat) {
    forall p :: p in pairs ==> p.1 < next && forall k, f :: 0 <= k < |v| && f in v[k] && f.number == p.1 ==> p.0 <= k
  }

  ghost predicate TablesPresent(v: Version, tables: set<nat>) {
    forall l, f :: 0 <= l < |v| && f in v[l] ==> f.number in tables
  }

  ghost predicate NumbersBelow(v: Version, next: nat) {
    forall l, f :: 0 <= l < |v| && f in v[l] ==> f.number < next
  }

  ghost predicate ManifestOk(edits: seq<Edit>, tables: set<nat>, recorded: Version) {
    && AddsOnce(NoFiles(), edits) && Lists(recorded, Replay(NoFiles(), edits))
    && ValidVersion(recorded) && TablesPresent(recorded, tables)
    && PairsBelow(AllPairs(NoFiles(), edits), recorded, LastNextFile(edits))
    && NumbersBelow(recorded, LastNextFile(edits))
    && LastLogNumber(edits) < LastNextFile(edits)
  }

  /** The entries a recovery would read from the logs. */
  ghost function Logged(d: Disk): set<Entry>
    requires d.current in d.manifests
  {
    LogEntries(d.logs, LastLogNumber(Edits(d)))
  }

  /** What a recovery from this disk would find. */
  ghost function Durable(d: Disk, recorded: Version): set<Entry>
    requires d.current in d.manifests
  {
    Entries(recorded) + Logged(d)
  }

  /** Every committed entry is in a table or a live log, once, or was removed by a compaction. */
  ghost predicate Conserved(history: set<Entry>, tabled: set<Entry>, logged: set<Entry>, dropped: set<Entry>,
                            last: SequenceNumber) {
    && history == tabled + logged + dropped
    && tabled !! dropped && SnBelow(tabled + dropped, logged)
    && Unique(history)
    && SnAtMost(tabled + dropped, last)
  }

  ghost predicate DiskOk(db: Db) {
    && db.disk.current in db.disk.manifests && db.disk.current < LastNextFile(Edits(db.disk))
    && ManifestOk(Edits(db.disk), db.disk.tables, db.recorded)
    && Conserved(db.history, Entries(db.recorded), Logged(db.disk), db.dropped, LastSequenceOf(Edits(db.disk)))
    && (db.safe ==> ReadsAgree(Durable(db.disk, db.recorded), db.history, db.floor))
    && db.floor <= LastSequenceOf(Edits(db.disk))
    && LogsOrdered(db.disk.logs, LastLogNumber(Edits(db.disk)))
    && Attained(db.history, LastSequenceOf(Edits(db.disk)))
  }

  ghost function ImmSet(m: Memory): set<Entry> {
    if m.imm.Some? then m.imm.value else {}
  }

  ghost function InMemory(m: Memory): set<Entry> {
    Entries(m.version) + ImmSet(m) + m.mem
  }

  /** The memtables are exactly what the live logs hold. */
  ghost predicate LogsMatch(logs: map<nat, Log>, m: Memory) {
    && m.logfile in logs && m.logNumber <= m.logfile < m.nextFile
    && (forall n :: n in logs ==> n <= m.logfile)
    && m.mem == RecordSet(logs[m.logfile])
    && ImmSet(m) == LogRange(logs, m.logNumber, m.logfile)
    && (m.imm.Some? ==> m.logNumber < m.logfile)
  }

  ghost predicate PendingOk(edits: seq<Edit>, recorded: Version, m: Memory) {
    match m.pending
    case None => recorded == m.version && LastLogNumber(edits) == m.logNumber
    case Some(e) =>
      && e.logNumber == Some(LastLogNumber(edits))
      && Lists(recorded, ApplyEdit(SetsOf(m.version), e))
      && if m.imm.Some? && e.logNumber == Some(m.logfile) then true else e.logNumber == Some(m.logNumber)
  }

  /** Tables written but not yet recorded have numbers the manifest has never seen. */
  ghost predicate OutputsOk(outputs: set<nat>, tables: set<nat>, edits: seq<Edit>, next: nat) {
    forall n :: n in outputs ==> n < next && n in tables && forall p :: p in AllPairs(NoFiles(), edits) ==> p.1 < n
  }

  /** Live snapshots are listed in the order they were taken, oldest first. */
  ghost predicate SnapshotsOk(m: Memory, floor: SequenceNumber) {
    && (forall i :: 0 <= i < |m.snapshots| ==> floor <= m.snapshots[i] <= m.lastSequence)
    && forall i, j :: 0 <= i < j < |m.snapshots| ==> m.snapshots[i] <= m.snapshots[j]
  }

  ghost predicate MemoryOk(db: Db, m: Memory)
    requires db.disk.current in db.disk.manifests
  {
    && ValidVersion(m.version) && TablesPresent(m.version, db.disk.tables)
    && LogsMatch(db.disk.logs, m) && PendingOk(Edits(db.disk), db.recorded, m)
    && LastNextFile(Edits(db.disk)) <= m.nextFile
    && OutputsOk(m.outputs, db.disk.tables, Edits(db.disk), m.nextFile)
    && (m.pending.Some? ==> m.outputs == {})
    && LastSequenceOf(Edits(db.disk)) <= m.lastSequence && SnAtMost(db.history, m.lastSequence)
    && Attained(db.history, m.lastSequence)
    && SnapshotsOk(m, db.floor)
    && InMemory(m) <= db.history && SnBelow(Entries(m.version), ImmSet(m) + m.mem) && SnBelow(ImmSet(m), m.mem)
    && (db.safe ==> ReadsAgree(InMemory(m), db.history, db.floor))
  }

  /** Tables made from the logs: together exactly the logged entries, each table newer than the one before. */
  ghost predicate RecoveredTables(files: seq<File>, logged: set<Entry>) {
    && (forall f :: f in files ==> ValidFile(f))
    && LevelEntries(files) == logged
    && forall i, j, e, d {:trigger SnLess(e, d), files[i], files[j]} ::
         0 <= i < j < |files| && e in files[i].table && d in files[j].table ==> SnLess(e, d)
  }

  /** The largest of `recorded` and the numbers of these entries. */
  ghost predicate IsLargest(a: set<Entry>, recorded: SequenceNumber, s: SequenceNumber) {
    recorded <= s && SnAtMost(a, s) && (s == recorded || exists e :: e in a && e.key.sn == s)
  }

  ghost predicate OpeningOk(db: Db, o: OpenState)
    requires db.disk.current in db.disk.manifests
  {
    var edits := Edits(db.disk);
    && RecoveredTables(o.files, Logged(db.disk))
    && (forall i, j :: 0 <= i < j < |o.files| ==> o.files[i].number < o.files[j].number)
    && (forall f :: f in o.files ==> LastNextFile(edits) < f.number < o.newLog)
    && (forall n :: n in db.disk.logs ==> n <= o.newLog) && (o.newLog in db.disk.logs ==> db.disk.logs[o.newLog] == [])
    && o.manifest == LastNextFile(edits) < o.newLog < o.nextFile
    && IsLargest(Logged(db.disk), LastSequenceOf(edits), o.lastSequence)
  }

  ghost predicate Inv(db: Db) {
    && DiskOk(db)
    && match db.mode
       case Down => true
       case Opening(o) => OpeningOk(db, o)
       case Up(m) => MemoryOk(db, m)
  }

  // ---------------------------------------------------------------- the steps

  /** Write: the log record and the memtable insertion of one batch group. */
  ghost predicate WriteStep(db: Db, r: seq<Entry>, db': Db) {
    && db.mode.Up?
    && var m := db.mode.memory;
    && m.lastSequence + |r| <= MAX_SEQUENCE_NUMBER
    && (forall i :: 0 <= i < |r| ==> r[i].key.sn == m.lastSequence + 1 + i)
    && m.logfile in db.disk.logs
    && var es := set e | e in r;
    && db' == db.(disk := db.disk.(logs := db.disk.logs[m.logfile := db.disk.logs[m.logfile] + [r]]),
                  mode := Up(m.(mem := m.mem + es, lastSequence := m.lastSequence + |r|)),
                  history := db.history + es)
  }

  /** MakeRoomForWrite: a new log, and the memtable becomes immutable. */
  ghost predicate RotateStep(db: Db, db': Db) {
    && db.mode.Up?
    && var m := db.mode.memory;
    && m.imm.None?
    && db' == db.(disk := db.disk.(logs := db.disk.logs[m.nextFile := []]),
                  mode := Up(m.(mem := {}, imm := Some(m.mem), logfile := m.nextFile, nextFile := m.nextFile + 1)))
  }

  /** A table file is written and synced under a freshly allocated number. */
  ghost predicate TableStep(db: Db, db': Db) {
    && db.mode.Up?
    && var m := db.mode.memory;
    && m.pending.None?
    && db' == db.(disk := db.disk.(tables := db.disk.tables + {m.nextFile}),
                  mode := Up(m.(outputs := m.outputs + {m.nextFile}, nextFile := m.nextFile + 1)))
  }

  /** LogAndApply appends an edit to the manifest; the new version is not installed yet. */
  ghost predicate Append(db: Db, e: Edit, db': Db) {
    && db.mode.Up? && db.disk.current in db.disk.manifests
    && var m := db.mode.memory;
    && m.pending.None?
    && Lists(db'.recorded, ApplyEdit(SetsOf(m.version), e))
    && db'.disk == db.disk.(manifests := db.disk.manifests[db.disk.current := Edits(db.disk) + [e]])
    && db'.mode == Up(m.(pending := Some(e), outputs := {}))
    && db'.history == db.history
  }

  /** CompactMemTable. */
  ghost predicate FlushStep(db: Db, level: nat, f: Option<File>, db': Db) {
    && db.mode.Up?
    && var m := db.mode.memory;
    && m.imm.Some? && level < NUM_LEVELS && level < |m.version|
    && Append(db, FlushEdit(level, f, m.logfile, m.nextFile, m.lastSequence), db')
    && (f.None? <==> m.imm.value == {})
    && (f.Some? ==> && ValidFile(f.value) && f.value.number in m.outputs && LevelEntries([f.value]) == m.imm.value
                    && AllowedLevel(m.version, level, f.value))
    && db'.dropped == db.dropped && db'.floor == db.floor && db'.safe == db.safe
  }

  /** A trivial move of one file to the next level. */
  ghost predicate MoveStep(db: Db, level: nat, f: File, db': Db) {
    && db.mode.Up?
    && var m := db.mode.memory;
    && GoodPick(m.version, level, [f], [])
    && Append(db, CompactionEdit(level, [f], [], [f], m.logNumber, m.nextFile, m.lastSequence), db')
    && db'.dropped == db.dropped && db'.floor == db.floor && db'.safe == db.safe
  }

  /** A compaction, at a snapshot no live reader is below. */
  ghost predicate CompactStep(db: Db, level: nat, in0: seq<File>, in1: seq<File>, snapshot: SequenceNumber,
                              merged: seq<Entry>, outs: seq<File>, db': Db) {
    && db.mode.Up?
    && var m := db.mode.memory;
    && GoodPick(m.version, level, in0, in1) && CompactionRun(m.version, level, in0, in1, snapshot, merged, outs)
    && db.floor <= snapshot <= m.lastSequence && snapshot < MAX_SEQUENCE_NUMBER
    && (forall i :: 0 <= i < |m.snapshots| ==> snapshot <= m.snapshots[i])
    && (forall f :: f in outs ==> f.number in m.outputs)
    && NumbersAscend(outs)
    && Append(db, CompactionEdit(level, in0, in1, outs, m.logNumber, m.nextFile, m.lastSequence), db')
    && db'.dropped == db.dropped + (Entries(m.version) - Entries(db'.recorded)) && db'.floor == snapshot
    && db'.safe == (db.safe && NothingResurfaces(m.version, level, in0, in1, snapshot))
  }

  /** LogAndApply finishes: the new version and log number become current. */
  ghost predicate InstallStep(db: Db, db': Db) {
    && db.mode.Up?
    && var m := db.mode.memory;
    && m.pending.Some? && m.pending.value.logNumber.Some?
    && var flushed := m.imm.Some? && m.pending.value.logNumber == Some(m.logfile);
    && db' == db.(mode := Up(m.(version := db.recorded, logNumber := m.pending.value.logNumber.value, pending := None,
                                imm := if flushed then None else m.imm)))
  }

  /** RemoveObsoleteFiles: any tables outside the version and the pending outputs, any logs below the log number. */
  ghost predicate CleanStep(db: Db, db': Db) {
    && db.mode.Up?
    && var m := db.mode.memory;
    && m.pending.None?
    && db' == db.(disk := db'.disk)
    && db'.disk.current == db.disk.current && db.disk.current in db'.disk.manifests
    && db.disk.current in db.disk.manifests
    && (forall n :: n in db'.disk.manifests ==> n in db.disk.manifests && db'.disk.manifests[n] == db.disk.manifests[n])
    && (forall n :: n in db'.disk.logs ==> n in db.disk.logs && db'.disk.logs[n] == db.disk.logs[n])
    && (forall n :: n in db.disk.logs && n >= m.logNumber ==> n in db'.disk.logs)
    && TablesPresent(m.version, db'.disk.tables) && m.outputs <= db'.disk.tables <= db.disk.tables
  }

  ghost predicate SnapshotStep(db: Db, db': Db) {
    && db.mode.Up?
    && var m := db.mode.memory;
    && db' == db.(mode := Up(m.(snapshots := m.snapshots + [m.lastSequence])))
  }

  ghost predicate ReleaseStep(db: Db, i: nat, db': Db) {
    && db.mode.Up?
    && var m := db.mode.memory;
    && i < |m.snapshots|
    && db' == db.(mode := Up(m.(snapshots := m.snapshots[..i] + m.snapshots[i + 1..])))
  }

  /** Everything in memory is lost. */
  ghost predicate CrashStep(db: Db, db': Db) {
    db' == db.(mode := Down)
  }

  /** Recover has read the manifest and the logs and chosen every number it will use. */
  ghost predicate OpenStep(db: Db, o: OpenState, db': Db) {
    && db.mode.Down? && db.disk.current in db.disk.manifests
    && TablesPresent(db.recorded, db.disk.tables)
    && OpeningOk(db, o) && o.newLog !in db.disk.logs
    && db' == db.(mode := Opening(o))
  }

  datatype OpenWriteKind = TableFile(number: nat) | NewLogFile | ManifestFile(edits: seq<Edit>)

  /** Recovery writes a table, creates the new log, or writes (part of) the new manifest. */
  ghost predicate OpenWriteStep(db: Db, w: OpenWriteKind, db': Db) {
    && db.mode.Opening?
    && var o := db.mode.open;
    && db' == db.(disk :=
         match w
         case TableFile(n) => db.disk.(tables := db.disk.tables + {n})
         case NewLogFile => db.disk.(logs := db.disk.logs[o.newLog := []])
         case ManifestFile(es) => db.disk.(manifests := db.disk.manifests[o.manifest := es]))
  }

  ghost function SnapshotEdit(files: seq<NewFile>): Edit {
    Edit({}, files, None, None, None)
  }

  ghost function OpenEdit(o: OpenState): Edit {
    Edit({}, FilesAt(0, o.files), Some(o.newLog), Some(o.nextFile), Some(o.lastSequence))
  }

  /** CURRENT is switched to the complete new manifest. */
  ghost predicate OpenDoneStep(db: Db, all: seq<NewFile>, db': Db) {
    && db.mode.Opening?
    && var o := db.mode.open;
    && o.newLog in db.disk.logs && (forall f :: f in o.files ==> f.number in db.disk.tables)
    && DistinctAdds(SnapshotEdit(all))
    && (forall i :: 0 <= i < |all| ==> all[i].level < NUM_LEVELS)
    && (forall l :: 0 <= l < |db.recorded| ==> AddedAt(SnapshotEdit(all), l) == set f | f in db.recorded[l])
    && o.manifest in db.disk.manifests && db.disk.manifests[o.manifest] == [SnapshotEdit(all), OpenEdit(o)]
    && Lists(db'.recorded, Replay(NoFiles(), [SnapshotEdit(all), OpenEdit(o)]))
    && db'.disk == db.disk.(current := o.manifest)
    && db'.mode == Up(Memory({}, None, o.newLog, db'.recorded, o.newLog, o.nextFile, o.lastSequence, {}, [], None))
    && db'.history == db.history && db'.dropped == db.dropped && db'.floor == db.floor && db'.safe == db.safe
  }

  datatype Label =
    | Write(record: seq<Entry>)
    | Rotate
    | Table
    | Flush(flushLevel: nat, table: Option<File>)
    | Move(moveLevel: nat, file: File)
    | Compact(level: nat, in0: seq<File>, in1: seq<File>, snapshot: SequenceNumber, merged: seq<Entry>, outs: seq<File>)
    | Install
    | Clean
    | TakeSnapshot
    | ReleaseSnapshot(index: nat)
    | Crash
    | Open(open: OpenState)
    | OpenWrite(kind: OpenWriteKind)
    | OpenDone(all: seq<NewFile>)

  ghost predicate Step(db: Db, l: Label, db': Db) {
    match l
    case Write(r) => WriteStep(db, r, db')
    case Rotate => RotateStep(db, db')
    case Table => TableStep(db, db')
    case Flush(level, f) => FlushStep(db, level, f, db')
    case Move(level, f) => MoveStep(db, level, f, db')
    case Compact(level, in0, in1, snapshot, merged, outs) =>
      CompactStep(db, level, in0, in1, snapshot, merged, outs, db')
    case Install => InstallStep(db, db')
    case Clean => CleanStep(db, db')
    case TakeSnapshot => SnapshotStep(db, db')
    case ReleaseSnapshot(i) => ReleaseStep(db, i, db')
    case Crash => CrashStep(db, db')
    case Open(o) => OpenStep(db, o, db')
    case OpenWrite(w) => OpenWriteStep(db, w, db')
    case OpenDone(all) => OpenDoneStep(db, all, db')
  }

  /** NewDB: an empty manifest, before the first open. */
  ghost predicate Init(db: Db) {
    && db.mode.Down? && db.disk.tables == {} && db.disk.logs == map[]
    && db.disk.manifests == map[1 := [Edit({}, [], Some(0), Some(2), Some(0))]] && db.disk.current == 1
    && db.recorded == seq(NUM_LEVELS, _ => []) && db.history == {} && db.dropped == {} && db.floor == 0 && db.safe
  }
}
