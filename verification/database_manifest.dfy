// The steps of the database that append to or replace the manifest keep its invariant, and the theorems about runs.
module DatabaseManifest {
  import opened Basics
  import opened InternalKeys
  import opened ReadSpec
  import opened Versions
  import opened CompactionInputs
  import opened Compactions
  import opened CompactionTheorems
  import opened Flushes
  import opened VersionBuilders
  import opened VersionSteps
  import opened Databases
  import opened DatabaseLogs

  // ---------------------------------------------------------------- appending one edit

  lemma {:induction false} ReplayPairs(sets: LevelSets, edits: seq<Edit>, l: nat, f: File)
    requires |Replay(sets, edits)| == |sets|
    requires l < |sets| && f in Replay(sets, edits)[l]
    ensures (l, f.number) in AllPairs(sets, edits)
  {
    if edits != [] {
      var before, e := edits[..|edits| - 1], edits[|edits| - 1];
      if f in AddedAt(e, l) {
        var i :| 0 <= i < |e.added| && e.added[i].level == l && e.added[i].file == f;
        assert (e.added[i].level, e.added[i].file.number) in AddedPairs(e);
      } else {
        ReplayPairs(sets, before, l, f);
      }
    }
  }

  lemma {:induction false} ReplayLength(sets: LevelSets, edits: seq<Edit>)
    ensures |Replay(sets, edits)| == |sets|
  {
    if edits != [] { ReplayLength(sets, edits[..|edits| - 1]); }
  }

  /** Every file of the version was recorded at its level. */
  ghost predicate Listed(v: Version, pairs: set<(nat, nat)>) {
    forall l: nat, f :: l < |v| && f in v[l] ==> (l, f.number) in pairs
  }

  /** A version together with what the manifest and the table directory say about it. */
  ghost predicate Base(v: Version, pairs: set<(nat, nat)>, next: nat, tables: set<nat>) {
    ValidVersion(v) && TablesPresent(v, tables) && NumbersBelow(v, next) && PairsBelow(pairs, v, next)
      && Listed(v, pairs)
  }

  /** An edit that may be recorded, leading to `v'`. */
  ghost predicate GoodEdit(pairs: set<(nat, nat)>, next: nat, tables: set<nat>, e: Edit, v': Version) {
    && DistinctAdds(e) && (forall i :: 0 <= i < |e.added| ==> e.added[i].level < NUM_LEVELS)
    && AddedPairs(e) !! pairs
    && ValidVersion(v') && TablesPresent(v', tables) && NumbersBelow(v', next)
    && PairsBelow(pairs + AddedPairs(e), v', next)
  }

  lemma BaseOf(d: Disk, recorded: Version, next: nat)
    requires d.current in d.manifests && ManifestOk(Edits(d), d.tables, recorded) && LastNextFile(Edits(d)) <= next
    ensures Base(recorded, AllPairs(NoFiles(), Edits(d)), next, d.tables)
  {
    forall l: nat, f | l < |recorded| && f in recorded[l]
      ensures (l, f.number) in AllPairs(NoFiles(), Edits(d))
    {
      ReplayLength(NoFiles(), Edits(d));
      ReplayPairs(NoFiles(), Edits(d), l, f);
    }
  }

  /** LogAndApply: appending a good edit keeps the manifest in order. */
  lemma AppendKeepsManifest(d: Disk, v: Version, next: nat, e: Edit, v': Version)
    requires d.current in d.manifests && ManifestOk(Edits(d), d.tables, v) && LastNextFile(Edits(d)) <= next
    requires Lists(v', ApplyEdit(SetsOf(v), e))
    requires GoodEdit(AllPairs(NoFiles(), Edits(d)), next, d.tables, e, v')
    requires e.nextFile == Some(next) && e.logNumber.Some? && e.logNumber.value < next && e.lastSequence.Some?
    ensures var d' := d.(manifests := d.manifests[d.current := Edits(d) + [e]]);
            && ManifestOk(Edits(d'), d'.tables, v') && LastLogNumber(Edits(d')) == e.logNumber.value
            && LastSequenceOf(Edits(d')) == e.lastSequence.value && LastNextFile(Edits(d')) == next
            && AllPairs(NoFiles(), Edits(d')) == AllPairs(NoFiles(), Edits(d)) + AddedPairs(e)
  {
    var edits, edits' := Edits(d), Edits(d) + [e];
    assert edits'[..|edits'| - 1] == edits;
    ListsSets(v, Replay(NoFiles(), edits));
  }

  lemma OutputsAreFresh(db: Db, n: nat)
    requires Inv(db) && db.mode.Up? && db.mode.memory.pending.None? && n in db.mode.memory.outputs
    ensures n < db.mode.memory.nextFile && n in db.disk.tables
    ensures forall p :: p in AllPairs(NoFiles(), Edits(db.disk)) ==> p.1 < n
  {
  }

  lemma SnBelowDisjoint(a: set<Entry>, b: set<Entry>)
    requires SnBelow(a, b)
    ensures a !! b
  {
    forall e | e in a
      ensures e !in b
    {
      assert e in b ==> SnLess(e, e);
    }
  }

  /** Recording an edit leaves everything in memory as it was. */
  lemma AppendKeepsMemory(db: Db, e: Edit, db': Db)
    requires Inv(db) && Append(db, e, db') && DiskOk(db') && db.floor <= db'.floor
    requires e.logNumber == Some(LastLogNumber(Edits(db'.disk)))
             && LastNextFile(Edits(db'.disk)) == db.mode.memory.nextFile
    requires LastSequenceOf(Edits(db'.disk)) == db.mode.memory.lastSequence
    requires e.logNumber == Some(db.mode.memory.logNumber)
             || (db.mode.memory.imm.Some? && e.logNumber == Some(db.mode.memory.logfile))
    requires forall i :: 0 <= i < |db.mode.memory.snapshots| ==> db'.floor <= db.mode.memory.snapshots[i]
    requires db'.safe ==> db.safe
    ensures Inv(db')
  {
    assert InMemory(db'.mode.memory) == InMemory(db.mode.memory);
  }

  // ---------------------------------------------------------------- flushing the memtable

  /** The version part of a flush. */
  lemma FlushVersion(v: Version, level: nat, t: File, e: Edit, v': Version)
    requires ValidVersion(v) && level < NUM_LEVELS && e.deleted == {} && e.added == [NewFile(level, t)]
    requires FreshTable(v, t) && AllowedLevel(v, level, t) && Lists(v', ApplyEdit(SetsOf(v), e))
    ensures ValidVersion(v') && Added(v, level, t, v') && Entries(v') == Entries(v) + LevelEntries([t])
    ensures AddedPairs(e) == {(level, t.number)} && DistinctAdds(e)
  {
    FlushEditAdds(v, level, t, e, v');
    FlushKeepsValid(v, level, t, v');
    AddedEntries(v, level, t, v');
    assert e.added[0] == NewFile(level, t);
  }

  lemma AddedNumbers(v: Version, level: nat, t: File, v': Version, pairs: set<(nat, nat)>, next: nat, tables: set<nat>)
    requires Added(v, level, t, v') && PairsBelow(pairs, v, next) && NumbersBelow(v, next) && Listed(v, pairs)
    requires t.number < next && (forall p :: p in pairs ==> p.1 < t.number)
    requires TablesPresent(v, tables) && t.number in tables
    ensures PairsBelow(pairs + {(level, t.number)}, v', next) && NumbersBelow(v', next) && TablesPresent(v', tables)
  {
    forall l: nat, g | l < |v| && g in v[l] ensures g.number < t.number { assert (l, g.number) in pairs; }
  }

  lemma FlushIsGood(v: Version, level: nat, t: File, e: Edit, v': Version, pairs: set<(nat, nat)>, next: nat,
                    tables: set<nat>)
    requires Base(v, pairs, next, tables) && level < NUM_LEVELS && e.deleted == {} && e.added == [NewFile(level, t)]
    requires FreshTable(v, t) && AllowedLevel(v, level, t) && Lists(v', ApplyEdit(SetsOf(v), e))
    requires t.number < next && t.number in tables && forall p :: p in pairs ==> p.1 < t.number
    ensures GoodEdit(pairs, next, tables, e, v') && Entries(v') == Entries(v) + LevelEntries([t])
  {
    FlushVersion(v, level, t, e, v');
    AddedNumbers(v, level, t, v', pairs, next, tables);
  }

  lemma FlushNothingIsGood(v: Version, e: Edit, v': Version, pairs: set<(nat, nat)>, next: nat, tables: set<nat>)
    requires Base(v, pairs, next, tables) && e.deleted == {} && e.added == [] && Lists(v', ApplyEdit(SetsOf(v), e))
    ensures GoodEdit(pairs, next, tables, e, v') && v' == v
  {
    EmptyEditKeeps(v, e, v');
    assert AddedPairs(e) == {};
  }

  lemma FlushedTableIsFresh(db: Db, level: nat, t: File, db': Db)
    requires Inv(db) && FlushStep(db, level, Some(t), db')
    ensures FreshTable(db.mode.memory.version, t)
  {
    var m := db.mode.memory;
    OutputsAreFresh(db, t.number);
    BaseOf(db.disk, db.recorded, m.nextFile);
    forall l: nat, g | l < |m.version| && g in m.version[l]
      ensures g.number < t.number
    {
      assert (l, g.number) in AllPairs(NoFiles(), Edits(db.disk));
    }
    assert t in [t];
    forall e, d | e in t.table && d in Entries(m.version)
      ensures e.key.sn > d.key.sn
    {
      assert e in LevelEntries([t]) && SnLess(d, e);
    }
    forall e | e in LevelEntries([t]) ensures e in db.history { assert e in InMemory(m); }
  }

  lemma FlushKeepsManifest(db: Db, level: nat, f: Option<File>, db': Db)
    requires Inv(db) && FlushStep(db, level, f, db')
    ensures ManifestOk(Edits(db'.disk), db'.disk.tables, db'.recorded)
            && LastLogNumber(Edits(db'.disk)) == db.mode.memory.logfile
    ensures LastSequenceOf(Edits(db'.disk)) == db.mode.memory.lastSequence
    ensures LastNextFile(Edits(db'.disk)) == db.mode.memory.nextFile
    ensures Entries(db'.recorded) == Entries(db.recorded) + db.mode.memory.imm.value
  {
    var m := db.mode.memory;
    var e := FlushEdit(level, f, m.logfile, m.nextFile, m.lastSequence);
    var pairs := AllPairs(NoFiles(), Edits(db.disk));
    BaseOf(db.disk, db.recorded, m.nextFile);
    if f.None? {
      FlushNothingIsGood(m.version, e, db'.recorded, pairs, m.nextFile, db.disk.tables);
    } else {
      FlushedTableIsFresh(db, level, f.value, db');
      OutputsAreFresh(db, f.value.number);
      FlushIsGood(m.version, level, f.value, e, db'.recorded, pairs, m.nextFile, db.disk.tables);
    }
    AppendKeepsManifest(db.disk, m.version, m.nextFile, e, db'.recorded);
  }

  lemma FlushedLogs(logs: map<nat, Log>, m: Memory)
    requires m.imm.Some? && m.logfile in logs && m.logNumber <= m.logfile && (forall n :: n in logs ==> n <= m.logfile)
    requires m.mem == RecordSet(logs[m.logfile]) && m.imm.value == LogRange(logs, m.logNumber, m.logfile)
    ensures LogEntries(logs, m.logNumber) == m.imm.value + m.mem && LogEntries(logs, m.logfile) == m.mem
  {
    SplitLogs(logs, m.logNumber, m.logfile);
    SplitLogs(logs, m.logfile, m.logfile);
    EmptyRange(logs, m.logfile);
  }

  lemma ConservedByFlush(history: set<Entry>, tabled: set<Entry>, dropped: set<Entry>, imm: set<Entry>, mem: set<Entry>,
                         last: SequenceNumber, last': SequenceNumber)
    requires Conserved(history, tabled, imm + mem, dropped, last) && SnBelow(imm, mem)
    requires last <= last' && SnAtMost(history, last')
    ensures Conserved(history, tabled + imm, mem, dropped, last')
  {
    SnBelowDisjoint(tabled + dropped, imm + mem);
  }

  lemma FlushKeepsContents(db: Db, m: Memory, db': Db)
    requires DiskOk(db) && m.imm.Some? && LogsMatch(db.disk.logs, m) && LastLogNumber(Edits(db.disk)) == m.logNumber
    requires SnBelow(m.imm.value, m.mem) && SnAtMost(db.history, m.lastSequence)
    requires db'.disk.logs == db.disk.logs && db'.disk.current == db.disk.current
             && db'.disk.current in db'.disk.manifests
    requires LastLogNumber(Edits(db'.disk)) == m.logfile && LastSequenceOf(Edits(db'.disk)) == m.lastSequence
    requires LastSequenceOf(Edits(db.disk)) <= m.lastSequence
             && Entries(db'.recorded) == Entries(db.recorded) + m.imm.value
    requires db'.history == db.history && db'.dropped == db.dropped
    ensures Durable(db'.disk, db'.recorded) == Durable(db.disk, db.recorded)
    ensures Conserved(db'.history, Entries(db'.recorded), Logged(db'.disk), db'.dropped, m.lastSequence)
  {
    FlushedLogs(db.disk.logs, m);
    ConservedByFlush(db.history, Entries(db.recorded), db.dropped, m.imm.value, m.mem,
                     LastSequenceOf(Edits(db.disk)), m.lastSequence);
  }

  lemma FlushKeepsInv(db: Db, level: nat, f: Option<File>, db': Db)
    requires Inv(db) && FlushStep(db, level, f, db')
    ensures Inv(db')
  {
    var m := db.mode.memory;
    FlushKeepsManifest(db, level, f, db');
    FlushKeepsContents(db, m, db');
    OrderedLater(db.disk.logs, m.logNumber, db.disk.logs, m.logfile);
    AppendKeepsMemory(db, FlushEdit(level, f, m.logfile, m.nextFile, m.lastSequence), db');
  }

  // ---------------------------------------------------------------- compactions and moves

  lemma CompactionPairs(level: nat, outs: seq<File>, e: Edit)
    requires e.added == FilesAt(level + 1, outs)
    ensures AddedPairs(e) == NumbersAt(level + 1, outs)
    ensures (forall i, j :: 0 <= i < j < |outs| ==> outs[i].number != outs[j].number) ==> DistinctAdds(e)
  {
    forall p
      ensures p in AddedPairs(e) <==> p in NumbersAt(level + 1, outs)
    {
      if p in AddedPairs(e) {
        var i :| 0 <= i < |e.added| && p == (e.added[i].level, e.added[i].file.number);
        assert outs[i] in outs;
      }
      if p in NumbersAt(level + 1, outs) {
        var f :| f in outs && p == (level + 1, f.number);
        var i :| 0 <= i < |outs| && outs[i] == f;
        assert e.added[i] == NewFile(level + 1, f);
      }
    }
  }

  /** A version after a compaction or move: where its files come from. */
  lemma InstalledSource(v: Version, level: nat, in0: seq<File>, in1: seq<File>, outs: seq<File>, v': Version, l: nat,
                        f: File)
    requires Installed(v, level, in0, in1, outs, v') && l < NUM_LEVELS && f in v'[l]
    ensures (f in v[l] && !(l == level && f in in0)) || (l == level + 1 && f in outs)
  {
  }

  lemma MovePairs(v: Version, level: nat, f: File, v': Version, pairs: set<(nat, nat)>, next: nat)
    requires Installed(v, level, [f], [], [f], v') && f in v[level]
    requires forall l, m :: NumbersDiffer(v, l, m)
    requires PairsBelow(pairs, v, next) && Listed(v, pairs)
    ensures (level + 1, f.number) !in pairs && PairsBelow(pairs + {(level + 1, f.number)}, v', next)
  {
    assert (level, f.number) in pairs;
    assert f in [f];
    forall p, k: nat, g | p in pairs + {(level + 1, f.number)} && k < |v'| && g in v'[k] && g.number == p.1
      ensures p.0 <= k
    {
      InstalledSource(v, level, [f], [], [f], v', k, g);
      assert NumbersDiffer(v, k, level);
    }
  }

  lemma MoveIsGood(v: Version, level: nat, f: File, e: Edit, v': Version, pairs: set<(nat, nat)>, next: nat,
                   tables: set<nat>)
    requires Base(v, pairs, next, tables) && GoodPick(v, level, [f], [])
    requires e.deleted == NumbersAt(level, [f]) + NumbersAt(level + 1, []) && e.added == FilesAt(level + 1, [f])
    requires Lists(v', ApplyEdit(SetsOf(v), e))
    ensures GoodEdit(pairs, next, tables, e, v') && Entries(v') == Entries(v)
  {
    assert f in [f] && f in v[level];
    CompactionEditInstalls(v, level, [f], [], [f], e, v');
    TrivialMoveKeepsEntries(v, level, f, v');
    CompactionPairs(level, [f], e);
    assert AddedPairs(e) == {(level + 1, f.number)};
    MovePairs(v, level, f, v', pairs, next);
    forall l, g: File | 0 <= l < |v'| && g in v'[l]
      ensures g.number in tables && g.number < next
    {
      InstalledSource(v, level, [f], [], [f], v', l, g);
    }
  }

  lemma MoveKeepsInv(db: Db, level: nat, f: File, db': Db)
    requires Inv(db) && MoveStep(db, level, f, db')
    ensures Inv(db')
  {
    var m := db.mode.memory;
    var e := CompactionEdit(level, [f], [], [f], m.logNumber, m.nextFile, m.lastSequence);
    BaseOf(db.disk, db.recorded, m.nextFile);
    MoveIsGood(m.version, level, f, e, db'.recorded, AllPairs(NoFiles(), Edits(db.disk)), m.nextFile, db.disk.tables);
    AppendKeepsManifest(db.disk, m.version, m.nextFile, e, db'.recorded);
    assert Durable(db'.disk, db'.recorded) == Durable(db.disk, db.recorded);
    AppendKeepsMemory(db, e, db');
  }

  lemma KeptAreInputs(v: Version, level: nat, in0: seq<File>, in1: seq<File>, snapshot: SequenceNumber,
                      merged: seq<Entry>, outs: seq<File>)
    requires CompactionRun(v, level, in0, in1, snapshot, merged, outs)
    ensures DisjointFiles(outs) && forall e :: e in LevelEntries(outs) ==> e in InputEntries(in0, in1)
  {
    KeptIsSublist(merged, |merged|, snapshot, v, level);
    CutsOfSorted(outs);
    forall e | e in LevelEntries(outs)
      ensures e in InputEntries(in0, in1)
    {
      assert e in Flatten(outs);
    }
  }

  lemma AscendingDiffer(outs: seq<File>)
    requires NumbersAscend(outs)
    ensures forall i, j :: 0 <= i < j < |outs| ==> outs[i].number != outs[j].number
    ensures forall f, g :: f in outs && g in outs && f.number == g.number ==> f == g
  {
    forall i, j | 0 <= i < j < |outs| ensures outs[i].number != outs[j].number { assert NumberedBefore(outs, i, j); }
  }

  lemma CompactPairs(v: Version, level: nat, in0: seq<File>, in1: seq<File>, outs: seq<File>, v': Version,
                     pairs: set<(nat, nat)>, next: nat, tables: set<nat>)
    requires Installed(v, level, in0, in1, outs, v')
    requires PairsBelow(pairs, v, next) && Listed(v, pairs) && TablesPresent(v, tables) && NumbersBelow(v, next)
    requires forall f :: f in outs ==> f.number < next && f.number in tables
    requires forall f, p :: f in outs && p in pairs ==> p.1 < f.number
    ensures NumbersAt(level + 1, outs) !! pairs && PairsBelow(pairs + NumbersAt(level + 1, outs), v', next)
    ensures TablesPresent(v', tables) && NumbersBelow(v', next)
  {
    forall l: nat, f | l < |v'| && f in v'[l]
      ensures f.number in tables && f.number < next
      ensures forall p :: p in pairs + NumbersAt(level + 1, outs) && p.1 == f.number ==> p.0 <= l
    {
      InstalledSource(v, level, in0, in1, outs, v', l, f);
    }
  }

  /** What DoCompactionWork writes makes a good edit. */
  lemma CompactIsGood(v: Version, level: nat, in0: seq<File>, in1: seq<File>, snapshot: SequenceNumber,
                      merged: seq<Entry>, outs: seq<File>, e: Edit, v': Version, pairs: set<(nat, nat)>, next: nat,
                        tables: set<nat>)
    requires Base(v, pairs, next, tables) && GoodPick(v, level, in0, in1)
             && CompactionRun(v, level, in0, in1, snapshot, merged, outs)
    requires NumbersAscend(outs)
    requires e.deleted == NumbersAt(level, in0) + NumbersAt(level + 1, in1) && e.added == FilesAt(level + 1, outs)
    requires Lists(v', ApplyEdit(SetsOf(v), e))
    requires forall f :: f in outs ==> f.number < next && f.number in tables
    requires forall f, p :: f in outs && p in pairs ==> p.1 < f.number
    ensures GoodEdit(pairs, next, tables, e, v') && CompactionStep(v, level, in0, in1, snapshot, merged, outs, v')
    ensures Entries(v') <= Entries(v)
  {
    CompactionEditInstalls(v, level, in0, in1, outs, e, v');
    KeptAreInputs(v, level, in0, in1, snapshot, merged, outs);
    AscendingDiffer(outs);
    forall l: nat, f, g | l < |v| && f in v[l] && g in outs
      ensures f.number < g.number
    {
      assert (l, f.number) in pairs;
    }
    assert GoodOutputs(v, level, in0, in1, outs);
    CompactionKeepsValid(v, level, in0, in1, outs, v');
    InstalledEntries(v, level, in0, in1, outs, v');
    CompactionPairs(level, outs, e);
    CompactPairs(v, level, in0, in1, outs, v', pairs, next, tables);
  }

  lemma CompactKeepsManifest(db: Db, level: nat, in0: seq<File>, in1: seq<File>, snapshot: SequenceNumber,
                             merged: seq<Entry>, outs: seq<File>, db': Db)
    requires Inv(db) && CompactStep(db, level, in0, in1, snapshot, merged, outs, db')
    ensures CompactionStep(db.recorded, level, in0, in1, snapshot, merged, outs, db'.recorded)
    ensures ManifestOk(Edits(db'.disk), db'.disk.tables, db'.recorded)
            && LastLogNumber(Edits(db'.disk)) == db.mode.memory.logNumber
    ensures LastSequenceOf(Edits(db'.disk)) == db.mode.memory.lastSequence
    ensures LastNextFile(Edits(db'.disk)) == db.mode.memory.nextFile
    ensures Entries(db'.recorded) <= Entries(db.recorded)
  {
    var m := db.mode.memory;
    var e := CompactionEdit(level, in0, in1, outs, m.logNumber, m.nextFile, m.lastSequence);
    BaseOf(db.disk, db.recorded, m.nextFile);
    forall f | f in outs
      ensures f.number < m.nextFile && f.number in db.disk.tables
      ensures forall p :: p in AllPairs(NoFiles(), Edits(db.disk)) ==> p.1 < f.number
    {
      OutputsAreFresh(db, f.number);
    }
    CompactIsGood(m.version, level, in0, in1, snapshot, merged, outs, e, db'.recorded,
                  AllPairs(NoFiles(), Edits(db.disk)), m.nextFile, db.disk.tables);
    AppendKeepsManifest(db.disk, m.version, m.nextFile, e, db'.recorded);
  }

  /** Dropping entries that no permitted read can see. */
  lemma CompactKeepsReads(v: Version, level: nat, in0: seq<File>, in1: seq<File>, snapshot: SequenceNumber,
                          merged: seq<Entry>, outs: seq<File>, v': Version, logged: set<Entry>, history: set<Entry>,
                          floor: SequenceNumber)
    requires CompactionStep(v, level, in0, in1, snapshot, merged, outs, v')
             && NothingResurfaces(v, level, in0, in1, snapshot)
    requires Entries(v') <= Entries(v) && SnBelow(Entries(v), logged) && Unique(Entries(v) + logged)
             && floor <= snapshot
    requires snapshot < MAX_SEQUENCE_NUMBER
    requires ReadsAgree(Entries(v) + logged, history, floor)
    ensures ReadsAgree(Entries(v') + logged, history, snapshot)
  {
    var before, after := Entries(v), Entries(v');
    forall u, s: SequenceNumber | snapshot <= s
      ensures Read(after + logged, u, s) == Read(history, u, s)
    {
      ReadSurvives(v, level, in0, in1, snapshot, merged, outs, v', u, s);
      forall e, d | e in logged && d in before ensures e.key.sn > d.key.sn { assert SnLess(d, e); }
      ReadUnderNewer(after, before, logged, u, s);
      assert Read(before + logged, u, s) == Read(history, u, s);
    }
  }

  lemma CompactKeepsDisk(db: Db, level: nat, in0: seq<File>, in1: seq<File>, snapshot: SequenceNumber,
                         merged: seq<Entry>, outs: seq<File>, db': Db)
    requires Inv(db) && CompactStep(db, level, in0, in1, snapshot, merged, outs, db')
    ensures DiskOk(db')
  {
    hide CompactionStep, GoodPick, CompactionRun, NothingResurfaces, ManifestOk, Entries, LogEntries, ReadsAgree;
    hide LogsOrdered;
    var logged := Logged(db.disk);
    CompactKeepsManifest(db, level, in0, in1, snapshot, merged, outs, db');
    if db'.safe {
      CompactKeepsReads(db.recorded, level, in0, in1, snapshot, merged, outs, db'.recorded, logged, db.history,
                        db.floor);
    }
  }

  lemma CompactKeepsInv(db: Db, level: nat, in0: seq<File>, in1: seq<File>, snapshot: SequenceNumber,
                        merged: seq<Entry>, outs: seq<File>, db': Db)
    requires Inv(db) && CompactStep(db, level, in0, in1, snapshot, merged, outs, db')
    ensures Inv(db')
  {
    var m := db.mode.memory;
    CompactKeepsManifest(db, level, in0, in1, snapshot, merged, outs, db');
    CompactKeepsDisk(db, level, in0, in1, snapshot, merged, outs, db');
    AppendKeepsMemory(db, CompactionEdit(level, in0, in1, outs, m.logNumber, m.nextFile, m.lastSequence), db');
  }

  // ---------------------------------------------------------------- recovery

  lemma CrashKeepsInv(db: Db, db': Db)
    requires Inv(db) && CrashStep(db, db')
    ensures Inv(db')
  {
  }

  lemma OpenKeepsInv(db: Db, o: OpenState, db': Db)
    requires Inv(db) && OpenStep(db, o, db')
    ensures Inv(db')
  {
  }

  lemma OpenWriteKeepsInv(db: Db, w: OpenWriteKind, db': Db)
    requires Inv(db) && OpenWriteStep(db, w, db')
    ensures Inv(db')
  {
    var o := db.mode.open;
    assert Edits(db'.disk) == Edits(db.disk);
    if w.NewLogFile? {
      NewLog(db.disk.logs, o.newLog, LastLogNumber(Edits(db.disk)));
      OrderedLater(db.disk.logs, LastLogNumber(Edits(db.disk)), db'.disk.logs, LastLogNumber(Edits(db.disk)));
    }
    assert Durable(db'.disk, db'.recorded) == Durable(db.disk, db.recorded);
  }

  /** `v'` is `v` with all the recovered tables at level 0. */
  ghost predicate ManyAdded(v: Version, files: seq<File>, v': Version) {
    && |v| == |v'| == NUM_LEVELS
    && (forall l :: 1 <= l < NUM_LEVELS ==> v'[l] == v[l])
    && (forall f :: f in v'[0] <==> f in v[0] || f in files) && SortedFiles(v'[0])
  }

  ghost predicate RecoveredAfter(v: Version, files: seq<File>) {
    && RecoveredTables(files, LevelEntries(files)) && SnBelow(Entries(v), LevelEntries(files))
    && (forall i, j :: 0 <= i < j < |files| ==> files[i].number < files[j].number)
    && (forall l, f, g :: 0 <= l < |v| && f in v[l] && g in files ==> f.number < g.number)
  }

  lemma RecoveredNewer(v: Version, files: seq<File>, f: File, g: File)
    requires RecoveredAfter(v, files) && f in files && g in files && f.number > g.number
    ensures Newer(f, g)
  {
    var i :| 0 <= i < |files| && files[i] == f;
    var j :| 0 <= j < |files| && files[j] == g;
    assert j < i;
    forall a, b | a in f.table && b in g.table
      ensures a.key.sn > b.key.sn
    {
      assert SnLess(b, a);
    }
  }

  lemma RecoveredNewerThanOld(v: Version, files: seq<File>, f: File, l: nat, g: File)
    requires RecoveredAfter(v, files) && f in files && l < |v| && g in v[l]
    ensures Newer(f, g)
  {
    forall a, b | a in f.table && b in g.table && a.key.user == b.key.user
      ensures a.key.sn > b.key.sn
    {
      assert a in LevelEntries(files) && b in Entries(v) && SnLess(b, a);
    }
  }

  lemma RecoveredLevels(v: Version, files: seq<File>, v': Version)
    requires ValidVersion(v) && ManyAdded(v, files, v') && RecoveredAfter(v, files)
    ensures forall l :: ValidLevel(v', l)
  {
    forall l
      ensures ValidLevel(v', l)
    {
      assert ValidLevel(v, l);
      if l == 0 {
        forall f, g | f in v'[0] && g in v'[0] && f.number > g.number
          ensures Newer(f, g)
        {
          if f in files && g in files {
            RecoveredNewer(v, files, f, g);
          } else if f in files {
            RecoveredNewerThanOld(v, files, f, 0, g);
          }
        }
      }
    }
  }

  lemma RecoveredOrder(v: Version, files: seq<File>, v': Version, l: int, m: int)
    requires ValidVersion(v) && ManyAdded(v, files, v') && RecoveredAfter(v, files)
    ensures LevelNewer(v', l, m) && NumbersDiffer(v', l, m)
  {
    assert LevelNewer(v, l, m) && NumbersDiffer(v, l, m);
    if 0 <= l < m < |v'| {
      forall f, g | f in v'[l] && g in v'[m]
        ensures Newer(f, g)
      {
        if f !in v[l] { RecoveredNewerThanOld(v, files, f, m, g); }
      }
    }
    if 0 <= l < |v'| && 0 <= m < |v'| {
      forall f, g | f in v'[l] && g in v'[m] && f.number == g.number
        ensures l == m && f == g
      {
        if f in files && g in files {
          var i :| 0 <= i < |files| && files[i] == f;
          var j :| 0 <= j < |files| && files[j] == g;
          assert i == j;
        }
      }
    }
  }

  lemma RecoveredEntries(v: Version, files: seq<File>, v': Version)
    requires ManyAdded(v, files, v')
    ensures Entries(v') == Entries(v) + LevelEntries(files)
  {
    forall e
      ensures e in Entries(v') <==> e in Entries(v) || e in LevelEntries(files)
    {
      if e in Entries(v') {
        var l, g :| 0 <= l < |v'| && g in v'[l] && e in g.table;
        assert g in v[l] || g in files;
      }
      if e in Entries(v) {
        var l, g :| 0 <= l < |v| && g in v[l] && e in g.table;
        assert g in v'[l];
      }
      if e in LevelEntries(files) {
        var g :| g in files && e in g.table;
        assert g in v'[0];
      }
    }
  }

  /** Adding the tables recovered from the logs keeps every invariant of a version. */
  lemma RecoveryKeepsValid(v: Version, files: seq<File>, v': Version)
    requires ValidVersion(v) && ManyAdded(v, files, v') && RecoveredAfter(v, files)
    requires Unique(Entries(v) + LevelEntries(files))
    ensures ValidVersion(v')
  {
    RecoveredLevels(v, files, v');
    forall l, m ensures LevelNewer(v', l, m) && NumbersDiffer(v', l, m) { RecoveredOrder(v, files, v', l, m); }
    RecoveredEntries(v, files, v');
  }

  /** The two records of a new manifest describe the old version plus the recovered tables. */
  lemma NewManifestAdds(v: Version, o: OpenState, all: seq<NewFile>, v': Version)
    requires ValidVersion(v) && Lists(v', Replay(NoFiles(), [SnapshotEdit(all), OpenEdit(o)]))
    requires forall l :: 0 <= l < |v| ==> AddedAt(SnapshotEdit(all), l) == set f | f in v[l]
    ensures ManyAdded(v, o.files, v')
  {
    var snap, edit := SnapshotEdit(all), OpenEdit(o);
    var edits := [snap, edit];
    assert edits[..1] == [snap] && [snap][..0] == [];
    ReplayLength(NoFiles(), edits);
    assert Replay(NoFiles(), [snap]) == ApplyEdit(NoFiles(), snap);
    forall l | 0 <= l < NUM_LEVELS
      ensures Replay(NoFiles(), edits)[l] == (set f | f in v[l]) + if l == 0 then set f | f in o.files else {}
    {
      AddedAtFiles(0, o.files, edit, l);
      assert ApplyEdit(NoFiles(), snap)[l] == AddedAt(snap, l);
    }
    forall l | 1 <= l < NUM_LEVELS
      ensures v'[l] == v[l]
    {
      assert ValidLevel(v, l);
      SortedListUnique(v'[l], v[l]);
    }
  }

  lemma SnapshotPairs(v: Version, all: seq<NewFile>, p: (nat, nat))
    requires |v| == NUM_LEVELS && (forall i :: 0 <= i < |all| ==> all[i].level < NUM_LEVELS)
    requires forall l :: 0 <= l < |v| ==> AddedAt(SnapshotEdit(all), l) == set f | f in v[l]
    requires p in AddedPairs(SnapshotEdit(all))
    ensures p.0 < |v| && exists f :: f in v[p.0] && f.number == p.1
  {
    var e := SnapshotEdit(all);
    var i :| 0 <= i < |e.added| && p == (e.added[i].level, e.added[i].file.number);
    assert e.added[i].file in AddedAt(e, p.0);
  }

  /** The new manifest records every file of the recovered version once, at its level. */
  lemma NewManifestPairs(all: seq<NewFile>, o: OpenState, v: Version, v': Version)
    requires ManyAdded(v, o.files, v') && DistinctAdds(SnapshotEdit(all)) && NumbersBelow(v, o.manifest)
    requires forall i :: 0 <= i < |all| ==> all[i].level < NUM_LEVELS
    requires forall l :: 0 <= l < |v| ==> AddedAt(SnapshotEdit(all), l) == set f | f in v[l]
    requires forall f :: f in o.files ==> o.manifest < f.number
    requires forall i, j :: 0 <= i < j < |o.files| ==> o.files[i].number < o.files[j].number
    ensures AddsOnce(NoFiles(), [SnapshotEdit(all), OpenEdit(o)])
    ensures forall p :: p in AllPairs(NoFiles(), [SnapshotEdit(all), OpenEdit(o)]) ==>
                          p.0 < |v'| && exists f :: f in v'[p.0] && f.number == p.1
  {
    var snap, edit := SnapshotEdit(all), OpenEdit(o);
    var edits := [snap, edit];
    assert edits[..1] == [snap] && [snap][..0] == [];
    assert PairsOf(NoFiles()) == {};
    assert AllPairs(NoFiles(), [snap]) == AddedPairs(snap);
    forall p | p in AddedPairs(snap)
      ensures p.0 < |v'| && p.1 < o.manifest && exists f :: f in v'[p.0] && f.number == p.1
    {
      SnapshotPairs(v, all, p);
      var f :| f in v[p.0] && f.number == p.1;
      assert f in v'[p.0];
    }
    forall p | p in AddedPairs(edit)
      ensures o.manifest < p.1 && p.0 == 0 && exists f :: f in v'[0] && f.number == p.1
    {
      var i :| 0 <= i < |edit.added| && p == (edit.added[i].level, edit.added[i].file.number);
      assert o.files[i] in o.files && o.files[i] in v'[0];
    }
    assert AddsOnce(NoFiles(), [snap]);
  }

  lemma PairsOfFiles(pairs: set<(nat, nat)>, v: Version, next: nat)
    requires forall l, m :: NumbersDiffer(v, l, m)
    requires forall p :: p in pairs ==> p.0 < |v| && exists f :: f in v[p.0] && f.number == p.1
    requires NumbersBelow(v, next)
    ensures PairsBelow(pairs, v, next)
  {
    forall p | p in pairs
      ensures p.1 < next && forall k, f :: 0 <= k < |v| && f in v[k] && f.number == p.1 ==> p.0 <= k
    {
      forall k, f | 0 <= k < |v| && f in v[k] && f.number == p.1 ensures p.0 <= k { assert NumbersDiffer(v, k, p.0); }
    }
  }

  lemma OpenDoneVersion(db: Db, all: seq<NewFile>, db': Db)
    requires Inv(db) && OpenDoneStep(db, all, db')
    ensures ValidVersion(db'.recorded) && ManyAdded(db.recorded, db.mode.open.files, db'.recorded)
    ensures Entries(db'.recorded) == Durable(db.disk, db.recorded)
  {
    var o := db.mode.open;
    NewManifestAdds(db.recorded, o, all, db'.recorded);
    forall l, f, g | 0 <= l < |db.recorded| && f in db.recorded[l] && g in o.files
      ensures f.number < g.number
    {
      assert f.number < LastNextFile(Edits(db.disk));
    }
    assert RecoveredAfter(db.recorded, o.files);
    RecoveryKeepsValid(db.recorded, o.files, db'.recorded);
    RecoveredEntries(db.recorded, o.files, db'.recorded);
  }

  lemma RecoveredNumbers(v: Version, o: OpenState, v': Version, tables: set<nat>)
    requires ManyAdded(v, o.files, v') && TablesPresent(v, tables) && NumbersBelow(v, o.manifest)
             && o.manifest < o.nextFile
    requires forall f :: f in o.files ==> f.number in tables && f.number < o.nextFile
    ensures TablesPresent(v', tables) && NumbersBelow(v', o.nextFile)
  {
    forall l, f | 0 <= l < |v'| && f in v'[l]
      ensures f.number in tables && f.number < o.nextFile
    {
      assert f in v[l] || f in o.files;
    }
  }

  lemma OpenDoneManifest(db: Db, all: seq<NewFile>, db': Db)
    requires Inv(db) && OpenDoneStep(db, all, db')
    ensures ManifestOk(Edits(db'.disk), db'.disk.tables, db'.recorded)
    ensures LastLogNumber(Edits(db'.disk)) == db.mode.open.newLog
    ensures LastSequenceOf(Edits(db'.disk)) == db.mode.open.lastSequence
    ensures LastNextFile(Edits(db'.disk)) == db.mode.open.nextFile
  {
    var o := db.mode.open;
    OpenDoneVersion(db, all, db');
    NewManifestAdds(db.recorded, o, all, db'.recorded);
    NewManifestPairs(all, o, db.recorded, db'.recorded);
    RecoveredNumbers(db.recorded, o, db'.recorded, db.disk.tables);
    PairsOfFiles(AllPairs(NoFiles(), Edits(db'.disk)), db'.recorded, o.nextFile);
  }

  /** Switching CURRENT turns the recovered state into the durable one, with nothing lost and nothing doubled. */
  lemma OpenDoneKeepsInv(db: Db, all: seq<NewFile>, db': Db)
    requires Inv(db) && OpenDoneStep(db, all, db')
    ensures Inv(db')
  {
    var o, m' := db.mode.open, db'.mode.memory;
    OpenDoneManifest(db, all, db');
    OpenDoneVersion(db, all, db');
    NewLogIsEmpty(db'.disk.logs, o.newLog);
    OpenDoneConserved(db, all, db');
    OrderedLater(db.disk.logs, LastLogNumber(Edits(db.disk)), db.disk.logs, o.newLog);
    assert InMemory(m') == Entries(db'.recorded);
  }

  lemma NewLogIsEmpty(logs: map<nat, Log>, n: nat)
    requires n in logs && logs[n] == [] && forall k :: k in logs ==> k <= n
    ensures RecordSet(logs[n]) == {} && LogEntries(logs, n) == {} && LogRange(logs, n, n) == {}
  {
  }

  lemma OpenDoneConserved(db: Db, all: seq<NewFile>, db': Db)
    requires Inv(db) && OpenDoneStep(db, all, db')
    requires ManifestOk(Edits(db'.disk), db'.disk.tables, db'.recorded)
             && Entries(db'.recorded) == Durable(db.disk, db.recorded)
    requires LastLogNumber(Edits(db'.disk)) == db.mode.open.newLog
             && LogEntries(db'.disk.logs, db.mode.open.newLog) == {}
    requires LastSequenceOf(Edits(db'.disk)) == db.mode.open.lastSequence
    ensures Conserved(db'.history, Entries(db'.recorded), Logged(db'.disk), db'.dropped,
                      LastSequenceOf(Edits(db'.disk)))
    ensures Durable(db'.disk, db'.recorded) == Durable(db.disk, db.recorded)
  {
    var logged := Logged(db.disk);
    SnBelowDisjoint(Entries(db.recorded) + db.dropped, logged);
  }

  // ---------------------------------------------------------------- runs

  lemma StepKeepsInv(db: Db, l: Label, db': Db)
    requires Inv(db) && Step(db, l, db')
    ensures Inv(db')
  {
    hide Inv, WriteStep, RotateStep, TableStep, FlushStep, MoveStep, CompactStep, InstallStep, CleanStep, SnapshotStep;
    hide ReleaseStep, CrashStep, OpenStep, OpenWriteStep, OpenDoneStep;
    match l
    case Write(r) => WriteKeepsInv(db, r, db');
    case Rotate => RotateKeepsInv(db, db');
    case Table => TableKeepsInv(db, db');
    case Flush(level, f) => FlushKeepsInv(db, level, f, db');
    case Move(level, f) => MoveKeepsInv(db, level, f, db');
    case Compact(level, in0, in1, snapshot, merged, outs) =>
      CompactKeepsInv(db, level, in0, in1, snapshot, merged, outs, db');
    case Install => InstallKeepsInv(db, db');
    case Clean => CleanKeepsInv(db, db');
    case TakeSnapshot => SnapshotKeepsInv(db, db');
    case ReleaseSnapshot(i) => ReleaseKeepsInv(db, i, db');
    case Crash => CrashKeepsInv(db, db');
    case Open(o) => OpenKeepsInv(db, o, db');
    case OpenWrite(w) => OpenWriteKeepsInv(db, w, db');
    case OpenDone(all) => OpenDoneKeepsInv(db, all, db');
  }

  lemma InitInv(db: Db)
    requires Init(db)
    ensures Inv(db)
  {
    var edits := Edits(db.disk);
    var e := edits[0];
    assert edits[..0] == [];
    assert AddedPairs(e) == {} && PairsOf(NoFiles()) == {};
    assert AllPairs(NoFiles(), edits) == {};
    forall l | 0 <= l < NUM_LEVELS ensures Replay(NoFiles(), edits)[l] == {} { assert AddedAt(e, l) == {}; }
    assert Entries(db.recorded) == {};
    assert LogEntries(db.disk.logs, 0) == {};
    forall l ensures ValidLevel(db.recorded, l) { }
  }

  /** A run: states joined by steps, from a new database. */
  ghost predicate Run(states: seq<Db>, labels: seq<Label>) {
    && |states| == |labels| + 1 && Init(states[0])
    && forall i :: 0 <= i < |labels| ==> Step(states[i], labels[i], states[i + 1])
  }

  lemma {:induction false} RunKeepsInv(states: seq<Db>, labels: seq<Label>, i: nat)
    requires Run(states, labels) && i < |states|
    ensures Inv(states[i])
  {
    if i == 0 {
      InitInv(states[0]);
    } else {
      RunKeepsInv(states, labels, i - 1);
      StepKeepsInv(states[i - 1], labels[i - 1], states[i]);
    }
  }

  /** At every point of every run, crashes included: the version is well formed, every committed entry is either
      durable, once, or was removed by a compaction, and a recovery would read like the full history. */
  lemma NothingIsLost(states: seq<Db>, labels: seq<Label>, i: nat)
    requires Run(states, labels) && i < |states|
    ensures var db := states[i];
            && ValidVersion(db.recorded) && db.disk.current in db.disk.manifests
            && TablesPresent(db.recorded, db.disk.tables)
            && var logged := Logged(db.disk);
            && db.history == Entries(db.recorded) + logged + db.dropped
            && Entries(db.recorded) !! logged && Entries(db.recorded) !! db.dropped && logged !! db.dropped
            && (db.safe ==> forall u, s :: db.floor <= s ==>
                Read(Entries(db.recorded) + logged, u, s) == Read(db.history, u, s))
  {
    RunKeepsInv(states, labels, i);
    var db := states[i];
    var logged := Logged(db.disk);
    SnBelowDisjoint(Entries(db.recorded) + db.dropped, logged);
  }

  /** At every point of every run, crashes and recoveries included, numbering goes on from the largest number committed
      so far: nothing is numbered twice and no number is skipped. */
  lemma NumberingGoesOn(states: seq<Db>, labels: seq<Label>, i: nat)
    requires Run(states, labels) && i < |states| && !states[i].mode.Down?
    ensures var db := states[i];
            var last := if db.mode.Up? then db.mode.memory.lastSequence else db.mode.open.lastSequence;
            SnAtMost(db.history, last) && Attained(db.history, last)
  {
    RunKeepsInv(states, labels, i);
  }

  /** While the database is up, every live snapshot and the latest state read like the full history. */
  lemma SnapshotsReadHistory(states: seq<Db>, labels: seq<Label>, i: nat, u: UserKey, s: SequenceNumber)
    requires Run(states, labels) && i < |states| && states[i].mode.Up? && states[i].safe
    requires var m := states[i].mode.memory; s == m.lastSequence || s in m.snapshots
    ensures Read(InMemory(states[i].mode.memory), u, s) == Read(states[i].history, u, s)
  {
    RunKeepsInv(states, labels, i);
    var m := states[i].mode.memory;
    if s in m.snapshots {
      var k :| 0 <= k < |m.snapshots| && m.snapshots[k] == s;
    }
  }

  /** The end of some run of the database machine. */
  ghost predicate Reachable(db: Db) {
    exists states, labels :: Run(states, labels) && states[|labels|] == db
  }

  lemma ReachInit(db: Db)
    requires Init(db)
    ensures Reachable(db)
  {
    assert Run([db], []) && [db][0] == db;
  }

  lemma ReachStep(db: Db, l: Label, db': Db)
    requires Reachable(db) && Step(db, l, db')
    ensures Reachable(db')
  {
    var states, labels :| Run(states, labels) && states[|labels|] == db;
    var states', labels' := states + [db'], labels + [l];
    forall i | 0 <= i < |labels'| ensures Step(states'[i], labels'[i], states'[i + 1]) { }
    assert Run(states', labels') && states'[|labels'|] == db';
  }

  lemma ReachableInv(db: Db)
    requires Reachable(db)
    ensures Inv(db)
  {
    var states, labels :| Run(states, labels) && states[|labels|] == db;
    RunKeepsInv(states, labels, |labels|);
  }
}
