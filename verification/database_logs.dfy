// The steps of the database that touch logs and memtables keep its invariant.
module DatabaseLogs {
  import opened Basics
  import opened InternalKeys
  import opened ReadSpec
  import opened Versions
  import opened VersionBuilders
  import opened VersionSteps
  import opened Databases

  lemma AppendRecord(logs: map<nat, Log>, n: nat, r: seq<Entry>, from: nat)
    requires n in logs && from <= n
    ensures LogEntries(logs[n := logs[n] + [r]], from) == LogEntries(logs, from) + set e | e in r
    ensures RecordSet(logs[n] + [r]) == RecordSet(logs[n]) + set e | e in r
    ensures forall lo: nat :: LogRange(logs[n := logs[n] + [r]], lo, n) == LogRange(logs, lo, n)
  {
    var logs' := logs[n := logs[n] + [r]];
    forall e
      ensures e in LogEntries(logs', from) <==> e in LogEntries(logs, from) || e in r
    {
      if e in LogEntries(logs', from) {
        var k, q :| k in logs' && from <= k && q in logs'[k] && e in q;
        assert k != n || q in logs[n] || q == r;
      }
      if e in LogEntries(logs, from) {
        var k, q :| k in logs && from <= k && q in logs[k] && e in q;
        assert q in logs'[k];
      }
      if e in r {
        assert r in logs'[n];
      }
    }
    forall e
      ensures e in RecordSet(logs[n] + [r]) <==> e in RecordSet(logs[n]) || e in r
    {
      assert r in logs[n] + [r];
      assert forall q :: q in logs[n] ==> q in logs[n] + [r];
    }
    forall lo: nat
      ensures LogRange(logs', lo, n) == LogRange(logs, lo, n)
    {
      forall e ensures e in LogRange(logs', lo, n) <==> e in LogRange(logs, lo, n) {
        if e in LogRange(logs', lo, n) {
          var k, q :| k in logs' && lo <= k < n && q in logs'[k] && e in q;
          assert q in logs[k];
        }
        if e in LogRange(logs, lo, n) {
          var k, q :| k in logs && lo <= k < n && q in logs[k] && e in q;
          assert q in logs'[k];
        }
      }
    }
  }

  /** Creating an empty log adds nothing. */
  lemma NewLog(logs: map<nat, Log>, n: nat, from: nat)
    requires n in logs ==> logs[n] == []
    ensures LogEntries(logs[n := []], from) == LogEntries(logs, from)
    ensures RecordSet([]) == {}
  {
    var logs' := logs[n := []];
    forall e
      ensures e in LogEntries(logs', from) <==> e in LogEntries(logs, from)
    {
      if e in LogEntries(logs', from) {
        var k, q :| k in logs' && from <= k && q in logs'[k] && e in q;
        assert k in logs && q in logs[k];
      }
      if e in LogEntries(logs, from) {
        var k, q :| k in logs && from <= k && q in logs[k] && e in q;
        assert q in logs'[k];
      }
    }
  }

  /** The live logs are the closed ones and the open one. */
  lemma SplitLogs(logs: map<nat, Log>, lo: nat, last: nat)
    requires last in logs && lo <= last && forall n :: n in logs ==> n <= last
    ensures LogEntries(logs, lo) == LogRange(logs, lo, last) + RecordSet(logs[last])
  {
    forall e
      ensures e in LogEntries(logs, lo) <==> e in LogRange(logs, lo, last) || e in RecordSet(logs[last])
    {
      if e in LogEntries(logs, lo) {
        var k, q :| k in logs && lo <= k && q in logs[k] && e in q;
        assert k < last || k == last;
      }
    }
  }

  lemma RangeOfNewLog(logs: map<nat, Log>, lo: nat, last: nat, n: nat)
    requires last < n && forall k :: k in logs ==> k <= last
    ensures LogRange(logs[n := []], lo, n) == LogEntries(logs, lo)
  {
    var logs' := logs[n := []];
    forall e
      ensures e in LogRange(logs', lo, n) <==> e in LogEntries(logs, lo)
    {
      if e in LogRange(logs', lo, n) {
        var k, q :| k in logs' && lo <= k < n && q in logs'[k] && e in q;
        assert k in logs && q in logs[k];
      }
      if e in LogEntries(logs, lo) {
        var k, q :| k in logs && lo <= k && q in logs[k] && e in q;
        assert q in logs'[k];
      }
    }
  }

  lemma AgreeUnderNewer(contents: set<Entry>, history: set<Entry>, es: set<Entry>, floor: SequenceNumber)
    requires ReadsAgree(contents, history, floor) && contents <= history && Unique(history + es)
    requires forall e, d :: e in es && d in history ==> e.key.sn > d.key.sn
    ensures ReadsAgree(contents + es, history + es, floor)
  {
    forall u, s: SequenceNumber | floor <= s
      ensures Read(contents + es, u, s) == Read(history + es, u, s)
    {
      assert Read(contents, u, s) == Read(history, u, s);
      ReadUnderNewer(contents, history, es, u, s);
    }
  }

  ghost predicate FreshRecord(r: seq<Entry>, last: SequenceNumber) {
    last + |r| <= MAX_SEQUENCE_NUMBER && forall i :: 0 <= i < |r| ==> r[i].key.sn == last + 1 + i
  }

  lemma RecordIsNewer(r: seq<Entry>, last: SequenceNumber, history: set<Entry>)
    requires FreshRecord(r, last) && SnAtMost(history, last) && Unique(history)
    ensures var es := set e | e in r;
            && (forall e, d :: e in es && d in history ==> e.key.sn > d.key.sn)
            && Unique(history + es) && SnAtMost(history + es, last + |r|)
            && (Attained(history, last) ==> Attained(history + es, last + |r|))
  {
    var es := set e | e in r;
    forall e | e in es
      ensures last < e.key.sn <= last + |r|
    {
      var i :| 0 <= i < |r| && r[i] == e;
    }
    if r != [] { assert r[|r| - 1] in es; }
    forall e, d | e in history + es && d in history + es && SameSlot(e, d)
      ensures e == d
    {
      if e in es && d in es {
        var i :| 0 <= i < |r| && r[i] == e;
        var j :| 0 <= j < |r| && r[j] == d;
      }
    }
  }

  lemma OrderedAppend(logs: map<nat, Log>, from: nat, n: nat, r: seq<Entry>, last: SequenceNumber)
    requires LogsOrdered(logs, from) && n in logs && from <= n && (forall k :: k in logs ==> k <= n)
    requires SnAtMost(LogEntries(logs, from), last) && FreshRecord(r, last)
    ensures LogsOrdered(logs[n := logs[n] + [r]], from)
  {
    var logs' := logs[n := logs[n] + [r]];
    forall k, i | InLog(logs', from, k, i)
      ensures RecordSorted(logs'[k][i])
      ensures logs'[k][i] == r || (InLog(logs, from, k, i) && logs[k][i] == logs'[k][i])
    {
      assert InLog(logs, from, k, i) || (k == n && i == |logs[n]|);
    }
    forall k, i, m, j | InLog(logs', from, k, i) && InLog(logs', from, m, j) && Earlier(k, i, m, j)
      ensures RecordBefore(logs'[k][i], logs'[m][j])
    {
      assert InLog(logs, from, k, i);
      if !InLog(logs, from, m, j) {
        forall e, d | e in logs[k][i] && d in r
          ensures SnLess(e, d)
        {
          assert logs[k][i] in logs[k] && e in LogEntries(logs, from);
          var x :| 0 <= x < |r| && r[x] == d;
        }
      }
    }
  }

  lemma OrderedLater(logs: map<nat, Log>, from: nat, logs': map<nat, Log>, from': nat)
    requires LogsOrdered(logs, from) && from <= from'
    requires forall n :: n in logs' && from' <= n ==> logs'[n] == [] || (n in logs && logs'[n] == logs[n])
    ensures LogsOrdered(logs', from')
  {
    forall n, i | InLog(logs', from', n, i)
      ensures InLog(logs, from, n, i) && logs[n][i] == logs'[n][i]
    {
    }
  }

  lemma ConservedGrows(history: set<Entry>, tabled: set<Entry>, logged: set<Entry>, dropped: set<Entry>,
                       last: SequenceNumber, es: set<Entry>)
    requires Conserved(history, tabled, logged, dropped, last) && Unique(history + es)
    requires forall e, d :: e in es && d in history ==> e.key.sn > d.key.sn
    ensures Conserved(history + es, tabled, logged + es, dropped, last)
  {
  }

  lemma WriteKeepsDisk(db: Db, m: Memory, r: seq<Entry>, db': Db)
    requires DiskOk(db) && LogsMatch(db.disk.logs, m) && LastLogNumber(Edits(db.disk)) <= m.logfile
    requires SnAtMost(db.history, m.lastSequence) && FreshRecord(r, m.lastSequence)
    requires db'.disk == db.disk.(logs := db.disk.logs[m.logfile := db.disk.logs[m.logfile] + [r]])
    requires db'.recorded == db.recorded && db'.history == db.history + (set e | e in r) && db'.dropped == db.dropped
    requires db'.floor == db.floor && db'.safe == db.safe
    ensures DiskOk(db')
  {
    var es := set e | e in r;
    RecordIsNewer(r, m.lastSequence, db.history);
    AppendRecord(db.disk.logs, m.logfile, r, LastLogNumber(Edits(db.disk)));
    OrderedAppend(db.disk.logs, LastLogNumber(Edits(db.disk)), m.logfile, r, m.lastSequence);
    ConservedGrows(db.history, Entries(db.recorded), Logged(db.disk), db.dropped, LastSequenceOf(Edits(db.disk)), es);
    assert Durable(db'.disk, db'.recorded) == Durable(db.disk, db.recorded) + es;
    if db.safe {
      AgreeUnderNewer(Durable(db.disk, db.recorded), db.history, es, db.floor);
    }
  }

  lemma ContentsUnique(db: Db)
    requires DiskOk(db)
    ensures Unique(db.history)
  {
  }

  lemma WriteKeepsMemory(db: Db, r: seq<Entry>, db': Db)
    requires Inv(db) && WriteStep(db, r, db')
    ensures db'.mode.Up? && MemoryOk(db', db'.mode.memory)
  {
    hide ValidVersion, TablesPresent, Lists, ApplyEdit, AllPairs, Entries, ReadsAgree, LogsOrdered, LogRange;
    hide LogEntries, RecordSet, SnBelow, Attained, OutputsOk, Conserved, SnAtMost;
    ContentsUnique(db);
    var m, m' := db.mode.memory, db'.mode.memory;
    var es := set e | e in r;
    RecordIsNewer(r, m.lastSequence, db.history);
    if db.safe {
      AgreeUnderNewer(InMemory(m), db.history, es, db.floor);
    }
    assert InMemory(m') == InMemory(m) + es;
    LogsMatchGrow(db.disk.logs, m, r);
    OrderGrows(Entries(m.version), ImmSet(m), m.mem, es, db.history);
  }

  lemma LogsMatchGrow(logs: map<nat, Log>, m: Memory, r: seq<Entry>)
    requires LogsMatch(logs, m) && m.lastSequence + |r| <= MAX_SEQUENCE_NUMBER
    ensures LogsMatch(logs[m.logfile := logs[m.logfile] + [r]],
                      m.(mem := m.mem + (set e | e in r), lastSequence := m.lastSequence + |r|))
  {
    AppendRecord(logs, m.logfile, r, m.logfile);
  }

  lemma OrderGrows(tabled: set<Entry>, imm: set<Entry>, mem: set<Entry>, es: set<Entry>, history: set<Entry>)
    requires SnBelow(tabled, imm + mem) && SnBelow(imm, mem) && tabled + imm <= history
    requires forall e, d :: e in es && d in history ==> e.key.sn > d.key.sn
    ensures SnBelow(tabled, imm + (mem + es)) && SnBelow(imm, mem + es)
  {
  }

  /** Group commit of one batch keeps the invariant. */
  lemma WriteKeepsInv(db: Db, r: seq<Entry>, db': Db)
    requires Inv(db) && WriteStep(db, r, db')
    ensures Inv(db')
  {
    WriteKeepsDisk(db, db.mode.memory, r, db');
    WriteKeepsMemory(db, r, db');
  }

  lemma RotateKeepsDisk(db: Db, db': Db)
    requires Inv(db) && RotateStep(db, db')
    ensures DiskOk(db')
  {
    hide Lists, ApplyEdit, AllPairs, Entries, Unique, ReadsAgree, LogsOrdered, LogEntries, LogRange, SnBelow;
    hide TablesPresent;
    var m := db.mode.memory;
    var from := LastLogNumber(Edits(db.disk));
    NewLog(db.disk.logs, m.nextFile, from);
    OrderedLater(db.disk.logs, from, db'.disk.logs, from);
    assert Edits(db'.disk) == Edits(db.disk);
    assert Durable(db'.disk, db'.recorded) == Durable(db.disk, db.recorded);
  }

  lemma LogsMatchRotate(logs: map<nat, Log>, m: Memory)
    requires LogsMatch(logs, m) && m.imm.None?
    ensures LogsMatch(logs[m.nextFile := []],
                      m.(mem := {}, imm := Some(m.mem), logfile := m.nextFile, nextFile := m.nextFile + 1))
  {
    NewLog(logs, m.nextFile, m.logNumber);
    RangeOfNewLog(logs, m.logNumber, m.logfile, m.nextFile);
    SplitLogs(logs, m.logNumber, m.logfile);
  }

  lemma RotateKeepsMemory(db: Db, db': Db)
    requires Inv(db) && RotateStep(db, db')
    ensures db'.mode.Up? && MemoryOk(db', db'.mode.memory)
  {
    hide DiskOk, Lists, ApplyEdit, AllPairs, Entries, ReadsAgree, LogsMatch, ValidVersion, TablesPresent;
    var m, m' := db.mode.memory, db'.mode.memory;
    LogsMatchRotate(db.disk.logs, m);
    assert InMemory(m') == InMemory(m);
  }

  lemma RotateKeepsInv(db: Db, db': Db)
    requires Inv(db) && RotateStep(db, db')
    ensures Inv(db')
  {
    hide DiskOk, MemoryOk;
    RotateKeepsDisk(db, db');
    RotateKeepsMemory(db, db');
  }

  lemma TableKeepsInv(db: Db, db': Db)
    requires Inv(db) && TableStep(db, db')
    ensures Inv(db')
  {
    hide ValidVersion, Lists, ApplyEdit, Replay, AddsOnce, ReadsAgree, LogsOrdered, LogRange, LogEntries;
    var m, m' := db.mode.memory, db'.mode.memory;
    assert Edits(db'.disk) == Edits(db.disk);
    assert InMemory(m') == InMemory(m);
    forall p | p in AllPairs(NoFiles(), Edits(db.disk))
      ensures p.1 < m.nextFile
    {
    }
  }

  /** Finishing LogAndApply drops the immutable memtable exactly when its table was recorded. */
  lemma InstallKeepsInv(db: Db, db': Db)
    requires Inv(db) && InstallStep(db, db')
    ensures Inv(db')
  {
    var m, m' := db.mode.memory, db'.mode.memory;
    var from := LastLogNumber(Edits(db.disk));
    SplitLogs(db.disk.logs, from, m.logfile);
    assert InMemory(m') == Durable(db.disk, db.recorded) by {
      InstalledMemory(db, db');
    }
    InstalledOrder(db, db');
  }

  lemma InstalledMemory(db: Db, db': Db)
    requires Inv(db) && InstallStep(db, db')
    ensures db'.mode.Up? && InMemory(db'.mode.memory) == Durable(db.disk, db.recorded)
    ensures LogsMatch(db'.disk.logs, db'.mode.memory)
  {
    var m, m' := db.mode.memory, db'.mode.memory;
    var from := LastLogNumber(Edits(db.disk));
    SplitLogs(db.disk.logs, from, m.logfile);
    if m'.imm.None? && m.imm.Some? {
      EmptyRange(db.disk.logs, m.logfile);
    }
  }

  lemma EmptyRange(logs: map<nat, Log>, n: nat)
    ensures LogRange(logs, n, n) == {}
  {
  }

  lemma InstalledOrder(db: Db, db': Db)
    requires Inv(db) && InstallStep(db, db')
    ensures db'.mode.Up?
    ensures var m' := db'.mode.memory;
            SnBelow(Entries(m'.version), ImmSet(m') + m'.mem) && SnBelow(ImmSet(m'), m'.mem)
  {
    var m, m' := db.mode.memory, db'.mode.memory;
    var from := LastLogNumber(Edits(db.disk));
    SplitLogs(db.disk.logs, from, m.logfile);
    InstalledMemory(db, db');
    forall e, d | e in Entries(m'.version) && d in ImmSet(m') + m'.mem
      ensures SnLess(e, d)
    {
      assert d in LogEntries(db.disk.logs, from);
      assert e in Entries(db.recorded) + db.dropped;
    }
  }

  /** Removing obsolete files never removes anything a recovery needs. */
  lemma CleanKeepsInv(db: Db, db': Db)
    requires Inv(db) && CleanStep(db, db')
    ensures Inv(db')
  {
    var m := db.mode.memory;
    var logs, logs' := db.disk.logs, db'.disk.logs;
    OrderedLater(logs, m.logNumber, logs', m.logNumber);
    forall e ensures e in LogEntries(logs', m.logNumber) <==> e in LogEntries(logs, m.logNumber) {
      if e in LogEntries(logs', m.logNumber) {
        var k, q :| k in logs' && m.logNumber <= k && q in logs'[k] && e in q;
        assert k in logs && q in logs[k];
      }
      if e in LogEntries(logs, m.logNumber) {
        var k, q :| k in logs && m.logNumber <= k && q in logs[k] && e in q;
        assert k in logs' && q in logs'[k];
      }
    }
    forall e ensures e in LogRange(logs', m.logNumber, m.logfile) <==> e in LogRange(logs, m.logNumber, m.logfile) {
      if e in LogRange(logs', m.logNumber, m.logfile) {
        var k, q :| k in logs' && m.logNumber <= k < m.logfile && q in logs'[k] && e in q;
        assert k in logs && q in logs[k];
      }
      if e in LogRange(logs, m.logNumber, m.logfile) {
        var k, q :| k in logs && m.logNumber <= k < m.logfile && q in logs[k] && e in q;
        assert k in logs' && q in logs'[k];
      }
    }
    assert Durable(db'.disk, db'.recorded) == Durable(db.disk, db.recorded);
    assert LogsMatch(db'.disk.logs, m);
  }

  lemma SnapshotKeepsInv(db: Db, db': Db)
    requires Inv(db) && SnapshotStep(db, db')
    ensures Inv(db')
  {
    hide ValidVersion, TablesPresent, Lists, ApplyEdit, AllPairs, ReadsAgree, LogsOrdered, LogRange, LogEntries;
    assert InMemory(db'.mode.memory) == InMemory(db.mode.memory);
  }

  lemma ReleaseKeepsInv(db: Db, i: nat, db': Db)
    requires Inv(db) && ReleaseStep(db, i, db')
    ensures Inv(db')
  {
    hide ValidVersion, TablesPresent, Lists, ApplyEdit, AllPairs, ReadsAgree, LogsOrdered, LogRange, LogEntries;
    var m, m' := db.mode.memory, db'.mode.memory;
    assert InMemory(m') == InMemory(m);
    forall j, k | 0 <= j < k < |m'.snapshots|
      ensures m'.snapshots[j] <= m'.snapshots[k]
    {
      assert m'.snapshots[j] == m.snapshots[if j < i then j else j + 1];
      assert m'.snapshots[k] == m.snapshots[if k < i then k else k + 1];
    }
  }
}
