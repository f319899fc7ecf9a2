// The methods of DBImpl in db/db_impl.cc whose effects the steps of module Databases describe.
module DatabaseCode {
  import opened Basics
  import opened InternalKeys
  import opened ReadSpec
  import opened Versions
  import opened CompactionInputs
  import opened Flushes
  import opened MemTables
  import opened VersionBuilders
  import opened VersionSteps
  import opened Databases
  import opened DatabaseLogs
  import opened DatabaseManifest

  ghost function MaybeContents(imm: MemTable?): set<Entry>
    reads imm
  {
    if imm == null then {} else imm.Contents()
  }

  /** Newer layers hold newer entries. */
  ghost predicate Layered(mem: MemTable, imm: MemTable?, v: Version)
    reads mem, imm
  {
    && mem.Valid() && (imm != null ==> imm.Valid()) && ValidVersion(v)
    && SnBelow(Entries(v), MaybeContents(imm) + mem.Contents()) && SnBelow(MaybeContents(imm), mem.Contents())
    && Unique(Entries(v) + MaybeContents(imm) + mem.Contents())
  }

  /** The memtables of the running database. */
  ghost predicate Holds(mem: MemTable, imm: MemTable?, m: Memory)
    reads mem, imm
  {
    && mem.Valid() && mem.Contents() == m.mem
    && (imm == null <==> m.imm.None?) && (imm != null ==> imm.Valid() && imm.Contents() == m.imm.value)
  }

  /** The layers are in order at every point of every run, and together they are what is in memory. */
  lemma LayersOfRun(states: seq<Db>, labels: seq<Label>, i: nat, mem: MemTable, imm: MemTable?)
    requires Run(states, labels) && i < |states| && states[i].mode.Up? && Holds(mem, imm, states[i].mode.memory)
    ensures var m := states[i].mode.memory;
            Layered(mem, imm, m.version) && Entries(m.version) + MaybeContents(imm) + mem.Contents() == InMemory(m)
  {
    RunKeepsInv(states, labels, i);
    UniquePart(InMemory(states[i].mode.memory), states[i].history);
  }

  lemma UniquePart(a: set<Entry>, b: set<Entry>)
    requires a <= b && Unique(b)
    ensures Unique(a)
  {
  }

  /** DBImpl::Get at any point of any run in which every compaction was safe: at the latest sequence number or a live
      snapshot, it answers like the full history. */
  method GetInRun(ghost states: seq<Db>, ghost labels: seq<Label>, ghost i: nat, mem: MemTable, imm: MemTable?,
                  current: Version, lastSequence: SequenceNumber, snapshot: Option<SequenceNumber>, key: UserKey)
    returns (r: Option<Bytes>)
    requires Run(states, labels) && i < |states| && states[i].mode.Up? && states[i].safe
    requires var m := states[i].mode.memory;
             && Holds(mem, imm, m) && current == m.version && lastSequence == m.lastSequence
             && (snapshot.Some? ==> snapshot.value in m.snapshots)
    ensures r == Read(states[i].history, key, if snapshot.Some? then snapshot.value else lastSequence)
  {
    LayersOfRun(states, labels, i, mem, imm);
    SnapshotsReadHistory(states, labels, i, key, if snapshot.Some? then snapshot.value else lastSequence);
    r := Get(mem, imm, current, lastSequence, snapshot, key);
  }

  lemma LayersRead(old': set<Entry>, new': set<Entry>, u: UserKey, s: SequenceNumber)
    requires SnBelow(old', new') && Unique(old' + new')
    ensures NoneVisible(new', u, s) ==> Read(old' + new', u, s) == Read(old', u, s)
    ensures !NoneVisible(new', u, s) ==> Read(old' + new', u, s) == Read(new', u, s)
  {
    assert new' + old' == old' + new';
    forall e, d | e in new' && d in old' ensures e.key.sn > d.key.sn { assert SnLess(d, e); }
    ReadLayers(new', old', u, s);
  }

  /** DBImpl::Get: memtable, then immutable memtable, then the version, stopping at the first that decides. */
  method Get(mem: MemTable, imm: MemTable?, current: Version, lastSequence: SequenceNumber,
             snapshot: Option<SequenceNumber>, key: UserKey) returns (r: Option<Bytes>)
    requires Layered(mem, imm, current)
    ensures r == Read(Entries(current) + MaybeContents(imm) + mem.Contents(), key,
                      if snapshot.Some? then snapshot.value else lastSequence)
  {
    var s := if snapshot.Some? then snapshot.value else lastSequence;
    ghost var tabled, older := Entries(current), MaybeContents(imm);
    LayersRead(tabled + older, mem.Contents(), key, s);
    LayersRead(tabled, older, key, s);
    var found;
    found, r := mem.Get(key, s);
    if found {
      return;
    }
    if imm != null {
      found, r := imm.Get(key, s);
      if found {
        return;
      }
    }
    r := Versions.Get(current, key, s);
  }

  // ---------------------------------------------------------------- writing tables

  /** WriteLevel0Table; `base` is the version to pick a level in, none during recovery. */
  method WriteLevel0Table(mem: MemTable, base: Option<Version>, number: nat, maxFileSize: nat,
                          fileSize: seq<Entry> -> nat)
    returns (f: Option<File>, level: nat)
    requires mem.Valid() && (base.Some? ==> ValidVersion(base.value))
    ensures f.None? <==> mem.Contents() == {}
    ensures f.Some? ==> ValidFile(f.value) && f.value.number == number && LevelEntries([f.value]) == mem.Contents()
    ensures f.Some? ==> f.value.table == mem.table && f.value.size == fileSize(mem.table)
    ensures level < NUM_LEVELS && (f.None? || base.None? ==> level == 0)
    ensures f.Some? && base.Some? ==>
              && AllowedLevel(base.value, level, f.value)
              && IsPickedLevel(base.value, f.value.smallest.user, f.value.largest.user, maxFileSize, level)
  {
    level := 0;
    if mem.table == [] {
      f := None;
    } else {
      assert mem.table[0] in mem.Contents();
      var t := mem.table;
      var file := File(number, fileSize(t), t[0].key, t[|t| - 1].key, t);
      if base.Some? {
        level := PickLevelForMemTableOutput(base.value, file.smallest.user, file.largest.user, maxFileSize);
      }
      f := Some(file);
      assert file in [file];
    }
  }

  /** CompactMemTable: the edit that records the immutable memtable and retires the logs before the current one. */
  method CompactMemTable(imm: MemTable, base: Version, number: nat, logfile: nat, next: nat, last: SequenceNumber,
                         maxFileSize: nat, fileSize: seq<Entry> -> nat)
    returns (edit: Edit, level: nat, f: Option<File>)
    requires imm.Valid() && ValidVersion(base)
    ensures edit == FlushEdit(level, f, logfile, next, last)
    ensures level < NUM_LEVELS && (f.None? <==> imm.Contents() == {})
    ensures f.Some? ==> && ValidFile(f.value) && f.value.number == number && LevelEntries([f.value]) == imm.Contents()
                        && AllowedLevel(base, level, f.value) && f.value.size == fileSize(f.value.table)
                        && IsPickedLevel(base, f.value.smallest.user, f.value.largest.user, maxFileSize, level)
  {
    f, level := WriteLevel0Table(imm, Some(base), number, maxFileSize, fileSize);
    edit := FlushEdit(level, f, logfile, next, last);
  }

  // ---------------------------------------------------------------- recovery

  /** The sorted table of these entries; there is only one. */
  ghost predicate IsTableOf(t: seq<Entry>, es: set<Entry>) {
    Sorted(t) && forall e :: e in t <==> e in es
  }

  lemma {:induction false} TableIsUnique(t: seq<Entry>, q: seq<Entry>, es: set<Entry>)
    requires IsTableOf(t, es) && IsTableOf(q, es)
    ensures t == q
  {
    if t != [] && q != [] {
      assert t[0] in q && q[0] in t;
      var i :| 0 <= i < |q| && q[i] == t[0];
      var j :| 0 <= j < |t| && t[j] == q[0];
      assert InOrder(q, 0, i) && InOrder(t, 0, j);
      WithoutFirst(t, es);
      WithoutFirst(q, es);
      TableIsUnique(t[1..], q[1..], es - {t[0]});
      assert t == [t[0]] + t[1..] && q == [q[0]] + q[1..];
    } else {
      EmptyTable(t, es);
      EmptyTable(q, es);
    }
  }

  lemma EmptyTable(t: seq<Entry>, es: set<Entry>)
    requires IsTableOf(t, es)
    ensures t == [] <==> es == {}
  {
    if t != [] { assert t[0] in es; }
  }

  lemma WithoutFirst(t: seq<Entry>, es: set<Entry>)
    requires IsTableOf(t, es) && t != []
    ensures IsTableOf(t[1..], es - {t[0]})
  {
    forall i, j ensures InOrder(t[1..], i, j) { assert InOrder(t, i + 1, j + 1); }
    assert t == [t[0]] + t[1..];
    forall e | e in t[1..]
      ensures e != t[0]
    {
      var k :| 0 <= k < |t[1..]| && t[1..][k] == e;
      assert InOrder(t, 0, k + 1);
    }
  }

  /** As far as record `k` the memtable filled from record `a` on is within the limit. */
  ghost predicate WithinLimit(log: Log, usage: seq<Entry> -> nat, limit: nat, a: nat, k: nat)
    requires k <= |log|
  {
    forall c, t :: a < c <= k && IsTableOf(t, RecordSet(log[a..c])) ==> usage(t) <= limit
  }

  /** A table written while replaying a log: records `a` to `b` of it, cut at the first record at which the memtable is
      over the limit, or at the end of the log. */
  ghost predicate Spilled(log: Log, usage: seq<Entry> -> nat, limit: nat, fileSize: seq<Entry> -> nat, f: File,
                          a: nat, b: nat)
  {
    && a < b <= |log| && IsTableOf(f.table, RecordSet(log[a..b])) && f.size == fileSize(f.table)
    && (usage(f.table) > limit || b == |log|) && WithinLimit(log, usage, limit, a, b - 1)
  }

  ghost predicate IsSpilled(log: Log, usage: seq<Entry> -> nat, limit: nat, fileSize: seq<Entry> -> nat, f: File) {
    exists a, b :: Spilled(log, usage, limit, fileSize, f, a, b)
  }

  lemma OneMoreWithin(log: Log, usage: seq<Entry> -> nat, limit: nat, a: nat, k: nat, table: seq<Entry>)
    requires a <= k < |log| && WithinLimit(log, usage, limit, a, k)
    requires IsTableOf(table, RecordSet(log[a..k + 1])) && usage(table) <= limit
    ensures WithinLimit(log, usage, limit, a, k + 1)
  {
    forall c, t | a < c <= k + 1 && IsTableOf(t, RecordSet(log[a..c]))
      ensures usage(t) <= limit
    {
      if c == k + 1 { TableIsUnique(t, table, RecordSet(log[a..c])); }
    }
  }

  lemma SliceGrows(log: Log, a: nat, k: nat)
    requires a <= k < |log|
    ensures RecordSet(log[a..k + 1]) == RecordSet(log[a..k]) + set e | e in log[k]
  {
    var part := log[a..k + 1];
    assert part[..k - a] == log[a..k] && part[..k - a + 1] == part;
    RecordGrows(part, k - a);
  }

  lemma RecoveredAppend(files: seq<File>, written: set<Entry>, f: File, es: set<Entry>)
    requires RecoveredTables(files, written) && ValidFile(f) && LevelEntries([f]) == es && SnBelow(written, es)
    ensures RecoveredTables(files + [f], written + es)
  {
    var all := files + [f];
    assert f in [f];
    forall e
      ensures e in LevelEntries(all) <==> e in written || e in es
    {
      if e in LevelEntries(all) {
        var g :| g in all && e in g.table;
        assert g in files || g == f;
      }
      if e in written {
        var g :| g in files && e in g.table;
        assert g in all;
      }
      if e in es {
        assert f in all;
      }
    }
    forall i, j, e, d | 0 <= i < j < |all| && e in all[i].table && d in all[j].table
      ensures SnLess(e, d)
    {
      assert all[i] in files && all[i] == files[i];
      if j < |files| {
        assert all[j] == files[j];
      } else {
        assert e in LevelEntries(files) && d in es;
      }
    }
  }

  ghost predicate NumbersFrom(files: seq<File>, low: nat, next: nat) {
    && (forall f :: f in files ==> low < f.number < next)
    && forall i, j :: 0 <= i < j < |files| ==> files[i].number < files[j].number
  }

  ghost predicate LogInOrder(log: Log, before: set<Entry>) {
    && (forall k :: 0 <= k < |log| ==> RecordSorted(log[k]) && SnBelow(before, set e | e in log[k]))
    && forall k, j :: 0 <= k < j < |log| ==> RecordBefore(log[k], log[j])
  }

  /** Insert the entries of one record, all newer than what the memtable holds. */
  method InsertRecord(r: seq<Entry>, mem: MemTable)
    requires mem.Valid() && RecordSorted(r) && SnBelow(mem.Contents(), set e | e in r)
    modifies mem
    ensures mem.Valid() && mem.Contents() == old(mem.Contents()) + set e | e in r
  {
    ghost var before := mem.Contents();
    for i := 0 to |r|
      invariant mem.Valid() && mem.Contents() == before + set e | e in r[..i]
    {
      forall f | f in mem.table
        ensures !SameKey(r[i], f)
      {
        assert f in mem.Contents();
        assert f in before ==> SnLess(f, r[i]);
      }
      mem.Add(r[i]);
      assert r[..i + 1] == r[..i] + [r[i]];
    }
    assert r[..|r|] == r;
  }

  lemma RecordGrows(log: Log, k: nat)
    requires k < |log|
    ensures RecordSet(log[..k + 1]) == RecordSet(log[..k]) + set e | e in log[k]
  {
    assert log[..k + 1] == log[..k] + [log[k]];
    forall e | e in log[k] ensures e in RecordSet(log[..k + 1]) { assert log[k] in log[..k + 1]; }
  }

  lemma RecordFollows(log: Log, before: set<Entry>, k: nat)
    requires LogInOrder(log, before) && k < |log|
    ensures SnBelow(before + RecordSet(log[..k]), set e | e in log[k])
  {
    forall e, d | e in before + RecordSet(log[..k]) && d in log[k]
      ensures SnLess(e, d)
    {
      if e !in before {
        var q :| q in log[..k] && e in q;
        var j :| 0 <= j < k && log[j] == q;
        assert RecordBefore(log[j], log[k]);
      }
    }
  }

  function LastOf(r: seq<Entry>, max: SequenceNumber): SequenceNumber {
    if r != [] && r[|r| - 1].key.sn > max then r[|r| - 1].key.sn else max
  }

  lemma LastIsMost(r: seq<Entry>, max: SequenceNumber)
    requires RecordSorted(r)
    ensures max <= LastOf(r, max) && SnAtMost((set e | e in r), LastOf(r, max))
    ensures LastOf(r, max) == max || (r != [] && r[|r| - 1] in r && r[|r| - 1].key.sn == LastOf(r, max))
  {
  }

  /** Midway through recovery: `done` is in the tables written so far and the memtable, newest in the memtable. */
  ghost predicate Replaying(files: seq<File>, written: set<Entry>, mem: set<Entry>, done: set<Entry>,
                            low: nat, next: nat, max: SequenceNumber) {
    && RecoveredTables(files, written) && NumbersFrom(files, low, next) && low < next
    && SnBelow(written, mem) && written + mem == done && SnAtMost(done, max) && Attained(done, max)
  }

  /** One record of a log; `mem'` is null when the memtable was written out, as soon as it is over the limit. */
  method RecoverRecord(r: seq<Entry>, mem: MemTable, files0: seq<File>, next0: nat, max0: SequenceNumber,
                       bufferSize: nat, usage: seq<Entry> -> nat, fileSize: seq<Entry> -> nat,
                       ghost low: nat, ghost written0: set<Entry>, ghost done: set<Entry>)
    returns (mem': MemTable?, files: seq<File>, next: nat, max: SequenceNumber, ghost written: set<Entry>)
    requires mem.Valid() && Replaying(files0, written0, mem.Contents(), done, low, next0, max0)
    requires RecordSorted(r) && SnBelow(done, set e | e in r)
    modifies mem
    ensures mem.Valid() && mem.Contents() == old(mem.Contents()) + (set e | e in r)
    ensures mem' == if usage(mem.table) > bufferSize then null else mem
    ensures mem' != null ==> files == files0
    ensures mem' == null ==> WrittenOut(files0, files, mem.table, fileSize)
    ensures next0 <= next && Replaying(files, written, MaybeContents(mem'), done + (set e | e in r), low, next, max)
  {
    InsertRecord(r, mem);
    LastIsMost(r, max0);
    max := LastOf(r, max0);
    mem', files, next, written := mem, files0, next0, written0;
    if usage(mem.table) > bufferSize {
      files, next := WriteRecovered(mem, files, next, fileSize, low, written);
      written := written + mem.Contents();
      mem' := null;
    }
  }

  /** A memtable has been written out: one more table, or none if it was empty. */
  ghost predicate WrittenOut(files0: seq<File>, files: seq<File>, table: seq<Entry>, fileSize: seq<Entry> -> nat) {
    if table == [] then files == files0
    else
      && |files| == |files0| + 1 && files[..|files0|] == files0
      && files[|files0|].table == table && files[|files0|].size == fileSize(table)
  }

  ghost predicate AllSpilled(log: Log, usage: seq<Entry> -> nat, limit: nat, fileSize: seq<Entry> -> nat,
                             files: seq<File>, from: nat)
  {
    forall i :: from <= i < |files| ==> IsSpilled(log, usage, limit, fileSize, files[i])
  }

  lemma SpillOne(log: Log, usage: seq<Entry> -> nat, limit: nat, fileSize: seq<Entry> -> nat, files: seq<File>,
                 from: nat, files': seq<File>, table: seq<Entry>, a: nat, b: nat)
    requires AllSpilled(log, usage, limit, fileSize, files, from) && WrittenOut(files, files', table, fileSize)
    requires from <= |files| && a < b <= |log| && IsTableOf(table, RecordSet(log[a..b]))
    requires (usage(table) > limit || b == |log|) && WithinLimit(log, usage, limit, a, b - 1)
    ensures AllSpilled(log, usage, limit, fileSize, files', from)
    ensures |files| <= |files'| && files'[..|files|] == files
  {
    if table != [] {
      assert Spilled(log, usage, limit, fileSize, files'[|files|], a, b);
    }
  }

  /** RecoverLogFile: replay a log into memtables and write each one out as a level-0 table once it is over the
      limit. */
  method RecoverLogFile(log: Log, files0: seq<File>, next0: nat, max0: SequenceNumber, bufferSize: nat,
                        usage: seq<Entry> -> nat, fileSize: seq<Entry> -> nat, ghost low: nat, ghost before: set<Entry>)
    returns (files: seq<File>, next: nat, max: SequenceNumber)
    requires Replaying(files0, before, {}, before, low, next0, max0) && LogInOrder(log, before)
    ensures Replaying(files, before + RecordSet(log), {}, before + RecordSet(log), low, next, max) && next0 <= next
    ensures |files0| <= |files| && files[..|files0|] == files0
    ensures AllSpilled(log, usage, bufferSize, fileSize, files, |files0|)
  {
    hide RecordSorted, RecoveredTables, SnBelow, SnAtMost, Attained, RecordSet, Spilled, WithinLimit, LogInOrder;
    hide Sorted;
    files, next, max := files0, next0, max0;
    var mem: MemTable? := null;
    ghost var written, a := before, 0;
    NoRecords(log, before, usage, bufferSize);
    for k := 0 to |log|
      invariant mem != null ==> mem.Valid() && fresh(mem)
      invariant Replaying(files, written, MaybeContents(mem), before + RecordSet(log[..k]), low, next, max)
                && next0 <= next
      invariant a <= k && MaybeContents(mem) == RecordSet(log[a..k]) && WithinLimit(log, usage, bufferSize, a, k)
      invariant mem == null <==> a == k
      invariant |files0| <= |files| && files[..|files0|] == files0
      invariant AllSpilled(log, usage, bufferSize, fileSize, files, |files0|)
    {
      RecordFollows(log, before, k);
      RecordOfLog(log, before, k);
      if mem == null {
        mem := new MemTable();
      }
      var table := mem;
      ghost var was := files;
      mem, files, next, max, written := RecoverRecord(log[k], mem, files, next, max, bufferSize, usage, fileSize, low,
                                                      written, before + RecordSet(log[..k]));
      RecordGrows(log, k);
      SliceGrows(log, a, k);
      MemTableIs(table, RecordSet(log[a..k + 1]));
      assert before + RecordSet(log[..k]) + (set e | e in log[k]) == before + RecordSet(log[..k + 1]);
      if mem == null {
        SpillOne(log, usage, bufferSize, fileSize, was, |files0|, files, table.table, a, k + 1);
        a := k + 1;
        NoRecordsFrom(log, usage, bufferSize, a);
      } else {
        OneMoreWithin(log, usage, bufferSize, a, k, table.table);
      }
    }
    assert log[..|log|] == log;
    AllWritten(written, MaybeContents(mem));
    if mem != null {
      ghost var was := files;
      MemTableIs(mem, RecordSet(log[a..|log|]));
      WithinLess(log, usage, bufferSize, a, |log|);
      files, next := WriteRecovered(mem, files, next, fileSize, low, written);
      SpillOne(log, usage, bufferSize, fileSize, was, |files0|, files, mem.table, a, |log|);
    }
  }

  lemma AllWritten(written: set<Entry>, mem: set<Entry>)
    ensures written + {} == written && (written + mem) + {} == written + mem
    ensures SnBelow(written, {}) && SnBelow(written + mem, {})
  {
  }

  lemma NoRecords(log: Log, before: set<Entry>, usage: seq<Entry> -> nat, limit: nat)
    ensures RecordSet(log[..0]) == RecordSet(log[0..0]) == {} && before + {} == before
    ensures WithinLimit(log, usage, limit, 0, 0)
  {
  }

  lemma NoRecordsFrom(log: Log, usage: seq<Entry> -> nat, limit: nat, a: nat)
    requires a <= |log|
    ensures RecordSet(log[a..a]) == {} && WithinLimit(log, usage, limit, a, a)
  {
  }

  lemma WithinLess(log: Log, usage: seq<Entry> -> nat, limit: nat, a: nat, k: nat)
    requires 0 < k <= |log| && WithinLimit(log, usage, limit, a, k)
    ensures WithinLimit(log, usage, limit, a, k - 1)
  {
  }

  lemma RecordOfLog(log: Log, before: set<Entry>, k: nat)
    requires LogInOrder(log, before) && k < |log|
    ensures RecordSorted(log[k])
  {
  }

  lemma MemTableIs(mem: MemTable, es: set<Entry>)
    requires mem.Valid() && mem.Contents() == es
    ensures IsTableOf(mem.table, es)
  {
  }

  method WriteRecovered(mem: MemTable, files0: seq<File>, next0: nat, fileSize: seq<Entry> -> nat,
                        ghost low: nat, ghost written: set<Entry>) returns (files: seq<File>, next: nat)
    requires mem.Valid() && RecoveredTables(files0, written) && SnBelow(written, mem.Contents())
    requires NumbersFrom(files0, low, next0) && low < next0
    ensures RecoveredTables(files, written + mem.Contents()) && NumbersFrom(files, low, next) && next == next0 + 1
    ensures WrittenOut(files0, files, mem.table, fileSize)
  {
    var f, _ := WriteLevel0Table(mem, None, next0, 0, fileSize);
    MemTableIs(mem, mem.Contents());
    EmptyTable(mem.table, mem.Contents());
    next := next0 + 1;
    if f.Some? {
      RecoveredAppend(files0, written, f.value, mem.Contents());
      files := files0 + [f.value];
    } else {
      files := files0;
    }
  }

  predicate Least(s: set<nat>, n: nat) {
    n in s && forall m :: m in s ==> n <= m
  }

  lemma {:induction false} LeastExists(s: set<nat>) returns (n: nat)
    requires s != {}
    ensures Least(s, n)
  {
    var k :| k in s;
    if s == {k} {
      n := k;
    } else {
      var m := LeastExists(s - {k});
      n := if m < k then m else k;
      forall x | x in s
        ensures n <= x
      {
        assert x == k || x in s - {k};
      }
    }
  }

  /** Recover's list of logs to replay, sorted by number. */
  method LiveLogs(logs: map<nat, Log>, minLog: nat) returns (ns: seq<nat>)
    ensures forall n :: n in ns <==> n in logs && minLog <= n
    ensures forall i, j :: 0 <= i < j < |ns| ==> ns[i] < ns[j]
  {
    ns := [];
    var rest: set<nat> := set n | n in logs && minLog <= n;
    while rest != {}
      invariant forall n :: n in logs && minLog <= n <==> n in ns || n in rest
      invariant forall n, m :: n in ns && m in rest ==> n < m
      invariant forall i, j :: 0 <= i < j < |ns| ==> ns[i] < ns[j]
    {
      ghost var least := LeastExists(rest);
      var n :| n in rest && Least(rest, n);
      forall i | 0 <= i < |ns| ensures ns[i] < n { assert ns[i] in ns; }
      assert Least(rest, n);
      forall m: nat | m in rest && m != n ensures n < m { }
      rest := rest - {n};
      ns := ns + [n];
    }
  }

  lemma LogFollows(logs: map<nat, Log>, from: nat, n: nat)
    requires LogsOrdered(logs, from) && n in logs && from <= n
    ensures LogInOrder(logs[n], LogRange(logs, from, n))
  {
    var log := logs[n];
    forall k | 0 <= k < |log|
      ensures RecordSorted(log[k]) && SnBelow(LogRange(logs, from, n), set e | e in log[k])
    {
      assert InLog(logs, from, n, k);
      forall e, d | e in LogRange(logs, from, n) && d in log[k]
        ensures SnLess(e, d)
      {
        var m, r :| m in logs && from <= m < n && r in logs[m] && e in r;
        var i :| 0 <= i < |logs[m]| && logs[m][i] == r;
        assert InLog(logs, from, m, i) && Earlier(m, i, n, k);
      }
    }
    forall k, j | 0 <= k < j < |log|
      ensures RecordBefore(log[k], log[j])
    {
      assert InLog(logs, from, n, k) && InLog(logs, from, n, j) && Earlier(n, k, n, j);
    }
  }

  /** No live log lies between `edge` and `n`, so replaying log `n` extends the replayed range past it. */
  lemma RangeGrows(logs: map<nat, Log>, from: nat, edge: nat, n: nat)
    requires from <= n && n in logs && edge <= n && forall k :: k in logs && from <= k < n ==> k < edge
    ensures LogRange(logs, from, edge) == LogRange(logs, from, n)
    ensures LogRange(logs, from, n + 1) == LogRange(logs, from, n) + RecordSet(logs[n])
  {
    forall e
      ensures e in LogRange(logs, from, n + 1) <==> e in LogRange(logs, from, n) + RecordSet(logs[n])
    {
      if e in LogRange(logs, from, n + 1) {
        var k, r :| k in logs && from <= k < n + 1 && r in logs[k] && e in r;
        assert k < n || k == n;
      }
    }
  }

  lemma RangeIsAll(logs: map<nat, Log>, from: nat, edge: nat)
    requires forall k :: k in logs && from <= k ==> k < edge
    ensures LogRange(logs, from, edge) == LogEntries(logs, from)
  {
  }

  /** A table written while replaying one of the live logs. */
  ghost predicate SpilledFrom(logs: map<nat, Log>, from: nat, limit: nat, usage: seq<Entry> -> nat,
                              fileSize: seq<Entry> -> nat, f: File)
  {
    exists n :: n in logs && from <= n && IsSpilled(logs[n], usage, limit, fileSize, f)
  }

  lemma NothingReplayed(logs: map<nat, Log>, from: nat, low: nat)
    ensures Replaying([], LogRange(logs, from, from), {}, LogRange(logs, from, from), low, low + 1, 0)
  {
    assert LevelEntries([]) == {} && LogRange(logs, from, from) == {};
  }

  /** Replay every live log in order; MarkFileNumberUsed keeps `next` above each of them. */
  method ReplayLogs(logs: map<nat, Log>, from: nat, low: nat, bufferSize: nat, usage: seq<Entry> -> nat,
                    fileSize: seq<Entry> -> nat)
    returns (files: seq<File>, next: nat, max: SequenceNumber)
    requires LogsOrdered(logs, from)
    ensures Replaying(files, LogEntries(logs, from), {}, LogEntries(logs, from), low, next, max)
    ensures forall n :: n in logs && from <= n ==> n < next
    ensures forall f :: f in files ==> SpilledFrom(logs, from, bufferSize, usage, fileSize, f)
  {
    hide RecoveredTables, SnBelow, SnAtMost, Attained, LogRange, LogEntries, RecordSet, LogInOrder, LogsOrdered;
    hide IsSpilled;
    files, next, max := [], low + 1, 0;
    NothingReplayed(logs, from, low);
    var ns := LiveLogs(logs, from);
    ghost var edge := from;
    for i := 0 to |ns|
      invariant edge == if i == 0 then from else ns[i - 1] + 1
      invariant Replaying(files, LogRange(logs, from, edge), {}, LogRange(logs, from, edge), low, next, max)
      invariant forall j :: 0 <= j < i ==> ns[j] < next
      invariant forall f :: f in files ==> SpilledFrom(logs, from, bufferSize, usage, fileSize, f)
    {
      var n := ns[i];
      assert n in ns;
      ghost var was := files;
      forall k | k in logs && from <= k < n ensures k < edge { assert k in ns; }
      RangeGrows(logs, from, edge, n);
      LogFollows(logs, from, n);
      files, next, max := RecoverLogFile(logs[n], files, next, max, bufferSize, usage, fileSize, low,
                                         LogRange(logs, from, n));
      forall f | f in files
        ensures SpilledFrom(logs, from, bufferSize, usage, fileSize, f)
      {
        var j :| 0 <= j < |files| && files[j] == f;
        assert j < |was| ==> was[j] == f;
      }
      if next <= n {
        next := n + 1;
      }
      edge := n + 1;
    }
    forall k | k in logs && from <= k ensures k < edge && k < next { assert k in ns; }
    RangeIsAll(logs, from, edge);
  }

  lemma NothingListed(v: Version)
    requires |v| == NUM_LEVELS && forall l :: 0 <= l < |v| ==> v[l] == []
    ensures SetsOf(v) == NoFiles()
  {
    forall l | 0 <= l < |v| ensures SetsOf(v)[l] == NoFiles()[l] { assert SetsOf(v)[l] == {}; }
  }

  /** VersionSet::Recover: every edit of the manifest in one builder gives back the version it describes. */
  method RecoverVersion(edits: seq<Edit>, ghost tables: set<nat>, ghost recorded: Version) returns (v: Version)
    requires ManifestOk(edits, tables, recorded)
    ensures v == recorded
  {
    var none: Version := seq(NUM_LEVELS, _ => []);
    NothingListed(none);
    v := ReplayAll(none, edits);
    ListsUnique(v, recorded, Replay(NoFiles(), edits));
  }

  /** DBImpl::Recover and the choice of numbers in DB::Open: from every disk the database can leave behind, recovery
      rebuilds the recorded version from the manifest and finds exactly the durable entries. */
  method Recover(ghost db: Db, d: Disk, bufferSize: nat, usage: seq<Entry> -> nat, fileSize: seq<Entry> -> nat)
    returns (v: Version, o: OpenState)
    requires Inv(db) && db.mode.Down? && db.disk == d
    ensures v == db.recorded && OpenStep(db, o, db.(mode := Opening(o)))
    ensures Entries(v) + LevelEntries(o.files) == Durable(d, db.recorded)
    ensures IsLargest(Logged(d), LastSequenceOf(Edits(d)), o.lastSequence) && o.nextFile == o.newLog + 1
    ensures forall f :: f in o.files ==>
              SpilledFrom(d.logs, LastLogNumber(Edits(d)), bufferSize, usage, fileSize, f)
  {
    var edits := d.manifests[d.current];
    v := RecoverVersion(edits, d.tables, db.recorded);
    var minLog, manifest, last := LastLogNumber(edits), LastNextFile(edits), LastSequenceOf(edits);
    var files, next, max := ReplayLogs(d.logs, minLog, manifest, bufferSize, usage, fileSize);
    o := OpenState(files, next, manifest, next + 1, if last < max then max else last);
  }
}
