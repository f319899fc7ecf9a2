// Which files the database removes, and that removing them is a step of it: RemoveObsoleteFiles in db/db_impl.cc and
// AddLiveFiles in db/version_set.cc.
module DatabaseCleaning {
  import opened Basics
  import opened InternalKeys
  import opened Versions
  import opened VersionBuilders
  import opened Databases

  /** The names in the directory that carry a number; the others are always kept. */
  datatype FileName = LogName(number: nat) | DescriptorName(number: nat) | TableName(number: nat)

  ghost predicate Holds(files: seq<File>, n: nat) {
    exists f :: f in files && f.number == n
  }

  ghost predicate InVersion(v: Version, n: nat) {
    exists l :: 0 <= l < |v| && Holds(v[l], n)
  }

  /** AddLiveFiles, for one version. */
  method AddLiveFiles(v: Version, pending: set<nat>) returns (live: set<nat>)
    ensures forall n :: n in live <==> n in pending || InVersion(v, n)
  {
    live := pending;
    for l := 0 to |v|
      invariant forall n :: n in live <==> n in pending || InVersion(v[..l], n)
    {
      ghost var before := live;
      for i := 0 to |v[l]|
        invariant forall n :: n in live <==> n in before || Holds(v[l][..i], n)
      {
        assert v[l][..i + 1] == v[l][..i] + [v[l][i]];
        live := live + {v[l][i].number};
      }
      assert v[l][..|v[l]|] == v[l];
      forall n ensures InVersion(v[..l + 1], n) <==> InVersion(v[..l], n) || Holds(v[l], n) { OneLevelMore(v, l, n); }
    }
    assert v[..|v|] == v;
  }

  lemma OneLevelMore(v: Version, l: nat, n: nat)
    requires l < |v|
    ensures InVersion(v[..l + 1], n) <==> InVersion(v[..l], n) || Holds(v[l], n)
  {
    var longer := v[..l + 1];
    assert longer == v[..l] + [v[l]] && longer[l] == v[l];
    if InVersion(v[..l], n) {
      var k :| 0 <= k < l && Holds(v[..l][k], n);
      assert Holds(longer[k], n);
    }
    if Holds(v[l], n) { assert Holds(longer[l], n); }
    if InVersion(longer, n) {
      var k :| 0 <= k < l + 1 && Holds(longer[k], n);
      if k < l { assert Holds(v[..l][k], n); }
    }
  }

  /** What has to stay: the logs from the log number on, this manifest and newer ones, and the tables in use. */
  ghost predicate Needed(name: FileName, v: Version, pending: set<nat>, logNumber: nat, current: nat) {
    match name
    case LogName(n) => n >= logNumber
    case DescriptorName(n) => n >= current
    case TableName(n) => n in pending || InVersion(v, n)
  }

  /** RemoveObsoleteFiles, up to the removal itself: the names to delete.  There is no previous log. */
  method ObsoleteFiles(names: seq<FileName>, v: Version, pending: set<nat>, logNumber: nat, current: nat)
    returns (gone: seq<FileName>)
    ensures forall name :: name in gone <==> name in names && !Needed(name, v, pending, logNumber, current)
  {
    var live := AddLiveFiles(v, pending);
    gone := [];
    for i := 0 to |names|
      invariant forall name ::
                  name in gone <==> name in names[..i] && !Needed(name, v, pending, logNumber, current)
    {
      var name := names[i];
      var keep :=
        match name
        case LogName(n) => n >= logNumber
        case DescriptorName(n) => n >= current
        case TableName(n) => n in live;
      assert names[..i + 1] == names[..i] + [name];
      if !keep {
        gone := gone + [name];
      }
    }
    assert names[..|names|] == names;
  }

  /** The directory holds the files of the disk. */
  ghost predicate Directory(names: seq<FileName>, d: Disk) {
    && (forall n :: LogName(n) in names <==> n in d.logs)
    && (forall n :: DescriptorName(n) in names <==> n in d.manifests)
    && forall n :: TableName(n) in names <==> n in d.tables
  }

  ghost function Removed(d: Disk, gone: seq<FileName>): Disk {
    d.(logs := map n | n in d.logs && LogName(n) !in gone :: d.logs[n],
       manifests := map n | n in d.manifests && DescriptorName(n) !in gone :: d.manifests[n],
       tables := set n | n in d.tables && TableName(n) !in gone)
  }

  /** Deleting what ObsoleteFiles names is a step of the database, and leaves exactly the files that are needed. */
  lemma CleaningIsStep(db: Db, names: seq<FileName>, gone: seq<FileName>)
    requires Inv(db) && db.mode.Up? && db.mode.memory.pending.None? && Directory(names, db.disk)
    requires var m := db.mode.memory;
             forall name :: name in gone <==>
                            name in names && !Needed(name, m.version, m.outputs, m.logNumber, db.disk.current)
    ensures var m, d := db.mode.memory, Removed(db.disk, gone);
            && CleanStep(db, db.(disk := d))
            && (forall n :: n in d.logs <==> n in db.disk.logs && n >= m.logNumber)
            && (forall n :: n in d.manifests <==> n in db.disk.manifests && n >= db.disk.current)
            && forall n :: n in d.tables <==> n in db.disk.tables && (n in m.outputs || InVersion(m.version, n))
  {
    hide ManifestOk, Conserved, LogsOrdered, ReadsAgree, Attained, SnAtMost, SnBelow, PendingOk, LogsMatch, Entries;
    var m, d := db.mode.memory, Removed(db.disk, gone);
    forall n
      ensures n in d.tables <==> n in db.disk.tables && (n in m.outputs || InVersion(m.version, n))
    {
      assert TableName(n) in names <==> n in db.disk.tables;
    }
    assert DescriptorName(db.disk.current) in names;
  }
}
