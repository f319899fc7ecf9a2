// The edits the database writes, and the version each one leads to: CompactMemTable, BackgroundCompaction and
// InstallCompactionResults in db/db_impl.cc.
module VersionSteps {
  import opened Basics
  import opened InternalKeys
  import opened ReadSpec
  import opened Versions
  import opened CompactionInputs
  import opened Compactions
  import opened CompactionTheorems
  import opened Flushes
  import opened VersionBuilders

  /** CompactMemTable: at most one new table, and earlier logs are no longer needed. */
  function FlushEdit(level: nat, f: Option<File>, logfile: nat, next: nat, last: SequenceNumber): Edit {
    Edit({}, if f.Some? then [NewFile(level, f.value)] else [], Some(logfile), Some(next), Some(last))
  }

  function FilesAt(level: nat, files: seq<File>): seq<NewFile> {
    seq(|files|, i requires 0 <= i < |files| => NewFile(level, files[i]))
  }

  function NumbersAt(level: nat, files: seq<File>): set<(nat, nat)> {
    set f | f in files :: (level, f.number)
  }

  /** InstallCompactionResults; a trivial move is the case of one input and the same file as output. */
  function CompactionEdit(level: nat, in0: seq<File>, in1: seq<File>, outs: seq<File>,
                          logNumber: nat, next: nat, last: SequenceNumber): Edit {
    Edit(NumbersAt(level, in0) + NumbersAt(level + 1, in1), FilesAt(level + 1, outs), Some(logNumber), Some(next),
         Some(last))
  }

  lemma AddedAtFiles(level: nat, files: seq<File>, e: Edit, l: nat)
    requires e.added == FilesAt(level, files)
    ensures AddedAt(e, l) == if l == level then set f | f in files else {}
  {
    forall f
      ensures f in AddedAt(e, l) <==> l == level && f in files
    {
      if f in AddedAt(e, l) {
        var i :| 0 <= i < |e.added| && e.added[i].level == l && e.added[i].file == f;
      }
      if l == level && f in files {
        var i :| 0 <= i < |files| && files[i] == f;
        assert e.added[i].file == f;
      }
    }
  }

  lemma FlushEditAdds(v: Version, level: nat, f: File, e: Edit, v': Version)
    requires ValidVersion(v) && level < NUM_LEVELS && e.deleted == {} && e.added == [NewFile(level, f)]
    requires Lists(v', ApplyEdit(SetsOf(v), e))
    ensures Added(v, level, f, v')
  {
    forall l | 0 <= l < NUM_LEVELS
      ensures forall g :: g in v'[l] <==> g in v[l] || (l == level && g == f)
    {
      assert AddedAt(e, l) == if l == level then {f} else {} by {
        if l == level { assert e.added[0].file == f; }
      }
      assert SetsOf(v)[l] == set g | g in v[l];
    }
    forall l | 0 <= l < NUM_LEVELS && l != level
      ensures v'[l] == v[l]
    {
      assert ValidLevel(v, l);
      SortedListUnique(v'[l], v[l]);
    }
  }

  lemma EmptyEditKeeps(v: Version, e: Edit, v': Version)
    requires ValidVersion(v) && e.deleted == {} && e.added == []
    requires Lists(v', ApplyEdit(SetsOf(v), e))
    ensures v' == v
  {
    forall l | 0 <= l < NUM_LEVELS
      ensures v'[l] == v[l]
    {
      assert ValidLevel(v, l);
      assert SetsOf(v)[l] == set g | g in v[l];
      SortedListUnique(v'[l], v[l]);
    }
  }

  lemma DeletedByNumber(v: Version, level: nat, in0: seq<File>, in1: seq<File>, l: nat, f: File)
    requires ValidVersion(v) && level + 1 < NUM_LEVELS && l < NUM_LEVELS && f in v[l]
    requires (forall g :: g in in0 ==> g in v[level]) && (forall g :: g in in1 ==> g in v[level + 1])
    ensures (l, f.number) in NumbersAt(level, in0) + NumbersAt(level + 1, in1)
            <==> (l == level && f in in0) || (l == level + 1 && f in in1)
  {
    if (l, f.number) in NumbersAt(level, in0) {
      var g :| g in in0 && (level, g.number) == (l, f.number);
      assert NumbersDiffer(v, l, level);
    }
    if (l, f.number) in NumbersAt(level + 1, in1) {
      var g :| g in in1 && (level + 1, g.number) == (l, f.number);
      assert NumbersDiffer(v, l, level + 1);
    }
  }

  lemma CompactionEditInstalls(v: Version, level: nat, in0: seq<File>, in1: seq<File>, outs: seq<File>, e: Edit,
                               v': Version)
    requires ValidVersion(v) && level + 1 < NUM_LEVELS
    requires (forall g :: g in in0 ==> g in v[level]) && (forall g :: g in in1 ==> g in v[level + 1])
    requires e.deleted == NumbersAt(level, in0) + NumbersAt(level + 1, in1) && e.added == FilesAt(level + 1, outs)
    requires Lists(v', ApplyEdit(SetsOf(v), e))
    ensures Installed(v, level, in0, in1, outs, v')
  {
    forall l | 0 <= l < NUM_LEVELS
      ensures forall f :: f in v'[l] <==>
        (f in v[l] && !(l == level && f in in0) && !(l == level + 1 && f in in1)) || (l == level + 1 && f in outs)
    {
      AddedAtFiles(level + 1, outs, e, l);
      assert SetsOf(v)[l] == set g | g in v[l];
      forall f | f in v[l]
        ensures (l, f.number) in e.deleted <==> (l == level && f in in0) || (l == level + 1 && f in in1)
      {
        DeletedByNumber(v, level, in0, in1, l, f);
      }
    }
    forall l | 0 <= l < NUM_LEVELS && l != level && l != level + 1
      ensures v'[l] == v[l]
    {
      assert ValidLevel(v, l);
      SortedListUnique(v'[l], v[l]);
    }
  }

  /** Moving one file down a level is a compaction whose only output is the input. */
  lemma TrivialMoveIsCompaction(v: Version, level: nat, f: File)
    requires GoodPick(v, level, [f], [])
    ensures GoodOutputs(v, level, [f], [], [f])
  {
    assert f in [f] && f in v[level];
    assert ValidLevel(v, level);
    assert DisjointFiles([f]);
    forall l, g, h | 0 <= l < |v| && g in v[l] && h in [f] && g.number == h.number
      ensures l == level && g in [f]
    {
      assert NumbersDiffer(v, l, level);
    }
    assert LevelEntries([f]) == InputEntries([f], []);
  }

  lemma TrivialMoveKeepsEntries(v: Version, level: nat, f: File, v': Version)
    requires GoodPick(v, level, [f], []) && Installed(v, level, [f], [], [f], v')
    ensures ValidVersion(v') && Entries(v') == Entries(v)
  {
    TrivialMoveIsCompaction(v, level, f);
    CompactionKeepsValid(v, level, [f], [], [f], v');
    InstalledEntries(v, level, [f], [], [f], v');
    assert f in [f];
    forall e | e in Entries(v)
      ensures e in Entries(v')
    {
      var l, g :| 0 <= l < |v| && g in v[l] && e in g.table;
      if l == level && g == f {
        assert g in v'[level + 1];
      } else {
        assert g in v'[l];
      }
    }
  }
}
