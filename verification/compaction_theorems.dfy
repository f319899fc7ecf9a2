// What installing a compaction does to a version and to every read of it.
module CompactionTheorems {
  import opened Basics
  import opened InternalKeys
  import opened ReadSpec
  import opened Versions
  import opened Picking
  import opened CompactionInputs
  import opened MergingIterators
  import opened Compactions

  ghost function InputEntries(in0: seq<File>, in1: seq<File>): set<Entry> {
    LevelEntries(in0) + LevelEntries(in1)
  }

  /** `v'` is `v` with the inputs removed and the outputs added at level+1. */
  ghost predicate Installed(v: Version, level: nat, in0: seq<File>, in1: seq<File>, outs: seq<File>, v': Version) {
    && |v| == |v'| == NUM_LEVELS && level + 1 < NUM_LEVELS
    && (forall l :: 0 <= l < NUM_LEVELS && l != level && l != level + 1 ==> v'[l] == v[l])
    && (forall f :: f in v'[level] <==> f in v[level] && f !in in0)
    && (forall f :: f in v'[level + 1] <==> (f in v[level + 1] && f !in in1) || f in outs)
    && SortedFiles(v'[level]) && SortedFiles(v'[level + 1])
  }

  /** The outputs of one compaction: in order, made of input entries only, numbered unlike any file that stays. */
  ghost predicate GoodOutputs(v: Version, level: nat, in0: seq<File>, in1: seq<File>, outs: seq<File>) {
    && DisjointFiles(outs)
    && (forall e :: e in LevelEntries(outs) ==> e in InputEntries(in0, in1))
    && (forall l, f, g :: 0 <= l < |v| && f in v[l] && g in outs && f.number == g.number ==>
          (l == level && f in in0) || (l == level + 1 && f in in1))
    && (forall f, g :: f in outs && g in outs && f.number == g.number ==> f == g)
  }

  // ---------------------------------------------------------------- the level structure survives

  lemma InputSource(v: Version, level: nat, in0: seq<File>, in1: seq<File>, e: Entry) returns (l: nat, f: File)
    requires GoodPick(v, level, in0, in1) && e in InputEntries(in0, in1)
    ensures level <= l <= level + 1 && f in v[l] && e in f.table
    ensures if l == level then f in in0 else f in in1
  {
    if e in LevelEntries(in0) {
      f :| f in in0 && e in f.table;
      l := level;
    } else {
      f :| f in in1 && e in f.table;
      l := level + 1;
    }
  }

  /** Outputs stay between the level+1 files that were left alone. */
  lemma OutputsApart(v: Version, level: nat, in0: seq<File>, in1: seq<File>, outs: seq<File>, g: File, o: File)
    requires GoodPick(v, level, in0, in1) && GoodOutputs(v, level, in0, in1, outs)
    requires g in v[level + 1] && g !in in1 && o in outs
    ensures Apart(g, o)
  {
    assert ValidLevel(v, level) && ValidLevel(v, level + 1);
    var first, last := o.table[0], o.table[|o.table| - 1];
    assert first in o.table && last in o.table;
    assert first in LevelEntries(outs) && last in LevelEntries(outs);
    var l, f := InputSource(v, level, in0, in1, first);
    var m, h := InputSource(v, level, in0, in1, last);
    FileBounds(f, first);
    FileBounds(h, last);
    if WhollyBefore(g, in0, in1) {
      assert Precedes(g, f, l == level);
    } else {
      assert Precedes(h, g, m == level);
    }
  }

  lemma OutputLevelDisjoint(v: Version, level: nat, in0: seq<File>, in1: seq<File>, outs: seq<File>, v': Version)
    requires GoodPick(v, level, in0, in1) && GoodOutputs(v, level, in0, in1, outs)
             && Installed(v, level, in0, in1, outs, v')
    ensures Disjoint(v'[level + 1]) && forall f :: f in v'[level + 1] ==> ValidFile(f)
  {
    assert ValidLevel(v, level + 1);
    LevelFiles(v, level + 1);
    var files := v'[level + 1];
    forall f, g | f in files && g in files && f != g
      ensures Apart(f, g)
    {
      if f in outs && g in outs {
        var k :| 0 <= k < |outs| && outs[k] == g;
        FilesApart(outs, k, f);
      } else if f in outs {
        OutputsApart(v, level, in0, in1, outs, g, f);
      } else if g in outs {
        OutputsApart(v, level, in0, in1, outs, f, g);
      } else {
        var k :| 0 <= k < |v[level + 1]| && v[level + 1][k] == g;
        FilesApart(v[level + 1], k, f);
      }
    }
    SortedApartIsDisjoint(files);
  }

  lemma RemainingLevelDisjoint(v: Version, level: nat, files: seq<File>)
    requires ValidVersion(v) && 1 <= level < NUM_LEVELS
    requires SortedFiles(files) && forall f :: f in files ==> f in v[level]
    ensures Disjoint(files)
  {
    assert ValidLevel(v, level);
    LevelFiles(v, level);
    forall f, g | f in files && g in files && f != g
      ensures Apart(f, g)
    {
      var k :| 0 <= k < |v[level]| && v[level][k] == g;
      FilesApart(v[level], k, f);
    }
    SortedApartIsDisjoint(files);
  }

  lemma InstalledLevelsValid(v: Version, level: nat, in0: seq<File>, in1: seq<File>, outs: seq<File>, v': Version,
                             l: int)
    requires GoodPick(v, level, in0, in1) && GoodOutputs(v, level, in0, in1, outs)
             && Installed(v, level, in0, in1, outs, v')
    ensures ValidLevel(v', l)
  {
    assert ValidLevel(v, l);
    if l == level + 1 {
      OutputLevelDisjoint(v, level, in0, in1, outs, v');
    } else if l == level && level > 0 {
      RemainingLevelDisjoint(v, level, v'[level]);
    }
  }

  /** An output shares a user key with some input; that input decides its place among the levels. */
  lemma OutputsOrdered(v: Version, level: nat, in0: seq<File>, in1: seq<File>, outs: seq<File>, v': Version, l: nat,
                       m: nat)
    requires GoodPick(v, level, in0, in1) && GoodOutputs(v, level, in0, in1, outs)
             && Installed(v, level, in0, in1, outs, v')
    ensures LevelNewer(v', l, m)
  {
    if l < m < |v'| {
      forall f, g | f in v'[l] && g in v'[m]
        ensures Newer(f, g)
      {
        assert LevelNewer(v, l, m);
        if l == level + 1 && f in outs {
          OutputNewer(v, level, in0, in1, outs, f, m, g);
        } else if m == level + 1 && g in outs {
          OutputOlder(v, level, in0, in1, outs, v', l, f, g);
        }
      }
    }
  }

  lemma OutputNewer(v: Version, level: nat, in0: seq<File>, in1: seq<File>, outs: seq<File>, o: File, m: nat, g: File)
    requires GoodPick(v, level, in0, in1) && GoodOutputs(v, level, in0, in1, outs)
    requires o in outs && level + 1 < m < NUM_LEVELS && g in v[m]
    ensures Newer(o, g)
  {
    forall a, b | a in o.table && b in g.table && a.key.user == b.key.user
      ensures a.key.sn > b.key.sn
    {
      assert a in LevelEntries(outs);
      var l, f := InputSource(v, level, in0, in1, a);
      assert LevelNewer(v, l, m) && Newer(f, g);
    }
  }

  lemma OutputOlder(v: Version, level: nat, in0: seq<File>, in1: seq<File>, outs: seq<File>, v': Version, l: nat,
                    f: File, o: File)
    requires GoodPick(v, level, in0, in1) && GoodOutputs(v, level, in0, in1, outs)
             && Installed(v, level, in0, in1, outs, v')
    requires o in outs && l <= level && f in v'[l]
    ensures Newer(f, o)
  {
    forall a, b | a in f.table && b in o.table && a.key.user == b.key.user
      ensures a.key.sn > b.key.sn
    {
      assert b in LevelEntries(outs);
      var m, h := InputSource(v, level, in0, in1, b);
      assert LevelNewer(v, l, m) && Newer(f, h);
    }
  }

  lemma InstalledNumbers(v: Version, level: nat, in0: seq<File>, in1: seq<File>, outs: seq<File>, v': Version, l: int,
                         m: int)
    requires GoodPick(v, level, in0, in1) && GoodOutputs(v, level, in0, in1, outs)
             && Installed(v, level, in0, in1, outs, v')
    ensures NumbersDiffer(v', l, m)
  {
    assert NumbersDiffer(v, l, m);
  }

  lemma InstalledEntries(v: Version, level: nat, in0: seq<File>, in1: seq<File>, outs: seq<File>, v': Version)
    requires GoodPick(v, level, in0, in1) && GoodOutputs(v, level, in0, in1, outs)
             && Installed(v, level, in0, in1, outs, v')
    ensures Entries(v') <= Entries(v)
  {
    forall e | e in Entries(v')
      ensures e in Entries(v)
    {
      var l, f :| 0 <= l < |v'| && f in v'[l] && e in f.table;
      if l == level + 1 && f in outs {
        assert e in LevelEntries(outs);
        var m, g := InputSource(v, level, in0, in1, e);
      } else {
        assert f in v[l];
      }
    }
  }

  /** Installing a compaction keeps every invariant of a version. */
  lemma CompactionKeepsValid(v: Version, level: nat, in0: seq<File>, in1: seq<File>, outs: seq<File>, v': Version)
    requires GoodPick(v, level, in0, in1) && GoodOutputs(v, level, in0, in1, outs)
             && Installed(v, level, in0, in1, outs, v')
    ensures ValidVersion(v')
  {
    forall l ensures ValidLevel(v', l) { InstalledLevelsValid(v, level, in0, in1, outs, v', l); }
    forall l, m ensures LevelNewer(v', l, m) {
      if 0 <= l < m < |v'| { OutputsOrdered(v, level, in0, in1, outs, v', l, m); }
    }
    forall l, m ensures NumbersDiffer(v', l, m) { InstalledNumbers(v, level, in0, in1, outs, v', l, m); }
    InstalledEntries(v, level, in0, in1, outs, v');
  }

  // ---------------------------------------------------------------- reads survive, exactly when

  /** The outputs hold what DoCompactionWork keeps of the sorted merge `m` of the inputs. */
  ghost predicate CompactionRun(v: Version, level: nat, in0: seq<File>, in1: seq<File>, snapshot: SequenceNumber,
                                m: seq<Entry>, outs: seq<File>) {
    && Sorted(m) && (forall e :: e in m <==> e in InputEntries(in0, in1))
    && (forall f :: f in outs ==> WellBounded(f))
    && Flatten(outs) == Kept(m, |m|, snapshot, v, level)
  }

  ghost predicate CompactionStep(v: Version, level: nat, in0: seq<File>, in1: seq<File>, snapshot: SequenceNumber,
                                 m: seq<Entry>, outs: seq<File>, v': Version) {
    && GoodPick(v, level, in0, in1) && GoodOutputs(v, level, in0, in1, outs) && Installed(v, level, in0, in1, outs, v')
    && CompactionRun(v, level, in0, in1, snapshot, m, outs)
  }

  lemma OutputEntries(v: Version, level: nat, in0: seq<File>, in1: seq<File>, snapshot: SequenceNumber,
                      m: seq<Entry>, outs: seq<File>, i: nat)
    requires CompactionRun(v, level, in0, in1, snapshot, m, outs) && i < |m|
    ensures m[i] in LevelEntries(outs) <==> !Dropped(m, i, snapshot, v, level)
  {
    KeptIsSublist(m, |m|, snapshot, v, level);
    CutsOfSorted(outs);
    assert m[i] in Flatten(outs) <==> exists f :: f in outs && m[i] in f.table;
  }

  /** Entries of the level+1 files the compaction does not touch. */
  ghost function LeftBehind(v: Version, level: nat, in1: seq<File>): set<Entry>
    requires level + 1 < |v|
  {
    set f, e | f in v[level + 1] && f !in in1 && e in f.table :: e
  }

  /** The newest entry at the snapshot is an input deletion marker with nothing below level+1. */
  ghost predicate ObsoleteMarker(v: Version, level: nat, in0: seq<File>, in1: seq<File>, snapshot: SequenceNumber,
                                 u: UserKey, n: Entry) {
    && Newest(Entries(v), u, snapshot, n) && n in InputEntries(in0, in1)
    && n.key.ty.Deletion? && NoFileCovers(v, level + 2, u)
  }

  /** No deletion marker the compaction discards still hides a value left behind at level+1. */
  ghost predicate NothingResurfaces(v: Version, level: nat, in0: seq<File>, in1: seq<File>, snapshot: SequenceNumber)
    requires level + 1 < |v|
  {
    forall u, n {:trigger ObsoleteMarker(v, level, in0, in1, snapshot, u, n)} ::
      ObsoleteMarker(v, level, in0, in1, snapshot, u, n) ==> Read(LeftBehind(v, level, in1), u, snapshot) == None
  }

  /** An input entry lives nowhere else, so dropping it removes it from the version. */
  lemma DroppedIsGone(v: Version, level: nat, in0: seq<File>, in1: seq<File>, snapshot: SequenceNumber,
                      m: seq<Entry>, outs: seq<File>, v': Version, i: nat)
    requires CompactionStep(v, level, in0, in1, snapshot, m, outs, v')
    requires i < |m| && Dropped(m, i, snapshot, v, level)
    ensures m[i] !in Entries(v')
  {
    assert m[i] in m;
    var l, f := InputSource(v, level, in0, in1, m[i]);
    assert ValidLevel(v, l) && ValidFile(f);
    FileBounds(f, m[i]);
    OutputEntries(v, level, in0, in1, snapshot, m, outs, i);
    var n := m[i];
    forall k, g | 0 <= k < |v'| && g in v'[k]
      ensures n !in g.table
    {
      if k == level + 1 && g in outs {
        assert n in g.table ==> n in LevelEntries(outs);
      } else {
        assert ValidLevel(v, k) && ValidFile(g);
        assert LevelNewer(v, k, l) && LevelNewer(v, l, k);
        assert k != l ==> Newer(f, g) || Newer(g, f);
        assert k == l == level ==> Newer(g, f);
        if k == l == level + 1 {
          assert WhollyBefore(g, in0, in1) || WhollyAfter(g, in0, in1);
          assert Precedes(g, f, false) || Precedes(f, g, false);
          forall e | e in g.table ensures e.key != n.key { FileBounds(g, e); }
        }
      }
    }
  }

  /** Everything the compaction removes is an input entry it drops. */
  lemma GoneIsDropped(v: Version, level: nat, in0: seq<File>, in1: seq<File>, snapshot: SequenceNumber,
                      m: seq<Entry>, outs: seq<File>, v': Version, e: Entry) returns (i: nat)
    requires CompactionStep(v, level, in0, in1, snapshot, m, outs, v')
    requires e in Entries(v) && e !in Entries(v')
    ensures i < |m| && m[i] == e && Dropped(m, i, snapshot, v, level)
  {
    var l, f :| 0 <= l < |v| && f in v[l] && e in f.table;
    assert f !in v'[l];
    assert if l == level then f in in0 else f in in1;
    assert e in InputEntries(in0, in1);
    i :| 0 <= i < |m| && m[i] == e;
    OutputEntries(v, level, in0, in1, snapshot, m, outs, i);
    forall o | o in outs ensures m[i] !in o.table { assert o in v'[level + 1]; }
  }

  /** The newest visible entry is never dropped by rule (A), only as an obsolete deletion marker. */
  lemma NewestDroppedIsMarker(v: Version, level: nat, in0: seq<File>, in1: seq<File>, snapshot: SequenceNumber,
                              m: seq<Entry>, u: UserKey, s: SequenceNumber, i: nat)
    requires GoodPick(v, level, in0, in1) && snapshot < MAX_SEQUENCE_NUMBER && snapshot <= s
    requires Sorted(m) && forall e :: e in m ==> e in Entries(v)
    requires i < |m| && Newest(Entries(v), u, s, m[i]) && Dropped(m, i, snapshot, v, level)
    ensures m[i].key.ty.Deletion? && m[i].key.sn <= snapshot && NoFileCovers(v, level + 2, u)
  {
    if i > 0 && m[i - 1].key.user == u {
      var p, e := m[i - 1], m[i];
      assert p in m && e in m && InOrder(m, i - 1, i);
      assert SameSlot(p, e) ==> p == e;
      assert p.key.sn > s;
    }
  }

  lemma InputsInVersion(v: Version, level: nat, in0: seq<File>, in1: seq<File>, e: Entry)
    requires GoodPick(v, level, in0, in1) && e in InputEntries(in0, in1)
    ensures e in Entries(v)
  {
    var l, f := InputSource(v, level, in0, in1, e);
  }

  /** Once an obsolete marker is gone, only files left behind at level+1 can answer for its user key. */
  lemma OnlyLeftBehind(v: Version, level: nat, in0: seq<File>, in1: seq<File>, snapshot: SequenceNumber,
                       m: seq<Entry>, outs: seq<File>, v': Version, u: UserKey, s: SequenceNumber, i: nat, x: Entry)
    requires CompactionStep(v, level, in0, in1, snapshot, m, outs, v') && snapshot < MAX_SEQUENCE_NUMBER
             && snapshot <= s
    requires i < |m| && Newest(Entries(v), u, s, m[i]) && Dropped(m, i, snapshot, v, level)
    requires x in Entries(v') && x.key.user == u && x.key.sn <= s
    ensures x in LeftBehind(v, level, in1) && x.key.sn <= snapshot
  {
    var n := m[i];
    DroppedIsGone(v, level, in0, in1, snapshot, m, outs, v', i);
    InstalledEntries(v, level, in0, in1, outs, v');
    forall e | e in m ensures e in Entries(v) { InputsInVersion(v, level, in0, in1, e); }
    NewestDroppedIsMarker(v, level, in0, in1, snapshot, m, u, s, i);
    assert SameSlot(x, n) ==> x == n;
    assert x.key.sn < n.key.sn;
    assert n in m;
    var l, f := InputSource(v, level, in0, in1, n);
    var k, g :| 0 <= k < |v'| && g in v'[k] && x in g.table;
    if k == level + 1 && g in outs {
      assert x in LevelEntries(outs);
      var j :| 0 <= j < |m| && m[j] == x;
      OutputEntries(v, level, in0, in1, snapshot, m, outs, j);
      HiddenBelow(m, i, j, snapshot, v, level);
    } else {
      NotShallower(v, level, in0, in1, l, f, n, k, g, x);
      assert k >= level + 2 ==> !InUserRange(g, u);
      if k >= level + 2 {
        assert ValidLevel(v, k);
        FileBounds(g, x);
      }
    }
  }

  /** Below a visible entry the merge is dropped by rule (A). */
  lemma HiddenBelow(m: seq<Entry>, i: nat, j: nat, snapshot: SequenceNumber, v: Version, level: nat)
    requires Sorted(m) && i < |m| && j < |m| && m[i].key.user == m[j].key.user
    requires m[j].key.sn < m[i].key.sn <= snapshot
    ensures Dropped(m, j, snapshot, v, level)
  {
    assert InOrder(m, j, i);
    assert i < j && InOrder(m, i, j - 1) && InOrder(m, j - 1, j);
  }

  /** A file kept at `level` or shallower holds only newer entries for the user key of an input entry. */
  lemma NotShallower(v: Version, level: nat, in0: seq<File>, in1: seq<File>, l: nat, f: File, n: Entry, k: nat, g: File,
                     x: Entry)
    requires GoodPick(v, level, in0, in1)
    requires level <= l <= level + 1 && f in v[l] && n in f.table && (if l == level then f in in0 else f in in1)
    requires k < NUM_LEVELS && g in v[k] && x in g.table && (k == level ==> g !in in0)
    requires x.key.user == n.key.user
    ensures k <= level ==> x.key.sn > n.key.sn
  {
    if k < level || (k == level && l == level + 1) {
      assert LevelNewer(v, k, l) && Newer(g, f);
    } else if k == level {
      assert Newer(g, f);
    }
  }

  /** After an obsolete marker is dropped a read falls through to what was left behind at level+1. */
  lemma ReadAfterMarker(v: Version, level: nat, in0: seq<File>, in1: seq<File>, snapshot: SequenceNumber,
                        m: seq<Entry>, outs: seq<File>, v': Version, u: UserKey, s: SequenceNumber, i: nat)
    requires CompactionStep(v, level, in0, in1, snapshot, m, outs, v') && snapshot < MAX_SEQUENCE_NUMBER
             && snapshot <= s
    requires i < |m| && Newest(Entries(v), u, s, m[i]) && Dropped(m, i, snapshot, v, level)
    ensures Read(Entries(v'), u, s) == Read(LeftBehind(v, level, in1), u, snapshot)
  {
    var left, after := LeftBehind(v, level, in1), Entries(v');
    InstalledEntries(v, level, in0, in1, outs, v');
    forall e | e in left ensures e in after { }
    forall x | x in after && x.key.user == u && x.key.sn <= s
      ensures x in left && x.key.sn <= snapshot
    {
      OnlyLeftBehind(v, level, in0, in1, snapshot, m, outs, v', u, s, i, x);
    }
    NewestExists(after, u, s);
    if NoneVisible(after, u, s) {
      assert NoneVisible(left, u, snapshot);
    } else {
      var e :| Newest(after, u, s, e);
      assert Newest(left, u, snapshot, e);
      ReadNewest(after, u, s, e);
      ReadNewest(left, u, snapshot, e);
    }
  }

  /** A read at or above the smallest snapshot, when no marker hides anything left behind. */
  lemma ReadSurvives(v: Version, level: nat, in0: seq<File>, in1: seq<File>, snapshot: SequenceNumber,
                     m: seq<Entry>, outs: seq<File>, v': Version, u: UserKey, s: SequenceNumber)
    requires CompactionStep(v, level, in0, in1, snapshot, m, outs, v') && snapshot < MAX_SEQUENCE_NUMBER
             && snapshot <= s
    requires NothingResurfaces(v, level, in0, in1, snapshot)
    ensures Read(Entries(v'), u, s) == Read(Entries(v), u, s)
  {
    var before, after := Entries(v), Entries(v');
    InstalledEntries(v, level, in0, in1, outs, v');
    NewestExists(before, u, s);
    if NoneVisible(before, u, s) {
      assert NoneVisible(after, u, s);
    } else {
      var n :| Newest(before, u, s, n);
      ReadNewest(before, u, s, n);
      if n in after {
        assert Newest(after, u, s, n);
        ReadNewest(after, u, s, n);
      } else {
        var i := GoneIsDropped(v, level, in0, in1, snapshot, m, outs, v', n);
        forall e | e in m ensures e in before { InputsInVersion(v, level, in0, in1, e); }
        NewestDroppedIsMarker(v, level, in0, in1, snapshot, m, u, s, i);
        assert n in m && ObsoleteMarker(v, level, in0, in1, snapshot, u, n);
        ReadAfterMarker(v, level, in0, in1, snapshot, m, outs, v', u, s, i);
      }
    }
  }

  /** Conversely, a marker that hides a value left behind is dropped and the value reappears. */
  lemma MarkerMustStay(v: Version, level: nat, in0: seq<File>, in1: seq<File>, snapshot: SequenceNumber,
                       m: seq<Entry>, outs: seq<File>, v': Version, u: UserKey, n: Entry)
    requires CompactionStep(v, level, in0, in1, snapshot, m, outs, v') && snapshot < MAX_SEQUENCE_NUMBER
    requires ObsoleteMarker(v, level, in0, in1, snapshot, u, n)
    ensures Read(Entries(v), u, snapshot) == None
    ensures Read(Entries(v'), u, snapshot) == Read(LeftBehind(v, level, in1), u, snapshot)
  {
    ReadNewest(Entries(v), u, snapshot, n);
    var i :| 0 <= i < |m| && m[i] == n;
    ReadAfterMarker(v, level, in0, in1, snapshot, m, outs, v', u, snapshot, i);
  }

  /** Reads at or above the smallest snapshot survive a compaction if and only if nothing resurfaces. */
  lemma CompactionPreservesReads(v: Version, level: nat, in0: seq<File>, in1: seq<File>, snapshot: SequenceNumber,
                                 m: seq<Entry>, outs: seq<File>, v': Version)
    requires CompactionStep(v, level, in0, in1, snapshot, m, outs, v') && snapshot < MAX_SEQUENCE_NUMBER
    ensures (forall u, s :: snapshot <= s ==> Read(Entries(v'), u, s) == Read(Entries(v), u, s))
            <==> NothingResurfaces(v, level, in0, in1, snapshot)
  {
    if NothingResurfaces(v, level, in0, in1, snapshot) {
      forall u, s: SequenceNumber | snapshot <= s
        ensures Read(Entries(v'), u, s) == Read(Entries(v), u, s)
      {
        ReadSurvives(v, level, in0, in1, snapshot, m, outs, v', u, s);
      }
    } else {
      var u, n :| ObsoleteMarker(v, level, in0, in1, snapshot, u, n)
        && Read(LeftBehind(v, level, in1), u, snapshot) != None;
      MarkerMustStay(v, level, in0, in1, snapshot, m, outs, v', u, n);
    }
  }

  /** Closing the level+1 inputs over shared user keys, as is done for `level`, rules the bad case out. */
  lemma ClosedNextLevelIsSafe(v: Version, level: nat, in0: seq<File>, in1: seq<File>, snapshot: SequenceNumber)
    requires GoodPick(v, level, in0, in1)
    requires forall f, g {:trigger Newer(g, f)} :: (f in in0 || f in in1) && g in v[level + 1] && g !in in1 ==>
             Newer(g, f)
    ensures NothingResurfaces(v, level, in0, in1, snapshot)
  {
    forall u, n | ObsoleteMarker(v, level, in0, in1, snapshot, u, n)
      ensures Read(LeftBehind(v, level, in1), u, snapshot) == None
    {
      var l, f := InputSource(v, level, in0, in1, n);
      forall x | x in LeftBehind(v, level, in1) && x.key.user == u
        ensures x.key.sn > snapshot
      {
        var g :| g in v[level + 1] && g !in in1 && x in g.table;
        assert Newer(g, f) && x in Entries(v);
      }
    }
  }
}
