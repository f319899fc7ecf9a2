// Writing a memtable as a table file: PickLevelForMemTableOutput in db/version_set.cc and
// WriteLevel0Table in db/db_impl.cc.
module Flushes {
  import opened Basics
  import opened InternalKeys
  import opened ReadSpec
  import opened Versions
  import opened Picking
  import opened CompactionInputs

  /** No file of the level meets the user-key range [lo, hi]. */
  ghost predicate LevelClear(v: Version, l: nat, lo: UserKey, hi: UserKey)
    requires l < |v|
  {
    forall f :: f in v[l] ==> !Overlaps(f, Some(lo), Some(hi))
  }

  method OverlapInLevel(v: Version, level: nat, lo: UserKey, hi: UserKey) returns (r: bool)
    requires ValidVersion(v) && level < NUM_LEVELS
    ensures r <==> !LevelClear(v, level, lo, hi)
  {
    assert ValidLevel(v, level);
    r := SomeFileOverlapsRange(level > 0, v[level], Some(lo), Some(hi));
  }

  /** A table for this range at level `l` could as well go one level deeper: nothing is in its way there, and it would
      not meet too much data below that. */
  ghost predicate MayGoDeeper(v: Version, l: nat, lo: UserKey, hi: UserKey, maxFileSize: nat)
    requires l + 2 < |v|
  {
    LevelClear(v, l + 1, lo, hi) && TotalFileSize(Overlapping(v[l + 2], Some(lo), Some(hi))) <= 10 * maxFileSize
  }

  /** The one level a memtable table for this range goes to. */
  ghost predicate IsPickedLevel(v: Version, lo: UserKey, hi: UserKey, maxFileSize: nat, level: nat)
    requires |v| == NUM_LEVELS
  {
    && level <= MAX_MEM_COMPACT_LEVEL
    && if !LevelClear(v, 0, lo, hi) then level == 0
       else
         && (forall l :: 0 <= l < level ==> MayGoDeeper(v, l, lo, hi, maxFileSize))
         && (level < MAX_MEM_COMPACT_LEVEL ==> !MayGoDeeper(v, level, lo, hi, maxFileSize))
  }

  /** Version::PickLevelForMemTableOutput. */
  method PickLevelForMemTableOutput(v: Version, lo: UserKey, hi: UserKey, maxFileSize: nat) returns (level: nat)
    requires ValidVersion(v)
    ensures IsPickedLevel(v, lo, hi, maxFileSize, level)
    ensures level > 0 ==> forall l :: 0 <= l <= level ==> LevelClear(v, l, lo, hi)
  {
    level := 0;
    var overlap := OverlapInLevel(v, 0, lo, hi);
    if !overlap {
      while level < MAX_MEM_COMPACT_LEVEL
        invariant level <= MAX_MEM_COMPACT_LEVEL
        invariant forall l :: 0 <= l <= level ==> LevelClear(v, l, lo, hi)
        invariant forall l :: 0 <= l < level ==> MayGoDeeper(v, l, lo, hi, maxFileSize)
      {
        overlap := OverlapInLevel(v, level + 1, lo, hi);
        if overlap {
          break;
        }
        if level + 2 < NUM_LEVELS {
          var overlaps, _, _ := GetOverlappingInputs(v, level + 2, Some(lo), Some(hi));
          if TotalFileSize(overlaps) > 10 * maxFileSize {
            break;
          }
        }
        level := level + 1;
      }
    }
  }

  /** `v'` is `v` with one more file at `level`. */
  ghost predicate Added(v: Version, level: nat, f: File, v': Version) {
    && |v| == |v'| == NUM_LEVELS && level < NUM_LEVELS
    && (forall l :: 0 <= l < NUM_LEVELS && l != level ==> v'[l] == v[l])
    && (forall g :: g in v'[level] <==> g in v[level] || g == f)
    && SortedFiles(v'[level])
  }

  /** A memtable table: fresh number, and newer than everything the version holds. */
  ghost predicate FreshTable(v: Version, f: File) {
    && ValidFile(f) && Unique(LevelEntries([f]))
    && (forall l, g :: 0 <= l < |v| && g in v[l] ==> g.number < f.number)
    && (forall e, d :: e in f.table && d in Entries(v) ==> e.key.sn > d.key.sn)
  }

  /** Where PickLevelForMemTableOutput may put the table; level 0 is always allowed. */
  ghost predicate AllowedLevel(v: Version, level: nat, f: File)
    requires level < |v|
  {
    level > 0 ==> forall l :: 0 <= l <= level ==> LevelClear(v, l, f.smallest.user, f.largest.user)
  }

  lemma ClearMeansNoSharedKey(v: Version, l: nat, f: File, g: File)
    requires ValidVersion(v) && l < NUM_LEVELS && ValidFile(f) && g in v[l]
    requires LevelClear(v, l, f.smallest.user, f.largest.user)
    ensures Newer(f, g) && Newer(g, f) && Apart(f, g)
  {
    assert ValidLevel(v, l);
    assert !Overlaps(g, Some(f.smallest.user), Some(f.largest.user));
    forall a, b | a in f.table && b in g.table
      ensures a.key.user != b.key.user
    {
      FileBounds(f, a);
      FileBounds(g, b);
    }
  }

  lemma AddedLevelValid(v: Version, level: nat, f: File, v': Version, l: int)
    requires ValidVersion(v) && Added(v, level, f, v') && FreshTable(v, f) && AllowedLevel(v, level, f)
    ensures ValidLevel(v', l)
  {
    assert ValidLevel(v, l);
    if l == level == 0 {
      forall g, h | g in v'[0] && h in v'[0] && g.number > h.number
        ensures Newer(g, h)
      {
        if g == f { FreshIsNewer(v, f, 0, h); }
      }
    } else if l == level {
      LevelFiles(v, level);
      forall g, h | g in v'[l] && h in v'[l] && g != h
        ensures Apart(g, h)
      {
        if g == f {
          ClearMeansNoSharedKey(v, l, f, h);
        } else if h == f {
          ClearMeansNoSharedKey(v, l, f, g);
        } else {
          var k :| 0 <= k < |v[l]| && v[l][k] == h;
          FilesApart(v[l], k, g);
        }
      }
      SortedApartIsDisjoint(v'[l]);
    }
  }

  lemma FreshIsNewer(v: Version, f: File, l: nat, g: File)
    requires FreshTable(v, f) && l < |v| && g in v[l]
    ensures Newer(f, g)
  {
    forall a, b | a in f.table && b in g.table && a.key.user == b.key.user
      ensures a.key.sn > b.key.sn
    {
      assert b in Entries(v);
    }
  }

  lemma AddedLevelsNewer(v: Version, level: nat, f: File, v': Version, l: int, m: int)
    requires ValidVersion(v) && Added(v, level, f, v') && FreshTable(v, f) && AllowedLevel(v, level, f)
    ensures LevelNewer(v', l, m)
  {
    if 0 <= l < m < |v'| {
      assert LevelNewer(v, l, m);
      forall g, h | g in v'[l] && h in v'[m]
        ensures Newer(g, h)
      {
        if l == level && g == f {
          FreshIsNewer(v, f, m, h);
        } else if m == level && h == f {
          ClearMeansNoSharedKey(v, l, f, g);
        }
      }
    }
  }

  lemma AddedEntries(v: Version, level: nat, f: File, v': Version)
    requires Added(v, level, f, v')
    ensures Entries(v') == Entries(v) + LevelEntries([f])
  {
    forall e
      ensures e in Entries(v') <==> e in Entries(v) || e in LevelEntries([f])
    {
      if e in Entries(v') {
        var l, g :| 0 <= l < |v'| && g in v'[l] && e in g.table;
        assert g in [f] || g in v[l];
      }
      if e in Entries(v) {
        var l, g :| 0 <= l < |v| && g in v[l] && e in g.table;
        assert g in v'[l];
      }
      if e in LevelEntries([f]) {
        assert f in v'[level] && e in f.table;
      }
    }
  }

  /** Flushing a memtable to the picked level keeps every invariant of a version. */
  lemma FlushKeepsValid(v: Version, level: nat, f: File, v': Version)
    requires ValidVersion(v) && Added(v, level, f, v') && FreshTable(v, f) && AllowedLevel(v, level, f)
    ensures ValidVersion(v')
  {
    forall l ensures ValidLevel(v', l) { AddedLevelValid(v, level, f, v', l); }
    forall l, m ensures LevelNewer(v', l, m) { AddedLevelsNewer(v, level, f, v', l, m); }
    forall l, m ensures NumbersDiffer(v', l, m) { assert NumbersDiffer(v, l, m); }
    AddedEntries(v, level, f, v');
    forall e, d | e in Entries(v') && d in Entries(v') && SameSlot(e, d)
      ensures e == d
    {
      assert f in [f];
      assert e in LevelEntries([f]) ==> e in f.table;
      assert d in LevelEntries([f]) ==> d in f.table;
    }
  }
}
