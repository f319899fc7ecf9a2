// Running a compaction: Compaction in db/version_set.cc and DBImpl::DoCompactionWork in db/db_impl.cc.
module Compactions {
  import opened Basics
  import opened InternalKeys
  import opened ReadSpec
  import opened Versions
  import opened Picking
  import opened CompactionInputs
  import opened OutputCuts
  import opened MergingIterators

  /** No file at `from` or deeper spans the user key: IsBaseLevelForKey without its cursor state. */
  ghost predicate NoFileCovers(v: Version, from: nat, u: UserKey) {
    forall l, f :: from <= l < |v| && f in v[l] ==> !InUserRange(f, u)
  }

  lemma OneMoreFile(files: seq<File>, first: nat, i: nat)
    requires first <= i < |files|
    ensures TotalFileSize(files[first..i + 1]) == TotalFileSize(files[first..i]) + files[i].size
  {
    assert files[first..i + 1][..i - first] == files[first..i];
  }

  /** The level+2 files that meet the user-key range of all inputs. */
  ghost function Grandparents(v: Version, level: nat, in0: seq<File>, in1: seq<File>): seq<File>
    requires in0 != []
  {
    if level + 2 < |v| then Overlapping(v[level + 2], Some(SmallestOf(in0 + in1).user), Some(LargestOf(in0 + in1).user))
      else []
  }

  class Compaction {
    const version: Version
    const level: nat
    const maxFileSize: nat
    var inputs0: seq<File>
    var inputs1: seq<File>
    var grandparents: seq<File>
    var grandparentIndex: nat
    var seenKey: bool
    var overlappedBytes: nat
    var levelPtrs: seq<nat>

    ghost predicate Valid()
      reads this
    {
      && level + 1 < NUM_LEVELS && ValidVersion(version)
      && |levelPtrs| == NUM_LEVELS && (forall l :: 0 <= l < NUM_LEVELS ==> levelPtrs[l] <= |version[l]|)
      && grandparentIndex <= |grandparents|
    }

    constructor (v: Version, lvl: nat, fileSize: nat, inputs: seq<File>)
      requires ValidVersion(v) && lvl + 1 < NUM_LEVELS
      ensures Valid() && version == v && level == lvl && maxFileSize == fileSize && inputs0 == inputs
              && grandparentIndex == 0
      ensures inputs1 == [] && grandparents == [] && levelPtrs == seq(NUM_LEVELS, _ => 0) && !seenKey
              && overlappedBytes == 0
    {
      version := v;
      level := lvl;
      maxFileSize := fileSize;
      inputs0 := inputs;
      inputs1 := [];
      grandparents := [];
      grandparentIndex := 0;
      seenKey := false;
      overlappedBytes := 0;
      levelPtrs := seq(NUM_LEVELS, _ => 0);
    }

    /** VersionSet::SetupOtherInputs; returns the key stored in compact_pointer_[level]. */
    method SetupOtherInputs() returns (pointer: Key)
      requires Valid() && Seed(version, level, inputs0) && grandparents == [] && grandparentIndex == 0
      modifies this
      ensures Valid() && GoodPick(version, level, inputs0, inputs1)
      ensures levelPtrs == old(levelPtrs) && seenKey == old(seenKey) && overlappedBytes == old(overlappedBytes)
      ensures inputs0 != [] && grandparents == Grandparents(version, level, inputs0, inputs1)
      ensures grandparentIndex == 0 && pointer == LargestOf(inputs0)
      ensures forall f :: f in old(inputs0) ==> f in inputs0
      ensures ValidLevel(version, level) && IsSetup(version, level, old(inputs0), maxFileSize, inputs0, inputs1)
      ensures inputs1 == MeetNext(version, level, inputs0)
    {
      hide GoodPick, Overlapping, SmallestOf, LargestOf, Grown, BoundaryFiles;
      var v := version;
      assert ValidLevel(v, level);
      var in0 := AddBoundaryInputs(v[level], inputs0);
      SeedClosed(v, level, inputs0, in0);
      var smallest, largest := GetRange(in0);
      var in1 := OverlappingNext(in0, smallest, largest);
      assert in0 == WithBoundary(v[level], inputs0);
      in0, in1, pointer := GrowInputs(in0, in1, largest);
      var allStart, allLimit := GetRange2(in0, in1);
      grandparents := MeetGrandparents(allStart.user, allLimit.user);
      inputs0, inputs1 := in0, in1;
    }

    /** See whether the level inputs can grow; `largest` is their largest key. */
    method GrowInputs(base0: seq<File>, base1: seq<File>, largest: Key)
      returns (in0: seq<File>, in1: seq<File>, newLargest: Key)
      requires Valid() && GoodPick(version, level, base0, base1) && largest == LargestOf(base0)
      requires base1 == MeetNext(version, level, base0)
      ensures GoodPick(version, level, in0, in1) && in0 != [] && newLargest == LargestOf(in0)
      ensures (forall f :: f in base0 ==> f in in0) && in1 == MeetNext(version, level, in0)
      ensures ValidLevel(version, level)
      ensures if base1 == [] then in0 == base0 && in1 == base1
              else Grown(version, level, base0, base1, maxFileSize, in0, in1)
    {
      hide GoodPick, Overlapping, SmallestOf, LargestOf, Expansion, WorthIt, MeetNext;
      assert ValidLevel(version, level);
      in0, in1, newLargest := base0, base1, largest;
      var allStart, allLimit := GetRange2(in0, in1);
      if in1 != [] {
        var expanded0, expanded1, newLimit, wider := Expand(in0, in1, allStart.user, allLimit.user);
        if expanded0 != [] {
          in0, in1, newLargest := expanded0, expanded1, newLimit;
        }
        assert Grown(version, level, base0, base1, maxFileSize, in0, in1);
      }
    }

    /** The files at level+2 over the range of all inputs, where there is such a level. */
    method MeetGrandparents(start: UserKey, limit: UserKey) returns (files: seq<File>)
      requires Valid()
      ensures files == if level + 2 < |version| then Overlapping(version[level + 2], Some(start), Some(limit)) else []
    {
      files := [];
      if level + 2 < NUM_LEVELS {
        var overlap, _, _ := GetOverlappingInputs(version, level + 2, Some(start), Some(limit));
        files := overlap;
      }
    }

    /** GetRange2: the key range of both input lists, which meets every file of the first. */
    method GetRange2(in0: seq<File>, in1: seq<File>) returns (smallest: Key, largest: Key)
      requires GoodPick(version, level, in0, in1)
      ensures in0 != [] && smallest == SmallestOf(in0 + in1) && largest == LargestOf(in0 + in1)
      ensures forall f :: f in in0 ==> f in version[level] && Overlaps(f, Some(smallest.user), Some(largest.user))
    {
      smallest, largest := GetRange(in0 + in1);
      RangeIsTight(in0 + in1);
      assert ValidLevel(version, level);
      forall f | f in in0
        ensures Overlaps(f, Some(smallest.user), Some(largest.user))
      {
        assert f in in0 + in1;
        FileBounds(f, f.table[0]);
      }
    }

    /** The attempt to grow the `level` inputs without changing the number of `level`+1 inputs; [] if it fails. */
    method Expand(in0: seq<File>, in1: seq<File>, allStart: UserKey, allLimit: UserKey)
      returns (expanded0: seq<File>, expanded1: seq<File>, newLimit: Key, ghost wider: seq<File>)
      requires Valid() && in0 != []
      requires allStart == SmallestOf(in0 + in1).user && allLimit == LargestOf(in0 + in1).user
      requires forall f :: f in in0 ==> f in version[level] && Overlaps(f, Some(allStart), Some(allLimit))
      ensures expanded0 != [] ==> forall f :: f in in0 ==> f in expanded0
      ensures expanded0 != [] ==> GoodPick(version, level, expanded0, expanded1) && newLimit == LargestOf(expanded0)
      ensures ValidLevel(version, level) && Expansion(version, level, in0, in1, wider)
      ensures expanded0 == if WorthIt(version, level, in0, in1, wider, maxFileSize) then wider else []
      ensures WorthIt(version, level, in0, in1, wider, maxFileSize) ==> wider != []
      ensures expanded0 != [] ==> expanded1 == MeetNext(version, level, expanded0)
    {
      assert ValidLevel(version, level);
      newLimit := in0[0].largest;
      var seed, lo, hi := GetOverlappingInputs(version, level, Some(allStart), Some(allLimit));
      expanded0 := AddBoundaryInputs(version[level], seed);
      OverlappingMembers(version[level], lo, hi);
      forall f | f in in0 ensures f in seed { assert Overlaps(f, lo, hi); }
      assert in0[0] in in0 && in0[0] in seed;
      assert Gathered(version[level], level, Some(allStart), Some(allLimit), seed) by {
        assert level == 0 ==> GatherRange(version[level], Some(allStart), Some(allLimit), lo, hi);
      }
      wider := expanded0;
      expanded1 := [];
      if |expanded0| > |in0| && TotalFileSize(in1) + TotalFileSize(expanded0) < 25 * maxFileSize {
        OverlapIsSeed(version, level, lo, hi);
        SeedClosed(version, level, seed, expanded0);
        var newStart, limit := GetRange(expanded0);
        newLimit := limit;
        expanded1 := OverlappingNext(expanded0, newStart, newLimit);
        if |expanded1| != |in1| {
          expanded0 := [];
        }
      } else {
        expanded0 := [];
      }
    }

    /** The level+1 files over the key range of `in0`. */
    method OverlappingNext(in0: seq<File>, smallest: Key, largest: Key) returns (in1: seq<File>)
      requires Valid() && ClosedAtLevel(version, level, in0)
      requires if level > 0 then Disjoint(in0) else SortedFiles(in0)
      requires smallest == SmallestOf(in0) && largest == LargestOf(in0)
      ensures GoodPick(version, level, in0, in1) && in1 == MeetNext(version, level, in0)
    {
      var overlap, _, _ := GetOverlappingInputs(version, level + 1, Some(smallest.user), Some(largest.user));
      in1 := overlap;
      LevelFiles(version, level + 1);
      assert ValidLevel(version, level);
      OverlapKeepsClear(version[level + 1], in0, in1);
      OverlappingMembers(version[level + 1], Some(smallest.user), Some(largest.user));
    }

    /** ShouldStopBefore has not been called yet. */
    ghost predicate NothingCounted()
      reads this
    {
      grandparentIndex == 0 && !seenKey && overlappedBytes == 0
    }

    /** What ShouldStopBefore has counted when `i` entries have been seen. */
    ghost predicate CountedTo(m: seq<Entry>, i: nat)
      requires i <= |m|
      reads this
    {
      Counted(grandparents, 10 * maxFileSize, m, i, grandparentIndex, seenKey, overlappedBytes)
    }

    method IsTrivialMove() returns (r: bool)
      ensures r <==> |inputs0| == 1 && inputs1 == [] && TotalFileSize(grandparents) <= 10 * maxFileSize
    {
      r := |inputs0| == 1 && |inputs1| == 0 && TotalFileSize(grandparents) <= 10 * maxFileSize;
    }

    /** Every file a level pointer has passed ends before `u`. */
    ghost predicate PointersBehind(u: UserKey)
      requires Valid()
      reads this
    {
      forall l, j :: 0 <= l < NUM_LEVELS && 0 <= j < levelPtrs[l] ==> version[l][j].largest.user < u
    }

    method IsBaseLevelForKey(u: UserKey) returns (r: bool)
      requires Valid() && PointersBehind(u)
      modifies this`levelPtrs
      ensures Valid() && PointersBehind(u)
      ensures r <==> NoFileCovers(version, level + 2, u)
    {
      for lvl := level + 2 to NUM_LEVELS
        invariant Valid() && PointersBehind(u)
        invariant forall l, f :: level + 2 <= l < lvl && f in version[l] ==> !InUserRange(f, u)
      {
        var files := version[lvl];
        while levelPtrs[lvl] < |files|
          invariant Valid() && PointersBehind(u)
          invariant levelPtrs[lvl] < |files| || forall f :: f in files ==> !InUserRange(f, u)
          decreases |files| - levelPtrs[lvl]
        {
          var f := files[levelPtrs[lvl]];
          if u <= f.largest.user {
            if u >= f.smallest.user {
              assert f in version[lvl] && InUserRange(f, u);
              return false;
            }
            FilesPastPointer(lvl, levelPtrs[lvl], u);
            break;
          }
          levelPtrs := levelPtrs[lvl := levelPtrs[lvl] + 1];
          assert levelPtrs[lvl] == |files| ==> forall g :: g in files ==> !InUserRange(g, u);
        }
      }
      r := true;
    }

    lemma FilesPastPointer(l: nat, p: nat, u: UserKey)
      requires Valid() && 1 <= l < NUM_LEVELS && p < |version[l]|
      requires forall j :: 0 <= j < p ==> version[l][j].largest.user < u
      requires u < version[l][p].smallest.user
      ensures forall f :: f in version[l] ==> !InUserRange(f, u)
    {
      LevelFiles(version, l);
      forall f | f in version[l]
        ensures !InUserRange(f, u)
      {
        var j :| 0 <= j < |version[l]| && version[l][j] == f;
        FileOrder(version[l], p);
        assert EndsBefore(version[l], p, j);
      }
    }

    /** ShouldStopBefore: count the grandparent bytes passed since the last cut. */
    method ShouldStopBefore(key: Key) returns (r: bool)
      requires Valid()
      modifies this`grandparentIndex, this`seenKey, this`overlappedBytes
      ensures Valid() && seenKey && old(grandparentIndex) <= grandparentIndex
      ensures forall i :: old(grandparentIndex) <= i < grandparentIndex ==> Less(grandparents[i].largest, key)
      ensures grandparentIndex < |grandparents| ==> AtMost(key, grandparents[grandparentIndex].largest)
      ensures var passed := old(overlappedBytes)
                + if old(seenKey) then TotalFileSize(grandparents[old(grandparentIndex)..grandparentIndex]) else 0;
              && (r <==> passed > 10 * maxFileSize)
              && overlappedBytes == if r then 0 else passed
    {
      ghost var first := grandparentIndex;
      while grandparentIndex < |grandparents| && Less(grandparents[grandparentIndex].largest, key)
        invariant Valid() && first <= grandparentIndex && seenKey == old(seenKey)
        invariant forall i :: first <= i < grandparentIndex ==> Less(grandparents[i].largest, key)
        invariant overlappedBytes == old(overlappedBytes)
                    + if seenKey then TotalFileSize(grandparents[first..grandparentIndex]) else 0
      {
        OneMoreFile(grandparents, first, grandparentIndex);
        if seenKey {
          overlappedBytes := overlappedBytes + grandparents[grandparentIndex].size;
        }
        grandparentIndex := grandparentIndex + 1;
      }
      seenKey := true;
      if overlappedBytes > 10 * maxFileSize {
        overlappedBytes := 0;
        return true;
      } else {
        return false;
      }
    }
  }

  // ---------------------------------------------------------------- which entries survive

  /** Sequence number of the previous entry for the same user key; the maximum if this is the first. */
  ghost function LastSequenceForKey(m: seq<Entry>, i: nat): SequenceNumber
    requires i < |m|
  {
    if i > 0 && m[i - 1].key.user == m[i].key.user then m[i - 1].key.sn else MAX_SEQUENCE_NUMBER
  }

  ghost predicate Dropped(m: seq<Entry>, i: nat, snapshot: SequenceNumber, v: Version, level: nat)
    requires i < |m|
  {
    || LastSequenceForKey(m, i) <= snapshot
    || (m[i].key.ty.Deletion? && m[i].key.sn <= snapshot && NoFileCovers(v, level + 2, m[i].key.user))
  }

  ghost function Kept(m: seq<Entry>, n: nat, snapshot: SequenceNumber, v: Version, level: nat): seq<Entry>
    requires n <= |m|
  {
    if n == 0 then []
    else
      var rest := Kept(m, n - 1, snapshot, v, level);
      if Dropped(m, n - 1, snapshot, v, level) then rest else rest + [m[n - 1]]
  }

  lemma {:induction false} KeptIsSublist(m: seq<Entry>, n: nat, snapshot: SequenceNumber, v: Version, level: nat)
    requires Sorted(m) && n <= |m|
    ensures Sorted(Kept(m, n, snapshot, v, level))
    ensures forall e :: e in Kept(m, n, snapshot, v, level) ==> e in m && (n < |m| ==> Less(e.key, m[n].key))
    ensures forall i :: 0 <= i < n ==> (m[i] in Kept(m, n, snapshot, v, level) <==> !Dropped(m, i, snapshot, v, level))
  {
    if n > 0 {
      KeptIsSublist(m, n - 1, snapshot, v, level);
      var rest, kept := Kept(m, n - 1, snapshot, v, level), Kept(m, n, snapshot, v, level);
      assert InOrder(m, n - 1, n);
      forall i, j
        ensures InOrder(kept, i, j)
      {
        assert InOrder(rest, i, j);
        if 0 <= i < j == |rest| { assert rest[i] in rest; }
      }
      forall i | 0 <= i < n
        ensures m[i] in kept <==> !Dropped(m, i, snapshot, v, level)
      {
        assert InOrder(m, i, n - 1);
        assert kept == rest || kept == rest + [m[n - 1]];
      }
    }
  }

  lemma UsersBetween(m: seq<Entry>, i: nat, j: nat)
    requires Sorted(m) && i < j < |m| && m[i].key.user == m[j].key.user
    ensures m[j - 1].key.user == m[j].key.user && m[j - 1].key.sn <= m[i].key.sn
  {
    assert InOrder(m, i, j - 1) && InOrder(m, j - 1, j);
  }

  /** What a compaction is for: of each user key it keeps at most one entry that no live snapshot sees beyond, and no
      deletion marker with nothing left to delete. */
  lemma KeptIsNeeded(m: seq<Entry>, snapshot: SequenceNumber, v: Version, level: nat, e: Entry, d: Entry)
    requires Sorted(m) && e in Kept(m, |m|, snapshot, v, level) && d in Kept(m, |m|, snapshot, v, level)
    ensures e.key.user == d.key.user && e != d ==> e.key.sn > snapshot || d.key.sn > snapshot
    ensures e.key.ty.Deletion? && NoFileCovers(v, level + 2, e.key.user) ==> e.key.sn > snapshot
  {
    KeptIsSublist(m, |m|, snapshot, v, level);
    var i: nat, j: nat :| i < |m| && j < |m| && m[i] == e && m[j] == d;
    if e.key.user == d.key.user {
      if i < j { UsersBetween(m, i, j); }
      if j < i { UsersBetween(m, j, i); }
    }
  }

  function Flatten(files: seq<File>): seq<Entry> {
    if files == [] then [] else Flatten(files[..|files| - 1]) + files[|files| - 1].table
  }

  /** A file whose recorded bounds are its first and last key. */
  predicate WellBounded(f: File) {
    |f.table| > 0 && f.smallest == f.table[0].key && f.largest == f.table[|f.table| - 1].key
  }

  lemma {:induction false} CutsOfSorted(files: seq<File>)
    requires Sorted(Flatten(files)) && forall f :: f in files ==> WellBounded(f)
    ensures DisjointFiles(files)
    ensures forall e :: e in Flatten(files) <==> exists f :: f in files && e in f.table
  {
    if files != [] {
      var n := |files| - 1;
      var rest, last := files[..n], files[n];
      var all, head := Flatten(files), Flatten(files[..n]);
      assert files == rest + [last] && all == head + last.table;
      forall i, j ensures InOrder(head, i, j) { assert InOrder(all, i, j); }
      forall i, j ensures InOrder(last.table, i, j) { assert InOrder(all, |head| + i, |head| + j); }
      CutsOfSorted(rest);
      assert last in files;
      forall i, j
        ensures EndsBefore(files, i, j)
      {
        if 0 <= i < j < n {
          assert EndsBefore(rest, i, j);
        } else if 0 <= i < j == n {
          assert rest[i] in files;
          var e := rest[i].table[|rest[i].table| - 1];
          assert rest[i] in rest && e in rest[i].table && e in head;
          var k :| 0 <= k < |head| && head[k] == e;
          assert InOrder(all, k, |head|) && all[|head|] == last.table[0];
        }
      }
      forall f | f in files ensures ValidFile(f) { assert f in rest || f == last; }
    }
  }

  // ---------------------------------------------------------------- where the outputs are cut

  ghost function DropsOf(m: seq<Entry>, snapshot: SequenceNumber, v: Version, level: nat): (r: seq<bool>)
    ensures |r| == |m|
  {
    seq(|m|, i requires 0 <= i < |m| => Dropped(m, i, snapshot, v, level))
  }

  ghost function StopsOf(gp: seq<File>, limit: nat, m: seq<Entry>): (r: seq<bool>)
    ensures |r| == |m|
  {
    seq(|m|, i requires 0 <= i < |m| => StopsBefore(gp, limit, m, i))
  }

  /** What decides the cuts of a compaction of the entries `m`. */
  ghost function CutRules(m: seq<Entry>, snapshot: SequenceNumber, v: Version, level: nat, gp: seq<File>,
                          maxFileSize: nat, fileSize: seq<Entry> -> nat): (r: Rules)
    ensures |r.drops| == |r.stops| == |m| && r.fileSize == fileSize && r.limit == maxFileSize
  {
    Rules(DropsOf(m, snapshot, v, level), StopsOf(gp, 10 * maxFileSize, m), fileSize, maxFileSize)
  }

  function TablesOf(files: seq<File>): (r: seq<seq<Entry>>)
    ensures |r| == |files|
  {
    seq(|files|, i requires 0 <= i < |files| => files[i].table)
  }

  /** The outputs are the tables that the rules cut the kept entries of `m` into. */
  ghost predicate CutByRules(outputs: seq<File>, m: seq<Entry>, snapshot: SequenceNumber, v: Version, level: nat,
                             gp: seq<File>, maxFileSize: nat, fileSize: seq<Entry> -> nat) {
    && TablesOf(outputs) == AllTables(m, CutRules(m, snapshot, v, level, gp, maxFileSize, fileSize))
    && forall f :: f in outputs ==> f.size == fileSize(f.table)
  }

  /** More than `limit` bytes of the grandparents end between an entry of the input and the key. */
  ghost predicate FarBelow(gp: seq<File>, limit: nat, m: seq<Entry>, b: Key) {
    exists between: seq<File>, e ::
      && TotalFileSize(between) > limit && e in m && Less(e.key, b)
      && forall g :: g in between ==> g in gp && AtMost(e.key, g.largest) && Less(g.largest, b)
  }

  lemma StopIsFarBelow(gp: seq<File>, limit: nat, m: seq<Entry>, i: nat, b: Key)
    requires i < |m| && Sorted(m) && StopsBefore(gp, limit, m, i) && AtMost(m[i].key, b)
    requires Disjoint(gp) && forall g :: g in gp ==> ValidFile(g)
    ensures FarBelow(gp, limit, m, b) && gp != []
  {
    hide StopsBefore, Disjoint, ValidFile;
    var s, between := StopMeans(gp, limit, m, i);
    InputAscends(m, i, s);
    assert m[s] in m;
    assert TotalFileSize(between) > limit && Less(m[s].key, b);
    if gp == [] {
      NothingToPass(limit, m, i);
    }
  }

  /** Every output but the last reached the size limit or ends where the next one would overlap too much below; so
      without grandparents every output but the last reached the limit. */
  lemma OutputsEndForReason(outputs: seq<File>, m: seq<Entry>, snapshot: SequenceNumber, v: Version, level: nat,
                            gp: seq<File>, maxFileSize: nat, fileSize: seq<Entry> -> nat, j: nat)
    requires Sorted(m) && j < |outputs| - 1 && Disjoint(gp) && forall g :: g in gp ==> ValidFile(g)
    requires CutByRules(outputs, m, snapshot, v, level, gp, maxFileSize, fileSize)
    ensures outputs[j + 1].table != []
    ensures outputs[j].size >= maxFileSize || FarBelow(gp, 10 * maxFileSize, m, outputs[j + 1].table[0].key)
    ensures gp == [] ==> outputs[j].size >= maxFileSize
  {
    hide StopsBefore, Disjoint, ValidFile, FarBelow, Dropped, AllTables;
    var r := CutRules(m, snapshot, v, level, gp, maxFileSize, fileSize);
    EveryCutHasReason(m, r);
    var ts := AllTables(m, r);
    assert Divided(m, r, ts, j) && outputs[j] in outputs && ts[j] == outputs[j].table
           && ts[j + 1] == outputs[j + 1].table;
    if outputs[j].size < maxFileSize {
      var i :| 0 <= i < |m| && r.stops[i] && Less(Last(ts[j]), m[i].key) && AtMost(m[i].key, ts[j + 1][0].key);
      StopIsFarBelow(gp, 10 * maxFileSize, m, i, ts[j + 1][0].key);
    }
  }

  // ---------------------------------------------------------------- the compaction loop

  ghost predicate NumberedBefore(files: seq<File>, i: int, j: int) {
    0 <= i < j < |files| ==> files[i].number < files[j].number
  }

  ghost predicate NumbersAscend(files: seq<File>) {
    forall i, j :: NumberedBefore(files, i, j)
  }

  /** The table was within the size limit until its last entry. */
  predicate ClosedInTime(table: seq<Entry>, fileSize: seq<Entry> -> nat, limit: nat) {
    |table| > 1 ==> fileSize(table[..|table| - 1]) < limit
  }

  /** Finished tables: bounded by their keys, of the reported size, and not closed too late. */
  ghost predicate GoodTables(files: seq<File>, fileSize: seq<Entry> -> nat, limit: nat) {
    forall f :: f in files ==> WellBounded(f) && f.size == fileSize(f.table) && ClosedInTime(f.table, fileSize, limit)
  }

  /** Numbers are handed out one after the other. */
  ghost predicate NumberedFrom(files: seq<File>, first: nat) {
    forall k :: 0 <= k < |files| ==> files[k].number == first + k
  }

  lemma NumberedAscends(files: seq<File>, first: nat)
    requires NumberedFrom(files, first)
    ensures NumbersAscend(files) && forall f :: f in files ==> first <= f.number < first + |files|
  {
  }

  /** CompactionState: finished outputs and the table being built. */
  class CompactionState {
    const smallestSnapshot: SequenceNumber
    // What the table builder reports as the size of a table, and the size at which an output is closed.
    const fileSize: seq<Entry> -> nat
    const limit: nat
    var outputs: seq<File>
    var builder: seq<Entry>
    var nextFileNumber: nat
    var outputNumber: nat

    constructor (snapshot: SequenceNumber, size: seq<Entry> -> nat, max: nat, next: nat)
      ensures smallestSnapshot == snapshot && fileSize == size && limit == max
      ensures nextFileNumber == next && outputs == [] && builder == []
    {
      smallestSnapshot, fileSize, limit := snapshot, size, max;
      outputs := [];
      builder := [];
      nextFileNumber := next;
      outputNumber := 0;
    }

    /** Numbers are handed out once; the open output owns the latest. */
    ghost predicate Valid(first: nat)
      reads this
    {
      && GoodTables(outputs, fileSize, limit)
      && (builder != [] ==> fileSize(builder) < limit) && ClosedInTime(builder, fileSize, limit)
      && NumberedFrom(outputs, first)
      && nextFileNumber == first + |outputs| + (if builder == [] then 0 else 1)
      && (builder != [] ==> outputNumber == first + |outputs|)
    }

    /** Everything written so far, finished or not. */
    ghost function Produced(): seq<Entry>
      reads this
    {
      Flatten(outputs) + builder
    }

    /** The finished tables and the one being built. */
    ghost function Tables(): Written
      reads this
    {
      Written(TablesOf(outputs), builder)
    }

    /** OpenCompactionOutputFile if needed, TableBuilder::Add, and FinishCompactionOutputFile at the size limit. */
    method Emit(e: Entry, ghost first: nat)
      requires Valid(first)
      modifies this
      ensures Valid(first) && Produced() == old(Produced()) + [e]
      ensures var t := old(builder) + [e];
              if fileSize(t) >= limit then builder == [] && |outputs| == |old(outputs)| + 1
                && outputs[|old(outputs)|].table == t
              else builder == t && outputs == old(outputs)
      ensures forall r: Rules :: r.fileSize == fileSize && r.limit == limit ==> Tables() == Put(old(Tables()), e, r)
    {
      if builder == [] {
        outputNumber := nextFileNumber;
        nextFileNumber := nextFileNumber + 1;
      }
      builder := builder + [e];
      if fileSize(builder) >= limit {
        assert builder[..|builder| - 1] == old(builder);
        Finish(first);
      }
    }

    /** Everything Valid says about a table that may be closed now. */
    ghost predicate CanClose(first: nat)
      reads this
    {
      && GoodTables(outputs, fileSize, limit) && NumberedFrom(outputs, first)
      && outputNumber == first + |outputs| && nextFileNumber == outputNumber + 1
      && builder != [] && ClosedInTime(builder, fileSize, limit)
    }

    /** FinishCompactionOutputFile. */
    method Finish(ghost first: nat)
      requires CanClose(first)
      modifies this`outputs, this`builder
      ensures Valid(first) && builder == [] && Produced() == old(Produced())
      ensures |outputs| == |old(outputs)| + 1 && outputs[|old(outputs)|].table == old(builder)
      ensures TablesOf(outputs) == TablesOf(old(outputs)) + [old(builder)]
    {
      var f := File(outputNumber, fileSize(builder), builder[0].key, builder[|builder| - 1].key, builder);
      var grown := outputs + [f];
      assert grown[..|grown| - 1] == outputs;
      outputs := grown;
      builder := [];
    }
  }

  lemma PassedIsFound(gp: seq<File>, k: Key, m: seq<Entry>, i: nat, index: nat, index': nat)
    requires i < |m| && Sorted(m) && k == m[i].key && index <= index' <= |gp|
    requires if i == 0 then index == 0 else index == PassedBy(gp, m[i - 1].key)
    requires forall j :: index <= j < index' ==> Less(gp[j].largest, k)
    requires index' < |gp| ==> AtMost(k, gp[index'].largest)
    ensures index' == PassedBy(gp, k)
  {
    assert InOrder(m, i - 1, i);
    PassedIsUnique(gp, k, index');
  }

  /** The first half of a round of DoCompactionWork: close the output before `e` if it overlaps too much below. */
  method CutBefore(c: Compaction, compact: CompactionState, ghost m: seq<Entry>, ghost i: nat, e: Entry,
                   ghost first: nat)
    returns (stop: bool)
    requires c.Valid() && compact.Valid(first) && i < |m| && e == m[i] && Sorted(m) && c.CountedTo(m, i)
    modifies c`grandparentIndex, c`seenKey, c`overlappedBytes, compact`outputs, compact`builder
    ensures c.Valid() && compact.Valid(first) && compact.Produced() == old(compact.Produced())
    ensures c.CountedTo(m, i + 1) && (stop <==> StopsBefore(c.grandparents, 10 * c.maxFileSize, m, i))
    ensures compact.Tables() == if stop then Close(old(compact.Tables())) else old(compact.Tables())
  {
    ghost var index, seen, bytes := c.grandparentIndex, c.seenKey, c.overlappedBytes;
    stop := c.ShouldStopBefore(e.key);
    PassedIsFound(c.grandparents, e.key, m, i, index, c.grandparentIndex);
    CountOn(c.grandparents, 10 * c.maxFileSize, m, i, index, seen, bytes, c.grandparentIndex);
    if stop && compact.builder != [] {
      compact.Finish(first);
    }
  }

  /** Rules (A) and the obsolete deletion marker of DoCompactionWork. */
  method ShouldDrop(c: Compaction, e: Entry, lastSequenceForKey: SequenceNumber, snapshot: SequenceNumber)
    returns (drop: bool)
    requires c.Valid() && c.PointersBehind(e.key.user)
    modifies c`levelPtrs
    ensures c.Valid() && c.PointersBehind(e.key.user)
    ensures drop <==> lastSequenceForKey <= snapshot
                      || (e.key.ty.Deletion? && e.key.sn <= snapshot
                          && NoFileCovers(c.version, c.level + 2, e.key.user))
  {
    drop := false;
    if lastSequenceForKey <= snapshot {
      drop := true;
    } else if e.key.ty.Deletion? && e.key.sn <= snapshot {
      drop := c.IsBaseLevelForKey(e.key.user);
    }
  }

  /** One round of the loop of DoCompactionWork. */
  method CompactEntry(c: Compaction, compact: CompactionState, e: Entry, lastSequenceForKey: SequenceNumber,
                      ghost m: seq<Entry>, ghost i: nat, ghost first: nat) returns (drop: bool)
    requires c.Valid() && compact.Valid(first) && c.PointersBehind(e.key.user)
    requires i < |m| && e == m[i] && Sorted(m) && c.CountedTo(m, i)
    modifies c`levelPtrs, c`grandparentIndex, c`seenKey, c`overlappedBytes, compact
    ensures c.Valid() && compact.Valid(first) && c.PointersBehind(e.key.user) && c.CountedTo(m, i + 1)
    ensures forall r: Rules :: r.fileSize == compact.fileSize && r.limit == compact.limit ==>
              compact.Tables() == Next(old(compact.Tables()), e, drop,
                                       StopsBefore(c.grandparents, 10 * c.maxFileSize, m, i), r)
    ensures compact.Produced() == old(compact.Produced()) + if drop then [] else [e]
    ensures drop <==> lastSequenceForKey <= compact.smallestSnapshot
                      || (e.key.ty.Deletion? && e.key.sn <= compact.smallestSnapshot
                          && NoFileCovers(c.version, c.level + 2, e.key.user))
  {
    var _ := CutBefore(c, compact, m, i, e, first);
    drop := ShouldDrop(c, e, lastSequenceForKey, compact.smallestSnapshot);
    if !drop {
      compact.Emit(e, first);
    }
  }

  lemma KeptStep(m: seq<Entry>, i: nat, drop: bool, last: SequenceNumber, snapshot: SequenceNumber, v: Version,
                 level: nat)
    requires i < |m| && last == LastSequenceForKey(m, i)
    requires drop <==> last <= snapshot
                       || (m[i].key.ty.Deletion? && m[i].key.sn <= snapshot
                           && NoFileCovers(v, level + 2, m[i].key.user))
    ensures Kept(m, i + 1, snapshot, v, level) == Kept(m, i, snapshot, v, level) + if drop then [] else [m[i]]
    ensures drop == DropsOf(m, snapshot, v, level)[i]
  {
  }

  /** The loop has handled `i` entries. */
  ghost predicate Compacted(c: Compaction, compact: CompactionState, m: seq<Entry>, i: nat)
    requires i <= |m|
    reads c, compact
  {
    && compact.Produced() == Kept(m, i, compact.smallestSnapshot, c.version, c.level) && c.CountedTo(m, i)
    && compact.limit == c.maxFileSize
    && compact.Tables() == TablesAfter(m, RulesFor(c, compact, m), i)
  }

  ghost function RulesFor(c: Compaction, compact: CompactionState, m: seq<Entry>): (r: Rules)
    reads c, compact
    ensures |r.drops| == |r.stops| == |m| && r.fileSize == compact.fileSize && r.limit == c.maxFileSize
  {
    CutRules(m, compact.smallestSnapshot, c.version, c.level, c.grandparents, c.maxFileSize, compact.fileSize)
  }

  /** One round, with the tracking of current_user_key and last_sequence_for_key; `i` entries came before. */
  method CompactRound(c: Compaction, compact: CompactionState, ghost m: seq<Entry>, ghost i: nat, e: Entry,
                      user: Option<UserKey>, lastSequence: SequenceNumber, ghost first: nat)
    requires i < |m| && e == m[i] && user == (if i == 0 then None else Some(m[i - 1].key.user))
    requires i > 0 ==> lastSequence == m[i - 1].key.sn
    requires c.Valid() && compact.Valid(first) && c.PointersBehind(e.key.user)
    requires Sorted(m) && Compacted(c, compact, m, i)
    modifies c`levelPtrs, c`grandparentIndex, c`seenKey, c`overlappedBytes, compact
    ensures c.Valid() && compact.Valid(first) && c.PointersBehind(e.key.user) && Compacted(c, compact, m, i + 1)
  {
    var lastSequenceForKey := if user != Some(e.key.user) then MAX_SEQUENCE_NUMBER else lastSequence;
    var drop := CompactEntry(c, compact, e, lastSequenceForKey, m, i, first);
    KeptStep(m, i, drop, lastSequenceForKey, compact.smallestSnapshot, c.version, c.level);
  }

  /** One round, and the step to the next entry; `user` and `lastSequence` are those of the entry before. */
  method CompactNext(c: Compaction, compact: CompactionState, input: MergingIterator, ghost i: nat,
                     user: Option<UserKey>, lastSequence: SequenceNumber, ghost first: nat) returns (e: Entry)
    requires input.Valid() && i == input.at < |input.merged| && input.IsValid()
    requires user == (if i == 0 then None else Some(input.merged[i - 1].key.user))
    requires i > 0 ==> lastSequence == input.merged[i - 1].key.sn
    requires c.Valid() && compact.Valid(first) && c.PointersBehind(input.merged[i].key.user)
    requires Compacted(c, compact, input.merged, i)
    modifies c`levelPtrs, c`grandparentIndex, c`seenKey, c`overlappedBytes, compact, input, input.children
    ensures input.Valid() && input.at == i + 1 && e == input.merged[i]
    ensures c.Valid() && compact.Valid(first)
            && (i + 1 < |input.merged| ==> c.PointersBehind(input.merged[i + 1].key.user))
    ensures Compacted(c, compact, input.merged, i + 1)
  {
    hide Compacted, GoodTables, NumberedFrom, ValidVersion;
    e := input.Entry();
    CompactRound(c, compact, input.merged, i, e, user, lastSequence, first);
    UsersAscend(input.merged, i);
    input.Next();
  }

  lemma NothingYet(c: Compaction, compact: CompactionState, m: seq<Entry>)
    requires c.Valid() && compact.outputs == [] && compact.builder == [] && compact.limit == c.maxFileSize
    requires c.levelPtrs == seq(NUM_LEVELS, _ => 0) && c.NothingCounted()
    ensures Compacted(c, compact, m, 0)
    ensures |m| > 0 ==> c.PointersBehind(m[0].key.user)
  {
  }

  /** The loop of DoCompactionWork. */
  method CompactEntries(c: Compaction, compact: CompactionState, input: MergingIterator, ghost first: nat)
    requires c.Valid() && compact.Valid(first) && input.Valid()
    requires compact.outputs == [] && compact.builder == [] && compact.limit == c.maxFileSize
    requires c.levelPtrs == seq(NUM_LEVELS, _ => 0) && c.NothingCounted()
    modifies c`levelPtrs, c`grandparentIndex, c`seenKey, c`overlappedBytes, compact, input, input.children
    ensures compact.Valid(first) && Compacted(c, compact, input.merged, |input.merged|)
  {
    hide Compacted, Compaction.Valid, CompactionState.Valid, Compaction.PointersBehind, MergingIterator.Shape;
    ghost var m := input.merged;
    NothingYet(c, compact, m);
    input.SeekToFirst();
    var currentUserKey: Option<UserKey> := None;
    var lastSequenceForKey := MAX_SEQUENCE_NUMBER;
    ghost var i := 0;
    while input.IsValid()
      invariant input.Valid() && i == input.at <= |m|
      invariant c.Valid() && compact.Valid(first)
      invariant Compacted(c, compact, m, i)
      invariant currentUserKey == if i == 0 then None else Some(m[i - 1].key.user)
      invariant i > 0 ==> lastSequenceForKey == m[i - 1].key.sn
      invariant i < |m| ==> c.PointersBehind(m[i].key.user)
      decreases |m| - i
    {
      var e := CompactNext(c, compact, input, i, currentUserKey, lastSequenceForKey, first);
      currentUserKey, lastSequenceForKey := Some(e.key.user), e.key.sn;
      i := i + 1;
    }
  }

  lemma UsersAscend(m: seq<Entry>, i: nat)
    requires Sorted(m) && i < |m|
    ensures i + 1 < |m| ==> m[i].key.user <= m[i + 1].key.user
  {
    assert InOrder(m, i, i + 1);
  }

  /** DBImpl::DoCompactionWork, up to InstallCompactionResults.  `fileSize` is what the table builder reports. */
  method DoCompactionWork(c: Compaction, input: MergingIterator, snapshot: SequenceNumber,
                          fileSize: seq<Entry> -> nat, nextFileNumber: nat) returns (outputs: seq<File>, next: nat)
    requires c.Valid() && input.Valid()
    requires c.levelPtrs == seq(NUM_LEVELS, _ => 0) && c.NothingCounted()
    modifies c`levelPtrs, c`grandparentIndex, c`seenKey, c`overlappedBytes, input, input.children
    ensures CutByRules(outputs, input.merged, snapshot, c.version, c.level, c.grandparents, c.maxFileSize, fileSize)
    ensures Flatten(outputs) == Kept(input.merged, |input.merged|, snapshot, c.version, c.level)
    ensures DisjointFiles(outputs)
    ensures NumberedFrom(outputs, nextFileNumber) && next == nextFileNumber + |outputs|
    ensures forall f :: f in outputs ==> nextFileNumber <= f.number < next
    ensures forall f :: f in outputs ==> f.size == fileSize(f.table) && ClosedInTime(f.table, fileSize, c.maxFileSize)
    ensures NumbersAscend(outputs)
  {
    var compact := new CompactionState(snapshot, fileSize, c.maxFileSize, nextFileNumber);
    CompactEntries(c, compact, input, nextFileNumber);
    if compact.builder != [] {
      compact.Finish(nextFileNumber);
    }
    outputs, next := compact.outputs, compact.nextFileNumber;
    NumberedAscends(outputs, nextFileNumber);
    KeptIsSublist(input.merged, |input.merged|, snapshot, c.version, c.level);
    assert Flatten(outputs) == compact.Produced();
    CutsOfSorted(outputs);
  }
}
