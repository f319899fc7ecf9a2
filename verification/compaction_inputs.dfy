// What makes a set of compaction inputs safe, and why the pickers of db/version_set.cc deliver it.
module CompactionInputs {
  import opened Basics
  import opened InternalKeys
  import opened ReadSpec
  import opened Versions
  import opened Picking

  /** `g` lies wholly before `f`, and shares no user key with it when `strictUser`. */
  ghost predicate Precedes(g: File, f: File, strictUser: bool) {
    if strictUser then g.largest.user < f.smallest.user else Less(g.largest, f.smallest)
  }

  ghost predicate WhollyBefore(g: File, in0: seq<File>, in1: seq<File>) {
    (forall f :: f in in0 ==> Precedes(g, f, true)) && (forall f :: f in in1 ==> Precedes(g, f, false))
  }

  ghost predicate WhollyAfter(g: File, in0: seq<File>, in1: seq<File>) {
    (forall f :: f in in0 ==> Precedes(f, g, true)) && (forall f :: f in in1 ==> Precedes(f, g, false))
  }

  /** Inputs are files of the two levels and leave nothing older than them behind at `level`. */
  ghost predicate ClosedAtLevel(v: Version, level: nat, in0: seq<File>)
    requires level < |v|
  {
    && in0 != [] && (forall f :: f in in0 ==> f in v[level])
    && forall f, g {:trigger Newer(g, f)} :: f in in0 && g in v[level] && g !in in0 ==> Newer(g, f)
  }

  ghost predicate ClearOfRest(v: Version, level: nat, in0: seq<File>, in1: seq<File>)
    requires level + 1 < |v|
  {
    && (forall f :: f in in1 ==> f in v[level + 1])
    && forall g :: g in v[level + 1] && g !in in1 ==> WhollyBefore(g, in0, in1) || WhollyAfter(g, in0, in1)
  }

  ghost predicate GoodPick(v: Version, level: nat, in0: seq<File>, in1: seq<File>) {
    && ValidVersion(v) && level + 1 < NUM_LEVELS
    && ClosedAtLevel(v, level, in0) && ClearOfRest(v, level, in0, in1)
    && (if level > 0 then Disjoint(in0) else SortedFiles(in0)) && Disjoint(in1)
  }

  /** What PickCompaction and CompactRange hand to SetupOtherInputs. */
  ghost predicate Seed(v: Version, level: nat, in0: seq<File>)
    requires level < |v|
  {
    && in0 != []
    && (level > 0 ==> exists a, b :: IsRun(v[level], a, b, in0))
    && (level == 0 ==> exists lo, hi :: IsClosedPart(v[0], lo, hi, in0))
  }

  // ---------------------------------------------------------------- which files are picked

  /** The range GetOverlappingInputs ends up with at level 0. */
  ghost predicate GatherRange(files: seq<File>, begin: Option<UserKey>, end: Option<UserKey>,
                              lo: Option<UserKey>, hi: Option<UserKey>)
  {
    && Covers(lo, hi, begin, end) && lo.Some? == begin.Some? && hi.Some? == end.Some?
    && ClosedRange(files, lo, hi) && LeastClosed(files, begin, end, lo, hi)
  }

  /** The files of a level that GetOverlappingInputs finds for a range. */
  ghost predicate Gathered(files: seq<File>, level: nat, begin: Option<UserKey>, end: Option<UserKey>,
                           inputs: seq<File>)
  {
    if level == 0 then exists lo, hi :: GatherRange(files, begin, end, lo, hi) && inputs == Overlapping(files, lo, hi)
    else inputs == Overlapping(files, begin, end)
  }

  lemma GatheredIsUnique(files: seq<File>, level: nat, begin: Option<UserKey>, end: Option<UserKey>, a: seq<File>,
                         b: seq<File>)
    requires Gathered(files, level, begin, end, a) && Gathered(files, level, begin, end, b)
    ensures a == b
  {
    if level == 0 {
      var lo, hi :| GatherRange(files, begin, end, lo, hi) && a == Overlapping(files, lo, hi);
      var lo', hi' :| GatherRange(files, begin, end, lo', hi') && b == Overlapping(files, lo', hi');
      assert Covers(lo, hi, lo', hi') && Covers(lo', hi', lo, hi);
    }
  }

  ghost function WithBoundary(files: seq<File>, seed: seq<File>): seq<File>
    requires forall f :: f in files ==> ValidFile(f)
  {
    if seed == [] then [] else seed + BoundaryFiles(files, LargestOf(seed))
  }

  /** The level+1 files that meet the user-key range of the level inputs. */
  ghost function MeetNext(v: Version, level: nat, in0: seq<File>): seq<File>
    requires level + 1 < |v|
  {
    if in0 == [] then [] else Overlapping(v[level + 1], Some(SmallestOf(in0).user), Some(LargestOf(in0).user))
  }

  /** What the level inputs could grow to: the level files over the range of all inputs, with their boundary chain. */
  ghost predicate Expansion(v: Version, level: nat, in0: seq<File>, in1: seq<File>, wider: seq<File>)
    requires level < |v| && ValidLevel(v, level)
  {
    && in0 != []
    && exists seed ::
         && Gathered(v[level], level, Some(SmallestOf(in0 + in1).user), Some(LargestOf(in0 + in1).user), seed)
         && wider == WithBoundary(v[level], seed)
  }

  /** They grow if that adds a file, stays under the size limit and needs no more level+1 files. */
  ghost predicate WorthIt(v: Version, level: nat, in0: seq<File>, in1: seq<File>, wider: seq<File>, maxFileSize: nat)
    requires level + 1 < |v|
  {
    && |wider| > |in0| && TotalFileSize(in1) + TotalFileSize(wider) < 25 * maxFileSize
    && |MeetNext(v, level, wider)| == |in1|
  }

  ghost predicate Grown(v: Version, level: nat, base0: seq<File>, base1: seq<File>, maxFileSize: nat,
                        in0: seq<File>, in1: seq<File>)
    requires level + 1 < |v| && ValidLevel(v, level)
  {
    exists wider :: Expansion(v, level, base0, base1, wider) &&
      if WorthIt(v, level, base0, base1, wider, maxFileSize) then in0 == wider && in1 == MeetNext(v, level, wider)
      else in0 == base0 && in1 == base1
  }

  /** The inputs of a compaction that starts from `seed`. */
  ghost predicate IsSetup(v: Version, level: nat, seed: seq<File>, maxFileSize: nat, in0: seq<File>, in1: seq<File>)
    requires level + 1 < |v| && ValidLevel(v, level)
  {
    var base0 := WithBoundary(v[level], seed);
    var base1 := MeetNext(v, level, base0);
    if base1 == [] then in0 == base0 && in1 == base1 else Grown(v, level, base0, base1, maxFileSize, in0, in1)
  }

  /** Nothing is left to choose: the seed determines the inputs, and the level+1 inputs are always exactly the files
      over the range of the level inputs. */
  lemma SetupIsUnique(v: Version, level: nat, seed: seq<File>, maxFileSize: nat, in0: seq<File>, in1: seq<File>,
                      in0': seq<File>, in1': seq<File>)
    requires level + 1 < |v| && ValidLevel(v, level)
    requires IsSetup(v, level, seed, maxFileSize, in0, in1) && IsSetup(v, level, seed, maxFileSize, in0', in1')
    ensures in0 == in0' && in1 == in1' == MeetNext(v, level, in0)
  {
    var base0 := WithBoundary(v[level], seed);
    var base1 := MeetNext(v, level, base0);
    if base1 != [] {
      var wider :| Expansion(v, level, base0, base1, wider) &&
        if WorthIt(v, level, base0, base1, wider, maxFileSize) then in0 == wider && in1 == MeetNext(v, level, wider)
        else in0 == base0 && in1 == base1;
      var wider' :| Expansion(v, level, base0, base1, wider') &&
        if WorthIt(v, level, base0, base1, wider', maxFileSize) then in0' == wider'
          && in1' == MeetNext(v, level, wider')
        else in0' == base0 && in1' == base1;
      ExpansionIsUnique(v, level, base0, base1, wider, wider');
    }
  }

  lemma ExpansionIsUnique(v: Version, level: nat, in0: seq<File>, in1: seq<File>, a: seq<File>, b: seq<File>)
    requires level < |v| && ValidLevel(v, level) && Expansion(v, level, in0, in1, a) && Expansion(v, level, in0, in1, b)
    ensures a == b
  {
    var begin, end := Some(SmallestOf(in0 + in1).user), Some(LargestOf(in0 + in1).user);
    var s :| Gathered(v[level], level, begin, end, s) && a == WithBoundary(v[level], s);
    var t :| Gathered(v[level], level, begin, end, t) && b == WithBoundary(v[level], t);
    GatheredIsUnique(v[level], level, begin, end, s, t);
  }

  ghost predicate IsRun(files: seq<File>, a: nat, b: nat, run: seq<File>) {
    a <= b <= |files| && run == files[a..b]
  }

  ghost predicate IsClosedPart(files: seq<File>, lo: Option<UserKey>, hi: Option<UserKey>, part: seq<File>) {
    ClosedRange(files, lo, hi) && part == Overlapping(files, lo, hi)
  }

  lemma {:induction false} OverlappingIsRun(files: seq<File>, lo: Option<UserKey>, hi: Option<UserKey>)
    returns (a: nat, b: nat)
    requires DisjointFiles(files)
    ensures IsRun(files, a, b, Overlapping(files, lo, hi))
  {
    if files == [] {
      a, b := 0, 0;
    } else {
      var n := |files| - 1;
      assert files[..n] == files[0..n];
      SliceDisjoint(files, 0, n);
      a, b := OverlappingIsRun(files[..n], lo, hi);
      assert files[..n][a..b] == files[a..b];
      if Overlaps(files[n], lo, hi) {
        if a == b {
          a, b := n, n;
        }
        RunReachesEnd(files, lo, hi, a, b);
        b := n + 1;
      }
    }
  }

  lemma RunReachesEnd(files: seq<File>, lo: Option<UserKey>, hi: Option<UserKey>, a: nat, b: nat)
    requires DisjointFiles(files)
    requires |files| > 0 && Overlaps(files[|files| - 1], lo, hi)
    requires a <= b <= |files| - 1 && (a == b ==> b == |files| - 1)
    requires Overlapping(files[..|files| - 1], lo, hi) == files[a..b]
    ensures b == |files| - 1 && files[a..b] + [files[b]] == files[a..b + 1]
  {
    var n := |files| - 1;
    if b < n {
      var before, f := files[b - 1], files[b];
      assert before == files[a..b][b - 1 - a] && before in files[a..b];
      OverlappingMembers(files[..n], lo, hi);
      assert Overlaps(before, lo, hi);
      FileOrder(files, b);
      FileOrder(files, b - 1);
      assert EndsBefore(files, b - 1, b) && EndsBefore(files, b, n);
      assert Overlaps(f, lo, hi) && f == files[..n][b];
      RunExcludes(files, a, b);
    }
  }

  lemma RunExcludes(files: seq<File>, a: nat, b: nat)
    requires DisjointFiles(files) && a <= b < |files|
    ensures files[b] !in files[a..b]
  {
    FileOrder(files, b);
    forall i | a <= i < b
      ensures files[i] != files[b]
    {
      assert EndsBefore(files, i, b);
    }
  }

  lemma SliceDisjoint(files: seq<File>, a: nat, b: nat)
    requires DisjointFiles(files) && a <= b <= |files|
    ensures DisjointFiles(files[a..b])
  {
    var slice := files[a..b];
    forall i, j
      ensures EndsBefore(slice, i, j)
    {
      assert EndsBefore(files, a + i, a + j);
    }
    assert forall f :: f in slice ==> f in files;
  }

  ghost predicate DisjointFiles(files: seq<File>) {
    Disjoint(files) && forall f :: f in files ==> ValidFile(f)
  }

  lemma FileOrder(files: seq<File>, i: nat)
    requires DisjointFiles(files) && i < |files|
    ensures AtMost(files[i].smallest, files[i].largest)
  {
    assert files[i] in files;
    FileBounds(files[i], files[i].table[0]);
  }

  lemma LevelFiles(v: Version, level: nat)
    requires ValidVersion(v) && 1 <= level < NUM_LEVELS
    ensures DisjointFiles(v[level]) && Unique(LevelEntries(v[level]))
  {
    assert ValidLevel(v, level);
    forall e | e in LevelEntries(v[level]) ensures e in Entries(v) { }
  }

  /** A run that stops at a user-key edge leaves behind only files with newer entries. */
  lemma RunClosed(files: seq<File>, a: nat, e: nat, f: File, g: File)
    requires DisjointFiles(files) && Unique(LevelEntries(files))
    requires a < e <= |files| && forall h :: h in files ==> !IsBoundary(h, files[e - 1].largest)
    requires f in files[a..e] && g in files && g !in files[a..e]
    ensures Newer(g, f)
  {
    var i :| a <= i < e && files[i] == f;
    var k :| 0 <= k < |files| && files[k] == g;
    RunNeighbour(files, a, e, i, k);
  }

  lemma RunNeighbour(files: seq<File>, a: nat, e: nat, i: nat, k: nat)
    requires DisjointFiles(files) && Unique(LevelEntries(files))
    requires a <= i < e <= |files| && k < |files| && (k < a || k >= e)
    requires forall h :: h in files ==> !IsBoundary(h, files[e - 1].largest)
    ensures Newer(files[k], files[i])
  {
    var f, g := files[i], files[k];
    assert f in files && g in files;
    forall x, y | x in g.table && y in f.table && x.key.user == y.key.user
      ensures x.key.sn > y.key.sn
    {
      FileBounds(g, x);
      FileBounds(f, y);
      assert x in LevelEntries(files) && y in LevelEntries(files) && (SameSlot(x, y) ==> x == y);
      assert EndsBefore(files, k, i) && EndsBefore(files, e - 1, k);
      if k >= e {
        LargestIncreasing(files, e - 1);
      }
    }
  }

  lemma {:induction false} OverlappingSorted(files: seq<File>, lo: Option<UserKey>, hi: Option<UserKey>)
    requires SortedFiles(files)
    ensures SortedFiles(Overlapping(files, lo, hi))
  {
    if files != [] {
      var n := |files| - 1;
      var rest := files[..n];
      forall i, j | 0 <= i < j < n ensures BySmallest(rest[i], rest[j]) { assert BySmallest(files[i], files[j]); }
      OverlappingSorted(rest, lo, hi);
      OverlappingMembers(rest, lo, hi);
      var part := Overlapping(rest, lo, hi);
      forall i | 0 <= i < |part|
        ensures BySmallest(part[i], files[n])
      {
        assert part[i] in rest;
        var k :| 0 <= k < n && rest[k] == part[i];
        assert BySmallest(files[k], files[n]);
      }
    }
  }

  /** At level 0 the overlap closure already holds every boundary file. */
  lemma ClosedPartHasBoundaries(files: seq<File>, lo: Option<UserKey>, hi: Option<UserKey>)
    requires forall f :: f in files ==> ValidFile(f)
    requires ClosedRange(files, lo, hi) && Overlapping(files, lo, hi) != []
    ensures BoundaryFiles(files, LargestOf(Overlapping(files, lo, hi))) == []
  {
    var in0 := Overlapping(files, lo, hi);
    OverlappingMembers(files, lo, hi);
    RangeIsTight(in0);
    FirstBoundaryIsFirst(files, LargestOf(in0));
    var next := FirstBoundary(files, LargestOf(in0));
    if next.Some? {
      FileBounds(next.value, next.value.table[0]);
    }
  }

  lemma ClosedPartClosed(files: seq<File>, lo: Option<UserKey>, hi: Option<UserKey>, f: File, g: File)
    requires ClosedRange(files, lo, hi) && ValidFile(f) && ValidFile(g)
    requires f in files && g in files && Overlaps(f, lo, hi) && !Overlaps(g, lo, hi)
    ensures Newer(g, f)
  {
    assert Within(f, lo, hi);
    forall x, y | x in g.table && y in f.table
      ensures x.key.user != y.key.user
    {
      FileBounds(g, x);
      FileBounds(f, y);
    }
  }

  /** The level+1 files that meet the user-key range of `in0`: the rest keep clear of everything. */
  lemma OverlapKeepsClear(files: seq<File>, in0: seq<File>, in1: seq<File>)
    requires DisjointFiles(files)
    requires in0 != [] && forall f :: f in in0 ==> ValidFile(f)
    requires in1 == Overlapping(files, Some(SmallestOf(in0).user), Some(LargestOf(in0).user))
    ensures forall g :: g in files && g !in in1 ==> WhollyBefore(g, in0, in1) || WhollyAfter(g, in0, in1)
    ensures Disjoint(in1)
  {
    var s, l := SmallestOf(in0).user, LargestOf(in0).user;
    RangeIsTight(in0);
    var a, b := OverlappingIsRun(files, Some(s), Some(l));
    SliceDisjoint(files, a, b);
    OverlappingMembers(files, Some(s), Some(l));
    forall g | g in files && g !in in1
      ensures WhollyBefore(g, in0, in1) || WhollyAfter(g, in0, in1)
    {
      var k :| 0 <= k < |files| && files[k] == g;
      FileOrder(files, k);
      if g.largest.user < s {
        forall f | f in in1 ensures Less(g.largest, f.smallest) { FilesApart(files, k, f); }
        assert WhollyBefore(g, in0, in1);
      } else {
        forall f | f in in1 ensures Less(f.largest, g.smallest) { FilesApart(files, k, f); }
        assert WhollyAfter(g, in0, in1);
      }
    }
  }

  lemma FilesApart(files: seq<File>, k: nat, f: File)
    requires DisjointFiles(files) && k < |files| && f in files && f != files[k]
    ensures Apart(f, files[k]) && AtMost(f.smallest, f.largest)
  {
    var i :| 0 <= i < |files| && files[i] == f;
    FileOrder(files, i);
    assert EndsBefore(files, i, k) && EndsBefore(files, k, i);
  }

  /** AddBoundaryInputs turns a seed into inputs that leave nothing older behind. */
  lemma SeedClosed(v: Version, level: nat, in0: seq<File>, r: seq<File>)
    requires ValidVersion(v) && level < NUM_LEVELS && Seed(v, level, in0)
    requires (forall f :: f in v[level] ==> ValidFile(f)) && r == in0 + BoundaryFiles(v[level], LargestOf(in0))
    ensures ClosedAtLevel(v, level, r) && Seed(v, level, r)
    ensures if level > 0 then Disjoint(r) else SortedFiles(r)
  {
    if level == 0 {
      assert ValidLevel(v, 0);
      ZeroSeedClosed(v, in0, r);
    } else {
      LevelFiles(v, level);
      var a: nat, b: nat :| IsRun(v[level], a, b, in0);
      var e := RunSeedClosed(v[level], a, b, r);
      assert IsRun(v[level], a, e, r);
    }
  }

  lemma ZeroSeedClosed(v: Version, in0: seq<File>, r: seq<File>)
    requires ValidVersion(v) && Seed(v, 0, in0)
    requires (forall f :: f in v[0] ==> ValidFile(f)) && r == in0 + BoundaryFiles(v[0], LargestOf(in0))
    ensures r == in0 && ClosedAtLevel(v, 0, r) && SortedFiles(r)
  {
    var files := v[0];
    var lo, hi :| IsClosedPart(files, lo, hi, in0);
    assert ValidLevel(v, 0);
    OverlappingSorted(files, lo, hi);
    ClosedPartHasBoundaries(files, lo, hi);
    OverlappingMembers(files, lo, hi);
    forall f, g | f in in0 && g in files && g !in in0
      ensures Newer(g, f)
    {
      ClosedPartClosed(files, lo, hi, f, g);
    }
  }

  lemma RunSeedClosed(files: seq<File>, a: nat, b: nat, r: seq<File>) returns (e: nat)
    requires DisjointFiles(files) && Unique(LevelEntries(files))
    requires a < b <= |files| && r == files[a..b] + BoundaryFiles(files, LargestOf(files[a..b]))
    ensures a < e <= |files| && r == files[a..e] && DisjointFiles(r)
    ensures forall f, g {:trigger Newer(g, f)} :: f in r && g in files && g !in r ==> Newer(g, f)
  {
    RunLargest(files, a, b);
    e := BoundaryFilesAreNext(files, b);
    SliceDisjoint(files, a, e);
    forall f, g | f in r && g in files && g !in r
      ensures Newer(g, f)
    {
      RunClosed(files, a, e, f, g);
    }
  }

  lemma OverlapIsSeed(v: Version, level: nat, lo: Option<UserKey>, hi: Option<UserKey>)
    requires ValidVersion(v) && level < NUM_LEVELS
    requires Overlapping(v[level], lo, hi) != []
    requires level == 0 ==> ClosedRange(v[0], lo, hi)
    ensures Seed(v, level, Overlapping(v[level], lo, hi))
  {
    if level == 0 {
      assert IsClosedPart(v[0], lo, hi, Overlapping(v[0], lo, hi));
    } else {
      LevelFiles(v, level);
      var a, b := OverlappingIsRun(v[level], lo, hi);
    }
  }
}
