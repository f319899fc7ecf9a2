// Choosing the inputs of a flush or a compaction: db/version_set.cc.
module Picking {
  import opened Basics
  import opened InternalKeys
  import opened ReadSpec
  import opened Versions

  const MAX_MEM_COMPACT_LEVEL := 2

  // A bound of None is the source's null Slice: before, or after, every key.
  predicate AfterFile(lo: Option<UserKey>, f: File) {
    lo.Some? && lo.value > f.largest.user
  }

  predicate BeforeFile(hi: Option<UserKey>, f: File) {
    hi.Some? && hi.value < f.smallest.user
  }

  predicate Overlaps(f: File, lo: Option<UserKey>, hi: Option<UserKey>) {
    !AfterFile(lo, f) && !BeforeFile(hi, f)
  }

  ghost function Overlapping(fs: seq<File>, lo: Option<UserKey>, hi: Option<UserKey>): seq<File> {
    if fs == [] then []
    else
      var rest := Overlapping(fs[..|fs| - 1], lo, hi);
      var last := fs[|fs| - 1];
      if Overlaps(last, lo, hi) then rest + [last] else rest
  }

  lemma {:induction false} OverlappingMembers(fs: seq<File>, lo: Option<UserKey>, hi: Option<UserKey>)
    ensures forall f :: f in Overlapping(fs, lo, hi) <==> f in fs && Overlaps(f, lo, hi)
  {
    if fs != [] {
      OverlappingMembers(fs[..|fs| - 1], lo, hi);
      assert fs == fs[..|fs| - 1] + [fs[|fs| - 1]];
    }
  }

  ghost predicate Within(f: File, lo: Option<UserKey>, hi: Option<UserKey>) {
    (lo.Some? ==> lo.value <= f.smallest.user) && (hi.Some? ==> f.largest.user <= hi.value)
  }

  /** Every file that meets the range lies inside it. */
  ghost predicate ClosedRange(fs: seq<File>, lo: Option<UserKey>, hi: Option<UserKey>) {
    forall f :: f in fs && Overlaps(f, lo, hi) ==> Within(f, lo, hi)
  }

  ghost predicate Covers(lo: Option<UserKey>, hi: Option<UserKey>, lo': Option<UserKey>, hi': Option<UserKey>) {
    && (lo.None? || (lo'.Some? && lo.value <= lo'.value))
    && (hi.None? || (hi'.Some? && hi'.value <= hi.value))
  }

  /** Every closed range around the request contains (lo, hi). */
  ghost predicate LeastClosed(fs: seq<File>, begin: Option<UserKey>, end: Option<UserKey>,
                              lo: Option<UserKey>, hi: Option<UserKey>) {
    forall b, e {:trigger Covers(b, e, lo, hi)} ::
      ClosedRange(fs, b, e) && Covers(b, e, begin, end) ==> Covers(b, e, lo, hi)
  }

  lemma LeastClosedGrows(fs: seq<File>, begin: Option<UserKey>, end: Option<UserKey>,
                         lo: Option<UserKey>, hi: Option<UserKey>, f: File, lo': Option<UserKey>, hi': Option<UserKey>)
    requires LeastClosed(fs, begin, end, lo, hi)
    requires f in fs && Overlaps(f, lo, hi)
    requires lo' == lo || (lo.Some? && lo' == Some(f.smallest.user))
    requires hi' == hi || (hi.Some? && hi' == Some(f.largest.user))
    ensures LeastClosed(fs, begin, end, lo', hi')
  {
    forall b, e | ClosedRange(fs, b, e) && Covers(b, e, begin, end)
      ensures Covers(b, e, lo', hi')
    {
      assert Covers(b, e, lo, hi);
      assert Overlaps(f, b, e);
    }
  }

  method SomeFileOverlapsRange(disjointSorted: bool, files: seq<File>, lo: Option<UserKey>, hi: Option<UserKey>)
    returns (r: bool)
    requires forall f :: f in files ==> ValidFile(f)
    requires disjointSorted ==> Disjoint(files)
    ensures r <==> exists f :: f in files && Overlaps(f, lo, hi)
  {
    if !disjointSorted {
      for i := 0 to |files|
        invariant forall j :: 0 <= j < i ==> !Overlaps(files[j], lo, hi)
      {
        if AfterFile(lo, files[i]) || BeforeFile(hi, files[i]) {
        } else {
          assert files[i] in files && Overlaps(files[i], lo, hi);
          return true;
        }
      }
      return false;
    }
    var index := 0;
    if lo.Some? {
      index := FindFile(files, SeekKey(lo.value, MAX_SEQUENCE_NUMBER));
    }
    assert forall j :: 0 <= j < index ==> AfterFile(lo, files[j]);
    if index >= |files| {
      return false;
    }
    r := !BeforeFile(hi, files[index]);
    assert files[index] in files;
    FileBounds(files[index], files[index].table[0]);
    forall j | index < j < |files|
      ensures files[index].smallest.user <= files[j].smallest.user
    {
      assert EndsBefore(files, index, j);
    }
  }

  /** Files sticking out of the range: what a restart of the level-0 scan makes smaller. */
  ghost function Outside(fs: seq<File>, lo: Option<UserKey>, hi: Option<UserKey>): nat {
    if fs == [] then 0
    else
      (if lo.Some? && fs[0].smallest.user < lo.value then 1 else 0)
      + (if hi.Some? && fs[0].largest.user > hi.value then 1 else 0)
      + Outside(fs[1..], lo, hi)
  }

  lemma {:induction false} OutsideShrinks(fs: seq<File>, lo: Option<UserKey>, hi: Option<UserKey>,
                         lo': Option<UserKey>, hi': Option<UserKey>, f: File)
    requires lo.Some? == lo'.Some? && hi.Some? == hi'.Some?
    requires Covers(lo', hi', lo, hi)
    ensures Outside(fs, lo', hi') <= Outside(fs, lo, hi)
    ensures f in fs && (   (lo.Some? && f.smallest.user < lo.value && lo'.value <= f.smallest.user)
                        || (hi.Some? && f.largest.user > hi.value && hi'.value >= f.largest.user))
            ==> Outside(fs, lo', hi') < Outside(fs, lo, hi)
  {
    if fs != [] {
      OutsideShrinks(fs[1..], lo, hi, lo', hi', f);
      assert f in fs ==> f == fs[0] || f in fs[1..];
    }
  }

  /** Version::GetOverlappingInputs.  `lo` and `hi` are the final user_begin and user_end. */
  method GetOverlappingInputs(v: Version, level: nat, begin: Option<UserKey>, end: Option<UserKey>)
    returns (inputs: seq<File>, lo: Option<UserKey>, hi: Option<UserKey>)
    requires level < |v|
    ensures inputs == Overlapping(v[level], lo, hi)
    ensures Covers(lo, hi, begin, end) && lo.Some? == begin.Some? && hi.Some? == end.Some?
    ensures level > 0 ==> lo == begin && hi == end
    ensures level == 0 ==> ClosedRange(v[0], lo, hi)
    ensures level == 0 ==> LeastClosed(v[0], begin, end, lo, hi)
  {
    inputs, lo, hi := [], begin, end;
    var files := v[level];
    var i := 0;
    while i < |files|
      invariant 0 <= i <= |files|
      invariant inputs == Overlapping(files[..i], lo, hi)
      invariant Covers(lo, hi, begin, end) && lo.Some? == begin.Some? && hi.Some? == end.Some?
      invariant level > 0 ==> lo == begin && hi == end
      invariant level == 0 ==> forall f :: f in inputs ==> Within(f, lo, hi)
      invariant level == 0 ==> LeastClosed(files, begin, end, lo, hi)
      decreases Outside(files, lo, hi), |files| - i
    {
      var f := files[i];
      assert files[..i + 1][..i] == files[..i];
      i := i + 1;
      if lo.Some? && f.largest.user < lo.value {
      } else if hi.Some? && f.smallest.user > hi.value {
      } else {
        inputs := inputs + [f];
        if level == 0 {
          if lo.Some? && f.smallest.user < lo.value {
            OutsideShrinks(files, lo, hi, Some(f.smallest.user), hi, f);
            LeastClosedGrows(files, begin, end, lo, hi, f, Some(f.smallest.user), hi);
            lo := Some(f.smallest.user);
            inputs := [];
            i := 0;
          } else if hi.Some? && f.largest.user > hi.value {
            OutsideShrinks(files, lo, hi, lo, Some(f.largest.user), f);
            LeastClosedGrows(files, begin, end, lo, hi, f, lo, Some(f.largest.user));
            hi := Some(f.largest.user);
            inputs := [];
            i := 0;
          }
        }
      }
    }
    assert files[..|files|] == files;
    OverlappingMembers(files, lo, hi);
  }

  // ---------------------------------------------------------------- key ranges of file lists

  function LargestOf(fs: seq<File>): Key
    requires fs != []
  {
    var last := fs[|fs| - 1];
    if |fs| == 1 then last.largest
    else
      var k := LargestOf(fs[..|fs| - 1]);
      if Less(k, last.largest) then last.largest else k
  }

  function SmallestOf(fs: seq<File>): Key
    requires fs != []
  {
    var last := fs[|fs| - 1];
    if |fs| == 1 then last.smallest
    else
      var k := SmallestOf(fs[..|fs| - 1]);
      if Less(last.smallest, k) then last.smallest else k
  }

  lemma {:induction false} RangeIsTight(fs: seq<File>)
    requires fs != []
    ensures exists f :: f in fs && f.largest == LargestOf(fs)
    ensures exists f :: f in fs && f.smallest == SmallestOf(fs)
    ensures forall f :: f in fs ==> AtMost(f.largest, LargestOf(fs)) && AtMost(SmallestOf(fs), f.smallest)
  {
    var last := fs[|fs| - 1];
    assert last in fs;
    if |fs| > 1 {
      var rest := fs[..|fs| - 1];
      RangeIsTight(rest);
      assert forall f :: f in fs ==> f in rest || f == last;
      assert forall f :: f in rest ==> f in fs;
    }
  }

  function TotalFileSize(fs: seq<File>): nat {
    if fs == [] then 0 else TotalFileSize(fs[..|fs| - 1]) + fs[|fs| - 1].size
  }

  /** FindLargestKey. */
  method FindLargestKey(files: seq<File>) returns (r: Option<Key>)
    ensures r == if files == [] then None else Some(LargestOf(files))
  {
    if files == [] {
      return None;
    }
    var largest := files[0].largest;
    for i := 1 to |files|
      invariant largest == LargestOf(files[..i])
    {
      assert files[..i + 1][..i] == files[..i];
      if Less(largest, files[i].largest) {
        largest := files[i].largest;
      }
    }
    assert files[..|files|] == files;
    r := Some(largest);
  }

  /** VersionSet::GetRange. */
  method GetRange(inputs: seq<File>) returns (smallest: Key, largest: Key)
    requires inputs != []
    ensures smallest == SmallestOf(inputs) && largest == LargestOf(inputs)
  {
    smallest, largest := inputs[0].smallest, inputs[0].largest;
    for i := 1 to |inputs|
      invariant smallest == SmallestOf(inputs[..i]) && largest == LargestOf(inputs[..i])
    {
      assert inputs[..i + 1][..i] == inputs[..i];
      if Less(inputs[i].smallest, smallest) {
        smallest := inputs[i].smallest;
      }
      if Less(largest, inputs[i].largest) {
        largest := inputs[i].largest;
      }
    }
    assert inputs[..|inputs|] == inputs;
  }

  // ---------------------------------------------------------------- boundary files

  predicate IsBoundary(f: File, largest: Key) {
    Less(largest, f.smallest) && f.smallest.user == largest.user
  }

  /** The boundary file with the smallest `smallest`, the earliest of them in list order. */
  function FirstBoundary(levelFiles: seq<File>, largest: Key): Option<File> {
    if levelFiles == [] then None
    else
      var r := FirstBoundary(levelFiles[..|levelFiles| - 1], largest);
      var f := levelFiles[|levelFiles| - 1];
      if IsBoundary(f, largest) && (r.None? || Less(f.smallest, r.value.smallest)) then Some(f) else r
  }

  lemma {:induction false} FirstBoundaryIsFirst(levelFiles: seq<File>, largest: Key)
    ensures var r := FirstBoundary(levelFiles, largest);
            && (r.Some? ==> r.value in levelFiles && IsBoundary(r.value, largest))
            && (forall f :: f in levelFiles && IsBoundary(f, largest) ==>
                r.Some? && AtMost(r.value.smallest, f.smallest))
  {
    if levelFiles != [] {
      var n := |levelFiles| - 1;
      FirstBoundaryIsFirst(levelFiles[..n], largest);
      assert levelFiles == levelFiles[..n] + [levelFiles[n]];
    }
  }

  /** FindSmallestBoundaryFile. */
  method FindSmallestBoundaryFile(levelFiles: seq<File>, largest: Key) returns (r: Option<File>)
    ensures r == FirstBoundary(levelFiles, largest)
  {
    r := None;
    for i := 0 to |levelFiles|
      invariant r == FirstBoundary(levelFiles[..i], largest)
    {
      assert levelFiles[..i + 1][..i] == levelFiles[..i];
      var f := levelFiles[i];
      if IsBoundary(f, largest) {
        if r.None? || Less(f.smallest, r.value.smallest) {
          r := Some(f);
        }
      }
    }
    assert levelFiles[..|levelFiles|] == levelFiles;
  }

  ghost function BeyondCount(fs: seq<File>, k: Key): nat {
    if fs == [] then 0 else (if Less(k, fs[0].smallest) then 1 else 0) + BeyondCount(fs[1..], k)
  }

  lemma {:induction false} BeyondShrinks(fs: seq<File>, k: Key, f: File)
    requires f in fs && Less(k, f.smallest) && AtMost(f.smallest, f.largest)
    ensures BeyondCount(fs, f.largest) < BeyondCount(fs, k)
  {
    BeyondMonotone(fs[1..], k, f.largest);
    if f != fs[0] {
      BeyondShrinks(fs[1..], k, f);
    }
  }

  lemma {:induction false} BeyondMonotone(fs: seq<File>, k: Key, k': Key)
    requires Less(k, k')
    ensures BeyondCount(fs, k') <= BeyondCount(fs, k)
  {
    if fs != [] {
      BeyondMonotone(fs[1..], k, k');
    }
  }

  /** The files reached from `largest` by stepping from boundary file to boundary file. */
  ghost function BoundaryFiles(levelFiles: seq<File>, largest: Key): seq<File>
    requires forall f :: f in levelFiles ==> ValidFile(f)
    decreases BeyondCount(levelFiles, largest)
  {
    var next := FirstBoundary(levelFiles, largest);
    if next.None? then []
    else
      BoundaryAdvances(levelFiles, largest);
      [next.value] + BoundaryFiles(levelFiles, next.value.largest)
  }

  lemma BoundaryAdvances(levelFiles: seq<File>, largest: Key)
    requires forall f :: f in levelFiles ==> ValidFile(f)
    requires FirstBoundary(levelFiles, largest).Some?
    ensures BeyondCount(levelFiles, FirstBoundary(levelFiles, largest).value.largest) < BeyondCount(levelFiles, largest)
  {
    FirstBoundaryIsFirst(levelFiles, largest);
    var f := FirstBoundary(levelFiles, largest).value;
    FileBounds(f, f.table[0]);
    BeyondShrinks(levelFiles, largest, f);
  }

  /** AddBoundaryInputs. */
  method AddBoundaryInputs(levelFiles: seq<File>, compactionFiles: seq<File>) returns (r: seq<File>)
    requires forall f :: f in levelFiles ==> ValidFile(f)
    ensures compactionFiles == [] ==> r == []
    ensures compactionFiles != [] ==> r == compactionFiles + BoundaryFiles(levelFiles, LargestOf(compactionFiles))
  {
    r := compactionFiles;
    var found := FindLargestKey(compactionFiles);
    if found.None? {
      return;
    }
    var largest := found.value;
    ghost var goal := r + BoundaryFiles(levelFiles, largest);
    var continueSearching := true;
    while continueSearching
      invariant goal == if continueSearching then r + BoundaryFiles(levelFiles, largest) else r
      decreases continueSearching, BeyondCount(levelFiles, largest)
    {
      var boundary := FindSmallestBoundaryFile(levelFiles, largest);
      if boundary.Some? {
        BoundaryAdvances(levelFiles, largest);
        r := r + [boundary.value];
        largest := boundary.value.largest;
      } else {
        continueSearching := false;
      }
    }
  }

  /** On a sorted level the boundary files are the next ones, up to a user-key edge. */
  lemma {:induction false} BoundaryFilesAreNext(files: seq<File>, b: nat) returns (e: nat)
    requires Disjoint(files) && forall f :: f in files ==> ValidFile(f)
    requires 0 < b <= |files|
    ensures b <= e <= |files| && BoundaryFiles(files, files[b - 1].largest) == files[b..e]
    ensures forall f :: f in files ==> !IsBoundary(f, files[e - 1].largest)
    decreases |files| - b
  {
    FirstBoundaryIsFirst(files, files[b - 1].largest);
    var next := FirstBoundary(files, files[b - 1].largest);
    if next.None? {
      e := b;
    } else {
      FirstBoundaryIsNext(files, b, next.value);
      e := BoundaryFilesAreNext(files, b + 1);
      assert files[b..e] == [files[b]] + files[b + 1..e];
    }
  }

  lemma FirstBoundaryIsNext(files: seq<File>, b: nat, next: File)
    requires Disjoint(files) && forall f :: f in files ==> ValidFile(f)
    requires 0 < b <= |files| && next in files && IsBoundary(next, files[b - 1].largest)
    requires forall f :: f in files && IsBoundary(f, files[b - 1].largest) ==> AtMost(next.smallest, f.smallest)
    ensures b < |files| && next == files[b]
  {
    var j :| 0 <= j < |files| && files[j] == next;
    LargestIncreasing(files, b - 1);
    FileBounds(files[j], files[j].table[0]);
    assert j >= b;
    assert EndsBefore(files, b - 1, b);
    if j > b {
      assert files[b] in files;
      FileBounds(files[b], files[b].table[0]);
      assert EndsBefore(files, b, j);
      assert IsBoundary(files[b], files[b - 1].largest);
    }
  }

  lemma RunLargest(files: seq<File>, a: nat, b: nat)
    requires Disjoint(files) && forall f :: f in files ==> ValidFile(f)
    requires a < b <= |files|
    ensures LargestOf(files[a..b]) == files[b - 1].largest
  {
    var run := files[a..b];
    RangeIsTight(run);
    assert run[b - 1 - a] == files[b - 1];
    assert files[b - 1] in run;
    var f :| f in run && f.largest == LargestOf(run);
    var i :| 0 <= i < |run| && run[i] == f;
    LargestIncreasing(files, b - 1);
    assert files[a + i] == f;
    KeyAntisymmetric(f.largest, files[b - 1].largest);
  }

  lemma KeyAntisymmetric(a: Key, b: Key)
    requires AtMost(a, b) && AtMost(b, a)
    ensures a == b
  {
  }
}
