// Choosing and running a compaction: VersionSet::PickCompaction, CompactRange and MakeInputIterator in
// db/version_set.cc, and the compaction part of DBImpl::BackgroundCompaction in db/db_impl.cc.
module CompactionPicking {
  import opened Basics
  import opened InternalKeys
  import opened ReadSpec
  import opened Versions
  import opened Picking
  import opened CompactionInputs
  import opened MergingIterators
  import opened Compactions
  import opened CompactionTheorems
  import opened VersionBuilders
  import opened VersionSteps

  predicate AfterPointer(pointer: Option<Key>, f: File) {
    pointer.None? || Less(pointer.value, f.largest)
  }

  predicate AfterKey(pointer: Option<Key>, k: Key) {
    pointer.None? || Less(pointer.value, k)
  }

  /** A compaction that has its inputs and has not started. */
  ghost predicate Ready(c: Compaction)
    reads c
  {
    && c.Valid() && GoodPick(c.version, c.level, c.inputs0, c.inputs1)
    && c.levelPtrs == seq(NUM_LEVELS, _ => 0) && c.NothingCounted()
    && c.inputs0 != [] && c.inputs1 == MeetNext(c.version, c.level, c.inputs0)
    && c.grandparents == Grandparents(c.version, c.level, c.inputs0, c.inputs1)
  }

  /** What a size compaction starts from: the first file past the level's pointer, or the first file of the level. */
  ghost predicate IsNextFile(files: seq<File>, pointer: Option<Key>, f: File) {
    if exists g :: g in files && AfterPointer(pointer, g) then
      exists i :: 0 <= i < |files| && files[i] == f && AfterPointer(pointer, f)
                  && forall j :: 0 <= j < i ==> !AfterPointer(pointer, files[j])
    else files != [] && f == files[0]
  }

  /** The inputs of a compaction started for one file: at level 0 from all files its range grows to, deeper from
      itself. */
  ghost predicate PickedFor(v: Version, level: nat, f: File, maxFileSize: nat, in0: seq<File>, in1: seq<File>)
    requires level + 1 < |v| && ValidLevel(v, level)
  {
    exists seed ::
      && IsSetup(v, level, seed, maxFileSize, in0, in1)
      && if level == 0 then Gathered(v[0], 0, Some(f.smallest.user), Some(f.largest.user), seed) else seed == [f]
  }

  /** The shortest part at the front that reaches the limit, or everything. */
  ghost predicate IsTruncated(files: seq<File>, limit: nat, r: seq<File>) {
    && r <= files && (r == files || TotalFileSize(r) >= limit)
    && forall k {:trigger files[..k]} :: 0 < k < |r| ==> TotalFileSize(files[..k]) < limit
  }

  /** The inputs of a manual compaction of a range. */
  ghost predicate PickedForRange(v: Version, level: nat, begin: Option<UserKey>, end: Option<UserKey>, maxFileSize: nat,
                                 in0: seq<File>, in1: seq<File>)
    requires level + 1 < |v| && ValidLevel(v, level)
  {
    exists inputs, seed ::
      && Gathered(v[level], level, begin, end, inputs) && inputs != []
      && (if level == 0 then seed == inputs else IsTruncated(inputs, maxFileSize, seed) && seed != [])
      && IsSetup(v, level, seed, maxFileSize, in0, in1)
  }

  lemma NoFileSize(files: seq<File>)
    ensures TotalFileSize(files[..0]) == 0
  {
  }

  lemma SizeGrows(files: seq<File>, i: nat)
    requires i < |files|
    ensures TotalFileSize(files[..i + 1]) == TotalFileSize(files[..i]) + files[i].size
  {
    assert files[..i + 1] == files[..i] + [files[i]];
    assert files[..i + 1][..i] == files[..i];
  }

  lemma CutHere(files: seq<File>, i: nat, limit: nat)
    requires i < |files| && TotalFileSize(files[..i + 1]) >= limit
    requires forall k {:trigger files[..k]} :: 0 < k <= i ==> TotalFileSize(files[..k]) < limit
    ensures IsTruncated(files, limit, files[..i + 1])
  {
  }

  lemma CutNowhere(files: seq<File>, limit: nat)
    requires forall k {:trigger files[..k]} :: 0 < k <= |files| ==> TotalFileSize(files[..k]) < limit
    ensures IsTruncated(files, limit, files)
  {
  }

  lemma PrefixIsSeed(v: Version, level: nat, inputs: seq<File>, n: nat)
    requires 1 <= level < |v| && Seed(v, level, inputs) && 0 < n <= |inputs|
    ensures Seed(v, level, inputs[..n])
  {
    var a: nat, b: nat :| IsRun(v[level], a, b, inputs);
    assert inputs[..n] == v[level][a..a + n];
    assert IsRun(v[level], a, a + n, inputs[..n]);
  }

  lemma HasMember(files: seq<File>)
    ensures files == [] || exists f :: f in files
  {
    if files != [] {
      assert files[0] in files;
    }
  }

  /** Growing the range at level 0 starts from a file that meets the request. */
  lemma RangeMet(files: seq<File>, begin: Option<UserKey>, end: Option<UserKey>, lo: Option<UserKey>,
                 hi: Option<UserKey>)
    requires LeastClosed(files, begin, end, lo, hi) && Overlapping(files, lo, hi) != []
    ensures exists f :: f in files && Overlaps(f, begin, end)
  {
    OverlappingMembers(files, lo, hi);
    var g := Overlapping(files, lo, hi)[0];
    assert g in Overlapping(files, lo, hi);
    if ClosedRange(files, begin, end) {
      assert Covers(begin, end, begin, end) && Covers(begin, end, lo, hi);
      assert Overlaps(g, begin, end);
    }
  }

  class VersionSet {
    const maxFileSize: nat
    var current: Version
    var compactPointer: seq<Option<Key>>

    ghost predicate Valid()
      reads this
    {
      ValidVersion(current) && |compactPointer| == NUM_LEVELS
    }

    constructor (v: Version, fileSize: nat)
      requires ValidVersion(v)
      ensures Valid() && current == v && maxFileSize == fileSize && compactPointer == seq(NUM_LEVELS, _ => None)
    {
      maxFileSize := fileSize;
      current := v;
      compactPointer := seq(NUM_LEVELS, _ => None);
    }

    /** A size compaction takes the first file past the level's pointer, or the first file of the level. */
    method NextFile(level: nat) returns (f: File)
      requires Valid() && level < NUM_LEVELS && current[level] != []
      ensures f in current[level]
      ensures IsNextFile(current[level], compactPointer[level], f)
    {
      f := current[level][0];
      for i := 0 to |current[level]|
        invariant f == current[level][0]
        invariant forall j :: 0 <= j < i ==> !AfterPointer(compactPointer[level], current[level][j])
      {
        if AfterPointer(compactPointer[level], current[level][i]) {
          return current[level][i];
        }
      }
    }

    /** A compaction from these inputs on; SetupOtherInputs completes it and moves the level's pointer. */
    method Start(level: nat, inputs: seq<File>) returns (c: Compaction)
      requires Valid() && level + 1 < NUM_LEVELS && Seed(current, level, inputs)
      modifies this`compactPointer
      ensures Valid() && fresh(c) && Ready(c) && c.version == current && c.level == level
      ensures compactPointer == old(compactPointer)[level := Some(LargestOf(c.inputs0))]
      ensures ValidLevel(current, level) && IsSetup(current, level, inputs, maxFileSize, c.inputs0, c.inputs1)
      ensures forall f :: f in inputs ==> f in c.inputs0
    {
      c := new Compaction(current, level, maxFileSize, inputs);
      var pointer := c.SetupOtherInputs();
      compactPointer := compactPointer[level := Some(pointer)];
    }

    /** Level-0 files that overlap the picked one come along; SetupOtherInputs does the rest. */
    method SetUp(level: nat, f: File) returns (c: Compaction)
      requires Valid() && level + 1 < NUM_LEVELS && f in current[level]
      modifies this`compactPointer
      ensures Valid() && fresh(c) && Ready(c) && c.version == current && c.level == level && f in c.inputs0
      ensures compactPointer == old(compactPointer)[level := Some(LargestOf(c.inputs0))]
      ensures AtMost(f.largest, LargestOf(c.inputs0)) && ValidLevel(current, level)
      ensures PickedFor(current, level, f, maxFileSize, c.inputs0, c.inputs1)
    {
      assert ValidLevel(current, level);
      var inputs := [f];
      if level == 0 {
        var smallest, largest := GetRange(inputs);
        var overlap, lo, hi := GetOverlappingInputs(current, 0, Some(smallest.user), Some(largest.user));
        OverlappingMembers(current[0], lo, hi);
        FileBounds(f, f.table[0]);
        assert f in overlap;
        inputs := overlap;
        OverlapIsSeed(current, 0, lo, hi);
        assert GatherRange(current[0], Some(f.smallest.user), Some(f.largest.user), lo, hi);
      } else {
        var k :| 0 <= k < |current[level]| && current[level][k] == f;
        assert IsRun(current[level], k, k + 1, [f]);
      }
      c := Start(level, inputs);
      assert PickedFor(current, level, f, maxFileSize, c.inputs0, c.inputs1);
      RangeIsTight(c.inputs0);
    }

    /** PickCompaction.  `bySize` is the level whose score reached 1, `bySeek` the file that used up its seeks. */
    method PickCompaction(bySize: Option<nat>, bySeek: Option<NewFile>) returns (c: Compaction?)
      requires Valid()
      requires bySize.Some? ==> bySize.value + 1 < NUM_LEVELS && current[bySize.value] != []
      requires bySeek.Some? ==> bySeek.value.level + 1 < NUM_LEVELS && bySeek.value.file in current[bySeek.value.level]
      modifies this`compactPointer
      ensures Valid() && (c == null <==> bySize.None? && bySeek.None?)
      ensures c == null ==> compactPointer == old(compactPointer)
      ensures c != null ==>
        && fresh(c) && Ready(c) && c.version == current
        && c.level == (if bySize.Some? then bySize.value else bySeek.value.level)
        && compactPointer == old(compactPointer)[c.level := Some(LargestOf(c.inputs0))]
      ensures c != null ==> ValidLevel(current, c.level) && exists f ::
        && (if bySize.Some? then IsNextFile(current[c.level], old(compactPointer)[c.level], f)
            else f == bySeek.value.file)
        && PickedFor(current, c.level, f, maxFileSize, c.inputs0, c.inputs1) && f in c.inputs0
      // Size compactions go round the level: past the pointer while anything is past it.
      ensures bySize.Some? && (exists g :: g in current[bySize.value]
                                           && AfterPointer(old(compactPointer)[bySize.value], g)) ==>
                AfterKey(old(compactPointer)[c.level], LargestOf(c.inputs0))
    {
      if bySize.Some? {
        var f := NextFile(bySize.value);
        c := SetUp(bySize.value, f);
      } else if bySeek.Some? {
        c := SetUp(bySeek.value.level, bySeek.value.file);
      } else {
        c := null;
      }
    }

    /** Stop once about one file's worth is picked; only below level 0, where files do not overlap. */
    method Truncate(level: nat, inputs: seq<File>) returns (r: seq<File>)
      requires Valid() && 1 <= level < NUM_LEVELS && Seed(current, level, inputs)
      ensures Seed(current, level, r) && r != [] && r[0] == inputs[0] && r <= inputs
      ensures IsTruncated(inputs, maxFileSize, r)
    {
      hide TotalFileSize;
      r := inputs;
      var total := 0;
      NoFileSize(inputs);
      for i := 0 to |inputs|
        invariant total == TotalFileSize(inputs[..i]) && r == inputs
        invariant forall k {:trigger inputs[..k]} :: 0 < k <= i ==> TotalFileSize(inputs[..k]) < maxFileSize
      {
        total := total + inputs[i].size;
        SizeGrows(inputs, i);
        if total >= maxFileSize {
          r := inputs[..i + 1];
          PrefixIsSeed(current, level, inputs, i + 1);
          CutHere(inputs, i, maxFileSize);
          return;
        }
      }
      CutNowhere(inputs, maxFileSize);
    }

    /** CompactRange: everything over the range, but no more than about one file's worth below level 0. */
    method CompactRange(level: nat, begin: Option<UserKey>, end: Option<UserKey>) returns (c: Compaction?)
      requires Valid() && level + 1 < NUM_LEVELS
      modifies this`compactPointer
      ensures Valid() && (c == null <==> Overlapping(current[level], begin, end) == [])
      ensures c == null ==> compactPointer == old(compactPointer)
      ensures c != null ==>
        && fresh(c) && Ready(c) && c.version == current && c.level == level
        && compactPointer == old(compactPointer)[level := Some(LargestOf(c.inputs0))]
        && ValidLevel(current, level)
        && PickedForRange(current, level, begin, end, maxFileSize, c.inputs0, c.inputs1)
        && (if level == 0 then forall f :: f in Overlapping(current[0], begin, end) ==> f in c.inputs0
            else Overlapping(current[level], begin, end)[0] in c.inputs0)
    {
      hide Ready, IsSetup, ClosedRange, LeastClosed;
      var inputs, lo, hi := GetOverlappingInputs(current, level, begin, end);
      OverlappingMembers(current[level], lo, hi);
      OverlappingMembers(current[level], begin, end);
      if inputs == [] {
        HasMember(Overlapping(current[level], begin, end));
        return null;
      }
      OverlapIsSeed(current, level, lo, hi);
      ghost var all := inputs;
      assert Gathered(current[level], level, begin, end, all) by {
        assert level == 0 ==> GatherRange(current[level], begin, end, lo, hi);
      }
      if level > 0 {
        inputs := Truncate(level, inputs);
      } else {
        RangeMet(current[0], begin, end, lo, hi);
      }
      c := Start(level, inputs);
      assert PickedForRange(current, level, begin, end, maxFileSize, c.inputs0, c.inputs1);
    }
  }

  // ---------------------------------------------------------------- the inputs as one iterator

  lemma {:induction false} FlattenMembers(files: seq<File>)
    ensures forall e :: e in Flatten(files) <==> e in LevelEntries(files)
  {
    if files != [] {
      var rest, last := files[..|files| - 1], files[|files| - 1];
      assert files == rest + [last];
      FlattenMembers(rest);
    }
  }

  /** The concatenation of disjoint files is sorted. */
  lemma {:induction false} FlattenSorted(files: seq<File>)
    requires DisjointFiles(files)
    ensures Sorted(Flatten(files))
  {
    if files != [] {
      var n := |files| - 1;
      var head, last := Flatten(files[..n]), files[n];
      assert files[..n] == files[0..n];
      SliceDisjoint(files, 0, n);
      FlattenSorted(files[..n]);
      assert last in files;
      forall i, j
        ensures InOrder(head + last.table, i, j)
      {
        assert InOrder(head, i, j) && InOrder(last.table, i - |head|, j - |head|);
        if 0 <= i < |head| <= j < |head| + |last.table| {
          EarlierFile(files, n, head[i], last.table[j - |head|]);
        }
      }
    }
  }

  lemma EarlierFile(files: seq<File>, n: nat, e: Entry, d: Entry)
    requires DisjointFiles(files) && n < |files| && e in Flatten(files[..n]) && d in files[n].table
    ensures Less(e.key, d.key)
  {
    FlattenMembers(files[..n]);
    var f :| f in files[..n] && e in f.table;
    var k :| 0 <= k < n && files[k] == f;
    assert f in files && files[n] in files && EndsBefore(files, k, n);
    FileBounds(f, e);
    FileBounds(files[n], d);
  }

  /** An entry lives in one file only. */
  lemma OneHome(v: Version, l: nat, f: File, m: nat, g: File, e: Entry, d: Entry)
    requires ValidVersion(v) && l < NUM_LEVELS && m < NUM_LEVELS && f in v[l] && g in v[m]
    requires e in f.table && d in g.table && e.key == d.key
    ensures l == m && f == g
  {
    assert e in Entries(v) && d in Entries(v) && SameSlot(e, d);
    assert LevelNewer(v, l, m) && LevelNewer(v, m, l) && ValidLevel(v, l) && NumbersDiffer(v, l, m);
    if l == m && l > 0 && f != g {
      LevelFiles(v, l);
      var k :| 0 <= k < |v[l]| && v[l][k] == g;
      FilesApart(v[l], k, f);
      FileBounds(f, e);
      FileBounds(g, d);
    } else {
      assert !Newer(f, g) && !Newer(g, f);
    }
  }

  function Tables(files: seq<File>): seq<seq<Entry>> {
    seq(|files|, i requires 0 <= i < |files| => files[i].table)
  }

  /** MakeInputIterator: each level-0 file is a child of its own, any other level is one concatenated child. */
  function InputParts(level: nat, in0: seq<File>, in1: seq<File>): seq<seq<Entry>> {
    (if level == 0 then Tables(in0) else [Flatten(in0)]) + if in1 == [] then [] else [Flatten(in1)]
  }

  /** Where an entry of a part comes from: part `i` of `in0` at level 0, and so on. */
  lemma PartSource(v: Version, level: nat, in0: seq<File>, in1: seq<File>, i: nat, e: Entry) returns (l: nat, f: File)
    requires GoodPick(v, level, in0, in1)
    requires i < |InputParts(level, in0, in1)| && e in InputParts(level, in0, in1)[i]
    ensures level <= l <= level + 1 && f in v[l] && e in f.table
    ensures l == level + 1 <==> i == (if level == 0 then |in0| else 1)
    ensures l == 0 ==> i < |in0| && f == in0[i]
    ensures if l == level then f in in0 else f in in1
  {
    FlattenMembers(in0);
    FlattenMembers(in1);
    if i == if level == 0 then |in0| else 1 {
      l := level + 1;
      f :| f in in1 && e in f.table;
    } else if level == 0 {
      l, f := 0, in0[i];
    } else {
      l := level;
      f :| f in in0 && e in f.table;
    }
  }

  lemma PartsDiffer(v: Version, level: nat, in0: seq<File>, in1: seq<File>, i: nat, j: nat, e: Entry, d: Entry)
    requires GoodPick(v, level, in0, in1) && i < j < |InputParts(level, in0, in1)|
    requires e in InputParts(level, in0, in1)[i] && d in InputParts(level, in0, in1)[j]
    ensures e.key != d.key
  {
    var l, f := PartSource(v, level, in0, in1, i, e);
    var m, g := PartSource(v, level, in0, in1, j, d);
    if l == m == 0 {
      assert BySmallest(in0[i], in0[j]);
    }
    if e.key == d.key {
      OneHome(v, l, f, m, g, e, d);
    }
  }

  lemma PartSorted(v: Version, level: nat, in0: seq<File>, in1: seq<File>, i: nat)
    requires GoodPick(v, level, in0, in1) && i < |InputParts(level, in0, in1)|
    ensures Sorted(InputParts(level, in0, in1)[i])
  {
    assert ValidLevel(v, level) && ValidLevel(v, level + 1);
    if level > 0 {
      FlattenSorted(in0);
    }
    FlattenSorted(in1);
    if level == 0 && i < |in0| {
      assert in0[i] in in0;
    }
  }

  lemma PartsCover(level: nat, in0: seq<File>, in1: seq<File>, e: Entry)
    ensures e in InputEntries(in0, in1)
            <==> exists i :: 0 <= i < |InputParts(level, in0, in1)| && e in InputParts(level, in0, in1)[i]
  {
    var parts := InputParts(level, in0, in1);
    FlattenMembers(in0);
    FlattenMembers(in1);
    if e in LevelEntries(in1) {
      assert e in parts[|parts| - 1];
    } else if e in LevelEntries(in0) {
      var f :| f in in0 && e in f.table;
      var k :| 0 <= k < |in0| && in0[k] == f;
      assert e in parts[if level == 0 then k else 0];
    }
    if i :| 0 <= i < |parts| && e in parts[i] {
      if level == 0 && i < |in0| {
        assert in0[i] in in0;
      }
    }
  }

  /** The merge of the inputs: sorted, with exactly their entries. */
  lemma InputsMerge(v: Version, level: nat, in0: seq<File>, in1: seq<File>) returns (merged: seq<Entry>)
    requires GoodPick(v, level, in0, in1)
    ensures IsMerge(InputParts(level, in0, in1), merged)
    ensures forall e :: e in merged <==> e in InputEntries(in0, in1)
  {
    var parts := InputParts(level, in0, in1);
    forall i | 0 <= i < |parts| ensures Sorted(parts[i]) { PartSorted(v, level, in0, in1, i); }
    forall i, j, e, d | 0 <= i < j < |parts| && e in parts[i] && d in parts[j]
      ensures !SameKey(e, d)
    {
      PartsDiffer(v, level, in0, in1, i, j, e, d);
    }
    merged := MergeExists(parts);
    forall e ensures e in merged <==> e in InputEntries(in0, in1) { PartsCover(level, in0, in1, e); }
  }

  method MakeInputIterator(c: Compaction) returns (input: MergingIterator)
    requires Ready(c)
    ensures fresh(input) && fresh(input.children) && input.Valid()
    ensures Sorted(input.merged) && forall e :: e in input.merged <==> e in InputEntries(c.inputs0, c.inputs1)
  {
    var parts := InputParts(c.level, c.inputs0, c.inputs1);
    ghost var merged := InputsMerge(c.version, c.level, c.inputs0, c.inputs1);
    var list: seq<Cursor> := [];
    for i := 0 to |parts|
      invariant |list| == i && fresh(list)
      invariant forall j :: 0 <= j < i ==> list[j].data == parts[j]
      invariant forall j, k :: 0 <= j < k < i ==> list[j] != list[k]
    {
      var child := new Cursor(parts[i]);
      list := list + [child];
    }
    assert seq(|list|, i requires 0 <= i < |list| => list[i].data) == parts;
    input := new MergingIterator(list, merged);
  }

  /** The files at level+2 that a file meets. */
  ghost function MetBelow(v: Version, level: nat, f: File): seq<File> {
    if level + 2 < |v| then Overlapping(v[level + 2], Some(f.smallest.user), Some(f.largest.user)) else []
  }

  /** What IsTrivialMove is for: moving the file changes no entry of the version and leaves it valid, and merging the
      moved file into the level below it would touch no more than ten files' worth of data. */
  lemma TrivialMoveIsCheap(c: Compaction, f: File, v': Version)
    requires Ready(c) && c.inputs0 == [f] && c.inputs1 == [] && TotalFileSize(c.grandparents) <= 10 * c.maxFileSize
    requires Installed(c.version, c.level, [f], [], [f], v')
    ensures ValidVersion(v') && Entries(v') == Entries(c.version) && f in v'[c.level + 1]
    ensures TotalFileSize(MetBelow(v', c.level, f)) <= 10 * c.maxFileSize
  {
    TrivialMoveKeepsEntries(c.version, c.level, f, v');
    assert f in [f];
    assert [f] + [] == [f] && SmallestOf([f]) == f.smallest && LargestOf([f]) == f.largest;
  }

  /** The compaction part of BackgroundCompaction: the edit it records, and the tables it wrote. */
  method Compact(c: Compaction, manual: bool, snapshot: SequenceNumber, fileSize: seq<Entry> -> nat, logNumber: nat,
                 nextFileNumber: nat, last: SequenceNumber)
    returns (edit: Edit, trivial: bool, outputs: seq<File>, next: nat)
    requires Ready(c)
    modifies c`levelPtrs, c`grandparentIndex, c`seenKey, c`overlappedBytes
    ensures edit == CompactionEdit(c.level, c.inputs0, c.inputs1, outputs, logNumber, next, last)
            && nextFileNumber <= next
    ensures trivial
            <==> !manual && |c.inputs0| == 1 && c.inputs1 == [] && TotalFileSize(c.grandparents) <= 10 * c.maxFileSize
    ensures trivial ==> outputs == c.inputs0 && next == nextFileNumber
    ensures !trivial ==> NumbersAscend(outputs) && forall f :: f in outputs ==> nextFileNumber <= f.number < next
    ensures !trivial ==> NumberedFrom(outputs, nextFileNumber) && next == nextFileNumber + |outputs|
    ensures !trivial ==> exists m ::
              && CompactionRun(c.version, c.level, c.inputs0, c.inputs1, snapshot, m, outputs)
              && CutByRules(outputs, m, snapshot, c.version, c.level, c.grandparents, c.maxFileSize, fileSize)
  {
    var move := c.IsTrivialMove();
    if !manual && move {
      trivial, outputs, next := true, c.inputs0, nextFileNumber;
    } else {
      trivial := false;
      var input := MakeInputIterator(c);
      outputs, next := DoCompactionWork(c, input, snapshot, fileSize, nextFileNumber);
      assert CompactionRun(c.version, c.level, c.inputs0, c.inputs1, snapshot, input.merged, outputs);
    }
    edit := CompactionEdit(c.level, c.inputs0, c.inputs1, outputs, logNumber, next, last);
  }
}
