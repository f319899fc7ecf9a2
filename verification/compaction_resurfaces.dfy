// A compaction that brings a deleted value back.  SetupOtherInputs closes only the `level` inputs over shared user
// keys, so a deletion marker can be compacted away while the value it hides stays in the next level+1 file.
module CompactionResurfaces {
  import opened Basics
  import opened InternalKeys
  import opened ReadSpec
  import opened Versions
  import opened Picking
  import opened CompactionInputs
  import opened Compactions
  import opened CompactionTheorems

  const UPPER := File(11, 1, Key(1, 4, Value), Key(1, 4, Value), [Entry(Key(1, 4, Value), [5])])
  const MARKER := File(8, 2, Key(1, 3, Value), Key(2, 2, Deletion),
                       [Entry(Key(1, 3, Value), [6]), Entry(Key(2, 2, Deletion), [])])
  const HIDDEN := File(9, 1, Key(2, 1, Value), Key(2, 1, Value), [Entry(Key(2, 1, Value), [7])])
  const OUTPUT := File(12, 1, Key(1, 4, Value), Key(1, 4, Value), [Entry(Key(1, 4, Value), [5])])

  const BEFORE: Version := [[], [UPPER], [MARKER, HIDDEN], [], [], [], []]
  const AFTER: Version := [[], [], [OUTPUT, HIDDEN], [], [], [], []]
  const MERGED := [Entry(Key(1, 4, Value), [5]), Entry(Key(1, 3, Value), [6]), Entry(Key(2, 2, Deletion), [])]

  lemma BeforeEntries()
    ensures Entries(BEFORE) == {MERGED[0], MERGED[1], MERGED[2], HIDDEN.table[0]}
  {
    assert UPPER in BEFORE[1] && MARKER in BEFORE[2] && HIDDEN in BEFORE[2];
    assert UPPER.table[0] in UPPER.table && MARKER.table[0] in MARKER.table && MARKER.table[1] in MARKER.table;
    assert HIDDEN.table[0] in HIDDEN.table;
  }

  lemma BeforeLevels(l: int)
    ensures ValidLevel(BEFORE, l)
  {
    if l == 2 {
      forall i, j ensures InOrder(MARKER.table, i, j) { }
      forall i, j ensures EndsBefore(BEFORE[2], i, j) { }
    }
  }

  lemma BeforeOrder(l: int, m: int)
    ensures LevelNewer(BEFORE, l, m) && NumbersDiffer(BEFORE, l, m)
  {
    if 0 <= l < m < |BEFORE| {
      forall f, g | f in BEFORE[l] && g in BEFORE[m]
        ensures Newer(f, g)
      {
        assert l == 1 && m == 2 && f == UPPER && (g == MARKER || g == HIDDEN);
      }
    }
  }

  /** The version satisfies every invariant of a version. */
  lemma BeforeIsValid()
    ensures ValidVersion(BEFORE)
  {
    forall l ensures ValidLevel(BEFORE, l) { BeforeLevels(l); }
    forall l, m ensures LevelNewer(BEFORE, l, m) && NumbersDiffer(BEFORE, l, m) { BeforeOrder(l, m); }
    BeforeEntries();
  }

  /** Compacting level 1 takes exactly these inputs: HIDDEN does not meet the user-key range of UPPER. */
  lemma PickedInputs()
    ensures BoundaryFiles(BEFORE[1], LargestOf([UPPER])) == []
    ensures Overlapping(BEFORE[2], Some(SmallestOf([UPPER]).user), Some(LargestOf([UPPER]).user)) == [MARKER]
    ensures Overlapping(BEFORE[1], Some(SmallestOf([UPPER, MARKER]).user), Some(LargestOf([UPPER, MARKER]).user))
            == [UPPER]
    ensures GoodPick(BEFORE, 1, [UPPER], [MARKER])
  {
    BeforeIsValid();
    var files := BEFORE[2];
    assert files[..1] == [MARKER] && files[..1][..0] == [];
    assert BEFORE[1][..0] == [] && files == [MARKER, HIDDEN] && SmallestOf([UPPER]) == UPPER.smallest;
    assert Overlapping(files[..1], Some(1), Some(1)) == [MARKER];
    assert Overlapping(files, Some(1), Some(1)) == [MARKER];
    assert [UPPER, MARKER][..1] == [UPPER];
    assert FirstBoundary([UPPER], UPPER.largest) == FirstBoundary([], UPPER.largest);
    LevelFiles(BEFORE, 2);
    assert ValidLevel(BEFORE, 1);
    OverlapKeepsClear(files, [UPPER], [MARKER]);
    assert MARKER in files;
    assert forall f :: f in [UPPER] ==> f in BEFORE[1];
  }

  lemma RunKeepsOneEntry()
    ensures CompactionRun(BEFORE, 1, [UPPER], [MARKER], 4, MERGED, [OUTPUT])
  {
    forall i, j ensures InOrder(MERGED, i, j) { }
    assert UPPER in [UPPER] && MARKER in [MARKER];
    forall e
      ensures e in MERGED <==> e in InputEntries([UPPER], [MARKER])
    {
      assert e in MERGED <==> e == MERGED[0] || e == MERGED[1] || e == MERGED[2];
      assert e in UPPER.table <==> e == MERGED[0];
      assert e in MARKER.table <==> e == MERGED[1] || e == MERGED[2];
    }
    assert NoFileCovers(BEFORE, 3, 2);
    assert Dropped(MERGED, 2, 4, BEFORE, 1) && Dropped(MERGED, 1, 4, BEFORE, 1) && !Dropped(MERGED, 0, 4, BEFORE, 1);
    assert Kept(MERGED, 0, 4, BEFORE, 1) == [];
    assert Kept(MERGED, 1, 4, BEFORE, 1) == [MERGED[0]];
    assert Kept(MERGED, 2, 4, BEFORE, 1) == [MERGED[0]];
    assert Kept(MERGED, 3, 4, BEFORE, 1) == [MERGED[0]];
    assert [OUTPUT][..0] == [];
    assert Flatten([OUTPUT]) == Flatten([]) + OUTPUT.table;
  }

  lemma OutputsAreGood()
    ensures GoodOutputs(BEFORE, 1, [UPPER], [MARKER], [OUTPUT])
  {
    RunKeepsOneEntry();
    assert [OUTPUT][..0] == [];
    assert Flatten([OUTPUT]) == Flatten([]) + OUTPUT.table;
    CutsOfSorted([OUTPUT]);
    assert UPPER in [UPPER] && UPPER.table[0] in UPPER.table;
    assert LevelEntries([UPPER]) <= InputEntries([UPPER], [MARKER]);
    forall e | e in LevelEntries([OUTPUT])
      ensures e in InputEntries([UPPER], [MARKER])
    {
      assert e in OUTPUT.table && e == UPPER.table[0];
    }
  }

  lemma OutputIsInstalled()
    ensures Installed(BEFORE, 1, [UPPER], [MARKER], [OUTPUT], AFTER)
  {
    assert SortedFiles(AFTER[2]);
    assert forall f :: f in AFTER[2] <==> f == OUTPUT || f == HIDDEN;
    assert forall f :: f in BEFORE[2] <==> f == MARKER || f == HIDDEN;
  }

  /** All the premises of a compaction hold, at snapshot 4 with nobody reading below it. */
  lemma CompactionHappens()
    ensures CompactionStep(BEFORE, 1, [UPPER], [MARKER], 4, MERGED, [OUTPUT], AFTER)
  {
    PickedInputs();
    RunKeepsOneEntry();
    OutputsAreGood();
    OutputIsInstalled();
  }

  lemma MarkerIsObsolete()
    ensures ObsoleteMarker(BEFORE, 1, [UPPER], [MARKER], 4, 2, MERGED[2])
  {
    BeforeEntries();
    assert MARKER in [MARKER] && MERGED[2] in MARKER.table;
    assert NoFileCovers(BEFORE, 3, 2);
  }

  lemma LeftBehindValue()
    ensures Read(LeftBehind(BEFORE, 1, [MARKER]), 2, 4) == Some([7])
  {
    assert HIDDEN in BEFORE[2] && HIDDEN.table[0] in HIDDEN.table;
    assert LeftBehind(BEFORE, 1, [MARKER]) == {HIDDEN.table[0]};
    ReadNewest(LeftBehind(BEFORE, 1, [MARKER]), 2, 4, HIDDEN.table[0]);
  }

  /** User key 2 was deleted at sequence 2; after the compaction its value from sequence 1 is back. */
  lemma DeletedValueComesBack()
    ensures CompactionStep(BEFORE, 1, [UPPER], [MARKER], 4, MERGED, [OUTPUT], AFTER)
    ensures Read(Entries(BEFORE), 2, 4) == None && Read(Entries(AFTER), 2, 4) == Some([7])
    ensures !NothingResurfaces(BEFORE, 1, [UPPER], [MARKER], 4)
  {
    CompactionHappens();
    MarkerIsObsolete();
    LeftBehindValue();
    MarkerMustStay(BEFORE, 1, [UPPER], [MARKER], 4, MERGED, [OUTPUT], AFTER, 2, MERGED[2]);
  }
}
