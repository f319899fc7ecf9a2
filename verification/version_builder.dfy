// Applying version edits: VersionSet::Builder in db/version_set.cc.
module VersionBuilders {
  import opened Basics
  import opened InternalKeys
  import opened ReadSpec
  import opened Versions

  type LevelSets = seq<set<File>>

  datatype NewFile = NewFile(level: nat, file: File)

  /** VersionEdit, without comparator name and compaction pointers. */
  datatype Edit = Edit(deleted: set<(nat, nat)>, added: seq<NewFile>, logNumber: Option<nat>, nextFile: Option<nat>,
                       lastSequence: Option<SequenceNumber>)

  ghost function SetsOf(v: Version): LevelSets {
    seq(|v|, l requires 0 <= l < |v| => set f | f in v[l])
  }

  ghost function AddedAt(edit: Edit, l: nat): set<File> {
    set i | 0 <= i < |edit.added| && edit.added[i].level == l :: edit.added[i].file
  }

  /** What an edit means for the set of files of one level. */
  ghost function ApplyToLevel(files: set<File>, edit: Edit, l: nat): set<File> {
    (set f | f in files && (l, f.number) !in edit.deleted) + AddedAt(edit, l)
  }

  ghost function ApplyEdit(sets: LevelSets, edit: Edit): LevelSets {
    seq(|sets|, l requires 0 <= l < |sets| => ApplyToLevel(sets[l], edit, l))
  }

  ghost function Replay(sets: LevelSets, edits: seq<Edit>): LevelSets {
    if edits == [] then sets else ApplyEdit(Replay(sets, edits[..|edits| - 1]), edits[|edits| - 1])
  }

  /** `v` lists the sets, each level in BySmallestKey order. */
  ghost predicate Lists(v: Version, sets: LevelSets) {
    && |v| == |sets|
    && forall l :: 0 <= l < |v| ==> SortedFiles(v[l]) && forall f :: f in v[l] <==> f in sets[l]
  }

  ghost function PairsOf(sets: LevelSets): set<(nat, nat)> {
    set l, f | 0 <= l < |sets| && f in sets[l] :: (l, f.number)
  }

  ghost function AddedPairs(edit: Edit): set<(nat, nat)> {
    set i | 0 <= i < |edit.added| :: (edit.added[i].level, edit.added[i].file.number)
  }

  ghost function AllPairs(sets: LevelSets, edits: seq<Edit>): set<(nat, nat)> {
    if edits == [] then PairsOf(sets) else AllPairs(sets, edits[..|edits| - 1]) + AddedPairs(edits[|edits| - 1])
  }

  ghost predicate DistinctAdds(edit: Edit) {
    forall i, j :: 0 <= i < j < |edit.added| && edit.added[i].level == edit.added[j].level
      ==> edit.added[i].file.number != edit.added[j].file.number
  }

  /** Every (level, number) pair is added at most once over the whole history. */
  ghost predicate AddsOnce(sets: LevelSets, edits: seq<Edit>) {
    edits != [] ==>
      var before, last := edits[..|edits| - 1], edits[|edits| - 1];
      && AddsOnce(sets, before) && DistinctAdds(last) && AddedPairs(last) !! AllPairs(sets, before)
      && forall i :: 0 <= i < |last.added| ==> last.added[i].level < |sets|
  }

  lemma FirstIsMember(a: seq<File>)
    requires a != []
    ensures a[0] in a
  {
  }

  lemma {:induction false} SortedListUnique(a: seq<File>, b: seq<File>)
    requires SortedFiles(a) && SortedFiles(b) && forall f :: f in a <==> f in b
    ensures a == b
  {
    if a != [] && b != [] {
      var n, k := |a| - 1, |b| - 1;
      assert a[n] in a && b[k] in b;
      var i :| 0 <= i < |b| && b[i] == a[n];
      var j :| 0 <= j < |a| && a[j] == b[k];
      assert i < k ==> BySmallest(b[i], b[k]);
      assert j < n ==> BySmallest(a[j], a[n]);
      assert a[n] == b[k];
      WithoutLast(a, b);
      SortedListUnique(a[..n], b[..k]);
      assert a == a[..n] + [a[n]] && b == b[..k] + [b[k]];
    } else {
      if a != [] { FirstIsMember(a); }
      if b != [] { FirstIsMember(b); }
    }
  }

  lemma WithoutLast(a: seq<File>, b: seq<File>)
    requires |a| > 0 && |b| > 0 && a[|a| - 1] == b[|b| - 1]
    requires SortedFiles(a) && SortedFiles(b) && forall f :: f in a <==> f in b
    ensures var a', b' := a[..|a| - 1], b[..|b| - 1];
            SortedFiles(a') && SortedFiles(b') && forall f :: f in a' <==> f in b'
  {
    var a', b', last := a[..|a| - 1], b[..|b| - 1], a[|a| - 1];
    LastOnce(a);
    LastOnce(b);
    assert a == a' + [last] && b == b' + [last];
    forall f
      ensures f in a' <==> f in b'
    {
      assert f in a <==> f in a' || f == last;
      assert f in b <==> f in b' || f == last;
    }
  }

  lemma LastOnce(a: seq<File>)
    requires |a| > 0 && SortedFiles(a)
    ensures a[|a| - 1] !in a[..|a| - 1] && SortedFiles(a[..|a| - 1])
  {
    var n := |a| - 1;
    forall i | 0 <= i < n
      ensures a[i] != a[n]
    {
      assert BySmallest(a[i], a[n]);
    }
    forall i, j | 0 <= i < j < n
      ensures BySmallest(a[..n][i], a[..n][j])
    {
      assert BySmallest(a[i], a[j]);
    }
  }

  /** Two versions that list the same sets are the same. */
  lemma ListsUnique(v: Version, w: Version, sets: LevelSets)
    requires Lists(v, sets) && Lists(w, sets)
    ensures v == w
  {
    forall l | 0 <= l < |v| ensures v[l] == w[l] { SortedListUnique(v[l], w[l]); }
  }

  /** Builder::LevelState; `added` is an std::set in BySmallestKey order. */
  datatype LevelState = LevelState(deleted: set<nat>, added: seq<File>)

  /** The files of one level if the builder were saved now. */
  ghost function LevelNow(files: seq<File>, ls: LevelState): set<File> {
    set f | f in files + ls.added && f.number !in ls.deleted
  }

  ghost function NowSets(base: Version, levels: seq<LevelState>): LevelSets
    requires |levels| == |base|
  {
    seq(|base|, l requires 0 <= l < |base| => LevelNow(base[l], levels[l]))
  }

  /** `seen` holds every (level, number) pair ever present. */
  ghost predicate LevelOk(files: seq<File>, ls: LevelState, l: nat, seen: set<(nat, nat)>) {
    && SortedFiles(files) && SortedFiles(ls.added)
    && (forall f :: f in files || f in ls.added ==> (l, f.number) in seen)
    && (forall f, g :: f in files && g in ls.added ==> f.number != g.number)
  }

  ghost function Prefix(edit: Edit, i: nat): Edit
    requires i <= |edit.added|
  {
    edit.(added := edit.added[..i])
  }

  lemma PrefixGrows(edit: Edit, i: nat)
    requires i < |edit.added| && DistinctAdds(edit)
    ensures var nf := edit.added[i];
            && AddedPairs(Prefix(edit, i + 1)) == AddedPairs(Prefix(edit, i)) + {(nf.level, nf.file.number)}
            && (nf.level, nf.file.number) !in AddedPairs(Prefix(edit, i))
    ensures forall l: nat :: AddedAt(Prefix(edit, i + 1), l)
                             == AddedAt(Prefix(edit, i), l) + if l == edit.added[i].level then {edit.added[i].file}
                               else {}
  {
    var a, b := Prefix(edit, i), Prefix(edit, i + 1);
    assert forall k :: 0 <= k < i ==> a.added[k] == b.added[k] == edit.added[k];
    assert b.added[i] == edit.added[i];
    forall l: nat
      ensures AddedAt(b, l) == AddedAt(a, l) + if l == edit.added[i].level then {edit.added[i].file} else {}
    {
      forall f | f in AddedAt(b, l)
        ensures f in AddedAt(a, l) || (l == edit.added[i].level && f == edit.added[i].file)
      {
        var k :| 0 <= k < |b.added| && b.added[k].level == l && b.added[k].file == f;
        assert k < i ==> a.added[k].file == f;
      }
      forall f | f in AddedAt(a, l)
        ensures f in AddedAt(b, l)
      {
        var k :| 0 <= k < |a.added| && a.added[k].level == l && a.added[k].file == f;
        assert b.added[k].file == f;
      }
    }
    var pair := (edit.added[i].level, edit.added[i].file.number);
    forall p
      ensures p in AddedPairs(b) <==> p in AddedPairs(a) || p == pair
    {
      if p in AddedPairs(b) {
        var k :| 0 <= k < |b.added| && p == (b.added[k].level, b.added[k].file.number);
        assert k < i ==> p == (a.added[k].level, a.added[k].file.number);
      }
      if p in AddedPairs(a) {
        var k :| 0 <= k < |a.added| && p == (a.added[k].level, a.added[k].file.number);
        assert p == (b.added[k].level, b.added[k].file.number);
      }
      assert p == pair ==> p == (b.added[i].level, b.added[i].file.number);
    }
    forall k | 0 <= k < |a.added|
      ensures (a.added[k].level, a.added[k].file.number) != pair
    {
      assert a.added[k] == edit.added[k];
    }
  }

  class Builder {
    const base: Version
    var levels: seq<LevelState>
    ghost var seen: set<(nat, nat)>

    ghost predicate Valid()
      reads this
    {
      && |levels| == |base|
      && forall l {:trigger LevelOk(base[l], levels[l], l, seen)} :: 0 <= l < |base| ==>
         LevelOk(base[l], levels[l], l, seen)
    }

    /** The version the builder stands for. */
    ghost function Represents(): LevelSets
      requires Valid()
      reads this
    {
      NowSets(base, levels)
    }

    constructor (v: Version)
      requires forall l :: 0 <= l < |v| ==> SortedFiles(v[l])
      ensures Valid() && base == v && Represents() == SetsOf(v) && seen == PairsOf(SetsOf(v))
    {
      base := v;
      levels := seq(|v|, _ => LevelState({}, []));
      seen := PairsOf(SetsOf(v));
      new;
      forall l | 0 <= l < |v|
        ensures LevelOk(base[l], levels[l], l, seen)
      {
        forall f | f in base[l] ensures (l, f.number) in seen { assert f in SetsOf(v)[l]; }
      }
      forall l | 0 <= l < |v| ensures NowSets(base, levels)[l] == SetsOf(v)[l] { }
    }

    /** Builder::Apply. */
    method Apply(edit: Edit)
      requires Valid() && DistinctAdds(edit) && AddedPairs(edit) !! seen
      requires forall i :: 0 <= i < |edit.added| ==> edit.added[i].level < |base|
      modifies this
      ensures Valid() && Represents() == ApplyEdit(old(Represents()), edit)
      ensures seen == old(seen) + AddedPairs(edit)
    {
      ghost var before := Represents();
      Delete(edit);
      var i := 0;
      while i < |edit.added|
        invariant 0 <= i <= |edit.added| && Valid()
        invariant seen == old(seen) + AddedPairs(Prefix(edit, i))
        invariant Represents() == ApplyEdit(before, Prefix(edit, i))
      {
        var nf := edit.added[i];
        PrefixGrows(edit, i);
        assert (nf.level, nf.file.number) in AddedPairs(edit);
        ghost var sets := Represents();
        Insert(nf.level, nf.file);
        i := i + 1;
        forall l | 0 <= l < |base|
          ensures Represents()[l] == ApplyEdit(before, Prefix(edit, i))[l]
        {
          assert sets[l] == ApplyToLevel(before[l], Prefix(edit, i - 1), l);
        }
      }
      assert Prefix(edit, |edit.added|) == edit;
    }

    /** The deletions of an edit. */
    method Delete(edit: Edit)
      requires Valid()
      modifies this`levels
      ensures Valid() && Represents() == ApplyEdit(old(Represents()), Prefix(edit, 0))
    {
      ghost var before := levels;
      levels := seq(|levels|, l requires 0 <= l < |levels| reads this =>
                      levels[l].(deleted := levels[l].deleted + set p | p in edit.deleted && p.0 == l :: p.1));
      forall l | 0 <= l < |base|
        ensures LevelOk(base[l], levels[l], l, seen)
        ensures LevelNow(base[l], levels[l]) == ApplyToLevel(LevelNow(base[l], before[l]), Prefix(edit, 0), l)
      {
        assert LevelOk(base[l], before[l], l, seen);
        DeletedNumbers(edit, l);
      }
    }

    static lemma DeletedNumbers(edit: Edit, l: nat)
      ensures forall n: nat :: n in (set p | p in edit.deleted && p.0 == l :: p.1) <==> (l, n) in edit.deleted
    {
      forall n: nat | n in (set p | p in edit.deleted && p.0 == l :: p.1)
        ensures (l, n) in edit.deleted
      {
        var p :| p in edit.deleted && p.0 == l && p.1 == n;
        assert p == (l, n);
      }
    }

    /** deleted_files.erase, then added_files->insert. */
    method Insert(level: nat, f: File)
      requires Valid() && level < |base| && (level, f.number) !in seen
      modifies this
      ensures Valid() && seen == old(seen) + {(level, f.number)}
      ensures |Represents()| == |old(Represents())|
      ensures forall l :: 0 <= l < |base| ==>
        Represents()[l] == old(Represents())[l] + if l == level then {f} else {}
    {
      assert LevelOk(base[level], levels[level], level, seen);
      ghost var before := levels;
      var files := levels[level].added;
      var k := 0;
      while k < |files| && BySmallest(files[k], f)
        invariant 0 <= k <= |files|
        invariant forall j :: 0 <= j < k ==> BySmallest(files[j], f)
      {
        k := k + 1;
      }
      assert k < |files| ==> files[k] in files;
      InsertedSorted(files, k, f);
      levels := levels[level := LevelState(levels[level].deleted - {f.number}, files[..k] + [f] + files[k..])];
      seen := seen + {(level, f.number)};
      forall l | 0 <= l < |base|
        ensures LevelOk(base[l], levels[l], l, seen)
        ensures LevelNow(base[l], levels[l]) == LevelNow(base[l], before[l]) + if l == level then {f} else {}
      {
        assert LevelOk(base[l], before[l], l, old(seen));
      }
    }

    static lemma InsertedSorted(files: seq<File>, k: nat, f: File)
      requires SortedFiles(files) && k <= |files|
      requires forall j :: 0 <= j < k ==> BySmallest(files[j], f)
      requires k < |files| ==> BySmallest(f, files[k])
      ensures var r := files[..k] + [f] + files[k..];
              SortedFiles(r) && forall g :: g in r <==> g in files || g == f
    {
      var r := files[..k] + [f] + files[k..];
      forall i, j | 0 <= i < j < |r|
        ensures BySmallest(r[i], r[j])
      {
        var a, b := if i < k then i else i - 1, if j < k then j else j - 1;
        assert i != k && j != k && a < b ==> BySmallest(files[a], files[b]);
        assert i == k && k < b ==> BySmallest(files[k], files[b]);
        assert j == k + 1 && i < k ==> BySmallest(files[i], files[k]);
      }
      assert files == files[..k] + files[k..];
      forall g ensures g in r <==> g in files || g == f {
        assert g in files <==> g in files[..k] || g in files[k..];
      }
    }

    /** MaybeAddFile over a list. */
    static function Undeleted(files: seq<File>, gone: set<nat>): seq<File> {
      if files == [] then []
      else
        var rest := Undeleted(files[..|files| - 1], gone);
        var f := files[|files| - 1];
        if f.number in gone then rest else rest + [f]
    }

    static lemma {:induction false} UndeletedSorted(files: seq<File>, gone: set<nat>)
      requires SortedFiles(files)
      ensures SortedFiles(Undeleted(files, gone))
      ensures forall f :: f in Undeleted(files, gone) <==> f in files && f.number !in gone
    {
      if files != [] {
        var n := |files| - 1;
        var f, rest := files[n], Undeleted(files[..n], gone);
        LastOnce(files);
        UndeletedSorted(files[..n], gone);
        assert files == files[..n] + [f];
        forall i | 0 <= i < |rest|
          ensures BySmallest(rest[i], f)
        {
          assert rest[i] in rest;
          var j :| 0 <= j < n && files[j] == rest[i];
          assert BySmallest(files[j], files[n]);
        }
        forall i, j | 0 <= i < j < |rest| + 1
          ensures BySmallest((rest + [f])[i], (rest + [f])[j])
        {
          if j < |rest| { assert BySmallest(rest[i], rest[j]); }
        }
      }
    }

    /** SaveTo for one level: merge base and added files in order, dropping the deleted ones. */
    method SaveLevel(l: nat) returns (r: seq<File>)
      requires Valid() && l < |base|
      ensures SortedFiles(r) && forall f :: f in r <==> f in LevelNow(base[l], levels[l])
    {
      var bs, xs, gone := base[l], levels[l].added, levels[l].deleted;
      assert LevelOk(bs, levels[l], l, seen);
      r := [];
      ghost var merged: seq<File> := [];
      var b := 0;
      for a := 0 to |xs|
        invariant MergeState(merged, bs, b, xs, a) && r == Undeleted(merged, gone)
      {
        while b < |bs| && !BySmallest(xs[a], bs[b])
          invariant MergeState(merged, bs, b, xs, a) && r == Undeleted(merged, gone)
          decreases |bs| - b
        {
          assert bs[b] in bs && xs[a] in xs;
          MergeBase(merged, bs, b, xs, a);
          merged, r := Push(merged, r, bs[b], gone);
          b := b + 1;
        }
        MergeAdded(merged, bs, b, xs, a);
        merged, r := Push(merged, r, xs[a], gone);
      }
      while b < |bs|
        invariant MergeState(merged, bs, b, xs, |xs|) && r == Undeleted(merged, gone)
      {
        MergeRest(merged, bs, b, xs);
        merged, r := Push(merged, r, bs[b], gone);
        b := b + 1;
      }
      UndeletedSorted(merged, gone);
      assert bs[..|bs|] == bs && xs[..|xs|] == xs;
    }

    /** MaybeAddFile. */
    static method Push(ghost merged: seq<File>, r: seq<File>, f: File, gone: set<nat>)
      returns (ghost merged': seq<File>, r': seq<File>)
      requires r == Undeleted(merged, gone)
      ensures merged' == merged + [f] && r' == Undeleted(merged', gone)
      ensures r' == if f.number in gone then r else r + [f]
    {
      merged' := merged + [f];
      assert merged'[..|merged|] == merged;
      r' := r;
      if f.number !in gone {
        r' := r' + [f];
      }
    }

    /** `m` merges the first b base files and the first a added files, and precedes the rest. */
    ghost static predicate MergeState(m: seq<File>, bs: seq<File>, b: nat, xs: seq<File>, a: nat) {
      && b <= |bs| && a <= |xs| && SortedFiles(m)
      && (forall f :: f in m <==> f in bs[..b] || f in xs[..a])
      && (forall f :: f in m ==> b < |bs| ==> BySmallest(f, bs[b]))
      && (forall f :: f in m ==> a < |xs| ==> BySmallest(f, xs[a]))
    }

    static lemma MergeBase(m: seq<File>, bs: seq<File>, b: nat, xs: seq<File>, a: nat)
      requires MergeState(m, bs, b, xs, a) && b < |bs| && a < |xs| && SortedFiles(bs)
      requires bs[b].number != xs[a].number && !BySmallest(xs[a], bs[b])
      ensures MergeState(m + [bs[b]], bs, b + 1, xs, a)
    {
      AppendSorted(m, bs[b]);
      assert bs[..b + 1] == bs[..b] + [bs[b]];
      assert BySmallest(bs[b], xs[a]);
      if b + 1 < |bs| { assert BySmallest(bs[b], bs[b + 1]); }
    }

    static lemma MergeAdded(m: seq<File>, bs: seq<File>, b: nat, xs: seq<File>, a: nat)
      requires MergeState(m, bs, b, xs, a) && a < |xs| && SortedFiles(xs)
      requires b < |bs| ==> BySmallest(xs[a], bs[b])
      ensures MergeState(m + [xs[a]], bs, b, xs, a + 1)
    {
      AppendSorted(m, xs[a]);
      assert xs[..a + 1] == xs[..a] + [xs[a]];
      if a + 1 < |xs| { assert BySmallest(xs[a], xs[a + 1]); }
    }

    static lemma MergeRest(m: seq<File>, bs: seq<File>, b: nat, xs: seq<File>)
      requires MergeState(m, bs, b, xs, |xs|) && b < |bs| && SortedFiles(bs)
      ensures MergeState(m + [bs[b]], bs, b + 1, xs, |xs|)
    {
      AppendSorted(m, bs[b]);
      assert bs[..b + 1] == bs[..b] + [bs[b]];
      if b + 1 < |bs| { assert BySmallest(bs[b], bs[b + 1]); }
    }

    static lemma AppendSorted(m: seq<File>, f: File)
      requires SortedFiles(m) && forall g :: g in m ==> BySmallest(g, f)
      ensures SortedFiles(m + [f])
    {
      forall i, j | 0 <= i < j < |m| + 1
        ensures BySmallest((m + [f])[i], (m + [f])[j])
      {
        assert m[i] in m;
        if j < |m| { assert BySmallest(m[i], m[j]); }
      }
    }

    /** Builder::SaveTo. */
    method SaveTo() returns (v: Version)
      requires Valid()
      ensures Lists(v, Represents())
    {
      v := [];
      for l := 0 to |base|
        invariant |v| == l
        invariant forall k :: 0 <= k < l ==>
                    SortedFiles(v[k]) && forall f :: f in v[k] <==> f in LevelNow(base[k], levels[k])
      {
        var files := SaveLevel(l);
        v := v + [files];
      }
    }
  }

  /** The version part of VersionSet::LogAndApply: one edit, one builder. */
  method ApplyOne(v: Version, edit: Edit) returns (v': Version)
    requires forall l :: 0 <= l < |v| ==> SortedFiles(v[l])
    requires DistinctAdds(edit) && AddedPairs(edit) !! PairsOf(SetsOf(v))
    requires forall i :: 0 <= i < |edit.added| ==> edit.added[i].level < |v|
    ensures Lists(v', ApplyEdit(SetsOf(v), edit))
  {
    var b := new Builder(v);
    b.Apply(edit);
    v' := b.SaveTo();
  }

  /** The loop of VersionSet::Recover: every record of the manifest into one builder, saved once. */
  method ReplayAll(v: Version, edits: seq<Edit>) returns (v': Version)
    requires (forall l :: 0 <= l < |v| ==> SortedFiles(v[l])) && AddsOnce(SetsOf(v), edits)
    ensures Lists(v', Replay(SetsOf(v), edits))
  {
    var b := new Builder(v);
    for i := 0 to |edits|
      invariant b.Valid() && b.base == v && fresh(b)
      invariant b.Represents() == Replay(SetsOf(v), edits[..i])
      invariant b.seen == AllPairs(SetsOf(v), edits[..i])
    {
      AddsOncePrefix(SetsOf(v), edits, i + 1);
      assert edits[..i + 1][..i] == edits[..i];
      b.Apply(edits[i]);
    }
    assert edits[..|edits|] == edits;
    v' := b.SaveTo();
  }

  lemma {:induction false} AddsOncePrefix(sets: LevelSets, edits: seq<Edit>, n: nat)
    requires AddsOnce(sets, edits) && n <= |edits|
    ensures AddsOnce(sets, edits[..n])
    decreases |edits|
  {
    if n < |edits| {
      AddsOncePrefix(sets, edits[..|edits| - 1], n);
      assert edits[..|edits| - 1][..n] == edits[..n];
    } else {
      assert edits[..n] == edits;
    }
  }

  /** A version produced by applying the edits one at a time. */
  ghost predicate StepByStep(vs: seq<Version>, edits: seq<Edit>) {
    |vs| == |edits| + 1 && forall i :: 0 <= i < |edits| ==> Lists(vs[i + 1], ApplyEdit(SetsOf(vs[i]), edits[i]))
  }

  lemma ListsSets(v: Version, sets: LevelSets)
    requires Lists(v, sets)
    ensures SetsOf(v) == sets
  {
    forall l | 0 <= l < |v| ensures SetsOf(v)[l] == sets[l] { }
  }

  lemma {:induction false} StepsReplay(vs: seq<Version>, edits: seq<Edit>)
    requires StepByStep(vs, edits)
    ensures SetsOf(vs[|edits|]) == Replay(SetsOf(vs[0]), edits)
  {
    if edits != [] {
      var n := |edits| - 1;
      var prefix, es := vs[..|edits|], edits[..n];
      forall i | 0 <= i < n
        ensures Lists(prefix[i + 1], ApplyEdit(SetsOf(prefix[i]), es[i]))
      {
        assert Lists(vs[i + 1], ApplyEdit(SetsOf(vs[i]), edits[i]));
      }
      StepsReplay(prefix, es);
      assert Lists(vs[n + 1], ApplyEdit(SetsOf(vs[n]), edits[n]));
      ListsSets(vs[n + 1], ApplyEdit(SetsOf(vs[n]), edits[n]));
    }
  }

  /** Replaying a manifest in one builder gives the version that the edits built one at a time. */
  lemma ReplayEqualsSteps(vs: seq<Version>, edits: seq<Edit>, w: Version)
    requires StepByStep(vs, edits) && (forall l :: 0 <= l < |vs[0]| ==> SortedFiles(vs[0][l]))
    requires Lists(w, Replay(SetsOf(vs[0]), edits))
    ensures w == vs[|edits|]
  {
    StepsReplay(vs, edits);
    var last := vs[|edits|];
    if edits != [] {
      var n := |edits| - 1;
      assert Lists(vs[n + 1], ApplyEdit(SetsOf(vs[n]), edits[n]));
    }
    forall l | 0 <= l < |last|
      ensures SortedFiles(last[l]) && forall f :: f in last[l] <==> f in SetsOf(last)[l]
    {
    }
    ListsUnique(w, last, SetsOf(last));
  }
}
