// The level structure of a Version and lookups in it: db/version_set.cc.
module Versions {
  import opened Basics
  import opened InternalKeys
  import opened ReadSpec

  const NUM_LEVELS := 7

  /** FileMetaData together with the contents of the table file it names. */
  datatype File = File(number: nat, size: nat, smallest: Key, largest: Key, table: seq<Entry>)

  /** files_[level] for every level. */
  type Version = seq<seq<File>>

  ghost predicate ValidFile(f: File) {
    && |f.table| > 0 && Sorted(f.table)
    && f.smallest == f.table[0].key
    && f.largest == f.table[|f.table| - 1].key
  }

  lemma FileBounds(f: File, e: Entry)
    requires ValidFile(f) && e in f.table
    ensures AtMost(f.smallest, e.key) && AtMost(e.key, f.largest)
  {
    var i :| 0 <= i < |f.table| && f.table[i] == e;
    assert InOrder(f.table, 0, i) && InOrder(f.table, i, |f.table| - 1);
  }

  /** Builder::BySmallestKey. */
  predicate BySmallest(f: File, g: File) {
    Less(f.smallest, g.smallest) || (f.smallest == g.smallest && f.number < g.number)
  }

  ghost predicate SortedFiles(fs: seq<File>) {
    forall i, j {:trigger BySmallest(fs[i], fs[j])} :: 0 <= i < j < |fs| ==> BySmallest(fs[i], fs[j])
  }

  ghost predicate Apart(f: File, g: File) {
    Less(f.largest, g.smallest) || Less(g.largest, f.smallest)
  }

  /** Whatever user key the two files share, `f` holds the newer entries. */
  ghost predicate Newer(f: File, g: File) {
    forall a, b :: a in f.table && b in g.table && a.key.user == b.key.user ==> a.key.sn > b.key.sn
  }

  ghost function LevelEntries(fs: seq<File>): set<Entry> {
    set f, e | f in fs && e in f.table :: e
  }

  ghost function Entries(v: Version): set<Entry> {
    set l, f, e | 0 <= l < |v| && f in v[l] && e in f.table :: e
  }

  /** Level-0 files may overlap; the higher-numbered one is the newer. */
  ghost predicate NewestByNumber(fs: seq<File>) {
    forall f, g {:trigger Newer(f, g)} :: f in fs && g in fs && f.number > g.number ==> Newer(f, g)
  }

  ghost predicate ValidLevel(v: Version, l: int) {
    0 <= l < |v| ==>
      && (forall f :: f in v[l] ==> ValidFile(f))
      && SortedFiles(v[l])
      && if l == 0 then NewestByNumber(v[0]) else Disjoint(v[l])
  }

  ghost predicate LevelNewer(v: Version, l: int, m: int) {
    0 <= l < m < |v| ==> forall f, g {:trigger Newer(f, g)} :: f in v[l] && g in v[m] ==> Newer(f, g)
  }

  ghost predicate NumbersDiffer(v: Version, l: int, m: int) {
    0 <= l < |v| && 0 <= m < |v| ==>
      forall f, g :: f in v[l] && g in v[m] && f.number == g.number ==> l == m && f == g
  }

  /** The invariant of every version the database installs. */
  ghost predicate ValidVersion(v: Version) {
    && |v| == NUM_LEVELS
    && (forall l :: ValidLevel(v, l))
    && (forall l, m :: LevelNewer(v, l, m))
    && (forall l, m :: NumbersDiffer(v, l, m))
    && Unique(Entries(v))
  }

  ghost predicate EndsBefore(fs: seq<File>, i: int, j: int) {
    0 <= i < j < |fs| ==> Less(fs[i].largest, fs[j].smallest)
  }

  /** A level > 0 in order: no two files overlap by internal key. */
  ghost predicate Disjoint(fs: seq<File>) {
    forall i, j :: EndsBefore(fs, i, j)
  }

  lemma SortedApartIsDisjoint(fs: seq<File>)
    requires SortedFiles(fs) && forall f :: f in fs ==> ValidFile(f)
    requires forall f, g {:trigger Apart(f, g)} :: f in fs && g in fs && f != g ==> Apart(f, g)
    ensures Disjoint(fs)
  {
    forall i, j | 0 <= i < j < |fs|
      ensures EndsBefore(fs, i, j)
    {
      var f, g := fs[i], fs[j];
      assert f in fs && g in fs && BySmallest(f, g) && f != g && Apart(f, g);
      FileBounds(f, f.table[0]);
      FileBounds(g, g.table[0]);
    }
  }

  /** FindFile: the earliest file whose largest key is at or after `key`. */
  method FindFile(files: seq<File>, key: Key) returns (right: nat)
    requires Disjoint(files)
    requires forall f :: f in files ==> ValidFile(f)
    ensures right <= |files|
    ensures forall j :: 0 <= j < right ==> Less(files[j].largest, key)
    ensures forall j :: right <= j < |files| ==> !Less(files[j].largest, key)
  {
    var left := 0;
    right := |files|;
    while left < right
      invariant 0 <= left <= right <= |files|
      invariant forall j :: 0 <= j < left ==> Less(files[j].largest, key)
      invariant forall j :: right <= j < |files| ==> !Less(files[j].largest, key)
    {
      var mid := (left + right) / 2;
      LargestIncreasing(files, mid);
      if Less(files[mid].largest, key) {
        left := mid + 1;
      } else {
        right := mid;
      }
    }
  }

  lemma LargestIncreasing(files: seq<File>, mid: nat)
    requires Disjoint(files) && mid < |files|
    requires forall f :: f in files ==> ValidFile(f)
    ensures forall j :: 0 <= j < mid ==> Less(files[j].largest, files[mid].largest)
    ensures forall j :: mid < j < |files| ==> Less(files[mid].largest, files[j].largest)
  {
    forall j | 0 <= j < |files|
      ensures j < mid ==> Less(files[j].largest, files[mid].largest)
      ensures mid < j ==> Less(files[mid].largest, files[j].largest)
    {
      assert files[j] in files && files[mid] in files;
      FileBounds(files[j], files[j].table[0]);
      FileBounds(files[mid], files[mid].table[0]);
      assert EndsBefore(files, j, mid) && EndsBefore(files, mid, j);
    }
  }

  /** Table::InternalGet followed by SaveValue: the entry the saver accepts, if any. */
  function TableGet(f: File, u: UserKey, s: SequenceNumber): (r: Option<Entry>)
    requires ValidFile(f)
    ensures r.Some? ==> Newest(LevelEntries([f]), u, s, r.value)
    ensures r.None? ==> NoneVisible(LevelEntries([f]), u, s)
  {
    SeekFindsNewest(f.table, u, s);
    assert LevelEntries([f]) == set e | e in f.table by {
      assert f in [f];
    }
    var i := LowerBound(f.table, SeekKey(u, s));
    if i < |f.table| && f.table[i].key.user == u then Some(f.table[i]) else None
  }

  ghost predicate NewestFirst(files: seq<File>) {
    forall i, j :: 0 <= i < j < |files| ==> files[i].number >= files[j].number
  }

  lemma InsertKeepsOrder(files: seq<File>, k: nat, f: File)
    requires NewestFirst(files) && k <= |files|
    requires (forall j :: 0 <= j < k ==> files[j].number >= f.number) && (k < |files| ==> files[k].number < f.number)
    ensures var r := files[..k] + [f] + files[k..];
            NewestFirst(r) && forall g :: g in r <==> g in files || g == f
  {
    assert files == files[..k] + files[k..];
  }

  method SortNewestFirst(files: seq<File>) returns (r: seq<File>)
    ensures |r| == |files| && NewestFirst(r) && forall f :: f in r <==> f in files
  {
    r := [];
    for i := 0 to |files|
      invariant |r| == i && NewestFirst(r) && forall f :: f in r <==> f in files[..i]
    {
      var k := 0;
      while k < |r| && r[k].number >= files[i].number
        invariant 0 <= k <= |r|
        invariant forall j :: 0 <= j < k ==> r[j].number >= files[i].number
      {
        k := k + 1;
      }
      InsertKeepsOrder(r, k, files[i]);
      r := r[..k] + [files[i]] + r[k..];
      assert files[..i + 1] == files[..i] + [files[i]];
    }
    assert files[..|files|] == files;
  }

  predicate InUserRange(f: File, u: UserKey) {
    f.smallest.user <= u <= f.largest.user
  }

  lemma OutsideUserRange(f: File, u: UserKey, e: Entry)
    requires ValidFile(f) && e in f.table && !InUserRange(f, u)
    ensures e.key.user != u
  {
    FileBounds(f, e);
  }

  ghost function ShallowEntries(v: Version, l: nat): set<Entry>
    requires l <= |v|
  {
    set k, f, e | 0 <= k < l && f in v[k] && e in f.table :: e
  }

  /** The newest entry of a level is the newest entry of the version once every shallower level has none. */
  lemma LevelDecides(v: Version, l: nat, u: UserKey, s: SequenceNumber, e: Entry)
    requires ValidVersion(v) && l < NUM_LEVELS
    requires NoneVisible(ShallowEntries(v, l), u, s)
    requires Newest(LevelEntries(v[l]), u, s, e)
    ensures Read(Entries(v), u, s) == Answer(e)
  {
    var f :| f in v[l] && e in f.table;
    assert f in v[l];
    var shallow := ShallowEntries(v, l);
    forall d | d in Entries(v) && d.key.user == u && d.key.sn <= s
      ensures d.key.sn <= e.key.sn
    {
      var m, g :| 0 <= m < |v| && g in v[m] && d in g.table;
      assert m < l ==> d in shallow;
      if m == l {
        assert d in LevelEntries(v[l]);
      } else {
        assert LevelNewer(v, l, m) && Newer(f, g);
      }
    }
    ReadNewest(Entries(v), u, s, e);
  }

  /** ForEachOverlapping on level 0 with Version::Get's Match: newest file first, stop at the first hit. */
  method GetInLevelZero(v: Version, u: UserKey, s: SequenceNumber) returns (r: Option<Entry>)
    requires ValidVersion(v)
    ensures r.Some? ==> Newest(LevelEntries(v[0]), u, s, r.value)
    ensures r.None? ==> NoneVisible(LevelEntries(v[0]), u, s)
  {
    assert ValidLevel(v, 0) && NumbersDiffer(v, 0, 0);
    var tmp: seq<File> := [];
    for i := 0 to |v[0]|
      invariant forall f :: f in tmp <==> f in v[0][..i] && InUserRange(f, u)
    {
      if InUserRange(v[0][i], u) {
        tmp := tmp + [v[0][i]];
      }
      assert v[0][..i + 1] == v[0][..i] + [v[0][i]];
    }
    assert v[0][..|v[0]|] == v[0];
    tmp := SortNewestFirst(tmp);
    for i := 0 to |tmp|
      invariant forall j, e :: 0 <= j < i && e in tmp[j].table && e.key.user == u ==> e.key.sn > s
    {
      assert tmp[i] in tmp;
      r := TableGet(tmp[i], u, s);
      if r.Some? {
        FirstHitIsNewest(v[0], tmp, i, u, s, r.value);
        return;
      }
      forall e | e in tmp[i].table && e.key.user == u
        ensures e.key.sn > s
      {
        assert tmp[i] in [tmp[i]] && e in LevelEntries([tmp[i]]);
      }
    }
    forall e | e in LevelEntries(v[0]) && e.key.user == u
      ensures e.key.sn > s
    {
      var f :| f in v[0] && e in f.table;
      if !InUserRange(f, u) { OutsideUserRange(f, u, e); }
      var j :| 0 <= j < |tmp| && tmp[j] == f;
    }
    r := None;
  }

  lemma FirstHitIsNewest(fs: seq<File>, tmp: seq<File>, i: nat, u: UserKey, s: SequenceNumber, e: Entry)
    requires forall f :: f in fs ==> ValidFile(f)
    requires NewestByNumber(fs)
    requires forall f, g :: f in fs && g in fs && f.number == g.number ==> f == g
    requires forall f :: f in tmp <==> f in fs && InUserRange(f, u)
    requires NewestFirst(tmp) && i < |tmp| && Newest(LevelEntries([tmp[i]]), u, s, e)
    requires forall j, d :: 0 <= j < i && d in tmp[j].table && d.key.user == u ==> d.key.sn > s
    ensures Newest(LevelEntries(fs), u, s, e)
  {
    assert e in tmp[i].table && tmp[i] in tmp;
    forall d | d in LevelEntries(fs) && d.key.user == u && d.key.sn <= s
      ensures d.key.sn <= e.key.sn
    {
      var f :| f in fs && d in f.table;
      if !InUserRange(f, u) { OutsideUserRange(f, u, d); }
      var j :| 0 <= j < |tmp| && tmp[j] == f;
      if f == tmp[i] {
        assert f in [tmp[i]] && d in LevelEntries([tmp[i]]);
      } else {
        assert j > i && Newer(tmp[i], f);
      }
    }
  }

  /** ForEachOverlapping on one level > 0: only the file FindFile points at is searched. */
  method GetInLevel(v: Version, l: nat, u: UserKey, s: SequenceNumber) returns (r: Option<Entry>)
    requires ValidVersion(v) && 1 <= l < NUM_LEVELS
    ensures r.Some? ==> Newest(LevelEntries(v[l]), u, s, r.value)
    ensures r.None? ==> NoneVisible(LevelEntries(v[l]), u, s)
  {
    assert ValidLevel(v, l);
    var index := FindFile(v[l], SeekKey(u, s));
    if index < |v[l]| && u >= v[l][index].smallest.user {
      r := TableGet(v[l][index], u, s);
    } else {
      r := None;
    }
    OneFileIsEnough(v[l], index, u, s);
  }

  lemma OneFileIsEnough(fs: seq<File>, index: nat, u: UserKey, s: SequenceNumber)
    requires Disjoint(fs) && index <= |fs|
    requires forall f :: f in fs ==> ValidFile(f)
    requires forall j :: 0 <= j < index ==> Less(fs[j].largest, SeekKey(u, s))
    requires forall j :: index <= j < |fs| ==> !Less(fs[j].largest, SeekKey(u, s))
    ensures index == |fs| || u < fs[index].smallest.user ==> NoneVisible(LevelEntries(fs), u, s)
    ensures index < |fs| && NoneVisible(LevelEntries([fs[index]]), u, s) ==> NoneVisible(LevelEntries(fs), u, s)
    ensures index < |fs| ==> forall e :: Newest(LevelEntries([fs[index]]), u, s, e) ==>
            Newest(LevelEntries(fs), u, s, e)
  {
    forall d | d in LevelEntries(fs) && d.key.user == u && d.key.sn <= s
      ensures index < |fs| && u >= fs[index].smallest.user
      ensures exists c :: c in LevelEntries([fs[index]]) && c.key.user == u && c.key.sn <= s
      ensures forall e :: Newest(LevelEntries([fs[index]]), u, s, e) ==> d.key.sn <= e.key.sn
    {
      var j :| 0 <= j < |fs| && d in fs[j].table;
      assert fs[j] in fs;
      FileBounds(fs[j], d);
      assert j >= index;
      var g := fs[index];
      assert g in fs && g in [g];
      FileBounds(g, g.table[0]);
      var last := g.table[|g.table| - 1];
      assert last in g.table && last in LevelEntries([g]);
      if j > index {
        assert EndsBefore(fs, index, j);
        assert last.key.user == u && last.key.sn <= s;
        forall e | Newest(LevelEntries([g]), u, s, e)
          ensures d.key.sn <= e.key.sn
        {
          FileBounds(g, e);
        }
      } else {
        assert d in LevelEntries([g]);
      }
    }
    if index < |fs| {
      assert fs[index] in fs;
      forall e | e in LevelEntries([fs[index]])
        ensures e in LevelEntries(fs)
      {
      }
    }
  }

  /** Version::Get. */
  method Get(v: Version, u: UserKey, s: SequenceNumber) returns (r: Option<Bytes>)
    requires ValidVersion(v)
    ensures r == Read(Entries(v), u, s)
    ensures NoneVisible(Entries(v), u, s) ==> r == None
  {
    var hit := GetInLevelZero(v, u, s);
    if hit.Some? {
      LevelDecides(v, 0, u, s, hit.value);
      return Answer(hit.value);
    }
    for level := 1 to NUM_LEVELS
      invariant NoneVisible(ShallowEntries(v, level), u, s)
    {
      hit := GetInLevel(v, level, u, s);
      if hit.Some? {
        LevelDecides(v, level, u, s, hit.value);
        return Answer(hit.value);
      }
      forall e | e in ShallowEntries(v, level + 1) && e.key.user == u
        ensures e.key.sn > s
      {
        var k, f :| 0 <= k < level + 1 && f in v[k] && e in f.table;
        assert k < level ==> e in ShallowEntries(v, level);
        assert k == level ==> e in LevelEntries(v[level]);
      }
    }
    r := None;
    assert ShallowEntries(v, NUM_LEVELS) == Entries(v);
    ReadNothing(Entries(v), u, s);
  }
}
