// Where a compaction ends one output table and begins the next: ShouldStopBefore in db/version_set.cc and the size
// limit in DBImpl::DoCompactionWork of db/db_impl.cc.
module OutputCuts {
  import opened Basics
  import opened InternalKeys
  import opened ReadSpec
  import opened Versions
  import opened Picking

  // ---------------------------------------------------------------- grandparents passed

  /** How many of the grandparents, from the front, end before the key. */
  ghost function PassedBy(gp: seq<File>, k: Key): (n: nat)
    ensures n <= |gp| && (forall i :: 0 <= i < n ==> Less(gp[i].largest, k))
    ensures n < |gp| ==> AtMost(k, gp[n].largest)
  {
    if gp == [] || !Less(gp[0].largest, k) then 0 else 1 + PassedBy(gp[1..], k)
  }

  /** It is the number that ShouldStopBefore arrives at, wherever it starts. */
  lemma PassedIsUnique(gp: seq<File>, k: Key, n: nat)
    requires n <= |gp| && (forall i :: 0 <= i < n ==> Less(gp[i].largest, k))
    requires n < |gp| ==> AtMost(k, gp[n].largest)
    ensures n == PassedBy(gp, k)
  {
  }

  lemma PassedAscends(gp: seq<File>, a: Key, b: Key)
    requires Less(a, b)
    ensures PassedBy(gp, a) <= PassedBy(gp, b)
  {
    var n, p := PassedBy(gp, b), PassedBy(gp, a);
    assert p > 0 ==> Less(gp[p - 1].largest, b);
  }

  ghost function BytesBetween(gp: seq<File>, a: nat, b: nat): nat {
    if a <= b <= |gp| then TotalFileSize(gp[a..b]) else 0
  }

  lemma {:induction false} SizesAdd(x: seq<File>, y: seq<File>)
    ensures TotalFileSize(x + y) == TotalFileSize(x) + TotalFileSize(y)
  {
    if y == [] {
      assert x + y == x;
    } else {
      var n := |y| - 1;
      assert (x + y)[..|x| + n] == x + y[..n];
      SizesAdd(x, y[..n]);
    }
  }

  lemma BytesAdd(gp: seq<File>, a: nat, b: nat, c: nat)
    requires a <= b <= c <= |gp|
    ensures BytesBetween(gp, a, c) == BytesBetween(gp, a, b) + TotalFileSize(gp[b..c])
  {
    assert gp[a..c] == gp[a..b] + gp[b..c];
    SizesAdd(gp[a..b], gp[b..c]);
  }

  /** The entry since which bytes are counted when entry `i` comes: the last one an output was stopped before, if
      any. */
  ghost function Since(gp: seq<File>, limit: nat, m: seq<Entry>, i: nat): (s: nat)
    requires i <= |m|
    ensures s <= i && (i > 0 ==> s < i)
    decreases i, 0
  {
    if i == 0 then 0 else if StopsBefore(gp, limit, m, i - 1) then i - 1 else Since(gp, limit, m, i - 1)
  }

  /** More than `limit` bytes of grandparents have been passed since then. */
  ghost predicate StopsBefore(gp: seq<File>, limit: nat, m: seq<Entry>, i: nat)
    requires i < |m|
    decreases i, 1
  {
    BytesBetween(gp, PassedBy(gp, m[Since(gp, limit, m, i)].key), PassedBy(gp, m[i].key)) > limit
  }

  /** What ShouldStopBefore has counted when `i` entries have been seen. */
  ghost predicate Counted(gp: seq<File>, limit: nat, m: seq<Entry>, i: nat, index: nat, seen: bool, bytes: nat)
    requires i <= |m|
  {
    if i == 0 then index == 0 && !seen && bytes == 0
    else
      && index == PassedBy(gp, m[i - 1].key) && seen
      && bytes == BytesBetween(gp, PassedBy(gp, m[Since(gp, limit, m, i)].key), index)
  }

  /** Counting on to entry `i` tells whether to stop before it. */
  lemma CountOn(gp: seq<File>, limit: nat, m: seq<Entry>, i: nat, index: nat, seen: bool, bytes: nat, index': nat)
    requires i < |m| && Sorted(m) && Counted(gp, limit, m, i, index, seen, bytes) && index' == PassedBy(gp, m[i].key)
    ensures index <= index' <= |gp|
    ensures var passed := bytes + if seen then TotalFileSize(gp[index..index']) else 0;
            && (passed > limit <==> StopsBefore(gp, limit, m, i))
            && Counted(gp, limit, m, i + 1, index', true, if passed > limit then 0 else passed)
  {
    NoBytes(gp, index');
    if i > 0 {
      var s := Since(gp, limit, m, i);
      assert InOrder(m, i - 1, i) && InOrder(m, s, i - 1);
      PassedAscends(gp, m[i - 1].key, m[i].key);
      if s < i - 1 { PassedAscends(gp, m[s].key, m[i - 1].key); }
      BytesAdd(gp, PassedBy(gp, m[s].key), index, index');
    }
  }

  /** What a stop means: grandparents that end between two entries of the input, more than `limit` bytes of them. */
  lemma StopMeans(gp: seq<File>, limit: nat, m: seq<Entry>, i: nat) returns (s: nat, between: seq<File>)
    requires i < |m| && StopsBefore(gp, limit, m, i) && Disjoint(gp) && forall g :: g in gp ==> ValidFile(g)
    ensures s < i && TotalFileSize(between) > limit
    ensures forall g :: g in between ==> g in gp && AtMost(m[s].key, g.largest) && Less(g.largest, m[i].key)
  {
    s := Since(gp, limit, m, i);
    var a, b := PassedBy(gp, m[s].key), PassedBy(gp, m[i].key);
    between := gp[a..b];
    NoBytes(gp, a);
    forall g | g in between
      ensures g in gp && AtMost(m[s].key, g.largest) && Less(g.largest, m[i].key)
    {
      var k :| a <= k < b && gp[k] == g;
      if a < k {
        assert gp[a] in gp && EndsBefore(gp, a, k);
        assert g in gp && ValidFile(g);
        FileBounds(g, g.table[0]);
      }
    }
  }

  lemma NoBytes(gp: seq<File>, a: nat)
    ensures BytesBetween(gp, a, a) == 0
  {
  }

  /** Without grandparents nothing ever stops. */
  lemma NothingToPass(limit: nat, m: seq<Entry>, i: nat)
    requires i < |m|
    ensures !StopsBefore([], limit, m, i)
  {
  }

  // ---------------------------------------------------------------- the tables

  /** Finished tables and the one being built. */
  datatype Written = Written(closed: seq<seq<Entry>>, open: seq<Entry>)

  /** What decides the cuts: which entries are dropped, before which the output is stopped, and how large a table may
      get. */
  datatype Rules = Rules(drops: seq<bool>, stops: seq<bool>, fileSize: seq<Entry> -> nat, limit: nat)

  function Close(t: Written): Written {
    if t.open == [] then t else Written(t.closed + [t.open], [])
  }

  function Put(t: Written, e: Entry, r: Rules): Written {
    var grown := t.open + [e];
    if r.fileSize(grown) >= r.limit then Written(t.closed + [grown], []) else Written(t.closed, grown)
  }

  /** One entry: stop, then drop or put. */
  function Next(t: Written, e: Entry, drop: bool, stop: bool, r: Rules): Written {
    var t' := if stop then Close(t) else t;
    if drop then t' else Put(t', e, r)
  }

  function TablesAfter(m: seq<Entry>, r: Rules, i: nat): Written
    requires i <= |m| == |r.drops| == |r.stops|
  {
    if i == 0 then Written([], []) else Next(TablesAfter(m, r, i - 1), m[i - 1], r.drops[i - 1], r.stops[i - 1], r)
  }

  /** All tables of a compaction. */
  function AllTables(m: seq<Entry>, r: Rules): seq<seq<Entry>>
    requires |m| == |r.drops| == |r.stops|
  {
    Close(TablesAfter(m, r, |m|)).closed
  }

  // ---------------------------------------------------------------- every cut has a reason, and every reason a cut

  /** The output was stopped between these two keys. */
  ghost predicate StopBetween(m: seq<Entry>, r: Rules, a: Key, b: Key)
    requires |m| == |r.stops|
  {
    exists i :: 0 <= i < |m| && r.stops[i] && Less(a, m[i].key) && AtMost(m[i].key, b)
  }

  function Last(t: seq<Entry>): Key
    requires t != []
  {
    t[|t| - 1].key
  }

  /** Two tables are divided by the size limit or by a stop. */
  ghost predicate Reasoned(m: seq<Entry>, r: Rules, t: seq<Entry>, u: seq<Entry>)
    requires |m| == |r.stops| && t != [] && u != []
  {
    r.fileSize(t) >= r.limit || StopBetween(m, r, Last(t), u[0].key)
  }

  /** A table lies on one side of every stop. */
  ghost predicate Unstopped(m: seq<Entry>, r: Rules, t: seq<Entry>)
    requires |m| == |r.stops|
  {
    t != [] ==> !StopBetween(m, r, t[0].key, Last(t))
  }

  /** A table is closed as soon as it reaches the limit. */
  ghost predicate ClosedAtLimit(r: Rules, t: seq<Entry>) {
    forall n :: 0 < n < |t| ==> r.fileSize(t[..n]) < r.limit
  }

  ghost predicate TableOk(m: seq<Entry>, r: Rules, t: seq<Entry>)
    requires |m| == |r.stops|
  {
    t != [] && Unstopped(m, r, t) && ClosedAtLimit(r, t)
  }

  ghost predicate TablesOk(m: seq<Entry>, r: Rules, ts: seq<seq<Entry>>)
    requires |m| == |r.stops|
  {
    && (forall j :: 0 <= j < |ts| ==> TableOk(m, r, ts[j]))
    && forall j :: Divided(m, r, ts, j)
  }

  ghost predicate Divided(m: seq<Entry>, r: Rules, ts: seq<seq<Entry>>, j: int)
    requires |m| == |r.stops|
  {
    0 <= j < |ts| - 1 ==> ts[j] != [] && ts[j + 1] != [] && Reasoned(m, r, ts[j], ts[j + 1])
  }

  /** From the front to entry `i`: the next table may begin where the last one ended. */
  ghost predicate MayBegin(m: seq<Entry>, r: Rules, ts: seq<seq<Entry>>, i: nat)
    requires i <= |m| == |r.stops|
  {
    ts != [] && ts[|ts| - 1] != [] ==>
      var t := ts[|ts| - 1];
      r.fileSize(t) >= r.limit || exists k :: 0 <= k < i && r.stops[k] && Less(Last(t), m[k].key)
  }

  ghost predicate FromFront(m: seq<Entry>, i: nat, t: seq<Entry>)
    requires i <= |m|
  {
    forall e :: e in t ==> e in m[..i]
  }

  ghost predicate CutsOk(m: seq<Entry>, r: Rules, i: nat, t: Written)
    requires i <= |m| == |r.stops|
  {
    && TablesOk(m, r, t.closed + (if t.open == [] then [] else [t.open]))
    && (t.open != [] ==> r.fileSize(t.open) < r.limit) && (t.open == [] ==> MayBegin(m, r, t.closed, i))
    && OpenSince(m, r, t.open, i) && FromFront(m, i, t.open)
  }

  /** Nothing has stopped the output since the table being built was begun. */
  ghost predicate OpenSince(m: seq<Entry>, r: Rules, open: seq<Entry>, i: nat)
    requires i <= |m| == |r.stops|
  {
    open != [] ==> forall k :: 0 <= k < i && r.stops[k] ==> AtMost(m[k].key, open[0].key)
  }

  lemma InputAscends(m: seq<Entry>, i: nat, k: nat)
    requires Sorted(m) && i < |m| && k < |m|
    ensures Less(m[k].key, m[i].key) <==> k < i
    ensures AtMost(m[k].key, m[i].key) <==> k <= i
  {
    assert InOrder(m, i, k) && InOrder(m, k, i);
  }

  lemma EarlierIsLess(m: seq<Entry>, i: nat, e: Entry)
    requires Sorted(m) && i < |m| && e in m[..i]
    ensures Less(e.key, m[i].key)
  {
    var k :| 0 <= k < i && m[k] == e;
    InputAscends(m, i, k);
  }

  /** The last table so far, if any is open. */
  function Listed(t: Written): seq<seq<Entry>> {
    t.closed + if t.open == [] then [] else [t.open]
  }

  lemma CloseKeeps(m: seq<Entry>, r: Rules, i: nat, t: Written)
    requires i < |m| == |r.stops| && Sorted(m) && CutsOk(m, r, i, t) && r.stops[i]
    ensures TablesOk(m, r, Listed(Close(t))) && MayBegin(m, r, Close(t).closed, i + 1)
  {
    if t.open != [] {
      assert t.closed + [t.open] == Listed(t) == Listed(Close(t));
      var last := t.open[|t.open| - 1];
      EarlierIsLess(m, i, last);
    } else {
      assert Listed(Close(t)) == Listed(t);
      LaterMayBegin(m, r, t.closed, i);
    }
  }

  lemma LaterMayBegin(m: seq<Entry>, r: Rules, ts: seq<seq<Entry>>, i: nat)
    requires i < |m| == |r.stops| && MayBegin(m, r, ts, i)
    ensures MayBegin(m, r, ts, i + 1)
  {
  }

  /** The table that grows by entry `i`. */
  lemma GrownOk(m: seq<Entry>, r: Rules, i: nat, open: seq<Entry>)
    requires i < |m| == |r.stops| && Sorted(m)
    requires open != [] ==> TableOk(m, r, open) && r.fileSize(open) < r.limit && OpenSince(m, r, open, i) && !r.stops[i]
    ensures TableOk(m, r, open + [m[i]]) && OpenSince(m, r, open + [m[i]], i + 1)
  {
    var grown := open + [m[i]];
    forall n | 0 < n < |grown|
      ensures r.fileSize(grown[..n]) < r.limit
    {
      assert grown[..n] == open[..n];
      if n == |open| { assert open[..n] == open; }
    }
    forall k | 0 <= k < i + 1 && r.stops[k]
      ensures AtMost(m[k].key, grown[0].key)
    {
      if open == [] { InputAscends(m, i, k); }
    }
    forall k | 0 <= k < |m| && r.stops[k] && AtMost(m[k].key, m[i].key)
      ensures AtMost(m[k].key, grown[0].key)
    {
      InputAscends(m, i, k);
    }
  }

  /** The cut before a table that begins, or goes on, with entry `i`. */
  lemma GrownDivided(m: seq<Entry>, r: Rules, i: nat, closed: seq<seq<Entry>>, open: seq<Entry>, j: int)
    requires i < |m| == |r.stops| && Sorted(m)
    requires TablesOk(m, r, closed + if open == [] then [] else [open])
    requires open == [] ==> MayBegin(m, r, closed, i + 1)
    ensures Divided(m, r, closed + [open + [m[i]]], j)
  {
    var before, after := closed + (if open == [] then [] else [open]), closed + [open + [m[i]]];
    assert Divided(m, r, before, j);
    if 0 <= j < |after| - 1 {
      assert after[j] == closed[j] == before[j] && TableOk(m, r, before[j]);
      if j == |closed| - 1 && open == [] && r.fileSize(closed[j]) < r.limit {
        var k :| 0 <= k < i + 1 && r.stops[k] && Less(Last(closed[j]), m[k].key);
        InputAscends(m, i, k);
      }
    }
  }

  lemma PutKeeps(m: seq<Entry>, r: Rules, i: nat, t: Written)
    requires i < |m| == |r.stops| && Sorted(m) && TablesOk(m, r, Listed(t)) && FromFront(m, i, t.open)
    requires t.open == [] ==> MayBegin(m, r, t.closed, i + 1)
    requires t.open != [] ==> r.fileSize(t.open) < r.limit && OpenSince(m, r, t.open, i) && !r.stops[i]
    ensures CutsOk(m, r, i + 1, Put(t, m[i], r))
  {
    hide TableOk, Divided;
    var grown := t.open + [m[i]];
    var all := t.closed + [grown];
    if t.open != [] { assert Listed(t)[|t.closed|] == t.open; }
    GrownOk(m, r, i, t.open);
    forall j ensures Divided(m, r, all, j) { GrownDivided(m, r, i, t.closed, t.open, j); }
    forall j | 0 <= j < |all|
      ensures TableOk(m, r, all[j])
    {
      if j < |t.closed| { assert Listed(t)[j] == all[j]; }
    }
    assert m[..i + 1] == m[..i] + [m[i]];
    assert Listed(Put(t, m[i], r)) == all;
  }

  lemma NextKeeps(m: seq<Entry>, r: Rules, i: nat, t: Written)
    requires i < |m| == |r.stops| == |r.drops| && Sorted(m) && CutsOk(m, r, i, t)
    ensures CutsOk(m, r, i + 1, Next(t, m[i], r.drops[i], r.stops[i], r))
  {
    hide TablesOk;
    assert m[..i + 1] == m[..i] + [m[i]];
    if r.stops[i] {
      CloseKeeps(m, r, i, t);
    } else if t.open == [] {
      LaterMayBegin(m, r, t.closed, i);
    }
    if !r.drops[i] {
      PutKeeps(m, r, i, if r.stops[i] then Close(t) else t);
    }
  }

  lemma {:induction false} CutsKeep(m: seq<Entry>, r: Rules, i: nat)
    requires i <= |m| == |r.stops| == |r.drops| && Sorted(m)
    ensures CutsOk(m, r, i, TablesAfter(m, r, i))
  {
    if i > 0 {
      CutsKeep(m, r, i - 1);
      NextKeeps(m, r, i - 1, TablesAfter(m, r, i - 1));
    }
  }

  /** Two tables are divided only where the first one reached the size limit or the output was stopped between them; no
      table goes on past the limit or across a stop. */
  lemma EveryCutHasReason(m: seq<Entry>, r: Rules)
    requires |m| == |r.stops| == |r.drops| && Sorted(m)
    ensures TablesOk(m, r, AllTables(m, r))
  {
    CutsKeep(m, r, |m|);
    var t := TablesAfter(m, r, |m|);
    assert AllTables(m, r) == Listed(t);
  }

  /** Where nothing stops the output, every table but the last reached the limit. */
  lemma OnlyTheLimitCuts(m: seq<Entry>, r: Rules, j: nat)
    requires |m| == |r.stops| == |r.drops| && Sorted(m) && (forall i :: 0 <= i < |m| ==> !r.stops[i])
    requires j < |AllTables(m, r)| - 1
    ensures r.fileSize(AllTables(m, r)[j]) >= r.limit
  {
    EveryCutHasReason(m, r);
    assert Divided(m, r, AllTables(m, r), j);
  }
}
