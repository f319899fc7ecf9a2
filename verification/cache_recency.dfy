// Why the cache in util/cache.cc is a least-recently-used one: over any run of its operations, the unused entries are
// listed by the time of their last release.
module CacheRecency {
  import opened Basics
  import opened LruCaches

  datatype Op = LookupOp(key: Bytes) | ReleaseOp(h: nat) | EraseOp(key: Bytes) | InsertOp(key: Bytes, charge: nat)
    | PruneOp

  /** What an operation does to the cache; a handle is released by a client that holds it. */
  ghost predicate Does(op: Op, s: State, t: State, capacity: nat) {
    match op
    case LookupOp(key) => |s.entries| == |s.clients| && t == AfterLookup(s, key)
    case ReleaseOp(h) =>
      && h < |s.entries| == |s.clients| && s.clients[h] > 0 && s.entries[h].refs > 0 && t == AfterRelease(s, h)
    case EraseOp(key) => t == AfterErase(s, key)
    case InsertOp(key, charge) =>
      MadeRoom(AfterPut(s, key, charge, capacity), t, capacity) && (t.usage <= capacity || t.lru == [])
    case PruneOp => t == Evicted(s, |s.lru|)
  }

  ghost predicate Step(ops: seq<Op>, states: seq<State>, capacity: nat, i: int) {
    0 <= i < |ops| && i + 1 < |states| ==> Does(ops[i], states[i], states[i + 1], capacity)
  }

  /** The states of a cache that starts empty. */
  ghost predicate Run(ops: seq<Op>, states: seq<State>, capacity: nat) {
    && |states| == |ops| + 1 && states[0] == State([], [], [], map[], 0, [], [])
    && forall i :: Step(ops, states, capacity, i)
  }

  /** When a handle was last released: the number of operations up to that one, or 0. */
  function LastReleased(ops: seq<Op>, h: nat, n: nat): (t: nat)
    requires n <= |ops|
    ensures t <= n && (t > 0 ==> ops[t - 1] == ReleaseOp(h))
    ensures forall i :: t <= i < n ==> ops[i] != ReleaseOp(h)
  {
    if n == 0 then 0 else if ops[n - 1] == ReleaseOp(h) then n else LastReleased(ops, h, n - 1)
  }

  ghost predicate InTurn(ops: seq<Op>, n: nat, l: seq<nat>, i: int, j: int)
    requires n <= |ops|
  {
    0 <= i < j < |l| ==> LastReleased(ops, l[i], n) < LastReleased(ops, l[j], n)
  }

  /** Listed by the time of their last release. */
  ghost predicate ByRelease(ops: seq<Op>, n: nat, l: seq<nat>)
    requires n <= |ops|
  {
    forall i, j :: InTurn(ops, n, l, i, j)
  }

  lemma TakenOut(ops: seq<Op>, n: nat, l: seq<nat>, h: nat)
    requires n <= |ops| && ByRelease(ops, n, l)
    ensures ByRelease(ops, n, Without(l, h))
  {
    if h in l {
      var k := First(l, h);
      WithoutSlices(l, h, k);
      forall i, j
        ensures InTurn(ops, n, Without(l, h), i, j)
      {
        assert InTurn(ops, n, l, if i < k then i else i + 1, if j < k then j else j + 1);
      }
    } else {
      WithoutAbsent(l, h);
    }
  }

  function First(l: seq<nat>, h: nat): (k: nat)
    requires h in l
    ensures k < |l| && l[k] == h && forall j :: 0 <= j < k ==> l[j] != h
  {
    if l[0] == h then 0 else 1 + First(l[1..], h)
  }

  lemma DroppedInFront(ops: seq<Op>, n: nat, l: seq<nat>, m: nat)
    requires n <= |ops| && ByRelease(ops, n, l) && m <= |l|
    ensures ByRelease(ops, n, l[m..])
    ensures forall x, y :: x in l[..m] && y in l[m..] ==> LastReleased(ops, x, n) < LastReleased(ops, y, n)
  {
    forall i, j ensures InTurn(ops, n, l[m..], i, j) { assert InTurn(ops, n, l, m + i, m + j); }
    forall x, y | x in l[..m] && y in l[m..]
      ensures LastReleased(ops, x, n) < LastReleased(ops, y, n)
    {
      var i, j :| 0 <= i < m <= j < |l| && l[i] == x && l[j] == y;
      assert InTurn(ops, n, l, i, j);
    }
  }

  /** One operation later: nobody listed was released, but for the one now last. */
  lemma LaterByRelease(ops: seq<Op>, n: nat, l: seq<nat>)
    requires n < |ops| && ByRelease(ops, n, l) && forall h :: h in l ==> ops[n] != ReleaseOp(h)
    ensures ByRelease(ops, n + 1, l)
    ensures ops[n].ReleaseOp? ==> ByRelease(ops, n + 1, l + [ops[n].h])
  {
    var next := n + 1;
    forall i, j
      ensures InTurn(ops, next, l, i, j)
    {
      assert InTurn(ops, n, l, i, j);
      if 0 <= i < j < |l| { assert l[i] in l && l[j] in l; }
    }
    if ops[n].ReleaseOp? {
      var l' := l + [ops[n].h];
      forall i, j
        ensures InTurn(ops, next, l', i, j)
      {
        assert InTurn(ops, next, l, i, j);
        if 0 <= i < |l| { assert l[i] in l; }
      }
    }
  }

  lemma PutOrder(ops: seq<Op>, n: nat, s: State, key: Bytes, charge: nat, capacity: nat)
    requires n <= |ops| && Ok(s) && ByRelease(ops, n, s.lru)
    ensures ByRelease(ops, n, AfterPut(s, key, charge, capacity).lru)
    ensures forall x :: x in s.lru && x < |s.entries| && s.entries[x].key != key ==>
              x in AfterPut(s, key, charge, capacity).lru
  {
    if capacity > 0 && key in s.table {
      EraseOrder(s, key);
      assert Found(s, key);
      TakenOut(ops, n, s.lru, s.table[key]);
      WithoutMembers(s.lru, s.table[key]);
    }
  }

  lemma EvictedOrder(ops: seq<Op>, n: nat, s: State, m: nat)
    requires n <= |ops| && Ok(s) && ByRelease(ops, n, s.lru) && m <= |s.lru|
    ensures Ok(Evicted(s, m)) && ByRelease(ops, n, Evicted(s, m).lru)
    ensures forall x, y :: x in s.lru && x !in Evicted(s, m).lru && y in Evicted(s, m).lru ==>
              LastReleased(ops, x, n) < LastReleased(ops, y, n)
  {
    hide Ok, ByRelease;
    EvictKeepsOk(s, m);
    DroppedInFront(ops, n, s.lru, m);
    assert s.lru == s.lru[..m] + s.lru[m..];
  }

  /** What an insertion evicts was released before everything unused that it keeps. */
  lemma EvictsInTurn(ops: seq<Op>, n: nat, s: State, t: State, key: Bytes, charge: nat, capacity: nat)
    requires n <= |ops| && Ok(s) && ByRelease(ops, n, s.lru) && Does(InsertOp(key, charge), s, t, capacity)
    ensures Ok(t) && ByRelease(ops, n, t.lru)
    ensures forall x, y :: x in s.lru && x < |s.entries| && s.entries[x].key != key && x !in t.lru && y in t.lru ==>
              LastReleased(ops, x, n) < LastReleased(ops, y, n)
  {
    hide Ok, ByRelease, AfterPut, Evicted, Over, LastReleased;
    var put := AfterPut(s, key, charge, capacity);
    PutKeepsOk(s, key, charge, capacity);
    PutOrder(ops, n, s, key, charge, capacity);
    if t != put {
      var m :| 0 <= m < |put.lru| && Over(put, m, capacity) && t == Evicted(put, m + 1);
      EvictedOrder(ops, n, put, m + 1);
    }
  }

  lemma StepByRelease(ops: seq<Op>, n: nat, s: State, t: State, capacity: nat)
    requires n < |ops| && Ok(s) && ByRelease(ops, n, s.lru) && Does(ops[n], s, t, capacity)
    ensures Ok(t) && ByRelease(ops, n + 1, t.lru)
  {
    hide Ok, ByRelease;
    match ops[n]
    case LookupOp(key) =>
      RefKeepsOk(s, key);
      LookupOrder(s, key);
      if key in s.table { TakenOut(ops, n, s.lru, s.table[key]); }
      LaterByRelease(ops, n, t.lru);
    case ReleaseOp(h) =>
      HasHandle(s);
      ReleaseKeepsOk(s, h);
      ReleaseOrder(s, h);
      LaterByRelease(ops, n, s.lru);
      assert s.lru + [] == s.lru;
    case EraseOp(key) =>
      EraseKeepsOk(s, key);
      EraseOrder(s, key);
      if key in s.table { TakenOut(ops, n, s.lru, s.table[key]); }
      LaterByRelease(ops, n, t.lru);
    case InsertOp(key, charge) =>
      EvictsInTurn(ops, n, s, t, key, charge, capacity);
      LaterByRelease(ops, n, t.lru);
    case PruneOp =>
      EvictKeepsOk(s, |s.lru|);
      DroppedInFront(ops, n, s.lru, |s.lru|);
      LaterByRelease(ops, n, t.lru);
  }

  lemma HasHandle(s: State)
    requires Ok(s)
    ensures |s.entries| == |s.clients|
  {
  }

  lemma EmptyOk()
    ensures Ok(State([], [], [], map[], 0, [], []))
  {
  }

  /** At every point of a run the unused entries are listed by the time of their last release. */
  lemma {:induction false} UnusedByRelease(ops: seq<Op>, states: seq<State>, capacity: nat, n: nat)
    requires Run(ops, states, capacity) && n <= |ops|
    ensures Ok(states[n]) && ByRelease(ops, n, states[n].lru)
  {
    if n == 0 {
      EmptyOk();
    } else {
      UnusedByRelease(ops, states, capacity, n - 1);
      assert Step(ops, states, capacity, n - 1);
      StepByRelease(ops, n - 1, states[n - 1], states[n], capacity);
    }
  }

  /** At every insertion of a run: an unused entry that is evicted was last released before every one that stays. */
  lemma EvictsLeastRecentlyUsed(ops: seq<Op>, states: seq<State>, capacity: nat, n: nat, x: nat, y: nat)
    requires Run(ops, states, capacity) && n < |ops| && ops[n].InsertOp?
    requires x in states[n].lru && x < |states[n].entries| && states[n].entries[x].key != ops[n].key
    requires x !in states[n + 1].lru && y in states[n + 1].lru
    ensures LastReleased(ops, x, n) < LastReleased(ops, y, n)
  {
    UnusedByRelease(ops, states, capacity, n);
    assert Step(ops, states, capacity, n);
    EvictsInTurn(ops, n, states[n], states[n + 1], ops[n].key, ops[n].charge, capacity);
  }
}
