// One shard of the block and table cache: LRUCache in util/cache.cc.
module LruCaches {
  import opened Basics
  import opened HandleTables

  /** What a handle points to.  Handles are numbered in the order they are made. */
  datatype Entry = Entry(key: Bytes, charge: nat, inCache: bool, refs: nat)

  /** The whole cache: entries by handle, both lists oldest first, the hash table, the sum of charges, how many
      references clients hold on each handle, and the handles whose deleter has run, in order. */
  datatype State = State(entries: seq<Entry>, lru: seq<nat>, inUse: seq<nat>, table: map<Bytes, nat>, usage: int,
                         clients: seq<nat>, deleted: seq<nat>)

  // ---------------------------------------------------------------- lists of handles

  ghost predicate Distinct(s: seq<nat>) {
    forall i, j :: 0 <= i < j < |s| ==> s[i] != s[j]
  }

  /** LRU_Remove. */
  function Without(s: seq<nat>, h: nat): seq<nat> {
    if s == [] then [] else if s[0] == h then s[1..] else [s[0]] + Without(s[1..], h)
  }

  lemma {:induction false} WithoutMembers(s: seq<nat>, h: nat)
    requires Distinct(s)
    ensures Distinct(Without(s, h)) && forall x :: x in Without(s, h) <==> x in s && x != h
  {
    if s != [] {
      WithoutMembers(s[1..], h);
      assert s == [s[0]] + s[1..];
      assert s[0] !in s[1..];
    }
  }

  lemma {:induction false} WithoutAbsent(s: seq<nat>, h: nat)
    requires h !in s
    ensures Without(s, h) == s
  {
    if s != [] { WithoutAbsent(s[1..], h); }
  }

  function Charge(entries: seq<Entry>, h: nat): nat {
    if h < |entries| then entries[h].charge else 0
  }

  /** The sum of the charges of some handles. */
  function Total(entries: seq<Entry>, s: seq<nat>): nat {
    if s == [] then 0 else Charge(entries, s[0]) + Total(entries, s[1..])
  }

  lemma {:induction false} TotalWithout(entries: seq<Entry>, s: seq<nat>, h: nat)
    ensures Total(entries, Without(s, h)) == Total(entries, s) - if h in s then Charge(entries, h) else 0
  {
    if s != [] && s[0] != h {
      TotalWithout(entries, s[1..], h);
      var rest := [s[0]] + Without(s[1..], h);
      assert rest[1..] == Without(s[1..], h);
    }
  }

  lemma {:induction false} TotalAppend(entries: seq<Entry>, s: seq<nat>, h: nat)
    ensures Total(entries, s + [h]) == Total(entries, s) + Charge(entries, h)
  {
    if s != [] {
      assert (s + [h])[1..] == s[1..] + [h];
      TotalAppend(entries, s[1..], h);
    }
  }

  lemma {:induction false} TotalSame(entries: seq<Entry>, entries': seq<Entry>, s: seq<nat>)
    requires forall h :: h in s ==> Charge(entries, h) == Charge(entries', h)
    ensures Total(entries, s) == Total(entries', s)
  {
    if s != [] { TotalSame(entries, entries', s[1..]); }
  }

  // ---------------------------------------------------------------- the invariant

  /** A handle counts its clients and the cache; it is in the list its references call for; its deleter has run once no
      references are left; and in the cache, it is what its key leads to. */
  ghost predicate HandleOk(s: State, h: nat)
    requires h < |s.entries| == |s.clients|
  {
    var e := s.entries[h];
    && e.refs == s.clients[h] + (if e.inCache then 1 else 0)
    && (h in s.lru <==> e.inCache && e.refs == 1)
    && (h in s.inUse <==> e.inCache && e.refs >= 2)
    && (h in s.deleted <==> e.refs == 0)
    && (e.inCache ==> e.key in s.table && s.table[e.key] == h)
  }

  ghost predicate Known(s: State, l: seq<nat>) {
    Distinct(l) && forall h :: h in l ==> h < |s.entries|
  }

  ghost predicate Found(s: State, key: Bytes) {
    key in s.table ==>
      s.table[key] < |s.entries| && s.entries[s.table[key]].inCache && s.entries[s.table[key]].key == key
  }

  ghost predicate Ok(s: State) {
    && |s.entries| == |s.clients| && Known(s, s.lru) && Known(s, s.inUse) && Known(s, s.deleted)
    && (forall h :: 0 <= h < |s.entries| ==> HandleOk(s, h))
    && (forall k :: Found(s, k))
    && s.usage == Total(s.entries, s.lru) + Total(s.entries, s.inUse)
  }

  // ---------------------------------------------------------------- what the operations do

  function Ref(s: State, h: nat): State
    requires h < |s.entries|
  {
    var e := s.entries[h];
    var moved := if e.refs == 1 && e.inCache then s.(lru := Without(s.lru, h), inUse := s.inUse + [h]) else s;
    moved.(entries := s.entries[h := e.(refs := e.refs + 1)])
  }

  function Unref(s: State, h: nat): State
    requires h < |s.entries| && s.entries[h].refs > 0
  {
    var e := s.entries[h].(refs := s.entries[h].refs - 1);
    var s1 := s.(entries := s.entries[h := e]);
    if e.refs == 0 then s1.(deleted := s.deleted + [h])
    else if e.inCache && e.refs == 1 then s1.(inUse := Without(s.inUse, h), lru := s.lru + [h])
    else s1
  }

  /** FinishErase: a handle already out of the hash table leaves the cache. */
  function FinishErase(s: State, h: nat): State
    requires h < |s.entries| && s.entries[h].refs > 0
  {
    var e := s.entries[h];
    Unref(s.(lru := Without(s.lru, h), inUse := Without(s.inUse, h), entries := s.entries[h := e.(inCache := false)],
             usage := s.usage - e.charge), h)
  }

  /** The client's side of Lookup. */
  function AfterLookup(s: State, key: Bytes): State
    requires |s.entries| == |s.clients|
  {
    if key in s.table && s.table[key] < |s.entries|
    then var h := s.table[key]; Ref(s, h).(clients := s.clients[h := s.clients[h] + 1])
    else s
  }

  function AfterRelease(s: State, h: nat): State
    requires h < |s.entries| == |s.clients| && s.entries[h].refs > 0 && s.clients[h] > 0
  {
    Unref(s, h).(clients := s.clients[h := s.clients[h] - 1])
  }

  function AfterErase(s: State, key: Bytes): State {
    if key in s.table && s.table[key] < |s.entries| && s.entries[s.table[key]].refs > 0
    then FinishErase(s.(table := Minus(s.table, key)), s.table[key])
    else s
  }

  /** A new entry, before anything is evicted: it replaces what its key led to. */
  function AfterPut(s: State, key: Bytes, charge: nat, capacity: nat): State {
    var h := |s.entries|;
    if capacity == 0 then
      s.(entries := s.entries + [Entry(key, charge, false, 1)], clients := s.clients + [1])
    else
      var s1 := AfterErase(s, key);
      s1.(entries := s1.entries + [Entry(key, charge, true, 2)], inUse := s1.inUse + [h], table := s1.table[key := h],
          usage := s1.usage + charge, clients := s1.clients + [1])
  }

  /** The charges of the `n` entries longest unused. */
  ghost function Freed(s: State, n: nat): nat
    requires n <= |s.lru|
  {
    if n == 0 then 0 else Freed(s, n - 1) + Charge(s.entries, s.lru[n - 1])
  }

  /** The `n` entries longest unused are evicted: only they leave table and list, and only their deleters run. */
  ghost function Evicted(s: State, n: nat): State
    requires n <= |s.lru|
  {
    State(seq(|s.entries|, x requires 0 <= x < |s.entries| => Left(s.entries[x], x in s.lru[..n])),
          s.lru[n..], s.inUse, map k | k in s.table && s.table[k] !in s.lru[..n] :: s.table[k],
          s.usage - Freed(s, n), s.clients, s.deleted + s.lru[..n])
  }

  /** Evicting `m` entries is not enough, and so neither is evicting fewer. */
  ghost predicate Over(s: State, m: nat, capacity: nat)
    requires m <= |s.lru|
  {
    s.usage - Freed(s, m) > capacity
  }

  /** No more was evicted than it took to come within the capacity. */
  ghost predicate MadeRoom(s: State, t: State, capacity: nat) {
    t == s || exists m :: 0 <= m < |s.lru| && Over(s, m, capacity) && t == Evicted(s, m + 1)
  }

  function Left(e: Entry, gone: bool): Entry {
    if gone then e.(inCache := false, refs := 0) else e
  }

  // ---------------------------------------------------------------- the invariant is kept

  lemma RefKeepsOk(s: State, key: Bytes)
    requires Ok(s)
    ensures Ok(AfterLookup(s, key))
  {
    assert Found(s, key);
    if key in s.table {
      var h, s' := s.table[key], AfterLookup(s, key);
      assert HandleOk(s, h);
      WithoutMembers(s.lru, h);
      TotalSame(s.entries, s'.entries, s'.lru);
      TotalSame(s.entries, s'.entries, s'.inUse);
      TotalWithout(s.entries, s.lru, h);
      TotalAppend(s.entries, s.inUse, h);
      forall x | 0 <= x < |s'.entries| ensures HandleOk(s', x) { assert HandleOk(s, x); }
      forall k ensures Found(s', k) { assert Found(s, k); }
    }
  }

  lemma ReleaseKeepsOk(s: State, h: nat)
    requires Ok(s) && h < |s.entries| && s.clients[h] > 0
    ensures s.entries[h].refs > 0 && Ok(AfterRelease(s, h))
  {
    hide Total, Without;
    assert HandleOk(s, h);
    var s' := AfterRelease(s, h);
    TotalSame(s.entries, s'.entries, s'.lru);
    TotalSame(s.entries, s'.entries, s'.inUse);
    if s'.entries[h].inCache && s'.entries[h].refs == 1 {
      WithoutMembers(s.inUse, h);
      TotalWithout(s.entries, s.inUse, h);
      TotalAppend(s.entries, s.lru, h);
    }
    forall x | 0 <= x < |s'.entries| ensures HandleOk(s', x) { assert HandleOk(s, x); }
    forall k ensures Found(s', k) { assert Found(s, k); }
  }

  /** A release runs a deleter just when it gives up the last reference to an entry no longer in the cache. */
  lemma LastRelease(s: State, h: nat)
    requires Ok(s) && h < |s.entries| && s.clients[h] > 0
    ensures s.entries[h].refs > 0
    ensures AfterRelease(s, h).deleted == s.deleted + if s.clients[h] == 1 && !s.entries[h].inCache then [h] else []
    ensures h !in s.deleted
  {
    assert HandleOk(s, h);
  }

  /** An entry becomes the newest unused one just when its last client gives it up; nothing else changes the order. */
  lemma ReleaseOrder(s: State, h: nat)
    requires Ok(s) && h < |s.entries| && s.clients[h] > 0
    ensures s.entries[h].refs > 0 && h !in s.lru
    ensures AfterRelease(s, h).lru == s.lru + if s.clients[h] == 1 && s.entries[h].inCache then [h] else []
  {
    assert HandleOk(s, h);
  }

  /** An entry that is looked up leaves the unused ones; the others stay in order. */
  lemma LookupOrder(s: State, key: Bytes)
    requires Ok(s)
    ensures AfterLookup(s, key).lru == if key in s.table then Without(s.lru, s.table[key]) else s.lru
  {
    assert Found(s, key);
    if key in s.table {
      assert HandleOk(s, s.table[key]);
      if s.table[key] !in s.lru { WithoutAbsent(s.lru, s.table[key]); }
    }
  }

  lemma EraseOrder(s: State, key: Bytes)
    requires Ok(s)
    ensures AfterErase(s, key).lru == if key in s.table then Without(s.lru, s.table[key]) else s.lru
  {
    assert Found(s, key);
    if key in s.table {
      assert HandleOk(s, s.table[key]);
      if s.table[key] !in s.lru { WithoutAbsent(s.lru, s.table[key]); }
    }
  }

  lemma {:induction false} WithoutSlices(s: seq<nat>, h: nat, i: nat)
    requires i < |s| && s[i] == h && forall j :: 0 <= j < i ==> s[j] != h
    ensures Without(s, h) == s[..i] + s[i + 1..]
  {
    if i > 0 {
      WithoutSlices(s[1..], h, i - 1);
      assert s[..i] == [s[0]] + s[1..][..i - 1] && s[1..][i..] == s[i + 1..];
    }
  }

  lemma EraseKeepsOk(s: State, key: Bytes)
    requires Ok(s)
    ensures Ok(AfterErase(s, key)) && AfterErase(s, key).table == Minus(s.table, key)
            && |AfterErase(s, key).entries| == |s.entries|
  {
    hide Total, Without;
    assert Found(s, key);
    if key in s.table {
      var h, s' := s.table[key], AfterErase(s, key);
      assert HandleOk(s, h);
      WithoutMembers(s.lru, h);
      WithoutMembers(s.inUse, h);
      TotalSame(s.entries, s'.entries, s'.lru);
      TotalSame(s.entries, s'.entries, s'.inUse);
      TotalWithout(s.entries, s.lru, h);
      TotalWithout(s.entries, s.inUse, h);
      forall x | 0 <= x < |s'.entries| ensures HandleOk(s', x) { assert HandleOk(s, x); }
      forall k ensures Found(s', k) { assert Found(s, k); }
    } else {
      assert Minus(s.table, key) == s.table;
    }
  }

  lemma PutKeepsOk(s: State, key: Bytes, charge: nat, capacity: nat)
    requires Ok(s)
    ensures Ok(AfterPut(s, key, charge, capacity))
  {
    var h, s1, s' := |s.entries|, if capacity == 0 then s else AfterErase(s, key), AfterPut(s, key, charge, capacity);
    EraseKeepsOk(s, key);
    assert h !in s1.inUse;
    TotalSame(s1.entries, s'.entries, s1.lru);
    TotalSame(s1.entries, s'.entries, s1.inUse);
    TotalAppend(s'.entries, s1.inUse, h);
    forall x | 0 <= x < |s'.entries| ensures HandleOk(s', x) {
      if x < h { assert HandleOk(s1, x); }
    }
    forall k ensures Found(s', k) { assert Found(s1, k); }
  }

  lemma Slices(l: seq<nat>, n: nat)
    requires n < |l| && Distinct(l)
    ensures l[n..][1..] == l[n + 1..] && l[..n + 1] == l[..n] + [l[n]] && l[n] !in l[..n]
  {
  }

  lemma NoneEvicted(s: State)
    requires Ok(s)
    ensures Evicted(s, 0) == s
  {
    assert s.lru[..0] == [];
    assert Evicted(s, 0).entries == s.entries;
    assert Evicted(s, 0).table == s.table;
  }

  lemma EvictEntry(s: State, n: nat)
    requires Ok(s) && n < |s.lru|
    ensures s.lru[n] < |s.entries| && Evicted(s, n).entries[s.lru[n]] == s.entries[s.lru[n]]
            && s.entries[s.lru[n]].refs == 1
    ensures var h := s.lru[n];
            && Evicted(s, n).entries[h := s.entries[h].(inCache := false, refs := 0)] == Evicted(s, n + 1).entries
            && Evicted(s, n).deleted + [h] == Evicted(s, n + 1).deleted
  {
    var h := s.lru[n];
    assert h in s.lru;
    assert HandleOk(s, h);
    Slices(s.lru, n);
  }

  lemma EvictKey(s: State, n: nat)
    requires Ok(s) && n < |s.lru|
    ensures s.lru[n] < |s.entries|
    ensures var h, t := s.lru[n], Evicted(s, n);
            && s.entries[h].key in t.table && t.table[s.entries[h].key] == h && h !in s.inUse
            && Minus(t.table, s.entries[h].key) == Evicted(s, n + 1).table
  {
    var h := s.lru[n];
    assert h in s.lru;
    assert HandleOk(s, h);
    Slices(s.lru, n);
    forall k | k in s.table ensures k != s.entries[h].key <==> s.table[k] != h { assert Found(s, k); }
  }

  /** One eviction more: erasing the oldest entry's key. */
  lemma EvictOne(s: State, n: nat)
    requires Ok(s) && n < |s.lru|
    ensures s.lru[n] < |s.entries| && AfterErase(Evicted(s, n), s.entries[s.lru[n]].key) == Evicted(s, n + 1)
  {
    EvictEntry(s, n);
    EvictKey(s, n);
    Slices(s.lru, n);
    WithoutAbsent(s.inUse, s.lru[n]);
  }

  lemma AllGone(s: State)
    requires Ok(s) && s.lru == [] && s.inUse == []
    ensures Distinct(s.deleted) && |s.entries| == |s.clients|
    ensures forall h :: 0 <= h < |s.entries| ==> (h in s.deleted <==> s.clients[h] == 0)
  {
    forall h | 0 <= h < |s.entries| ensures h in s.deleted <==> s.clients[h] == 0 { assert HandleOk(s, h); }
  }

  lemma {:induction false} EvictKeepsOk(s: State, n: nat)
    requires Ok(s) && n <= |s.lru|
    ensures Ok(Evicted(s, n))
  {
    if n == 0 {
      NoneEvicted(s);
    } else {
      EvictKeepsOk(s, n - 1);
      EvictOne(s, n - 1);
      EraseKeepsOk(Evicted(s, n - 1), s.entries[s.lru[n - 1]].key);
    }
  }

  // ---------------------------------------------------------------- the code

  class LruCache {
    const capacity: nat
    const table: HandleTable
    var entries: seq<Entry>
    var lru: seq<nat>
    var inUse: seq<nat>
    var usage: int
    ghost var clients: seq<nat>
    ghost var deleted: seq<nat>

    ghost function Now(): State
      reads this, table
    {
      State(entries, lru, inUse, table.contents, usage, clients, deleted)
    }

    ghost predicate Valid()
      reads this, table
    {
      table.Valid() && Ok(Now())
    }

    constructor (capacity: nat, hash: Bytes -> nat)
      ensures Valid() && Now() == State([], [], [], map[], 0, [], []) && this.capacity == capacity && fresh(table)
    {
      this.capacity := capacity;
      table := new HandleTable(hash);
      entries, lru, inUse, usage, clients, deleted := [], [], [], 0, [], [];
    }

    method RefHandle(h: nat)
      requires h < |entries|
      modifies this`entries, this`lru, this`inUse
      ensures Now() == Ref(old(Now()), h)
    {
      var e := entries[h];
      if e.refs == 1 && e.inCache {
        lru := Without(lru, h);
        inUse := inUse + [h];
      }
      entries := entries[h := e.(refs := e.refs + 1)];
    }

    method UnrefHandle(h: nat)
      requires h < |entries| && entries[h].refs > 0
      modifies this`entries, this`lru, this`inUse, this`deleted
      ensures Now() == Unref(old(Now()), h)
    {
      entries := entries[h := entries[h].(refs := entries[h].refs - 1)];
      if entries[h].refs == 0 {
        // The deleter runs and the handle is freed.
        deleted := deleted + [h];
      } else if entries[h].inCache && entries[h].refs == 1 {
        inUse := Without(inUse, h);
        lru := lru + [h];
      }
    }

    method FinishEraseHandle(h: nat)
      requires h < |entries| && entries[h].refs > 0
      modifies this`entries, this`lru, this`inUse, this`usage, this`deleted
      ensures Now() == FinishErase(old(Now()), h)
    {
      lru := Without(lru, h);
      inUse := Without(inUse, h);
      usage := usage - entries[h].charge;
      entries := entries[h := entries[h].(inCache := false)];
      UnrefHandle(h);
    }

    /** LRUCache::Lookup: a handle the client must release. */
    method Lookup(key: Bytes) returns (r: Option<nat>)
      requires Valid()
      modifies this`entries, this`lru, this`inUse, this`clients
      ensures Valid() && Now() == AfterLookup(old(Now()), key)
      ensures r == if key in old(Now()).table then Some(old(Now()).table[key]) else None
      ensures lru == if r.Some? then Without(old(lru), r.value) else old(lru)
    {
      RefKeepsOk(Now(), key);
      LookupOrder(Now(), key);
      assert Found(Now(), key);
      r := table.Lookup(key);
      if r.Some? {
        RefHandle(r.value);
        clients := clients[r.value := clients[r.value] + 1];
      }
    }

    /** LRUCache::Release. */
    method Release(h: nat)
      requires Valid() && h < |entries| && clients[h] > 0
      modifies this`entries, this`lru, this`inUse, this`clients, this`deleted
      ensures Valid() && old(entries[h].refs > 0) && Now() == AfterRelease(old(Now()), h)
      ensures lru == old(lru) + if old(clients[h]) == 1 && old(entries[h].inCache) then [h] else []
    {
      ReleaseKeepsOk(Now(), h);
      ReleaseOrder(Now(), h);
      UnrefHandle(h);
      clients := clients[h := clients[h] - 1];
    }

    /** LRUCache::Erase. */
    method Erase(key: Bytes)
      requires Valid()
      modifies this`entries, this`lru, this`inUse, this`usage, this`deleted, table
      ensures Valid() && Now() == AfterErase(old(Now()), key)
    {
      EraseKeepsOk(Now(), key);
      assert Found(Now(), key);
      assert key in table.contents ==> HandleOk(Now(), table.contents[key]);
      var r := table.Remove(key);
      if r.Some? {
        FinishEraseHandle(r.value);
      }
    }

    /** LRUCache::Insert: the new entry is what its key leads to, and the oldest unused entries make room. */
    method Insert(key: Bytes, charge: nat) returns (h: nat)
      requires Valid()
      modifies this, table
      ensures Valid() && h == |old(entries)|
      ensures usage <= capacity || lru == []
      ensures MadeRoom(AfterPut(old(Now()), key, charge, capacity), Now(), capacity)
    {
      h := |entries|;
      PutKeepsOk(Now(), key, charge, capacity);
      PutOrder(Now(), key, charge, capacity);
      ghost var s := AfterPut(Now(), key, charge, capacity);
      PutEntry(key, charge);
      NoneEvicted(s);
      ghost var n, last := MakeRoom(s);
    }

    /** Insert's eviction loop: the number of entries evicted, and of those before the last. */
    method MakeRoom(ghost s: State) returns (ghost n: nat, ghost last: nat)
      requires Valid() && Ok(s) && Now() == Evicted(s, 0)
      modifies this`entries, this`lru, this`inUse, this`usage, this`deleted, table
      ensures Valid() && (usage <= capacity || lru == [])
      ensures n <= |s.lru| && Now() == Evicted(s, n) && (n > 0 ==> n == last + 1 && Over(s, last, capacity))
    {
      n, last := 0, 0;
      while usage > capacity && lru != []
        invariant Valid() && n <= |s.lru| && Now() == Evicted(s, n)
        invariant n > 0 ==> n == last + 1 && Over(s, last, capacity)
        decreases |lru|
      {
        last := n;
        Evict(s, last);
        n := n + 1;
      }
    }

    /** The oldest unused entry goes. */
    method Evict(ghost s: State, ghost n: nat)
      requires Valid() && Ok(s) && n < |s.lru| && Now() == Evicted(s, n)
      modifies this`entries, this`lru, this`inUse, this`usage, this`deleted, table
      ensures Valid() && Now() == Evicted(s, n + 1) && (old(usage) > capacity ==> Over(s, n, capacity))
    {
      EvictOne(s, n);
      Slices(s.lru, n);
      Erase(entries[lru[0]].key);
    }

    /** Insert, before anything is evicted. */
    method PutEntry(key: Bytes, charge: nat)
      requires table.Valid() && (capacity > 0 ==> PutsInOrder(Now(), key, charge, capacity))
      modifies this, table
      ensures table.Valid() && Now() == AfterPut(old(Now()), key, charge, capacity)
    {
      if capacity > 0 {
        var replaced := Enter(key, charge);
        if replaced.Some? {
          FinishEraseHandle(replaced.value);
        }
      } else {
        var h := AddEntry(Entry(key, charge, false, 1));
      }
    }

    /** The new entry goes into the cache, and its key leads to it. */
    method Enter(key: Bytes, charge: nat) returns (replaced: Option<nat>)
      requires table.Valid()
      modifies this`entries, this`clients, this`inUse, this`usage, table
      ensures table.Valid() && Now() == Entered(old(Now()), key, charge)
      ensures replaced == old(if key in table.contents then Some(table.contents[key]) else None)
    {
      AddCached(key, charge);
      replaced := table.Insert(key, |entries| - 1);
    }

    /** The fields of the cache itself. */
    method AddCached(key: Bytes, charge: nat)
      modifies this`entries, this`clients, this`inUse, this`usage
      ensures Now() == Entered(old(Now()), key, charge).(table := table.contents)
    {
      var h := AddEntry(Entry(key, charge, true, 2));
      inUse := inUse + [h];
      usage := usage + charge;
    }

    /** A new handle, with one reference for the client. */
    method AddEntry(e: Entry) returns (h: nat)
      modifies this`entries, this`clients
      ensures h == |old(entries)| && entries == old(entries) + [e] && clients == old(clients) + [1]
    {
      h := |entries|;
      entries := entries + [e];
      clients := clients + [1];
    }

    /** LRUCache::Prune: nothing unused stays. */
    method Prune()
      requires Valid()
      modifies this`entries, this`lru, this`inUse, this`usage, this`deleted, table
      ensures Valid() && lru == [] && Now() == Evicted(old(Now()), |old(lru)|)
    {
      ghost var s, n := Now(), 0;
      NoneEvicted(s);
      while lru != []
        invariant Valid() && n <= |s.lru| && Now() == Evicted(s, n)
        decreases |lru|
      {
        Evict(s, n);
        n := n + 1;
      }
    }

    /** LRUCache::~LRUCache, which insists that no entry in the cache is in use: every deleter has run once, but for
        entries that clients still hold. */
    method Destroy()
      requires Valid() && inUse == []
      modifies this`entries, this`deleted, this`lru, this`inUse
      ensures deleted == old(deleted) + old(lru) && Distinct(deleted)
      ensures |entries| == |clients| && forall h :: 0 <= h < |entries| ==> (h in deleted <==> clients[h] == 0)
    {
      hide Total, Without, Ok, HandleOk, Found;
      ghost var s := Now();
      NoneEvicted(s);
      for i := 0 to |lru|
        invariant lru == s.lru && clients == s.clients && entries == Evicted(s, i).entries
                  && deleted == Evicted(s, i).deleted
      {
        EvictEntry(s, i);
        entries := entries[lru[i] := entries[lru[i]].(inCache := false)];
        UnrefHandle(lru[i]);
      }
      EvictKeepsOk(s, |s.lru|);
      AllGone(Evicted(s, |s.lru|));
    }
  }

  lemma {:induction false} WithoutAppend(s: seq<nat>, o: nat, h: nat)
    requires o != h
    ensures Without(s + [h], o) == Without(s, o) + [h]
  {
    if s == [] {
      assert Without([h], o) == [h] + Without([], o);
    } else {
      assert (s + [h])[1..] == s[1..] + [h];
      WithoutAppend(s[1..], o, h);
    }
  }

  ghost function Entered(s: State, key: Bytes, charge: nat): State {
    var h := |s.entries|;
    s.(entries := s.entries + [Entry(key, charge, true, 2)], inUse := s.inUse + [h], table := s.table[key := h],
       usage := s.usage + charge, clients := s.clients + [1])
  }

  /** Entering the new entry before erasing the one replaced, as the code does, comes to the same. */
  ghost predicate PutsInOrder(s: State, key: Bytes, charge: nat, capacity: nat) {
    var s1 := Entered(s, key, charge);
    if key in s.table then s.table[key] < |s.entries| && s1.entries[s.table[key]].refs > 0
                           && FinishErase(s1, s.table[key]) == AfterPut(s, key, charge, capacity)
    else s1 == AfterPut(s, key, charge, capacity)
  }

  lemma PutOrder(s: State, key: Bytes, charge: nat, capacity: nat)
    requires Ok(s)
    ensures capacity > 0 ==> PutsInOrder(s, key, charge, capacity)
  {
    var h := |s.entries|;
    assert Found(s, key);
    assert Minus(s.table, key)[key := h] == s.table[key := h];
    if key in s.table {
      var o := s.table[key];
      assert HandleOk(s, o);
      WithoutAppend(s.inUse, o, h);
    }
  }
}
