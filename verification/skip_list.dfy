// The skip list behind a memtable: db/skiplist.h.  One writer inserts, link by link; readers search at the same time.
module SkipLists {
  const MAX_HEIGHT := 12

  /** A node is named by its key; keys are positions in the comparator's order and occur once. */
  datatype Node = Null | Head | At(key: int)

  // ---------------------------------------------------------------- one level as a sorted list

  ghost predicate Ordered(list: seq<int>, i: int, j: int) {
    0 <= i < j < |list| ==> list[i] < list[j]
  }

  ghost predicate Sorted(list: seq<int>) {
    forall i, j :: Ordered(list, i, j)
  }

  /** The number of keys below `key`. */
  function Rank(list: seq<int>, key: int): (r: nat)
    ensures r <= |list|
  {
    if list == [] || list[0] >= key then 0 else 1 + Rank(list[1..], key)
  }

  lemma {:induction false} RankSplits(list: seq<int>, key: int)
    requires Sorted(list)
    ensures forall i :: 0 <= i < |list| ==> (list[i] < key <==> i < Rank(list, key))
  {
    if list != [] {
      forall i, j ensures Ordered(list[1..], i, j) { assert Ordered(list, i + 1, j + 1); }
      RankSplits(list[1..], key);
      forall i | 0 <= i < |list|
        ensures list[i] < key <==> i < Rank(list, key)
      {
        assert Ordered(list, 0, i);
        if i > 0 { assert list[1..][i - 1] == list[i]; }
      }
    }
  }

  function NodeAt(list: seq<int>, i: nat): Node {
    if i < |list| then At(list[i]) else Null
  }

  function NodeBefore(list: seq<int>, i: nat): Node
    requires i <= |list|
  {
    if i == 0 then Head else At(list[i - 1])
  }

  function Inserted(list: seq<int>, key: int): seq<int> {
    var r := Rank(list, key);
    list[..r] + [key] + list[r..]
  }

  lemma InsertedSorted(list: seq<int>, key: int)
    requires Sorted(list) && key !in list
    ensures Sorted(Inserted(list, key))
    ensures forall k :: k in Inserted(list, key) <==> k in list || k == key
  {
    RankSplits(list, key);
    var r, all := Rank(list, key), Inserted(list, key);
    assert list == list[..r] + list[r..];
    forall i, j
      ensures Ordered(all, i, j)
    {
      if 0 <= i < j < |all| {
        InsertedOrder(list, key, r, i, j);
      }
    }
  }

  lemma InsertedOrder(list: seq<int>, key: int, r: nat, i: nat, j: nat)
    requires Sorted(list) && r <= |list| && i < j <= |list|
    requires forall k :: 0 <= k < |list| ==> (list[k] < key <==> k < r)
    requires key !in list
    ensures var all := list[..r] + [key] + list[r..]; all[i] < all[j]
  {
    assert Ordered(list, i, j) && Ordered(list, i - 1, j - 1) && Ordered(list, i, j - 1);
    if i == r {
      assert list[j - 1] in list;
    }
  }

  lemma InsertedMembers(list: seq<int>, key: int)
    ensures forall k :: k in Inserted(list, key) <==> k in list || k == key
  {
    var r := Rank(list, key);
    assert list == list[..r] + list[r..];
  }

  /** A level is a sublist of the one below. */
  ghost predicate SublistAt(lists: seq<seq<int>>, l: int) {
    1 <= l < |lists| ==> forall k :: k in lists[l] ==> k in lists[l - 1]
  }

  /** The pointers of one level spell out the list. */
  ghost predicate Links(next: map<Node, Node>, list: seq<int>) {
    forall i :: 0 <= i <= |list| ==> NodeBefore(list, i) in next && next[NodeBefore(list, i)] == NodeAt(list, i)
  }

  /** Every level is linked up, sorted, and a sublist of the one below. */
  ghost predicate LevelsOk(next: seq<map<Node, Node>>, lists: seq<seq<int>>) {
    && |next| == |lists| == MAX_HEIGHT
    && (forall l :: 0 <= l < MAX_HEIGHT ==> Sorted(lists[l]) && Links(next[l], lists[l]))
    && forall l :: SublistAt(lists, l)
  }

  // ---------------------------------------------------------------- reading and storing pointers

  /** The next node of a level after one that is linked there: what reading its pointer yields. */
  function NextOf(list: seq<int>, x: Node): Node {
    match x
    case Head => NodeAt(list, 0)
    case At(q) => NodeAt(list, Rank(list, q + 1))
    case Null => Null
  }

  lemma LinkIsNext(next: map<Node, Node>, list: seq<int>, x: Node)
    requires Sorted(list) && Links(next, list) && (x == Head || (x.At? && x.key in list))
    ensures x in next && next[x] == NextOf(list, x)
  {
    if x == Head {
      assert x == NodeBefore(list, 0);
    } else {
      var i :| 0 <= i < |list| && list[i] == x.key;
      RankSplits(list, x.key + 1);
      assert x == NodeBefore(list, i + 1);
      forall j | 0 <= j < |list|
        ensures list[j] <= x.key <==> j <= i { assert Ordered(list, i, j) && Ordered(list, j, i); }
      assert Rank(list, x.key + 1) == i + 1;
    }
  }

  /** A new node is pointed at its successor, and then published by its predecessor. */
  function Stored(level: map<Node, Node>, key: int, prev: Node): map<Node, Node>
    requires prev in level
  {
    level[At(key) := level[prev]][prev := At(key)]
  }

  lemma LinkStored(level: map<Node, Node>, list: seq<int>, key: int)
    requires Links(level, list) && Sorted(list) && key !in list
    ensures var prev := NodeBefore(list, Rank(list, key));
            prev in level && Links(Stored(level, key, prev), Inserted(list, key))
  {
    RankSplits(list, key);
    var r, all := Rank(list, key), Inserted(list, key);
    var prev := NodeBefore(list, r);
    assert prev in level && level[prev] == NodeAt(list, r);
    var level' := Stored(level, key, prev);
    forall i | 0 <= i <= |all|
      ensures NodeBefore(all, i) in level' && level'[NodeBefore(all, i)] == NodeAt(all, i)
    {
      var last: int := r;
      if i < r {
        assert NodeBefore(all, i) == NodeBefore(list, i) && Ordered(list, i - 1, last - 1);
      } else if i > r + 1 {
        assert NodeBefore(all, i) == NodeBefore(list, i - 1) && Ordered(list, last - 1, i - 2);
        assert list[i - 2] in list;
      }
    }
  }

  datatype Search = At0(x: Node, level: nat) | Found(result: Node)

  /** The pointers, the keys they link at every level, and one search in progress. */
  datatype World = World(next: seq<map<Node, Node>>, lists: seq<seq<int>>, search: Search)

  /** One link store of an insertion: the levels below are linked already. */
  ghost predicate LinkStep(w: World, w': World, key: int, level: nat) {
    && |w.next| == |w.lists| == MAX_HEIGHT && level < MAX_HEIGHT
    && key !in w.lists[level] && (level > 0 ==> key in w.lists[level - 1])
    && var prev := NodeBefore(w.lists[level], Rank(w.lists[level], key));
       && prev in w.next[level]
       && w' == w.(next := w.next[level := Stored(w.next[level], key, prev)],
                   lists := w.lists[level := Inserted(w.lists[level], key)])
  }

  // ---------------------------------------------------------------- the list and its writer

  class SkipList {
    var next: seq<map<Node, Node>>
    var maxHeight: nat
    // The keys linked at each level.
    ghost var lists: seq<seq<int>>

    /** Every level is linked up and a sublist of the one below; levels from the current height on are empty. */
    ghost predicate Valid()
      reads this
    {
      && LevelsOk(next, lists) && 1 <= maxHeight <= MAX_HEIGHT
      && forall l :: maxHeight <= l < MAX_HEIGHT ==> lists[l] == []
    }

    constructor ()
      ensures Valid() && lists == seq(MAX_HEIGHT, _ => [])
    {
      next := seq(MAX_HEIGHT, _ => map[Head := Null]);
      maxHeight := 1;
      lists := seq(MAX_HEIGHT, _ => []);
    }

    /** A node of a level before the key, by its place in the level. */
    ghost predicate Place(x: Node, level: nat, key: int)
      requires Valid() && level < MAX_HEIGHT
      reads this
    {
      exists p :: 0 <= p <= |lists[level]| && x == NodeBefore(lists[level], p) && p <= Rank(lists[level], key)
    }

    /** A node before the key at one level is before the key at the level below. */
    lemma PlaceBelow(x: Node, level: nat, key: int)
      requires Valid() && 1 <= level < MAX_HEIGHT && Place(x, level, key)
      ensures Place(x, level - 1, key)
    {
      var upper, lower := lists[level], lists[level - 1];
      var p :| 0 <= p <= |upper| && x == NodeBefore(upper, p) && p <= Rank(upper, key);
      RankSplits(upper, key);
      RankSplits(lower, key);
      assert SublistAt(lists, level);
      if p == 0 {
        assert x == NodeBefore(lower, 0);
      } else {
        assert upper[p - 1] in upper && upper[p - 1] in lower;
        var q :| 0 <= q < |lower| && lower[q] == upper[p - 1];
        assert x == NodeBefore(lower, q + 1);
      }
    }

    /** FindGreaterOrEqual: the first node at or after the key, and at every level the last node before it. */
    method FindGreaterOrEqual(key: int) returns (x: Node, prev: seq<Node>)
      requires Valid()
      ensures x == NodeAt(lists[0], Rank(lists[0], key))
      ensures |prev| == maxHeight
      ensures forall l :: 0 <= l < maxHeight ==> prev[l] == NodeBefore(lists[l], Rank(lists[l], key))
    {
      x := Head;
      var level := maxHeight - 1;
      prev := seq(maxHeight, _ => Head);
      ghost var p := 0;
      while true
        invariant 0 <= level < maxHeight && |prev| == maxHeight
        invariant p <= Rank(lists[level], key) && x == NodeBefore(lists[level], p)
        invariant forall l :: level < l < maxHeight ==> prev[l] == NodeBefore(lists[l], Rank(lists[l], key))
        decreases level, |lists[level]| - p
      {
        RankSplits(lists[level], key);
        assert Links(next[level], lists[level]);
        var n := next[level][x];
        if n != Null && n.key < key {
          x, p := n, p + 1;
        } else {
          prev := prev[level := x];
          if level == 0 {
            x := n;
            return;
          }
          assert Place(x, level, key);
          PlaceBelow(x, level, key);
          level := level - 1;
          p :| 0 <= p <= |lists[level]| && x == NodeBefore(lists[level], p) && p <= Rank(lists[level], key);
        }
      }
    }

    /** FindLessThan: the last node before the key. */
    method FindLessThan(key: int) returns (x: Node)
      requires Valid()
      ensures x == NodeBefore(lists[0], Rank(lists[0], key))
    {
      x := Head;
      var level := maxHeight - 1;
      ghost var p := 0;
      while true
        invariant 0 <= level < maxHeight
        invariant p <= Rank(lists[level], key) && x == NodeBefore(lists[level], p)
        decreases level, |lists[level]| - p
      {
        RankSplits(lists[level], key);
        assert Links(next[level], lists[level]);
        var n := next[level][x];
        if n == Null || n.key >= key {
          if level == 0 {
            return;
          }
          assert Place(x, level, key);
          PlaceBelow(x, level, key);
          level := level - 1;
          p :| 0 <= p <= |lists[level]| && x == NodeBefore(lists[level], p) && p <= Rank(lists[level], key);
        } else {
          x, p := n, p + 1;
        }
      }
    }

    /** The list after linking the key at the lowest `n` levels. */
    ghost function Linked(before: seq<seq<int>>, key: int, n: nat): seq<seq<int>> {
      seq(|before|, l requires 0 <= l < |before| => if l < n then Inserted(before[l], key) else before[l])
    }

    /** Insert.  `height` is the random height.  The list is valid after every single link store. */
    method Insert(key: int, height: nat)
      requires Valid() && key !in lists[0] && 1 <= height <= MAX_HEIGHT
      modifies this
      ensures Valid() && lists == Linked(old(lists), key, height)
      ensures maxHeight == if height > old(maxHeight) then height else old(maxHeight)
    {
      var x, prev := FindGreaterOrEqual(key);
      ghost var before := lists;
      AbsentAbove(key);
      if height > maxHeight {
        prev := prev + seq(height - maxHeight, _ => Head);
        maxHeight := height;
      }
      assert Linked(before, key, 0) == before;
      for i := 0 to height
        invariant Valid() && lists == Linked(before, key, i) && height <= maxHeight
        invariant |prev| >= height && forall l :: i <= l < height ==>
                  prev[l] == NodeBefore(before[l], Rank(before[l], key))
        invariant maxHeight == if height > old(maxHeight) then height else old(maxHeight)
        invariant forall l :: 0 <= l < MAX_HEIGHT ==> key !in before[l]
      {
        StoreLink(key, i, prev[i], before);
      }
    }

    lemma AbsentAbove(key: int)
      requires Valid() && key !in lists[0]
      ensures forall l :: 0 <= l < MAX_HEIGHT ==> key !in lists[l]
    {
      AbsentUpTo(key, MAX_HEIGHT - 1);
    }

    lemma {:induction false} AbsentUpTo(key: int, n: nat)
      requires Valid() && key !in lists[0] && n < MAX_HEIGHT
      ensures forall l :: 0 <= l <= n ==> key !in lists[l]
    {
      if n > 0 {
        AbsentUpTo(key, n - 1);
        assert SublistAt(lists, n);
      }
    }

    /** Point the new node at its successor, then publish it at level `i`. */
    method StoreLink(key: int, i: nat, prev: Node, ghost before: seq<seq<int>>)
      requires Valid() && i < maxHeight && |before| == MAX_HEIGHT && lists == Linked(before, key, i)
      requires prev == NodeBefore(before[i], Rank(before[i], key))
      requires forall l :: 0 <= l < MAX_HEIGHT ==> key !in before[l]
      modifies this`next, this`lists
      ensures Valid() && lists == Linked(before, key, i + 1)
      ensures forall s :: LinkStep(World(old(next), old(lists), s), World(next, lists, s), key, i)
    {
      var level := next[i];
      level := level[At(key) := level[prev]];
      level := level[prev := At(key)];
      LinkStored(next[i], lists[i], key);
      InsertedSorted(lists[i], key);
      if i > 0 {
        InsertedMembers(before[i - 1], key);
      }
      ghost var was := lists;
      next := next[i := level];
      lists := lists[i := Inserted(lists[i], key)];
      assert lists == Linked(before, key, i + 1);
      forall l ensures SublistAt(lists, l) { assert SublistAt(was, l); }
    }
  }

  // ---------------------------------------------------------------- readers beside the writer

  /** One pointer read of FindGreaterOrEqual. */
  ghost predicate ReadStep(w: World, w': World, target: int) {
    && w.search.At0? && |w.next| == MAX_HEIGHT && w.search.level < MAX_HEIGHT && w.search.x in w.next[w.search.level]
    && var n := w.next[w.search.level][w.search.x];
       w' == w.(search := if n.At? && n.key < target then At0(n, w.search.level)
                          else if w.search.level == 0 then Found(n) else At0(w.search.x, w.search.level - 1))
  }

  /** `present` are the keys linked when the search began. */
  ghost predicate SearchInv(w: World, target: int, present: set<int>) {
    && LevelsOk(w.next, w.lists) && (forall k :: k in present ==> k in w.lists[0])
    && match w.search
       case At0(x, level) => level < MAX_HEIGHT && (x == Head || (x.At? && x.key < target && x.key in w.lists[level]))
       case Found(n) =>
         && n != Head && (n.At? ==> n.key >= target && n.key in w.lists[0])
         && forall k :: k in present && k >= target ==> n.At? && n.key <= k
  }

  lemma LinkKeepsInv(w: World, w': World, key: int, level: nat, target: int, present: set<int>)
    requires SearchInv(w, target, present) && LinkStep(w, w', key, level)
    ensures SearchInv(w', target, present)
  {
    InsertedSorted(w.lists[level], key);
    LinkStored(w.next[level], w.lists[level], key);
    forall l ensures SublistAt(w'.lists, l) { assert SublistAt(w.lists, l); }
  }

  lemma NextIsNext(list: seq<int>, x: Node)
    requires Sorted(list) && (x == Head || (x.At? && x.key in list))
    ensures var n := NextOf(list, x);
            && (n.At? ==> n.key in list && (x.At? ==> n.key > x.key)) && n != Head
            && forall k :: k in list && (x.At? ==> k > x.key) ==> n.At? && n.key <= k
  {
    var from := if x == Head then 0 else Rank(list, x.key + 1);
    if x.At? {
      RankSplits(list, x.key + 1);
    }
    forall k | k in list && (x.At? ==> k > x.key)
      ensures from < |list| && list[from] <= k
    {
      var i :| 0 <= i < |list| && list[i] == k;
      assert Ordered(list, from, i);
    }
  }

  lemma ReadKeepsInv(w: World, w': World, target: int, present: set<int>)
    requires SearchInv(w, target, present) && ReadStep(w, w', target)
    ensures SearchInv(w', target, present)
  {
    var level := w.search.level;
    LinkIsNext(w.next[level], w.lists[level], w.search.x);
    NextIsNext(w.lists[level], w.search.x);
    assert SublistAt(w.lists, level);
  }

  datatype Action = Link(key: int, level: nat) | Read

  ghost predicate Step(w: World, a: Action, w': World, target: int) {
    match a
    case Link(key, level) => LinkStep(w, w', key, level)
    case Read => ReadStep(w, w', target)
  }

  /** A search begun at any height, beside a writer. */
  ghost predicate Concurrent(worlds: seq<World>, actions: seq<Action>, target: int, height: nat) {
    && |worlds| == |actions| + 1 && LevelsOk(worlds[0].next, worlds[0].lists) && height < MAX_HEIGHT
    && worlds[0].search == At0(Head, height)
    && forall i :: 0 <= i < |actions| ==> Step(worlds[i], actions[i], worlds[i + 1], target)
  }

  /** However link stores and pointer reads interleave, and whatever height the reader saw, the levels stay sorted and
      nested, and a finished search has found a node not before the target, with no key that was present when the search
      began skipped. */
  lemma {:induction false} SearchSkipsNothing(worlds: seq<World>, actions: seq<Action>, target: int, height: nat,
                                              i: nat)
    requires Concurrent(worlds, actions, target, height) && i < |worlds|
    ensures SearchInv(worlds[i], target, set k | k in worlds[0].lists[0])
  {
    var present := set k | k in worlds[0].lists[0];
    if i > 0 {
      SearchSkipsNothing(worlds, actions, target, height, i - 1);
      var w, w' := worlds[i - 1], worlds[i];
      assert Step(w, actions[i - 1], w', target);
      match actions[i - 1]
      case Link(key, level) => LinkKeepsInv(w, w', key, level, target, present);
      case Read => ReadKeepsInv(w, w', target, present);
    }
  }
}
