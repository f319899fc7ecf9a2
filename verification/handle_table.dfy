// The cache's hash table: HandleTable in util/cache.cc.
module HandleTables {
  import opened Basics

  /** A chained entry: its key, and which handle it is. */
  datatype Slot = Slot(key: Bytes, handle: nat)

  /** Slot `i` of chain `b` is where its key hashes to, and the only one of its key in the chain. */
  ghost predicate SlotOk(buckets: seq<seq<Slot>>, hash: Bytes -> nat, contents: map<Bytes, nat>, b: nat, i: int)
    requires b < |buckets|
  {
    0 <= i < |buckets[b]| ==>
      && hash(buckets[b][i].key) % |buckets| == b
      && buckets[b][i].key in contents && contents[buckets[b][i].key] == buckets[b][i].handle
      && forall j :: 0 <= j < i ==> buckets[b][j].key != buckets[b][i].key
  }

  ghost predicate InChain(chain: seq<Slot>, key: Bytes) {
    exists i :: 0 <= i < |chain| && chain[i].key == key
  }

  ghost predicate Reachable(buckets: seq<seq<Slot>>, hash: Bytes -> nat, contents: map<Bytes, nat>, key: Bytes)
    requires |buckets| > 0
  {
    key in contents ==> InChain(buckets[hash(key) % |buckets|], key)
  }

  /** The chains hold exactly `contents`. */
  ghost predicate Holds(buckets: seq<seq<Slot>>, hash: Bytes -> nat, contents: map<Bytes, nat>) {
    && |buckets| > 0
    && (forall b, i :: 0 <= b < |buckets| ==> SlotOk(buckets, hash, contents, b, i))
    && forall k :: Reachable(buckets, hash, contents, k)
  }

  /** A map without a key. */
  function Minus(m: map<Bytes, nat>, key: Bytes): map<Bytes, nat> {
    map k | k in m && k != key :: m[k]
  }

  lemma {:induction false} MinusSize(m: map<Bytes, nat>, key: Bytes)
    ensures |Minus(m, key)| == if key in m then |m| - 1 else |m|
  {
    assert Minus(m, key).Keys == m.Keys - {key};
    SizeIsKeys(m);
    SizeIsKeys(Minus(m, key));
  }

  lemma SizeIsKeys(m: map<Bytes, nat>)
    ensures |m| == |m.Keys|
  {
  }

  lemma PlusSize(m: map<Bytes, nat>, key: Bytes, h: nat)
    ensures |m[key := h]| == if key in m then |m| else |m| + 1
  {
    assert m[key := h].Keys == m.Keys + {key};
  }

  /** A slot for a new key joins its chain: at the end when inserted, at the front when the table is rebuilt. */
  lemma ChainGrows(buckets: seq<seq<Slot>>, hash: Bytes -> nat, contents: map<Bytes, nat>, s: Slot, chain: seq<Slot>)
    requires Holds(buckets, hash, contents) && s.key !in contents
    requires var was := buckets[hash(s.key) % |buckets|]; chain == was + [s] || chain == [s] + was
    ensures Holds(buckets[hash(s.key) % |buckets| := chain], hash, contents[s.key := s.handle])
  {
    var at := hash(s.key) % |buckets|;
    var was, buckets', contents' := buckets[at], buckets[at := chain], contents[s.key := s.handle];
    var shift := if chain == was + [s] then 0 else 1;
    forall b, i | 0 <= b < |buckets'|
      ensures SlotOk(buckets', hash, contents', b, i)
    {
      if b != at {
        assert SlotOk(buckets, hash, contents, b, i);
      } else {
        assert SlotOk(buckets, hash, contents, b, i - shift);
        forall j | 0 <= j < |was| ensures was[j].key in contents { assert SlotOk(buckets, hash, contents, b, j); }
        assert 0 <= i - shift < |was| ==> chain[i] == was[i - shift];
      }
    }
    forall k
      ensures Reachable(buckets', hash, contents', k)
    {
      assert Reachable(buckets, hash, contents, k);
      if k !in contents' {
      } else if k == s.key {
        assert chain[if shift == 0 then |was| else 0] == s;
      } else if hash(k) % |buckets| == at {
        var i :| 0 <= i < |was| && was[i].key == k;
        assert chain[i + shift] == was[i];
      }
    }
  }

  /** A slot is replaced by another of the same key. */
  lemma SlotReplaced(buckets: seq<seq<Slot>>, hash: Bytes -> nat, contents: map<Bytes, nat>, at: nat, i: nat, h: nat)
    requires Holds(buckets, hash, contents) && at < |buckets| && i < |buckets[at]|
    ensures var key := buckets[at][i].key;
            Holds(buckets[at := buckets[at][i := Slot(key, h)]], hash, contents[key := h])
  {
    var key := buckets[at][i].key;
    var chain := buckets[at][i := Slot(key, h)];
    var buckets', contents' := buckets[at := chain], contents[key := h];
    assert SlotOk(buckets, hash, contents, at, i);
    forall b, j | 0 <= b < |buckets'|
      ensures SlotOk(buckets', hash, contents', b, j)
    {
      assert SlotOk(buckets, hash, contents, b, j);
    }
    forall k
      ensures Reachable(buckets', hash, contents', k)
    {
      assert Reachable(buckets, hash, contents, k);
      if k in contents {
        var was := buckets[hash(k) % |buckets|];
        var m :| 0 <= m < |was| && was[m].key == k;
        assert buckets'[hash(k) % |buckets|][m].key == k;
      }
    }
  }

  /** A slot leaves its chain. */
  lemma SlotRemoved(buckets: seq<seq<Slot>>, hash: Bytes -> nat, contents: map<Bytes, nat>, at: nat, i: nat)
    requires Holds(buckets, hash, contents) && at < |buckets| && i < |buckets[at]|
    ensures Holds(buckets[at := buckets[at][..i] + buckets[at][i + 1..]], hash, Minus(contents, buckets[at][i].key))
  {
    var key, was := buckets[at][i].key, buckets[at];
    var chain := was[..i] + was[i + 1..];
    var buckets', contents' := buckets[at := chain], Minus(contents, key);
    assert SlotOk(buckets, hash, contents, at, i);
    forall b, j | 0 <= b < |buckets'|
      ensures SlotOk(buckets', hash, contents', b, j)
    {
      assert SlotOk(buckets, hash, contents, b, j) && SlotOk(buckets, hash, contents, b, j + 1);
    }
    forall k
      ensures Reachable(buckets', hash, contents', k)
    {
      assert Reachable(buckets, hash, contents, k);
      if k in contents' && hash(k) % |buckets| == at {
        var m :| 0 <= m < |was| && was[m].key == k;
        assert chain[if m < i then m else m - 1].key == k;
      }
    }
  }

  /** The bitwise "and" of two numbers. */
  function And(a: nat, b: nat): nat {
    if a == 0 || b == 0 then 0 else 2 * And(a / 2, b / 2) + if a % 2 == 1 && b % 2 == 1 then 1 else 0
  }

  /** Masking with one less than a power of two takes the remainder. */
  lemma {:induction false} MaskIsRemainder(h: nat, k: nat)
    ensures And(h, Pow2(k) - 1) == h % Pow2(k)
  {
    if k > 0 {
      MaskIsRemainder(h / 2, k - 1);
      var n := Pow2(k - 1);
      HalvedRemainder(h, n);
      assert (2 * n - 1) / 2 == n - 1 && (2 * n - 1) % 2 == 1;
    }
  }

  lemma Masked(h: nat, n: nat)
    requires exists k: nat :: n == Pow2(k)
    ensures n > 0 && And(h, n - 1) == h % n
  {
    var k: nat :| n == Pow2(k);
    MaskIsRemainder(h, k);
  }

  lemma HalvedRemainder(h: nat, n: nat)
    requires n > 0
    ensures h % (2 * n) == 2 * (h / 2 % n) + h % 2
  {
    var q, r := h / 2 / n, h / 2 % n;
    assert h / 2 == n * q + r;
    assert h == 2 * (n * q + r) + h % 2 == 2 * n * q + (2 * r + h % 2);
    RemainderIs(h, 2 * n, q, 2 * r + h % 2);
  }

  lemma {:induction false} StepsUp(m: nat, q: nat, p: nat)
    requires q < p
    ensures m * q + m <= m * p
    decreases p
  {
    assert m * p == m * (p - 1) + m;
    if q < p - 1 {
      StepsUp(m, q, p - 1);
    }
  }

  lemma RemainderIs(h: nat, m: nat, q: nat, r: nat)
    requires r < m && h == m * q + r
    ensures h % m == r
  {
    var p := h / m;
    var t := h % m;
    if p > q {
      StepsUp(m, q, p);
    } else if p < q {
      StepsUp(m, p, q);
    }
  }

  class HandleTable {
    const hash: Bytes -> nat
    // list_
    var buckets: seq<seq<Slot>>
    var elems: nat
    ghost var contents: map<Bytes, nat>

    ghost predicate Shape()
      reads this
    {
      Holds(buckets, hash, contents) && elems == |contents| && |buckets| >= 4 && exists k: nat :: |buckets| == Pow2(k)
    }

    /** A chain has one slot on average, or less. */
    ghost predicate Valid()
      reads this
    {
      Shape() && elems <= |buckets|
    }

    constructor (hash: Bytes -> nat)
      ensures Valid() && contents == map[]
    {
      this.hash, buckets, elems, contents := hash, [[], [], [], []], 0, map[];
      assert Pow2(1) == 2 && 4 == Pow2(2);
    }

    /** FindPointer: the chain for a key, and where in it the key is; the end of the chain if it is nowhere. */
    method FindPointer(key: Bytes) returns (b: nat, i: nat)
      requires Valid()
      ensures b == hash(key) % |buckets| && i <= |buckets[b]|
      ensures if key in contents then i < |buckets[b]|
              && buckets[b][i] == Slot(key, contents[key]) else i == |buckets[b]|
    {
      b, i := And(hash(key), |buckets| - 1), 0;
      Masked(hash(key), |buckets|);
      while i < |buckets[b]| && buckets[b][i].key != key
        invariant i <= |buckets[b]| && forall j :: 0 <= j < i ==> buckets[b][j].key != key
      {
        i := i + 1;
      }
      assert SlotOk(buckets, hash, contents, b, i);
      assert Reachable(buckets, hash, contents, key);
    }

    method Lookup(key: Bytes) returns (r: Option<nat>)
      requires Valid()
      ensures r == if key in contents then Some(contents[key]) else None
    {
      var b, i := FindPointer(key);
      r := if i < |buckets[b]| then Some(buckets[b][i].handle) else None;
    }

    /** Insert: the handle replaced, if any. */
    method Insert(key: Bytes, h: nat) returns (replaced: Option<nat>)
      requires Valid()
      modifies this
      ensures Valid() && contents == old(contents)[key := h]
      ensures replaced == old(if key in contents then Some(contents[key]) else None)
      // The number of chains doubles when there would be more slots than chains, and only then.
      ensures |buckets| == if |contents| > old(|buckets|) then 2 * old(|buckets|) else old(|buckets|)
    {
      var b, i := FindPointer(key);
      PlusSize(contents, key, h);
      if i < |buckets[b]| {
        SlotReplaced(buckets, hash, contents, b, i, h);
        replaced := Some(buckets[b][i].handle);
        buckets := buckets[b := buckets[b][i := Slot(key, h)]];
        contents := contents[key := h];
      } else {
        ChainGrows(buckets, hash, contents, Slot(key, h), buckets[b] + [Slot(key, h)]);
        replaced := None;
        buckets := buckets[b := buckets[b] + [Slot(key, h)]];
        contents := contents[key := h];
        elems := elems + 1;
        if elems > |buckets| {
          Resize();
        }
      }
    }

    method Remove(key: Bytes) returns (r: Option<nat>)
      requires Valid()
      modifies this
      ensures Valid() && contents == Minus(old(contents), key)
      ensures r == old(if key in contents then Some(contents[key]) else None)
      ensures |buckets| == old(|buckets|)
    {
      var b, i := FindPointer(key);
      MinusSize(contents, key);
      if i < |buckets[b]| {
        SlotRemoved(buckets, hash, contents, b, i);
        r := Some(buckets[b][i].handle);
        buckets := buckets[b := buckets[b][..i] + buckets[b][i + 1..]];
        contents := Minus(contents, key);
        elems := elems - 1;
      } else {
        assert Minus(contents, key) == contents;
        r := None;
      }
    }

    /** Resize: as many chains as the next power of two, and no lookup changes. */
    method Resize()
      requires Shape() && elems == |buckets| + 1
      modifies this`buckets
      ensures Valid() && |buckets| == 2 * old(|buckets|)
    {
      var newLength, k := DoubledPast(elems);
      NextPower(|buckets|, newLength);
      buckets := Rebuilt(buckets, newLength, hash, contents);
    }
  }

  lemma {:induction false} PowersAscend(i: nat, j: nat)
    requires i < j
    ensures 2 * Pow2(i) <= Pow2(j)
    decreases j
  {
    if i < j - 1 { PowersAscend(i, j - 1); }
  }

  /** Of two powers of two, one is at least twice the other. */
  lemma NextPower(n: nat, r: nat)
    requires (exists k: nat :: n == Pow2(k)) && (exists k: nat :: r == Pow2(k))
    requires n + 1 <= r < 2 * (n + 1) && n >= 4
    ensures r == 2 * n
  {
    var i: nat :| n == Pow2(i);
    var j: nat :| r == Pow2(j);
    if j < i { PowersAscend(j, i); }
    assert i < j;
    if i + 1 < j { PowersAscend(i + 1, j); }
    assert Pow2(i + 1) == 2 * n;
  }

  method DoubledPast(n: nat) returns (r: nat, ghost k: nat)
    ensures r == Pow2(k) && r >= 4 && r >= n && (r > 4 ==> r < 2 * n)
  {
    r, k := 4, 2;
    assert Pow2(1) == 2;
    while r < n
      invariant r == Pow2(k) && r >= 4 && (r > 4 ==> r < 2 * n)
    {
      r, k := r * 2, k + 1;
    }
  }

  /** A chain's keys are those that hash to it, each once. */
  lemma ChainIs(list: seq<seq<Slot>>, hash: Bytes -> nat, contents: map<Bytes, nat>, b: nat)
    requires Holds(list, hash, contents) && b < |list|
    ensures forall k :: InChain(list[b], k) <==> k in contents && hash(k) % |list| == b
    ensures ChainOf(list[b], contents)
  {
    forall i | 0 <= i < |list[b]|
      ensures list[b][i].key in contents && contents[list[b][i].key] == list[b][i].handle
              && hash(list[b][i].key) % |list| == b
      ensures forall j :: 0 <= j < i ==> list[b][j].key != list[b][i].key
    {
      assert SlotOk(list, hash, contents, b, i);
    }
    forall k
      ensures InChain(list[b], k) <==> k in contents && hash(k) % |list| == b
    {
      assert Reachable(list, hash, contents, k);
    }
  }

  /** Resize's outer loop: every slot moves to the front of its new chain. */
  method Rebuilt(list: seq<seq<Slot>>, newLength: nat, hash: Bytes -> nat, ghost contents: map<Bytes, nat>)
    returns (newList: seq<seq<Slot>>)
    requires Holds(list, hash, contents) && exists k: nat :: newLength == Pow2(k)
    ensures Holds(newList, hash, contents) && |newList| == newLength
  {
    newList := seq(newLength, _ => []);
    ghost var moved: map<Bytes, nat> := map[];
    for b := 0 to |list|
      invariant |newList| == newLength && Holds(newList, hash, moved) && Part(moved, contents)
      invariant forall k :: k in moved <==> k in contents && hash(k) % |list| < b
    {
      ChainIs(list, hash, contents, b);
      newList, moved := MoveChain(newList, moved, list[b], hash, contents);
    }
    assert moved == contents;
  }

  ghost predicate Part(m: map<Bytes, nat>, all: map<Bytes, nat>) {
    forall k :: k in m ==> k in all && m[k] == all[k]
  }

  /** A chain of distinct keys that says what `contents` says. */
  ghost predicate ChainOf(chain: seq<Slot>, contents: map<Bytes, nat>) {
    && (forall i :: 0 <= i < |chain| ==> chain[i].key in contents && contents[chain[i].key] == chain[i].handle)
    && forall i, j :: 0 <= j < i < |chain| ==> chain[j].key != chain[i].key
  }

  /** Resize's inner loop: one old chain is taken apart. */
  method MoveChain(newList0: seq<seq<Slot>>, ghost moved0: map<Bytes, nat>, chain: seq<Slot>, hash: Bytes -> nat,
                   ghost contents: map<Bytes, nat>)
    returns (newList: seq<seq<Slot>>, ghost moved: map<Bytes, nat>)
    requires Holds(newList0, hash, moved0) && Part(moved0, contents) && ChainOf(chain, contents)
    requires exists k: nat :: |newList0| == Pow2(k)
    requires forall k :: InChain(chain, k) ==> k !in moved0
    ensures |newList| == |newList0| && Holds(newList, hash, moved) && Part(moved, contents)
    ensures forall k :: k in moved <==> k in moved0 || InChain(chain, k)
  {
    newList, moved := newList0, moved0;
    for i := 0 to |chain|
      invariant |newList| == |newList0| && Holds(newList, hash, moved) && Part(moved, contents)
      invariant forall k :: k in moved <==> k in moved0 || InChain(chain[..i], k)
    {
      var s := chain[i];
      var at := And(hash(s.key), |newList| - 1);
      Masked(hash(s.key), |newList|);
      assert InChain(chain, s.key) && !InChain(chain[..i], s.key);
      ChainGrows(newList, hash, moved, s, [s] + newList[at]);
      newList := newList[at := [s] + newList[at]];
      moved := moved[s.key := s.handle];
      OneMoreKey(chain, i);
    }
    assert chain[..|chain|] == chain;
  }

  lemma OneMoreKey(chain: seq<Slot>, i: nat)
    requires i < |chain|
    ensures forall k :: InChain(chain[..i + 1], k) <==> InChain(chain[..i], k) || k == chain[i].key
  {
    forall k
      ensures InChain(chain[..i + 1], k) <==> InChain(chain[..i], k) || k == chain[i].key
    {
      if InChain(chain[..i], k) {
        var m :| 0 <= m < i && chain[..i][m].key == k;
        assert chain[..i + 1][m].key == k;
      }
      if k == chain[i].key {
        assert chain[..i + 1][i].key == k;
      }
    }
  }
}
