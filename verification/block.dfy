// Sorted blocks with prefix-compressed keys and restart points: table/block_builder.cc and table/block.cc.
module Blocks {
  import opened Basics
  import opened Varints
  import opened Coding

  datatype Pair = Pair(key: Bytes, value: Bytes)

  type Order = (Bytes, Bytes) -> bool

  /** What a comparator's "less than" must be. */
  ghost predicate StrictOrder(less: Order) {
    && (forall a :: !less(a, a))
    && forall a, b, c {:trigger less(a, b), less(b, c)} :: less(a, b) && less(b, c) ==> less(a, c)
  }

  ghost predicate Ascends(es: seq<Pair>, less: Order, i: int, j: int) {
    0 <= i < j < |es| ==> less(es[i].key, es[j].key)
  }

  ghost predicate Sorted(es: seq<Pair>, less: Order) {
    forall i, j :: Ascends(es, less, i, j)
  }

  // ---------------------------------------------------------------- one entry

  /** shared, non-shared and value lengths, then the rest of the key and the value. */
  function EncodeEntry(shared: nat, e: Pair): Bytes
    requires shared <= |e.key|
  {
    Varint(shared) + (Varint(|e.key| - shared) + (Varint(|e.value|) + (e.key[shared..] + e.value)))
  }

  /** With lengths below 128: bytes shared with the key before, bytes not shared, bytes of the value, and then both. */
  lemma EntryLayout(shared: nat, e: Pair)
    requires shared <= |e.key| < 0x80 && |e.value| < 0x80
    ensures EncodeEntry(shared, e) == [shared, |e.key| - shared, |e.value|] + e.key[shared..] + e.value
  {
    SmallVarint(shared);
    SmallVarint(|e.key| - shared);
    SmallVarint(|e.value|);
  }

  /** The three lengths of an entry, and how many bytes they take. */
  datatype Lengths = Lengths(shared: nat, nonShared: nat, valueLength: nat, size: nat)

  /** DecodeEntry: the lengths at the front of `s`, if the entry fits. */
  function DecodeEntry(s: Bytes): (r: Option<Lengths>)
    ensures r.Some? ==> r.value.size + r.value.nonShared + r.value.valueLength <= |s|
  {
    if |s| < 3 then None
    else
      match GetVarint32(s)
      case None => None
      case Some((shared, s1)) =>
        match GetVarint32(s1)
        case None => None
        case Some((nonShared, s2)) =>
          match GetVarint32(s2)
          case None => None
          case Some((valueLength, s3)) =>
            if |s3| < nonShared + valueLength then None else Some(Lengths(shared, nonShared, valueLength, |s| - |s3|))
  }

  predicate Small(e: Pair) {
    |e.key| < TWO32 && |e.value| < TWO32
  }

  lemma EntryReads(shared: nat, e: Pair, rest: Bytes)
    requires shared <= |e.key| && Small(e)
    ensures var s := EncodeEntry(shared, e) + rest;
            var size := |EncodeEntry(shared, e)| - (|e.key| - shared) - |e.value|;
            && size >= 3 && DecodeEntry(s) == Some(Lengths(shared, |e.key| - shared, |e.value|, size))
            && s[size..size + |e.key| - shared] == e.key[shared..]
            && s[size + |e.key| - shared..|EncodeEntry(shared, e)|] == e.value
  {
    hide Varint, GetVarint32;
    var n := |e.key| - shared;
    var body := e.key[shared..] + e.value;
    var s3 := body + rest;
    var s2 := Varint(|e.value|) + s3;
    var s1 := Varint(n) + s2;
    var s := EncodeEntry(shared, e) + rest;
    EntrySplits(Varint(shared), Varint(n), Varint(|e.value|), body, rest);
    assert s == Varint(shared) + s1;
    GetVarint32Reads(shared, s1);
    GetVarint32Reads(n, s2);
    GetVarint32Reads(|e.value|, s3);
    var size := |s| - |s3|;
    assert s[size..] == s3;
    assert s[size..size + n] == s3[..n] == e.key[shared..];
    assert s[size + n..size + |body|] == s3[n..|body|] == e.value;
  }

  lemma EntrySplits(a: Bytes, b: Bytes, c: Bytes, body: Bytes, rest: Bytes)
    ensures (a + (b + (c + body))) + rest == a + (b + (c + (body + rest)))
  {
  }

  // ---------------------------------------------------------------- a block

  /** How a block lays out its entries: where each begins, how many key bytes it shares with the one before, and which
      entries are restart points. */
  datatype Layout = Layout(offsets: seq<nat>, shared: seq<nat>, starts: seq<nat>)

  /** Entry `i` lies between its offsets, and shares no more with the key before it than it says. */
  ghost predicate EntryOk(data: Bytes, es: seq<Pair>, l: Layout, i: int)
    requires |l.offsets| == |es| + 1 && |l.shared| == |es|
  {
    0 <= i < |es| ==>
      && l.offsets[i] < l.offsets[i + 1] <= |data| && l.shared[i] <= |es[i].key| && Small(es[i])
      && data[l.offsets[i]..l.offsets[i + 1]] == EncodeEntry(l.shared[i], es[i])
      && (l.shared[i] > 0 ==>
          i > 0 && l.shared[i] <= |es[i - 1].key| && es[i].key[..l.shared[i]] == es[i - 1].key[..l.shared[i]])
  }

  /** Restart point `j` begins an entry that shares nothing. */
  ghost predicate StartOk(es: seq<Pair>, l: Layout, restarts: seq<nat>, j: int)
    requires |l.offsets| == |es| + 1 && |l.shared| == |es| && |restarts| == |l.starts|
  {
    0 <= j < |l.starts| ==>
      && (if es == [] then l.starts[j] == 0 else l.starts[j] < |es| && l.shared[l.starts[j]] == 0)
      && restarts[j] == l.offsets[l.starts[j]]
      && (j > 0 ==> l.starts[j - 1] < l.starts[j])
  }

  ghost predicate BlockOk(data: Bytes, restarts: seq<nat>, es: seq<Pair>, l: Layout) {
    && |l.offsets| == |es| + 1 && |l.shared| == |es|
    && l.offsets[0] == 0 && l.offsets[|es|] == |data|
    && (forall i :: EntryOk(data, es, l, i))
    && |l.starts| == |restarts| >= 1 && l.starts[0] == 0 && restarts[0] == 0
    && forall j :: StartOk(es, l, restarts, j)
  }

  lemma {:induction false} OffsetsAscend(data: Bytes, restarts: seq<nat>, es: seq<Pair>, l: Layout, i: nat, j: nat)
    requires BlockOk(data, restarts, es, l) && i <= j <= |es|
    ensures l.offsets[i] <= l.offsets[j] <= |data| && (i < j ==> l.offsets[i] < l.offsets[j])
    decreases j - i
  {
    if i < j {
      assert EntryOk(data, es, l, j - 1);
      OffsetsAscend(data, restarts, es, l, i, j - 1);
    } else if j < |es| {
      assert EntryOk(data, es, l, j);
    }
  }

  lemma {:induction false} StartsAscend(data: Bytes, restarts: seq<nat>, es: seq<Pair>, l: Layout, j: nat, k: nat)
    requires BlockOk(data, restarts, es, l) && j <= k < |l.starts|
    ensures l.starts[j] <= l.starts[k] <= |es| && (j < k ==> l.starts[j] < l.starts[k])
    decreases k - j
  {
    assert StartOk(es, l, restarts, k);
    if j < k {
      StartsAscend(data, restarts, es, l, j, k - 1);
    }
  }

  // ---------------------------------------------------------------- building

  /** The keys have exactly `n` bytes in common at the front. */
  predicate LongestCommon(a: Bytes, b: Bytes, n: nat) {
    && n <= |a| && n <= |b| && b[..n] == a[..n]
    && (n < |a| && n < |b| ==> b[n] != a[n])
  }

  /** The entry shares all it can with the key before it, or nothing at a restart point. */
  ghost predicate Shares(last: Bytes, key: Bytes, restart: bool, n: nat) {
    if restart then n == 0 else LongestCommon(last, key, n)
  }

  class BlockBuilder {
    const interval: nat
    const less: Order
    var buffer: Bytes
    var restarts: seq<nat>
    var counter: nat
    var lastKey: Bytes
    ghost var es: seq<Pair>
    ghost var layout: Layout

    ghost predicate Valid()
      reads this
    {
      && interval >= 1 && BlockOk(buffer, restarts, es, layout) && Sorted(es, less)
      && lastKey == (if es == [] then [] else es[|es| - 1].key)
      // The entries since the last restart point.
      && counter == |es| - layout.starts[|layout.starts| - 1] <= interval
    }

    constructor (n: nat, order: Order)
      requires n >= 1
      ensures Valid() && es == [] && interval == n && less == order
    {
      interval, less := n, order;
      buffer, restarts, counter, lastKey := [], [0], 0, [];
      es, layout := [], Layout([0], [], [0]);
    }

    /** How much of the key to share with the one before. */
    method CommonPrefix(key: Bytes) returns (shared: nat)
      ensures LongestCommon(lastKey, key, shared)
    {
      var minLength := if |lastKey| < |key| then |lastKey| else |key|;
      shared := 0;
      while shared < minLength && lastKey[shared] == key[shared]
        invariant shared <= minLength && key[..shared] == lastKey[..shared]
      {
        shared := shared + 1;
      }
    }

    /** BlockBuilder::Add. */
    method Add(key: Bytes, value: Bytes)
      requires Valid() && (es == [] || less(es[|es| - 1].key, key)) && StrictOrder(less)
      requires |key| < TWO32 && |value| < TWO32
      modifies this
      ensures Valid() && es == old(es) + [Pair(key, value)]
      ensures if old(counter) < interval then restarts == old(restarts) else restarts == old(restarts) + [|old(buffer)|]
      ensures exists shared: nat :: shared <= |key| && Shares(old(lastKey), key, old(counter) >= interval, shared)
                               && buffer == old(buffer) + EncodeEntry(shared, Pair(key, value))
    {
      var shared := 0;
      var restart := counter >= interval;
      if !restart {
        shared := CommonPrefix(key);
      }
      var lengths := PutLengths(shared, |key| - shared, |value|);
      var newKey := lastKey[..shared] + key[shared..];
      assert newKey == key;
      Append(lengths, restart, shared, newKey, key[shared..], value);
    }

    /** The second half of Add: the entry goes into the buffer, and the state follows. */
    method Append(lengths: Bytes, restart: bool, shared: nat, key: Bytes, delta: Bytes, value: Bytes)
      requires Valid() && (es == [] || less(es[|es| - 1].key, key)) && StrictOrder(less) && Small(Pair(key, value))
      requires shared <= |key| && delta == key[shared..] && (restart <==> counter == interval)
      requires lengths == Varint(shared) + (Varint(|key| - shared) + Varint(|value|))
      requires restart ==> shared == 0
      requires shared > 0 ==> es != [] && shared <= |es[|es| - 1].key| && key[..shared] == es[|es| - 1].key[..shared]
      modifies this
      ensures Valid() && es == old(es) + [Pair(key, value)]
      ensures restarts == if restart then old(restarts) + [|old(buffer)|] else old(restarts)
      ensures buffer == old(buffer) + EncodeEntry(shared, Pair(key, value))
    {
      hide Sorted, Varint, EncodeEntry, EntryOk, StartOk;
      ghost var e := Pair(key, value);
      AppendEntry(buffer, restarts, es, layout, restart, shared, e);
      SortedAppend(es, e, less);
      EntryBytes(buffer, lengths, shared, e);
      layout := Grown(layout, |buffer + EncodeEntry(shared, e)|, shared,
                      if restart then layout.starts + [|es|] else layout.starts);
      if restart {
        restarts := restarts + [|buffer|];
        counter := 0;
      }
      buffer := buffer + lengths + (delta + value);
      lastKey := key;
      counter := counter + 1;
      es := es + [e];
    }

    lemma EntryBytes(buffer: Bytes, lengths: Bytes, shared: nat, e: Pair)
      requires shared <= |e.key| && lengths == Varint(shared) + (Varint(|e.key| - shared) + Varint(|e.value|))
      ensures buffer + lengths + (e.key[shared..] + e.value) == buffer + EncodeEntry(shared, e)
    {
      assert lengths + (e.key[shared..] + e.value) == EncodeEntry(shared, e);
    }

    /** BlockBuilder::Finish. */
    method Finish() returns (block: Bytes)
      requires Valid() && |restarts| < TWO32 && |buffer| < TWO32
      ensures (forall i :: 0 <= i < |restarts| ==> restarts[i] < TWO32) && block == Finished(buffer, restarts)
    {
      forall i | 0 <= i < |restarts|
        ensures restarts[i] < TWO32
      {
        assert StartOk(es, layout, restarts, i);
        OffsetsAscend(buffer, restarts, es, layout, layout.starts[i], |es|);
      }
      block := [];
      for i := 0 to |restarts|
        invariant block == FixedAll(restarts[..i])
      {
        assert restarts[..i + 1][..i] == restarts[..i];
        block := block + Fixed32(restarts[i]);
      }
      assert restarts[..|restarts|] == restarts;
      block := buffer + (block + Fixed32(|restarts|));
    }

    method PutLengths(shared: nat, nonShared: nat, valueLength: nat) returns (bytes: Bytes)
      requires shared < TWO32 && nonShared < TWO32 && valueLength < TWO32
      ensures bytes == Varint(shared) + (Varint(nonShared) + Varint(valueLength))
    {
      var a := EncodeVarint32(shared);
      var b := EncodeVarint32(nonShared);
      var c := EncodeVarint32(valueLength);
      bytes := a + (b + c);
    }
  }

  lemma SortedAppend(es: seq<Pair>, e: Pair, less: Order)
    requires Sorted(es, less) && StrictOrder(less) && (es == [] || less(es[|es| - 1].key, e.key))
    ensures Sorted(es + [e], less)
  {
    var n := |es| - 1;
    forall i, j
      ensures Ascends(es + [e], less, i, j)
    {
      if 0 <= i < j == n + 1 {
        assert Ascends(es, less, i, n);
        assert i < n ==> less(es[i].key, es[n].key) && less(es[n].key, e.key);
      } else {
        assert Ascends(es, less, i, j);
      }
    }
  }

  /** The layout after one more entry. */
  ghost function Grown(l: Layout, end: nat, shared: nat, starts: seq<nat>): Layout {
    Layout(l.offsets + [end], l.shared + [shared], starts)
  }

  lemma EntriesStay(buffer: Bytes, es: seq<Pair>, l: Layout, starts: seq<nat>, shared: nat, e: Pair, i: int)
    requires |l.offsets| == |es| + 1 && |l.shared| == |es| && l.offsets[|es|] == |buffer|
    requires EntryOk(buffer, es, l, i) && shared <= |e.key| && Small(e)
    requires shared > 0 ==> es != [] && shared <= |es[|es| - 1].key| && e.key[..shared] == es[|es| - 1].key[..shared]
    ensures var buffer' := buffer + EncodeEntry(shared, e);
            EntryOk(buffer', es + [e], Grown(l, |buffer'|, shared, starts), i)
  {
    var buffer' := buffer + EncodeEntry(shared, e);
    if 0 <= i < |es| {
      assert buffer'[l.offsets[i]..l.offsets[i + 1]] == buffer[l.offsets[i]..l.offsets[i + 1]];
    } else if i == |es| {
      assert buffer'[|buffer|..|buffer'|] == EncodeEntry(shared, e);
      assert |EncodeEntry(shared, e)| > 0;
    }
  }

  // ---------------------------------------------------------------- the finished block

  function FixedAll(ns: seq<nat>): Bytes
    requires forall i :: 0 <= i < |ns| ==> ns[i] < TWO32
  {
    if ns == [] then [] else FixedAll(ns[..|ns| - 1]) + Fixed32(ns[|ns| - 1])
  }

  lemma {:induction false} FixedAllReads(ns: seq<nat>, i: nat)
    requires (forall k :: 0 <= k < |ns| ==> ns[k] < TWO32) && i < |ns|
    ensures |FixedAll(ns)| == 4 * |ns| && FixedAll(ns)[4 * i..4 * i + 4] == Fixed32(ns[i])
  {
    var n := |ns| - 1;
    if n > 0 {
      FixedAllReads(ns[..n], if i < n then i else 0);
    }
    assert FixedAll(ns) == FixedAll(ns[..n]) + Fixed32(ns[n]);
    if i < n {
      assert FixedAll(ns)[4 * i..4 * i + 4] == FixedAll(ns[..n])[4 * i..4 * i + 4];
    }
  }

  /** BlockBuilder::Finish: the entries, the restart points, and how many there are. */
  function Finished(buffer: Bytes, restarts: seq<nat>): Bytes
    requires |restarts| < TWO32 && forall i :: 0 <= i < |restarts| ==> restarts[i] < TWO32
  {
    buffer + (FixedAll(restarts) + Fixed32(|restarts|))
  }

  /** Block::NumRestarts. */
  function NumRestarts(block: Bytes): Word
    requires |block| >= 4
  {
    DecodeFixed32(block[|block| - 4..])
  }

  /** Block::Block: where the restart points begin; None if the block cannot hold as many as it claims. */
  function RestartOffset(block: Bytes): (r: Option<nat>)
    ensures r.Some? ==> |block| >= 4 && r.value + 4 * NumRestarts(block) + 4 == |block|
  {
    if |block| < 4 || NumRestarts(block) > (|block| - 4) / 4 then None
    else Some(|block| - (1 + NumRestarts(block)) * 4)
  }

  /** Block::Iter::GetRestartPoint. */
  function RestartPoint(block: Bytes, offset: nat, i: nat): Word
    requires offset + 4 * i + 4 <= |block|
  {
    DecodeFixed32(block[offset + 4 * i..offset + 4 * i + 4])
  }

  /** A finished block is taken apart again. */
  lemma FinishedOpens(buffer: Bytes, restarts: seq<nat>)
    requires 0 < |restarts| < TWO32 && forall i :: 0 <= i < |restarts| ==> restarts[i] < TWO32
    ensures var block := Finished(buffer, restarts);
            && |block| >= 4 && NumRestarts(block) == |restarts| && RestartOffset(block) == Some(|buffer|)
            && block[..|buffer|] == buffer
            && forall i :: 0 <= i < |restarts| ==> RestartPoint(block, |buffer|, i) == restarts[i]
  {
    var block := Finished(buffer, restarts);
    var all := FixedAll(restarts);
    FixedAllReads(restarts, 0);
    assert block[|block| - 4..] == Fixed32(|restarts|);
    Fixed32RoundTrip(|restarts|);
    forall i | 0 <= i < |restarts|
      ensures RestartPoint(block, |buffer|, i) == restarts[i]
    {
      FixedAllReads(restarts, i);
      assert block[|buffer| + 4 * i..|buffer| + 4 * i + 4] == all[4 * i..4 * i + 4];
      Fixed32RoundTrip(restarts[i]);
    }
  }

  /** Adding one entry, with a new restart point or without, keeps the block in order. */
  lemma AppendEntry(buffer: Bytes, restarts: seq<nat>, es: seq<Pair>, l: Layout, restart: bool, shared: nat, e: Pair)
    requires BlockOk(buffer, restarts, es, l) && Small(e) && shared <= |e.key|
    requires shared > 0 ==> es != [] && shared <= |es[|es| - 1].key| && e.key[..shared] == es[|es| - 1].key[..shared]
    requires restart ==> shared == 0 && l.starts[|l.starts| - 1] < |es|
    ensures var buffer' := buffer + EncodeEntry(shared, e);
            BlockOk(buffer', if restart then restarts + [|buffer|] else restarts, es + [e],
                    Grown(l, |buffer'|, shared, if restart then l.starts + [|es|] else l.starts))
  {
    var buffer' := buffer + EncodeEntry(shared, e);
    var starts := if restart then l.starts + [|es|] else l.starts;
    var restarts' := if restart then restarts + [|buffer|] else restarts;
    forall i
      ensures EntryOk(buffer', es + [e], Grown(l, |buffer'|, shared, starts), i)
    {
      assert EntryOk(buffer, es, l, i);
      EntriesStay(buffer, es, l, starts, shared, e, i);
    }
    forall j
      ensures StartOk(es + [e], Grown(l, |buffer'|, shared, starts), restarts', j)
    {
      assert StartOk(es, l, restarts, j);
    }
  }
}
