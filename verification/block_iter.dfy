// Iterating and searching a block: Block::Iter in table/block.cc.
module BlockIterators {
  import opened Basics
  import opened Varints
  import opened Coding
  import opened Blocks

  /** The entries of a block, how it lays them out, and its bytes agree. */
  ghost predicate Holds(block: Bytes, data: nat, num: nat, es: seq<Pair>, l: Layout, restarts: seq<nat>) {
    && data + 4 * num + 4 == |block| && |restarts| == num
    && BlockOk(block[..data], restarts, es, l)
    && forall j :: 0 <= j < num ==> RestartPoint(block, data, j) == restarts[j]
  }

  lemma SubSlice(s: Bytes, o: nat, e: nat, a: nat, b: nat)
    requires o <= e <= |s| && a <= b <= e - o
    ensures s[o..e][a..b] == s[o + a..o + b]
  {
    var x, y := s[o..e][a..b], s[o + a..o + b];
    assert |x| == |y|;
    forall i | 0 <= i < |x| ensures x[i] == y[i] { }
  }

  lemma SliceOfPrefix(s: Bytes, o: nat, e: nat, n: nat)
    requires o <= e <= n <= |s|
    ensures s[..n][o..e] == s[o..e]
  {
  }

  lemma SliceSplits(s: Bytes, o: nat, m: nat, e: nat)
    requires o <= m <= e <= |s|
    ensures s[o..e] == s[o..m] + s[m..e]
  {
  }

  lemma KeyJoins(before: Bytes, shared: nat, delta: Bytes, whole: Bytes)
    requires shared <= |before| && shared <= |whole| && before[..shared] == whole[..shared] && delta == whole[shared..]
    ensures before[..shared] + delta == whole
  {
  }

  /** An entry found in place. */
  lemma EntryIn(block: Bytes, o: nat, o': nat, end: nat, shared: nat, e: Pair)
    requires o <= o' <= end <= |block| && shared <= |e.key| && Small(e) && block[o..o'] == EncodeEntry(shared, e)
    ensures var n := |e.key| - shared;
            var r := DecodeEntry(block[o..end]);
            && r.Some? && r.value.shared == shared && r.value.nonShared == n && r.value.valueLength == |e.value|
            && o + r.value.size + n + |e.value| == o'
            && block[o + r.value.size..o + r.value.size + n] == e.key[shared..]
            && block[o + r.value.size + n..o'] == e.value
  {
    hide EncodeEntry, DecodeEntry;
    var s, n := block[o..end], |e.key| - shared;
    SliceSplits(block, o, o', end);
    EntryReads(shared, e, block[o'..end]);
    var size := DecodeEntry(s).value.size;
    SubSlice(block, o, end, size, size + n);
    SubSlice(block, o, end, size + n, o' - o);
  }

  class BlockIter {
    const less: Order
    const block: Bytes
    const restartsAt: nat
    const num: nat
    var current: nat
    var restartIndex: nat
    var key: Bytes
    var valueStart: nat
    var valueEnd: nat
    ghost const es: seq<Pair>
    ghost const layout: Layout
    ghost const restarts: seq<nat>
    // The abstract cursor: an index into `es`, with |es| for an invalid iterator.
    ghost var pos: nat

    ghost predicate Shape() {
      Holds(block, restartsAt, num, es, layout, restarts) && Sorted(es, less) && StrictOrder(less)
    }

    /** The next parse will read entry `i`. */
    ghost predicate Ready(i: nat)
      reads this
    {
      && Shape() && i <= |es| && valueEnd == layout.offsets[i]
      && (i < |es| && layout.shared[i] > 0 ==> i > 0 && key == es[i - 1].key)
      && restartIndex < num && layout.starts[restartIndex] <= i
    }

    /** The restart index is at or just before the region of the current entry. */
    ghost predicate Valid()
      reads this
    {
      && Shape() && pos <= |es|
      && if pos == |es| then current == restartsAt
         else
           && current == layout.offsets[pos] && key == es[pos].key
           && valueStart <= valueEnd == layout.offsets[pos + 1] <= |block|
           && block[valueStart..valueEnd] == es[pos].value
           && restartIndex < num && layout.starts[restartIndex] <= pos
           && (restartIndex + 1 < num ==> pos <= layout.starts[restartIndex + 1])
    }

    /** Block::NewIterator on a finished block. */
    constructor (order: Order, buffer: Bytes, ghost points: seq<nat>, contents: Bytes, ghost entries: seq<Pair>,
                 ghost l: Layout)
      requires BlockOk(buffer, points, entries, l) && Sorted(entries, order) && StrictOrder(order)
      requires |points| < TWO32 && (forall i :: 0 <= i < |points| ==> points[i] < TWO32)
                   && contents == Finished(buffer, points)
      ensures Valid() && es == entries && less == order && pos == |es|
    {
      FinishedOpens(buffer, points);
      less, block := order, contents;
      restartsAt, num := RestartOffset(contents).value, NumRestarts(contents);
      current, restartIndex := RestartOffset(contents).value, NumRestarts(contents);
      key, valueStart, valueEnd := [], 0, 0;
      es, layout, restarts := entries, l, points;
      pos := |entries|;
    }

    predicate IsValid()
      reads this
    {
      current < restartsAt
    }

    lemma ValidMeansInside()
      requires Valid()
      ensures IsValid() <==> pos < |es|
    {
      if pos < |es| {
        OffsetsAscend(block[..restartsAt], restarts, es, layout, pos, |es|);
      }
    }

    function Key(): Bytes
      requires Valid() && IsValid()
      reads this
    {
      key
    }

    function Value(): Bytes
      requires Valid() && valueStart <= valueEnd <= |block|
      reads this
    {
      block[valueStart..valueEnd]
    }

    /** SeekToRestartPoint. */
    method SeekToRestartPoint(index: nat)
      requires Shape() && index < num
      modifies this`key, this`restartIndex, this`valueStart, this`valueEnd
      ensures Ready(layout.starts[index]) && restartIndex == index
    {
      assert StartOk(es, layout, restarts, index);
      key := [];
      restartIndex := index;
      valueStart, valueEnd := RestartPoint(block, restartsAt, index), RestartPoint(block, restartsAt, index);
    }

    /** What DecodeEntry finds at entry `i`. */
    lemma EntryAt(i: nat)
      requires Shape() && i < |es|
      ensures var o, o' := layout.offsets[i], layout.offsets[i + 1];
              var n := |es[i].key| - layout.shared[i];
              && o < o' <= restartsAt <= |block|
              && var r := DecodeEntry(block[o..restartsAt]);
              && r.Some? && r.value.shared == layout.shared[i] && r.value.nonShared == n
              && r.value.valueLength == |es[i].value|
              && o + r.value.size + n + |es[i].value| == o'
              && block[o + r.value.size..o + r.value.size + n] == es[i].key[layout.shared[i]..]
              && block[o + r.value.size + n..o'] == es[i].value
    {
      var o, o' := layout.offsets[i], layout.offsets[i + 1];
      assert EntryOk(block[..restartsAt], es, layout, i);
      SliceOfPrefix(block, o, o', restartsAt);
      EntryIn(block, o, o', restartsAt, layout.shared[i], es[i]);
    }

    /** ParseNextKey: entry `i`, or the end of the block. */
    method ParseNextKey(ghost i: nat) returns (ok: bool)
      requires Ready(i)
      modifies this
      ensures Valid() && pos == i && (ok <==> i < |es|)
      ensures ok ==> old(restartIndex) <= restartIndex
    {
      current := valueEnd;
      AtEnd(i);
      if current >= restartsAt {
        current, restartIndex, pos := restartsAt, num, i;
        return false;
      }
      ReadEntry(i);
      AdvanceRestart();
      ok := true;
    }

    lemma AtEnd(i: nat)
      requires Ready(i)
      ensures valueEnd >= restartsAt <==> i == |es|
    {
      OffsetsAscend(block[..restartsAt], restarts, es, layout, i, |es|);
    }

    /** The entry at the current offset, on top of the key before it. */
    method ReadEntry(ghost i: nat)
      requires Ready(i) && i < |es| && current == layout.offsets[i]
      modifies this`key, this`valueStart, this`valueEnd, this`pos
      ensures pos == i && key == es[i].key && valueStart <= valueEnd == layout.offsets[i + 1] <= |block|
      ensures block[valueStart..valueEnd] == es[i].value
    {
      EntryAt(i);
      SharedKey(i);
      var r := DecodeEntry(block[current..restartsAt]).value;
      var p := current + r.size;
      KeyJoins(key, r.shared, block[p..p + r.nonShared], es[i].key);
      key := key[..r.shared] + block[p..p + r.nonShared];
      valueStart, valueEnd := p + r.nonShared, p + r.nonShared + r.valueLength;
      pos := i;
    }

    lemma SharedKey(i: nat)
      requires Ready(i) && i < |es|
      ensures layout.shared[i] <= |key| && layout.shared[i] <= |es[i].key|
              && key[..layout.shared[i]] == es[i].key[..layout.shared[i]]
    {
      assert EntryOk(block[..restartsAt], es, layout, i);
    }

    /** The loop that keeps the restart index in step. */
    method AdvanceRestart()
      requires Shape() && pos < |es| && current == layout.offsets[pos]
      requires restartIndex < num && layout.starts[restartIndex] <= pos
      modifies this`restartIndex
      ensures old(restartIndex) <= restartIndex < num && layout.starts[restartIndex] <= pos
      ensures restartIndex + 1 < num ==> pos <= layout.starts[restartIndex + 1]
    {
      while restartIndex + 1 < num && RestartPoint(block, restartsAt, restartIndex + 1) < current
        invariant old(restartIndex) <= restartIndex < num && layout.starts[restartIndex] <= pos
        decreases num - restartIndex
      {
        BeforeOffset(restartIndex + 1);
        restartIndex := restartIndex + 1;
      }
      if restartIndex + 1 < num {
        BeforeOffset(restartIndex + 1);
      }
    }

    /** Comparing a restart point with the current offset compares entry numbers. */
    lemma BeforeOffset(j: nat)
      requires Shape() && j < num && pos < |es| && current == layout.offsets[pos]
      ensures RestartPoint(block, restartsAt, j) < current <==> layout.starts[j] < pos
    {
      var data := block[..restartsAt];
      assert StartOk(es, layout, restarts, j);
      var s := layout.starts[j];
      if s < pos {
        OffsetsAscend(data, restarts, es, layout, s, pos);
      } else {
        OffsetsAscend(data, restarts, es, layout, pos, s);
      }
    }
  
    /** Next. */
    method Next()
      requires Valid() && IsValid()
      modifies this
      ensures Valid() && pos == old(pos) + 1
    {
      ValidMeansInside();
      assert Ready(pos + 1);
      var _ := ParseNextKey(pos + 1);
    }

    /** SeekToFirst. */
    method SeekToFirst()
      requires Valid()
      modifies this
      ensures Valid() && pos == 0
    {
      SeekToRestartPoint(0);
      var _ := ParseNextKey(layout.starts[0]);
    }

    /** Parse on from entry `i` until an entry ends at or after `offset`. */
    method SkipTo(offset: nat, ghost i: nat, ghost goal: nat)
      requires Ready(i) && (es == [] || (i <= goal < |es| && offset == layout.offsets[goal + 1]))
      modifies this
      ensures Valid() && pos == if es == [] then 0 else goal
    {
      ghost var k := i;
      while true
        invariant Ready(k) && (es == [] || k <= goal)
        decreases goal - k
      {
        var ok := ParseNextKey(k);
        if !ok {
          break;
        }
        EntryEnds(k, goal);
        if valueEnd >= offset {
          break;
        }
        k := k + 1;
      }
    }

    lemma EntryEnds(k: nat, goal: nat)
      requires Shape() && k <= goal < |es|
      ensures layout.offsets[k + 1] >= layout.offsets[goal + 1] <==> k == goal
    {
      OffsetsAscend(block[..restartsAt], restarts, es, layout, k + 1, goal + 1);
    }

    /** SeekToLast. */
    method SeekToLast()
      requires Valid()
      modifies this
      ensures Valid() && pos == if es == [] then 0 else |es| - 1
    {
      SeekToRestartPoint(num - 1);
      assert StartOk(es, layout, restarts, num - 1);
      SkipTo(restartsAt, layout.starts[num - 1], if es == [] then 0 else |es| - 1);
    }

    /** Prev: back to a restart point before the entry, then forward to the entry before it. */
    method Prev()
      requires Valid() && IsValid()
      modifies this
      ensures Valid() && pos == if old(pos) == 0 then |es| else old(pos) - 1
    {
      ValidMeansInside();
      var original := current;
      ghost var goal := pos;
      while RestartPoint(block, restartsAt, restartIndex) >= original
        invariant Shape() && pos == goal < |es| && original == current == layout.offsets[pos] && restartIndex < num
        decreases restartIndex
      {
        if restartIndex == 0 {
          BeforeOffset(0);
          current, restartIndex, pos := restartsAt, num, |es|;
          return;
        }
        restartIndex := restartIndex - 1;
      }
      BeforeOffset(restartIndex);
      SeekToRestartPoint(restartIndex);
      SkipTo(original, layout.starts[restartIndex], goal - 1);
    }

    /** The key at a restart point is stored whole. */
    method RestartKey(index: nat) returns (k: Bytes)
      requires Shape() && index < num && es != []
      ensures layout.starts[index] < |es| && k == es[layout.starts[index]].key
    {
      assert StartOk(es, layout, restarts, index);
      ghost var i := layout.starts[index];
      EntryAt(i);
      var offset := RestartPoint(block, restartsAt, index);
      var r := DecodeEntry(block[offset..restartsAt]);
      k := block[offset + r.value.size..offset + r.value.size + r.value.nonShared];
    }

    /** The binary search of Seek: a restart point with everything before it below the target. */
    method LastRestartBefore(target: Bytes) returns (left: nat)
      requires Shape()
      ensures left < num && layout.starts[left] <= |es|
      ensures forall i :: 0 <= i < layout.starts[left] ==> less(es[i].key, target)
    {
      left := 0;
      var right := num - 1;
      while left < right
        invariant left <= right < num
        invariant left > 0 ==> layout.starts[left] < |es| && less(es[layout.starts[left]].key, target)
        decreases right - left
      {
        var mid := (left + right + 1) / 2;
        StartsAscend(block[..restartsAt], restarts, es, layout, 0, mid);
        assert StartOk(es, layout, restarts, mid);
        var midKey := RestartKey(mid);
        if less(midKey, target) {
          left := mid;
        } else {
          right := mid - 1;
        }
      }
      assert StartOk(es, layout, restarts, left);
      forall i | 0 <= i < layout.starts[left]
        ensures less(es[i].key, target)
      {
        assert Ascends(es, less, i, layout.starts[left]);
      }
    }

    /** Seek: the first entry not below the target. */
    method Seek(target: Bytes)
      requires Valid()
      modifies this
      ensures Valid()
      ensures forall i :: 0 <= i < pos ==> less(es[i].key, target)
      ensures forall i :: pos <= i < |es| ==> !less(es[i].key, target)
    {
      var left := LastRestartBefore(target);
      SeekToRestartPoint(left);
      ghost var k := layout.starts[left];
      while true
        invariant Ready(k) && forall i :: 0 <= i < k ==> less(es[i].key, target)
        decreases |es| - k
      {
        var ok := ParseNextKey(k);
        if !ok {
          return;
        }
        if !less(key, target) {
          NotBelow(target);
          return;
        }
        k := k + 1;
      }
    }

    lemma NotBelow(target: Bytes)
      requires Shape() && pos < |es| && !less(es[pos].key, target)
      ensures forall i :: pos <= i < |es| ==> !less(es[i].key, target)
    {
      forall i | pos <= i < |es|
        ensures !less(es[i].key, target)
      {
        var a, b := es[pos].key, es[i].key;
        assert Ascends(es, less, pos, i);
        assert less(a, b) && less(b, target) ==> less(a, target);
      }
    }
  }
}
