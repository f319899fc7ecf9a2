// table/merger.cc: one cursor over the sorted merge of several sorted children.
module MergingIterators {
  import opened Basics
  import opened InternalKeys
  import opened ReadSpec

  /** A child iterator: a position in a sorted sequence; `index == |data|` is the invalid position. */
  class Cursor {
    const data: seq<Entry>
    var index: nat

    constructor (entries: seq<Entry>)
      ensures data == entries && index == |entries|
    {
      data := entries;
      index := |entries|;
    }

    predicate Valid()
      reads this
    {
      index < |data|
    }

    function Current(): Entry
      requires Valid()
      reads this
    {
      data[index]
    }

    method SeekToFirst()
      modifies this
      ensures index == 0
    {
      index := 0;
    }

    method SeekToLast()
      modifies this
      ensures index == Before(|data|)
    {
      index := if |data| == 0 then 0 else |data| - 1;
    }

    method Seek(k: Key)
      requires Sorted(data)
      modifies this
      ensures index == LowerBound(data, k)
    {
      index := LowerBound(data, k);
    }

    method Next()
      requires Valid()
      modifies this
      ensures index == old(index) + 1
    {
      index := index + 1;
    }

    method Prev()
      requires Valid()
      modifies this
      ensures index == Before(old(index))
    {
      index := if index == 0 then |data| else index - 1;
    }

    /** The position just before `i`; stepping off the front makes the iterator invalid. */
    function Before(i: nat): nat {
      if i == 0 then |data| else i - 1
    }
  }

  /** `k` comes before position `p` of the merged sequence; `p == |merged|` is past every entry. */
  ghost predicate KeyBefore(merged: seq<Entry>, p: nat, k: Key) {
    p < |merged| ==> Less(k, merged[p].key)
  }

  /** Position `b` of `data` separates the entries before and from position `p` of `merged`. */
  ghost predicate Splits(data: seq<Entry>, b: nat, merged: seq<Entry>, p: nat) {
    && b <= |data|
    && (forall j :: 0 <= j < b ==> KeyBefore(merged, p, data[j].key))
    && (forall j :: b <= j < |data| ==> !KeyBefore(merged, p, data[j].key))
  }

  /** `merged` is the sorted merge of `parts`, and the parts share no entry. */
  ghost predicate IsMerge(parts: seq<seq<Entry>>, merged: seq<Entry>) {
    && Sorted(merged)
    && (forall i :: 0 <= i < |parts| ==> Sorted(parts[i]))
    && (forall i, e :: 0 <= i < |parts| && e in parts[i] ==> e in merged)
    && (forall e :: e in merged ==> exists i :: 0 <= i < |parts| && e in parts[i])
    && (forall i, j, e :: 0 <= i < j < |parts| && e in parts[i] ==> e !in parts[j])
  }

  lemma SameKeySameEntry(merged: seq<Entry>, e: Entry, f: Entry)
    requires Sorted(merged) && e in merged && f in merged && e.key == f.key
    ensures e == f
  {
    var i :| 0 <= i < |merged| && merged[i] == e;
    var j :| 0 <= j < |merged| && merged[j] == f;
    assert InOrder(merged, i, j) && InOrder(merged, j, i);
  }

  lemma SplitByKey(data: seq<Entry>, merged: seq<Entry>, k: Key)
    requires Sorted(data) && Sorted(merged) && forall e :: e in data ==> e in merged
    ensures Splits(data, LowerBound(data, k), merged, LowerBound(merged, k))
  {
    var b, p := LowerBound(data, k), LowerBound(merged, k);
    forall j | b <= j < |data|
      ensures !KeyBefore(merged, p, data[j].key)
    {
      assert data[j] in merged;
      var m :| 0 <= m < |merged| && merged[m] == data[j];
      assert m >= p;
      assert InOrder(merged, p, m);
    }
  }

  lemma SplitAtEntry(data: seq<Entry>, b: nat, merged: seq<Entry>, p: nat)
    requires Sorted(data) && b < |data| && p < |merged| && data[b] == merged[p]
    ensures Splits(data, b, merged, p)
  {
    forall j | 0 <= j < |data|
      ensures j < b <==> KeyBefore(merged, p, data[j].key)
    {
      assert InOrder(data, j, b) && InOrder(data, b, j);
    }
  }

  /** Moving the separator over the current entry moves it only in the part that owns the entry. */
  lemma SplitAdvance(data: seq<Entry>, b: nat, merged: seq<Entry>, p: nat)
    requires Sorted(data) && Sorted(merged) && (forall e :: e in data ==> e in merged)
    requires p < |merged| && Splits(data, b, merged, p)
    ensures b < |data| && data[b] == merged[p] ==> Splits(data, b + 1, merged, p + 1)
    ensures merged[p] !in data ==> Splits(data, b, merged, p + 1)
  {
    forall j | 0 <= j < |data|
      ensures j < b ==> KeyBefore(merged, p + 1, data[j].key)
      ensures j >= b && data[j] != merged[p] ==> !KeyBefore(merged, p + 1, data[j].key)
      ensures data[j] == merged[p] ==> KeyBefore(merged, p + 1, data[j].key)
      ensures b < |data| && data[b] == merged[p] && j > b ==> data[j] != merged[p]
    {
      assert data[j] in merged;
      var m :| 0 <= m < |merged| && merged[m] == data[j];
      assert InOrder(merged, m, p) && InOrder(merged, p, m) && InOrder(merged, p, p + 1);
      assert InOrder(merged, m, p + 1) && InOrder(merged, p + 1, m);
      assert InOrder(data, b, j);
    }
  }

  /** At a separator, the part that holds merged[p] is positioned exactly on it, and no part is before it. */
  lemma HeadOfSplit(data: seq<Entry>, b: nat, merged: seq<Entry>, p: nat)
    requires Sorted(data) && Sorted(merged) && p < |merged| && Splits(data, b, merged, p)
    ensures merged[p] in data ==> b < |data| && data[b] == merged[p]
    ensures b < |data| ==> AtMost(merged[p].key, data[b].key)
  {
    if merged[p] in data {
      var j :| 0 <= j < |data| && data[j] == merged[p];
      assert j >= b && InOrder(data, b, j);
    }
  }

  /** Likewise just before a separator, for the entry merged[p - 1]. */
  lemma TailOfSplit(data: seq<Entry>, b: nat, merged: seq<Entry>, p: nat)
    requires Sorted(data) && Sorted(merged) && (forall e :: e in data ==> e in merged)
    requires 0 < p <= |merged| && Splits(data, b, merged, p)
    ensures merged[p - 1] in data ==> b > 0 && data[b - 1] == merged[p - 1]
    ensures b > 0 ==> AtMost(data[b - 1].key, merged[p - 1].key)
  {
    assert InOrder(merged, p - 1, p);
    if merged[p - 1] in data {
      var j :| 0 <= j < |data| && data[j] == merged[p - 1];
      assert j < b && InOrder(data, j, b - 1);
    }
    if b > 0 {
      assert data[b - 1] in merged;
      var m :| 0 <= m < |merged| && merged[m] == data[b - 1];
      assert InOrder(merged, m, p) && InOrder(merged, p, m) && InOrder(merged, m, p - 1);
    }
  }

  /** Sorted parts with pairwise different keys have a merge. */
  lemma MergeExists(parts: seq<seq<Entry>>) returns (merged: seq<Entry>)
    requires forall i :: 0 <= i < |parts| ==> Sorted(parts[i])
    requires forall i, j, e, f {:trigger parts[i], parts[j], SameKey(e, f)} ::
               0 <= i < j < |parts| && e in parts[i] && f in parts[j] ==> !SameKey(e, f)
    ensures IsMerge(parts, merged)
  {
    var es := set i, e | 0 <= i < |parts| && e in parts[i] :: e;
    forall e, f | e in es && f in es && SameKey(e, f)
      ensures e == f
    {
      var i :| 0 <= i < |parts| && e in parts[i];
      var j :| 0 <= j < |parts| && f in parts[j];
      assert i < j ==> !SameKey(e, f);
      assert j < i ==> !SameKey(f, e);
      SameKeySameEntry(parts[i], e, f);
    }
    merged := SortedListing(es);
    forall i, j, e | 0 <= i < j < |parts| && e in parts[i]
      ensures e !in parts[j]
    {
      assert e in parts[j] ==> !SameKey(e, e);
    }
  }

  datatype Direction = Forward | Reverse

  class MergingIterator {
    const children: seq<Cursor>
    var current: Option<nat>
    var direction: Direction
    // The abstract cursor: position `at` in `merged`, with |merged| for an invalid iterator.
    ghost const merged: seq<Entry>
    ghost var at: nat

    ghost predicate Shape() {
      && (forall i, j :: 0 <= i < j < |children| ==> children[i] != children[j])
      && IsMerge(Parts(), merged)
    }

    ghost function Parts(): seq<seq<Entry>> {
      seq(|children|, i requires 0 <= i < |children| => children[i].data)
    }

    ghost predicate ChildSplits(i: nat, b: nat, p: nat)
      requires i < |children|
    {
      Splits(children[i].data, b, merged, p)
    }

    /** Every child is at its first entry from position `p` on. */
    ghost predicate AllAhead(p: nat)
      reads children
    {
      forall i {:trigger ChildSplits(i, children[i].index, p)} :: 0 <= i < |children| ==>
        ChildSplits(i, children[i].index, p)
    }

    /** Child `i` is at its last entry before position `p`. */
    ghost predicate Behind(i: nat, p: nat)
      requires i < |children|
      reads children[i]
    {
      exists b: nat :: ChildSplits(i, b, p) && children[i].index == children[i].Before(b)
    }

    ghost predicate AllBehind(p: nat)
      reads children
    {
      forall i {:trigger Behind(i, p)} :: 0 <= i < |children| ==> Behind(i, p)
    }

    ghost predicate OthersBehind(c: nat, p: nat)
      reads children
    {
      forall i {:trigger Behind(i, p)} :: 0 <= i < |children| && i != c ==> Behind(i, p)
    }

    ghost predicate Valid()
      reads this, children
    {
      && Shape() && at <= |merged|
      && (current.None? <==> at == |merged|)
      && (current.Some? ==>
            && current.value < |children|
            && children[current.value].Valid() && children[current.value].Current() == merged[at]
            && (direction.Forward? ==> AllAhead(at))
            && (direction.Reverse? ==> OthersBehind(current.value, at)))
    }

    constructor (cursors: seq<Cursor>, ghost entries: seq<Entry>)
      requires forall i, j :: 0 <= i < j < |cursors| ==> cursors[i] != cursors[j]
      requires IsMerge(seq(|cursors|, i requires 0 <= i < |cursors| => cursors[i].data), entries)
      ensures Valid() && children == cursors && merged == entries && at == |merged|
    {
      children := cursors;
      current := None;
      direction := Forward;
      merged := entries;
      at := |entries|;
    }

    predicate IsValid()
      reads this
    {
      current.Some?
    }

    function Entry(): Entry
      requires Valid() && IsValid()
      reads this, children
      ensures Entry() == merged[at]
    {
      children[current.value].Current()
    }

    lemma ChildFacts(i: nat)
      requires Shape() && i < |children|
      ensures Sorted(children[i].data) && forall e :: e in children[i].data ==> e in merged
    {
      assert Parts()[i] == children[i].data;
    }

    lemma Owner(e: Entry) returns (i: nat)
      requires Shape() && e in merged
      ensures i < |children| && e in children[i].data
      ensures forall j :: 0 <= j < |children| && j != i ==> e !in children[j].data
    {
      i :| 0 <= i < |Parts()| && e in Parts()[i];
      forall j | 0 <= j < |children| && j != i
        ensures e !in children[j].data
      {
        assert Parts()[j] == children[j].data;
      }
    }

    method FindSmallest(ghost p: nat)
      requires Shape() && p <= |merged| && AllAhead(p)
      modifies this
      ensures at == p && direction == old(direction)
      ensures direction.Forward? ==> Valid()
    {
      current := None;
      for i := 0 to |children|
        invariant direction == old(direction)
        invariant current.Some? ==> current.value < i && children[current.value].Valid()
        invariant forall j :: 0 <= j < i && children[j].Valid() ==>
          current.Some? && AtMost(children[current.value].Current().key, children[j].Current().key)
      {
        if children[i].Valid() {
          if current.None? {
            current := Some(i);
          } else if Less(children[i].Current().key, children[current.value].Current().key) {
            current := Some(i);
          }
        }
      }
      at := p;
      SmallestIsNext(current, p);
    }

    lemma SmallestIsNext(c: Option<nat>, p: nat)
      requires Shape() && p <= |merged| && AllAhead(p)
      requires c.Some? ==> c.value < |children| && children[c.value].Valid()
      requires forall j :: 0 <= j < |children| && children[j].Valid() ==>
        c.Some? && AtMost(children[c.value].Current().key, children[j].Current().key)
      ensures c.None? <==> p == |merged|
      ensures c.Some? ==> children[c.value].Current() == merged[p]
    {
      assert c.Some? ==> ChildSplits(c.value, children[c.value].index, p);
      if p < |merged| {
        var o := Owner(merged[p]);
        ChildFacts(o);
        assert ChildSplits(o, children[o].index, p);
        HeadOfSplit(children[o].data, children[o].index, merged, p);
        var c := c.value;
        ChildFacts(c);
        assert ChildSplits(c, children[c].index, p);
        HeadOfSplit(children[c].data, children[c].index, merged, p);
        assert children[c].Current() in children[c].data;
        SameKeySameEntry(merged, children[c].Current(), merged[p]);
      }
    }

    method FindLargest(ghost p: nat)
      requires Shape() && p <= |merged| && AllBehind(p)
      modifies this
      ensures at == (if p == 0 then |merged| else p - 1) && direction == old(direction)
      ensures direction.Reverse? ==> Valid()
    {
      current := None;
      var i := |children|;
      while i > 0
        invariant 0 <= i <= |children| && direction == old(direction)
        invariant current.Some? ==> i <= current.value < |children| && children[current.value].Valid()
        invariant forall j :: i <= j < |children| && children[j].Valid() ==>
          current.Some? && AtMost(children[j].Current().key, children[current.value].Current().key)
      {
        i := i - 1;
        if children[i].Valid() {
          if current.None? {
            current := Some(i);
          } else if Less(children[current.value].Current().key, children[i].Current().key) {
            current := Some(i);
          }
        }
      }
      at := if p == 0 then |merged| else p - 1;
      LargestIsPrevious(current, p);
    }

    lemma LargestIsPrevious(c: Option<nat>, p: nat)
      requires Shape() && p <= |merged| && AllBehind(p)
      requires c.Some? ==> c.value < |children| && children[c.value].Valid()
      requires forall j :: 0 <= j < |children| && children[j].Valid() ==>
        c.Some? && AtMost(children[j].Current().key, children[c.value].Current().key)
      ensures c.None? <==> p == 0
      ensures c.Some? ==> children[c.value].Current() == merged[p - 1]
      ensures c.Some? ==> OthersBehind(c.value, p - 1)
    {
      if p == 0 {
        if c.Some? {
          NothingBehindFront(c.value);
        }
      } else {
        var o := Owner(merged[p - 1]);
        ChildFacts(o);
        BehindValue(o, p);
        var c := c.value;
        ChildFacts(c);
        BehindValue(c, p);
        assert children[c].Current() in children[c].data;
        SameKeySameEntry(merged, children[c].Current(), merged[p - 1]);
        assert c == o;
        var q := p - 1;
        forall i | 0 <= i < |children| && i != c
          ensures Behind(i, q)
        {
          StepBack(i, p);
        }
      }
    }

    lemma NothingBehindFront(i: nat)
      requires Shape() && i < |children| && Behind(i, 0)
      ensures !children[i].Valid()
    {
      ChildFacts(i);
      var b: nat :| ChildSplits(i, b, 0) && children[i].index == children[i].Before(b);
      assert b > 0 ==> KeyBefore(merged, 0, children[i].data[0].key);
      StartSplits(i);
    }

    lemma BehindValue(i: nat, p: nat)
      requires Shape() && i < |children| && 0 < p <= |merged| && Behind(i, p)
      ensures merged[p - 1] in children[i].data ==> children[i].Valid() && children[i].Current() == merged[p - 1]
      ensures children[i].Valid() ==> AtMost(children[i].Current().key, merged[p - 1].key)
    {
      ChildFacts(i);
      var b: nat :| ChildSplits(i, b, p) && children[i].index == children[i].Before(b);
      TailOfSplit(children[i].data, b, merged, p);
    }

    lemma StepBack(i: nat, p: nat)
      requires Shape() && i < |children| && 0 < p <= |merged| && Behind(i, p)
      requires merged[p - 1] !in children[i].data
      ensures Behind(i, p - 1)
    {
      ChildFacts(i);
      var data := children[i].data;
      var b: nat :| ChildSplits(i, b, p) && children[i].index == children[i].Before(b);
      forall j | 0 <= j < |data|
        ensures KeyBefore(merged, p, data[j].key) <==> KeyBefore(merged, p - 1, data[j].key)
      {
        assert data[j] in merged;
        var m :| 0 <= m < |merged| && merged[m] == data[j];
        assert InOrder(merged, m, p) && InOrder(merged, p, m) && InOrder(merged, m, p - 1) && InOrder(merged, p - 1, m);
      }
      assert ChildSplits(i, b, p - 1);
    }

    method SeekToFirst()
      requires Valid()
      modifies this, children
      ensures Valid() && at == 0 && direction.Forward?
    {
      for i := 0 to |children|
        invariant Shape()
        invariant forall j :: 0 <= j < i ==> children[j].index == 0
      {
        children[i].SeekToFirst();
      }
      forall i | 0 <= i < |children|
        ensures ChildSplits(i, children[i].index, 0)
      {
        StartSplits(i);
      }
      direction := Forward;
      FindSmallest(0);
    }

    lemma StartSplits(i: nat)
      requires Shape() && i < |children|
      ensures ChildSplits(i, 0, 0)
    {
      ChildFacts(i);
      forall j | 0 <= j < |children[i].data|
        ensures !KeyBefore(merged, 0, children[i].data[j].key)
      {
        assert children[i].data[j] in merged;
        var m :| 0 <= m < |merged| && merged[m] == children[i].data[j];
        assert InOrder(merged, 0, m);
      }
    }

    method SeekToLast()
      requires Valid()
      modifies this, children
      ensures Valid() && direction.Reverse?
      ensures at == if |merged| == 0 then 0 else |merged| - 1
    {
      for i := 0 to |children|
        invariant Shape()
        invariant forall j :: 0 <= j < i ==> children[j].index == children[j].Before(|children[j].data|)
      {
        children[i].SeekToLast();
      }
      forall i | 0 <= i < |children|
        ensures Behind(i, |merged|)
      {
        assert ChildSplits(i, |children[i].data|, |merged|);
      }
      direction := Reverse;
      FindLargest(|merged|);
    }

    method Seek(target: Key)
      requires Valid()
      modifies this, children
      ensures Valid() && at == LowerBound(merged, target) && direction.Forward?
    {
      for i := 0 to |children|
        invariant Shape()
        invariant forall j :: 0 <= j < i ==>
                  Sorted(children[j].data) && children[j].index == LowerBound(children[j].data, target)
      {
        ChildFacts(i);
        children[i].Seek(target);
      }
      ghost var p := LowerBound(merged, target);
      forall i | 0 <= i < |children|
        ensures ChildSplits(i, children[i].index, p)
      {
        ChildFacts(i);
        SplitByKey(children[i].data, merged, target);
      }
      direction := Forward;
      FindSmallest(p);
    }

    /** Next's direction switch: every other child is moved past the current key. */
    method AlignForward(c: nat)
      requires Valid() && current == Some(c) && !direction.Forward?
      modifies this`direction, children
      ensures direction.Forward? && AllAhead(at) && children[c].Valid()
    {
      var key := children[c].Current().key;
      ghost var p := at;
      for i := 0 to |children|
        invariant Shape() && children[c].Valid() && children[c].index == old(children[c].index)
        invariant forall j :: 0 <= j < i && j != c ==> ChildSplits(j, children[j].index, p)
      {
        if i != c {
          ChildFacts(i);
          children[i].Seek(key);
          SplitByKey(children[i].data, merged, key);
          KeyIsAt(merged, p);
          ghost var b := children[i].index;
          if children[i].Valid() && children[i].Current().key == key {
            children[i].Next();
          }
          ChildFacts(c);
          OnlyOwner(c, i, p);
          assert b < |children[i].data| ==> children[i].data[b] in children[i].data;
        }
      }
      direction := Forward;
      ChildFacts(c);
      SplitAtEntry(children[c].data, children[c].index, merged, p);
    }

    method Next()
      requires Valid() && IsValid()
      modifies this, children
      ensures Valid() && at == old(at) + 1 && direction.Forward?
    {
      var c := current.value;
      ghost var p := at;
      if !direction.Forward? {
        AlignForward(c);
      }
      assert ChildSplits(c, children[c].index, p);
      ChildFacts(c);
      ghost var o := Owner(merged[p]);
      HeadOfSplit(children[c].data, children[c].index, merged, p);
      label Aligned:
      children[c].Next();
      forall i | 0 <= i < |children|
        ensures ChildSplits(i, children[i].index, p + 1)
      {
        assert old@Aligned(ChildSplits(i, children[i].index, p));
        ChildFacts(i);
        OnlyOwner(c, i, p);
        SplitAdvance(children[i].data, old@Aligned(children[i].index), merged, p);
      }
      FindSmallest(p + 1);
    }

    /** merged[p] lives in one child only, and nothing else there carries its key. */
    lemma OnlyOwner(c: nat, i: nat, p: nat)
      requires Shape() && c < |children| && i < |children| && p < |merged| && merged[p] in children[c].data
      ensures i != c ==> merged[p] !in children[i].data
      ensures i != c ==> forall e :: e in children[i].data ==> e.key != merged[p].key
    {
      var o := Owner(merged[p]);
      ChildFacts(i);
      forall e | e in children[i].data && e.key == merged[p].key
        ensures e == merged[p]
      {
        SameKeySameEntry(merged, e, merged[p]);
      }
    }

    method Prev()
      requires Valid() && IsValid()
      modifies this, children
      ensures Valid() && direction.Reverse?
      ensures at == if old(at) == 0 then |merged| else old(at) - 1
    {
      var c := current.value;
      ghost var p := at;
      if !direction.Reverse? {
        var key := children[c].Current().key;
        for i := 0 to |children|
          invariant Shape() && children[c].Valid() && children[c].index == old(children[c].index)
          invariant forall j :: 0 <= j < i && j != c ==> Behind(j, p)
        {
          if i != c {
            ChildFacts(i);
            children[i].Seek(key);
            SplitByKey(children[i].data, merged, key);
            KeyIsAt(merged, p);
            ghost var b := children[i].index;
            assert ChildSplits(i, b, p);
            if children[i].Valid() {
              children[i].Prev();
            } else {
              children[i].SeekToLast();
            }
            assert children[i].index == children[i].Before(b);
          }
        }
        direction := Reverse;
      }
      ChildFacts(c);
      SplitAtEntry(children[c].data, children[c].index, merged, p);
      ghost var b := children[c].index;
      assert ChildSplits(c, b, p);
      children[c].Prev();
      assert AllBehind(p);
      FindLargest(p);
    }
  }

  lemma KeyIsAt(merged: seq<Entry>, p: nat)
    requires Sorted(merged) && p < |merged|
    ensures LowerBound(merged, merged[p].key) == p
  {
    var q := LowerBound(merged, merged[p].key);
    assert InOrder(merged, q, p) && InOrder(merged, p, q);
  }
}
