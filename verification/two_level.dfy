// The iterator of a table, over its index and then its data blocks: table/two_level_iterator.cc.
module TwoLevelIterators {
  import opened Basics
  import opened Comparators
  import opened Tables

  /** How many entries lie in the first `i` blocks. */
  function Start(blocks: seq<seq<Entry>>, i: nat): nat
    requires i <= |blocks|
  {
    if i == 0 then 0 else Start(blocks, i - 1) + |blocks[i - 1]|
  }

  function Concat(blocks: seq<seq<Entry>>): seq<Entry> {
    if blocks == [] then [] else Concat(blocks[..|blocks| - 1]) + blocks[|blocks| - 1]
  }

  lemma {:induction false} StartOfPrefix(blocks: seq<seq<Entry>>, n: nat, i: nat)
    requires i <= n <= |blocks|
    ensures Start(blocks[..n], i) == Start(blocks, i)
  {
    if i > 0 { StartOfPrefix(blocks, n, i - 1); }
  }

  lemma {:induction false} ConcatLength(blocks: seq<seq<Entry>>)
    ensures |Concat(blocks)| == Start(blocks, |blocks|)
  {
    if blocks != [] {
      var n := |blocks| - 1;
      ConcatLength(blocks[..n]);
      StartOfPrefix(blocks, n, n);
    }
  }

  lemma {:induction false} StartsAscend(blocks: seq<seq<Entry>>, i: nat, j: nat)
    requires i <= j <= |blocks|
    ensures Start(blocks, i) <= Start(blocks, j)
    decreases j
  {
    if i < j { StartsAscend(blocks, i, j - 1); }
  }

  /** Entry `j` of block `i`, in the concatenation. */
  lemma {:induction false} ConcatAt(blocks: seq<seq<Entry>>, i: nat, j: nat)
    requires i < |blocks| && j < |blocks[i]|
    ensures Start(blocks, i) + j < |Concat(blocks)| && Concat(blocks)[Start(blocks, i) + j] == blocks[i][j]
    decreases |blocks|
  {
    var n := |blocks| - 1;
    ConcatLength(blocks);
    ConcatLength(blocks[..n]);
    StartOfPrefix(blocks, n, n);
    StartOfPrefix(blocks, n, i);
    StartsAscend(blocks, i + 1, n + 1);
    if i < n {
      ConcatAt(blocks[..n], i, j);
    }
  }

  /** Index key `i` is at or after the entries of blocks up to `i`, and before all others. */
  ghost predicate Divides(all: seq<Entry>, blocks: seq<seq<Entry>>, seps: seq<ByteKey>, i: int) {
    0 <= i < |blocks| == |seps| ==>
      && (forall n :: 0 <= n < Start(blocks, i + 1) && n < |all| ==> !KeyBefore(seps[i], all[n].key))
      && (forall n :: Start(blocks, i + 1) <= n < |all| ==> KeyBefore(seps[i], all[n].key))
  }

  /** Where a search of the index and then of one block ends. */
  ghost function Landing(blocks: seq<seq<Entry>>, seps: seq<ByteKey>, k: ByteKey): nat
    requires |seps| == |blocks|
  {
    var i := Tables.Seek(seps, k);
    if i == |seps| then |Concat(blocks)| else Start(blocks, i) + Tables.Seek(EntryKeys(blocks[i]), k)
  }

  lemma LandingInside(blocks: seq<seq<Entry>>, seps: seq<ByteKey>, k: ByteKey)
    requires |seps| == |blocks|
    ensures Landing(blocks, seps, k) <= |Concat(blocks)|
  {
    var i := Tables.Seek(seps, k);
    ConcatLength(blocks);
    if i < |blocks| {
      StartsAscend(blocks, i + 1, |blocks|);
    }
  }

  lemma BlocksBefore(all: seq<Entry>, blocks: seq<seq<Entry>>, seps: seq<ByteKey>, k: ByteKey, i: nat, n: nat)
    requires |seps| == |blocks| && i <= |blocks| && (i > 0 ==> KeyBefore(seps[i - 1], k))
    requires (forall i :: Divides(all, blocks, seps, i)) && n < Start(blocks, i) && n < |all|
    ensures KeyBefore(all[n].key, k)
  {
    assert Divides(all, blocks, seps, i - 1);
    KeyOrder(all[n].key, seps[i - 1], k);
  }

  lemma LandingBefore(all: seq<Entry>, blocks: seq<seq<Entry>>, seps: seq<ByteKey>, k: ByteKey, n: nat)
    requires |seps| == |blocks| && all == Concat(blocks) && forall i :: Divides(all, blocks, seps, i)
    requires n < Landing(blocks, seps, k) && n < |all|
    ensures KeyBefore(all[n].key, k)
  {
    var i := Tables.Seek(seps, k);
    if n < Start(blocks, i) {
      BlocksBefore(all, blocks, seps, k, i, n);
    } else if i == |seps| {
      ConcatLength(blocks);
    } else {
      var j := n - Start(blocks, i);
      ConcatAt(blocks, i, j);
      assert EntryKeys(blocks[i])[j] == blocks[i][j].key;
    }
  }

  lemma LandingAfter(all: seq<Entry>, blocks: seq<seq<Entry>>, seps: seq<ByteKey>, k: ByteKey, n: nat)
    requires |seps| == |blocks| && all == Concat(blocks) && (forall i :: Divides(all, blocks, seps, i)) && Sorted(all)
    requires Landing(blocks, seps, k) <= n < |all|
    ensures !KeyBefore(all[n].key, k)
  {
    var i := Tables.Seek(seps, k);
    var m := Tables.Seek(EntryKeys(blocks[i]), k);
    if m < |blocks[i]| {
      ConcatAt(blocks, i, m);
      var first := Start(blocks, i) + m;
      assert Ascends(all, first, n);
      KeyOrder(all[first].key, all[n].key, k);
    } else {
      assert Divides(all, blocks, seps, i);
      KeyOrder(seps[i], all[n].key, k);
    }
  }

  class TwoLevelIterator {
    // Index keys, and the block that each index value leads to.
    const seps: seq<ByteKey>
    const blocks: seq<seq<Entry>>
    // The index iterator; |seps| when it is not valid. Then the data iterator, if any: whose block, and where in it.
    var index: nat
    var data: Option<nat>
    var at: nat
    ghost const all: seq<Entry>

    ghost predicate Shape() {
      |seps| == |blocks| && all == Concat(blocks) && Sorted(all) && forall i :: Divides(all, blocks, seps, i)
    }

    /** Between operations the data iterator is absent or stands on an entry of the index iterator's block. */
    ghost predicate Valid()
      reads this
    {
      Shape() && index <= |seps| && (data.Some? ==> data.value == index < |blocks| && at < |blocks[index]|)
    }

    /** The abstract cursor, with |all| for an iterator that is not valid. */
    ghost function Position(): nat
      requires Valid()
      reads this
    {
      if data.Some? then Start(blocks, index) + at else |all|
    }

    constructor (seps: seq<ByteKey>, blocks: seq<seq<Entry>>)
      requires |seps| == |blocks| && Sorted(Concat(blocks)) && forall i :: Divides(Concat(blocks), blocks, seps, i)
      ensures Valid() && Position() == |all| && all == Concat(blocks)
    {
      this.seps, this.blocks, all := seps, blocks, Concat(blocks);
      index, data, at := |seps|, None, 0;
    }

    predicate IsValid()
      reads this
    {
      data.Some? && data.value < |blocks| && at < |blocks[data.value]|
    }

    /** key() and value() are those of the cursor's entry. */
    function Current(): (e: Entry)
      requires Valid() && IsValid()
      reads this
      ensures Position() < |all| && e == all[Position()]
    {
      ConcatAt(blocks, index, at);
      blocks[index][at]
    }

    /** InitDataBlock: the data iterator is replaced unless it is for the same block already. */
    method InitDataBlock()
      requires Shape() && index <= |seps|
      modifies this`data, this`at
      ensures data == if index < |seps| then Some(index) else None
    {
      if index >= |seps| {
        data := None;
      } else if data == Some(index) {
        // The data iterator stays.
      } else {
        data, at := Some(index), |blocks[index]|;
      }
    }

    method SkipEmptyDataBlocksForward()
      requires Shape() && index <= |seps| && data == if index < |seps| then Some(index) else None
      requires data.Some? ==> at <= |blocks[index]|
      modifies this`index, this`data, this`at
      ensures Valid()
      ensures Position() == old(if data.Some? then Start(blocks, index) + at else |all|)
    {
      ConcatLength(blocks);
      while data.None? || at >= |blocks[data.value]|
        invariant index <= |seps| && data
                  == (if index < |seps| then Some(index) else None) && (data.Some? ==> at <= |blocks[index]|)
        invariant (if data.Some? then Start(blocks, index) + at else |all|)
                  == old(if data.Some? then Start(blocks, index) + at else |all|)
        decreases |seps| - index
      {
        if index >= |seps| {
          data := None;
          return;
        }
        index := index + 1;
        InitDataBlock();
        if data.Some? {
          at := 0;
        }
      }
    }

    method SkipEmptyDataBlocksBackward()
      requires Shape() && index <= |seps| && data == if index < |seps| then Some(index) else None
      requires data.Some? ==> at <= |blocks[index]|
      modifies this`index, this`data, this`at
      ensures Valid()
      ensures old(data.Some? && at < |blocks[index]|) ==> Position() == old(Start(blocks, index) + at)
      ensures old(data.Some? && at == |blocks[index]|) ==>
                Position() == if old(Start(blocks, index)) == 0 then |all| else old(Start(blocks, index)) - 1
      ensures old(data.None?) ==> Position() == |all|
    {
      while data.None? || at >= |blocks[data.value]|
        invariant index <= |seps| && data
                  == (if index < |seps| then Some(index) else None) && (data.Some? ==> at <= |blocks[index]|)
        invariant old(data.None?) ==> data.None?
        invariant old(data.Some? && at < |blocks[index]|) ==> data == old(data) && index == old(index) && at == old(at)
        invariant old(data.Some? && at == |blocks[index]|) ==>
                    if data.None? then old(Start(blocks, index)) == 0
                    else if at == |blocks[index]| then Start(blocks, index) == old(Start(blocks, index))
                    else Start(blocks, index) + at + 1 == old(Start(blocks, index))
        decreases if index < |seps| then index + 1 else 0
      {
        if index >= |seps| {
          data := None;
          return;
        }
        index := if index == 0 then |seps| else index - 1;
        InitDataBlock();
        if data.Some? {
          at := if blocks[index] == [] then 0 else |blocks[index]| - 1;
        }
      }
    }

    method Next()
      requires Valid() && IsValid()
      modifies this`index, this`data, this`at
      ensures Valid() && Position() == old(Position()) + 1
    {
      at := at + 1;
      SkipEmptyDataBlocksForward();
    }

    method Prev()
      requires Valid() && IsValid()
      modifies this`index, this`data, this`at
      ensures Valid() && Position() == if old(Position()) == 0 then |all| else old(Position()) - 1
    {
      at := if at == 0 then |blocks[index]| else at - 1;
      SkipEmptyDataBlocksBackward();
    }

    method SeekToFirst()
      requires Valid()
      modifies this`index, this`data, this`at
      ensures Valid() && Position() == 0
    {
      index := 0;
      InitDataBlock();
      if data.Some? {
        at := 0;
      }
      ConcatLength(blocks);
      SkipEmptyDataBlocksForward();
    }

    method SeekToLast()
      requires Valid()
      modifies this`index, this`data, this`at
      ensures Valid() && Position() == if all == [] then 0 else |all| - 1
    {
      index := if |seps| == 0 then 0 else |seps| - 1;
      InitDataBlock();
      if data.Some? {
        at := if blocks[index] == [] then 0 else |blocks[index]| - 1;
      }
      ConcatLength(blocks);
      SkipEmptyDataBlocksBackward();
    }

    /** Seek: the first entry at or after `k`. */
    method Seek(k: ByteKey)
      requires Valid()
      modifies this`index, this`data, this`at
      ensures Valid() && Position() <= |all|
      ensures forall n :: 0 <= n < Position() ==> KeyBefore(all[n].key, k)
      ensures forall n :: Position() <= n < |all| ==> !KeyBefore(all[n].key, k)
    {
      LandingInside(blocks, seps, k);
      forall n | 0 <= n < Landing(blocks, seps, k) ensures KeyBefore(all[n].key, k) {
        LandingBefore(all, blocks, seps, k, n);
      }
      forall n | Landing(blocks, seps, k) <= n < |all| ensures !KeyBefore(all[n].key, k) {
        LandingAfter(all, blocks, seps, k, n);
      }
      index := Tables.Seek(seps, k);
      InitDataBlock();
      if data.Some? {
        at := Tables.Seek(EntryKeys(blocks[index]), k);
      }
      SkipEmptyDataBlocksForward();
    }
  }

  // ---------------------------------------------------------------- the iterator of a finished table

  /** The blocks an index leads to. */
  function BlocksOf(file: map<nat, seq<Entry>>, index: seq<Indexed>): (r: seq<seq<Entry>>)
    requires forall i :: 0 <= i < |index| ==> index[i].offset in file
    ensures |r| == |index|
  {
    seq(|index|, i requires 0 <= i < |index| => file[index[i].offset])
  }

  /** Block `i` is the entries between two cuts. */
  ghost predicate Piece(all: seq<Entry>, cuts: seq<nat>, block: seq<Entry>, i: nat) {
    i + 1 < |cuts| && cuts[i] < cuts[i + 1] <= |all| && block == all[cuts[i]..cuts[i + 1]]
  }

  lemma AllOnFile(all: seq<Entry>, cuts: seq<nat>, offsets: seq<nat>, file: map<nat, seq<Entry>>, index: seq<Indexed>,
                  added: set<(nat, Bytes)>, i: nat)
    requires TableOk(all, cuts, offsets, file, index, added) && i < |index|
    ensures index[i].offset in file && Piece(all, cuts, file[index[i].offset], i)
  {
    assert Stored(all, cuts, offsets, file, i) && Marked(all, cuts, offsets, index, i);
  }

  lemma {:induction false} BlocksJoin(all: seq<Entry>, cuts: seq<nat>, blocks: seq<seq<Entry>>, n: nat)
    requires n <= |blocks| < |cuts| && cuts[0] == 0
    requires forall i :: 0 <= i < |blocks| ==> Piece(all, cuts, blocks[i], i)
    ensures Start(blocks, n) == cuts[n] <= |all| && Concat(blocks[..n]) == all[..cuts[n]]
  {
    if n > 0 {
      BlocksJoin(all, cuts, blocks, n - 1);
      assert Piece(all, cuts, blocks[n - 1], n - 1);
      assert blocks[..n][..n - 1] == blocks[..n - 1] && blocks[..n][n - 1] == blocks[n - 1];
      Rejoin(all, cuts[n - 1], cuts[n]);
    }
  }

  lemma Rejoin(all: seq<Entry>, m: nat, n: nat)
    requires m <= n <= |all|
    ensures all[..n] == all[..m] + all[m..n]
  {
  }

  lemma IndexDivides(all: seq<Entry>, cuts: seq<nat>, offsets: seq<nat>, index: seq<Indexed>, i: nat, n: nat)
    requires |cuts| == |offsets| + 1 && i < |index| <= |offsets| && Sorted(all) && n < |all|
    requires Marked(all, cuts, offsets, index, i)
    ensures n < cuts[i + 1] ==> !KeyBefore(index[i].sep, all[n].key)
    ensures n >= cuts[i + 1] ==> KeyBefore(index[i].sep, all[n].key)
  {
    var s, last := index[i].sep, all[cuts[i + 1] - 1].key;
    if n < cuts[i + 1] {
      assert Ascends(all, n, cuts[i + 1] - 1);
      KeyOrder(all[n].key, last, s);
      KeyOrder(all[n].key, s, last);
    } else {
      var next := all[cuts[i + 1]].key;
      assert Ascends(all, cuts[i + 1], n) && Ascends(all, cuts[i + 1] - 1, cuts[i + 1]);
      KeyOrder(s, next, all[n].key);
    }
  }

  lemma BlockDivides(all: seq<Entry>, cuts: seq<nat>, offsets: seq<nat>, index: seq<Indexed>,
                     blocks: seq<seq<Entry>>, i: nat)
    requires |cuts| == |offsets| + 1 && i < |index| == |blocks| <= |offsets| && Sorted(all) && cuts[0] == 0
    requires Marked(all, cuts, offsets, index, i)
    requires forall j :: 0 <= j < |blocks| ==> Piece(all, cuts, blocks[j], j)
    ensures Divides(all, blocks, IndexKeys(index), i)
  {
    hide Sorted, Marked, KeyBefore, Concat;
    BlocksJoin(all, cuts, blocks, i + 1);
    forall n | 0 <= n < |all|
      ensures n < cuts[i + 1] ==> !KeyBefore(index[i].sep, all[n].key)
      ensures n >= cuts[i + 1] ==> KeyBefore(index[i].sep, all[n].key)
    {
      IndexDivides(all, cuts, offsets, index, i, n);
    }
  }

  /** A finished table gives its iterator what it relies on, so the iterator's cursor runs over the entries added. */
  lemma FinishedTableIterates(all: seq<Entry>, cuts: seq<nat>, offsets: seq<nat>, file: map<nat, seq<Entry>>,
                              index: seq<Indexed>, added: set<(nat, Bytes)>)
    requires Finished(all, cuts, offsets, file, index, added)
    ensures forall i :: 0 <= i < |index| ==> index[i].offset in file
    ensures var blocks := BlocksOf(file, index);
            Concat(blocks) == all && Sorted(all) && forall i :: Divides(all, blocks, IndexKeys(index), i)
  {
    hide Piece, KeyBefore, Concat;
    forall i | 0 <= i < |index|
      ensures index[i].offset in file && Piece(all, cuts, file[index[i].offset], i)
    {
      AllOnFile(all, cuts, offsets, file, index, added, i);
    }
    var blocks := BlocksOf(file, index);
    BlocksJoin(all, cuts, blocks, |blocks|);
    assert blocks[..|blocks|] == blocks && all[..|all|] == all;
    forall i
      ensures Divides(all, blocks, IndexKeys(index), i)
    {
      if 0 <= i < |index| {
        assert Marked(all, cuts, offsets, index, i);
        BlockDivides(all, cuts, offsets, index, blocks, i);
      }
    }
  }
}
