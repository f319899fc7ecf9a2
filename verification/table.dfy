// Tables: data blocks, an index of shortened keys, and a filter. table/table_builder.cc and table/table.cc.
module Tables {
  import opened Basics
  import opened Varints
  import opened Comparators
  import opened Filters

  datatype Entry = Entry(key: ByteKey, value: Bytes)

  /** An entry of the index block: a key, and where the data block it stands for begins. */
  datatype Indexed = Indexed(sep: ByteKey, offset: nat)

  ghost predicate Ascends(all: seq<Entry>, i: int, j: int) {
    0 <= i < j < |all| ==> KeyBefore(all[i].key, all[j].key)
  }

  ghost predicate Sorted(all: seq<Entry>) {
    forall i, j :: Ascends(all, i, j)
  }

  /** Entry `n` is the first at or after `k`. */
  ghost predicate IsFirst(all: seq<Entry>, k: ByteKey, n: int) {
    0 <= n < |all| && !KeyBefore(all[n].key, k) && forall m :: 0 <= m < n ==> KeyBefore(all[m].key, k)
  }

  // ---------------------------------------------------------------- how a table is cut into blocks

  /** Data block `i` holds entries cuts[i] up to cuts[i + 1]. */
  ghost predicate Cut(all: seq<Entry>, cuts: seq<nat>, i: int) {
    0 <= i < |cuts| - 1 ==> cuts[i] < cuts[i + 1] <= |all|
  }

  /** What a file gives back for data block `i`. */
  ghost predicate Stored(all: seq<Entry>, cuts: seq<nat>, offsets: seq<nat>, file: map<nat, seq<Entry>>, i: int)
    requires |cuts| == |offsets| + 1
  {
    0 <= i < |offsets| ==>
      && Cut(all, cuts, i) && offsets[i] in file && file[offsets[i]] == all[cuts[i]..cuts[i + 1]]
  }

  /** The index key of block `i`: its last key, or the first key of a user key strictly between those at the cut. */
  ghost predicate Marked(all: seq<Entry>, cuts: seq<nat>, offsets: seq<nat>, index: seq<Indexed>, i: int)
    requires |cuts| == |offsets| + 1 && |index| <= |offsets|
  {
    0 <= i < |index| ==>
      && Cut(all, cuts, i) && index[i].offset == offsets[i]
      && var s, last := index[i].sep, all[cuts[i + 1] - 1].key;
         s == last || (&& Before(last.user, s.user) && s.tag == MAX_TAG
                       && (cuts[i + 1] < |all| ==> Before(s.user, all[cuts[i + 1]].key.user)))
  }

  /** The filter knows the user key of every entry of block `i`. */
  ghost predicate Filtered(all: seq<Entry>, cuts: seq<nat>, offsets: seq<nat>, added: set<(nat, Bytes)>, i: int)
    requires |cuts| == |offsets| + 1
  {
    0 <= i < |offsets| ==> Cut(all, cuts, i) && forall n :: cuts[i] <= n < cuts[i + 1] ==>
      (offsets[i], all[n].key.user) in added
  }

  ghost predicate TableOk(all: seq<Entry>, cuts: seq<nat>, offsets: seq<nat>, file: map<nat, seq<Entry>>,
                          index: seq<Indexed>, added: set<(nat, Bytes)>) {
    && |cuts| == |offsets| + 1 && cuts[0] == 0 && |index| <= |offsets| && Sorted(all)
    && (forall i :: Cut(all, cuts, i)) && (forall i :: Stored(all, cuts, offsets, file, i))
    && (forall i :: Marked(all, cuts, offsets, index, i)) && (forall i :: Filtered(all, cuts, offsets, added, i))
  }

  /** Every entry lies in a block, and every block is indexed. */
  ghost predicate Finished(all: seq<Entry>, cuts: seq<nat>, offsets: seq<nat>, file: map<nat, seq<Entry>>,
                           index: seq<Indexed>, added: set<(nat, Bytes)>) {
    TableOk(all, cuts, offsets, file, index, added) && |index| == |offsets| && cuts[|cuts| - 1] == |all|
  }

  // ---------------------------------------------------------------- building

  /** A table under construction: `data` waits for its block, and the last block may wait for its index entry. */
  ghost predicate Building(all: seq<Entry>, cuts: seq<nat>, offsets: seq<nat>, file: map<nat, seq<Entry>>,
                           index: seq<Indexed>, added: set<(nat, Bytes)>, data: seq<Entry>, offset: nat, pending: bool)
  {
    && TableOk(all, cuts, offsets, file, index, added)
    && cuts[|cuts| - 1] <= |all| && data == all[cuts[|cuts| - 1]..]
    && (forall e :: e in data ==> (offset, e.key.user) in added)
    && (forall o :: o in file ==> o < offset)
    && |index| + (if pending then 1 else 0) == |offsets|
    && (offsets != [] ==> (data == [] <==> pending))
  }

  /** One index entry more, with a key that separates the last key from the next. */
  ghost predicate GrownBy(index: seq<Indexed>, last: ByteKey, next: ByteKey, handle: nat, index': seq<Indexed>) {
    exists s :: IsKeySeparator(last, next, s) && index' == index + [Indexed(s, handle)]
  }

  /** The last index entry, with a short key behind the last one. */
  ghost predicate EndedBy(index: seq<Indexed>, last: ByteKey, offsets: seq<nat>, index': seq<Indexed>) {
    offsets != [] && exists s :: IsKeySuccessor(last, s) && index' == index + [Indexed(s, offsets[|offsets| - 1])]
  }

  class TableBuilder {
    const blockSize: nat
    // The size estimate a block builder gives, and the bytes a finished block takes without its five-byte trailer.
    const estimate: seq<Entry> -> nat
    const length: seq<Entry> -> nat
    const filterBlock: FilterBlockBuilder
    var file: map<nat, seq<Entry>>
    var offset: nat
    var dataBlock: seq<Entry>
    var indexBlock: seq<Indexed>
    var lastKey: ByteKey
    var pendingIndexEntry: bool
    var pendingHandle: nat
    ghost var all: seq<Entry>
    ghost var cuts: seq<nat>
    ghost var offsets: seq<nat>

    ghost predicate Shape()
      reads this, filterBlock
    {
      && Building(all, cuts, offsets, file, indexBlock, filterBlock.added, dataBlock, offset, pendingIndexEntry)
      && filterBlock.Valid() && filterBlock.block == offset
      && (all != [] ==> lastKey == all[|all| - 1].key)
      && (pendingIndexEntry ==> pendingHandle == offsets[|offsets| - 1])
    }

    /** What waits for a block is still smaller than one. */
    ghost predicate Valid()
      reads this, filterBlock
    {
      Shape() && (dataBlock != [] ==> estimate(dataBlock) < blockSize)
    }

    constructor (size: nat, estimate: seq<Entry> -> nat, length: seq<Entry> -> nat, p: Policy)
      ensures Valid() && all == [] && filterBlock.policy == p && fresh(filterBlock)
    {
      blockSize, this.estimate, this.length := size, estimate, length;
      filterBlock := new FilterBlockBuilder(p);
      file, offset, dataBlock, indexBlock := map[], 0, [], [];
      lastKey, pendingIndexEntry, pendingHandle := ByteKey([], 0), false, 0;
      all, cuts, offsets := [], [0], [];
      new;
      filterBlock.StartBlock(0);
    }

    /** TableBuilder::Add. */
    method Add(key: ByteKey, value: Bytes)
      requires Valid() && (all != [] ==> KeyBefore(lastKey, key))
      modifies this, filterBlock
      ensures Valid() && all == old(all) + [Entry(key, value)]
      // A block is written as soon as it has its size, and not before.
      ensures var grown := old(dataBlock) + [Entry(key, value)];
              if estimate(grown) >= blockSize then dataBlock == [] && cuts == old(cuts) + [|all|]
              else dataBlock == grown && cuts == old(cuts)
      // The block before it, if any waits for that, gets its index entry.
      ensures if old(pendingIndexEntry) then
                GrownBy(old(indexBlock), old(lastKey), key, old(pendingHandle), indexBlock)
              else indexBlock == old(indexBlock)
    {
      hide Building, KeyBefore, FilterBlockBuilder.Valid;
      AddEntry(key, value);
      if estimate(dataBlock) >= blockSize {
        Flush();
      }
    }

    /** Add, up to the decision to flush. */
    method AddEntry(key: ByteKey, value: Bytes)
      requires Valid() && (all != [] ==> KeyBefore(lastKey, key))
      modifies this`indexBlock, this`pendingIndexEntry, this`lastKey, this`dataBlock, this`all, filterBlock`keys,
               filterBlock`added
      ensures Shape() && all == old(all) + [Entry(key, value)] && dataBlock == old(dataBlock) + [Entry(key, value)]
      ensures if old(pendingIndexEntry) then
                GrownBy(old(indexBlock), old(lastKey), key, old(pendingHandle), indexBlock)
              else indexBlock == old(indexBlock)
    {
      hide Building, KeyBefore, Separates, FilterBlockBuilder.Valid;
      var x := Indexed(lastKey, pendingHandle);
      if pendingIndexEntry {
        var s := SeparateKeys(lastKey, key);
        x := Indexed(s, pendingHandle);
      }
      Put(Entry(key, value), x);
      filterBlock.AddKey(key.user);
    }

    /** The entry goes into the data block, and the index entry `x` into the index if one is due. */
    method Put(e: Entry, x: Indexed)
      requires Building(all, cuts, offsets, file, indexBlock, filterBlock.added, dataBlock, offset, pendingIndexEntry)
      requires all != [] ==> lastKey == all[|all| - 1].key && KeyBefore(lastKey, e.key)
      requires pendingIndexEntry ==>
                 x.offset == pendingHandle == offsets[|offsets| - 1] && (all != [] ==> Separates(lastKey, x.sep, e.key))
      modifies this`indexBlock, this`pendingIndexEntry, this`lastKey, this`dataBlock, this`all
      ensures Building(all, cuts, offsets, file, indexBlock, filterBlock.added + {(offset, e.key.user)}, dataBlock,
                       offset, false)
      ensures all == old(all) + [e] && lastKey == e.key && !pendingIndexEntry && dataBlock == old(dataBlock) + [e]
      ensures indexBlock == if old(pendingIndexEntry) then old(indexBlock) + [x] else old(indexBlock)
    {
      EntryAdded(all, cuts, offsets, file, indexBlock, filterBlock.added, dataBlock, offset, pendingIndexEntry, e, x);
      if pendingIndexEntry {
        indexBlock := indexBlock + [x];
        pendingIndexEntry := false;
      }
      all := all + [e];
      lastKey := e.key;
      dataBlock := dataBlock + [e];
    }

    /** TableBuilder::Flush. */
    method Flush()
      requires Shape()
      modifies this, filterBlock
      ensures Valid() && all == old(all) && dataBlock == []
      ensures cuts == if old(dataBlock) == [] then old(cuts) else old(cuts) + [|all|]
      ensures offset == old(offset) + if old(dataBlock) == [] then 0 else length(old(dataBlock)) + 5
      ensures indexBlock == old(indexBlock) && lastKey == old(lastKey)
    {
      if dataBlock == [] {
        return;
      }
      WriteBlock();
      filterBlock.StartBlock(offset);
    }

    /** TableBuilder::WriteBlock for the data block. */
    method WriteBlock()
      requires Building(all, cuts, offsets, file, indexBlock, filterBlock.added, dataBlock, offset, pendingIndexEntry)
               && dataBlock != []
      modifies this`file, this`pendingHandle, this`pendingIndexEntry, this`cuts, this`offsets, this`offset,
               this`dataBlock
      ensures Building(all, cuts, offsets, file, indexBlock, filterBlock.added, dataBlock, offset, pendingIndexEntry)
              && dataBlock == []
      ensures offset == old(offset) + length(old(dataBlock)) + 5 && pendingIndexEntry
              && offsets == old(offsets) + [pendingHandle]
              && pendingHandle == old(offset)
      ensures cuts == old(cuts) + [|all|] && file == old(file)[old(offset) := old(dataBlock)]
    {
      var end := offset + length(dataBlock) + 5;
      LastBlockIndexed(all, cuts, offsets, file, indexBlock, filterBlock.added, dataBlock, offset, pendingIndexEntry);
      BlockWritten(all, cuts, offsets, file, indexBlock, filterBlock.added, dataBlock, offset, end);
      file := file[offset := dataBlock];
      pendingHandle, pendingIndexEntry := offset, true;
      cuts, offsets := cuts + [|all|], offsets + [offset];
      offset := end;
      dataBlock := [];
    }

    /** TableBuilder::Finish, up to the filter and index blocks. */
    method Finish() returns (filter: Bytes)
      requires Valid()
      modifies this, filterBlock
      ensures all == old(all) && Finished(all, cuts, offsets, file, indexBlock, filterBlock.added)
      ensures cuts == if old(dataBlock) == [] then old(cuts) else old(cuts) + [|all|]
      ensures if old(pendingIndexEntry || dataBlock != []) then
                EndedBy(old(indexBlock), lastKey, offsets, indexBlock)
              else indexBlock == old(indexBlock)
      ensures NoFalseNegatives(filterBlock.policy) && |filterBlock.result| < TWO32
              ==> Knows(filterBlock.policy, filter, filterBlock.added)
    {
      Flush();
      filter := filterBlock.Finish();
      FilterKnows(filterBlock.policy, filterBlock.result, filterBlock.offsets, filterBlock.covered, filterBlock.added);
      if pendingIndexEntry {
        var s := SucceedKey(lastKey);
        BlockMarked(all, cuts, offsets, file, indexBlock, filterBlock.added, Indexed(s, pendingHandle));
        indexBlock := indexBlock + [Indexed(s, pendingHandle)];
        pendingIndexEntry := false;
      }
    }
  }

  lemma FilterKnows(p: Policy, result: Bytes, offsets: seq<nat>, covered: seq<seq<Bytes>>, added: set<(nat, Bytes)>)
    requires FiltersOk(p, result, offsets, covered) && KeysOk(added, covered, [])
    ensures NoFalseNegatives(p) && |result| < TWO32 ==> Knows(p, FilterBlock(result, offsets), added)
  {
    if NoFalseNegatives(p) && |result| < TWO32 {
      forall o, k | (o, k) in added
        ensures BlockMayMatch(p, FilterBlock(result, offsets), o, k)
      {
        AddedKeyMatches(p, result, offsets, covered, added, o, k);
      }
    }
  }

  /** One entry more, and with it the index entry `x` of the block that waits for one. */
  lemma EntryAdded(all: seq<Entry>, cuts: seq<nat>, offsets: seq<nat>, file: map<nat, seq<Entry>>, index: seq<Indexed>,
                   added: set<(nat, Bytes)>, data: seq<Entry>, offset: nat, pending: bool, e: Entry, x: Indexed)
    requires Building(all, cuts, offsets, file, index, added, data, offset, pending)
    requires all != [] ==> KeyBefore(all[|all| - 1].key, e.key)
    requires pending ==>
               x.offset == offsets[|offsets| - 1] && (all != [] ==> Separates(all[|all| - 1].key, x.sep, e.key))
    ensures Building(all + [e], cuts, offsets, file,
                     if pending then index + [x] else index, added + {(offset, e.key.user)},
                     data + [e], offset, false)
  {
    var all', added' := all + [e], added + {(offset, e.key.user)};
    SortedGrows(all, e);
    forall i ensures Cut(all', cuts, i) { assert Cut(all, cuts, i); }
    forall i ensures Stored(all', cuts, offsets, file, i)
      { assert Stored(all, cuts, offsets, file, i); StoredStays(all, e, cuts, i); }
    forall i ensures Marked(all', cuts, offsets, index, i)
      { MarkStays(all, cuts, offsets, index, e, i, data, pending); }
    forall i ensures Filtered(all', cuts, offsets, added', i) { assert Filtered(all, cuts, offsets, added, i); }
    assert TableOk(all', cuts, offsets, file, index, added');
    if pending {
      assert Cut(all, cuts, |offsets| - 1);
      BlockMarked(all', cuts, offsets, file, index, added', x);
    }
    assert all'[cuts[|cuts| - 1]..] == data + [e];
  }

  /** No index key has been made yet that a new entry must exceed. */
  lemma MarkStays(all: seq<Entry>, cuts: seq<nat>, offsets: seq<nat>, index: seq<Indexed>, e: Entry, i: int,
                  data: seq<Entry>, pending: bool)
    requires |cuts| == |offsets| + 1 && |index| + (if pending then 1 else 0) == |offsets|
    requires (forall m :: Cut(all, cuts, m)) && Marked(all, cuts, offsets, index, i)
    requires cuts[|cuts| - 1] <= |all| && data == all[cuts[|cuts| - 1]..]
             && (offsets != [] ==> (data == [] <==> pending))
    ensures Marked(all + [e], cuts, offsets, index, i)
  {
    if 0 <= i < |index| {
      CutsAscend(all, cuts, i + 1, |cuts| - 1);
      assert cuts[i + 1] < |all|;
    }
  }

  lemma SortedGrows(all: seq<Entry>, e: Entry)
    requires Sorted(all) && (all != [] ==> KeyBefore(all[|all| - 1].key, e.key))
    ensures Sorted(all + [e])
  {
    var n := |all| - 1;
    forall i, j
      ensures Ascends(all + [e], i, j)
    {
      assert Ascends(all, i, j) && Ascends(all, i, n);
      if 0 <= i < j == n + 1 && i < n {
        KeyOrder(all[i].key, all[n].key, e.key);
      }
    }
  }

  lemma StoredStays(all: seq<Entry>, e: Entry, cuts: seq<nat>, i: int)
    requires Cut(all, cuts, i)
    ensures 0 <= i < |cuts| - 1 ==> (all + [e])[cuts[i]..cuts[i + 1]] == all[cuts[i]..cuts[i + 1]]
  {
  }

  lemma {:induction false} CutsAscend(all: seq<Entry>, cuts: seq<nat>, i: nat, j: nat)
    requires (forall m :: Cut(all, cuts, m)) && i <= j < |cuts|
    ensures cuts[i] <= cuts[j] && (i < j ==> cuts[i] < cuts[j])
    decreases j - i
  {
    if i < j {
      assert Cut(all, cuts, j - 1);
      CutsAscend(all, cuts, i, j - 1);
    }
  }

  /** One index entry more, for the first block without one. */
  lemma BlockMarked(all: seq<Entry>, cuts: seq<nat>, offsets: seq<nat>, file: map<nat, seq<Entry>>, index: seq<Indexed>,
                    added: set<(nat, Bytes)>, x: Indexed)
    requires TableOk(all, cuts, offsets, file, index, added) && |index| < |offsets|
             && Marked(all, cuts, offsets, index + [x], |index|)
    ensures TableOk(all, cuts, offsets, file, index + [x], added)
  {
    forall i ensures Marked(all, cuts, offsets, index + [x], i) { assert Marked(all, cuts, offsets, index, i); }
  }

  /** Entries wait for a block only when every finished block has its index entry. */
  lemma LastBlockIndexed(all: seq<Entry>, cuts: seq<nat>, offsets: seq<nat>, file: map<nat, seq<Entry>>,
                         index: seq<Indexed>, added: set<(nat, Bytes)>, data: seq<Entry>, offset: nat, pending: bool)
    requires Building(all, cuts, offsets, file, index, added, data, offset, pending) && data != []
    ensures !pending
  {
  }

  /** The waiting entries become a block at the end of the file. */
  lemma BlockWritten(all: seq<Entry>, cuts: seq<nat>, offsets: seq<nat>, file: map<nat, seq<Entry>>,
                     index: seq<Indexed>, added: set<(nat, Bytes)>, data: seq<Entry>, offset: nat, next: nat)
    requires Building(all, cuts, offsets, file, index, added, data, offset, false) && data != [] && offset < next
    ensures Building(all, cuts + [|all|], offsets + [offset], file[offset := data], index, added, [], next, true)
  {
    var cuts', offsets', file' := cuts + [|all|], offsets + [offset], file[offset := data];
    forall i ensures Cut(all, cuts', i) { assert Cut(all, cuts, i); }
    forall i ensures Stored(all, cuts', offsets', file', i) { assert Stored(all, cuts, offsets, file, i); }
    forall i ensures Marked(all, cuts', offsets', index, i) { assert Marked(all, cuts, offsets, index, i); }
    forall i ensures Filtered(all, cuts', offsets', added, i) {
      assert Filtered(all, cuts, offsets, added, i);
      if i == |offsets| {
        assert forall n :: cuts[i] <= n < |all| ==> all[n] == data[n - cuts[i]];
      }
    }
  }

  // ---------------------------------------------------------------- reading

  /** The filter lets through every key added to it. */
  ghost predicate Knows(p: Policy, filter: Bytes, added: set<(nat, Bytes)>) {
    forall o, k :: (o, k) in added ==> BlockMayMatch(p, filter, o, k)
  }

  /** Where a block iterator's Seek stops: the first key at or after `k`. */
  function Seek(keys: seq<ByteKey>, k: ByteKey): (r: nat)
    ensures r <= |keys| && (forall m :: 0 <= m < r ==> KeyBefore(keys[m], k)) && (r < |keys| ==> !KeyBefore(keys[r], k))
  {
    if keys == [] || !KeyBefore(keys[0], k) then 0 else 1 + Seek(keys[1..], k)
  }

  function IndexKeys(index: seq<Indexed>): seq<ByteKey> {
    seq(|index|, i requires 0 <= i < |index| => index[i].sep)
  }

  function EntryKeys(es: seq<Entry>): seq<ByteKey> {
    seq(|es|, i requires 0 <= i < |es| => es[i].key)
  }

  /** The first `c` entries come before `k`. */
  ghost predicate AllBefore(all: seq<Entry>, c: nat, k: ByteKey) {
    c <= |all| && forall n :: 0 <= n < c ==> KeyBefore(all[n].key, k)
  }

  /** Blocks whose index keys come before `k` hold nothing at or after it. */
  lemma BlocksBefore(all: seq<Entry>, cuts: seq<nat>, offsets: seq<nat>, file: map<nat, seq<Entry>>,
                     index: seq<Indexed>, added: set<(nat, Bytes)>, k: ByteKey, i: nat)
    requires TableOk(all, cuts, offsets, file, index, added) && i <= |index|
             && (i > 0 ==> KeyBefore(index[i - 1].sep, k))
    ensures AllBefore(all, cuts[i], k)
  {
    if i > 0 {
      assert Marked(all, cuts, offsets, index, i - 1);
      var last, s := all[cuts[i] - 1].key, index[i - 1].sep;
      KeyOrder(last, s, k);
      forall n | 0 <= n < cuts[i]
        ensures KeyBefore(all[n].key, k)
      {
        assert Ascends(all, n, cuts[i] - 1);
        KeyOrder(all[n].key, last, k);
      }
    }
  }

  /** Where the search in block `i` ends is where a search of the whole table would. */
  lemma FirstInBlock(all: seq<Entry>, cuts: seq<nat>, k: ByteKey, i: nat, m: nat)
    requires i + 1 < |cuts| && Cut(all, cuts, i) && m <= cuts[i + 1] - cuts[i]
    requires AllBefore(all, cuts[i], k)
    requires m == Seek(EntryKeys(all[cuts[i]..cuts[i + 1]]), k)
    ensures AllBefore(all, cuts[i] + m, k)
    ensures cuts[i] + m < cuts[i + 1] ==> IsFirst(all, k, cuts[i] + m)
  {
    var keys := EntryKeys(all[cuts[i]..cuts[i + 1]]);
    forall n | cuts[i] <= n < cuts[i] + m
      ensures KeyBefore(all[n].key, k)
    {
      assert keys[n - cuts[i]] == all[n].key;
    }
  }

  /** When block `i` ends before `k` but its index key does not, the next entry is of a later user key than `k`'s. */
  lemma PastTheBlock(all: seq<Entry>, cuts: seq<nat>, offsets: seq<nat>, index: seq<Indexed>, k: ByteKey, i: nat,
                     n: nat)
    requires |cuts| == |offsets| + 1 && i < |index| <= |offsets| && Sorted(all)
    requires Marked(all, cuts, offsets, index, i) && !KeyBefore(index[i].sep, k)
    requires cuts[i + 1] <= n < |all| && KeyBefore(all[cuts[i + 1] - 1].key, k)
    ensures Before(k.user, all[n].key.user)
  {
    var s, next := index[i].sep, all[cuts[i + 1]].key;
    assert Ascends(all, cuts[i + 1], n);
    BeforeIsTotal(s.user, k.user);
    if Before(k.user, s.user) {
      BeforeIsTransitive(k.user, s.user, next.user);
    }
    if n > cuts[i + 1] && Before(next.user, all[n].key.user) {
      BeforeIsTransitive(k.user, next.user, all[n].key.user);
    }
  }

  /** Table::InternalGet: what it passes to the callback, if anything. */
  method InternalGet(index: seq<Indexed>, file: map<nat, seq<Entry>>, filter: Option<Bytes>, p: Policy, k: ByteKey,
                     ghost all: seq<Entry>, ghost cuts: seq<nat>, ghost offsets: seq<nat>,
                       ghost added: set<(nat, Bytes)>)
    returns (r: Option<Entry>)
    requires Finished(all, cuts, offsets, file, index, added) && (filter.Some? ==> Knows(p, filter.value, added))
    ensures r.Some? ==> exists n :: IsFirst(all, k, n) && r.value == all[n]
    ensures forall n :: IsFirst(all, k, n) && all[n].key.user == k.user ==> r == Some(all[n])
  {
    r := None;
    var i := Seek(IndexKeys(index), k);
    assert i > 0 ==> IndexKeys(index)[i - 1] == index[i - 1].sep;
    BlocksBefore(all, cuts, offsets, file, index, added, k, i);
    if i < |index| {
      BlockSearch(all, cuts, offsets, file, index, added, k, i);
      forall n | IsFirst(all, k, n) && all[n].key.user == k.user
        ensures n == cuts[i] + Seek(EntryKeys(file[offsets[i]]), k) < cuts[i + 1] && (offsets[i], k.user) in added
      {
        InThisBlock(all, cuts, offsets, file, index, added, k, i, n);
      }
      if filter.Some? && !BlockMayMatch(p, filter.value, index[i].offset, k.user) {
        // Not found.
      } else {
        var block := file[index[i].offset];
        var m := Seek(EntryKeys(block), k);
        if m < |block| {
          r := Some(block[m]);
        }
      }
    }
  }

  /** What the search in block `i` finds is the first entry at or after `k` in the whole table. */
  lemma BlockSearch(all: seq<Entry>, cuts: seq<nat>, offsets: seq<nat>, file: map<nat, seq<Entry>>, index: seq<Indexed>,
                    added: set<(nat, Bytes)>, k: ByteKey, i: nat)
    requires TableOk(all, cuts, offsets, file, index, added) && i < |index|
    requires AllBefore(all, cuts[i], k)
    ensures index[i].offset == offsets[i] && offsets[i] in file && cuts[i] < cuts[i + 1] <= |all|
            && file[offsets[i]] == all[cuts[i]..cuts[i + 1]]
    ensures var m := Seek(EntryKeys(file[offsets[i]]), k);
            m < |file[offsets[i]]| ==> IsFirst(all, k, cuts[i] + m) && all[cuts[i] + m] == file[offsets[i]][m]
  {
    assert Stored(all, cuts, offsets, file, i) && Marked(all, cuts, offsets, index, i);
    FirstInBlock(all, cuts, k, i, Seek(EntryKeys(all[cuts[i]..cuts[i + 1]]), k));
  }

  /** The first entry at or after `k`, if its user key is `k`'s, is in the block the index points to. */
  lemma InThisBlock(all: seq<Entry>, cuts: seq<nat>, offsets: seq<nat>, file: map<nat, seq<Entry>>, index: seq<Indexed>,
                    added: set<(nat, Bytes)>, k: ByteKey, i: nat, n: nat)
    requires TableOk(all, cuts, offsets, file, index, added) && i < |index| && !KeyBefore(index[i].sep, k)
    requires AllBefore(all, cuts[i], k)
    requires IsFirst(all, k, n) && all[n].key.user == k.user
    ensures i + 1 < |cuts| && offsets[i] in file
    ensures n == cuts[i] + Seek(EntryKeys(file[offsets[i]]), k) < cuts[i + 1] && (offsets[i], k.user) in added
  {
    assert Stored(all, cuts, offsets, file, i) && Marked(all, cuts, offsets, index, i);
    var m := Seek(EntryKeys(all[cuts[i]..cuts[i + 1]]), k);
    FirstInBlock(all, cuts, k, i, m);
    if n >= cuts[i + 1] {
      PastTheBlock(all, cuts, offsets, index, k, i, n);
      BeforeIsStrict(k.user);
    }
    assert Filtered(all, cuts, offsets, added, i);
  }

  /** The index is sorted, as its block builder demands. */
  lemma IndexAscends(all: seq<Entry>, cuts: seq<nat>, offsets: seq<nat>, file: map<nat, seq<Entry>>,
                     index: seq<Indexed>, added: set<(nat, Bytes)>, i: nat)
    requires TableOk(all, cuts, offsets, file, index, added) && i + 1 < |index|
    ensures KeyBefore(index[i].sep, index[i + 1].sep)
  {
    assert Marked(all, cuts, offsets, index, i) && Marked(all, cuts, offsets, index, i + 1);
    var s, first, last := index[i].sep, all[cuts[i + 1]].key, all[cuts[i + 2] - 1].key;
    assert Ascends(all, cuts[i + 1] - 1, cuts[i + 1]) && Ascends(all, cuts[i + 1], cuts[i + 2] - 1);
    KeyOrder(s, first, last);
    KeyOrder(s, last, index[i + 1].sep);
  }
}
