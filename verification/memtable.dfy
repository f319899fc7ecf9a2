// Write batches and memtables: db/write_batch.cc and db/memtable.cc.  The skip list behind a memtable appears here as
// the sorted list of its entries.
module MemTables {
  import opened Basics
  import opened InternalKeys
  import opened ReadSpec

  datatype Operation = Put(user: UserKey, value: Bytes) | Delete(user: UserKey)

  /** MemTableInserter: the entry an operation becomes under sequence number `sn`. */
  function EntryOf(op: Operation, sn: SequenceNumber): Entry {
    match op
    case Put(u, v) => Entry(Key(u, sn, Value), v)
    case Delete(u) => Entry(Key(u, sn, Deletion), [])
  }

  /** The operations of a batch get consecutive sequence numbers from the one in its header. */
  function BatchEntries(ops: seq<Operation>, first: nat): seq<Entry>
    requires first + |ops| <= MAX_SEQUENCE_NUMBER + 1
  {
    seq(|ops|, i requires 0 <= i < |ops| => EntryOf(ops[i], first + i))
  }

  class MemTable {
    var table: seq<Entry>

    ghost predicate Valid()
      reads this
    {
      Sorted(table)
    }

    ghost function Contents(): set<Entry>
      reads this
    {
      set e | e in table
    }

    constructor ()
      ensures Valid() && Contents() == {} && table == []
    {
      table := [];
    }

    /** MemTable::Add; the skip list demands a key it does not hold yet. */
    method Add(e: Entry)
      requires Valid() && forall f :: f in table ==> !SameKey(e, f)
      modifies this
      ensures Valid() && Contents() == old(Contents()) + {e}
    {
      var i := LowerBound(table, e.key);
      ghost var before := table;
      InsertedMembers(table, i, e);
      table := table[..i] + [e] + table[i..];
      assert table == Inserted(before, i, e);
      forall a, b
        ensures InOrder(table, a, b)
      {
        if 0 <= a < b < |table| { InsertedInOrder(before, e, i, a, b); }
      }
    }

    /** MemTable::Get: `found` tells whether the memtable decides the read. */
    method Get(u: UserKey, s: SequenceNumber) returns (found: bool, r: Option<Bytes>)
      requires Valid() && Unique(Contents())
      ensures found <==> !NoneVisible(Contents(), u, s)
      ensures r == Read(Contents(), u, s)
    {
      var i := LowerBound(table, SeekKey(u, s));
      SeekFindsNewest(table, u, s);
      if i < |table| && table[i].key.user == u {
        ReadNewest(Contents(), u, s, table[i]);
        found, r := true, Answer(table[i]);
      } else {
        ReadNothing(Contents(), u, s);
        found, r := false, None;
      }
    }
  }

  lemma FreshBatch(ops: seq<Operation>, first: nat, i: nat, f: Entry)
    requires first + |ops| <= MAX_SEQUENCE_NUMBER + 1 && i < |ops|
    requires f.key.sn < first || f in BatchEntries(ops, first)[..i]
    ensures !SameKey(BatchEntries(ops, first)[i], f)
  {
  }

  /** WriteBatchInternal::InsertInto: the memtable gains exactly the entries of the batch. */
  method InsertInto(ops: seq<Operation>, first: nat, mem: MemTable)
    requires mem.Valid() && first + |ops| <= MAX_SEQUENCE_NUMBER + 1
    requires forall f :: f in mem.table ==> f.key.sn < first
    modifies mem
    ensures mem.Valid() && mem.Contents() == old(mem.Contents()) + set e | e in BatchEntries(ops, first)
  {
    ghost var es := BatchEntries(ops, first);
    ghost var before := mem.Contents();
    for i := 0 to |ops|
      invariant mem.Valid() && mem.Contents() == before + set e | e in es[..i]
    {
      forall f | f in mem.table
        ensures !SameKey(es[i], f)
      {
        assert f in mem.Contents();
        FreshBatch(ops, first, i, f);
      }
      mem.Add(EntryOf(ops[i], first + i));
      assert es[..i + 1] == es[..i] + [es[i]];
    }
    assert es[..|ops|] == es;
  }
}
