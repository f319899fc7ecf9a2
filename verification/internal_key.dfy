// Internal keys: db/dbformat.h and db/dbformat.cc.
//
// A user key is represented by its position in the order of the user comparator.  Everything in
// db/ looks at user keys only through Comparator::Compare, and module Comparators shows that any
// finite set of byte strings can be replaced by such positions without changing a comparison.
module InternalKeys {
  import opened Basics

  type UserKey = int

  // The low eight bits of the packed word hold the value type, so 56 remain.
  type SequenceNumber = n: nat | n <= 0xFF_FFFF_FFFF_FFFF
  const MAX_SEQUENCE_NUMBER: SequenceNumber := 0xFF_FFFF_FFFF_FFFF

  datatype ValueType = Deletion | Value

  datatype Key = Key(user: UserKey, sn: SequenceNumber, ty: ValueType)

  datatype Entry = Entry(key: Key, value: Bytes)

  function Pack(k: Key): nat {
    k.sn * 256 + if k.ty.Value? then 1 else 0
  }

  /** InternalKeyComparator: user key ascending, then packed sequence and type descending. */
  predicate Less(a: Key, b: Key) {
    a.user < b.user || (a.user == b.user && Pack(a) > Pack(b))
  }

  predicate AtMost(a: Key, b: Key) {
    !Less(b, a)
  }

  lemma LessIsTotal(a: Key, b: Key)
    ensures a == b || Less(a, b) || Less(b, a)
  {
  }

  /** The first internal key a search for `u` at snapshot `s` may stop at (kValueTypeForSeek). */
  function SeekKey(u: UserKey, s: SequenceNumber): Key {
    Key(u, s, Value)
  }

  ghost predicate InOrder(es: seq<Entry>, i: int, j: int) {
    0 <= i < j < |es| ==> Less(es[i].key, es[j].key)
  }

  ghost predicate Sorted(es: seq<Entry>) {
    forall i, j :: InOrder(es, i, j)
  }

  /** Index of the first entry at or after `k`: what every table, block or memtable Seek computes. */
  function LowerBound(es: seq<Entry>, k: Key): (i: nat)
    requires Sorted(es)
    ensures i <= |es|
    ensures forall j :: 0 <= j < i ==> Less(es[j].key, k)
    ensures forall j :: i <= j < |es| ==> !Less(es[j].key, k)
  {
    assert forall j :: 0 < j < |es| ==> Less(es[0].key, es[j].key) by {
      forall j | 0 < j < |es|
        ensures Less(es[0].key, es[j].key)
      {
        assert InOrder(es, 0, j);
      }
    }
    assert es != [] ==> Sorted(es[1..]) by {
      forall i, j | es != []
        ensures InOrder(es[1..], i, j)
      {
        assert InOrder(es, i + 1, j + 1);
      }
    }
    if es == [] || !Less(es[0].key, k) then 0 else 1 + LowerBound(es[1..], k)
  }

  predicate SameKey(e: Entry, f: Entry) {
    e.key == f.key
  }

  /** Any finite set of entries with different keys can be listed in order. */
  lemma {:induction false} SortedListing(es: set<Entry>) returns (m: seq<Entry>)
    requires forall e, f {:trigger SameKey(e, f)} :: e in es && f in es && SameKey(e, f) ==> e == f
    ensures Sorted(m) && forall e :: e in m <==> e in es
  {
    if es == {} {
      m := [];
    } else {
      var e :| e in es;
      var rest := SortedListing(es - {e});
      var i := LowerBound(rest, e.key);
      m := Inserted(rest, i, e);
      forall a, b
        ensures InOrder(m, a, b)
      {
        if 0 <= a < b < |m| { InsertedInOrder(rest, e, i, a, b); }
      }
      InsertedMembers(rest, i, e);
    }
  }

  ghost function Inserted(rest: seq<Entry>, i: nat, e: Entry): seq<Entry>
    requires i <= |rest|
  {
    rest[..i] + [e] + rest[i..]
  }

  lemma InsertedMembers(rest: seq<Entry>, i: nat, e: Entry)
    requires i <= |rest|
    ensures forall f :: f in Inserted(rest, i, e) <==> f in rest || f == e
  {
    assert rest == rest[..i] + rest[i..];
  }

  lemma InsertedInOrder(rest: seq<Entry>, e: Entry, i: nat, a: nat, b: nat)
    requires Sorted(rest) && i <= |rest| && a < b <= |rest|
    requires forall j :: 0 <= j < i ==> Less(rest[j].key, e.key)
    requires forall j :: i <= j < |rest| ==> !Less(rest[j].key, e.key)
    requires forall f :: f in rest ==> !SameKey(e, f)
    ensures Less(Inserted(rest, i, e)[a].key, Inserted(rest, i, e)[b].key)
  {
    var m := Inserted(rest, i, e);
    if a == i {
      var f := rest[b - 1];
      assert m[a] == e && m[b] == f;
      assert f in rest && !SameKey(e, f);
      LessIsTotal(e.key, f.key);
    } else if b == i {
      assert m[a] == rest[a] && m[b] == e;
    } else {
      var x, y := if a < i then a else a - 1, if b < i then b else b - 1;
      assert m[a] == rest[x] && m[b] == rest[y];
      assert InOrder(rest, x, y);
    }
  }
}

// What a read should return, stated without levels, files or memtables.
module ReadSpec {
  import opened Basics
  import opened InternalKeys

  ghost predicate Newest(es: set<Entry>, u: UserKey, s: SequenceNumber, e: Entry) {
    && e in es && e.key.user == u && e.key.sn <= s
    && forall f :: f in es && f.key.user == u && f.key.sn <= s ==> f.key.sn <= e.key.sn
  }

  ghost predicate NoneVisible(es: set<Entry>, u: UserKey, s: SequenceNumber) {
    forall f :: f in es && f.key.user == u ==> f.key.sn > s
  }

  predicate SameSlot(e: Entry, f: Entry) {
    e.key.user == f.key.user && e.key.sn == f.key.sn
  }

  /** No two entries for a user key share a sequence number. */
  ghost predicate Unique(es: set<Entry>) {
    forall e, f {:trigger SameSlot(e, f)} :: e in es && f in es && SameSlot(e, f) ==> e == f
  }

  ghost predicate NewestValue(es: set<Entry>, u: UserKey, s: SequenceNumber, e: Entry) {
    Newest(es, u, s, e) && e.key.ty.Value?
  }

  /** The value of the newest entry for `u` at or below `s`; None for a deletion or no entry. */
  ghost function Read(es: set<Entry>, u: UserKey, s: SequenceNumber): Option<Bytes> {
    if exists e :: NewestValue(es, u, s, e) then
      var e :| NewestValue(es, u, s, e);
      Some(e.value)
    else None
  }

  function Answer(e: Entry): Option<Bytes> {
    if e.key.ty.Value? then Some(e.value) else None
  }

  lemma ReadNewest(es: set<Entry>, u: UserKey, s: SequenceNumber, e: Entry)
    requires Unique(es) && Newest(es, u, s, e)
    ensures Read(es, u, s) == Answer(e)
  {
    if exists f :: NewestValue(es, u, s, f) {
      forall f | NewestValue(es, u, s, f)
        ensures f == e
      {
        assert SameSlot(f, e);
      }
    } else {
      assert !NewestValue(es, u, s, e);
    }
  }

  /** The first entry at or after the seek key is the newest visible one for its user key, if it has that user key. */
  lemma SeekFindsNewest(table: seq<Entry>, u: UserKey, s: SequenceNumber)
    requires Sorted(table)
    ensures var i := LowerBound(table, SeekKey(u, s));
            if i < |table| && table[i].key.user == u then Newest((set e | e in table), u, s, table[i])
            else NoneVisible((set e | e in table), u, s)
  {
    var i := LowerBound(table, SeekKey(u, s));
    forall e | e in table && e.key.user == u && e.key.sn <= s
      ensures i < |table| && table[i].key.user == u && e.key.sn <= table[i].key.sn
    {
      var j :| 0 <= j < |table| && table[j] == e;
      assert j >= i && InOrder(table, i, j);
    }
    if i < |table| && table[i].key.user == u {
      assert table[i] in table;
    }
  }

  lemma ReadNothing(es: set<Entry>, u: UserKey, s: SequenceNumber)
    requires NoneVisible(es, u, s)
    ensures Read(es, u, s) == None
  {
  }

  lemma {:induction false} NewestExists(es: set<Entry>, u: UserKey, s: SequenceNumber)
    ensures NoneVisible(es, u, s) || exists e :: Newest(es, u, s, e)
  {
    if !NoneVisible(es, u, s) {
      var d :| d in es && d.key.user == u && d.key.sn <= s;
      var rest := es - {d};
      NewestExists(rest, u, s);
      if NoneVisible(rest, u, s) {
        assert Newest(es, u, s, d);
      } else {
        var e :| Newest(rest, u, s, e);
        if e.key.sn < d.key.sn {
          assert Newest(es, u, s, d);
        } else {
          assert Newest(es, u, s, e);
        }
      }
    }
  }

  /** A newer layer on top of equivalent older layers reads the same. */
  lemma ReadUnderNewer(a: set<Entry>, b: set<Entry>, n: set<Entry>, u: UserKey, s: SequenceNumber)
    requires Unique(a + n) && Unique(b + n)
    requires forall e, f :: e in n && (f in a || f in b) && e.key.user == f.key.user ==> e.key.sn > f.key.sn
    requires Read(a, u, s) == Read(b, u, s)
    ensures Read(a + n, u, s) == Read(b + n, u, s)
  {
    NewestExists(n, u, s);
    if NoneVisible(n, u, s) {
      ReadUnderInvisible(a, n, u, s);
      ReadUnderInvisible(b, n, u, s);
    } else {
      var e :| Newest(n, u, s, e);
      ReadNewest(a + n, u, s, e);
      ReadNewest(b + n, u, s, e);
    }
  }

  lemma ReadUnderInvisible(a: set<Entry>, n: set<Entry>, u: UserKey, s: SequenceNumber)
    requires Unique(a + n)
    requires NoneVisible(n, u, s)
    ensures Read(a + n, u, s) == Read(a, u, s)
  {
    NewestExists(a, u, s);
    if NoneVisible(a, u, s) {
      assert NoneVisible(a + n, u, s);
    } else {
      var e :| Newest(a, u, s, e);
      assert Newest(a + n, u, s, e);
      ReadNewest(a, u, s, e);
      ReadNewest(a + n, u, s, e);
    }
  }

  /** The first of two layers that holds a visible entry decides a read. */
  lemma ReadLayers(newer: set<Entry>, older: set<Entry>, u: UserKey, s: SequenceNumber)
    requires Unique(newer + older)
    requires forall e, f :: e in newer && f in older && e.key.user == f.key.user ==> e.key.sn > f.key.sn
    ensures NoneVisible(newer, u, s) ==> Read(newer + older, u, s) == Read(older, u, s)
    ensures !NoneVisible(newer, u, s) ==> Read(newer + older, u, s) == Read(newer, u, s)
  {
    NewestExists(newer, u, s);
    if NoneVisible(newer, u, s) {
      assert older + newer == newer + older;
      ReadUnderInvisible(older, newer, u, s);
    } else {
      var e :| Newest(newer, u, s, e);
      ReadNewest(newer, u, s, e);
      ReadNewest(newer + older, u, s, e);
    }
  }
}
