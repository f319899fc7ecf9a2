// db/db_iter.cc: a cursor over user keys, on top of a cursor over internal entries.
module DBIterators {
  import opened Basics
  import opened InternalKeys
  import opened ReadSpec
  import opened MergingIterators

  /** Entry `i` is what a reader at `s` sees for its user key: a value, with nothing newer visible. */
  ghost predicate Visible(m: seq<Entry>, s: SequenceNumber, i: int) {
    && 0 <= i < |m| && m[i].key.sn <= s && m[i].key.ty.Value?
    && forall j :: 0 <= j < i && m[j].key.user == m[i].key.user ==> m[j].key.sn > s
  }

  /** The first visible entry from `i` on; |m| if there is none. */
  ghost function NextVisible(m: seq<Entry>, s: SequenceNumber, i: nat): (r: nat)
    requires i <= |m|
    ensures i <= r <= |m|
    ensures r < |m| ==> Visible(m, s, r)
    ensures forall j :: i <= j < r ==> !Visible(m, s, j)
    decreases |m| - i
  {
    if i == |m| || Visible(m, s, i) then i else NextVisible(m, s, i + 1)
  }

  /** The last visible entry before `i`; |m| if there is none. */
  ghost function PrevVisible(m: seq<Entry>, s: SequenceNumber, i: nat): (r: nat)
    requires i <= |m|
    ensures r == |m| || (r < i && Visible(m, s, r))
    ensures forall j :: (if r == |m| then 0 else r + 1) <= j < i ==> !Visible(m, s, j)
  {
    if i == 0 then |m| else if Visible(m, s, i - 1) then i - 1 else PrevVisible(m, s, i - 1)
  }

  /** Index of the first entry whose user key is at or after `u`. */
  ghost function UserBound(m: seq<Entry>, u: UserKey): (r: nat)
    ensures r <= |m|
    ensures forall j :: 0 <= j < r ==> m[j].key.user < u
    ensures r < |m| ==> m[r].key.user >= u
  {
    if m == [] || m[0].key.user >= u then 0 else 1 + UserBound(m[1..], u)
  }

  lemma UsersAscend(m: seq<Entry>, i: int, j: int)
    requires Sorted(m) && 0 <= i <= j < |m|
    ensures m[i].key.user <= m[j].key.user
  {
    assert InOrder(m, i, j);
  }

  lemma NextVisibleIs(m: seq<Entry>, s: SequenceNumber, i: nat, r: nat)
    requires i <= r <= |m| && (r < |m| ==> Visible(m, s, r))
    requires forall j :: i <= j < r ==> !Visible(m, s, j)
    ensures NextVisible(m, s, i) == r
  {
  }

  lemma PrevVisibleIs(m: seq<Entry>, s: SequenceNumber, i: nat, r: int)
    requires -1 <= r < i <= |m| && (r >= 0 ==> Visible(m, s, r))
    requires forall j :: r < j < i ==> !Visible(m, s, j)
    ensures PrevVisible(m, s, i) == if r < 0 then |m| else r
  {
  }

  /** The cursor of db_iter stops at `i` exactly when a point read at `s` returns m[i].value. */
  lemma VisibleIsRead(m: seq<Entry>, s: SequenceNumber, i: nat, es: set<Entry>)
    requires Sorted(m) && Unique(es) && (forall e :: e in es <==> e in m) && i < |m|
    ensures Visible(m, s, i) <==> NewestValue(es, m[i].key.user, s, m[i])
    ensures Visible(m, s, i) ==> Read(es, m[i].key.user, s) == Some(m[i].value)
  {
    var u := m[i].key.user;
    if Visible(m, s, i) {
      assert m[i] in m;
      forall e | e in es && e.key.user == u && e.key.sn <= s
        ensures e.key.sn <= m[i].key.sn
      {
        var j :| 0 <= j < |m| && m[j] == e;
        assert InOrder(m, i, j);
      }
      assert Newest(es, u, s, m[i]);
      ReadNewest(es, u, s, m[i]);
    }
    if NewestValue(es, u, s, m[i]) {
      forall j | 0 <= j < i && m[j].key.user == u
        ensures m[j].key.sn > s
      {
        assert m[j] in m && InOrder(m, j, i) && (SameSlot(m[j], m[i]) ==> m[j] == m[i]);
      }
    }
  }

  /** Every user key a point read finds is visited, and only once. */
  lemma CursorVisitsEveryKey(m: seq<Entry>, s: SequenceNumber, u: UserKey, es: set<Entry>)
    requires Sorted(m) && Unique(es) && forall e :: e in es <==> e in m
    ensures Read(es, u, s).Some? <==> exists i :: Visible(m, s, i) && m[i].key.user == u
    ensures forall i, j :: Visible(m, s, i) && Visible(m, s, j) && m[i].key.user == m[j].key.user ==> i == j
  {
    if Read(es, u, s).Some? {
      var e :| NewestValue(es, u, s, e);
      var i :| 0 <= i < |m| && m[i] == e;
      VisibleIsRead(m, s, i, es);
    }
    if exists i :: Visible(m, s, i) && m[i].key.user == u {
      var i :| Visible(m, s, i) && m[i].key.user == u;
      VisibleIsRead(m, s, i, es);
    }
  }

  class DBIter {
    const iter: MergingIterator
    const sequence: SequenceNumber
    var direction: Direction
    var valid: bool
    var savedKey: Option<UserKey>   // None once cleared
    var savedValue: Bytes
    // The abstract cursor: index of the visible entry, |iter.merged| when invalid.
    ghost var pos: nat

    /** Position of the inner iterator, with -1 for "before the first entry". */
    ghost function InnerPos(): int
      reads iter
    {
      if iter.at == |iter.merged| then -1 else iter.at
    }

    ghost predicate NothingBetween(q: int, p: nat)
      requires p <= |iter.merged|
    {
      forall i :: 0 <= i && q < i < p ==> iter.merged[i].key.sn > sequence
    }

    ghost predicate Valid()
      reads this, iter, iter.children
    {
      && iter.Valid() && pos <= |iter.merged|
      && (valid <==> pos < |iter.merged|)
      && (valid ==> Visible(iter.merged, sequence, pos))
      && (valid && direction.Forward? ==> iter.at == pos)
      && (valid && direction.Reverse? ==>
            && savedKey == Some(iter.merged[pos].key.user) && savedValue == iter.merged[pos].value
            && InnerPos() < pos && NothingBetween(InnerPos(), pos)
            && (InnerPos() >= 0 ==> iter.merged[InnerPos()].key.user < savedKey.value))
    }

    constructor (inner: MergingIterator, s: SequenceNumber)
      requires inner.Valid()
      ensures Valid() && iter == inner && sequence == s && !valid
    {
      iter := inner;
      sequence := s;
      direction := Forward;
      valid := false;
      savedKey := None;
      savedValue := [];
      pos := |inner.merged|;
    }

    function CurrentKey(): UserKey
      requires Valid() && valid
      reads this, iter, iter.children
      ensures CurrentKey() == iter.merged[pos].key.user
    {
      if direction.Forward? then iter.Entry().key.user else savedKey.value
    }

    function CurrentValue(): Bytes
      requires Valid() && valid
      reads this, iter, iter.children
      ensures CurrentValue() == iter.merged[pos].value
    {
      if direction.Forward? then iter.Entry().value else savedValue
    }

    ghost predicate Hidden(skipping: bool, skip: Option<UserKey>, i: nat)
      requires i < |iter.merged|
    {
      skipping && skip.Some? && iter.merged[i].key.user <= skip.value
    }

    /** What the forward scan knows about entry `i` when it stands at `cur`, looking from `start` on. */
    ghost predicate ScanAt(skipping: bool, skip: Option<UserKey>, start: nat, cur: nat, i: int) {
      var m := iter.merged;
      0 <= i < |m| ==>
        && (start <= i < cur ==> !Visible(m, sequence, i))
        && (start <= i && Hidden(skipping, skip, i) ==> !Visible(m, sequence, i))
        && (cur <= i < start ==> Hidden(skipping, skip, i) && (m[i].key.sn > sequence || m[i].key.ty.Value?))
        && (cur <= i && !Hidden(skipping, skip, i) ==>
              forall j :: 0 <= j < cur && m[j].key.user == m[i].key.user ==> m[j].key.sn > sequence)
    }

    ghost predicate Scanning(skipping: bool, skip: Option<UserKey>, start: nat, cur: nat) {
      start <= |iter.merged| && (skipping ==> skip.Some?) && forall i :: ScanAt(skipping, skip, start, cur, i)
    }

    /** The scan stops: `cur` is the answer. */
    lemma ScanFound(skipping: bool, skip: Option<UserKey>, start: nat, cur: nat)
      requires Sorted(iter.merged) && cur < |iter.merged| && Scanning(skipping, skip, start, cur)
      requires iter.merged[cur].key.sn <= sequence && iter.merged[cur].key.ty.Value? && !Hidden(skipping, skip, cur)
      ensures Visible(iter.merged, sequence, cur) && NextVisible(iter.merged, sequence, start) == cur
    {
      assert ScanAt(skipping, skip, start, cur, cur);
      forall i | start <= i < cur
        ensures !Visible(iter.merged, sequence, i)
      {
        assert ScanAt(skipping, skip, start, cur, i);
      }
      NextVisibleIs(iter.merged, sequence, start, cur);
    }

    lemma ScanExhausted(skipping: bool, skip: Option<UserKey>, start: nat)
      requires Scanning(skipping, skip, start, |iter.merged|)
      ensures NextVisible(iter.merged, sequence, start) == |iter.merged|
    {
      forall i | start <= i < |iter.merged|
        ensures !Visible(iter.merged, sequence, i)
      {
        assert ScanAt(skipping, skip, start, |iter.merged|, i);
      }
      NextVisibleIs(iter.merged, sequence, start, |iter.merged|);
    }

    method FindNextUserEntry(skip0: bool, ghost start: nat)
      requires iter.Valid() && iter.IsValid() && direction.Forward?
      requires Scanning(skip0, savedKey, start, iter.at)
      modifies this, iter, iter.children
      ensures Valid() && direction.Forward?
      ensures pos == NextVisible(iter.merged, sequence, start)
    {
      var skipping := skip0;
      while true
        invariant iter.Valid() && iter.IsValid() && direction.Forward?
        invariant Scanning(skipping, savedKey, start, iter.at)
        decreases |iter.merged| - iter.at
      {
        var e := iter.Entry();
        ghost var cur := iter.at;
        if e.key.sn <= sequence {
          match e.key.ty {
            case Deletion =>
              ScanDeletion(skipping, savedKey, start, cur);
              savedKey := Some(e.key.user);
              skipping := true;
            case Value =>
              if skipping && e.key.user <= savedKey.value {
                ScanHidden(skipping, savedKey, start, cur);
              } else {
                ScanFound(skipping, savedKey, start, cur);
                valid := true;
                savedKey := None;
                pos := cur;
                return;
              }
          }
        } else {
          ScanNewer(skipping, savedKey, start, cur);
        }
        iter.Next();
        if !iter.IsValid() {
          break;
        }
      }
      ScanExhausted(skipping, savedKey, start);
      savedKey := None;
      valid := false;
      pos := |iter.merged|;
    }

    lemma ScanDeletion(skipping: bool, skip: Option<UserKey>, start: nat, cur: nat)
      requires Sorted(iter.merged) && cur < |iter.merged| && Scanning(skipping, skip, start, cur)
      requires iter.merged[cur].key.sn <= sequence && iter.merged[cur].key.ty.Deletion?
      ensures Scanning(true, Some(iter.merged[cur].key.user), start, cur + 1)
    {
      var m := iter.merged;
      var next := cur + 1;
      UsersAround(cur);
      assert ScanAt(skipping, skip, start, cur, cur);
      forall i
        ensures ScanAt(true, Some(m[cur].key.user), start, next, i)
      {
        assert ScanAt(skipping, skip, start, cur, i);
      }
    }

    lemma UsersAround(p: nat)
      requires Sorted(iter.merged) && p < |iter.merged|
      ensures forall i :: p <= i < |iter.merged| ==> iter.merged[i].key.user >= iter.merged[p].key.user
      ensures forall i :: 0 <= i <= p ==> iter.merged[i].key.user <= iter.merged[p].key.user
    {
      var m := iter.merged;
      forall i | 0 <= i < |m|
        ensures i >= p ==> m[i].key.user >= m[p].key.user
        ensures i <= p ==> m[i].key.user <= m[p].key.user
      {
        if i >= p { UsersAscend(m, p, i); } else { UsersAscend(m, i, p); }
      }
    }

    lemma ScanHidden(skipping: bool, skip: Option<UserKey>, start: nat, cur: nat)
      requires cur < |iter.merged| && Scanning(skipping, skip, start, cur) && Hidden(skipping, skip, cur)
      ensures Scanning(skipping, skip, start, cur + 1)
    {
      var next := cur + 1;
      assert ScanAt(skipping, skip, start, cur, cur);
      forall i
        ensures ScanAt(skipping, skip, start, next, i)
      {
        assert ScanAt(skipping, skip, start, cur, i);
      }
    }

    lemma ScanNewer(skipping: bool, skip: Option<UserKey>, start: nat, cur: nat)
      requires cur < |iter.merged| && Scanning(skipping, skip, start, cur) && iter.merged[cur].key.sn > sequence
      ensures Scanning(skipping, skip, start, cur + 1)
    {
      var next := cur + 1;
      assert ScanAt(skipping, skip, start, cur, cur);
      forall i
        ensures ScanAt(skipping, skip, start, next, i)
      {
        assert ScanAt(skipping, skip, start, cur, i);
      }
    }

    /** Stepping past a visible entry: its user key is to be skipped. */
    lemma SkipCurrent(p: nat, cur: nat)
      requires Sorted(iter.merged) && Visible(iter.merged, sequence, p) && cur <= p + 1 && NothingBetween(cur - 1, p)
      ensures Scanning(true, Some(iter.merged[p].key.user), p + 1, cur)
      ensures cur == |iter.merged| ==> NextVisible(iter.merged, sequence, p + 1) == |iter.merged|
    {
      UsersAround(p);
      if cur == |iter.merged| {
        NextVisibleIs(iter.merged, sequence, p + 1, |iter.merged|);
      }
    }

    method Next()
      requires Valid() && valid
      modifies this, iter, iter.children
      ensures Valid() && pos == NextVisible(iter.merged, sequence, old(pos) + 1)
    {
      ghost var p := pos;
      if direction.Reverse? {
        direction := Forward;
        ghost var q := InnerPos();
        if !iter.IsValid() {
          iter.SeekToFirst();
        } else {
          iter.Next();
        }
        assert iter.at == q + 1;
      } else {
        savedKey := Some(iter.Entry().key.user);
        iter.Next();
      }
      SkipCurrent(p, iter.at);
      if !iter.IsValid() {
        valid := false;
        savedKey := None;
        pos := |iter.merged|;
        return;
      }
      FindNextUserEntry(true, p + 1);
    }

    /** What the backward scan knows about entry `i` after looking at those in (r, start); `t` is the saved one. */
    ghost predicate BackAt(t: int, start: nat, r: int, i: int) {
      0 <= i < |iter.merged| && r < i < start ==>
        && (i > t ==> !Visible(iter.merged, sequence, i))
        && (i < t ==> iter.merged[i].key.sn > sequence)
    }

    ghost predicate ScanningBack(t: int, key: Option<UserKey>, value: Bytes, start: nat, r: int) {
      var m := iter.merged;
      && -1 <= r < start <= |m|
      && (t == -1 || (r < t < start && m[t].key.sn <= sequence && m[t].key.ty.Value?
                      && key == Some(m[t].key.user) && value == m[t].value))
      && forall i :: BackAt(t, start, r, i)
    }

    method FindPrevUserEntry(ghost start: nat)
      requires iter.Valid() && direction.Reverse?
      requires start == InnerPos() + 1
      modifies this, iter, iter.children
      ensures Valid() && pos == PrevVisible(iter.merged, sequence, start)
    {
      hide BackAt, PrevVisible, IsMerge, Visible, NothingBetween;
      var valueType := Deletion;
      ghost var t: int := -1;
      ScanBackStarts(savedKey, savedValue, start);
      while iter.IsValid()
        invariant iter.Valid() && direction.Reverse?
        invariant ScanningBack(t, savedKey, savedValue, start, InnerPos())
        invariant valueType.Value? <==> t != -1
        decreases InnerPos()
      {
        var e := iter.Entry();
        ghost var r := iter.at;
        if e.key.sn <= sequence {
          if valueType.Value? && e.key.user < savedKey.value {
            break;
          }
          ScanBackVisible(t, savedKey, savedValue, start, r);
          valueType := e.key.ty;
          if valueType.Deletion? {
            savedKey := None;
            savedValue := [];
            t := -1;
          } else {
            savedKey := Some(e.key.user);
            savedValue := e.value;
            t := r;
          }
        } else {
          ScanBackNewer(t, savedKey, savedValue, start, r);
        }
        iter.Prev();
      }
      if valueType.Deletion? {
        ScanBackExhausted(savedKey, savedValue, start);
        valid := false;
        savedKey := None;
        savedValue := [];
        direction := Forward;
        pos := |iter.merged|;
      } else {
        SavedIsVisible(t, savedKey, savedValue, start, InnerPos());
        valid := true;
        pos := t;
      }
    }

    lemma ScanBackStarts(key: Option<UserKey>, value: Bytes, start: nat)
      requires start <= |iter.merged|
      ensures ScanningBack(-1, key, value, start, start - 1)
    {
      var last := start - 1;
      forall i ensures BackAt(-1, start, last, i) { }
    }

    /** A visible entry at the scan position with the saved user key replaces the saved entry. */
    lemma ScanBackVisible(t: int, key: Option<UserKey>, value: Bytes, start: nat, r: nat)
      requires iter.Shape() && ScanningBack(t, key, value, start, r)
      requires iter.merged[r].key.sn <= sequence
      requires t != -1 ==> iter.merged[r].key.user >= key.value
      ensures var e := iter.merged[r];
              if e.key.ty.Deletion? then ScanningBack(-1, None, [], start, r - 1)
              else ScanningBack(r, Some(e.key.user), e.value, start, r - 1)
    {
      if t != -1 {
        UsersAscend(iter.merged, r, t);
        assert !Visible(iter.merged, sequence, t);
      }
      var t', next := if iter.merged[r].key.ty.Deletion? then -1 else r as int, r - 1;
      forall i
        ensures BackAt(t', start, next, i)
      {
        assert BackAt(t, start, r, i);
      }
    }

    lemma ScanBackNewer(t: int, key: Option<UserKey>, value: Bytes, start: nat, r: nat)
      requires ScanningBack(t, key, value, start, r) && iter.merged[r].key.sn > sequence
      ensures ScanningBack(t, key, value, start, r - 1)
    {
      var next := r - 1;
      forall i
        ensures BackAt(t, start, next, i)
      {
        assert BackAt(t, start, r, i);
      }
    }

    lemma ScanBackExhausted(key: Option<UserKey>, value: Bytes, start: nat)
      requires ScanningBack(-1, key, value, start, -1)
      ensures PrevVisible(iter.merged, sequence, start) == |iter.merged|
    {
      forall i | -1 < i < start
        ensures !Visible(iter.merged, sequence, i)
      {
        assert BackAt(-1, start, -1, i);
      }
      PrevVisibleIs(iter.merged, sequence, start, -1);
    }

    lemma SavedIsVisible(t: int, key: Option<UserKey>, value: Bytes, start: nat, r: int)
      requires iter.Shape() && t != -1 && ScanningBack(t, key, value, start, r)
      requires r >= 0 ==> iter.merged[r].key.user < key.value
      ensures Visible(iter.merged, sequence, t) && PrevVisible(iter.merged, sequence, start) == t
      ensures NothingBetween(r, t)
    {
      forall i | r < i < start
        ensures i < t ==> iter.merged[i].key.sn > sequence
        ensures i > t ==> !Visible(iter.merged, sequence, i)
      {
        assert BackAt(t, start, r, i);
      }
      forall j | 0 <= j < t && iter.merged[j].key.user == iter.merged[t].key.user
        ensures iter.merged[j].key.sn > sequence
      {
        if j <= r { UsersAscend(iter.merged, j, r); }
      }
      PrevVisibleIs(iter.merged, sequence, start, t);
    }

    method Prev()
      requires Valid() && valid
      modifies this, iter, iter.children
      ensures Valid() && pos == PrevVisible(iter.merged, sequence, old(pos))
    {
      ghost var p := pos;
      if direction.Forward? {
        savedKey := Some(iter.Entry().key.user);
        while true
          invariant iter.Valid() && iter.IsValid() && iter.at <= p && direction.Forward?
          invariant savedKey == Some(iter.merged[p].key.user)
          invariant forall i :: iter.at <= i <= p ==> iter.merged[i].key.user == savedKey.value
          decreases iter.at
        {
          iter.Prev();
          if !iter.IsValid() {
            PrevVisibleIs(iter.merged, sequence, p, -1);
            valid := false;
            savedKey := None;
            savedValue := [];
            pos := |iter.merged|;
            return;
          }
          UsersAscend(iter.merged, iter.at, p);
          if iter.Entry().key.user < savedKey.value {
            break;
          }
        }
        direction := Reverse;
      }
      ghost var start := InnerPos() + 1;
      FindPrevUserEntry(start);
      PrevVisibleIs(iter.merged, sequence, p, if pos == |iter.merged| then -1 else pos);
    }

    method Seek(target: UserKey)
      requires Valid()
      modifies this, iter, iter.children
      ensures Valid() && pos == NextVisible(iter.merged, sequence, UserBound(iter.merged, target))
    {
      direction := Forward;
      savedValue := [];
      savedKey := None;
      var key := SeekKey(target, sequence);
      iter.Seek(key);
      ghost var start := UserBound(iter.merged, target);
      SeekScans(start, target);
      if iter.IsValid() {
        FindNextUserEntry(false, start);
      } else {
        valid := false;
        pos := |iter.merged|;
      }
    }

    lemma SeekScans(start: nat, target: UserKey)
      requires Sorted(iter.merged) && start == UserBound(iter.merged, target)
      ensures Scanning(false, None, start, LowerBound(iter.merged, SeekKey(target, sequence)))
      ensures LowerBound(iter.merged, SeekKey(target, sequence)) == |iter.merged| ==>
                NextVisible(iter.merged, sequence, start) == |iter.merged|
    {
      var m := iter.merged;
      var cur := LowerBound(m, SeekKey(target, sequence));
      assert cur < |m| ==> m[cur].key.user >= target;
      forall i | start <= i < |m|
        ensures m[i].key.user >= target
      {
        UsersAscend(m, start, i);
      }
      if cur == |m| {
        ScanExhausted(false, None, start);
      }
    }

    method SeekToFirst()
      requires Valid()
      modifies this, iter, iter.children
      ensures Valid() && pos == NextVisible(iter.merged, sequence, 0)
    {
      direction := Forward;
      savedValue := [];
      iter.SeekToFirst();
      if iter.IsValid() {
        FindNextUserEntry(false, 0);
      } else {
        valid := false;
        pos := |iter.merged|;
      }
    }

    method SeekToLast()
      requires Valid()
      modifies this, iter, iter.children
      ensures Valid() && pos == PrevVisible(iter.merged, sequence, |iter.merged|)
    {
      direction := Reverse;
      savedValue := [];
      iter.SeekToLast();
      FindPrevUserEntry(|iter.merged|);
    }
  }
}
