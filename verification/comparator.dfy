// Byte-string keys: util/comparator.cc, and the separators of internal keys in db/dbformat.cc.
module Comparators {
  import opened Basics

  /** Slice::compare: memcmp on the common length, then the shorter string first. */
  predicate Before(a: Bytes, b: Bytes) {
    if a == [] then b != []
    else if b == [] then false
    else a[0] < b[0] || (a[0] == b[0] && Before(a[1..], b[1..]))
  }

  lemma {:induction false} BeforeIsTotal(a: Bytes, b: Bytes)
    ensures a == b || Before(a, b) || Before(b, a)
  {
    if a != [] && b != [] && a[0] == b[0] {
      BeforeIsTotal(a[1..], b[1..]);
      assert a == [a[0]] + a[1..] && b == [b[0]] + b[1..];
    }
  }

  lemma {:induction false} BeforeIsStrict(a: Bytes)
    ensures !Before(a, a)
  {
    if a != [] { BeforeIsStrict(a[1..]); }
  }

  lemma {:induction false} BeforeIsTransitive(a: Bytes, b: Bytes, c: Bytes)
    requires Before(a, b) && Before(b, c)
    ensures Before(a, c)
  {
    if a != [] && b != [] && c != [] && a[0] == b[0] == c[0] {
      BeforeIsTransitive(a[1..], b[1..], c[1..]);
    }
  }

  // ---------------------------------------------------------------- keys as positions

  /** The position of a key among finitely many. */
  ghost function Rank(k: Bytes, keys: set<Bytes>): nat {
    |set j | j in keys && Before(j, k)|
  }

  lemma SubsetSize(a: set<Bytes>, b: set<Bytes>, extra: Bytes)
    requires a <= b && extra in b && extra !in a
    ensures |a| < |b|
  {
    var rest := b - {extra};
    SubsetNoLarger(a, rest);
  }

  lemma {:induction false} SubsetNoLarger(a: set<Bytes>, b: set<Bytes>)
    requires a <= b
    ensures |a| <= |b|
  {
    if a != {} {
      var x :| x in a;
      SubsetNoLarger(a - {x}, b - {x});
    }
  }

  lemma RankGrows(a: Bytes, b: Bytes, keys: set<Bytes>)
    requires a in keys && Before(a, b)
    ensures Rank(a, keys) < Rank(b, keys)
  {
    var below, above := set j | j in keys && Before(j, a), set j | j in keys && Before(j, b);
    forall j | j in below ensures j in above { BeforeIsTransitive(j, a, b); }
    BeforeIsStrict(a);
    SubsetSize(below, above, a);
  }

  /** Replacing byte strings by their positions changes no comparison: why user keys may be integers elsewhere. */
  lemma RankPreservesOrder(a: Bytes, b: Bytes, keys: set<Bytes>)
    requires a in keys && b in keys
    ensures Before(a, b) <==> Rank(a, keys) < Rank(b, keys)
    ensures a == b <==> Rank(a, keys) == Rank(b, keys)
  {
    BeforeIsTotal(a, b);
    if Before(a, b) {
      RankGrows(a, b, keys);
    } else if Before(b, a) {
      RankGrows(b, a, keys);
    }
  }

  // ---------------------------------------------------------------- separators

  /** Changing the byte after a common prefix decides a comparison. */
  lemma {:induction false} DecidedAt(a: Bytes, b: Bytes, i: nat)
    requires i < |a| && i < |b| && a[..i] == b[..i] && a[i] < b[i]
    ensures Before(a, b)
  {
    if i > 0 {
      assert a[0] == a[..i][0] == b[..i][0] == b[0];
      assert a[1..][..i - 1] == a[..i][1..] == b[..i][1..] == b[1..][..i - 1];
      DecidedAt(a[1..], b[1..], i - 1);
    }
  }

  predicate FirstDifference(a: Bytes, b: Bytes, i: nat) {
    i < |a| && i < |b| && a[..i] == b[..i] && a[i] != b[i]
  }

  /** The key up to and with byte `i`, which is raised by one. */
  predicate Raised(a: Bytes, i: nat, r: Bytes) {
    i < |a| && a[i] < 0xff && r == a[..i] + [a[i] + 1]
  }

  /** The start is cut off behind the first difference where that leaves room below the limit, and kept otherwise. */
  ghost predicate IsSeparator(start: Bytes, limit: Bytes, r: Bytes) {
    if exists i: nat :: FirstDifference(start, limit, i) && start[i] as int + 1 < limit[i]
    then exists i: nat :: FirstDifference(start, limit, i) && Raised(start, i, r)
    else r == start
  }

  /** The key is cut off behind its first byte that can be raised. */
  ghost predicate IsSuccessor(key: Bytes, r: Bytes) {
    if exists i :: 0 <= i < |key| && key[i] != 0xff
    then exists i: nat :: Raised(key, i, r) && forall j :: 0 <= j < i ==> key[j] == 0xff
    else r == key
  }

  lemma OneFirstDifference(a: Bytes, b: Bytes, i: nat, j: nat)
    requires FirstDifference(a, b, i) && FirstDifference(a, b, j)
    ensures i == j
  {
  }

  /** Nothing shorter lies between start and limit than a separator that was cut off. */
  lemma SeparatorIsShortest(start: Bytes, limit: Bytes, r: Bytes, s: Bytes)
    requires IsSeparator(start, limit, r) && r != start && Before(start, s) && Before(s, limit)
    ensures |r| <= |s|
  {
    var i: nat :| FirstDifference(start, limit, i) && Raised(start, i, r);
    BetweenSharesPrefix(start, s, limit, i);
  }

  lemma {:induction false} BetweenSharesPrefix(a: Bytes, s: Bytes, b: Bytes, i: nat)
    requires Before(a, s) && Before(s, b) && i < |a| && i <= |b| && a[..i] == b[..i]
    ensures i < |s|
    decreases i
  {
    if i > 0 {
      assert a[..i][0] == b[..i][0];
      assert a[..i][1..] == a[1..][..i - 1] && b[..i][1..] == b[1..][..i - 1];
      BetweenSharesPrefix(a[1..], s[1..], b[1..], i - 1);
    }
  }

  /** Nothing shorter lies behind the key than a successor that was cut off. */
  lemma SuccessorIsShortest(key: Bytes, r: Bytes, s: Bytes)
    requires IsSuccessor(key, r) && r != key && Before(key, s)
    ensures |r| <= |s|
  {
    var i: nat :| Raised(key, i, r) && forall j :: 0 <= j < i ==> key[j] == 0xff;
    BehindHighBytes(key, s, i);
  }

  lemma {:induction false} BehindHighBytes(key: Bytes, s: Bytes, i: nat)
    requires i < |key| && (forall j :: 0 <= j < i ==> key[j] == 0xff) && Before(key, s)
    ensures i < |s|
    decreases i
  {
    if i > 0 {
      assert forall j :: 0 <= j < i - 1 ==> key[1..][j] == key[j + 1];
      BehindHighBytes(key[1..], s[1..], i - 1);
    }
  }

  /** BytewiseComparatorImpl::FindShortestSeparator. */
  method FindShortestSeparator(start0: Bytes, limit: Bytes) returns (start: Bytes)
    ensures start == start0 || (Before(start0, start) && Before(start, limit) && |start| <= |start0|)
    ensures IsSeparator(start0, limit, start)
  {
    start := start0;
    var minLength := if |start| < |limit| then |start| else |limit|;
    var diff := 0;
    while diff < minLength && start[diff] == limit[diff]
      invariant diff <= minLength && start[..diff] == limit[..diff]
    {
      diff := diff + 1;
    }
    forall i: nat | FirstDifference(start0, limit, i)
      ensures diff < minLength && i == diff
    {
    }
    if diff < minLength {
      assert FirstDifference(start0, limit, diff);
      var byte := start[diff];
      if byte < 0xff && byte + 1 < limit[diff] {
        start := start[diff := byte + 1][..diff + 1];
        assert start[..diff] == start0[..diff];
        assert Raised(start0, diff, start);
        DecidedAt(start0, start, diff);
        DecidedAt(start, limit, diff);
      }
    }
  }

  /** BytewiseComparatorImpl::FindShortSuccessor. */
  method FindShortSuccessor(key0: Bytes) returns (key: Bytes)
    ensures key == key0 || (Before(key0, key) && |key| <= |key0|)
    ensures key == key0 ==> forall i :: 0 <= i < |key0| ==> key0[i] == 0xff
    ensures IsSuccessor(key0, key)
  {
    for i := 0 to |key0|
      invariant forall j :: 0 <= j < i ==> key0[j] == 0xff
    {
      if key0[i] != 0xff {
        key := key0[i := key0[i] + 1][..i + 1];
        assert key[..i] == key0[..i];
        assert Raised(key0, i, key);
        DecidedAt(key0, key, i);
        return;
      }
    }
    key := key0;
  }

  // ---------------------------------------------------------------- internal keys over byte strings

  /** An internal key: the user key, and sequence number and type packed into 64 bits. */
  datatype ByteKey = ByteKey(user: Bytes, tag: nat)

  /** PackSequenceAndType(kMaxSequenceNumber, kValueTypeForSeek): the first tag of any user key. */
  const MAX_TAG: nat := 0xff_ffff_ffff_ffff * 256 + 1

  /** InternalKeyComparator::Compare. */
  predicate KeyBefore(a: ByteKey, b: ByteKey) {
    Before(a.user, b.user) || (a.user == b.user && a.tag > b.tag)
  }

  lemma KeyOrder(a: ByteKey, b: ByteKey, c: ByteKey)
    ensures a == b || KeyBefore(a, b) || KeyBefore(b, a)
    ensures !(KeyBefore(a, b) && KeyBefore(b, a))
    ensures KeyBefore(a, b) && KeyBefore(b, c) ==> KeyBefore(a, c)
  {
    BeforeIsTotal(a.user, b.user);
    BeforeIsStrict(a.user);
    BeforeIsStrict(b.user);
    if Before(a.user, b.user) && Before(b.user, a.user) {
      BeforeIsTransitive(a.user, b.user, a.user);
    }
    if Before(a.user, b.user) && Before(b.user, c.user) {
      BeforeIsTransitive(a.user, b.user, c.user);
    }
  }

  /** A key that may stand between `last` and `next` in an index: it is `last` itself, or opens a user key that lies
      strictly between theirs. */
  ghost predicate Separates(last: ByteKey, s: ByteKey, next: ByteKey) {
    s == last || (Before(last.user, s.user) && Before(s.user, next.user) && s.tag == MAX_TAG)
  }

  /** A user key that got shorter is given the first tag; otherwise the key stays as it is. */
  ghost predicate Shortened(key: ByteKey, user: Bytes, s: ByteKey) {
    s == if |user| < |key.user| && Before(key.user, user) then ByteKey(user, MAX_TAG) else key
  }

  ghost predicate IsKeySeparator(start: ByteKey, limit: ByteKey, s: ByteKey) {
    exists user :: IsSeparator(start.user, limit.user, user) && Shortened(start, user, s)
  }

  ghost predicate IsKeySuccessor(key: ByteKey, s: ByteKey) {
    exists user :: IsSuccessor(key.user, user) && Shortened(key, user, s)
  }

  /** InternalKeyComparator::FindShortestSeparator. */
  method SeparateKeys(start: ByteKey, limit: ByteKey) returns (s: ByteKey)
    ensures Separates(start, s, limit) && |s.user| <= |start.user|
    ensures IsKeySeparator(start, limit, s)
  {
    var tmp := FindShortestSeparator(start.user, limit.user);
    if |tmp| < |start.user| && Before(start.user, tmp) {
      s := ByteKey(tmp, MAX_TAG);
    } else {
      s := start;
    }
  }

  /** InternalKeyComparator::FindShortSuccessor. */
  method SucceedKey(key: ByteKey) returns (s: ByteKey)
    ensures s == key || (Before(key.user, s.user) && s.tag == MAX_TAG)
    ensures IsKeySuccessor(key, s)
  {
    var tmp := FindShortSuccessor(key.user);
    if |tmp| < |key.user| && Before(key.user, tmp) {
      s := ByteKey(tmp, MAX_TAG);
    } else {
      s := key;
    }
  }
}
