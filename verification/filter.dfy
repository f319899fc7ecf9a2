// Filter blocks, which may err only on the safe side: table/filter_block.cc.
module Filters {
  import opened Basics
  import opened Varints
  import opened Coding
  import opened Blocks

  /** A policy that never misses a key it was built from. */
  datatype Policy = Policy(create: seq<Bytes> -> Bytes, mayMatch: (Bytes, Bytes) -> bool)

  ghost predicate NoFalseNegatives(p: Policy) {
    forall keys, k :: k in keys ==> p.mayMatch(k, p.create(keys))
  }

  const FILTER_BASE_LG: Byte := 11
  const FILTER_BASE := 2048

  /** Where filter `i` ends: the next filter's offset, or the end of them all. */
  function Limit(offsets: seq<nat>, end: nat, i: nat): nat
    requires i < |offsets|
  {
    if i + 1 < |offsets| then offsets[i + 1] else end
  }

  /** No keys, no filter. */
  function FilterFor(p: Policy, keys: seq<Bytes>): Bytes {
    if keys == [] then [] else p.create(keys)
  }

  /** Filter `i` was made from the keys it covers. */
  ghost predicate FilterOk(p: Policy, result: Bytes, offsets: seq<nat>, covered: seq<seq<Bytes>>, i: int)
    requires |covered| == |offsets|
  {
    0 <= i < |offsets| ==>
      && offsets[i] <= Limit(offsets, |result|, i) <= |result|
      && result[offsets[i]..Limit(offsets, |result|, i)] == FilterFor(p, covered[i])
  }

  ghost predicate FiltersOk(p: Policy, result: Bytes, offsets: seq<nat>, covered: seq<seq<Bytes>>) {
    |covered| == |offsets| && forall i :: FilterOk(p, result, offsets, covered, i)
  }

  /** The key was added for some block with offsets in range `i`. */
  ghost predicate AddedIn(added: set<(nat, Bytes)>, i: nat, key: Bytes) {
    exists o :: (o, key) in added && o / FILTER_BASE == i
  }

  /** Filter `i` covers exactly the keys added for the blocks in its range, and those of the last range wait for it. */
  ghost predicate KeysOk(added: set<(nat, Bytes)>, covered: seq<seq<Bytes>>, keys: seq<Bytes>) {
    && (forall o, k :: (o, k) in added ==> o / FILTER_BASE <= |covered|)
    && (forall i, k :: 0 <= i < |covered| ==> (k in covered[i] <==> AddedIn(added, i, k)))
    && forall k :: k in keys <==> AddedIn(added, |covered|, k)
  }

  /** One filter more, for the keys that waited. */
  lemma KeysCovered(added: set<(nat, Bytes)>, covered: seq<seq<Bytes>>, keys: seq<Bytes>)
    requires KeysOk(added, covered, keys)
    ensures KeysOk(added, covered + [keys], [])
  {
    var next := |covered| + 1;
    forall k ensures !AddedIn(added, next, k) { }
  }

  /** One key more, for the current block. */
  lemma KeyAdded(added: set<(nat, Bytes)>, covered: seq<seq<Bytes>>, keys: seq<Bytes>, o: nat, key: Bytes)
    requires KeysOk(added, covered, keys) && o / FILTER_BASE == |covered|
    ensures KeysOk(added + {(o, key)}, covered, keys + [key])
  {
    forall i: nat, k
      ensures AddedIn(added + {(o, key)}, i, k) <==> AddedIn(added, i, k) || (i == |covered| && k == key)
    {
      if i == |covered| && k == key { assert (o, key) in added + {(o, key)}; }
      if AddedIn(added, i, k) {
        var b :| (b, k) in added && b / FILTER_BASE == i;
        assert (b, k) in added + {(o, key)};
      }
    }
  }

  lemma FilterAppended(p: Policy, result: Bytes, offsets: seq<nat>, covered: seq<seq<Bytes>>, keys: seq<Bytes>)
    requires FiltersOk(p, result, offsets, covered)
    ensures FiltersOk(p, result + FilterFor(p, keys), offsets + [|result|], covered + [keys])
  {
    var result' := result + FilterFor(p, keys);
    forall i
      ensures FilterOk(p, result', offsets + [|result|], covered + [keys], i)
    {
      assert FilterOk(p, result, offsets, covered, i);
      if 0 <= i < |offsets| {
        var limit := Limit(offsets, |result|, i);
        assert limit == Limit(offsets + [|result|], |result'|, i);
        assert result'[offsets[i]..limit] == result[offsets[i]..limit];
      }
    }
  }

  class FilterBlockBuilder {
    const policy: Policy
    var keys: seq<Bytes>
    var result: Bytes
    var offsets: seq<nat>
    // The keys each finished filter covers, every key added with the offset of its data block, and the current block.
    ghost var covered: seq<seq<Bytes>>
    ghost var added: set<(nat, Bytes)>
    ghost var block: nat

    ghost predicate Valid()
      reads this
    {
      FiltersOk(policy, result, offsets, covered) && block / FILTER_BASE == |offsets| && KeysOk(added, covered, keys)
    }

    constructor (p: Policy)
      ensures Valid() && policy == p && added == {} && block == 0
    {
      policy, keys, result, offsets := p, [], [], [];
      covered, added, block := [], {}, 0;
    }

    method GenerateFilter()
      requires FiltersOk(policy, result, offsets, covered)
      modifies this`keys, this`result, this`offsets, this`covered
      ensures FiltersOk(policy, result, offsets, covered)
      ensures covered == old(covered) + [old(keys)] && keys == []
      ensures result == old(result) + FilterFor(policy, old(keys))
    {
      FilterAppended(policy, result, offsets, covered, keys);
      assert result + [] == result;
      offsets := offsets + [|result|];
      if |keys| != 0 {
        result := result + policy.create(keys);
      }
      covered := covered + [keys];
      keys := [];
    }

    /** StartBlock: one filter for every 2 KB of data block offsets. */
    method StartBlock(blockOffset: nat)
      requires Valid() && blockOffset >= block
      modifies this
      ensures Valid() && block == blockOffset && added == old(added)
    {
      var filterIndex := blockOffset / FILTER_BASE;
      while filterIndex > |offsets|
        invariant FiltersOk(policy, result, offsets, covered) && |offsets| <= filterIndex
                  && KeysOk(added, covered, keys)
        invariant added == old(added)
        decreases filterIndex - |offsets|
      {
        KeysCovered(added, covered, keys);
        GenerateFilter();
      }
      block := blockOffset;
    }

    method AddKey(key: Bytes)
      requires Valid()
      modifies this`keys, this`added
      ensures Valid() && added == old(added) + {(block, key)} && block == old(block)
    {
      KeyAdded(added, covered, keys, block, key);
      keys := keys + [key];
      added := added + {(block, key)};
    }

    /** Finish: the filters, their offsets cut to 32 bits, where the offsets begin, and the base. */
    method Finish() returns (contents: Bytes)
      requires Valid()
      modifies this`keys, this`result, this`offsets, this`covered
      ensures FiltersOk(policy, result, offsets, covered) && KeysOk(added, covered, [])
      ensures contents == FilterBlock(result, offsets)
    {
      if keys != [] {
        KeysCovered(added, covered, keys);
        GenerateFilter();
      }
      var all := offsets + [|result|];
      var words: Bytes := [];
      for i := 0 to |all|
        invariant words == FixedAll(Words(all)[..i])
      {
        assert Words(all)[..i + 1][..i] == Words(all)[..i];
        words := words + Fixed32(all[i] % TWO32);
      }
      assert Words(all)[..|all|] == Words(all);
      contents := result + (words + [FILTER_BASE_LG]);
    }
  }

  /** Casts to uint32_t. */
  function Words(ns: seq<nat>): (r: seq<nat>)
    ensures |r| == |ns| && forall i :: 0 <= i < |r| ==> r[i] < TWO32
  {
    seq(|ns|, i requires 0 <= i < |ns| => ns[i] % TWO32)
  }

  lemma OffsetsFit(p: Policy, result: Bytes, offsets: seq<nat>, covered: seq<seq<Bytes>>)
    requires FiltersOk(p, result, offsets, covered) && |result| < TWO32
    ensures forall i :: 0 <= i < |offsets| ==> offsets[i] < TWO32
  {
    forall i | 0 <= i < |offsets| ensures offsets[i] < TWO32 { assert FilterOk(p, result, offsets, covered, i); }
  }

  /** A finished filter block. */
  function FilterBlock(result: Bytes, offsets: seq<nat>): Bytes {
    result + (FixedAll(Words(offsets + [|result|])) + [FILTER_BASE_LG])
  }

  /** Where the array of offsets begins, and how many filters there are; none if the block is malformed. */
  function ReadHeader(contents: Bytes): (r: (nat, nat))
    ensures r.1 > 0 ==> |contents| >= 5 && r.0 + 4 * r.1 + 5 <= |contents|
  {
    var n := |contents|;
    if n < 5 then (0, 0)
    else
      var lastWord := DecodeFixed32(contents[n - 5..n - 1]);
      if lastWord > n - 5 then (0, 0) else (lastWord, (n - 5 - lastWord) / 4)
  }

  /** FilterBlockReader::KeyMayMatch; malformed filters count as matches. */
  function BlockMayMatch(p: Policy, contents: Bytes, blockOffset: nat, key: Bytes): bool {
    var (offsetAt, num) := ReadHeader(contents);
    if num == 0 then true
    else
      var index := blockOffset / Pow2(contents[|contents| - 1]);
      if index >= num then true
      else
        var start, limit := RestartPoint(contents, offsetAt, index), RestartPoint(contents, offsetAt, index + 1);
        if start <= limit <= offsetAt then p.mayMatch(key, contents[start..limit]) else start != limit
  }

  lemma BaseIsTwoKilobytes()
    ensures Pow2(11) == FILTER_BASE
  {
    assert Pow2(1) == 2 && Pow2(2) == 4 && Pow2(3) == 8 && Pow2(4) == 16 && Pow2(5) == 32 && Pow2(6) == 64;
    assert Pow2(7) == 128 && Pow2(8) == 256 && Pow2(9) == 512 && Pow2(10) == 1024;
  }

  lemma OneOffset(result: Bytes, all: seq<nat>, i: nat)
    requires (forall k :: 0 <= k < |all| ==> all[k] < TWO32) && i < |all|
    ensures var contents := result + (FixedAll(all) + [FILTER_BASE_LG]);
            && |contents| == |result| + 4 * |all| + 1
            && DecodeFixed32(contents[|result| + 4 * i..|result| + 4 * i + 4]) == all[i]
  {
    var words := FixedAll(all);
    var contents := result + (words + [FILTER_BASE_LG]);
    FixedAllReads(all, i);
    assert contents[|result| + 4 * i..|result| + 4 * i + 4] == words[4 * i..4 * i + 4];
    Fixed32RoundTrip(all[i]);
  }

  lemma HeaderReads(contents: Bytes, at: nat, num: nat)
    requires |contents| == at + 4 * num + 5 && DecodeFixed32(contents[at + 4 * num..at + 4 * num + 4]) == at
    ensures ReadHeader(contents) == (at, num)
  {
  }

  lemma NothingCut(ns: seq<nat>)
    requires forall i :: 0 <= i < |ns| ==> ns[i] < TWO32
    ensures Words(ns) == ns
  {
    forall i | 0 <= i < |ns| ensures Words(ns)[i] == ns[i] { }
  }

  /** A finished filter block is taken apart again. */
  lemma FilterBlockOpens(result: Bytes, offsets: seq<nat>)
    requires |result| < TWO32 && forall i :: 0 <= i < |offsets| ==> offsets[i] < TWO32
    ensures var contents := FilterBlock(result, offsets);
            && |contents| == |result| + 4 * |offsets| + 5 && ReadHeader(contents) == (|result|, |offsets|)
            && contents[|contents| - 1] == FILTER_BASE_LG && contents[..|result|] == result
            && (forall i :: 0 <= i <= |offsets| ==> RestartPoint(contents, |result|, i) == (offsets + [|result|])[i])
  {
    var all, contents := offsets + [|result|], FilterBlock(result, offsets);
    NothingCut(all);
    OneOffset(result, all, |offsets|);
    HeaderReads(contents, |result|, |offsets|);
    forall i | 0 <= i <= |offsets|
      ensures RestartPoint(contents, |result|, i) == all[i]
    {
      OneOffset(result, all, i);
    }
  }

  /** What decides for a block is the filter made from exactly the keys covered by it. */
  lemma BlockFilterDecides(p: Policy, result: Bytes, offsets: seq<nat>, covered: seq<seq<Bytes>>, o: nat, key: Bytes)
    requires FiltersOk(p, result, offsets, covered) && |result| < TWO32
    ensures BlockMayMatch(p, FilterBlock(result, offsets), o, key)
            == (o / FILTER_BASE >= |covered| || p.mayMatch(key, FilterFor(p, covered[o / FILTER_BASE])))
  {
    hide FilterBlock, ReadHeader, RestartPoint, FilterFor;
    var contents, i := FilterBlock(result, offsets), o / FILTER_BASE;
    OffsetsFit(p, result, offsets, covered);
    FilterBlockOpens(result, offsets);
    BaseIsTwoKilobytes();
    if i < |offsets| {
      assert FilterOk(p, result, offsets, covered, i);
      var start, limit := offsets[i], Limit(offsets, |result|, i);
      assert start <= limit <= |result| && result[start..limit] == FilterFor(p, covered[i]);
      assert contents[start..limit] == contents[..|result|][start..limit];
    }
  }

  /** A key added for a data block is never rejected for that block. */
  lemma AddedKeyMatches(p: Policy, result: Bytes, offsets: seq<nat>, covered: seq<seq<Bytes>>, added: set<(nat, Bytes)>,
                        o: nat, key: Bytes)
    requires NoFalseNegatives(p) && FiltersOk(p, result, offsets, covered) && KeysOk(added, covered, [])
             && |result| < TWO32
    requires (o, key) in added
    ensures BlockMayMatch(p, FilterBlock(result, offsets), o, key)
  {
    BlockFilterDecides(p, result, offsets, covered, o, key);
    if o / FILTER_BASE < |covered| {
      assert AddedIn(added, o / FILTER_BASE, key);
      assert key in covered[o / FILTER_BASE];
    }
  }
}
