// Bloom filters: util/bloom.cc.
module Blooms {
  import opened Basics
  import opened Coding
  import opened Varints
  import opened Filters

  // ---------------------------------------------------------------- bits

  /** (b & (1 << k)) != 0. */
  predicate IsSet(b: nat, k: nat) {
    if k == 0 then b % 2 == 1 else IsSet(b / 2, k - 1)
  }

  /** b | (1 << k). */
  function OrBit(b: nat, k: nat): nat {
    if k == 0 then b / 2 * 2 + 1 else OrBit(b / 2, k - 1) * 2 + b % 2
  }

  lemma {:induction false} OrBitFits(b: nat, k: nat, n: nat)
    requires k < n && b < Pow2(n)
    ensures OrBit(b, k) < Pow2(n)
  {
    if k > 0 { OrBitFits(b / 2, k - 1, n - 1); }
  }

  lemma {:induction false} OrBitSets(b: nat, k: nat, j: nat)
    ensures IsSet(OrBit(b, k), j) <==> IsSet(b, j) || j == k
  {
    if k > 0 && j > 0 { OrBitSets(b / 2, k - 1, j - 1); }
  }

  lemma ByteWidth()
    ensures Pow2(8) == 256
  {
    assert Pow2(1) == 2 && Pow2(2) == 4 && Pow2(3) == 8 && Pow2(4) == 16;
  }

  predicate BitAt(a: Bytes, q: nat)
    requires q < 8 * |a|
  {
    IsSet(a[q / 8], q % 8)
  }

  /** array[q / 8] |= 1 << (q % 8). */
  function SetBit(a: Bytes, q: nat): (r: Bytes)
    requires q < 8 * |a|
    ensures |r| == |a|
  {
    ByteWidth();
    OrBitFits(a[q / 8], q % 8, 8);
    a[q / 8 := OrBit(a[q / 8], q % 8)]
  }

  lemma SetBitSets(a: Bytes, q: nat, p: nat)
    requires q < 8 * |a| && p < 8 * |a|
    ensures BitAt(SetBit(a, q), p) <==> BitAt(a, p) || p == q
  {
    OrBitSets(a[q / 8], q % 8, p % 8);
  }

  // ---------------------------------------------------------------- probes

  /** Rotate right by 17 bits. */
  function Delta(h: Word): Word {
    (h / 0x2_0000 + h % 0x2_0000 * 0x8000) % TWO32
  }

  /** The hash after `j` steps of double hashing. */
  function Probe(h: Word, j: nat): Word {
    if j == 0 then h else (Probe(h, j - 1) + Delta(h)) % TWO32
  }

  /** The upper 15 and the lower 17 bits change places. */
  lemma DeltaRotates(h: Word)
    ensures Delta(h) % 0x8000 == h / 0x2_0000 && Delta(h) / 0x8000 == h % 0x2_0000
  {
    assert h / 0x2_0000 < 0x8000;
  }

  /** Double hashing: probe `j` is `j` steps of the rotated hash away from the hash. */
  lemma {:induction false} ProbeIs(h: Word, j: nat)
    ensures Probe(h, j) == (h + j * Delta(h)) % TWO32
  {
    hide Delta;
    if j > 0 {
      ProbeIs(h, j - 1);
      OneStepMore(h, j, Delta(h));
      AddedLater(h + (j - 1) * Delta(h), Delta(h));
    }
  }

  lemma OneStepMore(h: nat, j: nat, d: nat)
    requires j > 0
    ensures h + (j - 1) * d + d == h + j * d
  {
  }

  lemma AddedLater(n: nat, d: nat)
    ensures (n % TWO32 + d) % TWO32 == (n + d) % TWO32
  {
    var q := n / TWO32;
    assert n + d == q * TWO32 + (n % TWO32 + d);
  }

  /** Bit `q` of `bits` is one of the first `k` probes of a key with hash `h`. */
  ghost predicate Probed(h: Word, k: nat, bits: nat, q: nat)
    requires bits > 0
  {
    exists j: nat :: j < k && Probe(h, j) % bits == q
  }

  /** What CreateFilter's inner loop makes of the array. */
  function SetProbes(a: Bytes, h: Word, k: nat): (r: Bytes)
    requires |a| > 0
    ensures |r| == |a|
  {
    if k == 0 then a else SetBit(SetProbes(a, h, k - 1), Probe(h, k - 1) % (8 * |a|))
  }

  lemma {:induction false} SetProbesSets(a: Bytes, h: Word, k: nat, q: nat)
    requires q < 8 * |a|
    ensures BitAt(SetProbes(a, h, k), q) <==> BitAt(a, q) || Probed(h, k, 8 * |a|, q)
  {
    if k > 0 {
      SetProbesSets(a, h, k - 1, q);
      SetBitSets(SetProbes(a, h, k - 1), Probe(h, k - 1) % (8 * |a|), q);
    }
  }

  /** All keys' probes. */
  function SetKeys(a: Bytes, keys: seq<Bytes>, hash: Bytes -> Word, k: nat): (r: Bytes)
    requires |a| > 0
    ensures |r| == |a|
  {
    if keys == [] then a else SetProbes(SetKeys(a, keys[..|keys| - 1], hash, k), hash(keys[|keys| - 1]), k)
  }

  /** The bits set are those of the keys and no others. */
  lemma {:induction false} SetKeysSets(a: Bytes, keys: seq<Bytes>, hash: Bytes -> Word, k: nat, q: nat)
    requires q < 8 * |a|
    ensures BitAt(SetKeys(a, keys, hash, k), q)
            <==> BitAt(a, q) || exists key :: key in keys && Probed(hash(key), k, 8 * |a|, q)
  {
    if keys != [] {
      var n := |keys| - 1;
      SetKeysSets(a, keys[..n], hash, k, q);
      SetProbesSets(SetKeys(a, keys[..n], hash, k), hash(keys[n]), k, q);
      assert keys == keys[..n] + [keys[n]];
      assert forall key :: key in keys <==> key in keys[..n] || key == keys[n];
    }
  }

  // ---------------------------------------------------------------- the policy

  /** Bytes for `n` keys: at least 64 bits. */
  function FilterSize(n: nat, bitsPerKey: nat): (r: nat)
    ensures r >= 8 && 8 * r >= n * bitsPerKey
  {
    var bits := n * bitsPerKey;
    ((if bits < 64 then 64 else bits) + 7) / 8
  }

  function Zeros(n: nat): Bytes {
    seq(n, _ => 0)
  }

  /** A filter: the bits, then the number of probes. */
  function FilterOf(keys: seq<Bytes>, hash: Bytes -> Word, bitsPerKey: nat, k: Byte): Bytes {
    SetKeys(Zeros(FilterSize(|keys|, bitsPerKey)), keys, hash, k) + [k]
  }

  /** BloomFilterPolicy::CreateFilter; `k` is the number of probes the constructor settled on. */
  method CreateFilter(keys: seq<Bytes>, hash: Bytes -> Word, bitsPerKey: nat, k: Byte, dst0: Bytes) returns (dst: Bytes)
    ensures dst == dst0 + FilterOf(keys, hash, bitsPerKey, k)
  {
    var bits := |keys| * bitsPerKey;
    if bits < 64 {
      bits := 64;
    }
    var bytes := (bits + 7) / 8;
    bits := bytes * 8;
    var bitmap := Zeros(bytes);
    for i := 0 to |keys|
      invariant bitmap == SetKeys(Zeros(bytes), keys[..i], hash, k)
    {
      var h := hash(keys[i]);
      var delta := Delta(h);
      ghost var before := bitmap;
      for j := 0 to k
        invariant h == Probe(hash(keys[i]), j) && bitmap == SetProbes(before, hash(keys[i]), j)
      {
        bitmap := SetBit(bitmap, h % bits);
        h := (h + delta) % TWO32;
      }
      assert keys[..i + 1][..i] == keys[..i];
    }
    assert keys[..|keys|] == keys;
    dst := dst0 + (bitmap + [k]);
  }

  predicate HitAt(a: Bytes, h: Word, j: nat)
    requires |a| > 0
  {
    BitAt(a, Probe(h, j) % (8 * |a|))
  }

  /** Whether the first `k` probes of a hash all hit. */
  predicate AllHit(a: Bytes, h: Word, k: nat)
    requires |a| > 0
  {
    k == 0 || (AllHit(a, h, k - 1) && HitAt(a, h, k - 1))
  }

  lemma {:induction false} AllHitMeans(a: Bytes, h: Word, k: nat)
    requires |a| > 0
    ensures AllHit(a, h, k) <==> forall j: nat :: j < k ==> HitAt(a, h, j)
  {
    if k > 0 { AllHitMeans(a, h, k - 1); }
  }

  lemma {:induction false} AllHitShrinks(a: Bytes, h: Word, j: nat, k: nat)
    requires |a| > 0 && j <= k && AllHit(a, h, k)
    ensures AllHit(a, h, j)
  {
    if j < k { AllHitShrinks(a, h, j, k - 1); }
  }

  predicate MayMatch(key: Bytes, filter: Bytes, hash: Bytes -> Word) {
    var n := |filter| - 1;
    n >= 1 && (filter[n] > 30 || AllHit(filter[..n], hash(key), filter[n]))
  }

  /** BloomFilterPolicy::KeyMayMatch. */
  method KeyMayMatch(key: Bytes, filter: Bytes, hash: Bytes -> Word) returns (r: bool)
    ensures r == MayMatch(key, filter, hash)
  {
    var len := |filter|;
    if len < 2 {
      return false;
    }
    var bits := (len - 1) * 8;
    var k := filter[len - 1];
    if k > 30 {
      return true;
    }
    ghost var a := filter[..len - 1];
    var h := hash(key);
    var delta := Delta(h);
    for j := 0 to k
      invariant h == Probe(hash(key), j) && AllHit(a, hash(key), j)
    {
      if !IsSet(filter[h % bits / 8], h % bits % 8) {
        if AllHit(a, hash(key), k) {
          AllHitShrinks(a, hash(key), j + 1, k);
        }
        return false;
      }
      h := (h + delta) % TWO32;
    }
    r := true;
  }

  lemma {:induction false} NoBitOfZero(k: nat)
    ensures !IsSet(0, k)
  {
    if k > 0 { NoBitOfZero(k - 1); }
  }

  /** Probe `j` of hash `h` is also one of some key's. */
  ghost predicate Shared(keys: seq<Bytes>, hash: Bytes -> Word, k: nat, bits: nat, h: Word, j: nat)
    requires bits > 0
  {
    exists key :: key in keys && Probed(hash(key), k, bits, Probe(h, j) % bits)
  }

  lemma BitOfFilter(keys: seq<Bytes>, hash: Bytes -> Word, n: nat, k: nat, h: Word, j: nat)
    requires n > 0
    ensures HitAt(SetKeys(Zeros(n), keys, hash, k), h, j) <==> Shared(keys, hash, k, 8 * n, h, j)
  {
    var q := Probe(h, j) % (8 * n);
    SetKeysSets(Zeros(n), keys, hash, k, q);
    NoBitOfZero(q % 8);
  }

  /** A filter lets a key through exactly when every probe of the key is a probe of some key it was built from. */
  lemma FilterIsExact(key: Bytes, keys: seq<Bytes>, hash: Bytes -> Word, bitsPerKey: nat, k: Byte)
    requires 1 <= k <= 30
    ensures var bits := 8 * FilterSize(|keys|, bitsPerKey);
            MayMatch(key, FilterOf(keys, hash, bitsPerKey, k), hash) <==>
            forall j: nat :: j < k ==> Shared(keys, hash, k, bits, hash(key), j)
  {
    var n := FilterSize(|keys|, bitsPerKey);
    var filter, a := FilterOf(keys, hash, bitsPerKey, k), SetKeys(Zeros(n), keys, hash, k);
    assert filter[..|filter| - 1] == a;
    AllHitMeans(a, hash(key), k);
    forall j: nat | j < k
      ensures HitAt(a, hash(key), j) <==> Shared(keys, hash, k, 8 * n, hash(key), j)
    {
      BitOfFilter(keys, hash, n, k, hash(key), j);
    }
    assert MayMatch(key, filter, hash) <==> AllHit(a, hash(key), k);
  }

  /** The policy a filter block is built with. */
  function BloomPolicy(hash: Bytes -> Word, bitsPerKey: nat, k: Byte): Policy {
    Policy(keys => FilterOf(keys, hash, bitsPerKey, k), (key, filter) => MayMatch(key, filter, hash))
  }

  /** A key is never missed by a filter built from it. */
  lemma BloomNeverMisses(hash: Bytes -> Word, bitsPerKey: nat, k: Byte)
    requires 1 <= k <= 30
    ensures NoFalseNegatives(BloomPolicy(hash, bitsPerKey, k))
  {
    var p := BloomPolicy(hash, bitsPerKey, k);
    forall keys: seq<Bytes>, key | key in keys
      ensures p.mayMatch(key, p.create(keys))
    {
      var bits := 8 * FilterSize(|keys|, bitsPerKey);
      forall j: nat | j < k
        ensures Shared(keys, hash, k, bits, hash(key), j)
      {
        assert Probed(hash(key), k, bits, Probe(hash(key), j) % bits);
      }
      FilterIsExact(key, keys, hash, bitsPerKey, k);
    }
  }
}
