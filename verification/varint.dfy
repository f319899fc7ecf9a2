// Base-128 varints, as both nanopb and LevelDB write them: seven bits a byte, lowest first, the high bit set on all but
// the last.
module Varints {
  import opened Basics

  const TWO32 := 0x1_0000_0000
  const TWO64 := 0x1_0000_0000_0000_0000

  function Varint(n: nat): (bytes: Bytes)
    ensures |bytes| >= 1
  {
    if n < 0x80 then [n] else [n % 0x80 + 0x80] + Varint(n / 0x80)
  }

  lemma VarintSplit(n: nat)
    requires n >= 0x80
    ensures Varint(n) == [n % 0x80 + 0x80] + Varint(n / 0x80)
  {
  }

  lemma VarintDigit(n: nat, digit: Byte, rest: nat, prefix: Bytes)
    requires n > 0 && digit == n % 0x80 && rest == n / 0x80
    ensures rest < n
    ensures rest > 0 ==> prefix + Varint(n) == (prefix + [digit + 0x80]) + Varint(rest)
    ensures rest == 0 ==> Varint(n) == [digit]
  {
    if n >= 0x80 {
      VarintSplit(n);
    }
  }

  /** The first varint of `s`, of at most `left` bytes, and what follows it. */
  function RawVarint(s: Bytes, left: nat): (r: Option<(nat, Bytes)>)
    ensures r.Some? ==> |r.value.1| < |s|
    decreases |s|
  {
    if left == 0 || s == [] then None
    else if s[0] < 0x80 then Some((s[0], s[1..]))
    else
      match RawVarint(s[1..], left - 1)
      case None => None
      case Some((v, rest)) => Some((s[0] - 0x80 + 0x80 * v, rest))
  }

  function Pow128(k: nat): (r: nat)
    ensures r > 0
  {
    if k == 0 then 1 else 0x80 * Pow128(k - 1)
  }

  /** A varint that fits is read back, whatever follows. */
  lemma {:induction false} RawVarintReads(n: nat, left: nat, rest: Bytes)
    requires left > 0 && n < Pow128(left)
    ensures RawVarint(Varint(n) + rest, left) == Some((n, rest))
    decreases left
  {
    var s := Varint(n) + rest;
    if n < 0x80 {
      assert s[1..] == rest;
    } else {
      assert s == [n % 0x80 + 0x80] + (Varint(n / 0x80) + rest);
      assert s[1..] == Varint(n / 0x80) + rest;
      assert Pow128(left) == 0x80 * Pow128(left - 1);
      RawVarintReads(n / 0x80, left - 1, rest);
    }
  }

  lemma BytesHoldAll()
    ensures Pow128(5) >= TWO32 && Pow128(10) >= TWO64
  {
    assert Pow128(1) == 0x80 && Pow128(2) == 0x4000 && Pow128(3) == 0x20_0000 && Pow128(4) == 0x1000_0000;
    assert Pow128(5) == 0x8_0000_0000 && Pow128(6) == 0x400_0000_0000 && Pow128(7) == 0x2_0000_0000_0000;
    assert Pow128(8) == 0x100_0000_0000_0000 && Pow128(9) == 0x8000_0000_0000_0000;
  }

  /** Ten bytes are enough for 64 bits, five for 32. */
  lemma WideReads(n: nat, rest: Bytes)
    ensures n < TWO64 ==> RawVarint(Varint(n) + rest, 10) == Some((n, rest))
    ensures n < TWO32 ==> RawVarint(Varint(n) + rest, 5) == Some((n, rest))
  {
    BytesHoldAll();
    if n < TWO64 {
      RawVarintReads(n, 10, rest);
    }
    if n < TWO32 {
      RawVarintReads(n, 5, rest);
    }
  }

  /** The digits read so far, and the rest of a varint shifted past them. */
  function Combine(result: nat, shift: nat, r: Option<(nat, Bytes)>): Option<(nat, Bytes)> {
    match r
    case None => None
    case Some((x, rest)) => Some((result + shift * x, rest))
  }

  lemma StartOfVarint(s: Bytes, left: nat)
    ensures RawVarint(s, left) == Combine(0, Pow128(0), RawVarint(s, left))
  {
  }

  lemma Distribute(p: nat, low: nat, x: nat)
    ensures p * (low + 0x80 * x) == low * p + 0x80 * p * x
  {
  }

  /** One more digit. */
  lemma DigitOfVarint(result: nat, k: nat, s: Bytes, left: nat)
    requires left > 0 && s != []
    ensures s[0] >= 0x80 ==> Combine(result, Pow128(k), RawVarint(s, left))
                             == Combine(result + s[0] % 0x80 * Pow128(k), Pow128(k + 1), RawVarint(s[1..], left - 1))
    ensures s[0] < 0x80 ==>
            Combine(result, Pow128(k), RawVarint(s, left)) == Some((result + s[0] % 0x80 * Pow128(k), s[1..]))
  {
    if s[0] >= 0x80 {
      assert s[0] % 0x80 == s[0] - 0x80;
      var tail := RawVarint(s[1..], left - 1);
      if tail.Some? {
        Distribute(Pow128(k), s[0] - 0x80, tail.value.0);
      }
    }
  }
}
