// The protobuf wire format of nanopb: the varint, zigzag, fixed-width and tag codecs of pb_encode.c and pb_decode.c
// ("Base 128 Varints" in the Protocol Buffers encoding document).
module NanopbWire {
  import opened Basics
  import opened Varints

  type U64 = n: int | 0 <= n < 0x1_0000_0000_0000_0000

  // ---------------------------------------------------------------- encoding varints

  /** pb_encode_varint, up to the call of pb_write. */
  method EncodeVarint(value: nat) returns (bytes: seq<Byte>)
    ensures bytes == Varint(value)
  {
    if value <= 0x7f {
      return [value];
    }
    var rest: nat := value;
    ghost var prefix: seq<Byte>, last: Byte := [], 0;
    bytes := [];
    while rest != 0
      invariant rest > 0 ==> bytes + Varint(rest) == Varint(value)
      invariant rest == 0 ==> last < 0x80 && bytes == prefix + [last + 0x80] && prefix + [last] == Varint(value)
      decreases rest
    {
      var digit: Byte, next := rest % 0x80, rest / 0x80;
      VarintDigit(rest, digit, next, bytes);
      prefix, last := bytes, digit;
      bytes, rest := bytes + [digit + 0x80], next;
    }
    var n := |bytes| - 1;
    assert bytes[..n] == prefix;
    bytes := bytes[..n] + [bytes[n] - 0x80];
  }

  // ---------------------------------------------------------------- decoding 64-bit varints

  /** pb_decode_varint: at most ten bytes, and what does not fit into 64 bits is shifted out. */
  function DecodeVarint(s: seq<Byte>): (r: Option<(U64, seq<Byte>)>)
    ensures r.Some? ==> |r.value.1| < |s|
  {
    match RawVarint(s, 10)
    case None => None
    case Some((v, rest)) => Some((v % TWO64, rest))
  }

  lemma NothingShiftedOut(s: seq<Byte>, n: U64, rest: seq<Byte>)
    requires RawVarint(s, 10) == Some((n, rest))
    ensures DecodeVarint(s) == Some((n, rest))
  {
  }

  lemma VarintRoundTrip(n: U64, rest: seq<Byte>)
    ensures DecodeVarint(Varint(n) + rest) == Some((n, rest))
  {
    WideReads(n, rest);
    NothingShiftedOut(Varint(n) + rest, n, rest);
  }

  // ---------------------------------------------------------------- decoding 32-bit varints

  /** The loop of pb_decode_varint32_eof; `bitpos` is a byte.  Bits past 32 must repeat the sign or be zero. */
  function Varint32Loop(s: seq<Byte>, result: nat, bitpos: nat): (r: Option<(nat, seq<Byte>)>)
    ensures r.Some? ==> |r.value.1| < |s|
    decreases |s|
  {
    if s == [] then None
    else
      var b := s[0];
      var bitpos' := (bitpos + 7) % 0x100;
      var signExtension := if bitpos < 63 then 0xff else 0x01;
      if bitpos >= 32 && b % 0x80 != 0 && (result / 0x8000_0000 == 0 || b != signExtension) then None
      else
        var result' := if bitpos >= 32 then result else (result + b % 0x80 * Pow2(bitpos)) % TWO32;
        if b >= 0x80 then Varint32Loop(s[1..], result', bitpos')
        else if bitpos' == 35 && b / 0x10 % 8 != 0 then None
        else Some((result', s[1..]))
  }

  function DecodeVarint32(s: seq<Byte>): (r: Option<(nat, seq<Byte>)>)
    ensures r.Some? ==> |r.value.1| < |s|
  {
    if s == [] then None
    else if s[0] < 0x80 then Some((s[0], s[1..]))
    else Varint32Loop(s[1..], s[0] - 0x80, 7)
  }

  lemma Pow2Values()
    ensures Pow2(0) == 1 && Pow2(7) == 0x80 && Pow2(14) == 0x4000 && Pow2(21) == 0x20_0000 && Pow2(28) == 0x1000_0000
  {
    assert Pow2(1) == 2 && Pow2(2) == 4 && Pow2(3) == 8 && Pow2(4) == 16 && Pow2(5) == 32 && Pow2(6) == 64;
    assert Pow2(8) == 0x100 && Pow2(9) == 0x200 && Pow2(10) == 0x400 && Pow2(11) == 0x800 && Pow2(12) == 0x1000
           && Pow2(13) == 0x2000;
    assert Pow2(15) == 0x8000 && Pow2(16) == 0x1_0000 && Pow2(17) == 0x2_0000 && Pow2(18) == 0x4_0000
           && Pow2(19) == 0x8_0000 && Pow2(20) == 0x10_0000;
    assert Pow2(22) == 0x40_0000 && Pow2(23) == 0x80_0000 && Pow2(24) == 0x100_0000 && Pow2(25) == 0x200_0000
           && Pow2(26) == 0x400_0000 && Pow2(27) == 0x800_0000;
  }

  lemma LowBits(x: nat)
    requires x < 0x80
    ensures (x + 0x80) % 0x80 == x
  {
  }

  lemma NoWrap(x: nat)
    requires x < TWO32
    ensures x % TWO32 == x
  {
  }

  lemma Varint32Step(n: nat, result: nat, bitpos: nat, p: nat, rest: seq<Byte>)
    requires n >= 0x80 && bitpos <= 28 && p == Pow2(bitpos) && result + n % 0x80 * p < TWO32
    ensures Varint32Loop(Varint(n) + rest, result, bitpos)
            == Varint32Loop(Varint(n / 0x80) + rest, result + n % 0x80 * p, bitpos + 7)
  {
    var s, low := Varint(n) + rest, n % 0x80;
    VarintSplit(n);
    assert s[0] == low + 0x80 && s[1..] == Varint(n / 0x80) + rest;
    NextByte(s, low, result, bitpos, p, low * p);
  }

  lemma NextByte(s: seq<Byte>, low: nat, result: nat, bitpos: nat, p: nat, shifted: nat)
    requires s != [] && low < 0x80 && s[0] == low + 0x80 && bitpos <= 28 && p == Pow2(bitpos) && shifted == low * p
    requires result + shifted < TWO32
    ensures Varint32Loop(s, result, bitpos) == Varint32Loop(s[1..], result + shifted, bitpos + 7)
  {
    hide Pow2;
    LowBits(low);
    NoWrap(result + shifted);
  }

  lemma LastByte(s: seq<Byte>, n: nat, result: nat, bitpos: nat, p: nat, shifted: nat)
    requires s != [] && s[0] == n < 0x80 && bitpos <= 28 && p == Pow2(bitpos) && shifted == n * p
    requires result + shifted < TWO32 && (bitpos == 28 ==> n < 0x10)
    ensures Varint32Loop(s, result, bitpos) == Some((result + shifted, s[1..]))
  {
    hide Pow2;
    assert n % 0x80 == n;
    assert bitpos == 28 ==> n / 0x10 == 0;
    NoWrap(result + shifted);
  }

  lemma Varint32Last(n: nat, result: nat, bitpos: nat, p: nat, rest: seq<Byte>)
    requires n < 0x80 && bitpos <= 28 && p == Pow2(bitpos) && result + n * p < TWO32 && (bitpos == 28 ==> n < 0x10)
    ensures Varint32Loop(Varint(n) + rest, result, bitpos) == Some((result + n * p, rest))
  {
    assert (Varint(n) + rest)[1..] == rest;
    LastByte(Varint(n) + rest, n, result, bitpos, p, n * p);
  }

  /** The loop reads back a varint whose shifted value still fits. */
  lemma {:induction false} Varint32LoopReads(n: nat, result: nat, bitpos: nat, p: nat, rest: seq<Byte>)
    requires bitpos in {7, 14, 21, 28} && p == Pow2(bitpos) && result + n * p < TWO32
    ensures Varint32Loop(Varint(n) + rest, result, bitpos) == Some((result + n * p, rest))
    decreases 28 - bitpos
  {
    Pow2Values();
    if n < 0x80 {
      Varint32Last(n, result, bitpos, p, rest);
    } else {
      assert bitpos < 28;
      assert Pow2(bitpos + 7) == 0x80 * p;
      SplitProduct(n, p);
      Varint32Step(n, result, bitpos, p, rest);
      Varint32LoopReads(n / 0x80, result + n % 0x80 * p, bitpos + 7, 0x80 * p, rest);
    }
  }

  lemma SplitProduct(n: nat, p: nat)
    ensures n * p == n % 0x80 * p + n / 0x80 * (0x80 * p)
    ensures n % 0x80 * p <= n * p
  {
    var q, r := n / 0x80, n % 0x80;
    assert n == 0x80 * q + r;
    assert n * p == (0x80 * q + r) * p == 0x80 * q * p + r * p;
    assert q * (0x80 * p) == 0x80 * q * p;
  }

  lemma Varint32RoundTrip(n: nat, rest: seq<Byte>)
    requires n < TWO32
    ensures DecodeVarint32(Varint(n) + rest) == Some((n, rest))
  {
    var s := Varint(n) + rest;
    Pow2Values();
    if n < 0x80 {
      assert s[1..] == rest;
    } else {
      assert s == [n % 0x80 + 0x80] + (Varint(n / 0x80) + rest);
      assert s[1..] == Varint(n / 0x80) + rest;
      Varint32LoopReads(n / 0x80, n % 0x80, 7, 0x80, rest);
    }
  }

  // ---------------------------------------------------------------- numbers that do not fit

  /** No object in memory is as large as this. */
  const SIZE_LIMIT := 0x8000_0000_0000_0000

  /** The groups from bit 35 on must be zero, and the last one is not. */
  lemma {:induction false} HighBitsRefused(n: nat, result: nat, bitpos: nat, bound: nat, rest: seq<Byte>)
    requires bitpos in {35, 42, 49, 56} && 1 <= n < bound
    requires bound == if bitpos == 56 then 0x80 else if bitpos == 49 then 0x4000 else if bitpos == 42 then 0x20_0000
             else 0x1000_0000
    ensures Varint32Loop(Varint(n) + rest, result, bitpos) == None
    decreases bound
  {
    hide Pow2;
    var s := Varint(n) + rest;
    if n < 0x80 {
      assert s[0] == n && n % 0x80 == n;
    } else {
      VarintSplit(n);
      assert s[0] == n % 0x80 + 0x80 && s[1..] == Varint(n / 0x80) + rest;
      HighBitsRefused(n / 0x80, result, bitpos + 7, bound / 0x80, rest);
    }
  }

  /** One more group below bit 35, whatever it adds. */
  lemma LowGroup(n: nat, result: nat, bitpos: nat, rest: seq<Byte>) returns (result': nat)
    requires n >= 0x80 && bitpos <= 28
    ensures Varint32Loop(Varint(n) + rest, result, bitpos) == Varint32Loop(Varint(n / 0x80) + rest, result', bitpos + 7)
  {
    hide Pow2;
    var s := Varint(n) + rest;
    VarintSplit(n);
    assert s[0] == n % 0x80 + 0x80 && s[1..] == Varint(n / 0x80) + rest;
    result' := (result + s[0] % 0x80 * Pow2(bitpos)) % TWO32;
  }

  lemma FifthGroup(n: nat, result: nat, rest: seq<Byte>)
    requires 0x10 <= n < 0x8_0000_0000
    ensures Varint32Loop(Varint(n) + rest, result, 28) == None
  {
    hide Pow2;
    if n < 0x80 {
      var s := Varint(n) + rest;
      assert s[0] == n && n / 0x10 % 8 != 0;
    } else {
      var result' := LowGroup(n, result, 28, rest);
      HighBitsRefused(n / 0x80, result', 35, 0x1000_0000, rest);
    }
  }

  /** A varint that needs more than 32 bits is refused. */
  lemma Varint32Overflows(n: nat, rest: seq<Byte>)
    requires TWO32 <= n < SIZE_LIMIT
    ensures DecodeVarint32(Varint(n) + rest) == None
  {
    hide Varint32Loop;
    var s := Varint(n) + rest;
    VarintSplit(n);
    assert s[0] == n % 0x80 + 0x80 && s[1..] == Varint(n / 0x80) + rest;
    var r2 := LowGroup(n / 0x80, s[0] - 0x80, 7, rest);
    var r3 := LowGroup(n / 0x80 / 0x80, r2, 14, rest);
    var r4 := LowGroup(n / 0x80 / 0x80 / 0x80, r3, 21, rest);
    FifthGroup(n / 0x80 / 0x80 / 0x80 / 0x80, r4, rest);
  }
}
