// Fixed-width and variable-width integers of LevelDB: util/coding.h and util/coding.cc.
module Coding {
  import opened Basics
  import opened Varints

  type Word = w: int | 0 <= w < 0x1_0000_0000

  /** EncodeFixed32: four bytes, lowest first. */
  function Fixed32(w: Word): seq<Byte> {
    [w % 0x100, w / 0x100 % 0x100, w / 0x100 / 0x100 % 0x100, w / 0x100 / 0x100 / 0x100]
  }

  function DecodeFixed32(s: seq<Byte>): Word
    requires |s| == 4
  {
    s[0] as int + 0x100 * (s[1] as int + 0x100 * (s[2] as int + 0x100 * s[3] as int))
  }

  lemma Fixed32RoundTrip(w: Word)
    ensures DecodeFixed32(Fixed32(w)) == w
  {
  }

  /** Lowest byte first. */
  lemma Fixed32Layout(w: Word)
    ensures var s := Fixed32(w);
            |s| == 4
            && w == s[0] as int + 0x100 * s[1] as int + 0x1_0000 * s[2] as int + 0x100_0000 * s[3] as int
  {
    Fixed32RoundTrip(w);
  }

  lemma SmallVarint(v: nat)
    requires v < 0x80
    ensures Varint(v) == [v]
  {
  }

  /** EncodeVarint32: one to five bytes, by the size of the number. */
  method EncodeVarint32(v: Word) returns (bytes: Bytes)
    ensures bytes == Varint(v)
  {
    var v1, v2, v3, v4 := v / 0x80, v / 0x80 / 0x80, v / 0x80 / 0x80 / 0x80, v / 0x80 / 0x80 / 0x80 / 0x80;
    if v < 0x80 {
      return [v];
    }
    VarintSplit(v);
    var b0: Bytes := [v % 0x80 + 0x80];
    if v1 < 0x80 {
      SmallVarint(v1);
      return b0 + [v1];
    }
    VarintSplit(v1);
    var b1: Bytes := [v1 % 0x80 + 0x80];
    if v2 < 0x80 {
      SmallVarint(v2);
      return b0 + (b1 + [v2]);
    }
    VarintSplit(v2);
    var b2: Bytes := [v2 % 0x80 + 0x80];
    if v3 < 0x80 {
      SmallVarint(v3);
      return b0 + (b1 + (b2 + [v3]));
    }
    VarintSplit(v3);
    SmallVarint(v4);
    bytes := b0 + (b1 + (b2 + ([v3 % 0x80 + 0x80] + [v4])));
  }

  /** EncodeVarint64. */
  method EncodeVarint64(v: nat) returns (bytes: Bytes)
    ensures bytes == Varint(v)
  {
    var rest := v;
    bytes := [];
    while rest >= 0x80
      invariant bytes + Varint(rest) == Varint(v)
      decreases rest
    {
      VarintDigit(rest, rest % 0x80, rest / 0x80, bytes);
      bytes := bytes + [rest % 0x80 + 0x80];
      rest := rest / 0x80;
    }
    SmallVarint(rest);
    bytes := bytes + [rest];
  }

  /** Bits past the 32nd are shifted out. */
  function Truncated(r: Option<(nat, Bytes)>): Option<(Word, Bytes)> {
    match r
    case None => None
    case Some((v, rest)) => Some((v % TWO32, rest))
  }

  /** GetVarint32Ptr: at most five bytes. */
  function GetVarint32(s: Bytes): (r: Option<(Word, Bytes)>)
    ensures r.Some? ==> |r.value.1| < |s|
  {
    Truncated(RawVarint(s, 5))
  }

  lemma NothingShiftedOut(n: Word, rest: Bytes)
    ensures Truncated(Some((n, rest))) == Some((n, rest))
  {
  }

  lemma GetVarint32Reads(n: Word, rest: Bytes)
    ensures GetVarint32(Varint(n) + rest) == Some((n, rest))
  {
    NothingShiftedOut(n, rest);
    WideReads(n, rest);
  }

  /** (byte & 127) << (7 * k). */
  function Shifted(byte: Byte, k: nat): nat {
    byte % 0x80 * Pow128(k)
  }

  /** One turn of the loop below. */
  lemma NextDigit(whole: Option<(nat, Bytes)>, result: nat, k: nat, data: Bytes, p: nat, limit: nat, left: nat)
    requires p < limit <= |data| && left > 0 && whole == Combine(result, Pow128(k), RawVarint(data[p..limit], left))
    ensures var result' := result + Shifted(data[p], k);
            && (data[p] >= 0x80 ==> whole == Combine(result', Pow128(k + 1), RawVarint(data[p + 1..limit], left - 1)))
            && (data[p] < 0x80 ==> whole == Some((result', data[p + 1..limit])))
  {
    var s := data[p..limit];
    assert s[0] == data[p] && s[1..] == data[p + 1..limit];
    DigitOfVarint(result, k, s, left);
  }

  lemma VarintCutOff(result: nat, k: nat, s: Bytes, left: nat)
    requires left == 0 || s == []
    ensures Combine(result, Pow128(k), RawVarint(s, left)) == None
  {
  }

  /** GetVarint32PtrFallback, from position `p`; the result is the position after the varint. */
  method GetVarint32Ptr(data: Bytes, p0: nat, limit: nat) returns (ok: bool, p: nat, value: Word)
    requires p0 <= limit <= |data|
    ensures ok <==> GetVarint32(data[p0..limit]).Some?
    ensures ok ==> p0 < p <= limit && GetVarint32(data[p0..limit]) == Some((value, data[p..limit]))
  {
    hide RawVarint, Pow128, Combine, Shifted;
    p, value := p0, 0;
    var result: nat, k: nat := 0, 0;
    ghost var s := data[p0..limit];
    ghost var whole := RawVarint(s, 5);
    StartOfVarint(s, 5);
    while k <= 4 && p < limit
      invariant k <= 5 && p0 <= p <= limit && p == p0 + k
      invariant whole == Combine(result, Pow128(k), RawVarint(data[p..limit], 5 - k))
      decreases limit - p
    {
      var byte := data[p];
      NextDigit(whole, result, k, data, p, limit, 5 - k);
      result := result + Shifted(byte, k);
      p := p + 1;
      k := k + 1;
      if byte < 0x80 {
        value := result % TWO32;
        return true, p, value;
      }
    }
    VarintCutOff(result, k, data[p..limit], 5 - k);
    ok := false;
  }

  /** PutLengthPrefixedSlice and GetLengthPrefixedSlice. */
  function LengthPrefixed(s: Bytes): Bytes {
    Varint(|s|) + s
  }

  function GetLengthPrefixed(s: Bytes): Option<(Bytes, Bytes)> {
    match GetVarint32(s)
    case None => None
    case Some((len, rest)) => if |rest| < len then None else Some((rest[..len], rest[len..]))
  }

  /** A length-prefixed slice is read back, whatever follows. */
  lemma LengthPrefixedReads(s: Bytes, rest: Bytes)
    requires |s| < TWO32
    ensures GetLengthPrefixed(LengthPrefixed(s) + rest) == Some((s, rest))
  {
    assert LengthPrefixed(s) + rest == Varint(|s|) + (s + rest);
    GetVarint32Reads(|s|, s + rest);
    assert (s + rest)[..|s|] == s && (s + rest)[|s|..] == rest;
  }
}
