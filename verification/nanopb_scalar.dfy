// Field descriptors of nanopb (pb.h) as a tree, and the codecs of single scalar and string values in pb_encode.c and
// pb_decode.c.
module NanopbScalars {
  import opened Basics
  import opened Varints
  import opened NanopbWire

  /** PB_LTYPE, with the data size it carries; a string size includes the terminator. */
  datatype Kind =
    | BoolKind
    | IntKind(size: nat)
    | UIntKind(size: nat)
    | SIntKind(size: nat)
    | Fixed32Kind
    | Fixed64Kind
    | BytesKind(max: nat)
    | StringKind(size: nat)
    | FixedBytesKind(size: nat)
    | MessageKind(desc: Desc)

  /** PB_HTYPE.  Singular is an optional field without has_ flag (proto3), FixedCount a repeated field without count. */
  datatype Rule = Required | Optional | Singular | Repeated(max: nat) | FixedCount(count: nat) | Oneof(group: nat)

  datatype Field = Field(tag: nat, rule: Rule, kind: Kind, default: Option<Value>)

  datatype Desc = Desc(fields: seq<Field>)

  datatype Value = Num(n: int) | Blob(bytes: seq<Byte>) | Struct(slots: seq<Slot>)

  /** What the C struct stores for a field; the members of a union hold a value only while chosen. */
  datatype Slot = Plain(v: Value) | Flagged(has: bool, v: Value) | Array(items: seq<Value>)
    | Choice(chosen: Option<Value>)

  // ---------------------------------------------------------------- integers

  predicate ValidSize(size: nat) {
    size == 1 || size == 2 || size == 4 || size == 8
  }

  /** Half the range of an integer of `size` bytes. */
  function Half(size: nat): nat {
    if size == 1 then 0x80 else if size == 2 then 0x8000 else if size == 4 then 0x8000_0000 else 0x8000_0000_0000_0000
  }

  predicate InSigned(size: nat, n: int) {
    -(Half(size) as int) <= n < Half(size)
  }

  predicate InUnsigned(size: nat, n: int) {
    0 <= n < 2 * Half(size)
  }

  /** Conversion to a signed C integer of `size` bytes. */
  function ToSigned(size: nat, n: int): (r: int)
    ensures InSigned(size, r)
  {
    (n + Half(size)) % (2 * Half(size)) - Half(size)
  }

  /** pb_encode_svarint: small magnitudes get small codes. */
  function ZigZag(n: int): U64
    requires InSigned(8, n)
  {
    if n < 0 then -2 * n - 1 else 2 * n
  }

  function UnZigZag(u: U64): (n: int)
    ensures InSigned(8, n)
  {
    if u % 2 == 1 then -(u / 2) - 1 else u / 2
  }

  lemma ZigZagInverse(n: int, u: U64)
    ensures InSigned(8, n) ==> UnZigZag(ZigZag(n)) == n
    ensures ZigZag(UnZigZag(u)) == u
  {
  }

  /** The low `k` bytes of `n`, little-endian. */
  function LittleEndian(n: nat, k: nat): (s: seq<Byte>)
    ensures |s| == k
  {
    if k == 0 then [] else [n % 0x100] + LittleEndian(n / 0x100, k - 1)
  }

  function FromLittleEndian(s: seq<Byte>): nat {
    if s == [] then 0 else s[0] as int + 0x100 * FromLittleEndian(s[1..])
  }

  function Pow256(k: nat): (r: nat)
    ensures r > 0
  {
    if k == 0 then 1 else 0x100 * Pow256(k - 1)
  }

  lemma {:induction false} LittleEndianInverse(n: nat, k: nat)
    requires n < Pow256(k)
    ensures FromLittleEndian(LittleEndian(n, k)) == n
  {
    if k > 0 {
      LittleEndianInverse(n / 0x100, k - 1);
      assert LittleEndian(n, k)[1..] == LittleEndian(n / 0x100, k - 1);
    }
  }

  lemma Pow256Values()
    ensures Pow256(4) == TWO32 && Pow256(8) == TWO64
  {
    assert Pow256(1) == 0x100 && Pow256(2) == 0x1_0000 && Pow256(3) == 0x100_0000;
    assert Pow256(5) == 0x100_0000_0000 && Pow256(6) == 0x1_0000_0000_0000 && Pow256(7) == 0x100_0000_0000_0000;
  }

  // ---------------------------------------------------------------- scalar fields

  predicate IsScalar(k: Kind) {
    k.BoolKind? || k.IntKind? || k.UIntKind? || k.SIntKind? || k.Fixed32Kind? || k.Fixed64Kind?
  }

  /** The numbers a field of this kind can hold. */
  predicate NumOk(k: Kind, n: int) {
    match k
    case BoolKind => n == 0 || n == 1
    case IntKind(size) => ValidSize(size) && InSigned(size, n)
    case UIntKind(size) => ValidSize(size) && InUnsigned(size, n)
    case SIntKind(size) => ValidSize(size) && InSigned(size, n)
    case Fixed32Kind => 0 <= n < TWO32
    case Fixed64Kind => 0 <= n < TWO64
    case _ => false
  }

  /** pb_enc_bool, pb_enc_varint, pb_enc_uvarint, pb_enc_svarint, pb_enc_fixed32 and pb_enc_fixed64. */
  function EncodeScalar(k: Kind, n: int): seq<Byte>
    requires NumOk(k, n)
  {
    match k
    case BoolKind => Varint(n)
    case IntKind(_) => Varint(n % TWO64)
    case UIntKind(_) => Varint(n)
    case SIntKind(_) => Varint(ZigZag(n))
    case Fixed32Kind => LittleEndian(n, 4)
    case Fixed64Kind => LittleEndian(n, 8)
  }

  function ReadFixed(s: seq<Byte>, k: nat): (r: Option<(int, seq<Byte>)>)
    ensures r.Some? && k > 0 ==> |r.value.1| < |s|
  {
    if |s| < k then None else Some((FromLittleEndian(s[..k]), s[k..]))
  }

  /** pb_dec_varint: fields narrower than 64 bits are cut to 32 bits first, and must then fit. */
  function NarrowSigned(size: nat, u: U64): Option<int> {
    var value := if size == 8 then ToSigned(8, u) else ToSigned(4, u);
    if ValidSize(size) && ToSigned(size, value) == value then Some(value) else None
  }

  function DecodeScalar(k: Kind, s: seq<Byte>): (r: Option<(int, seq<Byte>)>)
    requires IsScalar(k)
    ensures r.Some? ==> |r.value.1| < |s|
  {
    match k
    case BoolKind =>
      (match DecodeVarint32(s)
       case None => None
       case Some((v, rest)) => Some((if v != 0 then 1 else 0, rest)))
    case IntKind(size) =>
      (match DecodeVarint(s)
       case None => None
       case Some((u, rest)) => match NarrowSigned(size, u) case None => None case Some(n) => Some((n, rest)))
    case UIntKind(size) =>
      (match DecodeVarint(s)
       case None => None
       case Some((u, rest)) => if ValidSize(size) && InUnsigned(size, u) then Some((u, rest)) else None)
    case SIntKind(size) =>
      (match DecodeVarint(s)
       case None => None
       case Some((u, rest)) =>
         if ValidSize(size) && InSigned(size, UnZigZag(u)) then Some((UnZigZag(u), rest)) else None)
    case Fixed32Kind => ReadFixed(s, 4)
    case Fixed64Kind => ReadFixed(s, 8)
  }

  lemma Undo1(n: int)
    requires -0x80 <= n < 0x80
    ensures (n % TWO64 + 0x80) % (2 * 0x80) == n + 0x80 && (n + 0x80) % (2 * 0x80) == n + 0x80
  {
    assert n % TWO64 == if n < 0 then n + TWO64 else n;
  }

  lemma Undo2(n: int)
    requires -0x8000 <= n < 0x8000
    ensures (n % TWO64 + 0x8000) % (2 * 0x8000) == n + 0x8000 && (n + 0x8000) % (2 * 0x8000) == n + 0x8000
  {
    assert n % TWO64 == if n < 0 then n + TWO64 else n;
  }

  lemma Undo4(n: int)
    requires -0x8000_0000 <= n < 0x8000_0000
    ensures (n % TWO64 + 0x8000_0000) % (2 * 0x8000_0000) == n + 0x8000_0000
            && (n + 0x8000_0000) % (2 * 0x8000_0000) == n + 0x8000_0000
  {
    assert n % TWO64 == if n < 0 then n + TWO64 else n;
  }

  lemma Undo8(n: int)
    requires -0x8000_0000_0000_0000 <= n < 0x8000_0000_0000_0000
    ensures (n % TWO64 + 0x8000_0000_0000_0000) % (2 * 0x8000_0000_0000_0000) == n + 0x8000_0000_0000_0000
            && (n + 0x8000_0000_0000_0000) % (2 * 0x8000_0000_0000_0000) == n + 0x8000_0000_0000_0000
  {
    assert n % TWO64 == if n < 0 then n + TWO64 else n;
  }

  /** A conversion to 64 unsigned bits loses nothing of a narrower signed number. */
  lemma ToSignedUndoes(size: nat, n: int)
    requires ValidSize(size) && InSigned(size, n)
    ensures ToSigned(size, n % TWO64) == n && ToSigned(size, n) == n
  {
    if size == 1 {
      Undo1(n);
    } else if size == 2 {
      Undo2(n);
    } else if size == 4 {
      Undo4(n);
    } else {
      Undo8(n);
    }
  }

  lemma SignedRoundTrip(size: nat, n: int)
    requires ValidSize(size) && InSigned(size, n)
    ensures NarrowSigned(size, n % TWO64) == Some(n)
  {
    ToSignedUndoes(if size == 8 then 8 else 4, n);
    ToSignedUndoes(size, n);
  }

  lemma FixedReads(n: nat, k: nat, rest: seq<Byte>)
    requires n < Pow256(k)
    ensures ReadFixed(LittleEndian(n, k) + rest, k) == Some((n, rest))
  {
    LittleEndianInverse(n, k);
    var s := LittleEndian(n, k) + rest;
    assert s[..k] == LittleEndian(n, k) && s[k..] == rest;
  }

  /** Every scalar is read back as it was written, whatever follows. */
  lemma ScalarRoundTrip(k: Kind, n: int, rest: seq<Byte>)
    requires NumOk(k, n)
    ensures DecodeScalar(k, EncodeScalar(k, n) + rest) == Some((n, rest))
  {
    match k
    case BoolKind => Varint32RoundTrip(n, rest);
    case IntKind(size) =>
      VarintRoundTrip(n % TWO64, rest);
      SignedRoundTrip(size, n);
    case UIntKind(_) => VarintRoundTrip(n, rest);
    case SIntKind(_) =>
      VarintRoundTrip(ZigZag(n), rest);
      ZigZagInverse(n, 0);
    case Fixed32Kind =>
      Pow256Values();
      FixedReads(n, 4, rest);
    case Fixed64Kind =>
      Pow256Values();
      FixedReads(n, 8, rest);
  }

  // ---------------------------------------------------------------- strings and bytes

  predicate IsBlob(k: Kind) {
    k.BytesKind? || k.StringKind? || k.FixedBytesKind?
  }

  predicate NoZero(s: seq<Byte>) {
    forall i :: 0 <= i < |s| ==> s[i] != 0
  }

  /** What the C storage can hold: a string is its bytes up to the terminator or the end of the buffer. */
  predicate BlobStored(k: Kind, b: seq<Byte>) {
    match k
    case BytesKind(_) => true
    case StringKind(size) => |b| <= size && NoZero(b)
    case FixedBytesKind(size) => |b| == size
    case _ => false
  }

  /** A well-formed value: strings are terminated, and bytes fit their array. */
  predicate BlobOk(k: Kind, b: seq<Byte>) {
    BlobStored(k, b) && (k.BytesKind? ==> |b| <= k.max) && (k.StringKind? ==> |b| < k.size)
  }

  /** pb_encode_string. */
  function Delimited(s: seq<Byte>): seq<Byte> {
    Varint(|s|) + s
  }

  /** pb_enc_bytes, pb_enc_string and pb_enc_fixed_length_bytes. */
  function EncodeBlob(k: Kind, b: seq<Byte>): Option<seq<Byte>>
    requires IsBlob(k) && BlobStored(k, b)
  {
    if k.BytesKind? && |b| > k.max then None else Some(Delimited(b))
  }

  /** pb_make_string_substream: the next `size` bytes, and what follows them. */
  function Substream(s: seq<Byte>): (r: Option<(seq<Byte>, seq<Byte>)>)
    ensures r.Some? ==> |r.value.0| + |r.value.1| < |s|
  {
    match DecodeVarint32(s)
    case None => None
    case Some((size, rest)) => if |rest| < size then None else Some((rest[..size], rest[size..]))
  }

  function UpToZero(s: seq<Byte>): seq<Byte> {
    if s == [] || s[0] == 0 then [] else [s[0]] + UpToZero(s[1..])
  }

  /** pb_dec_bytes, pb_dec_string and pb_dec_fixed_length_bytes. */
  function DecodeBlob(k: Kind, s: seq<Byte>): (r: Option<(seq<Byte>, seq<Byte>)>)
    requires IsBlob(k)
    ensures r.Some? ==> |r.value.1| < |s|
  {
    match DecodeVarint32(s)
    case None => None
    case Some((size, rest)) =>
      if k.FixedBytesKind? && size == 0 then Some((seq(k.size, _ => 0), rest))
      else if (k.BytesKind? && size > k.max) || (k.StringKind? && size + 1 > k.size)
        || (k.FixedBytesKind? && size != k.size) then None
      else if |rest| < size then None
      else Some((if k.StringKind? then UpToZero(rest[..size]) else rest[..size], rest[size..]))
  }

  lemma DelimitedReads(b: seq<Byte>, rest: seq<Byte>)
    requires |b| < TWO32
    ensures DecodeVarint32(Delimited(b) + rest) == Some((|b|, b + rest))
    ensures Substream(Delimited(b) + rest) == Some((b, rest))
  {
    Varint32RoundTrip(|b|, b + rest);
    assert Delimited(b) + rest == Varint(|b|) + (b + rest);
    assert (b + rest)[..|b|] == b && (b + rest)[|b|..] == rest;
  }

  /** A block of 4 GB or more is written and then refused. */
  lemma DelimitedOverflows(b: seq<Byte>, rest: seq<Byte>)
    requires TWO32 <= |b| < SIZE_LIMIT
    ensures DecodeVarint32(Delimited(b) + rest) == None && Substream(Delimited(b) + rest) == None
  {
    Varint32Overflows(|b|, b + rest);
    assert Delimited(b) + rest == Varint(|b|) + (b + rest);
  }

  lemma {:induction false} UpToZeroIsAll(s: seq<Byte>)
    requires NoZero(s)
    ensures UpToZero(s) == s
  {
    if s != [] {
      assert forall i :: 0 <= i < |s[1..]| ==> s[1..][i] == s[i + 1];
      UpToZeroIsAll(s[1..]);
    }
  }

  /** Well-formed strings and bytes are read back as they were written. */
  lemma BlobRoundTrip(k: Kind, b: seq<Byte>, rest: seq<Byte>)
    requires IsBlob(k) && BlobOk(k, b) && |b| < TWO32
    ensures EncodeBlob(k, b).Some? && DecodeBlob(k, EncodeBlob(k, b).value + rest) == Some((b, rest))
  {
    DelimitedReads(b, rest);
    assert (b + rest)[..|b|] == b && (b + rest)[|b|..] == rest;
    if k.StringKind? {
      UpToZeroIsAll(b);
    } else if k.FixedBytesKind? && |b| == 0 {
      assert b == seq(k.size, _ => 0);
    }
  }

  /** A string that fills its buffer is encoded, but does not decode into a buffer of the same size. */
  lemma UnterminatedString(b: seq<Byte>, size: nat, rest: seq<Byte>)
    requires |b| == size < TWO32 && NoZero(b)
    ensures EncodeBlob(StringKind(size), b) == Some(Delimited(b))
    ensures DecodeBlob(StringKind(size), Delimited(b) + rest) == None
  {
    DelimitedReads(b, rest);
  }
}
