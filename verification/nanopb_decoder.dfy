// The decoder of pb_decode.c on input streams, and the field iterator of pb_common.c.
module NanopbDecoders {
  import opened Basics
  import opened Varints
  import opened NanopbWire
  import opened NanopbScalars
  import opened NanopbMessages
  import opened NanopbRoundTrip

  // ---------------------------------------------------------------- the field iterator

  /** pb_field_iter_t. */
  class FieldIter {
    const desc: Desc
    var pos: nat
    var requiredFieldIndex: nat

    predicate Valid()
      reads this
    {
      if desc.fields == [] then pos == 0 && requiredFieldIndex == 0
      else pos < |desc.fields| && requiredFieldIndex == RequiredBefore(desc, pos)
    }

    /** pb_field_iter_begin. */
    constructor (d: Desc)
      ensures Valid() && desc == d && pos == 0
    {
      desc, pos, requiredFieldIndex := d, 0, 0;
    }

    /** pb_field_iter_next: false when it wraps around to the first field. */
    method Next() returns (more: bool)
      requires Valid()
      modifies this
      ensures Valid() && (more <==> old(pos) + 1 < |desc.fields|)
      ensures pos == if more then old(pos) + 1 else 0
    {
      if |desc.fields| == 0 {
        return false;
      }
      if pos + 1 == |desc.fields| {
        pos, requiredFieldIndex := 0, 0;
        return false;
      }
      if desc.fields[pos].rule.Required? {
        requiredFieldIndex := requiredFieldIndex + 1;
      }
      pos := pos + 1;
      more := true;
    }

    /** pb_field_iter_find: once round from the current field. */
    method Find(tag: nat) returns (found: bool)
      requires Valid()
      modifies this
      ensures Valid() && (found <==> exists i :: 0 <= i < |desc.fields| && desc.fields[i].tag == tag)
      ensures found ==> desc.fields[pos].tag == tag
    {
      if |desc.fields| == 0 {
        return false;
      }
      var start := pos;
      ghost var n := 0;
      while true
        invariant Valid() && n < |desc.fields| && pos
                  == (if start + n < |desc.fields| then start + n else start + n - |desc.fields|)
        invariant forall i :: start <= i < start + n && i < |desc.fields| ==> desc.fields[i].tag != tag
        invariant forall i :: 0 <= i < start + n - |desc.fields| ==> desc.fields[i].tag != tag
        decreases |desc.fields| - n
      {
        if desc.fields[pos].tag == tag {
          return true;
        }
        var more := Next();
        n := n + 1;
        if pos == start {
          return false;
        }
      }
    }
  }

  lemma TheField(d: Desc, tag: nat, pos: nat)
    requires DescOk(d) && pos < |d.fields| && d.fields[pos].tag == tag
    ensures FindField(d, tag) == Some(pos)
  {
    FoundField(d, pos);
  }

  // ---------------------------------------------------------------- streams

  /** What a decoding step promises: the value and the rest of the stream, or failure. */
  predicate Got<T(==)>(spec: Option<(T, seq<Byte>)>, ok: bool, v: T, rest: seq<Byte>) {
    match spec
    case None => !ok
    case Some((x, r)) => ok && v == x && rest == r
  }

  /** pb_istream_t over a buffer; bytes_left is the length of `rest`. */
  class InStream {
    var rest: seq<Byte>

    constructor (bytes: seq<Byte>)
      ensures rest == bytes
    {
      rest := bytes;
    }

    /** pb_readbyte. */
    method ReadByte() returns (ok: bool, b: Byte)
      modifies this
      ensures ok <==> old(rest) != []
      ensures if ok then b == old(rest)[0] && rest == old(rest)[1..] else rest == old(rest)
    {
      if rest == [] {
        return false, 0;
      }
      ok, b, rest := true, rest[0], rest[1..];
    }

    /** pb_read. */
    method Read(n: nat) returns (ok: bool, buf: seq<Byte>)
      modifies this
      ensures ok <==> n <= |old(rest)|
      ensures if ok then buf == old(rest)[..n] && rest == old(rest)[n..] else rest == old(rest)
    {
      if |rest| < n {
        return false, [];
      }
      ok, buf, rest := true, rest[..n], rest[n..];
    }

    /** pb_decode_varint; bits past the 64th are shifted out. */
    method ReadVarint() returns (ok: bool, v: U64)
      modifies this
      ensures Got(DecodeVarint(old(rest)), ok, v, rest)
    {
      var result: nat, k: nat := 0, 0;
      v := 0;
      StartOfVarint(rest, 10);
      while true
        invariant k <= 10 && RawVarint(old(rest), 10) == Combine(result, Pow128(k), RawVarint(rest, 10 - k))
        decreases 11 - k
      {
        if k >= 10 {
          return false, 0;
        }
        ghost var s := rest;
        var more, byte := ReadByte();
        if !more {
          return false, 0;
        }
        DigitOfVarint(result, k, s, 10 - k);
        result := result + byte % 0x80 * Pow128(k);
        k := k + 1;
        if byte < 0x80 {
          v := result % TWO64;
          return true, v;
        }
      }
    }

    /** pb_decode_varint32. */
    method ReadVarint32() returns (ok: bool, v: nat)
      modifies this
      ensures Got(DecodeVarint32(old(rest)), ok, v, rest)
    {
      var byte: Byte;
      ok, byte := ReadByte();
      v := 0;
      if !ok || byte < 0x80 {
        v := byte;
        return;
      }
      var bitpos: nat := 7;
      var result: nat := byte % 0x80;
      while true
        invariant DecodeVarint32(old(rest)) == Varint32Loop(rest, result, bitpos)
        decreases |rest|
      {
        ok, byte := ReadByte();
        if !ok {
          return;
        }
        if bitpos >= 32 {
          var signExtension := if bitpos < 63 then 0xff else 0x01;
          if byte % 0x80 != 0 && (result / 0x8000_0000 == 0 || byte != signExtension) {
            return false, 0;
          }
        } else {
          result := (result + byte % 0x80 * Pow2(bitpos)) % TWO32;
        }
        bitpos := (bitpos + 7) % 0x100;
        if byte < 0x80 {
          break;
        }
      }
      if bitpos == 35 && byte / 0x10 % 8 != 0 {
        return false, 0;
      }
      ok, v := true, result;
    }
  
    /** pb_make_string_substream and pb_close_string_substream: the block is taken out of the parent stream. */
    method TakeSubstream() returns (ok: bool, body: seq<Byte>)
      modifies this
      ensures Got(Substream(old(rest)), ok, body, rest)
    {
      var size: nat;
      ok, size := ReadVarint32();
      body := [];
      if ok {
        ok, body := Read(size);
      }
    }

    /** pb_skip_field. */
    method Skip(wireType: nat) returns (ok: bool)
      modifies this
      ensures ok <==> SkipField(old(rest), wireType).Some?
      ensures ok ==> rest == SkipField(old(rest), wireType).value
    {
      var skipped: seq<Byte>;
      if wireType == 0 {
        ok := SkipVarintByte();
      } else if wireType == 1 {
        ok, skipped := Read(8);
      } else if wireType == 2 {
        ok, skipped := TakeSubstream();
      } else if wireType == 5 {
        ok, skipped := Read(4);
      } else {
        ok := false;
      }
    }

    method SkipVarintByte() returns (ok: bool)
      modifies this
      ensures ok <==> SkipVarint(old(rest)).Some?
      ensures ok ==> rest == SkipVarint(old(rest)).value
    {
      while true
        invariant SkipVarint(rest) == SkipVarint(old(rest))
        decreases |rest|
      {
        var more, byte := ReadByte();
        if !more {
          return false;
        }
        if byte < 0x80 {
          return true;
        }
      }
    }
  }

  // ---------------------------------------------------------------- values

  method ReadScalar(stream: InStream, k: Kind) returns (ok: bool, n: int)
    requires IsScalar(k)
    modifies stream
    ensures Got(DecodeScalar(k, old(stream.rest)), ok, n, stream.rest)
  {
    n := 0;
    match k
    case BoolKind =>
      var v: nat;
      ok, v := stream.ReadVarint32();
      n := if v != 0 then 1 else 0;
    case IntKind(size) =>
      var u: U64;
      ok, u := stream.ReadVarint();
      if ok {
        var svalue := if size == 8 then ToSigned(8, u) else ToSigned(4, u);
        ok, n := ValidSize(size) && ToSigned(size, svalue) == svalue, svalue;
      }
    case UIntKind(size) =>
      var u: U64;
      ok, u := stream.ReadVarint();
      ok, n := ok && ValidSize(size) && InUnsigned(size, u), u;
    case SIntKind(size) =>
      var u: U64;
      ok, u := stream.ReadVarint();
      n := UnZigZag(u);
      ok := ok && ValidSize(size) && InSigned(size, n);
    case Fixed32Kind =>
      var bytes: seq<Byte>;
      ok, bytes := stream.Read(4);
      n := FromLittleEndian(bytes);
    case Fixed64Kind =>
      var bytes: seq<Byte>;
      ok, bytes := stream.Read(8);
      n := FromLittleEndian(bytes);
  }

  method ReadBlob(stream: InStream, k: Kind) returns (ok: bool, b: seq<Byte>)
    requires IsBlob(k)
    modifies stream
    ensures Got(DecodeBlob(k, old(stream.rest)), ok, b, stream.rest)
  {
    b := [];
    var size: nat;
    ok, size := stream.ReadVarint32();
    if !ok {
      return;
    }
    if k.FixedBytesKind? && size == 0 {
      return true, seq(k.size, _ => 0);
    }
    if (k.BytesKind? && size > k.max) || (k.StringKind? && size + 1 > k.size) || (k.FixedBytesKind? && size != k.size) {
      return false, [];
    }
    ok, b := stream.Read(size);
    if k.StringKind? {
      b := UpToZero(b);
    }
  }

  ghost predicate KindOk(k: Kind) {
    k.MessageKind? ==> DescOk(k.desc)
  }

  /** PB_DECODERS. */
  method ReadValue(stream: InStream, k: Kind, init: Value) returns (ok: bool, v: Value)
    requires KindOk(k)
    modifies stream
    ensures Got(DecodeValue(k, init, old(stream.rest)), ok, v, stream.rest)
    decreases k, 1, 0
  {
    v := init;
    if IsScalar(k) {
      var n: int;
      ok, n := ReadScalar(stream, k);
      v := Num(n);
    } else if IsBlob(k) {
      var b: seq<Byte>;
      ok, b := ReadBlob(stream, k);
      v := Blob(b);
    } else if !init.Struct? || |init.slots| != |k.desc.fields| {
      ok := false;
    } else {
      var body: seq<Byte>;
      ok, body := stream.TakeSubstream();
      if ok {
        var substream := new InStream(body);
        var slots: seq<Slot>;
        ok, slots := DecodeNoInit(substream, k.desc, init.slots);
        v := Struct(slots);
      }
    }
  }

  /** The loop over a packed array. */
  method ReadPacked(substream: InStream, k: Kind, items0: seq<Value>, max: nat) returns (ok: bool, items: seq<Value>)
    requires KindOk(k)
    modifies substream
    ensures match DecodePacked(k, items0, max, old(substream.rest)) case None => !ok
            case Some(all) => ok && items == all
    decreases k, 2, 0
  {
    items := items0;
    while |substream.rest| > 0 && |items| < max
      invariant DecodePacked(k, items, max, substream.rest) == DecodePacked(k, items0, max, old(substream.rest))
      decreases |substream.rest|
    {
      var v: Value;
      ok, v := ReadValue(substream, k, Zero(k));
      if !ok {
        return;
      }
      items := items + [v];
    }
    ok := |substream.rest| == 0;
  }

  method ReadArray(stream: InStream, k: Kind, items: seq<Value>, max: nat, wireType: nat) returns (ok: bool, slot: Slot)
    requires KindOk(k)
    modifies stream
    ensures Got(DecodeArray(k, items, max, wireType, old(stream.rest)), ok, slot, stream.rest)
    decreases k, 3, 0
  {
    slot := Array(items);
    if wireType == 2 && IsScalar(k) {
      var body: seq<Byte>;
      ok, body := stream.TakeSubstream();
      if ok {
        var substream := new InStream(body);
        var all: seq<Value>;
        ok, all := ReadPacked(substream, k, items, max);
        slot := Array(all);
      }
    } else if |items| >= max {
      ok := false;
    } else {
      var v: Value;
      ok, v := ReadValue(stream, k, DefaultValue(k, None));
      slot := Array(items + [v]);
    }
  }

  /** decode_static_field. */
  method ReadSlot(stream: InStream, f: Field, slot0: Slot, wireType: nat) returns (ok: bool, slot: Slot)
    requires FieldOk(f)
    modifies stream
    ensures Got(DecodeSlot(f, slot0, wireType, old(stream.rest)), ok, slot, stream.rest)
    decreases f, 2, 0
  {
    slot := slot0;
    var v: Value;
    match (f.rule, slot0)
    case (Required, Plain(v0)) =>
      ok, v := ReadValue(stream, f.kind, v0);
      slot := Plain(v);
    case (Singular, Plain(v0)) =>
      ok, v := ReadValue(stream, f.kind, v0);
      slot := Plain(v);
    case (Optional, Flagged(_, v0)) =>
      ok, v := ReadValue(stream, f.kind, v0);
      slot := Flagged(true, v);
    case (Oneof(_), Choice(chosen)) =>
      ok, v := ReadValue(stream, f.kind, if chosen.Some? then chosen.value else DefaultValue(f.kind, None));
      slot := Choice(Some(v));
    case (Repeated(max), Array(items)) => ok, slot := ReadArray(stream, f.kind, items, max, wireType);
    case (FixedCount(n), Array(items)) => ok, slot := ReadArray(stream, f.kind, items, n, wireType);
    case _ => ok := false;
  }

  // ---------------------------------------------------------------- messages

  /** What the loop of pb_decode_noinit does for a field it has found. */
  method ReadField(stream: InStream, d: Desc, p0: Progress, i: nat, requiredIndex: nat, wireType: nat)
    returns (ok: bool, p: Progress)
    requires DescOk(d) && |p0.slots| == |d.fields| && i < |d.fields| && requiredIndex == RequiredBefore(d, i)
    modifies stream
    ensures Got(DecodeField(d, p0, i, wireType, old(stream.rest)), ok, p, stream.rest)
    decreases d, 1, 0
  {
    p := p0;
    var f := d.fields[i];
    assert FieldOk(f);
    var starts := f.rule.FixedCount? && (p.fixed.None? || p.fixed.value.0 != i);
    if starts && !FixedComplete(d, p.fixed) {
      return false, p;
    }
    var slot: Slot;
    ok, slot := ReadSlot(stream, f, if starts then Array([]) else p.slots[i], wireType);
    if ok {
      var seen := if f.rule.Required? && requiredIndex < MAX_REQUIRED_FIELDS then p.seen + {requiredIndex} else p.seen;
      var fixed := if f.rule.FixedCount? && slot.Array? then Some((i, |slot.items|)) else p.fixed;
      p := Progress(Store(d, p.slots, i, slot), seen, fixed);
    }
  }

  /** pb_decode_noinit. */
  method DecodeNoInit(stream: InStream, d: Desc, slots0: seq<Slot>) returns (ok: bool, slots: seq<Slot>)
    requires DescOk(d) && |slots0| == |d.fields|
    modifies stream
    ensures match DecodeMessage(d, slots0, old(stream.rest)) case None => !ok case Some(r) => ok && slots == r
    decreases d, 4, 0
  {
    slots := slots0;
    var p := Progress(slots0, {}, None);
    var iter := new FieldIter(d);
    while |stream.rest| > 0
      invariant |p.slots| == |d.fields| && iter.Valid() && iter.desc == d && fresh(iter)
      invariant DecodeLoop(d, p, stream.rest) == DecodeLoop(d, Progress(slots0, {}, None), old(stream.rest))
      decreases |stream.rest|
    {
      var temp: nat;
      ok, temp := stream.ReadVarint32();
      if !ok {
        return;
      }
      if temp == 0 {
        break;
      }
      var found := iter.Find(temp / 8);
      if found {
        TheField(d, temp / 8, iter.pos);
        ok, p := ReadField(stream, d, p, iter.pos, iter.requiredFieldIndex, temp % 8);
      } else {
        ok := stream.Skip(temp % 8);
      }
      if !ok {
        return;
      }
    }
    ok, slots := FixedComplete(d, p.fixed) && p.seen == RequiredSeen(d, |d.fields|), p.slots;
  }

  /** pb_decode. */
  method DecodeFrom(stream: InStream, d: Desc) returns (ok: bool, slots: seq<Slot>)
    requires DescOk(d)
    modifies stream
    ensures match Decode(d, old(stream.rest)) case None => !ok case Some(r) => ok && slots == r
  {
    ok, slots := DecodeNoInit(stream, d, Defaults(d));
  }
}
