// Decoding one message after another into the same struct: pb_decode_noinit on concatenated messages ("Last One Wins"
// in the Protocol Buffers "Encoding" document).
module NanopbMerge {
  import opened Basics
  import opened Varints
  import opened NanopbWire
  import opened NanopbScalars
  import opened NanopbMessages

  // ---------------------------------------------------------------- what is read does not depend on what follows

  lemma Further(s: seq<Byte>, b: seq<Byte>)
    requires s != []
    ensures (s + b)[0] == s[0] && (s + b)[1..] == s[1..] + b
  {
  }

  lemma Cutting(s: seq<Byte>, b: seq<Byte>, n: nat)
    requires n <= |s|
    ensures (s + b)[..n] == s[..n] && (s + b)[n..] == s[n..] + b
  {
  }

  lemma {:induction false} RawVarintStays(s: seq<Byte>, left: nat, b: seq<Byte>)
    requires RawVarint(s, left).Some?
    ensures RawVarint(s + b, left) == Some((RawVarint(s, left).value.0, RawVarint(s, left).value.1 + b))
    decreases |s|
  {
    Further(s, b);
    if s[0] >= 0x80 { RawVarintStays(s[1..], left - 1, b); }
  }

  lemma {:induction false} LoopStays(s: seq<Byte>, result: nat, bitpos: nat, b: seq<Byte>)
    requires Varint32Loop(s, result, bitpos).Some?
    ensures Varint32Loop(s + b, result, bitpos)
            == Some((Varint32Loop(s, result, bitpos).value.0, Varint32Loop(s, result, bitpos).value.1 + b))
    decreases |s|
  {
    hide Pow2;
    Further(s, b);
    if s[0] >= 0x80 {
      var result' := if bitpos >= 32 then result else (result + s[0] % 0x80 * Pow2(bitpos)) % TWO32;
      LoopStays(s[1..], result', (bitpos + 7) % 0x100, b);
    }
  }

  lemma Varint32Stays(s: seq<Byte>, b: seq<Byte>)
    requires DecodeVarint32(s).Some?
    ensures DecodeVarint32(s + b) == Some((DecodeVarint32(s).value.0, DecodeVarint32(s).value.1 + b))
  {
    hide Varint32Loop;
    Further(s, b);
    if s[0] >= 0x80 { LoopStays(s[1..], s[0] - 0x80, 7, b); }
  }

  lemma {:induction false} SkipVarintStays(s: seq<Byte>, b: seq<Byte>)
    requires SkipVarint(s).Some?
    ensures SkipVarint(s + b) == Some(SkipVarint(s).value + b)
  {
    Further(s, b);
    if s[0] >= 0x80 { SkipVarintStays(s[1..], b); }
  }

  lemma SubstreamStays(s: seq<Byte>, b: seq<Byte>)
    requires Substream(s).Some?
    ensures Substream(s + b) == Some((Substream(s).value.0, Substream(s).value.1 + b))
  {
    Varint32Stays(s, b);
    var (size, rest) := DecodeVarint32(s).value;
    Cutting(rest, b, size);
  }

  lemma SkipStays(s: seq<Byte>, wireType: nat, b: seq<Byte>)
    requires SkipField(s, wireType).Some?
    ensures SkipField(s + b, wireType) == Some(SkipField(s, wireType).value + b)
  {
    if wireType == 0 {
      SkipVarintStays(s, b);
    } else if wireType == 2 {
      SubstreamStays(s, b);
    } else {
      Cutting(s, b, if wireType == 1 then 8 else 4);
    }
  }

  lemma ScalarStays(k: Kind, s: seq<Byte>, b: seq<Byte>)
    requires IsScalar(k) && DecodeScalar(k, s).Some?
    ensures DecodeScalar(k, s + b) == Some((DecodeScalar(k, s).value.0, DecodeScalar(k, s).value.1 + b))
  {
    hide RawVarint, FromLittleEndian, NarrowSigned;
    match k
    case BoolKind => Varint32Stays(s, b);
    case Fixed32Kind => Cutting(s, b, 4);
    case Fixed64Kind => Cutting(s, b, 8);
    case IntKind(_) => RawVarintStays(s, 10, b);
    case UIntKind(_) => RawVarintStays(s, 10, b);
    case SIntKind(_) => RawVarintStays(s, 10, b);
  }

  lemma BlobStays(k: Kind, s: seq<Byte>, b: seq<Byte>)
    requires IsBlob(k) && DecodeBlob(k, s).Some?
    ensures DecodeBlob(k, s + b) == Some((DecodeBlob(k, s).value.0, DecodeBlob(k, s).value.1 + b))
  {
    Varint32Stays(s, b);
    var (size, rest) := DecodeVarint32(s).value;
    if size <= |rest| { Cutting(rest, b, size); }
  }

  lemma ValueStays(k: Kind, init: Value, s: seq<Byte>, b: seq<Byte>)
    requires DecodeValue(k, init, s).Some?
    ensures DecodeValue(k, init, s + b) == Some((DecodeValue(k, init, s).value.0, DecodeValue(k, init, s).value.1 + b))
  {
    hide DecodeScalar, DecodeBlob, Substream, DecodeMessage;
    if IsScalar(k) {
      ScalarStays(k, s, b);
    } else if IsBlob(k) {
      BlobStays(k, s, b);
    } else {
      SubstreamStays(s, b);
    }
  }

  lemma ArrayStays(k: Kind, items: seq<Value>, max: nat, wireType: nat, s: seq<Byte>, b: seq<Byte>)
    requires DecodeArray(k, items, max, wireType, s).Some?
    ensures var (slot, rest) := DecodeArray(k, items, max, wireType, s).value;
            DecodeArray(k, items, max, wireType, s + b) == Some((slot, rest + b))
  {
    hide DecodeValue, Substream, DecodePacked;
    if wireType == 2 && IsScalar(k) {
      SubstreamStays(s, b);
    } else {
      ValueStays(k, DefaultValue(k, None), s, b);
    }
  }

  lemma SlotStays(f: Field, slot: Slot, wireType: nat, s: seq<Byte>, b: seq<Byte>)
    requires DecodeSlot(f, slot, wireType, s).Some?
    ensures var (slot', rest) := DecodeSlot(f, slot, wireType, s).value;
            DecodeSlot(f, slot, wireType, s + b) == Some((slot', rest + b))
  {
    hide DecodeValue, DecodeArray;
    match slot
    case Plain(v) => ValueStays(f.kind, v, s, b);
    case Flagged(_, v) => ValueStays(f.kind, v, s, b);
    case Choice(chosen) =>
      ValueStays(f.kind, if chosen.Some? then chosen.value else DefaultValue(f.kind, None), s, b);
    case Array(items) =>
      ArrayStays(f.kind, items, if f.rule.Repeated? then f.rule.max else f.rule.count, wireType, s, b);
  }

  lemma FieldStays(d: Desc, p: Progress, i: nat, wireType: nat, s: seq<Byte>, b: seq<Byte>)
    requires |p.slots| == |d.fields| && i < |d.fields| && DecodeField(d, p, i, wireType, s).Some?
    ensures var (p', rest) := DecodeField(d, p, i, wireType, s).value;
            DecodeField(d, p, i, wireType, s + b) == Some((p', rest + b))
  {
    hide DecodeSlot, RequiredBefore, Store;
    var f := d.fields[i];
    var starts := f.rule.FixedCount? && (p.fixed.None? || p.fixed.value.0 != i);
    SlotStays(f, if starts then Array([]) else p.slots[i], wireType, s, b);
  }

  lemma TagStays(s: seq<Byte>, b: seq<Byte>)
    requires DecodeTag(s).TagOf?
    ensures DecodeTag(s + b) == DecodeTag(s).(rest := DecodeTag(s).rest + b)
  {
    Varint32Stays(s, b);
  }

  // ---------------------------------------------------------------- one message after another

  /** The loop comes to the end of its input, not to a zero. */
  predicate ReadsAll(d: Desc, p: Progress, s: seq<Byte>)
    requires |p.slots| == |d.fields|
    decreases |s|
  {
    s == [] ||
    (DecodeTag(s).TagOf? &&
     var TagOf(tag, wireType, rest) := DecodeTag(s);
     match FindField(d, tag)
     case None => SkipField(rest, wireType).Some? && ReadsAll(d, p, SkipField(rest, wireType).value)
     case Some(i) =>
       match DecodeField(d, p, i, wireType, rest)
       case None => false
       case Some((p', left)) => ReadsAll(d, p', left))
  }

  /** Reading goes on where the first message ended, with what it has left behind. */
  lemma {:induction false} ReadsOn(d: Desc, p: Progress, a: seq<Byte>, b: seq<Byte>)
    requires |p.slots| == |d.fields| && ReadsAll(d, p, a)
    ensures DecodeLoop(d, p, a).Some? && DecodeLoop(d, p, a + b) == DecodeLoop(d, DecodeLoop(d, p, a).value, b)
    decreases |a|
  {
    hide DecodeField, SkipField, DecodeTag;
    if a == [] {
      assert a + b == b;
    } else {
      TagStays(a, b);
      var TagOf(tag, wireType, rest) := DecodeTag(a);
      match FindField(d, tag)
      case None =>
        SkipStays(rest, wireType, b);
        ReadsOn(d, p, SkipField(rest, wireType).value, b);
      case Some(i) =>
        FieldStays(d, p, i, wireType, rest, b);
        var (p', left) := DecodeField(d, p, i, wireType, rest).value;
        ReadsOn(d, p', left, b);
    }
  }

  /** A zero where a tag should be ends the message, whatever follows. */
  lemma ZeroEnds(d: Desc, p: Progress, a: seq<Byte>, b: seq<Byte>)
    requires |p.slots| == |d.fields| && ReadsAll(d, p, a)
    ensures DecodeLoop(d, p, a + ([0] + b)) == DecodeLoop(d, p, a)
  {
    ReadsOn(d, p, a, [0] + b);
    assert DecodeTag([0] + b) == Stop;
  }

  /** A varint where a tag should be that is cut off makes decoding fail. */
  lemma CutOffTag(d: Desc, p: Progress, a: seq<Byte>, b: Byte)
    requires |p.slots| == |d.fields| && ReadsAll(d, p, a) && b >= 0x80
    ensures DecodeLoop(d, p, a + [b]) == None
  {
    ReadsOn(d, p, a, [b]);
  }

  /** An array entry sent with its own tag is appended, whatever its kind; one too many is refused. */
  lemma EntryAppended(k: Kind, items: seq<Value>, max: nat, n: int, rest: seq<Byte>)
    requires IsScalar(k) && NumOk(k, n)
    ensures DecodeArray(k, items, max, WireType(k), EncodeScalar(k, n) + rest)
            == if |items| < max then Some((Array(items + [Num(n)]), rest)) else None
  {
    ScalarRoundTrip(k, n, rest);
  }
}
