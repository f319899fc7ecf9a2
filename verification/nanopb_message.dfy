// Whole messages in nanopb: pb_encode and pb_decode over a tree of descriptors, as functions.
module NanopbMessages {
  import opened Basics
  import opened Varints
  import opened NanopbWire
  import opened NanopbScalars

  const MAX_REQUIRED_FIELDS := 64

  // ---------------------------------------------------------------- defaults

  function Zero(k: Kind): Value {
    if IsScalar(k) then Num(0) else if k.FixedBytesKind? then Blob(seq(k.size, _ => 0)) else Blob([])
  }

  /** pb_field_set_to_default and pb_message_set_to_defaults. */
  function DefaultValue(k: Kind, default: Option<Value>): Value
    decreases k, 1
  {
    if k.MessageKind? then Struct(Defaults(k.desc)) else if default.Some? then default.value else Zero(k)
  }

  function DefaultSlot(f: Field): Slot
    decreases f, 1
  {
    match f.rule
    case Required => Plain(DefaultValue(f.kind, f.default))
    case Singular => Plain(DefaultValue(f.kind, f.default))
    case Optional => Flagged(false, DefaultValue(f.kind, f.default))
    case Repeated(_) => Array([])
    case FixedCount(_) => Array([])
    case Oneof(_) => Choice(None)
  }

  function Defaults(d: Desc): (slots: seq<Slot>)
    ensures |slots| == |d.fields|
    decreases d, 1
  {
    seq(|d.fields|, i requires 0 <= i < |d.fields| => DefaultSlot(d.fields[i]))
  }

  // ---------------------------------------------------------------- encoding

  function WireType(k: Kind): nat {
    if k.Fixed32Kind? then 5 else if k.Fixed64Kind? then 1 else if IsScalar(k) then 0 else 2
  }

  /** pb_encode_tag. */
  function Tag(tag: nat, wireType: nat): seq<Byte> {
    Varint(tag * 8 + wireType)
  }

  function Then(a: Option<seq<Byte>>, b: Option<seq<Byte>>): Option<seq<Byte>> {
    if a.Some? && b.Some? then Some(a.value + b.value) else None
  }

  /** PB_ENCODERS; None where the encoder fails. */
  function EncodeValue(k: Kind, v: Value): Option<seq<Byte>>
    decreases k, 1
  {
    match v
    case Num(n) => if NumOk(k, n) then Some(EncodeScalar(k, n)) else None
    case Blob(b) => if IsBlob(k) && BlobStored(k, b) then EncodeBlob(k, b) else None
    case Struct(slots) =>
      if !k.MessageKind? || |slots| != |k.desc.fields| then None
      else
        match EncodeFrom(k.desc, slots, 0)
        case None => None
        case Some(bytes) => Some(Delimited(bytes))
  }

  /** The data of a packed array. */
  function EncodeItems(k: Kind, items: seq<Value>): Option<seq<Byte>>
    decreases k, 2, |items|
  {
    if items == [] then Some([]) else Then(EncodeValue(k, items[0]), EncodeItems(k, items[1..]))
  }

  /** An unpacked array: every entry has its own tag. */
  function EncodeTagged(k: Kind, tag: nat, items: seq<Value>): Option<seq<Byte>>
    decreases k, 2, |items|
  {
    if items == [] then Some([])
    else Then(Then(Some(Tag(tag, WireType(k))), EncodeValue(k, items[0])), EncodeTagged(k, tag, items[1..]))
  }

  /** encode_array: scalars are always packed. */
  function EncodeArray(k: Kind, tag: nat, items: seq<Value>): Option<seq<Byte>>
    decreases k, 3
  {
    if items == [] then Some([])
    else if IsScalar(k) then
      match EncodeItems(k, items)
      case None => None
      case Some(data) => Some(Tag(tag, 2) + Delimited(data))
    else EncodeTagged(k, tag, items)
  }

  /** pb_check_proto3_default_value for one value. */
  function IsDefaultValue(k: Kind, v: Value): bool
    decreases k, 1
  {
    match v
    case Num(n) => n == 0
    case Blob(b) => b == []
    case Struct(slots) => k.MessageKind? && |slots| == |k.desc.fields|
                          && forall i :: 0 <= i < |slots| ==> IsDefaultSlot(k.desc.fields[i], slots[i])
  }

  /** ... and for a field.  A union is at its default when no member is chosen. */
  function IsDefaultSlot(f: Field, slot: Slot): bool
    decreases f, 1
  {
    match slot
    case Plain(v) => f.rule.Singular? && IsDefaultValue(f.kind, v)
    case Flagged(has, _) => !has
    case Array(items) => f.rule.Repeated? && items == []
    case Choice(chosen) => chosen.None?
  }

  /** encode_basic_field. */
  function EncodeSlot(f: Field, slot: Slot): Option<seq<Byte>>
    decreases f, 2
  {
    var tag := Tag(f.tag, WireType(f.kind));
    match (f.rule, slot)
    case (Required, Plain(v)) => Then(Some(tag), EncodeValue(f.kind, v))
    case (Singular, Plain(v)) => if IsDefaultSlot(f, slot) then Some([]) else Then(Some(tag), EncodeValue(f.kind, v))
    case (Optional, Flagged(has, v)) => if has then Then(Some(tag), EncodeValue(f.kind, v)) else Some([])
    case (Repeated(max), Array(items)) => if |items| > max then None else EncodeArray(f.kind, f.tag, items)
    case (FixedCount(n), Array(items)) => if |items| != n then None else EncodeArray(f.kind, f.tag, items)
    case (Oneof(_), Choice(chosen)) =>
      if chosen.Some? then Then(Some(tag), EncodeValue(f.kind, chosen.value)) else Some([])
    case _ => None
  }

  /** pb_encode, from field `i` on. */
  function EncodeFrom(d: Desc, slots: seq<Slot>, i: nat): Option<seq<Byte>>
    requires |slots| == |d.fields| && i <= |slots|
    decreases d, 3, |slots| - i
  {
    if i == |slots| then Some([]) else Then(EncodeSlot(d.fields[i], slots[i]), EncodeFrom(d, slots, i + 1))
  }

  function Encode(d: Desc, slots: seq<Slot>): Option<seq<Byte>>
    requires |slots| == |d.fields|
  {
    EncodeFrom(d, slots, 0)
  }

  // ---------------------------------------------------------------- decoding

  datatype TagRead = Stop | Bad | TagOf(tag: nat, wireType: nat, rest: seq<Byte>)

  /** pb_decode_tag: a zero ends the message. */
  function DecodeTag(s: seq<Byte>): (r: TagRead)
    ensures r.TagOf? ==> |r.rest| < |s|
  {
    match DecodeVarint32(s)
    case None => Bad
    case Some((temp, rest)) => if temp == 0 then Stop else TagOf(temp / 8, temp % 8, rest)
  }

  function SkipVarint(s: seq<Byte>): (r: Option<seq<Byte>>)
    ensures r.Some? ==> |r.value| <= |s|
  {
    if s == [] then None else if s[0] < 0x80 then Some(s[1..]) else SkipVarint(s[1..])
  }

  function SkipBytes(s: seq<Byte>, n: nat): (r: Option<seq<Byte>>)
    ensures r.Some? ==> |r.value| <= |s|
  {
    if |s| < n then None else Some(s[n..])
  }

  /** pb_skip_field. */
  function SkipField(s: seq<Byte>, wireType: nat): (r: Option<seq<Byte>>)
    ensures r.Some? ==> |r.value| <= |s|
  {
    if wireType == 0 then SkipVarint(s)
    else if wireType == 1 then SkipBytes(s, 8)
    else if wireType == 2 then
      (match Substream(s) case None => None case Some((_, rest)) => Some(rest))
    else if wireType == 5 then SkipBytes(s, 4)
    else None
  }

  /** pb_field_iter_find, for descriptors without repeated tags. */
  function FindField(d: Desc, tag: nat): (r: Option<nat>)
    ensures r.Some? ==> r.value < |d.fields| && d.fields[r.value].tag == tag
    ensures r.None? ==> forall i :: 0 <= i < |d.fields| ==> d.fields[i].tag != tag
  {
    if exists i :: 0 <= i < |d.fields| && d.fields[i].tag == tag then FindFrom(d, tag, 0) else None
  }

  function FindFrom(d: Desc, tag: nat, i: nat): (r: Option<nat>)
    requires i <= |d.fields| && exists j :: i <= j < |d.fields| && d.fields[j].tag == tag
    ensures r.Some? && r.value < |d.fields| && d.fields[r.value].tag == tag
    decreases |d.fields| - i
  {
    if d.fields[i].tag == tag then Some(i) else FindFrom(d, tag, i + 1)
  }

  /** The number of required fields before field `i`: required_field_index of the iterator. */
  function RequiredBefore(d: Desc, i: nat): nat
    requires i <= |d.fields|
  {
    if i == 0 then 0 else RequiredBefore(d, i - 1) + if d.fields[i - 1].rule.Required? then 1 else 0
  }

  /** Where decoding of a message stands: `fixed` is the fixed-count array last seen, with its count so far. */
  datatype Progress = Progress(slots: seq<Slot>, seen: set<nat>, fixed: Option<(nat, nat)>)

  /** PB_DECODERS; `init` is what a submessage held before. */
  function DecodeValue(k: Kind, init: Value, s: seq<Byte>): (r: Option<(Value, seq<Byte>)>)
    ensures r.Some? ==> |r.value.1| < |s|
    decreases k, 1, 0
  {
    if IsScalar(k) then
      match DecodeScalar(k, s) case None => None case Some((n, rest)) => Some((Num(n), rest))
    else if IsBlob(k) then
      match DecodeBlob(k, s) case None => None case Some((b, rest)) => Some((Blob(b), rest))
    else if !init.Struct? || |init.slots| != |k.desc.fields| then None
    else
      match Substream(s)
      case None => None
      case Some((body, rest)) =>
        match DecodeMessage(k.desc, init.slots, body)
        case None => None
        case Some(slots) => Some((Struct(slots), rest))
  }

  /** The packed branch of decode_static_field: an array that does not use up its substream overflows. */
  function DecodePacked(k: Kind, items: seq<Value>, max: nat, s: seq<Byte>): Option<seq<Value>>
    decreases k, 2, |s|
  {
    if s == [] then Some(items)
    else if |items| >= max then None
    else
      match DecodeValue(k, Zero(k), s)
      case None => None
      case Some((v, rest)) => DecodePacked(k, items + [v], max, rest)
  }

  /** decode_static_field for the two repeated rules. */
  function DecodeArray(k: Kind, items: seq<Value>, max: nat, wireType: nat,
                       s: seq<Byte>): (r: Option<(Slot, seq<Byte>)>)
    ensures r.Some? ==> |r.value.1| <= |s|
    decreases k, 3, 0
  {
    if wireType == 2 && IsScalar(k) then
      match Substream(s)
      case None => None
      case Some((body, rest)) =>
        (match DecodePacked(k, items, max, body)
         case None => None
         case Some(all) => Some((Array(all), rest)))
    else if |items| >= max then None
    else
      match DecodeValue(k, DefaultValue(k, None), s)
      case None => None
      case Some((v, rest)) => Some((Array(items + [v]), rest))
  }

  /** decode_static_field. */
  function DecodeSlot(f: Field, slot: Slot, wireType: nat, s: seq<Byte>): (r: Option<(Slot, seq<Byte>)>)
    ensures r.Some? ==> |r.value.1| <= |s|
    decreases f, 2, 0
  {
    match (f.rule, slot)
    case (Required, Plain(v)) => MapSlot(DecodeValue(f.kind, v, s), f.rule)
    case (Singular, Plain(v)) => MapSlot(DecodeValue(f.kind, v, s), f.rule)
    case (Optional, Flagged(_, v)) => MapSlot(DecodeValue(f.kind, v, s), f.rule)
    case (Oneof(_), Choice(chosen)) =>
      MapSlot(DecodeValue(f.kind, if chosen.Some? then chosen.value else DefaultValue(f.kind, None), s), f.rule)
    case (Repeated(max), Array(items)) => DecodeArray(f.kind, items, max, wireType, s)
    case (FixedCount(n), Array(items)) => DecodeArray(f.kind, items, n, wireType, s)
    case _ => None
  }

  function MapSlot(r: Option<(Value, seq<Byte>)>, rule: Rule): Option<(Slot, seq<Byte>)> {
    match r
    case None => None
    case Some((v, rest)) =>
      Some((if rule.Optional? then Flagged(true, v) else if rule.Oneof? then Choice(Some(v)) else Plain(v), rest))
  }

  /** Storing a member of a union takes the other members away. */
  function Store(d: Desc, slots: seq<Slot>, i: nat, slot: Slot): (r: seq<Slot>)
    requires |slots| == |d.fields| && i < |slots|
    ensures |r| == |slots|
  {
    seq(|slots|, j requires 0 <= j < |slots| =>
      if j == i then slot else if d.fields[i].rule.Oneof? && d.fields[j].rule == d.fields[i].rule then Choice(None)
        else slots[j])
  }

  /** Whether the fixed-count array seen last is complete. */
  predicate FixedComplete(d: Desc, fixed: Option<(nat, nat)>) {
    fixed.Some? ==> fixed.value.0 < |d.fields| && d.fields[fixed.value.0].rule == FixedCount(fixed.value.1)
  }

  /** One field of the loop in pb_decode_noinit, after its tag. */
  function DecodeField(d: Desc, p: Progress, i: nat, wireType: nat, s: seq<Byte>): (r: Option<(Progress, seq<Byte>)>)
    requires |p.slots| == |d.fields| && i < |d.fields|
    ensures r.Some? ==> |r.value.0.slots| == |d.fields| && |r.value.1| <= |s|
    decreases d, 1, 0
  {
    var f := d.fields[i];
    var starts := f.rule.FixedCount? && (p.fixed.None? || p.fixed.value.0 != i);
    if starts && !FixedComplete(d, p.fixed) then None
    else
      match DecodeSlot(f, if starts then Array([]) else p.slots[i], wireType, s)
      case None => None
      case Some((slot, rest)) =>
        var fixed := if f.rule.FixedCount? && slot.Array? then Some((i, |slot.items|)) else p.fixed;
        var seen := if f.rule.Required? && RequiredBefore(d, i) < MAX_REQUIRED_FIELDS
          then p.seen + {RequiredBefore(d, i)} else p.seen;
        Some((Progress(Store(d, p.slots, i, slot), seen, fixed), rest))
  }

  function DecodeLoop(d: Desc, p: Progress, s: seq<Byte>): (r: Option<Progress>)
    requires |p.slots| == |d.fields|
    ensures r.Some? ==> |r.value.slots| == |d.fields|
    decreases d, 2, |s|
  {
    if s == [] then Some(p)
    else
      match DecodeTag(s)
      case Bad => None
      case Stop => Some(p)
      case TagOf(tag, wireType, rest) =>
        match FindField(d, tag)
        case None =>
          (match SkipField(rest, wireType)
           case None => None
           case Some(left) => DecodeLoop(d, p, left))
        case Some(i) =>
          match DecodeField(d, p, i, wireType, rest)
          case None => None
          case Some((p', left)) => DecodeLoop(d, p', left)
  }

  function UpTo(n: nat): set<nat> {
    if n == 0 then {} else UpTo(n - 1) + {n - 1}
  }

  /** The required fields before field `i` that are tracked. */
  function RequiredSeen(d: Desc, i: nat): set<nat>
    requires i <= |d.fields|
  {
    UpTo(if RequiredBefore(d, i) < MAX_REQUIRED_FIELDS then RequiredBefore(d, i) else MAX_REQUIRED_FIELDS)
  }

  /** pb_decode_noinit. */
  function DecodeMessage(d: Desc, slots: seq<Slot>, s: seq<Byte>): (r: Option<seq<Slot>>)
    requires |slots| == |d.fields|
    ensures r.Some? ==> |r.value| == |d.fields|
    decreases d, 3, 0
  {
    match DecodeLoop(d, Progress(slots, {}, None), s)
    case None => None
    case Some(p) => if FixedComplete(d, p.fixed) && p.seen == RequiredSeen(d, |d.fields|) then Some(p.slots) else None
  }

  /** pb_decode. */
  function Decode(d: Desc, s: seq<Byte>): Option<seq<Slot>> {
    DecodeMessage(d, Defaults(d), s)
  }
}
