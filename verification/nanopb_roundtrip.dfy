// Decoding what was encoded restores the message, up to what the wire does not carry.
module NanopbRoundTrip {
  import opened Basics
  import opened Varints
  import opened NanopbWire
  import opened NanopbScalars
  import opened NanopbMessages

  // ---------------------------------------------------------------- descriptors and stored messages

  /** Tags are distinct and fit a 32-bit key. */
  ghost predicate DescOk(d: Desc)
    decreases d, 1
  {
    && (forall i, j :: 0 <= i < j < |d.fields| ==> d.fields[i].tag != d.fields[j].tag)
    && forall i :: 0 <= i < |d.fields| ==> FieldOk(d.fields[i])
  }

  ghost predicate FieldOk(f: Field)
    decreases f, 1
  {
    1 <= f.tag < 0x2000_0000 && (f.kind.MessageKind? ==> DescOk(f.kind.desc))
  }

  /** What a C variable of this kind can hold. */
  ghost predicate ValueStored(k: Kind, v: Value)
    decreases k, 1
  {
    match v
    case Num(n) => NumOk(k, n)
    case Blob(b) => IsBlob(k) && BlobStored(k, b)
    case Struct(slots) => k.MessageKind? && |slots| == |k.desc.fields| && MessageStored(k.desc, slots)
  }

  ghost predicate SlotStored(f: Field, slot: Slot)
    decreases f, 1
  {
    match f.rule
    case Required => slot.Plain? && ValueStored(f.kind, slot.v)
    case Singular => slot.Plain? && ValueStored(f.kind, slot.v)
    case Optional => slot.Flagged? && (slot.has ==> ValueStored(f.kind, slot.v))
    case Repeated(_) => slot.Array? && forall i :: 0 <= i < |slot.items| ==> ValueStored(f.kind, slot.items[i])
    case FixedCount(n) => slot.Array? && |slot.items| == n && forall i :: 0 <= i < |slot.items| ==>
      ValueStored(f.kind, slot.items[i])
    case Oneof(_) => slot.Choice? && (slot.chosen.Some? ==> ValueStored(f.kind, slot.chosen.value))
  }

  /** A C struct, with at most one member of a union chosen. */
  ghost predicate MessageStored(d: Desc, slots: seq<Slot>)
    requires |slots| == |d.fields|
    decreases d, 1
  {
    && (forall i :: 0 <= i < |slots| ==> SlotStored(d.fields[i], slots[i]))
    && forall i, j :: 0 <= i < |slots| && 0 <= j < |slots| && Rivals(d, i, j) && Chosen(slots[i]) ==> !Chosen(slots[j])
  }

  /** Two different members of one union. */
  predicate Rivals(d: Desc, i: nat, j: nat)
    requires i < |d.fields| && j < |d.fields|
  {
    i != j && d.fields[i].rule.Oneof? && d.fields[j].rule == d.fields[i].rule
  }

  predicate Chosen(slot: Slot) {
    slot.Choice? && slot.chosen.Some?
  }

  // ---------------------------------------------------------------- conditions on a message

  /** Counts and byte arrays are within their bounds, wherever they are encoded. */
  predicate ValueFits(k: Kind, v: Value)
    decreases k, 1
  {
    match v
    case Num(_) => true
    case Blob(b) => k.BytesKind? ==> |b| <= k.max
    case Struct(slots) => k.MessageKind? && |slots| == |k.desc.fields| ==> Fits(k.desc, slots)
  }

  predicate SlotFits(f: Field, slot: Slot)
    decreases f, 1
  {
    IsDefaultSlot(f, slot) ||
    match slot
    case Plain(v) => ValueFits(f.kind, v)
    case Flagged(has, v) => has ==> ValueFits(f.kind, v)
    case Array(items) => (f.rule.Repeated? ==> |items| <= f.rule.max) && forall i :: 0 <= i < |items| ==>
      ValueFits(f.kind, items[i])
    case Choice(chosen) => chosen.Some? ==> ValueFits(f.kind, chosen.value)
  }

  predicate Fits(d: Desc, slots: seq<Slot>)
    requires |slots| == |d.fields|
    decreases d, 1
  {
    forall i :: 0 <= i < |slots| ==> SlotFits(d.fields[i], slots[i])
  }

  /** The bytes of a submessage and of a packed array, behind their length. */
  function BodySize(d: Desc, slots: seq<Slot>): nat
    requires |slots| == |d.fields|
  {
    match Encode(d, slots) case None => 0 case Some(bytes) => |bytes|
  }

  function PackedSize(k: Kind, items: seq<Value>): nat {
    match EncodeItems(k, items) case None => 0 case Some(bytes) => |bytes|
  }

  /** No string that is encoded fills its buffer, and nothing that is encoded behind its length takes 4 GB or more. */
  predicate ValueReadable(k: Kind, v: Value)
    decreases k, 1
  {
    match v
    case Num(_) => true
    case Blob(b) => |b| < TWO32 && (k.StringKind? ==> |b| < k.size)
    case Struct(slots) => k.MessageKind? && |slots| == |k.desc.fields| ==>
      Readable(k.desc, slots) && BodySize(k.desc, slots) < TWO32
  }

  predicate SlotReadable(f: Field, slot: Slot)
    decreases f, 4
  {
    IsDefaultSlot(f, slot) ||
    match slot
    case Plain(v) => ValueReadable(f.kind, v)
    case Flagged(has, v) => has ==> ValueReadable(f.kind, v)
    case Array(items) => ArrayReadable(f.kind, items)
    case Choice(chosen) => chosen.Some? ==> ValueReadable(f.kind, chosen.value)
  }

  predicate ArrayReadable(k: Kind, items: seq<Value>)
    decreases k, 3
  {
    ItemsReadable(k, items, 0) && (IsScalar(k) ==> PackedSize(k, items) < TWO32)
  }

  predicate ItemsReadable(k: Kind, items: seq<Value>, n: nat)
    decreases k, 2
  {
    forall i :: n <= i < |items| ==> ValueReadable(k, items[i])
  }

  predicate Readable(d: Desc, slots: seq<Slot>)
    requires |slots| == |d.fields|
    decreases d, 1
  {
    forall i :: 0 <= i < |slots| ==> SlotReadable(d.fields[i], slots[i])
  }

  /** The default a decoder starts from is zero: for a message, that of every field without presence. */
  predicate ZeroDefault(k: Kind, default: Option<Value>)
    decreases k, 1
  {
    if k.MessageKind? then
      forall i :: 0 <= i < |k.desc.fields| && k.desc.fields[i].rule.Singular? ==>
        ZeroDefault(k.desc.fields[i].kind, k.desc.fields[i].default)
    else
      default.None? || default.value == if IsScalar(k) then Num(0) else Blob([])
  }

  /** No field without presence holds zero over a default that is not zero, wherever a message is encoded. */
  predicate ValueZerosKept(k: Kind, v: Value)
    decreases k, 1
  {
    v.Struct? && k.MessageKind? && |v.slots| == |k.desc.fields| ==> ZerosKept(k.desc, v.slots)
  }

  predicate SlotZerosKept(f: Field, slot: Slot)
    decreases f, 1
  {
    match slot
    case Plain(v) => if IsDefaultSlot(f, slot) then ZeroDefault(f.kind, f.default) else ValueZerosKept(f.kind, v)
    case Flagged(has, v) => has ==> ValueZerosKept(f.kind, v)
    case Array(items) => forall i :: 0 <= i < |items| ==> ValueZerosKept(f.kind, items[i])
    case Choice(chosen) => chosen.Some? ==> ValueZerosKept(f.kind, chosen.value)
  }

  predicate ZerosKept(d: Desc, slots: seq<Slot>)
    requires |slots| == |d.fields|
    decreases d, 1
  {
    forall i :: 0 <= i < |slots| ==> SlotZerosKept(d.fields[i], slots[i])
  }

  // ---------------------------------------------------------------- what survives the wire

  function CanonValue(k: Kind, v: Value): Value
    decreases k, 1
  {
    if v.Struct? && k.MessageKind? && |v.slots| == |k.desc.fields| then Struct(CanonSlots(k.desc, v.slots)) else v
  }

  function CanonItems(k: Kind, items: seq<Value>): seq<Value>
    decreases k, 2
  {
    seq(|items|, i requires 0 <= i < |items| => CanonValue(k, items[i]))
  }

  /** The message itself, but for what the wire does not carry: absent optional fields and unchosen union members are at
      their defaults. */
  function CanonSlot(f: Field, slot: Slot): Slot
    decreases f, 2
  {
    match slot
    case Plain(v) => Plain(CanonValue(f.kind, v))
    case Flagged(has, v) => if has then Flagged(true, CanonValue(f.kind, v)) else DefaultSlot(f)
    case Array(items) => Array(CanonItems(f.kind, items))
    case Choice(chosen) => if chosen.Some? then Choice(Some(CanonValue(f.kind, chosen.value))) else slot
  }

  function CanonSlots(d: Desc, slots: seq<Slot>): (r: seq<Slot>)
    requires |slots| == |d.fields|
    ensures |r| == |slots|
    decreases d, 3
  {
    seq(|slots|, i requires 0 <= i < |slots| => CanonSlot(d.fields[i], slots[i]))
  }

  function SeenValue(k: Kind, v: Value): Value
    decreases k, 1
  {
    if v.Struct? && k.MessageKind? && |v.slots| == |k.desc.fields| then Struct(SeenSlots(k.desc, v.slots)) else v
  }

  function SeenItems(k: Kind, items: seq<Value>): seq<Value>
    decreases k, 2
  {
    seq(|items|, i requires 0 <= i < |items| => SeenValue(k, items[i]))
  }

  /** What a decoder sees: a field that was not written is at its default, whatever it held. */
  function SeenSlot(f: Field, slot: Slot): Slot
    decreases f, 2
  {
    if IsDefaultSlot(f, slot) then DefaultSlot(f)
    else
      match slot
      case Plain(v) => Plain(SeenValue(f.kind, v))
      case Flagged(has, v) => Flagged(has, SeenValue(f.kind, v))
      case Array(items) => Array(SeenItems(f.kind, items))
      case Choice(chosen) => if chosen.Some? then Choice(Some(SeenValue(f.kind, chosen.value))) else slot
  }

  function SeenSlots(d: Desc, slots: seq<Slot>): (r: seq<Slot>)
    requires |slots| == |d.fields|
    ensures |r| == |slots|
    decreases d, 3
  {
    seq(|slots|, i requires 0 <= i < |slots| => SeenSlot(d.fields[i], slots[i]))
  }

  /** Decoded up to field `i`: what was sent before it, still the default from it on. */
  function Mixed(d: Desc, slots: seq<Slot>, i: nat): (r: seq<Slot>)
    requires |slots| == |d.fields|
    ensures |r| == |slots|
  {
    seq(|slots|, j requires 0 <= j < |slots| => if j < i then SeenSlot(d.fields[j], slots[j])
        else DefaultSlot(d.fields[j]))
  }

  // ---------------------------------------------------------------- one step of the decoding loop

  lemma TagReads(tag: nat, wireType: nat, rest: seq<Byte>)
    requires 1 <= tag < 0x2000_0000 && wireType < 8
    ensures DecodeTag(Tag(tag, wireType) + rest) == TagOf(tag, wireType, rest)
  {
    Varint32RoundTrip(tag * 8 + wireType, rest);
  }

  lemma FoundField(d: Desc, i: nat)
    requires DescOk(d) && i < |d.fields|
    ensures FindField(d, d.fields[i].tag) == Some(i)
  {
    var r := FindField(d, d.fields[i].tag);
    assert r.Some?;
  }

  lemma LoopStep(d: Desc, p: Progress, i: nat, wireType: nat, s: seq<Byte>)
    requires DescOk(d) && |p.slots| == |d.fields| && i < |d.fields| && wireType < 8
    ensures DecodeLoop(d, p, Tag(d.fields[i].tag, wireType) + s)
            == match DecodeField(d, p, i, wireType, s) case None => None
              case Some((p', left)) => DecodeLoop(d, p', left)
  {
    assert FieldOk(d.fields[i]);
    TagReads(d.fields[i].tag, wireType, s);
    FoundField(d, i);
  }

  // ---------------------------------------------------------------- one field

  ghost predicate FixedBefore(d: Desc, fixed: Option<(nat, nat)>, i: nat) {
    FixedComplete(d, fixed) && (fixed.Some? ==> fixed.value.0 < i)
  }

  /** The fields before `i` have been read back. */
  ghost predicate ReadUpTo(d: Desc, slots: seq<Slot>, i: nat, p: Progress)
    requires |slots| == |d.fields| && i <= |slots|
  {
    p.slots == Mixed(d, slots, i) && p.seen == RequiredSeen(d, i) && FixedBefore(d, p.fixed, i)
  }

  function FixedAfter(f: Field, slot: Slot, i: nat, fixed: Option<(nat, nat)>): Option<(nat, nat)> {
    if f.rule.FixedCount? && slot.Array? && slot.items != [] then Some((i, |slot.items|)) else fixed
  }

  function After(d: Desc, slots: seq<Slot>, i: nat, p: Progress): Progress
    requires |slots| == |d.fields| && i < |slots|
  {
    Progress(Mixed(d, slots, i + 1), RequiredSeen(d, i + 1), FixedAfter(d.fields[i], slots[i], i, p.fixed))
  }

  lemma AfterIsRead(d: Desc, slots: seq<Slot>, i: nat, p: Progress)
    requires |slots| == |d.fields| && i < |slots| && ReadUpTo(d, slots, i, p) && SlotStored(d.fields[i], slots[i])
    ensures ReadUpTo(d, slots, i + 1, After(d, slots, i, p))
  {
  }

  /** Storing what was sent of field `i` advances the mixture by one. */
  lemma StoreAdvances(d: Desc, slots: seq<Slot>, i: nat)
    requires |slots| == |d.fields| && i < |slots| && MessageStored(d, slots)
    requires d.fields[i].rule.Oneof? ==> Chosen(slots[i])
    ensures Store(d, Mixed(d, slots, i), i, SeenSlot(d.fields[i], slots[i])) == Mixed(d, slots, i + 1)
  {
    forall j | 0 <= j < |slots| && j != i && d.fields[i].rule.Oneof? && d.fields[j].rule == d.fields[i].rule
      ensures Mixed(d, slots, i + 1)[j] == Choice(None)
    {
      assert Rivals(d, i, j) && SlotStored(d.fields[j], slots[j]);
    }
  }

  /** An absent field is already as it is seen. */
  lemma SkipAdvances(d: Desc, slots: seq<Slot>, i: nat, p: Progress)
    requires |slots| == |d.fields| && i < |slots| && ReadUpTo(d, slots, i, p)
    requires SeenSlot(d.fields[i], slots[i]) == DefaultSlot(d.fields[i]) && !d.fields[i].rule.Required?
    requires slots[i].Array? ==> slots[i].items == []
    ensures After(d, slots, i, p) == p
  {
    assert Mixed(d, slots, i + 1) == Mixed(d, slots, i);
    assert RequiredBefore(d, i + 1) == RequiredBefore(d, i);
  }

  function PresentValue(slot: Slot): Value
    requires slot.Plain? || slot.Flagged? || Chosen(slot)
  {
    if slot.Choice? then slot.chosen.value else slot.v
  }

  /** A field that writes one value. */
  predicate Present(f: Field, slot: Slot) {
    !IsDefaultSlot(f, slot) && (slot.Plain? || (slot.Flagged? && slot.has) || Chosen(slot))
  }

  /** What a present, unrepeated field decodes into once its value does. */
  lemma SingleReads(d: Desc, slots: seq<Slot>, i: nat, p: Progress, s: seq<Byte>, rest: seq<Byte>, ok: bool)
    requires |slots| == |d.fields| && i < |slots| && MessageStored(d, slots) && ReadUpTo(d, slots, i, p)
    requires Present(d.fields[i], slots[i])
    requires var f := d.fields[i];
             DecodeValue(f.kind, DefaultValue(f.kind, if f.rule.Oneof? then None else f.default), s)
             == if ok then Some((SeenValue(f.kind, PresentValue(slots[i])), rest)) else None
    ensures DecodeField(d, p, i, WireType(d.fields[i].kind), s)
            == if ok then Some((After(d, slots, i, p), rest)) else None
  {
    var f := d.fields[i];
    assert SlotStored(f, slots[i]);
    assert p.slots[i] == DefaultSlot(f);
    StoreAdvances(d, slots, i);
    RequiredStep(d, i);
    assert DecodeSlot(f, p.slots[i], WireType(f.kind), s) == if ok then Some((SeenSlot(f, slots[i]), rest)) else None;
  }

  lemma RequiredStep(d: Desc, i: nat)
    requires i < |d.fields|
    ensures RequiredSeen(d, i + 1)
            == if d.fields[i].rule.Required? && RequiredBefore(d, i) < MAX_REQUIRED_FIELDS
               then RequiredSeen(d, i) + {RequiredBefore(d, i)} else RequiredSeen(d, i)
  {
  }

  // ---------------------------------------------------------------- arrays

  /** A field that writes the entries of an array. */
  predicate Listed(f: Field, slot: Slot) {
    slot.Array? && slot.items != []
      && ((f.rule.Repeated? && |slot.items| <= f.rule.max) || f.rule == FixedCount(|slot.items|))
  }

  /** The first `n` entries of the array field `i` have been read. */
  function Partway(d: Desc, slots: seq<Slot>, i: nat, p: Progress, n: nat): Progress
    requires |slots| == |d.fields| && i < |slots| && slots[i].Array? && n <= |slots[i].items|
  {
    var f := d.fields[i];
    Progress(Mixed(d, slots, i)[i := Array(SeenItems(f.kind, slots[i].items[..n]))], RequiredSeen(d, i),
             FixedAfter(f, Array(slots[i].items[..n]), i, p.fixed))
  }

  lemma PartwayEnds(d: Desc, slots: seq<Slot>, i: nat, p: Progress)
    requires |slots| == |d.fields| && i < |slots| && Listed(d.fields[i], slots[i]) && ReadUpTo(d, slots, i, p)
    ensures Partway(d, slots, i, p, 0) == p && Partway(d, slots, i, p, |slots[i].items|) == After(d, slots, i, p)
  {
    var items := slots[i].items;
    assert items[..0] == [] && items[..|items|] == items;
    assert SeenItems(d.fields[i].kind, []) == [];
    RequiredStep(d, i);
    assert Mixed(d, slots, i)[i := Array([])] == Mixed(d, slots, i);
    assert Mixed(d, slots, i)[i := SeenSlot(d.fields[i], slots[i])] == Mixed(d, slots, i + 1);
  }

  /** One entry with its own tag. */
  lemma EntryReads(d: Desc, slots: seq<Slot>, i: nat, p: Progress, n: nat, s: seq<Byte>, rest: seq<Byte>, ok: bool)
    requires |slots| == |d.fields| && i < |slots| && Listed(d.fields[i], slots[i]) && n < |slots[i].items|
    requires ReadUpTo(d, slots, i, p) && !IsScalar(d.fields[i].kind)
    requires var k := d.fields[i].kind;
             DecodeValue(k, DefaultValue(k, None), s)
               == if ok then Some((SeenValue(k, slots[i].items[n]), rest)) else None
    ensures DecodeField(d, Partway(d, slots, i, p, n), i, WireType(d.fields[i].kind), s)
            == if ok then Some((Partway(d, slots, i, p, n + 1), rest)) else None
  {
    var f, items := d.fields[i], slots[i].items;
    var part := Partway(d, slots, i, p, n);
    var slot' := Array(SeenItems(f.kind, items[..n + 1]));
    assert SeenItems(f.kind, items[..n]) + [SeenValue(f.kind, items[n])] == SeenItems(f.kind, items[..n + 1]);
    assert n == 0 ==> SeenItems(f.kind, items[..n]) == [];
    assert part.slots[i] == Array(SeenItems(f.kind, items[..n]));
    var max := if f.rule.Repeated? then f.rule.max else f.rule.count;
    assert DecodeArray(f.kind, SeenItems(f.kind, items[..n]), max, WireType(f.kind), s)
           == if ok then Some((slot', rest)) else None;
    assert Store(d, part.slots, i, slot') == Mixed(d, slots, i)[i := slot'];
  }

  /** A whole packed array. */
  lemma BlockReads(d: Desc, slots: seq<Slot>, i: nat, p: Progress, data: seq<Byte>, rest: seq<Byte>)
    requires |slots| == |d.fields| && i < |slots| && Listed(d.fields[i], slots[i]) && ReadUpTo(d, slots, i, p)
    requires IsScalar(d.fields[i].kind) && |data| < SIZE_LIMIT
    requires forall v :: v in slots[i].items ==> v.Num?
    requires forall max: nat :: max >= |slots[i].items| ==>
             DecodePacked(d.fields[i].kind, [], max, data) == Some(slots[i].items)
    ensures DecodeField(d, p, i, 2, Delimited(data) + rest)
            == if |data| < TWO32 then Some((After(d, slots, i, p), rest)) else None
  {
    var f, items := d.fields[i], slots[i].items;
    var max := if f.rule.Repeated? then f.rule.max else f.rule.count;
    assert SeenItems(f.kind, items) == items;
    assert SeenSlot(f, slots[i]) == slots[i] && p.slots[i] == Array([]);
    if |data| >= TWO32 {
      DelimitedOverflows(data, rest);
      assert DecodeArray(f.kind, [], max, 2, Delimited(data) + rest) == None;
      return;
    }
    DelimitedReads(data, rest);
    assert DecodeArray(f.kind, [], max, 2, Delimited(data) + rest) == Some((slots[i], rest));
    assert Store(d, p.slots, i, slots[i]) == Mixed(d, slots, i + 1);
    RequiredStep(d, i);
  }

  lemma {:induction false} PackedReads(k: Kind, items: seq<Value>, n: nat, max: nat)
    requires IsScalar(k) && n <= |items| <= max && (forall i :: 0 <= i < |items| ==> ValueStored(k, items[i]))
    requires EncodeItems(k, items[n..]).Some?
    ensures DecodePacked(k, items[..n], max, EncodeItems(k, items[n..]).value) == Some(items)
    decreases |items| - n
  {
    if n == |items| {
      assert items[n..] == [] && items[..n] == items;
    } else {
      var left := items[n..];
      var head, tail := EncodeValue(k, left[0]).value, EncodeItems(k, left[1..]).value;
      assert left[0] == items[n] && left[1..] == items[n + 1..];
      assert ValueStored(k, items[n]);
      ScalarRoundTrip(k, items[n].n, tail);
      ScalarNotEmpty(k, items[n].n);
      PackedReads(k, items, n + 1, max);
      assert items[..n] + [items[n]] == items[..n + 1];
    }
  }

  lemma ScalarNotEmpty(k: Kind, n: int)
    requires NumOk(k, n)
    ensures EncodeScalar(k, n) != []
  {
  }

  // ---------------------------------------------------------------- when encoding succeeds

  lemma {:induction false} ValueEncodes(k: Kind, v: Value)
    requires ValueStored(k, v)
    ensures EncodeValue(k, v).Some? <==> ValueFits(k, v)
    decreases k, 1
  {
    if v.Struct? {
      FieldsEncode(k.desc, v.slots, 0);
    }
  }

  lemma {:induction false} ItemsEncode(k: Kind, tag: nat, items: seq<Value>)
    requires forall i :: 0 <= i < |items| ==> ValueStored(k, items[i])
    ensures EncodeItems(k, items).Some? <==> forall i :: 0 <= i < |items| ==> ValueFits(k, items[i])
    ensures EncodeTagged(k, tag, items).Some? <==> forall i :: 0 <= i < |items| ==> ValueFits(k, items[i])
    decreases k, 2, |items|
  {
    if items != [] {
      ValueEncodes(k, items[0]);
      ItemsEncode(k, tag, items[1..]);
      assert forall i :: 0 < i < |items| ==> items[i] == items[1..][i - 1];
    }
  }

  lemma {:induction false} SlotEncodes(f: Field, slot: Slot)
    requires SlotStored(f, slot)
    ensures EncodeSlot(f, slot).Some? <==> SlotFits(f, slot)
    decreases f, 2
  {
    match slot
    case Plain(v) => ValueEncodes(f.kind, v);
    case Flagged(has, v) => if has { ValueEncodes(f.kind, v); }
    case Array(items) => ItemsEncode(f.kind, f.tag, items);
    case Choice(chosen) => if chosen.Some? { ValueEncodes(f.kind, chosen.value); }
  }

  lemma {:induction false} FieldsEncode(d: Desc, slots: seq<Slot>, i: nat)
    requires |slots| == |d.fields| && i <= |slots| && MessageStored(d, slots)
    ensures EncodeFrom(d, slots, i).Some? <==> forall j :: i <= j < |slots| ==> SlotFits(d.fields[j], slots[j])
    decreases d, 3, |slots| - i
  {
    if i < |slots| {
      SlotEncodes(d.fields[i], slots[i]);
      FieldsEncode(d, slots, i + 1);
    }
  }

  // ---------------------------------------------------------------- what decoding does

  lemma BlobReads(k: Kind, b: seq<Byte>, rest: seq<Byte>)
    requires IsBlob(k) && BlobStored(k, b) && EncodeBlob(k, b).Some? && |EncodeBlob(k, b).value| < SIZE_LIMIT
    ensures DecodeBlob(k, EncodeBlob(k, b).value + rest) == if ValueReadable(k, Blob(b)) then Some((b, rest)) else None
  {
    assert EncodeBlob(k, b) == Some(Delimited(b)) && |b| < SIZE_LIMIT;
    if |b| >= TWO32 {
      DelimitedOverflows(b, rest);
    } else if k.StringKind? && |b| == k.size {
      UnterminatedString(b, k.size, rest);
    } else {
      BlobRoundTrip(k, b, rest);
    }
  }

  /** A value is read back as it is seen; one that is not readable makes the decoder fail. */
  lemma {:induction false} ValueReads(k: Kind, v: Value, init: Value, rest: seq<Byte>)
    requires ValueStored(k, v) && EncodeValue(k, v).Some? && |EncodeValue(k, v).value| < SIZE_LIMIT
    requires k.MessageKind? ==> DescOk(k.desc) && init == Struct(Defaults(k.desc))
    ensures DecodeValue(k, init, EncodeValue(k, v).value + rest)
            == if ValueReadable(k, v) then Some((SeenValue(k, v), rest)) else None
    decreases k, 1, 0
  {
    match v
    case Num(n) => ScalarRoundTrip(k, n, rest);
    case Blob(b) => BlobReads(k, b, rest);
    case Struct(slots) =>
      var body := EncodeFrom(k.desc, slots, 0).value;
      if |body| < TWO32 {
        MessageReads(k.desc, slots);
        DelimitedReads(body, rest);
      } else {
        DelimitedOverflows(body, rest);
      }
  }

  /** The entries of an unpacked array are read back one by one. */
  lemma {:induction false} EntriesRead(d: Desc, slots: seq<Slot>, i: nat, p: Progress, n: nat, rest: seq<Byte>)
    requires DescOk(d) && |slots| == |d.fields| && i < |slots| && ReadUpTo(d, slots, i, p)
    requires SlotStored(d.fields[i], slots[i]) && Listed(d.fields[i], slots[i]) && n <= |slots[i].items|
    requires !IsScalar(d.fields[i].kind)
    requires var f := d.fields[i];
             EncodeTagged(f.kind, f.tag, slots[i].items[n..]).Some?
               && |EncodeTagged(f.kind, f.tag, slots[i].items[n..]).value| < SIZE_LIMIT
    ensures var f := d.fields[i];
            DecodeLoop(d, Partway(d, slots, i, p, n), EncodeTagged(f.kind, f.tag, slots[i].items[n..]).value + rest)
            == if ItemsReadable(f.kind, slots[i].items, n)
              then DecodeLoop(d, Partway(d, slots, i, p, |slots[i].items|), rest) else None
    decreases d, 1, |slots[i].items| - n
  {
    var f, items := d.fields[i], slots[i].items;
    if n == |items| {
      assert items[n..] == [] && EncodeTagged(f.kind, f.tag, []).value + rest == rest;
    } else {
      var left := items[n..];
      assert left[0] == items[n] && left[1..] == items[n + 1..];
      var wt := WireType(f.kind);
      var head, tail := EncodeValue(f.kind, left[0]).value, EncodeTagged(f.kind, f.tag, left[1..]).value;
      EntryBytes(Tag(f.tag, wt), head, tail, rest, EncodeTagged(f.kind, f.tag, left).value);
      assert FieldOk(f) && ValueStored(f.kind, items[n]);
      ValueReads(f.kind, items[n], DefaultValue(f.kind, None), tail + rest);
      EntryReads(d, slots, i, p, n, head + (tail + rest), tail + rest, ValueReadable(f.kind, items[n]));
      LoopStep(d, Partway(d, slots, i, p, n), i, wt, head + (tail + rest));
      EntriesRead(d, slots, i, p, n + 1, rest);
    }
  }

  lemma EntryBytes(tag: seq<Byte>, head: seq<Byte>, tail: seq<Byte>, rest: seq<Byte>, all: seq<Byte>)
    requires all == (tag + head) + tail
    ensures all + rest == tag + (head + (tail + rest)) && |head| <= |all| && |tail| <= |all|
  {
  }

  /** A packed array field is read back. */
  lemma PackedField(d: Desc, slots: seq<Slot>, i: nat, p: Progress, data: seq<Byte>, rest: seq<Byte>)
    requires DescOk(d) && |slots| == |d.fields| && i < |slots| && ReadUpTo(d, slots, i, p)
    requires SlotStored(d.fields[i], slots[i]) && Listed(d.fields[i], slots[i])
    requires IsScalar(d.fields[i].kind) && EncodeItems(d.fields[i].kind, slots[i].items) == Some(data)
             && |data| < SIZE_LIMIT
    ensures DecodeLoop(d, p, Tag(d.fields[i].tag, 2) + (Delimited(data) + rest))
            == if |data| < TWO32 then DecodeLoop(d, After(d, slots, i, p), rest) else None
  {
    var f, items := d.fields[i], slots[i].items;
    assert items[0..] == items && items[..0] == [];
    forall max: nat | max >= |items|
      ensures DecodePacked(f.kind, [], max, data) == Some(items) { PackedReads(f.kind, items, 0, max); }
    forall v | v in items ensures v.Num? { ScalarStored(f.kind, v); }
    BlockReads(d, slots, i, p, data, rest);
    LoopStep(d, p, i, 2, Delimited(data) + rest);
  }

  lemma ScalarStored(k: Kind, v: Value)
    requires IsScalar(k) && ValueStored(k, v)
    ensures v.Num? && ValueReadable(k, v)
  {
  }

  /** An array field is read back. */
  lemma {:induction false} ArrayField(d: Desc, slots: seq<Slot>, i: nat, p: Progress, bytes: seq<Byte>, rest: seq<Byte>)
    requires DescOk(d) && |slots| == |d.fields| && i < |slots| && ReadUpTo(d, slots, i, p)
    requires SlotStored(d.fields[i], slots[i]) && Listed(d.fields[i], slots[i])
    requires EncodeArray(d.fields[i].kind, d.fields[i].tag, slots[i].items) == Some(bytes) && |bytes| < SIZE_LIMIT
    ensures DecodeLoop(d, p, bytes + rest)
            == if ArrayReadable(d.fields[i].kind, slots[i].items) then DecodeLoop(d, After(d, slots, i, p), rest)
              else None
    decreases d, 2, 0
  {
    var f, items := d.fields[i], slots[i].items;
    if IsScalar(f.kind) {
      var data := EncodeItems(f.kind, items).value;
      Regrouped(Tag(f.tag, 2), Delimited(data), rest, bytes);
      PackedField(d, slots, i, p, data, rest);
      forall v | v in items ensures ValueReadable(f.kind, v) { ScalarStored(f.kind, v); }
    } else {
      assert items[0..] == items;
      PartwayEnds(d, slots, i, p);
      EntriesRead(d, slots, i, p, 0, rest);
    }
  }

  /** A field that writes nothing needs nothing. */
  lemma AbsentField(d: Desc, slots: seq<Slot>, i: nat, p: Progress)
    requires |slots| == |d.fields| && i < |slots| && MessageStored(d, slots) && ReadUpTo(d, slots, i, p)
    requires IsDefaultSlot(d.fields[i], slots[i]) || slots[i] == Array([])
    ensures EncodeSlot(d.fields[i], slots[i]) == Some([]) && After(d, slots, i, p) == p
    ensures SlotReadable(d.fields[i], slots[i])
  {
    assert SlotStored(d.fields[i], slots[i]);
    SkipAdvances(d, slots, i, p);
  }

  lemma PresentBytes(f: Field, slot: Slot)
    requires SlotStored(f, slot) && !slot.Array? && !IsDefaultSlot(f, slot)
    ensures Present(f, slot) && ValueStored(f.kind, PresentValue(slot))
    ensures EncodeSlot(f, slot) == Then(Some(Tag(f.tag, WireType(f.kind))), EncodeValue(f.kind, PresentValue(slot)))
    ensures SlotReadable(f, slot) <==> ValueReadable(f.kind, PresentValue(slot))
  {
  }

  /** A present, unrepeated field is read back. */
  lemma {:induction false} PresentField(d: Desc, slots: seq<Slot>, i: nat, p: Progress, bytes: seq<Byte>,
                                        rest: seq<Byte>)
    requires DescOk(d) && |slots| == |d.fields| && i < |slots| && MessageStored(d, slots) && ReadUpTo(d, slots, i, p)
    requires !slots[i].Array? && !IsDefaultSlot(d.fields[i], slots[i])
    requires EncodeSlot(d.fields[i], slots[i]) == Some(bytes) && |bytes| < SIZE_LIMIT
    ensures DecodeLoop(d, p, bytes + rest)
            == if SlotReadable(d.fields[i], slots[i]) then DecodeLoop(d, After(d, slots, i, p), rest) else None
    decreases d, 2, 0
  {
    var f, slot := d.fields[i], slots[i];
    assert SlotStored(f, slot) && FieldOk(f);
    PresentBytes(f, slot);
    var v := PresentValue(slot);
    var value := EncodeValue(f.kind, v).value;
    Regrouped(Tag(f.tag, WireType(f.kind)), value, rest, bytes);
    ValueReads(f.kind, v, DefaultValue(f.kind, if f.rule.Oneof? then None else f.default), rest);
    SingleReads(d, slots, i, p, value + rest, rest, SlotReadable(f, slot));
    LoopStep(d, p, i, WireType(f.kind), value + rest);
  }

  lemma Regrouped(a: seq<Byte>, b: seq<Byte>, c: seq<Byte>, ab: seq<Byte>)
    requires ab == a + b
    ensures ab + c == a + (b + c) && |b| <= |ab|
  {
  }

  /** Whatever field `i` wrote is consumed by the decoding loop, which then stands after field `i`; it fails exactly if
      the field is not readable. */
  lemma {:induction false} FieldReads(d: Desc, slots: seq<Slot>, i: nat, p: Progress, bytes: seq<Byte>, rest: seq<Byte>)
    requires DescOk(d) && |slots| == |d.fields| && i < |slots| && MessageStored(d, slots) && ReadUpTo(d, slots, i, p)
    requires EncodeSlot(d.fields[i], slots[i]) == Some(bytes) && |bytes| < SIZE_LIMIT
    ensures DecodeLoop(d, p, bytes + rest)
            == if SlotReadable(d.fields[i], slots[i]) then DecodeLoop(d, After(d, slots, i, p), rest) else None
    decreases d, 3, 0
  {
    var f, slot := d.fields[i], slots[i];
    assert SlotStored(f, slot);
    if slot.Array? && slot.items != [] {
      ArrayBytes(f, slot);
      ArrayField(d, slots, i, p, bytes, rest);
    } else if slot.Array? || IsDefaultSlot(f, slot) {
      AbsentField(d, slots, i, p);
      assert bytes + rest == rest;
    } else {
      PresentField(d, slots, i, p, bytes, rest);
    }
  }

  lemma ArrayBytes(f: Field, slot: Slot)
    requires SlotStored(f, slot) && slot.Array? && slot.items != [] && EncodeSlot(f, slot).Some?
    ensures Listed(f, slot) && EncodeSlot(f, slot) == EncodeArray(f.kind, f.tag, slot.items)
    ensures SlotReadable(f, slot) <==> ArrayReadable(f.kind, slot.items)
  {
  }

  ghost predicate ReadableFrom(d: Desc, slots: seq<Slot>, i: nat)
    requires |slots| == |d.fields|
  {
    forall j :: i <= j < |slots| ==> SlotReadable(d.fields[j], slots[j])
  }

  lemma LoopEnds(d: Desc, p: Progress)
    requires |p.slots| == |d.fields|
    ensures DecodeLoop(d, p, []) == Some(p)
  {
  }

  /** The loop reads the fields from `i` on. */
  lemma {:induction false} FieldsRead(d: Desc, slots: seq<Slot>, i: nat, p: Progress) returns (end: Progress)
    requires DescOk(d) && |slots| == |d.fields| && i <= |slots| && MessageStored(d, slots) && ReadUpTo(d, slots, i, p)
    requires EncodeFrom(d, slots, i).Some? && |EncodeFrom(d, slots, i).value| < SIZE_LIMIT
    ensures DecodeLoop(d, p, EncodeFrom(d, slots, i).value) == if ReadableFrom(d, slots, i) then Some(end) else None
    ensures ReadUpTo(d, slots, |slots|, end)
    decreases d, 4, |slots| - i
  {
    hide DecodeLoop, EncodeSlot, SlotStored, SlotReadable, After;
    if i == |slots| {
      LoopEnds(d, p);
      end := p;
    } else {
      var first, tail := EncodeSlot(d.fields[i], slots[i]).value, EncodeFrom(d, slots, i + 1).value;
      FieldReads(d, slots, i, p, first, tail);
      assert SlotStored(d.fields[i], slots[i]);
      AfterIsRead(d, slots, i, p);
      end := FieldsRead(d, slots, i + 1, After(d, slots, i, p));
    }
  }

  lemma {:induction false} MessageReads(d: Desc, slots: seq<Slot>)
    requires DescOk(d) && |slots| == |d.fields| && MessageStored(d, slots)
    requires Encode(d, slots).Some? && |Encode(d, slots).value| < SIZE_LIMIT
    ensures DecodeMessage(d, Defaults(d), Encode(d, slots).value)
            == if Readable(d, slots) then Some(SeenSlots(d, slots)) else None
    decreases d, 5, 0
  {
    assert Mixed(d, slots, 0) == Defaults(d);
    var end := FieldsRead(d, slots, 0, Progress(Defaults(d), {}, None));
    assert Mixed(d, slots, |slots|) == SeenSlots(d, slots);
  }

  // ---------------------------------------------------------------- when nothing is lost

  lemma {:induction false} ZeroSeen(k: Kind, v: Value, default: Option<Value>)
    requires ValueStored(k, v) && IsDefaultValue(k, v)
    ensures CanonValue(k, v) == DefaultValue(k, default) <==> ZeroDefault(k, default)
    decreases k, 1
  {
    match v
    case Num(n) =>
    case Blob(b) =>
      if k.FixedBytesKind? { assert Zero(k) == Blob([]); }
    case Struct(slots) =>
      var d := k.desc;
      forall i | 0 <= i < |slots|
        ensures CanonSlots(d, slots)[i] == Defaults(d)[i]
                <==> (d.fields[i].rule.Singular? ==> ZeroDefault(d.fields[i].kind, d.fields[i].default))
      {
        assert IsDefaultSlot(d.fields[i], slots[i]) && SlotStored(d.fields[i], slots[i]);
        DefaultSlotSeen(d.fields[i], slots[i]);
      }
      SameSlots(CanonSlots(d, slots), Defaults(d));
      assert CanonValue(k, v) == DefaultValue(k, default) <==> CanonSlots(d, slots) == Defaults(d);
  }

  lemma SameSlots(a: seq<Slot>, b: seq<Slot>)
    requires |a| == |b|
    ensures a == b <==> forall i :: 0 <= i < |a| ==> a[i] == b[i]
  {
  }

  /** A field that is not written comes back as it was exactly if it has presence or its default is zero. */
  lemma {:induction false} DefaultSlotSeen(f: Field, slot: Slot)
    requires SlotStored(f, slot) && IsDefaultSlot(f, slot)
    ensures CanonSlot(f, slot) == DefaultSlot(f) <==> (f.rule.Singular? ==> ZeroDefault(f.kind, f.default))
    decreases f, 1
  {
    if f.rule.Singular? {
      ZeroSeen(f.kind, slot.v, f.default);
    }
  }

  lemma {:induction false} ValueSeen(k: Kind, v: Value)
    requires ValueStored(k, v)
    ensures SeenValue(k, v) == CanonValue(k, v) <==> ValueZerosKept(k, v)
    decreases k, 1
  {
    if v.Struct? {
      MessageSeen(k.desc, v.slots);
    }
  }

  lemma {:induction false} SlotSeen(f: Field, slot: Slot)
    requires SlotStored(f, slot)
    ensures SeenSlot(f, slot) == CanonSlot(f, slot) <==> SlotZerosKept(f, slot)
    decreases f, 2
  {
    match slot
    case Plain(v) =>
      if IsDefaultSlot(f, slot) { DefaultSlotSeen(f, slot); } else { ValueSeen(f.kind, v); }
    case Flagged(has, v) => if has { ValueSeen(f.kind, v); }
    case Array(items) =>
      forall i | 0 <= i < |items|
        ensures SeenItems(f.kind, items)[i] == CanonItems(f.kind, items)[i] <==> ValueZerosKept(f.kind, items[i])
      {
        ValueSeen(f.kind, items[i]);
      }
      ItemsSeen(f.kind, items);
    case Choice(chosen) => if chosen.Some? { ValueSeen(f.kind, chosen.value); }
  }

  lemma ItemsSeen(k: Kind, items: seq<Value>)
    ensures SeenItems(k, items) == CanonItems(k, items)
            <==> forall i :: 0 <= i < |items| ==> SeenItems(k, items)[i] == CanonItems(k, items)[i]
  {
  }

  lemma {:induction false} MessageSeen(d: Desc, slots: seq<Slot>)
    requires |slots| == |d.fields| && MessageStored(d, slots)
    ensures SeenSlots(d, slots) == CanonSlots(d, slots) <==> ZerosKept(d, slots)
    decreases d, 3
  {
    forall i | 0 <= i < |slots|
      ensures SeenSlots(d, slots)[i] == CanonSlots(d, slots)[i] <==> SlotZerosKept(d.fields[i], slots[i])
    {
      SlotSeen(d.fields[i], slots[i]);
    }
    SameSlots(SeenSlots(d, slots), CanonSlots(d, slots));
  }

  // ---------------------------------------------------------------- the round trip

  /** For distinct tags and any stored message: encoding succeeds exactly if everything fits, and decoding then yields
      what was sent, or fails exactly if some string that was sent fills its buffer or some block takes 4 GB or more. */
  lemma DecodeAfterEncode(d: Desc, slots: seq<Slot>)
    requires DescOk(d) && |slots| == |d.fields| && MessageStored(d, slots)
    ensures Encode(d, slots).Some? <==> Fits(d, slots)
    ensures Encode(d, slots).Some? && |Encode(d, slots).value| < SIZE_LIMIT ==>
              Decode(d, Encode(d, slots).value) == if Readable(d, slots) then Some(SeenSlots(d, slots)) else None
  {
    FieldsEncode(d, slots, 0);
    if Encode(d, slots).Some? && |Encode(d, slots).value| < SIZE_LIMIT {
      MessageReads(d, slots);
    }
  }

  /** Decoding restores the message, up to absent optional fields and unchosen union members, exactly if no string that
      was sent fills its buffer, no block takes 4 GB or more, and no field without presence holds zero over a default
      that is not zero. */
  lemma MessageRoundTrip(d: Desc, slots: seq<Slot>)
    requires DescOk(d) && |slots| == |d.fields| && MessageStored(d, slots)
    requires Encode(d, slots).Some? && |Encode(d, slots).value| < SIZE_LIMIT
    ensures Decode(d, Encode(d, slots).value) == Some(CanonSlots(d, slots))
            <==> Readable(d, slots) && ZerosKept(d, slots)
  {
    DecodeAfterEncode(d, slots);
    MessageSeen(d, slots);
  }

  // ---------------------------------------------------------------- messages that do not survive

  lemma OneField(f: Field, slot: Slot)
    requires 1 <= f.tag < 0x2000_0000 && !f.kind.MessageKind? && SlotStored(f, slot) && !slot.Choice?
    ensures DescOk(Desc([f])) && MessageStored(Desc([f]), [slot])
    ensures Encode(Desc([f]), [slot]) == EncodeSlot(f, slot)
  {
    var d, slots, none: seq<Byte> := Desc([f]), [slot], [];
    assert d.fields[0] == f && SlotStored(d.fields[0], slots[0]);
    assert EncodeFrom(d, slots, 1) == Some(none);
    if EncodeSlot(f, slot).Some? {
      assert EncodeSlot(f, slot).value + none == EncodeSlot(f, slot).value;
    }
  }

  /** Without presence, a zero cannot be told from a default that is not zero. */
  lemma ZeroHidesDefault(tag: nat, n: int)
    requires 1 <= tag < 0x2000_0000 && n != 0 && InSigned(4, n)
    ensures var d := Desc([Field(tag, Singular, IntKind(4), Some(Num(n)))]);
            Encode(d, [Plain(Num(0))]) == Some([]) && Decode(d, []) == Some([Plain(Num(n))])
  {
    var f, slot := Field(tag, Singular, IntKind(4), Some(Num(n))), Plain(Num(0));
    OneField(f, slot);
    assert IsDefaultSlot(f, slot);
    DecodeAfterEncode(Desc([f]), [slot]);
    assert Readable(Desc([f]), [slot]);
    assert SeenSlots(Desc([f]), [slot]) == [DefaultSlot(f)];
  }

  /** A string that fills its buffer is sent and then refused. */
  lemma FullStringIsRefused(tag: nat, b: seq<Byte>)
    requires 1 <= tag < 0x2000_0000 && b != [] && NoZero(b)
    ensures var d := Desc([Field(tag, Required, StringKind(|b|), None)]);
            && Encode(d, [Plain(Blob(b))]) == Some(Tag(tag, 2) + Delimited(b))
            && (|Tag(tag, 2) + Delimited(b)| < SIZE_LIMIT ==> Decode(d, Tag(tag, 2) + Delimited(b)) == None)
  {
    var f, slot := Field(tag, Required, StringKind(|b|), None), Plain(Blob(b));
    OneField(f, slot);
    assert EncodeSlot(f, slot) == Then(Some(Tag(tag, 2)), EncodeValue(f.kind, slot.v));
    DecodeAfterEncode(Desc([f]), [slot]);
    assert !SlotReadable(Desc([f]).fields[0], [slot][0]);
  }

  /** A block of 4 GB or more is sent and then refused. */
  lemma LargeBlockIsRefused(tag: nat, b: seq<Byte>)
    requires 1 <= tag < 0x2000_0000 && |b| >= TWO32
    ensures var d := Desc([Field(tag, Required, BytesKind(|b|), None)]);
            && Encode(d, [Plain(Blob(b))]) == Some(Tag(tag, 2) + Delimited(b))
            && (|Tag(tag, 2) + Delimited(b)| < SIZE_LIMIT ==> Decode(d, Tag(tag, 2) + Delimited(b)) == None)
  {
    var f, slot := Field(tag, Required, BytesKind(|b|), None), Plain(Blob(b));
    OneField(f, slot);
    assert EncodeSlot(f, slot) == Then(Some(Tag(tag, 2)), EncodeValue(f.kind, slot.v));
    DecodeAfterEncode(Desc([f]), [slot]);
    assert !SlotReadable(Desc([f]).fields[0], [slot][0]);
  }
}
