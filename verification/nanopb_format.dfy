// What nanopb writes, in the terms of the Protocol Buffers "Encoding" document: a message is a sequence of records,
// each a field number, a wire type and a payload.  A decoder passes over the records of fields it does not know.
module NanopbFormat {
  import opened Basics
  import opened Varints
  import opened NanopbWire
  import opened NanopbScalars
  import opened NanopbMessages
  import opened NanopbRoundTrip

  datatype Payload =
    | VarintPayload(n: nat)
    | Fixed64Payload(n: nat)
    | BytesPayload(bytes: seq<Byte>)
    | Fixed32Payload(n: nat)

  datatype Record = Record(number: nat, payload: Payload)

  /** The wire types of the document. */
  function WireNumber(p: Payload): (n: nat)
    ensures n < 8
  {
    match p
    case VarintPayload(_) => 0
    case Fixed64Payload(_) => 1
    case BytesPayload(_) => 2
    case Fixed32Payload(_) => 5
  }

  function PayloadBytes(p: Payload): seq<Byte> {
    match p
    case VarintPayload(n) => Varint(n)
    case Fixed64Payload(n) => LittleEndian(n, 8)
    case BytesPayload(bytes) => Varint(|bytes|) + bytes
    case Fixed32Payload(n) => LittleEndian(n, 4)
  }

  function RecordBytes(r: Record): seq<Byte> {
    Varint(8 * r.number + WireNumber(r.payload)) + PayloadBytes(r.payload)
  }

  function Wire(rs: seq<Record>): seq<Byte> {
    if rs == [] then [] else RecordBytes(rs[0]) + Wire(rs[1..])
  }

  /** Seven bits a byte, lowest first, as few bytes as possible; the high bit says that more follow. */
  lemma {:induction false} VarintDigits(n: nat, j: nat)
    requires j < |Varint(n)|
    ensures Varint(n)[j] == n / Pow128(j) % 0x80 + if j < |Varint(n)| - 1 then 0x80 else 0
    ensures n < Pow128(|Varint(n)|) && (n > 0 ==> n >= Pow128(|Varint(n)| - 1))
    decreases n
  {
    if n >= 0x80 {
      VarintSplit(n);
      VarintDigits(n / 0x80, if j == 0 then 0 else j - 1);
      if j > 0 {
        DivideTwice(n, 0x80, Pow128(j - 1));
      }
    } else {
      assert Pow128(1) == 0x80;
    }
  }

  lemma DivideTwice(n: nat, a: nat, b: nat)
    requires a > 0 && b > 0
    ensures a * b > 0 && n / (a * b) == n / a / b
  {
    var q, r, low := n / a / b, n / a % b, n % a;
    assert n / a == b * q + r;
    Spread(a, b * q, r);
    Associate(a, b, q);
    AtLeastOnce(a, b - r);
    Spread(a, b - r, r);
    Quotient(n, a * b, q, a * r + low);
  }

  lemma Spread(m: int, x: int, y: int)
    ensures m * (x + y) == m * x + m * y
  {
  }

  lemma Associate(x: int, y: int, z: int)
    ensures x * (y * z) == x * y * z
  {
  }

  lemma AtLeastOnce(m: int, x: int)
    requires m >= 0
    ensures x >= 1 ==> m * x >= m
    ensures x <= -1 ==> m * x <= -m
  {
  }

  lemma Quotient(n: nat, m: nat, q: int, r: nat)
    requires r < m && n == m * q + r
    ensures n / m == q
  {
    var d, low := n / m, n % m;
    assert n == m * d + low;
    Spread(m, d - q, q);
    AtLeastOnce(m, d - q);
  }

  /** Fixed-width numbers, lowest byte first. */
  lemma {:induction false} LittleEndianDigits(n: nat, k: nat, j: nat)
    requires j < k
    ensures |LittleEndian(n, k)| == k && Pow256(j) > 0 && LittleEndian(n, k)[j] == n / Pow256(j) % 0x100
    decreases j
  {
    if j > 0 {
      LittleEndianDigits(n / 0x100, k - 1, j - 1);
      DivideTwice(n, 0x100, Pow256(j - 1));
    }
  }

  // ---------------------------------------------------------------- the records of a message

  /** Negative numbers take all 64 bits, or alternate with the others. */
  function ScalarPayload(k: Kind, n: int): Payload
    requires NumOk(k, n)
  {
    match k
    case BoolKind => VarintPayload(n)
    case IntKind(_) => VarintPayload(if n < 0 then n + TWO64 else n)
    case UIntKind(_) => VarintPayload(n)
    case SIntKind(_) => VarintPayload(if n < 0 then -2 * n - 1 else 2 * n)
    case Fixed32Kind => Fixed32Payload(n)
    case Fixed64Kind => Fixed64Payload(n)
  }

  ghost function PayloadOf(k: Kind, v: Value): Payload
    requires ValueStored(k, v)
    decreases k, 1
  {
    match v
    case Num(n) => ScalarPayload(k, n)
    case Blob(b) => BytesPayload(b)
    case Struct(slots) => BytesPayload(Wire(MessageRecords(k.desc, slots, 0)))
  }

  /** A packed array is one block of the payloads of its entries. */
  ghost function Packed(k: Kind, items: seq<Value>): seq<Byte>
    requires forall i :: 0 <= i < |items| ==> ValueStored(k, items[i])
    decreases k, 2, |items|
  {
    if items == [] then [] else PayloadBytes(PayloadOf(k, items[0])) + Packed(k, items[1..])
  }

  ghost function EntryRecords(k: Kind, tag: nat, items: seq<Value>): seq<Record>
    requires forall i :: 0 <= i < |items| ==> ValueStored(k, items[i])
    decreases k, 2, |items|
  {
    if items == [] then [] else [Record(tag, PayloadOf(k, items[0]))] + EntryRecords(k, tag, items[1..])
  }

  ghost function SlotRecords(f: Field, slot: Slot): seq<Record>
    requires SlotStored(f, slot)
    decreases f, 2
  {
    match slot
    case Plain(v) => if IsDefaultSlot(f, slot) then [] else [Record(f.tag, PayloadOf(f.kind, v))]
    case Flagged(has, v) => if has then [Record(f.tag, PayloadOf(f.kind, v))] else []
    case Choice(chosen) => if chosen.Some? then [Record(f.tag, PayloadOf(f.kind, chosen.value))] else []
    case Array(items) =>
      if items == [] then []
      else if IsScalar(f.kind) then [Record(f.tag, BytesPayload(Packed(f.kind, items)))]
      else EntryRecords(f.kind, f.tag, items)
  }

  /** The records of the fields from `i` on. */
  ghost function MessageRecords(d: Desc, slots: seq<Slot>, i: nat): seq<Record>
    requires |slots| == |d.fields| && i <= |slots| && MessageStored(d, slots)
    decreases d, 3, |slots| - i
  {
    if i == |slots| then [] else SlotRecords(d.fields[i], slots[i]) + MessageRecords(d, slots, i + 1)
  }

  lemma {:induction false} WireAdd(a: seq<Record>, b: seq<Record>)
    ensures Wire(a + b) == Wire(a) + Wire(b)
  {
    if a == [] {
      assert a + b == b;
    } else {
      assert (a + b)[1..] == a[1..] + b;
      WireAdd(a[1..], b);
    }
  }

  lemma WireOne(r: Record)
    ensures Wire([r]) == RecordBytes(r)
  {
    assert [r][1..] == [];
    assert RecordBytes(r) + [] == RecordBytes(r);
  }

  lemma ScalarBytes(k: Kind, n: int)
    requires NumOk(k, n)
    ensures EncodeScalar(k, n) == PayloadBytes(ScalarPayload(k, n))
    ensures WireNumber(ScalarPayload(k, n)) == WireType(k)
  {
    if k.IntKind? {
      assert n % TWO64 == if n < 0 then n + TWO64 else n;
    }
  }

  lemma {:induction false} ValueBytes(k: Kind, v: Value)
    requires ValueStored(k, v) && EncodeValue(k, v).Some?
    ensures EncodeValue(k, v).value == PayloadBytes(PayloadOf(k, v)) && WireNumber(PayloadOf(k, v)) == WireType(k)
    decreases k, 1
  {
    match v
    case Num(n) => ScalarBytes(k, n);
    case Blob(b) =>
    case Struct(slots) => FieldBytes(k.desc, slots, 0);
  }

  lemma {:induction false} PackedBytes(k: Kind, items: seq<Value>)
    requires (forall i :: 0 <= i < |items| ==> ValueStored(k, items[i])) && EncodeItems(k, items).Some?
    ensures EncodeItems(k, items).value == Packed(k, items)
    decreases k, 2, |items|
  {
    if items != [] {
      ValueBytes(k, items[0]);
      PackedBytes(k, items[1..]);
    }
  }

  lemma {:induction false} EntryWire(k: Kind, tag: nat, items: seq<Value>)
    requires (forall i :: 0 <= i < |items| ==> ValueStored(k, items[i])) && EncodeTagged(k, tag, items).Some?
    ensures EncodeTagged(k, tag, items).value == Wire(EntryRecords(k, tag, items))
    decreases k, 2, |items|
  {
    if items != [] {
      ValueBytes(k, items[0]);
      EntryWire(k, tag, items[1..]);
      assert EntryRecords(k, tag, items)[1..] == EntryRecords(k, tag, items[1..]);
    }
  }

  lemma {:induction false} SlotBytes(f: Field, slot: Slot)
    requires SlotStored(f, slot) && EncodeSlot(f, slot).Some?
    ensures EncodeSlot(f, slot).value == Wire(SlotRecords(f, slot))
    decreases f, 2
  {
    if slot.Array? {
      if slot.items != [] {
        if IsScalar(f.kind) {
          PackedBytes(f.kind, slot.items);
          WireOne(Record(f.tag, BytesPayload(Packed(f.kind, slot.items))));
        } else {
          EntryWire(f.kind, f.tag, slot.items);
        }
      }
    } else if !IsDefaultSlot(f, slot) {
      PresentBytes(f, slot);
      ValueBytes(f.kind, PresentValue(slot));
      WireOne(Record(f.tag, PayloadOf(f.kind, PresentValue(slot))));
    }
  }

  lemma {:induction false} FieldBytes(d: Desc, slots: seq<Slot>, i: nat)
    requires |slots| == |d.fields| && i <= |slots| && MessageStored(d, slots) && EncodeFrom(d, slots, i).Some?
    ensures EncodeFrom(d, slots, i).value == Wire(MessageRecords(d, slots, i))
    decreases d, 3, |slots| - i
  {
    if i < |slots| {
      SlotBytes(d.fields[i], slots[i]);
      FieldBytes(d, slots, i + 1);
      WireAdd(SlotRecords(d.fields[i], slots[i]), MessageRecords(d, slots, i + 1));
    }
  }

  /** An encoded message is the wire form of its records. */
  lemma EncodedAsRecords(d: Desc, slots: seq<Slot>)
    requires |slots| == |d.fields| && MessageStored(d, slots) && Encode(d, slots).Some?
    ensures Encode(d, slots).value == Wire(MessageRecords(d, slots, 0))
  {
    FieldBytes(d, slots, 0);
  }

  // ---------------------------------------------------------------- fields the decoder does not know

  /** A payload with less than 4 GB behind its length. */
  predicate Carried(p: Payload) {
    p.BytesPayload? ==> |p.bytes| < TWO32
  }

  predicate AllCarried(rs: seq<Record>) {
    forall i :: 0 <= i < |rs| ==> Carried(rs[i].payload)
  }

  lemma {:induction false} VarintSkipped(n: nat, rest: seq<Byte>)
    ensures SkipVarint(Varint(n) + rest) == Some(rest)
    decreases n
  {
    var s := Varint(n) + rest;
    if n < 0x80 {
      assert s[1..] == rest;
    } else {
      VarintSplit(n);
      assert s[0] == n % 0x80 + 0x80 && s[1..] == Varint(n / 0x80) + rest;
      VarintSkipped(n / 0x80, rest);
    }
  }

  /** Wire type 1 skips eight bytes, wire type 5 four, whatever they are. */
  lemma FixedSkipped(body: seq<Byte>, rest: seq<Byte>)
    ensures |body| == 8 ==> SkipField(body + rest, 1) == Some(rest)
    ensures |body| == 4 ==> SkipField(body + rest, 5) == Some(rest)
    ensures |body| < 8 ==> SkipField(body, 1) == None
    ensures |body| < 4 ==> SkipField(body, 5) == None
  {
    assert (body + rest)[|body|..] == rest;
  }

  /** A payload is skipped to its end by its wire type. */
  lemma PayloadSkipped(p: Payload, rest: seq<Byte>)
    requires |PayloadBytes(p)| < SIZE_LIMIT
    ensures SkipField(PayloadBytes(p) + rest, WireNumber(p)) == if Carried(p) then Some(rest) else None
  {
    match p
    case VarintPayload(n) => VarintSkipped(n, rest);
    case Fixed64Payload(n) => FixedSkipped(LittleEndian(n, 8), rest);
    case BytesPayload(b) =>
      if |b| < TWO32 { DelimitedReads(b, rest); } else { DelimitedOverflows(b, rest); }
    case Fixed32Payload(n) => FixedSkipped(LittleEndian(n, 4), rest);
  }

  /** The descriptor has no field of this number. */
  predicate Unknown(d: Desc, number: nat) {
    forall i :: 0 <= i < |d.fields| ==> d.fields[i].tag != number
  }

  lemma UnknownRecord(d: Desc, p: Progress, r: Record, rest: seq<Byte>)
    requires |p.slots| == |d.fields| && 1 <= r.number < 0x2000_0000 && Unknown(d, r.number)
    requires |PayloadBytes(r.payload)| < SIZE_LIMIT
    ensures DecodeLoop(d, p, RecordBytes(r) + rest) == if Carried(r.payload) then DecodeLoop(d, p, rest) else None
  {
    hide PayloadBytes, SkipField, Varint, DecodeVarint32;
    var tag, body := Varint(8 * r.number + WireNumber(r.payload)), PayloadBytes(r.payload);
    assert RecordBytes(r) + rest == tag + (body + rest);
    Varint32RoundTrip(8 * r.number + WireNumber(r.payload), body + rest);
    PayloadSkipped(r.payload, rest);
    assert DecodeTag(tag + (body + rest)) == TagOf(r.number, WireNumber(r.payload), body + rest);
    assert FindField(d, r.number) == None;
  }

  lemma FirstRecord(rs: seq<Record>, rest: seq<Byte>)
    requires rs != []
    ensures Wire(rs) + rest == RecordBytes(rs[0]) + (Wire(rs[1..]) + rest)
    ensures |PayloadBytes(rs[0].payload)| <= |Wire(rs)| && |Wire(rs[1..])| <= |Wire(rs)|
  {
  }

  /** Records of unknown fields change nothing. */
  lemma {:induction false} UnknownRecords(d: Desc, p: Progress, rs: seq<Record>, rest: seq<Byte>)
    requires |p.slots| == |d.fields| && |Wire(rs)| < SIZE_LIMIT
    requires forall i :: 0 <= i < |rs| ==> 1 <= rs[i].number < 0x2000_0000 && Unknown(d, rs[i].number)
    ensures DecodeLoop(d, p, Wire(rs) + rest) == if AllCarried(rs) then DecodeLoop(d, p, rest) else None
  {
    hide DecodeLoop, PayloadBytes;
    if rs == [] {
      assert Wire(rs) + rest == rest;
    } else {
      FirstRecord(rs, rest);
      UnknownRecord(d, p, rs[0], Wire(rs[1..]) + rest);
      UnknownRecords(d, p, rs[1..], rest);
      assert AllCarried(rs) <==> Carried(rs[0].payload) && AllCarried(rs[1..]) by {
        assert forall i :: 0 < i < |rs| ==> rs[i] == rs[1..][i - 1];
      }
    }
  }

  lemma {:induction false} EntriesCarried(k: Kind, tag: nat, items: seq<Value>)
    requires forall i :: 0 <= i < |items| ==> ValueStored(k, items[i])
    ensures |EntryRecords(k, tag, items)| == |items|
    ensures forall i :: 0 <= i < |items| ==> EntryRecords(k, tag, items)[i] == Record(tag, PayloadOf(k, items[i]))
    decreases |items|
  {
    if items != [] {
      EntriesCarried(k, tag, items[1..]);
    }
  }

  lemma ValueCarried(k: Kind, v: Value)
    requires ValueStored(k, v) && EncodeValue(k, v).Some? && ValueReadable(k, v)
    ensures Carried(PayloadOf(k, v))
  {
    if v.Struct? {
      EncodedAsRecords(k.desc, v.slots);
    }
  }

  lemma {:induction false} ItemEncodes(k: Kind, tag: nat, items: seq<Value>, i: nat)
    requires i < |items| && EncodeTagged(k, tag, items).Some?
    ensures EncodeValue(k, items[i]).Some?
  {
    if i > 0 {
      ItemEncodes(k, tag, items[1..], i - 1);
    }
  }

  lemma SlotNumbers(f: Field, slot: Slot)
    requires SlotStored(f, slot)
    ensures forall i :: 0 <= i < |SlotRecords(f, slot)| ==> SlotRecords(f, slot)[i].number == f.tag
  {
    if slot.Array? {
      EntriesCarried(f.kind, f.tag, slot.items);
    }
  }

  lemma ReadableIsCarried(f: Field, slot: Slot)
    requires SlotStored(f, slot) && EncodeSlot(f, slot).Some? && SlotReadable(f, slot)
    ensures AllCarried(SlotRecords(f, slot))
  {
    if slot.Array? {
      if slot.items != [] {
        ArrayBytes(f, slot);
        if IsScalar(f.kind) {
          PackedBytes(f.kind, slot.items);
        } else {
          EntriesCarried(f.kind, f.tag, slot.items);
          forall i | 0 <= i < |slot.items|
            ensures Carried(PayloadOf(f.kind, slot.items[i]))
          {
            ItemEncodes(f.kind, f.tag, slot.items, i);
            ValueCarried(f.kind, slot.items[i]);
          }
        }
      }
    } else if !IsDefaultSlot(f, slot) {
      PresentBytes(f, slot);
      ValueCarried(f.kind, PresentValue(slot));
    }
  }

  /** Whatever a field that the decoder does not know wrote is passed over, unless a block of it takes 4 GB or more. */
  lemma UnknownField(d: Desc, p: Progress, f: Field, slot: Slot, rest: seq<Byte>)
    requires |p.slots| == |d.fields| && FieldOk(f) && Unknown(d, f.tag) && SlotStored(f, slot)
    requires EncodeSlot(f, slot).Some? && |EncodeSlot(f, slot).value| < SIZE_LIMIT
    ensures DecodeLoop(d, p, EncodeSlot(f, slot).value + rest)
            == if AllCarried(SlotRecords(f, slot)) then DecodeLoop(d, p, rest) else None
    ensures SlotReadable(f, slot) ==> AllCarried(SlotRecords(f, slot))
  {
    SlotBytes(f, slot);
    SlotNumbers(f, slot);
    UnknownRecords(d, p, SlotRecords(f, slot), rest);
    if SlotReadable(f, slot) {
      ReadableIsCarried(f, slot);
    }
  }

  // ---------------------------------------------------------------- a decoder that knows only some of the fields

  /** The positions below `n` that are kept. */
  function Where(keep: seq<bool>, n: nat): (w: seq<nat>)
    requires n <= |keep|
    ensures |w| <= n && forall k :: 0 <= k < |w| ==> w[k] < n && keep[w[k]]
    ensures forall j, k :: 0 <= j < k < |w| ==> w[j] < w[k]
  {
    if n == 0 then [] else Where(keep, n - 1) + if keep[n - 1] then [n - 1] else []
  }

  lemma {:induction false} WherePrefix(keep: seq<bool>, i: nat, n: nat)
    requires i <= n <= |keep|
    ensures Where(keep, i) <= Where(keep, n)
    decreases n
  {
    if i < n {
      WherePrefix(keep, i, n - 1);
    }
  }

  function Kept<T>(s: seq<T>, keep: seq<bool>): (r: seq<T>)
    requires |keep| == |s|
    ensures |r| == |Where(keep, |keep|)|
  {
    var w := Where(keep, |keep|);
    seq(|w|, k requires 0 <= k < |w| => s[w[k]])
  }

  lemma KeptAt<T>(s: seq<T>, keep: seq<bool>, i: nat)
    requires |keep| == |s| && i < |s| && keep[i]
    ensures var k := |Where(keep, i)|;
            k < |Kept(s, keep)| && Kept(s, keep)[k] == s[i] && |Where(keep, i + 1)| == k + 1
  {
    WherePrefix(keep, i + 1, |keep|);
  }

  /** An older descriptor: some of the fields. */
  function Older(d: Desc, keep: seq<bool>): Desc
    requires |keep| == |d.fields|
  {
    Desc(Kept(d.fields, keep))
  }

  lemma OlderIsOk(d: Desc, keep: seq<bool>, slots: seq<Slot>)
    requires |keep| == |d.fields| == |slots| && DescOk(d) && MessageStored(d, slots)
    ensures DescOk(Older(d, keep)) && |Older(d, keep).fields| == |Kept(slots, keep)|
    ensures MessageStored(Older(d, keep), Kept(slots, keep))
  {
    var old', kept, w := Older(d, keep), Kept(slots, keep), Where(keep, |keep|);
    forall i | 0 <= i < |kept|
      ensures SlotStored(old'.fields[i], kept[i]) && FieldOk(old'.fields[i])
    {
      assert old'.fields[i] == d.fields[w[i]] && kept[i] == slots[w[i]];
    }
    forall i, j | 0 <= i < |kept| && 0 <= j < |kept| && Rivals(old', i, j) && Chosen(kept[i])
      ensures !Chosen(kept[j])
    {
      assert Rivals(d, w[i], w[j]);
    }
  }

  lemma OlderLacks(d: Desc, keep: seq<bool>, i: nat)
    requires |keep| == |d.fields| && DescOk(d) && i < |keep| && !keep[i]
    ensures Unknown(Older(d, keep), d.fields[i].tag)
  {
    var w := Where(keep, |keep|);
    forall k | 0 <= k < |w|
      ensures Older(d, keep).fields[k].tag != d.fields[i].tag
    {
      assert w[k] != i;
    }
  }

  /** What the older decoder needs: its own fields readable, the blocks of the others below 4 GB. */
  ghost predicate Passable(d: Desc, keep: seq<bool>, slots: seq<Slot>, i: nat)
    requires |keep| == |d.fields| == |slots| && MessageStored(d, slots)
  {
    forall j :: i <= j < |slots| ==>
      if keep[j] then SlotReadable(d.fields[j], slots[j]) else AllCarried(SlotRecords(d.fields[j], slots[j]))
  }

  lemma {:induction false} OlderFieldsRead(d: Desc, keep: seq<bool>, slots: seq<Slot>, i: nat, p: Progress)
    returns (end: Progress)
    requires |keep| == |d.fields| == |slots| && i <= |slots| && DescOk(d) && MessageStored(d, slots)
    requires |Where(keep, i)| <= |Kept(slots, keep)|
    requires ReadUpTo(Older(d, keep), Kept(slots, keep), |Where(keep, i)|, p)
    requires EncodeFrom(d, slots, i).Some? && |EncodeFrom(d, slots, i).value| < SIZE_LIMIT
    ensures DecodeLoop(Older(d, keep), p, EncodeFrom(d, slots, i).value)
            == if Passable(d, keep, slots, i) then Some(end) else None
    ensures ReadUpTo(Older(d, keep), Kept(slots, keep), |Kept(slots, keep)|, end)
    decreases |slots| - i
  {
    hide DecodeLoop, EncodeSlot, SlotStored, SlotReadable, After, SlotRecords, AllCarried, Older, Kept, Where,
      MessageStored;
    var old', kept, k := Older(d, keep), Kept(slots, keep), |Where(keep, i)|;
    OlderIsOk(d, keep, slots);
    if i == |slots| {
      LoopEnds(old', p);
      end := p;
    } else {
      var first, tail := EncodeSlot(d.fields[i], slots[i]).value, EncodeFrom(d, slots, i + 1).value;
      StoredAt(d, slots, i);
      if keep[i] {
        KeptHere(d, keep, slots, i);
        StoredAt(old', kept, k);
        FieldReads(old', kept, k, p, first, tail);
        AfterIsRead(old', kept, k, p);
        end := OlderFieldsRead(d, keep, slots, i + 1, After(old', kept, k, p));
      } else {
        OlderLacks(d, keep, i);
        NotKept(keep, slots, i);
        UnknownField(old', p, d.fields[i], slots[i], tail);
        end := OlderFieldsRead(d, keep, slots, i + 1, p);
      }
    }
  }

  lemma StoredAt(d: Desc, slots: seq<Slot>, i: nat)
    requires |slots| == |d.fields| && i < |slots| && DescOk(d) && MessageStored(d, slots)
    ensures SlotStored(d.fields[i], slots[i]) && FieldOk(d.fields[i])
  {
  }

  lemma KeptHere(d: Desc, keep: seq<bool>, slots: seq<Slot>, i: nat)
    requires |keep| == |d.fields| == |slots| && i < |slots| && keep[i]
    ensures var k := |Where(keep, i)|;
            && k < |Kept(slots, keep)| == |Older(d, keep).fields| && |Where(keep, i + 1)| == k + 1
            && Kept(slots, keep)[k] == slots[i] && Older(d, keep).fields[k] == d.fields[i]
  {
    KeptAt(slots, keep, i);
    KeptAt(d.fields, keep, i);
  }

  lemma NotKept(keep: seq<bool>, slots: seq<Slot>, i: nat)
    requires |keep| == |slots| && i < |keep| && !keep[i]
    ensures Where(keep, i + 1) == Where(keep, i) && |Where(keep, i)| <= |Kept(slots, keep)|
  {
    WherePrefix(keep, i, |keep|);
  }

  /** A message of a newer descriptor, read by a decoder that knows only some of its fields: those fields come out as
      they were sent, the others are passed over. */
  lemma OlderDecoderReads(d: Desc, keep: seq<bool>, slots: seq<Slot>)
    requires |keep| == |d.fields| == |slots| && DescOk(d) && MessageStored(d, slots)
    requires Encode(d, slots).Some? && |Encode(d, slots).value| < SIZE_LIMIT
    ensures Decode(Older(d, keep), Encode(d, slots).value)
            == if Passable(d, keep, slots, 0) then Some(SeenSlots(Older(d, keep), Kept(slots, keep))) else None
  {
    var old', kept := Older(d, keep), Kept(slots, keep);
    assert Mixed(old', kept, 0) == Defaults(old');
    var end := OlderFieldsRead(d, keep, slots, 0, Progress(Defaults(old'), {}, None));
    assert Mixed(old', kept, |kept|) == SeenSlots(old', kept);
  }
}
