// What pb_decode promises whatever bytes it is given: a message that is accepted fits its C struct and has its required
// fields.
module NanopbSafety {
  import opened Basics
  import opened Varints
  import opened NanopbWire
  import opened NanopbScalars
  import opened NanopbMessages
  import opened NanopbRoundTrip
  import opened NanopbFormat

  // ---------------------------------------------------------------- what fits the struct

  /** A field as the generator makes it: integers of a C size, room for a terminator, defaults that fit. */
  ghost predicate KindOk(k: Kind)
    decreases k, 1
  {
    match k
    case IntKind(size) => ValidSize(size)
    case UIntKind(size) => ValidSize(size)
    case SIntKind(size) => ValidSize(size)
    case StringKind(size) => size > 0
    case MessageKind(desc) => Generated(desc)
    case _ => true
  }

  ghost predicate Generated(d: Desc)
    decreases d, 1
  {
    forall i :: 0 <= i < |d.fields| ==>
      && KindOk(d.fields[i].kind)
      && (d.fields[i].default.Some? ==> !d.fields[i].kind.MessageKind? && ValueSafe(d.fields[i].kind,
                                                                                    d.fields[i].default.value))
  }

  ghost predicate ValueSafe(k: Kind, v: Value)
    decreases k, 0, v
  {
    match v
    case Num(n) => NumOk(k, n)
    case Blob(b) => IsBlob(k) && BlobOk(k, b)
    case Struct(slots) => k.MessageKind? && |slots| == |k.desc.fields| && MessageSafe(k.desc, slots)
  }

  ghost predicate ItemsSafe(k: Kind, items: seq<Value>)
    decreases k, 1
  {
    forall i :: 0 <= i < |items| ==> ValueSafe(k, items[i])
  }

  /** Arrays within their bounds, values of their types.  A fixed array may still be incomplete. */
  ghost predicate SlotSafe(f: Field, slot: Slot)
    decreases f, 1
  {
    match f.rule
    case Required => slot.Plain? && ValueSafe(f.kind, slot.v)
    case Singular => slot.Plain? && ValueSafe(f.kind, slot.v)
    case Optional => slot.Flagged? && ValueSafe(f.kind, slot.v)
    case Repeated(max) => slot.Array? && |slot.items| <= max && ItemsSafe(f.kind, slot.items)
    case FixedCount(n) => slot.Array? && |slot.items| <= n && ItemsSafe(f.kind, slot.items)
    case Oneof(_) => slot.Choice? && (slot.chosen.Some? ==> ValueSafe(f.kind, slot.chosen.value))
  }

  /** A fixed array that has begun is complete. */
  predicate Filled(f: Field, slot: Slot) {
    f.rule.FixedCount? && slot.Array? ==> slot.items == [] || |slot.items| == f.rule.count
  }

  ghost predicate OneChosen(d: Desc, slots: seq<Slot>)
    requires |slots| == |d.fields|
  {
    forall i, j :: 0 <= i < |slots| && 0 <= j < |slots| && Rivals(d, i, j) && Chosen(slots[i]) ==> !Chosen(slots[j])
  }

  /** Every field is safe, fixed arrays are whole or empty, and of each union at most one member is chosen. */
  ghost predicate MessageSafe(d: Desc, slots: seq<Slot>)
    requires |slots| == |d.fields|
    decreases d, 1
  {
    && (forall i :: 0 <= i < |slots| ==> SlotSafe(d.fields[i], slots[i]) && Filled(d.fields[i], slots[i]))
    && OneChosen(d, slots)
  }

  // ---------------------------------------------------------------- defaults

  lemma {:induction false} DefaultValueSafe(k: Kind, default: Option<Value>)
    requires KindOk(k) && (default.Some? ==> !k.MessageKind? && ValueSafe(k, default.value))
    ensures ValueSafe(k, DefaultValue(k, default))
    decreases k, 1
  {
    if k.MessageKind? {
      DefaultsSafe(k.desc);
    }
  }

  lemma {:induction false} DefaultsSafe(d: Desc)
    requires Generated(d)
    ensures MessageSafe(d, Defaults(d))
    decreases d, 1
  {
    forall i | 0 <= i < |d.fields|
      ensures SlotSafe(d.fields[i], Defaults(d)[i]) && Filled(d.fields[i], Defaults(d)[i])
    {
      var f := d.fields[i];
      if !f.rule.Oneof? && !f.rule.Repeated? && !f.rule.FixedCount? { DefaultValueSafe(f.kind, f.default); }
    }
  }

  // ---------------------------------------------------------------- values

  lemma {:induction false} LittleEndianBound(s: seq<Byte>)
    ensures FromLittleEndian(s) < Pow256(|s|)
  {
    if s != [] { LittleEndianBound(s[1..]); }
  }

  lemma ScalarSafe(k: Kind, s: seq<Byte>)
    requires IsScalar(k) && KindOk(k) && DecodeScalar(k, s).Some?
    ensures NumOk(k, DecodeScalar(k, s).value.0)
  {
    Pow256Values();
    if k.Fixed32Kind? { LittleEndianBound(s[..4]); }
    if k.Fixed64Kind? { LittleEndianBound(s[..8]); }
  }

  lemma {:induction false} UpToZeroHasNone(s: seq<Byte>)
    ensures |UpToZero(s)| <= |s| && NoZero(UpToZero(s))
  {
    if s != [] && s[0] != 0 { UpToZeroHasNone(s[1..]); }
  }

  lemma BlobSafe(k: Kind, s: seq<Byte>)
    requires IsBlob(k) && DecodeBlob(k, s).Some?
    ensures BlobOk(k, DecodeBlob(k, s).value.0)
  {
    var (size, rest) := DecodeVarint32(s).value;
    if k.StringKind? { UpToZeroHasNone(rest[..size]); }
  }

  lemma {:induction false} DecodedValueSafe(k: Kind, init: Value, s: seq<Byte>)
    requires KindOk(k) && (k.MessageKind? ==> ValueSafe(k, init)) && DecodeValue(k, init, s).Some?
    ensures ValueSafe(k, DecodeValue(k, init, s).value.0)
    decreases k, 1, 0
  {
    if IsScalar(k) {
      ScalarSafe(k, s);
    } else if IsBlob(k) {
      BlobSafe(k, s);
    } else {
      var (body, rest) := Substream(s).value;
      DecodedMessageSafe(k.desc, init.slots, body);
    }
  }

  lemma {:induction false} PackedSafe(k: Kind, items: seq<Value>, max: nat, s: seq<Byte>)
    requires IsScalar(k) && KindOk(k) && ItemsSafe(k, items) && |items| <= max && DecodePacked(k, items, max, s).Some?
    ensures ItemsSafe(k, DecodePacked(k, items, max, s).value) && |DecodePacked(k, items, max, s).value| <= max
    decreases k, 2, |s|
  {
    if s != [] {
      var (v, rest) := DecodeValue(k, Zero(k), s).value;
      DecodedValueSafe(k, Zero(k), s);
      PackedSafe(k, items + [v], max, rest);
    }
  }

  lemma {:induction false} DecodedArraySafe(k: Kind, items: seq<Value>, max: nat, wireType: nat, s: seq<Byte>)
    requires KindOk(k) && ItemsSafe(k, items) && |items| <= max && DecodeArray(k, items, max, wireType, s).Some?
    ensures var slot := DecodeArray(k, items, max, wireType, s).value.0;
            slot.Array? && |slot.items| <= max && ItemsSafe(k, slot.items)
    decreases k, 3, 0
  {
    if wireType == 2 && IsScalar(k) {
      PackedSafe(k, items, max, Substream(s).value.0);
    } else {
      DefaultValueSafe(k, None);
      DecodedValueSafe(k, DefaultValue(k, None), s);
    }
  }

  lemma {:induction false} DecodedSlotSafe(f: Field, slot: Slot, wireType: nat, s: seq<Byte>)
    requires KindOk(f.kind) && SlotSafe(f, slot) && DecodeSlot(f, slot, wireType, s).Some?
    ensures SlotSafe(f, DecodeSlot(f, slot, wireType, s).value.0)
    decreases f, 2, 0
  {
    match f.rule
    case Required => DecodedValueSafe(f.kind, slot.v, s);
    case Singular => DecodedValueSafe(f.kind, slot.v, s);
    case Optional => DecodedValueSafe(f.kind, slot.v, s);
    case Repeated(max) => DecodedArraySafe(f.kind, slot.items, max, wireType, s);
    case FixedCount(n) => DecodedArraySafe(f.kind, slot.items, n, wireType, s);
    case Oneof(_) =>
      if slot.chosen.None? { DefaultValueSafe(f.kind, None); }
      DecodedValueSafe(f.kind, if slot.chosen.Some? then slot.chosen.value else DefaultValue(f.kind, None), s);
  }

  // ---------------------------------------------------------------- numbers that do not fit

  /** Full and half range of the C integer a varint is first converted to. */
  function Modulus(size: nat): nat {
    if size == 8 then TWO64 else TWO32
  }

  lemma SignedOnly(half: int, u: int, n: int)
    requires half > 0 && -half <= n < half
    ensures n == (u + half) % (2 * half) - half <==> (u - n) % (2 * half) == 0
  {
    var m, r := 2 * half, (u + half) % (2 * half);
    var q := (u + half) / m;
    assert u + half == m * q + r;
    if n == r - half {
      assert u - n == m * q;
      Multiples(m, q);
    }
    if (u - n) % m == 0 {
      var k := (u - n) / m;
      assert u + half == m * k + (n + half);
      OneQuotient(m, q, r, k, n + half);
    }
  }

  lemma Multiples(m: nat, q: int)
    requires m > 0
    ensures (m * q) % m == 0
  {
    var d, r := m * q / m, m * q % m;
    assert m * q == m * d + r;
    OneQuotient(m, q, 0, d, r);
  }

  lemma OneQuotient(m: nat, q: int, r: nat, k: int, t: nat)
    requires r < m && t < m && m * q + r == m * k + t
    ensures q == k && r == t
  {
    Spread(m, k - q, q);
    AtLeastOnce(m, k - q);
  }

  /** A varint is read into a signed field exactly if it is, modulo 2^32 or 2^64, a number that the field can hold. */
  lemma SignedReads(size: nat, u: U64, n: int, rest: seq<Byte>)
    requires ValidSize(size)
    ensures DecodeScalar(IntKind(size), Varint(u) + rest) == Some((n, rest))
            <==> InSigned(size, n) && (u - n) % Modulus(size) == 0
  {
    VarintRoundTrip(u, rest);
    var wide := if size == 8 then 8 else 4;
    var value := ToSigned(wide, u);
    if InSigned(wide, n) { SignedOnly(Half(wide), u, n); }
    assert InSigned(size, n) ==> InSigned(wide, n);
    if InSigned(size, value) { ToSignedUndoes(size, value); }
  }

  /** Unsigned and zigzag fields take exactly the numbers they can hold. */
  lemma UnsignedReads(size: nat, u: U64, n: int, rest: seq<Byte>)
    requires ValidSize(size)
    ensures DecodeScalar(UIntKind(size), Varint(u) + rest) == Some((n, rest)) <==> InUnsigned(size, n) && n == u
    ensures DecodeScalar(SIntKind(size), Varint(u) + rest) == Some((n, rest))
            <==> InSigned(size, n) && u == if n < 0 then -2 * n - 1 else 2 * n
  {
    VarintRoundTrip(u, rest);
    ZigZagInverse(if InSigned(size, n) then n else 0, u);
  }

  // ---------------------------------------------------------------- the loop

  /** An incomplete fixed array is the one being counted. */
  ghost predicate FilledBut(d: Desc, p: Progress, j: nat)
    requires |p.slots| == |d.fields|
  {
    j < |d.fields| && d.fields[j].rule.FixedCount? && p.slots[j].Array? ==>
      Filled(d.fields[j], p.slots[j]) || p.fixed == Some((j, |p.slots[j].items|))
  }

  ghost predicate ProgressSafe(d: Desc, p: Progress)
    requires |p.slots| == |d.fields|
  {
    && (forall i :: 0 <= i < |p.slots| ==> SlotSafe(d.fields[i], p.slots[i]))
    && OneChosen(d, p.slots) && forall j: nat :: FilledBut(d, p, j)
  }

  lemma StoreSafe(d: Desc, slots: seq<Slot>, i: nat, slot: Slot)
    requires |slots| == |d.fields| && i < |slots| && SlotSafe(d.fields[i], slot)
    requires (forall j :: 0 <= j < |slots| ==> SlotSafe(d.fields[j], slots[j])) && OneChosen(d, slots)
    ensures var slots' := Store(d, slots, i, slot);
            && (forall j :: 0 <= j < |slots| ==> SlotSafe(d.fields[j], slots'[j])) && OneChosen(d, slots')
  {
    hide ItemsSafe, ValueSafe;
    var slots' := Store(d, slots, i, slot);
    forall j, k | 0 <= j < |slots| && 0 <= k < |slots| && Rivals(d, j, k) && Chosen(slots'[j])
      ensures !Chosen(slots'[k])
    {
      if j == i { assert Rivals(d, i, k); }
    }
  }

  lemma {:induction false} FieldSafe(d: Desc, p: Progress, i: nat, wireType: nat, s: seq<Byte>)
    requires |p.slots| == |d.fields| && i < |d.fields| && Generated(d) && ProgressSafe(d, p)
    requires DecodeField(d, p, i, wireType, s).Some?
    ensures ProgressSafe(d, DecodeField(d, p, i, wireType, s).value.0)
    decreases d, 1, 0
  {
    hide ItemsSafe, ValueSafe, DecodeSlot, KindOk;
    var f := d.fields[i];
    var starts := f.rule.FixedCount? && (p.fixed.None? || p.fixed.value.0 != i);
    var before := if starts then Array([]) else p.slots[i];
    assert SlotSafe(f, before) by { if starts { NoItems(f.kind); } }
    var (slot, rest) := DecodeSlot(f, before, wireType, s).value;
    DecodedSlotSafe(f, before, wireType, s);
    StoreSafe(d, p.slots, i, slot);
    var p' := DecodeField(d, p, i, wireType, s).value.0;
    forall j: nat
      ensures FilledBut(d, p', j)
    {
      assert FilledBut(d, p, j);
    }
  }

  lemma NoItems(k: Kind)
    ensures ItemsSafe(k, [])
  {
  }

  lemma {:induction false} LoopSafe(d: Desc, p: Progress, s: seq<Byte>)
    requires |p.slots| == |d.fields| && Generated(d) && ProgressSafe(d, p) && DecodeLoop(d, p, s).Some?
    ensures ProgressSafe(d, DecodeLoop(d, p, s).value)
    decreases d, 2, |s|
  {
    hide ProgressSafe, DecodeField, Generated;
    if s != [] && DecodeTag(s).TagOf? {
      var TagOf(tag, wireType, rest) := DecodeTag(s);
      match FindField(d, tag)
      case None => LoopSafe(d, p, SkipField(rest, wireType).value);
      case Some(i) =>
        FieldSafe(d, p, i, wireType, rest);
        var (p', left) := DecodeField(d, p, i, wireType, rest).value;
        LoopSafe(d, p', left);
    }
  }

  lemma {:induction false} DecodedMessageSafe(d: Desc, slots: seq<Slot>, s: seq<Byte>)
    requires |slots| == |d.fields| && Generated(d) && MessageSafe(d, slots) && DecodeMessage(d, slots, s).Some?
    ensures MessageSafe(d, DecodeMessage(d, slots, s).value)
    decreases d, 3, 0
  {
    hide DecodeLoop, SlotSafe;
    var p := Progress(slots, {}, None);
    forall j: nat ensures FilledBut(d, p, j) { }
    LoopSafe(d, p, s);
    var q := DecodeLoop(d, p, s).value;
    forall i | 0 <= i < |q.slots|
      ensures SlotSafe(d.fields[i], q.slots[i]) && Filled(d.fields[i], q.slots[i])
    {
      assert FilledBut(d, q, i);
    }
  }

  /** Whatever the bytes: a message that is accepted fits its struct, down to its submessages. */
  lemma DecodedIsSafe(d: Desc, s: seq<Byte>)
    requires Generated(d) && Decode(d, s).Some?
    ensures MessageSafe(d, Decode(d, s).value)
  {
    DefaultsSafe(d);
    DecodedMessageSafe(d, Defaults(d), s);
  }

  // ---------------------------------------------------------------- required fields

  /** The tags the loop reads. */
  ghost function TagsRead(d: Desc, p: Progress, s: seq<Byte>): set<nat>
    requires |p.slots| == |d.fields|
    decreases |s|
  {
    if s == [] || !DecodeTag(s).TagOf? then {}
    else
      var TagOf(tag, wireType, rest) := DecodeTag(s);
      match FindField(d, tag)
      case None =>
        (match SkipField(rest, wireType) case None => {} case Some(left) => {tag} + TagsRead(d, p, left))
      case Some(i) =>
        match DecodeField(d, p, i, wireType, rest)
        case None => {}
        case Some((p', left)) => {tag} + TagsRead(d, p', left)
  }

  /** Only the first 64 required fields are tracked. */
  predicate Tracked(d: Desc, i: nat)
    requires i < |d.fields|
  {
    d.fields[i].rule.Required? && RequiredBefore(d, i) < MAX_REQUIRED_FIELDS
  }

  ghost predicate SeenBy(d: Desc, tags: set<nat>, n: nat) {
    exists i :: 0 <= i < |d.fields| && Tracked(d, i) && RequiredBefore(d, i) == n && d.fields[i].tag in tags
  }

  lemma FieldSeen(d: Desc, p: Progress, i: nat, wireType: nat, s: seq<Byte>, n: nat)
    requires |p.slots| == |d.fields| && i < |d.fields| && DecodeField(d, p, i, wireType, s).Some?
    ensures n in DecodeField(d, p, i, wireType, s).value.0.seen
            <==> n in p.seen || (Tracked(d, i) && RequiredBefore(d, i) == n)
  {
    hide DecodeSlot;
  }

  lemma {:induction false} SeenIsRead(d: Desc, p: Progress, s: seq<Byte>, n: nat)
    requires DescOk(d) && |p.slots| == |d.fields| && DecodeLoop(d, p, s).Some?
    ensures n in DecodeLoop(d, p, s).value.seen <==> n in p.seen || SeenBy(d, TagsRead(d, p, s), n)
    decreases |s|
  {
    hide DecodeField, DescOk;
    if s != [] && DecodeTag(s).TagOf? {
      var TagOf(tag, wireType, rest) := DecodeTag(s);
      match FindField(d, tag)
      case None =>
        var left := SkipField(rest, wireType).value;
        SeenIsRead(d, p, left, n);
        assert SeenBy(d, {tag} + TagsRead(d, p, left), n) <==> SeenBy(d, TagsRead(d, p, left), n) by {
          assert forall i :: 0 <= i < |d.fields| ==> d.fields[i].tag != tag;
        }
      case Some(i) =>
        var (p', left) := DecodeField(d, p, i, wireType, rest).value;
        FieldSeen(d, p, i, wireType, rest, n);
        SeenIsRead(d, p', left, n);
        OneTagMore(d, TagsRead(d, p', left), i, n);
    }
  }

  lemma OneTagMore(d: Desc, tags: set<nat>, i: nat, n: nat)
    requires DescOk(d) && i < |d.fields|
    ensures SeenBy(d, {d.fields[i].tag} + tags, n)
            <==> SeenBy(d, tags, n) || (Tracked(d, i) && RequiredBefore(d, i) == n)
  {
    if SeenBy(d, {d.fields[i].tag} + tags, n) && !SeenBy(d, tags, n) {
      var j :| 0 <= j < |d.fields| && Tracked(d, j) && RequiredBefore(d, j) == n
               && d.fields[j].tag in {d.fields[i].tag} + tags;
      assert j == i;
    }
  }

  lemma {:induction false} RequiredAscends(d: Desc, i: nat, j: nat)
    requires i <= j <= |d.fields|
    ensures RequiredBefore(d, i) <= RequiredBefore(d, j)
    ensures i < j && d.fields[i].rule.Required? ==> RequiredBefore(d, i) < RequiredBefore(d, j)
    decreases j
  {
    if i < j { RequiredAscends(d, i, j - 1); }
  }

  /** Every number below the count belongs to a required field. */
  lemma {:induction false} RequiredField(d: Desc, n: nat, j: nat) returns (i: nat)
    requires j <= |d.fields| && n < RequiredBefore(d, j)
    ensures i < j && d.fields[i].rule.Required? && RequiredBefore(d, i) == n
    decreases j
  {
    if n < RequiredBefore(d, j - 1) {
      i := RequiredField(d, n, j - 1);
    } else {
      i := j - 1;
    }
  }

  lemma {:induction false} UpToMembers(n: nat, x: nat)
    ensures x in UpTo(n) <==> x < n
  {
    if n > 0 { UpToMembers(n - 1, x); }
  }

  /** A message whose fields can be read is accepted exactly if its last fixed array is complete and every required
      field that is tracked occurs in it. */
  lemma RequiredOrRefused(d: Desc, slots: seq<Slot>, s: seq<Byte>)
    requires DescOk(d) && |slots| == |d.fields|
    ensures var p := Progress(slots, {}, None);
            DecodeMessage(d, slots, s).Some?
            <==> (&& DecodeLoop(d, p, s).Some? && FixedComplete(d, DecodeLoop(d, p, s).value.fixed)
                  && forall i :: 0 <= i < |d.fields| && Tracked(d, i) ==> d.fields[i].tag in TagsRead(d, p, s))
  {
    hide DecodeLoop, TagsRead, DescOk, RequiredBefore;
    var p := Progress(slots, {}, None);
    if DecodeLoop(d, p, s).Some? {
      var seen, tags := DecodeLoop(d, p, s).value.seen, TagsRead(d, p, s);
      var total := RequiredBefore(d, |d.fields|);
      forall n: nat ensures n in seen <==> SeenBy(d, tags, n) { SeenIsRead(d, p, s, n); }
      forall n: nat
        ensures n in RequiredSeen(d, |d.fields|) <==> n < total && n < MAX_REQUIRED_FIELDS
      {
        UpToMembers(total, n);
        UpToMembers(MAX_REQUIRED_FIELDS, n);
      }
      AllSeen(d, tags);
      assert seen == RequiredSeen(d, |d.fields|) <==> forall n: nat :: n in seen <==> n in RequiredSeen(d, |d.fields|);
    }
  }

  lemma AllSeen(d: Desc, tags: set<nat>)
    requires DescOk(d)
    ensures (forall n: nat :: SeenBy(d, tags, n) <==> n < RequiredBefore(d, |d.fields|) && n < MAX_REQUIRED_FIELDS)
            <==> forall i :: 0 <= i < |d.fields| && Tracked(d, i) ==> d.fields[i].tag in tags
  {
    hide RequiredBefore, DescOk;
    if forall i :: 0 <= i < |d.fields| && Tracked(d, i) ==> d.fields[i].tag in tags {
      forall n: nat
        ensures SeenBy(d, tags, n) <==> n < RequiredBefore(d, |d.fields|) && n < MAX_REQUIRED_FIELDS
      {
        if SeenBy(d, tags, n) { SeenIsCounted(d, tags, n); }
        if n < RequiredBefore(d, |d.fields|) && n < MAX_REQUIRED_FIELDS {
          var i := RequiredField(d, n, |d.fields|);
          assert Tracked(d, i);
        }
      }
    } else {
      var i :| 0 <= i < |d.fields| && Tracked(d, i) && d.fields[i].tag !in tags;
      var n := RequiredBefore(d, i);
      RequiredAscends(d, i, |d.fields|);
      if SeenBy(d, tags, n) {
        var j :| 0 <= j < |d.fields| && Tracked(d, j) && RequiredBefore(d, j) == n && d.fields[j].tag in tags;
        if i < j { RequiredAscends(d, i, j); } else { RequiredAscends(d, j, i); }
      }
    }
  }

  lemma SeenIsCounted(d: Desc, tags: set<nat>, n: nat)
    requires SeenBy(d, tags, n)
    ensures n < RequiredBefore(d, |d.fields|) && n < MAX_REQUIRED_FIELDS
  {
    var i :| 0 <= i < |d.fields| && Tracked(d, i) && RequiredBefore(d, i) == n && d.fields[i].tag in tags;
    RequiredAscends(d, i, |d.fields|);
  }
}
