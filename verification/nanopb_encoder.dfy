// The encoder of pb_encode.c on output streams: a submessage or packed array is first measured on a stream that only
// counts, then written, and the count is always right.
module NanopbEncoders {
  import opened Basics
  import opened Varints
  import opened NanopbWire
  import opened NanopbScalars
  import opened NanopbMessages

  // ---------------------------------------------------------------- streams

  /** The state of a pb_ostream_t; without a callback it only counts. */
  datatype OutState = OutState(sizing: bool, maxSize: nat, written: nat, data: seq<Byte>)

  predicate Room(st: OutState, n: nat) {
    st.sizing || st.written + n <= st.maxSize
  }

  function Put(st: OutState, bytes: seq<Byte>): OutState {
    st.(written := st.written + |bytes|, data := if st.sizing then st.data else st.data + bytes)
  }

  lemma PutTwice(st: OutState, a: seq<Byte>, b: seq<Byte>)
    ensures Put(Put(st, a), b) == Put(st, a + b)
    ensures Room(st, |a + b|) <==> Room(st, |a|) && Room(Put(st, a), |b|)
  {
    assert (st.data + a) + b == st.data + (a + b);
  }

  /** What every encoding step promises: it fails exactly if the value has no encoding or the stream no room for it. */
  predicate Wrote(before: OutState, spec: Option<seq<Byte>>, ok: bool, after: OutState) {
    && (ok <==> spec.Some? && Room(before, |spec.value|))
    && (ok ==> after == Put(before, spec.value))
  }

  /** Two steps in a row. */
  lemma WroteBoth(st: OutState, a: Option<seq<Byte>>, mid: OutState, b: Option<seq<Byte>>, ok: bool, after: OutState)
    requires Wrote(st, a, true, mid) && Wrote(mid, b, ok, after)
    ensures Wrote(st, Then(a, b), ok, after)
  {
    if b.Some? {
      PutTwice(st, a.value, b.value);
    }
  }

  lemma WroteNot(st: OutState, a: Option<seq<Byte>>, mid: OutState, b: Option<seq<Byte>>)
    requires Wrote(st, a, false, mid)
    ensures Wrote(st, Then(a, b), false, mid)
  {
  }

  /** A loop that has written `prefix` and goes on to `x`. */
  lemma LoopWrites(before: OutState, prefix: seq<Byte>, mid: OutState, x: Option<seq<Byte>>, rest: Option<seq<Byte>>,
                   after: OutState)
    requires Wrote(before, Some(prefix), true, mid) && Wrote(mid, x, true, after)
    ensures Wrote(before, Some(prefix + x.value), true, after)
    ensures Then(Some(prefix), Then(x, rest)) == Then(Some(prefix + x.value), rest)
  {
    PutTwice(before, prefix, x.value);
    if rest.Some? {
      assert prefix + (x.value + rest.value) == prefix + x.value + rest.value;
    }
  }

  lemma LoopFails(before: OutState, prefix: seq<Byte>, mid: OutState, x: Option<seq<Byte>>, rest: Option<seq<Byte>>,
                  after: OutState)
    requires Wrote(before, Some(prefix), true, mid) && Wrote(mid, x, false, after)
    ensures Wrote(before, Then(Some(prefix), Then(x, rest)), false, after)
  {
    if x.Some? {
      PutTwice(before, prefix, x.value);
    }
  }

  lemma NothingWritten(st: OutState, rest: Option<seq<Byte>>)
    requires Room(st, 0)
    ensures Wrote(st, Some([]), true, st) && Then(Some([]), rest) == rest
  {
    assert Put(st, []) == st;
    if rest.Some? {
      assert [] + rest.value == rest.value;
    }
  }

  class OutStream {
    const sizing: bool
    const maxSize: nat
    var written: nat
    var data: seq<Byte>

    function St(): OutState
      reads this
    {
      OutState(sizing, maxSize, written, data)
    }

    /** PB_OSTREAM_SIZING. */
    constructor Sizing()
      ensures St() == OutState(true, 0, 0, [])
    {
      sizing, maxSize, written, data := true, 0, 0, [];
    }

    /** pb_ostream_from_buffer. */
    constructor Buffer(size: nat)
      ensures St() == OutState(false, size, 0, [])
    {
      sizing, maxSize, written, data := false, size, 0, [];
    }

    /** pb_write. */
    method Write(buf: seq<Byte>) returns (ok: bool)
      requires Room(St(), 0)
      modifies this
      ensures Wrote(old(St()), Some(buf), ok, St())
    {
      if |buf| > 0 && !sizing {
        if written + |buf| > maxSize {
          return false;
        }
        data := data + buf;
      }
      written := written + |buf|;
      ok := true;
    }

    method WriteVarint(n: nat) returns (ok: bool)
      requires Room(St(), 0)
      modifies this
      ensures Wrote(old(St()), Some(Varint(n)), ok, St())
    {
      var bytes := EncodeVarint(n);
      ok := Write(bytes);
    }

    /** pb_write without a buffer, on a stream that only counts. */
    method Count(n: nat)
      requires sizing
      modifies this
      ensures St() == old(St()).(written := old(written) + n)
    {
      written := written + n;
    }

    /** A counted block has been written to a substream over the same memory. */
    method Absorb(sub: OutStream)
      requires !sizing && sub != this
      modifies this
      ensures St() == old(St()).(written := old(written) + sub.written, data := old(data) + sub.data)
    {
      written := written + sub.written;
      data := data + sub.data;
    }
  }

  // ---------------------------------------------------------------- the encoders

  /** pb_encode_tag. */
  method EncodeTagTo(out: OutStream, tag: nat, wireType: nat) returns (ok: bool)
    requires Room(out.St(), 0)
    modifies out
    ensures Wrote(old(out.St()), Some(Tag(tag, wireType)), ok, out.St())
  {
    ok := out.WriteVarint(tag * 8 + wireType);
  }

  /** pb_encode_string. */
  method EncodeStringTo(out: OutStream, s: seq<Byte>) returns (ok: bool)
    requires Room(out.St(), 0)
    modifies out
    ensures Wrote(old(out.St()), Some(Delimited(s)), ok, out.St())
  {
    ghost var before := out.St();
    ok := out.WriteVarint(|s|);
    ghost var mid := out.St();
    if ok {
      ok := out.Write(s);
      WroteBoth(before, Some(Varint(|s|)), mid, Some(s), ok, out.St());
    } else {
      WroteNot(before, Some(Varint(|s|)), mid, Some(s));
    }
  }

  /** A tag and then a value, as every present field is written. */
  method EncodeTagged1(out: OutStream, tag: nat, k: Kind, v: Value) returns (ok: bool)
    requires Room(out.St(), 0)
    modifies out
    ensures Wrote(old(out.St()), Then(Some(Tag(tag, WireType(k))), EncodeValue(k, v)), ok, out.St())
    decreases k, 2, 0
  {
    ghost var before := out.St();
    ok := EncodeTagTo(out, tag, WireType(k));
    ghost var mid := out.St();
    if ok {
      ok := EncodeValueTo(out, k, v);
      WroteBoth(before, Some(Tag(tag, WireType(k))), mid, EncodeValue(k, v), ok, out.St());
    } else {
      WroteNot(before, Some(Tag(tag, WireType(k))), mid, EncodeValue(k, v));
    }
  }

  /** PB_ENCODERS. */
  method EncodeValueTo(out: OutStream, k: Kind, v: Value) returns (ok: bool)
    requires Room(out.St(), 0)
    modifies out
    ensures Wrote(old(out.St()), EncodeValue(k, v), ok, out.St())
    decreases k, 1, 1
  {
    match v
    case Num(n) =>
      if !NumOk(k, n) {
        return false;
      }
      ok := out.Write(EncodeScalar(k, n));
    case Blob(b) =>
      if !IsBlob(k) || !BlobStored(k, b) || (k.BytesKind? && |b| > k.max) {
        return false;
      }
      ok := EncodeStringTo(out, b);
    case Struct(slots) =>
      if !k.MessageKind? || |slots| != |k.desc.fields| {
        return false;
      }
      ok := EncodeSubmessage(out, k.desc, slots);
  }

  /** pb_encode_submessage: measure, write the length, write the message; the two passes agree. */
  method EncodeSubmessage(out: OutStream, d: Desc, slots: seq<Slot>) returns (ok: bool)
    requires Room(out.St(), 0) && |slots| == |d.fields|
    modifies out
    ensures Wrote(old(out.St()), Lengthened(Encode(d, slots)), ok, out.St())
    decreases d, 5, 0
  {
    ghost var before := out.St();
    ghost var spec := Encode(d, slots);
    var measure := new OutStream.Sizing();
    var sized := EncodeTo(measure, d, slots);
    if !sized {
      return false;
    }
    var size := measure.written;
    ok := out.WriteVarint(size);
    ghost var mid := out.St();
    if !ok {
      WroteNot(before, Some(Varint(size)), mid, spec);
      return;
    }
    if out.sizing {
      out.Count(size);
    } else if out.written + size > out.maxSize {
      ok := false;
    } else {
      var substream := new OutStream.Buffer(size);
      var status := EncodeTo(substream, d, slots);
      out.Absorb(substream);
      ok := status && substream.written == size;
    }
    WroteBoth(before, Some(Varint(size)), mid, spec, ok, out.St());
  }

  function Lengthened(body: Option<seq<Byte>>): Option<seq<Byte>> {
    if body.None? then None else Some(Delimited(body.value))
  }

  /** pb_encode. */
  method EncodeTo(out: OutStream, d: Desc, slots: seq<Slot>) returns (ok: bool)
    requires Room(out.St(), 0) && |slots| == |d.fields|
    modifies out
    ensures Wrote(old(out.St()), Encode(d, slots), ok, out.St())
    decreases d, 4, 0
  {
    ghost var before, prefix := out.St(), [];
    NothingWritten(before, Encode(d, slots));
    for i := 0 to |slots|
      invariant Wrote(before, Some(prefix), true, out.St())
      invariant Encode(d, slots) == Then(Some(prefix), EncodeFrom(d, slots, i))
    {
      ghost var mid, x, rest := out.St(), EncodeSlot(d.fields[i], slots[i]), EncodeFrom(d, slots, i + 1);
      ok := EncodeSlotTo(out, d.fields[i], slots[i]);
      if !ok {
        LoopFails(before, prefix, mid, x, rest, out.St());
        return;
      }
      LoopWrites(before, prefix, mid, x, rest, out.St());
      prefix := prefix + x.value;
    }
    ok := true;
    assert prefix + [] == prefix;
  }

  /** encode_basic_field. */
  method EncodeSlotTo(out: OutStream, f: Field, slot: Slot) returns (ok: bool)
    requires Room(out.St(), 0)
    modifies out
    ensures Wrote(old(out.St()), EncodeSlot(f, slot), ok, out.St())
    decreases f, 3, 0
  {
    NothingWritten(out.St(), None);
    match (f.rule, slot)
    case (Required, Plain(v)) => ok := EncodeTagged1(out, f.tag, f.kind, v);
    case (Singular, Plain(v)) =>
      if IsDefaultSlot(f, slot) {
        ok := true;
      } else {
        ok := EncodeTagged1(out, f.tag, f.kind, v);
      }
    case (Optional, Flagged(has, v)) =>
      if has {
        ok := EncodeTagged1(out, f.tag, f.kind, v);
      } else {
        ok := true;
      }
    case (Repeated(max), Array(items)) => ok := EncodeArrayTo(out, f.kind, f.tag, items, max, EncodeSlot(f, slot));
    case (FixedCount(n), Array(items)) =>
      if |items| != n {
        return false;
      }
      ok := EncodeArrayTo(out, f.kind, f.tag, items, n, EncodeSlot(f, slot));
    case (Oneof(_), Choice(chosen)) =>
      if chosen.Some? {
        ok := EncodeTagged1(out, f.tag, f.kind, chosen.value);
      } else {
        ok := true;
      }
    case _ => ok := false;
  }

  /** encode_array. */
  method EncodeArrayTo(out: OutStream, k: Kind, tag: nat, items: seq<Value>, arraySize: nat,
                       ghost spec: Option<seq<Byte>>)
    returns (ok: bool)
    requires Room(out.St(), 0) && spec == if |items| > arraySize then None else EncodeArray(k, tag, items)
    modifies out
    ensures Wrote(old(out.St()), spec, ok, out.St())
    decreases k, 4, 0
  {
    NothingWritten(out.St(), None);
    if |items| == 0 {
      return true;
    }
    if |items| > arraySize {
      return false;
    }
    if IsScalar(k) {
      ok := EncodePacked(out, k, tag, items);
    } else {
      ok := EncodeUnpacked(out, k, tag, items);
    }
  }

  /** The packed branch: a fixed element size gives the length directly, otherwise it is measured. */
  method EncodePacked(out: OutStream, k: Kind, tag: nat, items: seq<Value>) returns (ok: bool)
    requires Room(out.St(), 0) && IsScalar(k)
    modifies out
    ensures Wrote(old(out.St()), Then(Some(Tag(tag, 2)), Lengthened(EncodeItems(k, items))), ok, out.St())
    decreases k, 3, 0
  {
    ghost var before, spec := out.St(), EncodeItems(k, items);
    ok := EncodeTagTo(out, tag, 2);
    ghost var tagged := out.St();
    if !ok {
      WroteNot(before, Some(Tag(tag, 2)), tagged, Lengthened(spec));
      return;
    }
    ok := EncodeBlock(out, k, items);
    WroteBoth(before, Some(Tag(tag, 2)), tagged, Lengthened(spec), ok, out.St());
  }

  method EncodeBlock(out: OutStream, k: Kind, items: seq<Value>) returns (ok: bool)
    requires Room(out.St(), 0) && IsScalar(k)
    modifies out
    ensures Wrote(old(out.St()), Lengthened(EncodeItems(k, items)), ok, out.St())
    decreases k, 2, 1
  {
    ghost var before, spec := out.St(), EncodeItems(k, items);
    var size := 0;
    var measure := new OutStream.Sizing();
    var sized := EncodeItemsTo(measure, k, items);
    if !sized {
      return false;
    }
    size := measure.written;
    ok := out.WriteVarint(size);
    ghost var mid := out.St();
    if !ok {
      WroteNot(before, Some(Varint(size)), mid, spec);
      return;
    }
    if out.sizing {
      out.Count(size);
    } else {
      ok := EncodeItemsTo(out, k, items);
    }
    WroteBoth(before, Some(Varint(size)), mid, spec, ok, out.St());
  }

  method EncodeItemsTo(out: OutStream, k: Kind, items: seq<Value>) returns (ok: bool)
    requires Room(out.St(), 0)
    modifies out
    ensures Wrote(old(out.St()), EncodeItems(k, items), ok, out.St())
    decreases k, 2, 0
  {
    ghost var before, prefix := out.St(), [];
    NothingWritten(before, EncodeItems(k, items));
    assert items[0..] == items;
    for i := 0 to |items|
      invariant Wrote(before, Some(prefix), true, out.St())
      invariant EncodeItems(k, items) == Then(Some(prefix), EncodeItems(k, items[i..]))
    {
      ghost var mid, x, rest := out.St(), EncodeValue(k, items[i]), EncodeItems(k, items[i + 1..]);
      assert items[i..][0] == items[i] && items[i..][1..] == items[i + 1..];
      ok := EncodeValueTo(out, k, items[i]);
      if !ok {
        LoopFails(before, prefix, mid, x, rest, out.St());
        return;
      }
      LoopWrites(before, prefix, mid, x, rest, out.St());
      prefix := prefix + x.value;
    }
    ok := true;
    assert prefix + [] == prefix && items[|items|..] == [];
  }

  method EncodeUnpacked(out: OutStream, k: Kind, tag: nat, items: seq<Value>) returns (ok: bool)
    requires Room(out.St(), 0)
    modifies out
    ensures Wrote(old(out.St()), EncodeTagged(k, tag, items), ok, out.St())
    decreases k, 3, 0
  {
    ghost var before, prefix := out.St(), [];
    NothingWritten(before, EncodeTagged(k, tag, items));
    assert items[0..] == items;
    for i := 0 to |items|
      invariant Wrote(before, Some(prefix), true, out.St())
      invariant EncodeTagged(k, tag, items) == Then(Some(prefix), EncodeTagged(k, tag, items[i..]))
    {
      ghost var mid, rest := out.St(), EncodeTagged(k, tag, items[i + 1..]);
      ghost var x := Then(Some(Tag(tag, WireType(k))), EncodeValue(k, items[i]));
      assert items[i..][0] == items[i] && items[i..][1..] == items[i + 1..];
      ok := EncodeTagged1(out, tag, k, items[i]);
      if !ok {
        LoopFails(before, prefix, mid, x, rest, out.St());
        return;
      }
      LoopWrites(before, prefix, mid, x, rest, out.St());
      prefix := prefix + x.value;
    }
    ok := true;
    assert prefix + [] == prefix && items[|items|..] == [];
  }

  /** For fixed-width elements the measured length is the width times the count, as encode_array computes it. */
  lemma {:induction false} FixedItemsSize(k: Kind, items: seq<Value>)
    requires (k.Fixed32Kind? || k.Fixed64Kind?) && EncodeItems(k, items).Some?
    ensures |EncodeItems(k, items).value| == (if k.Fixed32Kind? then 4 else 8) * |items|
  {
    if items != [] {
      FixedItemsSize(k, items[1..]);
    }
  }

  /** pb_get_encoded_size: exactly what pb_encode will write. */
  method GetEncodedSize(d: Desc, slots: seq<Slot>) returns (ok: bool, size: nat)
    requires |slots| == |d.fields|
    ensures ok <==> Encode(d, slots).Some?
    ensures ok ==> size == |Encode(d, slots).value|
  {
    var stream := new OutStream.Sizing();
    ok := EncodeTo(stream, d, slots);
    size := stream.written;
  }
}
