// The receiving half of ssl/d1_both.cc: hm_fragment with its reassembly bitmask, and dtls1_open_handshake.
module DtlsReceivers {
  import opened Basics
  import opened DtlsFragments
  import opened DtlsReassembly

  // ---------------------------------------------------------------- bits of a byte

  function Single(i: nat): bv8
    requires i < 8
  {
    match i
    case 0 => 0x01 case 1 => 0x02 case 2 => 0x04 case 3 => 0x08
    case 4 => 0x10 case 5 => 0x20 case 6 => 0x40 case _ => 0x80
  }

  /** (1 << k) - 1. */
  function Low(k: nat): bv8
    requires k <= 8
  {
    match k
    case 0 => 0x00 case 1 => 0x01 case 2 => 0x03 case 3 => 0x07
    case 4 => 0x0f case 5 => 0x1f case 6 => 0x3f case 7 => 0x7f case _ => 0xff
  }

  predicate Bit(b: bv8, i: nat)
    requires i < 8
  {
    b & Single(i) != 0
  }

  /** bit_range: the bits from `start` up to, not including, `end`. */
  function BitRange(start: nat, end: nat): bv8
    requires start <= 8 && end <= 8
  {
    !Low(start) & Low(end)
  }

  lemma LowBit(k: nat, i: nat)
    requires k <= 8 && i < 8
    ensures Bit(Low(k), i) <==> i < k
  {
    match k
    case 0 => case 1 => case 2 => case 3 => case 4 => case 5 => case 6 => case 7 => case _ =>
  }

  predicate OneBit(m: bv8) {
    m == 0x01 || m == 0x02 || m == 0x04 || m == 0x08 || m == 0x10 || m == 0x20 || m == 0x40 || m == 0x80
  }

  lemma MaskAlgebra(a: bv8, s: bv8, e: bv8, m: bv8)
    requires OneBit(m)
    ensures (a | (!s & e)) & m != 0 <==> a & m != 0 || (s & m == 0 && e & m != 0)
  {
  }

  lemma OrBit(b: bv8, start: nat, end: nat, i: nat)
    requires start <= 8 && end <= 8 && i < 8
    ensures Bit(b | BitRange(start, end), i) <==> Bit(b, i) || start <= i < end
  {
    MaskAlgebra(b, Low(start), Low(end), Single(i));
    LowBit(start, i);
    LowBit(end, i);
  }

  lemma SameBits(a: bv8, b: bv8)
    requires forall i: nat :: i < 8 ==> (Bit(a, i) <==> Bit(b, i))
    ensures a == b
  {
    assert (Bit(a, 0) <==> Bit(b, 0)) && (Bit(a, 1) <==> Bit(b, 1)) && (Bit(a, 2) <==> Bit(b, 2))
           && (Bit(a, 3) <==> Bit(b, 3));
    assert (Bit(a, 4) <==> Bit(b, 4)) && (Bit(a, 5) <==> Bit(b, 5)) && (Bit(a, 6) <==> Bit(b, 6))
           && (Bit(a, 7) <==> Bit(b, 7));
  }

  lemma IsLow(b: bv8, k: nat)
    requires k <= 8
    ensures b == Low(k) <==> forall i: nat :: i < 8 ==> (Bit(b, i) <==> i < k)
  {
    forall i: nat | i < 8 ensures Bit(Low(k), i) <==> i < k { LowBit(k, i); }
    if forall i: nat :: i < 8 ==> (Bit(b, i) <==> i < k) {
      SameBits(b, Low(k));
    }
  }

  // ---------------------------------------------------------------- the bitmask

  /** Bit `i` of the mask as a whole. */
  predicate Has(mask: seq<bv8>, i: nat)
    requires i < 8 * |mask|
  {
    Bit(mask[i / 8], i % 8)
  }

  /** What the three assignments of dtls1_hm_fragment_mark make of byte `j`. */
  function MarkedByte(b: bv8, j: nat, start: nat, end: nat): bv8 {
    if j == start / 8 && j == end / 8 then b | BitRange(start % 8, end % 8)
    else if j == start / 8 && j < end / 8 then b | BitRange(start % 8, 8)
    else if start / 8 < j < end / 8 then 0xff
    else if start / 8 < j == end / 8 then b | BitRange(0, end % 8)
    else b
  }

  lemma MarkedByteBits(b: bv8, j: nat, start: nat, end: nat, i: nat)
    requires start < end && i < 8
    ensures Bit(MarkedByte(b, j, start, end), i) <==> Bit(b, i) || start <= 8 * j + i < end
  {
    if j == start / 8 && j == end / 8 {
      OrBit(b, start % 8, end % 8, i);
    } else if j == start / 8 && j < end / 8 {
      OrBit(b, start % 8, 8, i);
    } else if start / 8 < j < end / 8 {
      LowBit(8, i);
    } else if start / 8 < j == end / 8 {
      OrBit(b, 0, end % 8, i);
    }
  }

  lemma MarkedMask(mask: seq<bv8>, mask': seq<bv8>, start: nat, end: nat)
    requires start < end && |mask'| == |mask|
    requires forall j :: 0 <= j < |mask| ==> mask'[j] == MarkedByte(mask[j], j, start, end)
    ensures forall i: nat :: i < 8 * |mask| ==> (Has(mask', i) <==> Has(mask, i) || start <= i < end)
  {
    forall i: nat | i < 8 * |mask|
      ensures Has(mask', i) <==> Has(mask, i) || start <= i < end
    {
      MarkedByteBits(mask[i / 8], i / 8, start, end, i % 8);
    }
  }

  /** No bit past the message is set. */
  ghost predicate NoStrayBits(mask: seq<bv8>, len: nat) {
    forall i: nat :: len <= i < 8 * |mask| ==> !Has(mask, i)
  }

  ghost predicate AllSet(mask: seq<bv8>, len: nat)
    requires len <= 8 * |mask|
  {
    forall i: nat :: i < len ==> Has(mask, i)
  }

  /** The test at the end of dtls1_hm_fragment_mark, given that no bit past the message is ever set. */
  lemma FullMask(mask: seq<bv8>, len: nat)
    requires |mask| == (len + 7) / 8 && NoStrayBits(mask, len)
    ensures AllSet(mask, len)
            <==> (forall j :: 0 <= j < len / 8 ==> mask[j] == 0xff)
                  && (len % 8 != 0 ==> mask[len / 8] == BitRange(0, len % 8))
  {
    if AllSet(mask, len) {
      forall j: nat | j < len / 8
        ensures mask[j] == 0xff
      {
        forall i: nat | i < 8 ensures Bit(mask[j], i) { assert Has(mask, 8 * j + i); }
        IsLow(mask[j], 8);
      }
      if len % 8 != 0 {
        forall i: nat | i < 8
          ensures Bit(mask[len / 8], i) <==> i < len % 8
        {
          assert Has(mask, 8 * (len / 8) + i) <==> Bit(mask[len / 8], i);
        }
        IsLow(mask[len / 8], len % 8);
        assert BitRange(0, len % 8) == Low(len % 8);
      }
    } else {
      var i: nat :| i < len && !Has(mask, i);
      IsLow(mask[i / 8], 8);
      IsLow(mask[i / 8], len % 8);
      assert BitRange(0, len % 8) == Low(len % 8);
    }
  }

  /** The bytes of the message that count as received; without a mask, all of them. */
  ghost function Received(body: seq<Byte>, mask: Option<seq<bv8>>): map<nat, Byte> {
    map i: nat | i < |body| && (mask.Some? ==> i < 8 * |mask.value| && Has(mask.value, i)) :: body[i]
  }

  ghost predicate InMask(mask: Option<seq<bv8>>, i: nat) {
    mask.Some? ==> i < 8 * |mask.value| && Has(mask.value, i)
  }

  /** Copying a piece in and marking it is writing it. */
  lemma StoredBytes(was: seq<Byte>, wasMask: Option<seq<bv8>>, now: seq<Byte>, nowMask: Option<seq<bv8>>, off: nat,
                    piece: seq<Byte>)
    requires off + |piece| <= |was| && now == was[..off] + piece + was[off + |piece|..]
    requires forall i: nat :: i < |was| ==> (InMask(nowMask, i) <==> InMask(wasMask, i) || Within(i, off, |piece|))
    ensures Received(now, nowMask) == Write(Received(was, wasMask), off, piece)
  {
    var a, b := Received(now, nowMask), Write(Received(was, wasMask), off, piece);
    forall i: nat
      ensures i in a <==> i in b
      ensures i in a ==> a[i] == b[i]
    {
      assert i < |was| ==> (InMask(nowMask, i) <==> InMask(wasMask, i) || Within(i, off, |piece|));
    }
  }

  // ---------------------------------------------------------------- hm_fragment

  class HmFragment {
    const ty: Byte
    const sn: nat
    const msgLen: nat
    const data: array<Byte>
    var reassembly: array?<bv8>

    ghost predicate Valid()
      reads this, data, reassembly
    {
      && msgLen < 0x100_0000 && sn < 0x1_0000
      && data.Length == HEADER_LENGTH + msgLen && data[..HEADER_LENGTH] == WholeHeader()
      && (reassembly != null ==>
            && reassembly.Length == (msgLen + 7) / 8
            && NoStrayBits(reassembly[..], msgLen) && !AllSet(reassembly[..], msgLen))
    }

    /** The header of the message as one fragment. */
    ghost function WholeHeader(): seq<Byte>
      requires msgLen < 0x100_0000 && sn < 0x1_0000
    {
      [ty] + U24(msgLen) + U16(sn) + U24(0) + U24(msgLen)
    }

    ghost function Abstract(): Partial
      requires Valid()
      reads this, data, reassembly
    {
      Partial(ty, msgLen, Received(data[HEADER_LENGTH..], Mask()))
    }

    ghost function Mask(): Option<seq<bv8>>
      reads this, reassembly
    {
      if reassembly == null then None else Some(reassembly[..])
    }

    constructor (h: Fragment)
      requires Fits(h)
      ensures Valid() && fresh(data) && (reassembly != null ==> fresh(reassembly))
      ensures ty == h.ty && sn == h.sn && Abstract() == Partial(h.ty, h.msgLen, map[])
    {
      ty, sn, msgLen := h.ty, h.sn, h.msgLen;
      reassembly := null;
      data := new Byte[HEADER_LENGTH + h.msgLen];
      new;
      var header := [h.ty] + U24(h.msgLen) + U16(h.sn) + U24(0) + U24(h.msgLen);
      for i := 0 to HEADER_LENGTH
        invariant data[..i] == header[..i]
        invariant reassembly == null
        modifies data
      {
        data[i] := header[i];
      }
      assert header[..HEADER_LENGTH] == header;
      if h.msgLen > 0 {
        reassembly := new bv8[(h.msgLen + 7) / 8](_ => 0);
        forall i: nat | i < 8 * reassembly.Length ensures !Has(reassembly[..], i) { }
        assert !Has(reassembly[..], 0);
      }
    }

    /** dtls1_hm_fragment_mark: drops the mask once every byte of the message is marked. */
    method Mark(start: nat, end: nat)
      requires Valid() && reassembly != null && start <= end <= msgLen
      modifies this`reassembly, reassembly
      ensures Valid() && (reassembly != null ==> reassembly == old(reassembly))
      ensures forall i: nat :: i < msgLen ==>
        (InMask(Mask(), i) <==> InMask(old(Mask()), i) || Within(i, start, end - start))
    {
      if start == end {
        return;
      }
      ghost var was := reassembly[..];
      SetBits(start, end);
      MarkedMask(was, reassembly[..], start, end);
      FullMask(reassembly[..], msgLen);
      for i := 0 to msgLen / 8
        invariant forall j :: 0 <= j < i ==> reassembly[j] == 0xff
      {
        if reassembly[i] != 0xff {
          return;
        }
      }
      if msgLen % 8 != 0 && reassembly[msgLen / 8] != BitRange(0, msgLen % 8) {
        return;
      }
      reassembly := null;
    }

    method SetBits(start: nat, end: nat)
      requires reassembly != null && start < end <= 8 * reassembly.Length
      modifies reassembly
      ensures forall j :: 0 <= j < reassembly.Length ==> reassembly[j] == MarkedByte(old(reassembly[j]), j, start, end)
    {
      if start / 8 == end / 8 {
        reassembly[start / 8] := reassembly[start / 8] | BitRange(start % 8, end % 8);
      } else {
        reassembly[start / 8] := reassembly[start / 8] | BitRange(start % 8, 8);
        for i := start / 8 + 1 to end / 8
          invariant forall j :: 0 <= j < reassembly.Length ==>
            reassembly[j] == if j < i then MarkedByte(old(reassembly[j]), j, start, end) else old(reassembly[j])
        {
          reassembly[i] := 0xff;
        }
        if end % 8 != 0 {
          reassembly[end / 8] := reassembly[end / 8] | BitRange(0, end % 8);
        } else if end / 8 < reassembly.Length {
          assert reassembly[end / 8] | BitRange(0, 0) == reassembly[end / 8];
        }
      }
    }

    /** The copy into the message buffer, and the marking. */
    method Store(off: nat, body: seq<Byte>)
      requires Valid() && reassembly != null && off + |body| <= msgLen
      modifies this`reassembly, reassembly, data
      ensures Valid() && (reassembly != null ==> reassembly == old(reassembly))
      ensures Abstract() == old(Abstract()).(bytes := Write(old(Abstract()).bytes, off, body))
    {
      CopyInto(data, HEADER_LENGTH + off, body);
      PastHeader(old(data[..]), data[..], HEADER_LENGTH, off, body);
      assert data[..][..HEADER_LENGTH] == data[..HEADER_LENGTH]
             && old(data[..])[..HEADER_LENGTH] == old(data[..HEADER_LENGTH]);
      assert data[..][HEADER_LENGTH..] == data[HEADER_LENGTH..]
             && old(data[..])[HEADER_LENGTH..] == old(data[HEADER_LENGTH..]);
      Mark(off, off + |body|);
      StoredBytes(old(data[HEADER_LENGTH..]), old(Mask()), data[HEADER_LENGTH..], Mask(), off, body);
    }
  }

  method CopyInto(data: array<Byte>, at: nat, piece: seq<Byte>)
    requires at + |piece| <= data.Length
    modifies data
    ensures data[..] == old(data[..])[..at] + piece + old(data[..])[at + |piece|..]
  {
    for i := 0 to |piece|
      invariant forall k :: 0 <= k < data.Length ==> data[k] == if at <= k < at + i then piece[k - at] else old(data[k])
    {
      data[at + i] := piece[i];
    }
  }

  /** A change past the header leaves the header alone. */
  lemma PastHeader(was: seq<Byte>, now: seq<Byte>, h: nat, off: nat, piece: seq<Byte>)
    requires h + off + |piece| <= |was| && now == was[..h + off] + piece + was[h + off + |piece|..]
    ensures |now| == |was| && now[..h] == was[..h]
    ensures now[h..] == was[h..][..off] + piece + was[h..][off + |piece|..]
  {
  }

  // ---------------------------------------------------------------- the receiver

  predicate InWindow(readSeq: nat, sn: nat) {
    readSeq <= sn < readSeq + MAX_FLIGHT
  }

  /** Slots are indexed by message number modulo the window size. */
  ghost function ViewOf(readSeq: nat, slots: seq<Option<Partial>>): View
    requires |slots| == MAX_FLIGHT
  {
    View(readSeq, map sn: nat | readSeq <= sn < readSeq + MAX_FLIGHT && InWindow(readSeq, sn)
         && slots[sn % MAX_FLIGHT].Some?
                    :: slots[sn % MAX_FLIGHT].value)
  }

  /** Two numbers of one window never share a slot. */
  lemma SlotsDiffer(readSeq: nat, a: nat, b: nat)
    requires InWindow(readSeq, a) && InWindow(readSeq, b) && a % MAX_FLIGHT == b % MAX_FLIGHT
    ensures a == b
  {
  }

  lemma OneSlotChanged(readSeq: nat, slots: seq<Option<Partial>>, sn: nat, p: Partial)
    requires |slots| == MAX_FLIGHT && InWindow(readSeq, sn)
    ensures var v := ViewOf(readSeq, slots);
            ViewOf(readSeq, slots[sn % MAX_FLIGHT := Some(p)]) == v.(slots := v.slots[sn := p])
  {
    var before, after := ViewOf(readSeq, slots).slots, ViewOf(readSeq, slots[sn % MAX_FLIGHT := Some(p)]).slots;
    forall n: nat
      ensures n != sn ==> (n in after <==> n in before) && (n in after ==> after[n] == before[n])
      ensures n == sn ==> n in after && after[n] == p
    {
      if InWindow(readSeq, n) && n % MAX_FLIGHT == sn % MAX_FLIGHT {
        SlotsDiffer(readSeq, n, sn);
      }
    }
  }

  lemma SlotInWindow(readSeq: nat, k: nat) returns (sn: nat)
    requires k < MAX_FLIGHT
    ensures InWindow(readSeq, sn) && sn % MAX_FLIGHT == k
  {
    sn := readSeq + (k + MAX_FLIGHT - readSeq % MAX_FLIGHT) % MAX_FLIGHT;
  }

  /** Emptying the slot of the current message and moving the window on by one. */
  lemma WindowMoves(readSeq: nat, slots: seq<Option<Partial>>)
    requires |slots| == MAX_FLIGHT && readSeq < 0x1_0000
    requires forall sn :: sn in ViewOf(readSeq, slots).slots ==> sn < 0x1_0000
    ensures ViewOf((readSeq + 1) % 0x1_0000, slots[readSeq % MAX_FLIGHT := None]) == Advance(ViewOf(readSeq, slots))
  {
    var next := (readSeq + 1) % 0x1_0000;
    var before, after := ViewOf(readSeq, slots).slots, ViewOf(next, slots[readSeq % MAX_FLIGHT := None]).slots;
    forall n: nat | n in before && n != readSeq
      ensures n in after && after[n] == before[n]
    {
      if n % MAX_FLIGHT == readSeq % MAX_FLIGHT {
        SlotsDiffer(readSeq, n, readSeq);
      }
    }
    forall n: nat | n in after ensures n in before && n != readSeq { NewWindow(readSeq, slots, n); }
  }

  lemma NewWindow(readSeq: nat, slots: seq<Option<Partial>>, n: nat)
    requires |slots| == MAX_FLIGHT && readSeq < 0x1_0000
    requires forall sn :: sn in ViewOf(readSeq, slots).slots ==> sn < 0x1_0000
    requires n in ViewOf((readSeq + 1) % 0x1_0000, slots[readSeq % MAX_FLIGHT := None]).slots
    ensures n in ViewOf(readSeq, slots).slots && n != readSeq
  {
    var sn := SlotInWindow(readSeq, n % MAX_FLIGHT);
    assert slots[sn % MAX_FLIGHT].Some? && sn in ViewOf(readSeq, slots).slots;
    SlotsDiffer(readSeq + 1, n, if sn == readSeq then readSeq + MAX_FLIGHT else sn);
  }

  /** The part of DTLS1_STATE that dtls1_open_handshake works on. */
  class Receiver {
    const maxLen: nat
    const lone: bool
    const incoming: array<HmFragment?>
    var readSeq: nat
    ghost var Repr: set<object>

    ghost predicate SlotValid(k: nat)
      requires incoming.Length == MAX_FLIGHT && k < MAX_FLIGHT
      reads this, Repr, incoming
    {
      var frag := incoming[k];
      frag != null ==>
        && frag in Repr && frag.data in Repr && (frag.reassembly != null ==> frag.reassembly in Repr)
        && frag.Valid() && readSeq <= frag.sn < readSeq + MAX_FLIGHT && frag.sn % MAX_FLIGHT == k
    }

    ghost predicate SlotsApart(j: nat, k: nat)
      requires incoming.Length == MAX_FLIGHT && j < MAX_FLIGHT && k < MAX_FLIGHT
      reads this, Repr, incoming
    {
      var f, g := incoming[j], incoming[k];
      f != null && g != null && f in Repr && g in Repr && j != k ==>
        && f != g && f.data != g.data && (f.data as object) != g.reassembly
        && (f.reassembly != null ==> f.reassembly != g.reassembly && (f.reassembly as object) != g.data)
    }

    ghost predicate Valid()
      reads this, Repr, incoming
    {
      && incoming.Length == MAX_FLIGHT && this !in Repr && (incoming as object) !in Repr && readSeq < 0x1_0000
      && (forall k: nat {:trigger SlotValid(k)} :: k < MAX_FLIGHT ==> SlotValid(k))
      && (forall j: nat, k: nat {:trigger SlotsApart(j, k)} :: j < MAX_FLIGHT && k < MAX_FLIGHT ==> SlotsApart(j, k))
    }

    ghost function SlotAt(k: nat): Option<Partial>
      requires incoming.Length == MAX_FLIGHT && k < MAX_FLIGHT && SlotValid(k)
      reads this, Repr, incoming
    {
      if incoming[k] == null then None else Some(incoming[k].Abstract())
    }

    ghost function Slots(): seq<Option<Partial>>
      requires Valid()
      reads this, Repr, incoming
    {
      seq(MAX_FLIGHT, k requires 0 <= k < MAX_FLIGHT && SlotValid(k) reads this, Repr, incoming => SlotAt(k))
    }

    ghost function Abstract(): View
      requires Valid()
      reads this, Repr, incoming
    {
      ViewOf(readSeq, Slots())
    }

    constructor (first: nat, max: nat, encrypted: bool)
      requires first < 0x1_0000
      ensures Valid() && fresh(incoming) && fresh(Repr) && maxLen == max && lone == encrypted
      ensures Abstract() == View(first, map[])
    {
      maxLen, lone := max, encrypted;
      incoming := new HmFragment?[MAX_FLIGHT](_ => null);
      readSeq := first;
      Repr := {};
      new;
      forall k: nat | k < MAX_FLIGHT ensures SlotValid(k) { }
      forall j: nat, k: nat | j < MAX_FLIGHT && k < MAX_FLIGHT ensures SlotsApart(j, k) { }
    }

    /** dtls1_get_incoming_message: null when the header contradicts an earlier fragment of the message. */
    method GetIncomingMessage(f: Fragment) returns (frag: HmFragment?)
      requires Valid() && Fits(f) && InWindow(readSeq, f.sn)
      modifies this`Repr, incoming
      ensures Valid() && fresh(Repr - old(Repr))
      ensures var p := SlotFor(old(Abstract()), f);
              && (frag == null <==> p.ty != f.ty || p.len != f.msgLen)
              && (frag == null ==> Abstract() == old(Abstract()))
              && (frag != null ==> && frag == incoming[f.sn % MAX_FLIGHT] && SlotAt(f.sn % MAX_FLIGHT) == Some(p)
                                   && Slots() == old(Slots())[f.sn % MAX_FLIGHT := Some(p)])
    {
      var idx := f.sn % MAX_FLIGHT;
      assert SlotValid(idx);
      frag := incoming[idx];
      if frag != null {
        SlotsDiffer(readSeq, frag.sn, f.sn);
        assert Slots()[idx] == SlotAt(idx);
        assert ViewOf(readSeq, Slots()).slots[f.sn] == frag.Abstract();
        assert Slots()[idx := Some(frag.Abstract())] == Slots();
        if frag.ty != f.ty || frag.msgLen != f.msgLen {
          frag := null;
        }
        return;
      }
      assert Slots()[idx] == SlotAt(idx) && f.sn !in Abstract().slots;
      frag := new HmFragment(f);
      AddSlot(frag, idx);
    }

    method AddSlot(frag: HmFragment, idx: nat)
      requires Valid() && idx < MAX_FLIGHT && incoming[idx] == null
      requires frag.Valid() && frag.sn % MAX_FLIGHT == idx && InWindow(readSeq, frag.sn)
      requires frag !in Repr && frag.data !in Repr && (frag.reassembly != null ==> frag.reassembly !in Repr)
      requires (frag.data as object) != incoming
               && (frag.reassembly != null ==> (frag.reassembly as object) != incoming)
      modifies this`Repr, incoming
      ensures Valid() && incoming[idx] == frag
      ensures Repr == old(Repr) + {frag, frag.data}
              + (if frag.reassembly == null then {} else {frag.reassembly as object})
      ensures Slots() == old(Slots())[idx := Some(frag.Abstract())]
    {
      incoming[idx] := frag;
      Repr := Repr + {frag, frag.data} + (if frag.reassembly == null then {} else {frag.reassembly as object});
      forall k: nat | k < MAX_FLIGHT ensures SlotValid(k) { assert old(SlotValid(k)); }
      forall j: nat, k: nat | j < MAX_FLIGHT && k < MAX_FLIGHT
        ensures SlotsApart(j, k)
      {
        assert old(SlotsApart(j, k)) && old(SlotValid(j)) && old(SlotValid(k));
      }
      forall k: nat | k < MAX_FLIGHT && k != idx ensures Slots()[k] == old(Slots())[k] { assert old(SlotValid(k)); }
    }
  
    /** A slot nobody wrote to. */
    twostate lemma SlotStays(k: nat)
      requires incoming.Length == MAX_FLIGHT && k < MAX_FLIGHT && old(SlotValid(k)) && readSeq == old(readSeq)
               && Repr == old(Repr)
      requires incoming[k] == old(incoming[k])
      requires incoming[k] != null ==> unchanged(incoming[k]) && unchanged(incoming[k].data)
      requires incoming[k] != null && incoming[k].reassembly != null ==> unchanged(incoming[k].reassembly)
      ensures SlotValid(k) && SlotAt(k) == old(SlotAt(k))
    {
    }

    /** Copy a fragment into the slot of its message, unless the message is complete. */
    method StoreAt(idx: nat, f: Fragment)
      requires Valid() && idx < MAX_FLIGHT && SlotValid(idx) && incoming[idx] != null
               && f.off + |f.body| <= incoming[idx].msgLen
      modifies Repr
      ensures Valid()
      ensures var p := old(SlotAt(idx)).value;
              Slots() == old(Slots())[idx :=
                                      Some(if Complete(p) then p else p.(bytes := Write(p.bytes, f.off, f.body)))]
    {
      var frag := incoming[idx];
      IncompleteHasMask(frag);
      if frag.reassembly != null {
        frag.Store(f.off, f.body);
        forall k: nat | k < MAX_FLIGHT
          ensures SlotValid(k) && (k != idx ==> SlotAt(k) == old(SlotAt(k)))
        {
          if k != idx {
            assert old(SlotValid(k)) && old(SlotValid(idx)) && old(SlotsApart(k, idx));
            SlotStays(k);
          }
        }
        forall j: nat, k: nat | j < MAX_FLIGHT && k < MAX_FLIGHT
          ensures SlotsApart(j, k) { assert old(SlotsApart(j, k)); }
      } else {
        assert old(Slots())[idx] == old(SlotAt(idx));
      }
    }

    lemma IncompleteHasMask(frag: HmFragment)
      requires frag.Valid()
      ensures Complete(frag.Abstract()) <==> frag.reassembly == null
    {
      if frag.reassembly != null {
        var i: nat :| i < frag.msgLen && !Has(frag.reassembly[..], i);
        assert i !in frag.Abstract().bytes;
      }
    }

    /** One round of the loop in dtls1_open_handshake. */
    method ProcessFragment(f: Fragment) returns (alert: Option<Alert>)
      requires Valid() && Fits(f)
      modifies this`Repr, incoming, Repr
      ensures Valid() && fresh(Repr - old(Repr))
      ensures Deliver(old(Abstract()), f, maxLen, lone) == match alert
                                                           case None => Accepted(Abstract())
                                                           case Some(a) => Rejected(a)
      ensures alert.Some? ==> Abstract() == old(Abstract())
    {
      if f.off > f.msgLen || f.off + |f.body| > f.msgLen || f.msgLen > maxLen {
        return Some(IllegalParameter);
      }
      if lone && f.sn != readSeq {
        return Some(UnexpectedMessage);
      }
      if f.sn < readSeq || f.sn > readSeq + MAX_FLIGHT {
        return None;
      }
      if f.sn - readSeq >= MAX_FLIGHT {
        return Some(InternalError);
      }
      alert := TakeIn(f);
    }

    /** A fragment inside the window. */
    method TakeIn(f: Fragment) returns (alert: Option<Alert>)
      requires Valid() && Fits(f) && InWindow(readSeq, f.sn) && f.off + |f.body| <= f.msgLen
      modifies this`Repr, incoming, Repr
      ensures Valid() && fresh(Repr - old(Repr))
      ensures var v, p := old(Abstract()), SlotFor(old(Abstract()), f);
              if p.ty != f.ty || p.len != f.msgLen then alert == Some(IllegalParameter) && Abstract() == v
              else
                && alert == None
                && Abstract() == v.(slots := v.slots[f.sn := if Complete(p) then p
                                                             else p.(bytes := Write(p.bytes, f.off, f.body))])
    {
      ghost var slots, p := Slots(), SlotFor(Abstract(), f);
      var idx := f.sn % MAX_FLIGHT;
      ghost var p' := if Complete(p) then p else p.(bytes := Write(p.bytes, f.off, f.body));
      OneSlotChanged(readSeq, slots, f.sn, p');
      var frag := GetIncomingMessage(f);
      if frag == null {
        return Some(IllegalParameter);
      }
      assert SlotValid(idx);
      StoreAt(idx, f);
      assert Slots() == slots[idx := Some(p')];
      alert := None;
    }

    /** dtls1_open_handshake on the contents of one handshake record. */
    method OpenHandshake(record: seq<Byte>) returns (alert: Option<Alert>)
      requires Valid()
      modifies this`Repr, incoming, Repr
      ensures Valid() && fresh(Repr - old(Repr))
      ensures (Abstract(), alert) == DeliverRecord(old(Abstract()), record, maxLen, lone)
    {
      var cbs := record;
      while cbs != []
        invariant Valid() && fresh(Repr - old(Repr))
        invariant DeliverRecord(old(Abstract()), record, maxLen, lone) == DeliverRecord(Abstract(), cbs, maxLen, lone)
        decreases |cbs|
      {
        match Parse(cbs)
        case None =>
          return Some(DecodeError);
        case Some((f, rest)) =>
          alert := ProcessFragment(f);
          if alert.Some? {
            return;
          }
          cbs := rest;
      }
      alert := None;
    }

    /** dtls1_get_message: the current message and its encoding as one whole fragment. */
    method GetMessage() returns (m: Option<Message>, raw: seq<Byte>)
      requires Valid()
      ensures m == Current(Abstract())
      ensures m.Some? ==> var f := Fragment(m.value.ty, |m.value.body|, m.value.sn, 0, m.value.body);
              Fits(f) && raw == Serialize(f)
    {
      var idx := readSeq % MAX_FLIGHT;
      assert SlotValid(idx);
      var frag := incoming[idx];
      m, raw := None, [];
      assert Slots()[idx] == SlotAt(idx);
      if frag != null {
        IncompleteHasMask(frag);
        SlotsDiffer(readSeq, frag.sn, readSeq);
        if frag.reassembly == null {
          m := Some(Message(frag.ty, readSeq, frag.data[HEADER_LENGTH..]));
          raw := frag.data[..];
          assert raw == raw[..HEADER_LENGTH] + raw[HEADER_LENGTH..];
          WholeMessage(frag);
        }
      }
    }

    /** A complete reassembly spells out the buffer. */
    lemma WholeMessage(frag: HmFragment)
      requires frag.Valid() && frag.reassembly == null
      ensures var p := frag.Abstract();
              Complete(p) && seq(p.len, i requires 0 <= i < p.len => p.bytes[i]) == frag.data[HEADER_LENGTH..]
    {
    }

    lemma SixteenBits()
      requires Valid()
      ensures forall sn :: sn in Abstract().slots ==> sn < 0x1_0000
    {
      forall sn | sn in Abstract().slots
        ensures sn < 0x1_0000
      {
        assert SlotValid(sn % MAX_FLIGHT) && Slots()[sn % MAX_FLIGHT] == SlotAt(sn % MAX_FLIGHT);
        SlotsDiffer(readSeq, sn, incoming[sn % MAX_FLIGHT].sn);
      }
    }

    /** dtls1_next_message. */
    method NextMessage()
      requires Valid() && Current(Abstract()).Some?
      modifies this`readSeq, incoming
      ensures Valid() && Abstract() == Advance(old(Abstract()))
    {
      ghost var before := Slots();
      var idx := readSeq % MAX_FLIGHT;
      SixteenBits();
      WindowMoves(readSeq, before);
      incoming[idx] := null;
      readSeq := (readSeq + 1) % 0x1_0000;
      forall k: nat | k < MAX_FLIGHT
        ensures SlotValid(k) && (k != idx ==> SlotAt(k) == old(SlotAt(k)))
      {
        if k != idx {
          assert old(SlotValid(k));
          SlotPassed(k);
        }
      }
      forall j: nat, k: nat | j < MAX_FLIGHT && k < MAX_FLIGHT
        ensures SlotsApart(j, k) { assert old(SlotsApart(j, k)); }
      assert Slots() == before[idx := None];
    }

    twostate lemma SlotPassed(k: nat)
      requires incoming.Length == MAX_FLIGHT && k < MAX_FLIGHT && old(SlotValid(k)) && old(readSeq) < 0x1_0000
      requires k != old(readSeq) % MAX_FLIGHT && readSeq == (old(readSeq) + 1) % 0x1_0000 && Repr == old(Repr)
      requires incoming[k] == old(incoming[k])
      requires incoming[k] != null ==> unchanged(incoming[k]) && unchanged(incoming[k].data)
      requires incoming[k] != null && incoming[k].reassembly != null ==> unchanged(incoming[k].reassembly)
      ensures SlotValid(k) && SlotAt(k) == old(SlotAt(k))
    {
    }
  }
}
