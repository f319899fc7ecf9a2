// The sending half of ssl/d1_both.cc: cutting a flight into fragments that fit the MTU, and sending it again.
module DtlsSenders {
  import opened Basics
  import opened DtlsFragments
  import opened DtlsReassembly

  /** DTLS_OUTGOING_MESSAGE; a handshake message is stored as one whole fragment. */
  datatype Outgoing = ChangeCipherSpec(epoch: nat) | Handshake(data: seq<Byte>, epoch: nat)

  datatype Record = CcsRecord(epoch: nat) | HandshakeRecord(payload: seq<Byte>, epoch: nat)

  datatype SealResult = SealError | NoProgress | SealPartial | SealSuccess

  /** What dtls1_finish_message leaves in `data`. */
  predicate Whole(data: seq<Byte>) {
    var p := Parse(data);
    p.Some? && p.value.1 == [] && p.value.0.off == 0 && p.value.0.msgLen == |p.value.0.body|
  }

  /** The message that `data` holds; seal_next_message finds nothing else there. */
  function MessageIn(data: seq<Byte>): (m: Message)
    ensures m.sn < 0x1_0000 && |m.body| < 0x100_0000
  {
    match Parse(data)
    case Some((f, _)) => Message(f.ty, f.sn, f.body)
    case None => Message(0, 0, [])
  }

  /** A message as dtls1_init_message and dtls1_finish_message lay it out. */
  function Built(m: Message): seq<Byte>
    requires m.sn < 0x1_0000 && |m.body| < 0x100_0000
  {
    Serialize(Fragment(m.ty, |m.body|, m.sn, 0, m.body))
  }

  lemma BuiltIsWhole(m: Message)
    requires m.sn < 0x1_0000 && |m.body| < 0x100_0000
    ensures Whole(Built(m)) && MessageIn(Built(m)) == m
  {
    ParseSerialize(Fragment(m.ty, |m.body|, m.sn, 0, m.body), []);
    assert Built(m) + [] == Built(m);
  }

  predicate Sendable(out: Outgoing) {
    out.Handshake? ==> Whole(out.data)
  }

  ghost predicate AllSendable(outs: seq<Outgoing>) {
    forall i :: SendableAt(outs, i)
  }

  ghost predicate SendableAt(outs: seq<Outgoing>, i: int) {
    0 <= i < |outs| ==> Sendable(outs[i])
  }

  /** The fragment of `m` from `off` with `n` body bytes. */
  function Piece(m: Message, off: nat, n: nat): (f: Fragment)
    requires off + n <= |m.body|
    ensures PieceOf(f, m)
  {
    Fragment(m.ty, |m.body|, m.sn, off, m.body[off..off + n])
  }

  function Fragments(records: seq<Record>): seq<Fragment> {
    if records == [] then []
    else
      var last := records[|records| - 1];
      Fragments(records[..|records| - 1])
      + if last.HandshakeRecord? && Parse(last.payload).Some? then [Parse(last.payload).value.0] else []
  }

  lemma FragmentsStep(records: seq<Record>, r: Record)
    ensures Fragments(records + [r]) == Fragments(records) + Fragments([r])
    ensures Fragments([r]) == if r.HandshakeRecord? && Parse(r.payload).Some? then [Parse(r.payload).value.0] else []
  {
    assert (records + [r])[..|records|] == records && [r][..0] == [];
  }

  /** Message `i`, if it lies before position `written`, has been cut completely. */
  ghost predicate CutAt(outs: seq<Outgoing>, fs: seq<Fragment>, written: nat, i: int) {
    0 <= i < |outs| && i < written && outs[i].Handshake? ==> FullyArrived(fs, MessageIn(outs[i].data))
  }

  /** Position (written, offset): everything before it has been cut into `fs`. */
  ghost predicate CutUpTo(outs: seq<Outgoing>, fs: seq<Fragment>, written: nat, offset: nat) {
    && (forall i :: CutAt(outs, fs, written, i))
    && (written < |outs| && outs[written].Handshake? ==>
          forall b :: 0 <= b < offset ==> Covered(fs, MessageIn(outs[written].data).sn, b))
  }

  ghost predicate PieceOfSome(outs: seq<Outgoing>, f: Fragment) {
    Fits(f) && exists i :: 0 <= i < |outs| && outs[i].Handshake? && PieceOf(f, MessageIn(outs[i].data))
  }

  ghost predicate AllPieces(outs: seq<Outgoing>, fs: seq<Fragment>) {
    forall f :: f in fs ==> PieceOfSome(outs, f)
  }

  /** One more piece, cut at the current position. */
  lemma CutStep(outs: seq<Outgoing>, fs: seq<Fragment>, written: nat, offset: nat, n: nat)
    requires AllSendable(outs)
    requires written < |outs| && outs[written].Handshake? && offset + n <= |MessageIn(outs[written].data).body|
    requires CutUpTo(outs, fs, written, offset) && AllPieces(outs, fs)
    ensures var m := MessageIn(outs[written].data);
            var fs' := fs + [Piece(m, offset, n)];
            && AllPieces(outs, fs')
            && (offset + n == |m.body| ==> CutUpTo(outs, fs', written + 1, 0))
            && (offset + n < |m.body| ==> CutUpTo(outs, fs', written, offset + n))
  {
    var m := MessageIn(outs[written].data);
    var f := Piece(m, offset, n);
    MoreArrived(fs, f, m);
    forall b | 0 <= b < offset + n
      ensures Covered(fs + [f], m.sn, b)
    {
      assert b >= offset ==> Covers(f, m.sn, b);
    }
    forall i ensures CutAt(outs, fs + [f], written, i) { CutStays(outs, fs, f, written, i); }
    var next := written + 1;
    if offset + n == |m.body| {
      assert FullyArrived(fs + [f], m);
      forall i ensures CutAt(outs, fs + [f], next, i) { CutStays(outs, fs, f, written, i); }
    }
  }

  lemma CutStays(outs: seq<Outgoing>, fs: seq<Fragment>, f: Fragment, written: nat, i: int)
    requires forall j :: CutAt(outs, fs, written, j)
    ensures CutAt(outs, fs + [f], written, i)
    ensures i != written ==> CutAt(outs, fs + [f], written + 1, i)
  {
    assert CutAt(outs, fs, written, i);
    if 0 <= i < |outs| && outs[i].Handshake? {
      MoreArrived(fs, f, MessageIn(outs[i].data));
    }
  }

  /** The fragments `fs` are pieces of the flight and leave nothing out before (written, offset). */
  ghost predicate Cut(outs: seq<Outgoing>, fs: seq<Fragment>, written: nat, offset: nat) {
    AllSendable(outs) && CutUpTo(outs, fs, written, offset) && AllPieces(outs, fs)
  }

  lemma SealedPiece(outs: seq<Outgoing>, fs: seq<Fragment>, written: nat, offset: nat, n: nat)
    requires Cut(outs, fs, written, offset)
    requires written < |outs| && outs[written].Handshake? && offset + n <= |MessageIn(outs[written].data).body|
    ensures var m := MessageIn(outs[written].data);
            && Fits(Piece(m, offset, n))
            && var fs' := fs + Fragments([HandshakeRecord(Serialize(Piece(m, offset, n)), outs[written].epoch)]);
            if offset + n == |m.body| then Cut(outs, fs', written + 1, 0) else Cut(outs, fs', written, offset + n)
  {
    var f := Piece(MessageIn(outs[written].data), offset, n);
    CutStep(outs, fs, written, offset, n);
    ParseSerialize(f, []);
    assert Serialize(f) + [] == Serialize(f);
    FragmentsStep([], HandshakeRecord(Serialize(f), outs[written].epoch));
  }

  lemma SealedCcs(outs: seq<Outgoing>, fs: seq<Fragment>, written: nat)
    requires Cut(outs, fs, written, 0) && written < |outs| && outs[written].ChangeCipherSpec?
    ensures Cut(outs, fs + Fragments([CcsRecord(outs[written].epoch)]), written + 1, 0)
  {
    FragmentsStep([], CcsRecord(outs[written].epoch));
    assert fs + [] == fs;
    var next := written + 1;
    forall i ensures CutAt(outs, fs, next, i) { assert CutAt(outs, fs, written, i); }
  }

  // ---------------------------------------------------------------- packets

  function ContentLength(r: Record): nat {
    match r
    case CcsRecord(_) => 1
    case HandshakeRecord(payload, _) => |payload|
  }

  /** The bytes of a packet, once its records are sealed. */
  function PacketLength(sealedLen: (nat, nat) -> nat, packet: seq<Record>): nat {
    if packet == [] then 0
    else
      var n := |packet| - 1;
      PacketLength(sealedLen, packet[..n]) + sealedLen(packet[n].epoch, ContentLength(packet[n]))
  }

  /** The record that holds `n` bytes of a message from `off` on. */
  function RecordOf(out: Outgoing, off: nat, n: nat): Record
    requires out.Handshake? ==> off + n <= |MessageIn(out.data).body|
  {
    match out
    case ChangeCipherSpec(epoch) => CcsRecord(epoch)
    case Handshake(data, epoch) => HandshakeRecord(Serialize(Piece(MessageIn(data), off, n)), epoch)
  }

  /** How many bytes of a message are left from `off` on. */
  function Left(out: Outgoing, off: nat): int {
    if out.Handshake? then |MessageIn(out.data).body| - off else 0
  }

  /** The least room in which a message makes progress. */
  function Needed(overhead: nat -> nat, out: Outgoing): nat {
    overhead(out.epoch) + if out.Handshake? then HEADER_LENGTH + 1 else 1
  }

  /** The record takes all that is left of the message, or else exactly as much as the room allows. */
  ghost predicate FillsRoom(overhead: nat -> nat, out: Outgoing, off: nat, room: nat, n: nat) {
    && off + n <= off + Left(out, off)
    && (n == Left(out, off) || HEADER_LENGTH + n + overhead(out.epoch) == room)
  }

  /** Where a packet begins and ends in the flight. */
  datatype Span = Span(written: nat, offset: nat, written': nat, offset': nat)

  /** The offset from which message `i` is in the packet. */
  function From(s: Span, i: nat): nat {
    if i == s.written then s.offset else 0
  }

  /** Record `k` of the packet finishes the message it is cut from. */
  ghost predicate Finishes(outs: seq<Outgoing>, packet: seq<Record>, s: Span, k: int) {
    0 <= k < s.written' - s.written && k < |packet| ==>
      var i := s.written + k;
      && i < |outs| && Left(outs[i], From(s, i)) >= 0
      && packet[k] == RecordOf(outs[i], From(s, i), Left(outs[i], From(s, i)))
  }

  /** The packet holds the flight over this span, one record a message; it ends with the flight, with a record that
      takes all the room that was left, or where nothing more would have fitted. */
  ghost predicate Packed(overhead: nat -> nat, sealedLen: (nat, nat) -> nat, outs: seq<Outgoing>, packet: seq<Record>,
                         s: Span, maxOut: nat) {
    && s.written <= s.written' <= |outs|
    && |packet| == s.written' - s.written + (if s.offset' > 0 then 1 else 0)
    && (forall k :: Finishes(outs, packet, s, k))
    && PacketLength(sealedLen, packet) <= maxOut
    && (if s.offset' > 0 then LastFills(overhead, sealedLen, outs, packet, s, maxOut)
        else s.written' < |outs| ==> maxOut - PacketLength(sealedLen, packet) < Needed(overhead, outs[s.written']))
  }

  ghost predicate LastFills(overhead: nat -> nat, sealedLen: (nat, nat) -> nat, outs: seq<Outgoing>,
                            packet: seq<Record>, s: Span, maxOut: nat) {
    && s.written' < |outs| && |packet| > 0
    && var n := |packet| - 1;
    var out, start := outs[s.written'], From(s, s.written');
    && out.Handshake? && start < s.offset' < start + Left(out, start)
    && packet[n] == RecordOf(out, start, s.offset' - start)
    && HEADER_LENGTH + (s.offset' - start) + overhead(out.epoch) == maxOut - PacketLength(sealedLen, packet[..n])
  }

  /** A packet of the flight, with nothing left out that would have fitted. */
  ghost predicate IsPacket(overhead: nat -> nat, sealedLen: (nat, nat) -> nat, outs: seq<Outgoing>,
                           packet: seq<Record>, maxOut: nat) {
    packet != [] && exists s :: Packed(overhead, sealedLen, outs, packet, s, maxOut)
  }

  /** Whole records so far. */
  ghost predicate PackedSoFar(outs: seq<Outgoing>, packet: seq<Record>, s: Span) {
    && s.written <= s.written' <= |outs| && |packet| == s.written' - s.written
    && (forall k :: Finishes(outs, packet, s, k)) && s.offset' == if packet == [] then s.offset else 0
  }

  lemma LengthStep(sealedLen: (nat, nat) -> nat, packet: seq<Record>, r: Record)
    ensures PacketLength(sealedLen, packet + [r])
            == PacketLength(sealedLen, packet) + sealedLen(r.epoch, ContentLength(r))
  {
    assert (packet + [r])[..|packet|] == packet;
  }

  lemma NothingPacked(sealedLen: (nat, nat) -> nat, outs: seq<Outgoing>, s: Span)
    requires s.written == s.written' <= |outs| && s.offset == s.offset'
    ensures PackedSoFar(outs, [], s) && PacketLength(sealedLen, []) == 0
  {
  }

  lemma PieceLength(m: Message, off: nat, n: nat)
    requires off + n <= |m.body| && Fits(Piece(m, off, n))
    ensures |Serialize(Piece(m, off, n))| == HEADER_LENGTH + n
  {
  }

  lemma WholeRecordStep(outs: seq<Outgoing>, packet: seq<Record>, s: Span)
    requires PackedSoFar(outs, packet, s) && s.written' < |outs| && Left(outs[s.written'], s.offset') >= 0
    ensures var out := outs[s.written'];
            PackedSoFar(outs, packet + [RecordOf(out, s.offset', Left(out, s.offset'))],
                        s.(written' := s.written' + 1, offset' := 0))
  {
    hide RecordOf;
    var out, t := outs[s.written'], s.(written' := s.written' + 1, offset' := 0);
    var packet' := packet + [RecordOf(out, s.offset', Left(out, s.offset'))];
    assert From(t, s.written') == s.offset';
    forall k ensures Finishes(outs, packet', t, k) { assert Finishes(outs, packet, s, k); }
  }

  lemma PartialRecordStep(overhead: nat -> nat, sealedLen: (nat, nat) -> nat, outs: seq<Outgoing>,
                          packet: seq<Record>, s: Span, n: nat, maxOut: nat)
    requires PackedSoFar(outs, packet, s) && s.written' < |outs| && outs[s.written'].Handshake?
    requires 0 < n < Left(outs[s.written'], s.offset')
    requires HEADER_LENGTH + n + overhead(outs[s.written'].epoch) == maxOut - PacketLength(sealedLen, packet)
    requires PacketLength(sealedLen, packet + [RecordOf(outs[s.written'], s.offset', n)]) <= maxOut
    ensures Packed(overhead, sealedLen, outs, packet + [RecordOf(outs[s.written'], s.offset', n)],
                   s.(offset' := s.offset' + n), maxOut)
  {
    hide RecordOf, PacketLength;
    var t := s.(offset' := s.offset' + n);
    var packet' := packet + [RecordOf(outs[s.written'], s.offset', n)];
    assert packet'[..|packet|] == packet;
    forall k ensures Finishes(outs, packet', t, k) { assert Finishes(outs, packet, s, k); }
  }

  lemma NothingMoreFits(overhead: nat -> nat, sealedLen: (nat, nat) -> nat, outs: seq<Outgoing>, packet: seq<Record>,
                        s: Span, maxOut: nat)
    requires PackedSoFar(outs, packet, s) && packet != [] && PacketLength(sealedLen, packet) <= maxOut
    requires s.written' < |outs| ==> maxOut - PacketLength(sealedLen, packet) < Needed(overhead, outs[s.written'])
    ensures Packed(overhead, sealedLen, outs, packet, s, maxOut)
  {
  }

  /** The handshake messages of a flight, without ChangeCipherSpec. */
  function MessagesOf(outs: seq<Outgoing>): (ms: seq<Message>)
    ensures |ms| <= |outs| && forall m :: m in ms ==> |m.body| < 0x100_0000
  {
    if outs == [] then []
    else
      var last := outs[|outs| - 1];
      MessagesOf(outs[..|outs| - 1]) + if last.Handshake? then [MessageIn(last.data)] else []
  }

  lemma {:induction false} MessagesMembers(outs: seq<Outgoing>)
    ensures forall m :: m in MessagesOf(outs) <==>
              exists i :: 0 <= i < |outs| && outs[i].Handshake? && MessageIn(outs[i].data) == m
  {
    if outs != [] {
      var before := outs[..|outs| - 1];
      MessagesMembers(before);
      assert forall i :: 0 <= i < |before| ==> before[i] == outs[i];
    }
  }

  lemma MessagesStep(outs: seq<Outgoing>, out: Outgoing)
    requires AllSendable(outs) && Sendable(out)
    ensures AllSendable(outs + [out])
    ensures MessagesOf(outs + [out]) == MessagesOf(outs) + if out.Handshake? then [MessageIn(out.data)] else []
  {
    assert (outs + [out])[..|outs|] == outs;
    forall i ensures SendableAt(outs + [out], i) { assert SendableAt(outs, i); }
  }

  /** Appending to the flight moves nothing that was already cut. */
  lemma CutExtends(outs: seq<Outgoing>, out: Outgoing, fs: seq<Fragment>, written: nat, offset: nat)
    requires Cut(outs, fs, written, offset) && Sendable(out) && written <= |outs| && (written == |outs| ==> offset == 0)
    ensures Cut(outs + [out], fs, written, offset)
  {
    PiecesExtend(outs, out, fs);
    forall i ensures CutAt(outs + [out], fs, written, i) { assert CutAt(outs, fs, written, i); }
  }

  lemma PiecesExtend(outs: seq<Outgoing>, out: Outgoing, fs: seq<Fragment>)
    requires AllSendable(outs) && Sendable(out) && AllPieces(outs, fs)
    ensures AllSendable(outs + [out]) && AllPieces(outs + [out], fs)
  {
    var all := outs + [out];
    forall i ensures SendableAt(all, i) { assert SendableAt(outs, i); }
    forall f | f in fs
      ensures PieceOfSome(all, f)
    {
      assert PieceOfSome(outs, f);
      var i :| 0 <= i < |outs| && outs[i].Handshake? && PieceOf(f, MessageIn(outs[i].data));
      assert all[i] == outs[i];
    }
  }

  /** The messages of a flight are numbered one after the other, in 16 bits. */
  ghost predicate Numbered(outs: seq<Outgoing>, first: nat, next: nat) {
    (forall i :: NumberAt(MessagesOf(outs), first, i)) && next == Number(first, |MessagesOf(outs)|)
  }

  /** The number `i` places after `first`. */
  function Number(first: nat, i: nat): (n: nat)
    ensures n < 0x1_0000
  {
    (first + i) % 0x1_0000
  }

  ghost predicate NumberAt(ms: seq<Message>, first: nat, i: int) {
    0 <= i < |ms| ==> ms[i].sn == Number(first, i)
  }

  lemma NumberedStep(outs: seq<Outgoing>, first: nat, next: nat, out: Outgoing)
    requires AllSendable(outs) && Numbered(outs, first, next) && Sendable(out)
             && (out.Handshake? ==> MessageIn(out.data).sn == next)
    ensures AllSendable(outs + [out])
            && Numbered(outs + [out], first, if out.Handshake? then (next + 1) % 0x1_0000 else next)
  {
    MessagesStep(outs, out);
    var ms, ms' := MessagesOf(outs), MessagesOf(outs + [out]);
    NextNumber(first, |ms|);
    assert ms' == if out.Handshake? then ms + [MessageIn(out.data)] else ms;
    forall i ensures NumberAt(ms', first, i) { assert NumberAt(ms, first, i); }
  }

  lemma NextNumber(first: nat, n: nat)
    ensures (Number(first, n) + 1) % 0x1_0000 == Number(first, n + 1)
  {
  }

  lemma NumberingStarts(first: nat)
    requires first < 0x1_0000
    ensures Number(first, 0) == first
  {
  }

  /** An empty flight, numbered from `first` on. */
  lemma EmptyFlight(first: nat)
    requires first < 0x1_0000
    ensures FlightOk([], 0, 0, first, first, [], [])
  {
    NumberingStarts(first);
    forall i ensures NumberAt(MessagesOf([]), first, i) { }
  }

  /** A flight being sent: all fragments sent are pieces of it, and those since the last rewind leave nothing out
      before the current position. */
  ghost predicate FlightOk(messages: seq<Outgoing>, written: nat, offset: nat, writeSeq: nat, firstSeq: nat,
                           sent: seq<Fragment>, pass: seq<Fragment>) {
    && ShapeOk(messages, written, offset, writeSeq)
    && Cut(messages, pass, written, offset) && AllPieces(messages, sent)
    && (forall f :: f in pass ==> f in sent)
    && Numbered(messages, firstSeq, writeSeq)
  }

  ghost predicate ShapeOk(messages: seq<Outgoing>, written: nat, offset: nat, writeSeq: nat) {
    && |messages| <= MAX_FLIGHT && written <= |messages| && writeSeq < 0x1_0000
    && AllSendable(messages)
    && (offset > 0 ==>
          written < |messages| && messages[written].Handshake? && offset < |MessageIn(messages[written].data).body|)
  }

  /** One message more at the end. */
  lemma FlightGrows(messages: seq<Outgoing>, written: nat, offset: nat, writeSeq: nat, firstSeq: nat,
                    sent: seq<Fragment>, pass: seq<Fragment>, out: Outgoing)
    requires FlightOk(messages, written, offset, writeSeq, firstSeq, sent, pass) && |messages| < MAX_FLIGHT
    requires Sendable(out) && (out.Handshake? ==> MessageIn(out.data).sn == writeSeq)
    ensures FlightOk(messages + [out], written, offset,
                     if out.Handshake? then (writeSeq + 1) % 0x1_0000 else writeSeq, firstSeq,
                     sent, pass)
  {
    NumberedStep(messages, firstSeq, writeSeq, out);
    CutExtends(messages, out, pass, written, offset);
    PiecesExtend(messages, out, sent);
  }

  class Sender {
    const overhead: nat -> nat
    const prefix: nat -> nat
    const sealedLen: (nat, nat) -> nat
    var messages: seq<Outgoing>
    var written: nat
    var offset: nat
    var complete: bool
    var writeSeq: nat
    ghost var firstSeq: nat
    // All fragments of this flight handed to the transport, and those since the last rewind.
    ghost var sent: seq<Fragment>
    ghost var pass: seq<Fragment>
    // All packets ever handed to the transport.
    ghost var packets: seq<seq<Record>>

    /** What the record layer promises: a sealed record is longer than its contents by at most the overhead. */
    ghost predicate RecordLayer() {
      && (forall e :: prefix(e) <= overhead(e))
      && forall e, n: nat :: sealedLen(e, n) <= n + overhead(e)
    }

    ghost predicate Shape()
      reads this
    {
      RecordLayer() && ShapeOk(messages, written, offset, writeSeq)
    }

    ghost predicate Valid()
      reads this
    {
      RecordLayer() && FlightOk(messages, written, offset, writeSeq, firstSeq, sent, pass)
    }

    constructor (over: nat -> nat, pre: nat -> nat, sealed: (nat, nat) -> nat)
      requires (forall e :: pre(e) <= over(e)) && forall e, n: nat :: sealed(e, n) <= n + over(e)
      ensures Valid() && messages == [] && sent == [] && writeSeq == 0 && packets == []
    {
      overhead, prefix, sealedLen := over, pre, sealed;
      messages, written, offset, complete := [], 0, 0, false;
      writeSeq, firstSeq, sent, pass, packets := 0, 0, [], [], [];
      EmptyFlight(0);
    }

    /** dtls_clear_outgoing_messages. */
    method ClearOutgoing()
      requires Valid()
      modifies this
      ensures Valid() && messages == [] && !complete && writeSeq == old(writeSeq)
    {
      EmptyFlight(writeSeq);
      messages, written, offset, complete := [], 0, 0, false;
      firstSeq, sent, pass := writeSeq, [], [];
    }

    /** What a new message joins: a flight that was sent in full makes way for the next one. */
    function Unsent(): seq<Outgoing>
      reads this
    {
      if complete then [] else messages
    }

    /** The first half of add_outgoing. */
    method MakeWay()
      requires Valid()
      modifies this
      ensures Valid() && !complete && messages == old(Unsent()) && writeSeq == old(writeSeq)
    {
      if complete {
        ClearOutgoing();
      }
    }

    /** The second half of add_outgoing: the flight grows by the message unless it is full. */
    method AddOutgoing(out: Outgoing) returns (ok: bool)
      requires Valid() && !complete && Sendable(out) && (out.Handshake? ==> MessageIn(out.data).sn == writeSeq)
      modifies this`messages, this`writeSeq
      ensures Valid() && (ok <==> |old(messages)| < MAX_FLIGHT)
      ensures messages == if ok then old(messages) + [out] else old(messages)
      ensures writeSeq == if ok && out.Handshake? then (old(writeSeq) + 1) % 0x1_0000 else old(writeSeq)
    {
      hide *;
      ok := |messages| < MAX_FLIGHT;
      if ok {
        Push(out);
      }
    }

    /** dtls1_add_change_cipher_spec, before DTLS 1.3. */
    method AddChangeCipherSpec(epoch: nat) returns (ok: bool)
      requires Valid()
      modifies this
      ensures Valid() && !complete && (ok <==> |old(Unsent())| < MAX_FLIGHT)
      ensures messages == (if ok then old(Unsent()) + [ChangeCipherSpec(epoch)] else old(Unsent()))
              && writeSeq == old(writeSeq)
    {
      MakeWay();
      ok := AddOutgoing(ChangeCipherSpec(epoch));
    }

    /** A message takes the next place, and a handshake message the next number. */
    method Push(out: Outgoing)
      requires Valid() && Sendable(out) && (out.Handshake? ==> MessageIn(out.data).sn == writeSeq)
               && |messages| < MAX_FLIGHT
      modifies this`messages, this`writeSeq
      ensures Valid() && messages == old(messages) + [out]
      ensures writeSeq == if out.Handshake? then (old(writeSeq) + 1) % 0x1_0000 else old(writeSeq)
    {
      hide FlightOk, Sendable, MessageIn;
      FlightGrows(messages, written, offset, writeSeq, firstSeq, sent, pass, out);
      if out.Handshake? {
        writeSeq := (writeSeq + 1) % 0x1_0000;
      }
      messages := messages + [out];
    }

    /** dtls1_add_message, with the bytes of a message that carries the next number. */
    method AddData(data: seq<Byte>, epoch: nat) returns (ok: bool)
      requires Valid() && Whole(data) && MessageIn(data).sn == writeSeq
      modifies this
      ensures Valid() && !complete && (ok <==> |old(Unsent())| < MAX_FLIGHT)
      ensures messages == if ok then old(Unsent()) + [Handshake(data, epoch)] else old(Unsent())
      ensures writeSeq == if ok then (old(writeSeq) + 1) % 0x1_0000 else old(writeSeq)
    {
      hide FlightOk, Whole, MessageIn;
      MakeWay();
      ok := AddOutgoing(Handshake(data, epoch));
    }

    lemma UnsentSendable()
      requires Valid()
      ensures AllSendable(Unsent()) && writeSeq < 0x1_0000
    {
    }

    /** dtls1_init_message, dtls1_finish_message and dtls1_add_message. */
    method AddMessage(ty: Byte, body: seq<Byte>, epoch: nat) returns (ok: bool)
      requires Valid() && |body| < 0x100_0000
      modifies this
      ensures Valid() && !complete && (ok <==> |old(Unsent())| < MAX_FLIGHT)
      ensures ok ==> MessagesOf(messages) == MessagesOf(old(Unsent())) + [Message(ty, old(writeSeq), body)]
      ensures writeSeq == if ok then (old(writeSeq) + 1) % 0x1_0000 else old(writeSeq)
      ensures !ok ==> messages == old(Unsent())
    {
      hide FlightOk, Built, Whole, MessageIn, AllSendable, MessagesOf;
      UnsentSendable();
      var data := Built(Message(ty, writeSeq, body));
      BuiltIsWhole(Message(ty, writeSeq, body));
      MessagesStep(Unsent(), Handshake(data, epoch));
      ok := AddData(data, epoch);
    }

    /** seal_next_message; the caller advances `written` on success. */
    method SealNextMessage(maxOut: nat, ghost fs: seq<Fragment>) returns (r: SealResult, record: Record, len: nat)
      requires Shape() && written < |messages| && Cut(messages, fs, written, offset)
      modifies this`offset
      ensures Shape() && r != SealError && len <= maxOut && old(Left(messages[written], offset)) >= 0
      ensures r == NoProgress <==> maxOut < Needed(overhead, messages[written])
      ensures r == NoProgress ==> offset == old(offset) && len == 0
      ensures r == SealPartial ==>
        && messages[written].Handshake? && 0 < offset - old(offset) < old(Left(messages[written], offset))
        && HEADER_LENGTH + (offset - old(offset)) + overhead(messages[written].epoch) == maxOut
        && record == RecordOf(messages[written], old(offset), offset - old(offset))
      ensures r == SealSuccess ==>
        offset == 0 && record == RecordOf(messages[written], old(offset), old(Left(messages[written], offset)))
      ensures r != NoProgress ==> len == sealedLen(record.epoch, ContentLength(record))
      ensures r != NoProgress ==>
        Cut(messages, fs + Fragments([record]), if r == SealSuccess then written + 1 else written, offset)
    {
      hide Cut, Fragments, Parse, Serialize, Piece, Whole, MessageIn;
      var msg := messages[written];
      var over := overhead(msg.epoch);
      r, record, len := NoProgress, CcsRecord(msg.epoch), 0;
      if msg.ChangeCipherSpec? {
        if maxOut >= 1 + over {
          r, len := SealSuccess, sealedLen(msg.epoch, 1);
          SealedCcs(messages, fs, written);
        }
        return;
      }
      assert SendableAt(messages, written);
      if !Whole(msg.data) {
        r := SealError;
        return;
      }
      if maxOut < HEADER_LENGTH + 1 + over || maxOut < prefix(msg.epoch) {
        return;
      }
      var m := MessageIn(msg.data);
      var todo := |m.body| - offset;
      if todo > maxOut - HEADER_LENGTH - over {
        todo := maxOut - HEADER_LENGTH - over;
      }
      SealedPiece(messages, fs, written, offset, todo);
      record := HandshakeRecord(Serialize(Piece(m, offset, todo)), msg.epoch);
      PieceLength(m, offset, todo);
      len := sealedLen(msg.epoch, HEADER_LENGTH + todo);
      if todo == |m.body| - offset {
        offset := 0;
        r := SealSuccess;
      } else {
        offset := offset + todo;
        r := SealPartial;
      }
    }

    /** One round of the loop of seal_next_packet. */
    method SealRecord(packet: seq<Record>, maxOut: nat, total: nat, ghost s: Span)
      returns (r: SealResult, packet': seq<Record>, len: nat, ghost s': Span)
      requires Shape() && written < |messages| && Cut(messages, pass + Fragments(packet), written, offset)
      requires PackedSoFar(messages, packet, s) && s.written' == written && s.offset' == offset
      requires total == PacketLength(sealedLen, packet) <= maxOut
      modifies this`written, this`offset
      ensures Shape() && total + len <= maxOut && Cut(messages, pass + Fragments(packet'), written, offset)
      ensures r == NoProgress <==> maxOut - total < Needed(overhead, messages[old(written)])
      ensures s' == s.(written' := written, offset' := offset) && total + len == PacketLength(sealedLen, packet')
      ensures if r == NoProgress then
                written == old(written) && offset == old(offset) && packet' == packet
              else if r == SealPartial then
                written == old(written) && offset > old(offset) && packet' != []
                && Packed(overhead, sealedLen, messages, packet', s', maxOut)
              else written == old(written) + 1 && packet' != [] && PackedSoFar(messages, packet', s')
    {
      hide Cut, Fragments, MessageIn, AllSendable, RecordOf, PacketLength, Left, PackedSoFar, Packed, Needed,
        ContentLength;
      ghost var fs := pass + Fragments(packet);
      var record;
      ghost var out, off := messages[written], offset;
      r, record, len := SealNextMessage(maxOut - total, fs);
      packet' := packet;
      if r != NoProgress {
        FragmentsStep(packet, record);
        LengthStep(sealedLen, packet, record);
        assert fs + Fragments([record]) == pass + Fragments(packet + [record]);
        packet' := packet + [record];
        if r != SealPartial {
          WholeRecordStep(messages, packet, s);
          written := written + 1;
        } else {
          PartialRecordStep(overhead, sealedLen, messages, packet, s, offset - off, maxOut);
        }
      }
      s' := s.(written' := written, offset' := offset);
    }

    /** seal_next_packet: as many records as fit; fails only if not even one does. */
    method SealNextPacket(maxOut: nat) returns (ok: bool, packet: seq<Record>, total: nat)
      requires Valid() && written < |messages|
      modifies this`written, this`offset
      ensures Shape() && total <= maxOut && total == PacketLength(sealedLen, packet)
      ensures ok ==> packet != []
      ensures ok ==> Packed(overhead, sealedLen, messages, packet, Span(old(written), old(offset), written, offset),
                            maxOut)
      ensures ok ==> Cut(messages, pass + Fragments(packet), written, offset)
      ensures ok ==> old(written) < written || (old(written) == written && old(offset) < offset)
      ensures !ok ==> written == old(written) && offset == old(offset)
      ensures ok <==> maxOut >= Needed(overhead, messages[old(written)])
    {
      hide Cut, AllSendable, AllPieces, Numbered, PacketLength, PackedSoFar, Packed, Needed, Left, MessageIn;
      packet, total := [], 0;
      ok := false;
      ghost var s := Span(written, offset, written, offset);
      NothingPacked(sealedLen, messages, s);
      assert pass + Fragments(packet) == pass;
      while written < |messages|
        invariant Shape() && total == PacketLength(sealedLen, packet) <= maxOut
        invariant Cut(messages, pass + Fragments(packet), written, offset)
        invariant PackedSoFar(messages, packet, s) && s == Span(old(written), old(offset), written, offset)
        invariant ok ==> old(written) < written && packet != [] && maxOut >= Needed(overhead, messages[old(written)])
        invariant !ok ==> written == old(written) && offset == old(offset) && total == 0
        invariant written == |messages| ==> ok
        decreases |messages| - written
      {
        var r, packet', len;
        ghost var s';
        r, packet', len, s' := SealRecord(packet, maxOut, total, s);
        if r == NoProgress {
          if ok {
            NothingMoreFits(overhead, sealedLen, messages, packet, s, maxOut);
          }
          return;
        }
        packet, total, ok, s := packet', total + len, true, s';
        if r == SealPartial {
          return;
        }
      }
      NothingMoreFits(overhead, sealedLen, messages, packet, s, maxOut);
    }

    lemma SentPieces(outs: seq<Outgoing>, fs: seq<Fragment>, more: seq<Fragment>, before: seq<Fragment>)
      requires AllPieces(outs, fs + more) && AllPieces(outs, before)
      ensures AllPieces(outs, before + more)
    {
      forall f | f in before + more
        ensures PieceOfSome(outs, f)
      {
        assert f in before || f in fs + more;
      }
    }

    /** Everything from the start of the flight has been handed over since the last rewind. */
    ghost predicate PassDone()
      reads this
    {
      written == |messages| && forall i :: CutAt(messages, pass, |messages|, i)
    }

    /** What was handed over since there were `n` packets: packets that fit the MTU, with nothing left out. */
    ghost predicate PacketsSince(n: nat, mtu: nat)
      reads this`packets, this`messages
    {
      forall k :: n <= k < |packets| ==> IsPacket(overhead, sealedLen, messages, packets[k], mtu)
    }

    /** One packet of send_flight; a packet the transport refuses will be cut again next time. */
    method SendPacket(mtu: nat, accepted: bool) returns (ok: bool, ghost packet: seq<Record>)
      requires Valid() && written < |messages|
      modifies this`written, this`offset, this`sent, this`pass, this`packets
      ensures Valid()
      ensures ok ==> old(written) < written || (old(written) == written && old(offset) < offset)
      ensures !ok ==> written == old(written) && offset == old(offset) && sent == old(sent) && pass == old(pass)
                      && packets == old(packets)
      ensures ok ==> IsPacket(overhead, sealedLen, messages, packet, mtu) && packets == old(packets) + [packet]
                     && sent == old(sent) + Fragments(packet) && pass == old(pass) + Fragments(packet)
      ensures ok <==> accepted && mtu >= Needed(overhead, messages[old(written)])
    {
      hide CutUpTo, AllSendable, AllPieces, Numbered, Fragments, MessageIn, Packed, Needed, PacketLength;
      var oldWritten, oldOffset := written, offset;
      var bytes, total;
      ok, bytes, total := SealNextPacket(mtu);
      packet := bytes;
      if !ok {
        return;
      }
      if !accepted {
        written, offset := oldWritten, oldOffset;
        return false, packet;
      }
      SentPieces(messages, pass, Fragments(packet), sent);
      pass, sent, packets := pass + Fragments(packet), sent + Fragments(packet), packets + [packet];
    }

    /** Room for a one-byte fragment in every epoch. */
    ghost predicate RoomFor(mtu: nat) {
      forall e :: mtu >= HEADER_LENGTH + 1 + overhead(e)
    }

    /** send_flight.  `accepts(i)` says whether the transport takes the i-th packet of this call, `flushes` whether it
        can then be flushed. */
    method SendFlight(mtu: nat, accepts: nat -> bool, flushes: bool) returns (done: bool)
      requires Valid()
      modifies this`written, this`offset, this`sent, this`pass, this`packets
      ensures Valid() && old(sent) <= sent && old(pass) <= pass
      ensures old(packets) <= packets && PacketsSince(|old(packets)|, mtu)
      ensures done <==> PassDone() && flushes
      // With room for a one-byte fragment in every epoch and a transport that takes everything, the flight goes out.
      ensures RoomFor(mtu) && (forall i :: accepts(i)) ==> PassDone()
    {
      var attempt := 0;
      while written < |messages|
        invariant Valid() && old(sent) <= sent && old(pass) <= pass
        invariant old(packets) <= packets && PacketsSince(|old(packets)|, mtu)
        decreases |messages| - written, if written < |messages| && messages[written].Handshake? then
                                          |MessageIn(messages[written].data).body| - offset else 0
      {
        var ok, _ := SendPacket(mtu, accepts(attempt));
        attempt := attempt + 1;
        if !ok {
          return false;
        }
      }
      done := flushes;
    }

    /** dtls1_flush_flight. */
    method FlushFlight(mtu: nat, accepts: nat -> bool, flushes: bool) returns (done: bool)
      requires Valid()
      modifies this`written, this`offset, this`sent, this`pass, this`packets, this`complete
      ensures Valid() && old(sent) <= sent && complete && (done <==> PassDone() && flushes)
      ensures old(packets) <= packets && PacketsSince(|old(packets)|, mtu)
    {
      complete := true;
      done := SendFlight(mtu, accepts, flushes);
    }

    /** dtls1_retransmit_outgoing_messages: rewind and send the flight again. */
    method Retransmit(mtu: nat, accepts: nat -> bool, flushes: bool) returns (done: bool)
      requires Valid()
      modifies this`written, this`offset, this`sent, this`pass, this`packets
      ensures Valid() && old(sent) <= sent
      ensures done <==> PassDone() && flushes
      ensures RoomFor(mtu) && (forall i :: accepts(i)) ==> PassDone()
      ensures old(packets) <= packets && PacketsSince(|old(packets)|, mtu)
    {
      written, offset := 0, 0;
      pass := [];
      done := SendFlight(mtu, accepts, flushes);
    }
  }
}
