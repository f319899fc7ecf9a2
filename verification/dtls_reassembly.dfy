// What the receiver of ssl/d1_both.cc computes, as a function of the fragments that arrive, and why that reassembles
// a flight (section 4.2.3 of RFC 6347).
module DtlsReassembly {
  import opened Basics
  import opened DtlsFragments

  datatype Alert = DecodeError | IllegalParameter | UnexpectedMessage | InternalError

  /** A message being reassembled: its header and the bytes received so far. */
  datatype Partial = Partial(ty: Byte, len: nat, bytes: map<nat, Byte>)

  datatype View = View(readSeq: nat, slots: map<nat, Partial>)

  datatype Delivery = Accepted(view: View) | Rejected(alert: Alert)

  predicate Complete(p: Partial) {
    forall i :: 0 <= i < p.len ==> i in p.bytes
  }

  predicate Within(k: nat, off: nat, n: nat) {
    off <= k < off + n
  }

  function Write(bytes: map<nat, Byte>, off: nat, body: seq<Byte>): map<nat, Byte> {
    map i | i in bytes.Keys + (set k: nat | off <= k < off + |body| && Within(k, off, |body|))
      :: if Within(i, off, |body|) then body[i - off] else bytes[i]
  }

  /** What dtls1_get_incoming_message finds or makes for a fragment inside the window. */
  function SlotFor(v: View, f: Fragment): Partial {
    if f.sn in v.slots then v.slots[f.sn] else Partial(f.ty, f.msgLen, map[])
  }

  /** One round of the loop in dtls1_open_handshake.  `lone` is set in the encrypted epoch of one message. */
  function Deliver(v: View, f: Fragment, maxLen: nat, lone: bool): Delivery {
    if f.off > f.msgLen || f.off + |f.body| > f.msgLen || f.msgLen > maxLen then Rejected(IllegalParameter)
    else if lone && f.sn != v.readSeq then Rejected(UnexpectedMessage)
    else if f.sn < v.readSeq || f.sn > v.readSeq + MAX_FLIGHT then Accepted(v)
    else if f.sn - v.readSeq >= MAX_FLIGHT then Rejected(InternalError)
    else
      var p := SlotFor(v, f);
      if p.ty != f.ty || p.len != f.msgLen then Rejected(IllegalParameter)
      else
        var p' := if Complete(p) then p else p.(bytes := Write(p.bytes, f.off, f.body));
        Accepted(v.(slots := v.slots[f.sn := p']))
  }

  /** dtls1_open_handshake on one record: fragments before a bad one have already been taken in. */
  function DeliverRecord(v: View, s: seq<Byte>, maxLen: nat, lone: bool): (View, Option<Alert>)
    decreases |s|
  {
    if s == [] then (v, None)
    else
      match Parse(s)
      case None => (v, Some(DecodeError))
      case Some((f, rest)) =>
        match Deliver(v, f, maxLen, lone)
        case Rejected(alert) => (v, Some(alert))
        case Accepted(v') => DeliverRecord(v', rest, maxLen, lone)
  }

  /** dtls1_get_message. */
  function Current(v: View): Option<Message> {
    if v.readSeq in v.slots && Complete(v.slots[v.readSeq]) then
      var p := v.slots[v.readSeq];
      Some(Message(p.ty, v.readSeq, seq(p.len, i requires 0 <= i < p.len => p.bytes[i])))
    else None
  }

  /** dtls1_next_message; handshake_read_seq has 16 bits. */
  function Advance(v: View): View {
    View((v.readSeq + 1) % 0x1_0000, v.slots - {v.readSeq})
  }

  /** A message that can be released stays as it is, whatever arrives. */
  lemma DeliverKeepsCurrent(v: View, f: Fragment, maxLen: nat, lone: bool)
    requires Current(v).Some? && Deliver(v, f, maxLen, lone).Accepted?
    ensures Current(Deliver(v, f, maxLen, lone).view) == Current(v)
  {
  }

  // ---------------------------------------------------------------- the edge of the window

  /** Fragments beyond the window are ignored, except those exactly one window ahead, which abort the connection. */
  lemma WindowEdge(v: View, f: Fragment, maxLen: nat)
    requires f.off + |f.body| <= f.msgLen <= maxLen && f.sn >= v.readSeq + MAX_FLIGHT
    ensures Deliver(v, f, maxLen, false)
            == if f.sn == v.readSeq + MAX_FLIGHT then Rejected(InternalError) else Accepted(v)
  {
  }

  // ---------------------------------------------------------------- runs

  /** The application asks for messages between records; a record is one or more whole fragments. */
  datatype Event = Arrive(record: seq<Fragment>) | Release

  datatype State = State(view: View, released: seq<Message>, arrived: seq<Fragment>, alert: Option<Alert>)

  function SerializeAll(fs: seq<Fragment>): seq<Byte>
    requires forall f :: f in fs ==> Fits(f)
  {
    if fs == [] then [] else Serialize(fs[0]) + SerializeAll(fs[1..])
  }

  function Step(st: State, e: Event, maxLen: nat): State
    requires e.Arrive? ==> forall f :: f in e.record ==> Fits(f)
  {
    match e
    case Arrive(fs) =>
      var (v, alert) := DeliverRecord(st.view, SerializeAll(fs), maxLen, false);
      st.(view := v, arrived := st.arrived + fs, alert := if st.alert.Some? then st.alert else alert)
    case Release =>
      match Current(st.view)
      case None => st
      case Some(m) => st.(view := Advance(st.view), released := st.released + [m])
  }

  ghost predicate GoodEvent(e: Event, msgs: seq<Message>) {
    e.Arrive? ==> forall f :: f in e.record ==> Fits(f) && Genuine(f, msgs)
  }

  ghost predicate FlightEvents(events: seq<Event>, msgs: seq<Message>) {
    forall i :: 0 <= i < |events| ==> GoodEvent(events[i], msgs)
  }

  function Start(first: nat): State {
    State(View(first, map[]), [], [], None)
  }

  ghost function Run(events: seq<Event>, msgs: seq<Message>, first: nat, maxLen: nat): State
    requires FlightEvents(events, msgs)
  {
    if events == [] then Start(first)
    else Step(Run(events[..|events| - 1], msgs, first, maxLen), events[|events| - 1], maxLen)
  }

  // ---------------------------------------------------------------- the invariant

  /** A reassembly agrees with the message it is for. */
  ghost predicate Agrees(p: Partial, m: Message) {
    p.ty == m.ty && p.len == |m.body| && forall i :: i in p.bytes ==> i < p.len && p.bytes[i] == m.body[i]
  }

  predicate Covers(f: Fragment, sn: nat, i: nat) {
    f.sn == sn && f.off <= i < f.off + |f.body|
  }

  ghost predicate Covered(fs: seq<Fragment>, sn: nat, i: nat) {
    exists f :: f in fs && Covers(f, sn, i)
  }

  ghost predicate Seen(fs: seq<Fragment>, sn: nat) {
    exists f :: f in fs && f.sn == sn
  }

  /** Every byte of the message has arrived, and at least one fragment of it. */
  ghost predicate FullyArrived(fs: seq<Fragment>, m: Message) {
    Seen(fs, m.sn) && forall i :: 0 <= i < |m.body| ==> Covered(fs, m.sn, i)
  }

  /** The slot of a message holds exactly the bytes that arrived for it. */
  ghost predicate SlotOk(v: View, fs: seq<Fragment>, m: Message) {
    && (m.sn in v.slots <==> Seen(fs, m.sn))
    && (m.sn in v.slots ==> Agrees(v.slots[m.sn], m) && forall i :: i in v.slots[m.sn].bytes <==> Covered(fs, m.sn, i))
  }

  ghost predicate Inv(st: State, msgs: seq<Message>, first: nat, maxLen: nat) {
    && Flight(msgs, first, maxLen) && st.alert == None
    && first <= st.view.readSeq <= first + |msgs|
    && st.released == msgs[..st.view.readSeq - first]
    && (forall sn :: sn in st.view.slots ==> st.view.readSeq <= sn < first + |msgs|)
    && (forall i :: 0 <= i < st.view.readSeq - first ==> FullyArrived(st.arrived, msgs[i]))
    && (forall i {:trigger msgs[i]} :: st.view.readSeq - first <= i < |msgs| ==> SlotOk(st.view, st.arrived, msgs[i]))
  }

  lemma MoreArrived(fs: seq<Fragment>, f: Fragment, m: Message)
    ensures FullyArrived(fs, m) ==> FullyArrived(fs + [f], m)
    ensures Seen(fs + [f], m.sn) <==> Seen(fs, m.sn) || f.sn == m.sn
    ensures forall i :: Covered(fs + [f], m.sn, i) <==> Covered(fs, m.sn, i) || Covers(f, m.sn, i)
  {
    assert forall g :: g in fs + [f] <==> g in fs || g == f;
    assert f in fs + [f];
    forall i ensures Covered(fs + [f], m.sn, i) <==> Covered(fs, m.sn, i) || Covers(f, m.sn, i) { }
  }

  /** A fragment written into a slot adds exactly its bytes. */
  lemma WrittenSlot(p: Partial, fs: seq<Fragment>, f: Fragment, m: Message)
    requires PieceOf(f, m) && Agrees(p, m) && forall i :: i in p.bytes <==> Covered(fs, m.sn, i)
    ensures var p' := if Complete(p) then p else p.(bytes := Write(p.bytes, f.off, f.body));
            Agrees(p', m) && forall i :: i in p'.bytes <==> Covered(fs + [f], m.sn, i)
  {
    MoreArrived(fs, f, m);
    if Complete(p) {
      forall i | Covers(f, m.sn, i) ensures i in p.bytes { }
    }
  }

  lemma FreshSlot(v: View, fs: seq<Fragment>, f: Fragment, m: Message)
    requires PieceOf(f, m) && SlotOk(v, fs, m)
    ensures var p := SlotFor(v, f); Agrees(p, m) && forall i :: i in p.bytes <==> Covered(fs, m.sn, i)
  {
    if m.sn !in v.slots {
      forall i ensures !Covered(fs, m.sn, i) { }
    }
  }

  /** A fragment of the flight is never rejected and updates exactly its own slot. */
  lemma GenuineSlot(v: View, fs: seq<Fragment>, f: Fragment, m: Message, maxLen: nat)
    requires PieceOf(f, m) && |m.body| <= maxLen && SlotOk(v, fs, m) && v.readSeq <= m.sn < v.readSeq + MAX_FLIGHT
    ensures Deliver(v, f, maxLen, false).Accepted?
    ensures var v' := Deliver(v, f, maxLen, false).view;
            SlotOk(v', fs + [f], m) && v'.readSeq == v.readSeq && v'.slots.Keys == v.slots.Keys + {m.sn}
            && forall sn :: sn in v.slots && sn != m.sn ==> v'.slots[sn] == v.slots[sn]
  {
    FreshSlot(v, fs, f, m);
    WrittenSlot(SlotFor(v, f), fs, f, m);
    assert f in fs + [f];
  }

  lemma OtherSlot(v: View, v': View, fs: seq<Fragment>, f: Fragment, m: Message)
    requires SlotOk(v, fs, m) && f.sn != m.sn
    requires m.sn in v.slots <==> m.sn in v'.slots
    requires m.sn in v.slots ==> v'.slots[m.sn] == v.slots[m.sn]
    ensures SlotOk(v', fs + [f], m)
  {
    MoreArrived(fs, f, m);
  }

  lemma DeliverKeepsInv(st: State, f: Fragment, msgs: seq<Message>, first: nat, maxLen: nat)
    requires Inv(st, msgs, first, maxLen) && Genuine(f, msgs)
    ensures Deliver(st.view, f, maxLen, false).Accepted?
    ensures Inv(st.(view := Deliver(st.view, f, maxLen, false).view, arrived := st.arrived + [f]), msgs, first, maxLen)
  {
    var v, v' := st.view, Deliver(st.view, f, maxLen, false).view;
    var m :| m in msgs && PieceOf(f, m);
    var k :| 0 <= k < |msgs| && msgs[k] == m;
    forall i | 0 <= i < v.readSeq - first
      ensures FullyArrived(st.arrived + [f], msgs[i]) { MoreArrived(st.arrived, f, msgs[i]); }
    if k >= v.readSeq - first {
      GenuineSlot(v, st.arrived, f, msgs[k], maxLen);
    }
    forall i | v.readSeq - first <= i < |msgs|
      ensures SlotOk(v', st.arrived + [f], msgs[i])
    {
      if i != k { OtherSlot(v, v', st.arrived, f, msgs[i]); }
    }
  }

  /** Handling a record byte by byte is delivering its fragments one by one. */
  lemma RecordStep(st: State, fs: seq<Fragment>, maxLen: nat)
    requires st.alert == None && fs != [] && (forall f :: f in fs ==> Fits(f))
    requires Deliver(st.view, fs[0], maxLen, false).Accepted?
    ensures Step(st, Arrive(fs), maxLen)
            == Step(st.(view := Deliver(st.view, fs[0], maxLen, false).view, arrived := st.arrived + [fs[0]]),
                    Arrive(fs[1..]), maxLen)
  {
    ParseSerialize(fs[0], SerializeAll(fs[1..]));
    assert st.arrived + fs == st.arrived + [fs[0]] + fs[1..];
  }

  lemma {:induction false} RecordKeepsInv(st: State, fs: seq<Fragment>, msgs: seq<Message>, first: nat, maxLen: nat)
    requires Inv(st, msgs, first, maxLen)
    requires forall f :: f in fs ==> Fits(f) && Genuine(f, msgs)
    ensures Inv(Step(st, Arrive(fs), maxLen), msgs, first, maxLen)
    decreases |fs|
  {
    if fs == [] {
      assert Step(st, Arrive(fs), maxLen) == st;
    } else {
      var f := fs[0];
      assert f in fs;
      DeliverKeepsInv(st, f, msgs, first, maxLen);
      RecordStep(st, fs, maxLen);
      var mid := st.(view := Deliver(st.view, f, maxLen, false).view, arrived := st.arrived + [f]);
      RecordKeepsInv(mid, fs[1..], msgs, first, maxLen);
    }
  }

  lemma ReleaseKeepsInv(st: State, msgs: seq<Message>, first: nat, maxLen: nat)
    requires Inv(st, msgs, first, maxLen)
    ensures Inv(Step(st, Release, maxLen), msgs, first, maxLen)
  {
    var v, n := st.view, st.view.readSeq - first;
    if Current(v).Some? {
      var m := msgs[n];
      assert SlotOk(v, st.arrived, m);
      assert Current(v).value == m by {
        assert Current(v).value.body == m.body;
      }
      assert msgs[..n + 1] == msgs[..n] + [m];
      var v' := Advance(v);
      forall i | n + 1 <= i < |msgs|
        ensures SlotOk(v', st.arrived, msgs[i])
      {
        assert SlotOk(v, st.arrived, msgs[i]) && msgs[i].sn != v.readSeq;
      }
    }
  }

  lemma StartInv(msgs: seq<Message>, first: nat, maxLen: nat)
    requires Flight(msgs, first, maxLen)
    ensures Inv(Start(first), msgs, first, maxLen)
  {
  }

  /** However the fragments of a flight are ordered, repeated, overlapped or lost, the receiver raises no alert, has
      released a prefix of the flight unchanged and in order, and holds exactly the bytes that arrived. */
  lemma {:induction false} FlightReassembles(events: seq<Event>, msgs: seq<Message>, first: nat, maxLen: nat)
    requires FlightEvents(events, msgs) && Flight(msgs, first, maxLen)
    ensures Inv(Run(events, msgs, first, maxLen), msgs, first, maxLen)
  {
    if events == [] {
      StartInv(msgs, first, maxLen);
    } else {
      var before, e := events[..|events| - 1], events[|events| - 1];
      FlightReassembles(before, msgs, first, maxLen);
      var st := Run(before, msgs, first, maxLen);
      match e
      case Arrive(fs) => RecordKeepsInv(st, fs, msgs, first, maxLen);
      case Release => ReleaseKeepsInv(st, msgs, first, maxLen);
    }
  }

  /** The next message can be released exactly when every byte of it has arrived. */
  lemma ReleasedIffArrived(events: seq<Event>, msgs: seq<Message>, first: nat, maxLen: nat)
    requires FlightEvents(events, msgs) && Flight(msgs, first, maxLen)
    ensures var st := Run(events, msgs, first, maxLen);
            var n := |st.released|;
            && n <= |msgs| && st.released == msgs[..n] && st.alert == None
            && (forall i :: 0 <= i < n ==> FullyArrived(st.arrived, msgs[i]))
            && (Current(st.view).Some? <==> n < |msgs| && FullyArrived(st.arrived, msgs[n]))
            && (Current(st.view).Some? ==> Current(st.view).value == msgs[n])
  {
    FlightReassembles(events, msgs, first, maxLen);
    var st := Run(events, msgs, first, maxLen);
    var n := |st.released|;
    if n < |msgs| {
      assert SlotOk(st.view, st.arrived, msgs[n]) && msgs[n].sn == st.view.readSeq;
      if Current(st.view).Some? {
        assert Current(st.view).value.body == msgs[n].body;
        forall i | 0 <= i < |msgs[n].body|
          ensures Covered(st.arrived, msgs[n].sn, i) { assert i in st.view.slots[msgs[n].sn].bytes; }
      }
    }
  }

  function Releases(n: nat): seq<Event> {
    seq(n, _ => Release)
  }

  lemma OneMoreRelease(events: seq<Event>, msgs: seq<Message>, first: nat, maxLen: nat)
    requires FlightEvents(events, msgs) && Flight(msgs, first, maxLen)
    requires forall m :: m in msgs ==> FullyArrived(Run(events, msgs, first, maxLen).arrived, m)
    ensures FlightEvents(events + [Release], msgs)
    ensures var st, st' := Run(events, msgs, first, maxLen), Run(events + [Release], msgs, first, maxLen);
            st'.arrived == st.arrived && |st'.released| >= if |st.released| < |msgs| then |st.released| + 1 else |msgs|
  {
    var all := events + [Release];
    assert all[..|all| - 1] == events;
    ReleasedIffArrived(events, msgs, first, maxLen);
  }

  /** Once everything has arrived, asking for messages yields the rest of the flight. */
  lemma {:induction false} EverythingIsReleased(events: seq<Event>, msgs: seq<Message>, first: nat, maxLen: nat, n: nat)
    requires FlightEvents(events, msgs) && Flight(msgs, first, maxLen)
    requires forall m :: m in msgs ==> FullyArrived(Run(events, msgs, first, maxLen).arrived, m)
    ensures FlightEvents(events + Releases(n), msgs)
    ensures var st := Run(events + Releases(n), msgs, first, maxLen);
            st.arrived == Run(events, msgs, first, maxLen).arrived && |st.released| >= if n <= |msgs| then n else |msgs|
  {
    if n == 0 {
      assert events + Releases(0) == events;
    } else {
      EverythingIsReleased(events, msgs, first, maxLen, n - 1);
      assert events + Releases(n) == events + Releases(n - 1) + [Release];
      OneMoreRelease(events + Releases(n - 1), msgs, first, maxLen);
    }
  }

  // ---------------------------------------------------------------- more messages than the window holds

  /** Any number of messages with consecutive numbers. */
  ghost predicate Stream(msgs: seq<Message>, first: nat, maxLen: nat) {
    forall i {:trigger msgs[i]} :: 0 <= i < |msgs| ==> msgs[i].sn == first + i && |msgs[i].body| <= maxLen
  }

  /** Every slot was made for a message of the stream. */
  ghost predicate Consistent(v: View, msgs: seq<Message>) {
    forall m :: m in msgs && m.sn in v.slots ==> v.slots[m.sn].ty == m.ty && v.slots[m.sn].len == |m.body|
  }

  predicate AtEdge(v: View, f: Fragment) {
    f.sn == v.readSeq + MAX_FLIGHT
  }

  lemma GenuineDelivery(v: View, f: Fragment, msgs: seq<Message>, first: nat, maxLen: nat)
    requires Stream(msgs, first, maxLen) && Consistent(v, msgs) && Genuine(f, msgs)
    ensures var d := Deliver(v, f, maxLen, false);
            if AtEdge(v, f) then d == Rejected(InternalError)
            else d.Accepted? && d.view.readSeq == v.readSeq && Consistent(d.view, msgs)
  {
    var m :| m in msgs && PieceOf(f, m);
    if f.sn >= v.readSeq + MAX_FLIGHT {
      WindowEdge(v, f, maxLen);
    } else if f.sn >= v.readSeq {
      forall g | g in msgs && g.sn == f.sn ensures g == m { SameNumber(msgs, first, maxLen, g, m); }
    }
  }

  lemma SameNumber(msgs: seq<Message>, first: nat, maxLen: nat, a: Message, b: Message)
    requires Stream(msgs, first, maxLen) && a in msgs && b in msgs && a.sn == b.sn
    ensures a == b
  {
    var i :| 0 <= i < |msgs| && msgs[i] == a;
    var j :| 0 <= j < |msgs| && msgs[j] == b;
  }

  /** A record raises an alert exactly if it holds a fragment at the edge, whatever else it holds. */
  lemma {:induction false} RecordAlert(v: View, fs: seq<Fragment>, msgs: seq<Message>, first: nat, maxLen: nat)
    requires Stream(msgs, first, maxLen) && Consistent(v, msgs) && forall f :: f in fs ==> Fits(f) && Genuine(f, msgs)
    ensures var (v', alert) := DeliverRecord(v, SerializeAll(fs), maxLen, false);
            && v'.readSeq == v.readSeq && Consistent(v', msgs)
            && alert == if exists f :: f in fs && AtEdge(v, f) then Some(InternalError) else None
    decreases |fs|
  {
    if fs != [] {
      var f := fs[0];
      assert f in fs;
      GenuineDelivery(v, f, msgs, first, maxLen);
      ParseSerialize(f, SerializeAll(fs[1..]));
      var d := Deliver(v, f, maxLen, false);
      assert fs == [f] + fs[1..];
      if d.Accepted? {
        RecordAlert(d.view, fs[1..], msgs, first, maxLen);
        assert forall g :: AtEdge(v, g) <==> AtEdge(d.view, g);
      }
    }
  }

  /** An event brings a fragment that is exactly one window ahead of the next message. */
  ghost predicate Ahead(v: View, e: Event) {
    e.Arrive? && exists f :: f in e.record && AtEdge(v, f)
  }

  /** Event `i` of a run does. */
  ghost predicate ReachesEdge(events: seq<Event>, msgs: seq<Message>, first: nat, maxLen: nat, i: int)
    requires FlightEvents(events, msgs)
  {
    0 <= i < |events| && Ahead(Run(events[..i], msgs, first, maxLen).view, events[i])
  }

  lemma {:induction false} RunConsistent(events: seq<Event>, msgs: seq<Message>, first: nat, maxLen: nat)
    requires FlightEvents(events, msgs) && Stream(msgs, first, maxLen)
    ensures Consistent(Run(events, msgs, first, maxLen).view, msgs)
  {
    if events != [] {
      var before, e := events[..|events| - 1], events[|events| - 1];
      RunConsistent(before, msgs, first, maxLen);
      if e.Arrive? {
        RecordAlert(Run(before, msgs, first, maxLen).view, e.record, msgs, first, maxLen);
      }
    }
  }

  lemma StepAlert(st: State, e: Event, msgs: seq<Message>, first: nat, maxLen: nat)
    requires Stream(msgs, first, maxLen) && Consistent(st.view, msgs) && GoodEvent(e, msgs)
    ensures e.Arrive? ==> forall f :: f in e.record ==> Fits(f)
    ensures Step(st, e, maxLen).alert
            == if st.alert.Some? then st.alert else if Ahead(st.view, e) then Some(InternalError) else None
  {
    if e.Arrive? {
      RecordAlert(st.view, e.record, msgs, first, maxLen);
    }
  }

  /** A peer that sends only proper fragments has its connection aborted exactly when, at some point of the run, one of
      them is exactly one window ahead; fragments still further ahead do no harm. */
  lemma {:induction false} AbortsAtEdge(events: seq<Event>, msgs: seq<Message>, first: nat, maxLen: nat)
    requires FlightEvents(events, msgs) && Stream(msgs, first, maxLen)
    ensures Run(events, msgs, first, maxLen).alert
            == if exists i :: ReachesEdge(events, msgs, first, maxLen, i) then Some(InternalError) else None
  {
    if events != [] {
      var n := |events| - 1;
      AbortsAtEdge(events[..n], msgs, first, maxLen);
      RunConsistent(events[..n], msgs, first, maxLen);
      LastAlert(events, msgs, first, maxLen);
      LastReaches(events, msgs, first, maxLen);
    }
  }

  lemma LastAlert(events: seq<Event>, msgs: seq<Message>, first: nat, maxLen: nat)
    requires FlightEvents(events, msgs) && Stream(msgs, first, maxLen) && events != []
    requires Consistent(Run(events[..|events| - 1], msgs, first, maxLen).view, msgs)
    ensures var st, e := Run(events[..|events| - 1], msgs, first, maxLen), events[|events| - 1];
            Run(events, msgs, first, maxLen).alert
            == if st.alert.Some? then st.alert else if Ahead(st.view, e) then Some(InternalError) else None
  {
    StepAlert(Run(events[..|events| - 1], msgs, first, maxLen), events[|events| - 1], msgs, first, maxLen);
  }

  lemma LastReaches(events: seq<Event>, msgs: seq<Message>, first: nat, maxLen: nat)
    requires FlightEvents(events, msgs) && events != []
    ensures var n := |events| - 1;
            (exists i :: ReachesEdge(events, msgs, first, maxLen, i))
            <==> (exists i :: ReachesEdge(events[..n], msgs, first, maxLen, i))
                 || Ahead(Run(events[..n], msgs, first, maxLen).view, events[n])
  {
    hide Run, Ahead;
    var n := |events| - 1;
    var before := events[..n];
    forall i | 0 <= i < n
      ensures ReachesEdge(before, msgs, first, maxLen, i) <==> ReachesEdge(events, msgs, first, maxLen, i)
    {
      assert before[..i] == events[..i];
    }
    if i :| ReachesEdge(before, msgs, first, maxLen, i) {
      assert ReachesEdge(events, msgs, first, maxLen, i);
    }
    if i :| ReachesEdge(events, msgs, first, maxLen, i) {
      assert i < n ==> ReachesEdge(before, msgs, first, maxLen, i);
    }
    if Ahead(Run(before, msgs, first, maxLen).view, events[n]) {
      assert ReachesEdge(events, msgs, first, maxLen, n);
    }
  }
}
