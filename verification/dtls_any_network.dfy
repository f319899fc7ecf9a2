// The receiver of ssl/d1_both.cc on a network that may deliver anything: what it rejects, what it holds, and where the
// bytes it releases come from.
module DtlsAnyNetwork {
  import opened Basics
  import opened DtlsFragments
  import opened DtlsReassembly

  /** A record arrives, of any bytes, or the application asks for a message.  `lone` is set while the receiver expects
      one message only. */
  datatype Happening = Record(bytes: seq<Byte>, lone: bool) | Ask

  /** The receiver, the fragments behind each slot, and the released messages with theirs. */
  datatype Trace = Trace(view: View, behind: map<nat, seq<Fragment>>, released: seq<(Message, seq<Fragment>)>,
                         alert: Option<Alert>)

  predicate InWindow(v: View, sn: nat) {
    v.readSeq <= sn < v.readSeq + MAX_FLIGHT
  }

  function Behind(t: Trace, sn: nat): seq<Fragment> {
    if sn in t.behind then t.behind[sn] else []
  }

  /** One fragment. */
  function Take(t: Trace, f: Fragment, lone: bool, maxLen: nat): Trace {
    match Deliver(t.view, f, maxLen, lone)
    case Rejected(alert) => t.(alert := Some(alert))
    case Accepted(v) =>
      t.(view := v, behind := if InWindow(v, f.sn) then t.behind[f.sn := Behind(t, f.sn) + [f]] else t.behind)
  }

  /** One record, fragment by fragment. */
  function TakeRecord(t: Trace, s: seq<Byte>, lone: bool, maxLen: nat): Trace
    decreases |s|
  {
    if s == [] || t.alert.Some? then t
    else
      match Parse(s)
      case None => t.(alert := Some(DecodeError))
      case Some((f, rest)) => TakeRecord(Take(t, f, lone, maxLen), rest, lone, maxLen)
  }

  /** After an alert the connection is over. */
  function Happens(t: Trace, h: Happening, maxLen: nat): Trace {
    match h
    case Record(bytes, lone) => TakeRecord(t, bytes, lone, maxLen)
    case Ask =>
      match Current(t.view)
      case None => t
      case Some(m) =>
        if t.alert.Some? then t
        else Trace(Advance(t.view), t.behind - {t.view.readSeq}, t.released + [(m, Behind(t, t.view.readSeq))], None)
  }

  /** The view and the alert are those of the receiver. */
  lemma {:induction false} TakenAsDelivered(t: Trace, s: seq<Byte>, lone: bool, maxLen: nat)
    requires t.alert.None?
    ensures var t' := TakeRecord(t, s, lone, maxLen);
            (t'.view, t'.alert) == DeliverRecord(t.view, s, maxLen, lone)
    decreases |s|
  {
    if s != [] && Parse(s).Some? {
      var (f, rest) := Parse(s).value;
      if Deliver(t.view, f, maxLen, lone).Accepted? {
        TakenAsDelivered(Take(t, f, lone, maxLen), rest, lone, maxLen);
      }
    }
  }

  function After(hs: seq<Happening>, first: nat, maxLen: nat): Trace {
    if hs == [] then Trace(View(first, map[]), map[], [], None)
    else Happens(After(hs[..|hs| - 1], first, maxLen), hs[|hs| - 1], maxLen)
  }

  // ---------------------------------------------------------------- the invariant

  predicate Inside(f: Fragment, i: nat) {
    f.off <= i < f.off + |f.body|
  }

  ghost predicate ByteFrom(fs: seq<Fragment>, i: nat, b: Byte) {
    exists f :: f in fs && Inside(f, i) && f.body[i - f.off] == b
  }

  ghost predicate Touched(fs: seq<Fragment>, i: nat) {
    exists f :: f in fs && Inside(f, i)
  }

  /** All fragments agree on type and length, and lie within the message. */
  ghost predicate AllOf(fs: seq<Fragment>, ty: Byte, len: nat) {
    forall f :: f in fs ==> f.ty == ty && f.msgLen == len && f.off + |f.body| <= len
  }

  /** A slot holds what its fragments brought. */
  ghost predicate Made(p: Partial, fs: seq<Fragment>) {
    && fs != [] && AllOf(fs, p.ty, p.len)
    && (forall i: nat :: i in p.bytes <==> Touched(fs, i))
    && forall i :: i in p.bytes ==> ByteFrom(fs, i, p.bytes[i])
  }

  /** A message with every byte from a fragment that says it belongs to that message. */
  ghost predicate Backed(m: Message, fs: seq<Fragment>) {
    && fs != [] && AllOf(fs, m.ty, |m.body|) && (forall f :: f in fs ==> f.sn == m.sn)
    && forall i :: 0 <= i < |m.body| ==> ByteFrom(fs, i, m.body[i])
  }

  ghost predicate SlotMade(t: Trace, maxLen: nat, sn: nat) {
    sn in t.view.slots ==>
      && InWindow(t.view, sn) && sn < 0x1_0000 && t.view.slots[sn].len <= maxLen
      && sn in t.behind && t.behind[sn] != [] && Made(t.view.slots[sn], t.behind[sn])
      && forall f :: f in t.behind[sn] ==> f.sn == sn
  }

  ghost predicate ReleasedAt(t: Trace, first: nat, maxLen: nat, k: int) {
    0 <= k < |t.released| ==>
      var (m, fs) := t.released[k];
      m.sn == (first + k) % 0x1_0000 && |m.body| <= maxLen && Backed(m, fs)
  }

  ghost predicate Inv(t: Trace, first: nat, maxLen: nat) {
    && t.view.readSeq == (first + |t.released|) % 0x1_0000
    && t.behind.Keys == t.view.slots.Keys
    && (forall sn :: SlotMade(t, maxLen, sn))
    && forall k :: ReleasedAt(t, first, maxLen, k)
  }

  lemma OneFragmentMore(fs: seq<Fragment>, f: Fragment, i: nat)
    ensures Touched(fs + [f], i) <==> Touched(fs, i) || Inside(f, i)
    ensures forall b :: ByteFrom(fs, i, b) ==> ByteFrom(fs + [f], i, b)
    ensures Inside(f, i) ==> ByteFrom(fs + [f], i, f.body[i - f.off])
  {
    assert f in fs + [f];
    assert forall g :: g in fs + [f] <==> g in fs || g == f;
  }

  /** What a fragment adds to a slot. */
  lemma Grows(p: Partial, fs: seq<Fragment>, f: Fragment)
    requires if fs == [] then p.bytes == map[] else Made(p, fs)
    requires f.ty == p.ty && f.msgLen == p.len && f.off + |f.body| <= p.len
    ensures Made(if Complete(p) then p else p.(bytes := Write(p.bytes, f.off, f.body)), fs + [f])
  {
    hide ByteFrom, Touched;
    var p' := if Complete(p) then p else p.(bytes := Write(p.bytes, f.off, f.body));
    forall i: nat
      ensures i in p'.bytes <==> Touched(fs + [f], i)
      ensures i in p'.bytes ==> ByteFrom(fs + [f], i, p'.bytes[i])
    {
      OneFragmentMore(fs, f, i);
      if fs == [] { NothingTouched(i); }
    }
  }

  lemma NothingTouched(i: nat)
    ensures !Touched([], i)
  {
  }

  /** In any reachable state: a fragment raises an alert exactly if it does not lie within a message of allowed length,
      is not of the one message expected, is exactly one window ahead, or contradicts an earlier fragment of its
      message. */
  lemma AlertsExactly(t: Trace, f: Fragment, first: nat, maxLen: nat, lone: bool)
    requires Inv(t, first, maxLen)
    ensures Deliver(t.view, f, maxLen, lone).Rejected?
            <==> (|| f.off + |f.body| > f.msgLen || f.msgLen > maxLen
                  || (lone && f.sn != t.view.readSeq)
                  || f.sn == t.view.readSeq + MAX_FLIGHT
                  || exists g :: g in Behind(t, f.sn) && (g.ty != f.ty || g.msgLen != f.msgLen))
  {
    assert SlotMade(t, maxLen, f.sn);
    if f.sn in t.view.slots {
      var g := t.behind[f.sn][0];
      assert g in t.behind[f.sn];
    }
  }

  lemma TakeKeeps(t: Trace, f: Fragment, first: nat, maxLen: nat, lone: bool)
    requires Inv(t, first, maxLen) && f.sn < 0x1_0000
    ensures Inv(Take(t, f, lone, maxLen), first, maxLen)
  {
    hide Made, Write, Complete, Backed;
    var t' := Take(t, f, lone, maxLen);
    assert SlotMade(t, maxLen, f.sn);
    if Deliver(t.view, f, maxLen, lone).Accepted? && InWindow(t.view, f.sn) {
      Grows(SlotFor(t.view, f), Behind(t, f.sn), f);
    }
    forall sn ensures SlotMade(t', maxLen, sn) { assert SlotMade(t, maxLen, sn); }
    forall k ensures ReleasedAt(t', first, maxLen, k) { assert ReleasedAt(t, first, maxLen, k); }
  }

  lemma {:induction false} RecordKeeps(t: Trace, s: seq<Byte>, first: nat, maxLen: nat, lone: bool)
    requires Inv(t, first, maxLen)
    ensures Inv(TakeRecord(t, s, lone, maxLen), first, maxLen)
    decreases |s|
  {
    if s != [] && t.alert.None? {
      match Parse(s)
      case None =>
        var t' := t.(alert := Some(DecodeError));
        forall sn ensures SlotMade(t', maxLen, sn) { assert SlotMade(t, maxLen, sn); }
        forall k ensures ReleasedAt(t', first, maxLen, k) { assert ReleasedAt(t, first, maxLen, k); }
      case Some((f, rest)) =>
        TakeKeeps(t, f, first, maxLen, lone);
        RecordKeeps(Take(t, f, lone, maxLen), rest, first, maxLen, lone);
    }
  }

  lemma CurrentBacked(t: Trace, first: nat, maxLen: nat)
    requires Inv(t, first, maxLen) && Current(t.view).Some?
    ensures var m := Current(t.view).value;
            m.sn == t.view.readSeq && |m.body| <= maxLen && Backed(m, Behind(t, m.sn))
  {
    assert SlotMade(t, maxLen, t.view.readSeq);
  }

  lemma AskKeeps(t: Trace, first: nat, maxLen: nat)
    requires Inv(t, first, maxLen)
    ensures Inv(Happens(t, Ask, maxLen), first, maxLen)
  {
    if Current(t.view).Some? {
      var t' := Happens(t, Ask, maxLen);
      CurrentBacked(t, first, maxLen);
      forall sn ensures SlotMade(t', maxLen, sn) { assert SlotMade(t, maxLen, sn); }
      forall k ensures ReleasedAt(t', first, maxLen, k) { assert ReleasedAt(t, first, maxLen, k); }
    }
  }

  /** Whatever arrives: every slot in the window holds what the fragments accepted for its message brought, and every
      released message has the next number and takes each byte from a fragment that was accepted for it. */
  lemma {:induction false} AnyNetwork(hs: seq<Happening>, first: nat, maxLen: nat)
    requires first < 0x1_0000
    ensures Inv(After(hs, first, maxLen), first, maxLen)
  {
    if hs != [] {
      var t := After(hs[..|hs| - 1], first, maxLen);
      AnyNetwork(hs[..|hs| - 1], first, maxLen);
      match hs[|hs| - 1]
      case Record(bytes, lone) => RecordKeeps(t, bytes, first, maxLen, lone);
      case Ask => AskKeeps(t, first, maxLen);
    }
  }
}
