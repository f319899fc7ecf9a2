// Sender, network and receiver together: sections 4.2.3 and 4.2.4 of RFC 6347.
module DtlsEndToEnd {
  import opened Basics
  import opened DtlsFragments
  import opened DtlsReassembly
  import opened DtlsSenders

  /** The network invents nothing: whatever arrives was sent.  It may drop, repeat, delay and reorder. */
  ghost predicate FromSender(events: seq<Event>, sent: seq<Fragment>) {
    forall i, f :: 0 <= i < |events| && events[i].Arrive? && f in events[i].record ==> f in sent
  }

  ghost predicate Arrives(events: seq<Event>, f: Fragment) {
    exists i :: 0 <= i < |events| && events[i].Arrive? && f in events[i].record
  }

  lemma SentIsGenuine(outs: seq<Outgoing>, sent: seq<Fragment>, events: seq<Event>)
    requires AllSendable(outs) && AllPieces(outs, sent) && FromSender(events, sent)
    ensures FlightEvents(events, MessagesOf(outs))
  {
    MessagesMembers(outs);
    forall i | 0 <= i < |events|
      ensures GoodEvent(events[i], MessagesOf(outs))
    {
      if events[i].Arrive? {
        forall f | f in events[i].record
          ensures Fits(f) && Genuine(f, MessagesOf(outs))
        {
          assert PieceOfSome(outs, f);
          var k :| 0 <= k < |outs| && outs[k].Handshake? && PieceOf(f, MessageIn(outs[k].data));
          assert MessageIn(outs[k].data) in MessagesOf(outs);
        }
      }
    }
  }

  lemma LastArrives(events: seq<Event>, f: Fragment)
    requires events != []
    ensures var n := |events| - 1;
            Arrives(events, f) <==> Arrives(events[..n], f) || (events[n].Arrive? && f in events[n].record)
  {
    var n := |events| - 1;
    if i :| 0 <= i < |events| && events[i].Arrive? && f in events[i].record {
      assert i < n ==> events[..n][i] == events[i];
    }
    if i :| 0 <= i < n && events[..n][i].Arrive? && f in events[..n][i].record {
      assert events[..n][i] == events[i];
    }
  }

  /** What a step adds to the fragments that have arrived. */
  lemma StepArrives(st: State, e: Event, msgs: seq<Message>, maxLen: nat, f: Fragment)
    requires GoodEvent(e, msgs)
    ensures f in Step(st, e, maxLen).arrived <==> f in st.arrived || (e.Arrive? && f in e.record)
  {
  }

  lemma {:induction false} ArrivedMembers(events: seq<Event>, msgs: seq<Message>, first: nat, maxLen: nat)
    requires FlightEvents(events, msgs)
    ensures forall f :: f in Run(events, msgs, first, maxLen).arrived <==> Arrives(events, f)
  {
    if events != [] {
      var n := |events| - 1;
      var before, st := events[..n], Run(events[..n], msgs, first, maxLen);
      ArrivedMembers(before, msgs, first, maxLen);
      forall f
        ensures f in Step(st, events[n], maxLen).arrived <==> Arrives(events, f)
      {
        StepArrives(st, events[n], msgs, maxLen, f);
        LastArrives(events, f);
      }
    }
  }

  /** The network has brought every byte of the message, and at least one fragment of it. */
  ghost predicate Came(events: seq<Event>, m: Message) {
    && (exists f :: Arrives(events, f) && f.sn == m.sn)
    && forall b :: 0 <= b < |m.body| ==> ByteCame(events, m, b)
  }

  ghost predicate ByteCame(events: seq<Event>, m: Message, b: nat) {
    exists f :: Arrives(events, f) && Covers(f, m.sn, b)
  }

  lemma CameIsArrived(events: seq<Event>, msgs: seq<Message>, first: nat, maxLen: nat, m: Message)
    requires FlightEvents(events, msgs)
    ensures Came(events, m) <==> FullyArrived(Run(events, msgs, first, maxLen).arrived, m)
  {
    hide Arrives;
    var fs := Run(events, msgs, first, maxLen).arrived;
    ArrivedMembers(events, msgs, first, maxLen);
    forall b: nat ensures ByteCame(events, m, b) <==> Covered(fs, m.sn, b) { }
  }

  lemma MoreIsFull(fs: seq<Fragment>, more: seq<Fragment>, m: Message)
    requires FullyArrived(fs, m) && forall f :: f in fs ==> f in more
    ensures FullyArrived(more, m)
  {
    forall i | 0 <= i < |m.body|
      ensures Covered(more, m.sn, i)
    {
      assert Covered(fs, m.sn, i);
    }
  }

  /** Whatever the network does to the fragments, the receiver releases the messages unchanged, in order, each only
      after all its bytes have arrived, and never raises an alert. */
  lemma FlightIsSafe(outs: seq<Outgoing>, sent: seq<Fragment>, events: seq<Event>, first: nat, maxLen: nat)
    requires AllSendable(outs) && AllPieces(outs, sent) && FromSender(events, sent)
    requires Flight(MessagesOf(outs), first, maxLen)
    ensures FlightEvents(events, MessagesOf(outs))
    ensures var st := Run(events, MessagesOf(outs), first, maxLen);
            && st.alert == None && st.released <= MessagesOf(outs)
            && forall i :: 0 <= i < |st.released| ==> FullyArrived(st.arrived, MessagesOf(outs)[i])
  {
    SentIsGenuine(outs, sent, events);
    ReleasedIffArrived(events, MessagesOf(outs), first, maxLen);
  }

  /** Once a complete pass over the flight has arrived, every message has. */
  lemma PassArrives(outs: seq<Outgoing>, sent: seq<Fragment>, pass: seq<Fragment>, events: seq<Event>, first: nat,
                    maxLen: nat)
    requires AllSendable(outs) && AllPieces(outs, sent) && FromSender(events, sent)
    requires forall i :: CutAt(outs, pass, |outs|, i)
    requires forall f :: f in pass ==> Arrives(events, f)
    ensures FlightEvents(events, MessagesOf(outs))
    ensures forall m :: m in MessagesOf(outs) ==> FullyArrived(Run(events, MessagesOf(outs), first, maxLen).arrived, m)
  {
    var msgs := MessagesOf(outs);
    SentIsGenuine(outs, sent, events);
    ArrivedMembers(events, msgs, first, maxLen);
    MessagesMembers(outs);
    var arrived := Run(events, msgs, first, maxLen).arrived;
    forall m | m in msgs
      ensures FullyArrived(arrived, m)
    {
      var i :| 0 <= i < |outs| && outs[i].Handshake? && MessageIn(outs[i].data) == m;
      assert CutAt(outs, pass, |outs|, i);
      MoreIsFull(pass, arrived, m);
    }
  }

  /** If every fragment of one complete pass over the flight arrives, in any order and mixed with anything else that
      was sent, the receiver can release the whole flight. */
  lemma FlightGetsThrough(outs: seq<Outgoing>, sent: seq<Fragment>, pass: seq<Fragment>, events: seq<Event>,
                          first: nat, maxLen: nat)
    requires AllSendable(outs) && AllPieces(outs, sent) && FromSender(events, sent)
    requires Flight(MessagesOf(outs), first, maxLen)
    requires forall i :: CutAt(outs, pass, |outs|, i)
    requires forall f :: f in pass ==> Arrives(events, f)
    ensures var msgs := MessagesOf(outs);
            var all := events + Releases(|msgs|);
            FlightEvents(all, msgs) && Run(all, msgs, first, maxLen).released == msgs
  {
    var msgs := MessagesOf(outs);
    PassArrives(outs, sent, pass, events, first, maxLen);
    EverythingIsReleased(events, msgs, first, maxLen, |msgs|);
    ReleasedIffArrived(events + Releases(|msgs|), msgs, first, maxLen);
  }

  lemma SmallNumber(n: nat)
    requires n < 0x1_0000
    ensures n % 0x1_0000 == n
  {
  }

  /** A flight the sender numbered is one the receiver can reassemble, short of wrapping its 16-bit numbers. */
  lemma NumberedIsFlight(outs: seq<Outgoing>, first: nat, next: nat, maxLen: nat)
    requires AllSendable(outs) && |outs| <= MAX_FLIGHT && Numbered(outs, first, next)
    requires first + |MessagesOf(outs)| < 0x1_0000 && forall m :: m in MessagesOf(outs) ==> |m.body| <= maxLen
    ensures Flight(MessagesOf(outs), first, maxLen)
  {
    var ms := MessagesOf(outs);
    forall i | 0 <= i < |ms|
      ensures ms[i].sn == first + i && |ms[i].body| <= maxLen && |ms[i].body| < 0x100_0000
    {
      assert ms[i] in ms && NumberAt(ms, first, i);
      SmallNumber(first + i);
    }
  }
}
