// A flight from the sender's fields to the receiver's: the classes of ssl/d1_both.cc at both ends of a network.
module DtlsTransfers {
  import opened Basics
  import opened DtlsFragments
  import opened DtlsReassembly
  import opened DtlsReceivers
  import opened DtlsSenders
  import opened DtlsEndToEnd

  /** What is still to be read fits the receiver's limits and does not wrap its 16-bit numbers. */
  ghost predicate Receivable(outs: seq<Outgoing>, first: nat, maxLen: nat) {
    first + |MessagesOf(outs)| < 0x1_0000 && forall m :: m in MessagesOf(outs) ==> |m.body| <= maxLen
  }

  /** The receiver waits for the first message of the flight the sender holds. */
  ghost predicate Connected(sender: Sender, receiver: Receiver)
    reads sender, receiver, receiver.incoming, receiver.Repr
  {
    && sender.Valid() && receiver.Valid() && !receiver.lone && sender !in receiver.Repr
    && receiver.Abstract() == View(sender.firstSeq, map[])
    && Receivable(sender.messages, sender.firstSeq, receiver.maxLen)
  }

  lemma ConnectedFlight(outs: seq<Outgoing>, written: nat, offset: nat, writeSeq: nat, first: nat, sent: seq<Fragment>,
                        pass: seq<Fragment>, events: seq<Event>, maxLen: nat)
    requires FlightOk(outs, written, offset, writeSeq, first, sent, pass) && Receivable(outs, first, maxLen)
    requires FromSender(events, sent)
    ensures FlightEvents(events, MessagesOf(outs)) && Flight(MessagesOf(outs), first, maxLen)
  {
    NumberedIsFlight(outs, first, writeSeq, maxLen);
    SentIsGenuine(outs, sent, events);
  }

  lemma RunGrows(events: seq<Event>, e: Event, msgs: seq<Message>, first: nat, maxLen: nat)
    requires FlightEvents(events, msgs) && GoodEvent(e, msgs)
    ensures FlightEvents(events + [e], msgs)
    ensures Run(events + [e], msgs, first, maxLen) == Step(Run(events, msgs, first, maxLen), e, maxLen)
  {
    assert (events + [e])[..|events|] == events;
  }

  /** The receiver's part of one event: a record is opened, or the application asks for a message. */
  method HandleEvent(receiver: Receiver, e: Event, received: seq<Message>, ghost st: State)
    returns (received': seq<Message>, alert: Option<Alert>)
    requires receiver.Valid() && !receiver.lone && (e.Arrive? ==> forall f :: f in e.record ==> Fits(f))
    requires st.view == receiver.Abstract() && st.released == received && st.alert == None
    modifies receiver, receiver.incoming, receiver.Repr
    ensures receiver.Valid() && fresh(receiver.Repr - old(receiver.Repr))
    ensures var st' := Step(st, e, receiver.maxLen);
            st'.view == receiver.Abstract() && st'.released == received' && st'.alert == alert
  {
    received', alert := received, None;
    match e
    case Arrive(record) =>
      alert := receiver.OpenHandshake(SerializeAll(record));
    case Release =>
      var m, _ := receiver.GetMessage();
      if m.Some? {
        receiver.NextMessage();
        received' := received + [m.value];
      }
  }

  /** One message more after everything has arrived. */
  lemma ReleaseStep(events: seq<Event>, msgs: seq<Message>, first: nat, maxLen: nat)
    requires FlightEvents(events, msgs) && Flight(msgs, first, maxLen)
    ensures FlightEvents(events + [Release], msgs)
    ensures var st := Run(events, msgs, first, maxLen);
            Run(events + [Release], msgs, first, maxLen) == Step(st, Release, maxLen)
            && (Current(st.view).Some? ==> |st.released| < |msgs|) && st.alert == None
  {
    RunGrows(events, Release, msgs, first, maxLen);
    ReleasedIffArrived(events, msgs, first, maxLen);
  }

  /** The receiver's part of a whole run. */
  method HandleAll(receiver: Receiver, network: seq<Event>, ghost msgs: seq<Message>, ghost first: nat)
    returns (received: seq<Message>, alert: Option<Alert>)
    requires receiver.Valid() && !receiver.lone && receiver.Abstract() == View(first, map[])
    requires FlightEvents(network, msgs) && Flight(msgs, first, receiver.maxLen)
    modifies receiver, receiver.incoming, receiver.Repr
    ensures receiver.Valid() && fresh(receiver.Repr - old(receiver.Repr))
    ensures var st := Run(network, msgs, first, receiver.maxLen);
            st.view == receiver.Abstract() && st.released == received && st.alert == alert == None
  {
    hide Flight, Step, FullyArrived, Current;
    ghost var maxLen, repr := receiver.maxLen, receiver.Repr;
    received, alert := [], None;
    assert network[..0] == [];
    for i := 0 to |network|
      invariant receiver.Valid() && fresh(receiver.Repr - repr) && FlightEvents(network[..i], msgs)
      invariant var st := Run(network[..i], msgs, first, maxLen);
                st.view == receiver.Abstract() && st.released == received && st.alert == alert == None
    {
      var e := network[i];
      assert network[..i + 1] == network[..i] + [e] && GoodEvent(e, msgs);
      RunGrows(network[..i], e, msgs, first, maxLen);
      ReleasedIffArrived(network[..i + 1], msgs, first, maxLen);
      received, alert := HandleEvent(receiver, e, received, Run(network[..i], msgs, first, maxLen));
    }
    assert network[..|network|] == network;
  }

  /** The application asks until there is no message left to be had. */
  method TakeRest(receiver: Receiver, before: seq<Message>, ghost events: seq<Event>, ghost msgs: seq<Message>,
                  ghost first: nat)
    returns (received: seq<Message>)
    requires receiver.Valid() && !receiver.lone && FlightEvents(events, msgs) && Flight(msgs, first, receiver.maxLen)
    requires var st := Run(events, msgs, first, receiver.maxLen);
             st.view == receiver.Abstract() && st.released == before
    modifies receiver, receiver.incoming, receiver.Repr
    ensures received <= msgs
    ensures forall k :: 0 <= k < |received| ==>
              FullyArrived(Run(events, msgs, first, receiver.maxLen).arrived, msgs[k])
    ensures |received| < |msgs| ==> !FullyArrived(Run(events, msgs, first, receiver.maxLen).arrived, msgs[|received|])
  {
    received := before;
    ghost var all := events;
    ghost var repr := receiver.Repr;
    ReleasedIffArrived(events, msgs, first, receiver.maxLen);
    var more := true;
    while more
      invariant receiver.Valid() && fresh(receiver.Repr - repr) && FlightEvents(all, msgs) && received <= msgs
      invariant var st := Run(all, msgs, first, receiver.maxLen);
                && st.view == receiver.Abstract() && st.released == received && st.alert == None
                && st.arrived == Run(events, msgs, first, receiver.maxLen).arrived
                && (!more ==> Current(st.view).None?)
      decreases more, |msgs| - |received|
    {
      ReleaseStep(all, msgs, first, receiver.maxLen);
      var received', _ := HandleEvent(receiver, Release, received, Run(all, msgs, first, receiver.maxLen));
      more := |received'| > |received|;
      received, all := received', all + [Release];
      ReleasedIffArrived(all, msgs, first, receiver.maxLen);
    }
    ReleasedIffArrived(all, msgs, first, receiver.maxLen);
  }

  /** Whatever the network does with what the sender has sent, the receiver takes it in without an alert and hands over
      messages of the flight, unchanged and in order.  If a complete pass over the flight was among it, all of them. */
  method Transfer(sender: Sender, receiver: Receiver, network: seq<Event>)
    returns (received: seq<Message>, alert: Option<Alert>)
    requires Connected(sender, receiver) && FromSender(network, sender.sent)
    modifies receiver, receiver.incoming, receiver.Repr
    ensures alert == None && received <= MessagesOf(sender.messages)
    // Exactly the messages that came whole, up to the first that did not.
    ensures forall k :: 0 <= k < |received| ==> Came(network, MessagesOf(sender.messages)[k])
    ensures |received| < |MessagesOf(sender.messages)| ==>
              !Came(network, MessagesOf(sender.messages)[|received|])
    ensures sender.PassDone() && (forall f :: f in sender.pass ==> Arrives(network, f)) ==>
            received == MessagesOf(sender.messages)
  {
    hide Flight, FlightOk, FlightEvents, FromSender, Receivable, Run, Arrives, CutAt, FullyArrived, MessagesOf;
    ghost var msgs, first, maxLen := MessagesOf(sender.messages), sender.firstSeq, receiver.maxLen;
    ConnectedFlight(sender.messages, sender.written, sender.offset, sender.writeSeq, first, sender.sent, sender.pass,
                    network, maxLen);
    received, alert := HandleAll(receiver, network, msgs, first);
    received := TakeRest(receiver, received, network, msgs, first);
    forall m ensures Came(network, m) <==> FullyArrived(Run(network, msgs, first, maxLen).arrived, m) {
      CameIsArrived(network, msgs, first, maxLen, m);
    }
    if sender.PassDone() && forall f :: f in sender.pass ==> Arrives(network, f) {
      SenderPieces(sender);
      PassArrives(sender.messages, sender.sent, sender.pass, network, first, maxLen);
    }
  }

  lemma SenderPieces(sender: Sender)
    requires sender.Valid()
    ensures AllSendable(sender.messages) && AllPieces(sender.messages, sender.sent)
  {
  }
}
