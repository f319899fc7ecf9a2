// Records of a type the log reader does not know: the last case of the switch in Reader::ReadRecord of
// db/log_reader.cc.
module UnknownTypes {
  import opened Basics
  import opened LogFormat
  import opened LogReaders

  /** Neither a type the writer uses nor the filler of a preallocated file. */
  predicate Unknown(t: Byte, payload: seq<Byte>) {
    t > LAST || (t == ZERO && payload != [])
  }

  /** The reader is about to read a record of unknown type with a correct checksum, followed by `more`. */
  ghost predicate AtUnknown(crc: Checksum, st: ReaderState, off: Offset, t: Byte, payload: seq<Byte>, more: seq<Byte>) {
    && Synced(st, off) && Start(off) + HEADER + |payload| <= BLOCK && Unknown(t, payload)
    && Remaining(st) == Trailer(off) + Physical(crc, t, payload) + more
  }

  function Behind(off: Offset, payload: seq<Byte>, more: seq<Byte>): ReaderState
    requires Start(off) + HEADER + |payload| <= BLOCK
  {
    StateAt(Start(off) + HEADER + |payload|, more)
  }

  /** What the code means to do with an unknown type: report everything it drops, and read on behind the record. */
  function Promised(crc: Checksum, next: ReaderState, payload: seq<Byte>, inFragment: bool, scratch: seq<Byte>,
                    reports: seq<nat>)
    : (Option<seq<Byte>>, ReaderState, seq<nat>)
  {
    ReadLogical(crc, next, false, [], reports + [|payload| + if inFragment then |scratch| else 0])
  }

  lemma UnknownPhysical(crc: Checksum, st: ReaderState, off: Offset, t: Byte, payload: seq<Byte>, more: seq<Byte>)
    requires AtUnknown(crc, st, off, t, payload, more)
    ensures ReadPhysical(crc, st) == (ByType(t, payload), Behind(off, payload, more), [])
  {
    hide Synced, ReadPhysical, ByType, StateAt;
    var bytes := Trailer(off) + Physical(crc, t, payload);
    PhysicalReads(crc, st, off, t, payload, more);
    assert |bytes| == |Trailer(off)| + HEADER + |payload|;
    assert (bytes + more)[|bytes|..] == more;
    SyncedIsStateAt(ReadPhysical(crc, st).1, Start(off) + HEADER + |payload|);
  }

  /** In any state, inside a record or not: type 5 ends the reading, type 6 counts as an invalid record, and every other
      unknown type is dealt with as meant. */
  lemma UnknownReads(crc: Checksum, st: ReaderState, off: Offset, t: Byte, payload: seq<Byte>, more: seq<Byte>,
                     inFragment: bool, scratch: seq<Byte>, reports: seq<nat>)
    requires AtUnknown(crc, st, off, t, payload, more)
    ensures var next := Behind(off, payload, more);
            ReadLogical(crc, st, inFragment, scratch, reports)
            == if t == EOF_TYPE then (None, next, reports)
               else if t == BAD_TYPE then
                 ReadLogical(crc, next, false,
                             if inFragment then [] else scratch, Report(reports, inFragment, |scratch|))
               else Promised(crc, next, payload, inFragment, scratch, reports)
  {
    hide AtUnknown, ReadLogical, ReadPhysical, Behind;
    assert Unknown(t, payload) by { UnknownAhead(crc, st, off, t, payload, more); }
    UnknownPhysical(crc, st, off, t, payload, more);
    LogicalStep(crc, st, inFragment, scratch, reports);
    var none: seq<nat> := [];
    assert reports + none == reports;
  }

  lemma UnknownAhead(crc: Checksum, st: ReaderState, off: Offset, t: Byte, payload: seq<Byte>, more: seq<Byte>)
    requires AtUnknown(crc, st, off, t, payload, more)
    ensures Unknown(t, payload) && Start(off) + HEADER + |payload| <= BLOCK
  {
  }

  // ---------------------------------------------------------------- when the promise is kept

  lemma TurnReports(fragment: Fragment, inFragment: bool, scratch: seq<Byte>, before: seq<nat>, sofar: seq<nat>)
    ensures TakeTurn(fragment, inFragment, scratch, before + sofar)
            == match TakeTurn(fragment, inFragment, scratch, sofar)
               case Return(record, after) => Return(record, before + after)
               case Continue(f, s, after) => Continue(f, s, before + after)
  {
    forall n: nat ensures before + (sofar + [n]) == (before + sofar) + [n] { }
  }

  /** Reports made earlier have no influence on what is read. */
  lemma {:induction false} EarlierReports(crc: Checksum, st: ReaderState, inFragment: bool, scratch: seq<Byte>,
                                          before: seq<nat>, sofar: seq<nat>)
    ensures var r := ReadLogical(crc, st, inFragment, scratch, sofar);
            ReadLogical(crc, st, inFragment, scratch, before + sofar) == (r.0, r.1, before + r.2)
    decreases Size(st)
  {
    var (fragment, next, drops) := ReadPhysical(crc, st);
    assert before + (sofar + drops) == (before + sofar) + drops;
    TurnReports(fragment, inFragment, scratch, before, sofar + drops);
    match TakeTurn(fragment, inFragment, scratch, sofar + drops)
    case Return(_, _) =>
    case Continue(f, s, after) => EarlierReports(crc, next, f, s, before, after);
  }

  lemma ReportsFirst(crc: Checksum, st: ReaderState, inFragment: bool, scratch: seq<Byte>, reports: seq<nat>)
    ensures var r := ReadLogical(crc, st, inFragment, scratch, []);
            ReadLogical(crc, st, inFragment, scratch, reports) == (r.0, r.1, reports + r.2)
  {
    EarlierReports(crc, st, inFragment, scratch, reports, []);
    assert reports + [] == reports;
  }

  /** Outside a record, left-over bytes have no influence either. */
  lemma {:induction false} LeftOver(crc: Checksum, st: ReaderState, scratch: seq<Byte>, reports: seq<nat>)
    ensures ReadLogical(crc, st, false, scratch, reports) == ReadLogical(crc, st, false, [], reports)
    decreases Size(st)
  {
    var (fragment, next, drops) := ReadPhysical(crc, st);
    match TakeTurn(fragment, false, scratch, reports + drops)
    case Return(_, _) =>
    case Continue(f, s, sofar) =>
      if !f { LeftOver(crc, next, s, sofar); }
  }

  /** Exactly the two reserved types break the promise; type 6 does so only if that loses something unreported. */
  lemma PromiseKept(crc: Checksum, st: ReaderState, off: Offset, t: Byte, payload: seq<Byte>, more: seq<Byte>,
                    inFragment: bool, scratch: seq<Byte>, reports: seq<nat>)
    requires AtUnknown(crc, st, off, t, payload, more)
    ensures ReadLogical(crc, st, inFragment, scratch, reports)
            == Promised(crc, Behind(off, payload, more), payload, inFragment, scratch, reports)
            <==> t !in {EOF_TYPE, BAD_TYPE} || (t == BAD_TYPE && inFragment && payload == [])
  {
    hide AtUnknown, ReadLogical, Behind;
    UnknownAhead(crc, st, off, t, payload, more);
    var next := Behind(off, payload, more);
    var size := |payload| + if inFragment then |scratch| else 0;
    UnknownReads(crc, st, off, t, payload, more, inFragment, scratch, reports);
    ReportsFirst(crc, next, false, [], reports + [size]);
    if t == EOF_TYPE {
      assert |reports + [size] + ReadLogical(crc, next, false, [], []).2| > |reports|;
    } else if t == BAD_TYPE {
      assert (reports + [size])[|reports|] == size && (reports + [|scratch|])[|reports|] == |scratch|;
      LeftOver(crc, next, scratch, reports);
      ReportsFirst(crc, next, false, [], Report(reports, inFragment, |scratch|));
      OneReport(reports, size, Report(reports, inFragment, |scratch|), ReadLogical(crc, next, false, [], []).2);
    }
  }

  lemma OneReport(reports: seq<nat>, size: nat, others: seq<nat>, tail: seq<nat>)
    requires others == reports || exists n :: others == reports + [n]
    ensures (reports + [size]) + tail == others + tail <==> reports + [size] == others
  {
    if (reports + [size]) + tail == others + tail {
      assert |(reports + [size]) + tail| == |others + tail|;
      assert others != reports;
      assert ((reports + [size]) + tail)[..|others|] == reports + [size] && (others + tail)[..|others|] == others;
    }
  }

  // ---------------------------------------------------------------- whole files

  /** Reading a log goes through the records written and then stands behind them. */
  lemma {:induction false} RecordsThen(crc: Checksum, st: ReaderState, off: Offset, records: seq<seq<Byte>>,
                                       more: seq<Byte>)
    requires Synced(st, off) && Remaining(st) == EncodedAll(crc, off, records) + more
    ensures var rest := ReadAll(crc, StateAt(EndOfAll(off, records), more), []);
            ReadAll(crc, st, []) == (records + rest.0, rest.1)
    decreases |records|
  {
    hide Synced, ReadLogical, ReadAll, Encoded, EndOffset, StateAt;
    if records == [] {
      SyncedIsStateAt(st, off);
      assert Remaining(st) == more;
      assert records + ReadAll(crc, st, []).0 == ReadAll(crc, st, []).0;
    } else {
      FirstThen(crc, st, off, records, more);
      RecordsThen(crc, ReadLogical(crc, st, false, [], []).1, EndOffset(off, |records[0]|), records[1..], more);
      var rest := ReadAll(crc, StateAt(EndOfAll(off, records), more), []);
      assert [records[0]] + (records[1..] + rest.0) == records + rest.0;
    }
  }

  lemma FirstThen(crc: Checksum, st: ReaderState, off: Offset, records: seq<seq<Byte>>, more: seq<Byte>)
    requires Synced(st, off) && records != [] && Remaining(st) == EncodedAll(crc, off, records) + more
    ensures var off' := EndOffset(off, |records[0]|);
            var next := ReadLogical(crc, st, false, [], []).1;
            && Synced(next, off') && Remaining(next) == EncodedAll(crc, off', records[1..]) + more
            && EndOfAll(off, records) == EndOfAll(off', records[1..])
            && ReadAll(crc, st, []) == ([records[0]] + ReadAll(crc, next, []).0, ReadAll(crc, next, []).1)
  {
    hide Synced, ReadLogical, ReadAll, Encoded, EndOffset;
    var first, off' := Encoded(crc, off, records[0], true), EndOffset(off, |records[0]|);
    var tail := EncodedAll(crc, off', records[1..]) + more;
    assert Remaining(st) == first + tail;
    LogicalReads(crc, st, off, records[0], true, [], tail);
    assert [] + records[0] == records[0];
    ReadAllStep(crc, st, Remaining(st), |first|, records[0], off');
    assert Remaining(st)[|first|..] == tail;
  }

  /** Block offset 0 and a block that is exactly full are the same place. */
  lemma SamePlace(crc: Checksum, records: seq<seq<Byte>>)
    ensures EncodedAll(crc, 0, records) == EncodedAll(crc, BLOCK, records)
    ensures var off, off' := EndOfAll(0, records), EndOfAll(BLOCK, records);
            Trailer(off) == Trailer(off') && Start(off) == Start(off')
  {
    SameStart(crc, records, 0);
    if records != [] {
      assert EndOffset(0, |records[0]|) == EndOffset(BLOCK, |records[0]|);
    }
  }

  /** A log with a record of unknown type behind `records`, and anything behind that. */
  function WithUnknown(crc: Checksum, records: seq<seq<Byte>>, t: Byte, payload: seq<Byte>, more: seq<Byte>): seq<Byte>
    requires |payload| < 0x1_0000
  {
    EncodedAll(crc, 0, records) + (Trailer(EndOfAll(0, records)) + Physical(crc, t, payload) + more)
  }

  lemma {:induction false} AllReports(crc: Checksum, st: ReaderState, before: seq<nat>, sofar: seq<nat>)
    ensures var r := ReadAll(crc, st, sofar);
            ReadAll(crc, st, before + sofar) == (r.0, before + r.1)
    decreases Size(st)
  {
    hide ReadLogical;
    EarlierReports(crc, st, false, [], before, sofar);
    var r := ReadLogical(crc, st, false, [], sofar);
    if r.0.Some? { AllReports(crc, r.1, before, r.2); }
  }

  lemma AllBy(crc: Checksum, st: ReaderState, next: ReaderState, before: seq<nat>)
    requires ReadLogical(crc, st, false, [], []) == ReadLogical(crc, next, false, [], before)
    ensures ReadAll(crc, st, []) == (ReadAll(crc, next, []).0, before + ReadAll(crc, next, []).1)
  {
    hide ReadLogical;
    AllReports(crc, next, before, []);
    assert before + [] == before;
    assert ReadAll(crc, st, []) == ReadAll(crc, next, before);
  }

  lemma UnknownNext(crc: Checksum, st: ReaderState, off: Offset, t: Byte, payload: seq<Byte>, more: seq<Byte>)
    requires AtUnknown(crc, st, off, t, payload, more)
    ensures var rest := ReadAll(crc, Behind(off, payload, more), []);
            ReadAll(crc, st, [])
            == if t == EOF_TYPE then ([], []) else (rest.0, (if t == BAD_TYPE then [] else [|payload|]) + rest.1)
  {
    hide AtUnknown, ReadLogical, Behind;
    UnknownAhead(crc, st, off, t, payload, more);
    var next := Behind(off, payload, more);
    UnknownReads(crc, st, off, t, payload, more, false, [], []);
    if t == BAD_TYPE {
      AllBy(crc, st, next, []);
    } else if t != EOF_TYPE {
      var none: seq<nat> := [];
      assert none + [|payload| + 0] == [|payload|];
      AllBy(crc, st, next, [|payload|]);
    }
  }

  /** Every complete record before it is returned.  Behind it, reading goes on as if it were not there, with its size
      reported; but type 6 is passed over without a report, and type 5 hides everything behind it. */
  lemma UnknownInLog(crc: Checksum, records: seq<seq<Byte>>, t: Byte, payload: seq<Byte>, more: seq<Byte>)
    requires Start(EndOfAll(0, records)) + HEADER + |payload| <= BLOCK && Unknown(t, payload)
    ensures var rest := ReadAll(crc, Behind(EndOfAll(0, records), payload, more), []);
            ReadAll(crc, Opened(WithUnknown(crc, records, t, payload, more)), [])
            == if t == EOF_TYPE then (records, [])
               else (records + rest.0, (if t == BAD_TYPE then [] else [|payload|]) + rest.1)
  {
    hide ReadAll, EncodedAll, EndOfAll, Start, Trailer, Physical;
    var off, file := EndOfAll(BLOCK, records), WithUnknown(crc, records, t, payload, more);
    var tail := Trailer(off) + Physical(crc, t, payload) + more;
    SamePlace(crc, records);
    OpenedIsSynced(file);
    RecordsThen(crc, Opened(file), BLOCK, records, tail);
    StateAtIsSynced(off, tail);
    UnknownNext(crc, StateAt(off, tail), off, t, payload, more);
    assert records + [] == records;
  }

  lemma StateAtIsSynced(off: Offset, bytes: seq<Byte>)
    ensures Synced(StateAt(off, bytes), off) && Remaining(StateAt(off, bytes)) == bytes
  {
  }

  /** The promise is kept exactly for the types that are not reserved; what is behind the record is read exactly unless
      its type is 5. */
  lemma UnknownIsReported(crc: Checksum, records: seq<seq<Byte>>, t: Byte, payload: seq<Byte>, more: seq<Byte>)
    requires Start(EndOfAll(0, records)) + HEADER + |payload| <= BLOCK && Unknown(t, payload)
    ensures var rest := ReadAll(crc, Behind(EndOfAll(0, records), payload, more), []);
            var read := ReadAll(crc, Opened(WithUnknown(crc, records, t, payload, more)), []);
            && records <= read.0
            && (read == (records + rest.0, [|payload|] + rest.1) <==> t !in {EOF_TYPE, BAD_TYPE})
            && (read.0 == records + rest.0 <==> t != EOF_TYPE || rest.0 == [])
  {
    hide ReadAll, WithUnknown, Behind, EndOfAll, Start;
    UnknownInLog(crc, records, t, payload, more);
    var rest := ReadAll(crc, Behind(EndOfAll(0, records), payload, more), []);
    assert |[|payload|] + rest.1| == |rest.1| + 1;
    assert |records + rest.0| == |records| + |rest.0|;
    assert t == EOF_TYPE && rest.0 == [] ==> records + rest.0 == records;
  }
}
