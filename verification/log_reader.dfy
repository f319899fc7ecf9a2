// Reading the log back: db/log_reader.cc from initial offset 0, with checksums on, and why it returns what was written.
module LogReaders {
  import opened Basics
  import opened Coding
  import opened LogFormat

  /** The block in memory, the part of the file not yet read, and whether the last read came up short. */
  datatype ReaderState = ReaderState(buffer: seq<Byte>, rest: seq<Byte>, eof: bool)

  datatype Fragment = Eof | BadRecord | Data(ty: Byte, payload: seq<Byte>)

  /** kEof and kBadRecord are told from types read from the file by their numbers only. */
  const EOF_TYPE: Byte := 5
  const BAD_TYPE: Byte := 6

  function ByType(ty: Byte, payload: seq<Byte>): Fragment {
    if ty == EOF_TYPE then Eof else if ty == BAD_TYPE then BadRecord else Data(ty, payload)
  }

  function Size(st: ReaderState): nat {
    |st.buffer| + |st.rest|
  }

  function Refill(st: ReaderState): ReaderState {
    var n := if |st.rest| < BLOCK then |st.rest| else BLOCK;
    ReaderState(st.rest[..n], st.rest[n..], n < BLOCK)
  }

  function Dropped(st: ReaderState): ReaderState {
    st.(buffer := [])
  }

  function LengthField(buffer: seq<Byte>): nat
    requires |buffer| >= HEADER
  {
    buffer[4] as int + buffer[5] as int * 0x100
  }

  /** ReadPhysicalRecord once a header is in the buffer; the last part lists the sizes of reported drops. */
  function ParseBuffer(crc: Checksum, st: ReaderState): (Fragment, ReaderState, seq<nat>)
    requires |st.buffer| >= HEADER
  {
    var length := LengthField(st.buffer);
    var ty := st.buffer[6];
    if HEADER + length > |st.buffer| then
      if st.eof then (Eof, Dropped(st), []) else (BadRecord, Dropped(st), [|st.buffer|])
    else if ty == ZERO && length == 0 then (BadRecord, Dropped(st), [])
    else if Unmask(DecodeFixed32(st.buffer[..4])) != crc(st.buffer[6..HEADER + length]) then
      (BadRecord, Dropped(st), [|st.buffer|])
    else (ByType(ty, st.buffer[HEADER..HEADER + length]), st.(buffer := st.buffer[HEADER + length..]), [])
  }

  function ReadPhysical(crc: Checksum, st: ReaderState): (r: (Fragment, ReaderState, seq<nat>))
    ensures !r.0.Eof? ==> Size(r.1) < Size(st)
    decreases |st.rest|, if st.eof then 0 else 1
  {
    if |st.buffer| >= HEADER then ParseBuffer(crc, st)
    else if st.eof then (Eof, Dropped(st), [])
    else ReadPhysical(crc, Refill(st))
  }

  function Report(reports: seq<nat>, cond: bool, n: nat): seq<nat> {
    if cond then reports + [n] else reports
  }

  /** What ReadRecord does with a physical record: return, or go on with what it has so far. */
  datatype Turn = Return(record: Option<seq<Byte>>, sofar: seq<nat>)
    | Continue(inFragment: bool, scratch: seq<Byte>, sofar: seq<nat>)

  function TakeTurn(fragment: Fragment, inFragment: bool, scratch: seq<Byte>, sofar: seq<nat>): Turn {
    match fragment
    case Eof => Return(None, sofar)
    case BadRecord => Continue(false, if inFragment then [] else scratch, Report(sofar, inFragment, |scratch|))
    case Data(ty, payload) =>
      if ty == FULL then Return(Some(payload), Report(sofar, inFragment && scratch != [], |scratch|))
      else if ty == FIRST then Continue(true, payload, Report(sofar, inFragment && scratch != [], |scratch|))
      else if ty == MIDDLE then
        Continue(inFragment, if inFragment then scratch + payload else scratch, Report(sofar, !inFragment, |payload|))
      else if ty == LAST then
        if inFragment then Return(Some(scratch + payload), sofar) else Continue(false, scratch, sofar + [|payload|])
      else Continue(false, [], sofar + [|payload| + if inFragment then |scratch| else 0])
  }

  /** ReadRecord: one logical record, None at the end of the file; `reports` collects the sizes of reported drops. */
  function ReadLogical(crc: Checksum, st: ReaderState, inFragment: bool, scratch: seq<Byte>, reports: seq<nat>)
    : (r: (Option<seq<Byte>>, ReaderState, seq<nat>))
    ensures r.0.Some? ==> Size(r.1) < Size(st)
    decreases Size(st)
  {
    var (fragment, next, drops) := ReadPhysical(crc, st);
    match TakeTurn(fragment, inFragment, scratch, reports + drops)
    case Return(record, sofar) => (record, next, sofar)
    case Continue(inFragment', scratch', sofar) => ReadLogical(crc, next, inFragment', scratch', sofar)
  }

  /** Where a turn leads. */
  function Outcome(crc: Checksum, next: ReaderState, turn: Turn): (Option<seq<Byte>>, ReaderState, seq<nat>) {
    match turn
    case Return(record, sofar) => (record, next, sofar)
    case Continue(inFragment, scratch, sofar) => ReadLogical(crc, next, inFragment, scratch, sofar)
  }

  lemma LogicalStep(crc: Checksum, st: ReaderState, inFragment: bool, scratch: seq<Byte>, reports: seq<nat>)
    ensures var (fragment, next, drops) := ReadPhysical(crc, st);
            ReadLogical(crc, st, inFragment, scratch, reports)
              == Outcome(crc, next, TakeTurn(fragment, inFragment, scratch, reports + drops))
  {
  }

  /** Calling ReadRecord until it returns false. */
  function ReadAll(crc: Checksum, st: ReaderState, reports: seq<nat>): (seq<seq<Byte>>, seq<nat>)
    decreases Size(st)
  {
    var (record, next, sofar) := ReadLogical(crc, st, false, [], reports);
    if record.None? then ([], sofar)
    else
      var (records, all) := ReadAll(crc, next, sofar);
      ([record.value] + records, all)
  }

  function Opened(file: seq<Byte>): ReaderState {
    ReaderState([], file, false)
  }

  // ---------------------------------------------------------------- log::Reader

  class Reader {
    const crc: Checksum
    var buffer: seq<Byte>
    var rest: seq<Byte>
    var eof: bool
    var reports: seq<nat>

    constructor (c: Checksum, file: seq<Byte>)
      ensures crc == c && Abstract() == Opened(file) && reports == []
    {
      crc, buffer, rest, eof, reports := c, [], file, false, [];
    }

    function Abstract(): ReaderState
      reads this
    {
      ReaderState(buffer, rest, eof)
    }

    method ReadPhysicalRecord() returns (r: Fragment)
      modifies this
      ensures r == ReadPhysical(crc, old(Abstract())).0 && Abstract() == ReadPhysical(crc, old(Abstract())).1
      ensures reports == old(reports) + ReadPhysical(crc, old(Abstract())).2
    {
      hide ByType, Mask, Unmask, DecodeFixed32;
      assert reports + [] == reports;
      while |buffer| < HEADER
        invariant reports == old(reports) && ReadPhysical(crc, Abstract()) == ReadPhysical(crc, old(Abstract()))
        decreases |rest|, !eof
      {
        if eof {
          buffer := [];
          return Eof;
        }
        var n := if |rest| < BLOCK then |rest| else BLOCK;
        buffer, rest, eof := rest[..n], rest[n..], n < BLOCK;
      }
      var length := LengthField(buffer);
      var ty := buffer[6];
      var dropSize := |buffer|;
      if HEADER + length > |buffer| {
        buffer := [];
        if !eof {
          reports := reports + [dropSize];
          return BadRecord;
        }
        return Eof;
      }
      if ty == ZERO && length == 0 {
        buffer := [];
        return BadRecord;
      }
      if Unmask(DecodeFixed32(buffer[..4])) != crc(buffer[6..HEADER + length]) {
        buffer := [];
        reports := reports + [dropSize];
        return BadRecord;
      }
      r := ByType(ty, buffer[HEADER..HEADER + length]);
      buffer := buffer[HEADER + length..];
    }

    /** The switch of ReadRecord. */
    method Switch(r: Fragment, inFragment: bool, scratch: seq<Byte>) returns (turn: Turn)
      modifies this`reports
      ensures turn == TakeTurn(r, inFragment, scratch, old(reports)) && reports == turn.sofar
    {
      match r
      case Eof =>
        return Return(None, reports);
      case BadRecord =>
        if inFragment {
          reports := reports + [|scratch|];
          return Continue(false, [], reports);
        }
        return Continue(false, scratch, reports);
      case Data(ty, payload) =>
        if ty == FULL {
          if inFragment && scratch != [] {
            reports := reports + [|scratch|];
          }
          return Return(Some(payload), reports);
        } else if ty == FIRST {
          if inFragment && scratch != [] {
            reports := reports + [|scratch|];
          }
          return Continue(true, payload, reports);
        } else if ty == MIDDLE {
          if inFragment {
            return Continue(true, scratch + payload, reports);
          }
          reports := reports + [|payload|];
          return Continue(false, scratch, reports);
        } else if ty == LAST {
          if inFragment {
            return Return(Some(scratch + payload), reports);
          }
          reports := reports + [|payload|];
          return Continue(false, scratch, reports);
        } else {
          reports := reports + [|payload| + if inFragment then |scratch| else 0];
          return Continue(false, [], reports);
        }
    }

    method ReadRecord() returns (record: Option<seq<Byte>>)
      modifies this
      ensures (record, Abstract(), reports) == ReadLogical(crc, old(Abstract()), false, [], old(reports))
    {
      var inFragment, scratch := false, [];
      ghost var whole := ReadLogical(crc, Abstract(), false, [], reports);
      while true
        invariant ReadLogical(crc, Abstract(), inFragment, scratch, reports) == whole
        decreases Size(Abstract())
      {
        LogicalStep(crc, Abstract(), inFragment, scratch, reports);
        var r := ReadPhysicalRecord();
        var turn := Switch(r, inFragment, scratch);
        match turn
        case Return(found, _) =>
          return found;
        case Continue(f, s, _) =>
          inFragment, scratch := f, s;
      }
    }
  }

  // ---------------------------------------------------------------- the round trip

  /** The buffer holds what is left of the block at offset `off`. */
  ghost predicate Synced(st: ReaderState, off: Offset) {
    if st.eof then st.rest == [] && |st.buffer| < BLOCK - off else |st.buffer| == BLOCK - off
  }

  function Remaining(st: ReaderState): seq<Byte> {
    st.buffer + st.rest
  }

  /** The reader at block offset `off`, with `bytes` still to come. */
  function StateAt(off: Offset, bytes: seq<Byte>): ReaderState {
    var n := BLOCK - off;
    if |bytes| < n then ReaderState(bytes, [], true) else ReaderState(bytes[..n], bytes[n..], false)
  }

  /** Where the reader is, and what is left, is all there is to know of it. */
  lemma SyncedIsStateAt(st: ReaderState, off: Offset)
    requires Synced(st, off)
    ensures st == StateAt(off, Remaining(st))
  {
    assert Remaining(st)[..|st.buffer|] == st.buffer && Remaining(st)[|st.buffer|..] == st.rest;
  }

  /** A whole header in the buffer is read back. */
  lemma HeaderReads(crc: Checksum, t: Byte, payload: seq<Byte>, buffer: seq<Byte>)
    requires |payload| < 0x1_0000 && |buffer| >= HEADER
    requires forall i :: 0 <= i < |buffer| && i < HEADER + |payload| ==> buffer[i] == Physical(crc, t, payload)[i]
    ensures LengthField(buffer) == |payload| && buffer[6] == t
    ensures Unmask(DecodeFixed32(buffer[..4])) == crc([t] + payload)
    ensures |buffer| >= HEADER + |payload| ==>
              buffer[6..HEADER + |payload|] == [t] + payload && buffer[HEADER..HEADER + |payload|] == payload
  {
    var p := Physical(crc, t, payload);
    var sum := Mask(crc([t] + payload));
    assert p[..4] == Fixed32(sum) && buffer[..4] == Fixed32(sum);
    Fixed32RoundTrip(sum);
    UnmaskMask(crc([t] + payload));
    assert p[4] == |payload| % 0x100 && p[5] == |payload| / 0x100 && p[6] == t;
    assert p[HEADER..] == payload;
  }

  /** A preallocated file is full of these; no writer makes one. */
  predicate ZeroRecord(t: Byte, payload: seq<Byte>) {
    t == ZERO && payload == []
  }

  lemma InBlockReads(crc: Checksum, st: ReaderState, off: Offset, t: Byte, payload: seq<Byte>, more: seq<Byte>)
    requires Synced(st, off) && off + HEADER + |payload| <= BLOCK && !ZeroRecord(t, payload)
    requires Remaining(st) <= Physical(crc, t, payload) + more
    ensures var n := HEADER + |payload|;
            var (fragment, next, reports) := ReadPhysical(crc, st);
            && reports == []
            && if Size(st) >= n then
                 fragment == ByType(t, payload) && Synced(next, off + n) && Remaining(next) == Remaining(st)[n..]
               else fragment == Eof
  {
    if |st.buffer| >= HEADER {
      forall i | 0 <= i < |st.buffer| && i < HEADER + |payload|
        ensures st.buffer[i] == Physical(crc, t, payload)[i]
      {
        assert st.buffer[i] == Remaining(st)[i] == (Physical(crc, t, payload) + more)[i];
      }
      HeaderReads(crc, t, payload, st.buffer);
    }
  }

  /** A physical record of any type, with the trailer before it, is read back whole or not at all. */
  lemma PhysicalReads(crc: Checksum, st: ReaderState, off: Offset, t: Byte, payload: seq<Byte>, more: seq<Byte>)
    requires Synced(st, off) && Start(off) + HEADER + |payload| <= BLOCK && !ZeroRecord(t, payload)
    requires Remaining(st) <= Trailer(off) + Physical(crc, t, payload) + more
    ensures var n := |Trailer(off)| + HEADER + |payload|;
            var (fragment, next, reports) := ReadPhysical(crc, st);
            && reports == []
            && if Size(st) >= n then
                 && fragment == ByType(t, payload)
                 && Synced(next, Start(off) + HEADER + |payload|) && Remaining(next) == Remaining(st)[n..]
               else fragment == Eof
  {
    hide Physical, ParseBuffer, ByType;
    if BLOCK - off >= HEADER {
      assert Trailer(off) + Physical(crc, t, payload) == Physical(crc, t, payload);
      InBlockReads(crc, st, off, t, payload, more);
    } else if !st.eof {
      var full := Refill(st);
      SkipTrailer(Trailer(off), Physical(crc, t, payload), more, st.buffer, st.rest);
      assert Remaining(full) == st.rest;
      InBlockReads(crc, full, 0, t, payload, more);
    }
  }

  lemma SkipTrailer(trailer: seq<Byte>, p: seq<Byte>, more: seq<Byte>, buffer: seq<Byte>, rest: seq<Byte>)
    requires buffer + rest <= trailer + p + more && |buffer| == |trailer|
    ensures rest <= p + more
  {
    assert forall i :: 0 <= i < |rest| ==>
           rest[i] == (buffer + rest)[|buffer| + i] == (trailer + p + more)[|trailer| + i] == (p + more)[i];
  }

  lemma PrefixSuffix(t: seq<Byte>, a: seq<Byte>, b: seq<Byte>)
    requires t <= a + b && |a| <= |t|
    ensures t[|a|..] <= b
  {
    assert forall i :: 0 <= i < |t| - |a| ==> t[|a|..][i] == t[|a| + i] == (a + b)[|a| + i] == b[i];
  }

  lemma HeadReads(crc: Checksum, st: ReaderState, off: Offset, data: seq<Byte>, begin: bool, more: seq<Byte>)
    requires Synced(st, off) && Remaining(st) <= Head(crc, off, data, begin) + more
    ensures var n := Take(off, |data|);
            var (fragment, next, drops) := ReadPhysical(crc, st);
            && drops == []
            && if Size(st) >= |Head(crc, off, data, begin)| then
                 && fragment == Data(TypeOf(begin, n == |data|), data[..n]) && Synced(next, After(off, |data|))
                 && Remaining(next) == Remaining(st)[|Head(crc, off, data, begin)|..] && Remaining(next) <= more
               else fragment == Eof
  {
    hide ReadPhysical, Synced, Physical, Trailer;
    var n := Take(off, |data|);
    PhysicalReads(crc, st, off, TypeOf(begin, n == |data|), data[..n], more);
    if Size(st) >= |Head(crc, off, data, begin)| {
      PrefixSuffix(Remaining(st), Head(crc, off, data, begin), more);
    }
  }

  /** How ReadRecord goes on after a fragment of a record. */
  lemma FragmentStep(crc: Checksum, st: ReaderState, piece: seq<Byte>, begin: bool, end: bool, scratch: seq<Byte>)
    requires ReadPhysical(crc, st).0 == Data(TypeOf(begin, end), piece) && ReadPhysical(crc, st).2 == []
    requires begin ==> scratch == []
    ensures var next := ReadPhysical(crc, st).1;
            ReadLogical(crc, st, !begin, scratch, [])
            == if end then (Some(scratch + piece), next, []) else ReadLogical(crc, next, true, scratch + piece, [])
  {
    assert begin ==> scratch + piece == piece;
    var none: seq<nat> := [];
    assert none + ReadPhysical(crc, st).2 == none;
  }

  /** A record of `n` bytes was read back, leaving the reader at `off`; or the file ended first. */
  ghost predicate ReadBack(r: (Option<seq<Byte>>, ReaderState, seq<nat>), bytes: seq<Byte>, n: nat, record: seq<Byte>,
                           off: Offset) {
    && r.2 == []
    && if |bytes| >= n then r.0 == Some(record) && Synced(r.1, off) && Remaining(r.1) == bytes[n..] else r.0 == None
  }

  /** The first fragment of what is left of a record is read, or the file ends in it. */
  lemma PieceReads(crc: Checksum, st: ReaderState, off: Offset, data: seq<Byte>, begin: bool, scratch: seq<Byte>,
                   more: seq<Byte>)
    requires Synced(st, off) && Remaining(st) <= Head(crc, off, data, begin) + more
    requires begin ==> scratch == []
    ensures var h, n := |Head(crc, off, data, begin)|, Take(off, |data|);
            var r, next := ReadLogical(crc, st, !begin, scratch, []), ReadPhysical(crc, st).1;
            if Size(st) < h then r.0 == None && r.2 == []
            else
              && Synced(next, After(off, |data|)) && Remaining(next) == Remaining(st)[h..] && Remaining(next) <= more
              && r == if n == |data| then (Some(scratch + data), next, [])
                 else ReadLogical(crc, next, true, scratch + data[..n], [])
  {
    var n := Take(off, |data|);
    HeadReads(crc, st, off, data, begin, more);
    if Size(st) < |Head(crc, off, data, begin)| {
      LogicalStep(crc, st, !begin, scratch, []);
    } else {
      FragmentStep(crc, st, data[..n], begin, n == |data|, scratch);
      assert data[..|data|] == data;
    }
  }

  /** A logical record is read back whole or not at all, and never with a report. */
  lemma {:induction false} LogicalReads(crc: Checksum, st: ReaderState, off: Offset, data: seq<Byte>, begin: bool,
                                        scratch: seq<Byte>, more: seq<Byte>)
    requires Synced(st, off) && Remaining(st) <= Encoded(crc, off, data, begin) + more
    requires begin ==> scratch == []
    ensures ReadBack(ReadLogical(crc, st, !begin, scratch, []), Remaining(st), |Encoded(crc, off, data, begin)|,
                     scratch + data, EndOffset(off, |data|))
    decreases |data|, if Start(off) + HEADER == BLOCK then 1 else 0
  {
    hide ReadPhysical, ReadLogical, Synced, Head;
    var n := Take(off, |data|);
    if n == |data| {
      PieceReads(crc, st, off, data, begin, scratch, more);
    } else {
      LongReads(crc, st, off, data, begin, scratch, more);
    }
  }

  lemma {:induction false} LongReads(crc: Checksum, st: ReaderState, off: Offset, data: seq<Byte>, begin: bool,
                                     scratch: seq<Byte>, more: seq<Byte>)
    requires Synced(st, off) && Remaining(st) <= Encoded(crc, off, data, begin) + more
    requires (begin ==> scratch == []) && Take(off, |data|) < |data|
    ensures ReadBack(ReadLogical(crc, st, !begin, scratch, []), Remaining(st), |Encoded(crc, off, data, begin)|,
                     scratch + data, EndOffset(off, |data|))
    decreases |data|, if Start(off) + HEADER == BLOCK then 1 else 0, 0
  {
    hide ReadPhysical, ReadLogical, Synced, Head;
    var n := Take(off, |data|);
    var head, piece, left := Head(crc, off, data, begin), data[..n], data[n..];
    var tail := Encoded(crc, After(off, |data|), left, false);
    Regroup(head, tail, more);
    PieceReads(crc, st, off, data, begin, scratch, tail + more);
    if Size(st) >= |head| {
      var next := ReadPhysical(crc, st).1;
      LogicalReads(crc, next, After(off, |data|), left, false, scratch + piece, more);
      TailReads(Remaining(st), |head|, |tail|, ReadLogical(crc, next, true, scratch + piece, []), scratch, piece, left,
                EndOffset(off, |data|));
      assert piece + left == data;
    }
  }

  lemma TailReads(bytes: seq<Byte>, h: nat, t: nat, r: (Option<seq<Byte>>, ReaderState, seq<nat>), scratch: seq<Byte>,
                  piece: seq<Byte>, left: seq<Byte>, off: Offset)
    requires h <= |bytes| && ReadBack(r, bytes[h..], t, (scratch + piece) + left, off)
    ensures ReadBack(r, bytes, h + t, scratch + (piece + left), off)
  {
    assert (scratch + piece) + left == scratch + (piece + left);
  }

  /** How many of the records lie entirely within the first `n` bytes of their encoding. */
  function WholeRecords(crc: Checksum, off: Offset, records: seq<seq<Byte>>, n: nat): (k: nat)
    ensures k <= |records|
    decreases |records|
  {
    if records == [] || n < |Encoded(crc, off, records[0], true)| then 0
    else 1 + WholeRecords(crc, EndOffset(off, |records[0]|), records[1..], n - |Encoded(crc, off, records[0], true)|)
  }

  /** At the end of what was written there is nothing to read. */
  lemma NothingLeft(crc: Checksum, st: ReaderState, off: Offset)
    requires Synced(st, off) && Remaining(st) == []
    ensures ReadAll(crc, st, []) == ([], [])
  {
    if !st.eof {
      assert Refill(st) == ReaderState([], [], true);
    }
  }

  lemma ReadAllStep(crc: Checksum, st: ReaderState, bytes: seq<Byte>, n: nat, record: seq<Byte>, off: Offset)
    requires ReadBack(ReadLogical(crc, st, false, [], []), bytes, n, record, off)
    ensures |bytes| < n ==> ReadAll(crc, st, []) == ([], [])
    ensures |bytes| >= n ==>
      var next := ReadLogical(crc, st, false, [], []).1;
      ReadAll(crc, st, []) == ([record] + ReadAll(crc, next, []).0, ReadAll(crc, next, []).1)
  {
  }

  /** The first record is read back, and then the reader is where the writer was after it. */
  lemma FirstReads(crc: Checksum, st: ReaderState, off: Offset, records: seq<seq<Byte>>)
    requires Synced(st, off) && records != [] && Remaining(st) <= EncodedAll(crc, off, records)
    ensures var first := Encoded(crc, off, records[0], true);
            var off' := EndOffset(off, |records[0]|);
            var next := ReadLogical(crc, st, false, [], []).1;
            if Size(st) < |first| then ReadAll(crc, st, []) == ([], [])
            else
              && Synced(next, off') && Remaining(next) <= EncodedAll(crc, off', records[1..])
              && Size(next) == Size(st) - |first|
              && ReadAll(crc, st, []) == ([records[0]] + ReadAll(crc, next, []).0, ReadAll(crc, next, []).1)
  {
    var first := Encoded(crc, off, records[0], true);
    var off' := EndOffset(off, |records[0]|);
    var tail := EncodedAll(crc, off', records[1..]);
    LogicalReads(crc, st, off, records[0], true, [], tail);
    assert [] + records[0] == records[0];
    ReadAllStep(crc, st, Remaining(st), |first|, records[0], off');
    if Size(st) >= |first| {
      PrefixSuffix(Remaining(st), first, tail);
    }
  }

  lemma RestReads(crc: Checksum, st: ReaderState, off: Offset, records: seq<seq<Byte>>)
    requires Synced(st, off) && records != [] && Remaining(st) <= EncodedAll(crc, off, records)
    requires Size(st) >= |Encoded(crc, off, records[0], true)|
    requires var next := ReadLogical(crc, st, false, [], []).1;
             ReadAll(crc, next, [])
               == (records[1..][..WholeRecords(crc, EndOffset(off, |records[0]|), records[1..], Size(next))], [])
    ensures ReadAll(crc, st, []) == (records[..WholeRecords(crc, off, records, Size(st))], [])
  {
    FirstReads(crc, st, off, records);
    var k := WholeRecords(crc, EndOffset(off, |records[0]|), records[1..], Size(ReadLogical(crc, st, false, [], []).1));
    assert WholeRecords(crc, off, records, Size(st)) == k + 1;
    OneMore(records, k);
  }

  lemma {:induction false} RecordsRead(crc: Checksum, st: ReaderState, off: Offset, records: seq<seq<Byte>>)
    requires Synced(st, off) && Remaining(st) <= EncodedAll(crc, off, records)
    ensures ReadAll(crc, st, []) == (records[..WholeRecords(crc, off, records, Size(st))], [])
    decreases |records|
  {
    if records == [] {
      NothingLeft(crc, st, off);
      assert WholeRecords(crc, off, records, Size(st)) == 0 && records[..0] == [];
    } else {
      FirstReads(crc, st, off, records);
      if Size(st) >= |Encoded(crc, off, records[0], true)| {
        RecordsRead(crc, ReadLogical(crc, st, false, [], []).1, EndOffset(off, |records[0]|), records[1..]);
        RestReads(crc, st, off, records);
      }
    }
  }

  lemma OneMore(records: seq<seq<Byte>>, k: nat)
    requires records != [] && k <= |records| - 1
    ensures [records[0]] + records[1..][..k] == records[..k + 1]
  {
  }

  lemma OpenedIsSynced(file: seq<Byte>)
    ensures Synced(Opened(file), BLOCK) && Remaining(Opened(file)) == file
  {
  }

  /** Block offset 0 and a block that is exactly full are the same place. */
  lemma SameStart(crc: Checksum, records: seq<seq<Byte>>, n: nat)
    ensures EncodedAll(crc, 0, records) == EncodedAll(crc, BLOCK, records)
    ensures WholeRecords(crc, 0, records, n) == WholeRecords(crc, BLOCK, records, n)
  {
    if records != [] {
      assert Trailer(0) == Trailer(BLOCK);
      assert Encoded(crc, 0, records[0], true) == Encoded(crc, BLOCK, records[0], true);
      assert EndOffset(0, |records[0]|) == EndOffset(BLOCK, |records[0]|);
    }
  }

  /** Reading any byte prefix of a log yields exactly the records that are complete in it, and reports nothing. */
  lemma PrefixReadsBack(crc: Checksum, records: seq<seq<Byte>>, n: nat)
    requires n <= |EncodedAll(crc, 0, records)|
    ensures ReadAll(crc, Opened(EncodedAll(crc, 0, records)[..n]), [])
            == (records[..WholeRecords(crc, 0, records, n)], [])
  {
    hide ReadAll, EncodedAll, WholeRecords, Synced;
    var file := EncodedAll(crc, 0, records)[..n];
    SameStart(crc, records, n);
    OpenedIsSynced(file);
    RecordsRead(crc, Opened(file), BLOCK, records);
  }

  lemma {:induction false} AllWhole(crc: Checksum, off: Offset, records: seq<seq<Byte>>)
    ensures WholeRecords(crc, off, records, |EncodedAll(crc, off, records)|) == |records|
    decreases |records|
  {
    if records != [] {
      AllWhole(crc, EndOffset(off, |records[0]|), records[1..]);
    }
  }

  /** Reading a whole log returns every record that was added. */
  lemma LogRoundTrip(crc: Checksum, records: seq<seq<Byte>>)
    ensures ReadAll(crc, Opened(EncodedAll(crc, 0, records)), []) == (records, [])
  {
    var file := EncodedAll(crc, 0, records);
    assert file[..|file|] == file;
    PrefixReadsBack(crc, records, |file|);
    AllWhole(crc, 0, records);
    assert records[..|records|] == records;
  }

  /** A record of type 5 with the right checksum is taken for the end of the log, whatever follows it. */
  lemma ReservedTypeEndsLog(crc: Checksum, payload: seq<Byte>, more: seq<Byte>)
    requires HEADER + |payload| <= BLOCK
    ensures ReadAll(crc, Opened(Physical(crc, EOF_TYPE, payload) + more), []) == ([], [])
  {
    var p := Physical(crc, EOF_TYPE, payload);
    var st := Refill(Opened(p + more));
    assert forall i :: 0 <= i < |p| ==> st.buffer[i] == p[i];
    HeaderReads(crc, EOF_TYPE, payload, st.buffer);
    assert ReadPhysical(crc, Opened(p + more)).0 == Eof && ReadPhysical(crc, Opened(p + more)).2 == [];
  }
}
