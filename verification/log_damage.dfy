// Logs that were damaged: what the checksums in db/log_reader.cc are for.
module DamagedLogs {
  import opened Basics
  import opened Coding
  import opened LogFormat
  import opened LogReaders
  import opened UnknownTypes

  // ---------------------------------------------------------------- nothing unchecked is returned

  lemma Fixed32Inverse(s: seq<Byte>)
    requires |s| == 4
    ensures Fixed32(DecodeFixed32(s)) == s
  {
    var w := DecodeFixed32(s);
    assert w / 0x100 == s[1] as int + 0x100 * (s[2] as int + 0x100 * s[3] as int);
    assert w / 0x100 / 0x100 == s[2] as int + 0x100 * s[3] as int;
  }

  lemma MaskUnmask(w: Word)
    ensures Mask(Unmask(w)) == w
  {
    var rot := (w - 0xa282_ead8) % 0x1_0000_0000;
    var hi, lo := rot / 0x2_0000, rot % 0x2_0000;
    assert Unmask(w) == hi + lo * 0x8000 && hi < 0x8000;
    assert Unmask(w) / 0x8000 == lo && Unmask(w) % 0x8000 == hi;
    assert rot == lo + hi * 0x2_0000;
    if w < 0xa282_ead8 {
      assert rot == w - 0xa282_ead8 + 0x1_0000_0000;
    } else {
      assert rot == w - 0xa282_ead8;
    }
  }

  lemma HeaderIsWritten(crc: Checksum, buffer: seq<Byte>)
    requires |buffer| >= HEADER && HEADER + LengthField(buffer) <= |buffer|
    requires Unmask(DecodeFixed32(buffer[..4])) == crc(buffer[6..HEADER + LengthField(buffer)])
    ensures LengthField(buffer) < 0x1_0000
    ensures var n := HEADER + LengthField(buffer);
            buffer[..n] == Physical(crc, buffer[6], buffer[HEADER..n])
  {
    hide Mask, Unmask, Fixed32, DecodeFixed32;
    var n := HEADER + LengthField(buffer);
    assert buffer[6..n] == [buffer[6]] + buffer[HEADER..n];
    Fixed32Inverse(buffer[..4]);
    MaskUnmask(DecodeFixed32(buffer[..4]));
    assert buffer[..n] == buffer[..4] + [buffer[4], buffer[5], buffer[6]] + buffer[HEADER..n];
  }

  /** Reading only moves forward. */
  lemma {:induction false} PhysicalAdvances(crc: Checksum, st: ReaderState) returns (skipped: seq<Byte>)
    ensures Remaining(st) == skipped + Remaining(ReadPhysical(crc, st).1)
    decreases |st.rest|, if st.eof then 0 else 1
  {
    hide Unmask, DecodeFixed32;
    if |st.buffer| >= HEADER || st.eof {
      var next := ReadPhysical(crc, st).1;
      skipped := st.buffer[..|st.buffer| - |next.buffer|];
    } else {
      var tail := PhysicalAdvances(crc, Refill(st));
      assert Remaining(Refill(st)) == st.rest;
      skipped := st.buffer + tail;
    }
  }

  /** A fragment is returned only for bytes that the writer makes for it, checksum and all. */
  lemma {:induction false} FragmentIsWritten(crc: Checksum, st: ReaderState) returns (skipped: seq<Byte>)
    requires ReadPhysical(crc, st).0.Data?
    ensures var (fragment, next, drops) := ReadPhysical(crc, st);
            && drops == [] && |fragment.payload| < 0x1_0000
            && Remaining(st) == skipped + (Physical(crc, fragment.ty, fragment.payload) + Remaining(next))
    decreases |st.rest|, if st.eof then 0 else 1
  {
    hide Mask, Unmask, Fixed32, DecodeFixed32, Physical;
    if |st.buffer| >= HEADER {
      var n := HEADER + LengthField(st.buffer);
      HeaderIsWritten(crc, st.buffer);
      assert st.buffer == st.buffer[..n] + st.buffer[n..];
      skipped := [];
    } else {
      var tail := FragmentIsWritten(crc, Refill(st));
      assert Remaining(Refill(st)) == st.rest;
      skipped := st.buffer + tail;
    }
  }

  datatype Piece = Piece(ty: Byte, payload: seq<Byte>)

  function Join(pieces: seq<Piece>): seq<Byte> {
    if pieces == [] then [] else pieces[0].payload + Join(pieces[1..])
  }

  /** The physical records of the pieces lie in the file, one behind the other. */
  ghost predicate Lie(crc: Checksum, file: seq<Byte>, pieces: seq<Piece>)
    decreases |pieces|
  {
    pieces == [] ||
    (&& |pieces[0].payload| < 0x1_0000
     && exists skipped: seq<Byte>, rest: seq<Byte> ::
          && file == skipped + (Physical(crc, pieces[0].ty, pieces[0].payload) + rest)
          && Lie(crc, rest, pieces[1..]))
  }

  /** The rest of a record after its first piece. */
  predicate Tail(pieces: seq<Piece>) {
    && pieces != [] && pieces[|pieces| - 1].ty == LAST
    && forall i :: 0 <= i < |pieces| - 1 ==> pieces[i].ty == MIDDLE
  }

  predicate Whole(pieces: seq<Piece>) {
    pieces != [] && if |pieces| == 1 then pieces[0].ty == FULL else pieces[0].ty == FIRST && Tail(pieces[1..])
  }

  lemma LieFurtherOn(crc: Checksum, skipped: seq<Byte>, file: seq<Byte>, pieces: seq<Piece>)
    requires Lie(crc, file, pieces)
    ensures Lie(crc, skipped + file, pieces)
  {
    if pieces != [] {
      var s: seq<Byte>, rest: seq<Byte> :|
        && file == s + (Physical(crc, pieces[0].ty, pieces[0].payload) + rest) && Lie(crc, rest, pieces[1..]);
      Regroup(skipped, s, Physical(crc, pieces[0].ty, pieces[0].payload) + rest);
    }
  }

  lemma OnePieceMore(crc: Checksum, skipped: seq<Byte>, file: seq<Byte>, p: Piece, pieces: seq<Piece>)
    requires |p.payload| < 0x1_0000 && Lie(crc, file, pieces)
    ensures Lie(crc, skipped + (Physical(crc, p.ty, p.payload) + file), [p] + pieces)
    ensures Join([p] + pieces) == p.payload + Join(pieces)
  {
    assert ([p] + pieces)[1..] == pieces;
  }

  lemma LastPiece(p: Piece)
    ensures Join([p]) == p.payload && [p][1..] == []
  {
    assert p.payload + [] == p.payload;
  }

  lemma NotBoth(pieces: seq<Piece>)
    ensures !(Whole(pieces) && Tail(pieces))
  {
  }

  lemma LongerTail(p: Piece, pieces: seq<Piece>)
    requires Tail(pieces)
    ensures p.ty == MIDDLE ==> Tail([p] + pieces)
    ensures p.ty == FIRST ==> Whole([p] + pieces)
  {
    assert ([p] + pieces)[1..] == pieces;
  }

  /** Whatever bytes are read: a record that is returned is made of checked pieces, in order, from its first to its
      last. */
  lemma {:induction false} RecordIsChecked(crc: Checksum, st: ReaderState, inFragment: bool, scratch: seq<Byte>,
                                           reports: seq<nat>) returns (pieces: seq<Piece>)
    requires ReadLogical(crc, st, inFragment, scratch, reports).0.Some?
    ensures Lie(crc, Remaining(st), pieces)
    ensures var record := ReadLogical(crc, st, inFragment, scratch, reports).0.value;
            || (Whole(pieces) && record == Join(pieces))
            || (inFragment && Tail(pieces) && record == scratch + Join(pieces))
    decreases Size(st)
  {
    hide ReadPhysical, ReadLogical, Lie, Join, Tail, Whole;
    var (fragment, next, drops) := ReadPhysical(crc, st);
    LogicalStep(crc, st, inFragment, scratch, reports);
    var turn := TakeTurn(fragment, inFragment, scratch, reports + drops);
    if turn.Return? {
      var skipped := FragmentIsWritten(crc, st);
      pieces := LastTurn(crc, st, skipped, inFragment, scratch, reports);
    } else {
      var later := RecordIsChecked(crc, next, turn.inFragment, turn.scratch, turn.sofar);
      NotBoth(later);
      pieces := EarlierTurn(crc, st, inFragment, scratch, reports, later);
    }
  }

  lemma LastTurn(crc: Checksum, st: ReaderState, skipped: seq<Byte>, inFragment: bool, scratch: seq<Byte>,
                 reports: seq<nat>) returns (pieces: seq<Piece>)
    requires var (fragment, next, drops) := ReadPhysical(crc, st);
             var turn := TakeTurn(fragment, inFragment, scratch, reports + drops);
             && fragment.Data? && turn.Return? && turn.record.Some? && |fragment.payload| < 0x1_0000
             && Remaining(st) == skipped + (Physical(crc, fragment.ty, fragment.payload) + Remaining(next))
    ensures Lie(crc, Remaining(st), pieces)
    ensures var (fragment, next, drops) := ReadPhysical(crc, st);
            var record := TakeTurn(fragment, inFragment, scratch, reports + drops).record.value;
            || (Whole(pieces) && record == Join(pieces))
            || (inFragment && Tail(pieces) && record == scratch + Join(pieces))
  {
    hide ReadPhysical, Physical, Remaining, Join;
    var (fragment, next, drops) := ReadPhysical(crc, st);
    var p := Piece(fragment.ty, fragment.payload);
    pieces := [p];
    assert Lie(crc, Remaining(next), []);
    OnePieceMore(crc, skipped, Remaining(next), p, []);
    assert [p] + [] == [p];
    LastPiece(p);
  }

  lemma EarlierTurn(crc: Checksum, st: ReaderState, inFragment: bool, scratch: seq<Byte>, reports: seq<nat>,
                    later: seq<Piece>) returns (pieces: seq<Piece>)
    requires var (fragment, next, drops) := ReadPhysical(crc, st);
             var turn := TakeTurn(fragment, inFragment, scratch, reports + drops);
             && turn.Continue? && Lie(crc, Remaining(next), later)
             && (Whole(later) || (turn.inFragment && Tail(later)))
    ensures Lie(crc, Remaining(st), pieces)
    ensures var (fragment, next, drops) := ReadPhysical(crc, st);
            var turn := TakeTurn(fragment, inFragment, scratch, reports + drops);
            if Whole(later) then pieces == later
            else
              || (Whole(pieces) && turn.scratch + Join(later) == Join(pieces))
              || (inFragment && Tail(pieces) && turn.scratch + Join(later) == scratch + Join(pieces))
  {
    hide ReadPhysical, Physical, Remaining, Join, Tail, Whole, Lie;
    var (fragment, next, drops) := ReadPhysical(crc, st);
    if Whole(later) {
      var skipped := PhysicalAdvances(crc, st);
      LieFurtherOn(crc, skipped, Remaining(next), later);
      pieces := later;
    } else {
      var skipped := FragmentIsWritten(crc, st);
      var p := Piece(fragment.ty, fragment.payload);
      OnePieceMore(crc, skipped, Remaining(next), p, later);
      LongerTail(p, later);
      pieces := [p] + later;
      if p.ty == MIDDLE {
        Regroup(scratch, p.payload, Join(later));
      }
    }
  }

  /** Every record read from any file whatever is made of checked pieces that lie in it. */
  lemma {:induction false} OnlyChecked(crc: Checksum, st: ReaderState, reports: seq<nat>, i: nat)
    returns (pieces: seq<Piece>)
    requires i < |ReadAll(crc, st, reports).0|
    ensures Whole(pieces) && ReadAll(crc, st, reports).0[i] == Join(pieces) && Lie(crc, Remaining(st), pieces)
    decreases Size(st)
  {
    hide ReadLogical, Whole, Join, Lie;
    var (record, next, sofar) := ReadLogical(crc, st, false, [], reports);
    if i == 0 {
      pieces := RecordIsChecked(crc, st, false, [], reports);
    } else {
      pieces := OnlyChecked(crc, next, sofar, i - 1);
      var skipped := LogicalAdvances(crc, st, false, [], reports);
      LieFurtherOn(crc, skipped, Remaining(next), pieces);
    }
  }

  lemma {:induction false} LogicalAdvances(crc: Checksum, st: ReaderState, inFragment: bool, scratch: seq<Byte>,
                                           reports: seq<nat>) returns (skipped: seq<Byte>)
    ensures Remaining(st) == skipped + Remaining(ReadLogical(crc, st, inFragment, scratch, reports).1)
    decreases Size(st)
  {
    hide ReadPhysical;
    var (fragment, next, drops) := ReadPhysical(crc, st);
    skipped := PhysicalAdvances(crc, st);
    LogicalStep(crc, st, inFragment, scratch, reports);
    var turn := TakeTurn(fragment, inFragment, scratch, reports + drops);
    if turn.Continue? {
      var tail := LogicalAdvances(crc, next, turn.inFragment, turn.scratch, turn.sofar);
      skipped := skipped + tail;
    }
  }

  // ---------------------------------------------------------------- a damaged block

  /** A header that does not fit its block, or a checksum that does not match. */
  predicate Damaged(crc: Checksum, bad: seq<Byte>) {
    |bad| >= HEADER &&
    var n := HEADER + LengthField(bad);
    n > |bad| ||
    (!(bad[6] == ZERO && LengthField(bad) == 0) && Unmask(DecodeFixed32(bad[..4])) != crc(bad[6..n]))
  }

  /** The reader comes to damage; `bad` is the rest of that block, and `more` what follows. */
  ghost predicate AtDamage(crc: Checksum, st: ReaderState, off: Offset, bad: seq<Byte>, more: seq<Byte>) {
    && Synced(st, off) && Start(off) + |bad| == BLOCK && Damaged(crc, bad)
    && Remaining(st) == Trailer(off) + (bad + more)
  }

  lemma DamagedPhysical(crc: Checksum, st: ReaderState, off: Offset, bad: seq<Byte>, more: seq<Byte>)
    requires AtDamage(crc, st, off, bad, more)
    ensures ReadPhysical(crc, st) == (BadRecord, StateAt(BLOCK, more), [|bad|])
  {
    hide Unmask, DecodeFixed32;
    assert StateAt(BLOCK, more) == ReaderState([], more, false);
    assert !st.eof;
    if |st.buffer| >= HEADER {
      assert Trailer(off) == [];
      BlockThen(st.buffer, st.rest, bad, more);
    } else {
      assert Trailer(off) == st.buffer by { BlockThen(st.buffer, st.rest, Trailer(off), bad + more); }
      BlockThen(st.buffer, st.rest, Trailer(off), bad + more);
      assert |bad| == BLOCK;
      assert (bad + more)[..BLOCK] == bad && (bad + more)[BLOCK..] == more;
      assert Refill(st) == ReaderState(bad, more, false);
    }
  }

  lemma BlockThen(buffer: seq<Byte>, rest: seq<Byte>, a: seq<Byte>, b: seq<Byte>)
    requires |buffer| == |a| && (buffer + rest == a + b || buffer + rest == [] + (a + b))
    ensures buffer == a && rest == b
  {
    assert (buffer + rest)[..|buffer|] == buffer && (a + b)[..|a|] == a;
    assert (buffer + rest)[|buffer|..] == rest && (a + b)[|a|..] == b;
  }

  /** Damage is reported with the rest of its block, a record begun before it is given up with a report of its own, and
      reading goes on at the next block. */
  lemma DamageIsReported(crc: Checksum, st: ReaderState, off: Offset, bad: seq<Byte>, more: seq<Byte>,
                         inFragment: bool, scratch: seq<Byte>, reports: seq<nat>)
    requires AtDamage(crc, st, off, bad, more)
    ensures ReadLogical(crc, st, inFragment, scratch, reports)
            == ReadLogical(crc, StateAt(BLOCK, more), false, [],
                           Report(reports + [|bad|], inFragment, |scratch|))
  {
    hide ReadPhysical, ReadLogical, AtDamage, StateAt;
    DamagedPhysical(crc, st, off, bad, more);
    LogicalStep(crc, st, inFragment, scratch, reports);
    if !inFragment {
      LeftOver(crc, StateAt(BLOCK, more), scratch, reports + [|bad|]);
    }
  }

  // ---------------------------------------------------------------- the next block

  /** The sizes of the pieces in which `left` bytes are written from a block offset on. */
  function PieceSizes(off: Offset, left: nat): seq<nat>
    decreases left, if Start(off) + HEADER == BLOCK then 1 else 0
  {
    var n := Take(off, left);
    [n] + if n == left then [] else PieceSizes(After(off, left), left - n)
  }

  /** A piece of a record whose front is lost is passed over. */
  lemma OrphanReported(crc: Checksum, st: ReaderState, off: Offset, left: seq<Byte>, more: seq<Byte>, reports: seq<nat>)
    requires Synced(st, off) && Remaining(st) == Head(crc, off, left, false) + more
    ensures ReadLogical(crc, st, false, [], reports)
            == ReadLogical(crc, StateAt(After(off, |left|), more), false, [], reports + [Take(off, |left|)])
  {
    hide ReadPhysical, ReadLogical, Synced, Head, StateAt;
    HeadReads(crc, st, off, left, false, more);
    var head, next := Head(crc, off, left, false), ReadPhysical(crc, st).1;
    LogicalStep(crc, st, false, [], reports);
    assert reports + [] == reports;
    assert (head + more)[|head|..] == more;
    SyncedIsStateAt(next, After(off, |left|));
  }

  /** The rest of a record whose front is lost is passed over, with a report for each piece. */
  lemma {:induction false} OrphansReported(crc: Checksum, st: ReaderState, off: Offset, left: seq<Byte>,
                                           more: seq<Byte>, reports: seq<nat>)
    requires Synced(st, off) && Remaining(st) == Encoded(crc, off, left, false) + more
    ensures ReadLogical(crc, st, false, [], reports)
            == ReadLogical(crc, StateAt(EndOffset(off, |left|), more), false, [], reports + PieceSizes(off, |left|))
    decreases |left|, if Start(off) + HEADER == BLOCK then 1 else 0
  {
    hide ReadLogical, Synced, Head, StateAt;
    var n, head := Take(off, |left|), Head(crc, off, left, false);
    if n == |left| {
      assert PieceSizes(off, |left|) == [n];
      assert Encoded(crc, off, left, false) == head;
      OrphanReported(crc, st, off, left, more, reports);
    } else {
      var tail := Encoded(crc, After(off, |left|), left[n..], false);
      Regroup(head, tail, more);
      OrphanReported(crc, st, off, left, tail + more, reports);
      StateAtIsSynced(After(off, |left|), tail + more);
      OrphansReported(crc, StateAt(After(off, |left|), tail + more), After(off, |left|), left[n..], more,
                      reports + [n]);
      assert (reports + [n]) + PieceSizes(After(off, |left|), |left| - n) == reports + PieceSizes(off, |left|);
    }
  }

  /** What follows a block boundary in a log: the rest of a record that began before it, if any, and whole records. */
  datatype NextBlock = NextBlock(orphan: Option<seq<Byte>>, records: seq<seq<Byte>>)

  function NextOffset(b: NextBlock): Offset {
    if b.orphan.Some? then EndOffset(BLOCK, |b.orphan.value|) else BLOCK
  }

  function NextBytes(crc: Checksum, b: NextBlock): seq<Byte> {
    (if b.orphan.Some? then Encoded(crc, BLOCK, b.orphan.value, false) else [])
    + EncodedAll(crc, NextOffset(b), b.records)
  }

  function OrphanSizes(b: NextBlock): seq<nat> {
    if b.orphan.Some? then PieceSizes(BLOCK, |b.orphan.value|) else []
  }

  /** From the block boundary on, every whole record is read. */
  lemma NextBlockReads(crc: Checksum, b: NextBlock, reports: seq<nat>)
    ensures ReadAll(crc, StateAt(BLOCK, NextBytes(crc, b)), reports) == (b.records, reports + OrphanSizes(b))
  {
    hide ReadLogical, ReadAll, Encoded, EncodedAll, StateAt, EndOffset, Synced, WholeRecords;
    var st, more := StateAt(BLOCK, NextBytes(crc, b)), EncodedAll(crc, NextOffset(b), b.records);
    StateAtIsSynced(BLOCK, NextBytes(crc, b));
    var next, all := StateAt(NextOffset(b), more), reports + OrphanSizes(b);
    if b.orphan.Some? {
      OrphansReported(crc, st, BLOCK, b.orphan.value, more, reports);
      SameReading(crc, st, next, reports, all);
    } else {
      assert [] + more == more && all == reports;
    }
    StateAtIsSynced(NextOffset(b), more);
    RecordsRead(crc, next, NextOffset(b), b.records);
    AllWhole(crc, NextOffset(b), b.records);
    assert b.records[..|b.records|] == b.records;
    AllReports(crc, next, all, []);
    assert all + [] == all;
  }

  lemma SameReading(crc: Checksum, st: ReaderState, next: ReaderState, reports: seq<nat>, all: seq<nat>)
    requires ReadLogical(crc, st, false, [], reports) == ReadLogical(crc, next, false, [], all)
    ensures ReadAll(crc, st, reports) == ReadAll(crc, next, all)
  {
  }

  /** A log damaged behind the records `a`: they are read, the rest of the block is reported, and everything that begins
      behind the block is read. */
  lemma DamageIsContained(crc: Checksum, a: seq<seq<Byte>>, bad: seq<Byte>, b: NextBlock)
    requires Start(EndOfAll(0, a)) + |bad| == BLOCK && Damaged(crc, bad)
    ensures var file := EncodedAll(crc, 0, a) + (Trailer(EndOfAll(0, a)) + (bad + NextBytes(crc, b)));
            ReadAll(crc, Opened(file), []) == (a + b.records, [|bad|] + OrphanSizes(b))
  {
    hide ReadLogical, ReadAll, Encoded, EncodedAll, EndOfAll, Start, Trailer, Damaged, NextBytes, StateAt, Synced;
    var off, more := EndOfAll(BLOCK, a), NextBytes(crc, b);
    var tail := Trailer(off) + (bad + more);
    var st, next := StateAt(off, tail), StateAt(BLOCK, more);
    SamePlace(crc, a);
    var file := EncodedAll(crc, BLOCK, a) + tail;
    OpenedIsSynced(file);
    RecordsThen(crc, Opened(file), BLOCK, a, tail);
    StateAtIsSynced(off, tail);
    DamageIsReported(crc, st, off, bad, more, false, [], []);
    var none: seq<nat> := [];
    assert none + [|bad|] == [|bad|];
    SameReading(crc, st, next, [], [|bad|]);
    NextBlockReads(crc, b, [|bad|]);
  }

  // ---------------------------------------------------------------- every log is of that shape at every block boundary

  /** One round of the writer's loop. */
  lemma OneRound(crc: Checksum, off: Offset, data: seq<Byte>, begin: bool)
    ensures var n, head := Take(off, |data|), Head(crc, off, data, begin);
            && Encoded(crc, off, data, begin)
               == (if n == |data| then head else head + Encoded(crc, After(off, |data|), data[n..], false))
            && EndOffset(off, |data|)
               == if n == |data| then After(off, |data|) else EndOffset(After(off, |data|), |data| - n)
  {
    hide Head;
  }

  lemma HeadAtBoundary(crc: Checksum, off: Offset, data: seq<Byte>, begin: bool)
    requires BLOCK - off < HEADER
    ensures Head(crc, off, data, begin) == Trailer(off) + Head(crc, BLOCK, data, begin)
    ensures Take(off, |data|) == Take(BLOCK, |data|) && After(off, |data|) == After(BLOCK, |data|)
  {
    hide Physical;
    assert Trailer(BLOCK) == [];
    var p := Physical(crc, TypeOf(begin, Take(off, |data|) == |data|), data[..Take(off, |data|)]);
    assert [] + p == p;
  }

  /** A record that has not begun before the boundary is written as at the front of a block. */
  lemma AtBoundary(crc: Checksum, off: Offset, data: seq<Byte>, begin: bool)
    requires BLOCK - off < HEADER
    ensures Encoded(crc, off, data, begin) == Trailer(off) + Encoded(crc, BLOCK, data, begin)
    ensures EndOffset(off, |data|) == EndOffset(BLOCK, |data|)
  {
    hide Head, Encoded, EndOffset, Take, After, Trailer;
    HeadAtBoundary(crc, off, data, begin);
    OneRound(crc, off, data, begin);
    OneRound(crc, BLOCK, data, begin);
    var n := Take(off, |data|);
    if n < |data| {
      Regroup(Trailer(off), Head(crc, BLOCK, data, begin), Encoded(crc, After(off, |data|), data[n..], false));
    }
  }

  /** Where a block ends within what is written of a record, or right behind it: what is left of the record. */
  lemma {:induction false} BoundaryInRecord(crc: Checksum, off: Offset, data: seq<Byte>, begin: bool, n: nat)
    returns (left: Option<seq<Byte>>)
    requires |Trailer(off)| < n <= |Encoded(crc, off, data, begin)| && (off + n) % BLOCK == 0
    ensures Encoded(crc, off, data, begin)[n..]
            == if left.Some? then Encoded(crc, BLOCK, left.value, false) else []
    ensures EndOffset(off, |data|) == if left.Some? then EndOffset(BLOCK, |left.value|) else BLOCK
    decreases |data|, if Start(off) + HEADER == BLOCK then 1 else 0
  {
    hide Head, Encoded, EndOffset, Trailer;
    var k, head, after := Take(off, |data|), Head(crc, off, data, begin), After(off, |data|);
    OneRound(crc, off, data, begin);
    HeadFits(off, |data|, n);
    if k == |data| {
      left := None;
    } else {
      var rest := data[k..];
      var tail := Encoded(crc, after, rest, false);
      PastFront(head, tail, n);
      if n - |head| <= |Trailer(after)| {
        AtBoundary(crc, after, rest, false);
        PastFront(Trailer(after), Encoded(crc, BLOCK, rest, false), n - |head|);
        left := Some(rest);
      } else {
        left := BoundaryInRecord(crc, after, rest, false, n - |head|);
      }
    }
  }

  lemma PastFront(a: seq<Byte>, b: seq<Byte>, n: nat)
    requires |a| <= n <= |a| + |b|
    ensures (a + b)[n..] == b[n - |a|..]
  {
  }

  /** A physical record lies in one block. */
  lemma HeadFits(off: Offset, left: nat, n: nat)
    requires |Trailer(off)| < n && (off + n) % BLOCK == 0
    ensures var h, after := |Trailer(off)| + HEADER + Take(off, left), After(off, left);
            && n >= h && (after + (n - h)) % BLOCK == 0 && (n == h ==> after == BLOCK)
            && (n - h <= |Trailer(after)| ==> BLOCK - after < HEADER && n - h == |Trailer(after)|)
  {
    var h, after := |Trailer(off)| + HEADER + Take(off, left), After(off, left);
    var block := if BLOCK - off < HEADER then BLOCK else 0;
    assert off + n == block + after + (n - h);
    NoMultipleBetween(after, n - h);
  }

  lemma NoMultipleBetween(after: Offset, d: int)
    requires after > 0 && after + d > 0 && (after + d) % BLOCK == 0
    ensures after + d >= BLOCK
  {
  }

  /** The first `j` records begin in front of the boundary. */
  ghost predicate BeginBefore(crc: Checksum, off: Offset, records: seq<seq<Byte>>, j: nat, n: nat)
    requires j <= |records|
  {
    j > 0 ==>
      var before := records[..j - 1];
      |EncodedAll(crc, off, before)| + |Trailer(EndOfAll(off, before))| < n
  }

  lemma NoneBefore(crc: Checksum, off: Offset, records: seq<seq<Byte>>, n: nat)
    requires records != [] && |Trailer(off)| < n
    ensures BeginBefore(crc, off, records, 1, n)
  {
    assert records[..0] == [];
  }

  lemma OneMoreBefore(crc: Checksum, off: Offset, records: seq<seq<Byte>>, j: nat, n: nat)
    requires records != [] && j < |records| && n >= |Encoded(crc, off, records[0], true)| && |Trailer(off)| < n
    requires BeginBefore(crc, EndOffset(off, |records[0]|), records[1..], j, n - |Encoded(crc, off, records[0], true)|)
    ensures BeginBefore(crc, off, records, j + 1, n)
  {
    if j == 0 {
      NoneBefore(crc, off, records, n);
    } else {
      var before := records[..j];
      assert before[0] == records[0] && before[1..] == records[1..][..j - 1];
    }
  }

  /** At a block boundary a log goes on with the rest of the record that lies across it, if any, and then with the
      records that begin behind it. */
  lemma {:induction false} BoundaryInLog(crc: Checksum, off: Offset, records: seq<seq<Byte>>, n: nat)
    returns (b: NextBlock, j: nat)
    requires n <= |EncodedAll(crc, off, records)| && (off + n) % BLOCK == 0 && off + n > 0
    ensures j <= |records| && b.records == records[j..] && BeginBefore(crc, off, records, j, n)
    ensures EncodedAll(crc, off, records)[n..] == NextBytes(crc, b)
    decreases |records|
  {
    hide Encoded, EndOffset, BeginBefore;
    if records == [] {
      NoMultipleBetween(off, n);
      b, j := NextBlock(None, []), 0;
      assert BeginBefore(crc, off, records, 0, n) by { NothingBefore(crc, off, records, n); }
    } else if n <= |Trailer(off)| {
      b, j := NextBlock(None, records), 0;
      NothingBefore(crc, off, records, n);
      BeforeFirst(crc, off, records, n);
    } else {
      var first, off', rest := Encoded(crc, off, records[0], true), EndOffset(off, |records[0]|), records[1..];
      assert EncodedAll(crc, off, records) == first + EncodedAll(crc, off', rest);
      if n <= |first| {
        var left := BoundaryInRecord(crc, off, records[0], true, n);
        b, j := NextBlock(left, rest), 1;
        NoneBefore(crc, off, records, n);
        assert (first + EncodedAll(crc, off', rest))[n..] == first[n..] + EncodedAll(crc, off', rest);
      } else {
        EndsInBlock(crc, off, records[0], true, n);
        var k: nat;
        b, k := BoundaryInLog(crc, off', rest, n - |first|);
        j := k + 1;
        OneMoreBefore(crc, off, records, k, n);
        assert (first + EncodedAll(crc, off', rest))[n..] == EncodedAll(crc, off', rest)[n - |first|..];
      }
    }
  }

  lemma NothingBefore(crc: Checksum, off: Offset, records: seq<seq<Byte>>, n: nat)
    ensures BeginBefore(crc, off, records, 0, n)
  {
  }

  lemma BeforeFirst(crc: Checksum, off: Offset, records: seq<seq<Byte>>, n: nat)
    requires records != [] && n <= |Trailer(off)| && (off + n) % BLOCK == 0 && off + n > 0
    requires n <= |EncodedAll(crc, off, records)|
    ensures EncodedAll(crc, off, records)[n..] == NextBytes(crc, NextBlock(None, records))
  {
    hide Encoded, EndOffset;
    if BLOCK - off < HEADER {
      AtBoundary(crc, off, records[0], true);
      assert n == |Trailer(off)|;
    }
  }

  /** Block offsets after a record go with the bytes of it. */
  lemma {:induction false} EndsInBlock(crc: Checksum, off: Offset, data: seq<Byte>, begin: bool, n: nat)
    requires n >= |Encoded(crc, off, data, begin)| && (off + n) % BLOCK == 0
    ensures (EndOffset(off, |data|) + (n - |Encoded(crc, off, data, begin)|)) % BLOCK == 0
    ensures EndOffset(off, |data|) > 0
    decreases |data|, if Start(off) + HEADER == BLOCK then 1 else 0
  {
    hide Head;
    var k := Take(off, |data|);
    HeadFits(off, |data|, n);
    if k < |data| {
      EndsInBlock(crc, After(off, |data|), data[k..], false, n - |Head(crc, off, data, begin)|);
    }
  }

  lemma {:induction false} SplitLog(crc: Checksum, off: Offset, a: seq<seq<Byte>>, b: seq<seq<Byte>>)
    ensures EncodedAll(crc, off, a + b) == EncodedAll(crc, off, a) + EncodedAll(crc, EndOfAll(off, a), b)
    decreases |a|
  {
    if a == [] {
      assert a + b == b;
    } else {
      assert (a + b)[1..] == a[1..] + b;
      SplitLog(crc, EndOffset(off, |a[0]|), a[1..], b);
    }
  }

  /** The log with the bytes from `p` on replaced. */
  function Replaced(file: seq<Byte>, p: nat, bad: seq<Byte>): seq<Byte>
    requires p + |bad| <= |file|
  {
    file[..p] + (bad + file[p + |bad|..])
  }

  /** `p` is where the header of record `i` begins, and the log fills that block to its end. */
  ghost predicate RestOfBlock(crc: Checksum, records: seq<seq<Byte>>, i: nat, p: nat, size: nat)
    requires i <= |records|
  {
    var off := EndOfAll(0, records[..i]);
    && p == |EncodedAll(crc, 0, records[..i])| + |Trailer(off)|
    && Start(off) + size == BLOCK && p + size <= |EncodedAll(crc, 0, records)|
  }

  lemma ReplacedBehind(front: seq<Byte>, tail: seq<Byte>, trailer: seq<Byte>, bad: seq<Byte>)
    requires trailer <= tail && |trailer| + |bad| <= |tail|
    ensures Replaced(front + tail, |front| + |trailer|, bad) == front + (trailer + (bad + tail[|trailer| + |bad|..]))
  {
    var file, p := front + tail, |front| + |trailer|;
    assert file[p + |bad|..] == tail[|trailer| + |bad|..];
    assert tail[..|trailer|] == trailer;
    assert file[..p] == front + trailer;
  }

  lemma TrailerFirst(crc: Checksum, off: Offset, records: seq<seq<Byte>>)
    requires |EncodedAll(crc, off, records)| > |Trailer(off)|
    ensures Trailer(off) <= EncodedAll(crc, off, records)
  {
    hide Physical;
    assert records != [];
    assert Trailer(off) <= Head(crc, off, records[0], true);
  }

  /** In any log, damage from the beginning of record `i` to the end of its block costs record `i` and those that begin
      in front of that end, and no others. */
  lemma DamageInLog(crc: Checksum, records: seq<seq<Byte>>, i: nat, p: nat, bad: seq<Byte>) returns (j: nat)
    requires i <= |records| && RestOfBlock(crc, records, i, p, |bad|) && Damaged(crc, bad)
    ensures i <= j <= |records|
    ensures BeginBefore(crc, EndOfAll(0, records[..i]), records[i..], j - i,
                        |Trailer(EndOfAll(0, records[..i]))| + |bad|)
    ensures var read := ReadAll(crc, Opened(Replaced(EncodedAll(crc, 0, records), p, bad)), []);
            read.0 == records[..i] + records[j..] && |read.1| > 0 && read.1[0] == |bad|
  {
    hide ReadAll, EncodedAll, EndOfAll, BeginBefore, Damaged, NextBytes, Trailer, Start;
    var a, tail := records[..i], records[i..];
    var off := EndOfAll(0, a);
    var n := |Trailer(off)| + |bad|;
    SplitLog(crc, 0, a, tail);
    assert a + tail == records;
    TrailerFirst(crc, off, tail);
    BlockEnd(off, |bad|);
    var b, k := BoundaryInLog(crc, off, tail, n);
    j := i + k;
    assert tail[k..] == records[j..];
    DamageIsContained(crc, a, bad, b);
    ReplacedBehind(EncodedAll(crc, 0, a), EncodedAll(crc, off, tail), Trailer(off), bad);
  }

  lemma BlockEnd(off: Offset, size: nat)
    requires Start(off) + size == BLOCK
    ensures (off + (|Trailer(off)| + size)) % BLOCK == 0 && size > 0
  {
  }
}
