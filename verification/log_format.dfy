// The write-ahead log on disk: db/log_format.h, and what db/log_writer.cc writes as a function of the records.
module LogFormat {
  import opened Basics
  import opened Coding

  const BLOCK := 32768
  const HEADER := 7

  const ZERO: Byte := 0
  const FULL: Byte := 1
  const FIRST: Byte := 2
  const MIDDLE: Byte := 3
  const LAST: Byte := 4

  /** crc32c::Value of a byte string; any function will do. */
  type Checksum = seq<Byte> -> Word

  /** crc32c::Mask: rotate right by 15 bits and add a constant, in 32 bits. */
  function Mask(crc: Word): Word {
    (crc / 0x8000 + crc % 0x8000 * 0x2_0000 + 0xa282_ead8) % 0x1_0000_0000
  }

  function Unmask(masked: Word): Word {
    var rot := (masked - 0xa282_ead8) % 0x1_0000_0000;
    rot / 0x2_0000 + rot % 0x2_0000 * 0x8000
  }

  lemma AddedAndTaken(w: Word, d: Word)
    ensures ((w + d) % 0x1_0000_0000 - d) % 0x1_0000_0000 == w
  {
    if w + d < 0x1_0000_0000 {
      assert (w + d) % 0x1_0000_0000 == w + d;
    } else {
      assert (w + d) % 0x1_0000_0000 == w + d - 0x1_0000_0000;
    }
  }

  lemma Rotated(hi: nat, lo: nat)
    requires hi < 0x2_0000 && lo < 0x8000
    ensures (hi + lo * 0x2_0000) / 0x2_0000 == lo && (hi + lo * 0x2_0000) % 0x2_0000 == hi
  {
  }

  /** Take the constant away again, and the upper 17 and lower 15 bits have changed places. */
  lemma MaskRotates(crc: Word)
    ensures var rot := (Mask(crc) - 0xa282_ead8) % 0x1_0000_0000;
            rot % 0x2_0000 == crc / 0x8000 && rot / 0x2_0000 == crc % 0x8000
  {
    var hi, lo := crc / 0x8000, crc % 0x8000;
    AddedAndTaken(hi + lo * 0x2_0000, 0xa282_ead8);
    Rotated(hi, lo);
  }

  lemma UnmaskMask(crc: Word)
    ensures Unmask(Mask(crc)) == crc
  {
    var hi, lo := crc / 0x8000, crc % 0x8000;
    AddedAndTaken(hi + lo * 0x2_0000, 0xa282_ead8);
    Rotated(hi, lo);
  }

  /** EmitPhysicalRecord. */
  function Physical(crc: Checksum, t: Byte, payload: seq<Byte>): seq<Byte>
    requires |payload| < 0x1_0000
  {
    Fixed32(Mask(crc([t] + payload))) + [|payload| % 0x100, |payload| / 0x100, t] + payload
  }

  /** Four bytes of checksum and two of length, lowest first, one of type, and then the payload. */
  lemma HeaderLayout(crc: Checksum, t: Byte, payload: seq<Byte>)
    requires |payload| < 0x1_0000
    ensures var p := Physical(crc, t, payload);
            && |p| == 7 + |payload| && p[6] == t && p[7..] == payload
            && p[4] as int + 0x100 * p[5] as int == |payload|
            && p[0] as int + 0x100 * p[1] as int + 0x1_0000 * p[2] as int + 0x100_0000 * p[3] as int
               == Mask(crc([t] + payload))
  {
    hide Mask;
    Fixed32Layout(Mask(crc([t] + payload)));
  }

  type Offset = o: nat | o <= BLOCK

  /** Where in its block the next header goes; it never straddles blocks. */
  function Start(off: Offset): (o: Offset)
    ensures o + HEADER <= BLOCK
  {
    if BLOCK - off < HEADER then 0 else off
  }

  /** The gap left at the end of a block is filled with zeros. */
  function Trailer(off: Offset): (t: seq<Byte>)
    ensures |t| == if BLOCK - off < HEADER then BLOCK - off else 0
  {
    if BLOCK - off < HEADER then seq(BLOCK - off, _ => 0) else []
  }

  function TypeOf(begin: bool, end: bool): Byte {
    if begin && end then FULL else if begin then FIRST else if end then LAST else MIDDLE
  }

  /** How much of `left` bytes the next physical record takes. */
  function Take(off: Offset, left: nat): (n: nat)
    ensures n <= left && Start(off) + HEADER + n <= BLOCK
    ensures n == 0 < left ==> Start(off) + HEADER == BLOCK
  {
    var avail := BLOCK - Start(off) - HEADER;
    if left < avail then left else avail
  }

  function After(off: Offset, left: nat): Offset {
    Start(off) + HEADER + Take(off, left)
  }

  /** What one round of the loop in AddRecord appends. */
  function Head(crc: Checksum, off: Offset, data: seq<Byte>, begin: bool): (bytes: seq<Byte>)
    ensures |bytes| == |Trailer(off)| + HEADER + Take(off, |data|)
  {
    var n := Take(off, |data|);
    Trailer(off) + Physical(crc, TypeOf(begin, n == |data|), data[..n])
  }

  /** What AddRecord appends for `data` at block offset `off`; `begin` until the first fragment is out. */
  function Encoded(crc: Checksum, off: Offset, data: seq<Byte>, begin: bool): (bytes: seq<Byte>)
    ensures |bytes| >= HEADER
    decreases |data|, if Start(off) + HEADER == BLOCK then 1 else 0
  {
    var n := Take(off, |data|);
    var head := Head(crc, off, data, begin);
    if n == |data| then head else head + Encoded(crc, After(off, |data|), data[n..], false)
  }

  lemma EncodedEnds(crc: Checksum, off: Offset, data: seq<Byte>, begin: bool)
    requires off + HEADER + |data| <= BLOCK
    ensures Encoded(crc, off, data, begin) == Physical(crc, TypeOf(begin, true), data)
    ensures EndOffset(off, |data|) == off + HEADER + |data|
  {
    assert data[..|data|] == data;
  }

  lemma EncodedGoesOn(crc: Checksum, off: Offset, data: seq<Byte>, begin: bool)
    requires off + HEADER < BLOCK < off + HEADER + |data|
    ensures var n := BLOCK - off - HEADER;
            && Encoded(crc, off, data, begin)
               == Physical(crc, TypeOf(begin, false), data[..n]) + Encoded(crc, BLOCK, data[n..], false)
            && EndOffset(off, |data|) == EndOffset(BLOCK, |data| - n)
  {
    hide Physical;
  }

  lemma NextBlock(crc: Checksum, off: Offset, data: seq<Byte>, begin: bool)
    requires BLOCK - off < HEADER
    ensures Encoded(crc, off, data, begin) == seq(BLOCK - off, _ => 0) + Encoded(crc, 0, data, begin)
    ensures EndOffset(off, |data|) == EndOffset(0, |data|)
  {
    hide Physical;
    var n := Take(0, |data|);
    var p := Physical(crc, TypeOf(begin, n == |data|), data[..n]);
    assert [] + p == p;
    if n < |data| {
      Regroup(seq(BLOCK - off, _ => 0), p, Encoded(crc, After(0, |data|), data[n..], false));
    }
  }

  /** An example: a record of 1000 bytes fits the first block; one of 97270 bytes is cut into three pieces, for the
      rest of that block, all of the next, and all but six bytes of the third; those are filled with zeros, and the
      next record begins in the fourth block. */
  lemma ThreeRecords(crc: Checksum, a: seq<Byte>, b: seq<Byte>, c: seq<Byte>)
    requires |a| == 1000 && |b| == 97270 && |c| == 8000
    ensures EncodedAll(crc, 0, [a, b, c])
            == Physical(crc, FULL, a)
               + (Physical(crc, FIRST, b[..31754]) + (Physical(crc, MIDDLE, b[31754..64515])
                                                      + Physical(crc, LAST, b[64515..])))
               + ([0, 0, 0, 0, 0, 0] + Physical(crc, FULL, c))
  {
    hide Physical, Encoded, EndOffset;
    var b1, b2 := b[31754..], b[31754..][32761..];
    var none: seq<Byte> := [];
    EncodedEnds(crc, 0, a, true);
    EncodedGoesOn(crc, 1007, b, true);
    NextBlock(crc, BLOCK, b1, false);
    EncodedGoesOn(crc, 0, b1, false);
    NextBlock(crc, BLOCK, b2, false);
    EncodedEnds(crc, 0, b2, false);
    NextBlock(crc, 32762, c, true);
    EncodedEnds(crc, 0, c, true);
    assert b1[..32761] == b[31754..64515] && b2 == b[64515..];
    assert [a, b, c][1..] == [b, c] && [b, c][1..] == [c] && [c][1..] == [];
    assert seq(6, _ => 0) == [0, 0, 0, 0, 0, 0];
    Joined(none, Encoded(crc, 0, b1, false));
    Joined(none, Encoded(crc, 0, b2, false));
    EndOfExample(crc, c);
    assert EncodedAll(crc, 1007, [b, c])
           == Encoded(crc, 1007, b, true) + EncodedAll(crc, 32762, [c]);
    Regroup(Physical(crc, FULL, a), Encoded(crc, 1007, b, true), EncodedAll(crc, 32762, [c]));
  }

  lemma Joined(none: seq<Byte>, s: seq<Byte>)
    requires none == []
    ensures none + s == s && s + none == s && seq(0, _ => 0) + s == s
  {
  }

  lemma EndOfExample(crc: Checksum, c: seq<Byte>)
    requires |c| == 8000
    ensures EncodedAll(crc, 32762, [c]) == Encoded(crc, 32762, c, true)
  {
    assert [c][1..] == [];
  }

  /** The block offset after `left` bytes of a record. */
  function EndOffset(off: Offset, left: nat): Offset
    decreases left, if Start(off) + HEADER == BLOCK then 1 else 0
  {
    var n := Take(off, left);
    if n == left then After(off, left) else EndOffset(After(off, left), left - n)
  }

  function EncodedAll(crc: Checksum, off: Offset, records: seq<seq<Byte>>): seq<Byte>
    decreases |records|
  {
    if records == [] then []
    else Encoded(crc, off, records[0], true) + EncodedAll(crc, EndOffset(off, |records[0]|), records[1..])
  }

  function EndOfAll(off: Offset, records: seq<seq<Byte>>): Offset
    decreases |records|
  {
    if records == [] then off else EndOfAll(EndOffset(off, |records[0]|), records[1..])
  }

  lemma {:induction false} EncodedSnoc(crc: Checksum, off: Offset, records: seq<seq<Byte>>, r: seq<Byte>)
    ensures EncodedAll(crc, off, records + [r])
            == EncodedAll(crc, off, records) + Encoded(crc, EndOfAll(off, records), r, true)
    ensures EndOfAll(off, records + [r]) == EndOffset(EndOfAll(off, records), |r|)
    decreases |records|
  {
    var all := records + [r];
    if records == [] {
      assert EncodedAll(crc, EndOffset(off, |r|), all[1..]) == [];
    } else {
      assert all[1..] == records[1..] + [r];
      EncodedSnoc(crc, EndOffset(off, |records[0]|), records[1..], r);
      Regroup(Encoded(crc, off, records[0], true), EncodedAll(crc, EndOffset(off, |records[0]|), records[1..]),
              Encoded(crc, EndOfAll(off, records), r, true));
    }
  }

  /** log::Writer. */
  class Writer {
    const crc: Checksum
    var dest: seq<Byte>
    var blockOffset: nat
    ghost var records: seq<seq<Byte>>

    /** The file holds the records added so far and nothing else. */
    ghost predicate Valid()
      reads this
    {
      blockOffset == EndOfAll(0, records) && dest == EncodedAll(crc, 0, records)
    }

    constructor (c: Checksum)
      ensures Valid() && crc == c && records == []
    {
      crc, dest, blockOffset, records := c, [], 0, [];
    }

    method EmitPhysicalRecord(t: Byte, payload: seq<Byte>)
      requires blockOffset + HEADER + |payload| <= BLOCK
      modifies this`dest, this`blockOffset
      ensures dest == old(dest) + Physical(crc, t, payload)
      ensures blockOffset == old(blockOffset) + HEADER + |payload|
    {
      var length := |payload|;
      dest := dest + (Fixed32(Mask(crc([t] + payload))) + [length % 0x100, length / 0x100, t]);
      dest := dest + payload;
      blockOffset := blockOffset + HEADER + length;
    }

    /** Start a new block if no header fits in this one. */
    method SwitchBlock()
      requires blockOffset <= BLOCK
      modifies this`dest, this`blockOffset
      ensures dest == old(dest) + Trailer(old(blockOffset)) && blockOffset == Start(old(blockOffset))
    {
      var leftover := BLOCK - blockOffset;
      if leftover < HEADER {
        if leftover > 0 {
          dest := dest + seq(leftover, _ => 0);
        }
        blockOffset := 0;
      }
    }

    /** One round of the loop in AddRecord. */
    method EmitFragment(ptr: seq<Byte>, begin: bool) returns (rest: seq<Byte>)
      requires blockOffset <= BLOCK
      modifies this`dest, this`blockOffset
      ensures blockOffset <= BLOCK && dest == old(dest) + Head(crc, old(blockOffset), ptr, begin)
      ensures blockOffset == After(old(blockOffset), |ptr|)
      ensures rest == ptr[Take(old(blockOffset), |ptr|)..]
    {
      ghost var before, off := dest, blockOffset;
      SwitchBlock();
      var avail := BLOCK - blockOffset - HEADER;
      var n := if |ptr| < avail then |ptr| else avail;
      var end := |ptr| == n;
      var t := if begin && end then FULL else if begin then FIRST else if end then LAST else MIDDLE;
      EmitPhysicalRecord(t, ptr[..n]);
      Regroup(before, Trailer(off), Physical(crc, t, ptr[..n]));
      rest := ptr[n..];
    }

    /** Writer::AddRecord: even an empty record produces one physical record. */
    method AddRecord(slice: seq<Byte>)
      requires Valid()
      modifies this
      ensures Valid() && records == old(records) + [slice] && old(dest) <= dest
    {
      var ptr := slice;
      var begin := true;
      var more := true;
      while more
        invariant blockOffset <= BLOCK && records == old(records)
        invariant old(dest) + Encoded(crc, old(blockOffset), slice, true)
                  == if more then dest + Encoded(crc, blockOffset, ptr, begin) else dest
        invariant EndOffset(old(blockOffset), |slice|) == if more then EndOffset(blockOffset, |ptr|) else blockOffset
        decreases more, |ptr|, if Start(blockOffset) + HEADER == BLOCK then 1 else 0
      {
        ghost var before, off := dest, blockOffset;
        var rest := EmitFragment(ptr, begin);
        if |rest| > 0 {
          Regroup(before, Head(crc, off, ptr, begin), Encoded(crc, blockOffset, rest, false));
        }
        ptr, begin, more := rest, false, |rest| > 0;
      }
      EncodedSnoc(crc, 0, records, slice);
      records := records + [slice];
    }
  }

  lemma Regroup(a: seq<Byte>, b: seq<Byte>, c: seq<Byte>)
    ensures a + (b + c) == (a + b) + c
  {
  }
}
