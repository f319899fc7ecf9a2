// DTLS handshake messages and their fragments on the wire: dtls1_parse_fragment and dtls1_init_message in
// ssl/d1_both.cc, the layout of section 4.2.2 of RFC 6347.
module DtlsFragments {
  import opened Basics

  const HEADER_LENGTH := 12
  const MAX_FLIGHT := 7

  datatype Message = Message(ty: Byte, sn: nat, body: seq<Byte>)

  /** A fragment header together with its body; frag_len is the length of the body. */
  datatype Fragment = Fragment(ty: Byte, msgLen: nat, sn: nat, off: nat, body: seq<Byte>)

  predicate Fits(f: Fragment) {
    f.msgLen < 0x100_0000 && f.sn < 0x1_0000 && f.off < 0x100_0000 && |f.body| < 0x100_0000
  }

  function U24(n: nat): seq<Byte>
    requires n < 0x100_0000
  {
    [n / 0x1_0000, n / 0x100 % 0x100, n % 0x100]
  }

  function FromU24(s: seq<Byte>): nat
    requires |s| == 3
  {
    s[0] as int * 0x1_0000 + s[1] as int * 0x100 + s[2] as int
  }

  lemma U24RoundTrip(n: nat)
    requires n < 0x100_0000
    ensures FromU24(U24(n)) == n
  {
  }

  function U16(n: nat): seq<Byte>
    requires n < 0x1_0000
  {
    [n / 0x100, n % 0x100]
  }

  function FromU16(s: seq<Byte>): nat
    requires |s| == 2
  {
    s[0] as int * 0x100 + s[1] as int
  }

  lemma FromU24Inverse(s: seq<Byte>)
    requires |s| == 3
    ensures U24(FromU24(s)) == s
  {
  }

  function Header(f: Fragment): seq<Byte>
    requires Fits(f)
  {
    [f.ty] + U24(f.msgLen) + U16(f.sn) + U24(f.off) + U24(|f.body|)
  }

  function Serialize(f: Fragment): seq<Byte>
    requires Fits(f)
  {
    Header(f) + f.body
  }

  /** Type, length of the message, number, offset and length of the fragment, in 1, 3, 2, 3 and 3 bytes with the highest
      first, and then the body. */
  lemma HeaderLayout(f: Fragment)
    requires Fits(f)
    ensures var s := Serialize(f);
            && |s| == 12 + |f.body| && s[0] == f.ty && s[12..] == f.body
            && s[1] as int * 0x1_0000 + s[2] as int * 0x100 + s[3] as int == f.msgLen
            && s[4] as int * 0x100 + s[5] as int == f.sn
            && s[6] as int * 0x1_0000 + s[7] as int * 0x100 + s[8] as int == f.off
            && s[9] as int * 0x1_0000 + s[10] as int * 0x100 + s[11] as int == |f.body|
  {
    U24RoundTrip(f.msgLen);
    U24RoundTrip(f.off);
    U24RoundTrip(|f.body|);
  }

  /** dtls1_parse_fragment: the first fragment of `s` and what follows it. */
  function Parse(s: seq<Byte>): (r: Option<(Fragment, seq<Byte>)>)
    ensures r.Some? ==> Fits(r.value.0) && |s| == HEADER_LENGTH + |r.value.0.body| + |r.value.1|
  {
    if |s| < HEADER_LENGTH then None
    else
      var fragLen := FromU24(s[9..12]);
      if |s| < HEADER_LENGTH + fragLen then None
      else
        Some((Fragment(s[0], FromU24(s[1..4]), FromU16(s[4..6]), FromU24(s[6..9]), s[12..12 + fragLen]),
              s[12 + fragLen..]))
  }

  /** Parsing inverts serializing, whatever follows. */
  lemma ParseSerialize(f: Fragment, rest: seq<Byte>)
    requires Fits(f)
    ensures Parse(Serialize(f) + rest) == Some((f, rest))
  {
    var s := Serialize(f) + rest;
    var h := Header(f);
    assert |h| == 12 && s[..12] == h;
    assert s[0] == h[0];
    assert s[1..4] == h[1..4] == U24(f.msgLen);
    assert s[4..6] == h[4..6] == U16(f.sn);
    assert s[6..9] == h[6..9] == U24(f.off);
    assert s[9..12] == h[9..12] == U24(|f.body|);
    U24RoundTrip(f.msgLen);
    U24RoundTrip(f.off);
    U24RoundTrip(|f.body|);
    assert s[12..12 + |f.body|] == f.body && s[12 + |f.body|..] == rest;
  }

  /** Nothing else parses to the same fragment and rest. */
  lemma SerializeParse(s: seq<Byte>)
    requires Parse(s).Some?
    ensures s == Serialize(Parse(s).value.0) + Parse(s).value.1
  {
    var f := Parse(s).value.0;
    FromU24Inverse(s[1..4]);
    FromU24Inverse(s[6..9]);
    FromU24Inverse(s[9..12]);
    assert U16(f.sn) == s[4..6];
    SplitHeader(s, |f.body|);
  }

  lemma SplitHeader(s: seq<Byte>, n: nat)
    requires |s| >= 12 + n
    ensures s == ([s[0]] + s[1..4] + s[4..6] + s[6..9] + s[9..12] + s[12..12 + n]) + s[12 + n..]
  {
    assert s[..12] == [s[0]] + s[1..4] + s[4..6] + s[6..9] + s[9..12];
    assert s == s[..12] + s[12..12 + n] + s[12 + n..];
  }

  /** The fragment carries a piece of the message. */
  predicate PieceOf(f: Fragment, m: Message) {
    && f.ty == m.ty && f.sn == m.sn && f.msgLen == |m.body|
    && f.off + |f.body| <= |m.body| && f.body == m.body[f.off..f.off + |f.body|]
  }

  /** A flight: consecutive message numbers, at most as many messages as the receiver has slots for. */
  predicate Flight(msgs: seq<Message>, first: nat, maxLen: nat) {
    && |msgs| <= MAX_FLIGHT && first + |msgs| < 0x1_0000
    && forall i :: 0 <= i < |msgs| ==>
         msgs[i].sn == first + i && |msgs[i].body| <= maxLen && |msgs[i].body| < 0x100_0000
  }

  predicate Genuine(f: Fragment, msgs: seq<Message>) {
    exists m :: m in msgs && PieceOf(f, m)
  }
}
