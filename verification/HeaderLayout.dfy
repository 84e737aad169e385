/** Where every header field stands on the wire, position by position. */
module HeaderLayout {
  import opened Words
  import opened Segments
  import opened Checksum
  import opened Parsing
  import opened SegmentCodec
  import SegmentRoundTrip

  /** The 16-bit number at position `i`, most significant byte first. */
  function Word16At(b: seq<Byte>, i: nat): nat
    requires i + 2 <= |b|
  {
    var high: nat, low: nat := b[i], b[i + 1];
    256 * high + low
  }

  function Word32At(b: seq<Byte>, i: nat): nat
    requires i + 4 <= |b|
  {
    TWO_16 * Word16At(b, i) + Word16At(b, i + 2)
  }

  /** The header is laid out at the start of the buffer as section 3.1 of RFC 793 draws it. */
  predicate LaidOut(h: Header, b: seq<Byte>)
    requires |b| >= 20
  {
    && h.sport == Word16At(b, 0) && h.dport == Word16At(b, 2)
    && h.seqno == Word32At(b, 4) && h.ackno == Word32At(b, 8)
    && h.doff % 16 == b[12] / 16
    && h.urg == (b[13] / 32 % 2 == 1) && h.ack == (b[13] / 16 % 2 == 1) && h.psh == (b[13] / 8 % 2 == 1)
    && h.rst == (b[13] / 4 % 2 == 1) && h.syn == (b[13] / 2 % 2 == 1) && h.fin == (b[13] % 2 == 1)
    && h.win == Word16At(b, 14) && h.cksum == Word16At(b, 16) && h.uptr == Word16At(b, 18)
  }

  // Reading

  lemma Number16(s: seq<Byte>)
    requires |s| == 2
    ensures Number(s) == Word16At(s, 0)
  {
    assert s[..1][..0] == [] && s[..1][0] == s[0];
    assert Number(s[..1]) == s[0];
  }

  lemma Number32(s: seq<Byte>)
    requires |s| == 4
    ensures Number(s) == Word32At(s, 0)
  {
    assert s[..3][..2] == s[..2];
    Number16(s[..2]);
    assert Number(s[..3]) == 256 * Number(s[..2]) + s[2];
  }

  /** The parser that has read the first `i` bytes. */
  function At(b: seq<Byte>, i: nat): Parser
    requires i <= |b|
  {
    Parser(b[i..], NoError)
  }

  lemma Reads8At(b: seq<Byte>, i: nat)
    requires i + 1 <= |b|
    ensures At(b, i).Int8() == (b[i], At(b, i + 1))
  {
    assert b[i..][..1] == [b[i]] && [b[i]][..0] == [];
    assert b[i..][1..] == b[i + 1..];
    assert Number([b[i]]) == b[i];
  }

  lemma Reads16At(b: seq<Byte>, i: nat)
    requires i + 2 <= |b|
    ensures At(b, i).Int16() == (Word16At(b, i), At(b, i + 2))
  {
    Number16(b[i..][..2]);
    assert b[i..][2..] == b[i + 2..];
  }

  lemma Reads32At(b: seq<Byte>, i: nat)
    requires i + 4 <= |b|
    ensures At(b, i).Int32() == (Word32At(b, i), At(b, i + 4))
  {
    Number32(b[i..][..4]);
    assert b[i..][4..] == b[i + 4..];
  }

  lemma NumberingRead(b: seq<Byte>)
    requires |b| >= 12
    ensures var (h, p) := ParseNumbering(Parser(b, NoError));
            && p == At(b, 12)
            && h.sport == Word16At(b, 0) && h.dport == Word16At(b, 2)
            && h.seqno == Word32At(b, 4) && h.ackno == Word32At(b, 8)
  {
    hide Parser.Int16, Parser.Int32, Word16At, Word32At;
    assert b[0..] == b;
    Reads16At(b, 0);
    Reads16At(b, 2);
    Reads32At(b, 4);
    Reads32At(b, 8);
  }

  lemma ControlRead(h0: Header, b: seq<Byte>)
    requires |b| >= 16
    ensures var (h, p) := ParseControl(h0, At(b, 12));
            && p == At(b, 16)
            && h.sport == h0.sport && h.dport == h0.dport && h.seqno == h0.seqno && h.ackno == h0.ackno
            && h.doff == b[12] / 16 && h.win == Word16At(b, 14)
            && h.urg == (b[13] / 32 % 2 == 1) && h.ack == (b[13] / 16 % 2 == 1) && h.psh == (b[13] / 8 % 2 == 1)
            && h.rst == (b[13] / 4 % 2 == 1) && h.syn == (b[13] / 2 % 2 == 1) && h.fin == (b[13] % 2 == 1)
  {
    hide Parser.Int8, Parser.Int16, Word16At, At;
    Reads8At(b, 12);
    Reads8At(b, 13);
    Reads16At(b, 14);
  }

  /** Whatever the rest of the buffer is: every field comes from its own positions. */
  lemma HeaderIsRead(b: seq<Byte>)
    requires |b| >= 20
    ensures var p := ParseHeader(Parser(b, NoError));
            && LaidOut(p.header, b) && p.header.doff < 16
            && p.rest.error == (if |b| < 4 * p.header.doff then PacketTooShort else NoError)
            && p.rest.buffer == (if 20 <= 4 * p.header.doff <= |b| then b[4 * p.header.doff..] else b[20..])
  {
    hide ParseNumbering, ParseControl, Parser.Int16, Word16At, Word32At;
    NumberingRead(b);
    ControlRead(ParseNumbering(Parser(b, NoError)).0, b);
    Reads16At(b, 16);
    Reads16At(b, 18);
    var d: nat := b[12] / 16;
    if 20 <= 4 * d <= |b| {
      assert b[20..][4 * d - 20..] == b[4 * d..];
    }
  }

  /** Every segment filled in from a buffer of at least the fixed size has its fields where the layout says. */
  lemma FieldsAreRead(b: seq<Byte>, pseudo: Word32)
    requires |b| >= 20 && Parse(b, pseudo).Filled?
    ensures LaidOut(Parse(b, pseudo).segment.header, b) && Parse(b, pseudo).segment.header.doff < 16
  {
    hide ParseHeader, LaidOut;
    HeaderIsRead(b);
  }

  // Writing

  lemma Written16(v: Word16)
    ensures BigEndian(v, 2) == [v / 256, v % 256]
  {
    assert BigEndian(v / 256, 1) == BigEndian(v / 256 / 256, 0) + [v / 256 % 256];
  }

  lemma Written32(v: Word32)
    ensures Word32At(BigEndian(v, 4), 0) == v
  {
    IntFits(Parser([], NoError), 4);
    NumberOfBigEndian(v, 4);
    Number32(BigEndian(v, 4));
  }

  /** `part` stands in `b` from position `i` on. */
  predicate StandsAt(b: seq<Byte>, i: nat, part: seq<Byte>) {
    i + |part| <= |b| && b[i..i + |part|] == part
  }

  lemma Stands16(b: seq<Byte>, i: nat, v: Word16)
    requires StandsAt(b, i, BigEndian(v, 2))
    ensures Word16At(b, i) == v
  {
    Written16(v);
    assert b[i..i + 2][0] == b[i] && b[i..i + 2][1] == b[i + 1];
  }

  lemma Stands32(b: seq<Byte>, i: nat, v: Word32)
    requires StandsAt(b, i, BigEndian(v, 4))
    ensures Word32At(b, i) == v
  {
    Written32(v);
    var s := b[i..i + 4];
    assert s[0] == b[i] && s[1] == b[i + 1] && s[2] == b[i + 2] && s[3] == b[i + 3];
  }

  lemma NumberingStands(h: Header, b: seq<Byte>)
    requires StandsAt(b, 0, Numbering(h))
    ensures |b| >= 12 && h.sport == Word16At(b, 0) && h.dport == Word16At(b, 2)
    ensures h.seqno == Word32At(b, 4) && h.ackno == Word32At(b, 8)
  {
    hide BigEndian, Word16At, Word32At;
    var s := Numbering(h);
    assert s[0..2] == BigEndian(h.sport, 2) && s[2..4] == BigEndian(h.dport, 2);
    assert s[4..8] == BigEndian(h.seqno, 4) && s[8..12] == BigEndian(h.ackno, 4);
    assert b[0..2] == b[0..12][0..2] && b[2..4] == b[0..12][2..4] && b[4..8] == b[0..12][4..8] && b[8..12] == b[0..12][8..12];
    Stands16(b, 0, h.sport);
    Stands16(b, 2, h.dport);
    Stands32(b, 4, h.seqno);
    Stands32(b, 8, h.ackno);
  }

  lemma Written8(v: Byte)
    ensures BigEndian(v, 1) == [v]
  {
    assert BigEndian(v / 256, 0) == [];
  }

  lemma ControlStands(h: Header, b: seq<Byte>)
    requires StandsAt(b, 12, Control(h))
    ensures |b| >= 16 && h.win == Word16At(b, 14)
    ensures b[12] == 16 * (h.doff % 16) && b[13] == FlagByte(h)
  {
    hide BigEndian, Word16At, FlagByte;
    Written8(h.doff * 16 % 256);
    Written8(FlagByte(h));
    var s := Control(h);
    assert s == [h.doff * 16 % 256, FlagByte(h)] + BigEndian(h.win, 2);
    assert s[2..4] == BigEndian(h.win, 2);
    assert b[14..16] == b[12..16][2..4] && b[12] == b[12..16][0] && b[13] == b[12..16][1];
    Stands16(b, 14, h.win);
  }

  lemma FlagsStand(h: Header)
    ensures var f := FlagByte(h);
            && f < 64
            && h.urg == (f / 32 % 2 == 1) && h.ack == (f / 16 % 2 == 1) && h.psh == (f / 8 % 2 == 1)
            && h.rst == (f / 4 % 2 == 1) && h.syn == (f / 2 % 2 == 1) && h.fin == (f % 2 == 1)
  {
    SegmentRoundTrip.FlagsRead(h);
  }

  /** The pieces of a header stand at these positions, with anything behind. */
  lemma PiecesStand(h: Header, rest: seq<Byte>)
    requires h.doff >= 5
    ensures var b := HeaderBytes(h) + rest;
            && |b| == 4 * h.doff + |rest|
            && StandsAt(b, 0, Numbering(h)) && StandsAt(b, 12, Control(h))
            && StandsAt(b, 16, BigEndian(h.cksum, 2)) && StandsAt(b, 18, BigEndian(h.uptr, 2))
            && b[20..4 * h.doff] == Zeros(4 * h.doff - 20) && b[4 * h.doff..] == rest
  {
    var n, c, k, u, z := Numbering(h), Control(h), BigEndian(h.cksum, 2), BigEndian(h.uptr, 2), Zeros(4 * h.doff - 20);
    assert |n| == 12 && |c| == 4;
    hide BigEndian, Numbering, Control, Zeros;
    assert HeaderBytes(h) + rest == n + c + k + u + z + rest;
  }

  /** The fixed part of a written header, with anything behind it. */
  lemma HeaderIsWritten(h: Header, rest: seq<Byte>)
    requires h.doff >= 5
    ensures var b := HeaderBytes(h) + rest;
            && |b| == 4 * h.doff + |rest|
            && LaidOut(h, b) && b[12] % 16 == 0 && b[13] < 64
            && (forall i :: 20 <= i < 4 * h.doff ==> b[i] == 0)
            && b[4 * h.doff..] == rest
  {
    hide Numbering, Control, BigEndian, Word16At, Word32At, FlagByte, HeaderBytes, StandsAt;
    var b := HeaderBytes(h) + rest;
    PiecesStand(h, rest);
    NumberingStands(h, b);
    ControlStands(h, b);
    FlagsStand(h);
    Stands16(b, 16, h.cksum);
    Stands16(b, 18, h.uptr);
    forall i | 20 <= i < 4 * h.doff
      ensures b[i] == 0
    {
      assert b[i] == b[20..4 * h.doff][i - 20];
    }
  }

  /** Two buffers with the same header but for the checksum field differ only there. */
  lemma OnlyFieldDiffers(h: Header, rest: seq<Byte>, c: Word16)
    requires h.doff >= 5
    ensures var b := HeaderBytes(h.(cksum := c)) + rest;
            |b| >= 20 && HeaderBytes(h.(cksum := 0)) + rest == b[16 := 0][17 := 0]
  {
    var n, u := Numbering(h) + Control(h), Ending(h) + rest;
    assert |n| == 16;
    SegmentRoundTrip.FrontSame(h, c);
    SegmentRoundTrip.FrontSame(h, 0);
    Written16(c);
    Written16(0);
    hide BigEndian, Numbering, Control, Ending;
    var b := HeaderBytes(h.(cksum := c)) + rest;
    assert b == n + [c / 256, c % 256] + u;
    assert HeaderBytes(h.(cksum := 0)) + rest == n + [0, 0] + u;
  }

  /**
   * What goes on the wire, byte by byte: every field of the segment at its positions, zeros as
   * padding, the payload behind, and the checksum of all that over a zero checksum field.
   */
  lemma BytesAreWritten(seg: Segment, pseudo: Word32)
    requires seg.header.doff >= 5
    ensures Serialize(seg, pseudo).Some?
    ensures var h, b := seg.header, Serialize(seg, pseudo).value;
            && |b| == 4 * h.doff + |seg.payload|
            && LaidOut(h.(cksum := Word16At(b, 16)), b) && b[12] % 16 == 0 && b[13] < 64
            && (forall i :: 20 <= i < 4 * h.doff ==> b[i] == 0)
            && b[4 * h.doff..] == seg.payload
            && Word16At(b, 16) == Value(Total(pseudo, b[16 := 0][17 := 0]))
  {
    hide HeaderBytes, Value, Total, Word32At;
    var h := Sealed(seg, pseudo).header;
    HeaderIsWritten(h, seg.payload);
    OnlyFieldDiffers(seg.header, seg.payload, h.cksum);
  }
}
