/** TCP segments on the wire. */
module SegmentCodec {
  import opened Words
  import opened Segments
  import opened Checksum
  import opened Parsing

  const HEADER_LENGTH := 20

  function Bit(b: bool, weight: nat): nat {
    if b then weight else 0
  }

  function FlagByte(h: Header): Byte {
    Bit(h.urg, 32) + Bit(h.ack, 16) + Bit(h.psh, 8) + Bit(h.rst, 4) + Bit(h.syn, 2) + Bit(h.fin, 1)
  }

  predicate HasBit(b: Byte, weight: nat)
    requires weight > 0
  {
    b / weight % 2 == 1
  }

  function Zeros(n: nat): (r: seq<Byte>)
    ensures |r| == n
  {
    seq(n, _ => 0)
  }

  /** The first half: ports and sequence numbers. */
  function Numbering(h: Header): seq<Byte> {
    BigEndian(h.sport, 2) + BigEndian(h.dport, 2) + BigEndian(h.seqno, 4) + BigEndian(h.ackno, 4)
  }

  /** Data offset (its low four bits only), flags and window. */
  function Control(h: Header): seq<Byte> {
    BigEndian(h.doff * 16 % 256, 1) + BigEndian(FlagByte(h), 1) + BigEndian(h.win, 2)
  }

  /** The urgent field, and zeros up to the size the data offset advertises. */
  function Ending(h: Header): seq<Byte>
    requires h.doff >= 5
  {
    BigEndian(h.uptr, 2) + Zeros(4 * h.doff - HEADER_LENGTH)
  }

  function HeaderBytes(h: Header): seq<Byte>
    requires h.doff >= 5
  {
    Numbering(h) + Control(h) + BigEndian(h.cksum, 2) + Ending(h)
  }

  /** The checksum over the segment with a zero checksum field. */
  function SegmentChecksum(seg: Segment, pseudo: Word32): Word16
    requires seg.header.doff >= 5
  {
    Value(Total(pseudo, HeaderBytes(seg.header.(cksum := 0)) + seg.payload))
  }

  /** The segment as sent: its own checksum filled in. */
  function Sealed(seg: Segment, pseudo: Word32): Segment
    requires seg.header.doff >= 5
  {
    seg.(header := seg.header.(cksum := SegmentChecksum(seg, pseudo)))
  }

  /** The bytes on the wire; none (an exception) if the header claims to be too short. */
  function Serialize(seg: Segment, pseudo: Word32): Option<seq<Byte>> {
    if seg.header.doff < 5 then None
    else Some(HeaderBytes(Sealed(seg, pseudo).header) + seg.payload)
  }

  datatype HeaderParse = HeaderParse(header: Header, result: ParseResult, rest: Parser)

  function ParseNumbering(p: Parser): (Header, Parser) {
    var (sport, p1) := p.Int16();
    var (dport, p2) := p1.Int16();
    var (seqno, p3) := p2.Int32();
    var (ackno, p4) := p3.Int32();
    (BLANK_HEADER.(sport := sport, dport := dport, seqno := seqno, ackno := ackno), p4)
  }

  function ParseControl(h: Header, p: Parser): (Header, Parser) {
    var (offset, p1) := p.Int8();
    var (flags, p2) := p1.Int8();
    var (win, p3) := p2.Int16();
    (h.(doff := offset / 16, urg := HasBit(flags, 32), ack := HasBit(flags, 16), psh := HasBit(flags, 8),
        rst := HasBit(flags, 4), syn := HasBit(flags, 2), fin := HasBit(flags, 1), win := win), p3)
  }

  /** A header, and the parser's verdict on it. */
  function ParseHeader(p: Parser): HeaderParse {
    var (h1, p1) := ParseNumbering(p);
    var (h2, p2) := ParseControl(h1, p1);
    var (cksum, p3) := p2.Int16();
    var (uptr, p4) := p3.Int16();
    var h := h2.(cksum := cksum, uptr := uptr);
    if h.doff < 5 then HeaderParse(h, HeaderTooShort, p4)
    else
      var p5 := p4.Skip(4 * h.doff - HEADER_LENGTH);
      HeaderParse(h, p5.error, p5)
  }

  /** A failed checksum leaves the segment alone; otherwise fields are filled in, with a result. */
  datatype SegmentParse = Rejected | Filled(segment: Segment, result: ParseResult)

  /** The verdict of the header parser is dropped; the parser's own error is what counts. */
  function Parse(buffer: seq<Byte>, pseudo: Word32): SegmentParse {
    if Value(Total(pseudo, buffer)) != 0 then Rejected
    else
      var p := ParseHeader(Parser(buffer, NoError));
      Filled(Segment(p.header, p.rest.buffer), p.rest.error)
  }
}
