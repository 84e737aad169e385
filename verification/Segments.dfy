/** TCP headers and segments as values. */
module Segments {
  import opened Words

  datatype Header = Header(
    sport: Word16, dport: Word16, seqno: Word32, ackno: Word32, doff: Byte,
    urg: bool, ack: bool, psh: bool, rst: bool, syn: bool, fin: bool,
    win: Word16, cksum: Word16, uptr: Word16)

  datatype Segment = Segment(header: Header, payload: seq<Byte>) {

    /** Sequence numbers the segment occupies: SYN and FIN count for one each. */
    function Length(): nat {
      |payload| + (if header.syn then 1 else 0) + (if header.fin then 1 else 0)
    }
  }

  /** A header as default-constructed, in units of four bytes long by `doff`. */
  const BLANK_HEADER: Header :=
    Header(0, 0, 0, 0, 5, false, false, false, false, false, false, 0, 0, 0)

  /** What the sender puts into a segment: sequence number, flags and payload. */
  function MakeSegment(seqno: Word32, syn: bool, fin: bool, payload: seq<Byte>): Segment {
    Segment(BLANK_HEADER.(seqno := seqno, syn := syn, fin := fin), payload)
  }
}
