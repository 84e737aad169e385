/** The serializer and parser of TCP headers and segments. */
module TcpSegments {
  import opened Words
  import opened Segments
  import opened Checksum
  import opened Checksums
  import opened Parsing
  import opened SegmentCodec

  class TCPHeader {
    var fields: Header

    constructor (h: Header)
      ensures fields == h
    {
      fields := h;
    }

    method ParseNumbers(p: NetParser)
      modifies this, p
      ensures (fields, p.State()) == ParseNumbering(old(p.State()))
    {
      IntFits(p.State(), 0);
      var sport := p.ParseInt(2);
      var dport := p.ParseInt(2);
      var seqno := p.ParseInt(4);
      var ackno := p.ParseInt(4);
      fields := BLANK_HEADER.(sport := sport, dport := dport, seqno := seqno, ackno := ackno);
    }

    method ParseFlags(p: NetParser)
      modifies this, p
      ensures (fields, p.State()) == ParseControl(old(fields), old(p.State()))
    {
      IntFits(p.State(), 0);
      var offset := p.ParseInt(1);
      var flags := p.ParseInt(1);
      var win := p.ParseInt(2);
      fields := fields.(doff := offset / 16, urg := HasBit(flags, 32), ack := HasBit(flags, 16),
        psh := HasBit(flags, 8), rst := HasBit(flags, 4), syn := HasBit(flags, 2), fin := HasBit(flags, 1),
        win := win);
    }

    method Parse(p: NetParser) returns (r: ParseResult)
      modifies this, p
      ensures HeaderParse(fields, r, p.State()) == ParseHeader(old(p.State()))
    {
      hide ParseNumbering, ParseControl, Parser.Int;
      ParseNumbers(p);
      ParseFlags(p);
      IntFits(p.State(), 0);
      var cksum := p.ParseInt(2);
      var uptr := p.ParseInt(2);
      fields := fields.(cksum := cksum, uptr := uptr);
      if fields.doff < 5 {
        return HeaderTooShort;
      }
      p.RemovePrefix(fields.doff * 4 - HEADER_LENGTH);
      return p.error;
    }

    method Serialize() returns (r: Option<seq<Byte>>)
      ensures r == if fields.doff < 5 then None else Some(HeaderBytes(fields))
    {
      hide BigEndian, FlagByte;
      if fields.doff < 5 {
        return None;
      }
      var ret := UnparseInt([], fields.sport, 2);
      ret := UnparseInt(ret, fields.dport, 2);
      ret := UnparseInt(ret, fields.seqno, 4);
      ret := UnparseInt(ret, fields.ackno, 4);
      assert ret == Numbering(fields);
      ret := UnparseInt(ret, fields.doff * 16 % 256, 1);
      ret := UnparseInt(ret, FlagByte(fields), 1);
      ret := UnparseInt(ret, fields.win, 2);
      assert ret == Numbering(fields) + Control(fields);
      ret := UnparseInt(ret, fields.cksum, 2);
      ret := UnparseInt(ret, fields.uptr, 2);
      r := Some(ret + Zeros(4 * fields.doff - HEADER_LENGTH));
      assert r.value == HeaderBytes(fields);
    }
  }

  class TCPSegment {
    const header: TCPHeader
    var payload: seq<Byte>

    constructor (seg: Segment)
      ensures fresh(header) && State() == seg
    {
      header := new TCPHeader(seg.header);
      payload := seg.payload;
    }

    ghost function State(): Segment
      reads this, header
    {
      Segment(header.fields, payload)
    }

    method Parse(buffer: seq<Byte>, pseudo: Word32) returns (r: ParseResult)
      modifies this, header
      ensures match SegmentCodec.Parse(buffer, pseudo)
              case Rejected => r == BadChecksum && State() == old(State())
              case Filled(seg, result) => r == result && State() == seg
    {
      hide ParseHeader, Value, SumBytes;
      var check := new InternetChecksum(pseudo);
      check.Add(buffer);
      var v := check.GetValue();
      if v != 0 {
        return BadChecksum;
      }
      var p := new NetParser(buffer);
      var verdict := header.Parse(p);
      payload := p.buffer;
      return p.error;
    }

    method Serialize(pseudo: Word32) returns (r: Option<seq<Byte>>)
      ensures r == SegmentCodec.Serialize(State(), pseudo)
    {
      hide HeaderBytes, Value, SumBytes;
      var out := new TCPHeader(header.fields.(cksum := 0));
      var check := new InternetChecksum(pseudo);
      var bytes := out.Serialize();
      if bytes.None? {
        return None;
      }
      check.Add(bytes.value);
      check.Add(payload);
      ghost var sum := SumBytes(bytes.value, false);
      U32Adds(pseudo + sum, SumBytes(payload, OddAfter(bytes.value, false)));
      SumOfChunks(bytes.value, payload, false);
      var cksum := check.GetValue();
      out.fields := out.fields.(cksum := cksum);
      bytes := out.Serialize();
      r := Some(bytes.value + payload);
    }
  }
}
