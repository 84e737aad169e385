/** What is serialized is parsed back; what is corrupted is noticed; what exactly is accepted. */
module SegmentRoundTrip {
  import opened Words
  import opened Segments
  import opened Checksum
  import opened Parsing
  import opened SegmentCodec

  // Reading back the header

  lemma Reads8(v: Byte, rest: seq<Byte>)
    ensures Parser(BigEndian(v, 1) + rest, NoError).Int8() == (v, Parser(rest, NoError))
  {
    IntFits(Parser(rest, NoError), 1);
    IntReadsBigEndian(v, 1, rest);
  }

  lemma Reads16(v: Word16, rest: seq<Byte>)
    ensures Parser(BigEndian(v, 2) + rest, NoError).Int16() == (v, Parser(rest, NoError))
  {
    IntFits(Parser(rest, NoError), 2);
    IntReadsBigEndian(v, 2, rest);
  }

  lemma Reads32(v: Word32, rest: seq<Byte>)
    ensures Parser(BigEndian(v, 4) + rest, NoError).Int32() == (v, Parser(rest, NoError))
  {
    IntFits(Parser(rest, NoError), 4);
    IntReadsBigEndian(v, 4, rest);
  }

  lemma ReadsNumbering(h: Header, rest: seq<Byte>)
    ensures ParseNumbering(Parser(Numbering(h) + rest, NoError))
            == (BLANK_HEADER.(sport := h.sport, dport := h.dport, seqno := h.seqno, ackno := h.ackno),
                Parser(rest, NoError))
  {
    hide BigEndian, Parser.Int8, Parser.Int16, Parser.Int32;
    var r3 := BigEndian(h.ackno, 4) + rest;
    var r2 := BigEndian(h.seqno, 4) + r3;
    var r1 := BigEndian(h.dport, 2) + r2;
    assert Numbering(h) + rest == BigEndian(h.sport, 2) + r1;
    Reads16(h.sport, r1);
    Reads16(h.dport, r2);
    Reads32(h.seqno, r3);
    Reads32(h.ackno, rest);
  }

  lemma FlagsRead(h: Header)
    ensures HasBit(FlagByte(h), 32) == h.urg && HasBit(FlagByte(h), 16) == h.ack
    ensures HasBit(FlagByte(h), 8) == h.psh && HasBit(FlagByte(h), 4) == h.rst
    ensures HasBit(FlagByte(h), 2) == h.syn && HasBit(FlagByte(h), 1) == h.fin
  {
  }

  lemma ReadsControl(h0: Header, h: Header, rest: seq<Byte>)
    requires h.doff <= 15
    ensures ParseControl(h0, Parser(Control(h) + rest, NoError))
            == (h0.(doff := h.doff, urg := h.urg, ack := h.ack, psh := h.psh, rst := h.rst, syn := h.syn,
                    fin := h.fin, win := h.win), Parser(rest, NoError))
  {
    hide BigEndian, FlagByte, HasBit, Parser.Int8, Parser.Int16;
    var r2 := BigEndian(h.win, 2) + rest;
    var r1 := BigEndian(FlagByte(h), 1) + r2;
    assert Control(h) + rest == BigEndian(h.doff * 16 % 256, 1) + r1;
    Reads8(h.doff * 16 % 256, r1);
    Reads8(FlagByte(h), r2);
    Reads16(h.win, rest);
    FlagsRead(h);
  }

  /** Parsing a serialized header restores it and stops right behind it. */
  lemma ReadsHeader(h: Header, rest: seq<Byte>)
    requires 5 <= h.doff <= 15
    ensures ParseHeader(Parser(HeaderBytes(h) + rest, NoError))
            == HeaderParse(h, NoError, Parser(rest, NoError))
  {
    hide BigEndian, Parser.Int16, Numbering, Control, ParseNumbering, ParseControl;
    var padding := Zeros(4 * h.doff - HEADER_LENGTH);
    var r4 := padding + rest;
    var r3 := BigEndian(h.uptr, 2) + r4;
    var r2 := BigEndian(h.cksum, 2) + r3;
    var r1 := Control(h) + r2;
    assert HeaderBytes(h) + rest == Numbering(h) + r1;
    ReadsNumbering(h, r1);
    ReadsControl(ParseNumbering(Parser(Numbering(h) + r1, NoError)).0, h, r2);
    Reads16(h.cksum, r3);
    Reads16(h.uptr, r4);
    assert r4[|padding|..] == rest;
  }

  // The checksum

  /** Filling in the checksum field adds exactly its value to the sum. */
  lemma FieldAdds(h: Header, payload: seq<Byte>, c: Word16)
    requires h.doff >= 5
    ensures SumBytes(HeaderBytes(h.(cksum := c)) + payload, false)
            == SumBytes(HeaderBytes(h.(cksum := 0)) + payload, false) + c
  {
    hide BigEndian, Numbering, Control, Ending, FlagByte;
    var front, back := Numbering(h) + Control(h), Ending(h) + payload;
    assert |front| == 16 by {
      FrontLength(h);
    }
    FrontSame(h, c);
    FrontSame(h, 0);
    assert HeaderBytes(h.(cksum := c)) + payload == front + (BigEndian(c, 2) + back);
    assert HeaderBytes(h.(cksum := 0)) + payload == front + (BigEndian(0, 2) + back);
    FieldSum(front, back, c);
    FieldSum(front, back, 0);
  }

  lemma FrontLength(h: Header)
    ensures |Numbering(h) + Control(h)| == 16
  {
  }

  lemma FrontSame(h: Header, c: Word16)
    requires h.doff >= 5
    ensures Numbering(h.(cksum := c)) == Numbering(h) && Control(h.(cksum := c)) == Control(h)
    ensures Ending(h.(cksum := c)) == Ending(h)
  {
  }

  lemma FieldSum(front: seq<Byte>, back: seq<Byte>, c: Word16)
    requires |front| % 2 == 0
    ensures SumBytes(front + (BigEndian(c, 2) + back), false)
            == SumBytes(front, false) + c + SumBytes(back, false)
  {
    SumOfChunks(front, BigEndian(c, 2) + back, false);
    SumOfChunks(BigEndian(c, 2), back, false);
    WordSum(c);
  }

  lemma WordSum(c: Word16)
    ensures SumBytes(BigEndian(c, 2), false) == c
  {
    assert BigEndian(c / 256, 1) == BigEndian(c / 256 / 256, 0) + [c / 256 % 256];
    assert BigEndian(c, 2) == [c / 256, c % 256];
    PairSum(c / 256, c % 256);
  }

  lemma PairSum(a: Byte, b: Byte)
    ensures SumBytes([a, b], false) == 256 * a + b
  {
    assert [a, b][1..] == [b];
    assert SumBytes([b], true) == b + SumBytes([b][1..], false);
  }

  /** A segment with its own checksum passes the check, whatever its size and the pseudo-header's sum. */
  lemma SealedPasses(seg: Segment, pseudo: Word32)
    requires seg.header.doff >= 5
    ensures Value(Total(pseudo, HeaderBytes(Sealed(seg, pseudo).header) + seg.payload)) == 0
  {
    hide SumBytes, HeaderBytes, Value;
    var c := SegmentChecksum(seg, pseudo);
    FieldAdds(seg.header, seg.payload, c);
    var s := SumBytes(HeaderBytes(seg.header.(cksum := 0)) + seg.payload, false);
    U32Adds(pseudo + s, c);
    OwnChecksumPasses(U32(pseudo + s));
  }

  // Main results

  /** Serializing and parsing under the same pseudo-checksum restores payload and all fields but the
      checksum, which is the computed one: exactly if the data offset fits its four bits. */
  lemma RoundTripIff(seg: Segment, pseudo: Word32)
    ensures seg.header.doff >= 5 <==> Serialize(seg, pseudo).Some?
    ensures seg.header.doff >= 5 ==>
              (Parse(Serialize(seg, pseudo).value, pseudo) == Filled(Sealed(seg, pseudo), NoError)
               <==> seg.header.doff <= 15)
  {
    hide HeaderBytes, ParseHeader, Value, Total, SegmentChecksum;
    if seg.header.doff >= 5 {
      var h := Sealed(seg, pseudo).header;
      SealedPasses(seg, pseudo);
      OffsetIsNibble(Parser(HeaderBytes(h) + seg.payload, NoError));
      if h.doff <= 15 {
        ReadsHeader(h, seg.payload);
      }
    }
  }

  lemma OffsetIsNibble(p: Parser)
    ensures ParseHeader(p).header.doff <= 15
  {
  }

  /** Whatever passed the check is rejected after any change of any one byte. */
  lemma OneByteIsRejected(buffer: seq<Byte>, pseudo: Word32, i: nat, v: Byte)
    requires i < |buffer| && v != buffer[i] && Parse(buffer, pseudo) != Rejected
    ensures Parse(buffer[i := v], pseudo) == Rejected
  {
    hide ParseHeader, Value, Total;
    OneByteIsNoticed(pseudo, buffer, i, v);
  }

  // What is accepted

  /** From `p` to `q`, `n` bytes were read, or could not be. */
  predicate Consumed(p: Parser, q: Parser, n: nat) {
    if p.error == NoError && |p.buffer| >= n then q == Parser(p.buffer[n..], NoError)
    else q.error != NoError
  }

  lemma ConsumedBoth(p: Parser, q: Parser, r: Parser, n: nat, m: nat)
    requires Consumed(p, q, n) && Consumed(q, r, m)
    ensures Consumed(p, r, n + m)
  {
    if p.error == NoError && |p.buffer| >= n + m {
      assert p.buffer[n..][m..] == p.buffer[n + m..];
    }
  }

  lemma NumberingConsumes(p: Parser)
    ensures Consumed(p, ParseNumbering(p).1, 12)
  {
    var p1 := p.Int16().1;
    var p2 := p1.Int16().1;
    var p3 := p2.Int32().1;
    var p4 := p3.Int32().1;
    ConsumedBoth(p, p1, p2, 2, 2);
    ConsumedBoth(p, p2, p3, 4, 4);
    ConsumedBoth(p, p3, p4, 8, 4);
  }

  lemma ControlConsumes(h: Header, p: Parser)
    ensures Consumed(p, ParseControl(h, p).1, 4)
    ensures p.error == NoError && |p.buffer| >= 1 ==> ParseControl(h, p).0.doff == p.buffer[0] / 16
  {
    var p1 := p.Int8().1;
    var p2 := p1.Int8().1;
    var p3 := p2.Int16().1;
    ConsumedBoth(p, p1, p2, 1, 1);
    ConsumedBoth(p, p2, p3, 2, 2);
    if p.error == NoError && |p.buffer| >= 1 {
      assert p.buffer[..1] == [p.buffer[0]];
      assert Number([]) == 0 && Number([p.buffer[0]]) == p.buffer[0];
    }
  }

  /** The data offset a header claims. */
  function ClaimedOffset(buffer: seq<Byte>): nat
    requires |buffer| >= HEADER_LENGTH
  {
    buffer[12] / 16
  }

  /** The length of the header to skip: a claim below the minimum is not acted on. */
  function Skipped(buffer: seq<Byte>): nat
    requires |buffer| >= HEADER_LENGTH
  {
    if ClaimedOffset(buffer) < 5 then HEADER_LENGTH else 4 * ClaimedOffset(buffer)
  }

  lemma HeaderErrorIff(buffer: seq<Byte>)
    ensures var parsed := ParseHeader(Parser(buffer, NoError));
            if |buffer| >= HEADER_LENGTH && |buffer| >= Skipped(buffer) then
              && parsed.rest == Parser(buffer[Skipped(buffer)..], NoError)
              && parsed.result == if ClaimedOffset(buffer) < 5 then HeaderTooShort else NoError
            else parsed.rest.error != NoError
  {
    hide ParseNumbering, ParseControl;
    var p := Parser(buffer, NoError);
    var (h1, p1) := ParseNumbering(p);
    var (h2, p2) := ParseControl(h1, p1);
    var p3 := p2.Int16().1;
    var p4 := p3.Int16().1;
    NumberingConsumes(p);
    ControlConsumes(h1, p1);
    ConsumedBoth(p, p1, p2, 12, 4);
    ConsumedBoth(p, p2, p3, 16, 2);
    ConsumedBoth(p, p3, p4, 18, 2);
    if |buffer| >= HEADER_LENGTH {
      assert p4.buffer == buffer[20..] && h2.doff == ClaimedOffset(buffer);
      if h2.doff >= 5 && |buffer| >= 4 * h2.doff {
        assert buffer[20..][4 * h2.doff - 20..] == buffer[4 * h2.doff..];
      }
    }
  }

  /** A buffer is parsed without error exactly if it passes the check, holds a minimal header, and
      holds the header it claims unless it claims too short a one; the payload is all that follows. */
  lemma AcceptedIff(buffer: seq<Byte>, pseudo: Word32)
    ensures Parse(buffer, pseudo).Filled? && Parse(buffer, pseudo).result == NoError
            <==> && Value(Total(pseudo, buffer)) == 0
                 && |buffer| >= HEADER_LENGTH && |buffer| >= Skipped(buffer)
    ensures Parse(buffer, pseudo).Filled? && Parse(buffer, pseudo).result == NoError
            ==> Parse(buffer, pseudo).segment.payload == buffer[Skipped(buffer)..]
  {
    hide ParseHeader, Value, Total, Skipped;
    HeaderErrorIff(buffer);
  }

  /** Of what is parsed without error, exactly the headers claiming less than the minimum were
      found too short by the header parser, whose verdict is not passed on. */
  lemma TooShortIsAcceptedIff(buffer: seq<Byte>, pseudo: Word32)
    requires Parse(buffer, pseudo).Filled? && Parse(buffer, pseudo).result == NoError
    ensures |buffer| >= HEADER_LENGTH
    ensures ParseHeader(Parser(buffer, NoError)).result == HeaderTooShort <==> ClaimedOffset(buffer) < 5
  {
    hide ParseHeader, Value, Total;
    HeaderErrorIff(buffer);
  }

  /** There are such headers: this one claims a length of zero. */
  lemma TooShortIsAccepted()
    ensures var buffer := [255, 255] + Zeros(18);
            && Parse(buffer, 0).Filled? && Parse(buffer, 0).result == NoError
            && ParseHeader(Parser(buffer, NoError)).result == HeaderTooShort
  {
    hide ParseHeader, SumBytes, Zeros, Value;
    var buffer: seq<Byte> := [255, 255] + Zeros(18);
    SumOfChunks([255, 255], Zeros(18), false);
    PairSum(255, 255);
    ZerosSum(18, false);
    PassesIff(Total(0, buffer));
    assert buffer[12] == 0 by {
      ZeroAt(18, 10);
    }
    HeaderErrorIff(buffer);
  }

  lemma ZeroAt(n: nat, i: nat)
    requires i < n
    ensures Zeros(n)[i] == 0
  {
  }

  lemma {:induction false} ZerosSum(n: nat, odd: bool)
    ensures SumBytes(Zeros(n), odd) == 0
    decreases n
  {
    if n > 0 {
      assert Zeros(n)[1..] == Zeros(n - 1);
      ZerosSum(n - 1, !odd);
    }
  }
}
