/** Integers in network byte order, and a parser that remembers its first error. */
module Parsing {
  import opened Words

  datatype ParseResult = NoError | BadChecksum | PacketTooShort | HeaderTooShort

  function Pow256(n: nat): (r: int)
    ensures r >= 1
  {
    if n == 0 then 1 else 256 * Pow256(n - 1)
  }

  /** The `len` low bytes of `v`, most significant first. */
  function BigEndian(v: nat, len: nat): (r: seq<Byte>)
    ensures |r| == len
  {
    if len == 0 then [] else BigEndian(v / 256, len - 1) + [v % 256]
  }

  /** The number that bytes denote, most significant first. */
  function Number(bytes: seq<Byte>): nat {
    if bytes == [] then 0 else 256 * Number(bytes[..|bytes| - 1]) + bytes[|bytes| - 1]
  }

  lemma {:induction false} NumberOfBigEndian(v: nat, len: nat)
    requires v < Pow256(len)
    ensures Number(BigEndian(v, len)) == v
  {
    if len > 0 {
      NumberOfBigEndian(v / 256, len - 1);
      assert BigEndian(v, len)[..len - 1] == BigEndian(v / 256, len - 1);
    }
  }

  /** Byte `i` is what shifting right by the bytes after it leaves at the bottom. */
  lemma {:induction false} BigEndianAt(v: nat, len: nat, i: nat)
    requires i < len
    ensures BigEndian(v, len)[i] == v / Pow256(len - 1 - i) % 256
    decreases len
  {
    if i < len - 1 {
      BigEndianAt(v / 256, len - 1, i);
      DivDiv(v, Pow256(len - 2 - i));
    }
  }

  lemma DivDiv(v: nat, m: int)
    requires m >= 1
    ensures v / 256 / m == v / (256 * m)
  {
    var a, q := v / 256, v / 256 / m;
    assert a == q * m + a % m;
    assert v == q * (256 * m) + (256 * (a % m) + v % 256);
    DivMod(v, 256 * m, q, 256 * (a % m) + v % 256);
  }

  datatype Parser = Parser(buffer: seq<Byte>, error: ParseResult) {

    /** After asking for `n` bytes: an error if there are fewer. */
    function Checked(n: nat): Parser {
      if n > |buffer| then this.(error := PacketTooShort) else this
    }

    /** The next integer of `len` bytes; zero, consuming nothing, once there is an error. */
    function Int(len: nat): (nat, Parser) {
      if Checked(len).error != NoError then (0, Checked(len))
      else (Number(buffer[..len]), this.(buffer := buffer[len..]))
    }

    function Int8(): (Byte, Parser) {
      var (v, p) := Int(1);
      IntFits(this, 1);
      (v, p)
    }

    function Int16(): (Word16, Parser) {
      var (v, p) := Int(2);
      IntFits(this, 2);
      (v, p)
    }

    function Int32(): (Word32, Parser) {
      var (v, p) := Int(4);
      IntFits(this, 4);
      (v, p)
    }

    function Skip(n: nat): Parser {
      if Checked(n).error != NoError then Checked(n) else this.(buffer := buffer[n..])
    }
  }

  lemma IntFits(p: Parser, len: nat)
    ensures p.Int(len).0 < Pow256(len)
    ensures Pow256(1) == 256 && Pow256(2) == TWO_16 && Pow256(4) == TWO_32
  {
    assert Pow256(1) == 256 * Pow256(0);
    assert Pow256(2) == 256 * Pow256(1);
    assert Pow256(3) == 256 * Pow256(2);
    assert Pow256(4) == 256 * Pow256(3);
    if len <= |p.buffer| {
      NumberFits(p.buffer[..len]);
    }
  }

  /** Reading back an integer written in front of anything. */
  lemma IntReadsBigEndian(v: nat, len: nat, rest: seq<Byte>)
    requires v < Pow256(len)
    ensures Parser(BigEndian(v, len) + rest, NoError).Int(len) == (v, Parser(rest, NoError))
  {
    NumberOfBigEndian(v, len);
    assert (BigEndian(v, len) + rest)[..len] == BigEndian(v, len);
    assert (BigEndian(v, len) + rest)[len..] == rest;
  }

  /** A read that fails gives zero and consumes nothing; so does every read after it. */
  lemma FailedReads(p: Parser, len: nat)
    requires p.error != NoError || len > |p.buffer|
    ensures p.Int(len).0 == 0 && p.Int(len).1.error != NoError && p.Int(len).1.buffer == p.buffer
    ensures p.error == NoError ==> p.Int(len).1.error == PacketTooShort
    ensures p.Skip(len).buffer == p.buffer && p.Skip(len).error != NoError
  {
  }

  lemma {:induction false} NumberFits(bytes: seq<Byte>)
    ensures Number(bytes) < Pow256(|bytes|)
    decreases |bytes|
  {
    if bytes != [] {
      NumberFits(bytes[..|bytes| - 1]);
    }
  }

  class NetParser {
    var buffer: seq<Byte>
    var error: ParseResult

    constructor (data: seq<Byte>)
      ensures State() == Parser(data, NoError)
    {
      buffer, error := data, NoError;
    }

    ghost function State(): Parser
      reads this
    {
      Parser(buffer, error)
    }

    method CheckSize(size: nat)
      modifies `error
      ensures State() == old(State()).Checked(size)
    {
      if size > |buffer| {
        error := PacketTooShort;
      }
    }

    method ParseInt(len: nat) returns (v: nat)
      modifies this
      ensures (v, State()) == old(State()).Int(len)
      ensures v < Pow256(len)
    {
      CheckSize(len);
      if error != NoError {
        return 0;
      }
      v := 0;
      for i := 0 to len
        invariant v == Number(buffer[..i])
      {
        assert buffer[..i + 1][..i] == buffer[..i];
        v := v * 256 + buffer[i];
      }
      NumberFits(buffer[..len]);
      buffer := buffer[len..];
    }

    method RemovePrefix(n: nat)
      modifies this
      ensures State() == old(State()).Skip(n)
    {
      CheckSize(n);
      if error == NoError {
        buffer := buffer[n..];
      }
    }
  }

  /** Appends an integer in network byte order. */
  method UnparseInt(s: seq<Byte>, v: nat, len: nat) returns (r: seq<Byte>)
    ensures r == s + BigEndian(v, len)
  {
    r := s;
    for i := 0 to len
      invariant r == s + BigEndian(v, len)[..i]
    {
      BigEndianAt(v, len, i);
      r := r + [v / Pow256(len - 1 - i) % 256];
    }
  }
}
