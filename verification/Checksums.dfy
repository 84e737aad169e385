/** The running checksum object. */
module Checksums {
  import opened Words
  import opened Checksum

  lemma SumOfNext(data: seq<Byte>, i: nat, odd: bool)
    requires i < |data|
    ensures SumBytes(data[..i + 1], odd)
            == SumBytes(data[..i], odd) + Weight(OddAfter(data[..i], odd)) * data[i]
  {
    assert data[..i + 1] == data[..i] + [data[i]];
    SumOfChunks(data[..i], [data[i]], odd);
  }

  lemma SumOfNothing(data: seq<Byte>, odd: bool)
    requires data == []
    ensures SumBytes(data, odd) == 0
  {
  }

  lemma U32Keeps(x: Word32)
    ensures U32(x) == x
  {
  }

  class InternetChecksum {
    var sum: Word32
    var parity: bool

    constructor (initial: Word32)
      ensures sum == initial && !parity
    {
      sum, parity := initial, false;
    }

    /** Adds bytes; however the data is cut, only its bytes and their order matter. */
    method Add(data: seq<Byte>)
      modifies this
      ensures sum == U32(old(sum) + SumBytes(data, old(parity)))
      ensures parity == OddAfter(data, old(parity))
    {
      hide SumBytes, U32;
      U32Keeps(sum);
      SumOfNothing(data[..0], parity);
      for i := 0 to |data|
        invariant sum == U32(old(sum) + SumBytes(data[..i], old(parity)))
        invariant parity == OddAfter(data[..i], old(parity))
      {
        SumOfNext(data, i, old(parity));
        var val: nat := data[i];
        if !parity {
          val := 256 * val;
        }
        U32Adds(old(sum) + SumBytes(data[..i], old(parity)), val);
        sum := U32(sum + val);
        parity := !parity;
      }
      assert data[..|data|] == data;
    }

    method GetValue() returns (v: Word16)
      ensures v == Value(sum)
    {
      var ret: nat := sum;
      while ret > ONES
        invariant Fold(ret) == Fold(sum)
      {
        ret := ret / TWO_16 + ret % TWO_16;
      }
      v := ONES - ret;
    }
  }
}
