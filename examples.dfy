/**
 The worked examples of the gamma codec, checked against the model: the codes
 of 10, 5 and 1, the rejected inputs, the lengths of a few codes, the two
 ways a stream can be cut off, and the round trip of the list [1, 3, 5, 10].
 */
module GammaExamples {
  import opened Bits
  import opened Gamma

  /** 10 is 1010 in binary: three zeros and a one, then the offset 010. */
  lemma EncodeTen()
    ensures EncodeNumber(10) == Success("0001010")
  {
    assert Binary(10) == ['1', '0', '1', '0'] by {
      assert Binary(2) == ['1', '0'];
      assert Binary(5) == ['1', '0', '1'];
    }
    assert Zeros(3) == ['0', '0', '0'];
    assert EncodeNumber(10).value == ['0', '0', '0'] + ['1'] + ['0', '1', '0'];
    assert EncodeNumber(10).value == "0001010";
  }

  /** 5 is 101 in binary: two zeros and a one, then the offset 01. */
  lemma EncodeFive()
    ensures EncodeNumber(5) == Success("00101")
  {
    assert Binary(5) == ['1', '0', '1'] by {
      assert Binary(2) == ['1', '0'];
    }
    assert Zeros(2) == ['0', '0'];
    assert EncodeNumber(5).value == ['0', '0'] + ['1'] + ['0', '1'];
    assert EncodeNumber(5).value == "00101";
  }

  /** 1 has an empty offset and no zeros: its code is the bare marker. */
  lemma EncodeOne()
    ensures EncodeNumber(1) == Success("1")
  {
    assert Binary(1)[1..] == [];
    assert Zeros(0) == [];
    assert EncodeNumber(1).value == [] + ['1'] + [];
    assert EncodeNumber(1).value == "1";
  }

  /** Zero and negative numbers cannot be encoded. */
  lemma EncodeNonPositive(n: int)
    requires n <= 0
    ensures EncodeNumber(n) == Failure(InvalidInput)
    ensures EncodeList([1, n, 3]) == Failure(InvalidInput)
  {
    EncodeListFails([1, n, 3]);
    assert [1, n, 3][1] <= 0;
  }

  /** The code length 2 * floor(log2 n) + 1 at and around powers of two. */
  lemma CodeLengths()
    ensures |EncodeNumber(1).value| == 1
    ensures |EncodeNumber(3).value| == 3
    ensures |EncodeNumber(4).value| == 5
    ensures |EncodeNumber(7).value| == 5
    ensures |EncodeNumber(8).value| == 7
    ensures |EncodeNumber(1023).value| == 19
    ensures |EncodeNumber(1024).value| == 21
  {
    EncodeNumberIsCode(1);
    EncodeNumberIsCode(3);
    EncodeNumberIsCode(4);
    EncodeNumberIsCode(7);
    EncodeNumberIsCode(8);
    EncodeNumberIsCode(1023);
    EncodeNumberIsCode(1024);
    Log2Unique(3, 1);
    Log2Unique(4, 2);
    Log2Unique(7, 2);
    Log2Unique(8, 3);
    assert Pow2(10) == 1024;
    Log2Unique(1023, 9);
    Log2Unique(1024, 10);
  }

  /** The example in the decoder's description: "00101" decodes to [5]. */
  lemma DecodeFive()
    ensures Decoding("00101") == Success([5])
  {
    EncodeFive();
    EncodeListSingleton(5);
    DecodeEncode([5]);
    assert EncodeList([5]).value == "00101";
  }

  /** The empty list encodes to the empty stream. */
  lemma EncodeEmpty()
    ensures EncodeList([]) == Success([])
  {
  }

  /** The empty stream decodes to the empty list. */
  lemma DecodeEmpty()
    ensures Decoding([]) == Success([])
  {
  }

  /** A stream that ends while the length prefix is being read. */
  lemma DecodePrefixCutoff()
    ensures Decoding("000") == Failure(PrefixCutoff)
  {
    var t: seq<Bit> := "000";
    assert LeadingZeros(t) == 3 by {
      assert t[1..] == "00" && t[2..] == "0" && t[3..] == [];
    }
    assert ReadCode(t) == Failure(PrefixCutoff);
  }

  /** A stream whose length prefix promises two offset digits but holds one. */
  lemma DecodeOffsetCutoff()
    ensures Decoding("0010") == Failure(OffsetCutoff)
  {
    var u: seq<Bit> := "0010";
    assert LeadingZeros(u) == 2 by {
      assert u[1..] == "010" && u[2..] == "10";
    }
    assert ReadCode(u) == Failure(OffsetCutoff);
  }

  /** 3 is 11 in binary: one zero and a one, then the offset 1. */
  lemma EncodeThree()
    ensures EncodeNumber(3) == Success("011")
  {
    assert Binary(3) == ['1', '1'];
    assert Zeros(1) == ['0'];
    assert EncodeNumber(3).value == ['0'] + ['1'] + ['1'];
    assert EncodeNumber(3).value == "011";
  }

  /** The list of the round-trip test, [1, 3, 5, 10], encodes to
      1 | 011 | 00101 | 0001010. */
  lemma EncodeListExample()
    ensures EncodeList([1, 3, 5, 10]) == Success("1011001010001010")
  {
    EncodeOne();
    EncodeThree();
    EncodeFive();
    EncodeTen();
    var nums := [1, 3, 5, 10];
    EncodeListSingleton(10);
    EncodeListCons(5, [10], "00101", "0001010");
    assert [5] + [10] == nums[2..];
    EncodeListCons(3, nums[2..], "011", "00101" + "0001010");
    assert [3] + nums[2..] == nums[1..];
    EncodeListCons(1, nums[1..], "1", "011" + ("00101" + "0001010"));
    assert [1] + nums[1..] == nums;
    assert EncodeList(nums).value == "1011001010001010";
  }

  /** ... and that stream decodes back to the list. */
  lemma RoundTripExample()
    ensures Decoding("1011001010001010") == Success([1, 3, 5, 10])
  {
    EncodeListExample();
    DecodeEncode([1, 3, 5, 10]);
    assert EncodeList([1, 3, 5, 10]).value == "1011001010001010";
  }
}
