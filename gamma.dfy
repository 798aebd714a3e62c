/**
 Elias gamma coding of positive integers over strings of '0' and '1'
 (P. Elias, "Universal codeword sets and representations of the integers",
 1975): the encoder of one number, the encoder of a list, and the decoder of a
 stream, with the laws that tie them together.
 */
module Gamma {
  import opened Bits

  /** The ways the codec fails; a failure carries no partial output. */
  datatype Error =
    | InvalidInput   // the encoder was given a number <= 0
    | PrefixCutoff   // the stream ended while the decoder was counting zeros
    | OffsetCutoff   // the stream ended inside the offset bits of a code

  datatype Result<T> = Success(value: T) | Failure(error: Error)

  /** xs in front of the values of a successful decoding; a failure stays. */
  function Prepend(xs: seq<nat>, r: Result<seq<nat>>): (p: Result<seq<nat>>)
  {
    match r
    case Success(ys) => Success(xs + ys)
    case Failure(e) => Failure(e)
  }

  /** Concatenation of two encodings; the first failure wins. */
  function Concat(a: Result<seq<Bit>>, b: Result<seq<Bit>>): (r: Result<seq<Bit>>)
  {
    match a
    case Failure(e) => Failure(e)
    case Success(x) =>
      match b
      case Failure(e) => Failure(e)
      case Success(y) => Success(x + y)
  }

  function Zeros(k: nat): (r: seq<Bit>)
    ensures |r| == k
    ensures forall i :: 0 <= i < k ==> r[i] == '0'
  {
    if k == 0 then [] else Zeros(k - 1) + ['0']
  }

  /** The gamma code of n, by its meaning: with L = floor(log2 n), a length
      prefix of L zeros closed by a one, then an offset of exactly L digits
      whose value is n - 2^L. */
  predicate IsCodeOf(code: seq<Bit>, n: int)
  {
    && n >= 1
    && var L := Log2(n);
    && |code| == 2 * L + 1
    && (forall i :: 0 <= i < L ==> code[i] == '0')
    && code[L] == '1'
    && BitsToNat(code[L + 1..]) == n - Pow2(L)
  }

  /** gamma_encode_number: fails exactly on non-positive input; on positive
      input it succeeds, with the gamma code of n (EncodeNumberIsCode). */
  function EncodeNumber(n: int): (r: Result<seq<Bit>>)
    ensures r.Failure? <==> n <= 0
    ensures r.Failure? ==> r.error == InvalidInput
  {
    if n <= 0 then Failure(InvalidInput)
    else
      var binary := Binary(n);
      var offset := binary[1..];
      var length := |binary| - 1;
      var prefix := Zeros(length) + ['1'];
      Success(prefix + offset)
  }

  /** The encoder's output is the gamma code of its input: floor(log2 n)
      zeros, a one, and the low floor(log2 n) bits of n; it is therefore
      2 * floor(log2 n) + 1 digits long. */
  lemma EncodeNumberIsCode(n: int)
    requires n >= 1
    ensures IsCodeOf(EncodeNumber(n).value, n)
    ensures |EncodeNumber(n).value| == 2 * Log2(n) + 1
  {
    var binary := Binary(n);
    BinaryDigits(n);
    var offset := binary[1..];
    var length := |binary| - 1;
    assert binary == ['1'] + offset;
    LeadingOne(offset);
    var code := EncodeNumber(n).value;
    assert code[length + 1..] == offset;
  }

  /** At most one string is the code of n ... */
  lemma CodeOfUnique(n: int, c: seq<Bit>, d: seq<Bit>)
    requires IsCodeOf(c, n) && IsCodeOf(d, n)
    ensures c == d
  {
    var L := Log2(n);
    BitsToNatInjective(c[L + 1..], d[L + 1..]);
    assert c == c[..L + 1] + c[L + 1..];
    assert d == d[..L + 1] + d[L + 1..];
  }

  /** ... so any code of n is the one the encoder produces. */
  lemma CodeOfIsEncoding(n: int, c: seq<Bit>)
    requires IsCodeOf(c, n)
    ensures EncodeNumber(n) == Success(c)
  {
    EncodeNumberIsCode(n);
    CodeOfUnique(n, c, EncodeNumber(n).value);
  }

  /** gamma_encode_list: the codes of the numbers in order, with no
      delimiter; any non-positive element fails the whole call. */
  function EncodeList(nums: seq<int>): (r: Result<seq<Bit>>)
    ensures r.Failure? ==> r.error == InvalidInput
  {
    if |nums| == 0 then Success([])
    else Concat(EncodeNumber(nums[0]), EncodeList(nums[1..]))
  }

  lemma EncodeListSingleton(n: int)
    ensures EncodeList([n]) == EncodeNumber(n)
  {
    assert [n][1..] == [];
    if EncodeNumber(n).Success? {
      assert EncodeNumber(n).value + [] == EncodeNumber(n).value;
    }
  }

  /** Putting a number in front puts its code in front. */
  lemma EncodeListCons(x: int, nums: seq<int>, c: seq<Bit>, p: seq<Bit>)
    requires EncodeNumber(x) == Success(c) && EncodeList(nums) == Success(p)
    ensures EncodeList([x] + nums) == Success(c + p)
  {
    assert ([x] + nums)[1..] == nums;
  }

  /** Appending a number appends its code. */
  lemma EncodeListSnoc(nums: seq<int>, x: int, p: seq<Bit>, c: seq<Bit>)
    requires EncodeList(nums) == Success(p) && EncodeNumber(x) == Success(c)
    ensures EncodeList(nums + [x]) == Success(p + c)
  {
    EncodeListSingleton(x);
    EncodeListAppend(nums, [x]);
  }

  /** The all-or-nothing policy: encoding a list fails exactly when some
      element is not positive. */
  lemma {:induction false} EncodeListFails(nums: seq<int>)
    ensures EncodeList(nums).Failure? <==> exists i :: 0 <= i < |nums| && nums[i] <= 0
  {
    if |nums| > 0 {
      EncodeListFails(nums[1..]);
      assert forall i :: 1 <= i < |nums| ==> nums[i] == nums[1..][i - 1];
    }
  }

  /** Encoding a concatenation concatenates the encodings (and fails when
      either part does). */
  lemma {:induction false} EncodeListAppend(a: seq<int>, b: seq<int>)
    ensures EncodeList(a + b) == Concat(EncodeList(a), EncodeList(b))
  {
    if |a| == 0 {
      assert a + b == b;
      match EncodeList(b)
      case Success(y) => assert [] + y == y;
      case Failure(_) =>
    } else {
      assert (a + b)[1..] == a[1..] + b;
      EncodeListAppend(a[1..], b);
      match EncodeNumber(a[0])
      case Failure(_) =>
      case Success(x) =>
        match EncodeList(a[1..])
        case Failure(_) =>
        case Success(y) =>
          match EncodeList(b)
          case Failure(_) =>
          case Success(z) => assert x + (y + z) == (x + y) + z;
    }
  }

  /** The number of '0' digits at the start of s: the decoder's inner loop. */
  function LeadingZeros(s: seq<Bit>): (k: nat)
    ensures k <= |s|
    ensures forall i :: 0 <= i < k ==> s[i] == '0'
    ensures k < |s| ==> s[k] == '1'
  {
    if |s| == 0 || s[0] != '0' then 0 else 1 + LeadingZeros(s[1..])
  }

  /** One pass of the decoder's outer loop over the unread part s of the
      stream: the value read and the number of digits it used. On success
      the digits consumed, 2L + 1 of them for L leading zeros, are exactly
      the encoding of the value read. */
  function ReadCode(s: seq<Bit>): (r: Result<(nat, nat)>)
    ensures r.Success? ==>
      && 1 <= r.value.1 <= |s|
      && r.value.1 == 2 * LeadingZeros(s) + 1
      && r.value.0 >= 1
      && EncodeNumber(r.value.0) == Success(s[..r.value.1])
    ensures r.Failure? ==> r.error == PrefixCutoff || r.error == OffsetCutoff
  {
    var zeros := LeadingZeros(s);
    if zeros >= |s| then
      Failure(PrefixCutoff)
    else if zeros + 1 + zeros > |s| then
      Failure(OffsetCutoff)
    else
      var offset := s[zeros + 1..zeros + 1 + zeros];
      var x := BitsToNat(['1'] + offset);
      LeadingOne(offset);
      Log2Unique(x, zeros);
      assert s[..2 * zeros + 1][zeros + 1..] == offset;
      CodeOfIsEncoding(x, s[..2 * zeros + 1]);
      Success((x, 2 * zeros + 1))
  }

  /** The value read is 2^L plus the value of the L offset digits that follow
      the first '1', L being the number of leading zeros. */
  lemma ReadCodeValue(s: seq<Bit>, x: nat, k: nat)
    requires ReadCode(s) == Success((x, k))
    ensures var L := LeadingZeros(s);
      k == 2 * L + 1 && x == Pow2(L) + BitsToNat(s[L + 1..k])
  {
    var L := LeadingZeros(s);
    assert x == BitsToNat(['1'] + s[L + 1..k]);
    LeadingOne(s[L + 1..k]);
  }

  /** ReadCode succeeds exactly when some prefix of s is a gamma code; it
      reports PrefixCutoff exactly when s holds no '1' at all, and
      OffsetCutoff when there is a '1' but too few digits after it. */
  lemma ReadCodeFailures(s: seq<Bit>)
    ensures ReadCode(s).Failure? <==> forall k, n :: 0 <= k <= |s| ==> !IsCodeOf(s[..k], n)
    ensures ReadCode(s) == Failure(PrefixCutoff) <==> forall i :: 0 <= i < |s| ==> s[i] == '0'
    ensures ReadCode(s) == Failure(OffsetCutoff) <==>
      LeadingZeros(s) < |s| < 2 * LeadingZeros(s) + 1
  {
    var zeros := LeadingZeros(s);
    forall k, n | 0 <= k <= |s|
      ensures IsCodeOf(s[..k], n) ==> zeros < |s| && k == 2 * zeros + 1
    {
      CodeStartsWithLength(s, k, n);
    }
    if ReadCode(s).Success? {
      EncodeNumberIsCode(ReadCode(s).value.0);
    }
  }

  /** Leading zeros are determined by the position of the first '1'. */
  lemma {:induction false} LeadingZerosUpTo(s: seq<Bit>, L: nat)
    requires L < |s| && s[L] == '1'
    requires forall i :: 0 <= i < L ==> s[i] == '0'
    ensures LeadingZeros(s) == L
  {
    if L > 0 {
      LeadingZerosUpTo(s[1..], L - 1);
    }
  }

  /** A code at the head of s has as many zeros in front as s has, and is
      2L + 1 digits long for that number L of zeros. */
  lemma CodeStartsWithLength(s: seq<Bit>, k: nat, n: int)
    requires k <= |s|
    ensures IsCodeOf(s[..k], n) ==>
      var L := Log2(n); L < |s| && LeadingZeros(s) == L && k == 2 * L + 1
  {
    if IsCodeOf(s[..k], n) {
      var L := Log2(n);
      assert s[..k][L] == s[L];
      assert forall i :: 0 <= i < L ==> s[..k][i] == s[i];
      LeadingZerosUpTo(s, L);
    }
  }

  /** The decoder reads back the code of n, whatever follows it. */
  lemma ReadCodeOfEncoding(n: int, rest: seq<Bit>)
    requires n >= 1
    ensures ReadCode(EncodeNumber(n).value + rest)
      == Success((n, |EncodeNumber(n).value|))
  {
    var c := EncodeNumber(n).value;
    var s := c + rest;
    assert s[..|c|] == c;
    EncodeNumberIsCode(n);
    CodeStartsWithLength(s, |c|, n);
    var r := ReadCode(s);
    var x, k := r.value.0, r.value.1;
    assert s[..k] == c;
    EncodeNumberIsCode(x);
    CodeOfInjective(c, x, n);
  }

  /** A string is the code of at most one number. */
  lemma CodeOfInjective(c: seq<Bit>, x: int, y: int)
    requires IsCodeOf(c, x) && IsCodeOf(c, y)
    ensures x == y
  {
  }

  /** Prefix-freeness: the code of one number is never a proper start, nor
      the whole, of the code of another. */
  lemma PrefixFree(x: int, y: int)
    requires x >= 1 && y >= 1
    ensures EncodeNumber(x).value <= EncodeNumber(y).value ==> x == y
  {
    var cx, cy := EncodeNumber(x).value, EncodeNumber(y).value;
    if cx <= cy {
      var rest := cy[|cx|..];
      assert cy == cx + rest;
      ReadCodeOfEncoding(x, rest);
      ReadCodeOfEncoding(y, []);
      assert cy + [] == cy;
    }
  }

  /** gamma_decode, stated as a function: read codes one after another until
      the stream is used up; the first cut-off code fails the whole call. */
  function Decoding(s: seq<Bit>): (r: Result<seq<nat>>)
    ensures r.Failure? ==> r.error == PrefixCutoff || r.error == OffsetCutoff
    ensures r.Success? ==> forall i :: 0 <= i < |r.value| ==> r.value[i] >= 1
    decreases |s|
  {
    if |s| == 0 then Success([])
    else
      match ReadCode(s)
      case Failure(e) => Failure(e)
      case Success((x, k)) => Prepend([x], Decoding(s[k..]))
  }

  /** Round trip (gamma_test.py): decoding the encoding of a list of positive
      numbers gives that list back. */
  lemma {:induction false} DecodeEncode(nums: seq<int>)
    requires forall i :: 0 <= i < |nums| ==> nums[i] >= 1
    ensures EncodeList(nums).Success?
    ensures Decoding(EncodeList(nums).value) == Success(nums)
  {
    EncodeListFails(nums);
    if |nums| > 0 {
      DecodeEncode(nums[1..]);
      var c := EncodeNumber(nums[0]).value;
      var rest := EncodeList(nums[1..]).value;
      ReadCodeOfEncoding(nums[0], rest);
      assert (c + rest)[|c|..] == rest;
      assert [nums[0]] + nums[1..] == nums;
    }
  }

  /** The other direction: a stream that decodes is exactly the encoding of
      what it decodes to. */
  lemma {:induction false} EncodeDecode(s: seq<Bit>)
    requires Decoding(s).Success?
    ensures EncodeList(Decoding(s).value) == Success(s)
  {
    if |s| > 0 {
      var x, k := ReadCode(s).value.0, ReadCode(s).value.1;
      DecodingUnfold(s, x, k);
      var rest := Decoding(s[k..]).value;
      EncodeDecode(s[k..]);
      EncodeListConsSplit(x, rest, s, k);
    }
  }

  /** One step of Decoding, as the decoder sees it. */
  lemma DecodingUnfold(s: seq<Bit>, x: nat, k: nat)
    requires |s| > 0 && ReadCode(s) == Success((x, k))
    ensures Decoding(s) == Prepend([x], Decoding(s[k..]))
  {
  }

  lemma EncodeListConsSplit(x: int, nums: seq<int>, s: seq<Bit>, k: nat)
    requires k <= |s|
    requires EncodeNumber(x) == Success(s[..k]) && EncodeList(nums) == Success(s[k..])
    ensures EncodeList([x] + nums) == Success(s)
  {
    EncodeListCons(x, nums, s[..k], s[k..]);
    assert s[..k] + s[k..] == s;
  }

  /** Hence a stream decodes exactly when it is the encoding of some list. */
  lemma DecodesExactlyEncodings(s: seq<Bit>)
    ensures Decoding(s).Success? <==> exists nums :: EncodeList(nums) == Success(s)
  {
    if Decoding(s).Success? {
      EncodeDecode(s);
    }
    if nums :| EncodeList(nums) == Success(s) {
      EncodeListFails(nums);
      DecodeEncode(nums);
    }
  }

  /** A failed decoding fails at a code boundary: the stream before position
      k is the encoding of the numbers read so far, and the code starting at k
      is cut off in the way the error says. */
  lemma {:induction false} DecodingFailsAtBoundary(s: seq<Bit>)
    requires Decoding(s).Failure?
    ensures exists k, nums :: FailsAt(s, k, nums, Decoding(s).error)
  {
    var e := Decoding(s).error;
    var r := ReadCode(s);
    if r.Failure? {
      assert s[..0] == [] && s[0..] == s;
      assert FailsAt(s, 0, [], e);
    } else {
      var x, k0 := r.value.0, r.value.1;
      var t := s[k0..];
      DecodingFailsAtBoundary(t);
      var k', nums' :| FailsAt(t, k', nums', e);
      FailsAtExtend(s, k0, x, k', nums', e);
    }
  }

  /** The stream before k encodes nums, and the code at k is cut off by e. */
  ghost predicate FailsAt(s: seq<Bit>, k: int, nums: seq<int>, e: Error)
  {
    0 <= k < |s| && EncodeList(nums) == Success(s[..k]) && ReadCode(s[k..]) == Failure(e)
  }

  lemma FailsAtExtend(s: seq<Bit>, k0: nat, x: int, k': int, nums': seq<int>, e: Error)
    requires k0 <= |s| && EncodeNumber(x) == Success(s[..k0])
    requires FailsAt(s[k0..], k', nums', e)
    ensures FailsAt(s, k0 + k', [x] + nums', e)
  {
    var t := s[k0..];
    var nums := [x] + nums';
    assert nums[1..] == nums';
    assert s[..k0 + k'] == s[..k0] + t[..k'];
    assert s[k0 + k'..] == t[k'..];
  }

  /** Where the decoder's inner loop has counted `zeros` zeros from position
      start and found a '1' after them, the code there has that many leading
      zeros. */
  lemma LeadingZerosAt(stream: seq<Bit>, start: nat, zeros: nat)
    requires start + zeros < |stream|
    requires forall j :: start <= j < start + zeros ==> stream[j] == '0'
    requires stream[start + zeros] == '1'
    ensures LeadingZeros(stream[start..]) == zeros
  {
    var t := stream[start..];
    assert t[zeros] == '1';
    assert forall j :: 0 <= j < zeros ==> t[j] == stream[start + j];
    LeadingZerosUpTo(t, zeros);
  }

  /** ... so when the prefix is cut off there, reading the code fails. */
  lemma PrefixCutoffAt(stream: seq<Bit>, start: nat)
    requires start <= |stream|
    requires forall j :: start <= j < |stream| ==> stream[j] == '0'
    ensures ReadCode(stream[start..]) == Failure(PrefixCutoff)
  {
    var t := stream[start..];
    assert forall j :: 0 <= j < |t| ==> t[j] == stream[start + j];
  }

  /** ... when the offset is cut off there, reading the code fails. */
  lemma OffsetCutoffAt(stream: seq<Bit>, start: nat, zeros: nat)
    requires start + zeros < |stream| < start + 2 * zeros + 1
    requires forall j :: start <= j < start + zeros ==> stream[j] == '0'
    requires stream[start + zeros] == '1'
    ensures ReadCode(stream[start..]) == Failure(OffsetCutoff)
  {
    LeadingZerosAt(stream, start, zeros);
  }

  /** ... and otherwise the code there is the gamma code of 2^zeros + offset. */
  lemma CodeAt(stream: seq<Bit>, start: nat, zeros: nat)
    requires start + 2 * zeros + 1 <= |stream|
    requires forall j :: start <= j < start + zeros ==> stream[j] == '0'
    requires stream[start + zeros] == '1'
    ensures ReadCode(stream[start..]) == Success((BitsToNat(['1'] + stream[start + zeros + 1..start + 2 * zeros + 1]), 2 * zeros + 1))
  {
    LeadingZerosAt(stream, start, zeros);
    assert stream[start..][zeros + 1..zeros + 1 + zeros] == stream[start + zeros + 1..start + 2 * zeros + 1];
  }

  lemma CodeNumberAt(stream: seq<Bit>, start: nat, zeros: nat, offset: seq<Bit>, i: nat)
    requires i == start + 2 * zeros + 1 <= |stream|
    requires forall j :: start <= j < start + zeros ==> stream[j] == '0'
    requires stream[start + zeros] == '1'
    requires offset == stream[start + zeros + 1..i]
    ensures EncodeNumber(BitsToNat(['1'] + offset)) == Success(stream[start..i])
  {
    var t := stream[start..];
    var k: nat := 2 * zeros + 1;
    CodeAt(stream, start, zeros);
    assert ReadCode(t) == Success((BitsToNat(['1'] + offset), k));
    assert t[..k] == stream[start..i];
  }

  /** One iteration of the decoder's outer loop keeps its invariant: the
      consumed part of the stream is the encoding of what has been decoded. */
  lemma DecodeStep(stream: seq<Bit>, decoded: seq<nat>, start: nat, zeros: nat, offset: seq<Bit>, i: nat)
    requires i == start + 2 * zeros + 1 <= |stream|
    requires forall j :: start <= j < start + zeros ==> stream[j] == '0'
    requires stream[start + zeros] == '1'
    requires offset == stream[start + zeros + 1..i]
    requires EncodeList(decoded) == Success(stream[..start])
    ensures EncodeList(decoded + [BitsToNat(['1'] + offset)]) == Success(stream[..i])
  {
    CodeNumberAt(stream, start, zeros, offset, i);
    EncodeListSnoc(decoded, BitsToNat(['1'] + offset), stream[..start], stream[start..i]);
    assert stream[..start] + stream[start..i] == stream[..i];
  }

  lemma PrependNothing(r: Result<seq<nat>>)
    ensures Prepend([], r) == r
  {
    if r.Success? {
      assert [] + r.value == r.value;
    }
  }

  lemma PrependPrepend(a: seq<nat>, b: seq<nat>, r: Result<seq<nat>>)
    ensures Prepend(a, Prepend(b, r)) == Prepend(a + b, r)
  {
    if r.Success? {
      assert a + (b + r.value) == (a + b) + r.value;
    }
  }

  /** Decoding the code of n followed by more stream yields n, then whatever
      the rest decodes to (or the rest's failure). */
  lemma DecodingAfterCode(n: int, c: seq<Bit>, rest: seq<Bit>)
    requires n >= 1 && EncodeNumber(n) == Success(c)
    ensures Decoding(c + rest) == Prepend([n], Decoding(rest))
  {
    ReadCodeOfEncoding(n, rest);
    assert (c + rest)[|c|..] == rest;
  }

  /** Decoding is compositional over a well-formed prefix: a stream that starts
      with the encoding of nums decodes to nums followed by the decoding of
      the rest, and fails exactly when the rest fails. */
  lemma {:induction false} DecodingAfterPrefix(nums: seq<int>, p: seq<Bit>, rest: seq<Bit>)
    requires forall i :: 0 <= i < |nums| ==> nums[i] >= 1
    requires EncodeList(nums) == Success(p)
    ensures Decoding(p + rest) == Prepend(nums, Decoding(rest))
  {
    if |nums| == 0 {
      assert p + rest == rest;
      PrependNothing(Decoding(rest));
    } else {
      var c, q := EncodeListUncons(nums, p, rest);
      DecodingAfterPrefix(nums[1..], q, rest);
      DecodingAfterCons(nums[0], nums[1..], c, q + rest, Decoding(rest));
      assert [nums[0]] + nums[1..] == nums;
    }
  }

  lemma DecodingAfterCons(x: nat, xs: seq<nat>, c: seq<Bit>, t: seq<Bit>, d: Result<seq<nat>>)
    requires x >= 1 && EncodeNumber(x) == Success(c)
    requires Decoding(t) == Prepend(xs, d)
    ensures Decoding(c + t) == Prepend([x] + xs, d)
  {
    DecodingAfterCode(x, c, t);
    PrependPrepend([x], xs, d);
  }

  /** A non-empty list's encoding splits into its head's code and its tail's
      encoding, and so does the same encoding followed by more stream. */
  lemma EncodeListUncons(nums: seq<int>, p: seq<Bit>, rest: seq<Bit>) returns (c: seq<Bit>, q: seq<Bit>)
    requires |nums| > 0 && EncodeList(nums) == Success(p)
    ensures EncodeNumber(nums[0]) == Success(c) && EncodeList(nums[1..]) == Success(q)
    ensures p == c + q && p + rest == c + (q + rest)
  {
    c, q := EncodeNumber(nums[0]).value, EncodeList(nums[1..]).value;
  }

  /** Where the decoder gives up at position start, the whole decoding fails
      with the same error. */
  lemma DecodeStop(stream: seq<Bit>, decoded: seq<nat>, start: nat, e: Error)
    requires start < |stream|
    requires EncodeList(decoded) == Success(stream[..start])
    requires ReadCode(stream[start..]) == Failure(e)
    ensures Decoding(stream) == Failure(e)
  {
    EncodeListFails(decoded);
    DecodingAfterPrefix(decoded, stream[..start], stream[start..]);
    assert stream[..start] + stream[start..] == stream;
  }

  method Decode(stream: seq<Bit>) returns (r: Result<seq<nat>>)
    ensures r == Decoding(stream)
    ensures r.Success? ==> EncodeList(r.value) == Success(stream)
  {
    var i := 0;
    var decoded: seq<nat> := [];
    while i < |stream|
      invariant 0 <= i <= |stream|
      invariant EncodeList(decoded) == Success(stream[..i])
    {
      ghost var start := i;
      // zeros counts the '0's from start
      var zeros := 0;
      while i < |stream| && stream[i] == '0'
        invariant start <= i <= |stream|
        invariant zeros == i - start
        invariant forall j :: start <= j < i ==> stream[j] == '0'
      {
        zeros := zeros + 1;
        i := i + 1;
      }
      if i >= |stream| {
        PrefixCutoffAt(stream, start);
        DecodeStop(stream, decoded, start, PrefixCutoff);
        return Failure(PrefixCutoff);
      }
      // i is at the first '1' after start: step over it
      i := i + 1;
      // the code at start needs zeros more digits after its '1'
      if i + zeros > |stream| {
        OffsetCutoffAt(stream, start, zeros);
        DecodeStop(stream, decoded, start, OffsetCutoff);
        return Failure(OffsetCutoff);
      }
      var offset := stream[i..i + zeros];
      i := i + zeros;
      DecodeStep(stream, decoded, start, zeros, offset, i);
      decoded := decoded + [BitsToNat(['1'] + offset)];
    }
    assert stream[..i] == stream;
    EncodeListFails(decoded);
    DecodeEncode(decoded);
    return Success(decoded);
  }
}
