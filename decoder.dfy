/**
 * The back half of decoding, `base64_decode`: pops trailing bits until whole
 * octets remain, then turns each octet into a byte
 * (`u8::from_str_radix(octet, 2)`). The bytes it writes to standard output
 * are its result here.
 */
module Decoder {
  import opened Bits

  /** `bits` cut back to whole octets: fewer than eight trailing bits are dropped. */
  function Truncated(bits: seq<bool>): (r: seq<bool>)
    ensures |r| % 8 == 0 && |bits| - 8 < |r| <= |bits|
    ensures r == bits[..|r|]
  {
    bits[..|bits| - |bits| % 8]
  }

  /** One byte per octet of `bits`, in order, each the octet's big-endian value. */
  function ByteString(bits: seq<bool>): (r: seq<byte>)
    requires |bits| % 8 == 0
    ensures |r| == |bits| / 8
    decreases |bits|
  {
    if bits == [] then []
    else
      Pow2Values();
      ByteString(bits[..|bits| - 8]) + [FromBits(bits[|bits| - 8..])]
  }

  /** The bytes `base64_decode` writes for a bit string. */
  function DecodeBits(bits: seq<bool>): (r: seq<byte>)
    ensures |r| == |bits| / 8
  {
    ByteString(Truncated(bits))
  }

  /**
   * `base64_decode`: `trimmed` is the caller's string after the popping loop (the
   * function takes it by `&mut`), `decimalVec` the bytes it writes.
   */
  method Base64Decode(input: seq<bool>) returns (trimmed: seq<bool>, decimalVec: seq<byte>)
    ensures trimmed == Truncated(input)
    ensures decimalVec == DecodeBits(input)
  {
    trimmed := PopToOctets(input);
    decimalVec := ConvertOctets(trimmed);
  }

  /** The popping loop of `base64_decode`: removes the last bit until the length is a multiple of eight. */
  method PopToOctets(input: seq<bool>) returns (trimmed: seq<bool>)
    ensures trimmed == Truncated(input)
  {
    trimmed := input;
    while |trimmed| % 8 != 0
      invariant |input| - |input| % 8 <= |trimmed| <= |input|
      invariant trimmed == input[..|trimmed|]
      decreases |trimmed|
    {
      trimmed := trimmed[..|trimmed| - 1];
    }
  }

  /** The converting loop of `base64_decode`: each octet, in order, becomes the byte it spells in binary. */
  method ConvertOctets(trimmed: seq<bool>) returns (decimalVec: seq<byte>)
    requires |trimmed| % 8 == 0
    ensures decimalVec == ByteString(trimmed)
  {
    decimalVec := [];
    var iterations := |trimmed| / 8;
    Pow2Values();
    for i := 0 to iterations
      invariant decimalVec == ByteString(trimmed[..8 * i])
    {
      var currentSlice := trimmed[8 * i .. 8 * (i + 1)];
      var decimal := FromBits(currentSlice);
      assert trimmed[..8 * (i + 1)] == trimmed[..8 * i] + currentSlice;
      ByteStringSnoc(trimmed[..8 * i], currentSlice);
      decimalVec := decimalVec + [decimal];
    }
    assert trimmed[..8 * iterations] == trimmed;
  }

  /** One more octet gives one more byte, its value. */
  lemma ByteStringSnoc(front: seq<bool>, last: seq<bool>)
    requires |front| % 8 == 0 && |last| == 8
    ensures ByteString(front + last) == ByteString(front) + [FromBits(last)]
  {
    var bits := front + last;
    assert bits[..|bits| - 8] == front;
    assert bits[|bits| - 8..] == last;
  }

  /** Byte i of the output is the value of octet i. */
  lemma {:induction false} ByteStringAt(bits: seq<bool>, i: nat)
    requires |bits| % 8 == 0 && i < |bits| / 8
    ensures ByteString(bits)[i] == FromBits(bits[8 * i .. 8 * i + 8])
    decreases |bits|
  {
    var n := |bits| / 8;
    assert |bits| == 8 * n;
    var front := bits[..8 * (n - 1)];
    assert ByteString(bits) == ByteString(front) + [FromBits(bits[8 * (n - 1)..])];
    if i < n - 1 {
      assert |front| / 8 == n - 1;
      ByteStringAt(front, i);
      assert front[8 * i .. 8 * i + 8] == bits[8 * i .. 8 * i + 8];
    } else {
      assert bits[8 * (n - 1)..] == bits[8 * i .. 8 * i + 8];
    }
  }

  /**
   * Decoding drops the fewer than eight trailing bits, emits floor(|bits|/8) bytes,
   * byte i being the big-endian value of bits 8i..8i+7.
   */
  lemma DecodeBitsShape(bits: seq<bool>)
    ensures var r := DecodeBits(bits);
      && |r| == |bits| / 8
      && forall i :: 0 <= i < |r| ==> r[i] == FromBits(bits[8 * i .. 8 * i + 8])
  {
    var t := Truncated(bits);
    forall i | 0 <= i < |t| / 8
      ensures DecodeBits(bits)[i] == FromBits(bits[8 * i .. 8 * i + 8])
    {
      ByteStringAt(t, i);
      assert t[8 * i .. 8 * i + 8] == bits[8 * i .. 8 * i + 8];
    }
  }
}
