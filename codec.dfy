/**
 * The two paths put together: the encoder's text read back as bytes by the
 * validator and the decoder. The round trip holds with or without the
 * newline `println!` puts after the encoded line.
 */
module Codec {
  import opened Wrappers
  import opened Bits
  import opened Alphabet
  import opened Encoder
  import opened Validator
  import opened Decoder

  /** Every character is a 7-bit code, so it is written as one byte. */
  predicate IsAscii(s: string)
  {
    forall i :: 0 <= i < |s| ==> s[i] as int < 128
  }

  /** The bytes of an ASCII text, as standard output carries them. */
  function AsciiBytes(s: string): (r: seq<byte>)
    requires IsAscii(s)
    ensures |r| == |s| && forall i :: 0 <= i < |s| ==> r[i] == s[i] as int
  {
    seq(|s|, i requires 0 <= i < |s| => s[i] as int)
  }

  /** The decode path: validate the raw bytes, then decode the bit string. */
  function Decode(input: seq<byte>): (r: Result<seq<byte>, DecodeError>)
    ensures r.Success? ==> 4 * |r.value| <= 3 * |input|
  {
    match Validate(input)
    case Success(bits) => Success(DecodeBits(bits))
    case Failure(e) => Failure(e)
  }

  /** The bytes of a concatenation are the concatenated bytes. */
  lemma AsciiAppend(a: string, b: string)
    requires IsAscii(a) && IsAscii(b)
    ensures IsAscii(a + b) && AsciiBytes(a + b) == AsciiBytes(a) + AsciiBytes(b)
  {
    assert IsAscii(a + b);
    assert AsciiBytes(a + b) == AsciiBytes(a) + AsciiBytes(b);
  }

  /** The bytes of a text with one more character end in that character's code. */
  lemma AsciiSnoc(s: string, c: char)
    requires IsAscii(s) && c as int < 128
    ensures IsAscii(s + [c]) && AsciiBytes(s + [c]) == AsciiBytes(s) + [c as int]
  {
    assert IsAscii(s + [c]);
    assert AsciiBytes(s + [c]) == AsciiBytes(s) + [c as int];
  }

  /** An alphabet symbol's code is accepted by the membership table and mapped back to its sextet. */
  lemma SymbolCode(c: char)
    requires ValueFor(c).Some?
    ensures c as int < 128
    ensures ValidCharsTable(c as int) == Some(c)
    ensures SextetOf(c as int) == DecodeTable(c).value
  {
    ValueSymbol(c);
  }

  /** Appending one valid symbol appends its sextet. */
  lemma SextetsSnoc(codes: seq<byte>, b: byte)
    requires AllValid(codes) && ValidCharsTable(b).Some?
    ensures AllValid(codes + [b])
    ensures SextetString(codes + [b]) == SextetString(codes) + SextetOf(b)
  {
    var s := codes + [b];
    assert AllValid(s);
    assert s[..|s| - 1] == codes;
  }

  /** Read back as bytes, a text of symbols followed by one more symbol gains that symbol's sextet. */
  lemma SymbolTextSnoc(syms: string, c: char)
    requires IsAscii(syms) && AllValid(AsciiBytes(syms)) && ValueFor(c).Some?
    ensures IsAscii(syms + [c]) && AllValid(AsciiBytes(syms + [c]))
    ensures SextetString(AsciiBytes(syms + [c])) == SextetString(AsciiBytes(syms)) + DecodeTable(c).value
  {
    SymbolCode(c);
    AsciiSnoc(syms, c);
    SextetsSnoc(AsciiBytes(syms), c as int);
  }

  /** Read back as bytes, the translation of a sextet stream passes the alphabet check and gives that stream. */
  lemma {:induction false} SymbolsRoundTrip(bits: seq<bool>)
    requires |bits| % 6 == 0
    ensures IsAscii(SymbolsOf(bits))
    ensures AllValid(AsciiBytes(SymbolsOf(bits)))
    ensures SextetString(AsciiBytes(SymbolsOf(bits))) == bits
    decreases |bits|
  {
    if bits == [] {
      assert AsciiBytes(SymbolsOf(bits)) == [];
    } else {
      var front, last := bits[..|bits| - 6], bits[|bits| - 6..];
      SymbolsRoundTrip(front);
      SymbolsRoundTripStep(front, last);
      assert bits == front + last;
    }
  }

  /** The inductive step of the symbol round trip: one more sextet, one more symbol. */
  lemma SymbolsRoundTripStep(front: seq<bool>, last: seq<bool>)
    requires |front| % 6 == 0 && |last| == 6
    requires IsAscii(SymbolsOf(front)) && AllValid(AsciiBytes(SymbolsOf(front)))
    requires SextetString(AsciiBytes(SymbolsOf(front))) == front
    ensures IsAscii(SymbolsOf(front + last)) && AllValid(AsciiBytes(SymbolsOf(front + last)))
    ensures SextetString(AsciiBytes(SymbolsOf(front + last))) == front + last
  {
    var c := EncodeTable(last).value;
    EncodeThenDecode(last);
    ValueSymbol(c);
    SymbolTextSnoc(SymbolsOf(front), c);
    SymbolsSnoc(front, last);
  }

  /** Regrouping the encoder's octet string into bytes gives the input back. */
  lemma {:induction false} OctetsRoundTrip(data: seq<byte>)
    ensures ByteString(OctetString(data)) == data
  {
    if data != [] {
      var front, last := data[..|data| - 1], data[|data| - 1];
      OctetsRoundTrip(front);
      OctetsRoundTripStep(front, last);
      assert data == front + [last];
    }
  }

  /** The regrouping keeps giving the input back when one more byte is added. */
  lemma OctetsRoundTripStep(front: seq<byte>, last: byte)
    requires ByteString(OctetString(front)) == front
    ensures ByteString(OctetString(front + [last])) == front + [last]
  {
    var data := front + [last];
    assert data[..|data| - 1] == front;
    ByteStringSnoc(OctetString(front), ToBits(last, 8));
    ByteValue(last);
  }

  /** The encoder's text is its symbols followed by '=' only, all of it ASCII. */
  lemma EncodedParts(data: seq<byte>)
    ensures var syms := SymbolsOf(ZeroPadded(OctetString(data)));
      var text := Encode(data);
      && |syms| <= |text|
      && text == syms + text[|syms|..]
      && (forall i :: 0 <= i < |syms| ==> ValueFor(syms[i]).Some?)
      && (forall i :: |syms| <= i < |text| ==> text[i] == '=')
      && IsAscii(text)
  {
    var syms := SymbolsOf(ZeroPadded(OctetString(data)));
    var text := Encode(data);
    EncodeSymbols(data);
    assert text == syms + text[|syms|..];
    forall i | 0 <= i < |syms|
      ensures ValueFor(syms[i]).Some? && text[i] as int < 128
    {
      assert syms[i] == text[i];
      ValueSymbol(text[i]);
    }
  }

  /**
   * Read back as bytes, symbols followed by '=' only are ASCII, hold no newline,
   * and lose exactly the '=' when the padding is removed.
   */
  lemma FramedText(syms: string, pad: string)
    requires forall i :: 0 <= i < |syms| ==> ValueFor(syms[i]).Some?
    requires forall i :: 0 <= i < |pad| ==> pad[i] == '='
    ensures IsAscii(syms) && IsAscii(syms + pad)
    ensures Newline !in AsciiBytes(syms + pad)
    ensures Without(AsciiBytes(syms + pad), Padding) == AsciiBytes(syms)
  {
    forall i | 0 <= i < |syms|
      ensures syms[i] as int < 128 && syms[i] != '=' && syms[i] != '\n'
    {
      ValueSymbol(syms[i]);
    }
    assert IsAscii(pad);
    AsciiAppend(syms, pad);
    var bs, bp := AsciiBytes(syms), AsciiBytes(pad);
    assert Padding !in bs;
    WithoutAppend(bs, bp, Padding);
    WithoutAbsent(bs, Padding);
    WithoutOnly(bp, Padding);
    assert bs + [] == bs;
    assert Newline !in bs + bp;
  }

  /**
   * The bytes of the encoder's text hold no newline, and removing '=' from them
   * leaves the bytes of its symbols.
   */
  lemma EncodedText(data: seq<byte>)
    ensures var syms := SymbolsOf(ZeroPadded(OctetString(data)));
      && IsAscii(syms) && IsAscii(Encode(data))
      && Newline !in AsciiBytes(Encode(data))
      && Without(AsciiBytes(Encode(data)), Padding) == AsciiBytes(syms)
  {
    EncodedParts(data);
    var syms := SymbolsOf(ZeroPadded(OctetString(data)));
    var text := Encode(data);
    var pad := text[|syms|..];
    forall i | 0 <= i < |pad|
      ensures pad[i] == '='
    {
      assert pad[i] == text[|syms| + i];
    }
    FramedText(syms, pad);
  }

  /**
   * The validator turns the encoder's text back into the zero-padded octet
   * string: the sextet stream the encoder regrouped.
   */
  lemma ValidateEncoded(data: seq<byte>)
    ensures IsAscii(Encode(data))
    ensures Validate(AsciiBytes(Encode(data))) == Success(ZeroPadded(OctetString(data)))
  {
    var padded := ZeroPadded(OctetString(data));
    var syms := SymbolsOf(padded);
    EncodedText(data);
    EncodeLength(data);
    var input := AsciiBytes(Encode(data));
    WithoutAbsent(input, Newline);
    SymbolsRoundTrip(padded);
    assert CheckSymbolsOf(AsciiBytes(syms)) == Success(padded);
    assert CheckFramed(input) == CheckSymbolsOf(AsciiBytes(syms));
  }

  /** Truncation to whole octets removes exactly the zero-padding of an octet string. */
  lemma TruncatedZeroPadded(bits: seq<bool>)
    requires |bits| % 8 == 0
    ensures Truncated(ZeroPadded(bits)) == bits
  {
    var p := ZeroPadded(bits);
    WholeOctets(|bits|, |p|);
    assert p[..|bits|] == bits;
  }

  /** The only multiple of eight in (p - 8, p] for p in [l, l + 8), l a multiple of eight, is l. */
  lemma WholeOctets(l: nat, p: nat)
    requires l % 8 == 0 && l <= p < l + 8
    ensures p - p % 8 == l
  {
  }

  /** Input the validator maps to the encoder's zero-padded octet string decodes to the encoder's input. */
  lemma DecodeValidated(input: seq<byte>, data: seq<byte>)
    requires Validate(input) == Success(ZeroPadded(OctetString(data)))
    ensures Decode(input) == Success(data)
  {
    PaddedOctetsDecode(data);
  }

  /** The decoder's back half inverts the encoder's front half: octet string, then zero-padding. */
  lemma PaddedOctetsDecode(data: seq<byte>)
    ensures DecodeBits(ZeroPadded(OctetString(data))) == data
  {
    TruncatedZeroPadded(OctetString(data));
    OctetsRoundTrip(data);
  }

  /** Round trip: decoding the encoder's text, with or without the trailing newline, gives the input back. */
  lemma RoundTrip(data: seq<byte>)
    ensures IsAscii(Encode(data))
    ensures Decode(AsciiBytes(Encode(data))) == Success(data)
    ensures Decode(AsciiBytes(Encode(data)) + [Newline]) == Success(data)
  {
    ValidateEncoded(data);
    var input := AsciiBytes(Encode(data));
    DecodeValidated(input, data);
    NewlinesIgnored(input, []);
    assert input + [Newline] + [] == input + [Newline];
    assert input + [] == input;
    DecodeValidated(input + [Newline], data);
  }

  /** Newlines anywhere in the input make no difference to validation. */
  lemma NewlinesIgnored(a: seq<byte>, b: seq<byte>)
    ensures Validate(a + [Newline] + b) == Validate(a + b)
  {
    WithoutInserted(a, b, Newline);
  }

  /** The encoder's text for the single byte 77 is the bytes of "TQ==". */
  lemma SingleByteText(text: seq<byte>)
    requires text == [84, 81, 61, 61]
    ensures IsAscii(Encode([77])) && AsciiBytes(Encode([77])) == text
  {
    EncodeSingleByte();
    assert AsciiBytes("TQ==") == text;
  }

  /** The bytes of "TQ==" decode to the single byte 77 ('M'). */
  lemma DecodeSingleByte(text: seq<byte>)
    requires text == [84, 81, 61, 61]
    ensures Decode(text) == Success([77])
  {
    SingleByteText(text);
    RoundTrip([77]);
  }

  /** The encoder's text for "foo" is the bytes of "Zm9v". */
  lemma FooText(text: seq<byte>)
    requires text == [90, 109, 57, 118]
    ensures IsAscii(Encode([102, 111, 111])) && AsciiBytes(Encode([102, 111, 111])) == text
  {
    EncodeFoo();
    assert AsciiBytes("Zm9v") == text;
  }

  /** The bytes of "Zm9v" decode to "foo". */
  lemma DecodeFoo(text: seq<byte>)
    requires text == [90, 109, 57, 118]
    ensures Decode(text) == Success([102, 111, 111])
  {
    FooText(text);
    RoundTrip([102, 111, 111]);
  }
}
