/**
 * The encoder: `encode_stringify` turns the input bytes into one bit string,
 * `base64_encode` zero-pads it to whole sextets, maps each sextet through the
 * encode table and pads the symbols with '=' to a multiple of four.
 */
module Encoder {
  import opened Wrappers
  import opened Bits
  import opened Alphabet

  /** The input as one bit string: every byte's 8 bits, most significant first, in order. */
  function OctetString(input: seq<byte>): (r: seq<bool>)
    ensures |r| == 8 * |input|
  {
    if input == [] then [] else OctetString(input[..|input| - 1]) + ToBits(input[|input| - 1], 8)
  }

  /** Value padding: `bits` followed by the fewest zero bits that make whole sextets. */
  function ZeroPadded(bits: seq<bool>): (r: seq<bool>)
    ensures |r| % 6 == 0 && |bits| <= |r| < |bits| + 6
    ensures r[..|bits|] == bits
  {
    bits + seq((6 - |bits| % 6) % 6, _ => false)
  }

  /** Symbol padding: `text` followed by the fewest '=' that make its length a multiple of four. */
  function SymbolPadded(text: string): (r: string)
    ensures |r| % 4 == 0 && |text| <= |r| < |text| + 4
    ensures r[..|text|] == text
  {
    text + seq((4 - |text| % 4) % 4, _ => '=')
  }

  /** The encode table's symbol for each sextet of `bits`, in order. */
  function SymbolsOf(bits: seq<bool>): (r: string)
    requires |bits| % 6 == 0
    ensures |r| == |bits| / 6
    decreases |bits|
  {
    if bits == [] then []
    else SymbolsOf(bits[..|bits| - 6]) + [EncodeTable(bits[|bits| - 6..]).value]
  }

  /** The text `base64_encode` produces for a bit string. */
  function Base64Text(bits: seq<bool>): (r: string)
    ensures |r| % 4 == 0 && |bits| <= 6 * |r|
  {
    SymbolPadded(SymbolsOf(ZeroPadded(bits)))
  }

  /** The text the encoder produces for a byte sequence (without the newline `println!` adds). */
  function Encode(input: seq<byte>): (r: string)
    ensures |r| % 4 == 0
  {
    Base64Text(OctetString(input))
  }

  /** `encode_stringify`: appends `format!("{:08b}", input[i])` for every byte in turn. */
  method EncodeStringify(input: seq<byte>) returns (octetString: seq<bool>)
    ensures octetString == OctetString(input)
  {
    octetString := [];
    for i := 0 to |input|
      invariant octetString == OctetString(input[..i])
    {
      assert input[..i + 1][..i] == input[..i];
      octetString := octetString + ToBits(input[i], 8);
    }
    assert input[..|input|] == input;
  }

  /**
   * `base64_encode`: `padded` is the caller's string after the zero-padding loop
   * (the function takes it by `&mut`), `translation` is the line it prints.
   */
  method Base64Encode(input: seq<bool>) returns (padded: seq<bool>, translation: string)
    ensures padded == ZeroPadded(input)
    ensures translation == Base64Text(input)
  {
    padded := PadWithZeros(input);
    var symbols := Translate(padded);
    translation := PadWithEquals(symbols);
  }

  /** The first loop of `base64_encode`: push "0" until the length is a multiple of six. */
  method PadWithZeros(input: seq<bool>) returns (padded: seq<bool>)
    ensures padded == ZeroPadded(input)
  {
    ghost var target := |ZeroPadded(input)|;
    padded := input;
    while |padded| % 6 != 0
      invariant |input| <= |padded| <= target
      invariant padded[..|input|] == input
      invariant forall i :: |input| <= i < |padded| ==> !padded[i]
      decreases target - |padded|
    {
      padded := padded + [false];
    }
    CeilDiv6(|input|, |padded|);
    ZeroPadding(input);
    SameFraming(padded, ZeroPadded(input), input);
  }

  /** The second loop of `base64_encode`: look up each sextet in the encode table and push its symbol. */
  method Translate(padded: seq<bool>) returns (translation: string)
    requires |padded| % 6 == 0
    ensures translation == SymbolsOf(padded)
  {
    translation := [];
    var iterations := |padded| / 6;
    for i := 0 to iterations
      invariant translation == SymbolsOf(padded[..6 * i])
    {
      var currentSlice := padded[6 * i .. 6 * (i + 1)];
      PrefixExtend(padded, 6 * i, 6 * (i + 1));
      SymbolsSnoc(padded[..6 * i], currentSlice);
      match EncodeTable(currentSlice)
      case Some(foundValue) =>
        translation := translation + [foundValue];
      case None =>
        assert false;
    }
    assert padded[..6 * iterations] == padded;
  }

  /** The third loop of `base64_encode`: push '=' until the length is a multiple of four. */
  method PadWithEquals(symbols: string) returns (translation: string)
    ensures translation == SymbolPadded(symbols)
  {
    ghost var target := |SymbolPadded(symbols)|;
    translation := symbols;
    while |translation| % 4 != 0
      invariant |symbols| <= |translation| <= target
      invariant translation[..|symbols|] == symbols
      invariant forall i :: |symbols| <= i < |translation| ==> translation[i] == '='
      decreases target - |translation|
    {
      translation := translation + ['='];
    }
    CeilDiv4(|symbols|, |translation|);
    CeilDiv4(|symbols|, target);
    SymbolPadding(symbols);
    SameFraming(translation, SymbolPadded(symbols), symbols);
  }

  /** The translation of whole sextets gains one symbol per appended sextet. */
  lemma SymbolsSnoc(front: seq<bool>, last: seq<bool>)
    requires |front| % 6 == 0 && |last| == 6
    ensures SymbolsOf(front + last) == SymbolsOf(front) + [EncodeTable(last).value]
  {
    var bits := front + last;
    assert bits[..|bits| - 6] == front;
    assert bits[|bits| - 6..] == last;
  }

  /** Two extensions of `s` of one length that agree past `s` are equal. */
  lemma SameFraming<T>(a: seq<T>, b: seq<T>, s: seq<T>)
    requires |a| == |b| && |s| <= |a| && a[..|s|] == s && b[..|s|] == s
    requires forall i :: |s| <= i < |a| ==> a[i] == b[i]
    ensures a == b
  {
    forall i | 0 <= i < |a|
      ensures a[i] == b[i]
    {
      if i < |s| {
        assert a[i] == a[..|s|][i] && b[i] == b[..|s|][i];
      }
    }
  }

  /** Bits 8i..8i+7 of the octet string are the binary of byte i. */
  lemma {:induction false} OctetStringAt(input: seq<byte>, i: nat)
    requires i < |input|
    ensures OctetString(input)[8 * i .. 8 * i + 8] == ToBits(input[i], 8)
  {
    var n := |input|;
    var front := input[..n - 1];
    assert OctetString(input) == OctetString(front) + ToBits(input[n - 1], 8);
    if i < n - 1 {
      OctetStringAt(front, i);
      assert front[i] == input[i];
    }
  }

  /** Symbol i of the translation is the encode table's symbol for sextet i. */
  lemma {:induction false} SymbolsOfAt(bits: seq<bool>, i: nat)
    requires |bits| % 6 == 0 && i < |bits| / 6
    ensures SymbolsOf(bits)[i] == EncodeTable(bits[6 * i .. 6 * i + 6]).value
    decreases |bits|
  {
    var n := |bits| / 6;
    assert |bits| == 6 * n;
    var front := bits[..6 * (n - 1)];
    assert SymbolsOf(bits) == SymbolsOf(front) + [EncodeTable(bits[6 * (n - 1)..]).value];
    if i < n - 1 {
      assert |front| / 6 == n - 1;
      SymbolsOfAt(front, i);
      assert front[6 * i .. 6 * i + 6] == bits[6 * i .. 6 * i + 6];
    } else {
      assert bits[6 * (n - 1)..] == bits[6 * i .. 6 * i + 6];
    }
  }

  /** The zero-padding appends fewer than six zero bits to reach whole sextets and keeps the original bits as a prefix. */
  lemma ZeroPadding(bits: seq<bool>)
    ensures var p := ZeroPadded(bits);
      && |p| % 6 == 0 && |p| - |bits| < 6 && p[..|bits|] == bits
      && |p| / 6 == (|bits| + 5) / 6
      && forall i :: |bits| <= i < |p| ==> !p[i]
  {
    var p := ZeroPadded(bits);
    CeilDiv6(|bits|, |p|);
  }

  /** The symbol padding appends fewer than four '=' to reach a multiple of four and keeps the symbols as a prefix. */
  lemma SymbolPadding(text: string)
    ensures var r := SymbolPadded(text);
      && |r| % 4 == 0 && |r| - |text| == (4 - |text| % 4) % 4 && r[..|text|] == text
      && forall i :: |text| <= i < |r| ==> r[i] == '='
  {
  }

  /** The only multiple of six in [l, l + 6) is 6 * ceil(l / 6). */
  lemma CeilDiv6(l: nat, p: nat)
    requires p % 6 == 0 && l <= p < l + 6
    ensures p / 6 == (l + 5) / 6
  {
  }

  /** The only multiple of four in [l, l + 4) is 4 * ceil(l / 4). */
  lemma CeilDiv4(l: nat, p: nat)
    requires p % 4 == 0 && l <= p < l + 4
    ensures p / 4 == (l + 3) / 4
  {
  }

  /** Symbol-count arithmetic: ceil(8n/6) symbols framed to a multiple of four is 4*ceil(n/3), with at most two '='. */
  lemma FramedCount(n: nat, k: nat, len: nat)
    requires k == (8 * n + 5) / 6 && len == k + (4 - k % 4) % 4
    ensures len == 4 * ((n + 2) / 3) && len - k <= 2
  {
    var q := n / 3;
    if n % 3 == 0 {
      assert n == 3 * q;
      assert k == 4 * q;
    } else if n % 3 == 1 {
      assert n == 3 * q + 1;
      assert k == 4 * q + 2;
    } else {
      assert n == 3 * q + 2;
      assert k == 4 * q + 3;
    }
  }

  /** The number of symbols before padding is ceil(8n/6). */
  lemma SymbolCount(input: seq<byte>)
    ensures |SymbolsOf(ZeroPadded(OctetString(input)))| == (8 * |input| + 5) / 6
  {
    var bits := OctetString(input);
    CeilDiv6(|bits|, |ZeroPadded(bits)|);
  }

  /**
   * The encoded length: k = ceil(8n/6) symbols, then (4 - k mod 4) mod 4 '=', never
   * more than two; in all 4*ceil(n/3), a multiple of four.
   */
  lemma EncodeLength(input: seq<byte>)
    ensures |Encode(input)| == 4 * ((|input| + 2) / 3)
    ensures |Encode(input)| % 4 == 0
    ensures var k := |SymbolsOf(ZeroPadded(OctetString(input)))|; |Encode(input)| - k == (4 - k % 4) % 4
    ensures var k := |SymbolsOf(ZeroPadded(OctetString(input)))|; |Encode(input)| - k <= 2
  {
    var syms := SymbolsOf(ZeroPadded(OctetString(input)));
    SymbolCount(input);
    SymbolPadding(syms);
    FramedCount(|input|, |syms|, |SymbolPadded(syms)|);
  }

  /**
   * The encoded text: symbol i is the encode table's symbol for sextet i of the
   * zero-padded bit string, an alphabet symbol; every character after them is '='.
   */
  lemma EncodeSymbols(input: seq<byte>)
    ensures var r := Encode(input);
      var padded := ZeroPadded(OctetString(input));
      var k := |padded| / 6;
      && k <= |r|
      && (forall i :: 0 <= i < k ==> r[i] == EncodeTable(padded[6 * i .. 6 * i + 6]).value)
      && (forall i :: 0 <= i < k ==> ValueFor(r[i]).Some?)
      && (forall i :: k <= i < |r| ==> r[i] == '=')
  {
    var padded := ZeroPadded(OctetString(input));
    var symbols := SymbolsOf(padded);
    var r := Encode(input);
    assert r == SymbolPadded(symbols);
    Pow2Values();
    forall i | 0 <= i < |symbols|
      ensures r[i] == EncodeTable(padded[6 * i .. 6 * i + 6]).value
      ensures ValueFor(r[i]).Some?
    {
      assert r[i] == symbols[i];
      SymbolsOfAt(padded, i);
      SymbolValue(FromBits(padded[6 * i .. 6 * i + 6]));
    }
  }

  /** Empty input gives empty text. */
  lemma EncodeEmpty()
    ensures Encode([]) == ""
  {
  }

  /** The single byte 77 ('M') is the bits 01001101. */
  lemma SingleByteOctets()
    ensures OctetString([77]) == [false, true, false, false, true, true, false, true]
  {
    var input: seq<byte> := [77];
    assert input[..0] == [];
    assert ToBits(77, 8) == [false, true, false, false, true, true, false, true];
  }

  /** The sextets 010011 and 010000 translate to "TQ". */
  lemma SingleByteSymbols()
    ensures SymbolsOf(ToBits(19, 6) + ToBits(16, 6)) == "TQ"
  {
    SextetSymbol(19);
    SextetSymbol(16);
    SymbolsSnoc([], ToBits(19, 6));
    SymbolsSnoc(ToBits(19, 6), ToBits(16, 6));
    assert [] + ToBits(19, 6) == ToBits(19, 6);
  }

  /** 19, the value of 'T', is 010011. */
  lemma SextetT()
    ensures ToBits(19, 6) == [false, true, false, false, true, true]
  {
  }

  /** 16, the value of 'Q', is 010000. */
  lemma SextetQ()
    ensures ToBits(16, 6) == [false, true, false, false, false, false]
  {
  }

  /** The eight bits of 'M' zero-padded to twelve are the sextets 19 and 16. */
  lemma SingleBytePadded(bits: seq<bool>)
    requires bits == [false, true, false, false, true, true, false, true]
    ensures ZeroPadded(bits) == ToBits(19, 6) + ToBits(16, 6)
  {
    assert seq((6 - |bits| % 6) % 6, _ => false) == [false, false, false, false];
    SextetT();
    SextetQ();
  }

  /** "TQ" padded with '=' is "TQ==". */
  lemma SingleBytePadding(symbols: string)
    requires symbols == "TQ"
    ensures SymbolPadded(symbols) == "TQ=="
  {
    assert seq((4 - |symbols| % 4) % 4, _ => '=') == "==";
  }

  /** One byte gives two symbols and two '=': 'M' encodes as "TQ==". */
  lemma EncodeSingleByte()
    ensures Encode([77]) == "TQ=="
  {
    var bits := OctetString([77]);
    SingleByteOctets();
    SingleBytePadded(bits);
    SingleByteSymbols();
    SingleBytePadding(SymbolsOf(ZeroPadded(bits)));
  }

  /** The bytes of "foo" are the octets of 102, 111 and 111. */
  lemma FooOctets()
    ensures OctetString([102, 111, 111]) == ToBits(102, 8) + ToBits(111, 8) + ToBits(111, 8)
  {
    var input: seq<byte> := [102, 111, 111];
    assert input[..2] == [102, 111];
    assert input[..2][..1] == [102];
    assert input[..2][..1][..0] == [];
  }

  /** 'f' is 01100110. */
  lemma LetterF()
    ensures ToBits(102, 8) == [false, true, true, false, false, true, true, false]
  {
  }

  /** 'o' is 01101111. */
  lemma LetterO()
    ensures ToBits(111, 8) == [false, true, true, false, true, true, true, true]
  {
  }

  /** 25, the value of 'Z', is 011001. */
  lemma SextetZ()
    ensures ToBits(25, 6) == [false, true, true, false, false, true]
  {
  }

  /** 38, the value of 'm', is 100110. */
  lemma SextetM()
    ensures ToBits(38, 6) == [true, false, false, true, true, false]
  {
  }

  /** 61, the value of '9', is 111101. */
  lemma SextetNine()
    ensures ToBits(61, 6) == [true, true, true, true, false, true]
  {
  }

  /** 47, the value of 'v', is 101111. */
  lemma SextetV()
    ensures ToBits(47, 6) == [true, false, true, true, true, true]
  {
  }

  /** The 24 bits of "foo" regrouped into four sextets. */
  lemma FooRegroup(f: seq<bool>, o: seq<bool>, z: seq<bool>, m: seq<bool>, n: seq<bool>, v: seq<bool>)
    requires f == [false, true, true, false, false, true, true, false]
    requires o == [false, true, true, false, true, true, true, true]
    requires z == [false, true, true, false, false, true] && m == [true, false, false, true, true, false]
    requires n == [true, true, true, true, false, true] && v == [true, false, true, true, true, true]
    ensures f + o + o == z + m + n + v
  {
  }

  /** The sextets 25, 38, 61 and 47 translate to "Zm9v". */
  lemma FooSymbols(z: seq<bool>, m: seq<bool>, n: seq<bool>, v: seq<bool>)
    requires z == ToBits(25, 6) && m == ToBits(38, 6) && n == ToBits(61, 6) && v == ToBits(47, 6)
    ensures SymbolsOf(z + m + n + v) == "Zm9v"
  {
    SextetSymbol(25);
    SextetSymbol(38);
    SextetSymbol(61);
    SextetSymbol(47);
    SymbolsSnoc([], z);
    assert [] + z == z;
    assert SymbolsOf(z) == "Z";
    SymbolsSnoc(z, m);
    assert SymbolsOf(z + m) == "Zm";
    SymbolsSnoc(z + m, n);
    assert SymbolsOf(z + m + n) == "Zm9";
    SymbolsSnoc(z + m + n, v);
  }

  /** Three bytes give four symbols and no '=': "foo" encodes as "Zm9v". */
  lemma EncodeFoo()
    ensures Encode([102, 111, 111]) == "Zm9v"
  {
    var f, o := ToBits(102, 8), ToBits(111, 8);
    var z, m, n, v := ToBits(25, 6), ToBits(38, 6), ToBits(61, 6), ToBits(47, 6);
    FooOctets();
    LetterF();
    LetterO();
    SextetZ();
    SextetM();
    SextetNine();
    SextetV();
    FooRegroup(f, o, z, m, n, v);
    var bits := f + o + o;
    assert ZeroPadded(bits) == bits;
    FooSymbols(z, m, n, v);
  }
}
