/**
 * The three fixed tables of the codec: sextet -> symbol (`encode_hashmap`),
 * symbol -> sextet (`decode_hashmap`) and byte code -> symbol
 * (`valid_chars_hashmap`, used only to test membership). Each lookup
 * `table.get(k)` is a function returning an `Option`. The alphabet is
 * Table 1 of RFC 4648 section 4: 'A'-'Z' are 0-25, 'a'-'z' 26-51,
 * '0'-'9' 52-61, '+' is 62 and '/' is 63.
 */
module Alphabet {
  import opened Wrappers
  import opened Bits

  /** Byte code of the padding symbol '='. */
  const Padding: byte := 61
  /** Byte code of the newline the decoder ignores. */
  const Newline: byte := 10

  /** The symbol of a sextet value. */
  function SymbolFor(v: nat): (c: char)
    requires v < 64
    ensures c != '=' && c != '\n' && c as int < 128
  {
    if v < 26 then ('A' as int + v) as char
    else if v < 52 then ('a' as int + (v - 26)) as char
    else if v < 62 then ('0' as int + (v - 52)) as char
    else if v == 62 then '+'
    else '/'
  }

  /** The sextet value of a symbol, `None` for a character outside the alphabet. */
  function ValueFor(c: char): (r: Option<nat>)
    ensures r.Some? ==> r.value < 64
  {
    if 'A' <= c <= 'Z' then Some(c as int - 'A' as int)
    else if 'a' <= c <= 'z' then Some(c as int - 'a' as int + 26)
    else if '0' <= c <= '9' then Some(c as int - '0' as int + 52)
    else if c == '+' then Some(62)
    else if c == '/' then Some(63)
    else None
  }

  /** `encode_hashmap().get(sextet)`: its keys are exactly the 64 six-digit strings. */
  function EncodeTable(sextet: seq<bool>): (r: Option<char>)
    ensures r.Some? <==> |sextet| == 6
  {
    if |sextet| == 6 then
      Pow2Values();
      Some(SymbolFor(FromBits(sextet)))
    else
      None
  }

  /** `decode_hashmap().get(symbol)`: its keys are exactly the 64 symbols, its values six-digit strings. */
  function DecodeTable(symbol: char): (r: Option<seq<bool>>)
    ensures r.Some? <==> ValueFor(symbol).Some?
    ensures r.Some? ==> |r.value| == 6
  {
    match ValueFor(symbol)
    case Some(v) => Some(ToBits(v, 6))
    case None => None
  }

  /** `valid_chars_hashmap().get(code)`: the symbol whose ASCII code is `code`, if there is one. */
  function ValidCharsTable(code: byte): (r: Option<char>)
    ensures r.Some? <==> ValueFor(code as char).Some?
    ensures r.Some? ==> r.value as int == code
  {
    var c := code as char;
    if ValueFor(c).Some? then Some(c) else None
  }

  /** The encode table maps the six-digit binary of a value to that value's symbol. */
  lemma SextetSymbol(v: nat)
    requires v < 64
    ensures EncodeTable(ToBits(v, 6)) == Some(SymbolFor(v))
  {
    Pow2Values();
    FromToBits(v, 6);
  }

  /** The 64 symbols are distinct: each one's value is the value it was made from. */
  lemma SymbolValue(v: nat)
    requires v < 64
    ensures ValueFor(SymbolFor(v)) == Some(v)
  {
  }

  /** Every character with a value is the symbol of that value. */
  lemma ValueSymbol(c: char)
    requires ValueFor(c).Some?
    ensures SymbolFor(ValueFor(c).value) == c
  {
  }

  /** The membership table holds exactly the codes of the 64 symbols. */
  lemma ValidCharsMembership(code: byte)
    ensures ValidCharsTable(code).Some? <==> exists v :: 0 <= v < 64 && SymbolFor(v) as int == code
  {
    if ValidCharsTable(code).Some? {
      ValueSymbol(code as char);
    }
  }

  /** Decode table after encode table: every six-digit string comes back. */
  lemma EncodeThenDecode(sextet: seq<bool>)
    requires |sextet| == 6
    ensures DecodeTable(EncodeTable(sextet).value) == Some(sextet)
  {
    Pow2Values();
    SymbolValue(FromBits(sextet));
    ToFromBits(sextet);
  }

  /** Encode table after decode table: every symbol comes back, so the tables are mutual inverses. */
  lemma DecodeThenEncode(symbol: char)
    requires DecodeTable(symbol).Some?
    ensures EncodeTable(DecodeTable(symbol).value) == Some(symbol)
  {
    var v := ValueFor(symbol).value;
    Pow2Values();
    FromToBits(v, 6);
    ValueSymbol(symbol);
  }

  /** The symbols named in the tables' first and last rows and at each range boundary. */
  lemma TableBoundaries()
    ensures SymbolFor(0) == 'A' && SymbolFor(25) == 'Z' && SymbolFor(26) == 'a'
    ensures SymbolFor(51) == 'z' && SymbolFor(52) == '0' && SymbolFor(61) == '9'
    ensures SymbolFor(62) == '+' && SymbolFor(63) == '/'
    ensures EncodeTable([false, false, false, false, false, false]) == Some('A')
    ensures EncodeTable([true, true, true, true, true, true]) == Some('/')
  {
    assert ToBits(0, 6) == [false, false, false, false, false, false];
    assert ToBits(63, 6) == [true, true, true, true, true, true];
    FromToBits(0, 6);
    FromToBits(63, 6);
  }

  /** The keys are read most significant digit first: 000001 is 'B' and 100000 is 'g'. */
  lemma TableBitOrder()
    ensures EncodeTable([false, false, false, false, false, true]) == Some('B')
    ensures EncodeTable([true, false, false, false, false, false]) == Some('g')
  {
    assert ToBits(1, 6) == [false, false, false, false, false, true];
    assert ToBits(32, 6) == [true, false, false, false, false, false];
    FromToBits(1, 6);
    FromToBits(32, 6);
  }
}
