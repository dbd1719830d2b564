/**
 * The validator, `decode_stringify`: drops newlines, rejects a length that is
 * not a multiple of four, drops every '=', rejects any byte outside the
 * alphabet and concatenates the sextets of the remaining symbols. The
 * program's `error_message!` (print and exit) is a `Failure` here.
 */
module Validator {
  import opened Wrappers
  import opened Bits
  import opened Alphabet

  /** The two ways `decode_stringify` stops the program. */
  datatype DecodeError = LengthError | InvalidCharacter

  /** `v.retain(|&b| b != x)`: `v` without any occurrence of `x`, order kept. */
  function Without(v: seq<byte>, x: byte): (r: seq<byte>)
    ensures x !in r && |r| <= |v|
  {
    if v == [] then []
    else Without(v[..|v| - 1], x) + (if v[|v| - 1] == x then [] else [v[|v| - 1]])
  }

  /** Every byte is the code of one of the 64 symbols. */
  predicate AllValid(symbols: seq<byte>): (r: bool)
    ensures r ==> Newline !in symbols && Padding !in symbols
  {
    forall i :: 0 <= i < |symbols| ==> ValidCharsTable(symbols[i]).Some?
  }

  /** The sextet the tables give a valid byte: `b64_table.get(valid_table.get(b))`. */
  function SextetOf(code: byte): (r: seq<bool>)
    requires ValidCharsTable(code).Some?
    ensures |r| == 6 && FromBits(r) == ValueFor(code as char).value
  {
    Pow2Values();
    FromToBits(ValueFor(code as char).value, 6);
    DecodeTable(ValidCharsTable(code).value).value
  }

  /** The sextets of valid symbols, concatenated in order. */
  function SextetString(symbols: seq<byte>): (r: seq<bool>)
    requires AllValid(symbols)
    ensures |r| == 6 * |symbols|
  {
    if symbols == [] then []
    else SextetString(symbols[..|symbols| - 1]) + SextetOf(symbols[|symbols| - 1])
  }

  /** What `decode_stringify` returns for raw input bytes. */
  function Validate(input: seq<byte>): (r: Result<seq<bool>, DecodeError>)
    ensures r.Success? ==> |r.value| % 6 == 0 && |r.value| <= 6 * |input|
  {
    CheckFramed(Without(input, Newline))
  }

  /** The length check, on the text without newlines, then the symbols without '='. */
  function CheckFramed(text: seq<byte>): (r: Result<seq<bool>, DecodeError>)
    ensures r == Failure(LengthError) <==> |text| % 4 != 0
    ensures r.Success? ==> |r.value| % 6 == 0 && |r.value| <= 6 * |text|
  {
    if |text| % 4 != 0 then Failure(LengthError) else CheckSymbolsOf(Without(text, Padding))
  }

  /** The alphabet check, then the concatenated sextets. */
  function CheckSymbolsOf(symbols: seq<byte>): (r: Result<seq<bool>, DecodeError>)
    ensures r.Success? <==> AllValid(symbols)
    ensures r.Success? ==> |r.value| == 6 * |symbols|
    ensures r.Failure? ==> r.error == InvalidCharacter
  {
    if AllValid(symbols) then Success(SextetString(symbols)) else Failure(InvalidCharacter)
  }

  /** `decode_stringify`: the two filters, the length check and its two loops. */
  method DecodeStringify(input: seq<byte>) returns (r: Result<seq<bool>, DecodeError>)
    ensures r == Validate(input)
  {
    var text := Without(input, Newline);
    if |text| % 4 != 0 {
      return Failure(LengthError);
    }
    text := Without(text, Padding);
    var legal := CheckSymbols(text);
    if !legal {
      return Failure(InvalidCharacter);
    }
    var octetString := ConcatSextets(text);
    return Success(octetString);
  }

  /** The checking loop of `decode_stringify`: is every byte in `valid_chars_hashmap`? */
  method CheckSymbols(text: seq<byte>) returns (legal: bool)
    ensures legal == AllValid(text)
  {
    for i := 0 to |text|
      invariant forall j :: 0 <= j < i ==> ValidCharsTable(text[j]).Some?
    {
      if ValidCharsTable(text[i]).None? {
        return false;
      }
    }
    return true;
  }

  /** The building loop of `decode_stringify`: appends each symbol's sextet from the two tables. */
  method ConcatSextets(text: seq<byte>) returns (octetString: seq<bool>)
    requires AllValid(text)
    ensures octetString == SextetString(text)
  {
    octetString := [];
    for i := 0 to |text|
      invariant octetString == SextetString(text[..i])
    {
      var val := ValidCharsTable(text[i]).value;
      var appendVal := DecodeTable(val).value;
      assert text[..i + 1][..i] == text[..i];
      octetString := octetString + appendVal;
    }
    assert text[..|text|] == text;
  }

  /** Removing a byte that does not occur changes nothing. */
  lemma {:induction false} WithoutAbsent(v: seq<byte>, x: byte)
    requires x !in v
    ensures Without(v, x) == v
  {
    if v != [] {
      var front, last := v[..|v| - 1], v[|v| - 1];
      assert v == front + [last];
      assert x !in front && last != x;
      WithoutAbsent(front, x);
    }
  }

  /** Removal distributes over concatenation. */
  lemma {:induction false} WithoutAppend(a: seq<byte>, b: seq<byte>, x: byte)
    ensures Without(a + b, x) == Without(a, x) + Without(b, x)
    decreases |b|
  {
    if b == [] {
      assert a + b == a;
    } else {
      var b' := b[..|b| - 1];
      assert (a + b)[..|a + b| - 1] == a + b';
      assert (a + b)[|a + b| - 1] == b[|b| - 1];
      WithoutAppend(a, b', x);
    }
  }

  /** Removing `x` undoes inserting one `x`. */
  lemma WithoutInserted(a: seq<byte>, b: seq<byte>, x: byte)
    ensures Without(a + [x] + b, x) == Without(a + b, x)
  {
    var wa, wb := Without(a, x), Without(b, x);
    WithoutAppend(a + [x], b, x);
    WithoutAppend(a, [x], x);
    WithoutAppend(a, b, x);
    assert Without([x], x) == [];
    assert wa + [] == wa;
  }

  /** Removing `x` from a run of `x` leaves nothing. */
  lemma {:induction false} WithoutOnly(v: seq<byte>, x: byte)
    requires forall i :: 0 <= i < |v| ==> v[i] == x
    ensures Without(v, x) == []
  {
    if v != [] {
      WithoutOnly(v[..|v| - 1], x);
    }
  }

  /** Removal never introduces a byte. */
  lemma {:induction false} WithoutKeepsAbsent(v: seq<byte>, x: byte, y: byte)
    requires y !in v
    ensures y !in Without(v, x)
  {
    if v != [] {
      WithoutKeepsAbsent(v[..|v| - 1], x, y);
    }
  }

  /** Cleaning is idempotent: the symbols left after removing newlines and '=' have neither to remove. */
  lemma CleaningIdempotent(input: seq<byte>)
    ensures var symbols := Without(Without(input, Newline), Padding);
      Without(Without(symbols, Newline), Padding) == symbols
  {
    var symbols := Without(Without(input, Newline), Padding);
    WithoutKeepsAbsent(Without(input, Newline), Padding, Newline);
    WithoutAbsent(symbols, Newline);
    WithoutAbsent(symbols, Padding);
  }

  /** The length check: a length error exactly when the text without newlines is not a multiple of four long. */
  lemma ValidateLengthError(input: seq<byte>)
    ensures Validate(input) == Failure(LengthError) <==> |Without(input, Newline)| % 4 != 0
  {
  }

  /**
   * The character check: past the length check, an invalid-character error exactly
   * when some byte left after removing newlines and '=' is not a symbol's code.
   */
  lemma ValidateInvalidCharacter(input: seq<byte>)
    ensures var symbols := Without(Without(input, Newline), Padding);
      Validate(input) == Failure(InvalidCharacter) <==>
        |Without(input, Newline)| % 4 == 0 &&
        exists i :: 0 <= i < |symbols| && ValueFor(symbols[i] as char).None?
  {
    var text := Without(input, Newline);
    var symbols := Without(text, Padding);
    if Validate(input) == Failure(InvalidCharacter) {
      assert |text| % 4 == 0;
      assert !AllValid(symbols);
      var i :| 0 <= i < |symbols| && ValidCharsTable(symbols[i]).None?;
      assert ValueFor(symbols[i] as char).None?;
    }
  }

  /** Sextet i of the concatenation is the sextet of symbol i. */
  lemma {:induction false} SextetStringAt(symbols: seq<byte>, i: nat)
    requires AllValid(symbols) && i < |symbols|
    ensures SextetString(symbols)[6 * i .. 6 * i + 6] == SextetOf(symbols[i])
  {
    var n := |symbols|;
    var front := symbols[..n - 1];
    var head := SextetString(front);
    var last := SextetOf(symbols[n - 1]);
    assert SextetString(symbols) == head + last;
    assert |head| == 6 * (n - 1);
    if i < n - 1 {
      SextetStringAt(front, i);
      assert front[i] == symbols[i];
      SliceOfFront(head, last, 6 * i, 6 * i + 6);
    } else {
      SliceOfBack(head, last);
    }
  }

  /** A slice inside the front of a concatenation is a slice of the front. */
  lemma SliceOfFront<T>(a: seq<T>, b: seq<T>, lo: nat, hi: nat)
    requires lo <= hi <= |a|
    ensures (a + b)[lo..hi] == a[lo..hi]
  {
  }

  /** The slice past the front of a concatenation is the back. */
  lemma SliceOfBack<T>(a: seq<T>, b: seq<T>)
    ensures (a + b)[|a|..|a| + |b|] == b
  {
  }

  /** The sextet of a valid byte is the six-digit binary of its symbol's value. */
  lemma SextetOfValue(code: byte)
    requires ValidCharsTable(code).Some?
    ensures SextetOf(code) == ToBits(ValueFor(code as char).value, 6)
  {
    ToFromBits(SextetOf(code));
  }

  /**
   * A successful validation returns 6k bits for the k symbols left after removing
   * newlines and '=', sextet i being the table's value of symbol i, in order.
   */
  lemma ValidateSuccess(input: seq<byte>)
    requires Validate(input).Success?
    ensures var symbols := Without(Without(input, Newline), Padding);
      var bits := Validate(input).value;
      && |Without(input, Newline)| % 4 == 0
      && (forall i :: 0 <= i < |symbols| ==> ValueFor(symbols[i] as char).Some?)
      && |bits| == 6 * |symbols|
      && (forall i :: 0 <= i < |symbols| ==> bits[6 * i .. 6 * i + 6] == ToBits(ValueFor(symbols[i] as char).value, 6))
  {
    var symbols := Without(Without(input, Newline), Padding);
    forall i | 0 <= i < |symbols|
      ensures Validate(input).value[6 * i .. 6 * i + 6] == ToBits(ValueFor(symbols[i] as char).value, 6)
    {
      SextetStringAt(symbols, i);
      SextetOfValue(symbols[i]);
    }
  }

  /** "Zm9" is three symbols long: a length error. */
  lemma ValidateLengthExample(text: seq<byte>)
    requires text == [90, 109, 57]
    ensures Validate(text) == Failure(LengthError)
  {
    WithoutAbsent(text, Newline);
    ValidateLengthError(text);
  }

  /** "Zm9!" has the right length but '!' is not a symbol: an invalid-character error. */
  lemma ValidateCharacterExample(text: seq<byte>)
    requires text == [90, 109, 57, 33]
    ensures Validate(text) == Failure(InvalidCharacter)
  {
    WithoutAbsent(text, Newline);
    WithoutAbsent(text, Padding);
    assert ValidCharsTable(text[3]).None?;
    ValidateInvalidCharacter(text);
  }

  /**
   * Validation is not idempotent on the symbols it accepts: "TQ==" passes the
   * length check and leaves "TQ", which on its own fails it.
   */
  lemma RevalidateCleaned(text: seq<byte>, symbols: seq<byte>)
    requires text == [84, 81, 61, 61] && symbols == [84, 81]
    ensures Without(Without(text, Newline), Padding) == symbols
    ensures Validate(symbols) == Failure(LengthError)
  {
    CleanedSingleByte(text, symbols);
    CleanedLengthError(symbols);
  }

  /** "TQ" on its own fails the length check. */
  lemma CleanedLengthError(symbols: seq<byte>)
    requires symbols == [84, 81]
    ensures Validate(symbols) == Failure(LengthError)
  {
    WithoutAbsent(symbols, Newline);
    ValidateLengthError(symbols);
  }

  /** Removing newlines and '=' from "TQ==" leaves "TQ". */
  lemma CleanedSingleByte(text: seq<byte>, symbols: seq<byte>)
    requires text == [84, 81, 61, 61] && symbols == [84, 81]
    ensures Without(Without(text, Newline), Padding) == symbols
  {
    var pad: seq<byte> := [61, 61];
    assert text == symbols + pad;
    WithoutAbsent(text, Newline);
    WithoutAppend(symbols, pad, Padding);
    WithoutAbsent(symbols, Padding);
    WithoutOnly(pad, Padding);
    assert symbols + [] == symbols;
  }
}
