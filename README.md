# rust64 in Dafny

A model of the codec at the heart of `rust64`, a command-line Base64 tool
(the alphabet of RFC 4648, section 4, Table 1, with `=` padding). The program
works on text bit strings: `encode_stringify` writes every input byte as eight
binary digits; `base64_encode` pads that string with `0` to whole sextets,
looks each sextet up in a table of 64 symbols and pads the result with `=` to a
multiple of four; `decode_stringify` drops newlines, rejects a length that is
not a multiple of four, drops every `=`, rejects any byte outside the alphabet
and concatenates the sextets of the remaining symbols; `base64_decode` pops
trailing digits until whole octets remain and turns each octet into a byte.

The model has one module per part of the program:

- `Wrappers`: `Option` and `Result`.
- `Bits`: bytes, and bit strings as `seq<bool>` (`true` for the digit `1`,
  most significant first). `ToBits` stands for `format!("{:08b}", b)` and for
  the six-digit keys of the tables. `FromBits` stands for
  `u8::from_str_radix(s, 2)`.
- `Alphabet`: the three tables `encode_hashmap`, `decode_hashmap` and
  `valid_chars_hashmap`. A lookup `table.get(k)` is a function returning an
  `Option`.
- `Encoder`: `encode_stringify` and `base64_encode`, as methods with loops.
  Each is proved equal to a specification function.
- `Validator`: `decode_stringify`. Its two loops are methods proved against
  specification functions. `Vec::retain` is the function `Without`. The
  program's print-and-exit on bad input is a `Failure` result.
- `Decoder`: `base64_decode`. Its two loops are methods proved against
  specification functions.
- `Codec`: the two halves put together. `Codec.RoundTrip` proves that decoding
  the bytes of the encoder's output gives back the input. It also proves this
  with the newline that `println!` adds after the encoded text.

`base64_encode` and `base64_decode` take their bit string by `&mut String` and
change it before using it. The methods return the changed string (`padded`,
`trimmed`) next to what the function prints or writes (`translation`,
`decimalVec`).

## Model

| member | source | states |
|---|---|---|
| Alphabet.SymbolFor | main.rs:24-43 | every value below 64 has a symbol, and no symbol is '=', a newline or outside ASCII |
| Alphabet.ValueFor | main.rs:45-64 | a character's value, when it has one, is below 64 |
| Alphabet.EncodeTable | main.rs:24-43 | the lookup succeeds exactly for six-digit keys; every sextet has a symbol |
| Alphabet.DecodeTable | main.rs:45-64 | the lookup succeeds exactly for the 64 symbols, and each value is six digits long |
| Alphabet.ValidCharsTable | main.rs:66-85 | a code is a key exactly when it is the code of a symbol, and the value is the character with that code |
| Alphabet.SymbolValue | main.rs:24-43 | each of the 64 values has its own symbol, which maps back to that value |
| Alphabet.ValueSymbol | main.rs:45-64 | every character with a value is the symbol of that value |
| Alphabet.ValidCharsMembership | main.rs:66-85 | the membership table holds exactly the codes of the 64 symbols |
| Alphabet.EncodeThenDecode | main.rs:24-64 | decode table after encode table gives back every six-digit string |
| Alphabet.DecodeThenEncode | main.rs:24-64 | encode table after decode table gives back every symbol: the tables are mutual inverses |
| Alphabet.TableBoundaries | main.rs:26-41 | 000000 is 'A', 111111 is '/', and the ranges switch at 'Z'/'a', 'z'/'0' and '9'/'+' |
| Alphabet.TableBitOrder | main.rs:26-27 | keys are read most significant digit first: 000001 is 'B' and 100000 is 'g' |
| Alphabet.SextetSymbol | main.rs:24-43 | the six-digit binary of a value below 64 is the key of that value's symbol |
| Bits.ToBits | main.rs:104 | a value written in `width` binary digits has exactly `width` digits |
| Bits.FromBits | main.rs:200 | the value of a bit string is below 2 to the power of its length |
| Bits.FromToBits | main.rs:104 | the eight binary digits of a byte read back as that byte |
| Bits.ToFromBits | main.rs:200 | an octet's value written out in eight digits gives the octet back |
| Bits.FromBitsInjective | main.rs:200 | two octets with the same value are the same octet |
| Bits.ByteValue | main.rs:104 | the eight digits of a byte have that byte as their value |
| Encoder.ZeroPadded | main.rs:116-118 | the zero-padded string is a multiple of six long, fewer than six bits longer, with the input as prefix |
| Encoder.SymbolPadded | main.rs:138-140 | the '='-padded text is a multiple of four long, fewer than four characters longer, with the symbols as prefix |
| Encoder.Base64Text | main.rs:111-143 | the printed text is a multiple of four long and has at least one character per six input bits |
| Encoder.OctetString | main.rs:100-109 | n bytes give 8n bits |
| Encoder.EncodeStringify | main.rs:100-109 | the loop builds the octet string of the whole input |
| Encoder.OctetStringAt | main.rs:103-106 | bits 8i..8i+7 are the binary of byte i |
| Encoder.ZeroPadding | main.rs:116-118 | the zero-padding makes whole sextets by adding fewer than six bits, all zeros, after the original bits; the result has ceil(l/6) sextets |
| Encoder.PadWithZeros | main.rs:116-118 | the loop's result is the zero-padded string |
| Encoder.SymbolsOf | main.rs:125-135 | one symbol per sextet |
| Encoder.Translate | main.rs:125-135 | the loop emits the translation of every sextet; the table's `None` branch cannot be reached |
| Encoder.SymbolsOfAt | main.rs:126-129 | symbol i is the table's symbol for sextet i |
| Encoder.SymbolPadding | main.rs:138-140 | the '=' padding reaches a multiple of four by adding (4 - k mod 4) mod 4 '=' after the symbols |
| Encoder.PadWithEquals | main.rs:138-140 | the loop's result is the '='-padded text |
| Encoder.Base64Encode | main.rs:111-143 | the caller's string ends zero-padded and the printed text is the Base64 text of the bits |
| Encoder.Encode | main.rs:100-143 | the encoded text is a multiple of four long |
| Encoder.SymbolCount | main.rs:116-135 | n bytes give ceil(8n/6) symbols before padding |
| Encoder.EncodeLength | main.rs:111-143 | n bytes give 4*ceil(n/3) characters, a multiple of four, of which (4 - k mod 4) mod 4, at most two, are '=' |
| Encoder.EncodeSymbols | main.rs:125-140 | the output is the table's symbol for each sextet in order, all in the alphabet, then only '=' |
| Encoder.EncodeEmpty | main.rs:100-143 | empty input gives empty text |
| Encoder.SymbolsSnoc | main.rs:125-130 | one more sextet adds its table symbol at the end of the translation |
| Encoder.SingleByteOctets | main.rs:100-109 | the byte 77 ('M') is written as 01001101 |
| Encoder.SingleByteSymbols | main.rs:125-135 | the sextets 010011 and 010000 translate to "TQ" |
| Encoder.EncodeSingleByte | main.rs:100-143 | the byte 77 ('M') encodes to "TQ==" |
| Encoder.SingleBytePadded | main.rs:116-118 | the eight bits of 'M' zero-padded are the sextets 010011 and 010000 |
| Encoder.SingleBytePadding | main.rs:138-140 | "TQ" padded with '=' is "TQ==" |
| Encoder.FooOctets | main.rs:100-109 | "foo" is the octets of 102, 111 and 111 in order |
| Encoder.FooSymbols | main.rs:125-135 | the sextets 25, 38, 61 and 47 translate to "Zm9v" |
| Encoder.EncodeFoo | main.rs:100-143 | "foo" encodes to "Zm9v", with no '=' |
| Validator.Without | main.rs:147 | `retain` leaves no occurrence of the removed byte and never lengthens the input |
| Validator.WithoutAbsent | main.rs:158 | removing a byte that does not occur changes nothing |
| Validator.WithoutAppend | main.rs:147 | removal works piecewise over a concatenation, keeping order |
| Validator.WithoutInserted | main.rs:147 | removal undoes inserting the removed byte anywhere |
| Validator.WithoutOnly | main.rs:158 | removing '=' from a run of '=' leaves nothing |
| Validator.WithoutKeepsAbsent | main.rs:158 | removal never brings in a byte that was absent |
| Validator.CleaningIdempotent | main.rs:147-158 | the symbols left after both removals hold no newline and no '=', so cleaning them again changes nothing |
| Validator.AllValid | main.rs:161-169 | bytes that all pass the character check contain no newline and no '=' |
| Validator.SextetOf | main.rs:176-179 | a valid byte's sextet is six bits whose value is its symbol's value |
| Validator.SextetOfValue | main.rs:176-179 | a valid byte's sextet is the six-digit binary of its symbol's value |
| Validator.SextetString | main.rs:172-183 | k valid symbols give 6k bits |
| Validator.CheckSymbols | main.rs:161-169 | the loop accepts exactly when every byte is a key of the membership table |
| Validator.ConcatSextets | main.rs:172-185 | the loop builds the concatenated sextets of all symbols |
| Validator.CheckFramed | main.rs:150-158 | a length error exactly when the newline-free text is not a multiple of four long; on success whole sextets, at most six bits per byte |
| Validator.CheckSymbolsOf | main.rs:161-185 | success exactly when every byte is a symbol's code, then six bits per symbol; otherwise a character error |
| Validator.DecodeStringify | main.rs:145-186 | the method returns the length error, the character error or the bit string as the validation function defines them |
| Validator.Validate | main.rs:145-186 | a successful validation gives whole sextets, at most six bits per input byte |
| Validator.ValidateLengthError | main.rs:147-153 | a length error exactly when the input without newlines is not a multiple of four long |
| Validator.ValidateInvalidCharacter | main.rs:158-169 | a character error exactly when the length is right and some byte left after removing newlines and '=' is not a symbol's code |
| Validator.SextetStringAt | main.rs:174-183 | bits 6i..6i+5 are the sextet of symbol i |
| Validator.ValidateSuccess | main.rs:145-186 | on success every remaining byte is a symbol, and the result is 6k bits, sextet i being the binary of symbol i's value |
| Validator.ValidateLengthExample | main.rs:150-153 | "Zm9" gives a length error |
| Validator.ValidateCharacterExample | main.rs:161-169 | "Zm9!" gives a character error |
| Validator.CleanedSingleByte | main.rs:147-158 | removing newlines and '=' from "TQ==" leaves "TQ" |
| Validator.CleanedLengthError | main.rs:147-153 | "TQ" on its own gives a length error |
| Validator.RevalidateCleaned | main.rs:147-158 | "TQ==" cleans to "TQ", and validating "TQ" again gives a length error: validation is not idempotent |
| Decoder.Truncated | main.rs:190-192 | popping leaves a prefix of whole octets, fewer than eight bits shorter |
| Decoder.PopToOctets | main.rs:190-192 | the popping loop leaves the truncated string |
| Decoder.ByteString | main.rs:196-202 | one byte per octet |
| Decoder.ConvertOctets | main.rs:195-202 | the converting loop emits the byte string of the octets |
| Decoder.ByteStringAt | main.rs:197-201 | byte i is the value of bits 8i..8i+7 |
| Decoder.ByteStringSnoc | main.rs:196-201 | one more octet adds its value at the end of the bytes |
| Decoder.Base64Decode | main.rs:188-212 | the caller's string ends truncated and the bytes written are the decoded bytes |
| Decoder.DecodeBits | main.rs:188-202 | m bits give floor(m/8) bytes |
| Decoder.DecodeBitsShape | main.rs:188-202 | m bits give floor(m/8) bytes, byte i being the value of bits 8i..8i+7; the trailing bits are dropped |
| Codec.AsciiBytes | main.rs:142 | the bytes of ASCII text, one per character, each the character's code |
| Codec.Decode | main.rs:145-212 | decoding gives at most three bytes per four input bytes |
| Codec.EncodedParts | main.rs:125-140 | the encoder's text is alphabet symbols followed only by '=', all ASCII |
| Codec.FramedText | main.rs:138-158 | symbols followed by '=' hold no newline, and removing '=' leaves exactly the symbols |
| Codec.EncodedText | main.rs:138-158 | the validator's two removals leave the encoder's symbols untouched and remove all its '=' |
| Codec.SymbolsRoundTrip | main.rs:125-183 | read back as bytes, the encoder's translation passes the character check, and its sextets are the sextet stream it was made from |
| Codec.SymbolsRoundTripStep | main.rs:125-183 | the round trip of the translation keeps holding when one more sextet is added |
| Codec.OctetsRoundTrip | main.rs:100-202 | regrouping the octet string of the input into bytes gives the input back |
| Codec.OctetsRoundTripStep | main.rs:100-202 | the regrouping keeps giving the input back when one more byte is added |
| Codec.TruncatedZeroPadded | main.rs:116-192 | popping to whole octets removes exactly the zero-padding of an octet string |
| Codec.PaddedOctetsDecode | main.rs:100-202 | the decoder's bit-to-byte step inverts the encoder's byte-to-bit step with zero-padding |
| Codec.ValidateEncoded | main.rs:111-186 | the validator maps the encoder's text to the encoder's zero-padded bit string |
| Codec.DecodeValidated | main.rs:188-202 | input that validates to the zero-padded octet string of some data decodes to that data |
| Codec.RoundTrip | main.rs:100-212 | decoding the encoder's text gives back the input, with or without the trailing newline of `println!` |
| Codec.NewlinesIgnored | main.rs:147 | a newline anywhere in the input does not change validation |
| Codec.SingleByteText | main.rs:100-143 | the printed text for the byte 77 is the bytes of "TQ==" |
| Codec.DecodeSingleByte | main.rs:145-212 | the bytes of "TQ==" decode to the single byte 77 |
| Codec.FooText | main.rs:100-143 | the printed text for "foo" is the bytes of "Zm9v" |
| Codec.DecodeFoo | main.rs:145-212 | the bytes of "Zm9v" decode to "foo" |

## Left out

- Reading standard input (`retrieve_input`) is not modelled: the input bytes are a parameter.
- Argument handling and help text (`main`, `check_flag`, `HELP_MSG`) are not modelled.
- The glue in `encode_routine` and `decode_routine` is not modelled. `Codec.Decode` and `Codec.RoundTrip` compose the operations the same way.
- `println!` and `write_all` are return values. `Codec.AsciiBytes` gives the bytes of the printed text. A failed write is not modelled.
- The diagnostics printed before exiting are not modelled. This includes the offending length and the "Couldn't match value" message.
- `process::exit(1)` is a `Failure` result carrying the error kind.
- `HashMap` internals are not modelled: each table is a function with the table's key and value sets.
- The internals of `format!("{:08b}")` and `from_str_radix` are not modelled. They are `Bits.ToBits` and `Bits.FromBits`.
- Typing rules out any digit other than `0` and `1` in a bit string. The `unwrap()` on `from_str_radix` therefore cannot fail, and `FromBits` of eight bits is below 256.
- Each loop of `base64_encode`, `decode_stringify` and `base64_decode` is its own helper method, so each proof stays small. The outer methods call the helpers in the source's order.
- Encoder.Translate: the defensive `None` arm exits in the source. In the model it is a proved-unreachable branch, because the table holds every six-digit key.
- Validator.DecodeStringify: the source's character check stops at the first invalid byte. The model reports the same error kind and does not say which byte.
- Idempotence of validation holds only for the cleaned symbol sequence (`Validator.CleaningIdempotent`). Validating the cleaned symbols again fails when one or two '=' were removed: "TQ==" leaves "TQ", whose length is not a multiple of four (`Validator.RevalidateCleaned`).
- Integer bit shifting is not used. The model follows the program's textual bit strings, one digit per `bool`, not a redesign with shifts and masks.
