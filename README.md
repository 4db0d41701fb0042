# TON address codec in Dafny

This project models the TON address converter in `src/utils/tonAddressConverter.ts`. The converter translates an account address between two textual forms.

- The raw form is `<workchain>:<64 hex digits>`.
- The user-friendly form has 48 characters. It is the unpadded, URL-safe Base64 encoding of a 36-byte payload `[tag][flag 0x00][32-byte account hash][CRC-16 of the first 34 bytes]`.

The modules follow the structure of the program:

- `Bytes` (`bytes.dfy`) holds buffer bytes (integers 0..255) and Node's clamping `Buffer.slice`.
- `JsString` (`jsstring.dfy`) models `split`, global single-character `replace` and the trailing-`=` strip.
- `Crc16` (`crc16.dfy`) models the checksum. The literal nested-loop method `Crc16.Crc16` is proved to compute the function `Checksum`. The register is a `bv32`, like the JavaScript 32-bit bitwise operators it models.
- `Base64` (`base64.dfy`) is Base64 per section 4 of RFC 4648, as total functions. Decoding returns `None` on malformed input. Both round trips are proved.
- `Hex` (`hex.dfy`) is base16 per section 8 of RFC 4648. Encoding is lower-case; decoding accepts either case.
- `TonAddress` (`ton_address.dfy`) contains:
  - the two validators;
  - the payload layout;
  - both conversion directions, with `userFriendlyToRaw` as a method whose padding loop is proved against the function `RawFromUserFriendly`;
  - the `convertAddress` dispatcher;
  - the `simplifiedConversion` wrapper;
  - the round-trip lemmas.
- `StrictDecoder` (`strict_decoder.dfy`) is NOT the source's behaviour. It is a separate, stricter decoder that rejects unknown tags and wrong checksums. It is proved to agree with `userFriendlyToRaw` wherever it succeeds, and to catch every single-byte corruption of an encoder-produced payload.
- `Wrappers` (`wrappers.dfy`) holds `Option` and `Result`. A failed conversion is `None`, the source's `null`.

Where the code departs from the usual description of the TON address format, the model follows the code:

- **Initial CRC value.** The CRC register starts at 0xFFFF (line 116). Starting from 0xFFFF makes this CRC-16/CCITT-FALSE, not CRC-16/XMODEM, which starts at 0.
- **Decoding checks.** `userFriendlyToRaw` checks neither the tag nor the checksum nor the flag.
  - Every byte 0 other than 0x51 decodes to workchain `-1`.
  - A decoder that checks the tag and the checksum exists only in `StrictDecoder`.
- **Workchain digit.** The raw validator admits any single decimal digit as the workchain, with or without `-` (e.g. `2:` followed by 64 hex digits). Every workchain text other than `0` is encoded with tag 0x71.
- **Payload header.** In the usual TON user-friendly format, byte 0 is a flags byte (0x11 bounceable, 0x51 non-bounceable, plus 0x80 for test-network addresses) and byte 1 is the signed workchain id (0x00 for `0`, 0xFF for `-1`). This code instead puts the workchain in byte 0 (0x51 for `0`, 0x71 otherwise; lines 53 and 60) and always writes 0 in byte 1 (lines 54 and 61). A `-1` address is therefore written with workchain byte 0x00 and a byte 0 (0x71) outside the usual flag values.
- **No error taxonomy.** Failures are `null` and carry no error kind.

## Model

| member | source | states |
|---|---|---|
| Bytes.Slice | src/utils/tonAddressConverter.ts:100 | `buffer.slice(2, 34)` clamps both ends to the buffer: its length is `min(34, n) - 2` for a buffer of `n >= 2` bytes and 0 otherwise; it is exactly bytes 2..34 when the buffer is long enough; every byte it returns is the buffer byte at the same offset |
| JsString.Split | src/utils/tonAddressConverter.ts:46 | the pieces of `split(':')`, joined with `:`, give back the address; no piece contains `:`; there is at least one piece |
| JsString.ReplaceAll | src/utils/tonAddressConverter.ts:68 | a global one-character `replace` keeps the length, turns every occurrence of the searched character into the replacement, and leaves every other character where it was |
| JsString.StripTrailing | src/utils/tonAddressConverter.ts:71 | `replace(/=+$/, '')` returns a prefix of its input; everything it removed is `=`; the result does not end in `=` |
| Crc16.BitStep | src/utils/tonAddressConverter.ts:122-126 | the register stays within 0..0xFFFF after every bit step |
| Crc16.Load | src/utils/tonAddressConverter.ts:120 | `crc ^= data[i] << 8` keeps a 16-bit register 16-bit and leaves its low byte unchanged |
| Crc16.BitSteps | src/utils/tonAddressConverter.ts:121-127 | after the inner loop has run at least once the register is within 0..0xFFFF, and a 16-bit register stays 16-bit for any number of steps |
| Crc16.BitStepsInjective | src/utils/tonAddressConverter.ts:121-127 | the inner loop loses no information: distinct 16-bit registers stay distinct after any number of bit steps |
| Crc16.ShiftIn | src/utils/tonAddressConverter.ts:119-127 | one pass of the outer loop leaves a register within 0..0xFFFF |
| Crc16.ShiftInInjectiveInByte | src/utils/tonAddressConverter.ts:119-127 | from the same 16-bit register, two different bytes leave different registers |
| Crc16.ShiftInInjectiveInRegister | src/utils/tonAddressConverter.ts:119-127 | the same byte, shifted into two different 16-bit registers, leaves different registers |
| Crc16.RegisterAppend | src/utils/tonAddressConverter.ts:119-128 | consuming one more byte is one more pass of the outer loop over the register left by the preceding bytes |
| Crc16.Register | src/utils/tonAddressConverter.ts:116-128 | the register stays within 0..0xFFFF after every byte |
| Crc16.Checksum | src/utils/tonAddressConverter.ts:130 | the checksum is exactly two bytes, the big-endian form `[crc >> 8, crc & 0xFF]` of the final register; empty input gives `[0xFF, 0xFF]` |
| Crc16.Crc16 | src/utils/tonAddressConverter.ts:115-131 | the nested byte and bit loops over a mutable register compute `Checksum(data)` |
| Crc16.BigEndian | src/utils/tonAddressConverter.ts:130 | the two output bytes `[crc >> 8, crc & 0xFF]` are the big-endian digits of the 16-bit register |
| Crc16.BytesDistinguishRegisters | src/utils/tonAddressConverter.ts:130 | distinct 16-bit registers give distinct output byte pairs |
| Crc16.BitStepInjective | src/utils/tonAddressConverter.ts:121-127 | distinct 16-bit registers stay distinct after a bit step |
| Crc16.RegisterDetectsByteChange | src/utils/tonAddressConverter.ts:119-128 | two equal-length inputs that differ in exactly one byte leave different final registers |
| Crc16.CheckValue | src/utils/tonAddressConverter.ts:115-131 | the checksum of the ASCII text `123456789` is `[0x29, 0xB1]`, the published check value of CRC-16/CCITT-FALSE (XMODEM's would be 0x31C3) |
| Crc16.ChecksumDetectsByteChange | src/utils/tonAddressConverter.ts:115-131 | two equal-length inputs that differ in exactly one byte have different checksums |
| Base64.CharOf | src/utils/tonAddressConverter.ts:67 | each 6-bit value has a character of the standard alphabet, and `IndexOf` maps that character back to the value |
| Base64.Encode | src/utils/tonAddressConverter.ts:67 | `toString('base64')` has 4·⌈n/3⌉ characters; the significant ones are standard-alphabet characters, and only `=` follows them |
| Base64.EncodeOneByteVector | src/utils/tonAddressConverter.ts:67 | `f` encodes to `Zg==`, the test vector of section 10 of RFC 4648 |
| Base64.EncodeTwoByteVector | src/utils/tonAddressConverter.ts:67 | `fo` encodes to `Zm8=`, the test vector of section 10 of RFC 4648 |
| Base64.EncodeThreeByteVector | src/utils/tonAddressConverter.ts:67 | `foo` encodes to `Zm9v`, the test vector of section 10 of RFC 4648 |
| Base64.Decode | src/utils/tonAddressConverter.ts:95 | decoding never yields more than 3 bytes per 4 characters; it succeeds, with exactly 3 bytes per group, on every string of whole groups of standard characters |
| Base64.DecodeEncode | src/utils/tonAddressConverter.ts:67-95 | decoding the encoding of any byte string gives the bytes back |
| Base64.EncodeDecode | src/utils/tonAddressConverter.ts:67-95 | a string of whole groups of standard characters decodes, and re-encoding gives the string back |
| Hex.Encode | src/utils/tonAddressConverter.ts:103 | `toString('hex')` has two lower-case hexadecimal digits per byte |
| Hex.Decode | src/utils/tonAddressConverter.ts:49 | decoding succeeds exactly on strings of even length made of hexadecimal digits of either case, and then yields one byte per two digits |
| Hex.DecodeEncode | src/utils/tonAddressConverter.ts:49-103 | decoding the hex form of any bytes gives them back |
| Hex.LowerChar | src/utils/tonAddressConverter.ts:49 | the lower-case form of a hexadecimal digit has the same value, and a lower-case digit is its own lower-case form |
| Hex.Lowercase | src/utils/tonAddressConverter.ts:49 | lower-casing a hex string keeps its length and every digit's value, and leaves a lower-case string unchanged |
| Hex.EncodeDecode | src/utils/tonAddressConverter.ts:49-103 | every even-length hex string, of either case, decodes, and re-encoding gives back its lower-case form (for a lower-case string, the string itself) |
| Hex.DecodeIgnoresCase | src/utils/tonAddressConverter.ts:49 | `Buffer.from(hex, 'hex')` decodes upper-case digits exactly as it decodes their lower-case forms |
| Hex.DecodeFoobarVector | src/utils/tonAddressConverter.ts:49 | the upper-case digits `666F6F626172` decode to the bytes of `foobar`, the base16 test vector of section 10 of RFC 4648 (high nibble first) |
| Hex.EncodeFoobarVector | src/utils/tonAddressConverter.ts:103 | the bytes of `foobar` encode to `666f6f626172`, the same vector written lower-case |
| TonAddress.IsValidRawAddress | src/utils/tonAddressConverter.ts:136-140 | an accepted raw address has 66 or 67 characters, a `:` 65 characters from the end, and 64 hexadecimal digits after it |
| TonAddress.IsValidUserFriendlyAddress | src/utils/tonAddressConverter.ts:145-149 | an accepted user-friendly address contains none of `+`, `/` and `=` |
| TonAddress.RawAddressParts | src/utils/tonAddressConverter.ts:136-140 | the raw validator accepts exactly the strings that `split(':')` cuts into two pieces: an optional `-` with one decimal digit, then 64 hex digits; accepted strings have 66 or 67 characters |
| TonAddress.CanonicalRawAddressParts | src/utils/tonAddressConverter.ts:99-105 | the decoder's output shape (`0:` or `-1:` followed by 64 lower-case hex digits) passes the raw validator and splits into those two parts |
| TonAddress.UserFriendlyGrammar | src/utils/tonAddressConverter.ts:145-149 | the user-friendly validator accepts exactly the encodings of 36-byte payloads; an accepted string contains no `+`, `/` or `=` |
| TonAddress.Tag | src/utils/tonAddressConverter.ts:53-60 | the tag byte is 0x51 exactly when the workchain text is `0`, and 0x71 otherwise |
| TonAddress.BuildPayload | src/utils/tonAddressConverter.ts:52-64 | the payload is the hash plus four bytes (tag, flag and two checksum bytes) |
| TonAddress.Repad | src/utils/tonAddressConverter.ts:90-92 | padding extends the string only with `=`, by exactly the number of characters its last group lacks (fewer than four), so the result is whole four-character groups |
| TonAddress.Pad | src/utils/tonAddressConverter.ts:90-92 | the `while` loop appending `=` computes `Repad` |
| TonAddress.ToUrlSafe | src/utils/tonAddressConverter.ts:68 | the two replacements keep the length, turn every `+` into `-` and every `/` into `_` (the alphabet of section 5 of RFC 4648), and keep every other character |
| TonAddress.FromUrlSafe | src/utils/tonAddressConverter.ts:89 | the two replacements keep the length, turn every `-` into `+` and every `_` into `/`, and keep every other character |
| TonAddress.UrlSafeOfStandard | src/utils/tonAddressConverter.ts:68 | the `+`→`-`, `/`→`_` replacement turns a standard-alphabet string into a URL-safe one, and the reverse replacement undoes it |
| TonAddress.StandardOfUrlSafe | src/utils/tonAddressConverter.ts:89 | the `-`→`+`, `_`→`/` replacement turns a URL-safe string into a standard-alphabet one, and the forward replacement undoes it |
| TonAddress.EncodePayload | src/utils/tonAddressConverter.ts:67-71 | encoding, the URL-safe replacement and the padding strip turn every 36-byte payload into a string the user-friendly validator accepts |
| TonAddress.PayloadOf | src/utils/tonAddressConverter.ts:89-95 | for every address the user-friendly validator accepts, replacement, padding and decoding succeed and give exactly 36 bytes |
| TonAddress.EncodingOfPayload | src/utils/tonAddressConverter.ts:67 | a 36-byte payload encodes to 48 standard characters with no padding |
| TonAddress.PayloadOfEncodePayload | src/utils/tonAddressConverter.ts:67-95 | encoding any 36-byte payload gives a valid user-friendly address, and decoding that address gives the payload back |
| TonAddress.UrlSafeAddressUnpadded | src/utils/tonAddressConverter.ts:89-92 | a valid user-friendly address, mapped back to the standard alphabet, is whole Base64 groups: the padding loop adds nothing, and the forward replacement restores the address |
| TonAddress.EncodePayloadOfPayloadOf | src/utils/tonAddressConverter.ts:89-95 | for a valid user-friendly address the padding loop adds nothing, the decoded payload has 36 bytes, and re-encoding it gives the address back |
| TonAddress.RawToUserFriendly | src/utils/tonAddressConverter.ts:38-76 | `rawToUserFriendly` returns null exactly when the raw validator fails, and otherwise a valid user-friendly address |
| TonAddress.RawToUserFriendlyLayout | src/utils/tonAddressConverter.ts:46-64 | the encoded payload is 36 bytes: byte 0 is 0x51 exactly when the workchain text is `0` (else 0x71); byte 1 is 0; bytes 2..34 are the hex-decoded hash; bytes 34..36 are the CRC-16 of bytes 0..34 |
| TonAddress.RawOfBuffer | src/utils/tonAddressConverter.ts:98-105 | the raw text starts with `0` exactly when byte 0 exists and is 0x51; a decoded buffer of at least 34 bytes gives `0:` or `-1:` followed by 64 lower-case hex digits |
| TonAddress.RawFromUserFriendly | src/utils/tonAddressConverter.ts:81-110 | `userFriendlyToRaw` returns null exactly when the user-friendly validator fails; otherwise it returns `0:` or `-1:` followed by 64 lower-case hex digits, which passes the raw validator |
| TonAddress.UserFriendlyToRaw | src/utils/tonAddressConverter.ts:81-110 | the statement-by-statement decoder, padding loop included, returns what `RawFromUserFriendly` specifies |
| TonAddress.DecodeIgnoresFlagAndChecksum | src/utils/tonAddressConverter.ts:98-103 | payloads that agree on whether byte 0 is 0x51 and on bytes 2..34 decode to the same raw address, whatever their flag and checksum bytes |
| TonAddress.SplitRawOfBuffer | src/utils/tonAddressConverter.ts:98-105 | the decoder's output for a buffer of at least 34 bytes splits at `:` into `0` (byte 0 is 0x51) or `-1` (otherwise) and the hex form of bytes 2..34 |
| TonAddress.RebuildWellFormed | src/utils/tonAddressConverter.ts:52-64 | a payload with tag 0x51 or 0x71, flag 0 and a correct checksum is exactly what the encoder builds from the workchain its tag stands for and its hash |
| TonAddress.RoundTripRaw | src/utils/tonAddressConverter.ts:38-110 | a raw address with workchain `0` or `-1` and lower-case hex converts to user-friendly and back to itself |
| TonAddress.RoundTripUserFriendly | src/utils/tonAddressConverter.ts:38-110 | a user-friendly address whose payload has tag 0x51 or 0x71, flag 0 and a correct checksum converts to raw and back to itself |
| TonAddress.ConvertAddress | src/utils/tonAddressConverter.ts:6-33 | with equal forms the address is returned unchanged; otherwise the result is null exactly when the input fails its own form's validator, and is otherwise valid in the target form; raw to user-friendly is exactly `rawToUserFriendly`, user-friendly to raw exactly `userFriendlyToRaw` |
| TonAddress.OrPlaceholder | src/utils/tonAddressConverter.ts:164-175 | `result || placeholder` is never empty: a null result gives the placeholder, and a non-empty result is returned unchanged |
| TonAddress.SimplifiedRawToUserFriendly | src/utils/tonAddressConverter.ts:156-165 | the sample raw address gives the sample user-friendly one; any other input gives the placeholder exactly when it is not a valid raw address, and otherwise `rawToUserFriendly`'s result, a valid user-friendly address (never null) |
| TonAddress.SimplifiedUserFriendlyToRaw | src/utils/tonAddressConverter.ts:167-176 | the sample user-friendly address gives the sample raw one; any other input gives the placeholder exactly when it is not a valid user-friendly address, and otherwise `userFriendlyToRaw`'s result, `0:`/`-1:` followed by 64 lower-case hex digits (never null) |
| StrictDecoder.Decode | src/utils/tonAddressConverter.ts:95-105 | the stricter decoder succeeds exactly on valid addresses whose payload has tag 0x51 or 0x71 and a correct checksum, and then agrees with `userFriendlyToRaw`; it reports a format error exactly for invalid strings, an unknown tag exactly when a valid address's byte 0 is neither 0x51 nor 0x71, a checksum mismatch exactly when the tag is known and bytes 34..36 are not the CRC-16 of bytes 0..34, and never an encoding error |
| StrictDecoder.DecodeEncoded | src/utils/tonAddressConverter.ts:38-76 | every raw address with workchain `0` or `-1` and lower-case hex passes the stricter decoder after encoding, and comes back unchanged |
| StrictDecoder.DetectsSingleByteCorruption | src/utils/tonAddressConverter.ts:52-64 | changing any one byte of an encoder-produced payload makes the stricter decoder fail with an unknown tag or a checksum mismatch |

## Left out

- The React components, layout, theming, clipboard and timers around the codec are presentation only and are not part of this model.
- `console.error` logging and the `try`/`catch` plumbing are not modelled. Every failure is `None`, the source's `null`.
- Node's `Buffer` is replaced by the RFC 4648 definitions in `Base64` and `Hex`. Node's lenient decoding of malformed input is not modelled: it skips stray characters and stops at an odd hex digit. The codec only decodes after its validators pass, and on those inputs the strict decoders provably succeed (`TonAddress.RawToUserFriendly`, `TonAddress.EncodePayloadOfPayloadOf`).
- JavaScript strings are UTF-16 code-unit sequences; here they are `seq<char>`. Both validators reject every non-ASCII character, so nothing after validation depends on the difference.
- JsString.Split: only a one-character separator is modelled, the only kind the codec uses.
- TonAddress.SimplifiedRawToUserFriendly: the sample pair is answered by the literal special case. The model does not state whether the general encoder would reproduce the sample. Its checksum would come from the 0xFFFF-initialised CRC, and the sample's carried checksum need not match it.
- The bounceable and test-network flag variants have no code path in the source and are not modelled.
