# cd_subcode: a Dafny model of the Compact Disc Q-subchannel decoder

This project models the decoder of Compact Disc subcode described by
IEC 60908. It has two layers, and every operation in both is a pure
function.

* **Symbol layer** (`Subcode.dfy`, from `src/subcode.rs`). A subcode
  symbol is one byte. It carries the eight bit-planes P, Q, R, S, T, U, V
  and W, at bit positions 7 down to 0.
  * `get_bit` reads one plane as a boolean.
  * The `Debug` rendering is `SubcodeSymbol(0b` followed by the eight
    binary digits. For a non-zero byte it adds a space and the letters of
    the set planes in P..W order. It ends with `)`.
* **Q-frame layer** (`ChannelQ.dfy`, from `src/channel_q.rs`). A frame is
  exactly 96 symbols, and their Q planes form a 96-bit string read most
  significant bit first.
  * `value(first, len)` reads a big-endian window of up to 32 bits.
  * `value_data_q` reads the same kind of window relative to the 72-bit
    payload at frame bits 8..79.
  * Control is frame bits 0..3, the address is bits 4..7, and the CRC is
    bits 80..95.
  * The address selects one of three payload views:
    * Mode 1: eight two-digit BCD times.
    * Mode 2: a 13-digit catalogue number.
    * Mode 3: an ISRC, made of five six-bit alphabet characters and seven
      BCD digits.

`Bits.dfy` holds the arithmetic both layers share:

* the fixed-width integer types;
* the truncating casts `as u8` and `as u16`, written out as remainders;
* the shift `>>`, written as repeated halving, with a proof that it is
  division by 2^k;
* `BitsOf`, the fixed-width binary representation of a number, and its
  inverse `BigEndian`.

`RoundTrip.dfy` holds the other direction. It has encoders that write a
control nibble, an address, a payload and a CRC into a frame of symbols.
Its proofs show that every decoder reads back exactly what was written.

Panics and `assert!`s in the source become preconditions. Each condition
is modelled exactly as the source checks it, and the panic messages are
not modelled. `value` checks three things:

* `len <= 32`;
* `first < 96`;
* `first + len - 1 < 96`, an index that underflows when `len` is 0 and
  `first` is 0.

`WindowInRange` states these conditions, with the underflow spelled out
as `first + len >= 1`. So a zero-width window at a non-zero offset is
allowed and reads 0, as in the source.

## Model

| member | source | states |
|---|---|---|
| Bits.ZipSumPowers | src/channel_q.rs:71-82 | Summing each Q bit times its descending power of two `1 << (len - 1 - p)` gives the big-endian value of the bits. |
| Bits.ShrIsDiv | src/subcode.rs:33 | The shift `n >> k`, written as k halvings, is division by 2^k. |
| Bits.NibbleSplit | src/channel_q.rs:15-16 | A byte is its high nibble `(x >> 4)` times 16 plus its low nibble `x & 0xF`, and the high nibble is below 16. |
| Bits.BigEndianOfBitsOf | src/channel_q.rs:60-83 | The reading of a window inverts the w-bit representation: any n < 2^w written in w bits reads back as n. |
| Bits.BitsOfBigEndian | src/channel_q.rs:60-83 | The other direction: writing the value of a bit string back at its width gives the bit string. So the reading of a window is injective. |
| Bits.BitsOfAt | src/subcode.rs:33 | Digit i of the w-bit representation of n is `(n >> (w - 1 - i)) & 1`. |
| Bits.AsU8 | src/channel_q.rs:95 | The cast `as u8` leaves values below 256 unchanged. |
| Bits.AsU16 | src/channel_q.rs:111 | The cast `as u16` leaves values below 65536 unchanged. |
| Subcode.BitPosition | src/subcode.rs:22-31 | Each plane has a position below 8, and P..W sit at positions 7 down to 0. |
| Subcode.BitPositionOfPlanes | src/subcode.rs:22-31 | The k-th plane of P..W is at position 7 - k, so the mapping is a bijection onto 0..7. |
| Subcode.SubcodeSymbol.GetBitValue | src/subcode.rs:33 | The 0/1 value of a plane is the digit of the byte's 8-bit representation at the plane's position. |
| Subcode.SubcodeSymbol.GetBit | src/subcode.rs:21-40 | `get_bit` is true exactly when that digit is 1. The panic branch for other values is proved unreachable. |
| Subcode.GetBitAgrees | src/subcode.rs:33-39 | The boolean `get_bit` and the 0/1 `get_bit_value` agree in both directions. |
| Subcode.GetBitByDivision | src/subcode.rs:33-39 | `get_bit(plane)` holds exactly when `(value >> position) & 1 == 1`. |
| Subcode.Reassemble | src/subcode.rs:21-40 | The eight plane values weighted 128, 64, ..., 1 add up to the byte, so the planes partition it. |
| Subcode.SubcodeSymbol.LettersUpToSpec | src/subcode.rs:49-58 | The letters from the first k planes are exactly those of the set planes among them, each within 'P'..'P'+k, in strictly increasing order. |
| Subcode.SetPlaneLettersUnrolled | src/subcode.rs:49-58 | The eight-way concatenation of conditional letters is the letter list built plane by plane. |
| Subcode.SubcodeSymbol.SetPlaneLetters | src/subcode.rs:47-58 | The letter list has at most eight letters; which letters and in what order is `SetPlaneLettersInOrder`. |
| Subcode.SetPlaneLettersInOrder | src/subcode.rs:47-61 | A plane's letter occurs in the letter list exactly when the plane is set, and the list is strictly increasing (each letter once, P..W order). |
| Subcode.ZeroIffNoPlaneSet | src/subcode.rs:45-62 | The byte is zero exactly when no plane is set, and exactly when the letter list is empty. This is the case the source singles out to avoid a stray space. |
| Subcode.PaddedBinary | src/subcode.rs:64-69 | Zero-padding the shortest binary numeral of n to w digits gives the w-bit representation of n, for any n < 2^w. |
| Subcode.AlternateBinaryOfByte | src/subcode.rs:64-69 | `{:#010b}` of a byte is "0b" followed by exactly its eight binary digits, most significant first. |
| Subcode.SubcodeSymbol.DebugString | src/subcode.rs:43-70 | The rendering is "SubcodeSymbol(0b", the eight digits most significant first, then " " and the letters only when the byte is non-zero, then ")". |
| Subcode.BinaryDigitsArePlanes | src/subcode.rs:43-70 | Binary digit k of the rendering is '1' exactly when plane k of P..W is set, and '0' otherwise. |
| Subcode.GetBitOfExtremes | src/subcode.rs:77-96 | No plane of 0b0000_0000 is set, and every plane of 0b1111_1111 is. |
| Subcode.GetBitOfAlternating | src/subcode.rs:98-116 | In 0b1010_1010 exactly P, R, T and V are set. In 0b0101_0101 exactly Q, S, U and W are set. |
| Subcode.DebugStringOfZero | src/subcode.rs:119-124 | Byte 0 renders as "SubcodeSymbol(0b00000000)". |
| Subcode.DebugStringOfAllOnes | src/subcode.rs:126-131 | Byte 0xFF renders as "SubcodeSymbol(0b11111111 PQRSTUVW)". |
| Subcode.DebugStringOfSome | src/subcode.rs:133-138 | Byte 0b1001_0110 renders as "SubcodeSymbol(0b10010110 PSUV)". |
| ChannelQ.BcdDigitToChar | src/channel_q.rs:8-12 | A BCD digit 0..9 becomes a decimal digit character with that value. |
| ChannelQ.BcdDigitToCharRoundTrip | src/channel_q.rs:8-12 | Every decimal digit character is the image of its own value, so `bcd_digit_to_char` is a bijection from 0..9 onto '0'..'9'. |
| ChannelQ.TwoDigitBcdToDecimal | src/channel_q.rs:14-22 | For a byte whose two nibbles are at most 9, the result is below 100 and its BCD encoding is the byte. |
| ChannelQ.DecimalToBcdRoundTrip | src/channel_q.rs:14-22 | Every number below 100 encodes to a valid BCD byte, which decodes back to it. |
| ChannelQ.SixBitCharToChar | src/channel_q.rs:24-30 | A code in 0..9 or 17..42 becomes a character of the alphabet whose code it is. The character is a digit exactly for codes 0..9. |
| ChannelQ.SixBitCodeRoundTrip | src/channel_q.rs:24-30 | Every character of the alphabet has a valid code, which maps back to it. |
| ChannelQ.SixBitAlphabetEnds | src/channel_q.rs:24-30 | The code ranges end at these characters: 0 is '0', 9 is '9', 17 is 'A' and 42 is 'Z'. |
| ChannelQ.BcdDigitsToChars | src/channel_q.rs:184-189 | Mapping `bcd_digit_to_char` over digits gives a string of the same length. Every character of it is a decimal digit with the value of its digit. |
| ChannelQ.SixBitCodesToChars | src/channel_q.rs:203-208 | Mapping `six_bit_char_to_char` over codes gives a string of the same length. Every character of it is in the alphabet, with its code. |
| ChannelQ.NewChannelQ | src/channel_q.rs:49-58 | A frame is built only from exactly 96 symbols, and it keeps them. |
| ChannelQ.ChannelQ.QBitsArePlanes | src/channel_q.rs:77-79 | The Q bit string has one bit per symbol, and bit i is 1 exactly when symbol i has its Q plane set. |
| ChannelQ.ChannelQ.Value | src/channel_q.rs:60-83 | Under the source's window checks, the result is the big-endian value of Q bits first..first+len-1, and it is below 2^len. |
| ChannelQ.ChannelQ.ValueDataQ | src/channel_q.rs:85-92 | Under the payload window checks, the result is the big-endian value of payload bits first..first+len-1, and it is below 2^len. |
| ChannelQ.PayloadWindow | src/channel_q.rs:85-92 | Every valid payload window is a valid frame window lying inside frame bits 8..79, and `value_data_q(first, len)` equals `value(8 + first, len)`. |
| ChannelQ.PayloadIsolation | src/channel_q.rs:85-92 | Payload reads depend only on the payload bits: frames with equal payloads give equal payload values. |
| ChannelQ.ChannelQ.Control | src/channel_q.rs:94-96 | Control is the value of frame bits 0..3, and it is below 16. |
| ChannelQ.ChannelQ.Adr | src/channel_q.rs:98-108 | The address is Mode0..Mode3 exactly when the nibble in bits 4..7 is 0..3, and Unknown exactly when it is 4..15. |
| ChannelQ.ChannelQ.Crc | src/channel_q.rs:110-112 | The CRC is the unvalidated value of frame bits 80..95. |
| ChannelQ.ChannelQ.AsMode1 | src/channel_q.rs:114-120 | The Mode 1 view exists exactly when the address is Mode1. It views this frame. |
| ChannelQ.ChannelQ.AsMode2 | src/channel_q.rs:122-128 | The Mode 2 view exists exactly when the address is Mode2. It views this frame. |
| ChannelQ.ChannelQ.AsMode3 | src/channel_q.rs:130-136 | The Mode 3 view exists exactly when the address is Mode3. It views this frame. |
| ChannelQ.ModeDispatch | src/channel_q.rs:98-136 | At most one mode view exists for a frame, and one exists exactly when the address nibble is 1, 2 or 3. |
| ChannelQ.ChannelQMode1.PayloadByte | src/channel_q.rs:142-172 | `value_data_q(offset, 8) as u8` is the byte in payload bits offset..offset+7. |
| ChannelQ.ChannelQMode1.Tno | src/channel_q.rs:142-144 | The track number is below 100, and its BCD encoding is payload bits 0..7. |
| ChannelQ.ChannelQMode1.Point | src/channel_q.rs:146-148 | The point is below 100, and its BCD encoding is payload bits 8..15. |
| ChannelQ.ChannelQMode1.Min | src/channel_q.rs:150-152 | The minute is below 100, and its BCD encoding is payload bits 16..23. |
| ChannelQ.ChannelQMode1.Sec | src/channel_q.rs:154-156 | The second is below 100, and its BCD encoding is payload bits 24..31. |
| ChannelQ.ChannelQMode1.Frame | src/channel_q.rs:158-160 | The frame number is below 100, and its BCD encoding is payload bits 32..39. |
| ChannelQ.ChannelQMode1.APMin | src/channel_q.rs:162-164 | The absolute minute is below 100, and its BCD encoding is payload bits 48..55. |
| ChannelQ.ChannelQMode1.APSec | src/channel_q.rs:166-168 | The absolute second is below 100, and its BCD encoding is payload bits 56..63. |
| ChannelQ.ChannelQMode1.APFrame | src/channel_q.rs:170-172 | The absolute frame is below 100, and its BCD encoding is payload bits 64..71. |
| ChannelQ.ChannelQMode2.FieldN | src/channel_q.rs:178-182 | Field N (1..13) is the 4-bit value of payload bits (N-1)*4..N*4-1. |
| ChannelQ.ChannelQMode2.CatalogueNumber | src/channel_q.rs:184-189 | When every field is a BCD digit, the catalogue number has 13 characters. Character k is a decimal digit whose value is field k+1. |
| ChannelQ.IsrcFieldOffset | src/channel_q.rs:195-201 | The fields lie back to back, with a 2-bit gap before field 6. In closed form, field i starts at (i-1)*6 for i <= 5 and at 32+(i-6)*4 for i >= 6, the offsets `field_i` uses. |
| ChannelQ.IsrcLayout | src/channel_q.rs:195-201 | The twelve fields do not overlap and end by payload bit 59, inside the 72-bit payload. Fields 1..5 occupy bits 0..29 and fields 6..12 occupy bits 32..59. |
| ChannelQ.ChannelQMode3.FieldI | src/channel_q.rs:195-201 | Field i (1..12) is the value of its layout slice of the payload, below 2^width (64 for characters, 16 for digits). |
| ChannelQ.ChannelQMode3.CountryCode | src/channel_q.rs:203-208 | The country code has 2 characters of the alphabet, whose codes are fields 1 and 2. |
| ChannelQ.ChannelQMode3.OwnerCode | src/channel_q.rs:210-215 | The owner code has 3 characters of the alphabet, whose codes are fields 3..5. |
| ChannelQ.ChannelQMode3.Year | src/channel_q.rs:217-222 | The year has 2 decimal digits, whose values are fields 6 and 7. |
| ChannelQ.ChannelQMode3.SerialNumber | src/channel_q.rs:224-229 | The serial number has 5 decimal digits, whose values are fields 8..12. |
| ChannelQ.ChannelQMode3.Isrc | src/channel_q.rs:231-239 | The ISRC has 12 = 2+3+2+5 characters. Characters 0..4 are alphabet characters coding fields 1..5, and characters 5..11 are digits of fields 6..12. |
| RoundTrip.QSymbol | src/channel_q.rs:79 | The symbol written for a Q bit carries that bit in its Q plane. |
| RoundTrip.FrameOfQBits | src/channel_q.rs:74-82 | The frame built from 96 bits is valid, and its Q bit string is those bits. |
| RoundTrip.HeaderRoundTrip | src/channel_q.rs:94-112 | Control, payload and CRC written into a frame are read back unchanged. The address written gives the matching mode, and any value 4..15 gives Unknown. |
| RoundTrip.Mode1RoundTrip | src/channel_q.rs:141-173 | Nine two-digit numbers are written as BCD bytes in a Mode 1 frame. Every accessor reads a valid BCD byte and returns the number written at its offset. The reserved byte 5 is read by none of them. |
| RoundTrip.Mode2Decodes | src/channel_q.rs:177-190 | A Mode 2 view whose payload holds 13 encoded digits decodes them as its catalogue number. |
| RoundTrip.Mode2RoundTrip | src/channel_q.rs:177-190 | A catalogue number written into a Mode 2 frame is read back unchanged. |
| RoundTrip.Mode3Decodes | src/channel_q.rs:194-240 | A Mode 3 view whose payload holds an encoded ISRC decodes it, and its country code, owner code, year and serial number are the four slices of it. |
| RoundTrip.Mode3RoundTrip | src/channel_q.rs:194-240 | An ISRC written into a Mode 3 frame is read back unchanged, with its four parts. |
| RoundTrip.Mode3Example | src/channel_q.rs:231-239 | A Mode 3 frame carrying "ABCDE9912345" decodes to country code "AB", owner code "CDE", year "99", serial number "12345", and that ISRC. |

## Left out

- `src/main.rs` is not part of this model. It is a demo loop that prints symbols, I/O only.
- The mechanics of `fmt::Formatter` and `write!` are not modelled. `Debug::fmt` becomes `DebugString`, a function returning the rendered string.
- Panic message texts are not modelled. Only the conditions that panic are kept, each as a precondition.
- Rust lifetimes and borrowing are not modelled. A mode view is a datatype that holds the frame value, and its `Valid()` records that only `as_modeN` builds it.
- CRC validation is not modelled, because the source only extracts the 16 CRC bits.
- Mode 0 and Mode 4 payloads are not modelled, because the source decodes neither. Mode 4 and every other address value are `Unknown`.
- `get_bit_value` is called at `src/channel_q.rs:79`, but `src/subcode.rs` does not define it. `GetBitValue` models it as `(value >> position) & 1`, the value `get_bit` matches on, and `GetBitAgrees` proves the two agree.
- Fixed-width arithmetic is modelled with unbounded integers and stated bounds. `value` has no overflow to model: at most 32 one-bit terms, each below 2^32, sum below 2^32.
- Mode 3 layout: the ISRC fields 6..12 are seven 4-bit fields at payload offset 32 + (i-6)*4. They occupy payload bits 32..59, and payload bits 60..71 are never read. The model follows `field_i`, and `IsrcLayout` proves this layout.
- Window precondition: `value` and `value_data_q` are modelled with the source's own checks, including the unsigned `first + len - 1`. The model does not require the stricter `len >= 1`, because the source accepts a zero-width window at a non-zero offset and returns 0 for it.
