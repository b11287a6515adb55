/** Encoders that write Q-channel fields into a frame, and the proofs that
    the decoders of the ChannelQ module read back exactly what was written:
    the header fields, the Mode 1 times, the Mode 2 catalogue number and the
    Mode 3 ISRC. */
module RoundTrip {
  import opened Bits
  import opened Subcode
  import opened ChannelQ

  /** A symbol whose Q plane carries `bit` and whose other planes are
      clear. */
  function QSymbol(bit: Bit): (s: SubcodeSymbol)
    ensures s.GetBitValue(Q) == bit
  {
    var s := SubcodeSymbol(if bit == 1 then 0x40 else 0);
    ShrIsDiv(s.value, 6);
    s
  }

  /** The frame whose Q plane carries `bits`. */
  function FrameOfQBits(bits: seq<Bit>): (q: ChannelQ)
    requires |bits| == ChannelQLenSymbols
    ensures q.Valid() && q.QBits() == bits
  {
    ChannelQ(seq(|bits|, i requires 0 <= i < |bits| => QSymbol(bits[i])))
  }

  /** The Q bits of a frame: control nibble, address nibble, 72-bit payload
      and 16-bit CRC, each most significant bit first. */
  function QBitsOf(control: nat, adr: nat, payload: seq<Bit>, crc: nat): seq<Bit>
  {
    BitsOf(control, 4) + BitsOf(adr, 4) + payload + BitsOf(crc, 16)
  }

  /** Bit strings laid end to end. */
  function Flatten(blocks: seq<seq<Bit>>): seq<Bit>
  {
    if blocks == [] then [] else blocks[0] + Flatten(blocks[1..])
  }

  /** A run of n blocks of width w is w * n bits long. */
  lemma {:induction false} FlattenLength(blocks: seq<seq<Bit>>, w: nat)
    requires forall j :: 0 <= j < |blocks| ==> |blocks[j]| == w
    ensures |Flatten(blocks)| == w * |blocks|
  {
    if blocks != [] {
      FlattenLength(blocks[1..], w);
      assert w * |blocks| == w + w * (|blocks| - 1);
    }
  }

  /** In a run of blocks of width w, block k occupies bits k*w .. k*w + w. */
  lemma {:induction false} FlattenSlice(blocks: seq<seq<Bit>>, w: nat, k: nat)
    requires forall j :: 0 <= j < |blocks| ==> |blocks[j]| == w
    requires k < |blocks|
    ensures |Flatten(blocks)| == w * |blocks|
    ensures k * w + w <= |Flatten(blocks)|
    ensures Flatten(blocks)[k * w .. k * w + w] == blocks[k]
  {
    var rest := blocks[1..];
    FlattenLength(blocks, w);
    FlattenLength(rest, w);
    var f := Flatten(blocks);
    assert f == blocks[0] + Flatten(rest);
    MulMonotone(k + 1, |blocks|, w);
    if k == 0 {
      assert f[..w] == blocks[0];
    } else {
      FlattenSlice(rest, w, k - 1);
      var lo := (k - 1) * w;
      assert k * w == lo + w;
      assert f[lo + w .. lo + w + w] == Flatten(rest)[lo .. lo + w];
    }
  }

  /** The control, address, payload and CRC written by QBitsOf are the
      ones the frame decoders read back. */
  lemma {:induction false} HeaderRoundTrip(control: nat, adr: nat, payload: seq<Bit>, crc: nat)
    requires control < 16 && adr < 16 && |payload| == DataQLenSymbols && crc < 0x1_0000
    ensures |QBitsOf(control, adr, payload, crc)| == ChannelQLenSymbols
    ensures var q := FrameOfQBits(QBitsOf(control, adr, payload, crc));
      && q.Control() == control
      && q.Crc() == crc
      && q.DataQBits() == payload
      && (q.Adr() == Mode0 <==> adr == 0)
      && (q.Adr() == Mode1 <==> adr == 1)
      && (q.Adr() == Mode2 <==> adr == 2)
      && (q.Adr() == Mode3 <==> adr == 3)
      && (q.Adr() == Unknown <==> adr >= 4)
  {
    var bits := QBitsOf(control, adr, payload, crc);
    assert bits[..4] == BitsOf(control, 4);
    assert bits[4..8] == BitsOf(adr, 4);
    assert bits[8..80] == payload;
    assert bits[80..96] == BitsOf(crc, 16);
    Pow2Widths();
    BigEndianOfBitsOf(control, 4);
    BigEndianOfBitsOf(adr, 4);
    BigEndianOfBitsOf(crc, 16);
  }

  // ---------------------------------------------------------------------
  // Mode 1

  /** The Mode 1 payload of nine two-digit numbers, one BCD byte each: track,
      point, minute, second, frame, the reserved byte, and the absolute
      minute, second and frame. */
  function Mode1Payload(times: seq<nat>): seq<Bit>
    requires |times| == 9 && forall k :: 0 <= k < 9 ==> times[k] < 100
  {
    Flatten(seq(9, k requires 0 <= k < 9 => BitsOf(DecimalToBcd(times[k]), 8)))
  }

  /** The payload byte at byte k of a Mode 1 payload is the BCD encoding
      of times[k]. */
  lemma Mode1PayloadByte(times: seq<nat>, k: nat)
    requires |times| == 9 && forall j :: 0 <= j < 9 ==> times[j] < 100
    requires k < 9
    ensures |Mode1Payload(times)| == DataQLenSymbols
    ensures BigEndian(Mode1Payload(times)[8 * k .. 8 * k + 8]) == DecimalToBcd(times[k])
  {
    var blocks := seq(9, j requires 0 <= j < 9 => BitsOf(DecimalToBcd(times[j]), 8));
    FlattenSlice(blocks, 8, k);
    Pow2Widths();
    BigEndianOfBitsOf(DecimalToBcd(times[k]), 8);
  }

  /** Payload byte k of a Mode 1 frame built from `times` is the BCD
      encoding of times[k]. */
  lemma Mode1FrameByte(control: nat, times: seq<nat>, crc: nat, k: nat)
    requires control < 16 && crc < 0x1_0000
    requires |times| == 9 && forall j :: 0 <= j < 9 ==> times[j] < 100
    requires k < 9
    ensures |Mode1Payload(times)| == DataQLenSymbols
    ensures var q := FrameOfQBits(QBitsOf(control, 1, Mode1Payload(times), crc));
      && q.AsMode1().Some?
      && q.AsMode1().value.PayloadByte(8 * k) == DecimalToBcd(times[k])
      && IsBcdByte(DecimalToBcd(times[k]))
      && TwoDigitBcdToDecimal(DecimalToBcd(times[k])) == times[k]
  {
    Mode1PayloadByte(times, k);
    HeaderRoundTrip(control, 1, Mode1Payload(times), crc);
    DecimalToBcdRoundTrip(times[k]);
  }

  /** Decoding a Mode 1 frame gives back the eight times that were
      written; the reserved byte is never read. */
  lemma Mode1RoundTrip(control: nat, times: seq<nat>, crc: nat)
    requires control < 16 && crc < 0x1_0000
    requires |times| == 9 && forall k :: 0 <= k < 9 ==> times[k] < 100
    ensures |Mode1Payload(times)| == DataQLenSymbols
    ensures var q := FrameOfQBits(QBitsOf(control, 1, Mode1Payload(times), crc));
      && q.AsMode1().Some?
      && var v := q.AsMode1().value;
      && IsBcdByte(v.PayloadByte(0)) && v.Tno() == times[0]
      && IsBcdByte(v.PayloadByte(8)) && v.Point() == times[1]
      && IsBcdByte(v.PayloadByte(16)) && v.Min() == times[2]
      && IsBcdByte(v.PayloadByte(24)) && v.Sec() == times[3]
      && IsBcdByte(v.PayloadByte(32)) && v.Frame() == times[4]
      && IsBcdByte(v.PayloadByte(48)) && v.APMin() == times[6]
      && IsBcdByte(v.PayloadByte(56)) && v.APSec() == times[7]
      && IsBcdByte(v.PayloadByte(64)) && v.APFrame() == times[8]
  {
    Mode1FrameByte(control, times, crc, 0);
    Mode1FrameByte(control, times, crc, 1);
    Mode1FrameByte(control, times, crc, 2);
    Mode1FrameByte(control, times, crc, 3);
    Mode1FrameByte(control, times, crc, 4);
    Mode1FrameByte(control, times, crc, 6);
    Mode1FrameByte(control, times, crc, 7);
    Mode1FrameByte(control, times, crc, 8);
  }

  // ---------------------------------------------------------------------
  // Mode 2

  /** A string of decimal digits. */
  predicate AllDigits(s: string)
  {
    forall k :: 0 <= k < |s| ==> IsDecimalDigit(s[k])
  }

  /** The 4-bit BCD blocks of a string of digits. */
  function DigitBlocks(s: string): (blocks: seq<seq<Bit>>)
    requires AllDigits(s)
    ensures |blocks| == |s| && forall j :: 0 <= j < |s| ==> |blocks[j]| == 4
  {
    seq(|s|, k requires 0 <= k < |s| => BitsOf(DigitValue(s[k]), 4))
  }

  /** The Mode 2 payload of a 13-digit catalogue number: 13 BCD digits,
      then 20 zero bits. */
  function Mode2Payload(catalogue: string): seq<Bit>
    requires |catalogue| == 13 && AllDigits(catalogue)
  {
    Flatten(DigitBlocks(catalogue)) + seq(20, _ => 0)
  }

  /** Two digit characters with the same value are the same character. */
  lemma DigitValueInjective(a: char, b: char)
    requires IsDecimalDigit(a) && IsDecimalDigit(b) && DigitValue(a) == DigitValue(b)
    ensures a == b
  {
  }

  /** Field N of a view whose payload holds an encoded catalogue number is
      the value of digit N. */
  lemma Mode2Field(v: ChannelQMode2, catalogue: string, n: nat)
    requires |catalogue| == 13 && AllDigits(catalogue)
    requires v.q.Valid() && v.q.DataQBits() == Mode2Payload(catalogue)
    requires 1 <= n <= 13
    ensures v.FieldN(n) == DigitValue(catalogue[n - 1])
  {
    var blocks := DigitBlocks(catalogue);
    FlattenSlice(blocks, 4, n - 1);
    assert Mode2Payload(catalogue)[(n - 1) * 4 .. n * 4] == blocks[n - 1];
    Pow2Widths();
    BigEndianOfBitsOf(DigitValue(catalogue[n - 1]), 4);
  }

  /** A Mode 2 view whose payload holds an encoded catalogue number decodes
      it. */
  lemma Mode2Decodes(v: ChannelQMode2, catalogue: string)
    requires |catalogue| == 13 && AllDigits(catalogue)
    requires v.Valid() && v.q.DataQBits() == Mode2Payload(catalogue)
    ensures forall n :: 1 <= n <= 13 ==> v.FieldN(n) <= 9
    ensures v.CatalogueNumber() == catalogue
  {
    forall n | 1 <= n <= 13 ensures v.FieldN(n) == DigitValue(catalogue[n - 1]) {
      Mode2Field(v, catalogue, n);
    }
    var s := v.CatalogueNumber();
    forall k | 0 <= k < 13 ensures s[k] == catalogue[k] {
      DigitValueInjective(s[k], catalogue[k]);
    }
  }

  /** The Mode 2 payload is 72 bits long. */
  lemma Mode2PayloadLength(catalogue: string)
    requires |catalogue| == 13 && AllDigits(catalogue)
    ensures |Mode2Payload(catalogue)| == DataQLenSymbols
  {
    FlattenLength(DigitBlocks(catalogue), 4);
  }

  /** Decoding a Mode 2 frame gives back the catalogue number that was
      written. */
  lemma Mode2RoundTrip(control: nat, catalogue: string, crc: nat)
    requires control < 16 && crc < 0x1_0000
    requires |catalogue| == 13 && AllDigits(catalogue)
    ensures |Mode2Payload(catalogue)| == DataQLenSymbols
    ensures var q := FrameOfQBits(QBitsOf(control, 2, Mode2Payload(catalogue), crc));
      && q.AsMode2().Some?
      && var v := q.AsMode2().value;
      && (forall n :: 1 <= n <= 13 ==> v.FieldN(n) <= 9)
      && v.CatalogueNumber() == catalogue
  {
    Mode2PayloadLength(catalogue);
    var payload := Mode2Payload(catalogue);
    HeaderRoundTrip(control, 2, payload, crc);
    Mode2Decodes(FrameOfQBits(QBitsOf(control, 2, payload, crc)).AsMode2().value, catalogue);
  }

  // ---------------------------------------------------------------------
  // Mode 3

  /** An ISRC as the decoder spells it: five characters of the six-bit
      alphabet, then seven decimal digits. */
  predicate WellFormedIsrc(isrc: string)
  {
    && |isrc| == 12
    && (forall k :: 0 <= k < 5 ==> IsSixBitChar(isrc[k]))
    && (forall k :: 5 <= k < 12 ==> IsDecimalDigit(isrc[k]))
  }

  /** The 6-bit blocks of the country and owner code characters. */
  function SixBitBlocks(isrc: string): (blocks: seq<seq<Bit>>)
    requires WellFormedIsrc(isrc)
    ensures |blocks| == 5 && forall j :: 0 <= j < 5 ==> |blocks[j]| == 6
  {
    seq(5, k requires 0 <= k < 5 => BitsOf(SixBitCode(isrc[k]), 6))
  }

  /** The Mode 3 payload of an ISRC: five 6-bit characters, two zero bits,
      seven BCD digits, then 12 zero bits. */
  function Mode3Payload(isrc: string): seq<Bit>
    requires WellFormedIsrc(isrc)
  {
    Flatten(SixBitBlocks(isrc)) + [0, 0] + Flatten(DigitBlocks(isrc[5..])) + seq(12, _ => 0)
  }

  /** Two six-bit alphabet characters with the same code are the same
      character. */
  lemma SixBitCodeInjective(a: char, b: char)
    requires IsSixBitChar(a) && IsSixBitChar(b) && SixBitCode(a) == SixBitCode(b)
    ensures a == b
  {
  }

  /** The Mode 3 payload is 72 bits long, with the character fields in
      bits 0..29 and the digit fields in bits 32..59. */
  lemma Mode3PayloadParts(isrc: string)
    requires WellFormedIsrc(isrc)
    ensures |Mode3Payload(isrc)| == DataQLenSymbols
    ensures Mode3Payload(isrc)[..30] == Flatten(SixBitBlocks(isrc))
    ensures Mode3Payload(isrc)[32..60] == Flatten(DigitBlocks(isrc[5..]))
  {
    FlattenLength(SixBitBlocks(isrc), 6);
    FlattenLength(DigitBlocks(isrc[5..]), 4);
  }

  /** ISRC field i (1..5) of a view over an encoded ISRC holds the code of
      character i. */
  lemma Mode3CharField(v: ChannelQMode3, isrc: string, i: nat)
    requires WellFormedIsrc(isrc) && 1 <= i <= 5
    requires v.q.Valid() && v.q.DataQBits() == Mode3Payload(isrc)
    ensures v.FieldI(i) == SixBitCode(isrc[i - 1]) && IsSixBitCode(v.FieldI(i))
  {
    var payload := Mode3Payload(isrc);
    var chars := SixBitBlocks(isrc);
    Mode3PayloadParts(isrc);
    FlattenSlice(chars, 6, i - 1);
    assert payload[(i - 1) * 6 .. i * 6] == payload[..30][(i - 1) * 6 .. i * 6];
    Pow2Widths();
    assert Pow2(6) == 64;
    BigEndianOfBitsOf(SixBitCode(isrc[i - 1]), 6);
    SixBitCodeRoundTrip(isrc[i - 1]);
  }

  /** ISRC field i (6..12) of a view over an encoded ISRC holds the value
      of digit i. */
  lemma Mode3DigitField(v: ChannelQMode3, isrc: string, i: nat)
    requires WellFormedIsrc(isrc) && 6 <= i <= 12
    requires v.q.Valid() && v.q.DataQBits() == Mode3Payload(isrc)
    ensures v.FieldI(i) == DigitValue(isrc[i - 1]) && v.FieldI(i) <= 9
  {
    var payload := Mode3Payload(isrc);
    var digits := DigitBlocks(isrc[5..]);
    var k := i - 6;
    assert IsrcFieldOffset(i) == 32 + k * 4;
    Mode3PayloadParts(isrc);
    FlattenSlice(digits, 4, k);
    assert payload[32 + k * 4 .. 32 + k * 4 + 4] == payload[32..60][k * 4 .. k * 4 + 4];
    assert isrc[5..][k] == isrc[i - 1];
    Pow2Widths();
    BigEndianOfBitsOf(DigitValue(isrc[i - 1]), 4);
  }

  /** Every ISRC field of a view over an encoded ISRC holds the code of
      the matching character. */
  lemma Mode3FieldsDecoded(v: ChannelQMode3, isrc: string)
    requires WellFormedIsrc(isrc)
    requires v.q.Valid() && v.q.DataQBits() == Mode3Payload(isrc)
    ensures forall i :: 1 <= i <= 5 ==> v.FieldI(i) == SixBitCode(isrc[i - 1])
    ensures forall i :: 6 <= i <= 12 ==> v.FieldI(i) == DigitValue(isrc[i - 1])
    ensures v.SixBitFields(1, 5) && v.BcdFields(6, 12)
  {
    forall i | 1 <= i <= 5 ensures v.FieldI(i) == SixBitCode(isrc[i - 1]) && IsSixBitCode(v.FieldI(i)) {
      Mode3CharField(v, isrc, i);
    }
    forall i | 6 <= i <= 12 ensures v.FieldI(i) == DigitValue(isrc[i - 1]) && v.FieldI(i) <= 9 {
      Mode3DigitField(v, isrc, i);
    }
  }

  /** Strings of six-bit alphabet characters with the same codes are
      equal. */
  lemma SixBitStringsEqual(s: string, t: string)
    requires |s| == |t|
    requires forall k :: 0 <= k < |s| ==> IsSixBitChar(s[k]) && IsSixBitChar(t[k]) && SixBitCode(s[k]) == SixBitCode(t[k])
    ensures s == t
  {
    forall k | 0 <= k < |s| ensures s[k] == t[k] {
      SixBitCodeInjective(s[k], t[k]);
    }
  }

  /** Strings of digits with the same values are equal. */
  lemma DigitStringsEqual(s: string, t: string)
    requires |s| == |t|
    requires forall k :: 0 <= k < |s| ==> IsDecimalDigit(s[k]) && IsDecimalDigit(t[k]) && DigitValue(s[k]) == DigitValue(t[k])
    ensures s == t
  {
    forall k | 0 <= k < |s| ensures s[k] == t[k] {
      DigitValueInjective(s[k], t[k]);
    }
  }

  /** A Mode 3 view whose payload holds an encoded ISRC decodes it, and its
      four parts. */
  lemma Mode3Decodes(v: ChannelQMode3, isrc: string)
    requires WellFormedIsrc(isrc)
    requires v.Valid() && v.q.DataQBits() == Mode3Payload(isrc)
    ensures v.SixBitFields(1, 5) && v.BcdFields(6, 12)
    ensures v.CountryCode() == isrc[..2] && v.OwnerCode() == isrc[2..5]
    ensures v.Year() == isrc[5..7] && v.SerialNumber() == isrc[7..]
    ensures v.Isrc() == isrc
  {
    Mode3FieldsDecoded(v, isrc);
    SixBitStringsEqual(v.CountryCode(), isrc[..2]);
    SixBitStringsEqual(v.OwnerCode(), isrc[2..5]);
    DigitStringsEqual(v.Year(), isrc[5..7]);
    DigitStringsEqual(v.SerialNumber(), isrc[7..]);
    assert isrc == isrc[..2] + isrc[2..5] + isrc[5..7] + isrc[7..];
  }

  /** Decoding a Mode 3 frame gives back the ISRC that was written, and
      its four parts. */
  lemma Mode3RoundTrip(control: nat, isrc: string, crc: nat)
    requires control < 16 && crc < 0x1_0000
    requires WellFormedIsrc(isrc)
    ensures |Mode3Payload(isrc)| == DataQLenSymbols
    ensures var q := FrameOfQBits(QBitsOf(control, 3, Mode3Payload(isrc), crc));
      && q.AsMode3().Some?
      && var v := q.AsMode3().value;
      && v.SixBitFields(1, 5) && v.BcdFields(6, 12)
      && v.Isrc() == isrc
      && v.CountryCode() == isrc[..2] && v.OwnerCode() == isrc[2..5]
      && v.Year() == isrc[5..7] && v.SerialNumber() == isrc[7..]
  {
    Mode3PayloadParts(isrc);
    var payload := Mode3Payload(isrc);
    HeaderRoundTrip(control, 3, payload, crc);
    Mode3Decodes(FrameOfQBits(QBitsOf(control, 3, payload, crc)).AsMode3().value, isrc);
  }

  /** The parts of the ISRC "ABCDE9912345", sliced on their own so that
      the literal stays out of the round-trip proof. */
  lemma ExampleIsrc(isrc: string)
    requires isrc == "ABCDE9912345"
    ensures WellFormedIsrc(isrc)
    ensures isrc[..2] == "AB" && isrc[2..5] == "CDE" && isrc[5..7] == "99" && isrc[7..] == "12345"
  {
  }

  /** Country code "AB" (codes 17, 18), owner code "CDE" (19, 20, 21),
      year "99" and serial number "12345" decode to the ISRC
      "ABCDE9912345". */
  lemma Mode3Example(isrc: string)
    requires isrc == "ABCDE9912345"
    ensures WellFormedIsrc(isrc)
    ensures |Mode3Payload(isrc)| == DataQLenSymbols
    ensures var q := FrameOfQBits(QBitsOf(0, 3, Mode3Payload(isrc), 0));
      && q.AsMode3().Some?
      && var v := q.AsMode3().value;
      && v.SixBitFields(1, 5) && v.BcdFields(6, 12)
      && v.CountryCode() == "AB" && v.OwnerCode() == "CDE"
      && v.Year() == "99" && v.SerialNumber() == "12345"
      && v.Isrc() == isrc
  {
    ExampleIsrc(isrc);
    Mode3RoundTrip(0, isrc, 0);
  }
}
