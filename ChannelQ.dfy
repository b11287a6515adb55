/** The Q-frame layer: 96 subcode symbols collapsed to the 96-bit Q string,
    fixed-width field extraction over it, the fields every frame carries
    (control, address, CRC) and the three address-dispatched payload views
    (Mode 1 table of contents, Mode 2 catalogue number, Mode 3 ISRC) of
    IEC 60908. */
module ChannelQ {
  import opened Bits
  import opened Subcode

  datatype Option<T> = None | Some(value: T)

  const ChannelQLenSymbols: nat := 96
  const DataQLenSymbols: nat := 72
  const DataQFirst: nat := 8

  // ---------------------------------------------------------------------
  // Digit and character decoding

  predicate IsDecimalDigit(c: char)
  {
    '0' <= c <= '9'
  }

  /** The number a decimal digit character stands for. */
  function DigitValue(c: char): nat
    requires IsDecimalDigit(c)
  {
    c as int - '0' as int
  }

  /** The printable character of one BCD digit. */
  function BcdDigitToChar(bcdDigit: Byte): (c: char)
    requires bcdDigit <= 9
    ensures IsDecimalDigit(c) && DigitValue(c) == bcdDigit
  {
    ('0' as int + bcdDigit) as char
  }

  /** A byte whose high and low nibbles are both decimal digits. */
  predicate IsBcdByte(x: Byte)
  {
    // (x >> 4) & 0xF and x & 0xF
    Shr(x, 4) % 16 <= 9 && x % 16 <= 9
  }

  /** The two-digit BCD byte of a number below 100: tens in the high
      nibble, ones in the low nibble. */
  function DecimalToBcd(n: nat): Byte
    requires n < 100
  {
    (n / 10) * 16 + n % 10
  }

  /** The value of a two-digit BCD byte: high nibble * 10 + low nibble. */
  function TwoDigitBcdToDecimal(x: Byte): (r: Byte)
    requires IsBcdByte(x)
    ensures r < 100 && DecimalToBcd(r) == x
  {
    NibbleSplit(x);
    var tens := Shr(x, 4) % 16;
    var ones := x % 16;
    DivUnique(tens * 10 + ones, 10, tens, ones);
    tens * 10 + ones
  }

  /** The characters of the six-bit alphabet: digits and capital letters. */
  predicate IsSixBitChar(c: char)
  {
    IsDecimalDigit(c) || 'A' <= c <= 'Z'
  }

  /** The codes of the six-bit alphabet: 0..9 and 17..42. */
  predicate IsSixBitCode(x: Byte)
  {
    x <= 9 || 17 <= x <= 42
  }

  /** The six-bit code of a character of the alphabet. */
  function SixBitCode(c: char): Byte
    requires IsSixBitChar(c)
  {
    if IsDecimalDigit(c) then c as int - '0' as int else c as int - 'A' as int + 17
  }

  /** The character of a six-bit code: 0..9 are '0'..'9', 17..42 are
      'A'..'Z'. */
  function SixBitCharToChar(x: Byte): (c: char)
    requires IsSixBitCode(x)
    ensures IsSixBitChar(c) && SixBitCode(c) == x
    ensures IsDecimalDigit(c) <==> x <= 9
  {
    if x <= 9 then ('0' as int + x) as char
    else ('A' as int + (x - 17)) as char
  }

  /** `.map(bcd_digit_to_char).collect()`: the digit characters of a
      sequence of BCD digits. */
  function BcdDigitsToChars(digits: seq<Byte>): (s: string)
    requires forall k :: 0 <= k < |digits| ==> digits[k] <= 9
    ensures |s| == |digits|
    ensures forall k :: 0 <= k < |s| ==> IsDecimalDigit(s[k]) && DigitValue(s[k]) == digits[k]
  {
    seq(|digits|, k requires 0 <= k < |digits| => BcdDigitToChar(digits[k]))
  }

  /** `.map(six_bit_char_to_char).collect()`: the characters of a sequence
      of six-bit codes. */
  function SixBitCodesToChars(codes: seq<Byte>): (s: string)
    requires forall k :: 0 <= k < |codes| ==> IsSixBitCode(codes[k])
    ensures |s| == |codes|
    ensures forall k :: 0 <= k < |s| ==> IsSixBitChar(s[k]) && SixBitCode(s[k]) == codes[k]
  {
    seq(|codes|, k requires 0 <= k < |codes| => SixBitCharToChar(codes[k]))
  }

  // ---------------------------------------------------------------------
  // The frame

  /** The address field's interpretations. Mode 4 (CD Video) is not
      supported and, like every other value, is Unknown. */
  datatype Address = Mode0 | Mode1 | Mode2 | Mode3 | Unknown

  /** The checks on a window of `len` bits starting at `first` in a range
      of `limit` bits: at most 32 bits, a first index inside the range, and
      a last index `first + len - 1` that neither underflows (an unsigned
      subtraction) nor leaves the range. */
  predicate WindowInRange(first: nat, len: nat, limit: nat)
  {
    len <= 32 && first < limit && first + len >= 1 && first + len - 1 < limit
  }

  /** A Q-channel frame: a view of 96 subcode symbols. */
  datatype ChannelQ = ChannelQ(symbols: seq<SubcodeSymbol>)
  {
    predicate Valid()
    {
      |symbols| == ChannelQLenSymbols
    }

    /** The Q-plane bit of every symbol, in order; bit 0 is the most
        significant bit of the frame. */
    function QBits(): seq<Bit>
    {
      seq(|symbols|, i requires 0 <= i < |symbols| => symbols[i].GetBitValue(Q))
    }

    /** The 72-bit data-Q payload, frame bits 8..79. */
    function DataQBits(): seq<Bit>
      requires Valid()
    {
      QBits()[DataQFirst .. DataQFirst + DataQLenSymbols]
    }

    /** The Q bit string holds one bit per symbol: bit i is 1 exactly when
        symbol i has its Q plane set. */
    lemma QBitsArePlanes()
      ensures |QBits()| == |symbols|
      ensures forall i :: 0 <= i < |symbols| ==> (QBits()[i] == 1 <==> symbols[i].GetBit(Q))
    {
    }

    /** The unsigned value of `len` consecutive Q bits from frame bit
        `first`, most significant first. */
    function Value(first: nat, len: nat): (r: U32)
      requires Valid() && WindowInRange(first, len, ChannelQLenSymbols)
      ensures r == BigEndian(QBits()[first .. first + len])
      ensures r < Pow2(len)
    {
      var window := symbols[first .. first + len];
      var values := seq(len, p requires 0 <= p < len => window[p].GetBitValue(Q));
      QBitsOfWindow(first, len);
      ZipSumPowers(values);
      Pow2Monotone(len, 32);
      Pow2Widths();
      ZipSum(values, Powers(len))
    }

    /** Mapping the Q plane over a slice of the symbols gives the slice of
        the Q bit string. */
    lemma QBitsOfWindow(first: nat, len: nat)
      requires first + len <= |symbols|
      ensures seq(len, p requires 0 <= p < len => symbols[first .. first + len][p].GetBitValue(Q))
        == QBits()[first .. first + len]
    {
    }

    /** The same extraction addressed relative to the data-Q payload. */
    function ValueDataQ(first: nat, len: nat): (r: U32)
      requires Valid() && WindowInRange(first, len, DataQLenSymbols)
      ensures r == BigEndian(DataQBits()[first .. first + len])
      ensures r < Pow2(len)
    {
      assert DataQBits()[first .. first + len] == QBits()[DataQFirst + first .. DataQFirst + first + len];
      Value(DataQFirst + first, len)
    }

    /** The control nibble, frame bits 0..3. */
    function Control(): (r: Byte)
      requires Valid()
      ensures r < 16 && r == BigEndian(QBits()[..4])
    {
      AsU8(Value(0, 4))
    }

    /** The address nibble, frame bits 4..7, as a mode. */
    function Adr(): (a: Address)
      requires Valid()
      ensures var n := BigEndian(QBits()[4..8]);
        && (a == Mode0 <==> n == 0)
        && (a == Mode1 <==> n == 1)
        && (a == Mode2 <==> n == 2)
        && (a == Mode3 <==> n == 3)
        && (a == Unknown <==> n >= 4)
    {
      var adr := AsU8(Value(4, 4));
      match adr
      case 0 => Mode0
      case 1 => Mode1
      case 2 => Mode2
      case 3 => Mode3
      case _ => Unknown
    }

    /** The unvalidated CRC field, frame bits 80..95. */
    function Crc(): (r: U16)
      requires Valid()
      ensures r == BigEndian(QBits()[80..96])
    {
      Pow2Widths();
      AsU16(Value(80, 16))
    }

    function AsMode1(): (v: Option<ChannelQMode1>)
      requires Valid()
      ensures v.Some? <==> Adr() == Mode1
      ensures v.Some? ==> v.value.q == this && v.value.Valid()
    {
      if Adr() == Mode1 then Some(ChannelQMode1(this)) else None
    }

    function AsMode2(): (v: Option<ChannelQMode2>)
      requires Valid()
      ensures v.Some? <==> Adr() == Mode2
      ensures v.Some? ==> v.value.q == this && v.value.Valid()
    {
      if Adr() == Mode2 then Some(ChannelQMode2(this)) else None
    }

    function AsMode3(): (v: Option<ChannelQMode3>)
      requires Valid()
      ensures v.Some? <==> Adr() == Mode3
      ensures v.Some? ==> v.value.q == this && v.value.Valid()
    {
      if Adr() == Mode3 then Some(ChannelQMode3(this)) else None
    }
  }

  /** Viewing 96 symbols as a Q-channel frame. */
  function NewChannelQ(symbols: seq<SubcodeSymbol>): (q: ChannelQ)
    requires |symbols| == ChannelQLenSymbols
    ensures q.Valid() && q.symbols == symbols
  {
    ChannelQ(symbols)
  }

  /** At most one mode view exists for a frame, and one exists exactly when
      the address nibble is 1, 2 or 3. */
  lemma ModeDispatch(q: ChannelQ)
    requires q.Valid()
    ensures !(q.AsMode1().Some? && q.AsMode2().Some?)
    ensures !(q.AsMode1().Some? && q.AsMode3().Some?)
    ensures !(q.AsMode2().Some? && q.AsMode3().Some?)
    ensures q.AsMode1().Some? || q.AsMode2().Some? || q.AsMode3().Some?
        <==> 1 <= BigEndian(q.QBits()[4..8]) <= 3
  {
  }

  /** Payload-relative addressing is frame-relative addressing shifted by
      the payload base: every valid payload window is a valid frame window
      inside frame bits 8..79, and reads the same value there. */
  lemma PayloadWindow(q: ChannelQ, first: nat, len: nat)
    requires q.Valid() && WindowInRange(first, len, DataQLenSymbols)
    ensures WindowInRange(DataQFirst + first, len, ChannelQLenSymbols)
    ensures DataQFirst + first + len <= DataQFirst + DataQLenSymbols
    ensures q.ValueDataQ(first, len) == q.Value(DataQFirst + first, len)
  {
  }

  /** Payload extraction never sees the control, address or CRC bits:
      frames with the same payload give the same payload values. */
  lemma PayloadIsolation(q1: ChannelQ, q2: ChannelQ, first: nat, len: nat)
    requires q1.Valid() && q2.Valid() && WindowInRange(first, len, DataQLenSymbols)
    requires q1.DataQBits() == q2.DataQBits()
    ensures q1.ValueDataQ(first, len) == q2.ValueDataQ(first, len)
  {
  }

  // ---------------------------------------------------------------------
  // Mode 1: table of contents / running time

  /** A Mode 1 view; only AsMode1 makes one. */
  datatype ChannelQMode1 = ChannelQMode1(q: ChannelQ)
  {
    predicate Valid()
    {
      q.Valid() && q.Adr() == Mode1
    }

    /** The payload byte starting at payload bit `offset`. */
    function PayloadByte(offset: nat): (x: Byte)
      requires q.Valid() && offset <= 64
      ensures x == BigEndian(q.DataQBits()[offset .. offset + 8])
    {
      AsU8(q.ValueDataQ(offset, 8))
    }

    /** The track number, payload bits 0..7. */
    function Tno(): (r: Byte)
      requires Valid() && IsBcdByte(PayloadByte(0))
      ensures r < 100 && DecimalToBcd(r) == BigEndian(q.DataQBits()[0..8])
    {
      TwoDigitBcdToDecimal(PayloadByte(0))
    }

    /** The point (index) field, payload bits 8..15. */
    function Point(): (r: Byte)
      requires Valid() && IsBcdByte(PayloadByte(8))
      ensures r < 100 && DecimalToBcd(r) == BigEndian(q.DataQBits()[8..16])
    {
      TwoDigitBcdToDecimal(PayloadByte(8))
    }

    /** Minutes, payload bits 16..23. */
    function Min(): (r: Byte)
      requires Valid() && IsBcdByte(PayloadByte(16))
      ensures r < 100 && DecimalToBcd(r) == BigEndian(q.DataQBits()[16..24])
    {
      TwoDigitBcdToDecimal(PayloadByte(16))
    }

    /** Seconds, payload bits 24..31. */
    function Sec(): (r: Byte)
      requires Valid() && IsBcdByte(PayloadByte(24))
      ensures r < 100 && DecimalToBcd(r) == BigEndian(q.DataQBits()[24..32])
    {
      TwoDigitBcdToDecimal(PayloadByte(24))
    }

    /** Frames, payload bits 32..39. */
    function Frame(): (r: Byte)
      requires Valid() && IsBcdByte(PayloadByte(32))
      ensures r < 100 && DecimalToBcd(r) == BigEndian(q.DataQBits()[32..40])
    {
      TwoDigitBcdToDecimal(PayloadByte(32))
    }

    /** Absolute-point minutes, payload bits 48..55 (40..47 are reserved). */
    function APMin(): (r: Byte)
      requires Valid() && IsBcdByte(PayloadByte(48))
      ensures r < 100 && DecimalToBcd(r) == BigEndian(q.DataQBits()[48..56])
    {
      TwoDigitBcdToDecimal(PayloadByte(48))
    }

    /** Absolute-point seconds, payload bits 56..63. */
    function APSec(): (r: Byte)
      requires Valid() && IsBcdByte(PayloadByte(56))
      ensures r < 100 && DecimalToBcd(r) == BigEndian(q.DataQBits()[56..64])
    {
      TwoDigitBcdToDecimal(PayloadByte(56))
    }

    /** Absolute-point frames, payload bits 64..71. */
    function APFrame(): (r: Byte)
      requires Valid() && IsBcdByte(PayloadByte(64))
      ensures r < 100 && DecimalToBcd(r) == BigEndian(q.DataQBits()[64..72])
    {
      TwoDigitBcdToDecimal(PayloadByte(64))
    }
  }

  // ---------------------------------------------------------------------
  // Mode 2: catalogue number

  /** A Mode 2 view; only AsMode2 makes one. */
  datatype ChannelQMode2 = ChannelQMode2(q: ChannelQ)
  {
    predicate Valid()
    {
      q.Valid() && q.Adr() == Mode2
    }

    /** Field N (1..13): the 4-bit BCD digit at payload bits
        (N - 1) * 4 .. N * 4 - 1. */
    function FieldN(n: nat): (d: Byte)
      requires q.Valid() && 1 <= n <= 13
      ensures d < 16 && d == BigEndian(q.DataQBits()[(n - 1) * 4 .. n * 4])
    {
      AsU8(q.ValueDataQ((n - 1) * 4, 4))
    }

    /** The 13-digit catalogue number, field 1 first. */
    function CatalogueNumber(): (s: string)
      requires Valid() && forall n :: 1 <= n <= 13 ==> FieldN(n) <= 9
      ensures |s| == 13
      ensures forall k :: 0 <= k < 13 ==> IsDecimalDigit(s[k]) && DigitValue(s[k]) == FieldN(k + 1)
    {
      // (1..=13).map(field_n)
      BcdDigitsToChars(seq(13, k requires 0 <= k < 13 => FieldN(k + 1)))
    }
  }

  // ---------------------------------------------------------------------
  // Mode 3: ISRC

  /** The width of ISRC field i: six-bit characters for fields 1..5, BCD
      digits for fields 6..12. */
  function IsrcFieldWidth(i: nat): nat
  {
    if i <= 5 then 6 else 4
  }

  /** The payload offset of ISRC field i: the fields lie back to back, with
      a 2-bit gap between field 5 and field 6. */
  function IsrcFieldOffset(i: nat): (offset: nat)
    requires 1 <= i <= 12
    ensures offset == if i <= 5 then (i - 1) * 6 else 5 * 6 + 2 + (i - 6) * 4
  {
    if i == 1 then 0
    else IsrcFieldOffset(i - 1) + IsrcFieldWidth(i - 1) + (if i == 6 then 2 else 0)
  }

  /** The twelve ISRC fields lie in payload bits 0..59 without overlap:
      fields 1..5 in bits 0..29, the gap in bits 30..31, fields 6..12 in
      bits 32..59; payload bits 60..71 are not read. */
  lemma IsrcLayout(i: nat)
    requires 1 <= i <= 12
    ensures IsrcFieldOffset(i) + IsrcFieldWidth(i) <= 60 < DataQLenSymbols
    ensures i < 12 ==> IsrcFieldOffset(i) + IsrcFieldWidth(i) <= IsrcFieldOffset(i + 1)
    ensures IsrcFieldOffset(5) + IsrcFieldWidth(5) == 30 && IsrcFieldOffset(6) == 32
    ensures IsrcFieldOffset(12) + IsrcFieldWidth(12) == 60
  {
  }

  /** A Mode 3 view; only AsMode3 makes one. */
  datatype ChannelQMode3 = ChannelQMode3(q: ChannelQ)
  {
    predicate Valid()
    {
      q.Valid() && q.Adr() == Mode3
    }

    /** Field I (1..12) of the ISRC payload. */
    function FieldI(i: nat): (x: Byte)
      requires q.Valid() && 1 <= i <= 12
      ensures x < Pow2(IsrcFieldWidth(i))
      ensures x == BigEndian(q.DataQBits()[IsrcFieldOffset(i) .. IsrcFieldOffset(i) + IsrcFieldWidth(i)])
    {
      // Naming the layout offset once keeps the verifier from re-deriving
      // it for each ensures clause.
      var offset := IsrcFieldOffset(i);
      if i <= 5 then AsU8(q.ValueDataQ((i - 1) * 6, 6))
      else AsU8(q.ValueDataQ(5 * 6 + 2 + (i - 6) * 4, 4))
    }

    /** Fields lo..hi all hold six-bit alphabet codes. */
    predicate SixBitFields(lo: nat, hi: nat)
      requires q.Valid() && 1 <= lo && hi <= 12
    {
      forall i :: lo <= i <= hi ==> IsSixBitCode(FieldI(i))
    }

    /** Fields lo..hi all hold decimal digits. */
    predicate BcdFields(lo: nat, hi: nat)
      requires q.Valid() && 1 <= lo && hi <= 12
    {
      forall i :: lo <= i <= hi ==> FieldI(i) <= 9
    }

    /** `(lo..=hi).map(field_i)`: fields lo..hi in order. Its ensures only
        spells the comprehension out element by element; it is there so
        that the decoders below need not unfold FieldI at every index. */
    function Fields(lo: nat, hi: nat): (xs: seq<Byte>)
      requires q.Valid() && 1 <= lo <= hi <= 12
      ensures |xs| == hi - lo + 1 && forall k :: 0 <= k < |xs| ==> xs[k] == FieldI(lo + k)
    {
      seq<Byte>(hi - lo + 1, k requires 0 <= k < hi - lo + 1 => FieldI(lo + k))
    }

    /** The country code, fields 1..2. */
    function CountryCode(): (s: string)
      requires Valid() && SixBitFields(1, 2)
      ensures |s| == 2
      ensures forall k :: 0 <= k < 2 ==> IsSixBitChar(s[k]) && SixBitCode(s[k]) == FieldI(k + 1)
    {
      SixBitCodesToChars(Fields(1, 2))
    }

    /** The owner code, fields 3..5. */
    function OwnerCode(): (s: string)
      requires Valid() && SixBitFields(3, 5)
      ensures |s| == 3
      ensures forall k :: 0 <= k < 3 ==> IsSixBitChar(s[k]) && SixBitCode(s[k]) == FieldI(k + 3)
    {
      SixBitCodesToChars(Fields(3, 5))
    }

    /** The year of recording, fields 6..7. */
    function Year(): (s: string)
      requires Valid() && BcdFields(6, 7)
      ensures |s| == 2
      ensures forall k :: 0 <= k < 2 ==> IsDecimalDigit(s[k]) && DigitValue(s[k]) == FieldI(k + 6)
    {
      BcdDigitsToChars(Fields(6, 7))
    }

    /** The serial number, fields 8..12. */
    function SerialNumber(): (s: string)
      requires Valid() && BcdFields(8, 12)
      ensures |s| == 5
      ensures forall k :: 0 <= k < 5 ==> IsDecimalDigit(s[k]) && DigitValue(s[k]) == FieldI(k + 8)
    {
      BcdDigitsToChars(Fields(8, 12))
    }

    /** The whole ISRC: country code, owner code, year and serial number
        with no separators, so character k decodes field k + 1. */
    function Isrc(): (s: string)
      requires Valid() && SixBitFields(1, 5) && BcdFields(6, 12)
      ensures |s| == 12
      ensures forall k :: 0 <= k < 5 ==> IsSixBitChar(s[k]) && SixBitCode(s[k]) == FieldI(k + 1)
      ensures forall k :: 5 <= k < 12 ==> IsDecimalDigit(s[k]) && DigitValue(s[k]) == FieldI(k + 1)
    {
      CountryCode() + OwnerCode() + Year() + SerialNumber()
    }
  }

  // ---------------------------------------------------------------------
  // Inverses of the digit and character decoders

  lemma DecimalToBcdRoundTrip(n: nat)
    requires n < 100
    ensures IsBcdByte(DecimalToBcd(n)) && TwoDigitBcdToDecimal(DecimalToBcd(n)) == n
  {
    var x := DecimalToBcd(n);
    NibbleSplit(x);
    DivUnique(x, 16, n / 10, n % 10);
    assert Shr(x, 4) == n / 10;
    var r := TwoDigitBcdToDecimal(x);
    DivUnique(r, 10, n / 10, n % 10);
  }

  lemma BcdDigitToCharRoundTrip(c: char)
    requires IsDecimalDigit(c)
    ensures DigitValue(c) <= 9 && BcdDigitToChar(DigitValue(c)) == c
  {
  }

  lemma SixBitCodeRoundTrip(c: char)
    requires IsSixBitChar(c)
    ensures IsSixBitCode(SixBitCode(c)) && SixBitCharToChar(SixBitCode(c)) == c
  {
  }

  /** The ends of the two ranges of the six-bit alphabet. */
  lemma SixBitAlphabetEnds()
    ensures SixBitCharToChar(0) == '0' && SixBitCharToChar(9) == '9'
    ensures SixBitCharToChar(17) == 'A' && SixBitCharToChar(42) == 'Z'
  {
  }
}
