/** The symbol layer: one raw subcode byte and its eight named bit-planes
    P..W, which occupy bit positions 7 down to 0. */
module Subcode {
  import opened Bits

  /** The eight bit-planes of a subcode symbol. */
  datatype SubcodeBit = P | Q | R | S | T | U | V | W

  /** The planes in their conventional P..W order, most significant first. */
  const Planes: seq<SubcodeBit> := [P, Q, R, S, T, U, V, W]

  /** The bit position a plane occupies in the symbol byte. */
  function BitPosition(plane: SubcodeBit): (pos: nat)
    ensures pos < 8 && Planes[7 - pos] == plane
  {
    match plane
    case P => 7
    case Q => 6
    case R => 5
    case S => 4
    case T => 3
    case U => 2
    case V => 1
    case W => 0
  }

  /** The letter naming a plane in the Debug rendering. */
  function PlaneLetter(plane: SubcodeBit): char
  {
    match plane
    case P => 'P'
    case Q => 'Q'
    case R => 'R'
    case S => 'S'
    case T => 'T'
    case U => 'U'
    case V => 'V'
    case W => 'W'
  }

  /** A binary digit as a character. */
  function DigitChar(b: Bit): char
  {
    if b == 1 then '1' else '0'
  }

  /** The characters of a bit string. */
  function DigitChars(bits: seq<Bit>): (s: string)
  {
    seq(|bits|, i requires 0 <= i < |bits| => DigitChar(bits[i]))
  }

  /** The shortest binary numeral of n (the digits `{:b}` prints). */
  function Binary(n: nat): (s: string)
    ensures |s| >= 1
  {
    if n < 2 then [DigitChar(n)] else Binary(n / 2) + [DigitChar(n % 2)]
  }

  /** `s` left-padded with '0' to at least `width` characters. */
  function ZeroPad(s: string, width: nat): string
  {
    if |s| >= width then s else seq(width - |s|, _ => '0') + s
  }

  /** The alternate zero-padded binary form `{:#0<width>b}`: the "0b" prefix,
      then the binary numeral padded with zeros so that prefix and digits
      together are at least `width` characters long. */
  function AlternateBinary(n: nat, width: nat): string
  {
    "0b" + ZeroPad(Binary(n), if width >= 2 then width - 2 else 0)
  }

  /** A raw subcode byte. */
  datatype SubcodeSymbol = SubcodeSymbol(value: Byte)
  {
    /** The plane's bit as a number, `(value >> position) & 1`. */
    function GetBitValue(plane: SubcodeBit): (v: Bit)
      ensures v == BitsOf(value, 8)[7 - BitPosition(plane)]
    {
      BitsOfAt(value, 8, 7 - BitPosition(plane));
      Shr(value, BitPosition(plane)) % 2
    }

    /** The plane's bit as a boolean: true for a 1 bit. */
    function GetBit(plane: SubcodeBit): (b: bool)
      ensures b <==> BitsOf(value, 8)[7 - BitPosition(plane)] == 1
    {
      var bitValue := GetBitValue(plane);
      if bitValue == 0 then false
      else if bitValue == 1 then true
      else assert false; false
    }

    /** The letters of the set planes, in P..W order. */
    function SetPlaneLetters(): (s: string)
      ensures |s| <= 8
    {
      (if GetBit(P) then "P" else "")
      + (if GetBit(Q) then "Q" else "")
      + (if GetBit(R) then "R" else "")
      + (if GetBit(S) then "S" else "")
      + (if GetBit(T) then "T" else "")
      + (if GetBit(U) then "U" else "")
      + (if GetBit(V) then "V" else "")
      + (if GetBit(W) then "W" else "")
    }

    /** The letters of the set planes among the first k planes of P..W. */
    function LettersUpTo(k: nat): string
      requires k <= 8
    {
      if k == 0 then ""
      else LettersUpTo(k - 1) + (if GetBit(Planes[k - 1]) then [PlaneLetter(Planes[k - 1])] else [])
    }

    lemma {:induction false} LettersUpToSpec(k: nat)
      requires k <= 8
      ensures forall i :: 0 <= i < 8 ==> (PlaneLetter(Planes[i]) in LettersUpTo(k) <==> i < k && GetBit(Planes[i]))
      ensures forall c :: c in LettersUpTo(k) ==> 'P' as int <= c as int < 'P' as int + k
      ensures forall i, j :: 0 <= i < j < |LettersUpTo(k)| ==> LettersUpTo(k)[i] < LettersUpTo(k)[j]
    {
      if k > 0 {
        LettersUpToSpec(k - 1);
        var prefix := LettersUpTo(k - 1);
        var letter := PlaneLetter(Planes[k - 1]);
        assert letter as int == 'P' as int + k - 1;
        assert LettersUpTo(k) == prefix + (if GetBit(Planes[k - 1]) then [letter] else []);
        forall i | 0 <= i < |prefix| ensures prefix[i] < letter {
          assert prefix[i] in prefix;
        }
      }
    }

    /** The Debug rendering: the byte in alternate binary form, then, only
        when the byte is non-zero, a space and the letters of the set
        planes. */
    function DebugString(): (s: string)
      ensures s == "SubcodeSymbol(0b" + DigitChars(BitsOf(value, 8))
        + (if value == 0 then "" else " " + SetPlaneLetters()) + ")"
    {
      AlternateBinaryOfByte(value);
      var bitString := if value != 0 then " " + SetPlaneLetters() else "";
      "SubcodeSymbol(" + AlternateBinary(value, 10) + bitString + ")"
    }
  }

  /** The boolean and the numeric form of a plane agree. */
  lemma GetBitAgrees(symbol: SubcodeSymbol, plane: SubcodeBit)
    ensures symbol.GetBit(plane) <==> symbol.GetBitValue(plane) == 1
    ensures !symbol.GetBit(plane) <==> symbol.GetBitValue(plane) == 0
  {
  }

  /** Every position 0..7 belongs to exactly one plane. */
  lemma BitPositionOfPlanes(k: nat)
    requires k < 8
    ensures BitPosition(Planes[k]) == 7 - k
  {
  }

  /** Weighting the eight plane values by their positions gives back the
      byte. */
  lemma {:induction false} Reassemble(symbol: SubcodeSymbol)
    ensures symbol.GetBitValue(P) * 128 + symbol.GetBitValue(Q) * 64
          + symbol.GetBitValue(R) * 32 + symbol.GetBitValue(S) * 16
          + symbol.GetBitValue(T) * 8 + symbol.GetBitValue(U) * 4
          + symbol.GetBitValue(V) * 2 + symbol.GetBitValue(W)
          == symbol.value
  {
    var v := symbol.value;
    ShrShr(v, 0);
    ShrShr(v, 1);
    ShrShr(v, 2);
    ShrShr(v, 3);
    ShrShr(v, 4);
    ShrShr(v, 5);
    ShrShr(v, 6);
    ShrShr(v, 7);
    ShrIsDiv(v, 8);
    Pow2Widths();
    var s1, s2, s3, s4 := Shr(v, 1), Shr(v, 2), Shr(v, 3), Shr(v, 4);
    var s5, s6, s7 := Shr(v, 5), Shr(v, 6), Shr(v, 7);
    assert Shr(v, 8) == 0;
    assert v == 2 * s1 + symbol.GetBitValue(W);
    assert s1 == 2 * s2 + symbol.GetBitValue(V);
    assert s2 == 2 * s3 + symbol.GetBitValue(U);
    assert s3 == 2 * s4 + symbol.GetBitValue(T);
    assert s4 == 2 * s5 + symbol.GetBitValue(S);
    assert s5 == 2 * s6 + symbol.GetBitValue(R);
    assert s6 == 2 * s7 + symbol.GetBitValue(Q);
    assert s7 == symbol.GetBitValue(P);
  }

  /** The plane letters of a symbol are exactly the letters of its set
      planes, each once, in P..W order. */
  lemma SetPlaneLettersInOrder(symbol: SubcodeSymbol)
    ensures forall plane :: PlaneLetter(plane) in symbol.SetPlaneLetters() <==> symbol.GetBit(plane)
    ensures var s := symbol.SetPlaneLetters(); forall i, j :: 0 <= i < j < |s| ==> s[i] < s[j]
  {
    SetPlaneLettersUnrolled(symbol);
    symbol.LettersUpToSpec(8);
    forall plane ensures PlaneLetter(plane) in symbol.SetPlaneLetters() <==> symbol.GetBit(plane) {
      assert Planes[7 - BitPosition(plane)] == plane;
    }
  }

  lemma SetPlaneLettersUnrolled(symbol: SubcodeSymbol)
    ensures symbol.SetPlaneLetters() == symbol.LettersUpTo(8)
  {
    assert symbol.LettersUpTo(1) == (if symbol.GetBit(P) then "P" else "");
    assert symbol.LettersUpTo(2) == symbol.LettersUpTo(1) + (if symbol.GetBit(Q) then "Q" else "");
    assert symbol.LettersUpTo(3) == symbol.LettersUpTo(2) + (if symbol.GetBit(R) then "R" else "");
    assert symbol.LettersUpTo(4) == symbol.LettersUpTo(3) + (if symbol.GetBit(S) then "S" else "");
    assert symbol.LettersUpTo(5) == symbol.LettersUpTo(4) + (if symbol.GetBit(T) then "T" else "");
    assert symbol.LettersUpTo(6) == symbol.LettersUpTo(5) + (if symbol.GetBit(U) then "U" else "");
    assert symbol.LettersUpTo(7) == symbol.LettersUpTo(6) + (if symbol.GetBit(V) then "V" else "");
    assert symbol.LettersUpTo(8) == symbol.LettersUpTo(7) + (if symbol.GetBit(W) then "W" else "");
  }

  /** A byte is zero exactly when none of its planes is set. */
  lemma ZeroIffNoPlaneSet(symbol: SubcodeSymbol)
    ensures symbol.value == 0 <==> forall plane :: !symbol.GetBit(plane)
    ensures symbol.value == 0 <==> symbol.SetPlaneLetters() == ""
  {
    Reassemble(symbol);
    SetPlaneLettersInOrder(symbol);
    forall plane ensures symbol.value == 0 ==> !symbol.GetBit(plane) {
      BitsOfAt(symbol.value, 8, 7 - BitPosition(plane));
    }
  }

  /** Zero-padding the shortest binary numeral of n to w digits gives the
      w-bit representation of n, when n fits in w bits. */
  lemma {:induction false} PaddedBinary(n: nat, w: nat)
    requires 1 <= w && n < Pow2(w)
    ensures |Binary(n)| <= w
    ensures ZeroPad(Binary(n), w) == DigitChars(BitsOf(n, w))
    decreases w
  {
    if n < 2 {
      var zeros := BitsOf(0, w - 1);
      BitsOfZero(w - 1);
      assert BitsOf(n, w) == zeros + [n];
    } else {
      assert w >= 2;
      var h := n / 2;
      PaddedBinary(h, w - 1);
      var c := DigitChar(n % 2);
      assert Binary(n) == Binary(h) + [c];
      assert ZeroPad(Binary(n), w) == ZeroPad(Binary(h), w - 1) + [c];
      assert BitsOf(n, w) == BitsOf(h, w - 1) + [n % 2];
    }
  }

  /** `{:#010b}` of a byte is "0b" followed by exactly its eight binary
      digits, most significant first. */
  lemma AlternateBinaryOfByte(b: Byte)
    ensures AlternateBinary(b, 10) == "0b" + DigitChars(BitsOf(b, 8))
  {
    PaddedBinary(b, 8);
  }

  /** Binary digit k of the rendering is '1' exactly when plane k of P..W
      is set, and '0' otherwise. */
  lemma BinaryDigitsArePlanes(symbol: SubcodeSymbol)
    ensures |DigitChars(BitsOf(symbol.value, 8))| == 8
    ensures forall k :: 0 <= k < 8 ==>
      DigitChars(BitsOf(symbol.value, 8))[k] == if symbol.GetBit(Planes[k]) then '1' else '0'
  {
    forall k | 0 <= k < 8
      ensures DigitChars(BitsOf(symbol.value, 8))[k] == if symbol.GetBit(Planes[k]) then '1' else '0'
    {
      BitPositionOfPlanes(k);
    }
  }

  /** get_bit(plane) is bit `BitPosition(plane)` of the byte: its quotient by
      2^position is odd. */
  lemma GetBitByDivision(symbol: SubcodeSymbol, plane: SubcodeBit)
    ensures symbol.GetBit(plane) <==> (symbol.value / Pow2(BitPosition(plane))) % 2 == 1
  {
    ShrIsDiv(symbol.value, BitPosition(plane));
  }

  /** The planes set in 0b1010_1010 are P, R, T and V; in 0b0101_0101 they
      are Q, S, U and W. Like the other test cases below, it is stated for
      any symbol holding the test byte: a literal symbol makes the solver
      unfold every function applied to it, which costs far more. */
  lemma GetBitOfAlternating(a: SubcodeSymbol, b: SubcodeSymbol)
    requires a.value == 0xAA && b.value == 0x55
    ensures a.GetBit(P) && !a.GetBit(Q) && a.GetBit(R) && !a.GetBit(S)
    ensures a.GetBit(T) && !a.GetBit(U) && a.GetBit(V) && !a.GetBit(W)
    ensures !b.GetBit(P) && b.GetBit(Q) && !b.GetBit(R) && b.GetBit(S)
    ensures !b.GetBit(T) && b.GetBit(U) && !b.GetBit(V) && b.GetBit(W)
  {
    forall plane ensures a.GetBit(plane) <==> (a.value / Pow2(BitPosition(plane))) % 2 == 1
      ensures b.GetBit(plane) <==> (b.value / Pow2(BitPosition(plane))) % 2 == 1
    {
      GetBitByDivision(a, plane);
      GetBitByDivision(b, plane);
    }
  }

  /** 0b0000_0000 has no plane set and 0b1111_1111 has all eight set. */
  lemma GetBitOfExtremes(zero: SubcodeSymbol, ones: SubcodeSymbol)
    requires zero.value == 0 && ones.value == 0xFF
    ensures forall plane :: !zero.GetBit(plane) && ones.GetBit(plane)
  {
    forall plane ensures zero.GetBit(plane) <==> (zero.value / Pow2(BitPosition(plane))) % 2 == 1
      ensures ones.GetBit(plane) <==> (ones.value / Pow2(BitPosition(plane))) % 2 == 1
    {
      GetBitByDivision(zero, plane);
      GetBitByDivision(ones, plane);
    }
  }

  /** The text of the rendering of 0b1111_1111, assembled as DebugString
      lays it out. The literal concatenation is checked here on its own, so
      that the solver does not meet it inside the larger proof. */
  lemma AllOnesText()
    ensures "SubcodeSymbol(0b" + "11111111" + (" " + "PQRSTUVW") + ")" == "SubcodeSymbol(0b11111111 PQRSTUVW)"
  {
  }

  /** The text of the rendering of 0b1001_0110, assembled as DebugString
      lays it out, checked on its own for the same reason. */
  lemma SomeText()
    ensures "SubcodeSymbol(0b" + "10010110" + (" " + "PSUV") + ")" == "SubcodeSymbol(0b10010110 PSUV)"
  {
  }

  /** The planes set in 0b1001_0110 are P, S, U and V. */
  lemma GetBitOfSome(symbol: SubcodeSymbol)
    requires symbol.value == 0x96
    ensures symbol.GetBit(P) && !symbol.GetBit(Q) && !symbol.GetBit(R) && symbol.GetBit(S)
    ensures !symbol.GetBit(T) && symbol.GetBit(U) && symbol.GetBit(V) && !symbol.GetBit(W)
  {
    forall plane ensures symbol.GetBit(plane) <==> (symbol.value / Pow2(BitPosition(plane))) % 2 == 1 {
      GetBitByDivision(symbol, plane);
    }
  }

  /** The rendering of 0b0000_0000 has no letters and no space. */
  lemma DebugStringOfZero(symbol: SubcodeSymbol)
    requires symbol.value == 0
    ensures symbol.DebugString() == "SubcodeSymbol(0b00000000)"
  {
    GetBitOfExtremes(symbol, SubcodeSymbol(0xFF));
    BinaryDigitsArePlanes(symbol);
    assert DigitChars(BitsOf(symbol.value, 8)) == "00000000";
  }

  /** The rendering of 0b1111_1111 pieces: all digits 1, all letters. */
  lemma AllOnesPieces(symbol: SubcodeSymbol)
    requires symbol.value == 0xFF
    ensures DigitChars(BitsOf(symbol.value, 8)) == "11111111"
    ensures symbol.SetPlaneLetters() == "PQRSTUVW"
  {
    GetBitOfExtremes(SubcodeSymbol(0), symbol);
    BinaryDigitsArePlanes(symbol);
    assert DigitChars(BitsOf(symbol.value, 8)) == "11111111";
    SetPlaneLettersUnrolled(symbol);
  }

  /** The rendering of 0b1111_1111. */
  lemma DebugStringOfAllOnes(symbol: SubcodeSymbol)
    requires symbol.value == 0xFF
    ensures symbol.DebugString() == "SubcodeSymbol(0b11111111 PQRSTUVW)"
  {
    AllOnesPieces(symbol);
    AllOnesText();
  }

  /** The rendering of 0b1001_0110 in pieces: its digits and the letters
      P, S, U, V. */
  lemma SomePieces(symbol: SubcodeSymbol)
    requires symbol.value == 0x96
    ensures DigitChars(BitsOf(symbol.value, 8)) == "10010110"
    ensures symbol.SetPlaneLetters() == "PSUV"
  {
    GetBitOfSome(symbol);
    BinaryDigitsArePlanes(symbol);
    assert DigitChars(BitsOf(symbol.value, 8)) == "10010110";
    SetPlaneLettersUnrolled(symbol);
  }

  /** The rendering of 0b1001_0110. */
  lemma DebugStringOfSome(symbol: SubcodeSymbol)
    requires symbol.value == 0x96
    ensures symbol.DebugString() == "SubcodeSymbol(0b10010110 PSUV)"
  {
    SomePieces(symbol);
    SomeText();
  }
}
