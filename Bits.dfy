/** Unsigned bit-level arithmetic shared by the symbol layer and the Q-frame
    layer: fixed-width integer types, shifts and masks as integer division and
    remainder, and the big-endian reading of a bit string. */
module Bits {

  /** Rust `u8`. */
  type Byte = x: int | 0 <= x < 0x100

  /** Rust `u16`. */
  type U16 = x: int | 0 <= x < 0x1_0000

  /** Rust `u32`. */
  type U32 = x: int | 0 <= x < 0x1_0000_0000

  /** One binary digit. */
  type Bit = x: int | 0 <= x < 2

  function Pow2(k: nat): (r: nat)
    ensures r >= 1
  {
    if k == 0 then 1 else 2 * Pow2(k - 1)
  }

  /** The powers of two that bound the integer widths used here. */
  lemma Pow2Widths()
    ensures Pow2(4) == 16 && Pow2(8) == 0x100 && Pow2(16) == 0x1_0000 && Pow2(32) == 0x1_0000_0000
  {
    assert Pow2(16) == 0x1_0000;
    assert Pow2(24) == 0x100_0000;
  }

  /** The truncating cast `x as u8` of a non-negative value. */
  function AsU8(x: nat): (r: Byte)
    ensures x < 0x100 ==> r == x
  {
    x % 0x100
  }

  /** The truncating cast `x as u16` of a non-negative value. */
  function AsU16(x: nat): (r: U16)
    ensures x < 0x1_0000 ==> r == x
  {
    x % 0x1_0000
  }

  /** The logical right shift `n >> k` of an unsigned value: k halvings.
      ShrIsDiv shows that it divides by 2^k. */
  function Shr(n: nat, k: nat): nat
  {
    if k == 0 then n else Shr(n / 2, k - 1)
  }

  lemma Pow2Monotone(a: nat, b: nat)
    requires a <= b
    ensures Pow2(a) <= Pow2(b)
    decreases b
  {
    if a < b {
      Pow2Monotone(a, b - 1);
    }
  }

  /** Euclidean division is determined by its quotient and remainder. */
  lemma DivUnique(n: nat, d: nat, q: nat, r: nat)
    requires 0 < d && r < d && n == q * d + r
    ensures n / d == q
  {
    var q' := n / d;
    if q + 1 <= q' {
      MulMonotone(q + 1, q', d);
      assert false;
    }
    if q' + 1 <= q {
      MulMonotone(q' + 1, q, d);
      assert false;
    }
  }

  lemma MulMonotone(a: nat, b: nat, d: nat)
    requires a <= b
    ensures a * d <= b * d
  {
  }

  /** Halving and then dividing by p is dividing by 2 * p. */
  lemma DivHalf(n: nat, p: nat)
    requires p > 0
    ensures (n / 2) / p == n / (2 * p)
  {
    var q := (n / 2) / p;
    var r := (n / 2) % p;
    assert n / 2 == q * p + r;
    assert n == q * (2 * p) + (2 * r + n % 2);
    DivUnique(n, 2 * p, q, 2 * r + n % 2);
  }

  /** Shifting right by k is dividing by 2^k. */
  lemma {:induction false} ShrIsDiv(n: nat, k: nat)
    ensures Shr(n, k) == n / Pow2(k)
  {
    if k > 0 {
      ShrIsDiv(n / 2, k - 1);
      DivHalf(n, Pow2(k - 1));
    }
  }

  /** Shifting right by k + 1 is shifting right by k and halving. */
  lemma {:induction false} ShrShr(n: nat, k: nat)
    ensures Shr(n, k + 1) == Shr(n, k) / 2
  {
    if k > 0 {
      ShrShr(n / 2, k - 1);
    }
  }

  /** A byte is its high nibble `x >> 4` times 16 plus its low nibble
      `x & 0xF`. */
  lemma NibbleSplit(x: Byte)
    ensures Shr(x, 4) < 16 && Shr(x, 4) == x / 16 && x == 16 * Shr(x, 4) + x % 16
  {
    ShrIsDiv(x, 4);
    Pow2Widths();
  }

  /** The w-bit binary representation of n, most significant bit first
      (the bits of n above position w - 1 are dropped). */
  function BitsOf(n: nat, w: nat): (bits: seq<Bit>)
    ensures |bits| == w
  {
    if w == 0 then [] else BitsOf(n / 2, w - 1) + [n % 2]
  }

  /** The unsigned number whose binary digits, most significant first, are
      `bits` (Horner's rule). */
  function BigEndian(bits: seq<Bit>): (r: nat)
    ensures r < Pow2(|bits|)
  {
    if bits == [] then 0 else 2 * BigEndian(bits[..|bits| - 1]) + bits[|bits| - 1]
  }

  /** Bit i (counted from the most significant end) of BitsOf(n, w) is bit
      w - 1 - i of n, i.e. `(n >> (w - 1 - i)) & 1`. */
  lemma {:induction false} BitsOfAt(n: nat, w: nat, i: nat)
    requires i < w
    ensures BitsOf(n, w)[i] == Shr(n, w - 1 - i) % 2
  {
    if i == w - 1 {
      assert Shr(n, 0) == n;
    } else {
      BitsOfAt(n / 2, w - 1, i);
    }
  }

  /** The w-bit representation of zero is all zeros. */
  lemma {:induction false} BitsOfZero(w: nat)
    ensures forall i :: 0 <= i < w ==> BitsOf(0, w)[i] == 0
  {
    if w > 0 {
      BitsOfZero(w - 1);
    }
  }

  /** Reading the w-bit representation of n back gives n. */
  lemma {:induction false} BigEndianOfBitsOf(n: nat, w: nat)
    requires n < Pow2(w)
    ensures BigEndian(BitsOf(n, w)) == n
  {
    if w > 0 {
      var bits := BitsOf(n, w);
      assert bits[..w - 1] == BitsOf(n / 2, w - 1);
      BigEndianOfBitsOf(n / 2, w - 1);
    }
  }

  /** Writing the value of a bit string back at its own width gives the
      bit string. */
  lemma {:induction false} BitsOfBigEndian(bits: seq<Bit>)
    ensures BitsOf(BigEndian(bits), |bits|) == bits
  {
    if bits != [] {
      var init := bits[..|bits| - 1];
      BitsOfBigEndian(init);
      assert bits == init + [bits[|bits| - 1]];
    }
  }

  /** Two bit strings of the same length with the same value are equal. */
  lemma BigEndianInjective(a: seq<Bit>, b: seq<Bit>)
    requires |a| == |b| && BigEndian(a) == BigEndian(b)
    ensures a == b
  {
    BitsOfBigEndian(a);
    BitsOfBigEndian(b);
  }

  /** The leading bit of a bit string weighs 2^(number of bits after it). */
  lemma {:induction false} BigEndianCons(b: Bit, t: seq<Bit>)
    ensures BigEndian([b] + t) == b * Pow2(|t|) + BigEndian(t)
    decreases |t|
  {
    if t != [] {
      var t' := t[..|t| - 1];
      assert ([b] + t)[..|t|] == [b] + t';
      BigEndianCons(b, t');
    }
  }

  /** `values.iter().zip(weights).map(|(v, w)| v * w).sum()`. */
  function ZipSum(values: seq<nat>, weights: seq<nat>): nat
    requires |values| == |weights|
  {
    if values == [] then 0 else values[0] * weights[0] + ZipSum(values[1..], weights[1..])
  }

  /** The descending powers of two 2^(len-1), ..., 2^0, that is
      `(0..len).map(|p| 1 << (len - 1 - p))`. */
  function Powers(len: nat): seq<nat>
  {
    seq(len, p requires 0 <= p < len => Pow2(len - 1 - p))
  }

  /** Weighting each bit by its descending power of two and summing is the
      big-endian value. */
  lemma {:induction false} ZipSumPowers(bits: seq<Bit>)
    ensures ZipSum(bits, Powers(|bits|)) == BigEndian(bits)
  {
    if bits != [] {
      var t := bits[1..];
      assert Powers(|bits|)[1..] == Powers(|t|);
      ZipSumPowers(t);
      assert bits == [bits[0]] + t;
      BigEndianCons(bits[0], t);
    }
  }
}
