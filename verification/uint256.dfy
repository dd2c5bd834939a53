/**
 * The part of the 256-bit unsigned integer type (uint256.h, Bitcoin 0.10
 * lineage) that the proof-of-work rules rely on: the widths, the compact
 * "nBits" encoding (SetCompact / GetCompact), the in-place multiplication by a
 * 32-bit factor that wraps around, and the bitwise complement.
 *
 * Targets are modelled as naturals below 2^256; every wrap-around is written
 * out with `% TWO_256`.
 */
module UInt256 {
  import opened Arithmetic

  const TWO_32: nat := 0x1_0000_0000
  const TWO_256: nat := 0x1_0000_0000_0000_0000_0000_0000_0000_0000_0000_0000_0000_0000_0000_0000_0000_0000

  /** An `unsigned int` (the compact nBits word, a block time). */
  type Uint32 = x: nat | x < TWO_32

  /** A `uint256` value. */
  type Uint256 = x: nat | x < TWO_256

  /** 256^n, the weight of a byte position. */
  function Pow256(n: nat): (r: nat)
    ensures r >= 1
  {
    if n == 0 then 1 else 256 * Pow256(n - 1)
  }

  lemma {:induction false} Pow256Add(a: nat, b: nat)
    ensures Pow256(a + b) == Pow256(a) * Pow256(b)
  {
    if a > 0 {
      Pow256Add(a - 1, b);
      calc {
        Pow256(a + b);
        256 * Pow256(a - 1 + b);
        256 * (Pow256(a - 1) * Pow256(b));
        (256 * Pow256(a - 1)) * Pow256(b);
        Pow256(a) * Pow256(b);
      }
    }
  }

  lemma {:induction false} Pow256Monotone(a: nat, b: nat)
    requires a <= b
    ensures Pow256(a) <= Pow256(b)
  {
    if a < b {
      Pow256Monotone(a, b - 1);
    }
  }

  lemma Pow256Is2To256()
    ensures Pow256(32) == TWO_256
  {
    assert Pow256(2) == 0x1_0000;
    Pow256Add(2, 2);
    Pow256Add(4, 4);
    Pow256Add(8, 8);
    Pow256Add(16, 16);
  }

  /** `~x`: bitwise complement of a 256-bit value. */
  function Complement(x: Uint256): (r: Uint256)
    ensures x + r == TWO_256 - 1
  {
    TWO_256 - 1 - x
  }

  /**
   * `x *= k` where `k` is a 64-bit signed integer: overload resolution picks
   * `base_uint::operator*=(uint32_t)`, so `k` is first reduced modulo 2^32 and
   * the product then wraps modulo 2^256.
   */
  function Mul32(x: Uint256, k: int): (r: Uint256)
    ensures 0 <= k < TWO_32 && x * k < TWO_256 ==> r == x * k
  {
    MulWrap(x, k % TWO_32)
  }

  /** The product `x * k` reduced modulo 2^256, built up one addend at a time. */
  function MulWrap(x: Uint256, k: nat): (r: Uint256)
    ensures x * k < TWO_256 ==> r == x * k
  {
    if k == 0 then 0
    else
      assert x * (k - 1) + x == x * k;
      (MulWrap(x, k - 1) + x) % TWO_256
  }

  /** The multiplication wraps exactly like the 256-bit product. */
  lemma {:induction false} MulWrapIsProductMod(x: Uint256, k: nat)
    ensures MulWrap(x, k) == (x * k) % TWO_256
  {
    if k > 0 {
      MulWrapIsProductMod(x, k - 1);
      assert x * (k - 1) + x == x * k;
      ModAddLeft(x * (k - 1), x, TWO_256);
    }
  }

  /** `*=` by a 64-bit factor: the factor modulo 2^32, the product modulo 2^256. */
  lemma Mul32Wraps(x: Uint256, k: int)
    ensures Mul32(x, k) == (x * (k % TWO_32)) % TWO_256
  {
    MulWrapIsProductMod(x, k % TWO_32);
  }

  // ---------------------------------------------------------------------
  // Compact encoding: 1 exponent byte (size in bytes), 23 mantissa bits and
  // a sign bit at 0x00800000.
  // ---------------------------------------------------------------------

  const EXPONENT_UNIT: nat := 0x100_0000
  const SIGN_BIT: nat := 0x80_0000

  /** `nCompact >> 24` */
  function Exponent(bits: Uint32): nat
  {
    bits / EXPONENT_UNIT
  }

  /** `nCompact & 0x007fffff` */
  function Mantissa(bits: Uint32): nat
  {
    bits % SIGN_BIT
  }

  /** `(nCompact & 0x00800000) != 0` */
  predicate SignBitSet(bits: Uint32)
  {
    (bits / SIGN_BIT) % 2 == 1
  }

  /** The outcome of `SetCompact(nCompact, &fNegative, &fOverflow)`. */
  datatype Decoded = Decoded(value: Uint256, negative: bool, overflow: bool)

  /** `x << 8n` on a uint256: bits pushed past the top are lost. */
  function ShiftLeft(x: Uint256, n: nat): Uint256
  {
    if n == 0 then x else (ShiftLeft(x, n - 1) * 256) % TWO_256
  }

  /** `x >> 8n`. */
  function ShiftRight(x: nat, n: nat): (r: nat)
    ensures r <= x
  {
    if n == 0 then x else ShiftRight(x, n - 1) / 256
  }

  /** The mantissa after the right shift SetCompact applies to exponents of at most 3. */
  function ShiftedWord(bits: Uint32): nat
  {
    var size := Exponent(bits);
    if size <= 3 then ShiftRight(Mantissa(bits), 3 - size) else Mantissa(bits)
  }

  /**
   * SetCompact: the magnitude (a left shift that drops bits above 2^256) and
   * the two flags. A zero mantissa never sets a flag.
   */
  function DecodeCompact(bits: Uint32): (d: Decoded)
    ensures d.negative <==> ShiftedWord(bits) != 0 && SignBitSet(bits)
    ensures d.overflow ==> ShiftedWord(bits) != 0 && Exponent(bits) > 32
    ensures Exponent(bits) <= 3 ==> d.value == ShiftedWord(bits) && !d.overflow
  {
    var size := Exponent(bits);
    var word := ShiftedWord(bits);
    var value := if size <= 3 then word else ShiftLeft(word, size - 3);
    Decoded(value, word != 0 && SignBitSet(bits),
            word != 0 && (size > 34 || (word > 0xff && size > 33) || (word > 0xffff && size > 32)))
  }

  /** A shift that loses no bit is a multiplication. */
  lemma {:induction false} ShiftLeftExact(x: Uint256, n: nat)
    requires x * Pow256(n) < TWO_256
    ensures ShiftLeft(x, n) == x * Pow256(n)
  {
    if n > 0 {
      var below := Pow256(n - 1);
      assert Pow256(n) == below * 256;
      MulLe(below, Pow256(n), x);
      ShiftLeftExact(x, n - 1);
      var shifted := x * below;
      MulAssoc(x, below, 256);
      assert shifted * 256 == x * Pow256(n);
      ModBelow(shifted * 256, TWO_256);
    }
  }

  /** A left shift by at least one byte clears the low byte. */
  lemma ShiftLeftLowByte(x: Uint256, n: nat)
    requires n >= 1
    ensures ShiftLeft(x, n) % 256 == 0
  {
    var y := ShiftLeft(x, n - 1);
    var high := TWO_256 / 256;
    assert TWO_256 == 256 * high;
    ModScaled(y, high, 256);
  }

  lemma {:induction false} ShiftRightIsDiv(x: nat, n: nat)
    ensures ShiftRight(x, n) == x / Pow256(n)
  {
    if n > 0 {
      ShiftRightIsDiv(x, n - 1);
      DivDiv(x, Pow256(n - 1), 256);
    }
  }

  /**
   * Decoding never silently truncates: when no overflow is reported, the
   * magnitude is the mantissa shifted left exactly, with no bit lost.
   */
  lemma DecodeIsExact(bits: Uint32)
    requires !DecodeCompact(bits).overflow && Exponent(bits) > 3
    ensures DecodeCompact(bits).value == Mantissa(bits) * Pow256(Exponent(bits) - 3)
  {
    var size, word := Exponent(bits), Mantissa(bits);
    if word != 0 {
      // how many bytes the mantissa may occupy at this exponent
      var k: nat := if size <= 32 then 3 else if size == 33 then 2 else 1;
      assert size - 3 + k <= 32;
      assert Pow256(1) == 256 && Pow256(2) == 0x1_0000 && Pow256(3) == SIGN_BIT * 2;
      assert word < Pow256(k);
      MulStrict(word, Pow256(k), Pow256(size - 3));
      Pow256Add(k, size - 3);
      Pow256Monotone(size - 3 + k, 32);
      Pow256Is2To256();
      ShiftLeftExact(word, size - 3);
    } else {
      ShiftLeftExact(0, size - 3);
    }
  }

  /** A decoded magnitude is never all ones, so `value + 1` never wraps. */
  lemma DecodeBelowMax(bits: Uint32)
    ensures DecodeCompact(bits).value < TWO_256 - 1
  {
    var size := Exponent(bits);
    if size > 3 {
      ShiftLeftLowByte(ShiftedWord(bits), size - 3);
    }
  }

  // ---------------------------------------------------------------------
  // GetCompact
  // ---------------------------------------------------------------------

  /** `(bits() + 7) / 8`: the number of significant bytes of `v`. */
  function ByteLength(v: nat): (n: nat)
    ensures v < Pow256(n)
    ensures n > 0 ==> Pow256(n - 1) <= v
    ensures v == 0 <==> n == 0
  {
    if v == 0 then 0 else 1 + ByteLength(v / 256)
  }

  lemma ByteLengthAtMost32(v: Uint256)
    ensures ByteLength(v) <= 32
  {
    var n := ByteLength(v);
    if n > 32 {
      Pow256Monotone(32, n - 1);
      Pow256Is2To256();
    }
  }

  /** The 24-bit word GetCompact extracts before moving the sign bit out of the way. */
  function CompactWord(v: Uint256): (m: nat)
    ensures m < SIGN_BIT * 2
    ensures v == 0 <==> m == 0
  {
    var n := ByteLength(v);
    if n <= 3 then
      CompactWordSmall(v, n);
      ShiftLeft(v, 3 - n)
    else
      CompactWordLarge(v, n);
      ShiftRight(v, n - 3)
  }

  lemma CompactWordSmall(v: Uint256, n: nat)
    requires n == ByteLength(v) && n <= 3
    ensures ShiftLeft(v, 3 - n) == v * Pow256(3 - n) < SIGN_BIT * 2
    ensures v == 0 <==> v * Pow256(3 - n) == 0
  {
    Pow256Add(n, 3 - n);
    assert Pow256(3) == SIGN_BIT * 2;
    MulStrict(v, Pow256(n), Pow256(3 - n));
    Pow256Monotone(3, 32);
    Pow256Is2To256();
    ShiftLeftExact(v, 3 - n);
    if v > 0 {
      MulLe(1, v, Pow256(3 - n));
    }
  }

  lemma CompactWordLarge(v: Uint256, n: nat)
    requires n == ByteLength(v) && n > 3
    ensures ShiftRight(v, n - 3) == v / Pow256(n - 3)
    ensures 0x1_0000 <= v / Pow256(n - 3) < SIGN_BIT * 2
  {
    ShiftRightIsDiv(v, n - 3);
    Pow256Add(3, n - 3);
    Pow256Add(2, n - 3);
    assert Pow256(3) == SIGN_BIT * 2 && Pow256(2) == 0x1_0000;
    DivBelow(v, Pow256(3), Pow256(n - 3));
    DivAtLeast(v, Pow256(2), Pow256(n - 3));
  }

  /**
   * GetCompact (with fNegative = false): lossy, keeps the three most
   * significant bytes; a word whose top bit would read as the sign is moved
   * one byte down and the exponent raised by one.
   */
  function EncodeCompact(v: Uint256): (bits: Uint32)
    ensures Exponent(bits) <= 33 && !SignBitSet(bits)
    ensures Exponent(bits) == ByteLength(v) || Exponent(bits) == ByteLength(v) + 1
    ensures Mantissa(bits) == 0 <==> v == 0
  {
    var n := ByteLength(v);
    var m := CompactWord(v);
    ByteLengthAtMost32(v);
    if m >= SIGN_BIT then Pack(n + 1, m / 256) else Pack(n, m)
  }

  /** `nSize << 24 | nWord` for a word that leaves the sign bit clear. */
  function Pack(size: nat, word: nat): (bits: Uint32)
    requires size <= 33 && word < SIGN_BIT
    ensures Exponent(bits) == size && Mantissa(bits) == word && !SignBitSet(bits)
  {
    size * EXPONENT_UNIT + word
  }

  /**
   * The lossy round trip GetCompact then SetCompact: the flags stay clear,
   * nothing is gained (the value never grows), a nonzero value stays nonzero,
   * and values below 2^23 come back exactly.
   */
  lemma CompactRoundTrip(v: Uint256)
    ensures var d := DecodeCompact(EncodeCompact(v));
      && !d.negative && !d.overflow && d.value <= v
      && (v > 0 ==> d.value > 0)
      && (v < SIGN_BIT ==> d.value == v)
  {
    var n := ByteLength(v);
    var m := CompactWord(v);
    ByteLengthAtMost32(v);
    if n <= 3 {
      CompactWordSmall(v, n);
      if m < SIGN_BIT {
        RoundTripSmall(v, n, m);
      } else if n < 3 {
        RoundTripSmallShifted(v, n, m);
      } else {
        RoundTripThreeBytes(v, m);
      }
    } else {
      CompactWordLarge(v, n);
      assert v >= SIGN_BIT by {
        Pow256Monotone(3, n - 1);
        assert Pow256(3) == SIGN_BIT * 2;
      }
      if m < SIGN_BIT {
        RoundTripLarge(v, n, m);
      } else {
        RoundTripLargeShifted(v, n, m);
      }
    }
  }

  lemma RoundTripSmall(v: Uint256, n: nat, m: nat)
    requires n == ByteLength(v) && n <= 3 && m == CompactWord(v) && m < SIGN_BIT
    requires m == v * Pow256(3 - n)
    ensures var d := DecodeCompact(EncodeCompact(v)); !d.negative && !d.overflow && d.value == v
  {
    var bits := EncodeCompact(v);
    assert bits == Pack(n, m);
    ShiftRightIsDiv(m, 3 - n);
    MulDivCancel(v, Pow256(3 - n));
    assert ShiftedWord(bits) == v;
  }

  lemma RoundTripSmallShifted(v: Uint256, n: nat, m: nat)
    requires n == ByteLength(v) && n < 3 && m == CompactWord(v) && m >= SIGN_BIT
    requires m == v * Pow256(3 - n)
    ensures var d := DecodeCompact(EncodeCompact(v)); !d.negative && !d.overflow && d.value == v
  {
    var bits := EncodeCompact(v);
    assert bits == Pack(n + 1, m / 256);
    assert Pow256(3 - n) == 256 * Pow256(2 - n);
    MulAssoc(v, Pow256(2 - n), 256);
    assert m == (v * Pow256(2 - n)) * 256;
    MulDivCancel(v * Pow256(2 - n), 256);
    ShiftRightIsDiv(m / 256, 2 - n);
    MulDivCancel(v, Pow256(2 - n));
    assert ShiftedWord(bits) == v;
  }

  lemma RoundTripThreeBytes(v: Uint256, m: nat)
    requires ByteLength(v) == 3 && m == CompactWord(v) && m >= SIGN_BIT
    requires m == v * Pow256(0)
    ensures var d := DecodeCompact(EncodeCompact(v));
      !d.negative && !d.overflow && 0 < d.value <= v
  {
    var bits := EncodeCompact(v);
    assert m == v;
    assert bits == Pack(4, v / 256);
    assert ShiftedWord(bits) == v / 256;
    assert ShiftLeft(v / 256, 1) == ((v / 256) * 256) % TWO_256;
  }

  /** SetCompact of a packed word whose exponent calls for a left shift. */
  lemma DecodePacked(size: nat, word: nat)
    requires 3 < size <= 33 && word < SIGN_BIT
    ensures var d := DecodeCompact(Pack(size, word));
      && d.value == ShiftLeft(word, size - 3)
      && !d.negative
      && (d.overflow <==> word > 0xffff && size > 32)
  {
    assert ShiftedWord(Pack(size, word)) == word;
  }

  lemma RoundTripLarge(v: Uint256, n: nat, m: nat)
    requires n == ByteLength(v) && 3 < n <= 32 && m == CompactWord(v) && m < SIGN_BIT
    requires m == v / Pow256(n - 3) && m >= 0x1_0000
    ensures var d := DecodeCompact(EncodeCompact(v));
      !d.negative && !d.overflow && 0 < d.value <= v
  {
    var p := Pow256(n - 3);
    assert EncodeCompact(v) == Pack(n, m);
    DecodePacked(n, m);
    DivMulBelow(v, p);
    ShiftLeftExact(m, n - 3);
    MulLe(1, m, p);
  }

  lemma RoundTripLargeShifted(v: Uint256, n: nat, m: nat)
    requires n == ByteLength(v) && 3 < n <= 32 && m == CompactWord(v) && m >= SIGN_BIT
    requires m == v / Pow256(n - 3)
    ensures var d := DecodeCompact(EncodeCompact(v));
      !d.negative && !d.overflow && 0 < d.value <= v
  {
    var p := Pow256(n - 3);
    var w := m / 256;
    assert EncodeCompact(v) == Pack(n + 1, w);
    DecodePacked(n + 1, w);
    DivMulBelow(v, p);
    assert Pow256(n - 2) == 256 * p;
    MulAssoc(w, 256, p);
    MulLe(w * 256, m, p);
    ShiftLeftExact(w, n - 2);
    MulLe(1, w * 256, p);
  }
}
