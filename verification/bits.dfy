/** Bit-level vocabulary shared by the word-parallel and vector backends:
    single bits of 32- and 64-bit words, and `trailing_zeros` as Rust defines
    it on `u32`/`i32` and `u64` (the number of zero bits below the lowest set
    bit, or the width when the word is zero).

    Bit positions are looked up in a table of literal masks rather than
    computed by shifting by an integer, which keeps every proof a
    fixed-width bit-vector problem. */
module Bits {

  /** The 32-bit word with only bit `k` set. */
  function Mask32(k: nat): bv32
    requires k < 32
  {
    match k
    case 0 => 0x1
    case 1 => 0x2
    case 2 => 0x4
    case 3 => 0x8
    case 4 => 0x10
    case 5 => 0x20
    case 6 => 0x40
    case 7 => 0x80
    case 8 => 0x100
    case 9 => 0x200
    case 10 => 0x400
    case 11 => 0x800
    case 12 => 0x1000
    case 13 => 0x2000
    case 14 => 0x4000
    case 15 => 0x8000
    case 16 => 0x10000
    case 17 => 0x20000
    case 18 => 0x40000
    case 19 => 0x80000
    case 20 => 0x100000
    case 21 => 0x200000
    case 22 => 0x400000
    case 23 => 0x800000
    case 24 => 0x1000000
    case 25 => 0x2000000
    case 26 => 0x4000000
    case 27 => 0x8000000
    case 28 => 0x10000000
    case 29 => 0x20000000
    case 30 => 0x40000000
    case _ => 0x80000000
  }

  /** The 64-bit word with only bit `k` set. */
  function Mask64(k: nat): bv64
    requires k < 64
  {
    if k < 32 then Mask32(k) as bv64 else (Mask32(k - 32) as bv64) << 32
  }

  predicate Bit32(x: bv32, k: nat)
    requires k < 32
  {
    x & Mask32(k) != 0
  }

  predicate Bit64(x: bv64, k: nat)
    requires k < 64
  {
    x & Mask64(k) != 0
  }

  /** A word none of whose bits is set is zero. */
  lemma NoBit32IsZero(x: bv32)
    requires forall k: nat :: k < 32 ==> !Bit32(x, k)
    ensures x == 0
  {
    assert !Bit32(x, 0) && !Bit32(x, 1) && !Bit32(x, 2) && !Bit32(x, 3)
        && !Bit32(x, 4) && !Bit32(x, 5) && !Bit32(x, 6) && !Bit32(x, 7);
    assert !Bit32(x, 8) && !Bit32(x, 9) && !Bit32(x, 10) && !Bit32(x, 11)
        && !Bit32(x, 12) && !Bit32(x, 13) && !Bit32(x, 14) && !Bit32(x, 15);
    assert !Bit32(x, 16) && !Bit32(x, 17) && !Bit32(x, 18) && !Bit32(x, 19)
        && !Bit32(x, 20) && !Bit32(x, 21) && !Bit32(x, 22) && !Bit32(x, 23);
    assert !Bit32(x, 24) && !Bit32(x, 25) && !Bit32(x, 26) && !Bit32(x, 27)
        && !Bit32(x, 28) && !Bit32(x, 29) && !Bit32(x, 30) && !Bit32(x, 31);
  }

  lemma NoBit64IsZero(x: bv64)
    requires forall k: nat :: k < 64 ==> !Bit64(x, k)
    ensures x == 0
  {
    assert !Bit64(x, 0) && !Bit64(x, 1) && !Bit64(x, 2) && !Bit64(x, 3)
        && !Bit64(x, 4) && !Bit64(x, 5) && !Bit64(x, 6) && !Bit64(x, 7);
    assert !Bit64(x, 8) && !Bit64(x, 9) && !Bit64(x, 10) && !Bit64(x, 11)
        && !Bit64(x, 12) && !Bit64(x, 13) && !Bit64(x, 14) && !Bit64(x, 15);
    assert !Bit64(x, 16) && !Bit64(x, 17) && !Bit64(x, 18) && !Bit64(x, 19)
        && !Bit64(x, 20) && !Bit64(x, 21) && !Bit64(x, 22) && !Bit64(x, 23);
    assert !Bit64(x, 24) && !Bit64(x, 25) && !Bit64(x, 26) && !Bit64(x, 27)
        && !Bit64(x, 28) && !Bit64(x, 29) && !Bit64(x, 30) && !Bit64(x, 31);
    assert !Bit64(x, 32) && !Bit64(x, 33) && !Bit64(x, 34) && !Bit64(x, 35)
        && !Bit64(x, 36) && !Bit64(x, 37) && !Bit64(x, 38) && !Bit64(x, 39);
    assert !Bit64(x, 40) && !Bit64(x, 41) && !Bit64(x, 42) && !Bit64(x, 43)
        && !Bit64(x, 44) && !Bit64(x, 45) && !Bit64(x, 46) && !Bit64(x, 47);
    assert !Bit64(x, 48) && !Bit64(x, 49) && !Bit64(x, 50) && !Bit64(x, 51)
        && !Bit64(x, 52) && !Bit64(x, 53) && !Bit64(x, 54) && !Bit64(x, 55);
    assert !Bit64(x, 56) && !Bit64(x, 57) && !Bit64(x, 58) && !Bit64(x, 59)
        && !Bit64(x, 60) && !Bit64(x, 61) && !Bit64(x, 62) && !Bit64(x, 63);
  }

  /** Counts the clear bits of `x` from bit `i` upwards, up to the first set bit. */
  function ZerosFrom32(x: bv32, i: nat): (r: nat)
    requires i <= 32
    ensures i <= r <= 32
    ensures forall k: nat :: i <= k < r ==> !Bit32(x, k)
    ensures r < 32 ==> Bit32(x, r)
    decreases 32 - i
  {
    if i == 32 then 32 else if Bit32(x, i) then i else ZerosFrom32(x, i + 1)
  }

  function ZerosFrom64(x: bv64, i: nat): (r: nat)
    requires i <= 64
    ensures i <= r <= 64
    ensures forall k: nat :: i <= k < r ==> !Bit64(x, k)
    ensures r < 64 ==> Bit64(x, r)
    decreases 64 - i
  {
    if i == 64 then 64 else if Bit64(x, i) then i else ZerosFrom64(x, i + 1)
  }

  /** The count from bit 0 reaches the width exactly for the zero word. */
  lemma ZerosIffZero32(x: bv32)
    ensures ZerosFrom32(x, 0) == 32 <==> x == 0
  {
    var r := ZerosFrom32(x, 0);
    if r == 32 {
      NoBit32IsZero(x);
    } else {
      assert x & Mask32(r) != 0;
    }
  }

  lemma ZerosIffZero64(x: bv64)
    ensures ZerosFrom64(x, 0) == 64 <==> x == 0
  {
    var r := ZerosFrom64(x, 0);
    if r == 64 {
      NoBit64IsZero(x);
    } else {
      assert x & Mask64(r) != 0;
    }
  }

  /** `u32::trailing_zeros` (also `i32::trailing_zeros`, which counts the
      same bits): every bit below the result is clear, the bit at the result
      is set, and the result is 32 exactly for the zero word. */
  function TrailingZeros32(x: bv32): (r: nat)
    ensures r <= 32
    ensures forall k: nat :: k < r ==> !Bit32(x, k)
    ensures r < 32 ==> Bit32(x, r)
    ensures r == 32 <==> x == 0
  {
    ZerosIffZero32(x);
    ZerosFrom32(x, 0)
  }

  /** `u64::trailing_zeros`. */
  function TrailingZeros64(x: bv64): (r: nat)
    ensures r <= 64
    ensures forall k: nat :: k < r ==> !Bit64(x, k)
    ensures r < 64 ==> Bit64(x, r)
    ensures r == 64 <==> x == 0
  {
    ZerosIffZero64(x);
    ZerosFrom64(x, 0)
  }
}
