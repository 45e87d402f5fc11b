/** The 32-byte vector backend (src/parse/avx2.rs), the choice for x86
    targets with AVX2.

    A 256-bit register is modelled as its 32 byte lanes.  The intrinsics
    become lane-wise functions: `_mm256_set1_epi8` fills every lane,
    `_mm256_cmpeq_epi8` sets a lane to `0xFF` when the two lanes are equal
    and to zero otherwise, `_mm256_or_si256` ORs lanes, and
    `_mm256_movemask_epi8` collects the top bit of lane `k` into bit `k` of
    a 32-bit mask.  Loads, pointers and alignment are not modelled. */
module Avx2 {
  import opened Scan
  import opened Bits
  import Generic

  /** Bytes per register. */
  const Lanes: nat := 32

  /** `_mm256_set1_epi8(c)`. */
  function Set1(c: bv8): (v: seq<bv8>)
    ensures |v| == Lanes
  {
    seq(Lanes, _ => c)
  }

  /** `_mm256_cmpeq_epi8(a, b)`. */
  function CmpeqEpi8(a: seq<bv8>, b: seq<bv8>): (v: seq<bv8>)
    requires |a| == Lanes && |b| == Lanes
    ensures |v| == Lanes
  {
    seq(Lanes, k requires 0 <= k < Lanes => if a[k] == b[k] then 0xFF else 0x00)
  }

  /** `_mm256_or_si256(a, b)`. */
  function OrSi256(a: seq<bv8>, b: seq<bv8>): (v: seq<bv8>)
    requires |a| == Lanes && |b| == Lanes
    ensures |v| == Lanes
  {
    seq(Lanes, k requires 0 <= k < Lanes => a[k] | b[k])
  }

  function Flag(p: bool): bv32 {
    if p then 1 else 0
  }

  /** `_mm256_movemask_epi8(v)`, built lane by lane from the top down: bit
      `k` of the result is the top bit of lane `k`, and the bits past the
      last lane are clear. */
  function Movemask(v: seq<bv8>): (m: bv32)
    requires |v| <= Lanes
    ensures TopBits(m, v)
  {
    if |v| == 0 then
      0
    else
      var y := Movemask(v[1..]);
      var m := Flag(v[0] & 0x80 != 0) | (y << 1);
      MovemaskStep(v, y, m);
      m
  }

  /** Bit `k` of `m` is the top bit of lane `k` of `v`, and zero past the
      last lane. */
  ghost predicate TopBits(m: bv32, v: seq<bv8>) {
    forall k: nat :: k < 32 ==> (Bit32(m, k) <==> k < |v| && v[k] & 0x80 != 0)
  }

  lemma ShiftInBit(y: bv32, p: bool, k: nat)
    requires 0 < k < 32
    ensures Bit32(Flag(p) | (y << 1), k) == Bit32(y, k - 1)
  {
    assert Mask32(k) == Mask32(k - 1) << 1;
  }

  /** Shifting the movemask of the lanes after the first up by one and
      putting the first lane's top bit below it gives the movemask of all
      lanes. */
  lemma MovemaskStep(v: seq<bv8>, y: bv32, m: bv32)
    requires 0 < |v| <= Lanes
    requires TopBits(y, v[1..])
    requires m == Flag(v[0] & 0x80 != 0) | (y << 1)
    ensures TopBits(m, v)
  {
    forall k: nat | k < 32
      ensures Bit32(m, k) <==> k < |v| && v[k] & 0x80 != 0
    {
      if k > 0 {
        assert Bit32(y, k - 1) <==> k - 1 < |v[1..]| && v[1..][k - 1] & 0x80 != 0;
      }
      MovemaskLane(v, y, m, k);
    }
  }

  /** One bit of that step: bit 0 is the first lane's top bit, bit `k > 0`
      is bit `k - 1` of the rest. */
  lemma MovemaskLane(v: seq<bv8>, y: bv32, m: bv32, k: nat)
    requires 0 < |v| <= Lanes && k < 32
    requires m == Flag(v[0] & 0x80 != 0) | (y << 1)
    requires 0 < k ==> (Bit32(y, k - 1) <==> k < |v| && v[k] & 0x80 != 0)
    ensures Bit32(m, k) <==> k < |v| && v[k] & 0x80 != 0
  {
    if k == 0 {
      LowBit(y, v[0] & 0x80 != 0);
    } else {
      ShiftInBit(y, v[0] & 0x80 != 0, k);
    }
  }

  lemma LowBit(y: bv32, p: bool)
    ensures Bit32(Flag(p) | (y << 1), 0) == p
  {
  }

  /** Bit `k` of `m` is set exactly when byte `k` of `block` is a needle. */
  ghost predicate FlagsNeedles(m: bv32, block: seq<bv8>, needles: set<bv8>)
    requires |block| == Lanes
  {
    forall k: nat :: k < Lanes ==> (Bit32(m, k) <==> block[k] in needles)
  }

  /** The mask `find_nl` computes from one block. */
  function NewlineMask(block: seq<bv8>): bv32
    requires |block| == Lanes
  {
    Movemask(OrSi256(CmpeqEpi8(Set1(LF), block), CmpeqEpi8(Set1(CR), block)))
  }

  /** The mask `find_nl_chr` computes from one block. */
  function NewlineOrMask(block: seq<bv8>, chr: bv8): bv32
    requires |block| == Lanes
  {
    Movemask(OrSi256(OrSi256(CmpeqEpi8(Set1(LF), block), CmpeqEpi8(Set1(CR), block)),
                     CmpeqEpi8(Set1(chr), block)))
  }

  lemma NewlineMaskFlags(block: seq<bv8>)
    requires |block| == Lanes
    ensures FlagsNeedles(NewlineMask(block), block, Newlines)
  {
    var v := OrSi256(CmpeqEpi8(Set1(LF), block), CmpeqEpi8(Set1(CR), block));
    assert TopBits(NewlineMask(block), v);
  }

  lemma NewlineOrMaskFlags(block: seq<bv8>, chr: bv8)
    requires |block| == Lanes
    ensures FlagsNeedles(NewlineOrMask(block, chr), block, NewlinesOr(chr))
  {
    var v := OrSi256(OrSi256(CmpeqEpi8(Set1(LF), block), CmpeqEpi8(Set1(CR), block)),
                     CmpeqEpi8(Set1(chr), block));
    assert TopBits(NewlineOrMask(block, chr), v);
  }

  /** A flag mask is zero exactly when the block holds no needle, and
      otherwise its trailing-zero count is the index of the first needle. */
  lemma MaskFirstMatch(m: bv32, block: seq<bv8>, needles: set<bv8>)
    requires |block| == Lanes
    requires FlagsNeedles(m, block, needles)
    ensures m == 0 <==> forall k :: 0 <= k < Lanes ==> block[k] !in needles
    ensures m != 0 ==> TrailingZeros32(m) < Lanes
    ensures m != 0 ==> block[TrailingZeros32(m)] in needles
    ensures m != 0 ==> forall k :: 0 <= k < TrailingZeros32(m) ==> block[k] !in needles
  {
    if forall k :: 0 <= k < Lanes ==> block[k] !in needles {
      NoBit32IsZero(m);
    }
  }

  /** One iteration of the `find_nl` loop. */
  lemma NewlineBlock(s: seq<bv8>, offset: nat, mask: bv32)
    requires offset + Lanes <= |s|
    requires forall j :: 0 <= j < offset ==> s[j] !in Newlines
    requires mask == NewlineMask(s[offset..offset + Lanes])
    ensures mask == 0 ==> forall j :: 0 <= j < offset + Lanes ==> s[j] !in Newlines
    ensures mask != 0 ==> offset + TrailingZeros32(mask) == FirstNewline(s)
  {
    var block := s[offset..offset + Lanes];
    NewlineMaskFlags(block);
    MaskFirstMatch(mask, block, Newlines);
    if mask == 0 {
      BlockMiss(s, Newlines, offset, block);
    } else {
      BlockHit(s, Newlines, offset, block, TrailingZeros32(mask));
    }
  }

  /** One iteration of the `find_nl_chr` loop. */
  lemma NewlineOrBlock(s: seq<bv8>, chr: bv8, offset: nat, mask: bv32)
    requires offset + Lanes <= |s|
    requires forall j :: 0 <= j < offset ==> s[j] !in NewlinesOr(chr)
    requires mask == NewlineOrMask(s[offset..offset + Lanes], chr)
    ensures mask == 0 ==> forall j :: 0 <= j < offset + Lanes ==> s[j] !in NewlinesOr(chr)
    ensures mask != 0 ==> offset + TrailingZeros32(mask) == FirstNewlineOr(s, chr)
  {
    var block := s[offset..offset + Lanes];
    NewlineOrMaskFlags(block, chr);
    MaskFirstMatch(mask, block, NewlinesOr(chr));
    if mask == 0 {
      BlockMiss(s, NewlinesOr(chr), offset, block);
    } else {
      BlockHit(s, NewlinesOr(chr), offset, block, TrailingZeros32(mask));
    }
  }

  /** `avx2::find_nl`: equal to the scalar contract on every input.  A block
      is loaded only while `offset + 32 <= |s|`; the tail is scanned by the
      scalar backend. */
  method FindNl(s: seq<bv8>) returns (r: nat)
    ensures r == FirstNewline(s)
  {
    var offset := 0;
    var nLit := Set1(LF);
    var rLit := Set1(CR);
    while offset + Lanes <= |s|
      invariant offset <= |s|
      invariant forall j :: 0 <= j < offset ==> s[j] !in Newlines
    {
      var block := s[offset..offset + Lanes];
      var nEq := CmpeqEpi8(nLit, block);
      var rEq := CmpeqEpi8(rLit, block);
      var mask := Movemask(OrSi256(nEq, rEq));
      NewlineBlock(s, offset, mask);
      if mask != 0 {
        return offset + TrailingZeros32(mask);
      }
      offset := offset + Lanes;
    }
    // the unchecked bound of the release build: offset is inside the input
    assert offset <= |s|;
    var tail := Generic.FindNl(s[offset..]);
    FirstMatchSkip(s, Newlines, offset);
    offset := offset + tail;
    // the unchecked bound of the release build: offset is inside the input
    assert offset <= |s|;
    r := offset;
  }

  /** `avx2::find_nl_chr`: equal to the scalar contract on every input. */
  method FindNlChr(s: seq<bv8>, chr: bv8) returns (r: nat)
    ensures r == FirstNewlineOr(s, chr)
  {
    var offset := 0;
    var nLit := Set1(LF);
    var rLit := Set1(CR);
    var cLit := Set1(chr);
    while offset + Lanes <= |s|
      invariant offset <= |s|
      invariant forall j :: 0 <= j < offset ==> s[j] !in NewlinesOr(chr)
    {
      var block := s[offset..offset + Lanes];
      var nEq := CmpeqEpi8(nLit, block);
      var rEq := CmpeqEpi8(rLit, block);
      var cEq := CmpeqEpi8(cLit, block);
      var mask := Movemask(OrSi256(OrSi256(nEq, rEq), cEq));
      NewlineOrBlock(s, chr, offset, mask);
      if mask != 0 {
        return offset + TrailingZeros32(mask);
      }
      offset := offset + Lanes;
    }
    // the unchecked bound of the release build: offset is inside the input
    assert offset <= |s|;
    var tail := Generic.FindNlChr(s[offset..], chr);
    FirstMatchSkip(s, NewlinesOr(chr), offset);
    offset := offset + tail;
    // the unchecked bound of the release build: offset is inside the input
    assert offset <= |s|;
    r := offset;
  }
}
