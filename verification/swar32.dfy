/** The 32-bit word-parallel ("SWAR") backend (src/parse/swar32.rs), the
    choice for 32-bit little-endian targets without vector instructions.

    The needle byte is broadcast into all four byte lanes of a word, four
    input bytes are loaded as one little-endian word, and `Cmpeq` marks each
    equal lane with its top bit.  The proofs show that `Cmpeq` is an exact
    per-lane equality detector (no carry crosses a lane, no false positive),
    that `trailing_zeros(mask) >> 3` is the first matching lane, and hence
    that both scans equal the scalar contract on every input. */
module Swar32 {
  import opened Scan
  import opened Bits
  import Generic

  /** `0x01010101`: one in every lane. */
  const LaneOnes: bv32 := 0x0101_0101
  /** The seven low bits of every lane. */
  const LaneLows: bv32 := 0x7f7f_7f7f
  /** The top bit of every lane. */
  const LaneHighs: bv32 := 0x8080_8080

  /** The bit offset of byte lane `k`. */
  function LaneShift(k: nat): bv32
    requires k < 4
  {
    match k
    case 0 => 0 case 1 => 8 case 2 => 16 case _ => 24
  }

  /** Byte lane `k` of `x`; lane 0 is the least significant byte. */
  function Lane(x: bv32, k: nat): bv32
    requires k < 4
  {
    (x >> LaneShift(k)) & 0xFF
  }

  /** `b as u32 * 0x01010101`. */
  function Broadcast(b: bv8): bv32 {
    (b as bv32) * LaneOnes
  }

  /** The little-endian word of four bytes (`read_unaligned` of a `u32` on a
      little-endian target). */
  function LoadLe(b: seq<bv8>): bv32
    requires |b| == 4
  {
    (b[0] as bv32) | (b[1] as bv32 << 8) | (b[2] as bv32 << 16) | (b[3] as bv32 << 24)
  }

  /** `cmpeq(needle, haystack)`. */
  function Cmpeq(needle: bv32, haystack: bv32): bv32 {
    var neq := !(needle ^ haystack);
    var t0 := (neq & LaneLows) + LaneOnes;
    var t1 := neq & LaneHighs;
    t0 & t1
  }

  /** Neither `b as u32 * 0x01..01` nor the `+ 0x01..01` of `cmpeq`
      leaves the word's range, so the source's unchecked `*` and `+` (which
      would panic on overflow in a debug build) never overflow and agree
      with the word arithmetic of this model. */
  lemma NoOverflow(b: bv8, neq: bv32)
    ensures (b as int) * (LaneOnes as int) < 0x1_0000_0000
    ensures (neq & LaneLows) as int + LaneOnes as int < 0x1_0000_0000
  {
    assert neq & LaneLows <= LaneLows;
  }

  /** The multiplication places the byte in every lane. */
  lemma BroadcastLanes(b: bv8, k: nat)
    requires k < 4
    ensures Lane(Broadcast(b), k) == b as bv32
  {
    if k == 0 {} else if k == 1 {} else if k == 2 {} else {}
  }

  /** Byte `k` of the block is lane `k` of the loaded word. */
  lemma LoadLeLanes(b: seq<bv8>, k: nat)
    requires |b| == 4 && k < 4
    ensures Lane(LoadLe(b), k) == b[k] as bv32
  {
    if k == 0 {} else if k == 1 {} else if k == 2 {} else {}
  }

  /** `Cmpeq` is exact: lane `k` of the result is `0x80` when lane `k` of the
      two words agree and zero otherwise, and no bit outside the lanes' top
      bits is ever set (the `+ 0x01` of one lane never carries into the next). */
  lemma CmpeqExact(n: bv32, h: bv32, k: nat)
    requires k < 4
    ensures Lane(Cmpeq(n, h), k) == if Lane(n, k) == Lane(h, k) then 0x80 else 0
    ensures Cmpeq(n, h) & LaneLows == 0
  {
    if k == 0 {} else if k == 1 {} else if k == 2 {} else {}
  }

  lemma LaneOr(a: bv32, b: bv32, k: nat)
    requires k < 4
    ensures Lane(a | b, k) == Lane(a, k) | Lane(b, k)
  {
    if k == 0 {} else if k == 1 {} else if k == 2 {} else {}
  }

  /** In a word whose set bits are all lane tops, bit `8k + t` is set exactly
      when `t` is 7 and lane `k` is `0x80`. */
  lemma LaneBit(m: bv32, k: nat, t: nat)
    requires m & LaneLows == 0
    requires k < 4 && t < 8
    ensures Bit32(m, 8 * k + t) <==> t == 7 && Lane(m, k) == 0x80
  {
    if k == 0 {} else if k == 1 {} else if k == 2 {} else {}
  }

  lemma NoLaneIsZero(m: bv32)
    requires forall k: nat :: k < 4 ==> Lane(m, k) == 0
    ensures m == 0
  {
    assert Lane(m, 0) == 0 && Lane(m, 1) == 0 && Lane(m, 2) == 0 && Lane(m, 3) == 0;
  }

  /** `m` flags, lane by lane, which bytes of `block` are needles. */
  ghost predicate FlagsNeedles(m: bv32, block: seq<bv8>, needles: set<bv8>)
    requires |block| == 4
  {
    && m & LaneLows == 0
    && forall k: nat :: k < 4 ==> Lane(m, k) == if block[k] in needles then 0x80 else 0
  }

  /** A lane-flag mask is zero exactly when the block holds no needle, and
      otherwise `trailing_zeros(mask) >> 3` is the index of the first needle. */
  lemma MaskFirstMatch(m: bv32, block: seq<bv8>, needles: set<bv8>)
    requires |block| == 4
    requires FlagsNeedles(m, block, needles)
    ensures m == 0 <==> forall k :: 0 <= k < 4 ==> block[k] !in needles
    ensures m != 0 ==> TrailingZeros32(m) / 8 < 4
    ensures m != 0 ==> block[TrailingZeros32(m) / 8] in needles
    ensures m != 0 ==> forall k :: 0 <= k < TrailingZeros32(m) / 8 ==> block[k] !in needles
  {
    if m == 0 {
      forall k | 0 <= k < 4 ensures block[k] !in needles {
        assert Lane(m, k) == 0;
      }
    } else {
      if forall k :: 0 <= k < 4 ==> block[k] !in needles {
        NoLaneIsZero(m);
      }
      var tz := TrailingZeros32(m);
      var t, u := tz / 8, tz % 8;
      assert tz == 8 * t + u;
      LaneBit(m, t, u);
      forall k | 0 <= k < t ensures block[k] !in needles {
        LaneBit(m, k, 7);
        assert 8 * k + 7 < tz;
      }
    }
  }

  /** The mask `find_nl` computes from one word: `\r` and `\n` lanes. */
  function NewlineMask(w: bv32): bv32 {
    Cmpeq(Broadcast(LF), w) | Cmpeq(Broadcast(CR), w)
  }

  /** The mask `find_nl_chr` computes from one word: `\r`, `\n` and `chr` lanes. */
  function NewlineOrMask(w: bv32, chr: bv8): bv32 {
    NewlineMask(w) | Cmpeq(Broadcast(chr), w)
  }

  /** Comparing a loaded block against one broadcast byte flags exactly the
      lanes holding that byte. */
  lemma CmpeqFlags(block: seq<bv8>, c: bv8)
    requires |block| == 4
    ensures FlagsNeedles(Cmpeq(Broadcast(c), LoadLe(block)), block, {c})
  {
    var w := LoadLe(block);
    forall k: nat | k < 4
      ensures Lane(Cmpeq(Broadcast(c), w), k) == if block[k] in {c} then 0x80 else 0
    {
      LoadLeLanes(block, k);
      BroadcastLanes(c, k);
      CmpeqExact(Broadcast(c), w, k);
    }
    CmpeqExact(Broadcast(c), w, 0);
  }

  /** OR-ing two flag masks of the same block flags the union of the needles. */
  lemma FlagsOr(m1: bv32, m2: bv32, block: seq<bv8>, n1: set<bv8>, n2: set<bv8>)
    requires |block| == 4
    requires FlagsNeedles(m1, block, n1) && FlagsNeedles(m2, block, n2)
    ensures FlagsNeedles(m1 | m2, block, n1 + n2)
  {
    forall k: nat | k < 4
      ensures Lane(m1 | m2, k) == if block[k] in n1 + n2 then 0x80 else 0
    {
      LaneOr(m1, m2, k);
    }
  }

  /** The `find_nl` mask of a loaded block flags exactly its terminators. */
  lemma NewlineMaskFlags(block: seq<bv8>)
    requires |block| == 4
    ensures FlagsNeedles(NewlineMask(LoadLe(block)), block, Newlines)
  {
    var w := LoadLe(block);
    CmpeqFlags(block, LF);
    CmpeqFlags(block, CR);
    FlagsOr(Cmpeq(Broadcast(LF), w), Cmpeq(Broadcast(CR), w), block, {LF}, {CR});
    assert {LF} + {CR} == Newlines;
  }

  /** The `find_nl_chr` mask of a loaded block flags exactly its terminators
      and `chr` bytes. */
  lemma NewlineOrMaskFlags(block: seq<bv8>, chr: bv8)
    requires |block| == 4
    ensures FlagsNeedles(NewlineOrMask(LoadLe(block), chr), block, NewlinesOr(chr))
  {
    var w := LoadLe(block);
    var m1, m2 := NewlineMask(w), Cmpeq(Broadcast(chr), w);
    NewlineMaskFlags(block);
    CmpeqFlags(block, chr);
    FlagsOr(m1, m2, block, Newlines, {chr});
    FlagsSameNeedles(m1 | m2, block, Newlines + {chr}, NewlinesOr(chr));
  }

  /** Flags stated over one needle set hold over any equal set. */
  lemma FlagsSameNeedles(m: bv32, block: seq<bv8>, n1: set<bv8>, n2: set<bv8>)
    requires |block| == 4 && n1 == n2
    requires FlagsNeedles(m, block, n1)
    ensures FlagsNeedles(m, block, n2)
  {
  }

  /** A loop step, given only that the mask flags the needles of the block
      at `offset`: a zero mask extends the needle-free prefix, and otherwise
      `trailing_zeros(mask) >> 3` past `offset` is the first needle of `s`. */
  lemma FlagsBlock(s: seq<bv8>, needles: set<bv8>, offset: nat, block: seq<bv8>, mask: bv32)
    requires offset + 4 <= |s| && block == s[offset..offset + 4]
    requires forall j :: 0 <= j < offset ==> s[j] !in needles
    requires FlagsNeedles(mask, block, needles)
    ensures mask == 0 ==> forall j :: 0 <= j < offset + 4 ==> s[j] !in needles
    ensures mask != 0 ==> offset + TrailingZeros32(mask) / 8 == FirstMatch(s, needles)
  {
    MaskFirstMatch(mask, block, needles);
    if mask == 0 {
      BlockMiss(s, needles, offset, block);
    } else {
      BlockHit(s, needles, offset, block, TrailingZeros32(mask) / 8);
    }
  }

  /** One iteration of the `find_nl` loop: a zero mask means the four bytes
      at `offset` hold no terminator; otherwise the lane index of the mask's
      lowest set bit, added to `offset`, is the scalar answer. */
  lemma NewlineBlock(s: seq<bv8>, offset: nat, mask: bv32)
    requires offset + 4 <= |s|
    requires forall j :: 0 <= j < offset ==> s[j] !in Newlines
    requires mask == NewlineMask(LoadLe(s[offset..offset + 4]))
    ensures mask == 0 ==> forall j :: 0 <= j < offset + 4 ==> s[j] !in Newlines
    ensures mask != 0 ==> offset + TrailingZeros32(mask) / 8 == FirstNewline(s)
  {
    var block := s[offset..offset + 4];
    NewlineMaskFlags(block);
    FlagsBlock(s, Newlines, offset, block, mask);
  }

  /** One iteration of the `find_nl_chr` loop. */
  lemma NewlineOrBlock(s: seq<bv8>, chr: bv8, offset: nat, mask: bv32)
    requires offset + 4 <= |s|
    requires forall j :: 0 <= j < offset ==> s[j] !in NewlinesOr(chr)
    requires mask == NewlineOrMask(LoadLe(s[offset..offset + 4]), chr)
    ensures mask == 0 ==> forall j :: 0 <= j < offset + 4 ==> s[j] !in NewlinesOr(chr)
    ensures mask != 0 ==> offset + TrailingZeros32(mask) / 8 == FirstNewlineOr(s, chr)
  {
    var block := s[offset..offset + 4];
    NewlineOrMaskFlags(block, chr);
    FlagsBlock(s, NewlinesOr(chr), offset, block, mask);
  }

  /** `swar32::find_nl`: equal to the scalar contract on every input. */
  method FindNl(s: seq<bv8>) returns (r: nat)
    ensures r == FirstNewline(s)
  {
    var offset := 0;
    var nLit := Broadcast(LF);
    var rLit := Broadcast(CR);
    while offset + 4 <= |s|
      invariant offset % 4 == 0
      invariant offset <= |s|
      invariant forall j :: 0 <= j < offset ==> s[j] !in Newlines
    {
      var word := LoadLe(s[offset..offset + 4]);
      var mask := Cmpeq(nLit, word) | Cmpeq(rLit, word);
      NewlineBlock(s, offset, mask);
      if mask != 0 {
        return offset + TrailingZeros32(mask) / 8;
      }
      offset := offset + 4;
    }
    // the unchecked bound of the release build: offset is inside the input
    assert offset <= |s|;
    var tail := Generic.FindNl(s[offset..]);
    FirstMatchSkip(s, Newlines, offset);
    offset := offset + tail;
    // the unchecked bound of the release build: offset is inside the input
    assert offset <= |s|;
    r := offset;
  }

  /** `swar32::find_nl_chr`: equal to the scalar contract on every input. */
  method FindNlChr(s: seq<bv8>, chr: bv8) returns (r: nat)
    ensures r == FirstNewlineOr(s, chr)
  {
    var offset := 0;
    var nLit := Broadcast(LF);
    var rLit := Broadcast(CR);
    var cLit := Broadcast(chr);
    while offset + 4 <= |s|
      invariant offset % 4 == 0
      invariant offset <= |s|
      invariant forall j :: 0 <= j < offset ==> s[j] !in NewlinesOr(chr)
    {
      var word := LoadLe(s[offset..offset + 4]);
      var mask := Cmpeq(nLit, word) | Cmpeq(rLit, word) | Cmpeq(cLit, word);
      NewlineOrBlock(s, chr, offset, mask);
      if mask != 0 {
        return offset + TrailingZeros32(mask) / 8;
      }
      offset := offset + 4;
    }
    // the unchecked bound of the release build: offset is inside the input
    assert offset <= |s|;
    var tail := Generic.FindNlChr(s[offset..], chr);
    FirstMatchSkip(s, NewlinesOr(chr), offset);
    offset := offset + tail;
    // the unchecked bound of the release build: offset is inside the input
    assert offset <= |s|;
    r := offset;
  }
}
