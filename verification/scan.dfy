/** The shared contract of the line-scan primitives (src/parse.rs).

    Every backend finds the first byte of a span that is a line terminator
    (`\r` or `\n`), optionally also a caller-supplied delimiter, and returns
    its index, or the length of the span when there is none.  The contract
    is stated once here, over a set of needle bytes; the backends in
    generic.dfy, swar64.dfy, swar32.dfy and avx2.dfy are proved equal to it.
 */
module Scan {

  /** Carriage return, `b'\r'`. */
  const CR: bv8 := 0x0D
  /** Line feed, `b'\n'`. */
  const LF: bv8 := 0x0A

  /** The two bytes `find_nl` stops at. */
  const Newlines: set<bv8> := {LF, CR}

  predicate IsNewline(b: bv8) {
    b == LF || b == CR
  }

  /** The needles `find_nl_chr(s, chr)` stops at. */
  function NewlinesOr(chr: bv8): (n: set<bv8>)
    ensures forall b :: b in n <==> IsNewline(b) || b == chr
  {
    {LF, CR, chr}
  }

  /** `r` is a valid answer of a scan of `s` for `needles`: no needle occurs
      before `r`, and `r` is either the length of `s` or the index of a needle. */
  ghost predicate IsFirstMatch(s: seq<bv8>, needles: set<bv8>, r: nat) {
    && r <= |s|
    && (forall j :: 0 <= j < r ==> s[j] !in needles)
    && (r < |s| ==> s[r] in needles)
  }

  /** No byte of `s[i..r]` is in `needles`: the recursive form of the
      first half of the contract, which the parser model reasons with. */
  predicate NoneBetween(s: seq<bv8>, needles: set<bv8>, i: nat, r: nat)
    requires i <= r <= |s|
    decreases r - i
  {
    i == r || (s[i] !in needles && NoneBetween(s, needles, i + 1, r))
  }

  /** `NoneBetween` is the pointwise property. */
  lemma {:induction false} NoneBetweenIff(s: seq<bv8>, needles: set<bv8>, i: nat, r: nat)
    requires i <= r <= |s|
    ensures NoneBetween(s, needles, i, r) <==> forall j :: i <= j < r ==> s[j] !in needles
    decreases r - i
  {
    if i < r {
      NoneBetweenIff(s, needles, i + 1, r);
    }
  }

  /** Two adjacent needle-free ranges make one. */
  lemma {:induction false} NoneBetweenJoin(s: seq<bv8>, needles: set<bv8>, i: nat, k: nat, r: nat)
    requires i <= k <= r <= |s|
    requires NoneBetween(s, needles, i, k) && NoneBetween(s, needles, k, r)
    ensures NoneBetween(s, needles, i, r)
    decreases k - i
  {
    if i < k {
      NoneBetweenJoin(s, needles, i + 1, k, r);
    }
  }

  /** The index of the first byte of `s[i..end]` that is in `needles`,
      counted from the start of `s`, or `end`: the scan of a sub-slice,
      answered in the coordinates of the whole sequence. */
  function FirstMatchIn(s: seq<bv8>, needles: set<bv8>, i: nat, end: nat): (r: nat)
    requires i <= end <= |s|
    ensures i <= r <= end
    ensures NoneBetween(s, needles, i, r)
    ensures r < end ==> s[r] in needles
    decreases end - i
  {
    if i == end || s[i] in needles then i else FirstMatchIn(s, needles, i + 1, end)
  }

  /** The answer of a bounded scan is determined by its defining property. */
  lemma {:induction false} FirstMatchInUnique(s: seq<bv8>, needles: set<bv8>, i: nat, end: nat, r: nat)
    requires i <= r <= end <= |s|
    requires NoneBetween(s, needles, i, r)
    requires r < end ==> s[r] in needles
    ensures FirstMatchIn(s, needles, i, end) == r
    decreases r - i
  {
    if i < r {
      FirstMatchInUnique(s, needles, i + 1, end, r);
    }
  }

  /** The index of the first byte of `s` that is in `needles`, or `|s|`. */
  function FirstMatch(s: seq<bv8>, needles: set<bv8>): (r: nat)
    ensures IsFirstMatch(s, needles, r)
  {
    var r := FirstMatchIn(s, needles, 0, |s|);
    NoneBetweenIff(s, needles, 0, r);
    r
  }

  /** The contract of `find_nl`. */
  function FirstNewline(s: seq<bv8>): (r: nat)
    ensures IsFirstMatch(s, Newlines, r)
  {
    FirstMatch(s, Newlines)
  }

  /** The contract of `find_nl_chr`. */
  function FirstNewlineOr(s: seq<bv8>, chr: bv8): (r: nat)
    ensures IsFirstMatch(s, NewlinesOr(chr), r)
  {
    FirstMatch(s, NewlinesOr(chr))
  }

  /** The contract determines the answer: any index meeting it is the one
      `FirstMatch` computes.  This is what makes all backends interchangeable. */
  lemma FirstMatchUnique(s: seq<bv8>, needles: set<bv8>, r: nat)
    requires IsFirstMatch(s, needles, r)
    ensures r == FirstMatch(s, needles)
  {
    NoneBetweenIff(s, needles, 0, r);
    FirstMatchInUnique(s, needles, 0, |s|, r);
  }

  /** A scan of the tail `s[i..]` is the scan of `s` from `i`, shifted:
      the parser scans its unconsumed tail, and the model states the answer
      as an index of the whole document. */
  lemma FirstMatchTail(s: seq<bv8>, needles: set<bv8>, i: nat)
    requires i <= |s|
    ensures FirstMatchIn(s, needles, i, |s|) == i + FirstMatch(s[i..], needles)
  {
    var t := s[i..];
    var k := FirstMatch(t, needles);
    assert forall j :: i <= j <= i + k && j < |s| ==> s[j] == t[j - i];
    NoneBetweenIff(s, needles, i, i + k);
    FirstMatchInUnique(s, needles, i, |s|, i + k);
  }

  /** A scan that has already passed `o` needle-free bytes can resume on the
      suffix: the shape of every backend's scalar tail. */
  lemma FirstMatchSkip(s: seq<bv8>, needles: set<bv8>, o: nat)
    requires o <= |s|
    requires forall j :: 0 <= j < o ==> s[j] !in needles
    ensures FirstMatch(s, needles) == o + FirstMatch(s[o..], needles)
  {
    var t := FirstMatch(s[o..], needles);
    assert forall j :: o <= j < o + t ==> s[j] == s[o..][j - o];
    FirstMatchUnique(s, needles, o + t);
  }

  /** A block of `n` needle-free bytes at `offset` extends a needle-free
      prefix: the step of every block loop that finds nothing. */
  lemma BlockMiss(s: seq<bv8>, needles: set<bv8>, offset: nat, block: seq<bv8>)
    requires offset + |block| <= |s| && block == s[offset..offset + |block|]
    requires forall j :: 0 <= j < offset ==> s[j] !in needles
    requires forall k :: 0 <= k < |block| ==> block[k] !in needles
    ensures forall j :: 0 <= j < offset + |block| ==> s[j] !in needles
  {
    var n := |block|;
    assert forall j :: offset <= j < offset + n ==> s[j] == block[j - offset];
  }

  /** The first needle of a block at `offset`, after a needle-free prefix,
      is the first needle of the whole span: the step of every block loop
      that finds one. */
  lemma BlockHit(s: seq<bv8>, needles: set<bv8>, offset: nat, block: seq<bv8>, k: nat)
    requires offset + |block| <= |s| && block == s[offset..offset + |block|] && k < |block|
    requires forall j :: 0 <= j < offset ==> s[j] !in needles
    requires block[k] in needles
    requires forall i :: 0 <= i < k ==> block[i] !in needles
    ensures offset + k == FirstMatch(s, needles)
  {
    assert forall j :: offset <= j <= offset + k ==> s[j] == block[j - offset];
    FirstMatchUnique(s, needles, offset + k);
  }

  /** `find_nl_chr` never scans past `find_nl`, and is `find_nl` when the
      extra byte is itself a terminator. */
  lemma NewlineOrBeforeNewline(s: seq<bv8>, chr: bv8)
    ensures FirstNewlineOr(s, chr) <= FirstNewline(s)
    ensures IsNewline(chr) ==> FirstNewlineOr(s, chr) == FirstNewline(s)
  {
    if IsNewline(chr) {
      assert NewlinesOr(chr) == Newlines;
    }
  }

  /** Both scans are total: on the empty span they return 0. */
  lemma EmptyScan(chr: bv8)
    ensures FirstNewline([]) == 0
    ensures FirstNewlineOr([], chr) == 0
  {
  }

  /** The 254-byte buffer of the cross-backend test at step `i`: the bytes
      before `i` hold the complements `!0x0D` (even index) and `!0x0A` (odd
      index), position `i` holds `\n`, the rest holds `-`. */
  function TestBuffer(i: nat): (b: seq<bv8>)
    requires i < 254
    ensures |b| == 254 && b[i] == LF
  {
    seq(254, j requires 0 <= j < 254 =>
      if j < i then (if j % 2 == 0 then !CR else !LF)
      else if j == i then LF
      else 0x2D)
  }

  /** The cross-backend test: for every step, both scans (with `=` as the
      extra byte) find the planted `\n`; the complement bytes are never
      reported.  Every backend is proved equal to these functions. */
  lemma TestBufferScan(i: nat)
    requires i < 254
    ensures FirstNewline(TestBuffer(i)) == i
    ensures FirstNewlineOr(TestBuffer(i), 0x3D) == i
  {
    var b := TestBuffer(i);
    assert !IsNewline(!CR) && !IsNewline(!LF) && !CR != 0x3D && !LF != 0x3D;
    FirstMatchUnique(b, Newlines, i);
    FirstMatchUnique(b, NewlinesOr(0x3D), i);
  }
}
