# ini-roundtrip, modelled in Dafny

A verified model of the core of `ini-roundtrip`, a format-preserving,
streaming INI parser. The model has two parts.

**The line-classifying iterator (`src/lib.rs`).**
- The document is an immutable byte sequence `seq<bv8>`.
- The parser is a record `Parser(pos, line, sectionEnded)`. Its unconsumed tail, `state` in the source, is `doc[pos..]`.
- Every `raw`, `name`, `key` and `val` of an `Item` is a `Span` of the document. This is the counterpart of the borrowed `&'a str`.
- `Ini.Next` is `Iterator::next`, a pure step function `(Option<Item>, Parser)`:
  - the first byte of the tail picks the branch: blank, comment, section or property;
  - a `SectionEnd` marker is emitted before every `[` line and once at the end;
  - `skip_ln` consumes exactly one `\r\n`, `\r` or `\n`.
- `IniRun.Run` and `IniRun.Parse` run the iterator to completion.
- The proved properties:
  - each branch reads the whole line at the front of the tail (`Ini.NextReadsLine` against the reference reading `Ini.ClassifyLine`);
  - the iteration is fused and terminates;
  - markers sit exactly before `[` lines and at the end;
  - the round trip: the raw lines and the terminators between them tile the whole document (`IniRun.ParseCovers`).

**The line-scan primitives `find_nl` / `find_nl_chr` (`src/parse.rs`, `src/parse/*`).**
- The shared contract is stated once, in `Scan`: the first byte that is a needle, or the length when there is none.
- Each backend is a `method` with loop invariants, proved equal to that contract on every input:
  - the scalar reference `Generic`;
  - the word-parallel backends `Swar64` and `Swar32`;
  - the vector backend `Avx2`.
- For the word-parallel backends, the bit-level facts are proved on `bv64` / `bv32`:
  - `cmpeq` is an exact lane-wise equality detector;
  - the multiplication by `0x01…01` broadcasts a byte;
  - `trailing_zeros >> 3` is the first matching lane.
- For AVX2, the intrinsics are lane-wise functions on 32-byte sequences. The movemask is proved to collect one flag per lane.
- `Select` models the `cfg_if` backend choice and the cross-backend test.

How the two parts connect:
- The parser scans with absolute indices (`Scan.FirstMatchIn`).
- `Ini.TailScans` proves these scans are `find_nl` / `find_nl_chr` of the tail, shifted by its offset.
- Every backend equals those contracts. So the parser model holds whichever backend a build selects.

Files:
- `scan.dfy`: the scan contract.
- `bits.dfy`: bit masks and `trailing_zeros`.
- `generic.dfy`, `swar64.dfy`, `swar32.dfy`, `avx2.dfy`: the backends.
- `select.dfy`: backend selection.
- `ini.dfy`: items, parser and step function.
- `ini_lines.dfy`: per-line properties.
- `ini_run.dfy`: whole-document properties.
- `ini_examples.dfy`: the documented and tested examples as exact item lists.

## Model

| member | source | states |
|---|---|---|
| Scan.FirstMatch | src/parse.rs:4-14 | the scan answer is at most the length; no needle occurs before it; below the length it is the index of a needle |
| Scan.FirstNewline | src/parse.rs:6-9 | `find_nl`: the index of the first `\r` or `\n`, or the input length |
| Scan.FirstNewlineOr | src/parse.rs:11-14 | `find_nl_chr`: the index of the first `\r`, `\n` or `chr`, or the input length |
| Scan.FirstMatchUnique | src/parse.rs:4-14 | the contract determines the answer: any index meeting it equals the scan, so every backend is interchangeable with the reference |
| Scan.FirstMatchTail | src/lib.rs:276 | scanning the tail `s[i..]` gives the scan of `s` from `i`, shifted by `i` |
| Scan.FirstMatchSkip | src/parse/swar64.rs:20-25 | after a needle-free prefix of length `o`, the scan of the whole is `o` plus the scan of the suffix: the scalar tail's delegation is sound |
| Scan.BlockMiss | src/parse/swar64.rs:7-18 | a needle-free block after a needle-free prefix extends the prefix (the loop invariant's step) |
| Scan.BlockHit | src/parse/avx2.rs:34-36 | the first needle of a block after a needle-free prefix, plus the block offset, is the scan of the whole input |
| Scan.NewlineOrBeforeNewline | src/parse/generic.rs:2-27 | `find_nl_chr(s, c) <= find_nl(s)`, with equality when `c` is `\r` or `\n` |
| Scan.EmptyScan | src/parse/generic.rs:3-4 | both scans return 0 on the empty input |
| Scan.TestBuffer | src/parse.rs:76-89 | the test buffer at step `i` has 254 bytes with `\n` at `i` |
| Scan.TestBufferScan | src/parse.rs:74-91 | on every buffer of the cross-backend test both scans, `=` as the extra byte, return the planted index: the complement bytes `!0x0D` and `!0x0A` are never matches |
| Bits.TrailingZeros32 | src/parse/avx2.rs:35 | `trailing_zeros`: all bits below the result are clear, the bit at it is set, and it is 32 exactly for zero |
| Bits.TrailingZeros64 | src/parse/swar64.rs:14 | the same for 64-bit words, with 64 for zero |
| Generic.FindNl | src/parse/generic.rs:2-13 | the byte loop returns the `find_nl` contract; the index stays within the input |
| Generic.FindNlChr | src/parse/generic.rs:16-27 | the byte loop returns the `find_nl_chr` contract; the index stays within the input |
| Swar64.BroadcastLanes | src/parse/swar64.rs:5-6 | multiplying a byte by `0x0101010101010101` puts it in every one of the 8 lanes |
| Swar64.LoadLeLanes | src/parse/swar64.rs:11 | lane `k` of the little-endian word is byte `k` of the block |
| Swar64.NoOverflow | src/parse/swar64.rs:32-59 | the broadcast product `b * 0x0101010101010101` and the `cmpeq` sum `(neq & 0x7f..7f) + 0x01..01` both stay below 2^64, so the unchecked `*` and `+` never overflow |
| Swar64.CmpeqExact | src/parse/swar64.rs:57-62 | `cmpeq` gives `0x80` in lane `k` iff the lanes agree and 0 otherwise, and sets no bit outside the lane tops (no carry crosses a lane) |
| Swar64.MaskFirstMatch | src/parse/swar64.rs:12-15 | a lane-flag mask is zero iff the block holds no needle; otherwise `trailing_zeros >> 3` indexes the first needle |
| Swar64.NewlineMaskFlags | src/parse/swar64.rs:12 | the OR of the `\n` and `\r` comparisons flags exactly the terminator lanes |
| Swar64.NewlineOrMaskFlags | src/parse/swar64.rs:40 | the OR of the three comparisons flags exactly the terminator and `chr` lanes |
| Swar64.NewlineBlock | src/parse/swar64.rs:7-18 | one loop iteration of `find_nl`: a zero mask extends the needle-free prefix by 8; a non-zero mask yields the scalar answer |
| Swar64.NewlineOrBlock | src/parse/swar64.rs:35-46 | the same for `find_nl_chr` |
| Swar64.FindNl | src/parse/swar64.rs:2-26 | equals `generic::find_nl` on every input; the offset is a multiple of 8, needle-free before it and within the input (both unchecked bounds hold) |
| Swar64.FindNlChr | src/parse/swar64.rs:29-54 | equals `generic::find_nl_chr` on every input, under the same invariant |
| Swar32.BroadcastLanes | src/parse/swar32.rs:5-6 | multiplying a byte by `0x01010101` puts it in every one of the 4 lanes |
| Swar32.LoadLeLanes | src/parse/swar32.rs:11 | lane `k` of the little-endian word is byte `k` of the block |
| Swar32.NoOverflow | src/parse/swar32.rs:32-59 | the same bounds below 2^32 for the 32-bit broadcast and `cmpeq` |
| Swar32.CmpeqExact | src/parse/swar32.rs:57-62 | `cmpeq` gives `0x80` in lane `k` iff the lanes agree and 0 otherwise, and sets no other bit |
| Swar32.MaskFirstMatch | src/parse/swar32.rs:12-15 | a lane-flag mask is zero iff the block holds no needle; otherwise `trailing_zeros >> 3` indexes the first needle |
| Swar32.NewlineMaskFlags | src/parse/swar32.rs:12 | the `find_nl` mask flags exactly the terminator lanes |
| Swar32.NewlineOrMaskFlags | src/parse/swar32.rs:40 | the `find_nl_chr` mask flags exactly the terminator and `chr` lanes |
| Swar32.NewlineBlock | src/parse/swar32.rs:7-18 | one loop iteration of `find_nl` over 4 bytes |
| Swar32.NewlineOrBlock | src/parse/swar32.rs:35-46 | one loop iteration of `find_nl_chr` over 4 bytes |
| Swar32.FindNl | src/parse/swar32.rs:2-26 | equals `generic::find_nl` on every input; the offset is a multiple of 4, needle-free before it and within the input |
| Swar32.FindNlChr | src/parse/swar32.rs:29-54 | equals `generic::find_nl_chr` on every input |
| Avx2.Movemask | src/parse/avx2.rs:32 | `_mm256_movemask_epi8`: bit `k` of the mask is the top bit of lane `k`; no bit past the last lane is set |
| Avx2.NewlineMaskFlags | src/parse/avx2.rs:29-32 | bit `k` of the `find_nl` mask is set iff byte `k` of the block is `\r` or `\n` |
| Avx2.NewlineOrMaskFlags | src/parse/avx2.rs:66-70 | bit `k` of the `find_nl_chr` mask is set iff byte `k` is `\r`, `\n` or `chr` |
| Avx2.MaskFirstMatch | src/parse/avx2.rs:34-36 | the mask is zero iff the block holds no needle; otherwise `trailing_zeros` indexes the first needle |
| Avx2.NewlineBlock | src/parse/avx2.rs:26-39 | one 32-byte iteration of `find_nl`: a miss extends the needle-free prefix; a hit at `offset + trailing_zeros` is the first terminator of the whole input |
| Avx2.NewlineOrBlock | src/parse/avx2.rs:63-77 | the same for `find_nl_chr` |
| Avx2.FindNl | src/parse/avx2.rs:15-48 | equals `generic::find_nl` on every input; blocks are read only while `offset + 32 <= len`; the scalar tail keeps the offset within the input |
| Avx2.FindNlChr | src/parse/avx2.rs:51-86 | equals `generic::find_nl_chr` on every input |
| Select.SelectBackend | src/parse.rs:48-72 | the first matching arm wins: for each backend, the exact targets that get it. AVX2 iff little-endian x86 with AVX2; SSE2 iff little-endian x86 with SSE2 but not AVX2; SWAR64 (SWAR32) iff little-endian, neither x86 arm applies, and pointers are 64 (32) bits wide; scalar on big-endian targets and on every remaining one |
| Select.FindNl | src/parse.rs:48-72 | whichever modelled backend is selected, `find_nl` equals the contract |
| Select.FindNlChr | src/parse.rs:48-72 | whichever modelled backend is selected, `find_nl_chr` equals the contract |
| Select.TestParseStep | src/parse.rs:74-91 | at every step of the test, the reference and all modelled backends return the planted index for both scans |
| Ini.Trim | src/lib.rs:106-109 | the trim lies inside the span; what it drops at either end is ASCII whitespace; a non-empty trim starts and ends with non-whitespace |
| Ini.New | src/lib.rs:240-247 | a new parser has the whole document as remainder, line 0 and the flag down |
| Ini.SkipLn | src/lib.rs:262-273 | on a non-empty tail starting at a terminator it skips exactly one of `\r\n`, `\r`, `\n` and counts one line; on an empty tail it changes nothing |
| Ini.LineAt | src/lib.rs:276-277 | the line at `at` holds no terminator byte and ends at a terminator or at the end of the document |
| Ini.EqualsIn | src/lib.rs:333-336 | the first `=` of a line, or the line end when there is none |
| Ini.GetLineAndAdvance | src/lib.rs:275-280 | returns the whole line at `at` and moves past exactly one terminator, counting it |
| Ini.TailScans | src/lib.rs:333-353 | the parser's absolute scans are `find_nl` and `find_nl_chr` of the unconsumed tail, shifted by its offset |
| Ini.EqualsOrEol | src/lib.rs:333-353 | `find_nl_chr(s, b'=')` stops at an `=` iff the line has one, and then at the line's first `=`; after it, `find_nl` stops at the same line end; otherwise it stops at the line end |
| Ini.ReadsLineAdvances | src/lib.rs:286-367 | a step that reads a line consumes at least one byte and clears the flag only on a `[` line |
| Ini.AdvancesMeasure | src/tests.rs:248-261 | every advancing step strictly decreases `2·|tail| + (flag ? 0 : 1)` |
| Ini.BlankLine | src/lib.rs:300-303 | the blank branch yields `Blank` and advances |
| Ini.CommentLine | src/lib.rs:305-308 | the comment branch yields `Comment` and advances |
| Ini.SectionLine | src/lib.rs:310-326 | once the marker is out, a `[` line yields `Section` or `Error` and advances |
| Ini.PropertyLine | src/lib.rs:332-365 | any other line yields `Property` or `Blank` and advances |
| Ini.KeyOnlyBranch | src/lib.rs:336-348 | without `=`: a key-only property, or blank, then one terminator skipped |
| Ini.KeyValueBranch | src/lib.rs:349-364 | with `=`: a property with a value, then one terminator skipped |
| Ini.LineStep | src/lib.rs:299-365 | every line branch yields a line item and advances |
| Ini.Next | src/lib.rs:286-367 | fused (`None` exactly at the end with the flag up, and the parser no longer changes); each `Some` decreases the measure; `SectionEnd` exactly at the end or before a `[` line when the flag is down, raising only the flag; every other item consumes input |
| Ini.BlankLineReads | src/lib.rs:300-303 | the blank branch reads the empty line before the terminator and skips one terminator |
| Ini.CommentLineReads | src/lib.rs:305-308 | the comment branch reads the whole line, marker included |
| Ini.SectionLineReads | src/lib.rs:311-325 | the section branch reads the whole line, clears the flag and skips one terminator |
| Ini.KeyOnlyReads | src/lib.rs:336-348 | the key-only branch gives the reference reading of a line without `=` |
| Ini.KeyValueReads | src/lib.rs:350-363 | the key-value branch gives the reference reading of a line split at its first `=` |
| Ini.PropertyLineReads | src/lib.rs:332-365 | the two interleaved scans of the property branch read the whole line as the reference reading does |
| Ini.PropertyLineScans | src/lib.rs:333-357 | the property branch's item is the reading of the line, and it skips the terminator after the line |
| Ini.KeyValueScans | src/lib.rs:350-363 | on a line with `=`, the property branch's item is the reading of the line |
| Ini.LineStepReads | src/lib.rs:299-365 | every line branch reads the whole line at the front of the tail |
| Ini.ClassifyLine | src/lib.rs:299-365 | the reading of one whole line gives exactly one line item whose raw span is that line; it is a comment exactly when the line starts with `;` or `#`; it is a section or an error exactly when the line starts with `[`, and an error exactly when such a line does not end in `]` |
| Ini.PropertyItem | src/lib.rs:332-363 | a property-like line is `Blank` exactly when every byte is ASCII whitespace, and otherwise a `Property` whose key lies inside the line; without a value the key is non-empty and the line holds no `=`; with a value an `=` lies between the key and the value |
| Ini.NextReadsLine | src/lib.rs:286-367 | every non-marker item of `next` is the reference reading of the whole line at the old position, and the parser moves past that line and one terminator |
| IniLines.TrimIdempotent | src/lib.rs:106-109 | trimming a trimmed span changes nothing |
| IniLines.TrimKeepsInner | src/lib.rs:106-109 | a span whose end bytes are not whitespace is its own trim |
| IniLines.TrimEmptyIffBlank | src/lib.rs:335-343 | a span trims to empty iff every byte is ASCII whitespace |
| IniLines.VerticalTabKept | src/lib.rs:108 | `\x0B` is not trimmed |
| IniLines.SkipLnRemovesTerminator | src/lib.rs:262-273 | the old tail is the removed terminator followed by the new tail |
| IniLines.LfCrIsTwoTerminators | src/lib.rs:264-269 | `\n\r` and `\r\r` lose one byte per step; `\r\n` is skipped whole |
| IniLines.NextClassifiesLine | src/lib.rs:289-333 | without a pending marker, `next` at a line yields the reference reading of that line |
| IniLines.BlankOnTerminator | src/lib.rs:300-303 | a line starting with `\r` or `\n` is `Blank` with an empty raw, and only the terminator is skipped |
| IniLines.CommentKeepsMarker | src/lib.rs:305-308 | a `;` or `#` line is a `Comment` whose non-empty raw starts at the marker and is a whole line |
| IniLines.SectionIffClosed | src/lib.rs:313-325 | after its marker a `[` line is a `Section` iff the byte before its end is `]`; the name is the trimmed inside, the raw excludes the terminator; otherwise `Error` with the whole line; the flag drops |
| IniLines.PropertySplit | src/lib.rs:349-363 | with `=`: the key is the trim before the first `=`, the value the trim of everything after it to the terminator, later `=` included; an empty key is still a property |
| IniLines.PropertyLineSplit | src/lib.rs:349-363 | the line-level half of the split |
| IniLines.KeyOnly | src/lib.rs:336-348 | without `=`: `Blank` with the untrimmed raw iff the line is all whitespace, otherwise `Property` with no value |
| IniLines.ItemWithinRaw | src/lib.rs:319-362 | name, key and value are sub-ranges of the raw line they were read from |
| IniLines.StepRoundTrip | src/lib.rs:275-280 | old tail = raw line ++ one terminator ++ new tail (nothing at the end of the document) |
| IniLines.LineRoundTrip | src/lib.rs:275-280 | the same, for any step that reads a line |
| IniRun.NextInv | src/lib.rs:289-333 | the flag is up only at a `[` line or at the end; every step keeps this, and a line step leaves the flag down |
| IniRun.Run | src/lib.rs:283-370 | the run is empty iff the parser is at the end with the flag up |
| IniRun.Parse | src/lib.rs:291-298 | every document, the empty one included, yields a run that ends with `SectionEnd` |
| IniRun.StepFlags | src/lib.rs:310-329 | a marker raises the flag and is followed by a `[` line or the end; a `[` line is read only with the flag up; other items leave it down |
| IniRun.RunBoundaries | src/lib.rs:310-329 | in every run the last item is a marker, each `[` line comes right after a marker, and each marker but the last comes right before a `[` line |
| IniRun.SkipsTerminatorLength | src/lib.rs:262-273 | `skip_ln` skips two bytes for `\r\n`, one for a lone `\r` or `\n`, none at the end |
| IniRun.StepCovers | src/lib.rs:275-280 | a line step's raw line starts at the old position and the new position is past it and its terminator |
| IniRun.RunCovers | src/lib.rs:7 | the raw lines of a run, with one terminator after each, tile the tail exactly |
| IniRun.ParseCovers | src/lib.rs:81 | the raw lines of `Parse` and their terminators make up the whole document |
| IniRun.ParseMarkers | src/lib.rs:140-143 | over a whole document every `[` line, header or error, comes right after a `SectionEnd`, and the run ends with one |
| IniExamples.EmptyDocument | src/lib.rs:145-149 | `""` yields exactly `[SectionEnd]` |
| IniExamples.KeyValueLine | src/lib.rs:158-161 | `Key=Value` yields key `Key`, value `Value`, raw the whole line |
| IniExamples.KeyValue | src/lib.rs:158-161 | the complete run of `Key=Value` |
| IniExamples.KeyWithoutValue | src/lib.rs:162-164 | `Key` yields a property without value |
| IniExamples.CommentLine | src/lib.rs:178-181 | `;comment` yields one comment whose raw line is `;comment`, then the final marker |
| IniExamples.EmptyLine | src/lib.rs:192-195 | `\n` yields a blank item with an empty raw line, moving past the terminator to line 1; the run then ends with the final marker |
| IniExamples.SectionHeader | src/lib.rs:128-131 | `[Section]` yields a marker, the section `Section`, and the final marker |
| IniExamples.UnclosedHeader | src/lib.rs:119-122 | `[Error` yields a marker, then an `Error` with the whole line |
| IniExamples.ErrorsAdvanceLines | src/tests.rs:250-258 | each error line of `[\n[] \r\n` is consumed with its terminator |
| IniExamples.ErrorsAdvance | src/tests.rs:248-261 | `[\n[] \r\n` yields marker, error, marker, error, marker |
| IniExamples.BlankLines | src/tests.rs:227-235 | `\r\r\n\r` is three blank lines; `\r\n` counts once |
| IniExamples.WhitespaceLine | src/tests.rs:181 | a whitespace line without `=` is blank with its raw kept |
| IniExamples.Overview | src/lib.rs:22-41 | the crate's overview document yields marker, section, comment, the padded property with key and value trimmed, and the final marker |
| IniExamples.Nonsense | src/lib.rs:48-65 | after an unclosed header the parser carries on: marker, error, key-only property, marker |

## Left out

- The `Display` impl of `Item` (src/lib.rs:202-222). It is a lossy formatter and not part of the round-trip contract.
- UTF-8 validation in `from_utf8` (src/lib.rs:96-104). The model works on bytes, and every slice the parser takes is at an ASCII byte, so slicing commutes with decoding.
- `Ini.SkipLn`: counts lines with an unbounded natural, not the source's `u32`. The `self.line += 1` of src/lib.rs:270 overflows only after about four billion terminators; a debug build then panics and a release build wraps to zero. Neither outcome is modelled.
- SIMD and pointer mechanics:
  - the AVX2 intrinsics are lane-wise functions on 32-byte sequences;
  - `_mm256_lddqu_si256` is a sequence slice;
  - `read_unaligned` in the word-parallel backends is a little-endian pack of the bytes;
  - alignment and pointer arithmetic are not modelled.
- Avx2.MaskFirstMatch: the movemask is an `i32` in the source and is modelled as `bv32`. `trailing_zeros` counts the same bits either way.
- Select.FindNl: the SSE2 backend (src/parse.rs:57-59) is a selectable `Backend`, but its source file src/parse/sse2.rs is not part of this model. Dispatch therefore requires a modelled backend. The same holds for `Select.FindNlChr`.
- `Parser::line` and `Parser::remainder` (src/lib.rs:249-259) are the record's field `Parser.line` and the slice `Parser.Remainder(doc)`; as plain projections they carry no contract of their own.
- The `cfg_if` selection happens at build time; `Select.SelectBackend` models it as a pure function of the target's properties.
- The parser model scans with the `Scan` contract functions rather than a chosen backend. Every backend is proved equal to them.
- Iterator plumbing (`enumerate`, `collect`, `nth`, `FusedIterator`) and the `remainder` string conversion. The fused behaviour itself is in `Ini.Next`'s contract.
- benches/basic_bench.rs is a timing harness with nothing to model.
