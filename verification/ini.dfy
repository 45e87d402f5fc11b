/** The format-preserving INI parser (src/lib.rs): the `Item` model, the
    `Parser` state and its step function.

    The document is an immutable byte sequence and the parser's unconsumed
    tail (`state` in the source) is the suffix starting at `pos`.  Every
    field of an item is a `Span` of the document, the counterpart of a
    borrowed `&'a str`: nothing is copied, and the raw spans together with
    the terminators between them make up the whole document.

    The parser scans with the contract functions of the `Scan` module; every
    backend is proved equal to them, so this model holds whichever backend a
    build selects. */
module Ini {
  import opened Scan

  const Semicolon: bv8 := 0x3B
  const Hash: bv8 := 0x23
  const OpenBracket: bv8 := 0x5B
  const CloseBracket: bv8 := 0x5D
  const Equals: bv8 := 0x3D

  datatype Option<T> = None | Some(value: T)

  /** The sub-slice `doc[start..end]` of the document. */
  datatype Span = Span(start: nat, end: nat) {
    predicate Within(doc: seq<bv8>) {
      start <= end <= |doc|
    }

    function Text(doc: seq<bv8>): seq<bv8>
      requires Within(doc)
    {
      doc[start..end]
    }

    predicate IsEmpty() {
      start == end
    }
  }

  /** `char::is_ascii_whitespace`: space, tab, line feed, form feed and
      carriage return.  The vertical tab `0x0B` is not whitespace. */
  predicate IsAsciiWhitespace(b: bv8) {
    b == 0x20 || b == 0x09 || b == 0x0A || b == 0x0C || b == 0x0D
  }

  /** Every byte of `doc[i..j]` is ASCII whitespace. */
  predicate AllWhitespace(doc: seq<bv8>, i: nat, j: nat)
    requires i <= j <= |doc|
    decreases j - i
  {
    i == j || (IsAsciiWhitespace(doc[i]) && AllWhitespace(doc, i + 1, j))
  }

  /** `AllWhitespace` is the pointwise property. */
  lemma {:induction false} AllWhitespaceIff(doc: seq<bv8>, i: nat, j: nat)
    requires i <= j <= |doc|
    ensures AllWhitespace(doc, i, j) <==> forall k :: i <= k < j ==> IsAsciiWhitespace(doc[k])
    decreases j - i
  {
    if i < j {
      AllWhitespaceIff(doc, i + 1, j);
    }
  }

  /** A whitespace byte extends a whitespace run at its end. */
  lemma {:induction false} AllWhitespaceSnoc(doc: seq<bv8>, i: nat, j: nat)
    requires i <= j < |doc| && AllWhitespace(doc, i, j) && IsAsciiWhitespace(doc[j])
    ensures AllWhitespace(doc, i, j + 1)
    decreases j - i
  {
    if i < j {
      AllWhitespaceSnoc(doc, i + 1, j);
    }
  }

  /** The first index in `[i, end)` that is not whitespace, or `end`. */
  function SkipWhitespace(doc: seq<bv8>, i: nat, end: nat): (r: nat)
    requires i <= end <= |doc|
    ensures i <= r <= end
    ensures AllWhitespace(doc, i, r)
    ensures r < end ==> !IsAsciiWhitespace(doc[r])
    decreases end - i
  {
    if i == end || !IsAsciiWhitespace(doc[i]) then i else SkipWhitespace(doc, i + 1, end)
  }

  /** The least `r` in `[start, j]` such that `[r, j)` is all whitespace. */
  function SkipWhitespaceBack(doc: seq<bv8>, start: nat, j: nat): (r: nat)
    requires start <= j <= |doc|
    ensures start <= r <= j
    ensures AllWhitespace(doc, r, j)
    ensures start < r ==> !IsAsciiWhitespace(doc[r - 1])
    decreases j - start
  {
    if j == start || !IsAsciiWhitespace(doc[j - 1]) then j
    else
      var r := SkipWhitespaceBack(doc, start, j - 1);
      AllWhitespaceSnoc(doc, r, j - 1);
      r
  }

  /** `trim`: the span without its leading and trailing ASCII whitespace.
      A span of whitespace only trims to the empty span at its start, as
      `trim_matches` does. */
  function Trim(doc: seq<bv8>, sp: Span): (r: Span)
    requires sp.Within(doc)
    ensures sp.start <= r.start <= r.end <= sp.end
    ensures AllWhitespace(doc, sp.start, r.start) && AllWhitespace(doc, r.end, sp.end)
    ensures !r.IsEmpty() ==> !IsAsciiWhitespace(doc[r.start]) && !IsAsciiWhitespace(doc[r.end - 1])
    ensures r.IsEmpty() ==> r.start == sp.start
  {
    var a := SkipWhitespace(doc, sp.start, sp.end);
    if a == sp.end then Span(sp.start, sp.start)
    else Span(a, SkipWhitespaceBack(doc, a, sp.end))
  }

  /** `Item`: one classified line, or the `SectionEnd` boundary marker. */
  datatype Item =
    | Error(raw: Span)
    | Section(name: Span, raw: Span)
    | SectionEnd
    | Property(key: Span, val: Option<Span>, raw: Span)
    | Comment(raw: Span)
    | Blank(raw: Span)
  {
    /** Every item but the boundary marker stands for one line of input. */
    predicate IsLineItem() {
      !SectionEnd?
    }
  }

  /** `raw` is one whole line of `doc`: it holds no terminator byte and ends
      at a terminator byte or at the end of the document. */
  predicate IsLine(doc: seq<bv8>, raw: Span) {
    && raw.Within(doc)
    && NoneBetween(doc, Newlines, raw.start, raw.end)
    && (raw.end == |doc| || IsNewline(doc[raw.end]))
  }

  /** One of the three accepted line terminators. */
  predicate IsTerminator(t: seq<bv8>) {
    t == [CR, LF] || t == [CR] || t == [LF]
  }

  /** Moving from `at` to `to` skips exactly one terminator, taking `\r\n`
      whole, or nothing at the end of the document. */
  ghost predicate SkipsTerminator(doc: seq<bv8>, at: nat, to: nat) {
    && at <= to <= |doc|
    && (at == |doc| ==> to == at)
    && (at < |doc| ==> IsTerminator(doc[at..to]))
    && !(to == at + 1 && to < |doc| && doc[at] == CR && doc[to] == LF)
  }

  /** `Parser`: the start `pos` of the unconsumed tail of the document, the
      count `line` of terminators consumed so far, and the `section_ended`
      flag that records a boundary marker awaiting its section line (or the
      final marker, once emitted).  The document itself never changes, so
      it is passed to every operation rather than stored. */
  datatype Parser = Parser(pos: nat, line: nat, sectionEnded: bool) {
    predicate Valid(doc: seq<bv8>) {
      pos <= |doc|
    }

    /** `Parser::line`. */
    function Line(): nat {
      line
    }

    /** `Parser::remainder`: the unconsumed tail. */
    function Remainder(doc: seq<bv8>): seq<bv8>
      requires Valid(doc)
    {
      doc[pos..]
    }
  }

  /** `Parser::new`. */
  function New(doc: seq<bv8>): (p: Parser)
    ensures p.Valid(doc)
    ensures p.Remainder(doc) == doc && p.Line() == 0 && !p.sectionEnded
  {
    Parser(0, 0, false)
  }

  /** `skip_ln`, given the tail `doc[at..]`: removes one `\r\n`, `\r` or `\n`
      from its front and counts a line; on an empty tail it changes nothing.
      (Called only at a terminator or at the end of the document; elsewhere
      it would count a line and remove nothing.) */
  function SkipLn(doc: seq<bv8>, p: Parser, at: nat): (q: Parser)
    requires at <= |doc|
    ensures q.Valid(doc) && q.sectionEnded == p.sectionEnded
    ensures at == |doc| ==> q.pos == at && q.line == p.line
    ensures at < |doc| ==> q.line == p.line + 1
    ensures at < |doc| && IsNewline(doc[at]) ==> SkipsTerminator(doc, at, q.pos)
    ensures at < |doc| && !IsNewline(doc[at]) ==> q.pos == at
  {
    if at == |doc| then p.(pos := at)
    else
      var a := if doc[at] == CR then at + 1 else at;
      var b := if a < |doc| && doc[a] == LF then a + 1 else a;
      p.(pos := b, line := p.line + 1)
  }

  /** The line that starts at `at`: up to the first terminator byte, or to
      the end of the document (`find_nl` over the tail, see `TailScans`). */
  function LineAt(doc: seq<bv8>, at: nat): (raw: Span)
    requires at <= |doc|
    ensures raw.start == at && IsLine(doc, raw)
  {
    Span(at, FirstMatchIn(doc, Newlines, at, |doc|))
  }

  /** A line is determined by where it starts. */
  lemma LineUnique(doc: seq<bv8>, raw: Span)
    requires IsLine(doc, raw)
    ensures raw == LineAt(doc, raw.start)
  {
    FirstMatchInUnique(doc, Newlines, raw.start, |doc|, raw.end);
  }

  /** The first `=` of the line `raw`, as an index of the document, or
      `raw.end` when the line has none. */
  function EqualsIn(doc: seq<bv8>, raw: Span): (e: nat)
    requires raw.Within(doc)
    ensures raw.start <= e <= raw.end
    ensures NoneBetween(doc, {Equals}, raw.start, e)
    ensures e < raw.end ==> doc[e] == Equals
  {
    FirstMatchIn(doc, {Equals}, raw.start, raw.end)
  }

  /** The first `=` is determined by its defining property. */
  lemma EqualsInUnique(doc: seq<bv8>, raw: Span, e: nat)
    requires raw.Within(doc) && raw.start <= e <= raw.end
    requires forall j :: raw.start <= j < e ==> doc[j] != Equals
    requires e < raw.end ==> doc[e] == Equals
    ensures EqualsIn(doc, raw) == e
  {
    NoneBetweenIff(doc, {Equals}, raw.start, e);
    FirstMatchInUnique(doc, {Equals}, raw.start, raw.end, e);
  }

  /** The reading of a property-like line: split at its first `=` into a
      trimmed key and a trimmed value; without `=` the whole trimmed line is
      the key, and a line that trims to nothing is blank. */
  function PropertyItem(doc: seq<bv8>, raw: Span): (item: Item)
    requires raw.Within(doc)
    ensures (item.Blank? || item.Property?) && item.raw == raw
    ensures item.Blank? <==> AllWhitespace(doc, raw.start, raw.end)
    ensures item.Property? ==> raw.start <= item.key.start && item.key.end <= raw.end
    ensures item.Property? && item.val.None? ==>
              !item.key.IsEmpty() && forall j :: raw.start <= j < raw.end ==> doc[j] != Equals
    ensures item.Property? && item.val.Some? ==>
              && item.key.end < item.val.value.start && item.val.value.end <= raw.end
              && exists e :: raw.start <= e < raw.end && item.key.end <= e < item.val.value.start && doc[e] == Equals
  {
    var e := EqualsIn(doc, raw);
    AllWhitespaceIff(doc, raw.start, raw.end);
    NoneBetweenIff(doc, {Equals}, raw.start, e);
    if e < raw.end then
      Property(Trim(doc, Span(raw.start, e)), Some(Trim(doc, Span(e + 1, raw.end))), raw)
    else if Trim(doc, raw).IsEmpty() then
      Blank(raw)
    else
      Property(Trim(doc, raw), None, raw)
  }

  /** The reading of one whole line, by its first byte: a terminator byte
      makes it blank, `;` or `#` a comment, `[` a section header when the
      line ends with `]` and a syntax error otherwise, anything else a
      property.  The parser reads the same item while interleaving the
      search for the line end with the search for `=`. */
  function ClassifyLine(doc: seq<bv8>, raw: Span): (item: Item)
    requires IsLine(doc, raw) && raw.start < |doc|
    ensures item.IsLineItem() && item.raw == raw
    ensures item.Comment? <==> doc[raw.start] == Semicolon || doc[raw.start] == Hash
    ensures item.Section? || item.Error? <==> doc[raw.start] == OpenBracket
    ensures item.Error? <==> doc[raw.start] == OpenBracket && doc[raw.end - 1] != CloseBracket
  {
    var b := doc[raw.start];
    if IsNewline(b) then Blank(raw)
    else if b == Semicolon || b == Hash then Comment(raw)
    else if b == OpenBracket then
      if doc[raw.end - 1] == CloseBracket then Section(Trim(doc, Span(raw.start + 1, raw.end - 1)), raw)
      else Error(raw)
    else PropertyItem(doc, raw)
  }

  /** `get_line_and_advance`: the line starting at `at`, and the parser moved
      past that line's terminator. */
  function GetLineAndAdvance(doc: seq<bv8>, p: Parser, at: nat): (r: (Span, Parser))
    requires at <= |doc|
    ensures r.0.start == at && IsLine(doc, r.0)
    ensures SkipsTerminator(doc, r.0.end, r.1.pos)
    ensures r.1.sectionEnded == p.sectionEnded
    ensures r.1.line == if r.0.end < |doc| then p.line + 1 else p.line
  {
    var line := LineAt(doc, at);
    (line, SkipLn(doc, p, line.end))
  }

  /** The parser's scans are the scan contracts over its unconsumed tail:
      the line end is `find_nl` of the tail, and the scan for the line end
      or a delimiter is `find_nl_chr` of the tail, both shifted by the
      tail's offset. */
  lemma TailScans(doc: seq<bv8>, at: nat, chr: bv8)
    requires at <= |doc|
    ensures LineAt(doc, at).end == at + FirstNewline(doc[at..])
    ensures FirstMatchIn(doc, NewlinesOr(chr), at, |doc|) == at + FirstNewlineOr(doc[at..], chr)
  {
    FirstMatchTail(doc, Newlines, at);
    FirstMatchTail(doc, NewlinesOr(chr), at);
  }

  /** Where `find_nl_chr(s, b'=')` stops on the tail at `pos`: at the line's
      first `=` if it has one, and otherwise at the line's end; after an `=`,
      `find_nl` on the rest stops at the same line end. */
  lemma EqualsOrEol(doc: seq<bv8>, pos: nat)
    requires pos <= |doc|
    ensures var k, line := FirstMatchIn(doc, NewlinesOr(Equals), pos, |doc|), LineAt(doc, pos);
            var e := EqualsIn(doc, line);
            && (k < |doc| && doc[k] == Equals <==> e < line.end)
            && (e < line.end ==> k == e && LineAt(doc, e + 1).end == line.end)
            && (e == line.end ==> k == line.end)
  {
    var k, line := FirstMatchIn(doc, NewlinesOr(Equals), pos, |doc|), LineAt(doc, pos);
    var e := EqualsIn(doc, line);
    NoneBetweenIff(doc, NewlinesOr(Equals), pos, k);
    NoneBetweenIff(doc, Newlines, pos, line.end);
    NoneBetweenIff(doc, {Equals}, pos, e);
    if k < |doc| && doc[k] == Equals {
      // no terminator before the `=`, so the `=` lies inside the line
      assert k < line.end;
      EqualsInUnique(doc, line, k);
      NoneBetweenIff(doc, Newlines, k + 1, line.end);
      LineUnique(doc, Span(k + 1, line.end));
    } else {
      // `find_nl_chr` stopped at a terminator or at the end: the line end
      NoneBetweenIff(doc, Newlines, pos, k);
      LineUnique(doc, Span(pos, k));
      EqualsInUnique(doc, line, k);
    }
  }

  /** The step `next` takes over one line: `item` is the reading of the
      whole line at `p.pos`, and `q` is past exactly one terminator, with the
      terminator counted and the flag cleared by a `[` line. */
  ghost predicate ReadsLine(doc: seq<bv8>, p: Parser, item: Item, q: Parser)
    requires p.Valid(doc)
  {
    p.pos < |doc| &&
    var line := LineAt(doc, p.pos);
    && item == ClassifyLine(doc, line)
    && SkipsTerminator(doc, line.end, q.pos)
    && q.line == (if line.end < |doc| then p.line + 1 else p.line)
    && q.sectionEnded == (p.sectionEnded && doc[p.pos] != OpenBracket)
  }

  /** What every line-consuming step does to the parser's position and
      flag: at least one byte is consumed, and a `[` line clears the flag. */
  predicate Advances(doc: seq<bv8>, p: Parser, q: Parser)
    requires p.Valid(doc) && p.pos < |doc|
  {
    && q.Valid(doc) && p.pos < q.pos
    && q.sectionEnded == (p.sectionEnded && doc[p.pos] != OpenBracket)
  }

  /** The termination measure of the iteration: the unconsumed length
      counts double, and a pending boundary marker counts one. */
  function Measure(doc: seq<bv8>, p: Parser): nat
    requires p.Valid(doc)
  {
    2 * (|doc| - p.pos) + (if p.sectionEnded then 0 else 1)
  }

  /** Reading a line is a step that advances. */
  lemma ReadsLineAdvances(doc: seq<bv8>, p: Parser, item: Item, q: Parser)
    requires p.Valid(doc) && ReadsLine(doc, p, item, q)
    ensures Advances(doc, p, q)
  {
  }

  /** An advancing step decreases the measure even when it clears the
      flag. */
  lemma AdvancesMeasure(doc: seq<bv8>, p: Parser, q: Parser)
    requires p.Valid(doc) && p.pos < |doc| && Advances(doc, p, q)
    ensures Measure(doc, q) < Measure(doc, p)
  {
  }

  /** The blank branch of `next`: the line starts with a terminator byte. */
  function BlankLine(doc: seq<bv8>, p: Parser): (r: (Item, Parser))
    requires p.Valid(doc) && p.pos < |doc| && IsNewline(doc[p.pos])
    ensures r.0.Blank? && Advances(doc, p, r.1)
  {
    var (line, q) := GetLineAndAdvance(doc, p, p.pos);
    (Blank(line), q)
  }

  /** The comment branch of `next`: the line starts with `;` or `#`. */
  function CommentLine(doc: seq<bv8>, p: Parser): (r: (Item, Parser))
    requires p.Valid(doc) && p.pos < |doc|
    requires doc[p.pos] == Semicolon || doc[p.pos] == Hash
    ensures r.0.Comment? && Advances(doc, p, r.1)
  {
    var (line, q) := GetLineAndAdvance(doc, p, p.pos);
    (Comment(line), q)
  }

  /** The section branch of `next` once the marker has been emitted: the
      flag is cleared and the line (`find_nl` over the tail) is a header if
      it ends with `]`. */
  function SectionLine(doc: seq<bv8>, p: Parser): (r: (Item, Parser))
    requires p.Valid(doc) && p.pos < |doc| && doc[p.pos] == OpenBracket && p.sectionEnded
    ensures (r.0.Section? || r.0.Error?) && Advances(doc, p, r.1)
  {
    var cleared := p.(sectionEnded := false);
    var line := LineAt(doc, p.pos);
    if doc[line.end - 1] != CloseBracket then
      (Error(line), SkipLn(doc, cleared, line.end))
    else
      var name := Trim(doc, Span(p.pos + 1, line.end - 1));
      (Section(name, line), SkipLn(doc, cleared, line.end))
  }

  /** The property branch of `next`, scanning as the source does: one scan
      for the line end or `=`, and after an `=` a second scan for the line
      end. */
  function PropertyLine(doc: seq<bv8>, p: Parser): (r: (Item, Parser))
    requires p.Valid(doc) && p.pos < |doc|
    requires !IsNewline(doc[p.pos]) && doc[p.pos] !in {Semicolon, Hash, OpenBracket}
    ensures (r.0.Property? || r.0.Blank?) && Advances(doc, p, r.1)
  {
    var eolOrEq := FirstMatchIn(doc, NewlinesOr(Equals), p.pos, |doc|);
    if !(eolOrEq < |doc| && doc[eolOrEq] == Equals) then
      // Key only case
      KeyOnlyBranch(doc, p, eolOrEq)
    else
      // Key + value case
      KeyValueBranch(doc, p, eolOrEq, LineAt(doc, eolOrEq + 1).end)
  }

  /** A property line without `=` ending at `end`: a key-only property, or
      blank when the key trims to nothing. */
  function KeyOnlyBranch(doc: seq<bv8>, p: Parser, end: nat): (r: (Item, Parser))
    requires p.pos <= end <= |doc|
    ensures r.0.Property? || r.0.Blank?
    ensures r.1 == SkipLn(doc, p, end)
  {
    var raw := Span(p.pos, end);
    var key := Trim(doc, raw);
    var q := SkipLn(doc, p, end);
    if key.IsEmpty() then (Blank(raw), q) else (Property(key, None, raw), q)
  }

  /** A property line with its first `=` at `eq`, ending at `end`. */
  function KeyValueBranch(doc: seq<bv8>, p: Parser, eq: nat, end: nat): (r: (Item, Parser))
    requires p.pos <= eq < end <= |doc|
    ensures r.0.Property?
    ensures r.1 == SkipLn(doc, p, end)
  {
    var key := Trim(doc, Span(p.pos, eq));
    var value := Trim(doc, Span(eq + 1, end));
    (Property(key, Some(value), Span(p.pos, end)), SkipLn(doc, p, end))
  }

  /** The branches of `next` that consume a line, selected by its first
      byte in the source's order: blank, comment, section (marker already
      emitted), property. */
  function LineStep(doc: seq<bv8>, p: Parser): (r: (Item, Parser))
    requires p.Valid(doc) && p.pos < |doc|
    requires p.sectionEnded || doc[p.pos] != OpenBracket
    ensures r.0.IsLineItem() && Advances(doc, p, r.1)
  {
    var b := doc[p.pos];
    if b == CR || b == LF then
      // Blank
      BlankLine(doc, p)
    else if b == Semicolon || b == Hash then
      // Comment
      CommentLine(doc, p)
    else if b == OpenBracket then
      // Section
      SectionLine(doc, p)
    else
      // Property
      PropertyLine(doc, p)
  }

  /** `Iterator::next`: emits a `SectionEnd` marker without consuming
      anything, or consumes the line at the front of the tail and returns
      its reading.

      The contract: the iteration is fused (once `None`, the parser no longer
      changes); every `Some` decreases `Measure`; a marker is emitted exactly
      at the end of the document and before a `[` line, when none is pending,
      and it only raises the flag; every other item consumes at least one
      byte.  `NextReadsLine` states which item that is. */
  function Next(doc: seq<bv8>, p: Parser): (r: (Option<Item>, Parser))
    requires p.Valid(doc)
    ensures r.1.Valid(doc)
    ensures r.0.None? <==> p.pos == |doc| && p.sectionEnded
    ensures r.0.None? ==> r.1 == p
    ensures r.0.Some? ==> Measure(doc, r.1) < Measure(doc, p)
    ensures r.0 == Some(SectionEnd) <==>
              !p.sectionEnded && (p.pos == |doc| || doc[p.pos] == OpenBracket)
    ensures r.0 == Some(SectionEnd) ==> r.1 == p.(sectionEnded := true)
    ensures r.0.Some? && r.0.value.IsLineItem() ==> p.pos < |doc| && Advances(doc, p, r.1)
  {
    if p.pos == |doc| then
      // Terminal case
      if p.sectionEnded then (None, p) else (Some(SectionEnd), p.(sectionEnded := true))
    else if doc[p.pos] == OpenBracket && !p.sectionEnded then
      // Section, marker first
      (Some(SectionEnd), p.(sectionEnded := true))
    else
      var (item, q) := LineStep(doc, p);
      AdvancesMeasure(doc, p, q);
      (Some(item), q)
  }

  /** The blank branch reads the empty line before the terminator. */
  lemma BlankLineReads(doc: seq<bv8>, p: Parser)
    requires p.Valid(doc) && p.pos < |doc| && IsNewline(doc[p.pos])
    ensures ReadsLine(doc, p, BlankLine(doc, p).0, BlankLine(doc, p).1)
  {
  }

  /** The comment branch reads the whole line. */
  lemma CommentLineReads(doc: seq<bv8>, p: Parser)
    requires p.Valid(doc) && p.pos < |doc|
    requires doc[p.pos] == Semicolon || doc[p.pos] == Hash
    ensures ReadsLine(doc, p, CommentLine(doc, p).0, CommentLine(doc, p).1)
  {
  }

  /** The section branch reads the whole line. */
  lemma SectionLineReads(doc: seq<bv8>, p: Parser)
    requires p.Valid(doc) && p.pos < |doc| && doc[p.pos] == OpenBracket && p.sectionEnded
    ensures ReadsLine(doc, p, SectionLine(doc, p).0, SectionLine(doc, p).1)
  {
  }

  /** The key-only branch gives the reading of a line without `=`. */
  lemma KeyOnlyReads(doc: seq<bv8>, p: Parser, end: nat)
    requires p.Valid(doc) && p.pos <= end <= |doc|
    requires end == LineAt(doc, p.pos).end == EqualsIn(doc, LineAt(doc, p.pos))
    ensures KeyOnlyBranch(doc, p, end).0 == PropertyItem(doc, LineAt(doc, p.pos))
  {
    assert Span(p.pos, end) == LineAt(doc, p.pos);
  }

  /** The key and value branch gives the reading of a line split at its
      first `=`. */
  lemma KeyValueReads(doc: seq<bv8>, p: Parser, eq: nat, end: nat)
    requires p.Valid(doc) && p.pos <= eq < end <= |doc|
    requires eq == EqualsIn(doc, LineAt(doc, p.pos)) && end == LineAt(doc, p.pos).end
    ensures KeyValueBranch(doc, p, eq, end).0 == PropertyItem(doc, LineAt(doc, p.pos))
  {
    assert Span(p.pos, end) == LineAt(doc, p.pos);
  }

  /** The two interleaved scans of the property branch read the same item
      as the line-first reading: the first `=` of the whole line, and the
      line's end. */
  lemma PropertyLineReads(doc: seq<bv8>, p: Parser)
    requires p.Valid(doc) && p.pos < |doc|
    requires !IsNewline(doc[p.pos]) && doc[p.pos] !in {Semicolon, Hash, OpenBracket}
    ensures ReadsLine(doc, p, PropertyLine(doc, p).0, PropertyLine(doc, p).1)
  {
    var line := LineAt(doc, p.pos);
    assert PropertyLine(doc, p).0 == PropertyItem(doc, line) && PropertyLine(doc, p).1 == SkipLn(doc, p, line.end) by {
      PropertyLineScans(doc, p);
    }
    assert ClassifyLine(doc, line) == PropertyItem(doc, line);
  }

  /** Where the two scans of the property branch stop, in terms of the
      line they scan. */
  lemma PropertyLineScans(doc: seq<bv8>, p: Parser)
    requires p.Valid(doc) && p.pos < |doc|
    requires !IsNewline(doc[p.pos]) && doc[p.pos] !in {Semicolon, Hash, OpenBracket}
    ensures PropertyLine(doc, p).0 == PropertyItem(doc, LineAt(doc, p.pos))
    ensures PropertyLine(doc, p).1 == SkipLn(doc, p, LineAt(doc, p.pos).end)
  {
    var eolOrEq := FirstMatchIn(doc, NewlinesOr(Equals), p.pos, |doc|);
    EqualsOrEol(doc, p.pos);
    if !(eolOrEq < |doc| && doc[eolOrEq] == Equals) {
      KeyOnlyReads(doc, p, eolOrEq);
    } else {
      KeyValueScans(doc, p, eolOrEq);
    }
  }

  /** The property branch on a line with `=`. */
  lemma KeyValueScans(doc: seq<bv8>, p: Parser, eolOrEq: nat)
    requires p.Valid(doc) && p.pos < |doc|
    requires !IsNewline(doc[p.pos]) && doc[p.pos] !in {Semicolon, Hash, OpenBracket}
    requires eolOrEq == FirstMatchIn(doc, NewlinesOr(Equals), p.pos, |doc|)
    requires eolOrEq < |doc| && doc[eolOrEq] == Equals
    requires eolOrEq == EqualsIn(doc, LineAt(doc, p.pos)) < LineAt(doc, p.pos).end
    requires LineAt(doc, eolOrEq + 1).end == LineAt(doc, p.pos).end
    ensures PropertyLine(doc, p).0 == PropertyItem(doc, LineAt(doc, p.pos))
  {
    var end := LineAt(doc, p.pos).end;
    assert PropertyLine(doc, p).0 == KeyValueBranch(doc, p, eolOrEq, end).0;
    KeyValueReads(doc, p, eolOrEq, end);
  }

  /** Every line branch reads the whole line at the front of the tail. */
  lemma LineStepReads(doc: seq<bv8>, p: Parser)
    requires p.Valid(doc) && p.pos < |doc|
    requires p.sectionEnded || doc[p.pos] != OpenBracket
    ensures ReadsLine(doc, p, LineStep(doc, p).0, LineStep(doc, p).1)
  {
    var b := doc[p.pos];
    if b == CR || b == LF {
      BlankLineReads(doc, p);
    } else if b == Semicolon || b == Hash {
      CommentLineReads(doc, p);
    } else if b == OpenBracket {
      SectionLineReads(doc, p);
    } else {
      PropertyLineReads(doc, p);
    }
  }

  /** The partner of `Next`: every item but the marker is the `ClassifyLine`
      reading of the whole line at the old position, and the parser moves
      past exactly that line and one terminator (`ReadsLine`). */
  lemma NextReadsLine(doc: seq<bv8>, p: Parser)
    requires p.Valid(doc)
    ensures Next(doc, p).0.Some? && Next(doc, p).0.value.IsLineItem() ==>
              ReadsLine(doc, p, Next(doc, p).0.value, Next(doc, p).1)
  {
    if p.pos < |doc| && (p.sectionEnded || doc[p.pos] != OpenBracket) {
      LineStepReads(doc, p);
    }
  }
}
