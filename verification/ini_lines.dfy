/** What one step of the parser (src/lib.rs) does to one line: the branch
    its first byte selects, the round trip of the consumed bytes, trimming
    and terminator skipping. */
module IniLines {
  import opened Scan
  import opened Ini

  /** `trim` is idempotent: a trimmed span trims to itself. */
  lemma TrimIdempotent(doc: seq<bv8>, sp: Span)
    requires sp.Within(doc)
    ensures Trim(doc, Trim(doc, sp)) == Trim(doc, sp)
  {
    var t := Trim(doc, sp);
    if !t.IsEmpty() {
      TrimKeepsInner(doc, t);
    }
  }

  /** A span whose ends are not whitespace is its own trim. */
  lemma TrimKeepsInner(doc: seq<bv8>, sp: Span)
    requires sp.Within(doc) && !sp.IsEmpty()
    requires !IsAsciiWhitespace(doc[sp.start]) && !IsAsciiWhitespace(doc[sp.end - 1])
    ensures Trim(doc, sp) == sp
  {
  }

  /** A span of whitespace only trims to the empty span; any other span
      trims to a non-empty one. */
  lemma TrimEmptyIffBlank(doc: seq<bv8>, sp: Span)
    requires sp.Within(doc)
    ensures Trim(doc, sp).IsEmpty() <==> forall j :: sp.start <= j < sp.end ==> IsAsciiWhitespace(doc[j])
  {
    var t := Trim(doc, sp);
    AllWhitespaceIff(doc, sp.start, sp.end);
    if !t.IsEmpty() {
      assert !IsAsciiWhitespace(doc[t.start]);
    }
  }

  /** The vertical tab is not trimmed. */
  lemma VerticalTabKept()
    ensures Trim([0x0B], Span(0, 1)) == Span(0, 1)
  {
  }

  /** `skip_ln` removes one terminator: the tail after it is the old tail
      without the terminator's bytes. */
  lemma SkipLnRemovesTerminator(doc: seq<bv8>, p: Parser, at: nat)
    requires at <= |doc|
    requires at < |doc| ==> IsNewline(doc[at])
    ensures var q := SkipLn(doc, p, at);
            doc[at..] == doc[at..q.pos] + q.Remainder(doc)
            && (at < |doc| ==> IsTerminator(doc[at..q.pos]))
            && (at == |doc| ==> q.pos == at)
  {
    var q := SkipLn(doc, p, at);
    assert doc[at..] == doc[at..q.pos] + doc[q.pos..];
  }

  /** `\n\r` is two terminators, not one: `skip_ln` takes only `\r\n` whole. */
  lemma LfCrIsTwoTerminators()
    ensures SkipLn([LF, CR], New([LF, CR]), 0).pos == 1
    ensures SkipLn([CR, LF], New([CR, LF]), 0).pos == 2
    ensures SkipLn([CR, CR], New([CR, CR]), 0).pos == 1
  {
  }

  /** Without a pending marker, `next` at a line always reads that line:
      the item is the `ClassifyLine` reading of the whole line. */
  lemma NextClassifiesLine(doc: seq<bv8>, p: Parser)
    requires p.Valid(doc) && p.pos < |doc|
    requires p.sectionEnded || doc[p.pos] != OpenBracket
    ensures Next(doc, p).0 == Some(ClassifyLine(doc, LineAt(doc, p.pos)))
  {
    NextReadsLine(doc, p);
  }

  /** A line starting with `\r` or `\n` is blank with an empty raw line,
      and the step only skips that terminator. */
  lemma BlankOnTerminator(doc: seq<bv8>, p: Parser)
    requires p.Valid(doc) && p.pos < |doc| && IsNewline(doc[p.pos])
    ensures Next(doc, p).0 == Some(Blank(Span(p.pos, p.pos)))
    ensures Next(doc, p).1 == SkipLn(doc, p, p.pos)
  {
    NextReadsLine(doc, p);
    LineUnique(doc, Span(p.pos, p.pos));
  }

  /** A line starting with `;` or `#` is a comment whose raw line keeps the
      marker and runs to the terminator. */
  lemma CommentKeepsMarker(doc: seq<bv8>, p: Parser)
    requires p.Valid(doc) && p.pos < |doc|
    requires doc[p.pos] == Semicolon || doc[p.pos] == Hash
    ensures Next(doc, p).0.Some? && Next(doc, p).0.value.Comment?
    ensures var raw := Next(doc, p).0.value.raw;
            raw.start == p.pos && IsLine(doc, raw) && !raw.IsEmpty()
  {
    NextReadsLine(doc, p);
  }

  /** A `[` line read after its marker is a `Section` exactly when the byte
      before its terminator (or the end) is `]`; the name is the trim of the
      bytes strictly between the brackets; the raw line never holds the
      terminator.  Otherwise it is an `Error` carrying the whole line. */
  lemma SectionIffClosed(doc: seq<bv8>, p: Parser)
    requires p.Valid(doc) && p.pos < |doc| && doc[p.pos] == OpenBracket
    requires p.sectionEnded
    ensures var line := LineAt(doc, p.pos);
            && p.pos < line.end
            && (Next(doc, p).0.value.Section? <==> doc[line.end - 1] == CloseBracket)
            && (Next(doc, p).0.value.Section? ==>
                  Next(doc, p).0.value == Section(Trim(doc, Span(p.pos + 1, line.end - 1)), line))
            && (!Next(doc, p).0.value.Section? ==> Next(doc, p).0.value == Error(line))
            && !Next(doc, p).1.sectionEnded
  {
    NextReadsLine(doc, p);
  }

  /** A property-like line holding `=` splits at its first `=`: the key is
      the trim of what precedes it and the value the trim of everything up
      to the terminator, later `=` bytes included.  An empty key is still a
      property. */
  lemma PropertySplit(doc: seq<bv8>, p: Parser)
    requires p.Valid(doc) && p.pos < |doc|
    requires !IsNewline(doc[p.pos]) && doc[p.pos] !in {Semicolon, Hash, OpenBracket}
    requires EqualsIn(doc, LineAt(doc, p.pos)) < LineAt(doc, p.pos).end
    ensures var line := LineAt(doc, p.pos);
            var e := EqualsIn(doc, line);
            Next(doc, p).0 == Some(Property(Trim(doc, Span(p.pos, e)), Some(Trim(doc, Span(e + 1, line.end))), line))
  {
    NextClassifiesLine(doc, p);
    PropertyLineSplit(doc, LineAt(doc, p.pos));
  }

  /** The line-level half of `PropertySplit`. */
  lemma PropertyLineSplit(doc: seq<bv8>, raw: Span)
    requires IsLine(doc, raw) && raw.start < |doc|
    requires !IsNewline(doc[raw.start]) && doc[raw.start] !in {Semicolon, Hash, OpenBracket}
    requires EqualsIn(doc, raw) < raw.end
    ensures var e := EqualsIn(doc, raw);
            ClassifyLine(doc, raw) == Property(Trim(doc, Span(raw.start, e)), Some(Trim(doc, Span(e + 1, raw.end))), raw)
  {
  }

  /** A property-like line without `=` is a key-only property, or a blank
      line with its untrimmed raw when it is all whitespace. */
  lemma KeyOnly(doc: seq<bv8>, p: Parser)
    requires p.Valid(doc) && p.pos < |doc|
    requires !IsNewline(doc[p.pos]) && doc[p.pos] !in {Semicolon, Hash, OpenBracket}
    requires EqualsIn(doc, LineAt(doc, p.pos)) == LineAt(doc, p.pos).end
    ensures var line := LineAt(doc, p.pos);
            var allBlank := forall j :: line.start <= j < line.end ==> IsAsciiWhitespace(doc[j]);
            && (allBlank ==> Next(doc, p).0 == Some(Blank(line)))
            && (!allBlank ==> Next(doc, p).0 == Some(Property(Trim(doc, line), None, line)))
  {
    NextReadsLine(doc, p);
    TrimEmptyIffBlank(doc, LineAt(doc, p.pos));
  }

  /** Every span an item holds lies inside its raw line: names, keys and
      values are sub-slices of the line they were read from. */
  lemma ItemWithinRaw(doc: seq<bv8>, raw: Span)
    requires IsLine(doc, raw) && raw.start < |doc|
    ensures var item := ClassifyLine(doc, raw);
            && (item.Section? ==> raw.start < item.name.start && item.name.end < raw.end)
            && (item.Property? ==> raw.start <= item.key.start && item.key.end <= raw.end)
            && (item.Property? && item.val.Some? ==>
                  raw.start < item.val.value.start && item.val.value.end <= raw.end)
  {
  }

  /** The round trip of one step: the old remainder is the raw line, then
      the terminator `skip_ln` removed, then the new remainder. */
  lemma StepRoundTrip(doc: seq<bv8>, p: Parser)
    requires p.Valid(doc)
    requires Next(doc, p).0.Some? && Next(doc, p).0.value.IsLineItem()
    ensures var (item, q) := (Next(doc, p).0.value, Next(doc, p).1);
            && p.Remainder(doc) == item.raw.Text(doc) + doc[item.raw.end..q.pos] + q.Remainder(doc)
            && (item.raw.end < |doc| ==> IsTerminator(doc[item.raw.end..q.pos]))
            && (item.raw.end == |doc| ==> q.pos == |doc|)
  {
    NextReadsLine(doc, p);
    LineRoundTrip(doc, p, Next(doc, p).0.value, Next(doc, p).1);
  }

  /** The round trip of any step that reads a line. */
  lemma LineRoundTrip(doc: seq<bv8>, p: Parser, item: Item, q: Parser)
    requires p.Valid(doc) && ReadsLine(doc, p, item, q)
    ensures && p.Remainder(doc) == item.raw.Text(doc) + doc[item.raw.end..q.pos] + q.Remainder(doc)
            && (item.raw.end < |doc| ==> IsTerminator(doc[item.raw.end..q.pos]))
            && (item.raw.end == |doc| ==> q.pos == |doc|)
  {
    var raw := item.raw;
    assert doc[p.pos..] == doc[p.pos..raw.end] + doc[raw.end..];
    assert doc[raw.end..] == doc[raw.end..q.pos] + doc[q.pos..];
  }
}
