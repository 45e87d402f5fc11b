/** Concrete documents from the parser's documentation and tests
    (src/lib.rs, src/tests.rs), with the exact items they yield.  Each
    document is written out as its bytes, with the text in the comment. */
module IniExamples {
  import opened Scan
  import opened Ini
  import opened IniRun
  import IniLines

  /** The empty document yields exactly one marker. */
  lemma EmptyDocument()
    ensures Parse([]) == [SectionEnd]
  {
  }

  /** `Key=Value` */
  const KeyValueDoc: seq<bv8> := [0x4B, 0x65, 0x79, 0x3D, 0x56, 0x61, 0x6C, 0x75, 0x65]

  lemma KeyValueLine()
    ensures Next(KeyValueDoc, New(KeyValueDoc)) ==
              (Some(Property(Span(0, 3), Some(Span(4, 9)), Span(0, 9))), Parser(9, 0, false))
  {
    var d := KeyValueDoc;
    LineUnique(d, Span(0, 9));
    EqualsInUnique(d, Span(0, 9), 3);
    IniLines.TrimKeepsInner(d, Span(0, 3));
    IniLines.TrimKeepsInner(d, Span(4, 9));
    IniLines.PropertySplit(d, New(d));
  }

  /** `Key=Value` is one property, key `Key` and value `Value`. */
  lemma KeyValue()
    ensures Parse(KeyValueDoc) == [Property(Span(0, 3), Some(Span(4, 9)), Span(0, 9)), SectionEnd]
  {
    KeyValueLine();
    assert Run(KeyValueDoc, Parser(9, 0, false)) == [SectionEnd];
  }

  /** `Key` */
  const KeyDoc: seq<bv8> := [0x4B, 0x65, 0x79]

  /** `Key` is a property without a value. */
  lemma KeyWithoutValue()
    ensures Parse(KeyDoc) == [Property(Span(0, 3), None, Span(0, 3)), SectionEnd]
  {
    var d := KeyDoc;
    assert Next(d, New(d)) == (Some(Property(Span(0, 3), None, Span(0, 3))), Parser(3, 0, false)) by {
      LineUnique(d, Span(0, 3));
      EqualsInUnique(d, Span(0, 3), 3);
      IniLines.TrimKeepsInner(d, Span(0, 3));
      IniLines.KeyOnly(d, New(d));
    }
    assert Run(d, Parser(3, 0, false)) == [SectionEnd];
  }

  /** `;comment` */
  const CommentDoc: seq<bv8> := [0x3B, 0x63, 0x6F, 0x6D, 0x6D, 0x65, 0x6E, 0x74]

  /** `;comment` is one comment whose raw line keeps the `;`. */
  lemma CommentLine(d: seq<bv8>)
    requires d == CommentDoc
    ensures Parse(d) == [Comment(Span(0, 8)), SectionEnd]
  {
    CommentStep(d);
    RunStep(d, New(d), Comment(Span(0, 8)), Parser(8, 0, false));
    assert Run(d, Parser(8, 0, false)) == [SectionEnd];
  }

  lemma CommentStep(d: seq<bv8>)
    requires d == CommentDoc
    ensures Next(d, New(d)) == (Some(Comment(Span(0, 8))), Parser(8, 0, false))
  {
    LineUnique(d, Span(0, 8));
    IniLines.NextClassifiesLine(d, New(d));
    NextReadsLine(d, New(d));
  }

  /** `\n` */
  const NewlineDoc: seq<bv8> := [LF]

  /** A lone `\n` is a blank line with an empty raw line; the step counts
      one line. */
  lemma EmptyLine()
    ensures Next(NewlineDoc, New(NewlineDoc)) == (Some(Blank(Span(0, 0))), Parser(1, 1, false))
    ensures Parse(NewlineDoc) == [Blank(Span(0, 0)), SectionEnd]
  {
    var d := NewlineDoc;
    IniLines.BlankOnTerminator(d, New(d));
    assert Run(d, Parser(1, 1, false)) == [SectionEnd];
  }

  /** `[Section]` */
  const SectionDoc: seq<bv8> := [0x5B, 0x53, 0x65, 0x63, 0x74, 0x69, 0x6F, 0x6E, 0x5D]

  /** `[Section]` is a marker, then the header named `Section`, then the
      final marker. */
  lemma SectionHeader()
    ensures Parse(SectionDoc) == [SectionEnd, Section(Span(1, 8), Span(0, 9)), SectionEnd]
  {
    var d := SectionDoc;
    var p := Parser(0, 0, true);
    assert Next(d, p) == (Some(Section(Span(1, 8), Span(0, 9))), Parser(9, 0, false)) by {
      LineUnique(d, Span(0, 9));
      IniLines.TrimKeepsInner(d, Span(1, 8));
      IniLines.SectionIffClosed(d, p);
    }
    assert Run(d, Parser(9, 0, false)) == [SectionEnd];
    assert Run(d, p) == [Section(Span(1, 8), Span(0, 9)), SectionEnd];
  }

  /** `[Error` */
  const ErrorDoc: seq<bv8> := [0x5B, 0x45, 0x72, 0x72, 0x6F, 0x72]

  /** `[Error` has no closing bracket: after its marker it is a syntax
      error carrying the whole line. */
  lemma UnclosedHeader()
    ensures Parse(ErrorDoc) == [SectionEnd, Error(Span(0, 6)), SectionEnd]
  {
    var d := ErrorDoc;
    var p := Parser(0, 0, true);
    assert Next(d, p) == (Some(Error(Span(0, 6))), Parser(6, 0, false)) by {
      LineUnique(d, Span(0, 6));
      IniLines.SectionIffClosed(d, p);
    }
    assert Run(d, Parser(6, 0, false)) == [SectionEnd];
    assert Run(d, p) == [Error(Span(0, 6)), SectionEnd];
  }

  /** `[` `\n` `[] ` `\r\n` */
  const TerminatesDoc: seq<bv8> := [0x5B, 0x0A, 0x5B, 0x5D, 0x20, 0x0D, 0x0A]

  lemma ErrorsAdvanceLines()
    ensures Next(TerminatesDoc, Parser(0, 0, true)) ==
              (Some(Error(Span(0, 1))), Parser(2, 1, false))
    ensures Next(TerminatesDoc, Parser(2, 1, true)) ==
              (Some(Error(Span(2, 5))), Parser(7, 2, false))
  {
    var d := TerminatesDoc;
    LineUnique(d, Span(0, 1));
    IniLines.SectionIffClosed(d, Parser(0, 0, true));
    LineUnique(d, Span(2, 5));
    IniLines.SectionIffClosed(d, Parser(2, 1, true));
  }

  /** Syntax errors still advance the parser: `[` and `[] ` are each an
      error after their own marker, and the terminators between them are
      consumed. */
  lemma ErrorsAdvance()
    ensures Parse(TerminatesDoc) ==
              [SectionEnd, Error(Span(0, 1)), SectionEnd, Error(Span(2, 5)), SectionEnd]
  {
    var d := TerminatesDoc;
    ErrorsAdvanceLines();
    assert Run(d, Parser(7, 2, false)) == [SectionEnd];
    assert Run(d, Parser(2, 1, true)) == [Error(Span(2, 5)), SectionEnd];
    assert Run(d, Parser(2, 1, false)) == [SectionEnd, Error(Span(2, 5)), SectionEnd];
    assert Run(d, Parser(0, 0, true)) == [Error(Span(0, 1)), SectionEnd, Error(Span(2, 5)), SectionEnd];
  }

  /** `\r` `\r\n` `\r` */
  const BlankLinesDoc: seq<bv8> := [0x0D, 0x0D, 0x0A, 0x0D]

  /** The blank line at `pos`, read from `\r` `\r\n` `\r`. */
  lemma BlankLinesItem(d: seq<bv8>, pos: nat, line: nat)
    requires d == BlankLinesDoc && pos in {0, 1, 3}
    ensures Next(d, Parser(pos, line, false)).0 == Some(Blank(Span(pos, pos)))
  {
    IniLines.BlankOnTerminator(d, Parser(pos, line, false));
  }

  /** The terminator after the blank line at `pos`. */
  lemma BlankLinesSkip(d: seq<bv8>, pos: nat, line: nat, to: nat)
    requires d == BlankLinesDoc && (pos, to) in {(0, 1), (1, 3), (3, 4)}
    ensures Next(d, Parser(pos, line, false)).1 == Parser(to, line + 1, false)
  {
    IniLines.BlankOnTerminator(d, Parser(pos, line, false));
  }

  lemma BlankLinesStep(d: seq<bv8>, pos: nat, line: nat, to: nat)
    requires d == BlankLinesDoc && (pos, to) in {(0, 1), (1, 3), (3, 4)}
    ensures Run(d, Parser(pos, line, false)) ==
              [Blank(Span(pos, pos))] + Run(d, Parser(to, line + 1, false))
  {
    BlankLinesItem(d, pos, line);
    BlankLinesSkip(d, pos, line, to);
    RunStep(d, Parser(pos, line, false), Blank(Span(pos, pos)), Parser(to, line + 1, false));
  }

  lemma BlankLinesLast(d: seq<bv8>)
    requires d == BlankLinesDoc
    ensures Run(d, Parser(3, 2, false)) == [Blank(Span(3, 3)), SectionEnd]
  {
    BlankLinesStep(d, 3, 2, 4);
    assert Run(d, Parser(4, 3, false)) == [SectionEnd];
  }

  lemma BlankLinesTail(d: seq<bv8>)
    requires d == BlankLinesDoc
    ensures Run(d, Parser(1, 1, false)) == [Blank(Span(1, 1)), Blank(Span(3, 3)), SectionEnd]
  {
    BlankLinesStep(d, 1, 1, 3);
    BlankLinesLast(d);
  }

  /** Three terminators are three blank lines with empty raw lines; the
      `\r\n` in the middle counts once. */
  lemma BlankLines(d: seq<bv8>)
    requires d == BlankLinesDoc
    ensures Parse(d) == [Blank(Span(0, 0)), Blank(Span(1, 1)), Blank(Span(3, 3)), SectionEnd]
  {
    var items := [Blank(Span(0, 0)), Blank(Span(1, 1)), Blank(Span(3, 3)), SectionEnd];
    assert [Blank(Span(0, 0))] + [Blank(Span(1, 1)), Blank(Span(3, 3)), SectionEnd] == items;
    BlankLinesStep(d, 0, 0, 1);
    BlankLinesTail(d);
  }

  /** ` ` */
  const SpaceDoc: seq<bv8> := [0x20]

  /** A line of whitespace without `=` is blank, keeping its raw bytes. */
  lemma WhitespaceLine()
    ensures Parse(SpaceDoc) == [Blank(Span(0, 1)), SectionEnd]
  {
    var d := SpaceDoc;
    assert Next(d, New(d)) == (Some(Blank(Span(0, 1))), Parser(1, 0, false)) by {
      LineUnique(d, Span(0, 1));
      EqualsInUnique(d, Span(0, 1), 1);
      IniLines.KeyOnly(d, New(d));
    }
    assert Run(d, Parser(1, 0, false)) == [SectionEnd];
  }

  /** `[SECTION]` */
  const OverviewHeader: seq<bv8> := [0x5B, 0x53, 0x45, 0x43, 0x54, 0x49, 0x4F, 0x4E, 0x5D]

  /** `;this is a comment` */
  const OverviewComment: seq<bv8> :=
    [0x3B, 0x74, 0x68, 0x69, 0x73, 0x20, 0x69, 0x73, 0x20, 0x61, 0x20, 0x63, 0x6F, 0x6D, 0x6D, 0x65, 0x6E, 0x74]

  /** `Key = Value  ` */
  const OverviewProperty: seq<bv8> := [0x4B, 0x65, 0x79, 0x20, 0x3D, 0x20, 0x56, 0x61, 0x6C, 0x75, 0x65, 0x20, 0x20]

  const OverviewDoc: seq<bv8> := OverviewHeader + [LF] + OverviewComment + [LF] + OverviewProperty

  /** The header line of the overview document. */
  lemma OverviewHeaderLine()
    ensures LineAt(OverviewDoc, 0) == Span(0, 9)
  {
    LineUnique(OverviewDoc, Span(0, 9));
  }

  /** The comment line of the overview document. */
  lemma OverviewCommentLine()
    ensures LineAt(OverviewDoc, 10) == Span(10, 28)
  {
    NoneBetweenJoin(OverviewDoc, Newlines, 10, 19, 28);
    LineUnique(OverviewDoc, Span(10, 28));
  }

  /** The property line of the overview document and its first `=`. */
  lemma OverviewPropertyLine()
    ensures LineAt(OverviewDoc, 29) == Span(29, 42)
    ensures EqualsIn(OverviewDoc, Span(29, 42)) == 33
  {
    LineUnique(OverviewDoc, Span(29, 42));
    EqualsInUnique(OverviewDoc, Span(29, 42), 33);
  }

  /** The key and the value of the overview property, padding trimmed. */
  lemma OverviewTrims()
    ensures Trim(OverviewDoc, Span(29, 33)) == Span(29, 32)
    ensures Trim(OverviewDoc, Span(34, 42)) == Span(35, 40)
  {
  }

  /** The header step over the overview document. */
  lemma OverviewHeaderStep(d: seq<bv8>)
    requires d == OverviewDoc
    ensures Next(d, Parser(0, 0, true)) == (Some(Section(Span(1, 8), Span(0, 9))), Parser(10, 1, false))
  {
    OverviewHeaderLine();
    IniLines.TrimKeepsInner(d, Span(1, 8));
    IniLines.SectionIffClosed(d, Parser(0, 0, true));
  }

  /** The comment step over the overview document. */
  lemma OverviewCommentStep(d: seq<bv8>)
    requires d == OverviewDoc
    ensures Next(d, Parser(10, 1, false)) == (Some(Comment(Span(10, 28))), Parser(29, 2, false))
  {
    OverviewCommentLine();
    IniLines.NextClassifiesLine(d, Parser(10, 1, false));
    NextReadsLine(d, Parser(10, 1, false));
  }

  /** The property step over the overview document. */
  lemma OverviewPropertyStep(d: seq<bv8>)
    requires d == OverviewDoc
    ensures Next(d, Parser(29, 2, false)) ==
              (Some(Property(Span(29, 32), Some(Span(35, 40)), Span(29, 42))), Parser(42, 2, false))
  {
    OverviewPropertyLine();
    OverviewTrims();
    IniLines.PropertySplit(d, Parser(29, 2, false));
    NextReadsLine(d, Parser(29, 2, false));
  }

  /** The overview document after its header: the comment, the property
      and the final marker. */
  lemma OverviewTail(d: seq<bv8>)
    requires d == OverviewDoc
    ensures Run(d, Parser(10, 1, false)) ==
              [Comment(Span(10, 28)), Property(Span(29, 32), Some(Span(35, 40)), Span(29, 42)), SectionEnd]
  {
    var property := Property(Span(29, 32), Some(Span(35, 40)), Span(29, 42));
    OverviewCommentStep(d);
    OverviewPropertyStep(d);
    assert Run(d, Parser(42, 2, false)) == [SectionEnd];
    RunStep(d, Parser(29, 2, false), property, Parser(42, 2, false));
    RunStep(d, Parser(10, 1, false), Comment(Span(10, 28)), Parser(29, 2, false));
  }

  /** The overview example of the crate documentation: a marker, the
      header, the comment, the property with its padding trimmed, and the
      final marker. */
  lemma Overview(d: seq<bv8>)
    requires d == OverviewDoc
    ensures Parse(d) == [
              SectionEnd,
              Section(Span(1, 8), Span(0, 9)),
              Comment(Span(10, 28)),
              Property(Span(29, 32), Some(Span(35, 40)), Span(29, 42)),
              SectionEnd]
  {
    OverviewHeaderStep(d);
    OverviewTail(d);
    RunStep(d, Parser(0, 0, true), Section(Span(1, 8), Span(0, 9)), Parser(10, 1, false));
    assert d[0] == OpenBracket;
    RunStep(d, Parser(0, 0, false), SectionEnd, Parser(0, 0, true));
  }

  /** `[SECTION` `\n` `nonsense` */
  const NonsenseDoc: seq<bv8> :=
    [0x5B, 0x53, 0x45, 0x43, 0x54, 0x49, 0x4F, 0x4E] + [LF] + [0x6E, 0x6F, 0x6E, 0x73, 0x65, 0x6E, 0x73, 0x65]

  /** The two lines of the nonsense document. */
  lemma NonsenseLines()
    ensures LineAt(NonsenseDoc, 0) == Span(0, 8)
    ensures LineAt(NonsenseDoc, 9) == Span(9, 17)
    ensures EqualsIn(NonsenseDoc, Span(9, 17)) == 17
  {
    LineUnique(NonsenseDoc, Span(0, 8));
    LineUnique(NonsenseDoc, Span(9, 17));
    EqualsInUnique(NonsenseDoc, Span(9, 17), 17);
  }

  /** The parser carries on past a malformed header: the unclosed header
      is an error, and the next line is read as usual. */
  lemma Nonsense(d: seq<bv8>)
    requires d == NonsenseDoc
    ensures Parse(d) == [SectionEnd, Error(Span(0, 8)), Property(Span(9, 17), None, Span(9, 17)), SectionEnd]
  {
    var property := Property(Span(9, 17), None, Span(9, 17));
    NonsenseLines();
    assert Next(d, Parser(0, 0, true)) == (Some(Error(Span(0, 8))), Parser(9, 1, false)) by {
      IniLines.SectionIffClosed(d, Parser(0, 0, true));
    }
    assert Next(d, Parser(9, 1, false)) == (Some(property), Parser(17, 1, false)) by {
      IniLines.TrimKeepsInner(d, Span(9, 17));
      IniLines.KeyOnly(d, Parser(9, 1, false));
      NextReadsLine(d, Parser(9, 1, false));
    }
    assert Run(d, Parser(17, 1, false)) == [SectionEnd];
    RunStep(d, Parser(9, 1, false), property, Parser(17, 1, false));
    RunStep(d, Parser(0, 0, true), Error(Span(0, 8)), Parser(9, 1, false));
    assert d[0] == OpenBracket;
    RunStep(d, Parser(0, 0, false), SectionEnd, Parser(0, 0, true));
  }
}
