/** The parser run to completion (src/lib.rs): the items `Parser::new(s)`
    yields, where the `SectionEnd` markers fall, and the whole-document round
    trip of the raw lines. */
module IniRun {
  import opened Scan
  import opened Ini

  /** `Section` and `Error` are the two readings of a `[` line. */
  predicate IsHeader(item: Item) {
    item.Section? || item.Error?
  }

  /** The flag is raised only at a `[` line or at the end of the document. */
  predicate Inv(doc: seq<bv8>, p: Parser) {
    p.Valid(doc) && (p.sectionEnded ==> p.pos == |doc| || doc[p.pos] == OpenBracket)
  }

  /** A fresh parser meets the invariant, and every step keeps it; under it,
      reading a line always leaves the flag down. */
  lemma NextInv(doc: seq<bv8>, p: Parser)
    requires Inv(doc, p)
    ensures Inv(doc, New(doc))
    ensures Inv(doc, Next(doc, p).1)
    ensures Next(doc, p).0.Some? && Next(doc, p).0.value.IsLineItem() ==> !Next(doc, p).1.sectionEnded
  {
  }

  /** The items the iterator yields until it returns `None`. */
  function Run(doc: seq<bv8>, p: Parser): (items: seq<Item>)
    requires p.Valid(doc)
    ensures items == [] <==> p.pos == |doc| && p.sectionEnded
    decreases Measure(doc, p)
  {
    var (o, q) := Next(doc, p);
    if o.None? then [] else [o.value] + Run(doc, q)
  }

  /** One step of the run: the item `next` yields, then the rest. */
  lemma RunStep(doc: seq<bv8>, p: Parser, item: Item, q: Parser)
    requires p.Valid(doc) && Next(doc, p) == (Some(item), q)
    ensures Run(doc, p) == [item] + Run(doc, q)
  {
  }

  /** `Parser::new(s).collect()`: every document, the empty one included,
      yields at least the final marker. */
  function Parse(doc: seq<bv8>): (items: seq<Item>)
    ensures |items| > 0 && items[|items| - 1] == SectionEnd
  {
    NextInv(doc, New(doc));
    RunBoundaries(doc, New(doc));
    Run(doc, New(doc))
  }

  /** Where the markers fall in `items`, for a run that starts with the
      flag `raised`: the run ends with a marker (unless it is empty), every
      `[` line is immediately preceded by a marker (or, first of all, by the
      raised flag), and every marker but the last is immediately followed by
      a `[` line. */
  ghost predicate MarkersPlaced(items: seq<Item>, raised: bool) {
    && (items != [] ==> items[|items| - 1] == SectionEnd)
    && (items != [] && IsHeader(items[0]) ==> raised)
    && (forall k :: 0 < k < |items| && IsHeader(items[k]) ==> items[k - 1] == SectionEnd)
    && (forall k :: 0 <= k < |items| - 1 && items[k] == SectionEnd ==> IsHeader(items[k + 1]))
  }

  /** The placement extends by one item at the front. */
  lemma MarkersCons(item: Item, rest: seq<Item>, raised: bool, raisedAfter: bool)
    requires MarkersPlaced(rest, raisedAfter)
    requires item == SectionEnd ==> raisedAfter && (rest != [] ==> IsHeader(rest[0]))
    requires IsHeader(item) ==> raised
    requires item != SectionEnd ==> rest != [] && !raisedAfter
    ensures MarkersPlaced([item] + rest, raised)
  {
    var items := [item] + rest;
    forall k | 0 < k < |items| && IsHeader(items[k])
      ensures items[k - 1] == SectionEnd
    {
      assert items[k] == rest[k - 1];
      assert items[k - 1] == if k == 1 then item else rest[k - 2];
    }
    forall k | 0 <= k < |items| - 1 && items[k] == SectionEnd
      ensures IsHeader(items[k + 1])
    {
      assert items[k + 1] == rest[k];
    }
  }

  /** How one step moves the flag, under the invariant: a marker raises it
      and is followed by a `[` line or the end; a `[` line is read only with
      the flag raised; every line leaves it down. */
  lemma StepFlags(doc: seq<bv8>, p: Parser)
    requires Inv(doc, p) && Next(doc, p).0.Some?
    ensures var o, q := Next(doc, p).0.value, Next(doc, p).1;
            && (o == SectionEnd ==> q.sectionEnded && (q.pos < |doc| ==> IsHeader(Next(doc, q).0.value)))
            && (IsHeader(o) ==> p.sectionEnded)
            && (o != SectionEnd ==> !q.sectionEnded)
  {
    var o, q := Next(doc, p).0.value, Next(doc, p).1;
    NextInv(doc, p);
    NextReadsLine(doc, p);
    if o == SectionEnd && q.pos < |doc| {
      NextReadsLine(doc, q);
    }
  }

  /** The run yields its markers where `MarkersPlaced` says. */
  lemma {:induction false} RunBoundaries(doc: seq<bv8>, p: Parser)
    requires Inv(doc, p)
    ensures MarkersPlaced(Run(doc, p), p.sectionEnded)
    decreases Measure(doc, p)
  {
    var (o, q) := Next(doc, p);
    if o.Some? {
      NextInv(doc, p);
      RunBoundaries(doc, q);
      StepFlags(doc, p);
      assert Run(doc, p) == [o.value] + Run(doc, q);
      assert Run(doc, q) != [] ==> Run(doc, q)[0] == Next(doc, q).0.value;
      MarkersCons(o.value, Run(doc, q), p.sectionEnded, q.sectionEnded);
    }
  }

  /** The length of the line terminator at `at`: two bytes for `\r\n`, one
      for a lone `\r` or `\n`, none at the end of the document. */
  function TerminatorLength(doc: seq<bv8>, at: nat): (n: nat)
    requires at <= |doc|
    requires at < |doc| ==> IsNewline(doc[at])
    ensures at + n <= |doc|
  {
    if at == |doc| then 0
    else if doc[at] == CR && at + 1 < |doc| && doc[at + 1] == LF then 2
    else 1
  }

  /** `skip_ln` skips exactly the terminator's length. */
  lemma SkipsTerminatorLength(doc: seq<bv8>, at: nat, to: nat)
    requires at <= |doc| && (at < |doc| ==> IsNewline(doc[at]))
    requires SkipsTerminator(doc, at, to)
    ensures to == at + TerminatorLength(doc, at)
  {
    if at < |doc| {
      var t := doc[at..to];
      assert t == [CR, LF] || t == [CR] || t == [LF];
      if |t| == 1 && to < |doc| {
        assert !(doc[at] == CR && doc[to] == LF);
      }
    }
  }

  /** The items, read in order, tile `doc` from `from` to its end: each
      line item's raw line starts where the previous terminator ended and is
      followed by exactly one terminator, and markers take no room. */
  ghost predicate Covers(doc: seq<bv8>, from: nat, items: seq<Item>)
    decreases |items|
  {
    if items == [] then from == |doc|
    else if items[0] == SectionEnd then Covers(doc, from, items[1..])
    else
      var raw := items[0].raw;
      && raw.start == from
      && IsLine(doc, raw)
      && Covers(doc, raw.end + TerminatorLength(doc, raw.end), items[1..])
  }

  /** Covering extends by one item at the front. */
  lemma CoversCons(doc: seq<bv8>, from: nat, item: Item, rest: seq<Item>)
    requires item == SectionEnd ==> Covers(doc, from, rest)
    requires item != SectionEnd ==>
               && item.raw.start == from && IsLine(doc, item.raw)
               && Covers(doc, item.raw.end + TerminatorLength(doc, item.raw.end), rest)
    ensures Covers(doc, from, [item] + rest)
  {
    assert ([item] + rest)[1..] == rest;
  }

  /** The format-preserving round trip: the raw lines of the run, with the
      terminators between them, are the whole unconsumed document. */
  lemma {:induction false} RunCovers(doc: seq<bv8>, p: Parser)
    requires p.Valid(doc)
    ensures Covers(doc, p.pos, Run(doc, p))
    decreases Measure(doc, p)
  {
    var (o, q) := Next(doc, p);
    if o.Some? {
      RunCovers(doc, q);
      assert Run(doc, p) == [o.value] + Run(doc, q);
      if o.value.IsLineItem() {
        StepCovers(doc, p);
      }
      CoversCons(doc, p.pos, o.value, Run(doc, q));
    }
  }

  /** A step that reads a line starts its raw line at the old position and
      moves past the line and its terminator. */
  lemma StepCovers(doc: seq<bv8>, p: Parser)
    requires p.Valid(doc) && Next(doc, p).0.Some? && Next(doc, p).0.value.IsLineItem()
    ensures var raw := Next(doc, p).0.value.raw;
            && raw.start == p.pos && IsLine(doc, raw)
            && Next(doc, p).1.pos == raw.end + TerminatorLength(doc, raw.end)
  {
    NextReadsLine(doc, p);
    SkipsTerminatorLength(doc, Next(doc, p).0.value.raw.end, Next(doc, p).1.pos);
  }

  /** The whole document is covered by the raw lines `Parse` yields. */
  lemma ParseCovers(doc: seq<bv8>)
    ensures Covers(doc, 0, Parse(doc))
  {
    RunCovers(doc, New(doc));
  }

  /** On a whole document the first `[` line is preceded by a marker too:
      every `[` line, header or error, comes right after a `SectionEnd`. */
  lemma ParseMarkers(doc: seq<bv8>)
    ensures MarkersPlaced(Parse(doc), false)
  {
    NextInv(doc, New(doc));
    RunBoundaries(doc, New(doc));
  }
}
