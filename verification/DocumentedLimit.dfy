/** MAX_CHUNK_CHARS is documented as the maximum for all chunkers: for which settings and documents
    the chunkers, before any strip, keep to it. */
module DocumentedLimit {
  import opened Text
  import opened Lines
  import opened Packing
  import opened PackingProperties
  import opened TextChunker
  import opened TextProperties
  import opened PythonChunker
  import opened Fences
  import opened MarkdownChunker
  import opened DocumentChunker

  // ---- packing pieces that are not empty ----

  lemma PackedBounded(pieces: seq<string>, size: nat, bound: nat)
    requires Bounded(pieces, bound) && size <= bound
    ensures forall c :: c in Merged(pieces, PARAGRAPH, Limits(size, 0)) ==> |c| <= bound
  {
    var cs, ws := Merged(pieces, PARAGRAPH, Limits(size, 0)), Pack(pieces, 2, Limits(size, 0));
    MergedPartitions(pieces, 2, size);
    forall k | 0 <= k < |cs|
      ensures |cs[k]| <= bound
    {
      assert WithinLimit(pieces, 2, size, ws[k]) by {
        assert ws[k] in ws;
      }
      ChunkLength(pieces, PARAGRAPH, ws[k]);
      if ws[k].hi == ws[k].lo + 1 {
        assert pieces[ws[k].lo..ws[k].hi] == [pieces[ws[k].lo]];
        assert pieces[ws[k].lo] in pieces;
      }
    }
  }

  // ---- Python ----

  lemma {:induction false} PiecesBounded(lines: seq<string>, spans: seq<Window>, st: Settings)
    requires st.Valid() && TextBound(st) <= st.maxChunkChars
    ensures Bounded(Pieces(lines, spans, st), st.maxChunkChars)
    decreases |spans|
  {
    if spans != [] {
      PiecesBounded(lines, spans[1..], st);
      if spans[0].lo <= spans[0].hi {
        TextBounded(Segment(lines, spans[0]), st);
      }
    }
  }

  /** The limit for Python, for any nodes, under the same condition as for text. */
  lemma PythonLimitIff(st: Settings)
    requires st.Valid()
    ensures (forall text, parsed, c :: c in PythonChunks(text, parsed, st) ==> |c| <= st.maxChunkChars)
            <==> TextBound(st) <= st.maxChunkChars
  {
    forall text, parsed, c | TextBound(st) <= st.maxChunkChars && c in PythonChunks(text, parsed, st)
      ensures |c| <= st.maxChunkChars
    {
      PythonBounded(text, parsed, st);
    }
    if TextBound(st) > st.maxChunkChars {
      var t := LongestText(st, PARAGRAPH);
      LongestTextIsSplit(st, PARAGRAPH);
      assert t in PythonChunks(t, SyntaxError, st) && |t| == TextBound(st);
    }
  }

  lemma PythonBounded(text: string, parsed: Parsed, st: Settings)
    requires st.Valid() && TextBound(st) <= st.maxChunkChars
    ensures forall c :: c in PythonChunks(text, parsed, st) ==> |c| <= st.maxChunkChars
  {
    TextBounded(text, st);
    if parsed.Body? {
      var lines := KeepEnds(text);
      PiecesBounded(lines, NodeSpans(parsed.nodes, 0, |lines|), st);
      PackedBounded(PythonPieces(text, parsed.nodes, st), st.chunkSize, st.maxChunkChars);
    }
  }

  // ---- Markdown without empty paragraphs ----

  lemma ParagraphsOf(section: string, p: string)
    requires p in Split(section, PARAGRAPH)
    ensures !Contains(p, PARAGRAPH)
  {
    SplitOff(section, PARAGRAPH, p);
  }

  /** With room for the overlap and one newline, non-empty paragraphs make chunks within the limit. */
  lemma {:induction false} ParagraphsBounded(ps: seq<string>, chunks: seq<string>, buf: seq<string>, st: Settings)
    requires st.Valid() && RunBound(st, 1) <= st.maxChunkChars
    requires forall p :: p in ps ==> p != "" && !Contains(p, PARAGRAPH)
    requires Bounded(chunks, st.maxChunkChars) && Counted(buf) <= st.maxChunkChars && (buf != [] ==> buf[0] != "")
    ensures Bounded(ParagraphChunks(ps, chunks, buf, st), st.maxChunkChars)
    decreases |ps|, |buf|
  {
    if buf != [] {
      CountedExact(buf);
    }
    if ps != [] {
      var p, later := ps[0], ps[1..];
      assert p in ps && forall q :: q in later ==> q in ps;
      if buf != [] && Counted(buf) + |p| + 2 > st.maxChunkChars {
        ParagraphsBounded(ps, chunks + [Join(buf, PARAGRAPH)], [], st);
      } else if |p| > st.maxChunkChars {
        ParagraphBounded(p, st);
        ParagraphsBounded(later, chunks + TextChunks(p, st), [], st);
      } else {
        CountedSnoc(buf, p);
        ParagraphsBounded(later, chunks, buf + [p], st);
      }
    }
  }

  /** No section that has to be split has an empty paragraph. */
  ghost predicate NoneEmpty(sections: seq<string>, st: Settings) {
    forall s :: s in sections && |s| > st.maxChunkChars ==> "" !in Split(s, PARAGRAPH)
  }

  ghost predicate NoEmptyParagraph(text: string, st: Settings) {
    forall sections :: AreMarkdownSections(text, sections) ==> NoneEmpty(sections, st)
  }

  lemma {:induction false} SectionsBounded(sections: seq<string>, st: Settings)
    requires st.Valid() && RunBound(st, 1) <= st.maxChunkChars
    requires NoneEmpty(sections, st) && "" !in sections
    ensures Bounded(AllSectionChunks(sections, st), st.maxChunkChars)
  {
    if sections != [] {
      var front, s := sections[..|sections| - 1], sections[|sections| - 1];
      assert s in sections && forall q :: q in front ==> q in sections;
      SectionsBounded(front, st);
      if |s| > st.maxChunkChars {
        forall p | p in Split(s, PARAGRAPH)
          ensures p != "" && !Contains(p, PARAGRAPH)
        {
          ParagraphsOf(s, p);
        }
        ParagraphsBounded(Split(s, PARAGRAPH), [], [], st);
      }
    }
  }

  lemma {:induction false} SectionsAreNotEmpty(raw: seq<seq<string>>)
    ensures "" !in StrippedSections(raw)
  {
    if raw != [] {
      SectionsAreNotEmpty(raw[1..]);
    }
  }

  lemma {:induction false} MarkdownBounded(text: string, st: Settings, chunks: seq<string>)
    requires st.Valid() && RunBound(st, 1) <= st.maxChunkChars
    requires NoEmptyParagraph(text, st) && IsMarkdownChunking(text, st, chunks)
    ensures forall c :: c in chunks ==> |c| <= st.maxChunkChars
  {
    var sections :| AreMarkdownSections(text, sections)
      && chunks == Merged(AllSectionChunks(sections, st), PARAGRAPH, Limits(st.chunkSize, 0));
    var raw :| Sectioned(SplitLines(text), raw) && sections == StrippedSections(raw);
    SectionsAreNotEmpty(raw);
    SectionsBounded(sections, st);
    PackedBounded(AllSectionChunks(sections, st), st.chunkSize, st.maxChunkChars);
  }

  // ---- documents of one section ----

  /** Text of one section: stripped, newlines its only line breaks, no header. */
  ghost predicate IsPlain(text: string) {
    text != "" && Strip(text) == text && '#' !in text && OnlyNewlines(text)
  }

  lemma PlainNeverBreaks(text: string, i: nat)
    requires '#' !in text && i < |SplitLines(text)|
    ensures !Breaks(SplitLines(text), i)
  {
    var line := SplitLines(text)[i];
    if '#' in line {
      LineOfText(text, i, '#');
    }
    assert line != "" ==> line[0] in line;
  }

  lemma OneSection(lines: seq<string>)
    requires lines != [] && forall i :: 0 < i < |lines| ==> !Breaks(lines, i)
    ensures Sectioned(lines, [lines])
  {
    assert lines[0..|lines|] == lines;
    assert CutAt(lines, [0], [lines], 0);
    assert SectionedAt(lines, [0], [lines]);
  }

  lemma PlainIsOneSection(text: string)
    requires IsPlain(text)
    ensures AreMarkdownSections(text, [text])
  {
    var lines := SplitLines(text);
    assert text[|text| - 1] != '\n';
    JoinLines(text);
    forall i | 0 < i < |lines|
      ensures !Breaks(lines, i)
    {
      PlainNeverBreaks(text, i);
    }
    OneSection(lines);
    assert [lines][1..] == [] && StrippedSections([lines]) == [text];
  }

  lemma PlainChunking(text: string, st: Settings)
    requires IsPlain(text)
    ensures IsMarkdownChunking(text, st, Merged(SectionChunks(text, st), PARAGRAPH, Limits(st.chunkSize, 0)))
  {
    var sections := [text];
    PlainIsOneSection(text);
    assert sections[..0] == [] && AllSectionChunks([], st) == [];
    assert AllSectionChunks(sections, st) == SectionChunks(text, st);
    assert AreMarkdownSections(text, sections);
  }

  lemma PlainNoneEmpty(text: string, st: Settings)
    requires IsPlain(text) && "" !in Split(text, PARAGRAPH)
    ensures NoEmptyParagraph(text, st)
  {
    PlainIsOneSection(text);
    forall sections | AreMarkdownSections(text, sections)
      ensures sections == [text]
    {
      SectionsOfDocument(text, sections, [text]);
    }
  }

  // ---- Markdown with empty paragraphs ----

  function Empties(n: nat): (ps: seq<string>)
    ensures |ps| == n && forall i :: 0 <= i < n ==> ps[i] == ""
  {
    seq(n, _ => "")
  }

  /** A paragraph that is split as text, n empty paragraphs, and one more. */
  function Paragraphs(st: Settings, n: nat, last: string): seq<string> {
    [Repeat('a', st.maxChunkChars + 1)] + Empties(n) + [last]
  }

  function Gap(st: Settings, n: nat, last: string): string {
    Join(Paragraphs(st, n, last), PARAGRAPH)
  }

  predicate IsPlainChar(c: char) {
    c == 'a' || c == 'b' || c == '\n'
  }

  lemma GapEnds(st: Settings, n: nat, last: string)
    requires last != ""
    ensures |Gap(st, n, last)| > st.maxChunkChars && Gap(st, n, last)[0] == 'a'
    ensures Gap(st, n, last)[|Gap(st, n, last)| - 1] == last[|last| - 1]
  {
    var first := Repeat('a', st.maxChunkChars + 1);
    var middle := [first] + Empties(n);
    JoinCons(first, Empties(n) + [last], PARAGRAPH);
    assert Paragraphs(st, n, last) == [first] + (Empties(n) + [last]);
    JoinAppend(middle, [last], PARAGRAPH);
  }

  lemma GapIsPlain(st: Settings, n: nat, last: string)
    requires last != "" && forall c :: c in last ==> c == 'b'
    ensures IsPlain(Gap(st, n, last)) && Split(Gap(st, n, last), PARAGRAPH) == Paragraphs(st, n, last)
  {
    var ps, t := Paragraphs(st, n, last), Gap(st, n, last);
    GapEnds(st, n, last);
    assert last[|last| - 1] in last;
    StripsNothing(t);
    SplitJoin(ps, PARAGRAPH);
    JoinHasOnly(ps, PARAGRAPH, IsPlainChar);
    forall i | 0 <= i < |t|
      ensures IsPlainChar(t[i])
    {
      assert t[i] in t;
    }
  }

  /** Its chunks, packed, are a chunking of this document. */
  lemma GapChunking(st: Settings, n: nat, last: string)
    requires last != "" && forall c :: c in last ==> c == 'b'
    ensures IsMarkdownChunking(Gap(st, n, last), st,
              Merged(ParagraphChunks(Paragraphs(st, n, last), [], [], st), PARAGRAPH, Limits(st.chunkSize, 0)))
  {
    GapIsPlain(st, n, last);
    GapEnds(st, n, last);
    PlainChunking(Gap(st, n, last), st);
  }

  ghost predicate HasLonger(chunks: seq<string>, bound: nat) {
    exists k :: 0 <= k < |chunks| && |chunks[k]| > bound
  }

  lemma TakeNext(p: string, later: seq<string>, chunks: seq<string>, buf: seq<string>, st: Settings)
    requires |p| <= st.maxChunkChars && (buf == [] || Counted(buf) + |p| + 2 <= st.maxChunkChars)
    ensures ParagraphChunks([p] + later, chunks, buf, st) == ParagraphChunks(later, chunks, buf + [p], st)
  {
    assert ([p] + later)[1..] == later;
  }

  lemma SplitNext(p: string, later: seq<string>, chunks: seq<string>, st: Settings)
    requires |p| > st.maxChunkChars
    ensures ParagraphChunks([p] + later, chunks, [], st) == ParagraphChunks(later, chunks + TextChunks(p, st), [], st)
  {
    assert ([p] + later)[1..] == later;
  }

  lemma FlushNext(p: string, later: seq<string>, chunks: seq<string>, buf: seq<string>, st: Settings)
    requires buf != [] && Counted(buf) + |p| + 2 > st.maxChunkChars
    ensures ParagraphChunks([p] + later, chunks, buf, st)
         == ParagraphChunks([p] + later, chunks + [Join(buf, PARAGRAPH)], [], st)
  {
  }

  lemma OneEmpty(st: Settings, x: string, last: string)
    requires |x| > st.maxChunkChars == |last|
    ensures ParagraphChunks([x, "", last], [], [], st) == TextChunks(x, st) + ["", last]
  {
    var text := TextChunks(x, st);
    CountedSnoc([], "");
    SplitNext(x, ["", last], [], st);
    TakeNext("", [last], text, [], st);
    FlushNext(last, [], text, [""], st);
    TakeNext(last, [], text + [""], [], st);
    assert [x, "", last] == [x] + ["", last] && ["", last] == [""] + [last] && [last] == [last] + [];
    assert [] + text == text && [] + [""] == [""] && [] + [last] == [last];
    assert text + [""] + [last] == text + ["", last];
  }

  /** One empty paragraph is enough to exceed the limit, whatever the settings: the counter lets it
      pass, and the packer puts it in front of a chunk that is full. */
  lemma OneEmptyExceeds(st: Settings) returns (chunks: seq<string>)
    requires st.Valid()
    ensures IsMarkdownChunking(Gap(st, 1, Repeat('b', st.maxChunkChars)), st, chunks)
    ensures HasLonger(chunks, st.maxChunkChars)
  {
    var x, last := Repeat('a', st.maxChunkChars + 1), Repeat('b', st.maxChunkChars);
    assert Paragraphs(st, 1, last) == [x, "", last];
    OneEmpty(st, x, last);
    GapChunking(st, 1, last);
    var pieces := TextChunks(x, st) + ["", last];
    chunks := Merged(pieces, PARAGRAPH, Limits(st.chunkSize, 0));
    var k := EmptyIsCarried(pieces, PARAGRAPH, st.chunkSize, |pieces| - 1);
  }

  lemma {:induction false} JoinEmpties(n: nat, last: string)
    ensures |Join(Empties(n) + [last], PARAGRAPH)| == 2 * n + |last|
  {
    if n == 0 {
      assert Empties(0) + [last] == [last];
    } else {
      JoinEmpties(n - 1, last);
      JoinCons("", Empties(n - 1) + [last], PARAGRAPH);
      assert Empties(n) + [last] == [""] + (Empties(n - 1) + [last]);
    }
  }

  lemma {:induction false} CountedEmpties(n: nat)
    ensures Counted(Empties(n)) == 0
  {
    if n > 0 {
      CountedEmpties(n - 1);
      CountedSnoc(Empties(n - 1), "");
      assert Empties(n) == Empties(n - 1) + [""];
    }
  }

  /** The buffer takes on any number of empty paragraphs. */
  lemma {:induction false} EmptiesPileUp(n: nat, j: nat, chunks: seq<string>, st: Settings)
    requires st.maxChunkChars >= 2
    ensures ParagraphChunks(Empties(n) + ["b"], chunks, Empties(j), st)
         == ParagraphChunks(["b"], chunks, Empties(n + j), st)
    decreases n
  {
    if n == 0 {
      assert Empties(0) + ["b"] == ["b"];
    } else {
      CountedEmpties(j);
      TakeNext("", Empties(n - 1) + ["b"], chunks, Empties(j), st);
      assert Empties(n) + ["b"] == [""] + (Empties(n - 1) + ["b"]);
      assert Empties(j) + [""] == Empties(j + 1);
      EmptiesPileUp(n - 1, j + 1, chunks, st);
    }
  }

  lemma PileIsFlushed(n: nat, chunks: seq<string>, st: Settings)
    requires st.maxChunkChars >= 2 && n >= 1
    ensures var pieces := ParagraphChunks(["b"], chunks, Empties(n), st);
            |chunks| < |pieces| && |pieces[|chunks|]| >= 2 * (n - 1)
  {
    CountedEmpties(n);
    assert ["b"] == ["b"] + [] && [] + ["b"] == ["b"];
    if st.maxChunkChars == 2 {
      var flushed := chunks + [Join(Empties(n), PARAGRAPH)];
      FlushNext("b", [], chunks, Empties(n), st);
      TakeNext("b", [], flushed, [], st);
      JoinEmpties(n - 1, "");
      assert Empties(n - 1) + [""] == Empties(n);
    } else {
      TakeNext("b", [], chunks, Empties(n), st);
      JoinEmpties(n, "b");
    }
  }

  lemma PileAfter(n: nat, chunks: seq<string>, st: Settings)
    requires st.maxChunkChars >= 2
    ensures var pieces := ParagraphChunks(Empties(n + 1) + ["b"], chunks, [], st);
            |chunks| < |pieces| && |pieces[|chunks|]| >= 2 * n
  {
    assert Empties(0) == [];
    EmptiesPileUp(n + 1, 0, chunks, st);
    PileIsFlushed(n + 1, chunks, st);
  }

  lemma {:induction false} FirstParagraph(n: nat, st: Settings)
    ensures ParagraphChunks(Paragraphs(st, n, "b"), [], [], st)
         == ParagraphChunks(Empties(n) + ["b"], TextChunks(Repeat('a', st.maxChunkChars + 1), st), [], st)
  {
    var x := Repeat('a', st.maxChunkChars + 1);
    SplitNext(x, Empties(n) + ["b"], [], st);
    AppendAssoc([x], Empties(n), ["b"]);
    assert [] + TextChunks(x, st) == TextChunks(x, st);
  }

  /** The pieces of the document: those of its first paragraph, then the pile. */
  lemma PileInPieces(n: nat, st: Settings) returns (i: nat)
    requires st.Valid() && st.maxChunkChars >= 2
    ensures var pieces := ParagraphChunks(Paragraphs(st, n + 1, "b"), [], [], st); i < |pieces| && |pieces[i]| >= 2 * n
  {
    var text := TextChunks(Repeat('a', st.maxChunkChars + 1), st);
    FirstParagraph(n + 1, st);
    PileAfter(n, text, st);
    i := |text|;
  }

  /** n + 1 empty paragraphs between two others make a chunk of at least 2n characters. */
  lemma EmptiesExceed(n: nat, st: Settings) returns (chunks: seq<string>)
    requires st.Valid() && st.maxChunkChars >= 2
    ensures IsMarkdownChunking(Gap(st, n + 1, "b"), st, chunks)
    ensures exists k :: 0 <= k < |chunks| && |chunks[k]| >= 2 * n
  {
    var pieces := ParagraphChunks(Paragraphs(st, n + 1, "b"), [], [], st);
    var i := PileInPieces(n, st);
    GapChunking(st, n + 1, "b");
    chunks := Merged(pieces, PARAGRAPH, Limits(st.chunkSize, 0));
    var k := PieceIsKept(pieces, PARAGRAPH, Limits(st.chunkSize, 0), i);
  }

  // ---- how far a chunk can go ----

  /** With a limit of one character the buffer never holds two paragraphs. */
  lemma {:induction false} ParagraphsTiny(ps: seq<string>, chunks: seq<string>, buf: seq<string>, st: Settings)
    requires st.Valid() && st.maxChunkChars == 1 && !HasLonger(chunks, 1)
    requires |buf| <= 1 && !HasLonger(buf, 1)
    ensures !HasLonger(ParagraphChunks(ps, chunks, buf, st), 1)
    decreases |ps|, |buf|
  {
    if ps != [] {
      if buf != [] {
        ParagraphsTiny(ps, chunks + [Join(buf, PARAGRAPH)], [], st);
      } else if |ps[0]| > 1 {
        TextIsTiny(ps[0], st);
        ParagraphsTiny(ps[1..], chunks + TextChunks(ps[0], st), buf, st);
      } else {
        ParagraphsTiny(ps[1..], chunks, buf + [ps[0]], st);
      }
    }
  }

  lemma TextIsTiny(p: string, st: Settings)
    requires st.Valid() && st.maxChunkChars == 1
    ensures !HasLonger(TextChunks(p, st), 1)
  {
    TextBounded(p, st);
    assert forall k :: 0 <= k < |TextChunks(p, st)| ==> TextChunks(p, st)[k] in TextChunks(p, st);
  }

  lemma {:induction false} SectionsTiny(sections: seq<string>, st: Settings)
    requires st.Valid() && st.maxChunkChars == 1
    ensures !HasLonger(AllSectionChunks(sections, st), 1)
  {
    if sections != [] {
      SectionsTiny(sections[..|sections| - 1], st);
      ParagraphsTiny(Split(sections[|sections| - 1], PARAGRAPH), [], [], st);
    }
  }

  lemma PackedTiny(pieces: seq<string>)
    requires !HasLonger(pieces, 1)
    ensures !HasLonger(Merged(pieces, PARAGRAPH, Limits(1, 0)), 3)
  {
    var cs := Merged(pieces, PARAGRAPH, Limits(1, 0));
    forall k | 0 <= k < |cs|
      ensures |cs[k]| <= 3
    {
      ChunkShape(pieces, PARAGRAPH, Limits(1, 0), k);
    }
  }

  lemma ChunkingTiny(sections: seq<string>, st: Settings)
    requires st.Valid() && st.maxChunkChars == 1
    ensures !HasLonger(Merged(AllSectionChunks(sections, st), PARAGRAPH, Limits(st.chunkSize, 0)), 3)
  {
    assert st.chunkSize == 1;
    SectionsTiny(sections, st);
    PackedTiny(AllSectionChunks(sections, st));
  }

  lemma MarkdownTiny(text: string, st: Settings, chunks: seq<string>)
    requires st.Valid() && st.maxChunkChars == 1 && IsMarkdownChunking(text, st, chunks)
    ensures !HasLonger(chunks, 3)
  {
    var sections :| AreMarkdownSections(text, sections)
      && chunks == Merged(AllSectionChunks(sections, st), PARAGRAPH, Limits(st.chunkSize, 0));
    ChunkingTiny(sections, st);
  }

  /** Some document has a chunk longer than the bound. */
  ghost predicate Exceeded(st: Settings, bound: nat) {
    exists text, chunks :: IsMarkdownChunking(text, st, chunks) && HasLonger(chunks, bound)
  }

  lemma AnyBoundExceeded(st: Settings, bound: nat)
    requires st.Valid() && st.maxChunkChars >= 2
    ensures Exceeded(st, bound)
  {
    var chunks := EmptiesExceed(bound + 1, st);
    assert HasLonger(chunks, bound);
  }

  /** Markdown chunks can be longer than any bound, unless MAX_CHUNK_CHARS is 1. */
  lemma MarkdownUnboundedIff(st: Settings)
    requires st.Valid()
    ensures (forall bound: nat :: Exceeded(st, bound)) <==> st.maxChunkChars >= 2
  {
    if st.maxChunkChars >= 2 {
      forall bound: nat
        ensures Exceeded(st, bound)
      {
        AnyBoundExceeded(st, bound);
      }
    } else {
      forall text, chunks | IsMarkdownChunking(text, st, chunks)
        ensures !HasLonger(chunks, 3)
      {
        MarkdownTiny(text, st, chunks);
      }
      assert !Exceeded(st, 3);
    }
  }

  // ---- the limit for Markdown ----

  lemma LongestSection(st: Settings)
    requires st.Valid() && RunBound(st, 1) > st.maxChunkChars
    ensures SectionChunks(LongestText(st, "\n"), st) == TextChunks(LongestText(st, "\n"), st)
  {
    var t := LongestText(st, "\n");
    LongestIsPlain(st);
    SplitNext(t, [], [], st);
    assert [t] + [] == [t] && [] + TextChunks(t, st) == TextChunks(t, st);
  }

  /** A paragraph of O characters, a newline and S characters. */
  lemma LongestParagraph(st: Settings) returns (chunks: seq<string>)
    requires st.Valid() && RunBound(st, 1) > st.maxChunkChars
    ensures NoEmptyParagraph(LongestText(st, "\n"), st) && IsMarkdownChunking(LongestText(st, "\n"), st, chunks)
    ensures HasLonger(chunks, st.maxChunkChars)
  {
    var t := LongestText(st, "\n");
    LongestIsPlain(st);
    PlainNoneEmpty(t, st);
    PlainChunking(t, st);
    LongestSection(st);
    LongestTextIsSplit(st, "\n");
    var pieces := TextChunks(t, st);
    chunks := Merged(pieces, PARAGRAPH, Limits(st.chunkSize, 0));
    LongPieceStays(pieces, st.chunkSize, t);
  }

  lemma LongPieceStays(pieces: seq<string>, size: nat, t: string)
    requires t in pieces && t != ""
    ensures HasLonger(Merged(pieces, PARAGRAPH, Limits(size, 0)), |t| - 1)
  {
    var i :| 0 <= i < |pieces| && pieces[i] == t;
    var k := PieceIsKept(pieces, PARAGRAPH, Limits(size, 0), i);
  }

  lemma LongestIsPlain(st: Settings)
    requires st.Valid() && st.chunkOverlap > 0
    ensures IsPlain(LongestText(st, "\n")) && Split(LongestText(st, "\n"), PARAGRAPH) == [LongestText(st, "\n")]
  {
    var t := LongestText(st, "\n");
    assert t[0] == '$' && t[|t| - 1] == '$';
    StripsNothing(t);
    NoEmptyLine(t);
    UnsplitText(t, PARAGRAPH);
  }

  lemma {:induction false} UnsplitText(t: string, sep: string)
    requires sep != "" && !Contains(t, sep)
    ensures Split(t, sep) == [t]
  {
    if t != "" {
      assert t[0..] == t;
      forall i | 0 <= i <= |t[1..]|
        ensures !(sep <= t[1..][i..])
      {
        assert t[1..][i..] == t[i + 1..];
      }
      UnsplitText(t[1..], sep);
      assert t == [t[0]] + t[1..];
    }
  }

  /** For the documents of which no section above the limit has an empty paragraph, the limit holds for
      all of them exactly when the settings leave room for the overlap and one newline. */
  lemma MarkdownLimitIff(st: Settings)
    requires st.Valid()
    ensures (forall text, chunks :: IsMarkdownChunking(text, st, chunks) && NoEmptyParagraph(text, st) ==>
               !HasLonger(chunks, st.maxChunkChars))
            <==> RunBound(st, 1) <= st.maxChunkChars
  {
    if RunBound(st, 1) > st.maxChunkChars {
      var chunks := LongestParagraph(st);
    } else {
      forall text, chunks | IsMarkdownChunking(text, st, chunks) && NoEmptyParagraph(text, st)
        ensures !HasLonger(chunks, st.maxChunkChars)
      {
        MarkdownBounded(text, st, chunks);
        assert forall k :: 0 <= k < |chunks| ==> chunks[k] in chunks;
      }
    }
  }

  // ---- one document ----

  /** What the packer needs: no piece above the limit, and room for a separator in a piece that an
      empty one stands before. */
  ghost predicate PieceFits(pieces: seq<string>, limit: nat, i: nat)
    requires i < |pieces|
  {
    |pieces[i]| + (if i > 0 && pieces[i - 1] == "" then |PARAGRAPH| else 0) <= limit
  }

  ghost predicate PiecesFit(pieces: seq<string>, limit: nat) {
    forall i :: 0 <= i < |pieces| ==> PieceFits(pieces, limit, i)
  }

  lemma PieceTooLong(pieces: seq<string>, size: nat, limit: nat, i: nat)
    requires i < |pieces| && !PieceFits(pieces, limit, i)
    ensures HasLonger(Merged(pieces, PARAGRAPH, Limits(size, 0)), limit)
  {
    if |pieces[i]| > limit {
      var k := PieceIsKept(pieces, PARAGRAPH, Limits(size, 0), i);
    } else {
      var k := EmptyIsCarried(pieces, PARAGRAPH, size, i);
    }
  }

  /** A chunk above the size limit is one piece, or one piece behind an empty one. */
  lemma ChunkOfFitting(pieces: seq<string>, size: nat, limit: nat, k: nat)
    requires size <= limit && PiecesFit(pieces, limit) && k < |Merged(pieces, PARAGRAPH, Limits(size, 0))|
    ensures |Merged(pieces, PARAGRAPH, Limits(size, 0))[k]| <= limit
  {
    var lim := Limits(size, 0);
    ChunkShape(pieces, PARAGRAPH, lim, k);
    var w, start := Pack(pieces, 2, lim)[k], PackingProperties.Start(Pack(pieces, 2, lim), k);
    assert PieceFits(pieces, limit, start);
    if w.lo < start {
      ChunkLength(pieces, PARAGRAPH, Window(w.lo, start));
      LenGrows(pieces, 2, w.lo, start - 1, start, start);
      LenStep(pieces, 2, start - 1, start - 1);
      assert pieces[start - 1] == "";
    }
  }

  lemma PackedFitsIff(pieces: seq<string>, size: nat, limit: nat)
    requires size <= limit
    ensures !HasLonger(Merged(pieces, PARAGRAPH, Limits(size, 0)), limit) <==> PiecesFit(pieces, limit)
  {
    var cs := Merged(pieces, PARAGRAPH, Limits(size, 0));
    if PiecesFit(pieces, limit) {
      forall k | 0 <= k < |cs|
        ensures |cs[k]| <= limit
      {
        ChunkOfFitting(pieces, size, limit, k);
      }
    } else {
      var i :| 0 <= i < |pieces| && !PieceFits(pieces, limit, i);
      PieceTooLong(pieces, size, limit, i);
    }
  }

  /** For every single document: its chunks are within the limit exactly when the pieces of its sections
      are, with room for a separator where an empty piece stands before one. */
  lemma MarkdownWithinIff(text: string, st: Settings, chunks: seq<string>)
    requires st.Valid() && IsMarkdownChunking(text, st, chunks)
    ensures forall sections :: AreMarkdownSections(text, sections) ==>
              (!HasLonger(chunks, st.maxChunkChars) <==> PiecesFit(AllSectionChunks(sections, st), st.maxChunkChars))
  {
    forall sections | AreMarkdownSections(text, sections)
      ensures !HasLonger(chunks, st.maxChunkChars) <==> PiecesFit(AllSectionChunks(sections, st), st.maxChunkChars)
    {
      ChunkingIsUnique(text, st, chunks,
                       Merged(AllSectionChunks(sections, st), PARAGRAPH, Limits(st.chunkSize, 0)));
      PackedFitsIff(AllSectionChunks(sections, st), st.chunkSize, st.maxChunkChars);
    }
  }

  /** A buffered piece is within the limit exactly when the counter is, with two characters more for every
      leading empty paragraph. */
  lemma BufferFitsIff(buf: seq<string>, limit: nat)
    ensures |Join(buf, PARAGRAPH)| <= limit <==> Counted(buf) + 2 * LeadingEmpty(buf) <= limit
  {
    CountedMisses(buf);
  }

  // ---- the documented limit ----

  /** For every suffix: before `index_file` strips them, all chunks of all documents are within
      MAX_CHUNK_CHARS exactly when the file is not Markdown and the settings leave room for the
      overlap and the longest separator. */
  lemma DocumentedLimitIff(suffix: string, st: Settings)
    requires st.Valid()
    ensures (forall text, parsed, chunks :: IsParse(parsed) && IsChunking(suffix, text, parsed, st, chunks) ==>
               !HasLonger(chunks, st.maxChunkChars))
            <==> suffix !in {".md", ".markdown"} && TextBound(st) <= st.maxChunkChars
  {
    if suffix in {".md", ".markdown"} {
      var chunks := OneEmptyExceeds(st);
      assert IsParse(SyntaxError);
      assert IsChunking(suffix, Gap(st, 1, Repeat('b', st.maxChunkChars)), SyntaxError, st, chunks);
    } else if TextBound(st) > st.maxChunkChars {
      var t := LongestText(st, PARAGRAPH);
      var chunks := TextChunks(t, st);
      LongestTextIsSplit(st, PARAGRAPH);
      assert IsParse(SyntaxError) && IsChunking(suffix, t, SyntaxError, st, chunks);
      var k :| 0 <= k < |chunks| && chunks[k] == t;
      assert |t| == TextBound(st) && HasLonger(chunks, st.maxChunkChars);
    } else {
      forall text, parsed, chunks | IsParse(parsed) && IsChunking(suffix, text, parsed, st, chunks)
        ensures !HasLonger(chunks, st.maxChunkChars)
      {
        TextBounded(text, st);
        PythonBounded(text, parsed, st);
        assert forall k :: 0 <= k < |chunks| ==> chunks[k] in chunks;
      }
    }
  }
}
