/** `_split_markdown_sections`, `_split_oversized_markdown_section` and `chunk_markdown` of
    ingest/chunkers.py. */
module MarkdownChunker {
  import opened Common
  import opened Text
  import opened Lines
  import opened Packing
  import opened PackingProperties
  import opened Coverage
  import opened TextChunker
  import opened TextProperties
  import opened PackedCoverage
  import opened Fences

  /** What a chunk of any kind is at most long once it is stripped. */
  function DocumentBound(st: Settings): nat {
    Max(st.maxChunkChars, TextBound(st))
  }

  // ---- the counter buf_len ----

  /** `buf_len` after the paragraphs of buf were added one by one. */
  function Counted(buf: seq<string>): nat {
    if buf == [] then 0
    else
      var n := Counted(buf[..|buf| - 1]);
      n + |buf[|buf| - 1]| + (if n > 0 then 2 else 0)
  }

  lemma CountedSnoc(buf: seq<string>, p: string)
    ensures Counted(buf + [p]) == Counted(buf) + |p| + (if Counted(buf) > 0 then 2 else 0)
  {
    assert (buf + [p])[..|buf|] == buf;
  }

  /** Leading empty paragraphs that something follows. */
  function LeadingEmpty(buf: seq<string>): nat {
    if |buf| <= 1 || buf[0] != "" then 0 else 1 + LeadingEmpty(buf[1..])
  }

  lemma {:induction false} CountedTail(buf: seq<string>)
    requires buf != [] && buf[0] == ""
    ensures Counted(buf) == Counted(buf[1..])
  {
    var n := |buf| - 1;
    if n > 0 {
      CountedTail(buf[..n]);
      assert buf[1..][..n - 1] == buf[..n][1..];
    } else {
      assert buf[..0] == [] && buf[1..] == [];
    }
  }

  lemma {:induction false} CountedExact(buf: seq<string>)
    requires buf != [] && buf[0] != ""
    ensures Counted(buf) == |Join(buf, PARAGRAPH)| > 0
  {
    var front, last := buf[..|buf| - 1], buf[|buf| - 1];
    if front != [] {
      CountedExact(front);
      assert buf == front + [last];
      JoinAppend(front, [last], PARAGRAPH);
    }
  }

  /** The counter is not the joined length its comment promises: it misses two characters for
      every leading empty paragraph that something follows, and nothing else. */
  lemma {:induction false} CountedMisses(buf: seq<string>)
    ensures |Join(buf, PARAGRAPH)| == Counted(buf) + 2 * LeadingEmpty(buf)
  {
    if buf != [] && buf[0] != "" {
      CountedExact(buf);
    } else if buf != [] {
      CountedTail(buf);
      CountedMisses(buf[1..]);
    }
  }

  lemma CountedIsJoinLengthIff(buf: seq<string>)
    ensures Counted(buf) == |Join(buf, PARAGRAPH)| <==> |buf| <= 1 || buf[0] != ""
  {
    CountedMisses(buf);
  }

  /** What the counter misses is stripped in the end. */
  lemma {:induction false} StrippedJoinBound(buf: seq<string>)
    ensures |Strip(Join(buf, PARAGRAPH))| <= Counted(buf)
  {
    if buf != [] && buf[0] != "" {
      CountedExact(buf);
    } else if buf != [] {
      CountedTail(buf);
      StrippedJoinBound(buf[1..]);
      if |buf| > 1 {
        assert Join(buf, PARAGRAPH) == PARAGRAPH + Join(buf[1..], PARAGRAPH);
        StripDropsPrefix(PARAGRAPH, Join(buf[1..], PARAGRAPH));
      }
    }
  }

  // ---- one section ----

  ghost predicate StripBounded(cs: seq<string>, bound: nat) {
    forall k :: 0 <= k < |cs| ==> |Strip(cs[k])| <= bound
  }

  lemma TextStripBounded(text: string, st: Settings)
    requires st.Valid()
    ensures StripBounded(TextChunks(text, st), DocumentBound(st))
  {
    TextBounded(text, st);
    assert forall k :: 0 <= k < |TextChunks(text, st)| ==> TextChunks(text, st)[k] in TextChunks(text, st);
  }

  /** Paragraphs are buffered while the counter allows; one that is too long by itself is split as text. */
  function ParagraphChunks(ps: seq<string>, chunks: seq<string>, buf: seq<string>, st: Settings): seq<string>
    decreases |ps|, |buf|
  {
    if ps == [] then (if buf == [] then chunks else chunks + [Join(buf, PARAGRAPH)])
    else if buf != [] && Counted(buf) + |ps[0]| + 2 > st.maxChunkChars then
      ParagraphChunks(ps, chunks + [Join(buf, PARAGRAPH)], [], st)
    else if |ps[0]| > st.maxChunkChars then
      ParagraphChunks(ps[1..], chunks + TextChunks(ps[0], st), buf, st)
    else
      ParagraphChunks(ps[1..], chunks, buf + [ps[0]], st)
  }

  function SectionChunks(section: string, st: Settings): seq<string> {
    if |section| <= st.maxChunkChars then [section] else ParagraphChunks(Split(section, PARAGRAPH), [], [], st)
  }

  function AllSectionChunks(sections: seq<string>, st: Settings): seq<string> {
    if sections == [] then []
    else AllSectionChunks(sections[..|sections| - 1], st) + SectionChunks(sections[|sections| - 1], st)
  }

  /** The chunks cover e in order and respect the limit once stripped. */
  ghost predicate Good(e: string, cs: seq<string>, st: Settings) {
    TightlyCovers(e, cs, IsSpace, st.chunkSize) && StripBounded(cs, DocumentBound(st))
  }

  lemma GoodAppend(e: string, cs: seq<string>, e': string, cs': seq<string>, st: Settings)
    requires Good(e, cs, st) && Good(e', cs', st)
    ensures Good(e + e', cs + cs', st)
  {
    CoversAppend(e, cs, e', cs', IsSpace, st.chunkSize);
  }

  lemma GoodNothing(st: Settings)
    ensures Good("", [], st)
  {
    CoversNothing(IsSpace, st.chunkSize);
  }

  lemma GoodText(p: string, st: Settings)
    requires st.Valid()
    ensures Good(Erase(p, IsSpace), TextChunks(p, st), st)
  {
    TextCovers(p, st);
    TextStripBounded(p, st);
  }

  lemma GoodBuffer(buf: seq<string>, st: Settings)
    requires Counted(buf) <= st.maxChunkChars
    ensures Good(Flat(buf, IsSpace), [Join(buf, PARAGRAPH)], st)
  {
    EraseJoin(buf, PARAGRAPH, IsSpace);
    CoversWhole(Join(buf, PARAGRAPH), IsSpace, st.chunkSize);
    StrippedJoinBound(buf);
  }

  /** If the chunks so far are good for e, the final ones are good for e, the buffer and the
      remaining paragraphs. */
  lemma {:induction false} ParagraphsGood(e: string, ps: seq<string>, chunks: seq<string>, buf: seq<string>,
                                          st: Settings)
    requires st.Valid() && Good(e, chunks, st) && Counted(buf) <= st.maxChunkChars
    ensures Good(e + Flat(buf, IsSpace) + Flat(ps, IsSpace), ParagraphChunks(ps, chunks, buf, st), st)
    decreases |ps|, |buf|
  {
    var e' := e + Flat(buf, IsSpace);
    if buf == [] {
      assert e' == e;
    } else {
      GoodBuffer(buf, st);
      GoodAppend(e, chunks, Flat(buf, IsSpace), [Join(buf, PARAGRAPH)], st);
    }
    if ps == [] {
      assert e' + Flat(ps, IsSpace) == e';
    } else if buf != [] && Counted(buf) + |ps[0]| + 2 > st.maxChunkChars {
      ParagraphsGood(e', ps, chunks + [Join(buf, PARAGRAPH)], [], st);
      assert e' + Flat([], IsSpace) == e';
    } else {
      var p, later := ps[0], ps[1..];
      FlatCons(ps, IsSpace);
      AppendAssoc(e', Erase(p, IsSpace), Flat(later, IsSpace));
      if |p| > st.maxChunkChars {
        GoodText(p, st);
        GoodAppend(e, chunks, Erase(p, IsSpace), TextChunks(p, st), st);
        ParagraphsGood(e + Erase(p, IsSpace), later, chunks + TextChunks(p, st), [], st);
        assert e + Erase(p, IsSpace) + Flat([], IsSpace) == e + Erase(p, IsSpace);
      } else {
        CountedSnoc(buf, p);
        FlatSnoc(buf, p, IsSpace);
        AppendAssoc(e, Flat(buf, IsSpace), Erase(p, IsSpace));
        ParagraphsGood(e, later, chunks, buf + [p], st);
      }
    }
  }

  /** The chunks of a section cover it in order and, once stripped, respect the limit even where the
      counter falls short. */
  lemma SectionGood(section: string, st: Settings)
    requires st.Valid()
    ensures Good(Erase(section, IsSpace), SectionChunks(section, st), st)
  {
    if |section| <= st.maxChunkChars {
      CoversWhole(section, IsSpace, st.chunkSize);
    } else {
      var ps := Split(section, PARAGRAPH);
      GoodNothing(st);
      ParagraphsGood("", ps, [], [], st);
      JoinSplit(section, PARAGRAPH);
      EraseJoin(ps, PARAGRAPH, IsSpace);
      assert "" + Flat([], IsSpace) + Flat(ps, IsSpace) == Erase(section, IsSpace);
    }
  }

  /** Splits a large section at empty lines. */
  method SplitOversizedSection(section: string, st: Settings) returns (chunks: seq<string>)
    requires st.Valid()
    ensures chunks == SectionChunks(section, st)
    ensures Good(Erase(section, IsSpace), chunks, st)
  {
    SectionGood(section, st);
    if |section| <= st.maxChunkChars {
      return [section];
    }
    var paragraphs := Split(section, PARAGRAPH);
    chunks := [];
    var buf: seq<string> := [];
    var bufLen := 0;
    assert paragraphs[0..] == paragraphs;
    for i := 0 to |paragraphs|
      invariant SectionChunks(section, st) == ParagraphChunks(paragraphs[i..], chunks, buf, st)
      invariant bufLen == Counted(buf)
    {
      var p := paragraphs[i];
      assert paragraphs[i..][1..] == paragraphs[i + 1..];
      var additional := |p| + (if buf != [] then 2 else 0);
      if buf != [] && bufLen + additional > st.maxChunkChars {
        chunks := chunks + [Join(buf, PARAGRAPH)];
        buf := [];
        bufLen := 0;
      }
      if |p| > st.maxChunkChars {
        var split := ChunkText(p, st);
        chunks := chunks + split;
      } else {
        CountedSnoc(buf, p);
        buf := buf + [p];
        bufLen := bufLen + |p| + (if bufLen > 0 then 2 else 0);
      }
    }
    if buf != [] {
      chunks := chunks + [Join(buf, PARAGRAPH)];
    }
  }

  // ---- the document ----

  function StrippedSections(raw: seq<seq<string>>): seq<string> {
    if raw == [] then []
    else
      var section := Strip(Join(raw[0], "\n"));
      (if section == "" then [] else [section]) + StrippedSections(raw[1..])
  }

  lemma {:induction false} SectionsKeepAll(raw: seq<seq<string>>)
    ensures Flat(StrippedSections(raw), IsSpace) == Flat(Flatten(raw), IsSpace)
  {
    if raw != [] {
      var section := Strip(Join(raw[0], "\n"));
      SectionsKeepAll(raw[1..]);
      EraseStrip(Join(raw[0], "\n"));
      EraseJoin(raw[0], "\n", IsSpace);
      FlatAppend(raw[0], Flatten(raw[1..]), IsSpace);
      FlatAppend(if section == "" then [] else [section], StrippedSections(raw[1..]), IsSpace);
      if section != "" {
        FlatSingle(section, IsSpace);
      }
    }
  }

  lemma {:induction false} SectionsConcatenate(lines: seq<string>, cuts: seq<nat>, raw: seq<seq<string>>, k: nat)
    requires AreSections(lines, cuts, raw) && k <= |raw|
    ensures if k < |raw| then cuts[k] <= |lines| && Flatten(raw[k..]) == lines[cuts[k]..] else Flatten(raw[k..]) == []
    decreases |raw| - k
  {
    if k < |raw| {
      assert CutAt(lines, cuts, raw, k);
      SectionsConcatenate(lines, cuts, raw, k + 1);
      assert raw[k..][1..] == raw[k + 1..];
    }
  }

  /** The sections between headers outside fenced blocks, joined and stripped; blank ones are dropped. */
  ghost predicate AreMarkdownSections(text: string, sections: seq<string>) {
    exists raw :: Sectioned(SplitLines(text), raw) && sections == StrippedSections(raw)
  }

  lemma SectionsOfDocument(text: string, sections: seq<string>, sections': seq<string>)
    requires AreMarkdownSections(text, sections) && AreMarkdownSections(text, sections')
    ensures sections == sections'
  {
    var raw :| Sectioned(SplitLines(text), raw) && sections == StrippedSections(raw);
    var raw' :| Sectioned(SplitLines(text), raw') && sections' == StrippedSections(raw');
    SectionsAreUnique(SplitLines(text), raw, raw');
  }

  lemma SectionedKeepsAll(text: string, raw: seq<seq<string>>)
    requires Sectioned(SplitLines(text), raw)
    ensures Flat(StrippedSections(raw), IsSpace) == Erase(text, IsSpace)
  {
    var lines := SplitLines(text);
    var cuts :| SectionedAt(lines, cuts, raw);
    SplitLinesKeepsAll(text);
    SectionsConcatenate(lines, cuts, raw, 0);
    assert raw[0..] == raw && lines[0..] == lines;
    SectionsKeepAll(raw);
  }

  method SplitMarkdownSections(text: string) returns (sections: seq<string>)
    ensures AreMarkdownSections(text, sections)
    ensures Flat(sections, IsSpace) == Erase(text, IsSpace)
  {
    var raw := SplitSections(SplitLines(text));
    sections := StrippedSections(raw);
    SectionedKeepsAll(text, raw);
  }

  /** A packed chunk, once stripped, is within the limit, or a single stripped piece. */
  lemma PackedStripBound(p: seq<string>, size: nat, bound: nat)
    requires StripBounded(p, bound) && size <= bound
    ensures StripBounded(Merged(p, PARAGRAPH, Limits(size, 0)), bound)
  {
    var lim := Limits(size, 0);
    var cs, ws := Merged(p, PARAGRAPH, lim), Pack(p, 2, lim);
    forall k | 0 <= k < |cs|
      ensures |Strip(cs[k])| <= bound
    {
      ChunkShape(p, PARAGRAPH, lim, k);
      if |cs[k]| > size {
        var w, start := ws[k], PackingProperties.Start(ws, k);
        if w.lo < start {
          assert Join(p[w.lo..start], PARAGRAPH) == "";
          assert cs[k] == PARAGRAPH + p[start];
          StripDropsPrefix(PARAGRAPH, p[start]);
        }
      }
    }
  }

  /** The sections of the document, each split, and all packed. */
  ghost predicate IsMarkdownChunking(text: string, st: Settings, chunks: seq<string>) {
    exists sections ::
      && AreMarkdownSections(text, sections)
      && chunks == Merged(AllSectionChunks(sections, st), PARAGRAPH, Limits(st.chunkSize, 0))
  }

  /** There is only one chunking of a document. */
  lemma ChunkingIsUnique(text: string, st: Settings, chunks: seq<string>, chunks': seq<string>)
    requires IsMarkdownChunking(text, st, chunks) && IsMarkdownChunking(text, st, chunks')
    ensures chunks == chunks'
  {
    var s :| AreMarkdownSections(text, s)
      && chunks == Merged(AllSectionChunks(s, st), PARAGRAPH, Limits(st.chunkSize, 0));
    var s' :| AreMarkdownSections(text, s')
      && chunks' == Merged(AllSectionChunks(s', st), PARAGRAPH, Limits(st.chunkSize, 0));
    SectionsOfDocument(text, s, s');
  }

  lemma {:induction false} AllSectionsGood(sections: seq<string>, st: Settings)
    requires st.Valid()
    ensures Good(Flat(sections, IsSpace), AllSectionChunks(sections, st), st)
  {
    if sections == [] {
      GoodNothing(st);
    } else {
      var front, section := sections[..|sections| - 1], sections[|sections| - 1];
      AllSectionsGood(front, st);
      SectionGood(section, st);
      FlatSnoc(front, section, IsSpace);
      assert sections == front + [section];
      GoodAppend(Flat(front, IsSpace), AllSectionChunks(front, st),
                 Erase(section, IsSpace), SectionChunks(section, st), st);
    }
  }

  /** The chunks cover the document in order and, once stripped, respect the limit. */
  lemma MarkdownIsGood(text: string, st: Settings, chunks: seq<string>)
    requires st.Valid() && IsMarkdownChunking(text, st, chunks)
    ensures Covers(Erase(text, IsSpace), chunks, IsSpace)
    ensures StripBounded(chunks, DocumentBound(st))
  {
    var sections :| AreMarkdownSections(text, sections)
      && chunks == Merged(AllSectionChunks(sections, st), PARAGRAPH, Limits(st.chunkSize, 0));
    var raw :| Sectioned(SplitLines(text), raw) && sections == StrippedSections(raw);
    SectionedKeepsAll(text, raw);
    AllSectionsGood(sections, st);
    PackedCovers(Erase(text, IsSpace), AllSectionChunks(sections, st), IsSpace, st.chunkSize);
    PackedStripBound(AllSectionChunks(sections, st), st.chunkSize, DocumentBound(st));
  }

  lemma NextSection(sections: seq<string>, i: nat, st: Settings)
    requires i < |sections|
    ensures AllSectionChunks(sections[..i + 1], st)
         == AllSectionChunks(sections[..i], st) + SectionChunks(sections[i], st)
  {
    assert sections[..i + 1][..i] == sections[..i];
  }

  method ChunkMarkdown(text: string, st: Settings) returns (chunks: seq<string>)
    requires st.Valid()
    ensures IsMarkdownChunking(text, st, chunks)
    ensures Covers(Erase(text, IsSpace), chunks, IsSpace)
    ensures StripBounded(chunks, DocumentBound(st))
  {
    var sections := SplitMarkdownSections(text);
    var finalChunks: seq<string> := [];
    for i := 0 to |sections|
      invariant finalChunks == AllSectionChunks(sections[..i], st)
    {
      NextSection(sections, i, st);
      var split := SplitOversizedSection(sections[i], st);
      finalChunks := finalChunks + split;
    }
    assert sections[..|sections|] == sections;
    chunks := MergeSplits(finalChunks, PARAGRAPH, st.chunkSize, 0);
    assert IsMarkdownChunking(text, st, chunks);
    MarkdownIsGood(text, st, chunks);
  }
}
