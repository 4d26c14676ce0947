/** The whitespace and the packing of Python and Markdown documents: every piece is a slice of the
    document, and small neighbours are packed up to the chunk size. */
module DocumentSlices {
  import opened Common
  import opened Text
  import opened Lines
  import opened Packing
  import opened PackingProperties
  import opened TextChunker
  import opened TextProperties
  import opened TextSlices
  import opened PythonChunker
  import opened Fences
  import opened MarkdownChunker

  // ---- what stands in what ----

  lemma IsThere(a: string, b: string, c: string)
    ensures StandsAt(a + b + c, b, |a|)
  {
  }

  lemma StandsWithin(text: string, x: nat, part: string, y: nat, c: string)
    requires StandsAt(text, part, x) && StandsAt(part, c, y)
    ensures StandsAt(text, c, x + y)
  {
    SliceTwice(text, x, x + |part|, y, y + |c|);
  }

  lemma {:induction false} LStripIsThere(s: string) returns (a: nat)
    ensures a <= |s| && LStrip(s) == s[a..]
  {
    a := 0;
    if s != "" && IsSpace(s[0]) {
      a := LStripIsThere(s[1..]);
      a := a + 1;
    }
  }

  lemma StripIsThere(s: string) returns (a: nat)
    ensures StandsAt(s, Strip(s), a)
  {
    a := LStripIsThere(s);
    assert Strip(s) <= s[a..];
  }

  /** What stands in the text is a slice of it, and so are its own slices. */
  lemma StandingIsSlice(text: string, c: string, a: nat)
    requires StandsAt(text, c, a)
    ensures IsSlice(text, c)
  {
    assert IsSliceAt(text, c, a, a + |c|);
  }

  // ---- Python ----

  lemma {:induction false} LinesAreThere(lines: seq<string>, lo: nat, hi: nat) returns (a: nat)
    requires lo <= hi <= |lines|
    ensures StandsAt(Flatten(lines), Flatten(lines[lo..hi]), a)
  {
    var before, part, after := lines[..lo], lines[lo..hi], lines[hi..];
    assert lines == before + part + after;
    FlattenAppend(before + part, after);
    FlattenAppend(before, part);
    IsThere(Flatten(before), Flatten(part), Flatten(after));
    a := |Flatten(before)|;
  }

  lemma {:induction false} SegmentIsThere(text: string, w: Window) returns (a: nat)
    requires w.lo <= w.hi
    ensures StandsAt(text, Segment(KeepEnds(text), w), a)
  {
    var lines := KeepEnds(text);
    var lo, hi := Min(w.lo, |lines|), Min(w.hi, |lines|);
    KeepEndsKeepsAll(text);
    var x := LinesAreThere(lines, lo, hi);
    a := StripIsThere(Flatten(lines[lo..hi]));
    StandsWithin(text, x, Flatten(lines[lo..hi]), a, Strip(Flatten(lines[lo..hi])));
    a := x + a;
  }

  lemma {:induction false} PiecesAreSlices(text: string, spans: seq<Window>, st: Settings)
    ensures AreSlices(text, Pieces(KeepEnds(text), spans, st))
  {
    if spans != [] {
      PiecesAreSlices(text, spans[1..], st);
      if spans[0].lo <= spans[0].hi {
        var segment := Segment(KeepEnds(text), spans[0]);
        var a := SegmentIsThere(text, spans[0]);
        StandingIsSlice(text, segment, a);
        ChunksAreSlices(segment, st);
        SlicesOfSlice(text, segment, a, TextChunks(segment, st));
      }
    }
  }

  /** What is emitted for the nodes of a module and between them has the whitespace it has there. */
  lemma PythonPiecesAreSlices(text: string, nodes: seq<Node>, st: Settings)
    ensures AreSlices(text, PythonPieces(text, nodes, st))
  {
    PiecesAreSlices(text, NodeSpans(nodes, 0, |KeepEnds(text)|), st);
  }

  // ---- Markdown ----

  lemma JoinWindowIsThere(ps: seq<string>, sep: string, lo: nat, hi: nat) returns (a: nat)
    requires lo < hi <= |ps|
    ensures StandsAt(Join(ps, sep), Join(ps[lo..hi], sep), a)
  {
    var before, after := "", "";
    var whole := Join(ps[lo..hi], sep);
    if hi < |ps| {
      assert ps[lo..] == ps[lo..hi] + ps[hi..];
      JoinAppend(ps[lo..hi], ps[hi..], sep);
      after := sep + Join(ps[hi..], sep);
      AppendAssoc(whole, sep, Join(ps[hi..], sep));
    } else {
      assert ps[lo..] == ps[lo..hi] && whole + "" == whole;
    }
    assert Join(ps[lo..], sep) == whole + after;
    if lo > 0 {
      assert ps == ps[..lo] + ps[lo..];
      JoinAppend(ps[..lo], ps[lo..], sep);
      before := Join(ps[..lo], sep) + sep;
    } else {
      assert ps[0..] == ps && before + (whole + after) == whole + after;
    }
    AppendAssoc(before, whole, after);
    IsThere(before, whole, after);
    a := |before|;
  }

  lemma {:induction false} ParagraphsAreSlices(section: string, all: seq<string>, ps: seq<string>, chunks: seq<string>,
                                               buf: seq<string>, k: nat, st: Settings)
    requires Join(all, PARAGRAPH) == section && AtPart(all, buf, ps, k) && AreSlices(section, chunks)
    ensures AreSlices(section, ParagraphChunks(ps, chunks, buf, st))
    decreases |ps|, |buf|
  {
    if buf != [] {
      var a := JoinWindowIsThere(all, PARAGRAPH, k - |buf|, k);
      StandingIsSlice(section, Join(buf, PARAGRAPH), a);
    }
    if ps != [] {
      if buf != [] && Counted(buf) + |ps[0]| + 2 > st.maxChunkChars {
        ParagraphsAreSlices(section, all, ps, chunks + [Join(buf, PARAGRAPH)], [], k, st);
      } else {
        PartNext(all, buf, ps, k);
        if |ps[0]| > st.maxChunkChars {
          ParagraphIsSlices(section, all, ps, k, st);
          ParagraphsAreSlices(section, all, ps[1..], chunks + TextChunks(ps[0], st), [], k + 1, st);
        } else {
          ParagraphsAreSlices(section, all, ps[1..], chunks, buf + [ps[0]], k + 1, st);
        }
      }
    }
  }

  lemma ParagraphIsSlices(section: string, all: seq<string>, ps: seq<string>, k: nat, st: Settings)
    requires Join(all, PARAGRAPH) == section && k <= |all| && ps == all[k..] && ps != []
    ensures AreSlices(section, TextChunks(ps[0], st))
  {
    var a := JoinWindowIsThere(all, PARAGRAPH, k, k + 1);
    assert all[k..k + 1] == [ps[0]] && Join([ps[0]], PARAGRAPH) == ps[0];
    ChunksAreSlices(ps[0], st);
    SlicesOfSlice(section, ps[0], a, TextChunks(ps[0], st));
  }

  lemma SectionIsSlices(section: string, st: Settings)
    ensures AreSlices(section, SectionChunks(section, st))
  {
    if |section| <= st.maxChunkChars {
      assert section[0..|section|] == section;
      StandingIsSlice(section, section, 0);
    } else {
      JoinSplit(section, PARAGRAPH);
      ParagraphsAreSlices(section, Split(section, PARAGRAPH), Split(section, PARAGRAPH), [], [], 0, st);
    }
  }

  /** The sections stand in the document as they are. */
  ghost predicate StandIn(text: string, sections: seq<string>) {
    forall s :: s in sections ==> exists a: nat :: StandsAt(text, s, a)
  }

  lemma {:induction false} SectionsStand(lines: seq<string>, cuts: seq<nat>, raw: seq<seq<string>>, k: nat)
    requires AreSections(lines, cuts, raw) && k <= |raw|
    ensures StandIn(Join(lines, "\n"), StrippedSections(raw[k..]))
    decreases |raw| - k
  {
    if k < |raw| {
      assert CutAt(lines, cuts, raw, k);
      SectionsStand(lines, cuts, raw, k + 1);
      assert raw[k..][1..] == raw[k + 1..];
      var section := Join(raw[k], "\n");
      var a := JoinWindowIsThere(lines, "\n", cuts[k], if k + 1 < |cuts| then cuts[k + 1] else |lines|);
      var b := StripIsThere(section);
      StandsWithin(Join(lines, "\n"), a, section, b, Strip(section));
    }
  }

  lemma {:induction false} AllSectionsAreSlices(text: string, sections: seq<string>, st: Settings)
    requires StandIn(text, sections)
    ensures AreSlices(text, AllSectionChunks(sections, st))
  {
    if sections != [] {
      var n := |sections| - 1;
      assert forall s :: s in sections[..n] ==> s in sections;
      AllSectionsAreSlices(text, sections[..n], st);
      assert sections[n] in sections;
      var a: nat :| StandsAt(text, sections[n], a);
      SectionIsSlices(sections[n], st);
      SlicesOfSlice(text, sections[n], a, SectionChunks(sections[n], st));
    }
  }

  /** The sections stand in the document, its lines joined by newlines, and what they are split into
      has the whitespace it has there. */
  lemma MarkdownPiecesAreSlices(text: string, sections: seq<string>, st: Settings)
    requires AreMarkdownSections(text, sections)
    ensures StandIn(Join(SplitLines(text), "\n"), sections)
    ensures AreSlices(Join(SplitLines(text), "\n"), AllSectionChunks(sections, st))
  {
    var lines := SplitLines(text);
    var raw :| Sectioned(lines, raw) && sections == StrippedSections(raw);
    var cuts :| SectionedAt(lines, cuts, raw);
    SectionsStand(lines, cuts, raw, 0);
    assert raw[0..] == raw;
    AllSectionsAreSlices(Join(lines, "\n"), sections, st);
  }

  // ---- packing ----

  ghost predicate Plain(ps: seq<string>, limit: nat) {
    forall i :: 0 <= i < |ps| ==> 0 < |ps[i]| <= limit
  }

  lemma {:induction false} CountedIsLen(ps: seq<string>, limit: nat, lo: nat, i: nat)
    requires Plain(ps, limit) && lo < i <= |ps|
    ensures Counted(ps[lo..i]) == Len(ps, 2, lo, i)
  {
    CountedExact(ps[lo..i]);
    ChunkLength(ps, PARAGRAPH, Window(lo, i));
  }

  lemma CarriesNothing(ps: seq<string>, limit: nat, lo: nat, i: nat)
    requires Plain(ps, limit) && lo <= i <= |ps|
    ensures Carry(ps, 2, 0, lo, i) == i
    decreases i - lo
  {
    if lo < i {
      LenStep(ps, 2, lo, i);
      LenStep(ps, 2, lo, lo);
      LenGrows(ps, 2, lo, lo, lo + 1, i);
      CarriesNothing(ps, limit, lo + 1, i);
    }
  }

  lemma {:induction false} ParagraphNext(ps: seq<string>, chunks: seq<string>, lo: nat, i: nat, st: Settings)
    requires Plain(ps, st.maxChunkChars) && lo <= i < |ps|
    ensures ParagraphChunks(ps[i..], chunks, ps[lo..i], st)
         == if lo < i && Len(ps, 2, lo, i + 1) > st.maxChunkChars
            then ParagraphChunks(ps[i + 1..], chunks + [Join(ps[lo..i], PARAGRAPH)], ps[i..i + 1], st)
            else ParagraphChunks(ps[i + 1..], chunks, ps[lo..i + 1], st)
  {
    LenStep(ps, 2, lo, i);
    var later, buf := ps[i..], ps[lo..i];
    assert later[0] == ps[i] && later[1..] == ps[i + 1..] && (buf == [] <==> lo == i);
    SliceSnoc(ps, lo, i);
    SliceSnoc(ps, i, i);
    assert ps[i..i] == [];
    if lo < i {
      CountedIsLen(ps, st.maxChunkChars, lo, i);
    }
  }

  lemma {:induction false} PlanNext(ps: seq<string>, chunks: seq<string>, lo: nat, i: nat, limit: nat)
    requires Plain(ps, limit) && lo <= i < |ps|
    ensures var lim := Limits(limit, 0);
            Packing.Planned(ps, PARAGRAPH, lim, chunks, lo, i)
            == if lo < i && Len(ps, 2, lo, i + 1) > limit
               then Packing.Planned(ps, PARAGRAPH, lim, chunks + [Join(ps[lo..i], PARAGRAPH)], i, i + 1)
               else Packing.Planned(ps, PARAGRAPH, lim, chunks, lo, i + 1)
  {
    Packing.PlannedStep(ps, PARAGRAPH, Limits(limit, 0), chunks, lo, i);
    CarriesNothing(ps, limit, lo, i);
  }

  lemma {:induction false} PlanEnd(ps: seq<string>, chunks: seq<string>, lo: nat, st: Settings)
    requires lo <= |ps|
    ensures ParagraphChunks(ps[|ps|..], chunks, ps[lo..], st)
         == Packing.Planned(ps, PARAGRAPH, Limits(st.maxChunkChars, 0), chunks, lo, |ps|)
    ensures ps[lo..] == ps[lo..|ps|]
  {
    assert ps[|ps|..] == [] && ps[lo..] == ps[lo..|ps|];
    Packing.PlannedEnd(ps, PARAGRAPH, Limits(st.maxChunkChars, 0), chunks, lo);
  }

  /** The loop with ps[lo..i] in its buffer does what is still planned for the packing. */
  ghost predicate AsPlanned(ps: seq<string>, chunks: seq<string>, lo: nat, i: nat, st: Settings)
    requires lo <= i <= |ps|
  {
    ParagraphChunks(ps[i..], chunks, ps[lo..i], st)
    == Packing.Planned(ps, PARAGRAPH, Limits(st.maxChunkChars, 0), chunks, lo, i)
  }

  lemma {:induction false} CutAsPlanned(ps: seq<string>, chunks: seq<string>, lo: nat, i: nat, st: Settings)
    requires Plain(ps, st.maxChunkChars) && lo < i < |ps| && Len(ps, 2, lo, i + 1) > st.maxChunkChars
    ensures AsPlanned(ps, chunks, lo, i, st)
    decreases |ps| - i, 0
  {
    ParagraphsArePacked(ps, chunks + [Join(ps[lo..i], PARAGRAPH)], i, i + 1, st);
    ParagraphNext(ps, chunks, lo, i, st);
    PlanNext(ps, chunks, lo, i, st.maxChunkChars);
  }

  lemma {:induction false} KeepAsPlanned(ps: seq<string>, chunks: seq<string>, lo: nat, i: nat, st: Settings)
    requires Plain(ps, st.maxChunkChars) && lo <= i < |ps|
    requires lo == i || Len(ps, 2, lo, i + 1) <= st.maxChunkChars
    ensures AsPlanned(ps, chunks, lo, i, st)
    decreases |ps| - i, 0
  {
    ParagraphsArePacked(ps, chunks, lo, i + 1, st);
    ParagraphNext(ps, chunks, lo, i, st);
    PlanNext(ps, chunks, lo, i, st.maxChunkChars);
  }

  lemma {:induction false} ParagraphsArePacked(ps: seq<string>, chunks: seq<string>, lo: nat, i: nat, st: Settings)
    requires Plain(ps, st.maxChunkChars) && lo <= i <= |ps|
    ensures AsPlanned(ps, chunks, lo, i, st)
    decreases |ps| - i, 1
  {
    if i == |ps| {
      PlanEnd(ps, chunks, lo, st);
    } else if lo < i && Len(ps, 2, lo, i + 1) > st.maxChunkChars {
      CutAsPlanned(ps, chunks, lo, i, st);
    } else {
      KeepAsPlanned(ps, chunks, lo, i, st);
    }
  }

  /** A section longer than MAX_CHUNK_CHARS, of which no paragraph is empty or longer, is split into the
      greedy packing of its paragraphs into chunks of at most that size. */
  lemma SectionIsPacked(section: string, st: Settings)
    requires |section| > st.maxChunkChars && Plain(Split(section, PARAGRAPH), st.maxChunkChars)
    ensures SectionChunks(section, st) == Merged(Split(section, PARAGRAPH), PARAGRAPH, Limits(st.maxChunkChars, 0))
  {
    var ps := Split(section, PARAGRAPH);
    assert ps[0..] == ps && ps[0..0] == [];
    ParagraphsArePacked(ps, [], 0, 0, st);
    Packing.PlannedStart(ps, PARAGRAPH, Limits(st.maxChunkChars, 0));
  }

  /** A chunk is within the size or one piece, perhaps behind an empty one; two neighbours are not. */
  ghost predicate IsPacked(pieces: seq<string>, chunks: seq<string>, size: nat) {
    && (forall c :: c in chunks ==> |c| <= size || c in pieces || (PARAGRAPH <= c && c[2..] in pieces))
    && forall k :: 0 < k < |chunks| ==> |chunks[k - 1]| + 2 + |chunks[k]| > size
  }

  lemma PackedIs(pieces: seq<string>, size: nat)
    ensures IsPacked(pieces, Merged(pieces, PARAGRAPH, Limits(size, 0)), size)
  {
    var lim := Limits(size, 0);
    var cs, ws := Merged(pieces, PARAGRAPH, lim), Pack(pieces, 2, lim);
    forall c | c in cs
      ensures |c| <= size || c in pieces || (PARAGRAPH <= c && c[2..] in pieces)
    {
      var k :| 0 <= k < |cs| && cs[k] == c;
      ChunkShape(pieces, PARAGRAPH, lim, k);
      if |c| > size {
        var w, start := ws[k], PackingProperties.Start(ws, k);
        if w.lo < start {
          assert Join(pieces[w.lo..start], PARAGRAPH) == "";
          assert c == PARAGRAPH + pieces[start];
        }
      }
    }
    forall k | 0 < k < |cs|
      ensures |cs[k - 1]| + 2 + |cs[k]| > size
    {
      NeighboursTooLong(pieces, PARAGRAPH, lim, k);
    }
  }

  lemma PythonIsPacked(text: string, nodes: seq<Node>, st: Settings)
    requires PythonPieces(text, nodes, st) != []
    ensures IsPacked(PythonPieces(text, nodes, st), PythonChunks(text, Body(nodes), st), st.chunkSize)
  {
    PackedIs(PythonPieces(text, nodes, st), st.chunkSize);
  }

  lemma MarkdownIsPacked(text: string, st: Settings, chunks: seq<string>) returns (sections: seq<string>)
    requires IsMarkdownChunking(text, st, chunks)
    ensures AreMarkdownSections(text, sections)
    ensures IsPacked(AllSectionChunks(sections, st), chunks, st.chunkSize)
  {
    sections :| AreMarkdownSections(text, sections)
      && chunks == Merged(AllSectionChunks(sections, st), PARAGRAPH, Limits(st.chunkSize, 0));
    PackedIs(AllSectionChunks(sections, st), st.chunkSize);
  }
}
