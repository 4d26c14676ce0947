/** What `chunk_python` promises: the whole source, in order. */
module PythonProperties {
  import opened Common
  import opened Text
  import opened Lines
  import opened Packing
  import opened PackingProperties
  import opened Coverage
  import opened TextChunker
  import opened TextProperties
  import opened PackedCoverage
  import opened PythonChunker

  lemma EmittedCovers(segment: string, st: Settings)
    ensures TightlyCovers(Erase(segment, IsSpace), Emitted(segment, st), IsSpace, st.chunkSize)
  {
    if segment == "" {
      CoversNothing(IsSpace, st.chunkSize);
    } else if |segment| > st.maxChunkChars {
      TextCovers(segment, st);
    } else {
      CoversWhole(segment, IsSpace, st.chunkSize);
    }
  }

  lemma EraseSegment(lines: seq<string>, w: Window)
    requires w.lo <= w.hi
    ensures Erase(Segment(lines, w), IsSpace) == Flat(lines[Min(w.lo, |lines|)..Min(w.hi, |lines|)], IsSpace)
  {
    var slice := lines[Min(w.lo, |lines|)..Min(w.hi, |lines|)];
    EraseStrip(Flatten(slice));
    EraseFlatten(slice, IsSpace);
  }

  lemma FlatCut(lines: seq<string>, a: nat, b: nat)
    requires a <= b <= |lines|
    ensures Flat(lines[a..], IsSpace) == Flat(lines[a..b], IsSpace) + Flat(lines[b..], IsSpace)
  {
    assert lines[a..] == lines[a..b] + lines[b..];
    FlatAppend(lines[a..b], lines[b..], IsSpace);
  }

  lemma {:induction false} PiecesCover(lines: seq<string>, spans: seq<Window>, from: nat, st: Settings)
    requires Tiles(spans, from, |lines|)
    ensures TightlyCovers(Flat(lines[Min(from, |lines|)..], IsSpace), Pieces(lines, spans, st), IsSpace, st.chunkSize)
    decreases |spans|
  {
    if spans == [] {
      CoversNothing(IsSpace, st.chunkSize);
    } else {
      var w, a, b := spans[0], Min(spans[0].lo, |lines|), Min(spans[0].hi, |lines|);
      EraseSegment(lines, w);
      EmittedCovers(Segment(lines, w), st);
      PiecesCover(lines, spans[1..], w.hi, st);
      FlatCut(lines, a, b);
      CoversAppend(Flat(lines[a..b], IsSpace), Emitted(Segment(lines, w), st),
                   Flat(lines[b..], IsSpace), Pieces(lines, spans[1..], st), IsSpace, st.chunkSize);
      assert Pieces(lines, spans, st) == Emitted(Segment(lines, w), st) + Pieces(lines, spans[1..], st);
    }
  }

  lemma PythonPiecesCover(text: string, nodes: seq<Node>, st: Settings)
    requires Ordered(nodes, 0)
    ensures TightlyCovers(Erase(text, IsSpace), PythonPieces(text, nodes, st), IsSpace, st.chunkSize)
  {
    var lines := KeepEnds(text);
    KeepEndsKeepsAll(text);
    EraseFlatten(lines, IsSpace);
    NodeSpansTile(nodes, 0, |lines|);
    PiecesCover(lines, NodeSpans(nodes, 0, |lines|), 0, st);
    assert lines[0..] == lines;
  }

  /** Whatever the nodes: the chunks are spans of the source that move forward and leave no gap. */
  lemma PythonIsCovered(text: string, parsed: Parsed, st: Settings)
    requires parsed.Body? ==> Ordered(parsed.nodes, 0)
    ensures Covers(Erase(text, IsSpace), PythonChunks(text, parsed, st), IsSpace)
  {
    if parsed.SyntaxError? || PythonPieces(text, parsed.nodes, st) == [] {
      TextCovers(text, st);
      TightIsCover(Erase(text, IsSpace), TextChunks(text, st), IsSpace, st.chunkSize);
    } else {
      PythonPiecesCover(text, parsed.nodes, st);
      PackedCovers(Erase(text, IsSpace), PythonPieces(text, parsed.nodes, st), IsSpace, st.chunkSize);
    }
  }

  // ---- no span too long: the chunks are the source ----

  ghost predicate ShortSpans(lines: seq<string>, spans: seq<Window>, st: Settings) {
    forall w :: w in spans && w.lo <= w.hi ==> |Segment(lines, w)| <= st.maxChunkChars
  }

  lemma {:induction false} EmittedWhole(segment: string, st: Settings)
    requires |segment| <= st.maxChunkChars
    ensures Flat(Emitted(segment, st), IsSpace) == Erase(segment, IsSpace)
    ensures forall s :: s in Emitted(segment, st) ==> s != ""
  {
    if segment != "" {
      FlatSingle(segment, IsSpace);
    }
  }

  lemma {:induction false} ShortPieces(lines: seq<string>, spans: seq<Window>, from: nat, st: Settings)
    requires Tiles(spans, from, |lines|) && ShortSpans(lines, spans, st)
    ensures Flat(Pieces(lines, spans, st), IsSpace) == Flat(lines[Min(from, |lines|)..], IsSpace)
    ensures forall s :: s in Pieces(lines, spans, st) ==> s != ""
    decreases |spans|
  {
    if spans != [] {
      var w, a, b := spans[0], Min(spans[0].lo, |lines|), Min(spans[0].hi, |lines|);
      var segment := Segment(lines, w);
      assert w in spans && forall v :: v in spans[1..] ==> v in spans;
      EraseSegment(lines, w);
      ShortPieces(lines, spans[1..], w.hi, st);
      FlatCut(lines, a, b);
      FlatAppend(Emitted(segment, st), Pieces(lines, spans[1..], st), IsSpace);
      EmittedWhole(segment, st);
      assert Pieces(lines, spans, st) == Emitted(segment, st) + Pieces(lines, spans[1..], st);
    }
  }

  lemma PackedKeepsAll(pieces: seq<string>, size: nat)
    requires forall s :: s in pieces ==> s != ""
    ensures Flat(Merged(pieces, PARAGRAPH, Limits(size, 0)), IsSpace) == Flat(pieces, IsSpace)
  {
    MergedKeepsAll(pieces, PARAGRAPH, size);
    EraseJoin(pieces, PARAGRAPH, IsSpace);
    EraseJoin(Merged(pieces, PARAGRAPH, Limits(size, 0)), PARAGRAPH, IsSpace);
  }

  lemma {:induction false} PythonPiecesKeepAll(text: string, nodes: seq<Node>, st: Settings)
    requires Ordered(nodes, 0)
    requires ShortSpans(KeepEnds(text), NodeSpans(nodes, 0, |KeepEnds(text)|), st)
    ensures Flat(PythonPieces(text, nodes, st), IsSpace) == Erase(text, IsSpace)
    ensures forall s :: s in PythonPieces(text, nodes, st) ==> s != ""
  {
    var lines := KeepEnds(text);
    KeepEndsKeepsAll(text);
    EraseFlatten(lines, IsSpace);
    NodeSpansTile(nodes, 0, |lines|);
    ShortPieces(lines, NodeSpans(nodes, 0, |lines|), 0, st);
    assert lines[0..] == lines;
  }

  /** If no emitted span exceeds MAX_CHUNK_CHARS, the chunks joined are the source, whitespace aside. */
  lemma {:induction false} PythonKeepsAll(text: string, nodes: seq<Node>, st: Settings)
    requires Ordered(nodes, 0)
    requires ShortSpans(KeepEnds(text), NodeSpans(nodes, 0, |KeepEnds(text)|), st)
    ensures Flat(PythonChunks(text, Body(nodes), st), IsSpace) == Erase(text, IsSpace)
  {
    PythonPiecesKeepAll(text, nodes, st);
    var pieces := PythonPieces(text, nodes, st);
    if pieces == [] {
      StripsToNothing(text);
    } else {
      PackedKeepsAll(pieces, st.chunkSize);
    }
  }
}
