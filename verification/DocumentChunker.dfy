/** `chunk_document`, the strip of `index_file` and the text preparation of api/embed.py. */
module DocumentChunker {
  import opened Text
  import opened Packing
  import opened Coverage
  import opened TextChunker
  import opened TextProperties
  import opened PythonChunker
  import opened PythonProperties
  import opened MarkdownChunker
  import Fences

  /** What chunking by the suffix gives; the suffix is that of the file name in lower case. */
  ghost predicate IsChunking(suffix: string, text: string, parsed: Parsed, st: Settings, chunks: seq<string>) {
    if suffix == ".py" then chunks == PythonChunks(text, parsed, st)
    else if suffix in {".md", ".markdown"} then IsMarkdownChunking(text, st, chunks)
    else chunks == TextChunks(text, st)
  }

  /** Parsing is trusted to give a module's nodes in order. */
  ghost predicate IsParse(parsed: Parsed) {
    parsed.Body? ==> Ordered(parsed.nodes, 0)
  }

  lemma {:induction false} ChunkingIsGood(suffix: string, text: string, parsed: Parsed, st: Settings,
                                          chunks: seq<string>)
    requires st.Valid() && IsParse(parsed) && IsChunking(suffix, text, parsed, st, chunks)
    ensures Covers(Erase(text, IsSpace), chunks, IsSpace)
    ensures StripBounded(chunks, DocumentBound(st))
  {
    if suffix == ".py" {
      PythonIsCovered(text, parsed, st);
      PythonStripBounded(text, parsed, st);
    } else if suffix in {".md", ".markdown"} {
      MarkdownIsGood(text, st, chunks);
    } else {
      TextCovers(text, st);
      TightIsCover(Erase(text, IsSpace), chunks, IsSpace, st.chunkSize);
      TextStripBounded(text, st);
    }
  }

  method ChunkDocument(suffix: string, text: string, parsed: Parsed, st: Settings) returns (chunks: seq<string>)
    requires st.Valid() && IsParse(parsed)
    ensures IsChunking(suffix, text, parsed, st, chunks)
    ensures Covers(Erase(text, IsSpace), chunks, IsSpace)
    ensures StripBounded(chunks, DocumentBound(st))
  {
    if suffix == ".py" {
      chunks := ChunkPython(text, parsed, st);
    } else if suffix in {".md", ".markdown"} {
      chunks := ChunkMarkdown(text, st);
    } else {
      chunks := ChunkText(text, st);
    }
    ChunkingIsGood(suffix, text, parsed, st, chunks);
  }

  lemma {:induction false} PiecesStripBounded(lines: seq<string>, spans: seq<Window>, st: Settings)
    requires st.Valid()
    ensures StripBounded(Pieces(lines, spans, st), DocumentBound(st))
    decreases |spans|
  {
    if spans != [] {
      PiecesStripBounded(lines, spans[1..], st);
      if spans[0].lo <= spans[0].hi {
        TextStripBounded(Segment(lines, spans[0]), st);
      }
    }
  }

  lemma PythonStripBounded(text: string, parsed: Parsed, st: Settings)
    requires st.Valid()
    ensures StripBounded(PythonChunks(text, parsed, st), DocumentBound(st))
  {
    TextStripBounded(text, st);
    if parsed.Body? {
      var lines := Lines.KeepEnds(text);
      PiecesStripBounded(lines, NodeSpans(parsed.nodes, 0, |lines|), st);
      PackedStripBound(PythonPieces(text, parsed.nodes, st), st.chunkSize, DocumentBound(st));
    }
  }

  // ---- index_file ----

  /** `[c.strip() for c in chunks if c and c.strip()]` */
  function Prepared(chunks: seq<string>): seq<string> {
    if chunks == [] then []
    else (if Strip(chunks[0]) == "" then [] else [Strip(chunks[0])]) + Prepared(chunks[1..])
  }

  ghost predicate Embeddable(c: string, bound: nat) {
    c != "" && Strip(c) == c && |c| <= bound
  }

  lemma {:induction false} PreparedEmbeddable(chunks: seq<string>, bound: nat)
    requires StripBounded(chunks, bound)
    ensures forall c :: c in Prepared(chunks) ==> Embeddable(c, bound)
  {
    if chunks != [] {
      StripIsIdempotent(chunks[0]);
      assert forall k :: 0 <= k < |chunks[1..]| ==> chunks[1..][k] == chunks[k + 1];
      PreparedEmbeddable(chunks[1..], bound);
    }
  }

  /** Covers, span by span: the rest of a chain after the span `from`. */
  ghost predicate CoversFrom(e: string, cs: seq<string>, ws: seq<Window>, from: Window)
    requires |ws| == |cs|
    decreases |cs|
  {
    if cs == [] then from.hi == |e|
    else
      && from.lo <= ws[0].lo <= from.hi <= ws[0].hi
      && IsSpan(e, cs[0], IsSpace, ws[0])
      && CoversFrom(e, cs[1..], ws[1..], ws[0])
  }

  lemma {:induction false} ToRecursive(e: string, cs: seq<string>, ws: seq<Window>, k: nat, from: Window)
    requires Spans(e, cs, IsSpace, ws) && k <= |cs|
    requires from == if k == 0 then Window(0, 0) else ws[k - 1]
    ensures CoversFrom(e, cs[k..], ws[k..], from)
    decreases |cs| - k
  {
    if k < |cs| {
      assert LinkAt(|e|, ws, k) && SpanAt(e, cs, IsSpace, ws, k);
      ToRecursive(e, cs, ws, k + 1, ws[k]);
      assert cs[k..][1..] == cs[k + 1..] && ws[k..][1..] == ws[k + 1..];
    } else if k > 0 {
      assert LinkAt(|e|, ws, k - 1);
    }
  }

  lemma {:induction false} FromRecursive(e: string, cs: seq<string>, ws: seq<Window>, k: nat)
    requires |ws| == |cs| && k < |cs|
    requires CoversFrom(e, cs, ws, Window(0, 0))
    ensures LinkAt(|e|, ws, k) && SpanAt(e, cs, IsSpace, ws, k)
  {
    Unroll(e, cs, ws, Window(0, 0), k);
  }

  lemma {:induction false} Unroll(e: string, cs: seq<string>, ws: seq<Window>, from: Window, k: nat)
    requires |ws| == |cs| && k < |cs| && CoversFrom(e, cs, ws, from)
    ensures var before := if k == 0 then from else ws[k - 1];
            before.lo <= ws[k].lo <= before.hi <= ws[k].hi
    ensures IsSpan(e, cs[k], IsSpace, ws[k])
    ensures k == |cs| - 1 ==> ws[k].hi == |e|
    decreases k
  {
    if k > 0 {
      Unroll(e, cs[1..], ws[1..], ws[0], k - 1);
    } else if |cs| == 1 {
      assert cs[1..] == [] && CoversFrom(e, [], ws[1..], ws[0]);
    }
  }

  /** Dropping blank chunks and stripping the others keeps the chain. */
  lemma {:induction false} PreparedChain(e: string, cs: seq<string>, ws: seq<Window>, from: Window)
    returns (vs: seq<Window>)
    requires |ws| == |cs| && CoversFrom(e, cs, ws, from) && from.lo <= from.hi
    ensures |vs| == |Prepared(cs)| && CoversFrom(e, Prepared(cs), vs, from)
    decreases |cs|
  {
    if cs == [] {
      vs := [];
    } else {
      EraseStrip(cs[0]);
      StripsToNothing(cs[0]);
      if Strip(cs[0]) == "" {
        assert ws[0].lo == ws[0].hi == from.hi;
        SkipBlank(e, cs[1..], ws[1..], ws[0], from);
        vs := PreparedChain(e, cs[1..], ws[1..], from);
        assert Prepared(cs) == Prepared(cs[1..]);
      } else {
        var rest := PreparedChain(e, cs[1..], ws[1..], ws[0]);
        vs := [ws[0]] + rest;
        assert Prepared(cs)[1..] == Prepared(cs[1..]) && vs[1..] == rest;
      }
    }
  }

  lemma SkipBlank(e: string, cs: seq<string>, ws: seq<Window>, blank: Window, from: Window)
    requires |ws| == |cs| && CoversFrom(e, cs, ws, blank)
    requires from.lo <= from.hi == blank.lo == blank.hi
    ensures CoversFrom(e, cs, ws, from)
  {
  }

  lemma PreparedCovers(e: string, cs: seq<string>)
    requires Covers(e, cs, IsSpace)
    ensures Covers(e, Prepared(cs), IsSpace)
  {
    var ws :| Spans(e, cs, IsSpace, ws);
    ToRecursive(e, cs, ws, 0, Window(0, 0));
    assert cs[0..] == cs && ws[0..] == ws;
    var vs := PreparedChain(e, cs, ws, Window(0, 0));
    forall k | 0 <= k < |vs|
      ensures LinkAt(|e|, vs, k)
      ensures SpanAt(e, Prepared(cs), IsSpace, vs, k)
    {
      FromRecursive(e, Prepared(cs), vs, k);
    }
    assert Spans(e, Prepared(cs), IsSpace, vs);
  }

  // ---- embedding ----

  datatype Embedding = Rejected | Text(text: string)

  /** `_prepare_text`: reject the empty text, cut off what is too long. */
  function PrepareText(text: string, st: Settings): (r: Embedding)
    ensures r.Rejected? <==> forall c :: c in text ==> IsSpace(c)
    ensures r.Text? ==> r.text <= Strip(text) && (r.text == Strip(text) || |r.text| == st.maxEmbedChars < |Strip(text)|)
  {
    Fences.BlankIff(text);
    var t := Strip(text);
    if t == "" then Rejected
    else if |t| > st.maxEmbedChars then Text(t[..st.maxEmbedChars])
    else Text(t)
  }

  ghost predicate EmbeddedWhole(chunks: seq<string>, st: Settings) {
    forall c :: c in chunks ==> PrepareText(c, st) == Text(c)
  }

  lemma PreparedIsEmbedded(suffix: string, text: string, parsed: Parsed, st: Settings, raw: seq<string>)
    requires st.Valid() && IsParse(parsed) && IsChunking(suffix, text, parsed, st, raw)
    ensures forall c :: c in Prepared(raw) ==> Embeddable(c, DocumentBound(st))
    ensures DocumentBound(st) <= st.maxEmbedChars ==> EmbeddedWhole(Prepared(raw), st)
  {
    ChunkingIsGood(suffix, text, parsed, st, raw);
    PreparedEmbeddable(raw, DocumentBound(st));
  }

  /** What `index_file` hands to the embedder: the stripped chunks of the document that are not blank.
      For every file type and text they are not empty, already stripped, within the bound, and
      together the whole text in order; with room in MAX_EMBED_CHARS for the bound, none is
      rejected or cut. */
  method PrepareDocument(suffix: string, text: string, parsed: Parsed, st: Settings)
    returns (chunks: seq<string>, ghost raw: seq<string>)
    requires st.Valid() && IsParse(parsed)
    ensures IsChunking(suffix, text, parsed, st, raw) && chunks == Prepared(raw)
    ensures forall c :: c in chunks ==> Embeddable(c, DocumentBound(st))
    ensures Covers(Erase(text, IsSpace), chunks, IsSpace)
    ensures DocumentBound(st) <= st.maxEmbedChars ==> EmbeddedWhole(chunks, st)
  {
    var all := ChunkDocument(suffix, text, parsed, st);
    raw := all;
    chunks := Prepared(all);
    PreparedIsEmbedded(suffix, text, parsed, st, raw);
    PreparedCovers(Erase(text, IsSpace), raw);
  }

  lemma {:induction false} PreparedMember(cs: seq<string>, c: string)
    requires c in cs && Strip(c) == c != ""
    ensures c in Prepared(cs)
  {
    if cs[0] != c {
      PreparedMember(cs[1..], c);
    }
  }

  lemma SolidIsStripped(t: string)
    requires t != "" && forall i :: 0 <= i < |t| ==> !IsSpace(t[i])
    ensures Strip(t) == t
  {
  }

  lemma OneLine(n: nat)
    requires n > 0
    ensures Lines.KeepEnds(Repeat('b', n)) == [Repeat('b', n)]
  {
    var t := Repeat('b', n);
    UnbrokenLine(t);
    assert t[n..] == "" && t[..n] == t && Lines.KeepEnds(t) == [t[..n]] + Lines.KeepEnds("");
  }

  lemma {:induction false} UnbrokenLine(t: string)
    requires t != "" && forall i :: 0 <= i < |t| ==> t[i] == 'b'
    ensures Lines.FirstLine(t) == |t|
  {
    if |t| > 1 {
      UnbrokenLine(t[1..]);
    }
  }

  /** A module that is one name on one line. */
  const ONE_NAME := Body([Node(1, 1, [])])

  /** A name of MAX_CHUNK_CHARS characters is one chunk. */
  lemma LongLineIsOneChunk(st: Settings)
    requires st.Valid()
    ensures var t := Repeat('b', st.maxChunkChars); PythonChunks(t, ONE_NAME, st) == [t] && Strip(t) == t
  {
    var t := Repeat('b', st.maxChunkChars);
    OneLine(st.maxChunkChars);
    SolidIsStripped(t);
    var spans := NodeSpans(ONE_NAME.nodes, 0, 1);
    assert ONE_NAME.nodes[1..] == [] && NodeSpans([], 1, 1) == [];
    assert spans == [Window(0, 1)] && spans[1..] == [];
    assert [t][0..1] == [t] && [t][1..] == [] && Flatten([t]) == t;
    assert Pieces([t], spans, st) == [t];
    var lim := Limits(st.chunkSize, 0);
    PackIsGreedy([t], 2, lim);
    assert Pack([t], 2, lim) == [Window(0, 1)];
  }

  lemma LongNameIsCut(st: Settings)
    requires st.Valid() && st.maxChunkChars > st.maxEmbedChars
    ensures !EmbeddedWhole(Prepared(PythonChunks(Repeat('b', st.maxChunkChars), ONE_NAME, st)), st)
  {
    var t := Repeat('b', st.maxChunkChars);
    LongLineIsOneChunk(st);
    PreparedMember([t], t);
    assert PrepareText(t, st) == Text(t[..st.maxEmbedChars]);
  }

  lemma LongestTextIsCut(st: Settings)
    requires st.Valid() && st.chunkOverlap > 0 && TextBound(st) > st.maxEmbedChars
    ensures !EmbeddedWhole(Prepared(TextChunks(LongestText(st, PARAGRAPH), st)), st)
  {
    var t := LongestText(st, PARAGRAPH);
    LongestTextIsSplit(st, PARAGRAPH);
    LongestIsStripped(st);
    PreparedMember(TextChunks(t, st), t);
    assert PrepareText(t, st) == Text(t[..st.maxEmbedChars]);
  }

  /** A document of which a chunk is cut, where the bound allows it: a long name in a module, or a
      plain text. */
  lemma SomeChunkIsCut(st: Settings) returns (suffix: string, text: string, parsed: Parsed, chunks: seq<string>)
    requires st.Valid() && DocumentBound(st) > st.maxEmbedChars
    ensures IsParse(parsed) && IsChunking(suffix, text, parsed, st, chunks)
    ensures !EmbeddedWhole(Prepared(chunks), st)
  {
    if st.maxChunkChars > st.maxEmbedChars {
      suffix, text, parsed := ".py", Repeat('b', st.maxChunkChars), ONE_NAME;
      chunks := PythonChunks(text, parsed, st);
      assert Ordered([], 1);
      LongNameIsCut(st);
    } else {
      suffix, text, parsed := ".txt", LongestText(st, PARAGRAPH), SyntaxError;
      chunks := TextChunks(text, st);
      LongestTextIsCut(st);
    }
  }

  /** Exactly when no chunk of any document of any type is rejected or cut by the embedder. */
  lemma NeverCutIff(st: Settings)
    requires st.Valid()
    ensures (forall suffix, text, parsed, chunks :: IsParse(parsed) && IsChunking(suffix, text, parsed, st, chunks) ==>
               EmbeddedWhole(Prepared(chunks), st))
            <==> DocumentBound(st) <= st.maxEmbedChars
  {
    if DocumentBound(st) <= st.maxEmbedChars {
      forall suffix, text, parsed, chunks | IsParse(parsed) && IsChunking(suffix, text, parsed, st, chunks)
        ensures EmbeddedWhole(Prepared(chunks), st)
      {
        PreparedIsEmbedded(suffix, text, parsed, st, chunks);
      }
    } else {
      var suffix, text, parsed, chunks := SomeChunkIsCut(st);
    }
  }

  lemma LongestIsStripped(st: Settings)
    requires st.Valid() && st.chunkOverlap > 0
    ensures Strip(LongestText(st, PARAGRAPH)) == LongestText(st, PARAGRAPH)
  {
    var t := LongestText(st, PARAGRAPH);
    assert t[0] == '$' && t[|t| - 1] == '$';
    assert LStrip(t) == t;
  }
}
