/** The index with the chunkers: what is searchable for a fingerprinted path is its whole text. */
module IndexedText {
  import opened Text
  import opened Coverage
  import opened TextChunker
  import opened PythonChunker
  import opened MarkdownChunker
  import opened DocumentChunker
  import opened IndexProtocol
  import opened IndexRuns

  /** How files are read: the suffix of a path, the parse of a module, and which files are too large or
      cannot be decoded. */
  datatype Reader = Reader(suffix: Path -> string, parse: Content -> Parsed, skips: (Path, Content) -> bool)

  /** The chunker of `index_file`: nothing for a file that is skipped, or else the stripped chunks of the
      document that are not blank. */
  ghost predicate IsFileChunker(chunker: Chunker, r: Reader, st: Settings) {
    && (forall content :: IsParse(r.parse(content)))
    && forall path, content :: ChunksFile(chunker(path, content), r, st, path, content)
  }

  ghost predicate ChunksFile(texts: seq<string>, r: Reader, st: Settings, path: Path, content: Content) {
    if r.skips(path, content) then texts == []
    else
      exists raw :: IsChunking(r.suffix(path), content, r.parse(content), st, raw) && texts == Prepared(raw)
  }

  /** Among the path's points there is one complete version; its texts, in the order of their indices,
      are the whole content, whitespace aside, each ready to be embedded. */
  ghost predicate WholeTextIndexed(points: set<Point>, path: Path, content: Content, st: Settings) {
    exists version, texts :: IsWholeText(points, path, content, st, version, texts)
  }

  ghost predicate IsWholeText(points: set<Point>, path: Path, content: Content, st: Settings, version: nat,
                              texts: seq<string>)
  {
    && Complete(points, path, version, texts)
    && Covers(Erase(content, IsSpace), texts, IsSpace)
    && forall c :: c in texts ==> Embeddable(c, DocumentBound(st))
  }

  lemma FileChunksCover(texts: seq<string>, r: Reader, st: Settings, path: Path, content: Content)
    requires st.Valid() && IsParse(r.parse(content)) && texts != [] && ChunksFile(texts, r, st, path, content)
    ensures Covers(Erase(content, IsSpace), texts, IsSpace)
    ensures forall c :: c in texts ==> Embeddable(c, DocumentBound(st))
  {
    var raw :| IsChunking(r.suffix(path), content, r.parse(content), st, raw) && texts == Prepared(raw);
    ChunkingIsGood(r.suffix(path), content, r.parse(content), st, raw);
    PreparedIsEmbedded(r.suffix(path), content, r.parse(content), st, raw);
    PreparedCovers(Erase(content, IsSpace), raw);
  }

  /** In every run, with any calls failing: a fingerprint means that the whole text of its content can be
      found, in chunks within the bound. */
  lemma FingerprintMeansWholeText(ops: seq<Op>, chunker: Chunker, r: Reader, st: Settings, path: Path)
    requires st.Valid() && IsFileChunker(chunker, r, st)
    requires path in Run(EMPTY, ops, chunker).fp
    ensures var store := Run(EMPTY, ops, chunker);
            WholeTextIndexed(store.points, path, store.fp[path].content, st)
  {
    var store := Run(EMPTY, ops, chunker);
    var content := store.fp[path].content;
    RunIsSound(ops, chunker);
    var texts := chunker(path, content);
    var version :| Complete(store.points, path, version, texts);
    assert ChunksFile(texts, r, st, path, content);
    FileChunksCover(texts, r, st, path, content);
    assert IsWholeText(store.points, path, content, st, version, texts);
  }
}
