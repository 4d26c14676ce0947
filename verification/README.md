# A verified model of the local RAG service

The repository turns a file tree into a searchable index and answers questions over it. This project
models its four stateful cores in Dafny 4.11 and proves what they promise:

- **Chunking** (`Packing`, `TextChunker`, `Lines`, `PythonChunker`, `Fences`, `MarkdownChunker`,
  `DocumentChunker`, with their properties in `PackingProperties`, `Coverage`, `TextProperties`,
  `TextSlices`, `TextWords`, `PackedCoverage`, `PythonProperties`, `DocumentSlices`, `DocumentedLimit`).
  Every loop of `ingest/chunkers.py` is a method proved equal to a specification function. About these
  functions: every chunker loses and reorders nothing, chunks are slices of the text in which whitespace
  neither appears nor disappears between words, no word that fits is cut, definitions keep their
  decorators, the packer is the one greedy packing and uses the fewest chunks, the length bounds are
  exact, the documented limit holds for exactly the settings and documents stated, and no prepared chunk
  is cut by the embedder when the limits leave room, exactly then.
- **The incremental index** (`IndexProtocol`, `IndexProperties`, `IndexRuns`, `IndexedText`, `FileTree`, `Startup`). A
  store of points and a table of fingerprints, changed by index jobs, delete events, the stale cleanup,
  the purge and a full reset; embedding, upserting and deleting may fail. In every run a fingerprint
  means that its content is completely searchable; without failed cleanups the pair refines a plain map
  from path to content; startup makes it agree with the disk, except below watch paths that are missing.
  `IndexedText` puts the chunkers in: a fingerprint means that the whole text is searchable.
- **Retrieval** (`Ranking`, `Fusion`, `Retrieval`). Reciprocal Rank Fusion over mutable chunks with exact
  real scores, against its declarative meaning, and the choice of the final chunks for any reranker.
- **Concurrent serving** (`RateLimit`, `Serving`, `SseWire`, `SseCodec`, `Streaming`). The sliding-window limiter
  equals one that never forgets; no interleaving loses a capacity slot, deadlocks or runs for ever; for
  every interleaving of worker and response and every way the network cuts the stream, the browser
  shows what the worker sent.

`Text` and `Common` hold the Python string operations and a few shared definitions. A `method` is the
code with its loops and branches; a `function` is what it computes; a `lemma` says what that means.
`dafny verify dfyconfig.toml` checks the project.

## Where the code and its documentation disagree

The model follows the code.

- README.md line 344 calls `MAX_CHUNK_CHARS` (M) the maximum for all chunkers. With S for `CHUNK_SIZE`
  and O for `CHUNK_OVERLAP`, `DocumentedLimit.DocumentedLimitIff` says for every suffix when it is: never
  for Markdown, and for text and Python exactly when S + O + 2 <= M, or O = 0.
- For Markdown, one empty paragraph (three empty lines in a row) is enough at any settings to make a
  document with a chunk of more than M characters (`DocumentedLimit.OneEmptyExceeds`), and more of them
  make chunks longer than any bound, unless M is 1 (`DocumentedLimit.MarkdownUnboundedIff`). For the
  documents of which no section longer than M has an empty paragraph, the limit holds for all of them
  exactly when S + O + 1 <= M, or O = 0 (`DocumentedLimit.MarkdownLimitIff`). For a single document it
  holds exactly when the pieces of its sections, before they are packed, are within M, and within M - 2
  where an empty piece stands before one (`DocumentedLimit.MarkdownWithinIff`).
- The comment at line 178 of `ingest/chunkers.py` calls `buf_len` the length of the joined buffer.
  `MarkdownChunker.CountedMisses` says by how much it is less and `MarkdownChunker.CountedIsJoinLengthIff`
  when it is right. What it misses goes away only when `index_file` strips the chunks: then, and not
  before, all of them are within max(M, S + O + 2) (`MarkdownChunker.StrippedJoinBound`,
  `DocumentChunker.PrepareDocument`).
- A partition without overlap needs non-empty pieces: `PackingProperties.PartitionsIff`.
- A text found by both searches outranks one found by one exactly up to 61 distinct texts per list:
  `Fusion.BothComeFirstIff`. At 62 the two can tie, and the first seen wins.
- A delete event inside a running job can leave a fingerprint without points, exactly if the job goes on
  to record the hash and the event falls between the upsert and that record: `IndexRuns.SoundIff`.

## Model

| member | source | states |
|---|---|---|
| Packing.MergeSplits | ingest/chunkers.py:30-51 | The running-length loop returns the joins of the windows that `Packing.PackIsGreedy` characterises; the counted length is always the joined length. |
| Packing.DropToOverlap | ingest/chunkers.py:41-44 | The inner loop drops pieces until at most `overlap` characters are left and keeps the counter equal to the joined length. |
| Packing.AddSplit | ingest/chunkers.py:37-46 | The loop body: the chunks so far and those still to come stay the same, whether the piece fits or not. |
| Packing.PackIsGreedy | ingest/chunkers.py:30-51 | Every window takes a piece, takes more only while they fit, stops only at a piece that does not fit, and the next one starts at the longest suffix within the overlap. |
| Packing.GreedyIsUnique | ingest/chunkers.py:30-51 | Only one list of windows has these properties, so they say everything about the result. |
| PackingProperties.ChunkShape | ingest/chunkers.py:30-51 | Chunk k is the join of its window; what is carried over is the longest suffix within the overlap; a chunk above the size limit is exactly that suffix, a separator and one piece. |
| PackingProperties.WindowsAdvance | ingest/chunkers.py:36-46 | Window starts never go back, window ends strictly increase, windows leave no gap, and the piece after a window did not fit. |
| PackingProperties.ChunkBound | ingest/chunkers.py:39-46 | Pieces within the limit make non-empty chunks of at most size + overlap + separator length, and of at most the size without overlap. |
| PackingProperties.MergedPartitions | ingest/chunkers.py:30-51 | Without overlap and empty pieces the windows partition the pieces in order; each is one piece or within the limit. |
| PackingProperties.MergedKeepsAll | ingest/chunkers.py:30-51 | Without overlap and empty pieces, joining the chunks gives the join of the pieces. |
| PackingProperties.MergedIsMinimal | ingest/chunkers.py:30-51 | No other partition into single pieces and runs within the limit has fewer chunks: greedy stays ahead. |
| PackingProperties.PartitionsIff | ingest/chunkers.py:41-44 | The packing without overlap repeats no piece, whatever the size limit, exactly when no piece but the last is empty. |
| PackingProperties.SlidingChunks | ingest/chunkers.py:30-51 | On single characters the loop is the closed form: chunk k starts at k * (size - overlap), as many as it takes. |
| PackingProperties.PieceIsKept | ingest/chunkers.py:37-46 | No piece is ever cut: some chunk is at least as long. |
| PackingProperties.EmptyIsCarried | ingest/chunkers.py:41-45 | An empty piece survives the drop loop even without overlap and puts a separator in front of the piece after it. |
| TextChunker.ChooseSeparator | ingest/chunkers.py:55-61 | The first separator that occurs in the text, and the separators after it, which are fewer. |
| TextChunker.SplitParts | ingest/chunkers.py:64-79 | Runs of short parts are packed and long parts split further, in order. |
| TextChunker.RecursiveSplit | ingest/chunkers.py:54-79 | The recursion ends, on the length of the separator list, and returns the chunks that `TextProperties.RecursiveCovers`, `TextProperties.RecursiveBounded` and `TextSlices.RecursiveIsSlices` characterise. |
| TextChunker.ChunkText | ingest/chunkers.py:82-85 | A blank text has no chunks, every other those of the recursive split: gapless slices of the text with its words and whitespace (`TextProperties.TextIsCovered`, `TextSlices.ChunksAreSlices`). |
| TextSlices.PartsAre | ingest/chunkers.py:63 | The parts are the non-empty pieces of a cutting of the text by the separator, none of which contains it, or the single characters. |
| Text.SplitCuts | ingest/chunkers.py:63 | The text is cut at the first occurrence of the separator, and the rest is split in the same way. |
| Text.SplitWhole | ingest/chunkers.py:63 | A text without the separator is one piece. |
| Text.SplitOff | ingest/chunkers.py:63 | No piece contains the separator. |
| TextSlices.RecursiveIsSlices | ingest/chunkers.py:54-79 | At every level of the recursion each chunk is a slice of its text in which runs of blanks and newlines may be shorter; none appears and none disappears. |
| TextSlices.ChunksAreSlices | ingest/chunkers.py:82-85 | So no chunk of any text has a blank or a newline inside a word, nor two words run together. |
| TextSlices.ShortTextIsKept | ingest/chunkers.py:54-85 | A text of at most S characters is its own only chunk exactly if no piece between two of its first separators is empty; in particular if that separator does not lead, trail or double, and for a one-character separator only then. |
| TextWords.WordsAreKept | ingest/chunkers.py:54-85 | Every word of at most S characters is a word of some chunk, uncut. |
| TextWords.NoOtherWords | ingest/chunkers.py:54-85 | What stands in a chunk without a blank or newline in it stands so in the text. |
| TextProperties.RecursiveBounded | ingest/chunkers.py:54-79 | At every level of the recursion, chunks are non-empty and at most S + O + 2 long, and at most S without overlap. |
| TextProperties.LongestTextIsSplit | ingest/chunkers.py:39-46 | The bounds are reached: texts of S + O + 2 and, with single newlines, of S + O + 1 characters that are one of their own chunks. |
| TextProperties.ParagraphBounded | ingest/chunkers.py:55-79 | Text without an empty line has chunks of at most S + O + 1 characters: the longest separator is never used. |
| TextProperties.TextLimitIff | ingest/chunkers.py:82-85 | All chunks of all texts are within MAX_CHUNK_CHARS exactly when S + O + 2 is, or S without overlap. |
| DocumentedLimit.PythonLimitIff | ingest/chunkers.py:93-131 | The same for Python, for any nodes. |
| DocumentedLimit.OneEmptyExceeds | ingest/chunkers.py:200-208 | For every setting, a document with one empty paragraph of which a chunk exceeds the limit: it passes `buf_len`, and the packer puts it in front of a full chunk. |
| DocumentedLimit.EmptiesPileUp | ingest/chunkers.py:180-192 | The paragraph loop takes any number of empty paragraphs into one buffer, if the limit is at least 2. |
| DocumentedLimit.EmptiesExceed | ingest/chunkers.py:170-208 | n + 1 empty paragraphs between two others: a document of which a chunk has at least 2n characters. |
| DocumentedLimit.MarkdownUnboundedIff | ingest/chunkers.py:200-208 | Markdown chunks exceed every bound exactly when MAX_CHUNK_CHARS is at least 2; at 1 they have at most 3 characters. |
| DocumentedLimit.MarkdownLimitIff | ingest/chunkers.py:201 | For the documents of which no section above the limit has an empty paragraph: all their chunks are within the limit exactly at settings with S + O + 1, or S without overlap, within it. |
| DocumentedLimit.PackedFitsIff | ingest/chunkers.py:208 | The packed chunks of any pieces are within a limit exactly when every piece is, with room for a separator where an empty piece stands before it. |
| DocumentedLimit.MarkdownWithinIff | ingest/chunkers.py:200-208 | For every single document: its chunks are within the limit exactly when the pieces of its sections are, in this sense. |
| DocumentedLimit.BufferFitsIff | ingest/chunkers.py:178-195 | A buffered piece is within the limit exactly when `buf_len` is, with two characters more for every leading empty paragraph. |
| DocumentedLimit.DocumentedLimitIff | README.md:344 | For every suffix: all chunks of all documents are within MAX_CHUNK_CHARS exactly when the file is not Markdown and S + O + 2, or S without overlap, is within it. |
| TextProperties.RecursiveCovers | ingest/chunkers.py:54-79 | With blanks and newlines erased, the chunks of every level are spans of its text that move forward without gaps, and neighbours overlap only if they are too long to be joined. |
| TextProperties.TextIsCovered | ingest/chunkers.py:54-85 | `chunk_text` loses and reorders nothing of any text that is not blank. |
| TextProperties.TextCovers | ingest/chunkers.py:54-85 | With all whitespace erased this holds of every text, and neighbouring chunks overlap only if they are too long to be joined. |
| TextProperties.UnbrokenText | ingest/chunkers.py:30-85 | On text without spaces and newlines, chunk k is text[k(S-O) : k(S-O)+S], one chunk up to S characters and 1 + ceil((n-S)/(S-O)) above. |
| Lines.KeepEndsKeepsAll | ingest/chunkers.py:99 | The lines with their ends are the text. |
| Lines.FirstLineIs | ingest/chunkers.py:99 | A line goes on exactly to the first line break, which is one character or carriage return and newline. |
| Lines.SplitLinesKeepsAll | ingest/chunkers.py:145 | The lines without their ends are the text, whitespace aside. |
| Lines.LinesHaveNoBreaks | ingest/chunkers.py:145 | No line has a line break in it. |
| Lines.JoinLines | ingest/chunkers.py:145-165 | Joining the lines by newlines gives back a text whose only line breaks are newlines. |
| PackedCoverage.PackedCovers | ingest/chunkers.py:131 | Packing pieces that cover a text in order gives chunks that cover it in order, even where pieces overlap or an empty piece is repeated. |
| PythonChunker.Emit | ingest/chunkers.py:106-108 | A segment is emitted whole, as text chunks if it is too long, or not at all if it is empty. |
| PythonChunker.NodeSpansTile | ingest/chunkers.py:113-128 | For any ordered nodes, with decorators and shared lines, the emitted spans cover every line exactly once and in order. |
| PythonChunker.DefinitionsAreSpans | ingest/chunkers.py:113-124 | Every node has a span of exactly its lines: those from its own first line or its first decorator on to its end that come after the node before it. |
| PythonChunker.DefinitionIsPiece | ingest/chunkers.py:106-124 | If these lines, stripped, are within MAX_CHUNK_CHARS, they are one piece. |
| PythonChunker.CollectPieces | ingest/chunkers.py:110-128 | The loop over the nodes emits exactly the pieces of these spans, definitions with their decorators. |
| PythonChunker.ChunkPython | ingest/chunkers.py:93-131 | Unparsable or empty modules are chunked as text, others by their pieces, packed without overlap. |
| PythonProperties.PythonIsCovered | ingest/chunkers.py:93-131 | Whatever the nodes, the chunks are spans of the source, whitespace aside, that move forward and leave no gap. |
| PythonProperties.PythonKeepsAll | ingest/chunkers.py:93-131 | If no emitted span exceeds MAX_CHUNK_CHARS, the concatenated chunks are the source, whitespace aside. |
| DocumentSlices.PythonPiecesAreSlices | ingest/chunkers.py:103-128 | Every piece of a module is a slice of its source, with its whitespace. |
| DocumentSlices.PythonIsPacked | ingest/chunkers.py:130-131 | A chunk is within S or a single piece, and no two neighbours would fit together. |
| Fences.FenceIs | ingest/chunkers.py:140 | At most three blanks, at least three backticks or tildes and anything else: a fence line with that mark, length and info string. |
| Fences.FenceShape | ingest/chunkers.py:140 | Only such lines are. |
| Fences.ClosesIff | ingest/chunkers.py:156-157 | A line closes a block exactly if it is a fence of the same mark, at least as long, with nothing but whitespace behind it. |
| Fences.HeaderIff | ingest/chunkers.py:138 | A header starts with one to six hashes and a blank, and nothing else does. |
| Fences.MachineAgrees | ingest/chunkers.py:148-159 | `open_fence` knows exactly which lines lie in a fenced block, declared by openers not inside a block and closers of the same mark, at least as long, without info. |
| Fences.SplitSections | ingest/chunkers.py:145-165 | The sections partition the lines and break before line i > 0 exactly when it is a header outside every fenced block. |
| Fences.SectionsAreUnique | ingest/chunkers.py:145-165 | There is only one such list of sections. |
| MarkdownChunker.CountedMisses | ingest/chunkers.py:178-192 | `buf_len` misses two characters of the joined length for every leading empty paragraph that something follows, and nothing else. |
| MarkdownChunker.CountedIsJoinLengthIff | ingest/chunkers.py:178-192 | `buf_len` is the joined length exactly for buffers of one paragraph or that do not start with an empty one. |
| MarkdownChunker.StrippedJoinBound | ingest/chunkers.py:178-195 | The joined buffer, once stripped, is never longer than `buf_len`. |
| MarkdownChunker.SectionGood | ingest/chunkers.py:170-197 | For every section: its chunks cover it in order and are within max(MAX_CHUNK_CHARS, S + O + 2) once stripped. |
| MarkdownChunker.SplitOversizedSection | ingest/chunkers.py:170-197 | The paragraph loop returns exactly these chunks. |
| MarkdownChunker.SplitMarkdownSections | ingest/chunkers.py:143-167 | The stripped sections between breaking headers, blank ones dropped; together they are the text, whitespace aside. |
| MarkdownChunker.PackedStripBound | ingest/chunkers.py:208 | Packing keeps the bound on stripped lengths, even when an empty piece is carried over. |
| MarkdownChunker.MarkdownIsGood | ingest/chunkers.py:200-208 | The packed chunks of the sections cover the text in order and respect the bound once stripped. |
| MarkdownChunker.ChunkMarkdown | ingest/chunkers.py:200-208 | The chunks are the packed chunks of the sections between breaking headers. |
| MarkdownChunker.ChunkingIsUnique | ingest/chunkers.py:200-208 | This says everything about the chunks: a document has only one such chunking. |
| DocumentSlices.MarkdownPiecesAreSlices | ingest/chunkers.py:143-197 | The sections stand in the document, its lines joined by newlines, as they are, and what they are split into are slices of it, with its whitespace. |
| DocumentSlices.SectionIsPacked | ingest/chunkers.py:170-197 | A section above MAX_CHUNK_CHARS of which no paragraph is empty or above it is split into the greedy packing of its paragraphs into chunks of that size. |
| DocumentSlices.MarkdownIsPacked | ingest/chunkers.py:208 | A chunk is within S or a single piece, perhaps behind an empty one, and no two neighbours would fit together. |
| DocumentChunker.ChunkDocument | ingest/chunkers.py:216-226 | Each suffix has its chunker; for every suffix and text the chunks cover the text in order and respect the bound once stripped. |
| DocumentChunker.PreparedCovers | ingest/index_documents.py:158 | Dropping blank chunks and stripping the others loses nothing. |
| DocumentChunker.PrepareDocument | ingest/index_documents.py:157-158 | The stripped chunks of `chunk_document` that are not blank; for every file type and text they are non-empty, stripped and within the bound, together the text in order, and taken whole by the embedder if the bound is within MAX_EMBED_CHARS. |
| DocumentChunker.PrepareText | api/embed.py:21-30 | Rejects exactly the blank texts; of the others it takes the stripped text, or a prefix of it of MAX_EMBED_CHARS characters if it is longer. |
| DocumentChunker.SomeChunkIsCut | api/embed.py:21-30 | If the bound exceeds MAX_EMBED_CHARS, a module or a plain text of which a chunk is cut. |
| DocumentChunker.NeverCutIff | api/embed.py:21-30 | Over all suffixes, no chunk of any document is rejected or cut exactly when the bound is within MAX_EMBED_CHARS. |
| IndexProtocol.Index.constructor | indexer/fingerprint_store.py:20-27 | Nothing is stored at first. |
| IndexProtocol.NewPointsHold | ingest/index_documents.py:94-109 | The new points of a version carry its texts: for every index there is exactly one, with the text and the total, and there is no other. |
| IndexProtocol.Index.UpsertChunks | ingest/index_documents.py:112-141 | Upserts a fresh version, then deletes the path's other versions; each failing call leaves what was before it. In the end the points of the path carry the texts: one for every index, with its text, and no other. |
| IndexProtocol.Index.IndexFile | ingest/index_documents.py:144-182 | The order of ensuring, reading, embedding and upserting, with the outcome of each failure. |
| IndexProtocol.Index.RemoveIndexedDocument | ingest/index_documents.py:194-198 | Points first, then the fingerprint; nothing changes if the delete fails. |
| IndexProtocol.Index.IndexIfChanged | indexer/watcher.py:66-92 | The decision and the new state of one job, the hash recorded last. |
| IndexProtocol.Index.Reset | ingest/reset_collection.py:29-37 | Drops all points and fingerprints, or fails and changes nothing. |
| IndexProperties.JobEffect | indexer/watcher.py:66-92 | From any state: INDEXED leaves for every chunk of the current content exactly one point, with its index and text, and no other; FAILED removes no point and leaves the fingerprints alone; no outcome touches another path. |
| IndexProperties.JobDecides | indexer/watcher.py:71-92 | Exactly when a job is MISSING, UNCHANGED, INDEXED or SKIPPED; in all other cases it FAILED. |
| IndexProperties.RemovalEffect | ingest/index_documents.py:185-198 | A removal leaves no points and no fingerprint of its path and touches no other. |
| IndexRuns.NextKeepsSound | indexer/watcher.py:66-92 | Every operation, with any calls failing, keeps that each fingerprint stands for one complete version of its content among the points. |
| IndexRuns.RunIsSound | indexer/watcher.py:66-92 | So does every run of jobs, removals and resets. |
| IndexRuns.UnchangedIsSearchable | indexer/watcher.py:74-75 | In every run the UNCHANGED shortcut is taken only when one version among all points carries exactly the current chunks: for every index one point with its text, and no other. |
| IndexRuns.RunRefines | ingest/index_documents.py:112-141 | In every run without a failed cleanup, points and fingerprints refine a map from path to content, from any refined state. |
| IndexRuns.EveryRunRefines | indexer/watcher.py:71-89 | From the empty index on: a fingerprinted path has exactly the version of its hash, another path has no points. |
| IndexRuns.VersionsAreCounted | ingest/index_documents.py:133-141 | In every run a path has one version if it is fingerprinted, and one for every failed cleanup since it was last indexed or removed. |
| IndexRuns.RunTouches | ingest/index_documents.py:40-41 | A run leaves every path alone that none of its operations names. |
| IndexRuns.AsIfBeforeOrAfter | indexer/watcher.py:72-89 | Whatever calls fail, a removal inside a job has the effect of one before or after it, unless the job records its hash and the removal falls between the upsert and that record. |
| IndexRuns.SoundIff | indexer/watcher.py:77-80 | Whatever calls fail, the fingerprints stay sound exactly unless the job reaches the record of the hash and the removal falls between the upsert and that record. |
| IndexedText.FingerprintMeansWholeText | ingest/index_documents.py:157-169 | With the chunkers of `chunk_document`: in every run, with any calls failing, a fingerprinted path has one version with exactly one point for every index, whose texts in index order are its whole content, whitespace aside, each stripped, not empty and within the bound. |
| FileTree.BelowSound | indexer/watcher.py:195-200 | A scheduled directory is reached through directories that are not excluded. |
| FileTree.BelowComplete | indexer/watcher.py:195-200 | Every such directory is scheduled. |
| FileTree.FilesOfAre | indexer/watcher.py:229-231 | The flat glob finds exactly the files directly in the directory. |
| FileTree.FilesBelowSound | indexer/watcher.py:233-236 | The recursive glob finds only files below the directory. |
| FileTree.FilesBelowComplete | indexer/watcher.py:233-236 | It finds them all. |
| Startup.RemovedAllIsARun | ingest/cleanup_stale.py:32-39 | Removing a set of paths is a run of removals, so what holds of every run holds of cleanup and purge. |
| Startup.StaleAreGone | ingest/cleanup_stale.py:32-36 | Stale are the tracked paths below a given root, or any if none are given, that are missing from the disk. |
| Startup.CleanupStale | ingest/cleanup_stale.py:22-41 | Removes exactly the tracked paths under the roots that are missing from the disk, and counts them, unless a call fails; no path that exists, or lies outside the roots, is touched. |
| Startup.RemoveEach | ingest/purge_ignored.py:81-84 | Removes the given paths one by one and stops at the first failing call. |
| Startup.PurgeIgnored | ingest/purge_ignored.py:34-92 | If no configured root exists it refuses; otherwise it counts and, if asked to apply, removes exactly the tracked paths under the existing roots that the filters ignore, unless a call fails. |
| Startup.ScanIsExact | indexer/watcher.py:224-236 | The scan of one watch path, a directory or a file, finds exactly the files it covers, through pruned directories or not. |
| Startup.QueueIsExact | indexer/watcher.py:220-236 | The files queued are exactly those that some watch path covers and that pass the filters. |
| Startup.EnqueueAll | indexer/watcher.py:144-146 | The given files that pass the filters are added to the end of the queue, in order. |
| Startup.InitialScan | indexer/watcher.py:220-236 | The queue holds the files of one watch path after the other that pass the filters; those and no others. |
| Startup.Drain | indexer/watcher.py:111-120 | The worker runs the queued jobs in order, whichever calls of them fail. |
| Startup.IterWatchPaths | indexer/watcher.py:176-184 | Exactly the configured watch paths that exist, in order. |
| Startup.UnavailableIsOutside | indexer/watcher.py:176-184 | A path is outside the roots so left exactly when every configured watch path that covers it is missing. |
| Startup.StartupSyncs | indexer/watcher.py:255-256 | Cleanup, scan and drain bring every path in step with the disk: a file to index has its current chunks, a tracked path that is missing below an existing watch path has nothing, and every other path is untouched. |
| Startup.Startup | indexer/watcher.py:251-256 | From a refined state, with disk fixed and no failures: every file to index has, for each of its current chunks, exactly one point with its index and text, or nothing if it is skipped; tracked paths missing from the disk below a watch path that exists have nothing; every other path is untouched, in particular one that exists and is not to be indexed, and one of which every covering watch path is missing. |
| Startup.OnDeleted | indexer/watcher.py:155-173 | A delete event removes its file's entry unless it is a directory, filtered out, or below a required mount that is empty. |
| Ranking.DistinctIs | api/retrieval.py:193-196 | The distinct texts are the non-empty texts, each once. |
| Ranking.SortedIs | api/retrieval.py:202 | Sorting gives the same entries in descending order. |
| Ranking.SortedIsStable | api/retrieval.py:202 | Of two entries the one with the higher score comes first, and the one first seen if they are equal. |
| Ranking.RankingDiffers | api/retrieval.py:198-202 | No text is ranked twice. |
| Retrieval.SortByKey | api/retrieval.py:161 | The sort by a key, in descending order and stable, with the chunks of its input. |
| Retrieval.Credit | api/retrieval.py:198-201 | A text that is new gets its chunk as entry, with score 0; the entry's score grows by 1 / (60 + rank) and no other changes. |
| Retrieval.FuseChunk | api/retrieval.py:192-201 | The loop body keeps every entry's chunk the first with its text and its score the sum so far; empty and repeated texts change nothing. |
| Retrieval.FuseList | api/retrieval.py:190-201 | After a list every entry has earned what the list gives it. |
| Retrieval.Fuse | api/retrieval.py:182-202 | One entry per distinct non-empty text, its first chunk, with the sum over the lists of 1 / (60 + rank among the list's distinct texts), descending, first seen first among equals. |
| Fusion.RepeatsDoNotMatter | api/retrieval.py:193-196 | Empty texts and later duplicates in a list change neither entries nor scores. |
| Fusion.BothComeFirst | api/retrieval.py:185-187 | With two lists of at most 61 distinct texts, every text in both stands before every text in only one. |
| Fusion.BothComeFirstIff | api/retrieval.py:201-202 | With at most n distinct texts a list, every text in both stands before every text in one exactly when n <= 61. |
| Fusion.BothScoreMoreIff | api/retrieval.py:201 | With at most n distinct texts a list, texts in both always score strictly more exactly when n <= 61. |
| Fusion.DegradesToVector | api/retrieval.py:140-146 | Without keyword results the fused order is that of the vector results. |
| Retrieval.Rerank | api/retrieval.py:149-161 | Raises exactly when the reranker returns the wrong number of scores; otherwise the first `top_n` of the stable sort by the reranker scores the chunks carry: none has a lower score than one behind it or one left out, equals keep the order of the candidates, fused scores are unchanged. |
| Retrieval.FuseTwo | api/retrieval.py:222 | The candidates are the best of the fused ranking, each the first chunk of the two results with its text, no text twice. |
| Retrieval.RetrieveBest | api/retrieval.py:205-223 | Every candidate of the first max(rerank_k, final_k) fused ones carries the score the reranker gives its text; the result is exactly min(final_k, distinct non-empty recalled texts) of them, with distinct texts, in the stable descending order of these scores, none left out with a higher one. It raises exactly when the vector search failed or the reranker returned a wrong number of scores; a failed keyword search does not. |
| RateLimit.RateLimiter.CheckRateLimit | web/rate_limit.py:15-31 | Accepts exactly when fewer than the maximum of the times in the bucket are less than the window ago, and rewrites the bucket to these, with the new one if accepted. |
| RateLimit.RateLimiter.SweepExpired | web/rate_limit.py:44-56 | Keeps exactly the buckets with a time less than the window ago, as they are. |
| RateLimit.ActiveCounts | web/rate_limit.py:25 | The active times are as many as the times less than the window ago. |
| RateLimit.AcceptedIsHistory | web/rate_limit.py:15-56 | In every run under a clock that never runs backwards, the limiter accepts exactly the requests a limiter accepts that keeps its full history. |
| RateLimit.LimiterIsFullHistory | web/rate_limit.py:15-56 | A request is accepted exactly when, of all requests the limiter ever accepted from its address, fewer than the maximum are less than the window ago. |
| RateLimit.DecisionsAreLocal | web/rate_limit.py:44-56 | Sweeps and other addresses never change a decision. |
| RateLimit.NoWindowOverrun | web/rate_limit.py:25-31 | No half-open window of the limiter's length holds more requests the limiter accepted than the maximum. |
| Serving.Server.constructor | web/api_server.py:118-119 | All slots are free at first. |
| Serving.Server.Arrive | web/api_server.py:249-250 | A request begins to wait; the warm-up asks for a generation slot only. |
| Serving.Server.WaitForCapacity | web/api_server.py:247-251 | Takes a slot, or is refused after the timeout without having taken one. |
| Serving.Server.AcquireAndSubmit | web/api_server.py:254-290 | An exhausted budget and a failing submission give the slot back; otherwise the job is queued and keeps it. |
| Serving.Server.Start | api/query_rag.py:133-134 | A worker takes a queued job; a chat that was abandoned, plain or streamed, exits at once. |
| Serving.Server.EndRetrieval | api/query_rag.py:135-164 | A plain chat goes on to generate if it has a prompt and was not abandoned; a streamed one if it has a prompt, and finds out when it polls; a reply or an exception ends the job. |
| Serving.Server.PollGenerationSlot | api/ollama_client.py:106-114 | One turn of the polling loop: cancelled, out of time, a slot, or another turn. |
| Serving.Server.EndGeneration | api/ollama_client.py:115-118 | The generation slot is given back however the generation ends. |
| Serving.Server.RunCallback | web/api_server.py:267 | The RAG slot is given back by the done callback. |
| Serving.Server.Abandon | web/api_server.py:234-235 | A client timeout or disconnect only sets the cancel event. |
| Serving.StepKeepsAccounts | web/api_server.py:247-290 | Every step keeps the accounts of both kinds of slots. |
| Serving.SlotsAreConserved | web/api_server.py:247-290 | In every run from the start: free RAG slots + acquired but not submitted + unfinished jobs = RAG_CONCURRENCY_LIMIT, free generation slots + generations = GENERATION_CONCURRENCY_LIMIT, and no more jobs run than there are workers. |
| Serving.SlotIsGivenBackIff | web/api_server.py:254-268 | A request that holds a RAG slot loses it exactly when its job could not be submitted or its done callback runs. |
| Serving.AbandonedKeepsSlot | web/api_server.py:226-235 | Through any run without its done callback, an abandoned job keeps its slot. |
| Serving.AbandonedBeginsNothing | api/query_rag.py:133-140 | Whatever happens after a job was abandoned, it begins no retrieval and no generation, and only a streamed chat that was retrieving still waits for a generation slot. |
| Serving.NothingIsSkipped | api/query_rag.py:127-145 | In every run in which no wait runs out, the job can be submitted, there is a prompt and the client stays, a chat takes exactly the steps of its way, in order. |
| Serving.WholeWay | web/api_server.py:247-290 | If it has waited and is done, it took its slot, was submitted, started, retrieved, took a generation slot, generated and gave the slot back. |
| Serving.StopsEndIt | api/ollama_client.py:106-114 | A wait that runs out, a failing submission and a reply without a prompt end the request or its job. |
| Serving.SomethingGoesOn | api/ollama_client.py:96-118 | No deadlock: while a request is not finished, some step that is not a timeout, a failure or a new request is enabled. |
| Serving.WorkIsBounded | api/ollama_client.py:96-118 | No livelock: such steps only come in bounded number. |
| Serving.StuckIffDrained | web/api_server.py:247-290 | No such step is enabled exactly when every request is done or refused and every slot is free again. |
| Serving.Drains | web/api_server.py:247-290 | From every reachable state such steps serve all requests. |
| Streaming.Bridge.constructor | web/api_server.py:311-312 | The queue is empty at first. |
| Streaming.Bridge.Send | web/api_server.py:314-325 | A text goes to the end of the queue, without waiting. |
| Streaming.Bridge.Raise | web/api_server.py:326-327 | An exception goes to the end of the queue. |
| Streaming.Bridge.End | web/api_server.py:328-329 | The end goes to the end of the queue, after an exception too. |
| Streaming.Bridge.StreamQueueEvent | web/api_server.py:359-376 | One turn of the reader: a text becomes a chunk, an exception or a timeout an error chunk, and these and the end finish the loop. |
| Streaming.Bridge.Disconnect | web/api_server.py:341-348 | The cancel event is set and the reader goes on. |
| Streaming.RunKeepsStep | web/api_server.py:314-376 | In every interleaving the reader has yielded a prefix of what was sent, in order, and at most one error; while it reads, the rest is in the queue; if it came to the end or an exception, there is no rest. |
| Streaming.EndIsReached | web/api_server.py:328-363 | Once the worker has ended, a reader that still reads cannot time out. |
| Streaming.ReaderFinishes | web/api_server.py:328-376 | Then at most as many takes as items are queued bring the reader to the end, or to the exception if the worker raised one. |
| Streaming.RagStreamResponse | web/api_server.py:379-417 | The chunks or the capacity error, then one stop chunk and [DONE]. |
| SseWire.EventsAreFound | web/static/app.js:126-145 | The parser finds exactly the payloads that were printed, whatever follows them. |
| SseWire.SplitGoesOn | web/static/app.js:133-134 | Splitting at newlines can go on from the last, open line: nothing before it is needed. |
| SseWire.TrimIs | web/static/app.js:137 | Trimming takes the whitespace at both ends, all of it and nothing else. |
| SseWire.DeltasOfLine | web/static/app.js:136-142 | Lines without the prefix, [DONE], malformed JSON and missing or empty contents yield nothing; other lines their content. |
| SseWire.IterSseDeltas | web/static/app.js:126-145 | What the parser yields depends only on the concatenated reads, not on where the network cut them. |
| SseWire.CutOff | web/static/app.js:126-145 | A stream that was cut off yields a prefix. |
| SseCodec.CodecExists | web/openai_compat.py:25 | There are codecs as assumed: one line from brace to brace, no two chunks alike, read back to the content. |
| Streaming.WrittenPayloads | web/openai_compat.py:9-25 | Parsing a written response gives back the encoded chunks, the stop chunk and [DONE]. |
| Streaming.EndsWithOneStop | web/api_server.py:379-417 | An uninterrupted stream has one chunk of the response for every text taken and for the error, then one chunk with finish reason stop and [DONE], and neither comes earlier. |
| Streaming.ClosesOnTheWire | web/openai_compat.py:25 | The two last events as they are written. |
| Streaming.WrittenDeltas | web/openai_compat.py:9-25 | The deltas of what was written are the non-empty texts the reader took and its error. |
| Streaming.StreamIsDelivered | web/static/app.js:126-145 | For every interleaving and every cut of an uninterrupted stream: the non-empty texts of a prefix of the worker's output, all of it unless the reader timed out, and then at most one error. |
| Streaming.PartIsPrefix | web/static/app.js:126-145 | Whatever part of a stream, finished or not, has arrived: a prefix of that. |
| Streaming.ShowStream | web/static/app.js:126-145 | The parser's own loop, run on any part of any run's stream in any cuts, yields a prefix of the non-empty texts the worker sent and its error; all of it if the stream was not interrupted. |
| Streaming.CapacityErrorIsShown | web/api_server.py:391-398 | Without a slot the browser shows the capacity error. |

## Left out

- Qdrant, Ollama, SQLite, watchdog, FastAPI and `requests`: each call takes full effect or fails without effect, as an input says; fingerprint writes succeed.
- `ast.parse`: line spans and decorator lines of the top-level nodes are inputs, with the order facts of a parsed module.
- Embeddings, the cross-encoder and SHA-256: uninterpreted; the hash has no collisions, and hashing and reading a file see the same content.
- Regular expressions, `fnmatch`, `difflib`, path resolution and symbolic links: predicates over canonical paths. The two patterns of the Markdown splitter are written out.
- JSON and UTF-8: any codec that prints one line from brace to brace and can be read back; streams are cut between characters.
- Floating point: scores and times are reals.
- `uuid4`: fresh identifiers come from a counter.
- Negative values of `rerank_k` and `final_k`: settings and request validation exclude them.
- Lower-casing of the file suffix: the suffix is an input.
- Crashes between store writes, `reset_collection --vectors-only`: the invariants are not promised there.
- Interleavings of jobs and delete events other than one removal inside one job (`IndexRuns.SoundIff`): in the runs, each job and each event runs whole.
- `asyncio.wait_for` races, fairness of semaphores, thread-pool internals: taking and giving back a slot is one step each.
- A generator that is never resumed or closed late, and a send on a closed event loop: not steps of the model.
- A submission that fails with an exception while a stream starts: the response then has no events, which is not modelled; the slots are (`Serving.Server.AcquireAndSubmit`).
- Loops whose body is long are split: the body, or the inner loop, is a method of its own.
- The retry loop of `post_with_retry`, the source list, prompts and reply texts: part of a generation that ends well or not.
- Sessions and users, authentication, request validation, settings parsing beyond the checks on chunk sizes, command-line tools, the rest of the user interface, timing and logging: they would only add easy members.
- Retrieval.SortByKey: the library sort is modelled by insertion; only its result, descending and stable, matters.
- Startup.CleanupStale: the order in which tracked paths are visited is arbitrary.
- Startup.PurgeIgnored: removes in arbitrary, not sorted, order.
- Startup.InitialScan: a watch path with excluded directories that is itself a file is not scanned; the walk then ends in an exception.
- Startup.Startup: takes the calls as succeeding, as the promise does; what failing calls leave is stated for every run (`IndexRuns.RunIsSound`).
