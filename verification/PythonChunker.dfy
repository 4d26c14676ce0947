/** `chunk_python` of ingest/chunkers.py. Parsing is an input: either it fails, or it gives
    the line spans of the top-level nodes. */
module PythonChunker {
  import opened Common
  import opened Text
  import opened Lines
  import opened Packing
  import opened TextChunker

  datatype Node = Node(lineno: nat, endLineno: nat, decorators: seq<nat>)

  datatype Parsed = SyntaxError | Body(nodes: seq<Node>)

  /** The order facts of a parsed module body; neighbours may share a line. */
  predicate Ordered(nodes: seq<Node>, prevEnd: nat) {
    nodes == [] ||
    (&& 1 <= nodes[0].lineno <= nodes[0].endLineno
     && prevEnd <= nodes[0].endLineno
     && (forall d :: d in nodes[0].decorators ==> 1 <= d)
     && Ordered(nodes[1..], nodes[0].endLineno))
  }

  function Least(first: nat, others: seq<nat>): (m: nat)
    ensures m <= first
    ensures 1 <= first && (forall d :: d in others ==> 1 <= d) ==> 1 <= m
  {
    if others == [] then first
    else
      assert others[0] in others && forall d :: d in others[1..] ==> d in others;
      Min(Least(first, others[1..]), others[0])
  }

  /** First line of a node: its own or its first decorator's, clamped to what is not yet emitted. */
  function FirstLineOf(node: Node, prevEnd: nat): (start: nat)
    ensures start > prevEnd
  {
    Max(Least(node.lineno, node.decorators), prevEnd + 1)
  }

  /** The line spans (0-based, end exclusive) that are emitted. */
  function NodeSpans(nodes: seq<Node>, prevEnd: nat, total: nat): seq<Window> {
    if nodes == [] then (if prevEnd < total then [Window(prevEnd, total)] else [])
    else
      var start := FirstLineOf(nodes[0], prevEnd);
      (if start > prevEnd + 1 then [Window(prevEnd, start - 1)] else [])
      + [Window(start - 1, nodes[0].endLineno)]
      + NodeSpans(nodes[1..], nodes[0].endLineno, total)
  }

  /** The text of a span, as Python clips the slice. */
  function Segment(lines: seq<string>, w: Window): string
    requires w.lo <= w.hi
  {
    Strip(Flatten(lines[Min(w.lo, |lines|)..Min(w.hi, |lines|)]))
  }

  function Emitted(segment: string, st: Settings): seq<string> {
    if segment == "" then []
    else if |segment| > st.maxChunkChars then TextChunks(segment, st)
    else [segment]
  }

  /** Spans that cover the lines from `from` on exactly once and in order. */
  ghost predicate Tiles(spans: seq<Window>, from: nat, total: nat) {
    if spans == [] then from >= total
    else from == spans[0].lo <= spans[0].hi && Tiles(spans[1..], spans[0].hi, total)
  }

  lemma {:induction false} NodeSpansTile(nodes: seq<Node>, prevEnd: nat, total: nat)
    requires Ordered(nodes, prevEnd)
    ensures Tiles(NodeSpans(nodes, prevEnd, total), prevEnd, total)
    decreases |nodes|
  {
    if nodes == [] {
      assert [Window(prevEnd, total)][1..] == [];
    } else {
      var node, start := nodes[0], FirstLineOf(nodes[0], prevEnd);
      var rest := NodeSpans(nodes[1..], node.endLineno, total);
      NodeSpansTile(nodes[1..], node.endLineno, total);
      var tail := [Window(start - 1, node.endLineno)] + rest;
      assert tail[1..] == rest;
      if start > prevEnd + 1 {
        assert NodeSpans(nodes, prevEnd, total) == [Window(prevEnd, start - 1)] + tail;
        assert ([Window(prevEnd, start - 1)] + tail)[1..] == tail;
      } else {
        assert NodeSpans(nodes, prevEnd, total) == tail;
      }
    }
  }

  /** Line n, counted from 1, belongs to the node: it comes after the node before it, and its own first
      line or one of its decorators' is not below it. */
  ghost predicate IsLineOf(node: Node, prevEnd: nat, n: nat) {
    prevEnd < n <= node.endLineno && (node.lineno <= n || exists d :: d in node.decorators && d <= n)
  }

  lemma {:induction false} LeastIs(first: nat, others: seq<nat>, n: nat)
    ensures Least(first, others) <= n <==> first <= n || exists d :: d in others && d <= n
  {
    if others != [] {
      LeastIs(first, others[1..], n);
      assert others[0] in others && forall d :: d in others <==> d == others[0] || d in others[1..];
    }
  }

  /** The span has exactly the lines of the node. */
  ghost predicate IsSpanOf(w: Window, node: Node, prevEnd: nat) {
    w.lo <= w.hi == node.endLineno && forall n: nat :: w.lo < n <= w.hi <==> IsLineOf(node, prevEnd, n)
  }

  ghost function EndBefore(nodes: seq<Node>, i: nat, prevEnd: nat): nat
    requires i < |nodes|
  {
    if i == 0 then prevEnd else nodes[i - 1].endLineno
  }

  /** Every node has a span of its own: its lines with those of its decorators, and no other line. */
  lemma {:induction false} DefinitionsAreSpans(nodes: seq<Node>, prevEnd: nat, total: nat, i: nat) returns (k: nat)
    requires Ordered(nodes, prevEnd) && i < |nodes|
    ensures k < |NodeSpans(nodes, prevEnd, total)|
    ensures IsSpanOf(NodeSpans(nodes, prevEnd, total)[k], nodes[i], EndBefore(nodes, i, prevEnd))
    decreases |nodes|
  {
    var start, end := FirstLineOf(nodes[0], prevEnd), nodes[0].endLineno;
    var rest := NodeSpans(nodes[1..], end, total);
    var first := if start > prevEnd + 1 then 1 else 0;
    var spans := NodeSpans(nodes, prevEnd, total);
    assert spans[first] == Window(start - 1, end) && spans[first + 1..] == rest;
    if i == 0 {
      k := first;
      forall n: nat
        ensures start <= n <= end <==> IsLineOf(nodes[0], prevEnd, n)
      {
        LeastIs(nodes[0].lineno, nodes[0].decorators, n);
      }
    } else {
      var k' := DefinitionsAreSpans(nodes[1..], end, total, i - 1);
      k := first + 1 + k';
      assert spans[k] == rest[k'];
    }
  }

  function Pieces(lines: seq<string>, spans: seq<Window>, st: Settings): seq<string> {
    if spans == [] then []
    else
      (if spans[0].lo <= spans[0].hi then Emitted(Segment(lines, spans[0]), st) else [])
      + Pieces(lines, spans[1..], st)
  }

  function PythonPieces(text: string, nodes: seq<Node>, st: Settings): seq<string> {
    var lines := KeepEnds(text);
    Pieces(lines, NodeSpans(nodes, 0, |lines|), st)
  }

  lemma {:induction false} PiecesHold(lines: seq<string>, spans: seq<Window>, st: Settings, k: nat)
    requires k < |spans| && spans[k].lo <= spans[k].hi
    ensures forall c :: c in Emitted(Segment(lines, spans[k]), st) ==> c in Pieces(lines, spans, st)
  {
    if k > 0 {
      PiecesHold(lines, spans[1..], st, k - 1);
    }
  }

  /** A definition within the limit is one piece, with its decorators and nothing else. */
  lemma DefinitionIsPiece(text: string, nodes: seq<Node>, st: Settings, i: nat) returns (w: Window)
    requires Ordered(nodes, 0) && i < |nodes| && nodes[i].endLineno <= |KeepEnds(text)|
    ensures IsSpanOf(w, nodes[i], EndBefore(nodes, i, 0))
    ensures var piece := Strip(Flatten(KeepEnds(text)[w.lo..w.hi]));
            0 < |piece| <= st.maxChunkChars ==> piece in PythonPieces(text, nodes, st)
  {
    var lines := KeepEnds(text);
    var k := DefinitionsAreSpans(nodes, 0, |lines|, i);
    w := NodeSpans(nodes, 0, |lines|)[k];
    PiecesHold(lines, NodeSpans(nodes, 0, |lines|), st, k);
  }

  /** The result of `chunk_python`. */
  function PythonChunks(text: string, parsed: Parsed, st: Settings): seq<string> {
    match parsed
    case SyntaxError => TextChunks(text, st)
    case Body(nodes) =>
      var pieces := PythonPieces(text, nodes, st);
      if pieces == [] then TextChunks(text, st) else Merged(pieces, PARAGRAPH, Limits(st.chunkSize, 0))
  }

  method Emit(segment: string, st: Settings, chunks: seq<string>) returns (out: seq<string>)
    ensures out == chunks + Emitted(segment, st)
  {
    out := chunks;
    if segment != "" {
      if |segment| > st.maxChunkChars {
        var split := ChunkText(segment, st);
        out := out + split;
      } else {
        out := out + [segment];
      }
    }
  }

  lemma PiecesCons(lines: seq<string>, w: Window, ws: seq<Window>, st: Settings)
    requires w.lo <= w.hi
    ensures Pieces(lines, [w] + ws, st) == Emitted(Segment(lines, w), st) + Pieces(lines, ws, st)
  {
    assert ([w] + ws)[1..] == ws;
  }

  /** The pieces so far and those of the remaining nodes. */
  ghost function Planned(chunks: seq<string>, lines: seq<string>, nodes: seq<Node>, prevEnd: nat, st: Settings)
    : seq<string>
  {
    chunks + Pieces(lines, NodeSpans(nodes, prevEnd, |lines|), st)
  }

  lemma PlannedEmit(chunks: seq<string>, lines: seq<string>, w: Window, ws: seq<Window>, st: Settings)
    requires w.lo <= w.hi
    ensures chunks + Pieces(lines, [w] + ws, st) == (chunks + Emitted(Segment(lines, w), st)) + Pieces(lines, ws, st)
  {
    PiecesCons(lines, w, ws, st);
    AppendAssoc(chunks, Emitted(Segment(lines, w), st), Pieces(lines, ws, st));
  }

  /** What one iteration emits: the gap before the node, if any, and the node. */
  ghost function EmitNode(chunks: seq<string>, lines: seq<string>, node: Node, prevEnd: nat, st: Settings): seq<string>
    requires FirstLineOf(node, prevEnd) - 1 <= node.endLineno
  {
    var start := FirstLineOf(node, prevEnd);
    (if start > prevEnd + 1 then chunks + Emitted(Segment(lines, Window(prevEnd, start - 1)), st) else chunks)
    + Emitted(Segment(lines, Window(start - 1, node.endLineno)), st)
  }

  lemma PlannedNext(chunks: seq<string>, lines: seq<string>, nodes: seq<Node>, i: nat, prevEnd: nat, st: Settings)
    requires i < |nodes| && Ordered(nodes[i..], prevEnd)
    ensures Ordered(nodes[i + 1..], nodes[i].endLineno) && FirstLineOf(nodes[i], prevEnd) - 1 <= nodes[i].endLineno
    ensures Planned(chunks, lines, nodes[i..], prevEnd, st)
         == Planned(EmitNode(chunks, lines, nodes[i], prevEnd, st), lines, nodes[i + 1..], nodes[i].endLineno, st)
  {
    assert nodes[i..][1..] == nodes[i + 1..];
    PlannedStep(chunks, lines, nodes[i..], prevEnd, st);
  }

  lemma PlannedStep(chunks: seq<string>, lines: seq<string>, nodes: seq<Node>, prevEnd: nat, st: Settings)
    requires nodes != [] && Ordered(nodes, prevEnd)
    ensures FirstLineOf(nodes[0], prevEnd) - 1 <= nodes[0].endLineno
    ensures Planned(chunks, lines, nodes, prevEnd, st)
         == Planned(EmitNode(chunks, lines, nodes[0], prevEnd, st), lines, nodes[1..], nodes[0].endLineno, st)
  {
    var node, start := nodes[0], FirstLineOf(nodes[0], prevEnd);
    var rest := NodeSpans(nodes[1..], node.endLineno, |lines|);
    var span := Window(start - 1, node.endLineno);
    if start > prevEnd + 1 {
      var gap := Window(prevEnd, start - 1);
      AppendAssoc([gap], [span], rest);
      assert NodeSpans(nodes, prevEnd, |lines|) == [gap] + ([span] + rest);
      PlannedEmit(chunks, lines, gap, [span] + rest, st);
      PlannedEmit(chunks + Emitted(Segment(lines, gap), st), lines, span, rest, st);
    } else {
      assert NodeSpans(nodes, prevEnd, |lines|) == [span] + rest;
      PlannedEmit(chunks, lines, span, rest, st);
    }
  }

  lemma PlannedEnd(chunks: seq<string>, lines: seq<string>, prevEnd: nat, st: Settings)
    ensures Planned(chunks, lines, [], prevEnd, st)
         == if prevEnd < |lines| then chunks + Emitted(Segment(lines, Window(prevEnd, |lines|)), st) else chunks
  {
    if prevEnd < |lines| {
      var w := Window(prevEnd, |lines|);
      assert [w] + [] == [w];
      PlannedEmit(chunks, lines, w, [], st);
    }
  }

  /** The loop of `chunk_python` over the top-level nodes. */
  method CollectPieces(text: string, nodes: seq<Node>, st: Settings) returns (chunks: seq<string>)
    requires Ordered(nodes, 0)
    ensures chunks == PythonPieces(text, nodes, st)
  {
    var lines := KeepEnds(text);
    var totalLines := |lines|;
    chunks := [];
    var prevEnd: nat := 0;
    assert nodes[0..] == nodes;
    ghost var all := Planned(chunks, lines, nodes, prevEnd, st);
    assert all == PythonPieces(text, nodes, st);
    for i := 0 to |nodes|
      invariant Ordered(nodes[i..], prevEnd)
      invariant all == Planned(chunks, lines, nodes[i..], prevEnd, st)
    {
      var node := nodes[i];
      PlannedNext(chunks, lines, nodes, i, prevEnd, st);
      ghost var next := EmitNode(chunks, lines, node, prevEnd, st);
      var start := FirstLineOf(node, prevEnd);
      if start > prevEnd + 1 {
        chunks := Emit(Segment(lines, Window(prevEnd, start - 1)), st, chunks);
      }
      chunks := Emit(Segment(lines, Window(start - 1, node.endLineno)), st, chunks);
      assert chunks == next;
      prevEnd := node.endLineno;
    }
    PlannedEnd(chunks, lines, prevEnd, st);
    if prevEnd < totalLines {
      chunks := Emit(Segment(lines, Window(prevEnd, totalLines)), st, chunks);
    }
  }

  method ChunkPython(text: string, parsed: Parsed, st: Settings) returns (chunks: seq<string>)
    requires parsed.Body? ==> Ordered(parsed.nodes, 0)
    ensures chunks == PythonChunks(text, parsed, st)
  {
    if parsed.SyntaxError? {
      chunks := ChunkText(text, st);
      return;
    }
    chunks := CollectPieces(text, parsed.nodes, st);
    if chunks != [] {
      chunks := MergeSplits(chunks, PARAGRAPH, st.chunkSize, 0);
    } else {
      chunks := ChunkText(text, st);
    }
  }
}
