/** The streamed answer of web/api_server.py: a worker thread, an unbounded queue, and a generator
    that turns its items into server-sent events, in any interleaving. */
module Streaming {
  import opened Common
  import opened Text
  import opened SseWire

  datatype Item = Answer(text: string) | Failure | Finished

  /** `_run`: sending texts; its exception is sent, the end is not yet; the end is sent. */
  datatype Worker = Sending | Raised | Ended(raised: bool)

  /** `_stream_queue_events`: waiting for items, or out of its loop: the end came, an exception came,
      nothing came in time. */
  datatype Reader = Reading | Completed | Failed | TimedOut

  /** `sent` and `delivered` are what the worker has put into the queue and how many of these texts
      the reader has taken. */
  datatype State = State(worker: Worker, queue: seq<Item>, reader: Reader, cancelled: bool,
                         yielded: seq<Chunk>, sent: seq<string>, delivered: nat)

  /** The worker's steps, the reader's, and the disconnect of the client. */
  datatype Step = Sends(text: string) | Raises | Ends | Takes | TimesOut | Disconnects

  /** The fields all chunks of a response share. */
  datatype Response = Response(id: string, created: int, model: string)

  const GENERATION_ERROR := "\n\n[Generation error — please retry]"
  const TIMEOUT_ERROR := "\n\n[Error: generation timed out]"
  const CAPACITY_ERROR := "\n\n[Error: server at capacity, please retry]"

  const START := State(Sending, [], Reading, false, [], [], 0)

  function ContentChunk(r: Response, text: string): Chunk {
    Chunk(r.id, r.created, r.model, Some(text), None)
  }

  function StopChunk(r: Response): Chunk {
    Chunk(r.id, r.created, r.model, None, Some("stop"))
  }

  // ---- steps ----

  predicate Enabled(s: State, e: Step) {
    match e
    case Sends(_) => s.worker == Sending
    case Raises => s.worker == Sending
    case Ends => !s.worker.Ended?
    case Takes => s.reader == Reading && s.queue != []
    case TimesOut => s.reader == Reading && s.queue == []
    case Disconnects => s.reader == Reading
  }

  function Next(s: State, e: Step, r: Response): State
    requires Enabled(s, e)
  {
    match e
    case Sends(text) => s.(queue := s.queue + [Answer(text)], sent := s.sent + [text])
    case Raises => s.(queue := s.queue + [Failure], worker := Raised)
    case Ends => s.(queue := s.queue + [Finished], worker := Ended(s.worker == Raised))
    case Takes =>
      var s' := s.(queue := s.queue[1..]);
      (match s.queue[0]
       case Answer(text) => s'.(yielded := s.yielded + [ContentChunk(r, text)], delivered := s.delivered + 1)
       case Failure =>
         s'.(yielded := s.yielded + [ContentChunk(r, GENERATION_ERROR)], reader := Failed, cancelled := true)
       case Finished => s'.(reader := Completed, cancelled := true))
    case TimesOut =>
      s.(yielded := s.yielded + [ContentChunk(r, TIMEOUT_ERROR)], reader := TimedOut, cancelled := true)
    case Disconnects => s.(cancelled := true)
  }

  // ---- the steps as the threads take them ----

  class Bridge {
    var worker: Worker
    var queue: seq<Item>
    var reader: Reader
    var cancelled: bool
    var yielded: seq<Chunk>
    ghost var sent: seq<string>
    ghost var delivered: nat
    const response: Response

    ghost function View(): State
      reads this
    {
      State(worker, queue, reader, cancelled, yielded, sent, delivered)
    }

    constructor (response: Response)
      ensures View() == START && this.response == response
    {
      worker, queue, reader, cancelled := Sending, [], Reading, false;
      yielded, sent, delivered := [], [], 0;
      this.response := response;
    }

    /** `_send(text)`, which never waits. */
    method Send(text: string)
      requires Enabled(View(), Sends(text))
      modifies this
      ensures View() == Next(old(View()), Sends(text), response)
    {
      queue := queue + [Answer(text)];
      sent := sent + [text];
    }

    /** `except Exception as exc: _send(exc)` */
    method Raise()
      requires Enabled(View(), Raises)
      modifies this
      ensures View() == Next(old(View()), Raises, response)
    {
      queue := queue + [Failure];
      worker := Raised;
    }

    /** `finally: _send(None)` */
    method End()
      requires Enabled(View(), Ends)
      modifies this
      ensures View() == Next(old(View()), Ends, response)
    {
      queue := queue + [Finished];
      worker := Ended(worker == Raised);
    }

    /** One turn of the loop in `_stream_queue_events`; leaving it ends in `finally: cancel_event.set()`. */
    method StreamQueueEvent()
      requires reader == Reading
      modifies this
      ensures View() == Next(old(View()), if old(queue) == [] then TimesOut else Takes, response)
    {
      if queue == [] {
        cancelled := true;
        yielded := yielded + [ContentChunk(response, TIMEOUT_ERROR)];
        reader := TimedOut;
        return;
      }
      var item := queue[0];
      queue := queue[1..];
      match item
      case Finished =>
        reader := Completed;
        cancelled := true;
      case Failure =>
        yielded := yielded + [ContentChunk(response, GENERATION_ERROR)];
        reader := Failed;
        cancelled := true;
      case Answer(text) =>
        yielded := yielded + [ContentChunk(response, text)];
        delivered := delivered + 1;
    }

    /** `_watch_disconnect` */
    method Disconnect()
      requires Enabled(View(), Disconnects)
      modifies this
      ensures View() == Next(old(View()), Disconnects, response)
      ensures cancelled
    {
      cancelled := true;
    }
  }

  // ---- runs ----

  predicate CanRun(s: State, es: seq<Step>, r: Response)
    decreases es
  {
    es == [] || (Enabled(s, es[0]) && CanRun(Next(s, es[0], r), es[1..], r))
  }

  function Run(s: State, es: seq<Step>, r: Response): State
    requires CanRun(s, es, r)
    decreases es
  {
    if es == [] then s else Run(Next(s, es[0], r), es[1..], r)
  }

  function Answers(texts: seq<string>): (items: seq<Item>)
    ensures |items| == |texts|
    ensures forall i :: 0 <= i < |texts| ==> items[i] == Answer(texts[i])
  {
    seq(|texts|, i requires 0 <= i < |texts| => Answer(texts[i]))
  }

  function Contents(r: Response, texts: seq<string>): (cs: seq<Chunk>)
    ensures |cs| == |texts|
    ensures forall i :: 0 <= i < |texts| ==> cs[i] == ContentChunk(r, texts[i])
  {
    seq(|texts|, i requires 0 <= i < |texts| => ContentChunk(r, texts[i]))
  }

  /** What the worker puts into the queue after its texts. */
  function Closing(w: Worker): seq<Item> {
    match w
    case Sending => []
    case Raised => [Failure]
    case Ended(raised) => if raised then [Failure, Finished] else [Finished]
  }

  /** The error a reader reports, if any. */
  function Errors(reader: Reader): seq<string> {
    match reader
    case Failed => [GENERATION_ERROR]
    case TimedOut => [TIMEOUT_ERROR]
    case _ => []
  }

  /** The reader has yielded a prefix of what the worker sent, in order, and at most one error. While
      it reads, the rest is in the queue; if it came to the end or to an exception, there is no rest. */
  ghost predicate InStep(s: State, r: Response) {
    && s.delivered <= |s.sent|
    && s.yielded == Contents(r, s.sent[..s.delivered]) + Contents(r, Errors(s.reader))
    && (s.reader != Reading ==> s.cancelled)
    && match s.reader
       case Reading => s.queue == Answers(s.sent[s.delivered..]) + Closing(s.worker)
       case Completed => s.worker == Ended(false) && s.delivered == |s.sent|
       case Failed => s.worker in {Raised, Ended(true)} && s.delivered == |s.sent|
       case TimedOut => true
  }

  lemma SendKeepsStep(s: State, text: string, r: Response)
    requires InStep(s, r) && s.worker == Sending
    ensures InStep(Next(s, Sends(text), r), r)
  {
    var s' := Next(s, Sends(text), r);
    assert s'.sent[..s.delivered] == s.sent[..s.delivered];
    if s.reader == Reading {
      assert s'.sent[s.delivered..] == s.sent[s.delivered..] + [text];
      assert Answers(s'.sent[s.delivered..]) == Answers(s.sent[s.delivered..]) + [Answer(text)];
    }
  }

  lemma TakeKeepsStep(s: State, r: Response)
    requires InStep(s, r) && Enabled(s, Takes)
    ensures InStep(Next(s, Takes, r), r)
  {
    var s' := Next(s, Takes, r);
    var rest := s.sent[s.delivered..];
    if rest != [] {
      assert s.queue[0] == Answer(rest[0]);
      assert s'.sent[s'.delivered..] == rest[1..];
      assert Answers(rest)[1..] == Answers(rest[1..]);
      assert s.queue[1..] == Answers(rest)[1..] + Closing(s.worker);
      assert s.sent[..s'.delivered] == s.sent[..s.delivered] + [rest[0]];
      assert Contents(r, s.sent[..s'.delivered]) == Contents(r, s.sent[..s.delivered]) + [ContentChunk(r, rest[0])];
    } else {
      assert s.queue == Closing(s.worker);
      assert Contents(r, Errors(s'.reader)) == if s'.reader == Failed then [ContentChunk(r, GENERATION_ERROR)] else [];
    }
  }

  lemma StepKeepsStep(s: State, e: Step, r: Response)
    requires InStep(s, r) && Enabled(s, e)
    ensures InStep(Next(s, e, r), r)
  {
    match e
    case Sends(text) => SendKeepsStep(s, text, r);
    case Takes => TakeKeepsStep(s, r);
    case TimesOut => assert Contents(r, [TIMEOUT_ERROR]) == [ContentChunk(r, TIMEOUT_ERROR)];
    case Raises => assert s.reader == Reading ==> s.queue + [Failure] == Answers(s.sent[s.delivered..]) + [Failure];
    case Ends =>
      AppendAssoc(Answers(s.sent[s.delivered..]), Closing(s.worker), [Finished]);
    case Disconnects =>
  }

  /** In every interleaving of the worker and the reader. */
  lemma {:induction false} RunKeepsStep(s: State, es: seq<Step>, r: Response)
    requires InStep(s, r) && CanRun(s, es, r)
    ensures InStep(Run(s, es, r), r)
    decreases es
  {
    if es != [] {
      StepKeepsStep(s, es[0], r);
      RunKeepsStep(Next(s, es[0], r), es[1..], r);
    }
  }

  /** Once the worker has ended, a reader that still reads cannot time out: the end is in the queue. */
  lemma EndIsReached(s: State, r: Response)
    requires InStep(s, r) && s.worker.Ended? && s.reader == Reading
    ensures !Enabled(s, TimesOut) && s.queue[|s.queue| - 1] == Finished
  {
    assert s.queue[|s.queue| - 1] == Closing(s.worker)[|Closing(s.worker)| - 1];
  }

  /** What the reader ends with when it takes what an ended worker has left. */
  function FinalReader(w: Worker): Reader
    requires w.Ended?
  {
    if w.raised then Failed else Completed
  }

  /** And it finishes: at most as many takes as items are queued bring it to the end, or to the
      exception if the worker raised one. */
  lemma {:induction false} ReaderFinishes(s: State, r: Response) returns (es: seq<Step>)
    requires InStep(s, r) && s.worker.Ended? && s.reader == Reading
    ensures |es| <= |s.queue| && (forall i :: 0 <= i < |es| ==> es[i] == Takes)
    ensures CanRun(s, es, r) && Run(s, es, r).reader == FinalReader(s.worker)
    decreases |s.queue|
  {
    EndIsReached(s, r);
    var s' := Next(s, Takes, r);
    TakeKeepsStep(s, r);
    if s'.reader == Reading {
      var rest := ReaderFinishes(s', r);
      es := [Takes] + rest;
      assert es[1..] == rest;
    } else {
      es := [Takes];
      assert es[1..] == [];
    }
  }

  // ---- the response ----

  function ChunkPayloads(cs: seq<Chunk>, json: Codec): (ps: seq<string>)
    ensures |ps| == |cs|
    ensures forall i :: 0 <= i < |cs| ==> ps[i] == json.encode(cs[i])
  {
    seq(|cs|, i requires 0 <= i < |cs| => json.encode(cs[i]))
  }

  /** The chunks, one stop chunk, and [DONE]. */
  function Body(cs: seq<Chunk>, r: Response, json: Codec): string {
    Events(ChunkPayloads(cs, json) + [json.encode(StopChunk(r)), DONE])
  }

  /** What has been written so far. */
  function Written(s: State, r: Response, json: Codec): string {
    if s.reader == Reading then Events(ChunkPayloads(s.yielded, json)) else Body(s.yielded, r, json)
  }

  lemma FlattenThree(a: seq<string>, x: string, y: string)
    ensures Flatten(a + [x, y]) == Flatten(a) + x + y
  {
    FlattenSnoc(a, x);
    FlattenSnoc(a + [x], y);
    assert a + [x] + [y] == a + [x, y];
  }

  lemma EventsSnoc(ps: seq<string>, p: string)
    ensures Events(ps + [p]) == Events(ps) + Event(p)
  {
    EventsAppend(ps, [p]);
    assert Events([p]) == Event(p) + Events([p][1..]);
  }

  /** `_rag_stream_response`; no chunks if the worker could not be started in time. */
  method RagStreamResponse(chunks: Option<seq<Chunk>>, r: Response, json: Codec) returns (events: seq<string>)
    ensures Flatten(events) == Body(if chunks.Some? then chunks.value else [ContentChunk(r, CAPACITY_ERROR)], r, json)
  {
    ghost var cs := if chunks.Some? then chunks.value else [ContentChunk(r, CAPACITY_ERROR)];
    ghost var ps := ChunkPayloads(cs, json);
    if chunks.None? {
      events := [MakeStreamChunk(ContentChunk(r, CAPACITY_ERROR), json)];
      assert ps == [] + [json.encode(cs[0])];
      EventsSnoc([], json.encode(cs[0]));
      FlattenSnoc([], events[0]);
    } else {
      events := [];
      for i := 0 to |chunks.value|
        invariant Flatten(events) == Events(ps[..i])
      {
        TakeSnoc(ps, i);
        EventsSnoc(ps[..i], ps[i]);
        FlattenSnoc(events, MakeStreamChunk(chunks.value[i], json));
        events := events + [MakeStreamChunk(chunks.value[i], json)];
      }
      assert ps[..|cs|] == ps;
    }
    EventsSnoc(ps, json.encode(StopChunk(r)));
    EventsSnoc(ps + [json.encode(StopChunk(r))], DONE);
    assert ps + [json.encode(StopChunk(r))] + [DONE] == ps + [json.encode(StopChunk(r)), DONE];
    FlattenThree(events, MakeStreamChunk(StopChunk(r), json), Event(DONE));
    events := events + [MakeStreamChunk(StopChunk(r), json), Event(DONE)];
  }

  // ---- what the browser gets ----

  lemma ArePayloads(cs: seq<Chunk>, json: Codec)
    requires IsCodec(json)
    ensures forall p :: p in ChunkPayloads(cs, json) ==> IsPayload(p)
  {
    forall p | p in ChunkPayloads(cs, json)
      ensures IsPayload(p)
    {
      var i :| 0 <= i < |cs| && ChunkPayloads(cs, json)[i] == p;
      assert IsObject(json.encode(cs[i]));
    }
  }

  /** The parser finds what was printed. */
  lemma WrittenPayloads(cs: seq<Chunk>, r: Response, json: Codec)
    requires IsCodec(json)
    ensures Payloads(Events(ChunkPayloads(cs, json))) == ChunkPayloads(cs, json)
    ensures Payloads(Body(cs, r, json)) == ChunkPayloads(cs, json) + [json.encode(StopChunk(r)), DONE]
  {
    var ps := ChunkPayloads(cs, json);
    ArePayloads(cs, json);
    EventsAreFound(ps, "");
    assert Events(ps) + "" == Events(ps) && ps + Payloads("") == ps;
    assert IsObject(json.encode(StopChunk(r)));
    var all := ps + [json.encode(StopChunk(r)), DONE];
    EventsAreFound(all, "");
    assert Events(all) + "" == Events(all) && all + Payloads("") == all;
  }

  /** A stream that was not interrupted has a chunk of this response for every text taken and for the
      error, if there is one; then one stop chunk and [DONE], in that order: neither comes earlier. */
  lemma EndsWithOneStop(s: State, r: Response, json: Codec)
    requires IsCodec(json) && InStep(s, r) && s.reader != Reading
    ensures var ps, texts := Payloads(Written(s, r, json)), s.sent[..s.delivered] + Errors(s.reader);
            var stop := json.encode(Chunk(r.id, r.created, r.model, None, Some("stop")));
            && |ps| == |texts| + 2
            && ps[|ps| - 2..] == [stop, "[DONE]"]
            && forall i :: 0 <= i < |texts| ==>
                 && ps[i] == json.encode(Chunk(r.id, r.created, r.model, Some(texts[i]), None))
                 && ps[i] !in {stop, "[DONE]"}
  {
    WrittenPayloads(s.yielded, r, json);
    assert s.yielded == Contents(r, s.sent[..s.delivered] + Errors(s.reader));
    forall i | 0 <= i < |s.yielded|
      ensures json.encode(s.yielded[i]) !in {json.encode(StopChunk(r)), DONE}
    {
      assert s.yielded[i].content.Some?;
      assert IsObject(json.encode(s.yielded[i]));
    }
  }

  /** How an uninterrupted stream ends on the wire. */
  lemma ClosesOnTheWire(s: State, r: Response, json: Codec)
    requires s.reader != Reading
    ensures var stop := json.encode(Chunk(r.id, r.created, r.model, None, Some("stop")));
            Written(s, r, json)
            == Events(ChunkPayloads(s.yielded, json)) + ("data: " + stop + "\n\n" + "data: [DONE]\n\n")
  {
    var ps, stop := ChunkPayloads(s.yielded, json), json.encode(StopChunk(r));
    EventsSnoc(ps, stop);
    EventsSnoc(ps + [stop], DONE);
    assert ps + [stop] + [DONE] == ps + [stop, DONE];
    assert Event(DONE) == "data: [DONE]\n\n";
    AppendAssoc(Events(ps), Event(stop), Event(DONE));
  }

  lemma ContentDelta(r: Response, t: string, json: Codec)
    requires IsCodec(json)
    ensures PayloadDelta(json.encode(ContentChunk(r, t)), json) == NonEmpty([t])
  {
    assert IsObject(json.encode(ContentChunk(r, t)));
    assert NonEmpty([t]) == (if t == "" then [] else [t]) + NonEmpty([t][1..]);
  }

  lemma LastContent(r: Response, front: seq<string>, t: string, json: Codec)
    ensures ChunkPayloads(Contents(r, front + [t]), json)
         == ChunkPayloads(Contents(r, front), json) + [json.encode(ContentChunk(r, t))]
  {
  }

  lemma DeltasSnoc(ps: seq<string>, p: string, json: Codec)
    ensures Deltas(ps + [p], json) == Deltas(ps, json) + PayloadDelta(p, json)
  {
    assert (ps + [p])[..|ps|] == ps;
  }

  lemma {:induction false} ContentDeltas(r: Response, texts: seq<string>, json: Codec)
    requires IsCodec(json)
    ensures Deltas(ChunkPayloads(Contents(r, texts), json), json) == NonEmpty(texts)
  {
    if texts != [] {
      var front, t := texts[..|texts| - 1], texts[|texts| - 1];
      assert texts == front + [t];
      ContentDeltas(r, front, json);
      ContentDelta(r, t, json);
      LastContent(r, front, t, json);
      DeltasSnoc(ChunkPayloads(Contents(r, front), json), json.encode(ContentChunk(r, t)), json);
      NonEmptyAppend(front, [t]);
    }
  }

  lemma StopIsSilent(ps: seq<string>, r: Response, json: Codec)
    requires IsCodec(json)
    ensures Deltas(ps + [json.encode(StopChunk(r)), DONE], json) == Deltas(ps, json)
  {
    var stop := json.encode(StopChunk(r));
    DeltasAppend(ps, [stop, DONE], json);
    assert [stop, DONE][..1] == [stop] && [stop][..0] == [];
    assert Deltas([stop], json) == [];
  }

  /** The deltas of all that has been written: the non-empty texts the reader took, then its error. */
  lemma WrittenDeltas(s: State, r: Response, json: Codec)
    requires IsCodec(json) && InStep(s, r)
    ensures Deltas(Payloads(Written(s, r, json)), json) == NonEmpty(s.sent[..s.delivered]) + Errors(s.reader)
  {
    var texts := s.sent[..s.delivered] + Errors(s.reader);
    assert s.yielded == Contents(r, texts);
    WrittenPayloads(s.yielded, r, json);
    StopIsSilent(ChunkPayloads(s.yielded, json), r, json);
    ContentDeltas(r, texts, json);
    NonEmptyAppend(s.sent[..s.delivered], Errors(s.reader));
    assert NonEmpty(Errors(s.reader)) == Errors(s.reader);
  }

  /** For every interleaving and every way the network cuts an uninterrupted stream: the browser
      shows the non-empty texts of a prefix of what the worker sent, in order, and then at most one
      error; all that it sent unless the reader timed out. */
  lemma StreamIsDelivered(es: seq<Step>, r: Response, cuts: seq<string>, json: Codec)
    requires IsCodec(json) && CanRun(START, es, r)
    requires Run(START, es, r).reader != Reading
    requires Flatten(cuts) == Written(Run(START, es, r), r, json)
    ensures var s := Run(START, es, r);
            && s.delivered <= |s.sent|
            && (s.reader != TimedOut ==> s.delivered == |s.sent|)
            && Deltas(Payloads(Flatten(cuts)), json) == NonEmpty(s.sent[..s.delivered]) + Errors(s.reader)
            && Errors(s.reader) == (if s.reader == Completed then []
                                    else if s.reader == TimedOut then [TIMEOUT_ERROR]
                                    else [GENERATION_ERROR])
  {
    RunKeepsStep(START, es, r);
    WrittenDeltas(Run(START, es, r), r, json);
  }

  /** Whatever part of the stream has arrived so far, or ever: a prefix of that. */
  lemma PartIsPrefix(es: seq<Step>, r: Response, cuts: seq<string>, json: Codec)
    requires IsCodec(json) && CanRun(START, es, r)
    requires Flatten(cuts) <= Written(Run(START, es, r), r, json)
    ensures var s := Run(START, es, r);
            && s.delivered <= |s.sent|
            && Deltas(Payloads(Flatten(cuts)), json) <= NonEmpty(s.sent[..s.delivered]) + Errors(s.reader)
  {
    RunKeepsStep(START, es, r);
    WrittenDeltas(Run(START, es, r), r, json);
    CutOff(Flatten(cuts), Written(Run(START, es, r), r, json), json);
  }

  /** End to end, with the parser's own loop: worker, queue, response, network and browser. */
  method ShowStream(es: seq<Step>, r: Response, cuts: seq<string>, json: Codec) returns (deltas: seq<string>)
    requires IsCodec(json) && CanRun(START, es, r)
    requires Flatten(cuts) <= Written(Run(START, es, r), r, json)
    ensures var s := Run(START, es, r);
            && s.delivered <= |s.sent|
            && deltas <= NonEmpty(s.sent[..s.delivered]) + Errors(s.reader)
            && (s.reader in {Completed, Failed} ==> s.delivered == |s.sent|)
            && (s.reader != Reading && Flatten(cuts) == Written(s, r, json) ==>
                  deltas == NonEmpty(s.sent[..s.delivered]) + Errors(s.reader))
  {
    RunKeepsStep(START, es, r);
    PartIsPrefix(es, r, cuts, json);
    if Run(START, es, r).reader != Reading && Flatten(cuts) == Written(Run(START, es, r), r, json) {
      StreamIsDelivered(es, r, cuts, json);
    }
    deltas := IterSseDeltas(cuts, json);
  }

  /** The browser shows the capacity error when there was no slot. */
  lemma CapacityErrorIsShown(r: Response, json: Codec)
    requires IsCodec(json)
    ensures Deltas(Payloads(Body([ContentChunk(r, CAPACITY_ERROR)], r, json)), json) == [CAPACITY_ERROR]
  {
    assert [ContentChunk(r, CAPACITY_ERROR)] == Contents(r, [CAPACITY_ERROR]);
    WrittenPayloads([ContentChunk(r, CAPACITY_ERROR)], r, json);
    StopIsSilent(ChunkPayloads([ContentChunk(r, CAPACITY_ERROR)], json), r, json);
    ContentDeltas(r, [CAPACITY_ERROR], json);
  }
}
