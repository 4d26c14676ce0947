/** The two levels of capacity slots in web/api_server.py and api/ollama_client.py. Everything
    between two waits of a coroutine or of a worker thread is one step. */
module Serving {
  import opened Text

  /** Who asks: a chat completion, a streamed one, /v1/retrieve, or the warm-up of the model,
      which generates without a RAG slot and outside the RAG executor. */
  datatype Kind = Chat | Stream | Retrieve | Warm

  /** Waiting for a RAG slot; holding one, not yet submitted; in the executor's queue; on a worker:
      retrieving, polling for a generation slot, generating; the job's function has exited, its done
      callback has not run; answered; refused. */
  datatype Phase = Waiting | Acquired | Queued | Retrieving | Polling | Generating | Exited | Done | Refused

  datatype Request = Request(kind: Kind, phase: Phase, cancelled: bool)

  /** RAG_CONCURRENCY_LIMIT, GENERATION_CONCURRENCY_LIMIT and RAG_EXECUTOR_WORKERS. */
  datatype Limits = Limits(rag: nat, generation: nat, workers: nat)

  predicate Positive(l: Limits) {
    l.rag >= 1 && l.generation >= 1 && l.workers >= 1
  }

  type Requests = map<int, Request>

  datatype State = State(requests: Requests, ragFree: int, genFree: int)

  datatype Event =
    | Arrives(id: int, kind: Kind)
    | Acquires(id: int)
    | CapacityTimesOut(id: int)
    | Submits(id: int, expired: bool, schedules: bool)
    | Starts(id: int)
    | RetrievalEnds(id: int, prompt: bool)
    | Polls(id: int, expired: bool)
    | GenerationEnds(id: int)
    | CallbackRuns(id: int)
    | Abandons(id: int)

  // ---- what a request holds ----

  predicate IsUnsubmitted(r: Request) {
    r.phase == Acquired
  }

  /** Submitted and its slot not yet given back. */
  predicate IsUnfinished(r: Request) {
    r.kind != Warm && r.phase in {Queued, Retrieving, Polling, Generating, Exited}
  }

  predicate IsGenerating(r: Request) {
    r.phase == Generating
  }

  predicate IsOnWorker(r: Request) {
    r.kind != Warm && r.phase in {Retrieving, Polling, Generating}
  }

  function Having(m: Requests, f: Request -> bool): set<int> {
    set id | id in m && f(m[id])
  }

  function Count(m: Requests, f: Request -> bool): nat {
    |Having(m, f)|
  }

  function One(b: bool): nat {
    if b then 1 else 0
  }

  lemma HavingUpdate(m: Requests, id: int, r: Request, f: Request -> bool)
    ensures Having(m[id := r], f) == Having(m, f) - {id} + if f(r) then {id} else {}
  {
    var m' := m[id := r];
    forall i
      ensures i in Having(m', f) <==> i in Having(m, f) - {id} + if f(r) then {id} else {}
    {
      if i != id {
        assert i in m' <==> i in m;
      }
    }
  }

  lemma SizeWithout(s: set<int>, id: int)
    ensures |s - {id}| == |s| - One(id in s)
    ensures |s - {id} + {id}| == |s| - One(id in s) + 1
  {
    if id in s {
      assert s == s - {id} + {id};
    } else {
      assert s == s - {id};
    }
  }

  lemma CountUpdate(m: Requests, id: int, r: Request, f: Request -> bool)
    ensures Count(m[id := r], f) == Count(m, f) - One(id in m && f(m[id])) + One(f(r))
  {
    HavingUpdate(m, id, r, f);
    SizeWithout(Having(m, f), id);
    assert id in Having(m, f) <==> id in m && f(m[id]);
    assert Having(m, f) - {id} + {} == Having(m, f) - {id};
  }

  lemma Counted(m: Requests, id: int, f: Request -> bool)
    requires id in m && f(m[id])
    ensures Count(m, f) >= 1
  {
    assert id in Having(m, f);
  }

  lemma Element<T>(s: set<T>) returns (id: T)
    requires s != {}
    ensures id in s
  {
    id :| id in s;
  }

  lemma SomeCounted(m: Requests, f: Request -> bool) returns (id: int)
    requires Count(m, f) >= 1
    ensures id in m && f(m[id])
  {
    id := Element(Having(m, f));
  }

  // ---- steps ----

  predicate Enabled(l: Limits, s: State, e: Event) {
    if e.Arrives? then e.id !in s.requests
    else
      && e.id in s.requests
      && var r := s.requests[e.id];
         match e
         case Acquires(_) => r.phase == Waiting && s.ragFree > 0
         case CapacityTimesOut(_) => r.phase == Waiting
         case Submits(_, _, _) => r.phase == Acquired
         case Starts(_) => r.phase == Queued && WorkerFree(l, s)
         case RetrievalEnds(_, _) => r.phase == Retrieving
         case Polls(_, _) => r.phase == Polling
         case GenerationEnds(_) => r.phase == Generating
         case CallbackRuns(_) => r.phase == Exited
         case _ => r.kind in {Chat, Stream} && IsUnfinished(r)
  }

  predicate WorkerFree(l: Limits, s: State) {
    Count(s.requests, IsOnWorker) < l.workers
  }

  /** Where a job goes when its function returns or raises. */
  function AfterExit(r: Request): Phase {
    if r.kind == Warm then Done else Exited
  }

  /** A plain chat checks for cancellation before it asks for a generation slot, a streamed one only
      while it polls for it. */
  predicate WantsGeneration(r: Request) {
    r.kind == Stream || (r.kind == Chat && !r.cancelled)
  }

  function NextPhase(s: State, r: Request, e: Event): Phase {
    match e
    case Acquires(_) => Acquired
    case CapacityTimesOut(_) => Refused
    case Submits(_, expired, schedules) => if expired || !schedules then Refused else Queued
    case Starts(_) => if r.cancelled then Exited else Retrieving
    case RetrievalEnds(_, prompt) => if prompt && WantsGeneration(r) then Polling else Exited
    case Polls(_, expired) =>
      if r.cancelled || expired then AfterExit(r) else if s.genFree > 0 then Generating else Polling
    case GenerationEnds(_) => AfterExit(r)
    case CallbackRuns(_) => Done
    case _ => r.phase
  }

  function NextRequest(s: State, e: Event): Request
    requires e.Arrives? || e.id in s.requests
  {
    if e.Arrives? then Request(e.kind, if e.kind == Warm then Polling else Waiting, false)
    else
      var r := s.requests[e.id];
      Request(r.kind, NextPhase(s, r, e), r.cancelled || e.Abandons?)
  }

  /** Slots given back by the step, less slots taken. */
  function RagGain(e: Event): int {
    match e
    case Acquires(_) => -1
    case Submits(_, expired, schedules) => if expired || !schedules then 1 else 0
    case CallbackRuns(_) => 1
    case _ => 0
  }

  function GenGain(s: State, e: Event): int
    requires e.Arrives? || e.id in s.requests
  {
    match e
    case Polls(_, expired) => if !s.requests[e.id].cancelled && !expired && s.genFree > 0 then -1 else 0
    case GenerationEnds(_) => 1
    case _ => 0
  }

  function Next(s: State, e: Event): State
    requires e.Arrives? || e.id in s.requests
  {
    State(s.requests[e.id := NextRequest(s, e)], s.ragFree + RagGain(e), s.genFree + GenGain(s, e))
  }

  // ---- the steps as the server takes them ----

  class Server {
    var requests: Requests
    var ragFree: int
    var genFree: int
    const limits: Limits

    ghost function View(): State
      reads this
    {
      State(requests, ragFree, genFree)
    }

    constructor (limits: Limits)
      ensures View() == Initial(limits) && this.limits == limits
    {
      requests, ragFree, genFree := map[], limits.rag, limits.generation;
      this.limits := limits;
    }

    method SetPhase(id: int, phase: Phase)
      requires id in requests
      modifies this`requests
      ensures requests == old(requests)[id := old(requests)[id].(phase := phase)]
    {
      requests := requests[id := requests[id].(phase := phase)];
    }

    /** A request begins to wait for capacity; the warm-up goes straight to `_generation_slot`. */
    method Arrive(id: int, kind: Kind)
      requires Enabled(limits, View(), Arrives(id, kind))
      modifies this
      ensures View() == Next(old(View()), Arrives(id, kind))
    {
      requests := requests[id := Request(kind, Waiting, false)];
      if kind == Warm {
        SetPhase(id, Polling);
      }
    }

    /** `await asyncio.wait_for(semaphore.acquire(), timeout)` */
    method WaitForCapacity(id: int, timedOut: bool)
      requires Enabled(limits, View(), if timedOut then CapacityTimesOut(id) else Acquires(id))
      modifies this
      ensures View() == Next(old(View()), if timedOut then CapacityTimesOut(id) else Acquires(id))
    {
      if timedOut {
        SetPhase(id, Refused);
      } else {
        ragFree := ragFree - 1;
        SetPhase(id, Acquired);
      }
    }

    /** The rest of `_acquire_and_submit` and of `_start_stream_worker`, with `_submit_rag_job`. */
    method AcquireAndSubmit(id: int, remaining: real, schedules: bool)
      requires Enabled(limits, View(), Submits(id, remaining <= 0.0, schedules))
      modifies this
      ensures View() == Next(old(View()), Submits(id, remaining <= 0.0, schedules))
    {
      if remaining <= 0.0 {
        ragFree := ragFree + 1;
        SetPhase(id, Refused);
        return;
      }
      if !schedules {
        ragFree := ragFree + 1;
        SetPhase(id, Refused);
        return;
      }
      SetPhase(id, Queued);
    }

    /** A worker thread takes the job. */
    method Start(id: int)
      requires Enabled(limits, View(), Starts(id))
      modifies this
      ensures View() == Next(old(View()), Starts(id))
    {
      if requests[id].cancelled {
        SetPhase(id, Exited);
      } else {
        SetPhase(id, Retrieving);
      }
    }

    /** `_prepare_query` came back with a prompt, or with a reply or an exception. */
    method EndRetrieval(id: int, prompt: bool)
      requires Enabled(limits, View(), RetrievalEnds(id, prompt))
      modifies this
      ensures View() == Next(old(View()), RetrievalEnds(id, prompt))
    {
      var r := requests[id];
      SetPhase(id, Exited);
      if prompt {
        if r.kind == Stream {
          SetPhase(id, Polling);
        } else if r.kind == Chat && !r.cancelled {
          SetPhase(id, Polling);
        }
      }
    }

    /** One turn of the loop in `_generation_slot`. */
    method PollGenerationSlot(id: int, remaining: real)
      requires Enabled(limits, View(), Polls(id, remaining <= 0.0))
      modifies this
      ensures View() == Next(old(View()), Polls(id, remaining <= 0.0))
    {
      var r := requests[id];
      if r.cancelled {
        SetPhase(id, AfterExit(r));
        return;
      }
      if remaining <= 0.0 {
        SetPhase(id, AfterExit(r));
        return;
      }
      if genFree > 0 {
        genFree := genFree - 1;
        SetPhase(id, Generating);
      } else {
        SetPhase(id, Polling);
      }
    }

    /** The generation ends, well or not: `finally: _generation_slots.release()`. */
    method EndGeneration(id: int)
      requires Enabled(limits, View(), GenerationEnds(id))
      modifies this
      ensures View() == Next(old(View()), GenerationEnds(id))
    {
      genFree := genFree + 1;
      SetPhase(id, AfterExit(requests[id]));
    }

    /** `future.add_done_callback(lambda _f: semaphore.release())` */
    method RunCallback(id: int)
      requires Enabled(limits, View(), CallbackRuns(id))
      modifies this
      ensures View() == Next(old(View()), CallbackRuns(id))
    {
      ragFree := ragFree + 1;
      SetPhase(id, Done);
    }

    /** The client timed out or went away: `cancel_event.set()`. */
    method Abandon(id: int)
      requires Enabled(limits, View(), Abandons(id))
      modifies this
      ensures View() == Next(old(View()), Abandons(id))
    {
      requests := requests[id := requests[id].(cancelled := true)];
    }
  }

  // ---- runs ----

  function Initial(l: Limits): State {
    State(map[], l.rag, l.generation)
  }

  /** es can happen from s, one after the other. */
  predicate CanRun(l: Limits, s: State, es: seq<Event>)
    decreases es
  {
    es == [] || (Enabled(l, s, es[0]) && CanRun(l, Next(s, es[0]), es[1..]))
  }

  function Run(l: Limits, s: State, es: seq<Event>): State
    requires CanRun(l, s, es)
    decreases es
  {
    if es == [] then s else Run(l, Next(s, es[0]), es[1..])
  }

  // ---- no slot is lost or made up ----

  /** What a kind of request never does. */
  predicate Plausible(r: Request) {
    && (r.kind == Warm ==> r.phase in {Polling, Generating, Done} && !r.cancelled)
    && (r.kind == Retrieve ==> r.phase !in {Polling, Generating} && !r.cancelled)
  }

  ghost predicate Accounted(l: Limits, s: State) {
    && s.ragFree >= 0 && s.genFree >= 0
    && s.ragFree + Count(s.requests, IsUnsubmitted) + Count(s.requests, IsUnfinished) == l.rag
    && s.genFree + Count(s.requests, IsGenerating) == l.generation
    && Count(s.requests, IsOnWorker) <= l.workers
    && forall id :: id in s.requests ==> Plausible(s.requests[id])
  }

  lemma StepKeepsRagSlots(l: Limits, s: State, e: Event)
    requires Accounted(l, s) && Enabled(l, s, e)
    ensures var s' := Next(s, e);
            && s'.ragFree >= 0
            && s'.ragFree + Count(s'.requests, IsUnsubmitted) + Count(s'.requests, IsUnfinished) == l.rag
  {
    assert e.id in s.requests ==> Plausible(s.requests[e.id]);
    CountUpdate(s.requests, e.id, NextRequest(s, e), IsUnsubmitted);
    CountUpdate(s.requests, e.id, NextRequest(s, e), IsUnfinished);
  }

  lemma StepKeepsGenerationSlots(l: Limits, s: State, e: Event)
    requires Accounted(l, s) && Enabled(l, s, e)
    ensures var s' := Next(s, e);
            && s'.genFree >= 0
            && s'.genFree + Count(s'.requests, IsGenerating) == l.generation
            && Count(s'.requests, IsOnWorker) <= l.workers
  {
    CountUpdate(s.requests, e.id, NextRequest(s, e), IsGenerating);
    CountUpdate(s.requests, e.id, NextRequest(s, e), IsOnWorker);
  }

  lemma StepKeepsAccounts(l: Limits, s: State, e: Event)
    requires Accounted(l, s) && Enabled(l, s, e)
    ensures Accounted(l, Next(s, e))
  {
    StepKeepsRagSlots(l, s, e);
    StepKeepsGenerationSlots(l, s, e);
    assert e.id in s.requests ==> Plausible(s.requests[e.id]);
    assert Plausible(NextRequest(s, e));
  }

  lemma {:induction false} RunKeepsAccounts(l: Limits, s: State, es: seq<Event>)
    requires Accounted(l, s) && CanRun(l, s, es)
    ensures Accounted(l, Run(l, s, es))
    decreases es
  {
    if es != [] {
      StepKeepsAccounts(l, s, es[0]);
      RunKeepsAccounts(l, Next(s, es[0]), es[1..]);
    }
  }

  /** In every reachable state: free RAG slots + acquired but not submitted + unfinished jobs are the
      limit; free generation slots + generations are the limit; and no release exceeds a limit. */
  lemma SlotsAreConserved(l: Limits, es: seq<Event>)
    requires CanRun(l, Initial(l), es)
    ensures Accounted(l, Run(l, Initial(l), es))
  {
    var m: Requests := map[];
    forall f: Request -> bool
      ensures Count(m, f) == 0
    {
      assert Having(m, f) == {};
    }
    RunKeepsAccounts(l, Initial(l), es);
  }

  // ---- who gives a slot back ----

  predicate HoldsRag(r: Request) {
    IsUnsubmitted(r) || IsUnfinished(r)
  }

  ghost predicate Holds(s: State, id: int) {
    id in s.requests && HoldsRag(s.requests[id])
  }

  /** A request that holds a slot loses it exactly when its job could not be submitted, or when its
      job's function has exited and the done callback runs. In particular no timeout, of the client
      or for a generation slot, takes the slot away. */
  lemma SlotIsGivenBackIff(l: Limits, s: State, e: Event, id: int)
    requires Accounted(l, s) && Enabled(l, s, e) && Holds(s, id)
    ensures Holds(Next(s, e), id) <==>
              !(e.id == id && (e.CallbackRuns? || (e.Submits? && (e.expired || !e.schedules))))
  {
    assert Plausible(s.requests[id]);
    if e.id == id {
      assert NextRequest(s, e).kind == s.requests[id].kind;
    }
  }

  /** An abandoned job keeps its slot until it ends, whatever else happens. */
  lemma {:induction false} AbandonedKeepsSlot(l: Limits, s: State, es: seq<Event>, id: int)
    requires Accounted(l, s) && CanRun(l, s, es)
    requires id in s.requests && IsUnfinished(s.requests[id])
    requires CallbackRuns(id) !in es
    ensures var s' := Run(l, s, es); id in s'.requests && IsUnfinished(s'.requests[id])
    ensures Run(l, s, es).ragFree < l.rag
    decreases es
  {
    if es == [] {
      Counted(s.requests, id, IsUnfinished);
    } else {
      assert es[0] != CallbackRuns(id);
      StepKeepsAccounts(l, s, es[0]);
      assert Plausible(s.requests[id]);
      AbandonedKeepsSlot(l, Next(s, es[0]), es[1..], id);
    }
  }

  // ---- an abandoned job goes no further ----

  /** Between r and r' an abandoned request has begun nothing: no retrieval, no generation, and no wait
      for a generation slot, except that of a streamed chat that was retrieving. */
  ghost predicate BeginsNothing(r: Request, r': Request) {
    && r'.kind == r.kind && r'.cancelled
    && (r'.phase == Retrieving ==> r.phase == Retrieving)
    && (r'.phase == Polling ==> r.phase == Polling || (r.kind == Stream && r.phase == Retrieving))
    && (r'.phase == Generating ==> r.phase == Generating)
  }

  /** Whatever happens, a job that is abandoned, or was before, and has not begun to retrieve or to
      generate never does. */
  lemma {:induction false} AbandonedBeginsNothing(l: Limits, s: State, es: seq<Event>, id: int)
    requires CanRun(l, s, es) && id in s.requests
    requires s.requests[id].cancelled || (es != [] && es[0] == Abandons(id))
    ensures id in Run(l, s, es).requests && BeginsNothing(s.requests[id], Run(l, s, es).requests[id])
    decreases es
  {
    if es != [] {
      AbandonedBeginsNothing(l, Next(s, es[0]), es[1..], id);
    }
  }

  // ---- no other job skips anything ----

  /** What keeps a request from its answer: a wait runs out, the job cannot be submitted, there is no
      prompt, or the client goes away. */
  predicate Stops(e: Event, id: int) {
    match e
    case CapacityTimesOut(i) => i == id
    case Submits(i, expired, schedules) => i == id && (expired || !schedules)
    case RetrievalEnds(i, prompt) => i == id && !prompt
    case Polls(i, expired) => i == id && expired
    case Abandons(i) => i == id
    case _ => false
  }

  /** A wait that runs out, a job that cannot be submitted and a reply without a prompt end a request. */
  lemma StopsEndIt(l: Limits, s: State, e: Event, id: int)
    requires Enabled(l, s, e) && Stops(e, id) && !e.Abandons?
    ensures id in s.requests && Next(s, e).requests[id].phase in {Refused, Exited, Done}
  {
  }

  /** The way of a chat from waiting to done. */
  function WayOf(id: int): (es: seq<Event>)
    ensures |es| == 7
  {
    [Acquires(id), Submits(id, false, true), Starts(id), RetrievalEnds(id, true), Polls(id, false), GenerationEnds(id),
     CallbackRuns(id)]
  }

  function WayFrom(id: int, r: Request): seq<Event> {
    WayOf(id)[7 - Rank(r)..]
  }

  /** The events of es that take the request to another phase. */
  function Moves(l: Limits, s: State, es: seq<Event>, id: int): seq<Event>
    requires CanRun(l, s, es) && id in s.requests
    decreases es
  {
    if es == [] then []
    else
      var s' := Next(s, es[0]);
      (if s'.requests[id].phase != s.requests[id].phase then [es[0]] else []) + Moves(l, s', es[1..], id)
  }

  ghost predicate IsUndisturbed(s: State, id: int) {
    && id in s.requests
    && var r := s.requests[id]; r.kind in {Chat, Stream} && !r.cancelled && r.phase != Refused
  }

  lemma {:induction false} OwnMove(l: Limits, s: State, e: Event, id: int)
    requires IsUndisturbed(s, id) && Enabled(l, s, e) && !Stops(e, id) && e.id == id
    ensures IsUndisturbed(Next(s, e), id)
    ensures var r, r' := s.requests[id], Next(s, e).requests[id];
            r'.phase == r.phase || (Rank(r) == Rank(r') + 1 && e == WayOf(id)[7 - Rank(r)])
  {
  }

  lemma FirstOfWay(id: int, k: nat)
    requires k < 7
    ensures WayOf(id)[k..] == [WayOf(id)[k]] + WayOf(id)[k + 1..]
  {
  }

  lemma {:induction false} NextOnTheWay(l: Limits, s: State, e: Event, id: int)
    requires IsUndisturbed(s, id) && Enabled(l, s, e) && !Stops(e, id)
    ensures IsUndisturbed(Next(s, e), id)
    ensures var r, r' := s.requests[id], Next(s, e).requests[id];
            if r'.phase == r.phase then WayFrom(id, r') == WayFrom(id, r) else WayFrom(id, r) == [e] + WayFrom(id, r')
  {
    if e.id == id {
      OwnMove(l, s, e, id);
      var r := s.requests[id];
      if Next(s, e).requests[id].phase != r.phase {
        FirstOfWay(id, 7 - Rank(r));
      }
    }
  }

  ghost predicate OnTheWay(s: State, s': State, moves: seq<Event>, id: int) {
    IsUndisturbed(s, id) && IsUndisturbed(s', id) && moves + WayFrom(id, s'.requests[id]) == WayFrom(id, s.requests[id])
  }

  lemma {:induction false} OneMoreMove(s: State, mid: State, s': State, moves: seq<Event>, e: Event, id: int)
    requires IsUndisturbed(s, id) && OnTheWay(mid, s', moves, id)
    requires WayFrom(id, s.requests[id]) == [e] + WayFrom(id, mid.requests[id])
    ensures OnTheWay(s, s', [e] + moves, id)
  {
    AppendAssoc([e], moves, WayFrom(id, s'.requests[id]));
  }

  /** A chat that nothing stops goes its whole way: the steps it takes and those still before it are
      all there are, in this order. */
  lemma {:induction false} NothingIsSkipped(l: Limits, s: State, es: seq<Event>, id: int)
    requires CanRun(l, s, es) && IsUndisturbed(s, id) && forall e :: e in es ==> !Stops(e, id)
    ensures OnTheWay(s, Run(l, s, es), Moves(l, s, es, id), id)
    decreases es
  {
    if es == [] {
      assert [] + WayFrom(id, s.requests[id]) == WayFrom(id, s.requests[id]);
    } else {
      var e, s' := es[0], Next(s, es[0]);
      var moves := Moves(l, s', es[1..], id);
      assert e in es && forall x :: x in es[1..] ==> x in es;
      NextOnTheWay(l, s, e, id);
      NothingIsSkipped(l, s', es[1..], id);
      if s'.requests[id].phase != s.requests[id].phase {
        OneMoreMove(s, s', Run(l, s, es), moves, e, id);
      } else {
        assert [] + moves == moves;
      }
    }
  }

  /** From waiting to done it waits for its slot, is submitted, started, has a prompt, waits for a
      generation slot, generates, and gives its slot back. */
  lemma WholeWay(l: Limits, s: State, es: seq<Event>, id: int)
    requires CanRun(l, s, es) && IsUndisturbed(s, id) && forall e :: e in es ==> !Stops(e, id)
    requires s.requests[id].phase == Waiting
    ensures id in Run(l, s, es).requests && (Run(l, s, es).requests[id].phase == Done ==>
              Moves(l, s, es, id) == [Acquires(id), Submits(id, false, true), Starts(id), RetrievalEnds(id, true),
                                      Polls(id, false), GenerationEnds(id), CallbackRuns(id)])
  {
    NothingIsSkipped(l, s, es, id);
  }

  // ---- something can always go on ----

  predicate IsPending(r: Request) {
    r.phase !in {Done, Refused}
  }

  /** A step that is not a timeout, a failure, a new request or a client going away, and that moves a
      request on. */
  predicate IsWork(s: State, e: Event) {
    match e
    case Acquires(_) => true
    case Submits(_, expired, schedules) => !expired && schedules
    case Starts(_) => true
    case RetrievalEnds(_, _) => true
    case Polls(id, expired) => !expired && id in s.requests && (s.requests[id].cancelled || s.genFree > 0)
    case GenerationEnds(_) => true
    case CallbackRuns(_) => true
    case _ => false
  }

  /** What can happen next to a request that is past the waiting rooms. */
  function OwnStep(id: int, r: Request): Event {
    match r.phase
    case Acquired => Submits(id, false, true)
    case Retrieving => RetrievalEnds(id, true)
    case Polling => Polls(id, false)
    case Generating => GenerationEnds(id)
    case _ => CallbackRuns(id)
  }

  lemma GenerationsGoOn(l: Limits, s: State, id: int) returns (e: Event)
    requires Positive(l) && Accounted(l, s)
    requires id in s.requests && s.requests[id].phase == Polling
    ensures Enabled(l, s, e) && IsWork(s, e)
  {
    e := Polls(id, false);
    if s.genFree == 0 {
      var g := SomeCounted(s.requests, IsGenerating);
      e := GenerationEnds(g);
    }
  }

  lemma OwnStepOrGeneration(l: Limits, s: State, id: int) returns (e: Event)
    requires Positive(l) && Accounted(l, s)
    requires id in s.requests && s.requests[id].phase in {Acquired, Retrieving, Polling, Generating, Exited}
    ensures Enabled(l, s, e) && IsWork(s, e)
  {
    if s.requests[id].phase == Polling {
      e := GenerationsGoOn(l, s, id);
    } else {
      e := OwnStep(id, s.requests[id]);
    }
  }

  lemma JobsGoOn(l: Limits, s: State, id: int) returns (e: Event)
    requires Positive(l) && Accounted(l, s)
    requires id in s.requests && IsPending(s.requests[id]) && s.requests[id].phase != Waiting
    ensures Enabled(l, s, e) && IsWork(s, e)
  {
    if s.requests[id].phase != Queued {
      e := OwnStepOrGeneration(l, s, id);
    } else if WorkerFree(l, s) {
      e := Starts(id);
    } else {
      var busy := SomeCounted(s.requests, IsOnWorker);
      e := OwnStepOrGeneration(l, s, busy);
    }
  }

  /** No deadlock: in every reachable state in which a request is not finished, something that is not
      a timeout can happen. Generation slots are only ever taken behind RAG slots and workers. */
  lemma SomethingGoesOn(l: Limits, s: State, id: int) returns (e: Event)
    requires Positive(l) && Accounted(l, s)
    requires id in s.requests && IsPending(s.requests[id])
    ensures Enabled(l, s, e) && IsWork(s, e)
  {
    if s.requests[id].phase != Waiting {
      e := JobsGoOn(l, s, id);
    } else if s.ragFree > 0 {
      e := Acquires(id);
    } else if Count(s.requests, IsUnsubmitted) >= 1 {
      var other := SomeCounted(s.requests, IsUnsubmitted);
      e := JobsGoOn(l, s, other);
    } else {
      var other := SomeCounted(s.requests, IsUnfinished);
      e := JobsGoOn(l, s, other);
    }
  }

  // ---- and it ends ----

  /** How many steps a request is away from its end, at most. */
  function Rank(r: Request): nat {
    match r.phase
    case Waiting => 7
    case Acquired => 6
    case Queued => 5
    case Retrieving => 4
    case Polling => 3
    case Generating => 2
    case Exited => 1
    case _ => 0
  }

  function AtLeast(n: nat): Request -> bool {
    (r: Request) => Rank(r) >= n
  }

  /** The sum of the ranks, each counted up to n. */
  function RankSum(m: Requests, n: nat): nat {
    if n == 0 then 0 else RankSum(m, n - 1) + Count(m, AtLeast(n))
  }

  function UpTo(r: Request, n: nat): nat {
    if Rank(r) <= n then Rank(r) else n
  }

  lemma CountAtLeast(m: Requests, id: int, r: Request, n: nat)
    requires id in m
    ensures Count(m[id := r], AtLeast(n)) == Count(m, AtLeast(n)) - One(Rank(m[id]) >= n) + One(Rank(r) >= n)
  {
    CountUpdate(m, id, r, AtLeast(n));
  }

  lemma {:induction false} RankSumUpdate(m: Requests, id: int, r: Request, n: nat)
    requires id in m
    ensures RankSum(m[id := r], n) + UpTo(m[id], n) == RankSum(m, n) + UpTo(r, n)
  {
    if n > 0 {
      RankSumUpdate(m, id, r, n - 1);
      CountAtLeast(m, id, r, n);
    }
  }

  function Distance(s: State): nat {
    RankSum(s.requests, 7)
  }

  lemma WorkGetsCloser(l: Limits, s: State, e: Event)
    requires Accounted(l, s) && Enabled(l, s, e) && IsWork(s, e)
    ensures Distance(Next(s, e)) < Distance(s)
  {
    RankSumUpdate(s.requests, e.id, NextRequest(s, e), 7);
  }

  predicate AllWork(l: Limits, s: State, es: seq<Event>)
    requires CanRun(l, s, es)
    decreases es
  {
    es == [] || (IsWork(s, es[0]) && AllWork(l, Next(s, es[0]), es[1..]))
  }

  /** No livelock: without timeouts and new requests the system can only take so many steps. */
  lemma {:induction false} WorkIsBounded(l: Limits, s: State, es: seq<Event>)
    requires Accounted(l, s) && CanRun(l, s, es) && AllWork(l, s, es)
    ensures |es| + Distance(Run(l, s, es)) <= Distance(s)
    decreases es
  {
    if es != [] {
      StepKeepsAccounts(l, s, es[0]);
      WorkGetsCloser(l, s, es[0]);
      WorkIsBounded(l, Next(s, es[0]), es[1..]);
    }
  }

  /** Nobody is left: every request is done or refused, and every slot is free again. */
  ghost predicate Drained(l: Limits, s: State) {
    && Count(s.requests, IsPending) == 0
    && s.ragFree == l.rag && s.genFree == l.generation
  }

  lemma NobodyHolds(l: Limits, s: State)
    requires Accounted(l, s) && Count(s.requests, IsPending) == 0
    ensures Drained(l, s)
  {
    forall f | f in {IsUnsubmitted, IsUnfinished, IsGenerating}
      ensures Count(s.requests, f) == 0
    {
      forall id | id in s.requests && f(s.requests[id])
        ensures id in Having(s.requests, IsPending)
      {
        assert Plausible(s.requests[id]);
      }
      assert Having(s.requests, f) == {};
    }
  }

  /** A run of work that stops has served everybody: when no work step can happen, the system is
      drained, and the other way round. */
  lemma StuckIffDrained(l: Limits, s: State)
    requires Positive(l) && Accounted(l, s)
    ensures Drained(l, s) <==> forall e :: Enabled(l, s, e) ==> !IsWork(s, e)
  {
    if Count(s.requests, IsPending) >= 1 {
      var id := SomeCounted(s.requests, IsPending);
      var e := SomethingGoesOn(l, s, id);
    } else {
      NobodyHolds(l, s);
      forall e | Enabled(l, s, e)
        ensures !IsWork(s, e)
      {
        if e.id in s.requests && IsPending(s.requests[e.id]) {
          Counted(s.requests, e.id, IsPending);
        }
      }
    }
  }

  /** From every reachable state all requests can be served, without a timeout. */
  lemma {:induction false} Drains(l: Limits, s: State) returns (es: seq<Event>)
    requires Positive(l) && Accounted(l, s)
    ensures CanRun(l, s, es) && AllWork(l, s, es) && Drained(l, Run(l, s, es))
    decreases Distance(s)
  {
    if Count(s.requests, IsPending) == 0 {
      NobodyHolds(l, s);
      es := [];
    } else {
      var id := SomeCounted(s.requests, IsPending);
      var e := SomethingGoesOn(l, s, id);
      StepKeepsAccounts(l, s, e);
      WorkGetsCloser(l, s, e);
      var rest := Drains(l, Next(s, e));
      es := [e] + rest;
      assert es[1..] == rest;
    }
  }
}
