/** The incremental index: ingest/index_documents.py, indexer/watcher.py and
    indexer/fingerprint_store.py over a vector store and a table of fingerprints. Reading,
    embedding and the store's calls are inputs that succeed or fail without effect. */
module IndexProtocol {

  /** A canonical path, part by part. */
  type Path = seq<string>

  type Content = string

  /** The texts indexed for a file; none if it is skipped (too large, undecodable, blank). */
  type Chunker = (Path, Content) -> seq<string>

  /** A collision-free hash. */
  datatype Hash = Sha256(content: Content)

  datatype Point = Point(id: nat, path: Path, version: nat, index: nat, total: nat, text: string)

  /** `next` is where fresh identifiers come from. */
  datatype Store = Store(points: set<Point>, fp: map<Path, Hash>, next: nat)

  datatype DiskView = Absent | Unreadable | Readable(content: Content)

  datatype Decision = MISSING | UNCHANGED | INDEXED | SKIPPED | FAILED

  /** Which of a job's calls succeed. */
  datatype Calls = Calls(ensure: bool, embed: bool, upsert: bool, cleanup: bool, removal: bool)

  const EMPTY := Store({}, map[], 0)

  // ---- the store's calls ----

  /** Point i of a version: its identifiers are fresh, its index counts from 0. */
  function NewPoint(path: Path, texts: seq<string>, version: nat, i: nat): Point
    requires i < |texts|
  {
    Point(version + 1 + i, path, version, i, |texts|, texts[i])
  }

  function NewPoints(path: Path, texts: seq<string>, version: nat): set<Point> {
    set i | 0 <= i < |texts| :: NewPoint(path, texts, version, i)
  }

  lemma NewPointsAre(path: Path, texts: seq<string>, version: nat, q: Point)
    ensures q in NewPoints(path, texts, version)
       <==> q.index < |texts| && q == NewPoint(path, texts, version, q.index)
  {
    if q.index < |texts| && q == NewPoint(path, texts, version, q.index) {
      assert NewPoint(path, texts, version, q.index) in NewPoints(path, texts, version);
    }
  }

  /** The point carries one of the texts, at its index. */
  ghost predicate HoldsOne(q: Point, path: Path, version: nat, texts: seq<string>) {
    && q.path == path && q.version == version
    && q.index < |texts| && q.total == |texts| && q.text == texts[q.index]
  }

  ghost predicate HasIndex(qs: set<Point>, i: nat) {
    exists q :: q in qs && q.index == i
  }

  /** The points carry the texts: for every index there is exactly one, with that text, and there is no
      other point. */
  ghost predicate HoldTexts(qs: set<Point>, path: Path, version: nat, texts: seq<string>) {
    && (forall q :: q in qs ==> HoldsOne(q, path, version, texts))
    && (forall i :: 0 <= i < |texts| ==> HasIndex(qs, i))
    && (forall q, r :: q in qs && r in qs && (q.index == r.index || q.id == r.id) ==> q == r)
  }

  lemma NewPointsHold(path: Path, texts: seq<string>, version: nat)
    ensures HoldTexts(NewPoints(path, texts, version), path, version, texts)
  {
    var qs := NewPoints(path, texts, version);
    forall q | q in qs
      ensures q.index < |texts| && q == NewPoint(path, texts, version, q.index)
    {
      NewPointsAre(path, texts, version, q);
    }
    forall i | 0 <= i < |texts|
      ensures HasIndex(qs, i)
    {
      assert NewPoint(path, texts, version, i) in qs;
    }
  }

  function OfPath(points: set<Point>, path: Path): set<Point> {
    set q | q in points && q.path == path
  }

  /** Points with the same id are replaced. */
  function Upserted(points: set<Point>, more: set<Point>): set<Point> {
    (set q | q in points && forall r :: r in more ==> r.id != q.id) + more
  }

  function WithoutOthers(points: set<Point>, path: Path, version: nat): set<Point> {
    set q | q in points && (q.path != path || q.version == version)
  }

  function WithoutPath(points: set<Point>, path: Path): set<Point> {
    set q | q in points && q.path != path
  }

  // ---- the operations, on values ----

  function Removed(st: Store, path: Path): Store {
    st.(points := WithoutPath(st.points, path), fp := st.fp - {path})
  }

  function IndexedFile(st: Store, path: Path, content: Content, calls: Calls, chunker: Chunker): (Store, Decision) {
    var texts := chunker(path, content);
    if !calls.ensure then (st, FAILED)
    else if texts == [] then (st, SKIPPED)
    else if !calls.embed then (st, FAILED)
    else
      var named := st.(next := st.next + 1 + |texts|);
      var points := Upserted(st.points, NewPoints(path, texts, st.next));
      if !calls.upsert then (named, FAILED)
      else if !calls.cleanup then (named.(points := points), FAILED)
      else (named.(points := WithoutOthers(points, path, st.next)), INDEXED)
  }

  function JobDone(st: Store, path: Path, view: DiskView, calls: Calls, chunker: Chunker): (Store, Decision) {
    match view
    case Absent => (st, MISSING)
    case Unreadable => (st, FAILED)
    case Readable(content) =>
      if path in st.fp && st.fp[path] == Sha256(content) then (st, UNCHANGED)
      else
        var (st', outcome) := IndexedFile(st, path, content, calls, chunker);
        match outcome
        case INDEXED => (st'.(fp := st'.fp[path := Sha256(content)]), INDEXED)
        case SKIPPED =>
          if path !in st.fp then (st', SKIPPED)
          else if calls.removal then (Removed(st', path), SKIPPED)
          else (st', FAILED)
        case _ => (st', FAILED)
  }

  // ---- the same operations, step by step ----

  class Index {
    var points: set<Point>
    var fp: map<Path, Hash>
    var next: nat
    const chunker: Chunker

    ghost function View(): Store
      reads this
    {
      Store(points, fp, next)
    }

    constructor (chunker: Chunker)
      ensures View() == EMPTY && this.chunker == chunker
    {
      points, fp, next := {}, map[], 0;
      this.chunker := chunker;
    }

    method UpsertChunks(path: Path, texts: seq<string>, calls: Calls) returns (outcome: Decision)
      modifies this`points, this`next
      ensures next == old(next) + 1 + |texts|
      ensures var all := Upserted(old(points), NewPoints(path, texts, old(next)));
              if !calls.upsert then points == old(points) && outcome == FAILED
              else if !calls.cleanup then points == all && outcome == FAILED
              else points == WithoutOthers(all, path, old(next)) && outcome == INDEXED
      ensures outcome == INDEXED && (forall q :: q in old(points) ==> q.version != old(next)) ==>
                HoldTexts(OfPath(points, path), path, old(next), texts)
    {
      NewPointsHold(path, texts, next);
      var version := next;
      next := next + 1 + |texts|;
      if !calls.upsert {
        return FAILED;
      }
      points := Upserted(points, NewPoints(path, texts, version));
      if !calls.cleanup {
        return FAILED;
      }
      points := WithoutOthers(points, path, version);
      assert (forall q :: q in old(points) ==> q.version != version) ==>
          OfPath(points, path) == NewPoints(path, texts, version);
      return INDEXED;
    }

    method IndexFile(path: Path, content: Content, calls: Calls) returns (outcome: Decision)
      modifies this`points, this`next
      ensures (View(), outcome) == IndexedFile(old(View()), path, content, calls, chunker)
    {
      if !calls.ensure {
        return FAILED;
      }
      var texts := chunker(path, content);
      if texts == [] {
        return SKIPPED;
      }
      if !calls.embed {
        return FAILED;
      }
      outcome := UpsertChunks(path, texts, calls);
    }

    /** False if the delete call failed; then nothing changes. */
    method RemoveIndexedDocument(path: Path, succeeds: bool) returns (ok: bool)
      modifies this`points, this`fp
      ensures ok == succeeds
      ensures View() == if succeeds then Removed(old(View()), path) else old(View())
    {
      if !succeeds {
        return false;
      }
      points := WithoutPath(points, path);
      fp := fp - {path};
      return true;
    }

    method IndexIfChanged(path: Path, view: DiskView, calls: Calls) returns (decision: Decision)
      modifies this
      ensures (View(), decision) == JobDone(old(View()), path, view, calls, chunker)
    {
      if view.Absent? {
        return MISSING;
      }
      if view.Unreadable? {
        return FAILED;
      }
      var hash := Sha256(view.content);
      if path in fp && fp[path] == hash {
        return UNCHANGED;
      }
      var outcome := IndexFile(path, view.content, calls);
      if outcome == INDEXED {
        fp := fp[path := hash];
        return INDEXED;
      }
      if outcome == SKIPPED {
        if path in fp {
          var ok := RemoveIndexedDocument(path, calls.removal);
          if !ok {
            return FAILED;
          }
        }
        return SKIPPED;
      }
      return FAILED;
    }

    /** Drops the collection, then the fingerprints. */
    method Reset(succeeds: bool)
      modifies this
      ensures View() == Next(old(View()), Wipe(succeeds), chunker)
    {
      if succeeds {
        points := {};
        fp := map[];
      }
    }
  }

  // ---- runs ----

  /** Removals are those of delete events, of the stale cleanup and of the purge. */
  datatype Op =
    | Job(path: Path, view: DiskView, calls: Calls)
    | Remove(path: Path, succeeds: bool)
    | Wipe(succeeds: bool)

  function Next(st: Store, op: Op, chunker: Chunker): Store {
    match op
    case Job(path, view, calls) => JobDone(st, path, view, calls, chunker).0
    case Remove(path, succeeds) => if succeeds then Removed(st, path) else st
    case Wipe(succeeds) => if succeeds then st.(points := {}, fp := map[]) else st
  }

  function Run(st: Store, ops: seq<Op>, chunker: Chunker): Store {
    if ops == [] then st else Next(Run(st, ops[..|ops| - 1], chunker), ops[|ops| - 1], chunker)
  }
}
