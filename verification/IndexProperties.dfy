/** What the incremental index keeps over every run. */
module IndexProperties {
  import opened IndexProtocol

  // ---- one job ----

  /** Identifiers handed out so far are below `next`. */
  ghost predicate Fresh(st: Store) {
    forall q :: q in st.points ==> q.version < st.next && q.id < st.next
  }

  lemma UpsertAddsAll(st: Store, path: Path, texts: seq<string>)
    requires Fresh(st)
    ensures Upserted(st.points, NewPoints(path, texts, st.next)) == st.points + NewPoints(path, texts, st.next)
  {
    var more := NewPoints(path, texts, st.next);
    forall q, r | q in st.points && r in more
      ensures r.id != q.id
    {
      NewPointsAre(path, texts, st.next, r);
    }
  }

  /** The path's points are those before and one new version, and no other path is touched. */
  ghost predicate AddsVersion(st: Store, points: set<Point>, path: Path, texts: seq<string>) {
    && OfPath(points, path) == OfPath(st.points, path) + NewPoints(path, texts, st.next)
    && forall p :: p != path ==> OfPath(points, p) == OfPath(st.points, p)
  }

  lemma UpsertAdds(st: Store, path: Path, texts: seq<string>)
    requires Fresh(st)
    ensures AddsVersion(st, Upserted(st.points, NewPoints(path, texts, st.next)), path, texts)
  {
    UpsertAddsAll(st, path, texts);
    var more := NewPoints(path, texts, st.next);
    forall q | q in more
      ensures q.path == path
    {
      NewPointsAre(path, texts, st.next, q);
    }
    forall p | p != path
      ensures OfPath(st.points + more, p) == OfPath(st.points, p)
    {
    }
  }

  lemma CleanupLeavesNew(st: Store, path: Path, texts: seq<string>)
    requires Fresh(st)
    ensures var points := WithoutOthers(Upserted(st.points, NewPoints(path, texts, st.next)), path, st.next);
            && OfPath(points, path) == NewPoints(path, texts, st.next)
            && forall p :: p != path ==> OfPath(points, p) == OfPath(st.points, p)
  {
    UpsertAddsAll(st, path, texts);
    var more := NewPoints(path, texts, st.next);
    var points := WithoutOthers(st.points + more, path, st.next);
    forall q | q in more
      ensures q.path == path && q.version == st.next
    {
      NewPointsAre(path, texts, st.next, q);
    }
    forall p | p != path
      ensures OfPath(points, p) == OfPath(st.points, p)
    {
    }
  }

  lemma StaysFresh(st: Store, path: Path, texts: seq<string>)
    requires Fresh(st)
    ensures forall q :: q in Upserted(st.points, NewPoints(path, texts, st.next)) ==>
              q.version < st.next + 1 + |texts| && q.id < st.next + 1 + |texts|
  {
    forall q | q in NewPoints(path, texts, st.next)
      ensures q.version < st.next + 1 + |texts| && q.id < st.next + 1 + |texts|
    {
      NewPointsAre(path, texts, st.next, q);
    }
  }

  ghost predicate SameElsewhere(st: Store, st': Store, path: Path) {
    && (forall p :: p != path ==> OfPath(st'.points, p) == OfPath(st.points, p))
    && st'.fp - {path} == st.fp - {path}
  }

  /** The new version is stored and the stale ones could not be deleted. */
  ghost predicate CleanupFails(st: Store, path: Path, view: DiskView, calls: Calls, chunker: Chunker) {
    && view.Readable? && !(path in st.fp && st.fp[path] == Sha256(view.content))
    && chunker(path, view.content) != []
    && calls.ensure && calls.embed && calls.upsert && !calls.cleanup
  }

  /** From any state: INDEXED leaves exactly the current content's points; FAILED removes nothing and
      leaves the fingerprints alone; no outcome touches another path. */
  lemma JobEffect(st: Store, path: Path, view: DiskView, calls: Calls, chunker: Chunker)
    requires Fresh(st)
    ensures var (st', d) := JobDone(st, path, view, calls, chunker);
            && Fresh(st') && st.next <= st'.next && SameElsewhere(st, st', path)
            && match d
               case MISSING => st' == st && view.Absent?
               case UNCHANGED => st' == st && view.Readable? && path in st.fp && st.fp[path] == Sha256(view.content)
               case INDEXED =>
                 && view.Readable? && chunker(path, view.content) != []
                 && OfPath(st'.points, path) == NewPoints(path, chunker(path, view.content), st.next)
                 && HoldTexts(OfPath(st'.points, path), path, st.next, chunker(path, view.content))
                 && path in st'.fp && st'.fp[path] == Sha256(view.content)
               case SKIPPED =>
                 && view.Readable? && chunker(path, view.content) == [] && path !in st'.fp
                 && OfPath(st'.points, path) == if path in st.fp then {} else OfPath(st.points, path)
               case FAILED =>
                 && st'.fp == st.fp
                 && OfPath(st'.points, path) == OfPath(st.points, path) +
                      (if CleanupFails(st, path, view, calls, chunker)
                       then NewPoints(path, chunker(path, view.content), st.next) else {})
  {
    if view.Readable? {
      var texts := chunker(path, view.content);
      UpsertAdds(st, path, texts);
      CleanupLeavesNew(st, path, texts);
      StaysFresh(st, path, texts);
      RemovalEffect(st, path);
      NewPointsHold(path, texts, st.next);
    }
  }

  /** Which decision a job comes to. */
  lemma JobDecides(st: Store, path: Path, view: DiskView, calls: Calls, chunker: Chunker)
    ensures var d := JobDone(st, path, view, calls, chunker).1;
            && (d == MISSING <==> view.Absent?)
            && (d == UNCHANGED <==> view.Readable? && path in st.fp && st.fp[path].content == view.content)
            && (d == INDEXED <==>
                  && view.Readable? && !(path in st.fp && st.fp[path].content == view.content)
                  && chunker(path, view.content) != []
                  && calls.ensure && calls.embed && calls.upsert && calls.cleanup)
            && (d == SKIPPED <==>
                  && view.Readable? && !(path in st.fp && st.fp[path].content == view.content)
                  && chunker(path, view.content) == []
                  && calls.ensure && (path in st.fp ==> calls.removal))
  {
  }

  lemma RemovalEffect(st: Store, path: Path)
    ensures OfPath(Removed(st, path).points, path) == {} && path !in Removed(st, path).fp
    ensures SameElsewhere(st, Removed(st, path), path)
    ensures Fresh(st) ==> Fresh(Removed(st, path))
  {
    forall p | p != path
      ensures OfPath(WithoutPath(st.points, path), p) == OfPath(st.points, p)
    {
    }
  }
}
