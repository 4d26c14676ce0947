/** Theorems over every run of index jobs, removals and wipes, with any calls failing. */
module IndexRuns {
  import opened IndexProtocol
  import opened IndexProperties

  // ---- a fingerprint means the content is searchable ----

  function OfVersion(qs: set<Point>, version: nat): set<Point> {
    set q | q in qs && q.version == version
  }

  /** The points of the version are the file's: one for every text, at its index, and no other. */
  ghost predicate Complete(points: set<Point>, path: Path, version: nat, texts: seq<string>) {
    texts != [] && HoldTexts(OfVersion(points, version), path, version, texts)
  }

  ghost predicate Searchable(points: set<Point>, path: Path, content: Content, chunker: Chunker) {
    exists version :: Complete(points, path, version, chunker(path, content))
  }

  ghost predicate Sound(st: Store, chunker: Chunker) {
    Fresh(st) && forall p :: p in st.fp ==> Searchable(st.points, p, st.fp[p].content, chunker)
  }

  lemma CompleteHasPoint(points: set<Point>, path: Path, version: nat, texts: seq<string>) returns (q: Point)
    requires Complete(points, path, version, texts)
    ensures q in OfPath(points, path) && q.version == version
  {
    assert HasIndex(OfVersion(points, version), 0);
    q :| q in OfVersion(points, version) && q.index == 0;
  }

  /** A version is complete as long as its points stay and no point joins them. */
  lemma StaysComplete(points: set<Point>, points': set<Point>, path: Path, version: nat, texts: seq<string>)
    requires Complete(points, path, version, texts)
    requires forall q :: q in points && q.version == version ==> q in points'
    requires forall q :: q in points' && q.version == version ==> q in points
    ensures Complete(points', path, version, texts)
  {
    assert OfVersion(points', version) == OfVersion(points, version);
  }

  /** Where a point of an earlier version is after a job: it was there before, and it is still there if
      it belongs to another path or no point of this path is removed. */
  lemma OldPoint(st: Store, path: Path, view: DiskView, calls: Calls, chunker: Chunker, q: Point)
    requires Fresh(st) && q.version < st.next
    ensures var (st', d) := JobDone(st, path, view, calls, chunker);
            && (q in st'.points ==> q in st.points)
            && (q.path != path || d in {MISSING, UNCHANGED, FAILED} ==> (q in st.points ==> q in st'.points))
  {
    JobEffect(st, path, view, calls, chunker);
    var (st', d) := JobDone(st, path, view, calls, chunker);
    assert q in st'.points <==> q in OfPath(st'.points, q.path);
    assert q in st.points <==> q in OfPath(st.points, q.path);
    if view.Readable? {
      NewPointsAre(path, chunker(path, view.content), st.next, q);
    }
  }

  lemma JobKeepsSearchable(st: Store, path: Path, view: DiskView, calls: Calls, chunker: Chunker, p: Path)
    requires Sound(st, chunker)
    requires p in JobDone(st, path, view, calls, chunker).0.fp
    ensures var st' := JobDone(st, path, view, calls, chunker).0;
            Searchable(st'.points, p, st'.fp[p].content, chunker)
  {
    JobEffect(st, path, view, calls, chunker);
    var (st', d) := JobDone(st, path, view, calls, chunker);
    if p == path && d == INDEXED {
      JobIsComplete(st, path, view.content, calls, chunker);
    } else {
      assert p != path ==> p in st.fp - {path} && (st.fp - {path})[p] == (st'.fp - {path})[p];
      var content := st.fp[p].content;
      var version :| Complete(st.points, p, version, chunker(p, content));
      var _ := CompleteHasPoint(st.points, p, version, chunker(p, content));
      forall q: Point | q.version == version
        ensures q in st.points <==> q in st'.points
      {
        OldPoint(st, path, view, calls, chunker, q);
        assert q in st.points ==> q in OfVersion(st.points, version);
      }
      StaysComplete(st.points, st'.points, p, version, chunker(p, content));
    }
  }

  lemma JobIsComplete(st: Store, path: Path, content: Content, calls: Calls, chunker: Chunker)
    requires Fresh(st) && JobDone(st, path, Readable(content), calls, chunker).1 == INDEXED
    ensures Complete(JobDone(st, path, Readable(content), calls, chunker).0.points, path, st.next,
                     chunker(path, content))
  {
    JobEffect(st, path, Readable(content), calls, chunker);
    var st' := JobDone(st, path, Readable(content), calls, chunker).0;
    forall q
      ensures q in OfVersion(st'.points, st.next) <==> q in OfPath(st'.points, path)
    {
      assert q in st'.points <==> q in OfPath(st'.points, q.path);
      assert q in st.points <==> q in OfPath(st.points, q.path);
    }
    assert OfVersion(st'.points, st.next) == OfPath(st'.points, path);
  }

  lemma NextKeepsSound(st: Store, op: Op, chunker: Chunker)
    requires Sound(st, chunker)
    ensures Sound(Next(st, op, chunker), chunker)
  {
    match op
    case Job(path, view, calls) =>
      JobEffect(st, path, view, calls, chunker);
      var st' := JobDone(st, path, view, calls, chunker).0;
      forall p | p in st'.fp
        ensures Searchable(st'.points, p, st'.fp[p].content, chunker)
      {
        JobKeepsSearchable(st, path, view, calls, chunker, p);
      }
    case Remove(path, succeeds) =>
      RemovalEffect(st, path);
      var st' := Removed(st, path);
      forall p | p in st'.fp
        ensures Searchable(st'.points, p, st'.fp[p].content, chunker)
      {
        var version :| Complete(st.points, p, version, chunker(p, st.fp[p].content));
        assert forall q :: q in st.points && q.version == version ==> q in OfVersion(st.points, version);
        StaysComplete(st.points, st'.points, p, version, chunker(p, st.fp[p].content));
      }
    case Wipe(succeeds) =>
  }

  lemma {:induction false} RunIsSound(ops: seq<Op>, chunker: Chunker)
    ensures Sound(Run(EMPTY, ops, chunker), chunker)
  {
    if ops != [] {
      RunIsSound(ops[..|ops| - 1], chunker);
      NextKeepsSound(Run(EMPTY, ops[..|ops| - 1], chunker), ops[|ops| - 1], chunker);
    }
  }

  /** In every run: the UNCHANGED shortcut is taken only when the current content is fully searchable. */
  lemma UnchangedIsSearchable(ops: seq<Op>, path: Path, view: DiskView, calls: Calls, chunker: Chunker)
    requires JobDone(Run(EMPTY, ops, chunker), path, view, calls, chunker).1 == UNCHANGED
    ensures view.Readable? && Searchable(Run(EMPTY, ops, chunker).points, path, view.content, chunker)
  {
    RunIsSound(ops, chunker);
    JobEffect(Run(EMPTY, ops, chunker), path, view, calls, chunker);
  }

  // ---- without failed cleanups: a plain map from path to content ----

  ghost predicate RefinesAt(st: Store, m: map<Path, Content>, chunker: Chunker, p: Path) {
    if p in m then
      && p in st.fp && st.fp[p] == Sha256(m[p]) && chunker(p, m[p]) != []
      && exists version :: HoldTexts(OfPath(st.points, p), p, version, chunker(p, m[p]))
    else
      p !in st.fp && OfPath(st.points, p) == {}
  }

  /** A fingerprinted path has exactly one version, that of its hash; another path has no points. */
  ghost predicate Refines(st: Store, m: map<Path, Content>, chunker: Chunker) {
    Fresh(st) && forall p :: RefinesAt(st, m, chunker, p)
  }

  /** What an operation means for the map. */
  function Meaning(m: map<Path, Content>, op: Op, chunker: Chunker): map<Path, Content> {
    match op
    case Job(path, view, calls) =>
      if !view.Readable? || !calls.ensure then m
      else if chunker(path, view.content) == [] then (if calls.removal then m - {path} else m)
      else if path in m && m[path] == view.content then m
      else if calls.embed && calls.upsert then m[path := view.content]
      else m
    case Remove(path, succeeds) => if succeeds then m - {path} else m
    case Wipe(succeeds) => if succeeds then map[] else m
  }

  function Meanings(m: map<Path, Content>, ops: seq<Op>, chunker: Chunker): map<Path, Content> {
    if ops == [] then m else Meaning(Meanings(m, ops[..|ops| - 1], chunker), ops[|ops| - 1], chunker)
  }

  ghost predicate CleanupsSucceed(ops: seq<Op>) {
    forall i :: 0 <= i < |ops| ==> (ops[i].Job? ==> ops[i].calls.cleanup)
  }

  lemma JobRefines(st: Store, m: map<Path, Content>, path: Path, view: DiskView, calls: Calls, chunker: Chunker,
                   p: Path)
    requires Refines(st, m, chunker) && calls.cleanup
    ensures RefinesAt(JobDone(st, path, view, calls, chunker).0, Meaning(m, Job(path, view, calls), chunker),
                      chunker, p)
  {
    JobEffect(st, path, view, calls, chunker);
    var (st', d) := JobDone(st, path, view, calls, chunker);
    assert RefinesAt(st, m, chunker, p) && RefinesAt(st, m, chunker, path);
    if p != path {
      assert p in st'.fp - {path} <==> p in st.fp - {path};
      assert p in st.fp ==> (st'.fp - {path})[p] == (st.fp - {path})[p];
      assert OfPath(st'.points, p) == OfPath(st.points, p);
    } else if d == FAILED {
      assert OfPath(st.points, path) + {} == OfPath(st.points, path);
    }
  }

  lemma NextRefines(st: Store, m: map<Path, Content>, op: Op, chunker: Chunker)
    requires Refines(st, m, chunker) && (op.Job? ==> op.calls.cleanup)
    ensures Refines(Next(st, op, chunker), Meaning(m, op, chunker), chunker)
  {
    var st', m' := Next(st, op, chunker), Meaning(m, op, chunker);
    match op
    case Job(path, view, calls) =>
      JobEffect(st, path, view, calls, chunker);
      forall p
        ensures RefinesAt(st', m', chunker, p)
      {
        JobRefines(st, m, path, view, calls, chunker, p);
      }
    case Remove(path, succeeds) =>
      RemovalEffect(st, path);
      forall p
        ensures RefinesAt(st', m', chunker, p)
      {
        assert RefinesAt(st, m, chunker, p);
        if p != path {
          assert OfPath(Removed(st, path).points, p) == OfPath(st.points, p);
        }
      }
    case Wipe(succeeds) =>
      forall p
        ensures RefinesAt(st', m', chunker, p)
      {
        assert RefinesAt(st, m, chunker, p);
      }
  }

  /** In every run without a failed cleanup, points and fingerprints refine a map from path to content. */
  lemma {:induction false} RunRefines(st: Store, m: map<Path, Content>, ops: seq<Op>, chunker: Chunker)
    requires Refines(st, m, chunker) && CleanupsSucceed(ops)
    ensures Refines(Run(st, ops, chunker), Meanings(m, ops, chunker), chunker)
  {
    if ops != [] {
      var before := ops[..|ops| - 1];
      assert forall i :: 0 <= i < |before| ==> before[i] == ops[i];
      RunRefines(st, m, before, chunker);
      NextRefines(Run(st, before, chunker), Meanings(m, before, chunker), ops[|ops| - 1], chunker);
    }
  }

  /** ... in particular from the empty index: a fingerprinted path has exactly one version, and a
      path without a fingerprint has no points. */
  lemma EveryRunRefines(ops: seq<Op>, chunker: Chunker)
    requires CleanupsSucceed(ops)
    ensures Refines(Run(EMPTY, ops, chunker), Meanings(map[], ops, chunker), chunker)
  {
    RunRefines(EMPTY, map[], ops, chunker);
  }

  // ---- how many versions failed cleanups leave behind ----

  function Versions(qs: set<Point>): set<nat> {
    set q | q in qs :: q.version
  }

  /** Failed cleanups of p since its last INDEXED or removal. */
  ghost function Leftovers(ops: seq<Op>, p: Path, chunker: Chunker): nat {
    if ops == [] then 0
    else
      var st, n, op := Run(EMPTY, ops[..|ops| - 1], chunker), Leftovers(ops[..|ops| - 1], p, chunker), ops[|ops| - 1];
      match op
      case Job(path, view, calls) =>
        var d := JobDone(st, path, view, calls, chunker).1;
        if path != p then n
        else if d == INDEXED || (d == SKIPPED && p in st.fp) then 0
        else if CleanupFails(st, path, view, calls, chunker) then n + 1
        else n
      case Remove(path, succeeds) => if path == p && succeeds then 0 else n
      case Wipe(succeeds) => if succeeds then 0 else n
  }

  ghost predicate Counts(st: Store, p: Path, n: nat) {
    |Versions(OfPath(st.points, p))| == (if p in st.fp then 1 else 0) + n
  }

  lemma NewVersions(qs: set<Point>, path: Path, version: nat, texts: seq<string>)
    requires texts != []
    ensures Versions(qs + NewPoints(path, texts, version)) == Versions(qs) + {version}
  {
    var more := NewPoints(path, texts, version);
    NewPointsAre(path, texts, version, NewPoint(path, texts, version, 0));
    assert NewPoint(path, texts, version, 0) in qs + more;
    forall q | q in more
      ensures q.version == version
    {
      NewPointsAre(path, texts, version, q);
    }
  }

  lemma JobCounts(st: Store, p: Path, n: nat, view: DiskView, calls: Calls, chunker: Chunker)
    requires Fresh(st) && Counts(st, p, n)
    ensures var (st', d) := JobDone(st, p, view, calls, chunker);
            Counts(st', p, if d == INDEXED || (d == SKIPPED && p in st.fp) then 0
                           else if CleanupFails(st, p, view, calls, chunker) then n + 1 else n)
  {
    JobEffect(st, p, view, calls, chunker);
    var (st', d) := JobDone(st, p, view, calls, chunker);
    var qs := OfPath(st.points, p);
    if d == INDEXED {
      NewVersions({}, p, st.next, chunker(p, view.content));
      assert {} + NewPoints(p, chunker(p, view.content), st.next) == OfPath(st'.points, p);
    } else if CleanupFails(st, p, view, calls, chunker) {
      NewVersions(qs, p, st.next, chunker(p, view.content));
      assert st.next !in Versions(qs);
    } else if d == FAILED {
      assert qs + {} == qs;
    }
  }

  /** In every run a path has one version if it is fingerprinted, and one more for every failed
      cleanup since it was last indexed or removed. */
  lemma {:induction false} VersionsAreCounted(ops: seq<Op>, p: Path, chunker: Chunker)
    ensures Counts(Run(EMPTY, ops, chunker), p, Leftovers(ops, p, chunker))
  {
    if ops != [] {
      var before, op := ops[..|ops| - 1], ops[|ops| - 1];
      var st := Run(EMPTY, before, chunker);
      VersionsAreCounted(before, p, chunker);
      RunIsSound(before, chunker);
      match op
      case Job(path, view, calls) =>
        JobEffect(st, path, view, calls, chunker);
        if path == p {
          JobCounts(st, p, Leftovers(before, p, chunker), view, calls, chunker);
        } else {
          var st' := JobDone(st, path, view, calls, chunker).0;
          assert p in st'.fp - {path} <==> p in st.fp - {path};
          assert OfPath(st'.points, p) == OfPath(st.points, p);
        }
      case Remove(path, succeeds) =>
        RemovalEffect(st, path);
        if path != p {
          assert OfPath(Removed(st, path).points, p) == OfPath(st.points, p);
        }
      case Wipe(succeeds) =>
        assert succeeds ==> OfPath({}, p) == {};
    } else {
      assert OfPath({}, p) == {};
    }
  }

  lemma FreshRun(st: Store, ops: seq<Op>, chunker: Chunker)
    requires Fresh(st)
    ensures Fresh(Run(st, ops, chunker))
  {
    if ops != [] {
      var op := ops[|ops| - 1];
      FreshRun(st, ops[..|ops| - 1], chunker);
      if op.Job? {
        JobEffect(Run(st, ops[..|ops| - 1], chunker), op.path, op.view, op.calls, chunker);
      }
    }
  }

  /** A run leaves every path alone that none of its operations names. */
  lemma {:induction false} RunTouches(st: Store, ops: seq<Op>, chunker: Chunker, p: Path)
    requires Fresh(st)
    requires forall i :: 0 <= i < |ops| ==> !ops[i].Wipe? && ops[i].path != p
    ensures var st' := Run(st, ops, chunker);
            && OfPath(st'.points, p) == OfPath(st.points, p)
            && (p in st'.fp <==> p in st.fp) && (p in st.fp ==> st'.fp[p] == st.fp[p])
  {
    if ops != [] {
      var before, op := ops[..|ops| - 1], ops[|ops| - 1];
      var mid := Run(st, before, chunker);
      RunTouches(st, before, chunker, p);
      FreshRun(st, before, chunker);
      if op.Job? {
        JobEffect(mid, op.path, op.view, op.calls, chunker);
      } else {
        RemovalEffect(mid, op.path);
      }
      var st' := Next(mid, op, chunker);
      assert SameElsewhere(mid, st', op.path);
      assert p in st'.fp - {op.path} <==> p in mid.fp - {op.path};
      assert p in mid.fp ==> (st'.fp - {op.path})[p] == (mid.fp - {op.path})[p];
    }
  }

  // ---- a delete event inside a running job ----

  /** Where in a job, on the worker thread, the removal by a delete event falls: after the hash was
      compared and before the upsert, and so on. */
  datatype Moment = BeforeUpsert | BeforeCleanup | BeforeRecord | AfterRecord

  /** The job compares hashes, finds a change and has chunks to store. */
  predicate Stores(st: Store, path: Path, content: Content, calls: Calls, chunker: Chunker) {
    && !(path in st.fp && st.fp[path] == Sha256(content))
    && chunker(path, content) != []
    && calls.ensure && calls.embed && calls.upsert
  }

  /** The job gets as far as recording the hash. */
  predicate Records(st: Store, path: Path, content: Content, calls: Calls, chunker: Chunker) {
    Stores(st, path, content, calls, chunker) && calls.cleanup
  }

  /** A job with a removal of the same path at the given moment; a job that ends before that moment
      is followed by the removal. */
  function Interrupted(st: Store, path: Path, content: Content, calls: Calls, chunker: Chunker, moment: Moment): Store {
    if !Stores(st, path, content, calls, chunker) then
      Removed(JobDone(st, path, Readable(content), calls, chunker).0, path)
    else
      var texts := chunker(path, content);
      var st0 := if moment == BeforeUpsert then Removed(st, path) else st;
      var st1 := st0.(points := Upserted(st0.points, NewPoints(path, texts, st.next)), next := st.next + 1 + |texts|);
      var st2 := if moment == BeforeCleanup then Removed(st1, path) else st1;
      if !calls.cleanup then (if moment in {BeforeUpsert, BeforeCleanup} then st2 else Removed(st2, path))
      else
        var st3 := st2.(points := WithoutOthers(st2.points, path, st.next));
        var st4 := if moment == BeforeRecord then Removed(st3, path) else st3;
        var st5 := st4.(fp := st4.fp[path := Sha256(content)]);
        if moment == AfterRecord then Removed(st5, path) else st5
  }

  ghost predicate Torn(moment: Moment) {
    moment == BeforeCleanup || moment == BeforeRecord
  }

  /** Unless it tears a job that records, the removal might as well have come before or after it. */
  lemma AsIfBeforeOrAfter(st: Store, path: Path, content: Content, calls: Calls, chunker: Chunker, moment: Moment)
    requires !(Records(st, path, content, calls, chunker) && Torn(moment))
    ensures var end := Interrupted(st, path, content, calls, chunker, moment);
            || end == Removed(JobDone(st, path, Readable(content), calls, chunker).0, path)
            || end == JobDone(Removed(st, path), path, Readable(content), calls, chunker).0
  {
  }

  lemma NotSearchable(st: Store, path: Path, content: Content, chunker: Chunker)
    requires OfPath(st.points, path) == {} && chunker(path, content) != []
    ensures !Searchable(st.points, path, content, chunker)
  {
    var texts := chunker(path, content);
    forall version: nat
      ensures !Complete(st.points, path, version, texts)
    {
      if Complete(st.points, path, version, texts) {
        var q := CompleteHasPoint(st.points, path, version, texts);
        assert false;
      }
    }
  }

  /** Whatever fails, the fingerprints stay sound exactly unless the job reaches the record of the hash
      and the removal falls between the upsert and that record: there it leaves a fingerprint without
      points. */
  lemma SoundIff(st: Store, path: Path, content: Content, calls: Calls, chunker: Chunker, moment: Moment)
    requires Sound(st, chunker)
    ensures Sound(Interrupted(st, path, content, calls, chunker, moment), chunker)
       <==> !(Records(st, path, content, calls, chunker) && Torn(moment))
  {
    var job := Job(path, Readable(content), calls);
    var end := Interrupted(st, path, content, calls, chunker, moment);
    if Records(st, path, content, calls, chunker) && Torn(moment) {
      assert OfPath(end.points, path) == {};
      assert end.fp[path].content == content;
      NotSearchable(end, path, content, chunker);
    } else {
      AsIfBeforeOrAfter(st, path, content, calls, chunker, moment);
      NextKeepsSound(st, job, chunker);
      NextKeepsSound(Next(st, job, chunker), Remove(path, true), chunker);
      NextKeepsSound(st, Remove(path, true), chunker);
      NextKeepsSound(Removed(st, path), job, chunker);
    }
  }
}
