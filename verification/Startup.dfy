/** ingest/cleanup_stale.py, ingest/purge_ignored.py and the startup of indexer/watcher.py:
    stale cleanup, initial scan, draining the queue. */
module Startup {
  import opened IndexProtocol
  import opened IndexRuns
  import opened FileTree

  /** One configured watch path, whether it exists or not; excluded is never true when no directories
      are excluded. */
  datatype Watch = Watch(root: Path, recursive: bool, prunes: bool, excluded: Path -> bool)

  predicate UnderAnyRoot(p: Path, roots: seq<Path>) {
    exists i :: 0 <= i < |roots| && roots[i] <= p
  }

  predicate Exists(disk: Tree, p: Path) {
    Lookup(disk, p).At?
  }

  datatype Roots = Everywhere | Under(roots: seq<Path>)

  predicate Eligible(p: Path, roots: Roots) {
    roots.Under? ==> UnderAnyRoot(p, roots.roots)
  }

  function RemovedAll(st: Store, ps: set<Path>): Store {
    st.(points := (set q | q in st.points && q.path !in ps), fp := st.fp - ps)
  }

  ghost predicate AreRemovals(ops: seq<Op>, ps: set<Path>) {
    forall i :: 0 <= i < |ops| ==> ops[i].Remove? && ops[i].path in ps
  }

  /** Removing paths one by one is a run, so what holds of every run holds of it. */
  lemma {:induction false} RemovedAllIsARun(st: Store, ps: set<Path>, chunker: Chunker) returns (ops: seq<Op>)
    ensures AreRemovals(ops, ps) && Run(st, ops, chunker) == RemovedAll(st, ps)
    decreases |ps|
  {
    if ps == {} {
      ops := [];
      RemovedNone(st);
    } else {
      var p :| p in ps;
      var before := RemovedAllIsARun(st, ps - {p}, chunker);
      ops := before + [Remove(p, true)];
      assert ops[..|ops| - 1] == before;
      RemovedOneMore(st, ps - {p}, p);
      assert ps - {p} + {p} == ps;
    }
  }

  lemma RemovedOneMore(st: Store, ps: set<Path>, p: Path)
    ensures Removed(RemovedAll(st, ps), p) == RemovedAll(st, ps + {p})
  {
  }

  lemma RemovedNone(st: Store)
    ensures RemovedAll(st, {}) == st
  {
  }

  /** The given paths are removed one by one up to the first failing call. */
  ghost predicate RemovesEach(st: Store, st': Store, paths: set<Path>, succeeds: Path -> bool, removed: nat, ok: bool,
                              done: set<Path>)
  {
    && done <= paths && removed == |done| && (forall p :: p in done ==> succeeds(p))
    && (ok <==> done == paths)
    && (ok <==> forall p :: p in paths ==> succeeds(p))
    && st' == RemovedAll(st, done)
  }

  /** Removes the given tracked paths one by one; stops with an exception at the first failing call. */
  method RemoveEach(index: Index, paths: set<Path>, succeeds: Path -> bool)
    returns (removed: nat, ok: bool, ghost done: set<Path>)
    modifies index
    ensures RemovesEach(old(index.View()), index.View(), paths, succeeds, removed, ok, done)
  {
    var left := paths;
    removed, done := 0, {};
    ghost var st := index.View();
    RemovedNone(st);
    while left != {}
      invariant done <= paths && left == paths - done && removed == |done|
      invariant forall p :: p in done ==> succeeds(p)
      invariant index.View() == RemovedAll(st, done)
      decreases |left|
    {
      var p :| p in left;
      var removal := index.RemoveIndexedDocument(p, succeeds(p));
      if !removal {
        return removed, false, done;
      }
      RemovedOneMore(st, done, p);
      done := done + {p};
      left := left - {p};
      removed := removed + 1;
    }
    return removed, true, done;
  }

  predicate IsStale(disk: Tree, roots: Roots, p: Path) {
    Eligible(p, roots) && !Exists(disk, p)
  }

  /** The tracked paths under the roots that no longer exist. */
  function Stale(fp: map<Path, Hash>, disk: Tree, roots: Roots): set<Path> {
    set p | p in fp && IsStale(disk, roots, p)
  }

  /** p is missing from the disk and, if roots are given, below one of them. */
  ghost predicate Gone(disk: Tree, roots: Roots, p: Path) {
    && Lookup(disk, p) == Missing
    && (roots.Under? ==> exists i :: 0 <= i < |roots.roots| && roots.roots[i] <= p)
  }

  lemma StaleAreGone(fp: map<Path, Hash>, disk: Tree, roots: Roots, p: Path)
    ensures p in Stale(fp, disk, roots) <==> p in fp && Gone(disk, roots, p)
  {
  }

  ghost predicate Untouched(st: Store, st': Store, p: Path) {
    && OfPath(st'.points, p) == OfPath(st.points, p)
    && (p in st'.fp <==> p in st.fp) && (p in st.fp ==> st'.fp[p] == st.fp[p])
  }

  ghost predicate NotIndexed(st: Store, p: Path) {
    p !in st.fp && OfPath(st.points, p) == {}
  }

  lemma RemovedOf(st: Store, ps: set<Path>, p: Path)
    ensures OfPath(RemovedAll(st, ps).points, p) == if p in ps then {} else OfPath(st.points, p)
    ensures p in ps ==> NotIndexed(RemovedAll(st, ps), p)
    ensures p !in ps ==> Untouched(st, RemovedAll(st, ps), p)
  {
  }

  /** The stale paths that are not left to be looked at are removed. */
  ghost predicate CleanedUp(st: Store, st': Store, disk: Tree, roots: Roots, succeeds: Path -> bool,
                            left: set<Path>, done: set<Path>)
  {
    && left <= st.fp.Keys
    && done == Stale(st.fp, disk, roots) - left && st' == RemovedAll(st, done)
    && forall p :: p in done ==> succeeds(p)
  }

  lemma CleanedUpNext(st: Store, st': Store, disk: Tree, roots: Roots, succeeds: Path -> bool,
                      left: set<Path>, done: set<Path>, p: Path)
    requires CleanedUp(st, st', disk, roots, succeeds, left, done) && p in left
    ensures p !in done && (IsStale(disk, roots, p) ==> p in Stale(st.fp, disk, roots))
    ensures !IsStale(disk, roots, p) ==> CleanedUp(st, st', disk, roots, succeeds, left - {p}, done)
    ensures IsStale(disk, roots, p) && succeeds(p) ==>
              CleanedUp(st, Removed(st', p), disk, roots, succeeds, left - {p}, done + {p})
  {
    var stale := Stale(st.fp, disk, roots);
    if IsStale(disk, roots, p) {
      RemovedOneMore(st, done, p);
      assert stale - (left - {p}) == done + {p};
    } else {
      assert stale - (left - {p}) == done;
    }
  }

  /** The loop body: a path outside the roots or still there is skipped; a failing call raises. */
  method CleanupPath(index: Index, disk: Tree, roots: Roots, succeeds: Path -> bool, p: Path,
                     ghost st: Store, ghost left: set<Path>, ghost done: set<Path>)
    returns (removed: bool, ok: bool)
    requires CleanedUp(st, index.View(), disk, roots, succeeds, left, done) && p in left
    modifies index
    ensures p !in done && (removed || !ok ==> p in Stale(st.fp, disk, roots))
    ensures ok ==> CleanedUp(st, index.View(), disk, roots, succeeds, left - {p}, if removed then done + {p} else done)
    ensures !ok ==> !succeeds(p) && index.View() == old(index.View())
  {
    CleanedUpNext(st, index.View(), disk, roots, succeeds, left, done, p);
    if !Eligible(p, roots) {
      return false, true;
    }
    if !Exists(disk, p) {
      ok := index.RemoveIndexedDocument(p, succeeds(p));
      return ok, ok;
    }
    return false, true;
  }

  lemma CleanupFailed(st: Store, st': Store, disk: Tree, roots: Roots, succeeds: Path -> bool,
                      left: set<Path>, done: set<Path>, p: Path)
    requires CleanedUp(st, st', disk, roots, succeeds, left, done)
    requires p in Stale(st.fp, disk, roots) && p !in done && !succeeds(p)
    ensures RemovesEach(st, st', Stale(st.fp, disk, roots), succeeds, |done|, false, done)
  {
  }

  lemma CleanupDone(st: Store, st': Store, disk: Tree, roots: Roots, succeeds: Path -> bool, done: set<Path>)
    requires CleanedUp(st, st', disk, roots, succeeds, {}, done)
    ensures RemovesEach(st, st', Stale(st.fp, disk, roots), succeeds, |done|, true, done)
  {
    assert done == Stale(st.fp, disk, roots);
  }

  /** What a cleanup does to one path. */
  ghost predicate CleanedAt(st: Store, st': Store, disk: Tree, roots: Roots, ok: bool, p: Path) {
    if p in st.fp && Gone(disk, roots, p) then
      if ok then NotIndexed(st', p) else NotIndexed(st', p) || Untouched(st, st', p)
    else
      Untouched(st, st', p)
  }

  lemma CleanupEffect(st: Store, st': Store, disk: Tree, roots: Roots, succeeds: Path -> bool, removed: nat, ok: bool,
                      done: set<Path>, p: Path)
    requires RemovesEach(st, st', Stale(st.fp, disk, roots), succeeds, removed, ok, done)
    ensures CleanedAt(st, st', disk, roots, ok, p)
    ensures ok && p in st.fp && Gone(disk, roots, p) ==> succeeds(p)
  {
    StaleAreGone(st.fp, disk, roots, p);
    RemovedOf(st, done, p);
  }

  lemma CleanupEffects(st: Store, st': Store, disk: Tree, roots: Roots, succeeds: Path -> bool, removed: nat, ok: bool,
                       done: set<Path>)
    requires RemovesEach(st, st', Stale(st.fp, disk, roots), succeeds, removed, ok, done)
    ensures forall p :: CleanedAt(st, st', disk, roots, ok, p)
  {
    forall p
      ensures CleanedAt(st, st', disk, roots, ok, p)
    {
      CleanupEffect(st, st', disk, roots, succeeds, removed, ok, done, p);
    }
  }

  /** Removes the tracked paths that are gone, up to the first failing call, and nothing else. */
  method CleanupStale(index: Index, disk: Tree, roots: Roots, succeeds: Path -> bool)
    returns (removed: nat, ok: bool, ghost done: set<Path>)
    modifies index
    ensures RemovesEach(old(index.View()), index.View(), Stale(old(index.fp), disk, roots), succeeds, removed, ok, done)
    ensures forall p :: CleanedAt(old(index.View()), index.View(), disk, roots, ok, p)
  {
    var paths := index.fp.Keys;
    removed, done := 0, {};
    ghost var st := index.View();
    RemovedNone(st);
    while paths != {}
      invariant removed == |done| && CleanedUp(st, index.View(), disk, roots, succeeds, paths, done)
      decreases |paths|
    {
      var p :| p in paths;
      var gone;
      gone, ok := CleanupPath(index, disk, roots, succeeds, p, st, paths, done);
      if !ok {
        CleanupFailed(st, index.View(), disk, roots, succeeds, paths, done, p);
        CleanupEffects(st, index.View(), disk, roots, succeeds, removed, false, done);
        return removed, false, done;
      }
      paths := paths - {p};
      if gone {
        done := done + {p};
        removed := removed + 1;
      }
    }
    CleanupDone(st, index.View(), disk, roots, succeeds, done);
    CleanupEffects(st, index.View(), disk, roots, succeeds, removed, true, done);
    return removed, true, done;
  }

  /** The tracked paths under the roots that the filters would now ignore. */
  function Ignored(fp: map<Path, Hash>, roots: seq<Path>, indexable: Path -> bool): set<Path> {
    set p | p in fp && UnderAnyRoot(p, roots) && !indexable(p)
  }

  datatype Purge = NoAccessibleRoots | Raised | Purged(count: nat)

  /** The configured roots that exist. */
  function AccessibleRoots(disk: Tree, configured: seq<Path>): (roots: seq<Path>)
    ensures forall r :: r in roots <==> r in configured && Lookup(disk, r).At?
  {
    if configured == [] then []
    else (if Exists(disk, configured[0]) then [configured[0]] else []) + AccessibleRoots(disk, configured[1..])
  }

  /** p is below a configured root that exists, and the filters do not let it pass. */
  ghost predicate NowIgnored(disk: Tree, configured: seq<Path>, indexable: Path -> bool, p: Path) {
    !indexable(p) && exists r :: r in configured && r <= p && Lookup(disk, r).At?
  }

  lemma IgnoredAre(fp: map<Path, Hash>, disk: Tree, configured: seq<Path>, indexable: Path -> bool)
    ensures Ignored(fp, AccessibleRoots(disk, configured), indexable)
         == set p | p in fp && NowIgnored(disk, configured, indexable, p)
  {
    var roots := AccessibleRoots(disk, configured);
    forall p
      ensures UnderAnyRoot(p, roots) <==> exists r :: r in configured && r <= p && Lookup(disk, r).At?
    {
      assert forall i :: 0 <= i < |roots| ==> roots[i] in roots;
    }
  }

  /** Without an accessible root the purge refuses to look at tracked paths. */
  method PurgeIgnored(index: Index, disk: Tree, configured: seq<Path>, indexable: Path -> bool, apply: bool,
                      succeeds: Path -> bool)
    returns (result: Purge, ghost done: set<Path>)
    modifies index
    ensures result.NoAccessibleRoots? <==> forall r :: r in configured ==> Lookup(disk, r) == Missing
    ensures var ignored := set p | p in old(index.fp) && NowIgnored(disk, configured, indexable, p);
            && (result.Raised? <==> !result.NoAccessibleRoots? && apply && exists p :: p in ignored && !succeeds(p))
            && (result.Purged? ==> result.count == |ignored|)
            && (result.Purged? && apply ==> done == ignored)
            && done <= ignored && (!apply ==> done == {})
    ensures forall p :: p in done ==> succeeds(p)
    ensures index.View() == RemovedAll(old(index.View()), done)
  {
    done := {};
    RemovedNone(index.View());
    IgnoredAre(index.fp, disk, configured, indexable);
    var roots := AccessibleRoots(disk, configured);
    if roots == [] {
      assert forall r :: r in roots <==> r in configured && Lookup(disk, r).At?;
      return NoAccessibleRoots, {};
    }
    assert roots[0] in roots;
    var ignored := Ignored(index.fp, roots, indexable);
    if apply {
      var removed, ok;
      removed, ok, done := RemoveEach(index, ignored, succeeds);
      if !ok {
        return Raised, done;
      }
    }
    return Purged(|ignored|), done;
  }

  // ---- the initial scan ----

  /** A file the watch covers: below its root, within its depth, and not behind an excluded directory. */
  ghost predicate Scanned(disk: Tree, w: Watch, p: Path) {
    && w.root < p && IsFile(disk, p)
    && if w.recursive
       then w.prunes ==> forall k :: |w.root| < k < |p| ==> !w.excluded(p[..k])
       else |p| == |w.root| + 1
  }

  function Entries(disk: Tree, dir: Path): seq<Entry> {
    match Lookup(disk, dir)
    case At(Dir(es)) => es
    case _ => []
  }

  /** The files one watch path enqueues. */
  function ScanOf(disk: Tree, w: Watch): seq<Path> {
    if !w.recursive then FilesOf(w.root, Entries(disk, w.root))
    else if !w.prunes then FilesBelow(w.root, Entries(disk, w.root))
    else FilesOfAll(disk, [w.root] + SchedulableBelow(w.root, Entries(disk, w.root), w.excluded))
  }

  function FilesOfAll(disk: Tree, dirs: seq<Path>): seq<Path> {
    if dirs == [] then [] else FilesOf(dirs[0], Entries(disk, dirs[0])) + FilesOfAll(disk, dirs[1..])
  }

  lemma {:induction false} InFilesOfAll(disk: Tree, dirs: seq<Path>, p: Path)
    ensures p in FilesOfAll(disk, dirs) <==> exists d :: d in dirs && p in FilesOf(d, Entries(disk, d))
  {
    if dirs != [] {
      InFilesOfAll(disk, dirs[1..], p);
      assert dirs == [dirs[0]] + dirs[1..];
    }
  }

  /** p is a file directly in directory d. */
  lemma FilesOfDir(disk: Tree, d: Path, p: Path)
    requires WellNamed(disk)
    ensures p in FilesOf(d, Entries(disk, d)) <==> |p| == |d| + 1 && d < p && IsFile(disk, p)
  {
    var es := Entries(disk, d);
    if |p| == |d| + 1 && p[..|d|] == d {
      var name := [p[|d|]];
      assert p == d + name;
      if IsFile(disk, p) {
        LookupPrefix(disk, d, name);
      }
      if IsDirAt(disk, d) {
        LookupAppend(disk, d, name);
      }
    }
    if IsDirAt(disk, d) {
      WellNamedBelow(disk, d);
      FilesOfAre(d, es, p);
    }
  }

  ghost predicate Reached(disk: Tree, w: Watch, d: Path) {
    w.root <= d && IsDirAt(disk, d) && forall k :: |w.root| < k <= |d| ==> !w.excluded(d[..k])
  }

  lemma ScheduledAreReached(disk: Tree, w: Watch, d: Path)
    requires WellNamed(disk) && IsDirAt(disk, w.root)
    requires d in SchedulableBelow(w.root, Entries(disk, w.root), w.excluded)
    ensures Reached(disk, w, d)
  {
    WellNamedBelow(disk, w.root);
    var names := BelowSound(w.root, Entries(disk, w.root), w.excluded, d);
    LookupAppend(disk, w.root, names);
    ClearAbsolute(w.root, names, w.excluded);
  }

  lemma ReachedAreScheduled(disk: Tree, w: Watch, d: Path)
    requires WellNamed(disk) && IsDirAt(disk, w.root) && Reached(disk, w, d) && d != w.root
    ensures d in SchedulableBelow(w.root, Entries(disk, w.root), w.excluded)
  {
    var names := d[|w.root|..];
    assert d == w.root + names;
    LookupAppend(disk, w.root, names);
    ClearAbsolute(w.root, names, w.excluded);
    BelowComplete(w.root, Entries(disk, w.root), w.excluded, names);
  }

  lemma ScheduledDirs(disk: Tree, w: Watch, d: Path)
    requires WellNamed(disk) && IsDirAt(disk, w.root)
    ensures d in [w.root] + SchedulableBelow(w.root, Entries(disk, w.root), w.excluded) <==> Reached(disk, w, d)
  {
    if d in SchedulableBelow(w.root, Entries(disk, w.root), w.excluded) {
      ScheduledAreReached(disk, w, d);
    } else if Reached(disk, w, d) && d != w.root {
      ReachedAreScheduled(disk, w, d);
    }
  }

  lemma ClearAbsolute(root: Path, names: Path, excluded: Path -> bool)
    ensures Clear(root, names, excluded, |names|)
       <==> forall k :: |root| < k <= |root + names| ==> !excluded((root + names)[..k])
  {
    var d := root + names;
    forall k | 0 < k <= |names|
      ensures d[..|root| + k] == root + names[..k]
    {
    }
    if Clear(root, names, excluded, |names|) {
      forall k | |root| < k <= |d|
        ensures !excluded(d[..k])
      {
        assert d[..|root| + (k - |root|)] == root + names[..k - |root|];
      }
    }
    if forall k :: |root| < k <= |d| ==> !excluded(d[..k]) {
      forall k | 0 < k <= |names|
        ensures !excluded(root + names[..k])
      {
        assert d[..|root| + k] == root + names[..k];
      }
    }
  }

  lemma ScanPrunedSound(disk: Tree, w: Watch, d: Path, p: Path)
    requires WellNamed(disk) && IsDirAt(disk, w.root) && w.recursive && w.prunes
    requires d in [w.root] + SchedulableBelow(w.root, Entries(disk, w.root), w.excluded)
    requires p in FilesOf(d, Entries(disk, d))
    ensures Scanned(disk, w, p)
  {
    ScheduledDirs(disk, w, d);
    FilesOfDir(disk, d, p);
    forall k | |w.root| < k < |p|
      ensures !w.excluded(p[..k])
    {
      assert p[..k] == d[..k];
    }
  }

  lemma ScanPrunedComplete(disk: Tree, w: Watch, p: Path) returns (d: Path)
    requires WellNamed(disk) && IsDirAt(disk, w.root) && w.recursive && w.prunes && Scanned(disk, w, p)
    ensures d in [w.root] + SchedulableBelow(w.root, Entries(disk, w.root), w.excluded)
    ensures p in FilesOf(d, Entries(disk, d))
  {
    d := p[..|p| - 1];
    assert p == d + [p[|p| - 1]];
    LookupPrefix(disk, d, [p[|p| - 1]]);
    forall k | |w.root| < k <= |d|
      ensures !w.excluded(d[..k])
    {
      assert d[..k] == p[..k];
    }
    ScheduledDirs(disk, w, d);
    FilesOfDir(disk, d, p);
  }

  lemma ScanPruned(disk: Tree, w: Watch, p: Path)
    requires WellNamed(disk) && IsDirAt(disk, w.root) && w.recursive && w.prunes
    ensures p in ScanOf(disk, w) <==> Scanned(disk, w, p)
  {
    var dirs := [w.root] + SchedulableBelow(w.root, Entries(disk, w.root), w.excluded);
    InFilesOfAll(disk, dirs, p);
    if p in ScanOf(disk, w) {
      var d :| d in dirs && p in FilesOf(d, Entries(disk, d));
      ScanPrunedSound(disk, w, d, p);
    }
    if Scanned(disk, w, p) {
      var d := ScanPrunedComplete(disk, w, p);
    }
  }

  lemma ScanAll(disk: Tree, w: Watch, p: Path)
    requires WellNamed(disk) && w.recursive && !w.prunes
    ensures p in ScanOf(disk, w) <==> Scanned(disk, w, p)
  {
    var es := Entries(disk, w.root);
    if IsDirAt(disk, w.root) {
      WellNamedBelow(disk, w.root);
      if p in ScanOf(disk, w) {
        var names := FilesBelowSound(w.root, es, p);
        LookupAppend(disk, w.root, names);
      }
      if Scanned(disk, w, p) {
        var names := p[|w.root|..];
        assert p == w.root + names;
        LookupAppend(disk, w.root, names);
        FilesBelowComplete(w.root, es, names);
      }
    } else {
      NothingBelow(disk, w.root, p);
    }
  }

  lemma NothingBelow(disk: Tree, root: Path, p: Path)
    requires !IsDirAt(disk, root)
    ensures !(root < p && IsFile(disk, p))
  {
    if root < p && IsFile(disk, p) {
      assert p == root + p[|root|..];
      LookupPrefix(disk, root, p[|root|..]);
    }
  }

  /** Pruning walks the root, so that has to be a directory; any other root may be a file. */
  predicate CanScan(disk: Tree, w: Watch) {
    w.recursive && w.prunes ==> Lookup(disk, w.root).At? && Lookup(disk, w.root).tree.Dir?
  }

  /** The scan of a watch finds exactly the files it covers. */
  lemma ScanIsExact(disk: Tree, w: Watch, p: Path)
    requires WellNamed(disk) && CanScan(disk, w)
    ensures p in ScanOf(disk, w) <==> Scanned(disk, w, p)
  {
    if !w.recursive {
      FilesOfDir(disk, w.root, p);
    } else if w.prunes {
      ScanPruned(disk, w, p);
    } else {
      ScanAll(disk, w, p);
    }
  }

  /** p is enqueued by the initial scan: some watch covers it and it passes the filters. */
  ghost predicate ToIndex(disk: Tree, watches: seq<Watch>, indexable: Path -> bool, p: Path) {
    indexable(p) && exists i :: 0 <= i < |watches| && Scanned(disk, watches[i], p)
  }

  predicate CanScanAll(disk: Tree, watches: seq<Watch>) {
    forall i :: 0 <= i < |watches| ==> CanScan(disk, watches[i])
  }

  /** The files that pass the filters, in order. */
  function Filtered(files: seq<Path>, indexable: Path -> bool): seq<Path> {
    if files == [] then []
    else
      var f := files[|files| - 1];
      Filtered(files[..|files| - 1], indexable) + if indexable(f) then [f] else []
  }

  lemma {:induction false} FilteredAre(files: seq<Path>, indexable: Path -> bool, p: Path)
    ensures p in Filtered(files, indexable) <==> p in files && indexable(p)
  {
    if files != [] {
      FilteredAre(files[..|files| - 1], indexable, p);
      assert files == files[..|files| - 1] + [files[|files| - 1]];
    }
  }

  /** What the initial scan queues: the files of one watch path after the other. */
  function ScanQueue(disk: Tree, watches: seq<Watch>, indexable: Path -> bool): seq<Path> {
    if watches == [] then []
    else
      ScanQueue(disk, watches[..|watches| - 1], indexable) + Filtered(ScanOf(disk, watches[|watches| - 1]), indexable)
  }

  lemma {:induction false} QueueIsExact(disk: Tree, watches: seq<Watch>, indexable: Path -> bool, p: Path)
    requires WellNamed(disk) && CanScanAll(disk, watches)
    ensures p in ScanQueue(disk, watches, indexable) <==> ToIndex(disk, watches, indexable, p)
  {
    if watches != [] {
      var front, w := watches[..|watches| - 1], watches[|watches| - 1];
      QueueIsExact(disk, front, indexable, p);
      ScanIsExact(disk, w, p);
      FilteredAre(ScanOf(disk, w), indexable, p);
      if ToIndex(disk, front, indexable, p) {
        var i :| 0 <= i < |front| && Scanned(disk, front[i], p);
        assert Scanned(disk, watches[i], p);
      }
      if ToIndex(disk, watches, indexable, p) {
        var i :| 0 <= i < |watches| && Scanned(disk, watches[i], p);
        assert i < |front| ==> Scanned(disk, front[i], p);
      }
    }
  }

  /** `enqueue` every file of one watch. */
  method EnqueueAll(files: seq<Path>, indexable: Path -> bool, before: seq<Path>) returns (queue: seq<Path>)
    ensures queue == before + Filtered(files, indexable)
  {
    queue := before;
    for i := 0 to |files|
      invariant queue == before + Filtered(files[..i], indexable)
    {
      assert files[..i + 1][..i] == files[..i];
      if indexable(files[i]) {
        queue := queue + [files[i]];
      }
    }
    assert files[..|files|] == files;
  }

  method InitialScan(disk: Tree, watches: seq<Watch>, indexable: Path -> bool) returns (queue: seq<Path>)
    requires WellNamed(disk) && CanScanAll(disk, watches)
    ensures queue == ScanQueue(disk, watches, indexable)
    ensures forall p :: p in queue <==> ToIndex(disk, watches, indexable, p)
  {
    queue := [];
    for n := 0 to |watches|
      invariant queue == ScanQueue(disk, watches[..n], indexable)
    {
      assert watches[..n + 1][..n] == watches[..n];
      queue := EnqueueAll(ScanOf(disk, watches[n]), indexable, queue);
    }
    assert watches[..|watches|] == watches;
    forall p
      ensures p in queue <==> ToIndex(disk, watches, indexable, p)
    {
      QueueIsExact(disk, watches, indexable, p);
    }
  }

  // ---- draining the queue ----

  const ALL_SUCCEED := Calls(true, true, true, true, true)

  /** The jobs of a queue; calls says which calls of job i succeed. */
  function JobsOf(queue: seq<Path>, disk: Tree, calls: nat -> Calls): (ops: seq<Op>)
    ensures |ops| == |queue|
    ensures forall i :: 0 <= i < |queue| ==> ops[i] == Job(queue[i], ViewOf(disk, queue[i]), calls(i))
  {
    seq(|queue|, i requires 0 <= i < |queue| => Job(queue[i], ViewOf(disk, queue[i]), calls(i)))
  }

  /** The worker's loop: a failing job does not stop it. */
  method Drain(index: Index, queue: seq<Path>, disk: Tree, calls: nat -> Calls)
    modifies index
    ensures index.View() == Run(old(index.View()), JobsOf(queue, disk, calls), index.chunker)
  {
    for i := 0 to |queue|
      invariant index.View() == Run(old(index.View()), JobsOf(queue, disk, calls)[..i], index.chunker)
    {
      ghost var ops := JobsOf(queue, disk, calls);
      assert ops[..i + 1][..i] == ops[..i] && ops[..i + 1][i] == ops[i];
      var _ := index.IndexIfChanged(queue[i], ViewOf(disk, queue[i]), calls(i));
    }
    assert JobsOf(queue, disk, calls)[..|queue|] == JobsOf(queue, disk, calls);
  }

  predicate AllSucceed(calls: nat -> Calls, n: nat) {
    forall i :: 0 <= i < n ==> calls(i) == ALL_SUCCEED
  }

  function ContentOf(disk: Tree, p: Path): Content {
    match ViewOf(disk, p)
    case Readable(content) => content
    case _ => ""
  }

  /** A queued file's entry is its current content, if that has chunks; another entry is as before. */
  ghost predicate CurrentAt(m: map<Path, Content>, m': map<Path, Content>, queue: seq<Path>, disk: Tree,
                            chunker: Chunker, p: Path)
  {
    if p in queue then
      if chunker(p, ContentOf(disk, p)) == [] then p !in m' else p in m' && m'[p] == ContentOf(disk, p)
    else
      (p in m' <==> p in m) && (p in m ==> m'[p] == m[p])
  }

  lemma CurrentNext(m: map<Path, Content>, m': map<Path, Content>, queue: seq<Path>, disk: Tree, chunker: Chunker,
                    q: Path, p: Path)
    requires IsFile(disk, q) && CurrentAt(m, m', queue, disk, chunker, p)
    ensures CurrentAt(m, Meaning(m', Job(q, ViewOf(disk, q), ALL_SUCCEED), chunker), queue + [q], disk, chunker, p)
  {
    assert p in queue + [q] <==> p in queue || p == q;
  }

  lemma {:induction false} MeaningOfJobs(m: map<Path, Content>, queue: seq<Path>, disk: Tree, calls: nat -> Calls,
                                         chunker: Chunker, p: Path)
    requires AllSucceed(calls, |queue|) && forall q :: q in queue ==> IsFile(disk, q)
    ensures CurrentAt(m, Meanings(m, JobsOf(queue, disk, calls), chunker), queue, disk, chunker, p)
  {
    if queue != [] {
      var n := |queue| - 1;
      var before := queue[..n];
      assert forall q :: q in before ==> q in queue;
      MeaningOfJobs(m, before, disk, calls, chunker, p);
      assert JobsOf(queue, disk, calls)[..n] == JobsOf(before, disk, calls);
      assert queue == before + [queue[n]];
      assert queue[n] in queue;
      CurrentNext(m, Meanings(m, JobsOf(before, disk, calls), chunker), before, disk, chunker, queue[n], p);
    }
  }

  lemma RemovalRefines(st: Store, m: map<Path, Content>, ps: set<Path>, chunker: Chunker)
    requires Refines(st, m, chunker)
    ensures Refines(RemovedAll(st, ps), m - ps, chunker)
  {
    forall p
      ensures RefinesAt(RemovedAll(st, ps), m - ps, chunker, p)
    {
      assert RefinesAt(st, m, chunker, p);
      RemovedOf(st, ps, p);
    }
  }

  // ---- startup ----

  function RootsOf(watches: seq<Watch>): (roots: seq<Path>)
    ensures |roots| == |watches|
    ensures forall i :: 0 <= i < |watches| ==> roots[i] == watches[i].root
  {
    seq(|watches|, i requires 0 <= i < |watches| => watches[i].root)
  }

  /** p is missing from the disk, and some configured watch path above it exists. */
  ghost predicate GoneBelow(disk: Tree, configured: seq<Watch>, p: Path) {
    Lookup(disk, p) == Missing && exists w :: w in configured && w.root <= p && Lookup(disk, w.root).At?
  }

  /** What startup makes of one path. */
  ghost predicate SyncedAt(st: Store, st': Store, disk: Tree, configured: seq<Watch>, indexable: Path -> bool,
                           chunker: Chunker, p: Path)
  {
    if ToIndex(disk, configured, indexable, p) then
      // exactly its current chunks, or nothing if it is skipped
      var content := ContentOf(disk, p);
      if chunker(p, content) == [] then NotIndexed(st', p)
      else
        && p in st'.fp && st'.fp[p] == Sha256(content)
        && exists version :: HoldTexts(OfPath(st'.points, p), p, version, chunker(p, content))
    else if p in st.fp && GoneBelow(disk, configured, p) then
      // gone from disk
      NotIndexed(st', p)
    else
      Untouched(st, st', p)
  }

  lemma StartupSyncs(st: Store, m: map<Path, Content>, disk: Tree, configured: seq<Watch>, indexable: Path -> bool,
                     chunker: Chunker, queue: seq<Path>, calls: nat -> Calls, p: Path)
    requires Refines(st, m, chunker) && AllSucceed(calls, |queue|)
    requires forall q :: q in queue <==> ToIndex(disk, configured, indexable, q)
    ensures var st1 := RemovedAll(st, Stale(st.fp, disk, Under(RootsOf(Accessible(disk, configured)))));
            SyncedAt(st, Run(st1, JobsOf(queue, disk, calls), chunker), disk, configured, indexable, chunker, p)
  {
    var roots := RootsOf(Accessible(disk, configured));
    var stale := Stale(st.fp, disk, Under(roots));
    var st1, m1, ops := RemovedAll(st, stale), m - stale, JobsOf(queue, disk, calls);
    var st2, m2 := Run(st1, ops, chunker), Meanings(m1, ops, chunker);
    RemovalRefines(st, m, stale, chunker);
    RunRefines(st1, m1, ops, chunker);
    MeaningOfJobs(m1, queue, disk, calls, chunker, p);
    assert RefinesAt(st2, m2, chunker, p) && RefinesAt(st1, m1, chunker, p);
    if p !in queue {
      RunTouches(st1, ops, chunker, p);
      RemovedOf(st, stale, p);
      StaleAreGone(st.fp, disk, Under(roots), p);
      GoneIsBelow(disk, configured, p);
    }
  }

  /** The configured watch paths that exist. */
  function Accessible(disk: Tree, configured: seq<Watch>): seq<Watch> {
    if configured == [] then []
    else
      var w := configured[|configured| - 1];
      Accessible(disk, configured[..|configured| - 1]) + if Exists(disk, w.root) then [w] else []
  }

  lemma {:induction false} AccessibleAre(disk: Tree, configured: seq<Watch>, w: Watch)
    ensures w in Accessible(disk, configured) <==> w in configured && Lookup(disk, w.root).At?
  {
    if configured != [] {
      AccessibleAre(disk, configured[..|configured| - 1], w);
      assert configured == configured[..|configured| - 1] + [configured[|configured| - 1]];
    }
  }

  /** `_iter_watch_paths`: a watch path that is missing, say because its mount is unavailable, is skipped. */
  method IterWatchPaths(disk: Tree, configured: seq<Watch>) returns (watches: seq<Watch>)
    ensures watches == Accessible(disk, configured)
  {
    watches := [];
    for i := 0 to |configured|
      invariant watches == Accessible(disk, configured[..i])
    {
      assert configured[..i + 1][..i] == configured[..i];
      if !Exists(disk, configured[i].root) {
        continue;
      }
      watches := watches + [configured[i]];
    }
    assert configured[..|configured|] == configured;
  }

  /** Every configured watch path that covers p is missing. */
  ghost predicate Unavailable(disk: Tree, configured: seq<Watch>, p: Path) {
    forall w :: w in configured && w.root <= p ==> Lookup(disk, w.root) == Missing
  }

  ghost predicate Below(watches: seq<Watch>, p: Path) {
    exists i :: 0 <= i < |watches| && watches[i].root <= p
  }

  lemma UnavailableIsOutside(disk: Tree, configured: seq<Watch>, p: Path)
    ensures Unavailable(disk, configured, p) <==> !Below(Accessible(disk, configured), p)
  {
    var watches := Accessible(disk, configured);
    forall w
      ensures w in watches <==> w in configured && Lookup(disk, w.root).At?
    {
      AccessibleAre(disk, configured, w);
    }
    forall i | 0 <= i < |watches| && Unavailable(disk, configured, p)
      ensures !(watches[i].root <= p)
    {
      assert watches[i] in watches && watches[i] in configured;
    }
    if !Unavailable(disk, configured, p) {
      var w :| w in configured && w.root <= p && Lookup(disk, w.root).At?;
      assert w in watches;
      var i :| 0 <= i < |watches| && watches[i] == w;
      assert Below(watches, p);
    }
  }

  lemma GoneIsBelow(disk: Tree, configured: seq<Watch>, p: Path)
    ensures Gone(disk, Under(RootsOf(Accessible(disk, configured))), p) <==> GoneBelow(disk, configured, p)
  {
    UnavailableIsOutside(disk, configured, p);
  }

  /** A file to index has an existing watch path above it. */
  lemma AccessibleIsEnough(disk: Tree, configured: seq<Watch>, indexable: Path -> bool, p: Path)
    ensures ToIndex(disk, Accessible(disk, configured), indexable, p) <==> ToIndex(disk, configured, indexable, p)
  {
    var watches := Accessible(disk, configured);
    if ToIndex(disk, watches, indexable, p) {
      var i :| 0 <= i < |watches| && Scanned(disk, watches[i], p);
      AccessibleAre(disk, configured, watches[i]);
      var j :| 0 <= j < |configured| && configured[j] == watches[i];
    }
    if ToIndex(disk, configured, indexable, p) {
      var i :| 0 <= i < |configured| && Scanned(disk, configured[i], p);
      var w := configured[i];
      assert p == w.root + p[|w.root|..];
      LookupPrefix(disk, w.root, p[|w.root|..]);
      AccessibleAre(disk, configured, w);
      var j :| 0 <= j < |watches| && watches[j] == w;
    }
  }

  lemma UnavailableIsUntouched(st: Store, st': Store, disk: Tree, configured: seq<Watch>, indexable: Path -> bool,
                               chunker: Chunker, p: Path)
    requires SyncedAt(st, st', disk, configured, indexable, chunker, p) && Unavailable(disk, configured, p)
    ensures Untouched(st, st', p)
  {
    if ToIndex(disk, configured, indexable, p) {
      AccessibleIsEnough(disk, configured, indexable, p);
      UnavailableIsOutside(disk, configured, p);
      assert false;
    }
  }

  /** Startup with disk fixed and no failing call, from a state that refines some map: every file to
      index has as its points exactly its current chunks, every tracked path that is gone below an
      existing watch path is removed, and nothing else changes: nothing that exists and is not to be
      indexed, and nothing below watch paths that are all missing, nor outside them. */
  method Startup(index: Index, disk: Tree, configured: seq<Watch>, indexable: Path -> bool,
                 ghost m: map<Path, Content>)
    requires WellNamed(disk) && CanScanAll(disk, Accessible(disk, configured))
    requires Refines(index.View(), m, index.chunker)
    modifies index
    ensures forall p :: SyncedAt(old(index.View()), index.View(), disk, configured, indexable, index.chunker, p)
    ensures forall p :: Unavailable(disk, configured, p) ==> Untouched(old(index.View()), index.View(), p)
  {
    ghost var st := index.View();
    var watches := IterWatchPaths(disk, configured);
    var _, _, _ := CleanupStale(index, disk, Under(RootsOf(watches)), _ => true);
    var queue := InitialScan(disk, watches, indexable);
    var calls := (i: nat) => ALL_SUCCEED;
    Drain(index, queue, disk, calls);
    forall p
      ensures p in queue <==> ToIndex(disk, configured, indexable, p)
    {
      AccessibleIsEnough(disk, configured, indexable, p);
    }
    forall p
      ensures SyncedAt(st, index.View(), disk, configured, indexable, index.chunker, p)
      ensures Unavailable(disk, configured, p) ==> Untouched(st, index.View(), p)
    {
      StartupSyncs(st, m, disk, configured, indexable, index.chunker, queue, calls, p);
      if Unavailable(disk, configured, p) {
        UnavailableIsUntouched(st, index.View(), disk, configured, indexable, index.chunker, p);
      }
    }
  }

  // ---- delete events ----

  /** `_broken_mount_for`: some required mount above the path is an empty directory. */
  predicate BrokenMount(disk: Tree, mounts: seq<Path>, p: Path) {
    exists i :: 0 <= i < |mounts| && mounts[i] <= p && Lookup(disk, mounts[i]) == At(Dir([]))
  }

  /** A delete event removes its file's entry, unless the whole mount seems to be gone. */
  method OnDeleted(index: Index, disk: Tree, mounts: seq<Path>, p: Path, isDirectory: bool, indexable: Path -> bool,
                   succeeds: bool)
    modifies index
    ensures index.View() == Next(old(index.View()),
                                 Remove(p, succeeds && !isDirectory && indexable(p) && !BrokenMount(disk, mounts, p)),
                                 index.chunker)
    ensures (exists m :: m in mounts && m <= p && Lookup(disk, m) == At(Dir([]))) ==> index.View() == old(index.View())
    ensures (forall m :: m in mounts && m <= p ==> Lookup(disk, m) != At(Dir([]))) ==>
              (succeeds && !isDirectory && indexable(p) ==> NotIndexed(index.View(), p))
  {
    if isDirectory || !indexable(p) {
      return;
    }
    for i := 0 to |mounts|
      invariant forall j :: 0 <= j < i ==> !(mounts[j] <= p && Lookup(disk, mounts[j]) == At(Dir([])))
    {
      if mounts[i] <= p && Lookup(disk, mounts[i]) == At(Dir([])) {
        return;
      }
    }
    var _ := index.RemoveIndexedDocument(p, succeeds);
  }
}
