/** A file tree and the walks of indexer/watcher.py over it. */
module FileTree {
  import opened IndexProtocol

  datatype Tree = File(content: Content) | Dir(entries: seq<Entry>)

  datatype Entry = Entry(name: string, tree: Tree)

  datatype Found = Missing | At(tree: Tree)

  /** Names are distinct within every directory. */
  predicate WellNamed(tree: Tree) {
    tree.File? || WellNamedEntries(tree.entries)
  }

  predicate WellNamedEntries(es: seq<Entry>) {
    es == [] ||
    (WellNamed(es[0].tree) && (forall e :: e in es[1..] ==> e.name != es[0].name) && WellNamedEntries(es[1..]))
  }

  function Child(es: seq<Entry>, name: string): Found {
    if es == [] then Missing else if es[0].name == name then At(es[0].tree) else Child(es[1..], name)
  }

  function Lookup(tree: Tree, path: Path): Found
    decreases |path|
  {
    if path == [] then At(tree)
    else if tree.File? then Missing
    else
      match Child(tree.entries, path[0])
      case Missing => Missing
      case At(child) => Lookup(child, path[1..])
  }

  /** What a job sees of a path: opening a directory fails. */
  function ViewOf(disk: Tree, path: Path): DiskView {
    match Lookup(disk, path)
    case Missing => Absent
    case At(File(content)) => Readable(content)
    case At(Dir(_)) => Unreadable
  }

  predicate IsFile(disk: Tree, path: Path) {
    ViewOf(disk, path).Readable?
  }

  // ---- the walks ----

  /** `_iter_schedulable_dirs`: the directory and every subdirectory that is not excluded. */
  function SchedulableDirs(path: Path, tree: Tree, excluded: Path -> bool): seq<Path>
    requires tree.Dir?
    decreases tree
  {
    [path] + SchedulableBelow(path, tree.entries, excluded)
  }

  function SchedulableBelow(path: Path, es: seq<Entry>, excluded: Path -> bool): seq<Path>
    decreases es
  {
    if es == [] then []
    else
      var child := path + [es[0].name];
      (if es[0].tree.Dir? && !excluded(child) then SchedulableDirs(child, es[0].tree, excluded) else [])
      + SchedulableBelow(path, es[1..], excluded)
  }

  /** The files directly in a directory: `glob("*")` and `is_file`. */
  function FilesOf(path: Path, es: seq<Entry>): seq<Path> {
    if es == [] then []
    else (if es[0].tree.File? then [path + [es[0].name]] else []) + FilesOf(path, es[1..])
  }

  /** The files at any depth: the recursive glob and `is_file`. */
  function FilesBelow(path: Path, es: seq<Entry>): seq<Path>
    decreases es
  {
    if es == [] then []
    else
      (match es[0].tree
       case File(_) => [path + [es[0].name]]
       case Dir(below) => FilesBelow(path + [es[0].name], below))
      + FilesBelow(path, es[1..])
  }

  // ---- what the walks reach ----

  ghost predicate IsDirAt(tree: Tree, names: Path) {
    Lookup(tree, names).At? && Lookup(tree, names).tree.Dir?
  }

  ghost predicate IsFileAt(tree: Tree, names: Path) {
    Lookup(tree, names).At? && Lookup(tree, names).tree.File?
  }

  /** No excluded directory on the way from path to path + names, up to the given length. */
  ghost predicate Clear(path: Path, names: Path, excluded: Path -> bool, upTo: nat)
    requires upTo <= |names|
  {
    forall k :: 0 < k <= upTo ==> !excluded(path + names[..k])
  }

  lemma {:induction false} ChildIsEntry(es: seq<Entry>, name: string)
    requires Child(es, name).At?
    ensures exists e :: e in es && e.name == name
  {
    if es[0].name == name {
      assert es[0] in es;
    } else {
      ChildIsEntry(es[1..], name);
      var e :| e in es[1..] && e.name == name;
      assert e in es;
    }
  }

  lemma LookupHead(es: seq<Entry>, names: Path)
    requires names != [] && es != [] && es[0].name == names[0]
    ensures Lookup(Dir(es), names) == Lookup(es[0].tree, names[1..])
  {
  }

  lemma LookupInTail(es: seq<Entry>, names: Path)
    requires names != [] && es != [] && WellNamedEntries(es) && Lookup(Dir(es[1..]), names).At?
    ensures es[0].name != names[0] && Lookup(Dir(es), names) == Lookup(Dir(es[1..]), names)
  {
    ChildIsEntry(es[1..], names[0]);
  }

  lemma ClearCons(path: Path, name: string, names: Path, excluded: Path -> bool, upTo: nat)
    requires upTo <= |names|
    ensures Clear(path, [name] + names, excluded, upTo + 1)
       <==> !excluded(path + [name]) && Clear(path + [name], names, excluded, upTo)
  {
    var all := [name] + names;
    assert all[..1] == [name];
    forall k | 0 < k <= upTo
      ensures path + all[..k + 1] == path + [name] + names[..k]
    {
    }
    if Clear(path, all, excluded, upTo + 1) {
      forall k | 0 < k <= upTo
        ensures !excluded(path + [name] + names[..k])
      {
        assert !excluded(path + all[..k + 1]);
      }
    }
    if !excluded(path + [name]) && Clear(path + [name], names, excluded, upTo) {
      forall k | 0 < k <= upTo + 1
        ensures !excluded(path + all[..k])
      {
        if k > 1 {
          assert !excluded(path + [name] + names[..k - 1]);
        }
      }
    }
  }

  lemma ThroughFirst(path: Path, es: seq<Entry>, excluded: Path -> bool, rest: Path)
    requires es != [] && !excluded(path + [es[0].name]) && IsDirAt(es[0].tree, rest)
    requires Clear(path + [es[0].name], rest, excluded, |rest|)
    ensures var names := [es[0].name] + rest;
            && path + names == path + [es[0].name] + rest
            && IsDirAt(Dir(es), names) && Clear(path, names, excluded, |names|)
  {
    var names := [es[0].name] + rest;
    assert names[1..] == rest;
    LookupHead(es, names);
    ClearCons(path, es[0].name, rest, excluded, |rest|);
  }

  /** A scheduled directory is reached through directories that are not excluded ... */
  lemma {:induction false} BelowSound(path: Path, es: seq<Entry>, excluded: Path -> bool, d: Path) returns (names: Path)
    requires WellNamedEntries(es) && d in SchedulableBelow(path, es, excluded)
    ensures names != [] && d == path + names && IsDirAt(Dir(es), names) && Clear(path, names, excluded, |names|)
    decreases es
  {
    var entry, child := es[0], path + [es[0].name];
    if entry.tree.Dir? && !excluded(child) && d in SchedulableDirs(child, entry.tree, excluded) {
      var rest: Path := [];
      if d != child {
        rest := BelowSound(child, entry.tree.entries, excluded, d);
      }
      ThroughFirst(path, es, excluded, rest);
      names := [entry.name] + rest;
    } else {
      names := BelowSound(path, es[1..], excluded, d);
      LookupInTail(es, names);
    }
  }

  /** ... and every such directory is scheduled. */
  lemma {:induction false} BelowComplete(path: Path, es: seq<Entry>, excluded: Path -> bool, names: Path)
    requires names != [] && IsDirAt(Dir(es), names) && Clear(path, names, excluded, |names|)
    ensures path + names in SchedulableBelow(path, es, excluded)
    decreases es
  {
    var entry, child, rest := es[0], path + [es[0].name], names[1..];
    if entry.name == names[0] {
      assert names == [entry.name] + rest;
      LookupHead(es, names);
      ClearCons(path, entry.name, rest, excluded, |rest|);
      assert path + names == child + rest;
      if rest == [] {
        assert child + rest == child;
        assert child in SchedulableDirs(child, entry.tree, excluded);
      } else {
        BelowComplete(child, entry.tree.entries, excluded, rest);
      }
    } else {
      BelowComplete(path, es[1..], excluded, names);
    }
  }

  lemma {:induction false} FilesOfAre(path: Path, es: seq<Entry>, p: Path)
    requires WellNamedEntries(es)
    ensures p in FilesOf(path, es)
       <==> |p| == |path| + 1 && p[..|path|] == path && IsFileAt(Dir(es), [p[|path|]])
  {
    if es != [] {
      FilesOfAre(path, es[1..], p);
      if |p| == |path| + 1 && p[..|path|] == path {
        var name := [p[|path|]];
        assert p == path + name && name[1..] == [];
        if es[0].name == name[0] {
          LookupHead(es, name);
        }
        if IsFileAt(Dir(es[1..]), [p[|path|]]) {
          LookupInTail(es, [p[|path|]]);
        }
      }
    }
  }

  lemma {:induction false} FilesBelowSound(path: Path, es: seq<Entry>, p: Path) returns (names: Path)
    requires WellNamedEntries(es) && p in FilesBelow(path, es)
    ensures names != [] && p == path + names && IsFileAt(Dir(es), names)
    decreases es
  {
    var entry, child := es[0], path + [es[0].name];
    if entry.tree.Dir? && p in FilesBelow(child, entry.tree.entries) {
      var rest := FilesBelowSound(child, entry.tree.entries, p);
      names := [entry.name] + rest;
      assert names[1..] == rest && path + names == child + rest;
      LookupHead(es, names);
    } else if entry.tree.File? && p == child {
      names := [entry.name];
      LookupHead(es, names);
    } else {
      names := FilesBelowSound(path, es[1..], p);
      LookupInTail(es, names);
    }
  }

  lemma {:induction false} FilesBelowComplete(path: Path, es: seq<Entry>, names: Path)
    requires names != [] && IsFileAt(Dir(es), names)
    ensures path + names in FilesBelow(path, es)
    decreases es
  {
    var entry, child, rest := es[0], path + [es[0].name], names[1..];
    if entry.name == names[0] {
      LookupHead(es, names);
      assert path + names == child + rest;
      if entry.tree.Dir? {
        FilesBelowComplete(child, entry.tree.entries, rest);
      } else {
        assert rest == [] && child + rest == child;
      }
    } else {
      FilesBelowComplete(path, es[1..], names);
    }
  }

  lemma {:induction false} LookupAppend(tree: Tree, a: Path, b: Path)
    requires Lookup(tree, a).At?
    ensures Lookup(tree, a + b) == Lookup(Lookup(tree, a).tree, b)
    decreases |a|
  {
    if a == [] {
      assert a + b == b;
    } else {
      assert (a + b)[1..] == a[1..] + b;
      LookupAppend(Child(tree.entries, a[0]).tree, a[1..], b);
    }
  }

  lemma {:induction false} LookupPrefix(tree: Tree, a: Path, b: Path)
    requires Lookup(tree, a + b).At?
    ensures Lookup(tree, a).At? && (b != [] ==> Lookup(tree, a).tree.Dir?)
    decreases |a|
  {
    if a == [] {
      assert a + b == b;
    } else {
      assert (a + b)[1..] == a[1..] + b;
      LookupPrefix(Child(tree.entries, a[0]).tree, a[1..], b);
    }
  }

  lemma {:induction false} WellNamedBelow(tree: Tree, path: Path)
    requires WellNamed(tree) && Lookup(tree, path).At?
    ensures WellNamed(Lookup(tree, path).tree)
    decreases |path|
  {
    if path != [] {
      WellNamedChild(tree.entries, path[0]);
      WellNamedBelow(Child(tree.entries, path[0]).tree, path[1..]);
    }
  }

  lemma {:induction false} WellNamedChild(es: seq<Entry>, name: string)
    requires WellNamedEntries(es) && Child(es, name).At?
    ensures WellNamed(Child(es, name).tree)
  {
    if es[0].name != name {
      WellNamedChild(es[1..], name);
    }
  }
}
