/** The whitespace of `chunk_text`: a chunk is a slice of the text, in which runs of blanks and newlines
    may be shorter but never appear or disappear, and a short tidy text is its own only chunk. */
module TextSlices {
  import opened Text
  import opened Packing
  import opened TextChunker
  import opened TextProperties

  // ---- texts up to the length of their whitespace ----

  /** A character in front of a squeezed text. */
  function Put(c: char, t: string): (r: string)
    ensures r != "" && |r| <= |t| + 1 && (r[0] == ' ' <==> IsBlankOrNewline(c))
  {
    if !IsBlankOrNewline(c) then [c] + t else if t != "" && t[0] == ' ' then t else " " + t
  }

  /** Every run of blanks and newlines becomes one blank. */
  function Squeezed(s: string): (t: string)
    ensures |t| <= |s| && (s != "" ==> t != "")
  {
    if s == "" then "" else Put(s[0], Squeezed(s[1..]))
  }

  /** Two squeezed texts, one after the other. */
  ghost function Glue(a: string, b: string): string {
    if a != "" && b != "" && a[|a| - 1] == b[0] == ' ' then a + b[1..] else a + b
  }

  lemma GlueCons(c: char, a: string, b: string)
    requires a != "" || c != ' '
    ensures Glue([c] + a, b) == [c] + Glue(a, b)
  {
    assert a != "" ==> ([c] + a)[|a|] == a[|a| - 1];
    AppendAssoc([c], a, b);
    if b != "" {
      AppendAssoc([c], a, b[1..]);
    }
  }

  lemma PutGlue(c: char, a: string, b: string)
    ensures Put(c, Glue(a, b)) == Glue(Put(c, a), b)
  {
    if !IsBlankOrNewline(c) {
      GlueCons(c, a, b);
    } else if a == "" {
      assert Glue(a, b) == b;
    } else if a[0] != ' ' {
      GlueCons(' ', a, b);
    }
  }

  lemma {:induction false} SqueezedAppend(a: string, b: string)
    ensures Squeezed(a + b) == Glue(Squeezed(a), Squeezed(b))
  {
    if a == "" {
      assert a + b == b;
    } else {
      assert (a + b)[1..] == a[1..] + b && (a + b)[0] == a[0];
      SqueezedAppend(a[1..], b);
      PutGlue(a[0], Squeezed(a[1..]), Squeezed(b));
    }
  }

  lemma SqueezedSame(a: string, a': string, b: string, b': string)
    requires Squeezed(a) == Squeezed(a') && Squeezed(b) == Squeezed(b')
    ensures Squeezed(a + b) == Squeezed(a' + b')
  {
    SqueezedAppend(a, b);
    SqueezedAppend(a', b');
  }

  lemma {:induction false} SqueezedBlank(s: string)
    requires s != "" && forall c :: c in s ==> IsBlankOrNewline(c)
    ensures Squeezed(s) == " "
  {
    if |s| > 1 {
      SqueezedBlank(s[1..]);
    }
  }

  /** A doubled separator is as good as one. */
  lemma OneIsEnough(sep: string, x: string)
    requires IsBlankSeparator(sep)
    ensures Squeezed(sep + (sep + x)) == Squeezed(sep + x)
  {
    SqueezedBlank(sep + sep);
    SqueezedBlank(sep);
    SqueezedSame(sep + sep, sep, x, x);
    AppendAssoc(sep, sep, x);
  }

  // ---- slices ----

  /** c is text[a..b], except that its runs of blanks and newlines may be shorter. */
  ghost predicate IsSliceAt(text: string, c: string, a: nat, b: nat) {
    a <= b <= |text| && Squeezed(c) == Squeezed(text[a..b]) && |c| <= b - a
  }

  ghost predicate IsSlice(text: string, c: string) {
    exists a: nat, b: nat :: IsSliceAt(text, c, a, b)
  }

  ghost predicate AreSlices(text: string, cs: seq<string>) {
    forall c :: c in cs ==> IsSlice(text, c)
  }

  lemma SliceTwice<T>(text: seq<T>, x: nat, y: nat, a: nat, b: nat)
    requires x <= y <= |text| && a <= b <= y - x
    ensures text[x..y][a..b] == text[x + a..x + b]
  {
    var s, t := text[x..y][a..b], text[x + a..x + b];
    forall i | 0 <= i < b - a
      ensures s[i] == t[i]
    {
      assert s[i] == text[x..y][a + i] == text[x + a + i];
    }
  }

  lemma SliceOfSlice(text: string, x: nat, y: nat, c: string)
    requires x <= y <= |text| && IsSlice(text[x..y], c)
    ensures IsSlice(text, c)
  {
    var a: nat, b: nat :| IsSliceAt(text[x..y], c, a, b);
    SliceTwice(text, x, y, a, b);
    assert IsSliceAt(text, c, x + a, x + b);
  }

  ghost predicate StandsAt(text: string, part: string, a: nat) {
    a + |part| <= |text| && text[a..a + |part|] == part
  }

  lemma {:induction false} SlicesOfSlice(text: string, part: string, a: nat, cs: seq<string>)
    requires StandsAt(text, part, a) && AreSlices(part, cs)
    ensures AreSlices(text, cs)
  {
    forall c | c in cs
      ensures IsSlice(text, c)
    {
      SliceOfSlice(text, a, a + |part|, c);
    }
  }

  /** The first hi non-empty pieces, joined, are a prefix of all pieces joined, behind a separator. */
  ghost predicate IsPrefixAt(ps: seq<string>, sep: string, hi: nat, b: nat)
    requires hi <= |NonEmpty(ps)|
  {
    && |Join(NonEmpty(ps)[..hi], sep)| <= b <= |Join(ps, sep)|
    && Squeezed(sep + Join(NonEmpty(ps)[..hi], sep)) == Squeezed(sep + Join(ps, sep)[..b])
  }

  lemma PrefixAfterEmpty(later: seq<string>, sep: string, hi: nat, b: nat)
    requires IsBlankSeparator(sep) && 1 <= hi <= |NonEmpty(later)| && IsPrefixAt(later, sep, hi, b)
    ensures NonEmpty([""] + later) == NonEmpty(later) && IsPrefixAt([""] + later, sep, hi, |sep| + b)
  {
    assert ([""] + later)[1..] == later;
    PrefixOfCons("", later, sep, b);
    assert "" + sep + Join(later, sep)[..b] == sep + Join(later, sep)[..b];
    OneIsEnough(sep, Join(later, sep)[..b]);
  }

  lemma {:induction false} PrefixAfterPiece(p: string, later: seq<string>, sep: string, hi: nat, b: nat)
    requires p != "" && 1 <= hi <= |NonEmpty(later)| && IsPrefixAt(later, sep, hi, b)
    ensures NonEmpty([p] + later) == [p] + NonEmpty(later)
    ensures IsPrefixAt([p] + later, sep, hi + 1, |p| + |sep| + b)
  {
    var kept := NonEmpty(later);
    assert ([p] + later)[1..] == later;
    assert ([p] + kept)[..hi + 1] == [p] + kept[..hi];
    JoinCons(p, kept[..hi], sep);
    PrefixOfCons(p, later, sep, b);
    var x, y := Join(kept[..hi], sep), Join(later, sep)[..b];
    SqueezedSame(sep + p, sep + p, sep + x, sep + y);
    FourParts(sep, p, x);
    FourParts(sep, p, y);
  }

  lemma FourParts(sep: string, p: string, x: string)
    ensures sep + (p + sep + x) == (sep + p) + (sep + x)
  {
  }

  lemma PrefixOfOne(p: string, later: seq<string>, sep: string)
    requires p != ""
    ensures |NonEmpty([p] + later)| >= 1 && IsPrefixAt([p] + later, sep, 1, |p|)
  {
    var ps := [p] + later;
    JoinStarts(ps, sep);
    assert NonEmpty(ps)[..1] == [p] && Join([p], sep) == p && Join(ps, sep)[..|p|] == p;
  }

  lemma {:induction false} PrefixIsSlice(ps: seq<string>, sep: string, hi: nat) returns (b: nat)
    requires IsBlankSeparator(sep) && 1 <= hi <= |NonEmpty(ps)|
    ensures IsPrefixAt(ps, sep, hi, b)
  {
    var p, later := ps[0], ps[1..];
    assert ps == [p] + later;
    if p == "" {
      b := PrefixIsSlice(later, sep, hi);
      PrefixAfterEmpty(later, sep, hi, b);
      b := |sep| + b;
    } else if hi == 1 {
      PrefixOfOne(p, later, sep);
      b := |p|;
    } else {
      b := PrefixIsSlice(later, sep, hi - 1);
      PrefixAfterPiece(p, later, sep, hi - 1, b);
      b := |p| + |sep| + b;
    }
  }

  lemma JoinStarts(ps: seq<string>, sep: string)
    requires ps != []
    ensures ps[0] <= Join(ps, sep)
  {
  }

  lemma PrefixOfCons(p: string, later: seq<string>, sep: string, b: nat)
    requires later != [] && b <= |Join(later, sep)|
    ensures |p| + |sep| + b <= |Join([p] + later, sep)|
    ensures Join([p] + later, sep)[..|p| + |sep| + b] == p + sep + Join(later, sep)[..b]
  {
    JoinCons(p, later, sep);
  }

  lemma SliceOfCons(p: string, later: seq<string>, sep: string, a: nat, b: nat)
    requires later != [] && a <= b <= |Join(later, sep)|
    ensures |p| + |sep| + b <= |Join([p] + later, sep)|
    ensures Join([p] + later, sep)[|p| + |sep| + a..|p| + |sep| + b] == Join(later, sep)[a..b]
  {
    JoinCons(p, later, sep);
  }

  lemma {:induction false} SliceAfter(p: string, later: seq<string>, sep: string, c: string)
    requires later != [] && IsSlice(Join(later, sep), c)
    ensures IsSlice(Join([p] + later, sep), c)
  {
    var a: nat, b: nat :| IsSliceAt(Join(later, sep), c, a, b);
    SliceOfCons(p, later, sep, a, b);
    assert IsSliceAt(Join([p] + later, sep), c, |p| + |sep| + a, |p| + |sep| + b);
  }

  lemma SliceOfOne(p: string, later: seq<string>, sep: string)
    ensures IsSlice(Join([p] + later, sep), p)
  {
    JoinStarts([p] + later, sep);
    assert Join([p] + later, sep)[0..|p|] == p;
    assert IsSliceAt(Join([p] + later, sep), p, 0, |p|);
  }

  lemma {:induction false} SliceWithPrefix(p: string, later: seq<string>, sep: string, hi: nat, b: nat)
    requires 1 <= hi <= |NonEmpty(later)| && IsPrefixAt(later, sep, hi, b)
    ensures IsSlice(Join([p] + later, sep), Join([p] + NonEmpty(later)[..hi], sep))
  {
    var x, y, whole := Join(NonEmpty(later)[..hi], sep), Join(later, sep)[..b], Join([p] + later, sep);
    JoinCons(p, NonEmpty(later)[..hi], sep);
    PrefixOfCons(p, later, sep, b);
    SqueezedSame(p, p, sep + x, sep + y);
    AppendAssoc(p, sep, x);
    AppendAssoc(p, sep, y);
    assert whole[0..|p| + |sep| + b] == p + sep + y;
    assert IsSliceAt(whole, p + sep + x, 0, |p| + |sep| + b);
  }

  /** Consecutive non-empty pieces, joined, are a slice of all pieces joined. */
  lemma {:induction false} WindowIsSlice(ps: seq<string>, sep: string, lo: nat, hi: nat)
    requires IsBlankSeparator(sep) && lo < hi <= |NonEmpty(ps)|
    ensures IsSlice(Join(ps, sep), Join(NonEmpty(ps)[lo..hi], sep))
    decreases |ps|
  {
    var p, later := ps[0], ps[1..];
    assert ps == [p] + later;
    if p == "" {
      assert NonEmpty(ps) == NonEmpty(later);
      WindowIsSlice(later, sep, lo, hi);
      SliceAfter(p, later, sep, Join(NonEmpty(later)[lo..hi], sep));
    } else if lo > 0 {
      assert NonEmpty(ps)[lo..hi] == NonEmpty(later)[lo - 1..hi - 1];
      WindowIsSlice(later, sep, lo - 1, hi - 1);
      SliceAfter(p, later, sep, Join(NonEmpty(later)[lo - 1..hi - 1], sep));
    } else if hi == 1 {
      assert NonEmpty(ps)[0..1] == [p];
      SliceOfOne(p, later, sep);
    } else {
      var b := PrefixIsSlice(later, sep, hi - 1);
      assert NonEmpty(ps)[0..hi] == [p] + NonEmpty(later)[..hi - 1];
      SliceWithPrefix(p, later, sep, hi - 1, b);
    }
  }

  /** A piece stands in the text as it is. */
  lemma {:induction false} PieceIsThere(ps: seq<string>, sep: string, p: string) returns (a: nat)
    requires p in NonEmpty(ps)
    ensures a + |p| <= |Join(ps, sep)| && Join(ps, sep)[a..a + |p|] == p
  {
    var later := ps[1..];
    assert ps == [ps[0]] + later;
    if p == ps[0] {
      a := 0;
      JoinStarts(ps, sep);
    } else {
      assert p in NonEmpty(later);
      var a' := PieceIsThere(later, sep, p);
      a := |ps[0]| + |sep| + a';
      SliceOfCons(ps[0], later, sep, a', a' + |p|);
    }
  }

  // ---- the parts of a text ----

  ghost predicate IsCutting(text: string, sep: string, ps: seq<string>) {
    Join(ps, sep) == text && forall p :: p in ps ==> !Contains(p, sep)
  }

  /** The parts are the non-empty pieces between the occurrences of the separator, or the characters. */
  lemma PartsAre(text: string, sep: string)
    ensures sep == "" ==>
              |Parts(text, sep)| == |text| && forall i :: 0 <= i < |text| ==> Parts(text, sep)[i] == [text[i]]
    ensures sep != "" ==> exists ps :: IsCutting(text, sep, ps) && Parts(text, sep) == NonEmpty(ps)
  {
    if sep != "" {
      JoinSplit(text, sep);
      forall p | p in Split(text, sep)
        ensures !Contains(p, sep)
      {
        SplitOff(text, sep, p);
      }
      assert IsCutting(text, sep, Split(text, sep));
    }
  }

  lemma PartsWindow(text: string, sep: string, lo: nat, hi: nat)
    requires (sep == "" || IsBlankSeparator(sep)) && lo < hi <= |Parts(text, sep)|
    ensures IsSlice(text, Join(Parts(text, sep)[lo..hi], sep))
  {
    if sep == "" {
      assert Chars(text)[lo..hi] == Chars(text[lo..hi]);
      JoinChars(text[lo..hi]);
      assert IsSliceAt(text, text[lo..hi], lo, hi);
    } else {
      JoinSplit(text, sep);
      WindowIsSlice(Split(text, sep), sep, lo, hi);
    }
  }

  lemma PartIsThere(text: string, sep: string, p: string) returns (a: nat)
    requires p in Parts(text, sep)
    ensures StandsAt(text, p, a)
  {
    if sep == "" {
      a :| a < |text| && p == Chars(text)[a];
    } else {
      JoinSplit(text, sep);
      a := PieceIsThere(Split(text, sep), sep, p);
    }
  }

  // ---- every chunk is a slice ----

  /** good are the parts before k, and later those from k on. */
  ghost predicate AtPart(all: seq<string>, good: seq<string>, later: seq<string>, k: nat) {
    |good| <= k <= |all| && good == all[k - |good|..k] && later == all[k..]
  }

  lemma PartNext(all: seq<string>, good: seq<string>, later: seq<string>, k: nat)
    requires AtPart(all, good, later, k) && later != []
    ensures later[0] in all
    ensures AtPart(all, good + [later[0]], later[1..], k + 1) && AtPart(all, [], later[1..], k + 1)
  {
    assert later[0] == all[k];
    SliceSnoc(all, k - |good|, k);
  }

  lemma {:induction false} ChunkIsSlice(text: string, good: seq<string>, later: seq<string>, k: nat, sep: string,
                                        w: Window)
    requires (sep == "" || IsBlankSeparator(sep)) && AtPart(Parts(text, sep), good, later, k)
    requires w.lo < w.hi <= |good|
    ensures IsSlice(text, Chunk(good, sep, w))
  {
    var d := k - |good|;
    SliceTwice(Parts(text, sep), d, k, w.lo, w.hi);
    PartsWindow(text, sep, d + w.lo, d + w.hi);
  }

  lemma {:induction false} FlushIsSlices(text: string, result: seq<string>, good: seq<string>, later: seq<string>,
                                         k: nat, sep: string, st: Settings)
    requires AreSlices(text, result) && (sep == "" || IsBlankSeparator(sep))
    requires AtPart(Parts(text, sep), good, later, k)
    ensures AreSlices(text, Flush(result, good, sep, st))
  {
    var cs := Merged(good, sep, st.Lim());
    forall c | c in cs
      ensures IsSlice(text, c)
    {
      var n :| 0 <= n < |cs| && c == cs[n];
      ChunkIsSlice(text, good, later, k, sep, Pack(good, |sep|, st.Lim())[n]);
    }
  }

  lemma {:induction false} FurtherIsSlices(text: string, sep: string, part: string, rest: seq<string>, st: Settings)
    requires part in Parts(text, sep) && (rest == [] || IsSeparatorList(rest))
    ensures AreSlices(text, SplitFurther(part, rest, st))
    decreases |rest|, 1, 0
  {
    var a := PartIsThere(text, sep, part);
    if rest == [] {
      assert IsSliceAt(text, part, a, a + |part|);
    } else {
      RecursiveIsSlices(part, rest, st);
      SlicesOfSlice(text, part, a, RecursiveChunks(part, rest, st));
    }
  }

  lemma {:induction false} RunsAreSlices(text: string, result: seq<string>, parts: seq<string>, good: seq<string>,
                                         k: nat, sep: string, rest: seq<string>, st: Settings)
    requires AreSlices(text, result) && (sep == "" || IsBlankSeparator(sep)) && (rest == [] || IsSeparatorList(rest))
    requires AtPart(Parts(text, sep), good, parts, k)
    ensures AreSlices(text, Runs(result, parts, good, sep, rest, st))
    decreases |rest|, 2, |parts|
  {
    FlushIsSlices(text, result, good, parts, k, sep, st);
    if parts != [] {
      var part, later := parts[0], parts[1..];
      PartNext(Parts(text, sep), good, parts, k);
      if |part| > st.chunkSize {
        FurtherIsSlices(text, sep, part, rest, st);
        var result' := Flush(result, good, sep, st) + SplitFurther(part, rest, st);
        RunsAreSlices(text, result', later, [], k + 1, sep, rest, st);
      } else {
        RunsAreSlices(text, result, later, good + [part], k + 1, sep, rest, st);
      }
    }
  }

  lemma {:induction false} RecursiveIsSlices(text: string, seps: seq<string>, st: Settings)
    requires IsSeparatorList(seps)
    ensures AreSlices(text, RecursiveChunks(text, seps, st))
    decreases |seps|, 0, 0
  {
    var i := Chosen(text, seps);
    SeparatorAt(seps, i);
    RunsAreSlices(text, [], Parts(text, seps[i]), [], 0, seps[i], seps[i + 1..], st);
  }

  /** A chunk has the words of a slice of the text, with whitespace between them exactly where the slice
      has some, and not more of it. */
  lemma ChunksAreSlices(text: string, st: Settings)
    ensures AreSlices(text, TextChunks(text, st))
  {
    if Strip(text) != "" {
      SeparatorsAreAList();
      RecursiveIsSlices(text, SEPARATORS, st);
    }
  }

  // ---- short texts ----

  ghost predicate EndsWith(t: string, sep: string) {
    |sep| <= |t| && t[|t| - |sep|..] == sep
  }

  /** A separator leads, trails or is doubled. */
  ghost predicate Untidy(t: string, sep: string) {
    sep <= t || EndsWith(t, sep) || Contains(t, sep + sep)
  }

  ghost predicate EmptyAfterFirst(ps: seq<string>) {
    exists i :: 1 <= i < |ps| && ps[i] == ""
  }

  lemma SuffixOccurs(t: string, d: nat, sep: string)
    requires d <= |t| && Contains(t[d..], sep)
    ensures Contains(t, sep)
  {
    var j :| 0 <= j <= |t[d..]| && sep <= t[d..][j..];
    assert t[d..][j..] == t[d + j..];
  }

  /** Behind the first piece, an empty one comes from a doubled or a trailing separator. */
  lemma {:induction false} EmptyPiece(t: string, sep: string)
    requires sep != "" && EmptyAfterFirst(Split(t, sep))
    ensures EndsWith(t, sep) || Contains(t, sep + sep)
    decreases |t|
  {
    var i :| 1 <= i < |Split(t, sep)| && Split(t, sep)[i] == "";
    if sep <= t {
      var rest := t[|sep|..];
      assert Split(t, sep)[i] == Split(rest, sep)[i - 1];
      if i > 1 {
        EmptyPiece(rest, sep);
        if Contains(rest, sep + sep) {
          SuffixOccurs(t, |sep|, sep + sep);
        }
      } else if rest != "" {
        assert sep <= rest;
        assert t[0..] == t == sep + rest && sep + sep <= t[0..];
      }
    } else {
      assert Split(t, sep)[i] == Split(t[1..], sep)[i];
      EmptyPiece(t[1..], sep);
      if Contains(t[1..], sep + sep) {
        SuffixOccurs(t, 1, sep + sep);
      }
    }
  }

  lemma {:induction false} TidyHasNoEmpty(t: string, sep: string)
    requires sep != "" && t != "" && "" in Split(t, sep)
    ensures Untidy(t, sep)
  {
    var ps := Split(t, sep);
    var i :| 0 <= i < |ps| && ps[i] == "";
    if i > 0 {
      EmptyPiece(t, sep);
    }
  }

  lemma {:induction false} ExtendsToEnd(p: seq<string>, sep: nat, size: nat, h: nat)
    requires 0 < h <= |p| && Len(p, sep, 0, |p|) <= size
    ensures Extend(p, sep, size, 0, h) == |p|
    decreases |p| - h
  {
    if h < |p| {
      LenGrows(p, sep, 0, 0, h + 1, |p|);
      ExtendsToEnd(p, sep, size, h + 1);
    }
  }

  lemma MergedToOne(p: seq<string>, sep: string, lim: Limits)
    requires p != [] && |Join(p, sep)| <= lim.size
    ensures Merged(p, sep, lim) == [Join(p, sep)]
  {
    ChunkLength(p, sep, Window(0, |p|));
    assert p[0..|p|] == p;
    ExtendsToEnd(p, |sep|, lim.size, 1);
    assert PackFrom(p, |sep|, lim, Carry(p, |sep|, lim.overlap, 0, |p|), |p|) == [];
    assert Pack(p, |sep|, lim) == [Window(0, |p|)];
  }

  /** The separator a text is split by first: paragraphs before lines before words before characters. */
  ghost predicate IsFirstSeparator(text: string, sep: string) {
    || (sep == "\n\n" && Contains(text, "\n\n"))
    || (sep == "\n" && '\n' in text && !Contains(text, "\n\n"))
    || (sep == " " && ' ' in text && '\n' !in text)
    || (sep == "" && ' ' !in text && '\n' !in text)
  }

  lemma OneCharacter(text: string, c: char)
    ensures Contains(text, [c]) <==> c in text
  {
    if c in text {
      var i :| 0 <= i < |text| && text[i] == c;
      assert [c] <= text[i..];
    }
    if Contains(text, [c]) {
      OccursIn(text, [c]);
    }
  }

  lemma FirstSeparatorIsChosen(text: string, sep: string)
    requires IsFirstSeparator(text, sep)
    ensures IsSeparatorList(SEPARATORS) && SEPARATORS[Chosen(text, SEPARATORS)] == sep
  {
    SeparatorsAreAList();
    OneCharacter(text, '\n');
    OneCharacter(text, ' ');
    if Contains(text, "\n\n") {
      OccursIn(text, "\n\n");
    }
    var i := Chosen(text, SEPARATORS);
    assert SEPARATORS[0] == "\n\n" && SEPARATORS[1] == "\n" && SEPARATORS[2] == " " && SEPARATORS[3] == "";
    assert i < 4;
  }

  lemma SomethingIsLeft(text: string, sep: string)
    requires Strip(text) != "" && (sep == "" || IsBlankSeparator(sep))
    ensures Parts(text, sep) != []
  {
    PartsKeepAll(text, sep, IsSpace);
    StripsToNothing(text);
    assert Flat([], IsSpace) == "";
  }

  lemma WholeFits(text: string, sep: string)
    requires (sep == "" || IsBlankSeparator(sep)) && Parts(text, sep) != []
    ensures |Join(Parts(text, sep), sep)| <= |text|
  {
    var parts := Parts(text, sep);
    PartsWindow(text, sep, 0, |parts|);
    assert parts[0..|parts|] == parts;
  }

  lemma {:induction false} NonEmptyJoined(ps: seq<string>, sep: string)
    requires sep != "" && NonEmpty(ps) != []
    ensures |Join(NonEmpty(ps), sep)| <= |Join(ps, sep)|
    ensures "" in ps <==> Join(NonEmpty(ps), sep) != Join(ps, sep)
    ensures "" in ps ==> |Join(NonEmpty(ps), sep)| < |Join(ps, sep)|
  {
    var p, later := ps[0], ps[1..];
    assert ps == [p] + later;
    if NonEmpty(later) == [] {
      AllEmpty(later);
      assert p != "" && NonEmpty(ps) == [p];
      if later != [] {
        JoinCons(p, later, sep);
        assert later[0] in later && "" in ps;
      }
    } else {
      NonEmptyJoined(later, sep);
      JoinCons(p, later, sep);
      if p != "" {
        JoinCons(p, NonEmpty(later), sep);
        assert NonEmpty(ps) == [p] + NonEmpty(later);
        assert "" in ps <==> "" in later;
      } else {
        assert NonEmpty(ps) == NonEmpty(later);
        assert ps[0] in ps;
      }
    }
  }

  lemma {:induction false} AllEmpty(ps: seq<string>)
    requires NonEmpty(ps) == []
    ensures forall p :: p in ps ==> p == ""
  {
    if ps != [] {
      AllEmpty(ps[1..]);
      assert ps == [ps[0]] + ps[1..];
    }
  }

  /** For one character it goes both ways. */
  lemma {:induction false} UntidyHasEmpty(t: string, c: char)
    requires Untidy(t, [c])
    ensures "" in Split(t, [c])
  {
    if [c] <= t {
      assert Split(t, [c])[0] == "";
    } else if EndsWith(t, [c]) {
      TrailingIsEmpty(t, c);
    } else {
      DoubledIsEmpty(t, c);
    }
  }

  lemma {:induction false} TrailingIsEmpty(t: string, c: char)
    requires t != "" && t[|t| - 1] == c
    ensures EmptyAfterFirst(Split(t, [c]))
  {
    if |t| == 1 {
      assert t == [c] && t[1..] == "" && Split(t, [c]) == [""] + Split("", [c]);
      assert Split(t, [c])[1] == "";
    } else {
      TrailingIsEmpty(t[1..], c);
      EmptyStays(t, c);
    }
  }

  lemma {:induction false} EmptyStays(t: string, c: char)
    requires t != "" && EmptyAfterFirst(Split(t[1..], [c]))
    ensures EmptyAfterFirst(Split(t, [c]))
  {
    var r := Split(t[1..], [c]);
    var i :| 1 <= i < |r| && r[i] == "";
    if t[0] == c {
      assert Split(t, [c]) == [""] + r;
      assert Split(t, [c])[i + 1] == "";
    } else {
      assert Split(t, [c]) == [[t[0]] + r[0]] + r[1..];
      assert Split(t, [c])[i] == "";
    }
  }

  lemma {:induction false} DoubledIsEmpty(t: string, c: char)
    requires Contains(t, [c] + [c])
    ensures EmptyAfterFirst(Split(t, [c]))
  {
    var j :| 0 <= j <= |t| && [c] + [c] <= t[j..];
    if j == 0 {
      assert t[0..] == t && t[0] == t[1] == c && [c] <= t[1..];
      assert Split(t, [c])[1] == Split(t[1..], [c])[0] == "";
    } else {
      assert t[1..][j - 1..] == t[j..];
      DoubledIsEmpty(t[1..], c);
      EmptyStays(t, c);
    }
  }

  /** A text of at most S characters is one chunk: its non-empty pieces joined again. */
  lemma ShortTextIsJoined(text: string, sep: string, st: Settings)
    requires Strip(text) != "" && |text| <= st.chunkSize && IsFirstSeparator(text, sep)
    ensures Parts(text, sep) != []
    ensures TextChunks(text, st) == [Join(Parts(text, sep), sep)]
    ensures |Join(Parts(text, sep), sep)| <= |text|
  {
    FirstSeparatorIsChosen(text, sep);
    var i, parts := Chosen(text, SEPARATORS), Parts(text, sep);
    SeparatorAt(SEPARATORS, i);
    SomethingIsLeft(text, sep);
    forall p | p in parts
      ensures |p| <= st.chunkSize
    {
      var _ := PartIsThere(text, sep, p);
    }
    RunsOfShortParts(parts, [], sep, SEPARATORS[i + 1..], st);
    assert [] + parts == parts;
    WholeFits(text, sep);
    MergedToOne(parts, sep, st.Lim());
  }

  /** A text of at most S characters, not blank, is its own only chunk if its first separator does not
      lead, trail or double. If that separator is one character it is only then; and for every separator
      it is exactly if no piece between two of them is empty. */
  lemma ShortTextIsKept(text: string, sep: string, st: Settings)
    requires Strip(text) != "" && |text| <= st.chunkSize && IsFirstSeparator(text, sep)
    ensures sep == "" || !Untidy(text, sep) ==> TextChunks(text, st) == [text]
    ensures |sep| == 1 && TextChunks(text, st) == [text] ==> !Untidy(text, sep)
    ensures TextChunks(text, st) == [text] <==> sep == "" || "" !in Split(text, sep)
  {
    ShortTextIsJoined(text, sep, st);
    if sep == "" {
      JoinChars(text);
    } else {
      JoinSplit(text, sep);
      NonEmptyJoined(Split(text, sep), sep);
      if "" in Split(text, sep) {
        TidyHasNoEmpty(text, sep);
      } else if |sep| == 1 && Untidy(text, sep) {
        assert sep == [sep[0]];
        UntidyHasEmpty(text, sep[0]);
      }
    }
  }
}
