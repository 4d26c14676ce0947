/** What `chunk_text` promises: a length bound, nothing lost or reordered, and the sliding
    window on text without blanks. */
module TextProperties {
  import opened Text
  import opened Packing
  import opened PackingProperties
  import opened Coverage
  import opened TextChunker

  // ---- length ----

  /** A chunk is at most this long where no separator is longer than sep: a carried-over tail, a
      separator and one part. */
  function RunBound(st: Settings, sep: nat): nat {
    st.chunkSize + (if st.chunkOverlap == 0 then 0 else st.chunkOverlap + sep)
  }

  /** The bound for a text chunk. */
  function TextBound(st: Settings): nat {
    RunBound(st, 2)
  }

  ghost predicate Bounded(cs: seq<string>, bound: nat) {
    forall c :: c in cs ==> 0 < |c| <= bound
  }

  ghost predicate SeparatorsWithin(seps: seq<string>, n: nat) {
    forall i :: 0 <= i < |seps| ==> |seps[i]| <= n
  }

  lemma MergedBounded(good: seq<string>, sep: string, st: Settings, n: nat)
    requires |sep| <= n && Bounded(good, st.chunkSize)
    ensures Bounded(Merged(good, sep, st.Lim()), RunBound(st, n))
  {
    var cs := Merged(good, sep, st.Lim());
    forall c | c in cs
      ensures 0 < |c| <= RunBound(st, n)
    {
      var k :| 0 <= k < |cs| && c == cs[k];
      ChunkBound(good, sep, st.Lim(), k);
    }
  }

  lemma FlushBounded(result: seq<string>, good: seq<string>, sep: string, st: Settings, n: nat)
    requires |sep| <= n && Bounded(good, st.chunkSize) && Bounded(result, RunBound(st, n))
    ensures Bounded(Flush(result, good, sep, st), RunBound(st, n))
  {
    MergedBounded(good, sep, st, n);
  }

  lemma {:induction false} RunsBounded(result: seq<string>, parts: seq<string>, good: seq<string>, sep: string,
                                       rest: seq<string>, st: Settings, n: nat)
    requires st.Valid() && |sep| <= n && SeparatorsWithin(rest, n) && (rest == [] || IsSeparatorList(rest))
    requires Bounded(result, RunBound(st, n)) && Bounded(good, st.chunkSize) && forall s :: s in parts ==> s != ""
    requires rest == [] ==> Bounded(parts, st.chunkSize)
    ensures Bounded(Runs(result, parts, good, sep, rest, st), RunBound(st, n))
    decreases |rest|, 1, |parts|
  {
    FlushBounded(result, good, sep, st, n);
    if parts != [] {
      var part, later := parts[0], parts[1..];
      assert part in parts && forall s :: s in later ==> s in parts;
      if |part| > st.chunkSize {
        RecursiveBounded(part, rest, st, n);
        RunsBounded(Flush(result, good, sep, st) + SplitFurther(part, rest, st), later, [], sep, rest, st, n);
      } else {
        RunsBounded(result, later, good + [part], sep, rest, st, n);
      }
    }
  }

  lemma {:induction false} RecursiveBounded(text: string, seps: seq<string>, st: Settings, n: nat)
    requires st.Valid() && IsSeparatorList(seps) && SeparatorsWithin(seps, n)
    ensures Bounded(RecursiveChunks(text, seps, st), RunBound(st, n))
    decreases |seps|, 0, 0
  {
    var i := Chosen(text, seps);
    SeparatorAt(seps, i);
    RunsBounded([], Parts(text, seps[i]), [], seps[i], seps[i + 1..], st, n);
  }

  lemma TextBounded(text: string, st: Settings)
    requires st.Valid()
    ensures Bounded(TextChunks(text, st), TextBound(st))
  {
    SeparatorsAreAList();
    RecursiveBounded(text, SEPARATORS, st, 2);
  }

  /** Without an empty line in the text the longest separator is never used. */
  lemma ParagraphBounded(text: string, st: Settings)
    requires st.Valid() && !Contains(text, "\n\n")
    ensures Bounded(TextChunks(text, st), RunBound(st, 1))
  {
    if Strip(text) != "" {
      SeparatorsAreAList();
      var seps := SEPARATORS[1..];
      assert seps == ["\n", " ", ""] && IsSeparatorList(seps);
      assert Chosen(text, SEPARATORS) == 1 + Chosen(text, seps);
      var i := Chosen(text, seps);
      assert SEPARATORS[i + 1] == seps[i] && SEPARATORS[i + 2..] == seps[i + 1..];
      assert RecursiveChunks(text, SEPARATORS, st) == RecursiveChunks(text, seps, st);
      RecursiveBounded(text, seps, st, 1);
    }
  }

  // ---- nothing lost ----

  ghost function Flat(p: seq<string>, gone: char -> bool): string {
    Flatten(EraseAll(p, gone))
  }

  lemma FlatAppend(a: seq<string>, b: seq<string>, gone: char -> bool)
    ensures Flat(a + b, gone) == Flat(a, gone) + Flat(b, gone)
  {
    assert EraseAll(a + b, gone) == EraseAll(a, gone) + EraseAll(b, gone);
    FlattenAppend(EraseAll(a, gone), EraseAll(b, gone));
  }

  ghost function Off(p: seq<string>, gone: char -> bool, i: nat): nat
    requires i <= |p|
  {
    |Flat(p[..i], gone)|
  }

  lemma FlatSlice(p: seq<string>, gone: char -> bool, lo: nat, hi: nat)
    requires lo <= hi <= |p|
    ensures Off(p, gone, lo) <= Off(p, gone, hi) <= |Flat(p, gone)|
    ensures Flat(p[lo..hi], gone) == Flat(p, gone)[Off(p, gone, lo)..Off(p, gone, hi)]
  {
    assert p[..hi] == p[..lo] + p[lo..hi];
    FlatAppend(p[..lo], p[lo..hi], gone);
    assert p == p[..hi] + p[hi..];
    FlatAppend(p[..hi], p[hi..], gone);
  }

  ghost function OffSpans(p: seq<string>, gone: char -> bool, ws: seq<Window>): (vs: seq<Window>)
    requires InRange(ws, |p|)
    ensures |vs| == |ws|
    ensures forall k :: 0 <= k < |ws| ==> vs[k] == Window(Off(p, gone, ws[k].lo), Off(p, gone, ws[k].hi))
  {
    seq(|ws|, k requires 0 <= k < |ws| => Window(Off(p, gone, ws[k].lo), Off(p, gone, ws[k].hi)))
  }

  lemma MergedSpanAt(p: seq<string>, sep: string, gone: char -> bool, w: Window)
    requires w.lo < w.hi <= |p| && forall c :: c in sep ==> gone(c)
    ensures IsSpan(Flat(p, gone), Chunk(p, sep, w), gone, Window(Off(p, gone, w.lo), Off(p, gone, w.hi)))
  {
    FlatSlice(p, gone, w.lo, w.hi);
    EraseJoin(p[w.lo..w.hi], sep, gone);
  }

  lemma MergedLink(p: seq<string>, sep: nat, lim: Limits, gone: char -> bool, k: nat)
    requires k < |Pack(p, sep, lim)|
    ensures LinkAt(|Flat(p, gone)|, OffSpans(p, gone, Pack(p, sep, lim)), k)
  {
    var ws := Pack(p, sep, lim);
    PackIsGreedy(p, sep, lim);
    WindowAt(p, sep, lim, 0, 0, ws, k);
    FlatSlice(p, gone, ws[k].lo, ws[k].hi);
    assert p[..|p|] == p && p[..0] == [];
    if k > 0 {
      WindowsAdvance(p, sep, lim, k);
      FlatSlice(p, gone, ws[k - 1].lo, ws[k].lo);
      FlatSlice(p, gone, ws[k].lo, ws[k - 1].hi);
      FlatSlice(p, gone, ws[k - 1].hi, ws[k].hi);
    }
  }

  lemma MergedSpans(p: seq<string>, sep: string, lim: Limits, gone: char -> bool)
    requires forall c :: c in sep ==> gone(c)
    ensures Spans(Flat(p, gone), Merged(p, sep, lim), gone, OffSpans(p, gone, Pack(p, |sep|, lim)))
  {
    var ws := Pack(p, |sep|, lim);
    PackIsGreedy(p, |sep|, lim);
    forall k | 0 <= k < |ws|
      ensures LinkAt(|Flat(p, gone)|, OffSpans(p, gone, ws), k)
    {
      MergedLink(p, |sep|, lim, gone, k);
    }
    forall k | 0 <= k < |ws|
      ensures SpanAt(Flat(p, gone), Merged(p, sep, lim), gone, OffSpans(p, gone, ws), k)
    {
      MergedSpanAt(p, sep, gone, ws[k]);
    }
  }

  lemma NeighboursTooLong(p: seq<string>, sep: string, lim: Limits, k: nat)
    requires |sep| <= 2 && 0 < k < |Pack(p, |sep|, lim)|
    ensures |Merged(p, sep, lim)[k - 1]| + 2 + |Merged(p, sep, lim)[k]| > lim.size
  {
    var ws := Pack(p, |sep|, lim);
    WindowsAdvance(p, |sep|, lim, k);
    var w, v := ws[k - 1], ws[k];
    ChunkLength(p, sep, w);
    ChunkLength(p, sep, v);
    LenStep(p, |sep|, w.lo, w.hi);
    LenStep(p, |sep|, w.hi, w.hi);
    LenGrows(p, |sep|, v.lo, w.hi, w.hi + 1, v.hi);
  }

  lemma MergedTight(p: seq<string>, sep: string, lim: Limits, gone: char -> bool)
    requires |sep| <= 2
    ensures Tight(lim.size, Merged(p, sep, lim), OffSpans(p, gone, Pack(p, |sep|, lim)))
  {
    forall k | 0 < k < |Merged(p, sep, lim)|
      ensures TightAt(lim.size, Merged(p, sep, lim), OffSpans(p, gone, Pack(p, |sep|, lim)), k)
    {
      NeighboursTooLong(p, sep, lim, k);
    }
  }

  lemma MergedCovers(p: seq<string>, sep: string, lim: Limits, gone: char -> bool)
    requires |sep| <= 2 && forall c :: c in sep ==> gone(c)
    ensures TightlyCovers(Flat(p, gone), Merged(p, sep, lim), gone, lim.size)
  {
    MergedSpans(p, sep, lim, gone);
    MergedTight(p, sep, lim, gone);
  }

  lemma PartsKeepAll(text: string, sep: string, gone: char -> bool)
    requires forall c :: c in sep ==> gone(c)
    ensures Flat(Parts(text, sep), gone) == Erase(text, gone)
  {
    if sep == "" {
      JoinChars(text);
      EraseJoin(Chars(text), "", gone);
    } else {
      JoinSplit(text, sep);
      EraseJoin(Split(text, sep), sep, gone);
      EraseNonEmpty(Split(text, sep), gone);
    }
  }

  lemma FlushCovers(e: string, result: seq<string>, good: seq<string>, sep: string, st: Settings, gone: char -> bool)
    requires |sep| <= 2 && forall c :: c in sep ==> gone(c)
    requires TightlyCovers(e, result, gone, st.chunkSize)
    ensures TightlyCovers(e + Flat(good, gone), Flush(result, good, sep, st), gone, st.chunkSize)
  {
    if good == [] {
      assert e + Flat(good, gone) == e;
    } else {
      MergedCovers(good, sep, st.Lim(), gone);
      CoversAppend(e, result, Flat(good, gone), Merged(good, sep, st.Lim()), gone, st.chunkSize);
    }
  }

  /** If the result so far covers e, the final one covers e, the current run and the remaining parts. */
  lemma {:induction false} RunsCover(e: string, result: seq<string>, parts: seq<string>, good: seq<string>, sep: string,
                                     rest: seq<string>, st: Settings, gone: char -> bool)
    requires gone(' ') && gone('\n')
    requires |sep| <= 2 && (forall c :: c in sep ==> gone(c)) && (rest == [] || IsSeparatorList(rest))
    requires TightlyCovers(e, result, gone, st.chunkSize)
    ensures TightlyCovers(e + Flat(good, gone) + Flat(parts, gone), Runs(result, parts, good, sep, rest, st), gone,
                          st.chunkSize)
    decreases |rest|, 2, |parts|
  {
    var e' := e + Flat(good, gone);
    FlushCovers(e, result, good, sep, st, gone);
    if parts == [] {
      assert e' + Flat(parts, gone) == e';
    } else {
      var part, later := parts[0], parts[1..];
      FlatCons(parts, gone);
      AppendAssoc(e', Erase(part, gone), Flat(later, gone));
      if |part| > st.chunkSize {
        var flushed := Flush(result, good, sep, st);
        SplitFurtherCovers(part, rest, st, gone);
        CoversAppend(e', flushed, Erase(part, gone), SplitFurther(part, rest, st), gone, st.chunkSize);
        RunsCover(e' + Erase(part, gone), flushed + SplitFurther(part, rest, st), later, [], sep, rest, st, gone);
        assert e' + Erase(part, gone) + Flat([], gone) == e' + Erase(part, gone);
      } else {
        FlatSnoc(good, part, gone);
        RunsCover(e, result, later, good + [part], sep, rest, st, gone);
        AppendAssoc(e, Flat(good, gone), Erase(part, gone));
      }
    }
  }

  lemma FlatCons(parts: seq<string>, gone: char -> bool)
    requires parts != []
    ensures Flat(parts, gone) == Erase(parts[0], gone) + Flat(parts[1..], gone)
  {
    assert parts == [parts[0]] + parts[1..];
    FlatAppend([parts[0]], parts[1..], gone);
    FlatSingle(parts[0], gone);
  }

  lemma FlatSnoc(good: seq<string>, part: string, gone: char -> bool)
    ensures Flat(good + [part], gone) == Flat(good, gone) + Erase(part, gone)
  {
    FlatAppend(good, [part], gone);
    FlatSingle(part, gone);
  }

  lemma FlatSingle(part: string, gone: char -> bool)
    ensures Flat([part], gone) == Erase(part, gone)
  {
    var es := EraseAll([part], gone);
    assert es[1..] == [] && es[0] + Flatten(es[1..]) == es[0];
  }

  lemma {:induction false} SplitFurtherCovers(part: string, rest: seq<string>, st: Settings, gone: char -> bool)
    requires gone(' ') && gone('\n') && (rest == [] || IsSeparatorList(rest))
    ensures TightlyCovers(Erase(part, gone), SplitFurther(part, rest, st), gone, st.chunkSize)
    decreases |rest|, 1, 0
  {
    if rest == [] {
      CoversWhole(part, gone, st.chunkSize);
    } else {
      RecursiveCovers(part, rest, st, gone);
    }
  }

  lemma {:induction false} RecursiveCovers(text: string, seps: seq<string>, st: Settings, gone: char -> bool)
    requires gone(' ') && gone('\n') && IsSeparatorList(seps)
    ensures TightlyCovers(Erase(text, gone), RecursiveChunks(text, seps, st), gone, st.chunkSize)
    decreases |seps|, 0, 0
  {
    var i := Chosen(text, seps);
    var sep := seps[i];
    SeparatorAt(seps, i);
    PartsKeepAll(text, sep, gone);
    CoversNothing(gone, st.chunkSize);
    RunsCover("", [], Parts(text, sep), [], sep, seps[i + 1..], st, gone);
    assert "" + Flat([], gone) + Flat(Parts(text, sep), gone) == Erase(text, gone);
  }

  /** `chunk_text` loses and reorders nothing: without blanks and newlines, its chunks are spans of
      the text that start at its beginning, end at its end, move forward and leave no gap. */
  lemma TextIsCovered(text: string, st: Settings)
    requires Strip(text) != ""
    ensures Covers(Erase(text, IsBlankOrNewline), TextChunks(text, st), IsBlankOrNewline)
  {
    RecursiveCovers(text, SEPARATORS, st, IsBlankOrNewline);
  }

  /** With all whitespace erased the same holds of every text. */
  lemma TextCovers(text: string, st: Settings)
    ensures TightlyCovers(Erase(text, IsSpace), TextChunks(text, st), IsSpace, st.chunkSize)
  {
    if Strip(text) == "" {
      StripsToNothing(text);
      CoversNothing(IsSpace, st.chunkSize);
    } else {
      SeparatorsAreAList();
      RecursiveCovers(text, SEPARATORS, st, IsSpace);
    }
  }

  // ---- text without blanks and newlines ----

  lemma {:induction false} RunsOfShortParts(parts: seq<string>, good: seq<string>, sep: string,
                                            rest: seq<string>, st: Settings)
    requires rest == [] || IsSeparatorList(rest)
    requires forall s :: s in parts ==> |s| <= st.chunkSize
    ensures Runs([], parts, good, sep, rest, st) == Flush([], good + parts, sep, st)
    decreases |parts|
  {
    if parts == [] {
      assert good + parts == good;
    } else {
      assert parts[0] in parts;
      RunsOfShortParts(parts[1..], good + [parts[0]], sep, rest, st);
      assert good + [parts[0]] + parts[1..] == good + parts;
    }
  }

  /** Chunk k is text[k * (S - O) : k * (S - O) + S], and there are exactly as many as it takes. */
  lemma UnbrokenText(text: string, st: Settings)
    requires st.Valid() && Strip(text) != ""
    requires forall c :: c in text ==> c != ' ' && c != '\n'
    ensures TextChunks(text, st) == Sliding(text, st.Lim())
  {
    SeparatorsAreAList();
    var i := Chosen(text, SEPARATORS);
    SeparatorAt(SEPARATORS, i);
    if i < 3 {
      OccursIn(text, SEPARATORS[i]);
    }
    assert forall s :: s in Chars(text) ==> |s| <= st.chunkSize;
    RunsOfShortParts(Chars(text), [], "", [], st);
    assert [] + Chars(text) == Chars(text);
    SlidingChunks(text, st.Lim());
  }

  lemma OccursIn(text: string, sep: string)
    requires sep != "" && Contains(text, sep)
    ensures sep[0] in text
  {
    var j :| 0 <= j <= |text| && sep <= text[j..];
    assert text[j..][0] == sep[0];
  }

  // ---- the bound is exact ----

  /** O characters, a separator and S characters: the first part is carried over whole. No text of
      this kind is a Python program. */
  function LongestText(st: Settings, sep: string): string {
    Repeat('$', st.chunkOverlap) + sep + Repeat('$', st.chunkSize)
  }

  lemma LongestTextIsPacked(st: Settings, sep: string, a: string, b: string)
    requires st.Valid() && st.chunkOverlap > 0
    requires |a| == st.chunkOverlap && |b| == st.chunkSize
    ensures Merged([a, b], sep, st.Lim()) == [a, a + sep + b]
  {
    var p, n := [a, b], |sep|;
    var ws := Pack(p, n, st.Lim());
    PackIsGreedy(p, n, st.Lim());
    assert Pos(p, n, 1) == |a| + n && Pos(p, n, 2) == |a| + n + |b| + n;
    WindowAt(p, n, st.Lim(), 0, 0, ws, 0);
    assert ws[0] == Window(0, 1);
    WindowAt(p, n, st.Lim(), 0, 0, ws, 1);
    assert ws == [Window(0, 1), Window(0, 2)];
    var cs := Merged(p, sep, st.Lim());
    assert p[0..1] == [a] && p[0..2] == [a, b] && [a, b][1..] == [b];
    assert Join([a, b], sep) == a + sep + Join([b], sep);
    assert cs[0] == a && cs[1] == a + sep + b;
  }

  lemma TwoParts(a: string, sep: string, b: string)
    requires sep in {"\n\n", "\n"}
    requires a != "" && b != "" && '\n' !in a && '\n' !in b
    ensures Parts(a + sep + b, sep) == [a, b]
  {
    SplitAtFirst(a, sep, b);
    SplitUnbroken(b, sep);
    assert [a, b][1..] == [b] && [b][1..] == [];
    assert NonEmpty([b]) == [b] && NonEmpty([a, b]) == [a] + NonEmpty([b]);
  }

  lemma NotBlank(a: string, b: string)
    requires b != "" && !IsSpace(b[0])
    ensures Strip(a + b) != ""
  {
    StripsToNothing(a + b);
    EraseAppend(a, b, IsSpace);
    assert Erase(b, IsSpace) != "";
  }

  lemma NoEmptyLine(t: string)
    requires forall j :: 0 <= j < |t| - 1 ==> t[j] != '\n' || t[j + 1] != '\n'
    ensures !Contains(t, "\n\n")
  {
    forall j | 0 <= j <= |t|
      ensures !("\n\n" <= t[j..])
    {
      if j + 1 < |t| {
        assert t[j..][0] == t[j] && t[j..][1] == t[j + 1];
      }
    }
  }

  /** The separator is the first one that occurs in the text. */
  lemma LongestTextChosen(st: Settings, sep: string) returns (i: nat)
    requires st.Valid() && st.chunkOverlap > 0 && sep in {"\n\n", "\n"}
    ensures IsSeparatorList(SEPARATORS) && i < 3
    ensures i == Chosen(LongestText(st, sep), SEPARATORS) && SEPARATORS[i] == sep
  {
    SeparatorsAreAList();
    i := if sep == "\n\n" then 0 else 1;
    var t, o := LongestText(st, sep), st.chunkOverlap;
    assert sep <= t[o..];
    if i == 1 {
      NoEmptyLine(t);
    }
  }

  lemma LongestTextIsSplit(st: Settings, sep: string)
    requires st.Valid() && st.chunkOverlap > 0 && sep in {"\n\n", "\n"}
    ensures LongestText(st, sep) in TextChunks(LongestText(st, sep), st)
  {
    var a, b, t := Repeat('$', st.chunkOverlap), Repeat('$', st.chunkSize), LongestText(st, sep);
    var i := LongestTextChosen(st, sep);
    TwoParts(a, sep, b);
    SeparatorAt(SEPARATORS, i);
    RunsOfShortParts([a, b], [], sep, SEPARATORS[i + 1..], st);
    assert [] + [a, b] == [a, b];
    LongestTextIsPacked(st, sep, a, b);
    NotBlank(a + sep, b);
    assert RecursiveChunks(t, SEPARATORS, st) == Flush([], [a, b], sep, st);
    assert [a, t][1] == t;
  }

  /** Every text chunk is within MAX_CHUNK_CHARS exactly when the settings leave room for the
      overlap and a separator. */
  lemma TextLimitIff(st: Settings)
    requires st.Valid()
    ensures (forall text, c :: c in TextChunks(text, st) ==> |c| <= st.maxChunkChars)
            <==> TextBound(st) <= st.maxChunkChars
  {
    forall text, c | TextBound(st) <= st.maxChunkChars && c in TextChunks(text, st)
      ensures |c| <= st.maxChunkChars
    {
      TextBounded(text, st);
    }
    if TextBound(st) > st.maxChunkChars {
      LongestTextIsSplit(st, "\n\n");
      assert |LongestText(st, "\n\n")| == TextBound(st);
    }
  }
}
