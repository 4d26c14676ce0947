/** The words of `chunk_text`: no word that fits into a chunk is cut, and no other words appear. */
module TextWords {
  import opened Text
  import opened Packing
  import opened PackingProperties
  import opened TextChunker
  import opened TextProperties
  import opened TextSlices

  // ---- words ----

  ghost predicate Unbroken(w: string) {
    forall c :: c in w ==> !IsBlankOrNewline(c)
  }

  /** A longest part of the text without blanks and newlines. */
  ghost predicate IsWordAt(t: string, a: nat, b: nat) {
    && a < b <= |t| && Unbroken(t[a..b])
    && (a > 0 ==> IsBlankOrNewline(t[a - 1]))
    && (b < |t| ==> IsBlankOrNewline(t[b]))
  }

  ghost predicate WordStandsAt(t: string, w: string, a: nat) {
    IsWordAt(t, a, a + |w|) && t[a..a + |w|] == w
  }

  ghost predicate HasWord(t: string, w: string) {
    exists a: nat :: WordStandsAt(t, w, a)
  }

  ghost predicate SomeHasWord(cs: seq<string>, w: string) {
    exists c :: c in cs && HasWord(c, w)
  }

  /** What stands before and behind the separators around a piece does not touch its words. */
  lemma WordBehind(pre: string, t: string, w: string, a: nat)
    requires WordStandsAt(t, w, a) && (pre == "" || IsBlankOrNewline(pre[|pre| - 1]))
    ensures WordStandsAt(pre + t, w, |pre| + a)
  {
    assert (pre + t)[|pre| + a..|pre| + a + |w|] == t[a..a + |w|];
  }

  lemma WordBefore(t: string, post: string, w: string, a: nat)
    requires WordStandsAt(t, w, a) && (post == "" || IsBlankOrNewline(post[0]))
    ensures WordStandsAt(t + post, w, a)
  {
    assert (t + post)[a..a + |w|] == t[a..a + |w|];
  }

  lemma {:induction false} JoinHasWord(ps: seq<string>, sep: string, p: string, w: string)
    requires IsBlankSeparator(sep) && p in ps && HasWord(p, w)
    ensures HasWord(Join(ps, sep), w)
  {
    var first, later := ps[0], ps[1..];
    assert ps == [first] + later;
    if later != [] {
      JoinCons(first, later, sep);
    }
    if p == first {
      var a: nat :| WordStandsAt(p, w, a);
      if later != [] {
        WordBefore(p, sep + Join(later, sep), w, a);
        AppendAssoc(p, sep, Join(later, sep));
      }
    } else {
      JoinHasWord(later, sep, p, w);
      var a: nat :| WordStandsAt(Join(later, sep), w, a);
      WordBehind(first + sep, Join(later, sep), w, a);
    }
  }

  /** No position is both in a word and in a separator. */
  lemma {:induction false} WordAvoids(p: string, sep: string, t: string, w: string, a: nat)
    requires IsBlankSeparator(sep) && WordStandsAt(p + sep + t, w, a)
    ensures a + |w| <= |p| || |p| + |sep| <= a
  {
    var s := p + sep + t;
    forall k | |p| <= k < |p| + |sep|
      ensures IsBlankOrNewline(s[k])
    {
      assert s[k] == sep[k - |p|] && sep[k - |p|] in sep;
    }
    forall k | a <= k < a + |w|
      ensures !IsBlankOrNewline(s[k])
    {
      assert s[a..a + |w|][k - a] == s[k] && w[k - a] in w;
    }
    assert IsBlankOrNewline(s[|p|]) && !IsBlankOrNewline(s[a]);
  }

  /** A word of two texts with a blank separator between them is a word of one of them. */
  lemma {:induction false} WordOnOneSide(p: string, sep: string, t: string, w: string)
    requires IsBlankSeparator(sep) && HasWord(p + sep + t, w)
    ensures HasWord(p, w) || HasWord(t, w)
  {
    var s := p + sep + t;
    var a: nat :| WordStandsAt(s, w, a);
    WordAvoids(p, sep, t, w, a);
    if a + |w| <= |p| {
      assert p[a..a + |w|] == s[a..a + |w|];
      assert WordStandsAt(p, w, a);
    } else {
      var d := |p| + |sep|;
      assert t[a - d..a - d + |w|] == s[a..a + |w|];
      assert WordStandsAt(t, w, a - d);
    }
  }

  lemma {:induction false} WordInPiece(ps: seq<string>, sep: string, w: string)
    requires IsBlankSeparator(sep) && w != "" && HasWord(Join(ps, sep), w)
    ensures SomeHasWord(NonEmpty(ps), w)
  {
    if |ps| > 1 && !HasWord(ps[0], w) {
      WordOnOneSide(ps[0], sep, Join(ps[1..], sep), w);
      WordInPiece(ps[1..], sep, w);
      var p :| p in NonEmpty(ps[1..]) && HasWord(p, w);
      assert p in NonEmpty(ps);
    } else if ps != [] {
      assert ps[0] != "";
      assert ps[0] in NonEmpty(ps);
    }
  }

  // ---- words are kept ----

  lemma MergedKeepsWord(good: seq<string>, sep: string, lim: Limits, p: string, w: string)
    requires IsBlankSeparator(sep) && p in good && HasWord(p, w)
    ensures SomeHasWord(Merged(good, sep, lim), w)
  {
    var i :| 0 <= i < |good| && good[i] == p;
    var ws := Pack(good, |sep|, lim);
    PackIsGreedy(good, |sep|, lim);
    var k := WindowOf(good, |sep|, lim, 0, 0, ws, i);
    assert p == good[ws[k].lo..ws[k].hi][i - ws[k].lo];
    JoinHasWord(good[ws[k].lo..ws[k].hi], sep, p, w);
    assert Merged(good, sep, lim)[k] in Merged(good, sep, lim);
  }

  /** The blank separators the text still has are still to be tried. */
  ghost predicate StillToTry(text: string, seps: seq<string>) {
    forall c :: c in text && IsBlankOrNewline(c) ==> [c] in seps
  }

  lemma {:induction false} PartHasNone(text: string, sep: string, part: string)
    requires sep != "" && part in Parts(text, sep)
    ensures !Contains(part, sep) && forall c :: c in part ==> c in text
  {
    PartsAre(text, sep);
    var ps :| IsCutting(text, sep, ps) && Parts(text, sep) == NonEmpty(ps);
    NonEmptyIsIn(ps, part);
    var a := PartIsThere(text, sep, part);
    assert forall c :: c in text[a..a + |part|] ==> c in text;
  }

  lemma LaterIsLeft(seps: seq<string>, i: nat, s: string)
    requires i < |seps| && s in seps && forall j :: 0 <= j <= i ==> seps[j] != s
    ensures s in seps[i + 1..]
  {
    var j :| 0 <= j < |seps| && seps[j] == s;
    assert seps[i + 1..][j - i - 1] == s;
  }

  lemma {:induction false} PartStillToTry(text: string, seps: seq<string>, part: string)
    requires IsSeparatorList(seps) && StillToTry(text, seps)
    requires var i := Chosen(text, seps); seps[i] != "" && part in Parts(text, seps[i])
    ensures StillToTry(part, seps[Chosen(text, seps) + 1..])
  {
    var i := Chosen(text, seps);
    PartHasNone(text, seps[i], part);
    forall c | c in part && IsBlankOrNewline(c)
      ensures [c] in seps[i + 1..]
    {
      OneCharacter(text, c);
      OneCharacter(part, c);
      LaterIsLeft(seps, i, [c]);
    }
  }

  lemma {:induction false} NonEmptyIsIn(ps: seq<string>, p: string)
    requires p in NonEmpty(ps)
    ensures p in ps
  {
    if ps != [] && p != ps[0] {
      NonEmptyIsIn(ps[1..], p);
    }
  }

  lemma {:induction false} RunsKeepWord(result: seq<string>, parts: seq<string>, good: seq<string>, sep: string,
                                        rest: seq<string>, st: Settings, w: string)
    requires IsBlankSeparator(sep) && IsSeparatorList(rest) && 0 < |w| <= st.chunkSize
    requires SomeHasWord(result, w) || SomeHasWord(good, w) || SomeHasWord(parts, w)
    requires forall p :: p in parts ==> StillToTry(p, rest)
    ensures SomeHasWord(Runs(result, parts, good, sep, rest, st), w)
    decreases |rest|, 2, |parts|
  {
    var flushed := Flush(result, good, sep, st);
    if SomeHasWord(good, w) {
      var p :| p in good && HasWord(p, w);
      MergedKeepsWord(good, sep, st.Lim(), p, w);
    }
    if parts != [] {
      var part, later := parts[0], parts[1..];
      assert parts == [part] + later && part in parts;
      assert forall p :: p in later ==> p in parts;
      if |part| > st.chunkSize {
        if HasWord(part, w) {
          RecursiveKeepsWord(part, rest, st, w);
        }
        RunsKeepWord(flushed + SplitFurther(part, rest, st), later, [], sep, rest, st, w);
      } else {
        assert part in good + [part];
        RunsKeepWord(result, later, good + [part], sep, rest, st, w);
      }
    }
  }

  lemma {:induction false} RecursiveKeepsWord(text: string, seps: seq<string>, st: Settings, w: string)
    requires IsSeparatorList(seps) && StillToTry(text, seps) && HasWord(text, w) && 0 < |w| <= st.chunkSize
    ensures SomeHasWord(RecursiveChunks(text, seps, st), w)
    decreases |seps|, 0, 0
  {
    var i := Chosen(text, seps);
    var sep := seps[i];
    SeparatorAt(seps, i);
    if sep == "" {
      WordIsText(text, seps, w);
      assert seps[i + 1..] == [];
      ShortWordIsChunk(text, st);
    } else {
      JoinSplit(text, sep);
      WordInPiece(Split(text, sep), sep, w);
      forall p | p in Parts(text, sep)
        ensures StillToTry(p, seps[i + 1..])
      {
        PartStillToTry(text, seps, p);
      }
      RunsKeepWord([], Parts(text, sep), [], sep, seps[i + 1..], st, w);
    }
  }

  lemma ShortWordIsChunk(w: string, st: Settings)
    requires 0 < |w| <= st.chunkSize
    ensures Runs([], Chars(w), [], "", [], st) == [w]
  {
    RunsOfShortParts(Chars(w), [], "", [], st);
    assert [] + Chars(w) == Chars(w);
    JoinChars(w);
    MergedToOne(Chars(w), "", st.Lim());
  }

  lemma WordIsText(text: string, seps: seq<string>, w: string)
    requires IsSeparatorList(seps) && StillToTry(text, seps) && HasWord(text, w)
    requires seps[Chosen(text, seps)] == ""
    ensures w == text
  {
    forall c | c in text
      ensures !IsBlankOrNewline(c)
    {
      OneCharacter(text, c);
      if IsBlankOrNewline(c) {
        var j :| 0 <= j < |seps| && seps[j] == [c];
        SeparatorAt(seps, Chosen(text, seps));
        assert false;
      }
    }
    var a: nat :| WordStandsAt(text, w, a);
    assert text[0..|text|] == text;
  }

  /** A word of at most S characters is a word of some chunk. */
  lemma WordsAreKept(text: string, st: Settings, w: string)
    requires Strip(text) != "" && HasWord(text, w) && |w| <= st.chunkSize
    ensures SomeHasWord(TextChunks(text, st), w)
  {
    SeparatorsAreAList();
    assert SEPARATORS[1] == "\n" && SEPARATORS[2] == " ";
    RecursiveKeepsWord(text, SEPARATORS, st, w);
  }

  // ---- no other words ----

  lemma {:induction false} RunLeads(s: string, w: string)
    requires Unbroken(w)
    ensures w <= s <==> w <= Squeezed(s)
  {
    if w != "" && s != "" {
      assert w[0] in w && forall c :: c in w[1..] ==> c in w;
      if !IsBlankOrNewline(s[0]) {
        RunLeads(s[1..], w[1..]);
        PrefixCons(w, s);
        PrefixCons(w, Squeezed(s));
      }
    }
  }

  lemma PrefixCons(w: string, s: string)
    requires w != "" && s != ""
    ensures w <= s <==> w[0] == s[0] && w[1..] <= s[1..]
  {
    assert w == [w[0]] + w[1..] && s == [s[0]] + s[1..];
  }

  lemma ContainsCons(s: string, w: string)
    requires s != ""
    ensures Contains(s, w) <==> w <= s || Contains(s[1..], w)
  {
    if Contains(s, w) {
      var i :| 0 <= i <= |s| && w <= s[i..];
      assert i > 0 ==> s[1..][i - 1..] == s[i..];
    }
    if Contains(s[1..], w) {
      SuffixOccurs(s, 1, w);
    }
    assert s[0..] == s;
  }

  /** Squeezing keeps the words. */
  lemma {:induction false} SqueezedContains(s: string, w: string)
    requires Unbroken(w) && w != ""
    ensures Contains(s, w) <==> Contains(Squeezed(s), w)
  {
    assert w[0] in w;
    if s != "" {
      SqueezedContains(s[1..], w);
      RunLeads(s, w);
      ContainsCons(s, w);
      if IsBlankOrNewline(s[0]) && !(|s| > 1 && IsBlankOrNewline(s[1])) {
        assert (" " + Squeezed(s[1..]))[1..] == Squeezed(s[1..]);
        ContainsCons(Squeezed(s), w);
      } else if !IsBlankOrNewline(s[0]) {
        assert Squeezed(s)[1..] == Squeezed(s[1..]);
        ContainsCons(Squeezed(s), w);
      }
    }
  }

  /** What stands in a chunk without a blank or newline in it stands in the text, too. */
  lemma {:induction false} NoOtherWords(text: string, st: Settings, c: string, w: string)
    requires c in TextChunks(text, st) && Unbroken(w) && w != "" && Contains(c, w)
    ensures Contains(text, w)
  {
    ChunksAreSlices(text, st);
    var a: nat, b: nat :| IsSliceAt(text, c, a, b);
    SqueezedContains(c, w);
    SqueezedContains(text[a..b], w);
    var i :| 0 <= i <= b - a && w <= text[a..b][i..];
    assert text[a..b][i..] == text[a + i..b];
    assert w <= text[a + i..];
  }
}
