/** What it means that a list of chunks loses and reorders nothing of a text. */
module Coverage {
  import opened Text
  import opened Packing

  /** Span k follows span k - 1 without a gap; the first starts at 0 and the last ends at n. */
  ghost predicate LinkAt(n: nat, ws: seq<Window>, k: nat)
    requires k < |ws|
  {
    && ws[k].lo <= ws[k].hi <= n
    && (k == 0 ==> ws[k].lo == 0)
    && (k == |ws| - 1 ==> ws[k].hi == n)
    && (k > 0 ==> ws[k - 1].lo <= ws[k].lo <= ws[k - 1].hi <= ws[k].hi)
  }

  ghost predicate Chain(n: nat, ws: seq<Window>) {
    && (ws == [] ==> n == 0)
    && forall k :: 0 <= k < |ws| ==> LinkAt(n, ws, k)
  }

  /** Chunk c, with the characters in `gone` erased, is the span w of e. */
  ghost predicate IsSpan(e: string, c: string, gone: char -> bool, w: Window) {
    w.lo <= w.hi <= |e| && Erase(c, gone) == e[w.lo..w.hi]
  }

  ghost predicate SpanAt(e: string, cs: seq<string>, gone: char -> bool, ws: seq<Window>, k: nat)
    requires k < |cs| == |ws|
  {
    IsSpan(e, cs[k], gone, ws[k])
  }

  ghost predicate Spans(e: string, cs: seq<string>, gone: char -> bool, ws: seq<Window>) {
    && |ws| == |cs|
    && Chain(|e|, ws)
    && forall k :: 0 <= k < |cs| ==> SpanAt(e, cs, gone, ws, k)
  }

  /** Chunks k - 1 and k share text only if they are too long to be joined within the limit. */
  ghost predicate TightAt(size: nat, cs: seq<string>, ws: seq<Window>, k: nat)
    requires 0 < k < |cs| == |ws|
  {
    ws[k - 1].hi == ws[k].lo || |cs[k - 1]| + 2 + |cs[k]| > size
  }

  ghost predicate Tight(size: nat, cs: seq<string>, ws: seq<Window>)
    requires |ws| == |cs|
  {
    forall k :: 0 < k < |cs| ==> TightAt(size, cs, ws, k)
  }

  ghost predicate Covers(e: string, cs: seq<string>, gone: char -> bool) {
    exists ws :: Spans(e, cs, gone, ws)
  }

  ghost predicate TightlyCovers(e: string, cs: seq<string>, gone: char -> bool, size: nat) {
    exists ws :: Spans(e, cs, gone, ws) && Tight(size, cs, ws)
  }

  lemma TightIsCover(e: string, cs: seq<string>, gone: char -> bool, size: nat)
    requires TightlyCovers(e, cs, gone, size)
    ensures Covers(e, cs, gone)
  {
  }

  ghost function Shift(ws: seq<Window>, d: nat): (vs: seq<Window>)
    ensures |vs| == |ws|
    ensures forall k :: 0 <= k < |ws| ==> vs[k] == Window(ws[k].lo + d, ws[k].hi + d)
  {
    seq(|ws|, k requires 0 <= k < |ws| => Window(ws[k].lo + d, ws[k].hi + d))
  }

  lemma ChainAppend(n: nat, ws: seq<Window>, m: nat, vs: seq<Window>)
    requires Chain(n, ws) && Chain(m, vs)
    ensures Chain(n + m, ws + Shift(vs, n))
  {
    var us, end := ws + Shift(vs, n), n + m;
    forall k | 0 <= k < |us|
      ensures LinkAt(end, us, k)
    {
      if k < |ws| {
        assert LinkAt(n, ws, k);
      } else {
        assert LinkAt(m, vs, k - |ws|);
        assert us[k] == Shift(vs, n)[k - |ws|];
        if k == |ws| && ws != [] {
          assert LinkAt(n, ws, k - 1);
        } else if k > |ws| {
          assert us[k - 1] == Shift(vs, n)[k - 1 - |ws|];
        }
      }
    }
    if us == [] {
      assert ws == [] && vs == [];
    }
  }

  lemma SpanOfAppend(e: string, e': string, c: string, gone: char -> bool, w: Window)
    ensures IsSpan(e, c, gone, w) ==> IsSpan(e + e', c, gone, w)
    ensures IsSpan(e', c, gone, w) ==> IsSpan(e + e', c, gone, Window(w.lo + |e|, w.hi + |e|))
  {
    if w.lo <= w.hi <= |e| {
      assert (e + e')[w.lo..w.hi] == e[w.lo..w.hi];
    }
    if w.lo <= w.hi <= |e'| {
      assert (e + e')[w.lo + |e|..w.hi + |e|] == e'[w.lo..w.hi];
    }
  }

  lemma SpansAppend(e: string, cs: seq<string>, ws: seq<Window>, e': string, cs': seq<string>, vs: seq<Window>,
                    gone: char -> bool)
    requires Spans(e, cs, gone, ws) && Spans(e', cs', gone, vs)
    ensures Spans(e + e', cs + cs', gone, ws + Shift(vs, |e|))
  {
    var us, all, ee := ws + Shift(vs, |e|), cs + cs', e + e';
    ChainAppend(|e|, ws, |e'|, vs);
    forall k | 0 <= k < |all|
      ensures SpanAt(ee, all, gone, us, k)
    {
      if k < |cs| {
        assert SpanAt(e, cs, gone, ws, k);
        SpanOfAppend(e, e', cs[k], gone, ws[k]);
      } else {
        assert SpanAt(e', cs', gone, vs, k - |cs|);
        SpanOfAppend(e, e', cs'[k - |cs|], gone, vs[k - |cs|]);
      }
    }
  }

  lemma TightAppend(n: nat, size: nat, cs: seq<string>, ws: seq<Window>, m: nat, cs': seq<string>, vs: seq<Window>)
    requires |ws| == |cs| && |vs| == |cs'|
    requires Chain(n, ws) && Tight(size, cs, ws) && Chain(m, vs) && Tight(size, cs', vs)
    ensures Tight(size, cs + cs', ws + Shift(vs, n))
  {
    var us, all := ws + Shift(vs, n), cs + cs';
    forall k | 0 < k < |all|
      ensures TightAt(size, all, us, k)
    {
      if k < |cs| {
        assert TightAt(size, cs, ws, k);
      } else if k > |cs| {
        assert TightAt(size, cs', vs, k - |cs|);
      } else {
        assert LinkAt(n, ws, k - 1) && LinkAt(m, vs, 0);
      }
    }
  }

  lemma CoversAppend(e: string, cs: seq<string>, e': string, cs': seq<string>, gone: char -> bool, size: nat)
    requires TightlyCovers(e, cs, gone, size) && TightlyCovers(e', cs', gone, size)
    ensures TightlyCovers(e + e', cs + cs', gone, size)
  {
    var ws :| Spans(e, cs, gone, ws) && Tight(size, cs, ws);
    var vs :| Spans(e', cs', gone, vs) && Tight(size, cs', vs);
    SpansAppend(e, cs, ws, e', cs', vs, gone);
    TightAppend(|e|, size, cs, ws, |e'|, cs', vs);
  }

  lemma CoversNothing(gone: char -> bool, size: nat)
    ensures TightlyCovers("", [], gone, size)
  {
    assert Spans("", [], gone, []) && Tight(size, [], []);
  }

  lemma CoversWhole(c: string, gone: char -> bool, size: nat)
    ensures TightlyCovers(Erase(c, gone), [c], gone, size)
  {
    var ws := [Window(0, |Erase(c, gone)|)];
    assert LinkAt(|Erase(c, gone)|, ws, 0) && SpanAt(Erase(c, gone), [c], gone, ws, 0);
    assert Spans(Erase(c, gone), [c], gone, ws) && Tight(size, [c], ws);
  }
}
