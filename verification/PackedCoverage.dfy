/** Packing neighbouring chunks together, as the Python and Markdown chunkers do at the end,
    keeps what the chunks cover. */
module PackedCoverage {
  import opened Text
  import opened Packing
  import opened PackingProperties
  import opened Coverage
  import opened TextProperties

  lemma {:induction false} ChainGrows(n: nat, vs: seq<Window>, i: nat, j: nat)
    requires Chain(n, vs) && i <= j < |vs|
    ensures vs[i].lo <= vs[j].lo && vs[i].hi <= vs[j].hi
    decreases j
  {
    assert LinkAt(n, vs, j);
    if i < j {
      ChainGrows(n, vs, i, j - 1);
    }
  }

  lemma PairFits(p: seq<string>, sep: nat, lo: nat, j: nat, hi: nat)
    requires lo < j < hi <= |p|
    ensures |p[j - 1]| + sep + |p[j]| <= Len(p, sep, lo, hi)
  {
    LenGrows(p, sep, lo, j - 1, j + 1, hi);
    PosGrows(p, sep, j - 1, j);
    PosGrows(p, sep, j, j + 1);
  }

  /** Inside one packed window the pieces never share text. */
  lemma PackedPiecesAbut(e: string, p: seq<string>, gone: char -> bool, size: nat, vs: seq<Window>, k: nat, j: nat)
    requires Spans(e, p, gone, vs) && Tight(size, p, vs)
    requires k < |Pack(p, 2, Limits(size, 0))|
    requires var w := Pack(p, 2, Limits(size, 0))[k]; w.lo < j < w.hi <= |p|
    ensures vs[j - 1].hi == vs[j].lo
  {
    var lim := Limits(size, 0);
    var ws := Pack(p, 2, lim);
    PackIsGreedy(p, 2, lim);
    WindowAt(p, 2, lim, 0, 0, ws, k);
    var w := ws[k];
    PairFits(p, 2, w.lo, j, w.hi);
    assert TightAt(size, p, vs, j);
    if Len(p, 2, w.lo, w.hi) > size {
      // one new piece, after a carried-over part of length 0: a single empty piece
      var start := ws[k - 1].hi;
      if w.lo + 1 < start {
        PairFits(p, 2, w.lo, w.lo + 1, start);
      }
      assert j == start && w.lo == j - 1;
      assert Len(p, 2, j - 1, j) == |p[j - 1]|;
      assert p[j - 1] == "" && Erase("", gone) == "";
      assert SpanAt(e, p, gone, vs, j - 1) && LinkAt(|e|, vs, j);
      assert vs[j - 1].lo == vs[j - 1].hi;
    }
  }

  lemma {:induction false} AbuttingPieces(e: string, p: seq<string>, gone: char -> bool, vs: seq<Window>,
                                          lo: nat, hi: nat)
    requires Spans(e, p, gone, vs) && lo < hi <= |p|
    requires forall j :: lo < j < hi ==> vs[j - 1].hi == vs[j].lo
    ensures vs[lo].lo <= vs[hi - 1].hi <= |e|
    ensures Flat(p[lo..hi], gone) == e[vs[lo].lo..vs[hi - 1].hi]
    decreases hi
  {
    ChainGrows(|e|, vs, lo, hi - 1);
    assert LinkAt(|e|, vs, lo) && LinkAt(|e|, vs, hi - 1) && SpanAt(e, p, gone, vs, hi - 1);
    if lo + 1 < hi {
      AbuttingPieces(e, p, gone, vs, lo, hi - 1);
      assert p[lo..hi] == p[lo..hi - 1] + [p[hi - 1]];
      FlatSnoc(p[lo..hi - 1], p[hi - 1], gone);
    } else {
      assert p[lo..hi] == [p[lo]];
      FlatSingle(p[lo], gone);
    }
  }

  ghost function PackedSpans(vs: seq<Window>, ws: seq<Window>): (us: seq<Window>)
    requires InRange(ws, |vs|)
    ensures |us| == |ws|
    ensures forall k :: 0 <= k < |ws| ==> us[k] == Window(vs[ws[k].lo].lo, vs[ws[k].hi - 1].hi)
  {
    seq(|ws|, k requires 0 <= k < |ws| => Window(vs[ws[k].lo].lo, vs[ws[k].hi - 1].hi))
  }

  lemma PackedSpanAt(e: string, p: seq<string>, gone: char -> bool, size: nat, vs: seq<Window>, k: nat, w: Window)
    requires gone('\n') && Spans(e, p, gone, vs) && Tight(size, p, vs)
    requires k < |Pack(p, 2, Limits(size, 0))| && w == Pack(p, 2, Limits(size, 0))[k]
    ensures w.lo < w.hi <= |p|
    ensures IsSpan(e, Chunk(p, PARAGRAPH, w), gone, Window(vs[w.lo].lo, vs[w.hi - 1].hi))
  {
    forall j | w.lo < j < w.hi
      ensures vs[j - 1].hi == vs[j].lo
    {
      PackedPiecesAbut(e, p, gone, size, vs, k, j);
    }
    AbuttingPieces(e, p, gone, vs, w.lo, w.hi);
    EraseJoin(p[w.lo..w.hi], PARAGRAPH, gone);
  }

  lemma PackedSpanLink(n: nat, vs: seq<Window>, w: Window, w': Window)
    requires Chain(n, vs)
    requires w.lo <= w'.lo <= w.hi <= w'.hi <= |vs| && w.lo < w.hi && w'.lo < w'.hi
    ensures vs[w.lo].lo <= vs[w'.lo].lo <= vs[w.hi - 1].hi <= vs[w'.hi - 1].hi <= n
  {
    ChainGrows(n, vs, w.lo, w'.lo);
    ChainGrows(n, vs, w.hi - 1, w'.hi - 1);
    assert LinkAt(n, vs, w'.lo) && LinkAt(n, vs, w'.hi - 1);
    if w'.lo < w.hi {
      ChainGrows(n, vs, w'.lo, w.hi - 1);
    }
  }

  lemma PackedLink(n: nat, p: seq<string>, size: nat, vs: seq<Window>, k: nat)
    requires Chain(n, vs) && |vs| == |p| && k < |Pack(p, 2, Limits(size, 0))|
    ensures LinkAt(n, PackedSpans(vs, Pack(p, 2, Limits(size, 0))), k)
  {
    var ws := Pack(p, 2, Limits(size, 0));
    PackIsGreedy(p, 2, Limits(size, 0));
    WindowAt(p, 2, Limits(size, 0), 0, 0, ws, k);
    PackedSpanLink(n, vs, ws[k], ws[k]);
    if k == 0 {
      assert LinkAt(n, vs, 0);
    } else {
      WindowsAdvance(p, 2, Limits(size, 0), k);
      PackedSpanLink(n, vs, ws[k - 1], ws[k]);
    }
    if k == |ws| - 1 {
      assert LinkAt(n, vs, |vs| - 1);
    }
  }

  lemma PackedCovers(e: string, p: seq<string>, gone: char -> bool, size: nat)
    requires gone('\n') && TightlyCovers(e, p, gone, size)
    ensures Covers(e, Merged(p, PARAGRAPH, Limits(size, 0)), gone)
  {
    var vs :| Spans(e, p, gone, vs) && Tight(size, p, vs);
    var ws, cs := Pack(p, 2, Limits(size, 0)), Merged(p, PARAGRAPH, Limits(size, 0));
    var us := PackedSpans(vs, ws);
    PackIsGreedy(p, 2, Limits(size, 0));
    forall k | 0 <= k < |us|
      ensures LinkAt(|e|, us, k)
    {
      PackedLink(|e|, p, size, vs, k);
    }
    forall k | 0 <= k < |cs|
      ensures SpanAt(e, cs, gone, us, k)
    {
      PackedSpanAt(e, p, gone, size, vs, k, ws[k]);
    }
    assert Spans(e, cs, gone, us);
  }
}
