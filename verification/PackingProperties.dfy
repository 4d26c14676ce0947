/** What `_merge_splits` promises: the shape of its chunks, exact partitions and the fewest
    chunks without overlap, and the sliding window over single characters. */
module PackingProperties {
  import opened Common
  import opened Text
  import opened Packing

  // ---- with overlap ----

  /** Number of pieces already packed when window k starts. */
  ghost function Start(ws: seq<Window>, k: nat): nat
    requires k <= |ws|
  {
    if k == 0 then 0 else ws[k - 1].hi
  }

  lemma {:induction false} WindowAt(p: seq<string>, sep: nat, lim: Limits, lo: nat, from: nat, ws: seq<Window>, k: nat)
    requires k < |ws| && Greedy(p, sep, lim, lo, from, ws)
    ensures GreedyWindow(p, sep, lim.size, if k == 0 then from else ws[k - 1].hi, ws[k])
    ensures k > 0 ==> ws[k - 1].hi <= |p| && IsCarry(p, sep, lim.overlap, ws[k - 1], ws[k].lo)
    ensures k == 0 ==> ws[k].lo == lo
    ensures k == |ws| - 1 <==> ws[k].hi == |p|
    decreases k
  {
    if k > 0 {
      WindowAt(p, sep, lim, ws[1].lo, ws[0].hi, ws[1..], k - 1);
    }
  }

  lemma WindowsAdvance(p: seq<string>, sep: nat, lim: Limits, k: nat)
    requires 0 < k < |Pack(p, sep, lim)|
    ensures var w, w' := Pack(p, sep, lim)[k - 1], Pack(p, sep, lim)[k];
            && w.lo <= w'.lo <= w.hi < w'.hi <= |p| && w.lo < w.hi
            && Len(p, sep, w.lo, w.hi + 1) > lim.size
  {
    var ws := Pack(p, sep, lim);
    PackIsGreedy(p, sep, lim);
    WindowAt(p, sep, lim, 0, 0, ws, k);
    WindowAt(p, sep, lim, 0, 0, ws, k - 1);
  }

  /** Chunk k is the join of a window of pieces; window ends strictly increase; the carried-over
      part is the longest suffix of the window before that is at most `overlap` long; and a chunk
      above the size limit is exactly that suffix, a separator and one piece. */
  lemma ChunkShape(p: seq<string>, sep: string, lim: Limits, k: nat)
    requires k < |Pack(p, |sep|, lim)|
    ensures var ws := Pack(p, |sep|, lim);
            var w, start, chunk := ws[k], Start(ws, k), Merged(p, sep, lim)[k];
            && w.lo <= start < w.hi <= |p|
            && chunk == Join(p[w.lo..w.hi], sep)
            && (k == 0 ==> w.lo == 0)
            && (k == |ws| - 1 <==> w.hi == |p|)
            && (k > 0 ==> start <= |p| && IsCarry(p, |sep|, lim.overlap, ws[k - 1], w.lo))
            && |Join(p[w.lo..start], sep)| <= lim.overlap
            && (|chunk| > lim.size ==>
                  && w.hi == start + 1
                  && chunk == if w.lo == start then p[start] else Join(p[w.lo..start], sep) + sep + p[start])
  {
    var ws := Pack(p, |sep|, lim);
    PackIsGreedy(p, |sep|, lim);
    WindowAt(p, |sep|, lim, 0, 0, ws, k);
    var w, start := ws[k], Start(ws, k);
    ChunkLength(p, sep, w);
    ChunkLength(p, sep, Window(w.lo, start));
    if w.hi == start + 1 && w.lo < start {
      assert p[w.lo..w.hi] == p[w.lo..start] + [p[start]];
      JoinAppend(p[w.lo..start], [p[start]], sep);
    } else if w.hi == start + 1 {
      assert p[w.lo..w.hi] == [p[start]];
    }
  }

  /** The true bound: pieces within the limit can still make a chunk of size + overlap + separator,
      but only where something is carried over, which takes an overlap when no piece is empty. */
  lemma ChunkBound(p: seq<string>, sep: string, lim: Limits, k: nat)
    requires k < |Pack(p, |sep|, lim)|
    requires forall s :: s in p ==> 0 < |s| <= lim.size
    ensures 0 < |Merged(p, sep, lim)[k]| <= lim.size + (if lim.overlap == 0 then 0 else lim.overlap + |sep|)
  {
    ChunkShape(p, sep, lim, k);
    var ws := Pack(p, |sep|, lim);
    var w, start := ws[k], Start(ws, k);
    ChunkLength(p, sep, w);
    ChunkLength(p, sep, Window(w.lo, start));
    LenGrows(p, |sep|, w.lo, w.lo, w.lo + 1, w.hi);
    PosGrows(p, |sep|, w.lo, w.lo + 1);
    assert p[w.lo] in p && p[start] in p;
    if w.lo < start {
      LenGrows(p, |sep|, w.lo, w.lo, w.lo + 1, start);
    }
  }

  lemma {:induction false} WindowOf(p: seq<string>, sep: nat, lim: Limits, lo: nat, from: nat, ws: seq<Window>, i: nat)
    returns (k: nat)
    requires Greedy(p, sep, lim, lo, from, ws) && from <= i < |p|
    ensures k < |ws| && ws[k].lo <= i < ws[k].hi <= |p|
    ensures (if k == 0 then from else ws[k - 1].hi) <= i
    decreases |ws|
  {
    if i < ws[0].hi {
      k := 0;
    } else {
      var k' := WindowOf(p, sep, lim, ws[1].lo, ws[0].hi, ws[1..], i);
      k := k' + 1;
    }
  }

  /** No piece is ever cut: some chunk is at least as long. */
  lemma PieceIsKept(p: seq<string>, sep: string, lim: Limits, i: nat) returns (k: nat)
    requires i < |p|
    ensures k < |Merged(p, sep, lim)| && |Merged(p, sep, lim)[k]| >= |p[i]|
  {
    var ws := Pack(p, |sep|, lim);
    PackIsGreedy(p, |sep|, lim);
    k := WindowOf(p, |sep|, lim, 0, 0, ws, i);
    ChunkLength(p, sep, ws[k]);
    LenStep(p, |sep|, i, i);
    LenGrows(p, |sep|, ws[k].lo, i, i + 1, ws[k].hi);
  }

  lemma EmptySurvives(p: seq<string>, sep: nat, w: Window, c: nat)
    requires w.lo < w.hi <= |p| && p[w.hi - 1] == "" && IsCarry(p, sep, 0, w, c)
    ensures c < w.hi
  {
    LenStep(p, sep, w.hi - 1, w.hi - 1);
    assert Len(p, sep, w.hi - 1, w.hi) == 0;
  }

  /** The window of a piece takes an empty piece in front of it along, even without overlap. */
  lemma EmptyIsTaken(p: seq<string>, sep: nat, size: nat, i: nat) returns (k: nat)
    requires 0 < i < |p| && p[i - 1] == ""
    ensures var ws := Pack(p, sep, Limits(size, 0)); k < |ws| && ws[k].lo < i < ws[k].hi <= |p|
  {
    var ws := Pack(p, sep, Limits(size, 0));
    PackIsGreedy(p, sep, Limits(size, 0));
    k := WindowOf(p, sep, Limits(size, 0), 0, 0, ws, i);
    WindowAt(p, sep, Limits(size, 0), 0, 0, ws, k);
    if k > 0 && ws[k - 1].hi == i {
      EmptySurvives(p, sep, ws[k - 1], ws[k].lo);
    }
  }

  lemma EmptyIsCarried(p: seq<string>, sep: string, size: nat, i: nat) returns (k: nat)
    requires 0 < i < |p| && p[i - 1] == ""
    ensures var cs := Merged(p, sep, Limits(size, 0)); k < |cs| && |cs[k]| >= |sep| + |p[i]|
  {
    k := EmptyIsTaken(p, |sep|, size, i);
    var w := Pack(p, |sep|, Limits(size, 0))[k];
    ChunkLength(p, sep, w);
    LenGrows(p, |sep|, w.lo, i - 1, i + 1, w.hi);
    LenStep(p, |sep|, i - 1, i - 1);
    LenStep(p, |sep|, i - 1, i);
  }

  // ---- without overlap ----

  /** vs cuts the pieces from `from` on into consecutive non-empty runs. */
  ghost predicate Contiguous(n: nat, from: nat, vs: seq<Window>)
    decreases |vs|
  {
    if vs == [] then from == n
    else vs[0].lo == from < vs[0].hi <= n && Contiguous(n, vs[0].hi, vs[1..])
  }

  ghost predicate WithinLimit(p: seq<string>, sep: nat, size: nat, w: Window) {
    w.lo < w.hi <= |p| && (w.hi == w.lo + 1 || Len(p, sep, w.lo, w.hi) <= size)
  }

  lemma {:induction false} GreedyPartitions(p: seq<string>, sep: nat, size: nat, from: nat, ws: seq<Window>)
    requires Greedy(p, sep, Limits(size, 0), from, from, ws)
    requires forall i :: 0 <= i < |p| - 1 ==> p[i] != ""
    ensures Contiguous(|p|, from, ws)
    ensures forall w :: w in ws ==> WithinLimit(p, sep, size, w)
    decreases |ws|
  {
    if |ws| > 1 {
      var hi, c := ws[0].hi, ws[1].lo;
      if c < hi {
        LenGrows(p, sep, c, hi - 1, hi, hi);
        PosGrows(p, sep, hi - 1, hi);
      }
      GreedyPartitions(p, sep, size, hi, ws[1..]);
    }
  }

  lemma {:induction false} JoinChunks(p: seq<string>, sep: string, from: nat, ws: seq<Window>)
    requires ws != [] && Contiguous(|p|, from, ws)
    requires InRange(ws, |p|)
    ensures Join(Chunks(p, sep, ws), sep) == Join(p[from..], sep)
    decreases |ws|
  {
    var hi, rest := ws[0].hi, ws[1..];
    if rest == [] {
      assert p[from..hi] == p[from..];
    } else {
      JoinChunks(p, sep, hi, rest);
      assert Chunks(p, sep, ws)[1..] == Chunks(p, sep, rest);
      assert p[from..] == p[from..hi] + p[hi..];
      assert rest[0].lo == hi < |p|;
      JoinAppend(p[from..hi], p[hi..], sep);
    }
  }

  /** Without overlap and empty pieces: a partition in order ... */
  lemma {:induction false} MergedPartitions(p: seq<string>, sep: nat, size: nat)
    requires forall s :: s in p ==> s != ""
    ensures Contiguous(|p|, 0, Pack(p, sep, Limits(size, 0)))
    ensures forall w :: w in Pack(p, sep, Limits(size, 0)) ==> WithinLimit(p, sep, size, w)
  {
    var ws := Pack(p, sep, Limits(size, 0));
    PackIsGreedy(p, sep, Limits(size, 0));
    assert forall i :: 0 <= i < |p| ==> p[i] in p;
    GreedyPartitions(p, sep, size, 0, ws);
  }

  /** ... nothing lost or repeated. */
  lemma MergedKeepsAll(p: seq<string>, sep: string, size: nat)
    requires forall s :: s in p ==> s != ""
    ensures Join(Merged(p, sep, Limits(size, 0)), sep) == Join(p, sep)
  {
    MergedPartitions(p, |sep|, size);
    if p != [] {
      JoinChunks(p, sep, 0, Pack(p, |sep|, Limits(size, 0)));
      assert p[0..] == p;
    }
  }

  /** Greedy stays ahead of every other admissible partition. */
  lemma {:induction false} StaysAhead(p: seq<string>, sep: nat, size: nat, from: nat, ws: seq<Window>,
                                      from': nat, vs: seq<Window>)
    requires Greedy(p, sep, Limits(size, 0), from, from, ws) && Contiguous(|p|, from, ws)
    requires from' <= from && Contiguous(|p|, from', vs)
    requires forall v :: v in vs ==> WithinLimit(p, sep, size, v)
    ensures |ws| <= |vs|
    decreases |vs|
  {
    if ws != [] && vs != [] {
      var h, h' := ws[0].hi, vs[0].hi;
      assert vs[0] in vs;
      if h' <= from {
        StaysAhead(p, sep, size, from, ws, h', vs[1..]);
      } else {
        if h < h' {
          LenGrows(p, sep, from', from, h + 1, h');
        }
        StaysAhead(p, sep, size, h, ws[1..], h', vs[1..]);
      }
    }
  }

  /** The number of chunks is the least any partition into single pieces and runs within the limit has. */
  lemma MergedIsMinimal(p: seq<string>, sep: string, size: nat, vs: seq<Window>)
    requires forall s :: s in p ==> s != ""
    requires Contiguous(|p|, 0, vs)
    requires forall v :: v in vs ==> WithinLimit(p, |sep|, size, v)
    ensures |Merged(p, sep, Limits(size, 0))| <= |vs|
  {
    PackIsGreedy(p, |sep|, Limits(size, 0));
    MergedPartitions(p, |sep|, size);
    StaysAhead(p, |sep|, size, 0, Pack(p, |sep|, Limits(size, 0)), 0, vs);
  }

  lemma {:induction false} EmptyPieceRepeats(p: seq<string>, sep: nat, from: nat, ws: seq<Window>, i: nat)
    requires sep >= 2 && Greedy(p, sep, Limits(1, 0), from, from, ws)
    requires from <= i < |p| - 1 && p[i] == ""
    ensures !Contiguous(|p|, from, ws)
    decreases |ws|
  {
    if Contiguous(|p|, from, ws) {
      var hi := ws[0].hi;
      if hi > from + 1 {
        PosGrows(p, sep, from, from + 1);
        PosGrows(p, sep, from + 1, hi);
      }
      if i > from {
        EmptyPieceRepeats(p, sep, hi, ws[1..], i);
      }
    }
  }

  /** Exactly when the windows without overlap never repeat a piece, whatever the size limit:
      an empty piece survives the drop loop, unless it is the last. */
  lemma PartitionsIff(p: seq<string>, sep: nat)
    requires sep >= 2
    ensures (forall size: nat :: size >= 1 ==> Contiguous(|p|, 0, Pack(p, sep, Limits(size, 0))))
            <==> (forall i :: 0 <= i < |p| - 1 ==> p[i] != "")
  {
    forall size: nat | forall i :: 0 <= i < |p| - 1 ==> p[i] != ""
      ensures Contiguous(|p|, 0, Pack(p, sep, Limits(size, 0)))
    {
      PackIsGreedy(p, sep, Limits(size, 0));
      GreedyPartitions(p, sep, size, 0, Pack(p, sep, Limits(size, 0)));
    }
    forall i: nat | i < |p| - 1 && p[i] == ""
      ensures !Contiguous(|p|, 0, Pack(p, sep, Limits(1, 0)))
    {
      PackIsGreedy(p, sep, Limits(1, 0));
      EmptyPieceRepeats(p, sep, 0, Pack(p, sep, Limits(1, 0)), i);
    }
  }

  // ---- the sliding window over characters ----

  /** How many windows of `size` characters, each starting `step` after the one before, cover n. */
  function WindowCount(n: nat, size: nat, step: nat): nat
    requires step > 0
  {
    if n == 0 then 0 else if n <= size then 1 else 1 + (n - size + step - 1) / step
  }

  lemma {:induction false} CharsLen(t: string, lo: nat, hi: nat)
    requires lo <= hi <= |t|
    ensures Len(Chars(t), 0, lo, hi) == hi - lo
  {
    CharsPos(t, lo);
    CharsPos(t, hi);
  }

  lemma {:induction false} CharsPos(t: string, i: nat)
    requires i <= |t|
    ensures Pos(Chars(t), 0, i) == i
  {
    if i > 0 {
      CharsPos(t, i - 1);
    }
  }

  lemma CharWindow(t: string, lim: Limits, lo: nat, from: nat, ws: seq<Window>)
    requires lim.overlap < lim.size && lo <= from < |t| && from - lo <= lim.overlap
    requires Greedy(Chars(t), 0, lim, lo, from, ws)
    ensures ws != [] && ws[0] == Window(lo, Min(lo + lim.size, |t|))
    ensures |ws| > 1 <==> lo + lim.size < |t|
    ensures |ws| > 1 ==> ws[1].lo == lo + (lim.size - lim.overlap)
  {
    var hi := ws[0].hi;
    CharsLen(t, lo, hi);
    if hi < |t| {
      CharsLen(t, lo, hi + 1);
    }
    if |ws| > 1 {
      var c := ws[1].lo;
      CharsLen(t, c, hi);
      CharsLen(t, hi - lim.overlap, hi);
      if c > lo {
        CharsLen(t, c - 1, hi);
      }
    }
  }

  lemma MulAtLeast(k: int, d: int)
    requires k >= 1 && d > 0
    ensures k * d >= d
  {
    assert (k - 1) * d >= 0;
  }

  lemma DivUnique(x: int, d: int, q: int, r: int)
    requires d > 0 && 0 <= r < d && x == q * d + r
    ensures x / d == q
  {
    var q', r' := x / d, x % d;
    assert x == q' * d + r';
    assert (q' - q) * d == r - r';
    if q' > q {
      MulAtLeast(q' - q, d);
    } else if q' < q {
      assert (q - q') * d == r' - r;
      MulAtLeast(q - q', d);
    }
  }

  lemma DivStep(a: int, d: int)
    requires d > 0
    ensures (a + d) / d == a / d + 1
  {
    assert (a / d + 1) * d == (a / d) * d + d;
    DivUnique(a + d, d, a / d + 1, a % d);
  }

  lemma CountStep(n: nat, size: nat, step: nat)
    requires 0 < step <= size < n
    ensures WindowCount(n, size, step) == 1 + WindowCount(n - step, size, step)
  {
    DivStep(n - size - 1, step);
    if n - step <= size {
      var a := n - size - 1;
      assert 0 <= a < step;
      assert a / step == 0;
    }
  }

  ghost predicate SlidingAt(t: string, lim: Limits, lo: nat, ws: seq<Window>, k: nat)
    requires lim.overlap < lim.size && k < |ws|
  {
    var a := lo + k * (lim.size - lim.overlap);
    ws[k] == Window(a, Min(a + lim.size, |t|))
  }

  lemma SlidingShift(t: string, lim: Limits, lo: nat, ws: seq<Window>, k: nat)
    requires lim.overlap < lim.size && 0 < k < |ws|
    requires SlidingAt(t, lim, lo + (lim.size - lim.overlap), ws[1..], k - 1)
    ensures SlidingAt(t, lim, lo, ws, k)
  {
    var step := lim.size - lim.overlap;
    assert (lo + step) + (k - 1) * step == lo + k * step;
  }

  lemma {:induction false} SlidingWindows(t: string, lim: Limits, lo: nat, from: nat, ws: seq<Window>)
    requires lim.overlap < lim.size && lo <= from < |t| && from - lo <= lim.overlap
    requires Greedy(Chars(t), 0, lim, lo, from, ws)
    ensures |ws| == WindowCount(|t| - lo, lim.size, lim.size - lim.overlap)
    ensures forall k :: 0 <= k < |ws| ==> SlidingAt(t, lim, lo, ws, k)
    decreases |ws|
  {
    var step := lim.size - lim.overlap;
    CharWindow(t, lim, lo, from, ws);
    assert SlidingAt(t, lim, lo, ws, 0);
    if |ws| > 1 {
      SlidingWindows(t, lim, lo + step, ws[0].hi, ws[1..]);
      CountStep(|t| - lo, lim.size, step);
      forall k | 0 < k < |ws|
        ensures SlidingAt(t, lim, lo, ws, k)
      {
        assert SlidingAt(t, lim, lo + step, ws[1..], k - 1);
        SlidingShift(t, lim, lo, ws, k);
      }
    }
  }

  /** Character chunk k. */
  function SlidingChunk(t: string, lim: Limits, k: nat): string
    requires lim.overlap < lim.size
  {
    var a := k * (lim.size - lim.overlap);
    Slice(t, a, a + lim.size)
  }

  /** The chunks of a text cut into characters: chunk k starts at k * (size - overlap). */
  function Sliding(t: string, lim: Limits): seq<string>
    requires lim.overlap < lim.size
  {
    seq(WindowCount(|t|, lim.size, lim.size - lim.overlap), k requires 0 <= k => SlidingChunk(t, lim, k))
  }

  /** t[a:b], as Python clips it. */
  function Slice(t: string, a: int, b: int): string {
    if 0 <= a <= b then t[Min(a, |t|)..Min(b, |t|)] else ""
  }

  lemma CharChunk(t: string, lim: Limits, ws: seq<Window>, k: nat)
    requires lim.overlap < lim.size && k < |ws| && ws[k].lo < ws[k].hi <= |t|
    requires SlidingAt(t, lim, 0, ws, k)
    ensures Chunk(Chars(t), "", ws[k]) == SlidingChunk(t, lim, k)
  {
    var w := ws[k];
    assert Chars(t)[w.lo..w.hi] == Chars(t[w.lo..w.hi]);
    JoinChars(t[w.lo..w.hi]);
  }

  lemma SlidingPack(t: string, lim: Limits)
    requires lim.overlap < lim.size && t != ""
    ensures |Pack(Chars(t), 0, lim)| == WindowCount(|t|, lim.size, lim.size - lim.overlap)
    ensures forall k :: 0 <= k < |Pack(Chars(t), 0, lim)| ==> SlidingAt(t, lim, 0, Pack(Chars(t), 0, lim), k)
  {
    PackIsGreedy(Chars(t), 0, lim);
    SlidingWindows(t, lim, 0, 0, Pack(Chars(t), 0, lim));
  }

  lemma SlidingChunks(t: string, lim: Limits)
    requires lim.overlap < lim.size
    ensures Merged(Chars(t), "", lim) == Sliding(t, lim)
  {
    if t != "" {
      var ws, cs := Pack(Chars(t), 0, lim), Merged(Chars(t), "", lim);
      SlidingPack(t, lim);
      forall k: nat | k < |cs|
        ensures cs[k] == SlidingChunk(t, lim, k)
      {
        assert SlidingAt(t, lim, 0, ws, k);
        CharChunk(t, lim, ws, k);
      }
    }
  }
}
