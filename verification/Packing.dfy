/** `_merge_splits` of ingest/chunkers.py: packing consecutive pieces into windows of at
    most `size` characters, carrying the tail of one window over into the next. */
module Packing {
  import opened Text

  /** The separator of paragraphs, with which pieces of Python and Markdown documents are packed. */
  const PARAGRAPH: string := "\n\n"

  /** The pieces lo, lo+1, ..., hi-1. */
  datatype Window = Window(lo: nat, hi: nat)

  datatype Limits = Limits(size: nat, overlap: nat)

  // ---- joined lengths ----

  function Pos(p: seq<string>, sep: nat, i: nat): nat
    requires i <= |p|
  {
    if i == 0 then 0 else Pos(p, sep, i - 1) + |p[i - 1]| + sep
  }

  lemma {:induction false} PosGrows(p: seq<string>, sep: nat, i: nat, j: nat)
    requires i <= j <= |p|
    ensures Pos(p, sep, i) <= Pos(p, sep, j)
    ensures i < j ==> Pos(p, sep, i) + |p[i]| + sep <= Pos(p, sep, j)
    decreases j
  {
    if i < j {
      PosGrows(p, sep, i, j - 1);
    }
  }

  /** The length of pieces lo..hi joined by a separator of length sep. */
  function Len(p: seq<string>, sep: nat, lo: nat, hi: nat): nat
    requires lo <= hi <= |p|
  {
    PosGrows(p, sep, lo, hi);
    if lo == hi then 0 else Pos(p, sep, hi) - Pos(p, sep, lo) - sep
  }

  lemma LenGrows(p: seq<string>, sep: nat, lo: nat, lo': nat, hi': nat, hi: nat)
    requires lo <= lo' <= hi' <= hi <= |p|
    ensures Len(p, sep, lo', hi') <= Len(p, sep, lo, hi)
  {
    PosGrows(p, sep, lo, lo');
    PosGrows(p, sep, lo', hi');
    PosGrows(p, sep, hi', hi);
  }

  lemma {:induction false} PosSlice(p: seq<string>, sep: nat, lo: nat, hi: nat)
    requires lo <= hi <= |p|
    ensures Pos(p[lo..hi], sep, hi - lo) == Pos(p, sep, hi) - Pos(p, sep, lo)
    decreases hi
  {
    if lo < hi {
      PosSlice(p, sep, lo, hi - 1);
      PosPrefix(p[lo..hi], p[lo..hi - 1], sep, hi - lo - 1);
    }
  }

  lemma {:induction false} PosPrefix(p: seq<string>, q: seq<string>, sep: nat, i: nat)
    requires i <= |q| <= |p| && q == p[..|q|]
    ensures Pos(p, sep, i) == Pos(q, sep, i)
  {
    if i > 0 {
      PosPrefix(p, q, sep, i - 1);
    }
  }

  lemma {:induction false} JoinLength(p: seq<string>, sep: string)
    ensures p != [] ==> |Join(p, sep)| == Pos(p, |sep|, |p|) - |sep|
  {
    if |p| > 1 {
      JoinLength(p[1..], sep);
      assert p[1..|p|] == p[1..];
      PosSlice(p, |sep|, 1, |p|);
    }
  }

  // ---- the windows ----

  predicate InRange(ws: seq<Window>, n: nat) {
    forall k :: 0 <= k < |ws| ==> ws[k].lo < ws[k].hi <= n
  }

  /** How far the window that starts at lo and already holds lo..h grows. */
  function Extend(p: seq<string>, sep: nat, size: nat, lo: nat, h: nat): (e: nat)
    requires lo < h <= |p|
    ensures h <= e <= |p|
    decreases |p| - h
  {
    if h < |p| && Len(p, sep, lo, h + 1) <= size then Extend(p, sep, size, lo, h + 1) else h
  }

  /** Where the part carried over from the window lo..hi starts. */
  function Carry(p: seq<string>, sep: nat, overlap: nat, lo: nat, hi: nat): (c: nat)
    requires lo <= hi <= |p|
    ensures lo <= c <= hi
    decreases hi - lo
  {
    if lo < hi && Len(p, sep, lo, hi) > overlap then Carry(p, sep, overlap, lo + 1, hi) else lo
  }

  function PackFrom(p: seq<string>, sep: nat, lim: Limits, lo: nat, from: nat): (ws: seq<Window>)
    requires lo <= from <= |p|
    ensures InRange(ws, |p|)
    decreases |p| - from
  {
    if from == |p| then []
    else
      var hi := Extend(p, sep, lim.size, lo, from + 1);
      [Window(lo, hi)] + PackFrom(p, sep, lim, Carry(p, sep, lim.overlap, lo, hi), hi)
  }

  function Pack(p: seq<string>, sep: nat, lim: Limits): (ws: seq<Window>)
    ensures InRange(ws, |p|)
  {
    PackFrom(p, sep, lim, 0, 0)
  }

  function Chunk(p: seq<string>, sep: string, w: Window): string
    requires w.lo <= w.hi <= |p|
  {
    Join(p[w.lo..w.hi], sep)
  }

  function Chunks(p: seq<string>, sep: string, ws: seq<Window>): (cs: seq<string>)
    requires InRange(ws, |p|)
    ensures |cs| == |ws|
    ensures forall k :: 0 <= k < |ws| ==> cs[k] == Chunk(p, sep, ws[k])
  {
    seq(|ws|, k requires 0 <= k < |ws| => Chunk(p, sep, ws[k]))
  }

  /** The result of `_merge_splits`. */
  function Merged(p: seq<string>, sep: string, lim: Limits): seq<string> {
    Chunks(p, sep, Pack(p, |sep|, lim))
  }

  lemma ChunkLength(p: seq<string>, sep: string, w: Window)
    requires w.lo <= w.hi <= |p|
    ensures |Chunk(p, sep, w)| == Len(p, |sep|, w.lo, w.hi)
  {
    JoinLength(p[w.lo..w.hi], sep);
    PosSlice(p, |sep|, w.lo, w.hi);
  }

  // ---- the loop ----

  ghost function Remaining(p: seq<string>, sep: nat, lim: Limits, lo: nat, i: nat): seq<Window>
    requires lo <= i <= |p|
  {
    if lo == i then PackFrom(p, sep, lim, lo, i)
    else
      var hi := Extend(p, sep, lim.size, lo, i);
      [Window(lo, hi)] + PackFrom(p, sep, lim, Carry(p, sep, lim.overlap, lo, hi), hi)
  }

  lemma RemainingStep(p: seq<string>, sep: nat, lim: Limits, lo: nat, i: nat)
    requires lo <= i < |p|
    ensures lo == i || Len(p, sep, lo, i + 1) <= lim.size ==>
              Remaining(p, sep, lim, lo, i) == Remaining(p, sep, lim, lo, i + 1)
    ensures lo < i && Len(p, sep, lo, i + 1) > lim.size ==>
              Remaining(p, sep, lim, lo, i)
              == [Window(lo, i)] + Remaining(p, sep, lim, Carry(p, sep, lim.overlap, lo, i), i + 1)
  {
  }

  lemma RemainingInRange(p: seq<string>, sep: nat, lim: Limits, lo: nat, i: nat)
    requires lo <= i <= |p|
    ensures InRange(Remaining(p, sep, lim, lo, i), |p|)
  {
  }

  /** The chunks emitted so far and those still to come. */
  ghost function Planned(p: seq<string>, sep: string, lim: Limits, chunks: seq<string>, lo: nat, i: nat): seq<string>
    requires lo <= i <= |p|
  {
    RemainingInRange(p, |sep|, lim, lo, i);
    chunks + Chunks(p, sep, Remaining(p, |sep|, lim, lo, i))
  }

  lemma PlannedStep(p: seq<string>, sep: string, lim: Limits, chunks: seq<string>, lo: nat, i: nat)
    requires lo <= i < |p|
    ensures if lo < i && Len(p, |sep|, lo, i + 1) > lim.size then
              Planned(p, sep, lim, chunks, lo, i)
              == Planned(p, sep, lim, chunks + [Join(p[lo..i], sep)], Carry(p, |sep|, lim.overlap, lo, i), i + 1)
            else
              Planned(p, sep, lim, chunks, lo, i) == Planned(p, sep, lim, chunks, lo, i + 1)
  {
    RemainingStep(p, |sep|, lim, lo, i);
    if lo < i && Len(p, |sep|, lo, i + 1) > lim.size {
      var c := Carry(p, |sep|, lim.overlap, lo, i);
      RemainingInRange(p, |sep|, lim, c, i + 1);
      var rest := Remaining(p, |sep|, lim, c, i + 1);
      ChunksCons(p, sep, Window(lo, i), rest);
      AppendAssoc(chunks, [Join(p[lo..i], sep)], Chunks(p, sep, rest));
    }
  }

  lemma PlannedStart(p: seq<string>, sep: string, lim: Limits)
    ensures Planned(p, sep, lim, [], 0, 0) == Merged(p, sep, lim)
  {
  }

  lemma PlannedEnd(p: seq<string>, sep: string, lim: Limits, chunks: seq<string>, lo: nat)
    requires lo <= |p|
    ensures Planned(p, sep, lim, chunks, lo, |p|)
         == if lo == |p| then chunks else chunks + [Join(p[lo..|p|], sep)]
  {
    if lo < |p| {
      ChunksCons(p, sep, Window(lo, |p|), []);
    }
  }

  lemma ChunksCons(p: seq<string>, sep: string, w: Window, ws: seq<Window>)
    requires InRange(ws, |p|) && w.lo < w.hi <= |p|
    ensures InRange([w] + ws, |p|)
    ensures Chunks(p, sep, [w] + ws) == [Join(p[w.lo..w.hi], sep)] + Chunks(p, sep, ws)
  {
  }

  lemma LenStep(p: seq<string>, sep: nat, lo: nat, i: nat)
    requires lo <= i <= |p|
    ensures i < |p| ==> Len(p, sep, lo, i + 1) == Len(p, sep, lo, i) + |p[i]| + (if lo < i then sep else 0)
    ensures lo < i ==> Len(p, sep, lo + 1, i) == Len(p, sep, lo, i) - |p[lo]| - (if lo + 1 < i then sep else 0)
  {
    PosGrows(p, sep, lo, i);
    if lo < i {
      PosGrows(p, sep, lo + 1, i);
      assert Pos(p, sep, lo + 1) == Pos(p, sep, lo) + |p[lo]| + sep;
    }
  }

  /** `current` holds the pieces lo..i and `current_len` is their joined length. */
  ghost predicate Holds(p: seq<string>, sep: nat, lo: nat, i: nat, current: seq<string>, currentLen: int) {
    lo <= i <= |p| && current == p[lo..i] && currentLen == Len(p, sep, lo, i)
  }

  lemma HoldsNext(p: seq<string>, sep: nat, lo: nat, i: nat, current: seq<string>, currentLen: int)
    requires i < |p| && Holds(p, sep, lo, i, current, currentLen)
    ensures Holds(p, sep, lo, i + 1, current + [p[i]], currentLen + |p[i]| + (if current != [] then sep else 0))
  {
    LenStep(p, sep, lo, i);
    SliceSnoc(p, lo, i);
  }

  /** The inner loop: drop pieces from the front until at most `overlap` characters remain. */
  method DropToOverlap(ghost p: seq<string>, sepLen: nat, overlap: nat, window: seq<string>, windowLen: int,
                       ghost lo: nat, ghost i: nat)
    returns (current: seq<string>, currentLen: int, ghost c: nat)
    requires Holds(p, sepLen, lo, i, window, windowLen)
    ensures c == Carry(p, sepLen, overlap, lo, i) && Holds(p, sepLen, c, i, current, currentLen)
    ensures current == p[Carry(p, sepLen, overlap, lo, i)..i]
  {
    current, currentLen, c := window, windowLen, lo;
    while current != [] && currentLen > overlap
      invariant lo <= c && Holds(p, sepLen, c, i, current, currentLen)
      invariant Carry(p, sepLen, overlap, lo, i) == Carry(p, sepLen, overlap, c, i)
      decreases |current|
    {
      LenStep(p, sepLen, c, i);
      var dropped := |current[0]| + (if |current| > 1 then sepLen else 0);
      currentLen := currentLen - dropped;
      current := current[1..];
      c := c + 1;
    }
  }

  /** The chunks so far and those still to come are all chunks. */
  ghost predicate Merging(all: seq<string>, p: seq<string>, sep: string, lim: Limits, chunks: seq<string>,
                          lo: nat, i: nat, current: seq<string>, currentLen: int)
  {
    && Holds(p, |sep|, lo, i, current, currentLen) && (i > 0 ==> lo < i)
    && all == Planned(p, sep, lim, chunks, lo, i)
  }

  lemma MergingKeep(all: seq<string>, p: seq<string>, sep: string, lim: Limits, chunks: seq<string>,
                    lo: nat, i: nat, current: seq<string>, currentLen: int)
    requires i < |p| && Merging(all, p, sep, lim, chunks, lo, i, current, currentLen)
    requires current == [] || currentLen + |p[i]| + |sep| <= lim.size
    ensures var added := |p[i]| + (if current != [] then |sep| else 0);
            Merging(all, p, sep, lim, chunks, lo, i + 1, current + [p[i]], currentLen + added)
  {
    LenStep(p, |sep|, lo, i);
    PlannedStep(p, sep, lim, chunks, lo, i);
    HoldsNext(p, |sep|, lo, i, current, currentLen);
  }

  lemma MergingCut(all: seq<string>, p: seq<string>, sep: string, lim: Limits, chunks: seq<string>,
                   lo: nat, i: nat, current: seq<string>, currentLen: int, kept: seq<string>, keptLen: int)
    requires i < |p| && Merging(all, p, sep, lim, chunks, lo, i, current, currentLen)
    requires current != [] && currentLen + |p[i]| + |sep| > lim.size
    requires Holds(p, |sep|, Carry(p, |sep|, lim.overlap, lo, i), i, kept, keptLen)
    ensures Merging(all, p, sep, lim, chunks + [Join(current, sep)], Carry(p, |sep|, lim.overlap, lo, i), i + 1,
                    kept + [p[i]], keptLen + |p[i]| + (if kept != [] then |sep| else 0))
  {
    LenStep(p, |sep|, lo, i);
    PlannedStep(p, sep, lim, chunks, lo, i);
    HoldsNext(p, |sep|, Carry(p, |sep|, lim.overlap, lo, i), i, kept, keptLen);
  }

  /** Whether the next piece still fits. */
  predicate Fits(p: seq<string>, sep: nat, lim: Limits, lo: nat, i: nat)
    requires lo <= i < |p|
  {
    lo == i || Len(p, sep, lo, i + 1) <= lim.size
  }

  /** The loop body: a piece that does not fit ends the chunk, and what is kept of it starts the next. */
  method AddSplit(split: string, separator: string, size: nat, overlap: nat,
                    chunks0: seq<string>, current0: seq<string>, currentLen0: int,
                    ghost all: seq<string>, ghost p: seq<string>, ghost i: nat, ghost lo: nat)
    returns (chunks: seq<string>, current: seq<string>, currentLen: int)
    requires i < |p| && split == p[i]
    requires Merging(all, p, separator, Limits(size, overlap), chunks0, lo, i, current0, currentLen0)
    ensures Merging(all, p, separator, Limits(size, overlap), chunks,
                    if Fits(p, |separator|, Limits(size, overlap), lo, i) then lo
                    else Carry(p, |separator|, overlap, lo, i),
                    i + 1, current, currentLen)
  {
    chunks, current, currentLen := chunks0, current0, currentLen0;
    var sepLen := |separator|;
    var addedLen := |split| + (if current != [] then sepLen else 0);
    LenStep(p, sepLen, lo, i);
    if current != [] && currentLen + addedLen > size {
      ghost var c;
      chunks := chunks + [Join(current, separator)];
      current, currentLen, c := DropToOverlap(p, sepLen, overlap, current, currentLen, lo, i);
      MergingCut(all, p, separator, Limits(size, overlap), chunks0, lo, i, current0, currentLen0, current, currentLen);
    } else {
      MergingKeep(all, p, separator, Limits(size, overlap), chunks, lo, i, current, currentLen);
    }
    current := current + [split];
    currentLen := currentLen + |split| + (if |current| > 1 then sepLen else 0);
  }

  method MergeSplits(splits: seq<string>, separator: string, size: nat, overlap: nat) returns (chunks: seq<string>)
    ensures chunks == Merged(splits, separator, Limits(size, overlap))
  {
    chunks := [];
    var current: seq<string> := [];
    var currentLen := 0;
    ghost var lo: nat := 0;
    ghost var all := Merged(splits, separator, Limits(size, overlap));
    PlannedStart(splits, separator, Limits(size, overlap));

    for i := 0 to |splits|
      invariant Merging(all, splits, separator, Limits(size, overlap), chunks, lo, i, current, currentLen)
    {
      chunks, current, currentLen :=
        AddSplit(splits[i], separator, size, overlap, chunks, current, currentLen, all, splits, i, lo);
      if !Fits(splits, |separator|, Limits(size, overlap), lo, i) {
        lo := Carry(splits, |separator|, overlap, lo, i);
      }
    }

    PlannedEnd(splits, separator, Limits(size, overlap), chunks, lo);
    if current != [] {
      chunks := chunks + [Join(current, separator)];
    }
  }

  // ---- what the windows are, stated without the recursion ----

  ghost predicate IsCarry(p: seq<string>, sep: nat, overlap: nat, w: Window, c: nat)
    requires w.hi <= |p|
  {
    // the longest suffix of w whose joined length is at most overlap
    && w.lo <= c <= w.hi
    && Len(p, sep, c, w.hi) <= overlap
    && forall b :: w.lo <= b < c ==> Len(p, sep, b, w.hi) > overlap
  }

  /** A window that starts at w.lo when the pieces before `start` are already in it. */
  ghost predicate GreedyWindow(p: seq<string>, sep: nat, size: nat, start: nat, w: Window) {
    // It takes on at least one new piece,
    && w.lo <= start < w.hi <= |p|
    // more than one only while they fit,
    && (w.hi > start + 1 ==> Len(p, sep, w.lo, w.hi) <= size)
    // and stops only at a piece that does not fit.
    && (w.hi < |p| ==> Len(p, sep, w.lo, w.hi + 1) > size)
  }

  /** ws packs the pieces from `from` on; its first window starts at lo. */
  ghost predicate Greedy(p: seq<string>, sep: nat, lim: Limits, lo: nat, from: nat, ws: seq<Window>)
    decreases |ws|
  {
    if ws == [] then from == |p|
    else
      && ws[0].lo == lo
      && GreedyWindow(p, sep, lim.size, from, ws[0])
      && (|ws| == 1 <==> ws[0].hi == |p|)
      && (|ws| > 1 ==> IsCarry(p, sep, lim.overlap, ws[0], ws[1].lo)
                       && Greedy(p, sep, lim, ws[1].lo, ws[0].hi, ws[1..]))
  }

  lemma {:induction false} ExtendProperty(p: seq<string>, sep: nat, size: nat, lo: nat, h: nat)
    requires lo < h <= |p|
    ensures var e := Extend(p, sep, size, lo, h);
            && (e > h ==> Len(p, sep, lo, e) <= size)
            && (e < |p| ==> Len(p, sep, lo, e + 1) > size)
    decreases |p| - h
  {
    if h < |p| && Len(p, sep, lo, h + 1) <= size {
      ExtendProperty(p, sep, size, lo, h + 1);
    }
  }

  lemma {:induction false} CarryProperty(p: seq<string>, sep: nat, overlap: nat, lo: nat, hi: nat)
    requires lo <= hi <= |p|
    ensures IsCarry(p, sep, overlap, Window(lo, hi), Carry(p, sep, overlap, lo, hi))
    decreases hi - lo
  {
    if lo < hi && Len(p, sep, lo, hi) > overlap {
      CarryProperty(p, sep, overlap, lo + 1, hi);
    }
  }

  lemma {:induction false} PackFromIsGreedy(p: seq<string>, sep: nat, lim: Limits, lo: nat, from: nat)
    requires lo <= from <= |p|
    ensures Greedy(p, sep, lim, lo, from, PackFrom(p, sep, lim, lo, from))
    decreases |p| - from
  {
    if from < |p| {
      var hi := Extend(p, sep, lim.size, lo, from + 1);
      var c := Carry(p, sep, lim.overlap, lo, hi);
      ExtendProperty(p, sep, lim.size, lo, from + 1);
      CarryProperty(p, sep, lim.overlap, lo, hi);
      PackFromIsGreedy(p, sep, lim, c, hi);
      assert ([Window(lo, hi)] + PackFrom(p, sep, lim, c, hi))[1..] == PackFrom(p, sep, lim, c, hi);
    }
  }

  /** `_merge_splits` computes a greedy packing ... */
  lemma PackIsGreedy(p: seq<string>, sep: nat, lim: Limits)
    ensures Greedy(p, sep, lim, 0, 0, Pack(p, sep, lim))
  {
    PackFromIsGreedy(p, sep, lim, 0, 0);
  }

  lemma SameEnd(p: seq<string>, sep: nat, size: nat, lo: nat, from: nat, h: nat, h': nat)
    requires lo <= from < h <= |p| && from < h' <= |p|
    requires h < |p| ==> Len(p, sep, lo, h + 1) > size
    requires h' > from + 1 ==> Len(p, sep, lo, h') <= size
    ensures h' <= h
  {
    if h < h' {
      LenGrows(p, sep, lo, lo, h + 1, h');
    }
  }

  /** ... and there is only one. */
  lemma {:induction false} GreedyIsUnique(p: seq<string>, sep: nat, lim: Limits, lo: nat, from: nat,
                                          ws: seq<Window>, vs: seq<Window>)
    requires lo <= from <= |p|
    requires Greedy(p, sep, lim, lo, from, ws) && Greedy(p, sep, lim, lo, from, vs)
    ensures ws == vs
    decreases |ws|
  {
    if ws != [] && vs != [] {
      SameEnd(p, sep, lim.size, lo, from, ws[0].hi, vs[0].hi);
      SameEnd(p, sep, lim.size, lo, from, vs[0].hi, ws[0].hi);
      if |ws| > 1 {
        GreedyIsUnique(p, sep, lim, ws[1].lo, ws[0].hi, ws[1..], vs[1..]);
      }
      assert ws == [ws[0]] + ws[1..] && vs == [vs[0]] + vs[1..];
    }
  }
}
