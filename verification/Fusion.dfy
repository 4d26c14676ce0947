/** What rank fusion promises about the order of its results. */
module Fusion {
  import opened Text
  import opened Ranking

  // ---- repeats and empty texts do not matter ----

  function DistinctAll(lists: seq<seq<string>>): seq<seq<string>> {
    if lists == [] then [] else DistinctAll(lists[..|lists| - 1]) + [Distinct(lists[|lists| - 1])]
  }

  lemma {:induction false} DistinctTwice(a: seq<string>)
    ensures Distinct(Distinct(a)) == Distinct(a)
  {
    if a != [] {
      var front := a[..|a| - 1];
      DistinctTwice(front);
      DistinctSnoc(Distinct(front), a[|a| - 1]);
    }
  }

  lemma {:induction false} DistinctLeft(a: seq<string>, b: seq<string>)
    ensures Distinct(Distinct(a) + b) == Distinct(a + b)
  {
    if b == [] {
      DistinctTwice(a);
      assert Distinct(a) + b == Distinct(a) && a + b == a;
    } else {
      var front, t := b[..|b| - 1], b[|b| - 1];
      DistinctLeft(a, front);
      assert Distinct(a) + b == (Distinct(a) + front) + [t] && a + b == (a + front) + [t];
      DistinctSnoc(Distinct(a) + front, t);
      DistinctSnoc(a + front, t);
    }
  }

  lemma DistinctKeeps(a: seq<string>, b: seq<string>, t: string)
    requires t in Distinct(b)
    ensures t in Distinct(a + b)
  {
    DistinctIs(b);
    DistinctIs(a + b);
  }

  lemma {:induction false} DistinctRight(a: seq<string>, b: seq<string>)
    ensures Distinct(a + Distinct(b)) == Distinct(a + b)
  {
    if b != [] {
      var front, t := b[..|b| - 1], b[|b| - 1];
      DistinctRight(a, front);
      assert a + b == (a + front) + [t];
      DistinctSnoc(a + front, t);
      if t in Distinct(front) {
        DistinctKeeps(a, front, t);
      } else if t != "" {
        AppendAssoc(a, Distinct(front), [t]);
        DistinctSnoc(a + Distinct(front), t);
      }
    }
  }

  lemma {:induction false} SameAfter(x: seq<string>, y: seq<string>, l: seq<string>)
    requires Distinct(x) == Distinct(y)
    ensures Distinct(x + Distinct(l)) == Distinct(y + l)
  {
    DistinctRight(x, l);
    DistinctLeft(x, l);
    DistinctLeft(y, l);
  }

  lemma {:induction false} SameOrder(lists: seq<seq<string>>)
    ensures Distinct(Flatten(DistinctAll(lists))) == Distinct(Flatten(lists))
  {
    if lists != [] {
      var front, l := lists[..|lists| - 1], lists[|lists| - 1];
      SameOrder(front);
      assert lists == front + [l];
      FlattenSnoc(front, l);
      FlattenSnoc(DistinctAll(front), Distinct(l));
      SameAfter(Flatten(DistinctAll(front)), Flatten(front), l);
    }
  }

  lemma ScoreSnoc(lists: seq<seq<string>>, l: seq<string>, t: string)
    ensures Score(lists + [l], t) == Score(lists, t) + Gain(l, t)
  {
    assert (lists + [l])[..|lists|] == lists;
  }

  lemma {:induction false} SameScore(lists: seq<seq<string>>, t: string)
    ensures Score(DistinctAll(lists), t) == Score(lists, t)
  {
    if lists != [] {
      var front, l := lists[..|lists| - 1], lists[|lists| - 1];
      SameScore(front, t);
      DistinctTwice(l);
      ScoreSnoc(DistinctAll(front), Distinct(l), t);
      assert DistinctAll(lists) == DistinctAll(front) + [Distinct(l)];
    }
  }

  /** Dropping the empty texts and all later duplicates from the lists changes nothing. */
  lemma RepeatsDoNotMatter(lists: seq<seq<string>>)
    ensures Entries(DistinctAll(lists)) == Entries(lists)
  {
    SameOrder(lists);
    forall i | 0 <= i < |Entries(lists)|
      ensures Entries(DistinctAll(lists))[i] == Entries(lists)[i]
    {
      SameScore(lists, Distinct(Flatten(lists))[i]);
    }
  }

  // ---- texts found by both searches come first ----

  lemma Reciprocals(n: int, m: int)
    requires 0 < n <= m
    ensures 1.0 / n as real >= 1.0 / m as real > 0.0
  {
    var x, y := n as real, m as real;
    assert 1.0 / x - 1.0 / y == (y - x) / (x * y);
  }

  lemma ScoreOfTwo(a: seq<string>, b: seq<string>, t: string)
    ensures Score([a, b], t) == Gain(a, t) + Gain(b, t)
  {
    assert [a, b][..1] == [a] && [a][..0] == [];
    assert Score([a], t) == Score([], t) + Gain(a, t);
    assert Score([a, b], t) == Score([a], t) + Gain(b, t);
  }

  ghost predicate InBoth(a: seq<string>, b: seq<string>, t: string) {
    t in Distinct(a) && t in Distinct(b)
  }

  ghost predicate InOne(a: seq<string>, b: seq<string>, t: string) {
    t in Distinct(a) <==> t !in Distinct(b)
  }

  lemma {:induction false} GainBounds(ts: seq<string>, t: string)
    requires |Distinct(ts)| <= 61
    ensures t in Distinct(ts) ==> 1.0 / 121.0 <= Gain(ts, t) <= 1.0 / 61.0
    ensures t !in Distinct(ts) ==> Gain(ts, t) == 0.0
  {
    if t in Distinct(ts) {
      var n := RRF_K + Position(Distinct(ts), t);
      Reciprocals(n, 121);
      Reciprocals(61, n);
    }
  }

  lemma BothScoreMore(a: seq<string>, b: seq<string>, t: string, u: string)
    requires |Distinct(a)| <= 61 && |Distinct(b)| <= 61
    requires InBoth(a, b, t) && InOne(a, b, u)
    ensures Score([a, b], t) > Score([a, b], u)
  {
    ScoreOfTwo(a, b, t);
    ScoreOfTwo(a, b, u);
    GainBounds(a, t);
    GainBounds(b, t);
    GainBounds(a, u);
    GainBounds(b, u);
  }

  lemma EntryOf(a: seq<string>, b: seq<string>, t: string) returns (i: nat)
    requires t in Distinct(a) || t in Distinct(b)
    ensures i < |Entries([a, b])| && Entries([a, b])[i] == Scored(t, Score([a, b], t))
  {
    FlattenTwo(a, b);
    DistinctIs(a);
    DistinctIs(b);
    DistinctIs(a + b);
    assert t in a || t in b;
    assert t in Distinct(a + b);
    i :| 0 <= i < |Distinct(a + b)| && Distinct(a + b)[i] == t;
  }

  /** The entry of t stands before that of u in the fused ranking of the two lists. */
  ghost predicate Outranks(a: seq<string>, b: seq<string>, t: string, u: string) {
    Precedes(Sorted(Entries([a, b])), Scored(t, Score([a, b], t)), Scored(u, Score([a, b], u)))
  }

  /** With two lists of at most 61 distinct texts, every text in both stands before every text in one. */
  lemma BothComeFirst(a: seq<string>, b: seq<string>, t: string, u: string)
    requires |Distinct(a)| <= 61 && |Distinct(b)| <= 61
    requires InBoth(a, b, t) && InOne(a, b, u)
    ensures Outranks(a, b, t, u)
  {
    var lists := [a, b];
    BothScoreMore(a, b, t, u);
    var i := EntryOf(a, b, t);
    var j := EntryOf(a, b, u);
    if i < j {
      SortedIsStable(Entries(lists), i, j);
    } else {
      SortedIsStable(Entries(lists), j, i);
    }
  }

  // ---- 61 is tight ----

  /** n distinct texts: c, cc, ccc, ... */
  function Names(c: char, n: nat): (ts: seq<string>)
    ensures |ts| == n && forall i :: 0 <= i < n ==> ts[i] == Repeat(c, i + 1)
  {
    seq(n, i requires 0 <= i => Repeat(c, i + 1))
  }

  lemma NotAName(c: char, n: nat, t: string)
    requires |t| > n || (t != "" && t[0] != c)
    ensures t !in Names(c, n)
  {
    forall i | 0 <= i < n
      ensures Names(c, n)[i] != t
    {
      assert |Names(c, n)[i]| == i + 1 && Names(c, n)[i][0] == c;
    }
  }

  lemma {:induction false} NamesAreDistinct(c: char, n: nat)
    ensures Distinct(Names(c, n)) == Names(c, n)
  {
    if n > 0 {
      NamesAreDistinct(c, n - 1);
      assert Names(c, n) == Names(c, n - 1) + [Repeat(c, n)];
      NotAName(c, n - 1, Repeat(c, n));
      DistinctSnoc(Names(c, n - 1), Repeat(c, n));
    }
  }

  lemma LastPosition(d: seq<string>, t: string)
    requires t !in d
    ensures t in d + [t] && Position(d + [t], t) == |d| + 1
  {
    assert (d + [t])[|d|] == t;
  }

  /** A list of n names and t, which is none of them: t is the last of n + 1 distinct texts. */
  lemma {:induction false} NamesAnd(c: char, n: nat, t: string)
    requires |t| > n
    ensures var ts := Names(c, n) + [t];
            && Distinct(ts) == ts && t in ts && Position(ts, t) == n + 1
            && Gain(ts, t) == 1.0 / (61 + n) as real
  {
    NamesAreDistinct(c, n);
    NotAName(c, n, t);
    DistinctSnoc(Names(c, n), t);
    LastPosition(Names(c, n), t);
  }

  lemma FirstName(c: char, n: nat, t: string)
    requires |t| > n >= 1
    ensures Repeat(c, 1) in Distinct(Names(c, n) + [t])
    ensures Gain(Names(c, n) + [t], Repeat(c, 1)) == 1.0 / 61.0
  {
    NamesAnd(c, n, t);
    assert (Names(c, n) + [t])[0] == Repeat(c, 1);
  }

  lemma OtherName(c: char, n: nat, t: string, u: string)
    requires |t| > n && |u| == 1 && u[0] != c && u != t
    ensures u !in Distinct(Names(c, n) + [t]) && Gain(Names(c, n) + [t], u) == 0.0
  {
    NamesAnd(c, n, t);
    NotAName(c, n, u);
  }

  /** A text that is last of n + 1 in both lists, and one that is first in one. */
  lemma LastInBoth(n: nat) returns (a: seq<string>, b: seq<string>, t: string, u: string)
    requires n >= 1
    ensures |Distinct(a)| == n + 1 && |Distinct(b)| == n + 1
    ensures InBoth(a, b, t) && InOne(a, b, u)
    ensures Score([a, b], t) == 1.0 / (61 + n) as real + 1.0 / (61 + n) as real
    ensures Score([a, b], u) == 1.0 / 61.0
    ensures a != [] && a[0] == u != "" && t != u
  {
    t, u := Repeat('a', n + 1), Repeat('a', 1);
    a, b := Names('a', n) + [t], Names('b', n) + [t];
    NamesAnd('a', n, t);
    NamesAnd('b', n, t);
    FirstName('a', n, t);
    OtherName('b', n, t, u);
    ScoreOfTwo(a, b, t);
    ScoreOfTwo(a, b, u);
  }

  /** Whatever is first in the first list comes before everything that does not score more. */
  lemma FirstComesFirst(a: seq<string>, b: seq<string>, t: string, u: string)
    requires a != [] && a[0] == u != "" && t != u && t in Distinct(a)
    requires Score([a, b], u) >= Score([a, b], t)
    ensures Outranks(a, b, u, t)
  {
    var es := Entries([a, b]);
    FlattenTwo(a, b);
    FirstIsDistinct(a + b);
    var j := EntryOf(a, b, t);
    assert es[0] == Scored(u, Score([a, b], u));
    SortedIsStable(es, 0, j);
  }

  lemma BehindTheFirst(a: seq<string>, b: seq<string>, t: string, u: string)
    requires a != [] && a[0] == u != "" && t != u && t in Distinct(a)
    requires Score([a, b], u) >= Score([a, b], t)
    ensures !Outranks(a, b, t, u)
  {
    FirstComesFirst(a, b, t, u);
    RankingDiffers([a, b]);
    OneWayOnly(Sorted(Entries([a, b])), Scored(u, Score([a, b], u)), Scored(t, Score([a, b], t)));
  }

  lemma {:induction false} FirstIsDistinct(ts: seq<string>)
    requires ts != [] && ts[0] != ""
    ensures Distinct(ts) != [] && Distinct(ts)[0] == ts[0]
  {
    var front := ts[..|ts| - 1];
    if front == [] {
      assert Distinct(front) == [];
    } else {
      FirstIsDistinct(front);
    }
  }

  /** With 62 distinct texts a list: t is in both and only ties with u, which is in one and seen first. */
  lemma TiedAndBehind() returns (a: seq<string>, b: seq<string>, t: string, u: string)
    ensures |Distinct(a)| == |Distinct(b)| == 62
    ensures InBoth(a, b, t) && InOne(a, b, u)
    ensures Score([a, b], t) == Score([a, b], u)
    ensures !Outranks(a, b, t, u)
  {
    a, b, t, u := LastInBoth(61);
    BehindTheFirst(a, b, t, u);
  }

  /** Being found by both searches outweighs every rank exactly up to 61 distinct texts per list. */
  lemma BothScoreMoreIff(n: nat)
    ensures (forall a, b, t, u :: |Distinct(a)| <= n && |Distinct(b)| <= n && InBoth(a, b, t) && InOne(a, b, u) ==>
               Score([a, b], t) > Score([a, b], u))
            <==> n <= 61
  {
    if n <= 61 {
      forall a, b, t, u | |Distinct(a)| <= n && |Distinct(b)| <= n && InBoth(a, b, t) && InOne(a, b, u)
        ensures Score([a, b], t) > Score([a, b], u)
      {
        BothScoreMore(a, b, t, u);
      }
    } else {
      var a, b, t, u := TiedAndBehind();
    }
  }

  /** And exactly up to there every text found by both stands before every text found by one. */
  lemma BothComeFirstIff(n: nat)
    ensures (forall a, b, t, u :: |Distinct(a)| <= n && |Distinct(b)| <= n && InBoth(a, b, t) && InOne(a, b, u) ==>
               Outranks(a, b, t, u))
            <==> n <= 61
  {
    if n <= 61 {
      forall a, b, t, u | |Distinct(a)| <= n && |Distinct(b)| <= n && InBoth(a, b, t) && InOne(a, b, u)
        ensures Outranks(a, b, t, u)
      {
        BothComeFirst(a, b, t, u);
      }
    } else {
      var a, b, t, u := TiedAndBehind();
    }
  }

  // ---- only one search found anything ----

  lemma {:induction false} SlotAtEnd(s: seq<Scored>, score: real)
    requires forall i :: 0 <= i < |s| ==> s[i].score >= score
    ensures Slot(s, score) == |s|
  {
    if s != [] {
      SlotAtEnd(s[1..], score);
    }
  }

  lemma DescendingFront(es: seq<Scored>)
    requires es != [] && Descending(es)
    ensures Descending(es[..|es| - 1])
    ensures Slot(es[..|es| - 1], es[|es| - 1].score) == |es| - 1
  {
    var n := |es| - 1;
    forall i, j | 0 <= i < j < n
      ensures InOrder(es[..n], i, j)
    {
      assert InOrder(es, i, j);
    }
    forall i | 0 <= i < n
      ensures es[..n][i].score >= es[n].score
    {
      assert InOrder(es, i, n);
    }
    SlotAtEnd(es[..n], es[n].score);
  }

  lemma InsertLast<T>(s: seq<T>, n: nat)
    requires n + 1 == |s|
    ensures InsertAt(s[..n], n, s[n]) == s
  {
  }

  lemma {:induction false} SortedAlready(es: seq<Scored>)
    requires Descending(es)
    ensures Sorted(es) == es
  {
    if es != [] {
      var n := |es| - 1;
      DescendingFront(es);
      SortedAlready(es[..n]);
      InsertLast(es, n);
      assert Sorted(es) == InsertAt(es[..n], n, es[n]);
    }
  }

  lemma {:induction false} PositionAt(d: seq<string>, i: nat)
    requires i < |d| && NoRepeats(d)
    ensures Position(d, d[i]) == i + 1
  {
    if i > 0 {
      assert d[0] != d[i] && d[1..][i - 1] == d[i];
      PositionAt(d[1..], i - 1);
    }
  }

  lemma {:induction false} VectorOnly(v: seq<string>, i: nat)
    requires i < |Distinct(v)|
    ensures Flatten([v, []]) == v
    ensures Score([v, []], Distinct(v)[i]) == 1.0 / (RRF_K + i + 1) as real
  {
    FlattenTwo(v, []);
    assert v + [] == v;
    DistinctIs(v);
    PositionAt(Distinct(v), i);
    ScoreOfTwo(v, [], Distinct(v)[i]);
  }

  lemma VectorOnlyDescends(v: seq<string>)
    ensures Descending(Entries([v, []]))
    ensures Flatten([v, []]) == v
  {
    FlattenTwo(v, []);
    assert v + [] == v;
    forall i: nat, j: nat | i < j < |Entries([v, []])|
      ensures InOrder(Entries([v, []]), i, j)
    {
      VectorOnly(v, i);
      VectorOnly(v, j);
      Reciprocals(RRF_K + i + 1, RRF_K + j + 1);
    }
  }

  /** Without keyword results the fused order is the order of the vector results. */
  lemma {:induction false} DegradesToVector(v: seq<string>)
    ensures |Sorted(Entries([v, []]))| == |Distinct(v)|
    ensures forall i :: 0 <= i < |Distinct(v)| ==> Sorted(Entries([v, []]))[i].text == Distinct(v)[i]
  {
    VectorOnlyDescends(v);
    SortedAlready(Entries([v, []]));
    assert Sorted(Entries([v, []])) == Entries([v, []]);
  }
}
