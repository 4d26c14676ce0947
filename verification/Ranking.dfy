/** Reciprocal Rank Fusion on values: what `_fuse` of api/retrieval.py computes. */
module Ranking {
  import opened Text

  const RRF_K := 60

  // ---- distinct texts ----

  /** The non-empty texts in the order they are first seen. */
  function Distinct(ts: seq<string>): (d: seq<string>)
    ensures |d| <= |ts|
  {
    if ts == [] then []
    else
      var d, t := Distinct(ts[..|ts| - 1]), ts[|ts| - 1];
      if t == "" || t in d then d else d + [t]
  }

  ghost predicate NoRepeats(d: seq<string>) {
    forall i, j :: 0 <= i < j < |d| ==> d[i] != d[j]
  }

  lemma {:induction false} DistinctIs(ts: seq<string>)
    ensures NoRepeats(Distinct(ts))
    ensures forall t :: t in Distinct(ts) <==> t != "" && t in ts
  {
    if ts != [] {
      DistinctIs(ts[..|ts| - 1]);
      assert ts == ts[..|ts| - 1] + [ts[|ts| - 1]];
    }
  }

  lemma DistinctSnoc(ts: seq<string>, t: string)
    ensures Distinct(ts + [t]) == if t == "" || t in Distinct(ts) then Distinct(ts) else Distinct(ts) + [t]
  {
    assert (ts + [t])[..|ts|] == ts;
  }

  /** Position of t in d, counted from 1. */
  function Position(d: seq<string>, t: string): (n: nat)
    requires t in d
    ensures 1 <= n <= |d| && d[n - 1] == t
    ensures forall i :: 0 <= i < n - 1 ==> d[i] != t
  {
    if d[0] == t then 1 else 1 + Position(d[1..], t)
  }

  // ---- scores ----

  /** What a text at its position among a list's distinct texts earns. */
  function GainAmong(d: seq<string>, t: string): real {
    if t in d then 1.0 / (RRF_K + Position(d, t)) as real else 0.0
  }

  /** What one list adds to a text's score. */
  function Gain(ts: seq<string>, t: string): real {
    GainAmong(Distinct(ts), t)
  }

  /** The fused score: the sum over the lists. */
  function Score(lists: seq<seq<string>>, t: string): real {
    if lists == [] then 0.0 else Score(lists[..|lists| - 1], t) + Gain(lists[|lists| - 1], t)
  }

  datatype Scored = Scored(text: string, score: real)

  /** One entry per distinct text of all lists, first seen first. */
  function Entries(lists: seq<seq<string>>): (es: seq<Scored>)
    ensures |es| == |Distinct(Flatten(lists))|
    ensures forall i :: 0 <= i < |es| ==> es[i] == Scored(Distinct(Flatten(lists))[i], Score(lists, es[i].text))
  {
    var d := Distinct(Flatten(lists));
    seq(|d|, i requires 0 <= i < |d| => Scored(d[i], Score(lists, d[i])))
  }

  // ---- sorting: `sorted(..., reverse=True)` is stable ----

  /** Where an entry of the given score goes: behind all that score at least as much. */
  function Slot(es: seq<Scored>, score: real): (n: nat)
    ensures n <= |es|
  {
    if es == [] || es[0].score < score then 0 else 1 + Slot(es[1..], score)
  }

  function InsertAt<T>(s: seq<T>, n: nat, e: T): (t: seq<T>)
    requires n <= |s|
    ensures |t| == |s| + 1 && t[n] == e
    ensures forall i :: 0 <= i < n ==> t[i] == s[i]
    ensures forall i :: n <= i < |s| ==> t[i + 1] == s[i]
  {
    s[..n] + [e] + s[n..]
  }

  function Sorted(es: seq<Scored>): (s: seq<Scored>)
    ensures |s| == |es|
  {
    if es == [] then []
    else
      var s, e := Sorted(es[..|es| - 1]), es[|es| - 1];
      InsertAt(s, Slot(s, e.score), e)
  }

  lemma SortedSnoc(es: seq<Scored>, e: Scored)
    ensures Sorted(es + [e]) == InsertAt(Sorted(es), Slot(Sorted(es), e.score), e)
  {
    assert (es + [e])[..|es|] == es;
  }

  ghost predicate InOrder(s: seq<Scored>, i: nat, j: nat)
    requires i < j < |s|
  {
    s[i].score >= s[j].score
  }

  ghost predicate Descending(s: seq<Scored>) {
    forall i, j :: 0 <= i < j < |s| ==> InOrder(s, i, j)
  }

  lemma {:induction false} SlotSplits(s: seq<Scored>, score: real)
    requires Descending(s)
    ensures var n := Slot(s, score);
            && (forall i :: 0 <= i < n ==> s[i].score >= score)
            && (forall i :: n <= i < |s| ==> s[i].score < score)
  {
    forall i | 0 < i < |s|
      ensures s[i].score <= s[0].score
    {
      assert InOrder(s, 0, i);
    }
    if s != [] && s[0].score >= score {
      forall i, j | 0 <= i < j < |s[1..]|
        ensures InOrder(s[1..], i, j)
      {
        assert InOrder(s, i + 1, j + 1);
      }
      SlotSplits(s[1..], score);
      forall i | 0 < i < |s|
        ensures i < Slot(s, score) ==> s[i].score >= score
        ensures i >= Slot(s, score) ==> s[i].score < score
      {
        assert s[i] == s[1..][i - 1];
      }
    }
  }

  lemma InsertPair(s: seq<Scored>, n: nat, e: Scored, i: nat, j: nat)
    requires n <= |s| && i < j <= |s| && Descending(s)
    requires forall k :: 0 <= k < n ==> s[k].score >= e.score
    requires forall k :: n <= k < |s| ==> s[k].score < e.score
    ensures InOrder(InsertAt(s, n, e), i, j)
  {
    if j < n {
      assert InOrder(s, i, j);
    } else if i > n {
      assert InOrder(s, i - 1, j - 1);
    } else if i < n < j {
      assert InOrder(s, i, j - 1);
    }
  }

  lemma InsertDescends(s: seq<Scored>, e: Scored)
    requires Descending(s)
    ensures Descending(InsertAt(s, Slot(s, e.score), e))
  {
    var n := Slot(s, e.score);
    var t := InsertAt(s, n, e);
    SlotSplits(s, e.score);
    forall i: nat, j: nat | i < j < |t|
      ensures InOrder(t, i, j)
    {
      InsertPair(s, n, e, i, j);
    }
  }

  lemma InsertKeeps<T>(s: seq<T>, n: nat, e: T)
    requires n <= |s|
    ensures multiset(InsertAt(s, n, e)) == multiset(s) + multiset{e}
  {
    assert s == s[..n] + s[n..];
  }

  lemma {:induction false} SortedIs(es: seq<Scored>)
    ensures Descending(Sorted(es))
    ensures multiset(Sorted(es)) == multiset(es)
  {
    if es != [] {
      var front, e := es[..|es| - 1], es[|es| - 1];
      SortedIs(front);
      InsertDescends(Sorted(front), e);
      InsertKeeps(Sorted(front), Slot(Sorted(front), e.score), e);
      assert es == front + [e];
    }
  }

  // ---- no text is ranked twice ----

  ghost predicate DifferAt(es: seq<Scored>, i: nat, j: nat)
    requires i < j < |es|
  {
    es[i].text != es[j].text
  }

  ghost predicate DifferentTexts(es: seq<Scored>) {
    forall i, j :: 0 <= i < j < |es| ==> DifferAt(es, i, j)
  }

  lemma InsertedDiffers(s: seq<Scored>, n: nat, e: Scored)
    requires n <= |s| && DifferentTexts(s)
    requires forall i :: 0 <= i < |s| ==> s[i].text != e.text
    ensures DifferentTexts(InsertAt(s, n, e))
  {
    forall i, j | 0 <= i < j <= |s|
      ensures DifferAt(InsertAt(s, n, e), i, j)
    {
      var i', j' := if i < n then i else i - 1, if j < n then j else j - 1;
      if i != n && j != n {
        assert DifferAt(s, i', j');
      }
    }
  }

  lemma {:induction false} SortedStaysDifferent(es: seq<Scored>)
    requires DifferentTexts(es)
    ensures DifferentTexts(Sorted(es))
  {
    if es != [] {
      var front, e := es[..|es| - 1], es[|es| - 1];
      forall i, j | 0 <= i < j < |front|
        ensures DifferAt(front, i, j)
      {
        assert DifferAt(es, i, j);
      }
      SortedStaysDifferent(front);
      SortedIs(front);
      forall i | 0 <= i < |Sorted(front)|
        ensures Sorted(front)[i].text != e.text
      {
        assert Sorted(front)[i] in multiset(Sorted(front)) && Sorted(front)[i] in front;
        var k :| 0 <= k < |front| && front[k] == Sorted(front)[i];
        assert DifferAt(es, k, |front|);
      }
      InsertedDiffers(Sorted(front), Slot(Sorted(front), e.score), e);
    }
  }

  lemma RankingDiffers(lists: seq<seq<string>>)
    ensures DifferentTexts(Sorted(Entries(lists)))
  {
    DistinctIs(Flatten(lists));
    forall i, j | 0 <= i < j < |Entries(lists)|
      ensures DifferAt(Entries(lists), i, j)
    {
    }
    SortedStaysDifferent(Entries(lists));
  }

  // ---- who comes first ----

  /** a stands before b in s. */
  ghost predicate Precedes(s: seq<Scored>, a: Scored, b: Scored) {
    exists i, j :: 0 <= i < j < |s| && s[i] == a && s[j] == b
  }

  lemma StandsBefore(s: seq<Scored>, i: nat, j: nat)
    requires i < j < |s|
    ensures Precedes(s, s[i], s[j])
  {
  }

  lemma {:induction false} PrecedesInsert(s: seq<Scored>, n: nat, e: Scored, a: Scored, b: Scored)
    requires n <= |s| && Precedes(s, a, b)
    ensures Precedes(InsertAt(s, n, e), a, b)
  {
    var i, j :| 0 <= i < j < |s| && s[i] == a && s[j] == b;
    var t := InsertAt(s, n, e);
    var i', j' := if i < n then i else i + 1, if j < n then j else j + 1;
    assert t[i'] == a && t[j'] == b;
  }

  lemma {:induction false} LastIsPlaced(front: seq<Scored>, e: Scored, i: nat)
    requires i < |front|
    ensures var t := InsertAt(Sorted(front), Slot(Sorted(front), e.score), e);
            if front[i].score >= e.score then Precedes(t, front[i], e) else Precedes(t, e, front[i])
  {
    var s, n := Sorted(front), Slot(Sorted(front), e.score);
    SortedIs(front);
    SlotSplits(s, e.score);
    assert front[i] in multiset(front) && front[i] in multiset(s);
    var k :| 0 <= k < |s| && s[k] == front[i];
    var t := InsertAt(s, n, e);
    if k < n {
      StandsBefore(t, k, n);
    } else {
      StandsBefore(t, n, k + 1);
    }
  }

  /** Entry i comes before entry j exactly when it scores more, or the same and it was first. */
  lemma {:induction false} SortedIsStable(es: seq<Scored>, i: nat, j: nat)
    requires i < j < |es|
    ensures es[i].score >= es[j].score ==> Precedes(Sorted(es), es[i], es[j])
    ensures es[i].score < es[j].score ==> Precedes(Sorted(es), es[j], es[i])
  {
    var front, e := es[..|es| - 1], es[|es| - 1];
    var s, n := Sorted(front), Slot(Sorted(front), e.score);
    if j < |front| {
      SortedIsStable(front, i, j);
      if es[i].score >= es[j].score {
        PrecedesInsert(s, n, e, es[i], es[j]);
      } else {
        PrecedesInsert(s, n, e, es[j], es[i]);
      }
    } else {
      LastIsPlaced(front, e, i);
    }
  }

  lemma OnePlaceOnly(s: seq<Scored>, i: nat, j: nat)
    requires DifferentTexts(s) && i < |s| && j < |s| && s[i] == s[j]
    ensures i == j
  {
    assert i < j ==> DifferAt(s, i, j);
    assert j < i ==> DifferAt(s, j, i);
  }

  lemma OneWayOnly(s: seq<Scored>, a: Scored, b: Scored)
    requires DifferentTexts(s) && Precedes(s, a, b)
    ensures !Precedes(s, b, a)
  {
    var i, j :| 0 <= i < j < |s| && s[i] == a && s[j] == b;
    forall i', j' | 0 <= i' < j' < |s| && s[i'] == b
      ensures s[j'] != a
    {
      OnePlaceOnly(s, i', j);
      assert DifferAt(s, i, j');
    }
  }
}
