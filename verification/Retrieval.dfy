/** `_fuse`, `rerank` and `retrieve_best` of api/retrieval.py over mutable chunks. Recall and the
    cross-encoder are inputs. */
module Retrieval {
  import opened Common
  import opened Text
  import opened Ranking
  import opened Fusion

  class Chunk {
    const id: int
    const text: string
    var score: real
    var rerankScore: Option<real>

    constructor (id: int, text: string, score: real)
      ensures this.id == id && this.text == text && this.score == score && rerankScore == None
    {
      this.id := id;
      this.text := text;
      this.score := score;
      rerankScore := None;
    }
  }

  function TextsOf(cs: seq<Chunk>): (ts: seq<string>)
    ensures |ts| == |cs|
    ensures forall i :: 0 <= i < |cs| ==> ts[i] == cs[i].text
  {
    seq(|cs|, i requires 0 <= i < |cs| => cs[i].text)
  }

  /** A chunk and the key it is sorted by. */
  function Keyed(cs: seq<Chunk>, keys: seq<real>): (es: seq<Scored>)
    requires |keys| == |cs|
    ensures |es| == |cs|
    ensures forall i :: 0 <= i < |cs| ==> es[i] == Scored(cs[i].text, keys[i])
  {
    seq(|cs|, i requires 0 <= i < |cs| => Scored(cs[i].text, keys[i]))
  }

  ghost function Scores(cs: seq<Chunk>): (ks: seq<real>)
    reads set c | c in cs
    ensures |ks| == |cs|
    ensures forall i :: 0 <= i < |cs| ==> ks[i] == cs[i].score
  {
    seq(|cs|, i requires 0 <= i < |cs| reads cs => cs[i].score)
  }

  // ---- sorting ----

  /** Element i of (r, ks) is an element of (cs, keys) with its key. */
  ghost predicate PairAt(r: seq<Chunk>, ks: seq<real>, cs: seq<Chunk>, keys: seq<real>, i: nat)
    requires |ks| == |r| && |keys| == |cs| && i < |r|
  {
    exists j :: 0 <= j < |cs| && r[i] == cs[j] && ks[i] == keys[j]
  }

  ghost predicate PairsOf(r: seq<Chunk>, ks: seq<real>, cs: seq<Chunk>, keys: seq<real>)
    requires |ks| == |r| && |keys| == |cs|
  {
    forall i :: 0 <= i < |r| ==> PairAt(r, ks, cs, keys, i)
  }

  /** (r, ks) are the first i elements, sorted. */
  ghost predicate SortedSoFar(r: seq<Chunk>, ks: seq<real>, cs: seq<Chunk>, keys: seq<real>, i: nat)
    requires |keys| == |cs| && i <= |cs|
  {
    && |r| == |ks| == i
    && Keyed(r, ks) == Sorted(Keyed(cs, keys)[..i])
    && PairsOf(r, ks, cs, keys)
    && multiset(r) == multiset(cs[..i])
  }

  lemma SortStep(r: seq<Chunk>, ks: seq<real>, cs: seq<Chunk>, keys: seq<real>, i: nat)
    requires |keys| == |cs| && i < |cs| && SortedSoFar(r, ks, cs, keys, i)
    ensures var n := Slot(Keyed(r, ks), keys[i]);
            SortedSoFar(InsertAt(r, n, cs[i]), InsertAt(ks, n, keys[i]), cs, keys, i + 1)
  {
    var n, es := Slot(Keyed(r, ks), keys[i]), Keyed(cs, keys);
    SortedSnoc(es[..i], es[i]);
    TakeSnoc(es, i);
    KeyedInsert(r, ks, n, cs[i], keys[i]);
    PairsInsert(r, ks, n, cs, keys, i);
    InsertKeeps(r, n, cs[i]);
    MultisetSnoc(cs, i);
  }

  /** `sorted(cs, key=..., reverse=True)` */
  method SortByKey(cs: seq<Chunk>, keys: seq<real>) returns (r: seq<Chunk>, ks: seq<real>)
    requires |keys| == |cs|
    ensures |r| == |ks| == |cs|
    ensures Keyed(r, ks) == Sorted(Keyed(cs, keys))
    ensures PairsOf(r, ks, cs, keys)
    ensures multiset(r) == multiset(cs)
  {
    r, ks := [], [];
    for i := 0 to |cs|
      invariant SortedSoFar(r, ks, cs, keys, i)
    {
      var n := Slot(Keyed(r, ks), keys[i]);
      SortStep(r, ks, cs, keys, i);
      r, ks := InsertAt(r, n, cs[i]), InsertAt(ks, n, keys[i]);
    }
    assert cs[..|cs|] == cs && Keyed(cs, keys)[..|cs|] == Keyed(cs, keys);
  }

  lemma MultisetSnoc(cs: seq<Chunk>, i: nat)
    requires i < |cs|
    ensures multiset(cs[..i + 1]) == multiset(cs[..i]) + multiset{cs[i]}
  {
    TakeSnoc(cs, i);
  }

  lemma KeyedInsert(r: seq<Chunk>, ks: seq<real>, n: nat, c: Chunk, k: real)
    requires |ks| == |r| && n <= |r|
    ensures Keyed(InsertAt(r, n, c), InsertAt(ks, n, k)) == InsertAt(Keyed(r, ks), n, Scored(c.text, k))
  {
    var a, b := Keyed(InsertAt(r, n, c), InsertAt(ks, n, k)), InsertAt(Keyed(r, ks), n, Scored(c.text, k));
    forall i | 0 <= i < |a|
      ensures a[i] == b[i]
    {
      if i > n {
        assert InsertAt(r, n, c)[i] == r[i - 1] && InsertAt(ks, n, k)[i] == ks[i - 1];
        assert b[i] == Keyed(r, ks)[i - 1];
      }
    }
  }

  lemma PairsInsert(r: seq<Chunk>, ks: seq<real>, n: nat, cs: seq<Chunk>, keys: seq<real>, m: nat)
    requires |ks| == |r| && |keys| == |cs| && n <= |r| && m < |cs| && PairsOf(r, ks, cs, keys)
    ensures PairsOf(InsertAt(r, n, cs[m]), InsertAt(ks, n, keys[m]), cs, keys)
  {
    var r', ks' := InsertAt(r, n, cs[m]), InsertAt(ks, n, keys[m]);
    forall i | 0 <= i < |r'|
      ensures PairAt(r', ks', cs, keys, i)
    {
      if i != n {
        var i' := if i < n then i else i - 1;
        assert PairAt(r, ks, cs, keys, i');
        assert r'[i] == r[i'] && ks'[i] == ks[i'];
      }
    }
  }

  // ---- fusion ----

  function TextLists(lists: seq<seq<Chunk>>): (tl: seq<seq<string>>)
    ensures |tl| == |lists|
    ensures forall i :: 0 <= i < |lists| ==> tl[i] == TextsOf(lists[i])
  {
    seq(|lists|, i requires 0 <= i < |lists| => TextsOf(lists[i]))
  }

  /** The first chunk with the given text. */
  function First(cs: seq<Chunk>, t: string): Chunk
    requires t in TextsOf(cs)
  {
    if cs[0].text == t then cs[0] else assert TextsOf(cs)[1..] == TextsOf(cs[1..]); First(cs[1..], t)
  }

  lemma TextsAppend(a: seq<Chunk>, b: seq<Chunk>)
    ensures TextsOf(a + b) == TextsOf(a) + TextsOf(b)
  {
  }

  lemma TextsTail(cs: seq<Chunk>)
    requires cs != []
    ensures TextsOf(cs)[1..] == TextsOf(cs[1..])
  {
  }

  lemma {:induction false} FirstAppend(a: seq<Chunk>, b: seq<Chunk>, t: string)
    ensures TextsOf(a + b) == TextsOf(a) + TextsOf(b)
    ensures t in TextsOf(a) ==> First(a + b, t) == First(a, t)
    ensures t !in TextsOf(a) && t in TextsOf(b) ==> First(a + b, t) == First(b, t)
  {
    TextsAppend(a, b);
    if a == [] {
      assert a + b == b;
    } else {
      FirstAppend(a[1..], b, t);
      TextsTail(a);
      assert (a + b)[1..] == a[1..] + b && (a + b)[0] == a[0] && TextsOf(a)[0] == a[0].text;
    }
  }

  /** The fused dict while the chunks `seen` are processed: its keys in insertion order, for each the
      first chunk with that text, and its score so far. */
  ghost predicate FusedSoFar(seen: seq<Chunk>, order: seq<string>, fused: map<string, Chunk>,
                             lists: seq<seq<string>>, current: seq<string>)
    reads fused.Values
  {
    && order == Distinct(TextsOf(seen))
    && (forall t :: t in fused <==> t in order)
    && forall t :: t in order ==> FusedAt(seen, fused, lists, current, t)
  }

  ghost predicate FusedAt(seen: seq<Chunk>, fused: map<string, Chunk>, lists: seq<seq<string>>, current: seq<string>,
                          t: string)
    reads fused.Values
  {
    && t in fused && t in TextsOf(seen)
    && fused[t] == First(seen, t) && fused[t].text == t
    && fused[t].score == Score(lists, t) + Gain(current, t)
  }

  lemma GainOfNew(ts: seq<string>, x: string)
    requires x != "" && x !in Distinct(ts)
    ensures Gain(ts, x) == 0.0
    ensures Gain(ts + [x], x) == 1.0 / (RRF_K + |Distinct(ts)| + 1) as real
  {
    DistinctSnoc(ts, x);
    LastPosition(Distinct(ts), x);
  }

  lemma GainAmongMore(d: seq<string>, x: string, t: string)
    requires t != x
    ensures GainAmong(d + [x], t) == GainAmong(d, t)
  {
    if t in d {
      PositionAppend(d, x, t);
    }
  }

  lemma GainOfOther(ts: seq<string>, x: string, t: string)
    requires t != x || x == "" || x in Distinct(ts)
    ensures Gain(ts + [x], t) == Gain(ts, t)
  {
    DistinctSnoc(ts, x);
    if t != x {
      GainAmongMore(Distinct(ts), x, t);
    }
  }

  lemma {:induction false} PositionAppend(d: seq<string>, x: string, t: string)
    requires t in d
    ensures Position(d + [x], t) == Position(d, t)
  {
    if d[0] != t {
      assert (d + [x])[1..] == d[1..] + [x];
      PositionAppend(d[1..], x, t);
    }
  }

  lemma {:induction false} UnseenScoresNothing(lists: seq<seq<string>>, t: string)
    requires t !in Flatten(lists)
    ensures Score(lists, t) == 0.0
  {
    if lists != [] {
      var front, l := lists[..|lists| - 1], lists[|lists| - 1];
      assert lists == front + [l];
      FlattenSnoc(front, l);
      UnseenScoresNothing(front, t);
      DistinctIs(l);
    }
  }

  lemma SeenSnoc(seen: seq<Chunk>, c: Chunk, t: string)
    ensures TextsOf(seen + [c]) == TextsOf(seen) + [c.text]
    ensures t in TextsOf(seen) ==> t in TextsOf(seen + [c]) && First(seen + [c], t) == First(seen, t)
    ensures c.text in TextsOf(seen + [c])
    ensures c.text !in TextsOf(seen) ==> First(seen + [c], c.text) == c
  {
    FirstAppend(seen, [c], t);
    FirstAppend(seen, [c], c.text);
    assert TextsOf([c]) == [c.text];
  }

  /** `if text not in fused: ...; fused[text].score += 1.0 / (_RRF_K + rank)` */
  method Credit(chunk: Chunk, rank: nat, order0: seq<string>, fused0: map<string, Chunk>)
    returns (order: seq<string>, fused: map<string, Chunk>)
    requires forall t :: t in fused0 ==> fused0[t].text == t
    modifies {chunk} + fused0.Values
    ensures order == if chunk.text in fused0 then order0 else order0 + [chunk.text]
    ensures fused == if chunk.text in fused0 then fused0 else fused0[chunk.text := chunk]
    ensures fused[chunk.text].score
         == (if chunk.text in fused0 then old(fused0[chunk.text].score) else 0.0) + 1.0 / (RRF_K + rank) as real
    ensures forall t :: t in fused0 && t != chunk.text ==> fused[t].score == old(fused0[t].score)
  {
    order, fused := order0, fused0;
    var text := chunk.text;
    if text !in fused {
      chunk.score := 0.0;
      fused := fused[text := chunk];
      order := order + [text];
    }
    fused[text].score := fused[text].score + 1.0 / (RRF_K + rank) as real;
  }

  /** What the new chunk does to an entry's expected score. */
  lemma ExpectedNext(seen: seq<Chunk>, lists: seq<seq<string>>, current: seq<string>, c: Chunk, t: string)
    requires TextsOf(seen) == Flatten(lists) + current
    requires c.text == "" || c.text in Distinct(current) || t != c.text
    ensures Gain(current + [c.text], t) == Gain(current, t)
    ensures t in TextsOf(seen) ==> t in TextsOf(seen + [c]) && First(seen + [c], t) == First(seen, t)
  {
    GainOfOther(current, c.text, t);
    SeenSnoc(seen, c, t);
  }

  lemma ExpectedNew(seen: seq<Chunk>, lists: seq<seq<string>>, current: seq<string>, c: Chunk)
    requires TextsOf(seen) == Flatten(lists) + current
    requires c.text != "" && c.text !in Distinct(current)
    ensures var before :=
              if c.text in Distinct(TextsOf(seen)) then Score(lists, c.text) + Gain(current, c.text) else 0.0;
            Score(lists, c.text) + Gain(current + [c.text], c.text)
            == before + 1.0 / (RRF_K + |Distinct(current)| + 1) as real
    ensures c.text in TextsOf(seen + [c])
    ensures if c.text in Distinct(TextsOf(seen))
            then c.text in TextsOf(seen) && First(seen + [c], c.text) == First(seen, c.text)
            else First(seen + [c], c.text) == c
  {
    GainOfNew(current, c.text);
    SeenSnoc(seen, c, c.text);
    DistinctIs(TextsOf(seen));
    if c.text !in Distinct(TextsOf(seen)) {
      UnseenScoresNothing(lists, c.text);
    }
  }

  lemma OrderNext(seen: seq<Chunk>, lists: seq<seq<string>>, current: seq<string>, c: Chunk)
    requires TextsOf(seen) == Flatten(lists) + current
    ensures TextsOf(seen + [c]) == TextsOf(seen) + [c.text] == Flatten(lists) + (current + [c.text])
    ensures Distinct(TextsOf(seen + [c]))
         == if c.text == "" || c.text in Distinct(TextsOf(seen)) then Distinct(TextsOf(seen))
            else Distinct(TextsOf(seen)) + [c.text]
    ensures c.text in Distinct(current) ==> c.text in Distinct(TextsOf(seen))
  {
    SeenSnoc(seen, c, c.text);
    DistinctSnoc(TextsOf(seen), c.text);
    AppendAssoc(Flatten(lists), current, [c.text]);
    if c.text in Distinct(current) {
      DistinctKeeps(Flatten(lists), current, c.text);
    }
  }

  lemma {:induction false} SkipChunk(seen: seq<Chunk>, c: Chunk, order: seq<string>, fused: map<string, Chunk>,
                  lists: seq<seq<string>>, current: seq<string>)
    requires FusedSoFar(seen, order, fused, lists, current) && TextsOf(seen) == Flatten(lists) + current
    requires c.text == "" || c.text in Distinct(current)
    ensures FusedSoFar(seen + [c], order, fused, lists, current + [c.text])
  {
    OrderNext(seen, lists, current, c);
    forall t | t in order
      ensures FusedAt(seen + [c], fused, lists, current + [c.text], t)
    {
      assert FusedAt(seen, fused, lists, current, t);
      ExpectedNext(seen, lists, current, c, t);
    }
  }

  /** The chunk of a text that is new in its list. */
  method AddChunk(chunk: Chunk, rank: nat,
                  ghost seen: seq<Chunk>, ghost lists: seq<seq<string>>, ghost current: seq<string>,
                  order0: seq<string>, fused0: map<string, Chunk>)
    returns (order: seq<string>, fused: map<string, Chunk>)
    requires FusedSoFar(seen, order0, fused0, lists, current) && TextsOf(seen) == Flatten(lists) + current
    requires chunk.text != "" && chunk.text !in Distinct(current) && rank == |Distinct(current)| + 1
    modifies {chunk} + fused0.Values
    ensures FusedSoFar(seen + [chunk], order, fused, lists, current + [chunk.text])
    ensures fused.Values <= fused0.Values + {chunk}
  {
    forall t | t in fused0
      ensures fused0[t].text == t
    {
      assert FusedAt(seen, fused0, lists, current, t);
    }
    OrderNext(seen, lists, current, chunk);
    ExpectedNew(seen, lists, current, chunk);
    assert chunk.text in fused0 ==> FusedAt(seen, fused0, lists, current, chunk.text);
    ghost var scores := map t | t in fused0 :: fused0[t].score;
    forall t | t in fused0
      ensures scores[t] == Score(lists, t) + Gain(current, t) && fused0[t] == First(seen, t) && t in TextsOf(seen)
    {
      assert FusedAt(seen, fused0, lists, current, t);
    }
    order, fused := Credit(chunk, rank, order0, fused0);
    forall t | t in order
      ensures FusedAt(seen + [chunk], fused, lists, current + [chunk.text], t)
    {
      if t != chunk.text {
        ExpectedNext(seen, lists, current, chunk, t);
        assert fused[t].score == scores[t];
      }
    }
  }

  /** The first i chunks of the list are processed; `distinct` holds their texts. */
  ghost predicate ListState(seen: seq<Chunk>, ranked: seq<Chunk>, i: nat, order: seq<string>, fused: map<string, Chunk>,
                            lists: seq<seq<string>>, distinct: set<string>)
    requires i <= |ranked|
    reads fused.Values
  {
    && FusedSoFar(seen + ranked[..i], order, fused, lists, TextsOf(ranked)[..i])
    && TextsOf(seen + ranked[..i]) == Flatten(lists) + TextsOf(ranked)[..i]
    && SetOf(distinct, Distinct(TextsOf(ranked)[..i]))
    && fused.Values <= set c | c in seen + ranked
  }

  /** The loop body: an empty or repeated text is skipped. */
  method FuseChunk(ranked: seq<Chunk>, i: nat, ghost seen: seq<Chunk>, ghost lists: seq<seq<string>>,
                   order0: seq<string>, fused0: map<string, Chunk>, distinct0: set<string>)
    returns (order: seq<string>, fused: map<string, Chunk>, distinct: set<string>)
    requires i < |ranked| && ListState(seen, ranked, i, order0, fused0, lists, distinct0)
    modifies set c | c in seen + ranked
    ensures ListState(seen, ranked, i + 1, order, fused, lists, distinct)
  {
    order, fused, distinct := order0, fused0, distinct0;
    var chunk := ranked[i];
    var text := chunk.text;
    ghost var before, current := seen + ranked[..i], TextsOf(ranked)[..i];
    NextPrefix(seen, ranked, i);
    OrderNext(before, lists, current, chunk);
    if text == "" || text in distinct {
      SkipChunk(before, chunk, order, fused, lists, current);
    } else {
      distinct := distinct + {text};
      var rank := |distinct|;
      order, fused := AddChunk(chunk, rank, before, lists, current, order, fused);
    }
  }

  /** One ranked list: each of its distinct texts adds 1 / (RRF_K + rank) to its entry, new or not. */
  method FuseList(ranked: seq<Chunk>, ghost seen: seq<Chunk>, ghost lists: seq<seq<string>>,
                  order0: seq<string>, fused0: map<string, Chunk>)
    returns (order: seq<string>, fused: map<string, Chunk>)
    requires FusedSoFar(seen, order0, fused0, lists, []) && TextsOf(seen) == Flatten(lists)
    requires fused0.Values <= set c | c in seen + ranked
    modifies set c | c in seen + ranked
    ensures FusedSoFar(seen + ranked, order, fused, lists, TextsOf(ranked))
    ensures fused.Values <= set c | c in seen + ranked
  {
    order, fused := order0, fused0;
    var distinct: set<string> := {};
    assert seen + ranked[..0] == seen && Flatten(lists) + TextsOf(ranked)[..0] == Flatten(lists);
    for i := 0 to |ranked|
      invariant ListState(seen, ranked, i, order, fused, lists, distinct)
    {
      order, fused, distinct := FuseChunk(ranked, i, seen, lists, order, fused, distinct);
    }
    assert ranked[..|ranked|] == ranked && TextsOf(ranked)[..|ranked|] == TextsOf(ranked);
  }

  lemma NextPrefix(seen: seq<Chunk>, ranked: seq<Chunk>, i: nat)
    requires i < |ranked|
    ensures seen + ranked[..i + 1] == (seen + ranked[..i]) + [ranked[i]]
    ensures TextsOf(ranked)[..i + 1] == TextsOf(ranked)[..i] + [ranked[i].text]
    ensures Distinct(TextsOf(ranked)[..i + 1])
         == if ranked[i].text == "" || ranked[i].text in Distinct(TextsOf(ranked)[..i])
            then Distinct(TextsOf(ranked)[..i])
            else Distinct(TextsOf(ranked)[..i]) + [ranked[i].text]
  {
    DistinctSnoc(TextsOf(ranked)[..i], ranked[i].text);
    assert TextsOf(ranked)[..i + 1] == TextsOf(ranked)[..i] + [ranked[i].text];
  }

  /** The set has the elements of d, as many as d is long. */
  ghost predicate SetOf(s: set<string>, d: seq<string>) {
    (forall t :: t in s <==> t in d) && |s| == |d|
  }

  lemma NextList(seen: seq<Chunk>, order: seq<string>, fused: map<string, Chunk>, lists: seq<seq<string>>,
                 current: seq<string>)
    requires FusedSoFar(seen, order, fused, lists, current)
    ensures FusedSoFar(seen, order, fused, lists + [current], [])
  {
    forall t | t in order
      ensures FusedAt(seen, fused, lists + [current], [], t)
    {
      assert FusedAt(seen, fused, lists, current, t);
      ScoreSnoc(lists, current, t);
    }
  }

  lemma {:induction false} FlattenTexts(lists: seq<seq<Chunk>>)
    ensures TextsOf(Flatten(lists)) == Flatten(TextLists(lists))
  {
    if lists != [] {
      FlattenTexts(lists[1..]);
      assert TextLists(lists)[1..] == TextLists(lists[1..]);
      FirstAppend(lists[0], Flatten(lists[1..]), "");
    }
  }

  lemma FlattenPrefix(lists: seq<seq<Chunk>>, n: nat)
    requires n < |lists|
    ensures Flatten(lists[..n + 1]) == Flatten(lists[..n]) + lists[n]
    ensures TextLists(lists[..n + 1]) == TextLists(lists[..n]) + [TextsOf(lists[n])]
  {
    assert lists[..n + 1] == lists[..n] + [lists[n]];
    FlattenSnoc(lists[..n], lists[n]);
  }

  lemma FlattenWithin(lists: seq<seq<Chunk>>, n: nat)
    requires n <= |lists|
    ensures forall c :: c in Flatten(lists[..n]) ==> c in Flatten(lists)
  {
    assert lists == lists[..n] + lists[n..];
    FlattenAppend(lists[..n], lists[n..]);
  }

  /** One entry per distinct non-empty text, its first chunk, with the summed score, in descending
      order of score and first seen first among equals. */
  method Fuse(lists: seq<seq<Chunk>>) returns (result: seq<Chunk>)
    modifies set c | c in Flatten(lists)
    ensures Keyed(result, Scores(result)) == Sorted(Entries(TextLists(lists)))
    ensures forall c :: c in result ==> c.text in TextsOf(Flatten(lists)) && c == First(Flatten(lists), c.text)
  {
    var order: seq<string> := [];
    var fused: map<string, Chunk> := map[];
    assert lists[..0] == [];
    for n := 0 to |lists|
      invariant FusedSoFar(Flatten(lists[..n]), order, fused, TextLists(lists[..n]), [])
      invariant fused.Values <= set c | c in Flatten(lists[..n])
    {
      FlattenTexts(lists[..n]);
      FlattenPrefix(lists, n);
      FlattenWithin(lists, n + 1);
      order, fused := FuseList(lists[n], Flatten(lists[..n]), TextLists(lists[..n]), order, fused);
      NextList(Flatten(lists[..n + 1]), order, fused, TextLists(lists[..n]), TextsOf(lists[n]));
    }
    assert lists[..|lists|] == lists;
    FlattenTexts(lists);
    result := Ranked(order, fused, lists);
  }

  /** `sorted(fused.values(), key=lambda c: c.score, reverse=True)` */
  method Ranked(order: seq<string>, fused: map<string, Chunk>, ghost lists: seq<seq<Chunk>>)
    returns (result: seq<Chunk>)
    requires FusedSoFar(Flatten(lists), order, fused, TextLists(lists), [])
    requires TextsOf(Flatten(lists)) == Flatten(TextLists(lists))
    ensures Keyed(result, Scores(result)) == Sorted(Entries(TextLists(lists)))
    ensures forall c :: c in result ==> c.text in TextsOf(Flatten(lists)) && c == First(Flatten(lists), c.text)
  {
    ghost var all := Flatten(lists);
    var values := seq(|order|, i requires 0 <= i < |order| && order[i] in fused => fused[order[i]]);
    var keys := seq(|values|, i requires 0 <= i < |values| reads values => values[i].score);
    forall i | 0 <= i < |order|
      ensures values[i].text == order[i] && keys[i] == Score(TextLists(lists), order[i])
      ensures order[i] in TextsOf(all) && values[i] == First(all, order[i])
    {
      assert FusedAt(all, fused, TextLists(lists), [], order[i]);
    }
    var ks;
    result, ks := SortByKey(values, keys);
    assert Keyed(values, keys) == Entries(TextLists(lists));
    SortedKeys(result, ks, values, keys);
    forall c | c in result
      ensures c.text in TextsOf(all) && c == First(all, c.text)
    {
      assert c in values;
    }
  }

  lemma SortedKeys(r: seq<Chunk>, ks: seq<real>, cs: seq<Chunk>, keys: seq<real>)
    requires |ks| == |r| && |keys| == |cs| && PairsOf(r, ks, cs, keys)
    requires forall i :: 0 <= i < |cs| ==> keys[i] == cs[i].score
    ensures ks == Scores(r)
    ensures forall c :: c in r ==> c in cs
  {
    forall i | 0 <= i < |r|
      ensures ks[i] == r[i].score && r[i] in cs
    {
      assert PairAt(r, ks, cs, keys, i);
    }
  }

  // ---- reranking ----

  datatype Outcome = Raised | Returned(chunks: seq<Chunk>)

  ghost predicate DistinctChunks(cs: seq<Chunk>) {
    forall i, j :: 0 <= i < j < |cs| ==> cs[i] != cs[j]
  }

  /** `c.rerank_score or 0.0` */
  function Key(c: Chunk): real
    reads c
  {
    match c.rerankScore
    case Some(s) => s
    case None => 0.0
  }

  ghost predicate AllScored(cs: seq<Chunk>)
    reads cs
  {
    forall c :: c in cs ==> c.rerankScore.Some?
  }

  ghost predicate AtLeast(a: Chunk, b: Chunk)
    requires a.rerankScore.Some? && b.rerankScore.Some?
    reads a, b
  {
    a.rerankScore.value >= b.rerankScore.value
  }

  /** The best of the candidates by their reranker scores: as many as asked for, in order, and none
      that is left out beats one that is not. */
  ghost predicate Best(candidates: seq<Chunk>, chunks: seq<Chunk>, topN: nat)
    reads candidates, chunks
  {
    && |chunks| == Min(topN, |candidates|)
    && multiset(chunks) <= multiset(candidates)
    && AllScored(candidates) && AllScored(chunks)
    && (forall i, j :: 0 <= i < j < |chunks| ==> AtLeast(chunks[i], chunks[j]))
    && (forall c, i :: c in candidates && c !in chunks && 0 <= i < |chunks| ==> AtLeast(chunks[i], c))
  }

  ghost function RerankScores(cs: seq<Chunk>): (ks: seq<real>)
    requires AllScored(cs)
    reads cs
    ensures |ks| == |cs|
    ensures forall i :: 0 <= i < |cs| ==> cs[i].rerankScore == Some(ks[i])
  {
    seq(|cs|, i requires 0 <= i < |cs| && cs[i].rerankScore.Some? reads cs => cs[i].rerankScore.value)
  }

  /** The first chunks of the stable sort by the given scores: among equals the order of the candidates
      stays. */
  ghost predicate IsRankedBy(candidates: seq<Chunk>, chunks: seq<Chunk>, scores: seq<real>)
    requires |chunks| <= |candidates| == |scores| && AllScored(chunks)
    reads chunks
  {
    Keyed(chunks, RerankScores(chunks)) == Sorted(Keyed(candidates, scores))[..|chunks|]
  }

  ghost predicate IsSortedPrefix(candidates: seq<Chunk>, chunks: seq<Chunk>)
    requires |chunks| <= |candidates| && AllScored(candidates) && AllScored(chunks)
    reads candidates, chunks
  {
    IsRankedBy(candidates, chunks, RerankScores(candidates))
  }

  /** predict scores a list of texts; `zip(..., strict=True)` raises if it returns too few or too many. */
  method Rerank(candidates: seq<Chunk>, predict: seq<string> -> seq<real>, topN: nat) returns (result: Outcome)
    modifies set c | c in candidates
    ensures result.Raised? <==> candidates != [] && |predict(TextsOf(candidates))| != |candidates|
    ensures result.Returned? ==> Best(candidates, result.chunks, topN)
    ensures result.Returned? ==> IsSortedPrefix(candidates, result.chunks)
    ensures result.Returned? && DistinctChunks(candidates) && candidates != [] ==>
              forall i :: 0 <= i < |candidates| ==> candidates[i].rerankScore == Some(predict(TextsOf(candidates))[i])
    ensures forall c :: c in candidates ==> c.score == old(c.score)
  {
    if candidates == [] {
      return Returned([]);
    }
    var scores := predict(TextsOf(candidates));
    for i := 0 to |candidates|
      invariant i <= |scores|
      invariant DistinctChunks(candidates) ==> forall j :: 0 <= j < i ==> candidates[j].rerankScore == Some(scores[j])
      invariant forall j :: 0 <= j < i ==> candidates[j].rerankScore.Some?
      invariant forall c :: c in candidates ==> c.score == old(c.score)
    {
      if i == |scores| {
        return Raised;
      }
      candidates[i].rerankScore := Some(scores[i]);
    }
    if |scores| != |candidates| {
      return Raised;
    }
    var keys := seq(|candidates|, i requires 0 <= i < |candidates| reads candidates => Key(candidates[i]));
    var sorted, ks := SortByKey(candidates, keys);
    SortedIs(Keyed(candidates, keys));
    forall i | 0 <= i < |sorted|
      ensures sorted[i].rerankScore == Some(ks[i])
    {
      assert PairAt(sorted, ks, candidates, keys, i);
    }
    TakeBest(candidates, sorted, ks, topN);
    TakeSorted(candidates, keys, sorted, ks, Min(topN, |sorted|));
    return Returned(sorted[..Min(topN, |sorted|)]);
  }

  lemma TakeBest(candidates: seq<Chunk>, sorted: seq<Chunk>, ks: seq<real>, topN: nat)
    requires |ks| == |sorted| && multiset(sorted) == multiset(candidates)
    requires forall i :: 0 <= i < |sorted| ==> sorted[i].rerankScore == Some(ks[i])
    requires AllScored(candidates) && Descending(Keyed(sorted, ks))
    ensures Best(candidates, sorted[..Min(topN, |sorted|)], topN)
  {
    var n := Min(topN, |sorted|);
    assert |sorted| == |multiset(sorted)| == |candidates|;
    assert sorted == sorted[..n] + sorted[n..];
    forall i, j | 0 <= i < j < |sorted|
      ensures AtLeast(sorted[i], sorted[j])
    {
      assert InOrder(Keyed(sorted, ks), i, j);
    }
    forall c, i | c in candidates && c !in sorted[..n] && 0 <= i < n
      ensures AtLeast(sorted[i], c)
    {
      var j := LeftOut(candidates, sorted, n, c);
      assert AtLeast(sorted[i], sorted[j]);
    }
  }

  lemma TakeSorted(candidates: seq<Chunk>, keys: seq<real>, sorted: seq<Chunk>, ks: seq<real>, n: nat)
    requires |ks| == |sorted| && |keys| == |candidates| && n <= |sorted|
    requires Keyed(sorted, ks) == Sorted(Keyed(candidates, keys))
    requires AllScored(candidates) && AllScored(sorted)
    requires keys == RerankScores(candidates) && ks == RerankScores(sorted)
    ensures |sorted| == |candidates| && AllScored(sorted[..n]) && IsSortedPrefix(candidates, sorted[..n])
  {
    assert Keyed(sorted[..n], RerankScores(sorted[..n])) == Keyed(sorted, ks)[..n];
  }

  lemma LeftOut(candidates: seq<Chunk>, sorted: seq<Chunk>, n: nat, c: Chunk) returns (j: nat)
    requires multiset(sorted) == multiset(candidates) && n <= |sorted|
    requires c in candidates && c !in sorted[..n]
    ensures n <= j < |sorted| && sorted[j] == c
  {
    assert c in multiset(candidates) && c in sorted;
    assert sorted == sorted[..n] + sorted[n..];
    var k :| 0 <= k < |sorted[n..]| && sorted[n..][k] == c;
    j := n + k;
  }

  // ---- the whole retrieval ----

  /** What one of the two searches did: failed, or found chunks, best first. */
  datatype Recall = Failed | Hits(hits: seq<Chunk>)

  function Found(r: Recall): seq<Chunk> {
    match r
    case Failed => []
    case Hits(hits) => hits
  }

  ghost predicate DistinctTexts(cs: seq<Chunk>) {
    forall i, j :: 0 <= i < j < |cs| ==> cs[i].text != cs[j].text
  }

  /** The fused chunks, and so any prefix of them, have pairwise distinct texts. */
  lemma FusedAreDistinct(fused: seq<Chunk>, keys: seq<real>, lists: seq<seq<string>>)
    requires |keys| == |fused| && Keyed(fused, keys) == Sorted(Entries(lists))
    ensures DistinctTexts(fused) && |fused| == |Distinct(Flatten(lists))|
  {
    RankingDiffers(lists);
    forall i, j | 0 <= i < j < |fused|
      ensures fused[i].text != fused[j].text
    {
      assert DifferAt(Keyed(fused, keys), i, j);
    }
  }

  lemma {:induction false} OnceOnly(cs: seq<Chunk>, c: Chunk)
    requires DistinctTexts(cs)
    ensures multiset(cs)[c] <= 1
  {
    if cs != [] {
      OnceOnly(cs[1..], c);
      assert cs == [cs[0]] + cs[1..];
      if c == cs[0] {
        forall i | 0 <= i < |cs[1..]|
          ensures cs[1..][i] != c
        {
          assert cs[i + 1].text != c.text;
        }
        assert c !in cs[1..];
      }
    }
  }

  /** Chunks chosen among chunks of distinct texts have distinct texts. */
  lemma ChosenAreDistinct(cs: seq<Chunk>, chosen: seq<Chunk>)
    requires DistinctTexts(cs) && multiset(chosen) <= multiset(cs)
    ensures DistinctTexts(chosen)
  {
    forall i, j | 0 <= i < j < |chosen|
      ensures chosen[i].text != chosen[j].text
    {
      var c, d := chosen[i], chosen[j];
      assert chosen == chosen[..j] + chosen[j..];
      assert c in chosen[..j] && d in chosen[j..];
      OnceOnly(cs, c);
      assert c in multiset(cs) && d in multiset(cs);
      assert c != d;
    }
  }

  /** The chunks the reranker sees: the best `most` of the fused ones. */
  ghost predicate Shortlist(candidates: seq<Chunk>, v: seq<Chunk>, k: seq<Chunk>, most: nat)
    reads candidates
  {
    var ranked := Sorted(Entries([TextsOf(v), TextsOf(k)]));
    && Keyed(candidates, Scores(candidates)) == ranked[..Min(|ranked|, most)]
    && DistinctTexts(candidates)
    && |ranked| == |Distinct(TextsOf(v) + TextsOf(k))|
    && forall c :: c in candidates ==> c.text in TextsOf(v + k) && c == First(v + k, c.text)
  }

  /** `_fuse(vector_results, keyword_results)[:most]` */
  method FuseTwo(v: seq<Chunk>, k: seq<Chunk>, most: nat) returns (candidates: seq<Chunk>)
    modifies (set c | c in v) + (set c | c in k)
    ensures Shortlist(candidates, v, k, most)
    ensures forall c :: c in candidates ==> c in v || c in k
  {
    ghost var texts := [TextsOf(v), TextsOf(k)];
    FlattenTwo(v, k);
    FlattenTwo(texts[0], texts[1]);
    assert TextLists([v, k]) == texts;
    var fused := Fuse([v, k]);
    FusedAreDistinct(fused, Scores(fused), texts);
    candidates := fused[..Min(|fused|, most)];
    forall c | c in candidates
      ensures c in v || c in k
    {
      FirstIsIn(v + k, c.text);
    }
    assert Keyed(candidates, Scores(candidates)) == Keyed(fused, Scores(fused))[..|candidates|];
  }

  /** Every candidate carries the score the reranker gives its text. */
  ghost predicate ScoredBy(candidates: seq<Chunk>, predict: seq<string> -> seq<real>)
    reads candidates
  {
    var scores := predict(TextsOf(candidates));
    && |scores| == |candidates|
    && forall i :: 0 <= i < |candidates| ==> candidates[i].rerankScore == Some(scores[i])
  }

  /** A failed vector search raises, and so does a reranker that returns too few or too many scores
      for the candidates; a failed keyword search only loses its own results. */
  method RetrieveBest(vector: Recall, keyword: Recall, predict: seq<string> -> seq<real>, rerankK: nat, finalK: nat)
    returns (result: Outcome, ghost candidates: seq<Chunk>)
    modifies (set c | c in Found(vector)) + (set c | c in Found(keyword))
    ensures vector.Hits? ==>
              Shortlist(candidates, Found(vector), Found(keyword), if rerankK >= finalK then rerankK else finalK)
    ensures result.Raised? <==>
              vector.Failed? || (candidates != [] && |predict(TextsOf(candidates))| != |candidates|)
    ensures result.Returned? ==> candidates == [] || ScoredBy(candidates, predict)
    ensures result.Returned? ==> Best(candidates, result.chunks, finalK)
    ensures result.Returned? && candidates != [] ==>
              IsRankedBy(candidates, result.chunks, predict(TextsOf(candidates)))
    ensures result.Returned? ==>
              && |result.chunks| == Min(finalK, |Distinct(TextsOf(Found(vector)) + TextsOf(Found(keyword)))|)
              && DistinctTexts(result.chunks)
  {
    candidates := [];
    if vector.Failed? {
      return Raised, candidates;
    }
    var most := if rerankK >= finalK then rerankK else finalK;
    var chosen := FuseTwo(Found(vector), Found(keyword), most);
    candidates := chosen;
    ghost var keys := Scores(chosen);
    result := Rerank(chosen, predict, finalK);
    assert keys == Scores(chosen);
    if result.Returned? {
      ChosenAreDistinct(chosen, result.chunks);
      assert chosen != [] ==> RerankScores(chosen) == predict(TextsOf(chosen));
    }
  }

  lemma {:induction false} FirstIsIn(cs: seq<Chunk>, t: string)
    requires t in TextsOf(cs)
    ensures First(cs, t) in cs
  {
    if cs[0].text != t {
      assert TextsOf(cs)[1..] == TextsOf(cs[1..]);
      FirstIsIn(cs[1..], t);
    }
  }
}
