/** The Python string operations the chunkers and the stream parser rest on. */
module Text {

  /** The characters `str.strip` and `str.isspace` treat as whitespace. */
  predicate IsSpace(c: char) {
    var n := c as int;
    || 0x09 <= n <= 0x0d || 0x1c <= n <= 0x20 || n == 0x85 || n == 0xa0 || n == 0x1680
    || 0x2000 <= n <= 0x200a || n == 0x2028 || n == 0x2029 || n == 0x202f || n == 0x205f || n == 0x3000
  }

  predicate IsBlankOrNewline(c: char) {
    c == ' ' || c == '\n'
  }

  function Flatten<T>(ss: seq<seq<T>>): seq<T> {
    if ss == [] then [] else ss[0] + Flatten(ss[1..])
  }

  lemma AppendAssoc<T>(a: seq<T>, b: seq<T>, c: seq<T>)
    ensures a + (b + c) == (a + b) + c
  {
  }

  lemma SliceSnoc<T>(s: seq<T>, lo: nat, i: nat)
    requires lo <= i < |s|
    ensures s[lo..i + 1] == s[lo..i] + [s[i]]
  {
  }

  lemma TakeSnoc<T>(s: seq<T>, i: nat)
    requires i < |s|
    ensures s[..i + 1] == s[..i] + [s[i]]
  {
  }

  lemma {:induction false} FlattenAppend<T>(a: seq<seq<T>>, b: seq<seq<T>>)
    ensures Flatten(a + b) == Flatten(a) + Flatten(b)
  {
    if a == [] {
      assert a + b == b;
    } else {
      assert (a + b)[1..] == a[1..] + b;
      FlattenAppend(a[1..], b);
    }
  }

  lemma FlattenSnoc<T>(a: seq<seq<T>>, l: seq<T>)
    ensures Flatten(a + [l]) == Flatten(a) + l
  {
    FlattenAppend(a, [l]);
    assert Flatten([l]) == l + Flatten([l][1..]);
  }

  lemma FlattenTwo<T>(a: seq<T>, b: seq<T>)
    ensures Flatten([a, b]) == a + b
  {
    FlattenSnoc([a], b);
    FlattenSnoc([], a);
    assert [a] + [b] == [a, b] && [] + [a] == [a];
  }

  // ---- strip ----

  function LStrip(s: string): (t: string)
    ensures |t| <= |s|
    ensures t != "" ==> !IsSpace(t[0])
  {
    if s != "" && IsSpace(s[0]) then LStrip(s[1..]) else s
  }

  function RStrip(s: string): (t: string)
    ensures t <= s
    ensures t != "" ==> !IsSpace(t[|t| - 1])
  {
    if s != "" && IsSpace(s[|s| - 1]) then RStrip(s[..|s| - 1]) else s
  }

  function Strip(s: string): (t: string)
    ensures |t| <= |s|
    ensures t != "" ==> !IsSpace(t[0]) && !IsSpace(t[|t| - 1])
  {
    RStrip(LStrip(s))
  }

  lemma StripsNothing(s: string)
    requires s != "" && !IsSpace(s[0]) && !IsSpace(s[|s| - 1])
    ensures Strip(s) == s
  {
    assert LStrip(s) == s;
  }

  lemma StripIsIdempotent(s: string)
    ensures Strip(Strip(s)) == Strip(s)
  {
  }

  /** Leading whitespace never survives a strip. */
  lemma {:induction false} StripDropsPrefix(pre: string, s: string)
    requires forall c :: c in pre ==> IsSpace(c)
    ensures Strip(pre + s) == Strip(s)
  {
    if pre == "" {
      assert pre + s == s;
    } else {
      assert (pre + s)[1..] == pre[1..] + s;
      StripDropsPrefix(pre[1..], s);
    }
  }

  // ---- erasing characters ----

  /** `s` without the characters in `gone`. */
  function Erase(s: string, gone: char -> bool): (t: string) {
    if s == "" then "" else (if gone(s[0]) then "" else [s[0]]) + Erase(s[1..], gone)
  }

  lemma {:induction false} EraseAppend(a: string, b: string, gone: char -> bool)
    ensures Erase(a + b, gone) == Erase(a, gone) + Erase(b, gone)
  {
    if a == "" {
      assert a + b == b;
    } else {
      assert (a + b)[1..] == a[1..] + b;
      EraseAppend(a[1..], b, gone);
    }
  }

  lemma {:induction false} EraseGone(s: string, gone: char -> bool)
    requires forall c :: c in s ==> gone(c)
    ensures Erase(s, gone) == ""
  {
    if s != "" {
      EraseGone(s[1..], gone);
    }
  }

  lemma {:induction false} EraseLStrip(s: string)
    ensures Erase(LStrip(s), IsSpace) == Erase(s, IsSpace)
  {
    if s != "" && IsSpace(s[0]) {
      EraseLStrip(s[1..]);
    }
  }

  lemma {:induction false} EraseRStrip(s: string)
    ensures Erase(RStrip(s), IsSpace) == Erase(s, IsSpace)
  {
    if s != "" && IsSpace(s[|s| - 1]) {
      var front := s[..|s| - 1];
      EraseRStrip(front);
      EraseAppend(front, [s[|s| - 1]], IsSpace);
      assert s == front + [s[|s| - 1]];
      EraseGone([s[|s| - 1]], IsSpace);
    }
  }

  lemma EraseStrip(s: string)
    ensures Erase(Strip(s), IsSpace) == Erase(s, IsSpace)
  {
    EraseLStrip(s);
    EraseRStrip(LStrip(s));
  }

  /** Only a text of whitespace strips to nothing. */
  lemma {:induction false} StripsToNothing(s: string)
    ensures Strip(s) == "" <==> Erase(s, IsSpace) == ""
  {
    EraseStrip(s);
    if Strip(s) != "" {
      assert Erase(Strip(s), IsSpace) != "";
    }
  }

  // ---- join and split ----

  function Join(ps: seq<string>, sep: string): string {
    if |ps| == 0 then "" else if |ps| == 1 then ps[0] else ps[0] + sep + Join(ps[1..], sep)
  }

  lemma JoinCons(p: string, ps: seq<string>, sep: string)
    requires ps != []
    ensures Join([p] + ps, sep) == p + sep + Join(ps, sep)
  {
    assert ([p] + ps)[1..] == ps;
  }

  lemma {:induction false} JoinAppend(a: seq<string>, b: seq<string>, sep: string)
    requires a != [] && b != []
    ensures Join(a + b, sep) == Join(a, sep) + sep + Join(b, sep)
  {
    if |a| == 1 {
      assert (a + b)[1..] == b;
    } else {
      assert (a + b)[1..] == a[1..] + b;
      JoinAppend(a[1..], b, sep);
      assert Join(a, sep) == a[0] + sep + Join(a[1..], sep);
    }
  }

  function EraseAll(ps: seq<string>, gone: char -> bool): (es: seq<string>)
    ensures |es| == |ps|
    ensures forall i :: 0 <= i < |ps| ==> es[i] == Erase(ps[i], gone)
  {
    seq(|ps|, i requires 0 <= i < |ps| => Erase(ps[i], gone))
  }

  lemma {:induction false} EraseJoin(ps: seq<string>, sep: string, gone: char -> bool)
    requires forall c :: c in sep ==> gone(c)
    ensures Erase(Join(ps, sep), gone) == Flatten(EraseAll(ps, gone))
  {
    if |ps| == 1 {
      assert EraseAll(ps, gone)[1..] == [];
    } else if |ps| > 1 {
      EraseJoin(ps[1..], sep, gone);
      EraseAppend(ps[0] + sep, Join(ps[1..], sep), gone);
      EraseAppend(ps[0], sep, gone);
      EraseGone(sep, gone);
      assert EraseAll(ps, gone)[1..] == EraseAll(ps[1..], gone);
    }
  }

  function Repeat(c: char, n: nat): (s: string)
    ensures |s| == n && forall i :: 0 <= i < n ==> s[i] == c
  {
    seq(n, _ => c)
  }

  predicate Contains(t: string, sep: string) {
    exists i :: 0 <= i <= |t| && sep <= t[i..]
  }

  /** `str.split(sep)`: cut at each occurrence, left to right, without overlap. */
  function Split(t: string, sep: string): (ps: seq<string>)
    requires sep != ""
    ensures ps != []
    decreases |t|
  {
    if t == "" then [""]
    else if sep <= t then [""] + Split(t[|sep|..], sep)
    else
      var r := Split(t[1..], sep);
      [[t[0]] + r[0]] + r[1..]
  }

  lemma JoinPrefixed(pre: string, r: seq<string>, sep: string)
    requires r != []
    ensures Join([pre + r[0]] + r[1..], sep) == pre + Join(r, sep)
  {
    var q := [pre + r[0]] + r[1..];
    assert q[1..] == r[1..];
    if |r| > 1 {
      assert (pre + r[0]) + sep + Join(r[1..], sep) == pre + (r[0] + sep + Join(r[1..], sep));
    }
  }

  lemma JoinEmptyHead(r: seq<string>, sep: string)
    requires r != []
    ensures Join([""] + r, sep) == sep + Join(r, sep)
  {
    assert ([""] + r)[1..] == r;
  }

  lemma {:induction false} JoinSplit(t: string, sep: string)
    requires sep != ""
    ensures Join(Split(t, sep), sep) == t
    decreases |t|
  {
    if t == "" {
    } else if sep <= t {
      var rest := t[|sep|..];
      JoinSplit(rest, sep);
      JoinEmptyHead(Split(rest, sep), sep);
      assert t == sep + rest;
    } else {
      JoinSplit(t[1..], sep);
      JoinPrefixed([t[0]], Split(t[1..], sep), sep);
      assert t == [t[0]] + t[1..];
    }
  }

  /** The first cut is at the first occurrence of the separator. */
  lemma {:induction false} SplitCuts(a: string, sep: string, b: string)
    requires sep != "" && forall k :: 0 <= k < |a| ==> !(sep <= (a + sep + b)[k..])
    ensures Split(a + sep + b, sep) == [a] + Split(b, sep)
  {
    var t := a + sep + b;
    if a == "" {
      assert t == sep + b && sep <= t && t[|sep|..] == b;
    } else {
      assert t[1..] == a[1..] + sep + b && t[0..] == t;
      forall k | 0 <= k < |a[1..]|
        ensures !(sep <= (a[1..] + sep + b)[k..])
      {
        assert t[1..][k..] == t[k + 1..];
      }
      SplitCuts(a[1..], sep, b);
      assert [t[0]] + a[1..] == a;
    }
  }

  /** Without an occurrence there is no cut. */
  lemma {:induction false} SplitWhole(t: string, sep: string)
    requires sep != "" && !Contains(t, sep)
    ensures Split(t, sep) == [t]
  {
    if t != "" {
      assert t[0..] == t;
      forall k | 0 <= k <= |t[1..]|
        ensures !(sep <= t[1..][k..])
      {
        assert t[1..][k..] == t[k + 1..];
      }
      SplitWhole(t[1..], sep);
      assert t == [t[0]] + t[1..];
    }
  }

  lemma {:induction false} SplitUnbroken(t: string, sep: string)
    requires sep != "" && forall c :: c in t ==> c != sep[0]
    ensures Split(t, sep) == [t]
  {
    forall k | 0 <= k <= |t|
      ensures !(sep <= t[k..])
    {
      if k < |t| {
        assert t[k..][0] == t[k] && t[k] in t;
      }
    }
    SplitWhole(t, sep);
  }

  lemma {:induction false} SplitAtFirst(a: string, sep: string, b: string)
    requires sep != "" && forall c :: c in a ==> c != sep[0]
    ensures Split(a + sep + b, sep) == [a] + Split(b, sep)
  {
    forall k | 0 <= k < |a|
      ensures !(sep <= (a + sep + b)[k..])
    {
      assert (a + sep + b)[k..][0] == a[k] && a[k] in a;
    }
    SplitCuts(a, sep, b);
  }

  /** Splitting undoes joining, if no piece has the first character of the separator. */
  lemma {:induction false} SplitJoin(ps: seq<string>, sep: string)
    requires ps != [] && sep != "" && forall i :: 0 <= i < |ps| ==> sep[0] !in ps[i]
    ensures Split(Join(ps, sep), sep) == ps
  {
    assert sep[0] !in ps[0];
    if |ps| == 1 {
      SplitUnbroken(ps[0], sep);
    } else {
      SplitJoin(ps[1..], sep);
      SplitAtFirst(ps[0], sep, Join(ps[1..], sep));
    }
  }

  /** No piece contains the separator. */
  lemma {:induction false} SplitOff(t: string, sep: string, p: string)
    requires sep != "" && p in Split(t, sep)
    ensures !Contains(p, sep)
    decreases |t|
  {
    if t == "" {
    } else if sep <= t {
      if p != "" {
        SplitOff(t[|sep|..], sep, p);
      }
    } else {
      var r := Split(t[1..], sep);
      if p == [t[0]] + r[0] {
        SplitHead(t[1..], sep);
        SplitOff(t[1..], sep, r[0]);
        HeadHasNone(t, sep, r[0]);
      } else {
        assert p in r;
        SplitOff(t[1..], sep, p);
      }
    }
  }

  lemma {:induction false} SplitHead(t: string, sep: string)
    requires sep != ""
    ensures Split(t, sep)[0] <= t
    decreases |t|
  {
    if t != "" && !(sep <= t) {
      SplitHead(t[1..], sep);
    }
  }

  lemma HeadHasNone(t: string, sep: string, head: string)
    requires t != "" && sep != "" && !(sep <= t) && head <= t[1..] && !Contains(head, sep)
    ensures !Contains([t[0]] + head, sep)
  {
    var p := [t[0]] + head;
    forall i | 0 <= i <= |p|
      ensures !(sep <= p[i..])
    {
      if i > 0 {
        assert p[i..] == head[i - 1..];
      } else {
        assert p[0..] == p && p <= t;
      }
    }
  }

  lemma {:induction false} JoinHasOnly(ps: seq<string>, sep: string, ok: char -> bool)
    requires forall i :: 0 <= i < |ps| ==> forall c :: c in ps[i] ==> ok(c)
    requires forall c :: c in sep ==> ok(c)
    ensures forall c :: c in Join(ps, sep) ==> ok(c)
  {
    if |ps| > 1 {
      JoinHasOnly(ps[1..], sep, ok);
      assert forall c :: c in ps[0] ==> ok(c);
    }
  }

  /** `[s for s in ps if s]` */
  function NonEmpty(ps: seq<string>): (qs: seq<string>)
    ensures forall i :: 0 <= i < |qs| ==> qs[i] != ""
  {
    if ps == [] then [] else (if ps[0] == "" then [] else [ps[0]]) + NonEmpty(ps[1..])
  }

  lemma {:induction false} NonEmptyAppend(a: seq<string>, b: seq<string>)
    ensures NonEmpty(a + b) == NonEmpty(a) + NonEmpty(b)
  {
    if a == [] {
      assert a + b == b;
    } else {
      var head := if a[0] == "" then [] else [a[0]];
      NonEmptyAppend(a[1..], b);
      assert (a + b)[1..] == a[1..] + b;
      assert NonEmpty(a + b) == head + NonEmpty((a + b)[1..]);
      AppendAssoc(head, NonEmpty(a[1..]), NonEmpty(b));
    }
  }

  lemma {:induction false} EraseNonEmpty(ps: seq<string>, gone: char -> bool)
    ensures Flatten(EraseAll(NonEmpty(ps), gone)) == Flatten(EraseAll(ps, gone))
  {
    if ps != [] {
      EraseNonEmpty(ps[1..], gone);
      assert EraseAll(ps, gone)[1..] == EraseAll(ps[1..], gone);
      if ps[0] == "" {
        assert NonEmpty(ps) == NonEmpty(ps[1..]);
      } else {
        assert NonEmpty(ps)[1..] == NonEmpty(ps[1..]);
        assert EraseAll(NonEmpty(ps), gone)[1..] == EraseAll(NonEmpty(ps[1..]), gone);
      }
    }
  }

  /** `list(t)` */
  function Chars(t: string): (ps: seq<string>)
    ensures |ps| == |t|
    ensures forall i :: 0 <= i < |t| ==> ps[i] == [t[i]]
  {
    seq(|t|, i requires 0 <= i < |t| => [t[i]])
  }

  lemma {:induction false} JoinChars(t: string)
    ensures Join(Chars(t), "") == t
  {
    if |t| == 1 {
    } else if t != "" {
      JoinChars(t[1..]);
      assert Chars(t)[1..] == Chars(t[1..]);
      assert t == [t[0]] + t[1..];
    }
  }
}
