/** `str.splitlines`, with and without the line ends. */
module Lines {
  import opened Text

  predicate IsLineBreak(c: char) {
    var n := c as int;
    0x0a <= n <= 0x0d || 0x1c <= n <= 0x1e || n == 0x85 || n == 0x2028 || n == 0x2029
  }

  /** Length of the first line of t, its line end included. */
  function FirstLine(t: string): (n: nat)
    requires t != ""
    ensures 1 <= n <= |t|
  {
    if t[0] == '\r' && |t| > 1 && t[1] == '\n' then 2
    else if IsLineBreak(t[0]) || |t| == 1 then 1
    else 1 + FirstLine(t[1..])
  }

  /** `text.splitlines(keepends=True)` */
  function KeepEnds(t: string): seq<string>
    decreases |t|
  {
    if t == "" then [] else [t[..FirstLine(t)]] + KeepEnds(t[FirstLine(t)..])
  }

  function Body(line: string): string {
    if line == "" || !IsLineBreak(line[|line| - 1]) then line
    else if |line| > 1 && line[|line| - 2..] == "\r\n" then line[..|line| - 2]
    else line[..|line| - 1]
  }

  /** `text.splitlines()` */
  function SplitLines(t: string): (ls: seq<string>)
    ensures |ls| == |KeepEnds(t)|
    ensures forall i :: 0 <= i < |ls| ==> ls[i] == Body(KeepEnds(t)[i])
  {
    var ls := KeepEnds(t);
    seq(|ls|, i requires 0 <= i < |ls| => Body(ls[i]))
  }

  lemma {:induction false} KeepEndsKeepsAll(t: string)
    ensures Flatten(KeepEnds(t)) == t
    decreases |t|
  {
    if t != "" {
      var n := FirstLine(t);
      KeepEndsKeepsAll(t[n..]);
      assert KeepEnds(t)[1..] == KeepEnds(t[n..]);
      assert t == t[..n] + t[n..];
    }
  }

  lemma EraseTail(line: string, n: nat)
    requires n <= |line| && forall i :: n <= i < |line| ==> IsSpace(line[i])
    ensures Erase(line[..n], IsSpace) == Erase(line, IsSpace)
  {
    assert line == line[..n] + line[n..];
    EraseAppend(line[..n], line[n..], IsSpace);
    EraseGone(line[n..], IsSpace);
  }

  lemma EraseBody(line: string)
    ensures Erase(Body(line), IsSpace) == Erase(line, IsSpace)
  {
    var n := |Body(line)|;
    EraseTail(line, n);
  }

  lemma {:induction false} EraseFlatten(ss: seq<string>, gone: char -> bool)
    ensures Erase(Flatten(ss), gone) == Flatten(EraseAll(ss, gone))
  {
    if ss != [] {
      EraseAppend(ss[0], Flatten(ss[1..]), gone);
      EraseFlatten(ss[1..], gone);
      assert EraseAll(ss, gone)[1..] == EraseAll(ss[1..], gone);
    }
  }

  lemma {:induction false} SplitLinesKeepsAll(t: string)
    ensures Flatten(EraseAll(SplitLines(t), IsSpace)) == Erase(t, IsSpace)
  {
    var ls := KeepEnds(t);
    KeepEndsKeepsAll(t);
    EraseFlatten(ls, IsSpace);
    forall i | 0 <= i < |ls|
      ensures Erase(Body(ls[i]), IsSpace) == Erase(ls[i], IsSpace)
    {
      EraseBody(ls[i]);
    }
    assert EraseAll(SplitLines(t), IsSpace) == EraseAll(ls, IsSpace);
  }

  /** A line goes on to the first line break, which is one character or carriage return and newline. */
  lemma {:induction false} FirstLineIs(t: string)
    requires t != ""
    ensures var n := FirstLine(t);
            && (n < |t| ==> IsLineBreak(t[n - 1]) && !(t[n - 1] == '\r' && t[n] == '\n'))
            && forall i :: 0 <= i < n - 1 ==> (IsLineBreak(t[i]) ==> i == n - 2 && t[i] == '\r' && t[n - 1] == '\n')
  {
    if !(t[0] == '\r' && |t| > 1 && t[1] == '\n') && !IsLineBreak(t[0]) && |t| > 1 {
      var n := FirstLine(t[1..]);
      FirstLineIs(t[1..]);
      forall i | 0 < i < n && IsLineBreak(t[i])
        ensures i == n - 1 && t[i] == '\r' && t[n] == '\n'
      {
        assert t[1..][i - 1] == t[i];
      }
    }
  }

  /** Exactly the line end is cut off. */
  lemma {:induction false} BodyIs(line: string)
    ensures Body(line) <= line
    ensures line != "" && IsLineBreak(line[|line| - 1]) ==>
              |Body(line)| == if |line| > 1 && line[|line| - 2] == '\r' && line[|line| - 1] == '\n' then |line| - 2
                              else |line| - 1
    ensures line == "" || !IsLineBreak(line[|line| - 1]) ==> Body(line) == line
  {
    if |line| > 1 {
      assert line[|line| - 2..] == [line[|line| - 2], line[|line| - 1]];
    }
  }

  lemma {:induction false} BodyHasNoBreak(t: string)
    requires t != ""
    ensures forall c :: c in Body(t[..FirstLine(t)]) ==> !IsLineBreak(c)
  {
    var n := FirstLine(t);
    var body := Body(t[..n]);
    FirstLineIs(t);
    BodyIs(t[..n]);
    forall c | c in body
      ensures !IsLineBreak(c)
    {
      var i :| 0 <= i < |body| && body[i] == c;
      assert t[..n][i] == t[i] == c;
    }
  }

  /** No line has a line break in it. */
  lemma {:induction false} LinesHaveNoBreaks(t: string, i: nat)
    requires i < |SplitLines(t)|
    ensures forall c :: c in SplitLines(t)[i] ==> !IsLineBreak(c)
    decreases |t|
  {
    SplitLinesCons(t);
    if i == 0 {
      BodyHasNoBreak(t);
    } else {
      LinesHaveNoBreaks(t[FirstLine(t)..], i - 1);
    }
  }

  /** Newlines are the only line breaks of the text. */
  ghost predicate OnlyNewlines(t: string) {
    forall i :: 0 <= i < |t| ==> (IsLineBreak(t[i]) ==> t[i] == '\n')
  }

  lemma RestOfNewlines(t: string, n: nat)
    requires OnlyNewlines(t) && n <= |t|
    ensures OnlyNewlines(t[n..])
  {
    forall i | 0 <= i < |t[n..]|
      ensures IsLineBreak(t[n..][i]) ==> t[n..][i] == '\n'
    {
      assert t[n..][i] == t[n + i];
    }
  }

  lemma SplitLinesCons(t: string)
    requires t != ""
    ensures SplitLines(t) == [Body(t[..FirstLine(t)])] + SplitLines(t[FirstLine(t)..])
  {
    var n := FirstLine(t);
    var rest := t[n..];
    assert KeepEnds(t) == [t[..n]] + KeepEnds(rest);
    var b := [Body(t[..n])] + SplitLines(rest);
    forall i | 0 <= i < |b|
      ensures SplitLines(t)[i] == b[i]
    {
      if i > 0 {
        assert KeepEnds(t)[i] == KeepEnds(rest)[i - 1];
      }
    }
  }

  lemma BodyBeforeNewline(line: string)
    ensures OnlyNewlines(line) ==> Body(line + "\n") == line
  {
    var t := line + "\n";
    assert IsLineBreak('\r') && t[|t| - 1] == '\n' && t[..|t| - 1] == line;
    if |t| > 1 {
      assert t[|t| - 2..][0] == line[|line| - 1];
    }
  }

  /** The first line of a text of several, and the others. */
  lemma LinesCons(t: string) returns (line: string, rest: string)
    requires t != "" && OnlyNewlines(t) && FirstLine(t) < |t|
    ensures t == line + "\n" + rest && rest != "" && OnlyNewlines(rest)
    ensures SplitLines(t) == [line] + SplitLines(rest)
  {
    var n := FirstLine(t);
    line, rest := t[..n - 1], t[n..];
    FirstLineIs(t);
    RestOfNewlines(t, n);
    assert t[..n] == line + "\n" && t == t[..n] + rest;
    forall i | 0 <= i < |line|
      ensures IsLineBreak(line[i]) ==> line[i] == '\n'
    {
      assert line[i] == t[i];
    }
    BodyBeforeNewline(line);
    SplitLinesCons(t);
  }

  lemma {:induction false} OneLineOnly(t: string)
    requires t != "" && OnlyNewlines(t) && t[|t| - 1] != '\n' && FirstLine(t) == |t|
    ensures SplitLines(t) == [t]
  {
    assert !IsLineBreak(t[|t| - 1]);
    assert t[..|t|] == t && t[|t|..] == "" && KeepEnds(t) == [t] + KeepEnds("");
  }

  /** Joining the lines of a text undoes splitting it, if newlines are its only line breaks. */
  lemma {:induction false} JoinLines(t: string)
    requires t != "" && OnlyNewlines(t) && t[|t| - 1] != '\n'
    ensures SplitLines(t) != [] && Join(SplitLines(t), "\n") == t
    decreases |t|
  {
    if FirstLine(t) == |t| {
      OneLineOnly(t);
    } else {
      var line, rest := LinesCons(t);
      JoinLines(rest);
      JoinCons(line, SplitLines(rest), "\n");
    }
  }

  lemma {:induction false} InFlatten(ss: seq<string>, i: nat, c: char)
    requires i < |ss| && c in ss[i]
    ensures c in Flatten(ss)
  {
    if i > 0 {
      InFlatten(ss[1..], i - 1, c);
    }
  }

  /** A line has only characters of the text. */
  lemma LineOfText(t: string, i: nat, c: char)
    requires i < |SplitLines(t)| && c in SplitLines(t)[i]
    ensures c in t
  {
    assert c in KeepEnds(t)[i];
    InFlatten(KeepEnds(t), i, c);
    KeepEndsKeepsAll(t);
  }
}
