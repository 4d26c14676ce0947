/** The fence machine of `_split_markdown_sections` and where it breaks a document. */
module Fences {
  import opened Common
  import opened Text

  /** A fence line: its run of backticks or tildes, and what follows it. */
  datatype Fence = Fence(mark: char, length: nat, info: string)

  function Run(s: string, c: char): (n: nat)
    ensures n <= |s|
  {
    if s != "" && s[0] == c then 1 + Run(s[1..], c) else 0
  }

  /** FENCE_PATTERN: at most three blanks, at least three of one mark, anything. */
  function FenceOf(line: string): Option<Fence> {
    var indent := Run(line, ' ');
    var rest := line[indent..];
    if indent > 3 || rest == "" || (rest[0] != '`' && rest[0] != '~') then None
    else
      var n := Run(rest, rest[0]);
      if n < 3 then None else Some(Fence(rest[0], n, rest[n..]))
  }

  /** HEADER_PATTERN: one to six hashes and a blank. */
  predicate IsHeader(line: string) {
    var n := Run(line, '#');
    1 <= n <= 6 && n < |line| && line[n] == ' '
  }

  predicate IsFence(line: string) {
    FenceOf(line).Some?
  }

  /** A closing fence repeats the opening mark at least as often, with no info. */
  predicate Closes(opener: Fence, line: string) {
    var f := FenceOf(line);
    f.Some? && f.value.mark == opener.mark && f.value.length >= opener.length && Strip(f.value.info) == ""
  }

  // ---- what the patterns match ----

  lemma {:induction false} RunOf(c: char, n: nat, rest: string)
    requires rest == "" || rest[0] != c
    ensures Run(Repeat(c, n) + rest, c) == n
  {
    var s := Repeat(c, n) + rest;
    if n == 0 {
      assert s == rest;
    } else {
      assert s[1..] == Repeat(c, n - 1) + rest && s[0] == c;
      RunOf(c, n - 1, rest);
    }
  }

  lemma {:induction false} RunSplits(s: string, c: char)
    ensures s == Repeat(c, Run(s, c)) + s[Run(s, c)..]
    ensures Run(s, c) < |s| ==> s[Run(s, c)] != c
  {
    if s != "" && s[0] == c {
      RunSplits(s[1..], c);
      assert s == [c] + s[1..] && Repeat(c, Run(s, c)) == [c] + Repeat(c, Run(s[1..], c));
      assert s[Run(s, c)..] == s[1..][Run(s[1..], c)..];
      AppendAssoc([c], Repeat(c, Run(s[1..], c)), s[Run(s, c)..]);
    } else {
      assert Repeat(c, 0) == "" && s[0..] == s;
    }
  }

  /** The line is a fence of n marks with an info string, indented by some blanks. */
  ghost predicate IsFenceLine(line: string, indent: nat, mark: char, n: nat, info: string) {
    && indent <= 3 && (mark == '`' || mark == '~') && n >= 3
    && (info == "" || info[0] != mark)
    && line == Repeat(' ', indent) + (Repeat(mark, n) + info)
  }

  lemma FenceIs(line: string, indent: nat, mark: char, n: nat, info: string)
    requires IsFenceLine(line, indent, mark, n, info)
    ensures FenceOf(line) == Some(Fence(mark, n, info))
  {
    var rest := Repeat(mark, n) + info;
    RunOf(' ', indent, rest);
    RunOf(mark, n, info);
    assert line[indent..] == rest && rest[0] == mark && rest[n..] == info;
  }

  lemma FenceShape(line: string) returns (indent: nat)
    requires IsFence(line)
    ensures var f := FenceOf(line).value; IsFenceLine(line, indent, f.mark, f.length, f.info)
  {
    indent := Run(line, ' ');
    RunSplits(line, ' ');
    var rest := line[indent..];
    RunSplits(rest, rest[0]);
  }

  /** A fence of the same mark with nothing but whitespace behind it that is at least as long closes a
      block, and nothing else does. */
  ghost predicate IsCloserAt(opener: Fence, line: string, indent: nat, n: nat, info: string) {
    && IsFenceLine(line, indent, opener.mark, n, info)
    && n >= opener.length && forall c :: c in info ==> IsSpace(c)
  }

  lemma {:induction false} BlankIff(s: string)
    ensures Strip(s) == "" <==> forall c :: c in s ==> IsSpace(c)
  {
    StripsToNothing(s);
    if s != "" {
      BlankIff(s[1..]);
      StripsToNothing(s[1..]);
      assert s[0] in s && forall c :: c in s <==> c == s[0] || c in s[1..];
    }
  }

  lemma ClosesIff(opener: Fence, line: string)
    ensures Closes(opener, line) <==> exists indent: nat, n: nat, info :: IsCloserAt(opener, line, indent, n, info)
  {
    if Closes(opener, line) {
      var f := FenceOf(line).value;
      var indent := FenceShape(line);
      BlankIff(f.info);
      assert IsCloserAt(opener, line, indent, f.length, f.info);
    }
    if exists indent: nat, n: nat, info :: IsCloserAt(opener, line, indent, n, info) {
      var indent: nat, n: nat, info :| IsCloserAt(opener, line, indent, n, info);
      FenceIs(line, indent, opener.mark, n, info);
      BlankIff(info);
    }
  }

  /** One to six hashes and a blank. */
  lemma HeaderIff(line: string)
    ensures IsHeader(line) <==> exists n :: 1 <= n <= 6 && Repeat('#', n) + " " <= line
  {
    var n := Run(line, '#');
    RunSplits(line, '#');
    if IsHeader(line) {
      assert line[n..] == " " + line[n + 1..];
      assert Repeat('#', n) + " " <= line;
    }
    if exists k :: 1 <= k <= 6 && Repeat('#', k) + " " <= line {
      var k :| 1 <= k <= 6 && Repeat('#', k) + " " <= line;
      var rest := line[k..];
      assert line[k] == (Repeat('#', k) + " ")[k] == ' ' && line == Repeat('#', k) + rest;
      RunOf('#', k, rest);
    }
  }

  // ---- fenced blocks, declared ----

  /** Line o is a fence line, and every earlier opener is closed before it. */
  ghost predicate IsOpener(lines: seq<string>, o: nat)
    requires o < |lines|
    decreases o
  {
    IsFence(lines[o]) && forall o' :: 0 <= o' < o && IsOpener(lines, o') ==> ClosedBefore(lines, o', o)
  }

  ghost predicate ClosedBefore(lines: seq<string>, o: nat, i: nat)
    requires o < |lines| && i <= |lines| && IsFence(lines[o])
  {
    exists c :: o < c < i && Closes(FenceOf(lines[o]).value, lines[c])
  }

  /** An opener before line i is still open there. */
  ghost predicate OpenAt(lines: seq<string>, o: nat, i: nat)
    requires i <= |lines|
  {
    o < i && IsOpener(lines, o) && !ClosedBefore(lines, o, i)
  }

  /** Line i lies in a fenced block: between an opener and its closer, both included. */
  ghost predicate InBlock(lines: seq<string>, i: nat)
    requires i < |lines|
  {
    IsOpener(lines, i) || exists o: nat :: OpenAt(lines, o, i)
  }

  // ---- the machine ----

  function Step(open: Option<Fence>, line: string): Option<Fence> {
    match FenceOf(line)
    case None => open
    case Some(f) => if open.None? then Some(f) else if Closes(open.value, line) then None else open
  }

  /** The machine's `open_fence` agrees with the declared blocks before line i. */
  ghost predicate Agrees(lines: seq<string>, i: nat, open: Option<Fence>)
    requires i <= |lines|
  {
    match open
    case None => forall o: nat :: !OpenAt(lines, o, i)
    case Some(f) => exists o: nat :: OpenAt(lines, o, i) && FenceOf(lines[o]).value == f
  }

  lemma ClosedBeforeStep(lines: seq<string>, o: nat, i: nat)
    requires o < i < |lines| && IsFence(lines[o])
    ensures ClosedBefore(lines, o, i + 1) <==> ClosedBefore(lines, o, i) || Closes(FenceOf(lines[o]).value, lines[i])
  {
    if ClosedBefore(lines, o, i) {
      var c :| o < c < i && Closes(FenceOf(lines[o]).value, lines[c]);
    }
  }

  lemma OneOpen(lines: seq<string>, o: nat, o': nat, i: nat)
    requires i <= |lines| && OpenAt(lines, o, i) && OpenAt(lines, o', i)
    ensures o == o'
  {
    if o < o' {
      ClosedStays(lines, o, o', i);
    } else if o' < o {
      ClosedStays(lines, o', o, i);
    }
  }

  lemma ClosedStays(lines: seq<string>, o: nat, i: nat, j: nat)
    requires o < |lines| && i <= j <= |lines| && IsFence(lines[o])
    ensures ClosedBefore(lines, o, i) ==> ClosedBefore(lines, o, j)
  {
    if ClosedBefore(lines, o, i) {
      var c :| o < c < i && Closes(FenceOf(lines[o]).value, lines[c]);
    }
  }

  lemma NotClosedYet(lines: seq<string>, i: nat)
    requires i < |lines| && IsFence(lines[i])
    ensures !ClosedBefore(lines, i, i + 1)
  {
  }

  lemma AgreesStepClosed(lines: seq<string>, i: nat)
    requires i < |lines| && Agrees(lines, i, None)
    ensures InBlock(lines, i) <==> IsFence(lines[i])
    ensures Agrees(lines, i + 1, Step(None, lines[i]))
  {
    var j := i + 1;
    forall o: nat | o < i && IsOpener(lines, o)
      ensures ClosedBefore(lines, o, i)
    {
      assert !OpenAt(lines, o, i);
    }
    if IsFence(lines[i]) {
      assert IsOpener(lines, i);
      NotClosedYet(lines, i);
      assert OpenAt(lines, i, j);
    } else {
      forall o: nat
        ensures !OpenAt(lines, o, j)
      {
        if o < i && IsOpener(lines, o) {
          ClosedStays(lines, o, i, j);
        }
      }
    }
  }

  lemma StillOpen(lines: seq<string>, o: nat, i: nat)
    requires i < |lines| && OpenAt(lines, o, i) && !Closes(FenceOf(lines[o]).value, lines[i])
    ensures OpenAt(lines, o, i + 1)
  {
    ClosedBeforeStep(lines, o, i);
  }

  lemma NoneOpen(lines: seq<string>, o: nat, i: nat, o': nat)
    requires i < |lines| && OpenAt(lines, o, i) && Closes(FenceOf(lines[o]).value, lines[i])
    ensures !OpenAt(lines, o', i + 1)
  {
    if OpenAt(lines, o', i + 1) {
      ClosedBeforeStep(lines, o, i);
      if o' < i {
        OneOpen(lines, o, o', i);
      }
    }
  }

  lemma AgreesStepOpen(lines: seq<string>, i: nat, o: nat)
    requires i < |lines| && OpenAt(lines, o, i)
    ensures InBlock(lines, i)
    ensures Agrees(lines, i + 1, Step(Some(FenceOf(lines[o]).value), lines[i]))
  {
    var f, j := FenceOf(lines[o]).value, i + 1;
    if Closes(f, lines[i]) {
      forall o': nat
        ensures !OpenAt(lines, o', j)
      {
        NoneOpen(lines, o, i, o');
      }
      assert Step(Some(f), lines[i]) == None;
    } else {
      StillOpen(lines, o, i);
      assert OpenAt(lines, o, j) && Step(Some(f), lines[i]) == Some(f);
    }
  }

  lemma AgreesStep(lines: seq<string>, i: nat, open: Option<Fence>)
    requires i < |lines| && Agrees(lines, i, open)
    ensures InBlock(lines, i) <==> open.Some? || IsFence(lines[i])
    ensures Agrees(lines, i + 1, Step(open, lines[i]))
  {
    if open.None? {
      AgreesStepClosed(lines, i);
    } else {
      var o: nat :| OpenAt(lines, o, i) && FenceOf(lines[o]).value == open.value;
      AgreesStepOpen(lines, i, o);
    }
  }

  function StateBefore(lines: seq<string>, i: nat): Option<Fence>
    requires i <= |lines|
  {
    if i == 0 then None else Step(StateBefore(lines, i - 1), lines[i - 1])
  }

  /** The one-pass machine knows exactly which lines lie in a fenced block. */
  lemma {:induction false} MachineAgrees(lines: seq<string>, i: nat)
    requires i <= |lines|
    ensures Agrees(lines, i, StateBefore(lines, i))
    ensures i < |lines| ==> (InBlock(lines, i) <==> StateBefore(lines, i).Some? || IsFence(lines[i]))
  {
    if i > 0 {
      MachineAgrees(lines, i - 1);
      AgreesStep(lines, i - 1, StateBefore(lines, i - 1));
    }
    if i < |lines| {
      AgreesStep(lines, i, StateBefore(lines, i));
    }
  }

  // ---- sections ----

  /** A new section starts at line i. */
  ghost predicate Breaks(lines: seq<string>, i: nat)
    requires i < |lines|
  {
    i > 0 && IsHeader(lines[i]) && !InBlock(lines, i)
  }

  /** cuts are the lines where sections start, and sections are what lies between. */
  ghost predicate CutAt(lines: seq<string>, cuts: seq<nat>, sections: seq<seq<string>>, k: nat)
    requires k < |sections| == |cuts|
  {
    var end := if k + 1 < |cuts| then cuts[k + 1] else |lines|;
    cuts[k] < end <= |lines| && sections[k] == lines[cuts[k]..end]
  }

  ghost predicate AreSections(lines: seq<string>, cuts: seq<nat>, sections: seq<seq<string>>) {
    && |cuts| == |sections|
    && (lines == [] <==> sections == [])
    && (cuts != [] ==> cuts[0] == 0)
    && forall k :: 0 <= k < |sections| ==> CutAt(lines, cuts, sections, k)
  }

  /** The sections partition the lines in order, and line i > 0 starts one exactly when it breaks. */
  ghost predicate SectionedAt(lines: seq<string>, cuts: seq<nat>, sections: seq<seq<string>>) {
    && AreSections(lines, cuts, sections)
    && forall i :: 0 < i < |lines| ==> (i in cuts <==> Breaks(lines, i))
  }

  ghost predicate Sectioned(lines: seq<string>, sections: seq<seq<string>>) {
    exists cuts :: SectionedAt(lines, cuts, sections)
  }

  lemma {:induction false} CutsIncrease(lines: seq<string>, cuts: seq<nat>, sections: seq<seq<string>>, i: nat, j: nat)
    requires AreSections(lines, cuts, sections) && i < j < |cuts|
    ensures cuts[i] < cuts[j]
  {
    assert CutAt(lines, cuts, sections, j - 1);
    if i < j - 1 {
      CutsIncrease(lines, cuts, sections, i, j - 1);
    }
  }

  /** If the first k cuts agree, the next one is in both lists and cannot be the smaller one. */
  lemma NotSmaller(lines: seq<string>, cuts: seq<nat>, sections: seq<seq<string>>,
                   cuts': seq<nat>, sections': seq<seq<string>>, k: nat)
    requires SectionedAt(lines, cuts, sections) && SectionedAt(lines, cuts', sections')
    requires 0 < k < |cuts| && k <= |cuts'| && cuts[..k] == cuts'[..k]
    ensures k < |cuts'| && cuts'[k] <= cuts[k]
  {
    assert CutAt(lines, cuts, sections, k);
    CutsIncrease(lines, cuts, sections, 0, k);
    assert cuts[k] in cuts && cuts[k] in cuts';
    var j :| 0 <= j < |cuts'| && cuts'[j] == cuts[k];
    if j < k {
      assert cuts[..k][j] == cuts'[..k][j];
      CutsIncrease(lines, cuts, sections, j, k);
    } else if j > k {
      CutsIncrease(lines, cuts', sections', k, j);
    }
  }

  lemma {:induction false} SameCuts(lines: seq<string>, cuts: seq<nat>, sections: seq<seq<string>>,
                                    cuts': seq<nat>, sections': seq<seq<string>>, k: nat)
    requires SectionedAt(lines, cuts, sections) && SectionedAt(lines, cuts', sections')
    requires k <= |cuts|
    ensures k <= |cuts'| && cuts[..k] == cuts'[..k]
  {
    if k > 1 {
      SameCuts(lines, cuts, sections, cuts', sections', k - 1);
      NotSmaller(lines, cuts, sections, cuts', sections', k - 1);
      NotSmaller(lines, cuts', sections', cuts, sections, k - 1);
      TakeSnoc(cuts, k - 1);
      TakeSnoc(cuts', k - 1);
    }
  }

  /** A list of lines can be sectioned in one way only. */
  lemma SectionsAreUnique(lines: seq<string>, sections: seq<seq<string>>, sections': seq<seq<string>>)
    requires Sectioned(lines, sections) && Sectioned(lines, sections')
    ensures sections == sections'
  {
    var cuts :| SectionedAt(lines, cuts, sections);
    var cuts' :| SectionedAt(lines, cuts', sections');
    SameCuts(lines, cuts, sections, cuts', sections', |cuts|);
    SameCuts(lines, cuts', sections', cuts, sections, |cuts'|);
    assert cuts[..|cuts|] == cuts && cuts'[..|cuts'|] == cuts';
    forall k | 0 <= k < |sections|
      ensures sections[k] == sections'[k]
    {
      assert CutAt(lines, cuts, sections, k) && CutAt(lines, cuts', sections', k);
    }
  }

  /** Line i starts a section, finished or current, exactly when it breaks. */
  ghost predicate Placed(lines: seq<string>, cuts: seq<nat>, from: nat, i: nat)
    requires i < |lines|
  {
    i in cuts || i == from <==> Breaks(lines, i)
  }

  lemma PlaceNext(lines: seq<string>, cuts: seq<nat>, from: nat, n: nat)
    requires n < |lines| && (n > 0 ==> from < n) && forall c :: c in cuts ==> c < from
    requires forall i :: 0 < i < n ==> Placed(lines, cuts, from, i)
    ensures n > 0 && Breaks(lines, n) ==> forall i :: 0 < i <= n ==> Placed(lines, cuts + [from], n, i)
    ensures !Breaks(lines, n) ==> forall i :: 0 < i <= n ==> Placed(lines, cuts, from, i)
  {
    forall i | 0 < i <= n && Breaks(lines, n)
      ensures Placed(lines, cuts + [from], n, i)
    {
      assert i < n ==> Placed(lines, cuts, from, i);
    }
  }

  /** The sections before they are joined and stripped: a partition of the lines that breaks
      exactly at the headers outside every fenced block. */
  method SplitSections(lines: seq<string>) returns (sections: seq<seq<string>>)
    ensures Sectioned(lines, sections)
  {
    sections := [];
    ghost var cuts: seq<nat> := [];
    var current: seq<string> := [];
    var openFence: Option<Fence> := None;
    ghost var from := 0;
    for n := 0 to |lines|
      invariant openFence == StateBefore(lines, n)
      invariant from <= n && current == lines[from..n] && (n > 0 ==> from < n)
      invariant AreSections(lines[..from], cuts, sections)
      invariant forall i :: 0 < i < n ==> Placed(lines, cuts, from, i)
      invariant forall c :: c in cuts ==> c < from
    {
      var line := lines[n];
      MachineAgrees(lines, n);
      PlaceNext(lines, cuts, from, n);
      ghost var before := openFence;
      var fence := FenceOf(line);
      if fence.Some? {
        if openFence.None? {
          openFence := fence;
        } else if Closes(openFence.value, line) {
          openFence := None;
        }
      } else if openFence.None? && IsHeader(line) && current != [] {
        CloseSection(lines, from, n, cuts, sections);
        sections, cuts := sections + [current], cuts + [from];
        current := [];
        from := n;
      }
      assert openFence == Step(before, line) == StateBefore(lines, n + 1);
      assert from == n <==> n == 0 || Breaks(lines, n);
      SliceSnoc(lines, from, n);
      current := current + [line];
    }
    if current != [] {
      CloseSection(lines, from, |lines|, cuts, sections);
      forall i | 0 < i < |lines|
        ensures i in cuts + [from] <==> Breaks(lines, i)
      {
        assert Placed(lines, cuts, from, i);
      }
      sections, cuts := sections + [current], cuts + [from];
    }
    assert lines[..|lines|] == lines;
    assert SectionedAt(lines, cuts, sections);
  }

  lemma CloseSection(lines: seq<string>, from: nat, n: nat, cuts: seq<nat>, sections: seq<seq<string>>)
    requires from < n <= |lines| && AreSections(lines[..from], cuts, sections)
    requires from == 0 <==> cuts == []
    ensures AreSections(lines[..n], cuts + [from], sections + [lines[from..n]])
  {
    var cuts', sections' := cuts + [from], sections + [lines[from..n]];
    forall k | 0 <= k < |sections'|
      ensures CutAt(lines[..n], cuts', sections', k)
    {
      if k < |sections| {
        assert CutAt(lines[..from], cuts, sections, k);
      }
    }
  }
}
