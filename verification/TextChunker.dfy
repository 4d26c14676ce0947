/** `_recursive_split` and `chunk_text` of ingest/chunkers.py. */
module TextChunker {
  import opened Text
  import opened Packing

  /** The chunking part of settings.py, with the checks `_validate_settings` makes. */
  datatype Settings = Settings(chunkSize: nat, chunkOverlap: nat, maxChunkChars: nat, maxEmbedChars: nat) {
    predicate Valid() {
      chunkOverlap < chunkSize <= maxChunkChars
    }

    function Lim(): Limits {
      Limits(chunkSize, chunkOverlap)
    }
  }

  const SEPARATORS: seq<string> := ["\n\n", "\n", " ", ""]

  /** Blank separators of at most two characters, then the empty one: what `_recursive_split` is
      called with, SEPARATORS itself and what remains of it further down. */
  predicate IsSeparatorList(seps: seq<string>) {
    && seps != []
    && if |seps| == 1 then seps[0] == "" else IsBlankSeparator(seps[0]) && IsSeparatorList(seps[1..])
  }

  predicate IsBlankSeparator(sep: string) {
    1 <= |sep| <= 2 && forall c :: c in sep ==> IsBlankOrNewline(c)
  }

  lemma SeparatorsAreAList()
    ensures IsSeparatorList(SEPARATORS)
  {
    assert SEPARATORS[1..] == ["\n", " ", ""];
    assert SEPARATORS[1..][1..] == [" ", ""];
    assert SEPARATORS[1..][1..][1..] == [""];
  }

  lemma {:induction false} SeparatorAt(seps: seq<string>, i: nat)
    requires IsSeparatorList(seps) && i < |seps|
    ensures if i == |seps| - 1 then seps[i] == "" && seps[i + 1..] == []
            else IsBlankSeparator(seps[i]) && IsSeparatorList(seps[i + 1..])
  {
    if i > 0 {
      SeparatorAt(seps[1..], i - 1);
      assert seps[1..][i..] == seps[i + 1..];
    }
  }

  /** Index of the first separator that occurs in the text; the empty one always does. */
  function Chosen(text: string, seps: seq<string>): (i: nat)
    requires IsSeparatorList(seps)
    ensures i < |seps|
    ensures seps[i] == "" || Contains(text, seps[i])
    ensures forall j :: 0 <= j < i ==> seps[j] != "" && !Contains(text, seps[j])
  {
    if seps[0] == "" || Contains(text, seps[0]) then 0 else 1 + Chosen(text, seps[1..])
  }

  function Parts(text: string, sep: string): seq<string> {
    if sep == "" then Chars(text) else NonEmpty(Split(text, sep))
  }

  /** The result of `_recursive_split`. */
  function RecursiveChunks(text: string, seps: seq<string>, st: Settings): seq<string>
    requires IsSeparatorList(seps)
    decreases |seps|, 0, 0
  {
    var i := Chosen(text, seps);
    SeparatorAt(seps, i);
    Runs([], Parts(text, seps[i]), [], seps[i], seps[i + 1..], st)
  }

  function SplitFurther(part: string, rest: seq<string>, st: Settings): seq<string>
    requires rest == [] || IsSeparatorList(rest)
    decreases |rest|, 1, 0
  {
    if rest != [] then RecursiveChunks(part, rest, st) else [part]
  }

  function Flush(result: seq<string>, good: seq<string>, sep: string, st: Settings): seq<string> {
    if good == [] then result else result + Merged(good, sep, st.Lim())
  }

  /** Runs of short parts are packed; a long part interrupts the run and is split further. */
  function Runs(result: seq<string>, parts: seq<string>, good: seq<string>, sep: string, rest: seq<string>,
                st: Settings): seq<string>
    requires rest == [] || IsSeparatorList(rest)
    decreases |rest|, 2, |parts|
  {
    if parts == [] then Flush(result, good, sep, st)
    else if |parts[0]| > st.chunkSize then
      Runs(Flush(result, good, sep, st) + SplitFurther(parts[0], rest, st), parts[1..], [], sep, rest, st)
    else
      Runs(result, parts[1..], good + [parts[0]], sep, rest, st)
  }

  function TextChunks(text: string, st: Settings): seq<string> {
    SeparatorsAreAList();
    if Strip(text) == "" then [] else RecursiveChunks(text, SEPARATORS, st)
  }

  method ChooseSeparator(text: string, separators: seq<string>) returns (separator: string, remaining: seq<string>)
    requires IsSeparatorList(separators)
    ensures var i := Chosen(text, separators); separator == separators[i] && remaining == separators[i + 1..]
    ensures |remaining| < |separators| && (remaining == [] || IsSeparatorList(remaining))
  {
    separator, remaining := separators[|separators| - 1], [];
    SeparatorAt(separators, |separators| - 1);
    for i := 0 to |separators|
      invariant forall j :: 0 <= j < i ==> separators[j] != "" && !Contains(text, separators[j])
    {
      if separators[i] == "" || Contains(text, separators[i]) {
        SeparatorAt(separators, i);
        return separators[i], separators[i + 1..];
      }
    }
  }

  method RecursiveSplit(text: string, separators: seq<string>, st: Settings) returns (result: seq<string>)
    requires IsSeparatorList(separators)
    ensures result == RecursiveChunks(text, separators, st)
    decreases |separators|, 0
  {
    var separator, remaining := ChooseSeparator(text, separators);
    result := SplitParts(Parts(text, separator), separator, remaining, st);
  }

  /** The loop of `_recursive_split` over the parts. */
  method SplitParts(parts: seq<string>, separator: string, remaining: seq<string>, st: Settings)
    returns (result: seq<string>)
    requires remaining == [] || IsSeparatorList(remaining)
    ensures result == Runs([], parts, [], separator, remaining, st)
    decreases |remaining|, 1
  {
    var good: seq<string> := [];
    result := [];
    ghost var all := Runs([], parts, [], separator, remaining, st);
    assert parts[0..] == parts;
    for k := 0 to |parts|
      invariant all == Runs(result, parts[k..], good, separator, remaining, st)
    {
      var part := parts[k];
      assert parts[k..][1..] == parts[k + 1..];
      if |part| > st.chunkSize {
        if good != [] {
          var merged := MergeSplits(good, separator, st.chunkSize, st.chunkOverlap);
          result := result + merged;
          good := [];
        }
        if remaining != [] {
          var split := RecursiveSplit(part, remaining, st);
          result := result + split;
        } else {
          result := result + [part];
        }
      } else {
        good := good + [part];
      }
    }
    if good != [] {
      var merged := MergeSplits(good, separator, st.chunkSize, st.chunkOverlap);
      result := result + merged;
    }
  }

  method ChunkText(text: string, st: Settings) returns (chunks: seq<string>)
    ensures chunks == TextChunks(text, st)
  {
    if Strip(text) == "" {
      return [];
    }
    SeparatorsAreAList();
    chunks := RecursiveSplit(text, SEPARATORS, st);
  }
}
