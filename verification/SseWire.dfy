/** Server-sent events: what web/openai_compat.py prints and web/static/app.js parses. JSON is any
    codec whose printer is injective and writes no newline; UTF-8 is not modelled. */
module SseWire {
  import opened Common
  import opened Text

  datatype Chunk = Chunk(id: string, created: int, model: string, content: Option<string>, finishReason: Option<string>)

  /** What JSON.parse makes of a line: it throws, or `choices[0].delta.content` is a text, or is missing. */
  datatype Parsed = Throws | Parsed(content: Option<string>)

  datatype Codec = Codec(encode: Chunk -> string, decode: string -> Parsed)

  /** `json.dumps` writes one line, from { to }, and `JSON.parse` reads it back. */
  ghost predicate IsCodec(json: Codec) {
    && (forall c :: IsObject(json.encode(c)))
    && (forall c :: json.decode(json.encode(c)) == Parsed(c.content))
    && (forall c, d :: json.encode(c) == json.encode(d) ==> c == d)
  }

  ghost predicate IsObject(s: string) {
    |s| >= 2 && s[0] == '{' && s[|s| - 1] == '}' && '\n' !in s
  }

  const DATA := "data: "
  const DONE := "[DONE]"

  // ---- printing ----

  /** One event of the stream. */
  function Event(payload: string): string {
    DATA + payload + "\n\n"
  }

  /** `make_stream_chunk` */
  function MakeStreamChunk(c: Chunk, json: Codec): string {
    Event(json.encode(c))
  }

  function Events(payloads: seq<string>): string {
    if payloads == [] then "" else Event(payloads[0]) + Events(payloads[1..])
  }

  lemma {:induction false} EventsAppend(a: seq<string>, b: seq<string>)
    ensures Events(a + b) == Events(a) + Events(b)
  {
    if a == [] {
      assert a + b == b;
    } else {
      assert (a + b)[1..] == a[1..] + b;
      EventsAppend(a[1..], b);
    }
  }

  // ---- parsing ----

  /** What `String.prototype.trim` removes. */
  predicate IsJsSpace(c: char) {
    var n := c as int;
    || 0x09 <= n <= 0x0d || n == 0x20 || n == 0xa0 || n == 0x1680 || 0x2000 <= n <= 0x200a
    || n == 0x2028 || n == 0x2029 || n == 0x202f || n == 0x205f || n == 0x3000 || n == 0xfeff
  }

  function TrimStart(s: string): string {
    if s != "" && IsJsSpace(s[0]) then TrimStart(s[1..]) else s
  }

  function TrimEnd(s: string): string {
    if s != "" && IsJsSpace(s[|s| - 1]) then TrimEnd(s[..|s| - 1]) else s
  }

  function Trim(s: string): string {
    TrimEnd(TrimStart(s))
  }

  ghost predicate AllJsSpace(s: string) {
    forall c :: c in s ==> IsJsSpace(c)
  }

  lemma {:induction false} TrimStartIs(s: string) returns (pre: string)
    ensures s == pre + TrimStart(s) && AllJsSpace(pre)
    ensures TrimStart(s) != "" ==> !IsJsSpace(TrimStart(s)[0])
  {
    pre := "";
    if s != "" && IsJsSpace(s[0]) {
      pre := TrimStartIs(s[1..]);
      AppendAssoc([s[0]], pre, TrimStart(s));
      assert s == [s[0]] + s[1..];
      pre := [s[0]] + pre;
    }
  }

  lemma {:induction false} TrimEndIs(s: string) returns (post: string)
    ensures s == TrimEnd(s) + post && AllJsSpace(post)
    ensures TrimEnd(s) != "" ==> !IsJsSpace(TrimEnd(s)[|TrimEnd(s)| - 1])
  {
    post := "";
    if s != "" && IsJsSpace(s[|s| - 1]) {
      var n := |s| - 1;
      post := TrimEndIs(s[..n]);
      AppendAssoc(TrimEnd(s), post, [s[n]]);
      assert s == s[..n] + [s[n]];
      post := post + [s[n]];
    }
  }

  /** Trimming takes away whitespace at both ends, all of it and nothing else. */
  lemma {:induction false} TrimIs(s: string) returns (pre: string, post: string)
    ensures s == pre + Trim(s) + post && AllJsSpace(pre) && AllJsSpace(post)
    ensures Trim(s) != "" ==> !IsJsSpace(Trim(s)[0]) && !IsJsSpace(Trim(s)[|Trim(s)| - 1])
  {
    pre := TrimStartIs(s);
    post := TrimEndIs(TrimStart(s));
    AppendAssoc(pre, Trim(s), post);
    assert Trim(s) != "" ==> Trim(s)[0] == TrimStart(s)[0];
  }

  /** The payload of a line, if it is a data line. */
  function LinePayload(line: string): seq<string> {
    if DATA <= line then [Trim(line[|DATA|..])] else []
  }

  function LinePayloads(lines: seq<string>): seq<string> {
    if lines == [] then [] else LinePayloads(lines[..|lines| - 1]) + LinePayload(lines[|lines| - 1])
  }

  /** What the parser yields for a payload: nothing, or a non-empty text. */
  function PayloadDelta(payload: string, json: Codec): (ds: seq<string>)
    ensures |ds| <= 1 && forall d :: d in ds ==> d != ""
  {
    if payload == DONE then []
    else
      match json.decode(payload)
      case Throws => []
      case Parsed(None) => []
      case Parsed(Some(delta)) => if delta == "" then [] else [delta]
  }

  function Deltas(payloads: seq<string>, json: Codec): seq<string> {
    if payloads == [] then []
    else Deltas(payloads[..|payloads| - 1], json) + PayloadDelta(payloads[|payloads| - 1], json)
  }

  lemma {:induction false} DeltasAppend(a: seq<string>, b: seq<string>, json: Codec)
    ensures Deltas(a + b, json) == Deltas(a, json) + Deltas(b, json)
  {
    if b == [] {
      assert a + b == a;
    } else {
      var front, p := b[..|b| - 1], b[|b| - 1];
      DeltasAppend(a, front, json);
      assert (a + b)[..|a + b| - 1] == a + front;
      AppendAssoc(Deltas(a, json), Deltas(front, json), PayloadDelta(p, json));
    }
  }

  lemma {:induction false} LinePayloadsAppend(a: seq<string>, b: seq<string>)
    ensures LinePayloads(a + b) == LinePayloads(a) + LinePayloads(b)
  {
    if b == [] {
      assert a + b == a;
    } else {
      var front, l := b[..|b| - 1], b[|b| - 1];
      LinePayloadsAppend(a, front);
      assert (a + b)[..|a + b| - 1] == a + front;
      AppendAssoc(LinePayloads(a), LinePayloads(front), LinePayload(l));
    }
  }

  /** The lines that have ended, and what follows them. */
  function EndedLines(s: string): seq<string> {
    var lines := Split(s, "\n");
    lines[..|lines| - 1]
  }

  function OpenLine(s: string): string {
    var lines := Split(s, "\n");
    lines[|lines| - 1]
  }

  /** All payloads of a stream that has arrived up to here. */
  function Payloads(s: string): seq<string> {
    LinePayloads(EndedLines(s))
  }

  lemma LineBreak(s: string)
    ensures EndedLines("\n" + s) == [""] + EndedLines(s)
    ensures OpenLine("\n" + s) == OpenLine(s)
  {
    assert ("\n" + s)[1..] == s;
  }

  lemma NoLineBreak(c: char, s: string)
    requires c != '\n'
    ensures EndedLines(s) == [] ==> EndedLines([c] + s) == [] && OpenLine([c] + s) == [c] + OpenLine(s)
    ensures EndedLines(s) != [] ==>
              && EndedLines([c] + s) == [[c] + EndedLines(s)[0]] + EndedLines(s)[1..]
              && OpenLine([c] + s) == OpenLine(s)
  {
    assert ([c] + s)[1..] == s && ([c] + s)[0] == c;
    assert !("\n" <= [c] + s) by {
      assert ([c] + s)[0] != "\n"[0];
    }
  }

  /** Splitting a + b can go on from the open line of a. */
  ghost predicate GoesOn(a: string, b: string) {
    && EndedLines(a + b) == EndedLines(a) + EndedLines(OpenLine(a) + b)
    && OpenLine(a + b) == OpenLine(OpenLine(a) + b)
  }

  lemma GoesOnAfterBreak(a: string, b: string)
    requires GoesOn(a, b)
    ensures GoesOn("\n" + a, b)
  {
    LineBreak(a);
    LineBreak(a + b);
    assert ("\n" + a) + b == "\n" + (a + b);
  }

  lemma GoesOnAfterChar(c: char, a: string, b: string)
    requires c != '\n' && GoesOn(a, b)
    ensures GoesOn([c] + a, b)
  {
    NoLineBreak(c, a);
    NoLineBreak(c, a + b);
    assert ([c] + a) + b == [c] + (a + b);
    if EndedLines(a) == [] {
      NoLineBreak(c, OpenLine(a) + b);
      assert ([c] + OpenLine(a)) + b == [c] + (OpenLine(a) + b);
      assert EndedLines(a + b) == EndedLines(OpenLine(a) + b);
    } else {
      var e, more := EndedLines(a), EndedLines(OpenLine(a) + b);
      assert (e + more)[1..] == e[1..] + more;
    }
  }

  /** Nothing before the open line has to be kept. */
  lemma {:induction false} SplitGoesOn(a: string, b: string)
    ensures GoesOn(a, b)
  {
    if a == "" {
      assert a + b == b && OpenLine(a) + b == b;
    } else {
      SplitGoesOn(a[1..], b);
      assert a == [a[0]] + a[1..];
      if a[0] == '\n' {
        GoesOnAfterBreak(a[1..], b);
      } else {
        GoesOnAfterChar(a[0], a[1..], b);
      }
    }
  }

  /** What one line yields. */
  function LineDelta(line: string, json: Codec): seq<string> {
    if DATA <= line then PayloadDelta(Trim(line[|DATA|..]), json) else []
  }

  lemma NextLine(lines: seq<string>, i: nat, json: Codec)
    requires i < |lines|
    ensures Deltas(LinePayloads(lines[..i + 1]), json)
         == Deltas(LinePayloads(lines[..i]), json) + LineDelta(lines[i], json)
  {
    var before, p := LinePayloads(lines[..i]), LinePayload(lines[i]);
    TakeSnoc(lines, i);
    LinePayloadsAppend(lines[..i], [lines[i]]);
    assert [lines[i]][..0] == [] && LinePayloads([lines[i]]) == p;
    DeltasAppend(before, p, json);
    if p != [] {
      assert p[..0] == [];
    }
  }

  lemma NextRead(before: string, value: string, json: Codec)
    ensures OpenLine(before + value) == OpenLine(OpenLine(before) + value)
    ensures Deltas(Payloads(before + value), json)
         == Deltas(Payloads(before), json) + Deltas(Payloads(OpenLine(before) + value), json)
  {
    SplitGoesOn(before, value);
    LinePayloadsAppend(EndedLines(before), EndedLines(OpenLine(before) + value));
    DeltasAppend(Payloads(before), Payloads(OpenLine(before) + value), json);
  }

  /** `_iterSSEDeltas`: what it yields does not depend on how the network cut the stream. */
  method IterSseDeltas(cuts: seq<string>, json: Codec) returns (deltas: seq<string>)
    ensures deltas == Deltas(Payloads(Flatten(cuts)), json)
  {
    deltas := [];
    var buf := "";
    for i := 0 to |cuts|
      invariant buf == OpenLine(Flatten(cuts[..i]))
      invariant deltas == Deltas(Payloads(Flatten(cuts[..i])), json)
    {
      TakeSnoc(cuts, i);
      FlattenSnoc(cuts[..i], cuts[i]);
      NextRead(Flatten(cuts[..i]), cuts[i], json);
      buf := buf + cuts[i];
      var lines := Split(buf, "\n");
      var more := DeltasOfLines(lines[..|lines| - 1], json);
      buf := lines[|lines| - 1];
      deltas := deltas + more;
    }
    assert cuts[..|cuts|] == cuts;
  }

  /** The inner loop over the lines that have ended. */
  method DeltasOfLines(lines: seq<string>, json: Codec) returns (deltas: seq<string>)
    ensures deltas == Deltas(LinePayloads(lines), json)
  {
    deltas := [];
    for i := 0 to |lines|
      invariant deltas == Deltas(LinePayloads(lines[..i]), json)
    {
      NextLine(lines, i, json);
      var more := DeltasOfLine(lines[i], json);
      deltas := deltas + more;
    }
    assert lines[..|lines|] == lines;
  }

  /** The body of that loop. */
  method DeltasOfLine(line: string, json: Codec) returns (deltas: seq<string>)
    ensures deltas == LineDelta(line, json)
    ensures !("data: " <= line) ==> deltas == []
    ensures "data: " <= line ==>
              var payload, parsed := Trim(line[6..]), json.decode(Trim(line[6..]));
              if payload == "[DONE]" || parsed in {Throws, Parsed(None), Parsed(Some(""))} then deltas == []
              else parsed.content.Some? && deltas == [parsed.content.value]
  {
    if !(DATA <= line) {
      return [];
    }
    var payload := Trim(line[|DATA|..]);
    if payload == DONE {
      return [];
    }
    match json.decode(payload)
    case Throws =>
      return [];
    case Parsed(content) =>
      if content.None? || content.value == "" {
        return [];
      }
      return [content.value];
  }

  // ---- parsing undoes printing ----

  /** Text that can be sent as a payload: one line, not padded. */
  predicate IsPayload(p: string) {
    p != "" && '\n' !in p && !IsJsSpace(p[0]) && !IsJsSpace(p[|p| - 1])
  }

  lemma EventLines(p: string, rest: string)
    requires IsPayload(p)
    ensures EndedLines(Event(p) + rest) == [DATA + p, ""] + EndedLines(rest)
  {
    var line := DATA + p;
    forall c | c in line
      ensures c != '\n'
    {
      assert c in DATA || c in p;
    }
    assert Event(p) + rest == line + "\n" + ("\n" + rest);
    SplitAtFirst(line, "\n", "\n" + rest);
    assert ("\n" + rest)[1..] == rest;
  }

  /** The parser finds exactly the payloads that were printed, whatever follows them. */
  lemma {:induction false} EventsAreFound(payloads: seq<string>, rest: string)
    requires forall p :: p in payloads ==> IsPayload(p)
    ensures Payloads(Events(payloads) + rest) == payloads + Payloads(rest)
  {
    if payloads == [] {
      assert Events(payloads) + rest == rest;
    } else {
      var p := payloads[0];
      var after := Events(payloads[1..]) + rest;
      EventsAreFound(payloads[1..], rest);
      assert Events(payloads) + rest == Event(p) + after;
      EventLines(p, after);
      EventPayload(p);
      LinePayloadsAppend([DATA + p, ""], EndedLines(after));
      assert payloads == [p] + payloads[1..];
      AppendAssoc([p], payloads[1..], Payloads(rest));
    }
  }

  lemma EventPayload(p: string)
    requires IsPayload(p)
    ensures LinePayloads([DATA + p, ""]) == [p]
  {
    assert (DATA + p)[|DATA|..] == p && DATA <= DATA + p;
    assert [DATA + p, ""][..1] == [DATA + p] && [DATA + p][..0] == [];
    assert LinePayloads([DATA + p]) == [p];
  }

  /** Cutting the stream off anywhere yields a prefix of the payloads and of the deltas. */
  lemma CutOff(got: string, all: string, json: Codec)
    requires got <= all
    ensures Payloads(got) <= Payloads(all)
    ensures Deltas(Payloads(got), json) <= Deltas(Payloads(all), json)
  {
    var rest := all[|got|..];
    assert all == got + rest;
    SplitGoesOn(got, rest);
    LinePayloadsAppend(EndedLines(got), EndedLines(OpenLine(got) + rest));
    NextRead(got, rest, json);
  }
}
