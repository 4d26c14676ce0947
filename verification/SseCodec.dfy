/** There are codecs as SseWire asks for: one that quotes texts, counts numbers out, and is read back
    by looking for the chunk it printed. */
module SseCodec {
  import opened Common
  import opened Text
  import opened SseWire

  function Escape(c: char): (s: string)
    ensures s != "" && s[0] != '"' && '\n' !in s
  {
    if c == '"' then "\\\"" else if c == '\\' then "\\\\" else if c == '\n' then "\\n" else [c]
  }

  function Escaped(s: string): string {
    if s == "" then "" else Escape(s[0]) + Escaped(s[1..])
  }

  function Quote(s: string): (q: string)
    ensures q != "" && (q[0] == '"' <==> s == "")
  {
    Escaped(s) + "\""
  }

  function Tally(n: int): string {
    Repeat(if n >= 0 then '+' else '-', if n >= 0 then n else -n) + ","
  }

  function Optional(o: Option<string>): string {
    match o
    case None => "-"
    case Some(s) => "+" + Quote(s)
  }

  function Fields(c: Chunk): string {
    Quote(c.id) + (Tally(c.created) + (Quote(c.model) + (Optional(c.content) + Optional(c.finishReason))))
  }

  function Encode(c: Chunk): string {
    "{" + Fields(c) + "}"
  }

  // ---- no two chunks are printed alike ----

  lemma EscapeApart(a: char, x: string, b: char, y: string)
    requires Escape(a) + x == Escape(b) + y
    ensures a == b && x == y
  {
    var s := Escape(a) + x;
    assert s[0] == Escape(a)[0] == Escape(b)[0];
    if s[0] == '\\' {
      assert s[1] == Escape(a)[1] == Escape(b)[1];
    }
    assert x == s[|Escape(a)|..] && y == s[|Escape(b)|..];
  }

  lemma SamePrefix(a: string, x: string, y: string)
    requires a + x == a + y
    ensures x == y
  {
    assert (a + x)[|a|..] == x && (a + y)[|a|..] == y;
  }

  lemma QuoteStep(s: string, x: string)
    requires s != ""
    ensures Quote(s) + x == Escape(s[0]) + (Quote(s[1..]) + x)
  {
    AppendAssoc(Escape(s[0]), Escaped(s[1..]), "\"");
    AppendAssoc(Escape(s[0]), Quote(s[1..]), x);
  }

  lemma {:induction false} QuoteApart(s: string, x: string, t: string, y: string)
    requires Quote(s) + x == Quote(t) + y
    ensures s == t && x == y
  {
    assert (Quote(s) + x)[0] == Quote(s)[0] && (Quote(t) + y)[0] == Quote(t)[0];
    if s == "" {
      SamePrefix(Quote(""), x, y);
    } else {
      QuoteStep(s, x);
      QuoteStep(t, y);
      EscapeApart(s[0], Quote(s[1..]) + x, t[0], Quote(t[1..]) + y);
      QuoteApart(s[1..], x, t[1..], y);
      assert s == [s[0]] + s[1..] && t == [t[0]] + t[1..];
    }
  }

  lemma TallyApart(m: int, x: string, n: int, y: string)
    requires Tally(m) + x == Tally(n) + y
    ensures m == n && x == y
  {
    var s, i, j := Tally(m) + x, |Tally(m)| - 1, |Tally(n)| - 1;
    assert s[i] == ',' && s[j] == ',';
    assert forall k :: 0 <= k < i ==> s[k] == Tally(m)[k] != ',';
    assert forall k :: 0 <= k < j ==> s[k] == Tally(n)[k] != ',';
    assert i == j;
    assert x == s[i + 1..] && y == s[j + 1..];
    if i > 0 {
      assert Tally(m)[0] == s[0] == Tally(n)[0];
    }
  }

  lemma OptionalApart(o: Option<string>, x: string, p: Option<string>, y: string)
    requires Optional(o) + x == Optional(p) + y
    ensures o == p && x == y
  {
    assert (Optional(o) + x)[0] == Optional(o)[0] && (Optional(p) + y)[0] == Optional(p)[0];
    if o.None? {
      SamePrefix("-", x, y);
    } else {
      AppendAssoc("+", Quote(o.value), x);
      AppendAssoc("+", Quote(p.value), y);
      SamePrefix("+", Quote(o.value) + x, Quote(p.value) + y);
      QuoteApart(o.value, x, p.value, y);
    }
  }

  lemma EncodeApart(c: Chunk, d: Chunk)
    requires Encode(c) == Encode(d)
    ensures c == d
  {
    assert Fields(c) == Encode(c)[1..|Encode(c)| - 1] && Fields(d) == Encode(d)[1..|Encode(d)| - 1];
    var c3, d3 := Optional(c.content) + Optional(c.finishReason), Optional(d.content) + Optional(d.finishReason);
    var c2, d2 := Quote(c.model) + c3, Quote(d.model) + d3;
    QuoteApart(c.id, Tally(c.created) + c2, d.id, Tally(d.created) + d2);
    TallyApart(c.created, c2, d.created, d2);
    QuoteApart(c.model, c3, d.model, d3);
    OptionalApart(c.content, Optional(c.finishReason), d.content, Optional(d.finishReason));
    assert Optional(c.finishReason) + "" == Optional(d.finishReason) + "";
    OptionalApart(c.finishReason, "", d.finishReason, "");
  }

  // ---- one line ----

  ghost predicate OneLine(s: string) {
    '\n' !in s
  }

  lemma TogetherOneLine(a: string, b: string)
    requires OneLine(a) && OneLine(b)
    ensures OneLine(a + b)
  {
  }

  lemma {:induction false} QuoteIsOneLine(s: string)
    ensures OneLine(Quote(s))
  {
    if s != "" {
      QuoteIsOneLine(s[1..]);
      TogetherOneLine(Escape(s[0]), Quote(s[1..]));
      AppendAssoc(Escape(s[0]), Escaped(s[1..]), "\"");
    }
  }

  lemma OptionalIsOneLine(o: Option<string>)
    ensures OneLine(Optional(o))
  {
    if o.Some? {
      QuoteIsOneLine(o.value);
      TogetherOneLine("+", Quote(o.value));
    }
  }

  lemma EncodeIsObject(c: Chunk)
    ensures IsObject(Encode(c))
  {
    var c3 := Optional(c.content) + Optional(c.finishReason);
    var c2 := Quote(c.model) + c3;
    OptionalIsOneLine(c.content);
    OptionalIsOneLine(c.finishReason);
    TogetherOneLine(Optional(c.content), Optional(c.finishReason));
    QuoteIsOneLine(c.model);
    TogetherOneLine(Quote(c.model), c3);
    TogetherOneLine(Tally(c.created), c2);
    QuoteIsOneLine(c.id);
    TogetherOneLine(Quote(c.id), Tally(c.created) + c2);
    TogetherOneLine("{", Fields(c));
    TogetherOneLine("{" + Fields(c), "}");
  }

  // ---- reading back ----

  ghost function Decode(s: string): Parsed {
    if exists c :: Encode(c) == s then
      var c :| Encode(c) == s;
      Parsed(c.content)
    else Throws
  }

  lemma CodecExists() returns (json: Codec)
    ensures IsCodec(json)
  {
    json := Codec(Encode, Decode);
    forall c
      ensures IsObject(json.encode(c))
      ensures json.decode(json.encode(c)) == Parsed(c.content)
    {
      EncodeIsObject(c);
      var d :| Encode(d) == Encode(c) && Decode(Encode(c)) == Parsed(d.content);
      EncodeApart(c, d);
    }
    forall c, d | json.encode(c) == json.encode(d)
      ensures c == d
    {
      EncodeApart(c, d);
    }
  }
}
