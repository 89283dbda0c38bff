/**
 Reply shapes the service's documentation describes, each stated for every
 reply of that shape: the pieces are arbitrary text, constrained only as each
 lemma's requires say (no line break inside a line, no surrounding whitespace,
 no label or double quote where one would change the parse). Each proof is
 split into small steps so that no step has to unfold the string functions far.
 */
module ParserExamples {
  import opened Results
  import opened PyStr
  import opened Json
  import opened AiService

  /** Non-empty text that neither starts nor ends with whitespace. */
  predicate Trimmed(s: string) {
    s != [] && s[0] !in Whitespace && s[|s| - 1] !in Whitespace
  }

  /** A trimmed piece of text that holds no line break. */
  predicate Clean(s: string) {
    Trimmed(s) && '\n' !in s
  }

  /** Text that is not wrapped in double quotes and does not contain `Quote:`,
      so that it survives the quote-line clean-up unchanged. */
  predicate QuoteText(q: string) {
    Clean(q) && Lacks(q, QuoteLabel) && q[0] != '"' && q[|q| - 1] != '"'
  }

  /** No line of `body`, trimmed, starts with either label. */
  predicate NoLabelledLine(body: string) {
    forall k | 0 <= k < |Split(body, "\n")| ::
      !StartsWith(Strip(Split(body, "\n")[k]), QuoteLabel) && !StartsWith(Strip(Split(body, "\n")[k]), AuthorLabel)
  }

  /** The loop variables depend on the reply only through its trimmed body. */
  lemma LabelledOfBody(text: string)
    ensures Labelled(Body(text)) == Labelled(text)
  {
    StripCharsIdempotent(text, Whitespace);
  }

  // ---------------------------------------------------------------------------
  // Steps shared by the examples
  // ---------------------------------------------------------------------------

  /** A reply whose ends are not whitespace is its own body. */
  lemma BodyOfTrimmed(text: string)
    requires text != [] && text[0] !in Whitespace && text[|text| - 1] !in Whitespace
    ensures Body(text) == text && Strip(text) == text
  {
    StripCharsNoop(text, Whitespace);
  }

  /** Removing a label from the front of text that does not contain the label
      leaves that text. */
  lemma LabelRemoved(tag: string, rest: string)
    requires |tag| > 0 && Lacks(rest, tag)
    ensures Replace(tag + rest, tag, []) == rest
  {
    ReplaceLeading(tag, rest, []);
    ReplaceAbsent(rest, tag, []);
  }

  /** A reply none of whose lines, trimmed, starts with a label leaves both
      loop variables unset. */
  lemma UnlabelledReply(text: string)
    requires NoLabelledLine(Body(text))
    ensures Labelled(text) == Labels([], [])
  {
    var lines := Split(Body(text), "\n");
    assert forall k | 0 <= k < |lines| :: !IsQuoteLine(lines[k]) && !IsAuthorLine(lines[k]);
    ScanNoQuoteLine(lines);
    ScanNoAuthorLine(lines);
  }

  /** A reply whose trimmed body is a single line starting with neither label
      leaves both loop variables unset. */
  lemma UnlabelledLine(text: string)
    requires '\n' !in Body(text)
    requires !StartsWith(Body(text), QuoteLabel) && !StartsWith(Body(text), AuthorLabel)
    ensures Labelled(text) == Labels([], [])
  {
    SplitWithoutSep(Body(text), '\n');
    StripCharsIdempotent(text, Whitespace);
    UnlabelledScan(Body(text));
  }

  lemma UnlabelledScan(line: string)
    requires !IsQuoteLine(line) && !IsAuthorLine(line)
    ensures ScanLabels([line]) == Labels([], [])
  {
    ScanNoQuoteLine([line]);
    ScanNoAuthorLine([line]);
  }

  // ---------------------------------------------------------------------------
  // Labelled replies
  // ---------------------------------------------------------------------------

  /** `"q"` preceded by a space is trimmed down to `q`; so is `""q""`. */
  lemma UnwrapQuoted(q: string, wrap: string, rest: string)
    requires QuoteText(q) && wrap != [] && forall j | 0 <= j < |wrap| :: wrap[j] == '"'
    requires rest == " " + wrap + q + wrap
    ensures StripChars(Strip(rest), {'"'}) == q
  {
    var core := wrap + q + wrap;
    assert rest == " " + core + [];
    StripCharsFrame(" ", core, [], Whitespace);
    StripCharsFrame(wrap, q, wrap, {'"'});
  }

  /** A quote line whose text is wrapped in `wrap`: it is a quote line and
      contributes exactly `q`. */
  lemma WrappedQuoteLine(q: string, wrap: string)
    requires QuoteText(q) && wrap != [] && forall j | 0 <= j < |wrap| :: wrap[j] == '"'
    ensures var line := QuoteLabel + " " + wrap + q + wrap;
      Strip(line) == line && IsQuoteLine(line) && QuoteValue(line) == q
  {
    var rest := " " + wrap + q + wrap;
    var line := QuoteLabel + rest;
    assert line == QuoteLabel + " " + wrap + q + wrap;
    assert line[0] == 'Q' && line[|line| - 1] == '"';
    BodyOfTrimmed(line);
    assert rest == (" " + wrap) + q + wrap;
    assert 'Q' !in " " + wrap && ':' !in wrap;
    LacksFramed(" " + wrap, q, wrap, QuoteLabel);
    LabelRemoved(QuoteLabel, rest);
    UnwrapQuoted(q, wrap, rest);
    assert line[..|QuoteLabel|] == QuoteLabel;
  }

  /** `Author: a`, for an `a` that does not contain `Author:`: an author line
      contributing `a`; for instance `Author: Anonymous` contributes
      `Anonymous`. */
  lemma AuthorLineOf(a: string)
    requires Clean(a) && Lacks(a, AuthorLabel)
    ensures var line := AuthorLabel + " " + a;
      Strip(line) == line && IsAuthorLine(line) && AuthorValue(line) == a
  {
    var rest := " " + a;
    var line := AuthorLabel + rest;
    assert line == AuthorLabel + " " + a;
    assert line[0] == 'A' && line[|line| - 1] == a[|a| - 1];
    BodyOfTrimmed(line);
    assert !StartsWith(line, QuoteLabel) by {
      assert line[..|QuoteLabel|][0] == 'A';
    }
    assert line[..|AuthorLabel|] == AuthorLabel;
    assert rest == " " + a + [];
    LacksFramed(" ", a, [], AuthorLabel);
    LabelRemoved(AuthorLabel, rest);
    StripCharsFrame(" ", a, [], Whitespace);
  }

  /** Two lines without line breaks are what splitting their join on a line
      break yields. */
  lemma TwoLines(l1: string, l2: string)
    requires '\n' !in l1 && '\n' !in l2
    ensures Split(l1 + "\n" + l2, "\n") == [l1, l2]
  {
    SplitAtSep(l1, '\n', l2);
    SplitWithoutSep(l2, '\n');
  }

  /** A quote line followed by an author line sets both loop variables. */
  lemma ScanQuoteThenAuthor(l1: string, l2: string)
    requires IsQuoteLine(l1) && IsAuthorLine(l2)
    ensures ScanLabels([l1, l2]) == Labels(QuoteValue(l1), AuthorValue(l2))
  {
    ScanLastQuoteLine([l1, l2], 0);
    ScanLastAuthorLine([l1, l2], 1);
  }

  /** A two-line labelled reply yields its quote and its author; for instance
      `Quote: "Believe in yourself."` over `Author: Jane Doe` yields
      ("Believe in yourself.", "Jane Doe"). */
  lemma LabelledPair(q: string, a: string)
    requires QuoteText(q) && Clean(a) && Lacks(a, AuthorLabel)
    ensures ParseText(QuoteLabel + " \"" + q + "\"\n" + AuthorLabel + " " + a) == Pair(q, a)
  {
    var text := QuoteLabel + " \"" + q + "\"\n" + AuthorLabel + " " + a;
    LabelledLines(q, a);
    ParseLabelled(text);
  }

  /** The loop over the two lines of a labelled reply finds both labels. */
  lemma LabelledLines(q: string, a: string)
    requires QuoteText(q) && Clean(a) && Lacks(a, AuthorLabel)
    ensures Labelled(QuoteLabel + " \"" + q + "\"\n" + AuthorLabel + " " + a) == Labels(q, a)
  {
    var l1 := QuoteLabel + " " + "\"" + q + "\"";
    var l2 := AuthorLabel + " " + a;
    var text := l1 + "\n" + l2;
    assert text == QuoteLabel + " \"" + q + "\"\n" + AuthorLabel + " " + a;
    WrappedQuoteLine(q, "\"");
    AuthorLineOf(a);
    LabelledShape(l1, l2);
    TwoLines(l1, l2);
    ScanQuoteThenAuthor(l1, l2);
  }

  /** Two trimmed lines joined by a line break form a trimmed body. */
  lemma LabelledShape(l1: string, l2: string)
    requires l1 != [] && l1[0] !in Whitespace && l2 != [] && l2[|l2| - 1] !in Whitespace
    ensures Body(l1 + "\n" + l2) == l1 + "\n" + l2
  {
    var text := l1 + "\n" + l2;
    assert text[0] == l1[0] && text[|text| - 1] == l2[|l2| - 1];
    BodyOfTrimmed(text);
  }

  // ---------------------------------------------------------------------------
  // A quoted sentence followed by a dash and a name
  // ---------------------------------------------------------------------------

  /** In `before"inner"tail` with no double quote in `before`, `inner` or
      `tail`, the first and last double quotes enclose `inner`. */
  lemma EnclosingQuotes(before: string, inner: string, tail: string)
    requires '"' !in before && '"' !in inner && '"' !in tail
    ensures var s := before + "\"" + inner + "\"" + tail;
      && 0 <= Find(s, '"') < RFind(s, '"')
      && s[Find(s, '"') + 1..RFind(s, '"')] == inner
      && s[RFind(s, '"') + 1..] == tail
  {
    var s := before + "\"" + inner + "\"" + tail;
    FirstQuoteAt(before, inner + "\"" + tail);
    assert s == before + ['"'] + (inner + "\"" + tail);
    LastQuoteAt(before + "\"" + inner, tail);
    assert s == (before + "\"" + inner) + ['"'] + tail;
  }

  lemma FirstQuoteAt(before: string, after: string)
    requires '"' !in before
    ensures Find(before + ['"'] + after, '"') == |before|
  {
    FindAfterPrefix(before, '"', after);
  }

  lemma LastQuoteAt(upTo: string, tail: string)
    requires '"' !in tail
    ensures RFind(upTo + ['"'] + tail, '"') == |upTo|
  {
    RFindBeforeSuffix(upTo, '"', tail);
  }

  /** Where the double quotes of the dashed reply are. */
  lemma DashQuotes(pre: string, inner: string, name: string)
    requires '"' !in pre && '"' !in inner && '"' !in name
    ensures var text := pre + " \"" + inner + "\" - " + name;
      && 0 <= Find(text, '"') < RFind(text, '"')
      && text[Find(text, '"') + 1..RFind(text, '"')] == inner
      && text[RFind(text, '"') + 1..] == " - " + name
  {
    var text := pre + " \"" + inner + "\" - " + name;
    assert text == (pre + " ") + "\"" + inner + "\"" + (" - " + name);
    EnclosingQuotes(pre + " ", inner, " - " + name);
  }

  /** ` - name` trims to a remainder that starts with a dash. */
  lemma DashRemainder(name: string)
    requires Clean(name)
    ensures var rest := Strip(" - " + name); rest != [] && rest[0] == '-'
  {
    assert " - " + name == " " + ("- " + name) + [];
    StripCharsFrame(" ", "- " + name, [], Whitespace);
  }

  /** An unlabelled body whose first and last double quotes enclose `inner`
      and are followed by a remainder that trims to something starting with a
      dash: the content is `inner` and the author is the default. */
  lemma QuotedThenDash(text: string, inner: string, tail: string)
    requires Body(text) == text && Labelled(text) == Labels([], [])
    requires 0 <= Find(text, '"') < RFind(text, '"') && inner != []
    requires text[Find(text, '"') + 1..RFind(text, '"')] == inner
    requires text[RFind(text, '"') + 1..] == tail
    requires Strip(tail) != [] && Strip(tail)[0] == '-'
    ensures ParseText(text) == Pair(inner, DefaultAuthor)
  {
    QuotedFallbackAt(text, Labels([], []));
    assert QuotedFallback(text, Labels([], [])) == Labels(inner, []);
  }

  /** The dashed reply is a single clean line starting with neither label. */
  lemma DashShape(pre: string, inner: string, name: string)
    requires Clean(pre) && !StartsWith(pre, QuoteLabel) && !StartsWith(pre, AuthorLabel)
    requires Clean(name) && '\n' !in inner
    ensures var text := pre + " \"" + inner + "\" - " + name;
      Clean(text) && !StartsWith(text, QuoteLabel) && !StartsWith(text, AuthorLabel)
  {
    var text := pre + " \"" + inner + "\" - " + name;
    assert '\n' !in text;
    assert text[0] == pre[0] && text[|text| - 1] == name[|name| - 1];
    assert text == pre + [' '] + ("\"" + inner + "\" - " + name);
    NoPrefixAcrossSeparator(pre, ' ', "\"" + inner + "\" - " + name, QuoteLabel);
    NoPrefixAcrossSeparator(pre, ' ', "\"" + inner + "\" - " + name, AuthorLabel);
  }

  /** `pre "inner" - name`: the content is `inner`, but the remainder
      `- name` starts with `-`, so the name is not adopted as the author; for
      instance `He said "Stay curious" - Albert` yields ("Stay curious",
      "Anonymous"), not `Albert`. */
  lemma DashedNameIgnored(pre: string, inner: string, name: string)
    requires Clean(pre) && !StartsWith(pre, QuoteLabel) && !StartsWith(pre, AuthorLabel)
    requires Clean(name) && inner != [] && '\n' !in inner
    requires '"' !in pre && '"' !in inner && '"' !in name
    ensures ParseText(pre + " \"" + inner + "\" - " + name) == Pair(inner, DefaultAuthor)
  {
    var text := pre + " \"" + inner + "\" - " + name;
    var tail := " - " + name;
    DashShape(pre, inner, name);
    BodyOfTrimmed(text);
    UnlabelledLine(text);
    DashQuotes(pre, inner, name);
    DashRemainder(name);
    QuotedThenDash(text, inner, tail);
  }

  // ---------------------------------------------------------------------------
  // Unstructured text
  // ---------------------------------------------------------------------------

  /** Unstructured text without double quotes, on any number of lines none of
      which starts with a label, is taken whole, trimmed; for instance
      `  Be kind.` followed by a line break yields ("Be kind.", "Anonymous"). */
  lemma UnquotedTextTakenWhole(pre: string, core: string, post: string)
    requires forall j | 0 <= j < |pre| :: pre[j] in Whitespace
    requires forall j | 0 <= j < |post| :: post[j] in Whitespace
    requires Trimmed(core) && '"' !in core && NoLabelledLine(core)
    ensures ParseText(pre + core + post) == Pair(core, DefaultAuthor)
  {
    var text := pre + core + post;
    StripCharsFrame(pre, core, post, Whitespace);
    assert Body(text) == core;
    UnlabelledReply(text);
    ParseWholeBody(text);
  }

  // ---------------------------------------------------------------------------
  // The literal behaviour of `replace` and `strip('"')`
  // ---------------------------------------------------------------------------

  /** `Quote:` before each piece: the line `Quote:p0Quote:p1...`. */
  function LabelEach(ps: seq<string>): string
    decreases |ps|
  {
    if ps == [] then [] else QuoteLabel + ps[0] + LabelEach(ps[1..])
  }

  /** The pieces joined with nothing between them. */
  function Concat(ps: seq<string>): string
    decreases |ps|
  {
    if ps == [] then [] else ps[0] + Concat(ps[1..])
  }

  /** A labelled line ends where its last piece ends. */
  lemma {:induction false} LabelEachEnd(ps: seq<string>)
    requires |ps| > 0 && ps[|ps| - 1] != []
    ensures LabelEach(ps) != [] && LabelEach(ps)[|LabelEach(ps)| - 1] == ps[|ps| - 1][|ps[|ps| - 1]| - 1]
    decreases |ps|
  {
    var rest := LabelEach(ps[1..]);
    assert LabelEach(ps) == QuoteLabel + ps[0] + rest;
    if |ps| == 1 {
      assert rest == [];
    } else {
      LabelEachEnd(ps[1..]);
      assert ps[1..][|ps[1..]| - 1] == ps[|ps| - 1];
    }
  }

  /** Removing `Quote:` from a labelled line leaves exactly its pieces, when no
      piece contains the label itself. */
  lemma {:induction false} ReplaceLabelEach(ps: seq<string>)
    requires forall k | 0 <= k < |ps| :: Lacks(ps[k], QuoteLabel)
    ensures Replace(LabelEach(ps), QuoteLabel, []) == Concat(ps)
    decreases |ps|
  {
    if ps != [] {
      var rest := LabelEach(ps[1..]);
      assert LabelEach(ps) == QuoteLabel + (ps[0] + rest);
      ReplaceLeading(QuoteLabel, ps[0] + rest, []);
      assert rest == [] || rest[0] == QuoteLabel[0];
      assert QuoteLabel[0] !in QuoteLabel[1..];
      NoOccurrenceAcross(ps[0], rest, QuoteLabel);
      ReplaceKeepsUnmatched(ps[0], rest, QuoteLabel, []);
      assert forall k | 0 <= k < |ps[1..]| :: ps[1..][k] == ps[k + 1];
      ReplaceLabelEach(ps[1..]);
    }
  }

  /** Every `Quote:` on a quote line is removed, not only the leading label:
      the line `Quote:p0Quote:p1...` contributes its pieces run together. */
  lemma EveryLabelRemoved(ps: seq<string>)
    requires |ps| > 0 && forall k | 0 <= k < |ps| :: Lacks(ps[k], QuoteLabel)
    requires ps[|ps| - 1] != [] && ps[|ps| - 1][|ps[|ps| - 1]| - 1] !in Whitespace
    ensures QuoteValue(LabelEach(ps)) == StripChars(Strip(Concat(ps)), {'"'})
  {
    LabelEachTrimmed(ps);
    ReplaceLabelEach(ps);
    assert Replace(Strip(LabelEach(ps)), QuoteLabel, []) == Concat(ps);
  }

  /** A labelled line whose last piece does not end in whitespace is trimmed. */
  lemma LabelEachTrimmed(ps: seq<string>)
    requires |ps| > 0 && ps[|ps| - 1] != [] && ps[|ps| - 1][|ps[|ps| - 1]| - 1] !in Whitespace
    ensures Strip(LabelEach(ps)) == LabelEach(ps)
  {
    var line := LabelEach(ps);
    assert line[0] == 'Q' by {
      assert line == QuoteLabel + (ps[0] + LabelEach(ps[1..]));
    }
    LabelEachEnd(ps);
    BodyOfTrimmed(line);
  }

  /** Any number of enclosing double quotes is stripped, not one pair. */
  lemma AllEnclosingQuotesStripped(q: string)
    requires QuoteText(q)
    ensures QuoteValue(QuoteLabel + " \"\"" + q + "\"\"") == q
  {
    WrappedQuoteLine(q, "\"\"");
    assert QuoteLabel + " " + "\"\"" + q + "\"\"" == QuoteLabel + " \"\"" + q + "\"\"";
  }

  // ---------------------------------------------------------------------------
  // The payload and the retry policy
  // ---------------------------------------------------------------------------

  /** A payload whose message has no `content` field yields the topic fallback. */
  lemma MissingContentField(topic: string)
    ensures ParseResponse(JObject(map["choices" := JArray([JObject(map["message" := JObject(map[])])])]), topic)
         == Ok(Pair(FallbackContent(topic), DefaultAuthor))
  {
  }

  /** Three 429 responses: pauses of one and then two seconds, then a 429 error. */
  lemma RateLimitedThrice(key: string, topic: string, body: Json)
    requires key != []
    ensures GenerateQuote(Some(key), topic, [Response(429, body), Response(429, body), Response(429, body)])
         == Generation(Err(Http(RateLimitExceeded)), [1, 2], 3)
  {
  }
}
