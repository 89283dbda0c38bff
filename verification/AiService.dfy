/**
 The quote generator: the prompt it sends, the retry and backoff policy around
 the provider call, and the parser that turns the provider's reply into a
 (content, author) pair. The network is replaced by the sequence of attempt
 outcomes it would produce, and each sleep is recorded as a delay in seconds.
 */
module AiService {
  import opened Results
  import opened PyStr
  import opened Json

  /** Total number of provider calls `generate_quote` is willing to make. */
  const MaxRetries: nat := 3

  const DefaultContent: string := "Every moment is a fresh beginning."
  const DefaultAuthor: string := "Anonymous"
  const QuoteLabel: string := "Quote:"
  const AuthorLabel: string := "Author:"

  /** The pair returned when the provider's payload lacks the message text. */
  function FallbackContent(topic: string): string {
    "Every challenge in " + topic + " is an opportunity in disguise."
  }

  /** An `HTTPException`: a status code and its detail message. */
  datatype HttpError = HttpError(status: int, detail: string)

  const NotConfigured: HttpError :=
    HttpError(503, "AI quote generation is not available. OpenRouter API key not configured.")
  const RateLimitExceeded: HttpError := HttpError(429, "Rate limit exceeded. Please try again later.")
  const UpstreamUnavailable: HttpError :=
    HttpError(502, "Failed to generate quote. External AI service unavailable.")
  const RequestTimeout: HttpError := HttpError(504, "Request timeout. Please try again.")
  const ConnectFailed: HttpError := HttpError(502, "Failed to connect to AI service.")
  const RetriesExhausted: HttpError := HttpError(502, "Failed to generate quote after multiple attempts.")

  /** The generated quote text and its author. */
  datatype Pair = Pair(content: string, author: string)

  // ---------------------------------------------------------------------------
  // The prompt
  // ---------------------------------------------------------------------------

  const PromptHead: string := "Generate an inspirational quote about \""
  const PromptMiddle: string :=
    "\". \n        \nPlease respond with ONLY the following format:\nQuote: [Your quote here]\n"
    + "Author: [Author name or \"Anonymous\"]\n\nThe quote should be meaningful, inspiring, "
    + "and relevant to the topic \""
  const PromptTail: string := "\". Make it concise but impactful."

  /** The user message sent to the provider: the topic appears, quoted, in the
      first and in the last sentence. */
  function CreatePrompt(topic: string): (r: string)
    ensures |r| == |PromptHead| + |PromptMiddle| + |PromptTail| + 2 * |topic|
    ensures StartsWith(r, PromptHead)
    ensures r[|PromptHead|..|PromptHead| + |topic|] == topic
    ensures r[|r| - |PromptTail| - |topic|..|r| - |PromptTail|] == topic
    ensures r[|r| - |PromptTail|..] == PromptTail
  {
    PromptHead + topic + PromptMiddle + topic + PromptTail
  }

  /** Different topics give different prompts. */
  lemma CreatePromptInjective(a: string, b: string)
    ensures CreatePrompt(a) == CreatePrompt(b) ==> a == b
  {
    if CreatePrompt(a) == CreatePrompt(b) {
      var p := CreatePrompt(a);
      assert |a| == |b|;
      assert a == p[|PromptHead|..|PromptHead| + |a|] == b;
    }
  }

  // ---------------------------------------------------------------------------
  // The parser
  // ---------------------------------------------------------------------------

  /** A line that, trimmed, starts with the `Quote:` label. */
  predicate IsQuoteLine(line: string) {
    StartsWith(Strip(line), QuoteLabel)
  }

  /** A line that, trimmed, starts with the `Author:` label and is not a quote line. */
  predicate IsAuthorLine(line: string) {
    !IsQuoteLine(line) && StartsWith(Strip(line), AuthorLabel)
  }

  /** The text a quote line contributes: every `Quote:` removed, then trimmed of
      whitespace, then of every leading and trailing double quote. */
  function QuoteValue(line: string): string {
    StripChars(Strip(Replace(Strip(line), QuoteLabel, [])), {'"'})
  }

  /** The text an author line contributes: every `Author:` removed, then trimmed. */
  function AuthorValue(line: string): string {
    Strip(Replace(Strip(line), AuthorLabel, []))
  }

  /** The loop's two variables; the empty string stands for Python's `None`,
      which every later test treats alike. */
  datatype Labels = Labels(quote: string, author: string)

  /** The state of the labelled-line loop after it has seen all of `lines`. */
  function ScanLabels(lines: seq<string>): Labels {
    if |lines| == 0 then Labels([], [])
    else
      var before := ScanLabels(lines[..|lines| - 1]);
      var line := lines[|lines| - 1];
      if StartsWith(Strip(line), QuoteLabel) then before.(quote := QuoteValue(line))
      else if StartsWith(Strip(line), AuthorLabel) then before.(author := AuthorValue(line))
      else before
  }

  /** The last quote line decides the quote. */
  lemma {:induction false} ScanLastQuoteLine(lines: seq<string>, i: nat)
    requires i < |lines| && IsQuoteLine(lines[i])
    requires forall j | i < j < |lines| :: !IsQuoteLine(lines[j])
    ensures ScanLabels(lines).quote == QuoteValue(lines[i])
  {
    if i < |lines| - 1 {
      ScanLastQuoteLine(lines[..|lines| - 1], i);
    }
  }

  /** Without a quote line the quote stays unset. */
  lemma {:induction false} ScanNoQuoteLine(lines: seq<string>)
    requires forall j | 0 <= j < |lines| :: !IsQuoteLine(lines[j])
    ensures ScanLabels(lines).quote == []
  {
    if |lines| > 0 {
      ScanNoQuoteLine(lines[..|lines| - 1]);
    }
  }

  /** The last author line decides the author; quote lines never count as
      author lines. */
  lemma {:induction false} ScanLastAuthorLine(lines: seq<string>, i: nat)
    requires i < |lines| && IsAuthorLine(lines[i])
    requires forall j | i < j < |lines| :: !IsAuthorLine(lines[j])
    ensures ScanLabels(lines).author == AuthorValue(lines[i])
  {
    if i < |lines| - 1 {
      ScanLastAuthorLine(lines[..|lines| - 1], i);
    }
  }

  /** Without an author line the author stays unset. */
  lemma {:induction false} ScanNoAuthorLine(lines: seq<string>)
    requires forall j | 0 <= j < |lines| :: !IsAuthorLine(lines[j])
    ensures ScanLabels(lines).author == []
  {
    if |lines| > 0 {
      ScanNoAuthorLine(lines[..|lines| - 1]);
    }
  }

  /** The reply with surrounding whitespace removed. */
  function Body(text: string): string {
    Strip(text)
  }

  /** The loop's result over the reply's lines. */
  function Labelled(text: string): Labels {
    ScanLabels(Split(Body(text), "\n"))
  }

  /** What follows the last double quote, trimmed. */
  function AfterLastQuote(body: string): string
    requires '"' in body
  {
    Strip(body[RFind(body, '"') + 1..])
  }

  /** The author the text after the closing quote yields: `remaining` with
      leading dashes and spaces and then whitespace removed, when `remaining` is
      non-empty and does not start with `-` (on non-empty text, `startswith("-")`
      tests the first character); otherwise the current author. */
  function AuthorAfterQuote(remaining: string, current: string): string {
    if remaining != [] && remaining[0] != '-' then Strip(LStrip(remaining, {'-', ' '}))
    else current
  }

  /** The second tier, tried when no labelled quote was found: the text between
      the first and last double quote (with the text after it as a candidate
      author), or the whole body when it has no double quote. */
  function QuotedFallback(body: string, labels: Labels): Labels {
    if '"' in body then
      var start := Find(body, '"');
      var end := RFind(body, '"');
      if start != end && start != -1 then
        Labels(body[start + 1..end], AuthorAfterQuote(Strip(body[end + 1..]), labels.author))
      else labels
    else labels.(quote := body)
  }

  /** The provider's message text as a (content, author) pair; both are
      always non-empty. */
  function ParseText(text: string): (r: Pair)
    ensures r.content != [] && r.author != []
  {
    var body := Body(text);
    var labels := ScanLabels(Split(body, "\n"));
    var chosen := if labels.quote != [] then labels else QuotedFallback(body, labels);
    Pair(if chosen.quote == [] then DefaultContent else chosen.quote,
         if chosen.author == [] then DefaultAuthor else chosen.author)
  }

  /** A labelled quote that is not empty wins, and the author is the labelled
      one or the default. */
  lemma ParseLabelled(text: string)
    requires Labelled(text).quote != []
    ensures ParseText(text).content == Labelled(text).quote
    ensures ParseText(text).author ==
      (if Labelled(text).author == [] then DefaultAuthor else Labelled(text).author)
  {
  }

  /** Since the remainder is already trimmed and does not start with `-`,
      stripping leading dashes and spaces removes nothing: the author adopted is
      the remainder itself. */
  lemma AuthorAfterQuoteExact(raw: string, current: string)
    ensures var rest := Strip(raw);
      AuthorAfterQuote(rest, current) == if rest != [] && rest[0] != '-' then rest else current
  {
    var rest := Strip(raw);
    if rest != [] && rest[0] != '-' {
      StripCharsTrims(raw, Whitespace);
      var i :| TrimmedAt(raw, Whitespace, i, rest);
      assert rest[0] !in {'-', ' '};
      assert LStrip(rest, {'-', ' '}) == rest;
      StripCharsIdempotent(raw, Whitespace);
    }
  }

  /** The second tier when the first double quote comes before the last. */
  lemma QuotedFallbackAt(body: string, labels: Labels)
    requires 0 <= Find(body, '"') < RFind(body, '"')
    ensures var rest := AfterLastQuote(body);
      QuotedFallback(body, labels) ==
        Labels(body[Find(body, '"') + 1..RFind(body, '"')],
               if rest != [] && rest[0] != '-' then rest else labels.author)
  {
    var start, end := Find(body, '"'), RFind(body, '"');
    assert '"' in body by { assert body[start] == '"'; }
    var rest := Strip(body[end + 1..]);
    assert rest == AfterLastQuote(body);
    assert QuotedFallback(body, labels) ==
      Labels(body[start + 1..end], AuthorAfterQuote(rest, labels.author));
    AuthorAfterQuoteExact(body[end + 1..], labels.author);
    if rest != [] && rest[0] != '-' {
      assert AuthorAfterQuote(rest, labels.author) == rest;
    } else {
      assert AuthorAfterQuote(rest, labels.author) == labels.author;
    }
  }

  /** The second tier on a body with at least two double quotes. */
  lemma QuotedFallbackBetween(body: string, labels: Labels)
    requires multiset(body)['"'] >= 2
    ensures Find(body, '"') < RFind(body, '"')
    ensures var rest := AfterLastQuote(body);
      QuotedFallback(body, labels) ==
        Labels(body[Find(body, '"') + 1..RFind(body, '"')],
               if rest != [] && rest[0] != '-' then rest else labels.author)
  {
    FindRFindCount(body, '"');
    QuotedFallbackAt(body, labels);
  }

  /** With no labelled quote and at least two double quotes, the content is the
      text strictly between the first and the last one, and the text after the
      last one, trimmed, replaces the author exactly when it is non-empty and
      does not start with `-`. */
  lemma ParseBetweenQuotes(text: string)
    requires Labelled(text).quote == []
    requires multiset(Body(text))['"'] >= 2
    ensures var body := Body(text);
      Find(body, '"') < RFind(body, '"') &&
      var inner := body[Find(body, '"') + 1..RFind(body, '"')];
      var rest := AfterLastQuote(body);
      var author := if rest != [] && rest[0] != '-' then rest else Labelled(text).author;
      && ParseText(text).content == (if inner == [] then DefaultContent else inner)
      && ParseText(text).author == (if author == [] then DefaultAuthor else author)
  {
    QuotedFallbackBetween(Body(text), Labelled(text));
  }

  /** With no labelled quote and exactly one double quote, the content falls
      back to the default and the author is the labelled one or the default. */
  lemma ParseSingleQuote(text: string)
    requires Labelled(text).quote == []
    requires multiset(Body(text))['"'] == 1
    ensures ParseText(text).content == DefaultContent
    ensures ParseText(text).author ==
      (if Labelled(text).author == [] then DefaultAuthor else Labelled(text).author)
  {
    FindRFindCount(Body(text), '"');
  }

  /** With no labelled quote and no double quote, the content is the whole
      trimmed reply (or the default when that is empty). */
  lemma ParseWholeBody(text: string)
    requires Labelled(text).quote == []
    requires '"' !in Body(text)
    ensures ParseText(text).content == (if Body(text) == [] then DefaultContent else Body(text))
    ensures ParseText(text).author ==
      (if Labelled(text).author == [] then DefaultAuthor else Labelled(text).author)
  {
  }

  /** `_parse_response`: the parsed pair, the fixed fallback pair when the
      payload lacks the message text (`KeyError`, `IndexError`,
      `AttributeError`), or the `TypeError` that escapes the handler. */
  function ParseResponse(data: Json, topic: string): (r: Result<Pair, PyException>)
    ensures r.Err? <==> MessageContent(data) == Err(TypeError)
    ensures r.Err? ==> r.error == TypeError
    ensures MessageContent(data).Ok? ==> r == Ok(ParseText(MessageContent(data).value))
    ensures MessageContent(data).Err? && MessageContent(data).error != TypeError ==>
      r == Ok(Pair(FallbackContent(topic), DefaultAuthor))
    ensures r.Ok? ==> r.value.content != [] && r.value.author != []
  {
    match MessageContent(data)
    case Ok(text) => Ok(ParseText(text))
    case Err(TypeError) => Err(TypeError)
    case Err(_) => Ok(Pair(FallbackContent(topic), DefaultAuthor))
  }

  /** A payload without `choices`, with an empty `choices` list, or whose
      first choice lacks `message` or whose message lacks `content` or holds a
      non-string `content`, yields exactly the topic fallback pair. */
  lemma MalformedPayloadFallback(data: Json, topic: string)
    requires MissingMessageText(data)
    ensures ParseResponse(data, topic) == Ok(Pair(FallbackContent(topic), DefaultAuthor))
  {
    MissingMessageTextRaises(data);
  }

  // ---------------------------------------------------------------------------
  // The retry policy
  // ---------------------------------------------------------------------------

  /** What one provider call produced. */
  datatype Attempt =
    | Response(status: int, payload: Json)   // an HTTP response and its decoded body
    | TimedOut                               // `httpx.TimeoutException`
    | RequestFailed                          // any other `httpx.RequestError`

  predicate IsSuccess(a: Attempt) {
    a.Response? && a.status == 200
  }

  /** What the loop does after one attempt. */
  datatype Step = Succeed(payload: Json) | Retry(delay: nat) | Fail(error: HttpError)

  function Pow2(n: nat): (r: nat)
    ensures r >= 1
  {
    if n == 0 then 1 else 2 * Pow2(n - 1)
  }

  /** The body of the retry loop for attempt number `attempt` (from 0). */
  function Decide(attempt: nat, maxRetries: nat, outcome: Attempt): Step {
    match outcome
    case Response(status, payload) =>
      if status == 200 then Succeed(payload)
      else if status == 429 then
        if attempt < maxRetries - 1 then Retry(Pow2(attempt)) else Fail(RateLimitExceeded)
      else
        if attempt < maxRetries - 1 then Retry(1) else Fail(UpstreamUnavailable)
    case TimedOut =>
      if attempt < maxRetries - 1 then Retry(1) else Fail(RequestTimeout)
    case RequestFailed =>
      if attempt < maxRetries - 1 then Retry(1) else Fail(ConnectFailed)
  }

  /** The pause after a failed attempt that is not the last: `2^attempt`
      seconds after a 429, one second after anything else. */
  function Backoff(outcome: Attempt, attempt: nat): nat {
    if outcome.Response? && outcome.status == 429 then Pow2(attempt) else 1
  }

  /** After a 429 the pause starts at one second and doubles with each
      attempt: it is `2 ** attempt`. */
  lemma RateLimitBackoffDoubles(payload: Json, attempt: nat)
    ensures Backoff(Response(429, payload), 0) == 1
    ensures Backoff(Response(429, payload), attempt + 1) == 2 * Backoff(Response(429, payload), attempt)
  {
  }

  /** The error a failed last attempt raises, by kind of failure. */
  function FinalError(outcome: Attempt): HttpError {
    if outcome.Response? then
      if outcome.status == 429 then RateLimitExceeded else UpstreamUnavailable
    else if outcome.TimedOut? then RequestTimeout
    else ConnectFailed
  }

  /** Per attempt, the loop succeeds on a 200, retries after `Backoff` while
      attempts remain, and otherwise raises `FinalError`. */
  lemma DecideCases(attempt: nat, maxRetries: nat, outcome: Attempt)
    ensures IsSuccess(outcome) ==> Decide(attempt, maxRetries, outcome) == Succeed(outcome.payload)
    ensures !IsSuccess(outcome) && attempt + 1 < maxRetries ==>
      Decide(attempt, maxRetries, outcome) == Retry(Backoff(outcome, attempt))
    ensures !IsSuccess(outcome) && attempt + 1 >= maxRetries ==>
      Decide(attempt, maxRetries, outcome) == Fail(FinalError(outcome))
  {
  }

  /** The failure of a generation: an `HTTPException`, or a Python exception
      that escaped the parser. */
  datatype GenError = Http(http: HttpError) | Unhandled(exception: PyException)

  /** The outcome of `generate_quote`, with the sleeps it took and the number of
      provider calls it made. */
  datatype Generation = Generation(result: Result<Pair, GenError>, sleeps: seq<nat>, attempts: nat)

  /** The result of parsing a successful payload, lifted to a generation result. */
  function Parsed(data: Json, topic: string): Result<Pair, GenError> {
    match ParseResponse(data, topic)
    case Ok(p) => Ok(p)
    case Err(e) => Err(Unhandled(e))
  }

  /** The retry loop from attempt number `attempt` on. Every attempt before the
      last one made failed and was followed by its backoff; the last one made
      decides the result; the fall-through error arises only when no attempt
      remains. */
  function RetryLoop(attempt: nat, maxRetries: nat, topic: string, outcomes: seq<Attempt>): (g: Generation)
    requires attempt <= maxRetries <= |outcomes|
    ensures attempt == maxRetries ==>
      g == Generation(Err(Http(RetriesExhausted)), [], attempt)
    ensures attempt < maxRetries ==> attempt < g.attempts <= maxRetries
    ensures attempt < maxRetries ==> |g.sleeps| == g.attempts - attempt - 1
    ensures forall i | 0 <= i < |g.sleeps| ::
      attempt + i < |outcomes| && g.sleeps[i] == Backoff(outcomes[attempt + i], attempt + i)
    ensures forall j | attempt <= j < g.attempts - 1 :: !IsSuccess(outcomes[j])
    ensures attempt < maxRetries && IsSuccess(outcomes[g.attempts - 1]) ==>
      g.result == Parsed(outcomes[g.attempts - 1].payload, topic)
    ensures attempt < maxRetries && !IsSuccess(outcomes[g.attempts - 1]) ==>
      g.attempts == maxRetries && g.result == Err(Http(FinalError(outcomes[g.attempts - 1])))
    decreases maxRetries - attempt
  {
    if attempt == maxRetries then Generation(Err(Http(RetriesExhausted)), [], attempt)
    else
      match Decide(attempt, maxRetries, outcomes[attempt])
      case Succeed(payload) => Generation(Parsed(payload, topic), [], attempt + 1)
      case Fail(error) => Generation(Err(Http(error)), [], attempt + 1)
      case Retry(delay) =>
        var rest := RetryLoop(attempt + 1, maxRetries, topic, outcomes);
        rest.(sleeps := [delay] + rest.sleeps)
  }

  /** `bool(api_key)`: a key is configured when present and non-empty. */
  predicate Configured(apiKey: Option<string>) {
    apiKey.Some? && apiKey.value != []
  }

  /** `generate_quote(topic)` given the API key and the outcomes the provider
      would produce for successive calls. */
  function GenerateQuote(apiKey: Option<string>, topic: string, outcomes: seq<Attempt>): (g: Generation)
    requires |outcomes| >= MaxRetries
    ensures !Configured(apiKey) ==> g == Generation(Err(Http(NotConfigured)), [], 0)
    ensures Configured(apiKey) ==> 1 <= g.attempts <= MaxRetries && |g.sleeps| == g.attempts - 1
    ensures g.result != Err(Http(RetriesExhausted))
  {
    if !Configured(apiKey) then Generation(Err(Http(NotConfigured)), [], 0)
    else RetryLoop(0, MaxRetries, topic, outcomes)
  }

  /** The first successful response ends the loop: its parsed payload is the
      result, no later attempt is made, and exactly the earlier failures slept. */
  lemma GenerateFirstSuccess(apiKey: Option<string>, topic: string, outcomes: seq<Attempt>, k: nat)
    requires |outcomes| >= MaxRetries && Configured(apiKey)
    requires k < MaxRetries && IsSuccess(outcomes[k])
    requires forall j | 0 <= j < k :: !IsSuccess(outcomes[j])
    ensures var g := GenerateQuote(apiKey, topic, outcomes);
      && g.attempts == k + 1
      && g.result == Parsed(outcomes[k].payload, topic)
      && |g.sleeps| == k
      && forall i | 0 <= i < k :: g.sleeps[i] == Backoff(outcomes[i], i)
  {
  }

  /** When every allowed attempt fails, all of them are made, each but the last
      is followed by its backoff, and the last one alone decides the error. */
  lemma GenerateAllFail(apiKey: Option<string>, topic: string, outcomes: seq<Attempt>)
    requires |outcomes| >= MaxRetries && Configured(apiKey)
    requires forall j | 0 <= j < MaxRetries :: !IsSuccess(outcomes[j])
    ensures var g := GenerateQuote(apiKey, topic, outcomes);
      && g.attempts == MaxRetries
      && g.result == Err(Http(FinalError(outcomes[MaxRetries - 1])))
      && |g.sleeps| == MaxRetries - 1
      && forall i | 0 <= i < MaxRetries - 1 :: g.sleeps[i] == Backoff(outcomes[i], i)
  {
    var g := GenerateQuote(apiKey, topic, outcomes);
    assert !IsSuccess(outcomes[g.attempts - 1]);
  }

  /** With three attempts only two pauses can happen, so a 429 is followed by a
      one- or two-second pause and never by a longer one. */
  lemma GenerateSleepsAtMostTwo(apiKey: Option<string>, topic: string, outcomes: seq<Attempt>)
    requires |outcomes| >= MaxRetries
    ensures forall i | 0 <= i < |GenerateQuote(apiKey, topic, outcomes).sleeps| ::
      GenerateQuote(apiKey, topic, outcomes).sleeps[i] in {1, 2}
  {
    var g := GenerateQuote(apiKey, topic, outcomes);
    if Configured(apiKey) {
      forall i | 0 <= i < |g.sleeps| ensures g.sleeps[i] in {1, 2} {
        assert g.sleeps[i] == Backoff(outcomes[i], i);
        assert Pow2(1) == 2;
      }
    }
  }

  /** The retry loop reaches its fall-through error exactly when it may make no
      attempt at all. */
  lemma FallThroughOnlyWithoutRetries(maxRetries: nat, topic: string, outcomes: seq<Attempt>)
    requires maxRetries <= |outcomes|
    ensures RetryLoop(0, maxRetries, topic, outcomes).result == Err(Http(RetriesExhausted)) <==> maxRetries == 0
  {
    var g := RetryLoop(0, maxRetries, topic, outcomes);
    if maxRetries > 0 {
      var last := outcomes[g.attempts - 1];
      if !IsSuccess(last) {
        assert FinalError(last) != RetriesExhausted;
      } else {
        assert g.result == Parsed(last.payload, topic);
      }
    }
  }
}
