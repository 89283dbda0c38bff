# QuoteCrafter API: a Dafny model of the quote service core

QuoteCrafter is a small HTTP API that stores quotes in memory and can ask an
AI chat-completion provider (OpenRouter) to write one on a given topic. This
project models the service's core as pure Dafny functions and proves what they
guarantee:

- **The reply parser** (`_parse_response`). It turns the provider's reply into
  a (content, author) pair. It tries, in order:
  - labelled `Quote:` / `Author:` lines;
  - the text between the first and last double quote;
  - the whole reply;
  - fixed defaults.

  A payload without the message text gives a topic-based fallback pair.
- **The retry and backoff policy** of `generate_quote`. It makes up to three
  provider calls. A 429 pauses 2^attempt seconds and any other failure pauses
  one second. When the last attempt fails, its kind decides the error. The
  prompt builder `_create_prompt` belongs to this part too.
- **The in-memory store and the quotes router**: `quotes_db` with its
  `next_id` counter, record creation, listing, lookup by id and the health
  report. It also covers the generate endpoint, which chains the generator,
  the `QuoteCreate` validator and the store.
- **The length validators** of `QuoteCreate` (author 1–255, content 1–2000)
  and `GenerateQuoteRequest` (topic 1–255).

The network is replaced by the sequence of outcomes the provider calls would
produce. Each `asyncio.sleep` is recorded as a delay in seconds. The clock
(`datetime.utcnow()`) and the API key are parameters. The store is a value that
every operation takes and returns.

Python's `str` operations the parser relies on are modelled in `PyStr.dfy`:
`strip` with the exact set of characters `isspace` accepts, `strip(chars)`,
`lstrip(chars)`, `split`, `replace`, `find`, `rfind`, `startswith` and
`str(int)`. A string is a sequence of code points, as Python's `len` counts them.

Modules: `Results` (Option/Result), `PyStr`, `Json` (the decoded payload and
the exceptions subscripting raises), `QuoteSchema` (schemas/quote.py),
`AiService` (services/ai_service.py), `QuotesRouter` (routers/quotes.py), and
`ParserExamples` (reply shapes the documentation describes, each proved for
every reply of that shape; a shape's pieces are arbitrary text except for the
conditions its row names, such as no line break inside a line, no surrounding
whitespace, and no label or double quote where one would change the parse).

Where the written description of the service and the code disagree, the model
follows the code:

- A reply `He said "Stay curious" - Albert` yields author `Anonymous`, not
  `Albert`. The remainder `- Albert` is checked for a leading `-` before the
  dashes are stripped, so it is rejected (`ParserExamples.DashedNameIgnored`).
- `strip('"')` removes every leading and trailing double quote, not a single
  pair (`ParserExamples.AllEnclosingQuotesStripped`).
- `replace("Quote:", "")` removes every occurrence of the label, not just the
  prefix (`ParserExamples.EveryLabelRemoved`).
- A reply with exactly one double quote and no labelled quote falls back to the
  default content, not to the whole body (`AiService.ParseSingleQuote`).
- `create_quote_record` does no length check of its own. Any `QuoteCreate` is
  stored as given (`QuotesRouter.CreateQuoteRecord` has no precondition).

## Model

| member | source | states |
|---|---|---|
| QuoteSchema.CheckLength | schemas/quote.py:8-9 | a `min_length`/`max_length` field reports no error exactly when its length is within bounds, and otherwise exactly one error naming the field and the bound violated |
| QuoteSchema.ValidateQuoteCreate | schemas/quote.py:6-9 | a `QuoteCreate` is accepted iff the author has 1–255 and the content 1–2000 characters; a rejection names the author iff the author is out of bounds and the content iff the content is |
| QuoteSchema.ValidateGenerateRequest | schemas/quote.py:35-37 | a generation request is accepted iff the topic has 1–255 characters; otherwise the error is the single too-short or too-long topic error |
| Json.GetKey | services/ai_service.py:109 | `v[key]` succeeds iff `v` is an object holding the key; a missing key raises KeyError and a non-object TypeError |
| Json.GetFirst | services/ai_service.py:109 | `v[0]` yields the first list item or first character; an empty list or string raises IndexError, an object KeyError, a scalar TypeError |
| Json.AsString | services/ai_service.py:109 | `.strip` is available exactly on strings; anything else raises AttributeError |
| Json.MessageContent | services/ai_service.py:109 | `data["choices"][0]["message"]["content"]` succeeds exactly when each step has the right shape and the content is a string, and then yields that string; a non-object payload raises TypeError, a missing `choices`, `message` or `content` raises KeyError, an empty `choices` list IndexError, and a non-string `content` AttributeError |
| Json.MissingMessageTextRaises | services/ai_service.py:109 | every payload that lacks the message text by a missing field, an empty `choices` list or a non-string `content` raises an exception other than TypeError |
| Json.ChatCompletionContent | services/ai_service.py:58-60 | the message text of a well-formed provider payload is extracted unchanged |
| PyStr.LStripRemovesPrefix | services/ai_service.py:134 | `lstrip(cs)` leaves a suffix that does not start with a character of `cs`, having removed only characters of `cs` |
| PyStr.RStripRemovesSuffix | services/ai_service.py:119 | `rstrip(cs)` leaves a prefix that does not end with a character of `cs`, having removed only characters of `cs` |
| PyStr.StripCharsTrims | services/ai_service.py:109 | `strip` leaves a contiguous part of the string whose ends are not in the strip set, with everything removed in the set; the result is empty iff every character is in the set |
| PyStr.TrimmedAtUnique | services/ai_service.py:117 | that characterisation of the stripped string has only one solution, so it determines `strip` completely |
| PyStr.StripCharsIdempotent | services/ai_service.py:117 | stripping an already stripped string changes nothing (the parser strips the body, then each line) |
| PyStr.StripCharsNoop | services/ai_service.py:117 | a string whose ends are outside the strip set is unchanged by `lstrip`, `rstrip` and `strip` |
| PyStr.StripCharsFrame | services/ai_service.py:119 | stripping `pre + core + post`, with `pre` and `post` drawn from the set and `core`'s ends outside it, yields exactly `core` |
| PyStr.Find | services/ai_service.py:127 | `find(c)` is -1 iff `c` is absent, and otherwise the first index holding `c` |
| PyStr.RFind | services/ai_service.py:128 | `rfind(c)` is -1 iff `c` is absent, and otherwise the last index holding `c` |
| PyStr.FindAfterPrefix | services/ai_service.py:127 | the first `c` is found right after a prefix without `c` |
| PyStr.RFindBeforeSuffix | services/ai_service.py:128 | the last `c` is found right before a suffix without `c` |
| PyStr.FindRFindCount | services/ai_service.py:126-129 | the first and last occurrence differ iff `c` occurs at least twice, and coincide at a real index iff it occurs exactly once |
| PyStr.CountAfterFirst | services/ai_service.py:127 | every occurrence of `c` except the first lies after the first |
| PyStr.NoneAfterLast | services/ai_service.py:128 | no occurrence of `c` follows the last one |
| PyStr.SplitJoin | services/ai_service.py:112 | joining the pieces of `split(sep)` with `sep` gives back the string |
| PyStr.SplitPiecesAvoidSep | services/ai_service.py:112 | no piece of `split('\n')` contains a line break |
| PyStr.SplitWithoutSep | services/ai_service.py:112 | a string without the separator splits into itself alone |
| PyStr.SplitAtSep | services/ai_service.py:112 | the first piece ends at the first separator, and the rest is the split of what follows |
| PyStr.ReplaceIsJoinOfSplit | services/ai_service.py:119 | `replace(pat, rep)` is `rep.join(split(pat))`, so every non-overlapping occurrence is replaced |
| PyStr.ReplaceLeading | services/ai_service.py:119 | an occurrence at the front is replaced and the scan continues after it |
| PyStr.ReplaceAbsent | services/ai_service.py:119 | text in which the pattern occurs nowhere is left unchanged |
| PyStr.ReplaceKeepsUnmatched | services/ai_service.py:119 | text in which no occurrence of the pattern starts is copied unchanged in front of the replaced rest |
| PyStr.NoOccurrenceAcross | services/ai_service.py:119 | when `a` lacks a pattern whose first character does not recur in it, and what follows `a` starts with that character, no occurrence starts inside `a` |
| PyStr.LacksFramed | services/ai_service.py:119 | text lacking the pattern still lacks it when framed by a prefix without its first character and a suffix without its last |
| PyStr.NoPrefixAcrossSeparator | services/ai_service.py:118-120 | a string not starting with `p` keeps not starting with it whatever follows a character `p` does not contain |
| PyStr.NatToDecimal | routers/quotes.py:85 | `str(n)` of a natural number is a non-empty run of decimal digits, without a redundant leading zero, that denotes `n` |
| PyStr.IntToDecimal | routers/quotes.py:85 | `str(n)` starts with `-` exactly for negative `n`, and the rest is the canonical digit string denoting the magnitude of `n` |
| PyStr.IntToDecimalInjective | routers/quotes.py:85 | different ids give different strings, so the 404 detail names the requested id |
| AiService.CreatePrompt | services/ai_service.py:98-105 | the prompt begins with the fixed request sentence, carries the topic in both quoted slots and ends with the fixed closing sentence |
| AiService.CreatePromptInjective | services/ai_service.py:98-105 | different topics give different prompts |
| AiService.ScanLastQuoteLine | services/ai_service.py:116-119 | the last line starting with `Quote:` decides the quote, whatever comes after it |
| AiService.ScanNoQuoteLine | services/ai_service.py:113-119 | without a `Quote:` line the quote stays unset |
| AiService.ScanLastAuthorLine | services/ai_service.py:116-121 | the last `Author:` line that is not a `Quote:` line decides the author |
| AiService.ScanNoAuthorLine | services/ai_service.py:114-121 | without such a line the author stays unset |
| AiService.ParseText | services/ai_service.py:139-144 | the parsed content and author are never empty |
| AiService.ParseLabelled | services/ai_service.py:124-144 | a non-empty labelled quote wins; the author is the labelled one or `Anonymous` |
| AiService.AuthorAfterQuoteExact | services/ai_service.py:132-134 | the author taken from after the closing quote is the trimmed remainder itself when it is non-empty and does not start with `-`, and otherwise the author is left as it was |
| AiService.QuotedFallbackAt | services/ai_service.py:126-134 | with the first double quote before the last, the content is the text strictly between them and the remainder decides the author as above |
| AiService.QuotedFallbackBetween | services/ai_service.py:126-134 | the same whenever the body holds at least two double quotes |
| AiService.ParseBetweenQuotes | services/ai_service.py:124-144 | with no labelled quote and at least two double quotes, the content is the text between the first and last one (or the default when that is empty); the author is the adopted remainder, the labelled author, or `Anonymous` |
| AiService.ParseSingleQuote | services/ai_service.py:126-142 | with no labelled quote and exactly one double quote, the content is the default |
| AiService.ParseWholeBody | services/ai_service.py:135-142 | with no labelled quote and no double quote, the content is the whole trimmed reply (or the default when it is empty) |
| AiService.ParseResponse | services/ai_service.py:107-149 | a well-formed payload is parsed; a missing field, index or non-string content (KeyError, IndexError, AttributeError) gives exactly ("Every challenge in {topic} is an opportunity in disguise.", "Anonymous"); only a TypeError escapes |
| AiService.MalformedPayloadFallback | services/ai_service.py:146-149 | a payload without `choices`, with an empty `choices` list, whose first choice lacks `message`, or whose message lacks `content` or holds a non-string one, yields exactly the topic fallback pair |
| AiService.DecideCases | services/ai_service.py:58-94 | per attempt: a 200 returns the parsed payload; a failure with attempts left retries after 2^attempt seconds for a 429 and 1 second otherwise; a failure on the last attempt raises 429, 502, 504 or 502 by kind |
| AiService.RateLimitBackoffDoubles | services/ai_service.py:64 | the pause after a 429 is one second on the first attempt and doubles with each further attempt, i.e. `2 ** attempt` |
| AiService.RetryLoop | services/ai_service.py:36-96 | the loop makes between one and the allowed number of calls; every call but the last failed and was followed by its backoff; the last call decides the result; the fall-through 502 arises only when no call is allowed |
| AiService.GenerateQuote | services/ai_service.py:27-96 | without a key (absent or empty) the result is 503 with no call made; otherwise 1–3 calls are made with one pause fewer, and the fall-through 502 never arises |
| AiService.GenerateFirstSuccess | services/ai_service.py:58-60 | the first 200 response ends the loop: its parsed payload is the result, no later call is made, and exactly the earlier failures paused |
| AiService.GenerateAllFail | services/ai_service.py:61-94 | when all three calls fail, all are made, the first two are followed by their backoffs, and the third alone decides the error |
| AiService.GenerateSleepsAtMostTwo | services/ai_service.py:61-67 | every pause lasts one or two seconds: the third 429 raises instead of pausing four seconds |
| AiService.FallThroughOnlyWithoutRetries | services/ai_service.py:96 | the fall-through 502 is the result exactly when no attempt is allowed, so with three attempts it is unreachable |
| ParserExamples.LabelledOfBody | services/ai_service.py:109-112 | the labelled-line loop depends on the reply only through its trimmed body |
| ParserExamples.UnlabelledReply | services/ai_service.py:112-121 | a reply none of whose lines, trimmed, starts with `Quote:` or `Author:` leaves quote and author unset |
| ParserExamples.UnlabelledLine | services/ai_service.py:112-121 | a reply whose trimmed body is a single line starting with neither label leaves quote and author unset |
| ParserExamples.WrappedQuoteLine | services/ai_service.py:117-119 | `Quote: "q"` (with any number of enclosing double quotes) is a quote line contributing exactly `q`, for any one-line `q` that is trimmed, does not itself start or end with a double quote, and does not contain `Quote:` |
| ParserExamples.AuthorLineOf | services/ai_service.py:120-121 | `Author: a` is an author line contributing exactly `a`, for any one-line trimmed `a` that does not contain `Author:`, such as `Anonymous` |
| ParserExamples.LabelledPair | services/ai_service.py:109-144 | the two-line reply `Quote: "q"` / `Author: a` parses to (q, a), for `q` and `a` as in the two rows above, e.g. ("Believe in yourself.", "Jane Doe") or (q, "Anonymous") |
| ParserExamples.DashedNameIgnored | services/ai_service.py:126-142 | `pre "inner" - name` parses to (inner, "Anonymous"), for one-line trimmed `pre` and `name`, `pre` starting with neither label, non-empty one-line `inner`, and no double quote in the three: a name after a dash is never adopted |
| ParserExamples.UnquotedTextTakenWhole | services/ai_service.py:135-142 | text without double quotes, on any number of lines none of which (trimmed) starts with a label, padded with whitespace, parses to the trimmed text and "Anonymous" |
| ParserExamples.EveryLabelRemoved | services/ai_service.py:119 | a quote line `Quote:p0Quote:p1…`, with any number of pieces none of which contains the label and the last not ending in whitespace, contributes the pieces run together and trimmed: every `Quote:` is removed, not only the leading one |
| ParserExamples.ReplaceLabelEach | services/ai_service.py:119 | removing `Quote:` from `Quote:p0Quote:p1…` leaves exactly `p0p1…` when no piece contains the label |
| ParserExamples.AllEnclosingQuotesStripped | services/ai_service.py:119 | `Quote: ""q""` contributes `q` (for `q` as in the WrappedQuoteLine row): all enclosing double quotes go, not one pair |
| ParserExamples.MissingContentField | services/ai_service.py:146-149 | a payload whose message lacks `content` yields the topic fallback pair |
| ParserExamples.RateLimitedThrice | services/ai_service.py:61-69 | three 429 responses pause one and then two seconds and end in the 429 error |
| QuotesRouter.IndexOf | routers/quotes.py:82 | the position of a key is -1 iff the key is absent, and otherwise its first position |
| QuotesRouter.DictSet | routers/quotes.py:31 | assigning a key makes it map to the new value and leaves every other key's value unchanged; a new key is appended at the end, and overwriting an existing key keeps the number of entries |
| QuotesRouter.IndexOfAppend | routers/quotes.py:31 | appending an entry does not move any other key |
| QuotesRouter.IndexOfUpdate | routers/quotes.py:31 | overwriting an entry under the same key moves no key |
| QuotesRouter.LookupValid | routers/quotes.py:17-18 | in a store built by creates, exactly the ids 1 to `next_id - 1` are present, each under its own id |
| QuotesRouter.CreateQuoteRecord | routers/quotes.py:21-34 | a create returns the quote with the current `next_id`, the given fields and the given time; stores it under that id; advances the counter by one; leaves every other id's record unchanged; and accepts any field lengths |
| QuotesRouter.CreateKeepsValid | routers/quotes.py:24-32 | a create keeps the store's invariant and appends exactly one entry at the end |
| QuotesRouter.CreateMany | routers/quotes.py:21-34 | successive creates return records with consecutive ids starting at the current `next_id`, carrying their own fields and times |
| QuotesRouter.CreateIdsConsecutive | routers/quotes.py:17-18 | from start-up, successive creates hand out ids 1, 2, 3, … |
| QuotesRouter.ListQuotes | routers/quotes.py:65-72 | the listing holds every stored record in insertion order, with `count` equal to the number of records |
| QuotesRouter.ListValid | routers/quotes.py:66-71 | in a store built by creates the listing is in ascending id order, holds ids 1 to `next_id - 1`, and each listed record is the one stored under its id |
| QuotesRouter.CreateManyListing | routers/quotes.py:31 | a batch of creates appends exactly the new records, in order, to the listing |
| QuotesRouter.GetQuote | routers/quotes.py:81-93 | getting fails with 404 "Quote with ID {id} not found" iff the id is absent, and otherwise returns the stored record |
| QuotesRouter.GetAfterCreate | routers/quotes.py:81-93 | after a create, getting the new id returns the created record and every other id answers as before |
| QuotesRouter.GetValid | routers/quotes.py:82-86 | in a store built by creates, getting fails exactly for ids never handed out |
| QuotesRouter.CreateQuote | routers/quotes.py:44-56 | the create endpoint always succeeds with the created record; its 500 handler is unreachable |
| QuotesRouter.GenerateEndpoint | routers/quotes.py:103-125 | a generator HTTP error passes through with its status; an escaping exception or a pair that fails `QuoteCreate` validation gives 500; the endpoint succeeds iff the pair is generated and valid, and then stores exactly that record; on any error the store is unchanged |
| QuotesRouter.GenerateEndpointWithoutKey | routers/quotes.py:103-120 | without an API key the endpoint answers 503, makes no provider call and leaves the store unchanged |
| QuotesRouter.GeneratedPairRejectedOnlyWhenTooLong | routers/quotes.py:106-110 | a generated pair can fail validation only by being too long, since the parser never returns an empty field |
| QuotesRouter.GenerateEndpointKeepsValid | routers/quotes.py:103-125 | the generate endpoint keeps the store's invariant, and either appends exactly one record under the old `next_id` or changes nothing |
| QuotesRouter.HealthCheck | routers/quotes.py:134-139 | health reports the number of stored records and whether a non-empty API key is configured |
| QuotesRouter.HealthCountsCreates | routers/quotes.py:138 | in a store built by creates the count is `next_id - 1`, and a create raises it by one |

## Left out

- The HTTP transport is not modelled: the httpx client, headers, request body, the 30-second timeout and the `temperature`/`max_tokens`/model constants. Each call is an input outcome: a status with its decoded body, a timeout, or another request error.
- AiService.GenerateQuote, QuotesRouter.GenerateEndpoint and the lemmas about them require at least three outcomes, one for every call the loop may make. Outcomes the loop never reaches are ignored, so this restricts nothing the source allows.
- Decoding failures of `response.json()` are not modelled. A 200 response carries an already decoded JSON value.
- `asyncio.sleep` is recorded as a delay, not performed. `datetime.utcnow()` is a parameter of record creation, as a number of microseconds.
- Logging, `load_dotenv`/`os.getenv` and the module-level service singleton are environment plumbing. The API key is a parameter.
- main.py is not part of this model: app setup, CORS, lifespan logging and the root and health routes of the app.
- Framework behaviour is not modelled: FastAPI route matching (`/{quote_id}` is declared before `/health`), request-body validation that answers 422, and the pydantic response envelopes beyond their fields.
- Concurrent requests on the global store are out of scope. The model is a single sequential writer.
- Every JSON number is modelled as an integer. The parser only distinguishes numbers from strings and containers.
- PyStr.Split and PyStr.Replace require a non-empty separator or pattern. The source only uses non-empty ones, and Python's empty-pattern `replace` and the `ValueError` of an empty `split` separator are not modelled.
- Strings are sequences of code points. No encoding or normalisation is modelled.
- QuotesRouter.GenerateEndpoint: the 500 detail is "Failed to generate quote: " without the `str(e)` suffix, because exception messages are not modelled.
- QuotesRouter.CreateQuote: the 500 handler of the create endpoint is not modelled as reachable, because building a record cannot fail in a single-writer model. Its detail "Failed to create quote: {e}" therefore does not appear.
- AiService.GenerateQuote: a TypeError escaping the parser is reported as an unhandled exception rather than a status. The router turns it into a 500 (QuotesRouter.GenerateEndpoint).
