/**
 The request and record shapes of the quote API and the length constraints its
 request models put on their fields.
 */
module QuoteSchema {
  import opened Results

  const MinFieldLength: nat := 1
  const MaxAuthorLength: nat := 255
  const MaxContentLength: nat := 2000
  const MaxTopicLength: nat := 255

  /** `datetime.utcnow()` at the moment a record is built; the clock is an input. */
  datatype Timestamp = Timestamp(microseconds: int)

  /** The fields a caller supplies to create a quote. A value of this type is not
      necessarily valid: `QuoteCreateValid` states the model's constraints. */
  datatype QuoteCreate = QuoteCreate(author: string, content: string)

  /** A stored quote. Its fields carry no constraint of their own. */
  datatype Quote = Quote(id: int, author: string, content: string, createdAt: Timestamp)

  /** The body of a generation request. */
  datatype GenerateQuoteRequest = GenerateQuoteRequest(topic: string)

  /** One violated field constraint, as the validator reports it. */
  datatype FieldError =
    | TooShort(field: string, minLength: nat)
    | TooLong(field: string, maxLength: nat)

  /** The errors a `min_length`/`max_length` field constraint reports for a value. */
  function CheckLength(field: string, value: string, minLength: nat, maxLength: nat): (r: seq<FieldError>)
    ensures r == [] <==> minLength <= |value| <= maxLength
    ensures |r| <= 1
    ensures forall k | 0 <= k < |r| :: r[k].field == field
    ensures |value| < minLength ==> r == [TooShort(field, minLength)]
    ensures |value| > maxLength && minLength <= maxLength ==> r == [TooLong(field, maxLength)]
  {
    if |value| < minLength then [TooShort(field, minLength)]
    else if |value| > maxLength then [TooLong(field, maxLength)]
    else []
  }

  predicate AuthorValid(author: string) {
    MinFieldLength <= |author| <= MaxAuthorLength
  }

  predicate ContentValid(content: string) {
    MinFieldLength <= |content| <= MaxContentLength
  }

  predicate TopicValid(topic: string) {
    MinFieldLength <= |topic| <= MaxTopicLength
  }

  predicate QuoteCreateValid(q: QuoteCreate) {
    AuthorValid(q.author) && ContentValid(q.content)
  }

  /** Mentions(errs, f): some error in `errs` is about field `f`. */
  predicate Mentions(errs: seq<FieldError>, f: string) {
    exists k | 0 <= k < |errs| :: errs[k].field == f
  }

  /** `QuoteCreate(author=..., content=...)`: builds the model or reports every
      violated field, author first, in declaration order. */
  function ValidateQuoteCreate(author: string, content: string): (r: Result<QuoteCreate, seq<FieldError>>)
    ensures r.Ok? <==> 1 <= |author| <= 255 && 1 <= |content| <= 2000
    ensures r.Ok? ==> r.value == QuoteCreate(author, content) && QuoteCreateValid(r.value)
    ensures r.Err? ==> |r.error| > 0
    ensures r.Err? ==> (Mentions(r.error, "author") <==> !(1 <= |author| <= 255))
    ensures r.Err? ==> (Mentions(r.error, "content") <==> !(1 <= |content| <= 2000))
  {
    var byAuthor := CheckLength("author", author, MinFieldLength, MaxAuthorLength);
    var byContent := CheckLength("content", content, MinFieldLength, MaxContentLength);
    var errs := byAuthor + byContent;
    if errs == [] then Ok(QuoteCreate(author, content))
    else
      assert byAuthor != [] ==> errs[0] == byAuthor[0];
      assert byContent != [] ==> errs[|byAuthor|] == byContent[0];
      assert forall k | 0 <= k < |errs| :: errs[k] in byAuthor || errs[k] in byContent;
      Err(errs)
  }

  /** `GenerateQuoteRequest(topic=...)`: builds the model or reports the topic. */
  function ValidateGenerateRequest(topic: string): (r: Result<GenerateQuoteRequest, seq<FieldError>>)
    ensures r.Ok? <==> 1 <= |topic| <= 255
    ensures r.Ok? ==> r.value == GenerateQuoteRequest(topic)
    ensures r.Err? ==> r.error == (if |topic| < 1 then [TooShort("topic", 1)] else [TooLong("topic", 255)])
  {
    var errs := CheckLength("topic", topic, MinFieldLength, MaxTopicLength);
    if errs == [] then Ok(GenerateQuoteRequest(topic)) else Err(errs)
  }
}
