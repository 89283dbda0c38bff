/**
 The quotes router: the in-memory store (`quotes_db` with its `next_id`
 counter), record creation, listing, lookup, the health report, and the
 generate endpoint that chains the generator, the `QuoteCreate` validator and
 the store. The store is a value threaded through every operation; the clock,
 the API key and the provider's outcomes are inputs.
 */
module QuotesRouter {
  import opened Results
  import opened PyStr
  import opened QuoteSchema
  import opened AiService

  /** One key/value pair of the quotes dictionary. */
  datatype Entry = Entry(key: int, value: Quote)

  /** The dictionary's entries in insertion order, and the next id to hand out. */
  datatype Store = Store(entries: seq<Entry>, nextId: int)

  /** The state at start-up: an empty dictionary and `next_id = 1`. */
  const InitialStore: Store := Store([], 1)

  /** The position of `key` among the entries, or -1 when absent. */
  function IndexOf(entries: seq<Entry>, key: int): (r: int)
    ensures -1 <= r < |entries|
    ensures r == -1 <==> forall i | 0 <= i < |entries| :: entries[i].key != key
    ensures r >= 0 ==> entries[r].key == key && forall i | 0 <= i < r :: entries[i].key != key
  {
    if |entries| == 0 then -1
    else if entries[0].key == key then 0
    else var k := IndexOf(entries[1..], key); if k == -1 then -1 else k + 1
  }

  /** `quotes_db.get(key)`. */
  function Lookup(entries: seq<Entry>, key: int): Option<Quote> {
    var i := IndexOf(entries, key);
    if i == -1 then None else Some(entries[i].value)
  }

  /** `quotes_db[key] = value`: an existing key keeps its place and gets the new
      value; a new key is appended. */
  function DictSet(entries: seq<Entry>, key: int, value: Quote): (r: seq<Entry>)
    ensures Lookup(r, key) == Some(value)
    ensures forall k | k != key :: Lookup(r, k) == Lookup(entries, k)
    ensures IndexOf(entries, key) == -1 ==> r == entries + [Entry(key, value)]
    ensures IndexOf(entries, key) != -1 ==> |r| == |entries|
  {
    var i := IndexOf(entries, key);
    if i == -1 then
      var r := entries + [Entry(key, value)];
      assert r[|entries|].key == key;
      assert IndexOf(r, key) == |entries|;
      assert forall k | k != key :: IndexOf(r, k) == IndexOf(entries, k) by {
        forall k | k != key ensures IndexOf(r, k) == IndexOf(entries, k) {
          IndexOfAppend(entries, Entry(key, value), k);
        }
      }
      r
    else
      var r := entries[i := Entry(key, value)];
      assert IndexOf(r, key) == i by { IndexOfUpdate(entries, i, Entry(key, value), key); }
      assert forall k | k != key :: IndexOf(r, k) == IndexOf(entries, k) by {
        forall k | k != key ensures IndexOf(r, k) == IndexOf(entries, k) {
          IndexOfUpdate(entries, i, Entry(key, value), k);
        }
      }
      r
  }

  /** Appending an entry with another key does not move any key. */
  lemma {:induction false} IndexOfAppend(entries: seq<Entry>, e: Entry, k: int)
    requires k != e.key
    ensures IndexOf(entries + [e], k) == IndexOf(entries, k)
  {
    if |entries| > 0 {
      assert (entries + [e])[1..] == entries[1..] + [e];
      IndexOfAppend(entries[1..], e, k);
    }
  }

  /** Overwriting entry `i` with the same key keeps every key's position. */
  lemma {:induction false} IndexOfUpdate(entries: seq<Entry>, i: nat, e: Entry, k: int)
    requires i < |entries| && entries[i].key == e.key
    ensures IndexOf(entries[i := e], k) == IndexOf(entries, k)
  {
    if i > 0 {
      assert entries[i := e][1..] == entries[1..][i - 1 := e];
      IndexOfUpdate(entries[1..], i - 1, e, k);
    }
  }

  /** The store's invariant: the entries hold ids 1 to `nextId - 1` in insertion
      order, each under its own id. */
  ghost predicate Valid(s: Store) {
    && s.nextId == |s.entries| + 1
    && forall i | 0 <= i < |s.entries| :: s.entries[i].key == i + 1 && s.entries[i].value.id == i + 1
  }

  /** Under the invariant, exactly the ids 1 to `nextId - 1` are stored, each at
      position `id - 1`. */
  lemma LookupValid(s: Store, id: int)
    requires Valid(s)
    ensures Lookup(s.entries, id).Some? <==> 1 <= id < s.nextId
    ensures 1 <= id < s.nextId ==> Lookup(s.entries, id) == Some(s.entries[id - 1].value)
    ensures Lookup(s.entries, id).Some? ==> Lookup(s.entries, id).value.id == id
  {
    if 1 <= id < s.nextId {
      assert s.entries[id - 1].key == id;
    }
  }

  /** `create_quote_record`: store a quote under the current `next_id` and
      advance the counter. The fields are taken as given, without any length
      check; every other key keeps its record. */
  function CreateQuoteRecord(s: Store, data: QuoteCreate, now: Timestamp): (r: (Store, Quote))
    ensures r.1 == Quote(s.nextId, data.author, data.content, now)
    ensures r.0.nextId == s.nextId + 1
    ensures Lookup(r.0.entries, s.nextId) == Some(r.1)
    ensures forall k | k != s.nextId :: Lookup(r.0.entries, k) == Lookup(s.entries, k)
  {
    var quote := Quote(s.nextId, data.author, data.content, now);
    (Store(DictSet(s.entries, s.nextId, quote), s.nextId + 1), quote)
  }

  /** Creating keeps the invariant, and under it the new record is appended at
      the end: one more entry, the older ones untouched. */
  lemma CreateKeepsValid(s: Store, data: QuoteCreate, now: Timestamp)
    requires Valid(s)
    ensures var (s', q) := CreateQuoteRecord(s, data, now);
      && Valid(s')
      && s'.entries == s.entries + [Entry(q.id, q)]
      && |s'.entries| == |s.entries| + 1
  {
    assert IndexOf(s.entries, s.nextId) == -1;
  }

  /** Creating several records in a row, in order. */
  function CreateMany(s: Store, batch: seq<(QuoteCreate, Timestamp)>): (r: (Store, seq<Quote>))
    ensures |r.1| == |batch|
    ensures r.0.nextId == s.nextId + |batch|
    ensures forall i | 0 <= i < |batch| ::
      r.1[i] == Quote(s.nextId + i, batch[i].0.author, batch[i].0.content, batch[i].1)
    decreases |batch|
  {
    if |batch| == 0 then (s, [])
    else
      var (s1, q) := CreateQuoteRecord(s, batch[0].0, batch[0].1);
      var (s2, qs) := CreateMany(s1, batch[1..]);
      (s2, [q] + qs)
  }

  /** From the start-up state, successive creates hand out ids 1, 2, 3, ... */
  lemma CreateIdsConsecutive(batch: seq<(QuoteCreate, Timestamp)>)
    ensures var (_, qs) := CreateMany(InitialStore, batch);
      forall i | 0 <= i < |qs| :: qs[i].id == i + 1
  {
  }

  /** The listing response. */
  datatype QuoteListResponse = QuoteListResponse(success: bool, data: seq<Quote>, message: string, count: int)

  /** `list_quotes`: every stored record in insertion order and their number. */
  function ListQuotes(s: Store): (r: QuoteListResponse)
    ensures r.success && r.message == "Quotes retrieved successfully"
    ensures |r.data| == |s.entries| && r.count == |r.data|
    ensures forall i | 0 <= i < |r.data| :: r.data[i] == s.entries[i].value
  {
    var quotes := seq(|s.entries|, i requires 0 <= i < |s.entries| => s.entries[i].value);
    QuoteListResponse(true, quotes, "Quotes retrieved successfully", |quotes|)
  }

  /** Under the invariant the listing is in ascending id order, holds ids 1 to
      `nextId - 1`, and each listed record is the one stored under its id. */
  lemma ListValid(s: Store)
    requires Valid(s)
    ensures var r := ListQuotes(s);
      && r.count == s.nextId - 1
      && (forall i | 0 <= i < |r.data| :: r.data[i].id == i + 1)
      && (forall i, j | 0 <= i < j < |r.data| :: r.data[i].id < r.data[j].id)
      && (forall i | 0 <= i < |r.data| :: Lookup(s.entries, r.data[i].id) == Some(r.data[i]))
  {
    var r := ListQuotes(s);
    forall i | 0 <= i < |r.data| ensures Lookup(s.entries, r.data[i].id) == Some(r.data[i]) {
      LookupValid(s, i + 1);
    }
  }

  /** Creating a batch from a valid store keeps it valid and appends exactly the
      new records, in order, to the listing. */
  lemma {:induction false} CreateManyListing(s: Store, batch: seq<(QuoteCreate, Timestamp)>)
    requires Valid(s)
    ensures var (s', qs) := CreateMany(s, batch);
      Valid(s') && ListQuotes(s').data == ListQuotes(s).data + qs
    decreases |batch|
  {
    if |batch| > 0 {
      var (s1, q) := CreateQuoteRecord(s, batch[0].0, batch[0].1);
      CreateKeepsValid(s, batch[0].0, batch[0].1);
      assert ListQuotes(s1).data == ListQuotes(s).data + [q];
      CreateManyListing(s1, batch[1..]);
    }
  }

  /** The single-record response. */
  datatype QuoteResponse = QuoteResponse(success: bool, data: Quote, message: string)

  function NotFound(id: int): HttpError {
    HttpError(404, "Quote with ID " + IntToDecimal(id) + " not found")
  }

  /** `get_quote`: the record stored under `id`, or 404. */
  function GetQuote(s: Store, id: int): (r: Result<QuoteResponse, HttpError>)
    ensures r.Err? <==> Lookup(s.entries, id).None?
    ensures r.Err? ==> r.error == NotFound(id)
    ensures r.Ok? ==> r.value == QuoteResponse(true, Lookup(s.entries, id).value, "Quote retrieved successfully")
  {
    match Lookup(s.entries, id)
    case None => Err(NotFound(id))
    case Some(q) => Ok(QuoteResponse(true, q, "Quote retrieved successfully"))
  }

  /** After a create, getting the new id returns the record create returned,
      and every other id answers as before. */
  lemma GetAfterCreate(s: Store, data: QuoteCreate, now: Timestamp, id: int)
    ensures var (s', q) := CreateQuoteRecord(s, data, now);
      && GetQuote(s', q.id) == Ok(QuoteResponse(true, q, "Quote retrieved successfully"))
      && (id != q.id ==> GetQuote(s', id) == GetQuote(s, id))
  {
  }

  /** Under the invariant, getting fails with 404 exactly for ids never handed out. */
  lemma GetValid(s: Store, id: int)
    requires Valid(s)
    ensures GetQuote(s, id).Err? <==> !(1 <= id < s.nextId)
    ensures GetQuote(s, id).Ok? ==> GetQuote(s, id).value.data.id == id
  {
    LookupValid(s, id);
  }

  /** `create_quote`: the endpoint for caller-supplied quotes. Building the
      record cannot fail, so the 500 handler is never reached. */
  function CreateQuote(s: Store, data: QuoteCreate, now: Timestamp): (r: (Store, Result<QuoteResponse, HttpError>))
    ensures r.1.Ok?
    ensures r.0 == CreateQuoteRecord(s, data, now).0
    ensures r.1.value == QuoteResponse(true, CreateQuoteRecord(s, data, now).1, "Quote created successfully")
  {
    var (s', q) := CreateQuoteRecord(s, data, now);
    (s', Ok(QuoteResponse(true, q, "Quote created successfully")))
  }

  /** The 500 raised for an exception that is not an `HTTPException`. */
  const GenerateFailed: HttpError := HttpError(500, "Failed to generate quote: ")

  /** `generate_quote` (the endpoint): generate a pair, validate it as a
      `QuoteCreate`, store it. Errors from the generator pass through with their
      status; any other failure becomes 500; in both cases nothing is stored. */
  function GenerateEndpoint(s: Store, apiKey: Option<string>, request: GenerateQuoteRequest,
                            outcomes: seq<Attempt>, now: Timestamp): (r: (Store, Result<QuoteResponse, HttpError>))
    requires |outcomes| >= MaxRetries
    ensures var g := GenerateQuote(apiKey, request.topic, outcomes).result;
      && (r.1.Err? ==> r.0 == s)
      && (g.Err? && g.error.Http? ==> r.1 == Err(g.error.http))
      && (g.Err? && g.error.Unhandled? ==> r.1 == Err(GenerateFailed))
      && (g.Ok? && !QuoteCreateValid(QuoteCreate(g.value.author, g.value.content)) ==> r.1 == Err(GenerateFailed))
      && (r.1.Ok? <==> g.Ok? && QuoteCreateValid(QuoteCreate(g.value.author, g.value.content)))
      && (r.1.Ok? ==>
            var (s', q) := CreateQuoteRecord(s, QuoteCreate(g.value.author, g.value.content), now);
            r.0 == s' && r.1.value.data == q
            && r.1.value.message == "Quote generated successfully for topic '" + request.topic + "'")
  {
    var g := GenerateQuote(apiKey, request.topic, outcomes);
    match g.result
    case Err(Http(e)) => (s, Err(e))
    case Err(Unhandled(_)) => (s, Err(GenerateFailed))
    case Ok(pair) =>
      match ValidateQuoteCreate(pair.author, pair.content)
      case Err(_) => (s, Err(GenerateFailed))
      case Ok(data) =>
        var (s', q) := CreateQuoteRecord(s, data, now);
        (s', Ok(QuoteResponse(true, q, "Quote generated successfully for topic '" + request.topic + "'")))
  }

  /** Without an API key the endpoint answers 503 without calling the provider
      or touching the store. */
  lemma GenerateEndpointWithoutKey(s: Store, apiKey: Option<string>, request: GenerateQuoteRequest,
                                   outcomes: seq<Attempt>, now: Timestamp)
    requires |outcomes| >= MaxRetries && !Configured(apiKey)
    ensures GenerateEndpoint(s, apiKey, request, outcomes, now) == (s, Err(NotConfigured))
    ensures GenerateQuote(apiKey, request.topic, outcomes).attempts == 0
  {
  }

  /** A generated pair is never rejected for being empty: the parser always
      fills both fields, so validation fails only on an over-long author or
      content. */
  lemma GeneratedPairRejectedOnlyWhenTooLong(apiKey: Option<string>, topic: string, outcomes: seq<Attempt>)
    requires |outcomes| >= MaxRetries
    ensures var g := GenerateQuote(apiKey, topic, outcomes).result;
      g.Ok? && !QuoteCreateValid(QuoteCreate(g.value.author, g.value.content)) ==>
        |g.value.author| > MaxAuthorLength || |g.value.content| > MaxContentLength
  {
    var gen := GenerateQuote(apiKey, topic, outcomes);
    if gen.result.Ok? && Configured(apiKey) {
      var last := outcomes[gen.attempts - 1];
      assert IsSuccess(last);
      assert gen.result == Parsed(last.payload, topic);
    }
  }

  /** The generate endpoint keeps the store's invariant, and it either stores
      exactly one new record or changes nothing. */
  lemma GenerateEndpointKeepsValid(s: Store, apiKey: Option<string>, request: GenerateQuoteRequest,
                                   outcomes: seq<Attempt>, now: Timestamp)
    requires |outcomes| >= MaxRetries && Valid(s)
    ensures var (s', r) := GenerateEndpoint(s, apiKey, request, outcomes, now);
      && Valid(s')
      && (r.Ok? ==> s'.entries == s.entries + [Entry(r.value.data.id, r.value.data)] && r.value.data.id == s.nextId)
      && (r.Err? ==> s' == s)
  {
    var g := GenerateQuote(apiKey, request.topic, outcomes).result;
    if g.Ok? {
      CreateKeepsValid(s, QuoteCreate(g.value.author, g.value.content), now);
    }
  }

  /** The health response of the quotes router. */
  datatype HealthReport = HealthReport(status: string, service: string, totalQuotes: int, aiServiceAvailable: bool)

  /** `health_check`: the number of stored records and whether a key is configured. */
  function HealthCheck(s: Store, apiKey: Option<string>): (r: HealthReport)
    ensures r.status == "healthy" && r.service == "quotes"
    ensures r.totalQuotes == |ListQuotes(s).data|
    ensures r.aiServiceAvailable <==> apiKey.Some? && apiKey.value != []
  {
    HealthReport("healthy", "quotes", |s.entries|, Configured(apiKey))
  }

  /** Under the invariant the health count is `nextId - 1`, and a create raises
      it by one. */
  lemma HealthCountsCreates(s: Store, apiKey: Option<string>, data: QuoteCreate, now: Timestamp)
    requires Valid(s)
    ensures HealthCheck(s, apiKey).totalQuotes == s.nextId - 1
    ensures HealthCheck(CreateQuoteRecord(s, data, now).0, apiKey).totalQuotes ==
      HealthCheck(s, apiKey).totalQuotes + 1
  {
    CreateKeepsValid(s, data, now);
  }
}
