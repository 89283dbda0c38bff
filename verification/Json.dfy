/**
 A decoded JSON value, as `response.json()` hands it to the parser, and the
 Python subscripting that `data["choices"][0]["message"]["content"].strip()`
 performs on it, including which exception each missing piece raises.
 */
module Json {
  import opened Results

  /** A JSON value. Every number is represented by an integer: the parser only
      cares that a number is neither a container nor a string. */
  datatype Json =
    | JObject(fields: map<string, Json>)
    | JArray(items: seq<Json>)
    | JString(text: string)
    | JNumber(n: int)
    | JBool(b: bool)
    | JNull

  /** The Python exceptions a subscript or attribute lookup can raise here. */
  datatype PyException = KeyError | IndexError | TypeError | AttributeError

  /** `v[key]` for a string key: a dict lookup; lists, strings and scalars
      reject a string index with a `TypeError`. */
  function GetKey(v: Json, key: string): (r: Result<Json, PyException>)
    ensures r.Ok? <==> v.JObject? && key in v.fields
    ensures r.Ok? ==> r.value == v.fields[key]
    ensures r.Err? ==> r.error == (if v.JObject? then KeyError else TypeError)
  {
    match v
    case JObject(fields) => if key in fields then Ok(fields[key]) else Err(KeyError)
    case _ => Err(TypeError)
  }

  /** `v[0]`: the first list item or the first character of a string. A dict
      decoded from JSON has only string keys, so the integer key is missing. */
  function GetFirst(v: Json): (r: Result<Json, PyException>)
    ensures r.Ok? <==> (v.JArray? && |v.items| > 0) || (v.JString? && |v.text| > 0)
    ensures r.Ok? && v.JArray? ==> r.value == v.items[0]
    ensures r.Ok? && v.JString? ==> r.value == JString([v.text[0]])
    ensures r.Err? ==> r.error == (if v.JObject? then KeyError
                                   else if v.JArray? || v.JString? then IndexError
                                   else TypeError)
  {
    match v
    case JObject(_) => Err(KeyError)
    case JArray(items) => if |items| > 0 then Ok(items[0]) else Err(IndexError)
    case JString(text) => if |text| > 0 then Ok(JString([text[0]])) else Err(IndexError)
    case _ => Err(TypeError)
  }

  /** `v.strip` exists only on strings; any other value raises `AttributeError`. */
  function AsString(v: Json): (r: Result<string, PyException>)
    ensures r.Ok? <==> v.JString?
    ensures r.Ok? ==> r.value == v.text
    ensures r.Err? ==> r.error == AttributeError
  {
    if v.JString? then Ok(v.text) else Err(AttributeError)
  }

  /** The message text of a chat-completion payload,
      `data["choices"][0]["message"]["content"]`, or the first exception raised
      while looking it up. */
  function MessageContent(data: Json): (r: Result<string, PyException>)
    ensures r.Ok? <==>
      && data.JObject? && "choices" in data.fields
      && data.fields["choices"].JArray? && |data.fields["choices"].items| > 0
      && data.fields["choices"].items[0].JObject?
      && "message" in data.fields["choices"].items[0].fields
      && var m := data.fields["choices"].items[0].fields["message"];
         m.JObject? && "content" in m.fields && m.fields["content"].JString?
    ensures r.Ok? ==>
      r.value == data.fields["choices"].items[0].fields["message"].fields["content"].text
    ensures !data.JObject? ==> r == Err(TypeError)
    ensures data.JObject? && "choices" !in data.fields ==> r == Err(KeyError)
    ensures data.JObject? && "choices" in data.fields && data.fields["choices"] == JArray([]) ==>
      r == Err(IndexError)
    ensures (&& data.JObject? && "choices" in data.fields && data.fields["choices"].JArray?
             && |data.fields["choices"].items| > 0 && data.fields["choices"].items[0].JObject?) ==>
      var first := data.fields["choices"].items[0];
      && ("message" !in first.fields ==> r == Err(KeyError))
      && ("message" in first.fields && first.fields["message"].JObject? ==>
            var message := first.fields["message"];
            && ("content" !in message.fields ==> r == Err(KeyError))
            && ("content" in message.fields && !message.fields["content"].JString? ==>
                  r == Err(AttributeError)))
  {
    match GetKey(data, "choices")
    case Err(e) => Err(e)
    case Ok(choices) =>
      match GetFirst(choices)
      case Err(e) => Err(e)
      case Ok(first) =>
        match GetKey(first, "message")
        case Err(e) => Err(e)
        case Ok(message) =>
          match GetKey(message, "content")
          case Err(e) => Err(e)
          case Ok(content) => AsString(content)
  }

  /** The payload shapes that lack the message text by a missing field, an
      empty `choices` list or a non-string `content`, rather than by a value of
      the wrong type along the way. */
  predicate MissingMessageText(data: Json) {
    && data.JObject?
    && ("choices" !in data.fields
        || (var choices := data.fields["choices"];
            || choices == JArray([])
            || (&& choices.JArray? && |choices.items| > 0 && choices.items[0].JObject?
                && var first := choices.items[0];
                   || "message" !in first.fields
                   || (var message := first.fields["message"];
                       && message.JObject?
                       && ("content" !in message.fields || !message.fields["content"].JString?)))))
  }

  /** Each such shape raises `KeyError`, `IndexError` or `AttributeError`,
      never `TypeError`. */
  lemma MissingMessageTextRaises(data: Json)
    requires MissingMessageText(data)
    ensures MessageContent(data).Err? && MessageContent(data).error != TypeError
  {
  }

  /** The well-formed payload the provider returns on success. */
  function ChatCompletion(text: string): Json {
    JObject(map["choices" := JArray([JObject(map["message" := JObject(map["content" := JString(text)])])])])
  }

  /** Extracting the message text from a well-formed payload gives back the text. */
  lemma ChatCompletionContent(text: string)
    ensures MessageContent(ChatCompletion(text)) == Ok(text)
  {
  }
}
