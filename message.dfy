/** Field extraction from a decoded message payload (the first half of `on_message`). */
module Message {
  import opened Rows

  /** The JSON values this model distinguishes: an integer, or an array of integers. */
  datatype JsonValue = JInt(n: int) | JList(items: seq<int>)

  /** The result of `json.loads(payload.decode('utf-8'))`: a decode failure, a JSON
      value that is not an object, or an object. */
  datatype Payload = Undecodable | NotAnObject | Object(fields: map<string, JsonValue>)

  /** The failure raised while reading a payload, before the store is opened.
      - BadJson: decoding failed (JSONDecodeError or a UTF-8 error)
      - NotSubscriptable: `data["ts"]` on a decoded value that is not an object
      - MissingKey: KeyError for the first absent key
      - NotIterable: `data` is not an array, so it cannot be unpacked
      - WrongCount: `data` is an array whose length is not eight */
  datatype Failure =
    | BadJson
    | NotSubscriptable
    | MissingKey(key: string)
    | NotIterable
    | WrongCount(count: nat)

  datatype Result<T, E> = Ok(value: T) | Err(error: E)

  /** What survives extraction: the `ts` and `id` entries as decoded, and the eight
      unpacked values. */
  datatype Reading = Reading(ts: JsonValue, id: JsonValue, values: seq<int>)

  /** The validation rule: an object holding `ts`, `id` and a `data` array of exactly
      eight values. */
  predicate WellFormed(p: Payload) {
    p.Object? && "ts" in p.fields && "id" in p.fields && "data" in p.fields
    && p.fields["data"].JList? && |p.fields["data"].items| == ValueCount
  }

  /** Reads `ts`, then `id`, then `data`, then unpacks `data` into eight values,
      stopping at the first step that raises. */
  function Extract(p: Payload): (r: Result<Reading, Failure>)
    ensures r.Ok? <==> WellFormed(p)
    ensures r.Ok? ==> r.value == Reading(p.fields["ts"], p.fields["id"], p.fields["data"].items)
                      && |r.value.values| == ValueCount
    ensures r == Err(BadJson) <==> p.Undecodable?
    ensures r == Err(NotSubscriptable) <==> p.NotAnObject?
    ensures r.Err? && r.error.MissingKey? ==>
              p.Object? && r.error.key !in p.fields &&
              (r.error.key == "ts" ||
               ("ts" in p.fields && (r.error.key == "id" ||
                ("id" in p.fields && r.error.key == "data"))))
    ensures r.Err? && (r.error.NotIterable? || r.error.WrongCount?) ==>
              p.Object? && "ts" in p.fields && "id" in p.fields && "data" in p.fields
    ensures r == Err(NotIterable) ==> p.fields["data"].JInt?
    ensures r.Err? && r.error.WrongCount? ==>
              p.fields["data"].JList? &&
              r.error.count == |p.fields["data"].items| != ValueCount
  {
    match p
    case Undecodable => Err(BadJson)
    case NotAnObject => Err(NotSubscriptable)
    case Object(fields) =>
      if "ts" !in fields then Err(MissingKey("ts"))
      else if "id" !in fields then Err(MissingKey("id"))
      else if "data" !in fields then Err(MissingKey("data"))
      else
        match fields["data"]
        case JInt(_) => Err(NotIterable)
        case JList(items) =>
          if |items| != ValueCount then Err(WrongCount(|items|))
          else Ok(Reading(fields["ts"], fields["id"], items))
  }
}
