/**
 * The response validation of `analyze_image`: an untrusted parsed response
 * becomes a record whose `human_count` is an integer and whose `confidence`
 * lies in [0, 1]; every failure becomes the fixed degraded record instead of
 * an exception.
 */
module LlavaValidation {
  import opened Wrappers

  /** A JSON value as `json.loads` returns it. */
  datatype Json =
    | JNull
    | JBool(b: bool)
    | JInt(i: int)
    | JFloat(r: real)
    | JString(s: string)
    | JArray(items: seq<Json>)
    | JObject(fields: map<string, Json>)

  /** A JSON object: what is dumped to `<stem>.json`. */
  type Record = map<string, Json>

  /**
   * What one call to the backend ends in, before validation: the value parsed
   * from the reply's "response" text, or the message `str(e)` of the exception
   * raised on the way (unreadable image, network failure, timeout, invalid JSON).
   */
  datatype Response = Parsed(value: Json) | Raised(message: string)

  /** Python's `int(x)` and `float(x)` on a JSON value, either of which may raise. */
  datatype Coercion = Coercion(toInt: Json -> Result<int>, toFloat: Json -> Result<real>)

  const HumanCountKey := "human_count"
  const ConfidenceKey := "confidence"
  const ErrorKey := "error"
  const PedestriansKey := "pedestrians"
  const RejectedItemsKey := "rejected_items"

  const InvalidFormat := "Invalid response format"

  /** The record returned in place of an exception with message `message`. */
  function Degraded(message: string): (r: Record)
    ensures r.Keys == {HumanCountKey, ConfidenceKey, ErrorKey, PedestriansKey, RejectedItemsKey}
    ensures r[HumanCountKey] == JInt(0) && r[ConfidenceKey] == JFloat(0.0)
    ensures r[ErrorKey] == JString(message)
    ensures r[PedestriansKey] == JArray([]) && r[RejectedItemsKey] == JArray([])
  {
    map[HumanCountKey := JInt(0), ConfidenceKey := JFloat(0.0), ErrorKey := JString(message),
        PedestriansKey := JArray([]), RejectedItemsKey := JArray([])]
  }

  /** `max(0.0, min(1.0, x))` */
  function Clamp(x: real): (y: real)
    ensures 0.0 <= y <= 1.0
    ensures 0.0 <= x <= 1.0 ==> y == x
    ensures x < 0.0 ==> y == 0.0
    ensures x > 1.0 ==> y == 1.0
  {
    var low := if 1.0 < x then 1.0 else x;
    if 0.0 < low then low else 0.0
  }

  /** `result.get(key, default)` followed by a coercion that may raise. */
  function CoerceField<T>(m: map<string, Json>, key: string, coerce: Json -> Result<T>, default: T): Result<T>
  {
    if key in m then coerce(m[key]) else Success(default)
  }

  /**
   * `analyze_image` from the parsed response on: it never raises. A failed
   * call or a non-object reply gives the degraded record; otherwise
   * `human_count` is replaced by its integer coercion (default 0) and
   * `confidence` by its clamped float coercion (default 0.0), and a coercion
   * that raises gives the degraded record with the coercion's message.
   */
  function AnalyzeImage(response: Response, coercion: Coercion): (r: Record)
    ensures HumanCountKey in r && r[HumanCountKey].JInt?
    ensures ConfidenceKey in r && r[ConfidenceKey].JFloat? && 0.0 <= r[ConfidenceKey].r <= 1.0
  {
    match response
    case Raised(message) => Degraded(message)
    case Parsed(value) =>
      if !value.JObject? then Degraded(InvalidFormat)
      else
        var m := value.fields;
        match CoerceField(m, HumanCountKey, coercion.toInt, 0)
        case Failure(e) => Degraded(e)
        case Success(count) =>
          match CoerceField(m, ConfidenceKey, coercion.toFloat, 0.0)
          case Failure(e) => Degraded(e)
          case Success(c) => m[HumanCountKey := JInt(count)][ConfidenceKey := JFloat(Clamp(c))]
  }

  /** A record is well formed when its count is an integer and its confidence lies in [0, 1]. */
  predicate WellFormed(r: Record)
  {
    && HumanCountKey in r && r[HumanCountKey].JInt?
    && ConfidenceKey in r && r[ConfidenceKey].JFloat? && 0.0 <= r[ConfidenceKey].r <= 1.0
  }

  /** Every failure, whatever its cause, yields the degraded record carrying the failure's message. */
  lemma FailuresDegrade(response: Response, coercion: Coercion)
    ensures response.Raised? ==> AnalyzeImage(response, coercion) == Degraded(response.message)
    ensures response.Parsed? && !response.value.JObject? ==> AnalyzeImage(response, coercion) == Degraded(InvalidFormat)
    ensures response.Parsed? && response.value.JObject? ==>
      var m := response.value.fields;
      && (CoerceField(m, HumanCountKey, coercion.toInt, 0).Failure? ==>
            AnalyzeImage(response, coercion) == Degraded(CoerceField(m, HumanCountKey, coercion.toInt, 0).message))
      && (CoerceField(m, HumanCountKey, coercion.toInt, 0).Success? && CoerceField(m, ConfidenceKey, coercion.toFloat, 0.0).Failure? ==>
            AnalyzeImage(response, coercion) == Degraded(CoerceField(m, ConfidenceKey, coercion.toFloat, 0.0).message))
  {
  }

  /**
   * On success the record is the parsed object with exactly two keys
   * rewritten: `human_count` holds the coerced integer, unclamped, and
   * `confidence` the coerced float clamped to [0, 1]; every other key keeps
   * its value, and no key is added or lost.
   */
  lemma SuccessKeepsOtherKeys(m: map<string, Json>, coercion: Coercion, count: int, c: real)
    requires CoerceField(m, HumanCountKey, coercion.toInt, 0) == Success(count)
    requires CoerceField(m, ConfidenceKey, coercion.toFloat, 0.0) == Success(c)
    ensures var r := AnalyzeImage(Parsed(JObject(m)), coercion);
      && r.Keys == m.Keys + {HumanCountKey, ConfidenceKey}
      && r[HumanCountKey] == JInt(count)
      && r[ConfidenceKey] == JFloat(Clamp(c))
      && (forall k :: k in m && k != HumanCountKey && k != ConfidenceKey ==> r[k] == m[k])
      && (ErrorKey in r <==> ErrorKey in m)
  {
  }

  /** A negative count reported by the backend passes through unchanged. */
  lemma NegativeCountPassesThrough(m: map<string, Json>, coercion: Coercion)
    requires HumanCountKey in m && coercion.toInt(m[HumanCountKey]) == Success(-2)
    requires ConfidenceKey !in m
    ensures AnalyzeImage(Parsed(JObject(m)), coercion)[HumanCountKey] == JInt(-2)
    ensures AnalyzeImage(Parsed(JObject(m)), coercion)[ConfidenceKey] == JFloat(0.0)
  {
  }

  /** Reported confidences -0.5, 1.7 and 0.42 are recorded as 0.0, 1.0 and 0.42. */
  lemma ClampExamples()
    ensures Clamp(-0.5) == 0.0 && Clamp(1.7) == 1.0 && Clamp(0.42) == 0.42
  {
  }

  /** Clamping twice is clamping once. */
  lemma ClampIdempotent(x: real)
    ensures Clamp(Clamp(x)) == Clamp(x)
  {
  }

  /** A reply without a "response" text parses to `{}`; its record is all defaults and carries no error. */
  lemma EmptyObjectDefaults(coercion: Coercion)
    ensures AnalyzeImage(Parsed(JObject(map[])), coercion)
         == map[HumanCountKey := JInt(0), ConfidenceKey := JFloat(0.0)]
  {
  }
}
