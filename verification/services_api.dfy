/**
 The error handling of the add-service request: a failed POST is turned into
 an `Error` whose message is taken from the response body when it carries one.
 */
module ServicesApi {
  import opened JsNumber

  /** The JSON-like values a response body can hold. */
  datatype JsValue =
    | Undefined
    | Null
    | Bool(b: bool)
    | Num(n: NumberValue)
    | Str(s: string)
    | Arr(elems: seq<JsValue>)
    | Obj(props: map<string, JsValue>)

  /** JavaScript truthiness. */
  predicate Truthy(v: JsValue) {
    match v
    case Undefined => false
    case Null => false
    case Bool(b) => b
    case Num(n) => !n.NaN? && n != Finite(0.0)
    case Str(s) => s != ""
    case Arr(_) => true
    case Obj(_) => true
  }

  /**
   `data?.[key]` for the named keys the mapping reads: a missing property, or
   any such property of a primitive or an array, is `undefined`.
   */
  function Property(v: JsValue, key: string): (r: JsValue)
    ensures !v.Obj? ==> r == Undefined
    ensures v.Obj? && key !in v.props ==> r == Undefined
  {
    match v
    case Obj(props) => if key in props then props[key] else Undefined
    case _ => Undefined
  }

  /** `Number.prototype.toString` on a number, which the model leaves as a parameter. */
  type NumberText = NumberValue -> string

  /**
   `String(v)`: a plain object prints as `[object Object]`, and an array as its
   elements joined by `,`, where `null` and `undefined` elements print as nothing.
   */
  function StringOf(v: JsValue, numberText: NumberText): (r: string)
    ensures v.Str? ==> r == v.s
    ensures v.Arr? && v.elems == [] ==> r == ""
    decreases v
  {
    match v
    case Undefined => "undefined"
    case Null => "null"
    case Bool(b) => if b then "true" else "false"
    case Num(n) => numberText(n)
    case Str(s) => s
    case Arr(elems) =>
      JoinComma(seq(|elems|, i requires 0 <= i < |elems| =>
        if elems[i].Undefined? || elems[i].Null? then "" else StringOf(elems[i], numberText)))
    case Obj(_) => "[object Object]"
  }

  /** `parts.join(",")`. */
  function JoinComma(parts: seq<string>): (r: string)
    ensures parts == [] ==> r == ""
    ensures |parts| == 1 ==> r == parts[0]
  {
    if parts == [] then ""
    else if |parts| == 1 then parts[0]
    else parts[0] + "," + JoinComma(parts[1..])
  }

  /** Joining puts exactly one `,` between consecutive parts that hold none. */
  lemma {:induction false} JoinCommaCount(parts: seq<string>)
    requires parts != []
    requires forall i :: 0 <= i < |parts| ==> ',' !in parts[i]
    ensures multiset(JoinComma(parts))[','] == |parts| - 1
  {
    if |parts| > 1 {
      JoinCommaCount(parts[1..]);
      var a, b := parts[0] + ",", JoinComma(parts[1..]);
      assert multiset(parts[0])[','] == 0;
      assert multiset(a) == multiset(parts[0]) + multiset{','};
      assert multiset(a + b) == multiset(a) + multiset(b);
    }
  }

  /** The parts of an `AxiosError` the mapping reads: its own message and `response?.data`. */
  datatype TransportError = TransportError(message: string, data: JsValue)

  const DefaultMessage := "Failed to add service record."

  /** `toServiceError(err).message`. */
  function ToServiceError(e: TransportError, numberText: NumberText): (r: string)
    ensures e.data.Str? ==> r == e.data.s
    ensures !e.data.Str? && Truthy(Property(e.data, "detail")) ==>
      r == StringOf(Property(e.data, "detail"), numberText)
    ensures !e.data.Str? && !Truthy(Property(e.data, "detail")) && Truthy(Property(e.data, "message")) ==>
      r == StringOf(Property(e.data, "message"), numberText)
    ensures !e.data.Str? && !Truthy(Property(e.data, "detail")) && !Truthy(Property(e.data, "message")) ==>
      r == (if e.message != "" then e.message else DefaultMessage)
  {
    if e.data.Str? then e.data.s
    else if Truthy(Property(e.data, "detail")) then StringOf(Property(e.data, "detail"), numberText)
    else if Truthy(Property(e.data, "message")) then StringOf(Property(e.data, "message"), numberText)
    else if e.message != "" then e.message
    else DefaultMessage
  }

  /** A truthy `detail` wins: the body's `message` then plays no part. */
  lemma DetailBeatsMessage(props: map<string, JsValue>, m: JsValue, transport: string, numberText: NumberText)
    requires "detail" in props && Truthy(props["detail"])
    ensures ToServiceError(TransportError(transport, Obj(props["message" := m])), numberText)
         == ToServiceError(TransportError(transport, Obj(props)), numberText)
  {
  }

  /**
   Without a string body and without a truthy `detail` or `message`, the
   message is never empty: the transport's own message or the fixed default.
   */
  lemma FallbackNonEmpty(e: TransportError, numberText: NumberText)
    requires !e.data.Str? && !Truthy(Property(e.data, "detail")) && !Truthy(Property(e.data, "message"))
    ensures ToServiceError(e, numberText) != ""
    ensures e.message == "" ==> ToServiceError(e, numberText) == DefaultMessage
  {
  }

  /**
   A body that is an array has no `detail` or `message`: the error's own message,
   or the fixed default, is used.
   */
  lemma ArrayBodyFallsBack(elems: seq<JsValue>, transport: string, numberText: NumberText)
    ensures ToServiceError(TransportError(transport, Arr(elems)), numberText)
         == (if transport != "" then transport else DefaultMessage)
  {
  }

  /**
   An empty array is truthy but prints as nothing: a `detail` of `[]` gives an
   empty message, whatever the body's `message` says.
   */
  lemma EmptyArrayDetailIsEmpty(props: map<string, JsValue>, transport: string, numberText: NumberText)
    requires "detail" in props && props["detail"] == Arr([])
    ensures ToServiceError(TransportError(transport, Obj(props)), numberText) == ""
  {
  }

  /** A message read from a string field of the body is that field verbatim. */
  lemma StringFieldsVerbatim(e: TransportError, numberText: NumberText)
    requires e.data.Obj?
    ensures Property(e.data, "detail").Str? && Truthy(Property(e.data, "detail")) ==>
      ToServiceError(e, numberText) == Property(e.data, "detail").s
    ensures !Truthy(Property(e.data, "detail")) && Property(e.data, "message").Str? && Truthy(Property(e.data, "message")) ==>
      ToServiceError(e, numberText) == Property(e.data, "message").s
  {
  }

  /** The outcome of the POST. */
  datatype Posted<T> = Created(dto: T) | PostFailed(error: TransportError)

  /** What `createService` resolves to, or the message it rejects with. */
  datatype Outcome<T> = Resolved(dto: T) | Rejected(message: string)

  /** `createService`: every failure is rethrown through `toServiceError`. */
  function CreateService<T>(posted: Posted<T>, numberText: NumberText): (r: Outcome<T>)
    ensures r.Resolved? <==> posted.Created?
    ensures r.Resolved? ==> r.dto == posted.dto
    ensures r.Rejected? ==> r.message == ToServiceError(posted.error, numberText)
  {
    match posted
    case Created(dto) => Resolved(dto)
    case PostFailed(e) => Rejected(ToServiceError(e, numberText))
  }
}
