/**
 * The request and response objects the listener hands to its handler (`Req`,
 * `Res`, and the object literal it builds on failure).
 */
module Requests {
  import opened Hl7

  /**
   * How `Req` exposes a header field: a field of length one becomes its string
   * form, anything else is passed through as the accessor returned it.
   */
  function ScalarOrList(f: FieldValue): (v: FieldValue)
    ensures Length(f) == 1 ==> v == Text(ToText(f))
    ensures Length(f) != 1 ==> v == f
  {
    if Length(f) == 1 then Text(ToText(f)) else f
  }

  /** The request view of a decoded message. */
  datatype Request = Request(
    header: Header,
    raw: string,
    sender: FieldValue,
    facility: FieldValue,
    msgType: string,
    event: string)

  /** `new Req(msg, raw)`: sender and facility from fields 1 and 2, type and event from field 7. */
  function MakeRequest(h: Header, raw: string): (r: Request)
    ensures r.header == h && r.raw == raw
    ensures r.sender == ScalarOrList(Field(h, 1)) && r.facility == ScalarOrList(Field(h, 2))
    ensures r.msgType == Component(h, 7, 1) && r.event == Component(h, 7, 2)
  {
    Request(h, raw, ScalarOrList(Field(h, 1)), ScalarOrList(Field(h, 2)),
            Component(h, 7, 1), Component(h, 7, 2))
  }

  /**
   * The exposed value is a string exactly when the field is a string or a
   * one-element list; a one-element list exposes its element, and every
   * string comes through unchanged.
   */
  lemma ScalarOrListShape(f: FieldValue)
    ensures ScalarOrList(f).Text? <==> f.Text? || |f.items| == 1
    ensures f.Parts? && |f.items| == 1 ==> ScalarOrList(f) == Text(f.items[0])
    ensures f.Text? ==> ScalarOrList(f) == f
  {
  }

  /** Exposing a field twice changes nothing more than exposing it once. */
  lemma ScalarOrListIdempotent(f: FieldValue)
    ensures ScalarOrList(ScalarOrList(f)) == ScalarOrList(f)
  {
  }

  /**
   * A truthy thrown value: `Error` is a value whose `message` is a string (an
   * Error object or any object with such a property), `Value` is any other
   * value, written as its text. Falsy values are not `Thrown`.
   */
  datatype Thrown = Error(message: string) | Value(text: string)

  /** The `err` of a failure request: `err.message || err`. */
  datatype ErrDetail = Described(message: string) | Whole(thrown: Thrown)

  function Describe(e: Thrown): (d: ErrDetail)
    ensures d.Described? <==> e.Error? && e.message != ""
    ensures d.Described? ==> d.message == e.message
    ensures d.Whole? ==> d.thrown == e
  {
    if e.Error? && e.message != "" then Described(e.message) else Whole(e)
  }

  /** The classification tag of a failure request. */
  datatype ErrType = Parse | Socket

  /** The object literal `{raw, err, errType}` handed over on failure. */
  datatype FailedRequest = FailedRequest(raw: string, err: ErrDetail, errType: ErrType)

  /** `new Res(socket, ack)`: a response bound to one acknowledgment. */
  datatype Response = Response(ack: Message)
}
