/**
 * The parts of an HL7 v2 message that the listener reads or builds.
 *
 * The parser and the Message class are collaborators whose code is not part of
 * this model. A decoded message is represented by its header fields as the
 * parser's field accessor returns them, numbered from 1 the way the listener
 * numbers them (field 1 is the sending application, field 8 the control id).
 */
module Hl7 {

  /** A header field as the parser's accessor returns it: a plain string, or a
      list of parts when the field repeats or has components. */
  datatype FieldValue = Text(s: string) | Parts(items: seq<string>)

  /** The JavaScript `length` of a field value: characters of a string, items of a list. */
  function Length(f: FieldValue): nat
  {
    match f
    case Text(s) => |s|
    case Parts(items) => |items|
  }

  /**
   * Joins strings with a separator, as JavaScript's `Array.prototype.join`
   * does. The session reads only one-element lists through it; the general
   * case keeps `ToText` a complete `toString`.
   */
  function Join(items: seq<string>, sep: string): (r: string)
    ensures |items| == 1 ==> r == items[0]
    ensures items == [] ==> r == ""
  {
    if |items| == 0 then ""
    else if |items| == 1 then items[0]
    else items[0] + sep + Join(items[1..], sep)
  }

  /** The JavaScript `toString` of a field value; a list prints comma-separated. */
  function ToText(f: FieldValue): string
  {
    match f
    case Text(s) => s
    case Parts(items) => Join(items, ",")
  }

  /** The decoded header of an inbound message. */
  datatype Header = Header(fields: seq<FieldValue>)

  /** Header field `i` (1-based). A position the message does not have reads as an empty list. */
  function Field(h: Header, i: nat): (f: FieldValue)
    ensures 1 <= i <= |h.fields| ==> f == h.fields[i - 1]
    ensures i == 0 || i > |h.fields| ==> Length(f) == 0
  {
    if 1 <= i <= |h.fields| then h.fields[i - 1] else Parts([])
  }

  /** Component `j` (1-based) of header field `i`; a plain string is its own first component. */
  function Component(h: Header, i: nat, j: nat): string
  {
    match Field(h, i)
    case Text(s) => if j == 1 then s else ""
    case Parts(items) => if 1 <= j <= |items| then items[j - 1] else ""
  }

  /** A segment appended to a message: its name and its fields in order. */
  datatype Segment = Segment(name: string, fields: seq<FieldValue>)

  /**
   * A message built with the Message class: the ten constructor arguments in
   * order (they fill header fields 1 to 10), the segments added afterwards, and
   * the `appendCR` property that response framing consults.
   */
  datatype Message = Message(
    sendingApp: FieldValue,
    sendingFacility: FieldValue,
    receivingApp: FieldValue,
    receivingFacility: FieldValue,
    timestamp: string,
    security: string,
    messageType: seq<string>,
    controlId: string,
    processingId: string,
    version: string,
    segments: seq<Segment>,
    appendCR: bool)

  /** The header a receiver of `m` reads back: constructor argument k is header field k. */
  function HeaderOf(m: Message): (h: Header)
    ensures |h.fields| == 10
    ensures Field(h, 1) == m.sendingApp && Field(h, 2) == m.sendingFacility
    ensures Field(h, 3) == m.receivingApp && Field(h, 4) == m.receivingFacility
    ensures Field(h, 7) == Parts(m.messageType) && Field(h, 8) == Text(m.controlId)
  {
    Header([m.sendingApp, m.sendingFacility, m.receivingApp, m.receivingFacility,
            Text(m.timestamp), Text(m.security), Parts(m.messageType),
            Text(m.controlId), Text(m.processingId), Text(m.version)])
  }
}
