/**
 * Acknowledgment synthesis: the positive acknowledgment built from a decoded
 * message and the negative one built from nothing. Acknowledgment codes follow
 * HL7 table 0008 ("AA" application accept, "AR" application reject).
 */
module Ack {
  import opened Wrappers
  import opened Hl7

  /**
   * The readings of the clock one acknowledgment takes. The builder asks the
   * clock separately for the header timestamp, for the control id and (negative
   * acknowledgment only) for the MSA segment, so the three may differ.
   */
  datatype Stamps = Stamps(header: string, control: string, msa: string)

  const AckType: seq<string> := ["ACK"]
  const ProcessingId: string := "P"
  const Version: string := "2.3"

  /** The control id of an acknowledgment: "ACK" followed by a timestamp. */
  function AckControlId(stamp: string): (id: string)
    ensures |id| == 3 + |stamp| && id[..3] == "ACK" && id[3..] == stamp
  {
    "ACK" + stamp
  }

  /** The first MSA segment of a message as (code, referenced id), if it has one. */
  function Msa(segments: seq<Segment>): (r: Option<(FieldValue, FieldValue)>)
    ensures r.None? <==> forall k :: 0 <= k < |segments| ==> segments[k].name != "MSA" || |segments[k].fields| < 2
  {
    if |segments| == 0 then None
    else if segments[0].name == "MSA" && |segments[0].fields| >= 2 then
      Some((segments[0].fields[0], segments[0].fields[1]))
    else Msa(segments[1..])
  }

  /** The routing of an acknowledgment reverses the routing of the message it answers. */
  ghost predicate Reverses(ack: Message, h: Header)
  {
    && ack.sendingApp == Field(h, 3) && ack.sendingFacility == Field(h, 4)
    && ack.receivingApp == Field(h, 1) && ack.receivingFacility == Field(h, 2)
  }

  /** The header constants every acknowledgment carries. */
  ghost predicate AckShape(ack: Message, s: Stamps)
  {
    && ack.messageType == ["ACK"] && ack.security == ""
    && ack.processingId == "P" && ack.version == "2.3"
    && ack.timestamp == s.header && ack.controlId == AckControlId(s.control)
    && !ack.appendCR
  }

  /**
   * createAckMessage: answers the decoded message `h` with an application accept
   * that names the original control id (header field 8).
   */
  function CreateAck(h: Header, s: Stamps): (ack: Message)
    ensures Reverses(ack, h)
    ensures AckShape(ack, s)
    ensures |ack.segments| == 1 && |ack.segments[0].fields| == 2
    ensures Msa(ack.segments) == Some((Text("AA"), Field(h, 8)))
  {
    Message(Field(h, 3), Field(h, 4), Field(h, 1), Field(h, 2),
            s.header, "", AckType, AckControlId(s.control), ProcessingId, Version,
            [Segment("MSA", [Text("AA"), Field(h, 8)])], false)
  }

  /**
   * createErrAckMessage: an application reject with empty routing, used when
   * there is no decoded message to answer; its MSA names a timestamp instead of
   * a control id.
   */
  function CreateErrAck(s: Stamps): (ack: Message)
    ensures ack.sendingApp == ack.sendingFacility == ack.receivingApp == ack.receivingFacility == Text("")
    ensures AckShape(ack, s)
    ensures |ack.segments| == 1 && |ack.segments[0].fields| == 2
    ensures Msa(ack.segments) == Some((Text("AR"), Text(s.msa)))
  {
    Message(Text(""), Text(""), Text(""), Text(""),
            s.header, "", AckType, AckControlId(s.control), ProcessingId, Version,
            [Segment("MSA", [Text("AR"), Text(s.msa)])], false)
  }

  /** An accept and a reject are never the same message, whatever the clock said. */
  lemma AcceptIsNotReject(h: Header, s1: Stamps, s2: Stamps)
    ensures CreateAck(h, s1) != CreateErrAck(s2)
    ensures Msa(CreateAck(h, s1).segments).value.0 != Msa(CreateErrAck(s2).segments).value.0
  {
    assert "AA"[1] != "AR"[1];
  }

  /**
   * Answering the acknowledgment of `h` routes back to where `h` came from:
   * acknowledging twice restores the original routing, and the second
   * acknowledgment names the first one's control id.
   */
  lemma AckOfAckRestoresRouting(h: Header, s1: Stamps, s2: Stamps)
    ensures var ack2 := CreateAck(HeaderOf(CreateAck(h, s1)), s2);
      && ack2.sendingApp == Field(h, 1) && ack2.sendingFacility == Field(h, 2)
      && ack2.receivingApp == Field(h, 3) && ack2.receivingFacility == Field(h, 4)
      && Msa(ack2.segments) == Some((Text("AA"), Text(AckControlId(s1.control))))
  {
  }
}
