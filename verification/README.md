# MLLP listener session: a Dafny model

This project models the connection session of the simple-hl7 TCP listener
(`lib/server/tcp-server.js`). The listener receives HL7 v2 messages framed
with the Minimal Lower Layer Protocol (HL7 v2.x Implementation Guide,
Appendix C "Lower Layer Protocols"). A block is `<VT> data <FS><CR>`, with
VT = 0x0B, FS = 0x1C and CR = 0x0D. For each completed frame the listener
calls a user handler with a request view and a response that carries an
acknowledgment: "AA" (application accept) or "AR" (application reject),
from HL7 table 0008.

The model is functional. A session is its buffer string. The `'data'`
handler is `Session.OnData` and the `'error'` handler is `Session.OnError`.
Each returns the new buffer, the payload handed to the parser (if any) and
the handler calls made, in order. `Session.Run` folds a sequence of events
over a connection. The collaborators are parameters:

- the parser is a function `parse: string -> ParseOutcome`;
- the clock is a `Stamps` record of the three readings one acknowledgment takes;
- the handler is what it does when called with an accepted request: return, or throw.

Bytes reach the socket only when the handler calls `end` on a response.
`Mllp.End` is that serialisation, given the acknowledgment's text.

Modules:

- `Hl7` (hl7.dfy): header field values, the decoded header, and the Message record.
- `Ack` (ack.dfy): `createAckMessage` and `createErrAckMessage`.
- `Mllp` (mllp.dfy): delimiters, JavaScript `substring`, the frame test, payload extraction and `Res.end`.
- `Requests` (request.dfy): `Req`, the failure request, and `Res`.
- `Session` (session.dfy): the two socket handlers and runs over many events.
- `SessionProofs` (session_proofs.dfy): properties of single steps and of whole connections.

Two behaviours of the code shape the model:

- **The buffer is not emptied after a failure.** The reset (tcp-server.js:72) runs only after the handler returns on an accepted frame, and the catch path (tcp-server.js:74-84) has no reset. After a parse failure or a handler exception the buffer keeps the rejected frame, and the next frame is parsed joined to it (`SessionProofs.RejectedFramePoisonsNext`). The buffer is emptied again only by a later joined parse that succeeds with a handler that returns, or by an `'error'` event carrying an error value (tcp-server.js:95; `SessionProofs.SocketErrorRecovers`). The latter is a property of the state machine: Node normally destroys a socket after it emits `'error'`, so on a live connection no further chunk usually follows.
- **Constructor argument k fills header field k.** This is the numbering `Req` uses (tcp-server.js:31-40), where field 1 is the sender. `createAckMessage` passes the original fields 3 and 4 first and fields 1 and 2 next (tcp-server.js:130-133), so the acknowledgment reverses the routing.

## Model

| member | source | states |
|---|---|---|
| Session.OnData | lib/server/tcp-server.js:62-85 | When the buffer plus chunk does not end in FS CR, the only effect is the append: no parse, no call. Otherwise the payload goes to the parser. Every call reports the whole buffer as raw text. The buffer ends either empty or as buffer plus chunk. It differs from buffer plus chunk exactly when the parse succeeded and the handler returned. |
| SessionProofs.CompleteFrameIsParsed | lib/server/tcp-server.js:65-66 | When the accumulated buffer ends in FS CR, the parser gets the buffer minus its first character (whatever it is) and minus its last two. |
| SessionProofs.AcceptPath | lib/server/tcp-server.js:66-72 | After a successful parse and a handler that returns, there is exactly one call. It has no error, `raw` is the whole enveloped buffer, and the response carries the AA acknowledgment naming field 8. The buffer is then empty. |
| SessionProofs.ParseFailurePath | lib/server/tcp-server.js:74-84 | A parse failure gives one call with the error and `{raw: buffer, err, errType: Parse}`. The response carries the AR acknowledgment. The buffer is kept, not cleared. |
| SessionProofs.HandlerThrowPath | lib/server/tcp-server.js:71-84 | A handler that throws on an accepted request is called a second time, with its own exception tagged Parse and a reject. The buffer is kept because the reset after the handler never runs. |
| SessionProofs.FoldedFramesParsedOnce | lib/server/tcp-server.js:64-66 | Two frames in one chunk give one parse of `p1 + FS CR VT + p2`. Every call reports both frames as raw text. |
| SessionProofs.SilentWhileIncomplete | lib/server/tcp-server.js:62-65 | While the buffer at the end of each chunk does not end in FS CR, nothing is parsed and the handler is never called. The buffer is exactly what arrived. Only chunk ends are tested, so an FS CR inside a chunk is not noticed. |
| SessionProofs.TerminatorInsideChunkIsMissed | lib/server/tcp-server.js:64-65 | A chunk holding a whole frame followed by a VT leaves the listener silent: no parse, no call, and the buffer holds the whole chunk. |
| SessionProofs.FrameAcrossChunks | lib/server/tcp-server.js:62-72 | A frame whose data holds no FS, split into any chunks, gives exactly one parse and one accepted call, provided the parse of the data succeeds and every handler returns. That call has the whole frame as raw text and the AA acknowledgment with reversed routing. The buffer ends empty. |
| SessionProofs.RunAppend | lib/server/tcp-server.js:60-85 | Running two stretches of events together equals running the first and then the second from the buffer the first left. Parses and calls are concatenated in order. |
| SessionProofs.TwoFramesAcrossChunks | lib/server/tcp-server.js:62-72 | Two frames, each split into chunks of any sizes that end at its frame boundary, give two accepted calls in order. Each call has its own frame as raw text. The buffer ends empty. |
| SessionProofs.FramesOnePerChunk | lib/server/tcp-server.js:62-72 | Frames delivered one per chunk, all parsed and all handlers returning, give one accepted call per frame, in order. Each call has its own frame as raw text. The buffer ends empty. |
| SessionProofs.RejectedFramePoisonsNext | lib/server/tcp-server.js:64-84 | After a rejected frame the buffer still holds it. The next frame is parsed joined to it, never on its own. If that parse fails too, the buffer holds both frames. |
| Session.OnError | lib/server/tcp-server.js:87-102 | With an error value, one call reports the buffer as a Socket failure with a reject, and the buffer is emptied. Without an error value, the handler is called with nothing else and the buffer stays. Neither path parses. |
| SessionProofs.SocketErrorRecovers | lib/server/tcp-server.js:87-98 | In the session's state machine, an `'error'` event with an error value after a rejected frame reports that frame as raw text and empties the buffer. A frame fed afterwards is parsed alone and accepted. |
| Session.Run | lib/server/tcp-server.js:60-102 | Over any events, the final buffer is a tail of the initial buffer plus all delivered text, because the buffer is only appended to or emptied. A run over n events makes at most n parses and 2n handler calls. |
| Session.Apply | lib/server/tcp-server.js:60-102 | One event either empties the buffer or appends exactly the text it delivers. It makes at most two handler calls, and only a data event can parse. |
| Requests.Describe | lib/server/tcp-server.js:78 | The `err` field: the message when the thrown value is an Error with a non-empty message, otherwise the thrown value itself. |
| Mllp.Substring | lib/server/tcp-server.js:65-66 | JavaScript `substring`: the result is the slice between the two indices clamped into the string, in either order. This covers in-range indices, a negative index with the other in range, an index past the end, and both out of range. |
| Mllp.EndsWithTerminatorIff | lib/server/tcp-server.js:65 | The frame test holds exactly when the buffer has at least two characters and the last two are FS and CR. |
| Mllp.PayloadStrips | lib/server/tcp-server.js:66 | For three or more characters the payload is the buffer minus its first character and its last two. A two-character buffer yields its first character, through the index swap. |
| Mllp.FrameRoundTrip | lib/server/tcp-server.js:65-66 | A frame around `p` passes the frame test, and deframing it gives back `p`. |
| Mllp.FrameHasNoEarlyEnd | lib/server/tcp-server.js:65 | When the frame data holds no FS, no proper prefix of the frame passes the frame test. |
| Mllp.End | lib/server/tcp-server.js:47-53 | The written string starts with VT, ends with FS CR and holds the acknowledgment text from index 1. Its length is the text length plus 4 with `appendCR`, else plus 3. With `appendCR`, a CR sits just before FS. |
| Mllp.EndIsDeframed | lib/server/tcp-server.js:47-53 | What `end` writes passes the listener's own frame test. Deframing it gives the acknowledgment text, followed by CR when `appendCR` is set. |
| Ack.CreateAck | lib/server/tcp-server.js:128-143 | The routing is reversed: fields 3 and 4 become the sender, fields 1 and 2 the receiver. The type is `["ACK"]`, the processing id P, the version 2.3, and the control id is "ACK" followed by a timestamp. There is one MSA segment with exactly two fields, `("AA", field 8)`. |
| Ack.CreateErrAck | lib/server/tcp-server.js:111-126 | All four routing fields are empty, with the same constants as the accept. There is one MSA segment with exactly two fields, `("AR", timestamp)`, so no inbound control id is referenced. |
| Ack.AcceptIsNotReject | lib/server/tcp-server.js:111-143 | An accept and a reject are never the same message, and their MSA codes differ, whatever the clock readings. |
| Ack.AckOfAckRestoresRouting | lib/server/tcp-server.js:128-141 | Acknowledging an acknowledgment restores the original routing. The second acknowledgment names the first one's control id. |
| Requests.MakeRequest | lib/server/tcp-server.js:28-41 | Sender and facility come from fields 1 and 2, each passed through the scalar-or-list rule. Type and event are components 1 and 2 of field 7. `raw` is the buffer. |
| SessionProofs.AckAnswersSender | lib/server/tcp-server.js:31-37 | The accept goes back to the request's sender: its receiving application and facility, exposed by the same scalar-or-list rule, equal the request's `sender` and `facility`. |
| Requests.ScalarOrListShape | lib/server/tcp-server.js:31-37 | The exposed value is a string exactly when the field is a string or a one-element list. A one-element list exposes its element. A string comes through unchanged. |
| Requests.ScalarOrListIdempotent | lib/server/tcp-server.js:31-37 | Exposing a field twice gives the same value as exposing it once. |

## Left out

- `TcpServer.prototype.start`, `stop`, `net.createServer`, `listen`, `close` and `socket.write` (lib/server/tcp-server.js:56-59, 104-109, 49, 51) are socket I/O. `Mllp.End` returns the string `end` would write.
- The `TcpServer` constructor (lib/server/tcp-server.js:12-24) is configuration plumbing. The parser it selects is the `parse` parameter.
- `setEncoding` and chunk decoding (lib/server/tcp-server.js:85) are not modelled. Chunks are decoded strings, and characters are Unicode scalar values rather than UTF-16 code units. These differ only when the first buffered character lies outside the Basic Multilingual Plane: `substring(1, …)` would then split a surrogate pair.
- `moment()` timestamps are the strings of a `Stamps` record. Their format is not modelled.
- The parser and the Message class are external and not part of this model. Their internals are also left out: the grammar, and the Message's `toString`, which `Mllp.End` takes as the acknowledgment text.
- `Hl7.Field` reads a header position that the message lacks as an empty list, and `Hl7.Component` reads a missing component as `""`. The external accessors may return something else, such as `undefined`, on which `getComponent(7, 2).toString()` (lib/server/tcp-server.js:40) throws. Such a throw would take the same Parse path as a parse failure, so a parsed message without a trigger event would be rejected rather than accepted.
- Ack.CreateAck: the result's `appendCR` is false, and so is CreateErrAck's. tcp-server.js never sets the flag, and an unset property reads as falsy, assuming the Message class does not set it either. A handler may set it before calling `end`, which `Mllp.End` covers for both values.
- The handler call on the `'data'` catch path (lib/server/tcp-server.js:83) and the handler calls inside the `'error'` listener (lib/server/tcp-server.js:98, 100) are assumed to return. An exception thrown there escapes the listener and is not modelled. In the `'error'` listener the buffer is already emptied at line 95, so `Session.OnError`'s final buffer stays right. A `null` or `undefined` thrown inside the `'data'` listener is not modelled either: `err.message` at line 78 itself throws on it.
- Session.OnError: `Some(e)` stands only for a truthy error value, and every falsy `err` (`0`, `""`, `false`, `null`, `undefined`) is `None`, as the `if (err)` test at lib/server/tcp-server.js:89 decides. `Closed` drops the falsy value passed to `handler(err)` at line 100. `OnError(b, Some(Value("")), s)` therefore does not stand for an emitted empty string.
- The handler's own behaviour is not modelled, nor the interleaving of handler calls across connections. The model covers one connection.
- `console.log` and the EventEmitter inheritance are logging and plumbing.
