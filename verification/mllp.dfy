/**
 * MLLP block framing (HL7 v2.x Implementation Guide, Appendix C "Lower Layer
 * Protocols"): a block is <VT> data <FS><CR>. This module holds the delimiters,
 * the JavaScript string operations the listener frames with, the frame test and
 * payload extraction applied to the session buffer, and the serialisation of a
 * response (`Res.end`).
 */
module Mllp {

  const VT: char := 11 as char
  const FS: char := 28 as char
  const CR: char := 13 as char

  /** Clamps a JavaScript string index into [0, n]. */
  function Clamp(i: int, n: nat): (c: nat)
    ensures c <= n
    ensures 0 <= i <= n ==> c == i
  {
    if i < 0 then 0 else if i > n then n else i
  }

  /**
   * JavaScript's `String.prototype.substring`: both indices are clamped into
   * the string, and they are swapped when the start lies after the end.
   */
  function Substring(s: string, start: int, end: int): (r: string)
    ensures 0 <= start <= end <= |s| ==> r == s[start..end]
    ensures 0 <= end < start <= |s| ==> r == s[end..start]
    ensures end <= 0 && start <= 0 ==> r == ""
    ensures start < 0 <= end <= |s| ==> r == s[..end]
    ensures end < 0 <= start <= |s| ==> r == s[..start]
    ensures 0 <= start <= |s| < end ==> r == s[start..]
    ensures 0 <= end <= |s| < start ==> r == s[end..]
    ensures start >= |s| && end >= |s| ==> r == ""
    ensures (start < 0 && end > |s|) || (end < 0 && start > |s|) ==> r == s
  {
    var a := Clamp(start, |s|);
    var b := Clamp(end, |s|);
    if a <= b then s[a..b] else s[b..a]
  }

  /** The frame test the listener applies to its buffer after every chunk. */
  predicate EndsWithTerminator(s: string)
  {
    Substring(s, |s| - 2, |s|) == [FS, CR]
  }

  /** The payload the listener hands to the parser: the buffer without its first character and its last two. */
  function Payload(s: string): string
  {
    Substring(s, 1, |s| - 2)
  }

  /** A frame around `p`, as a well-behaved sender emits it. */
  function Frame(p: string): (f: string)
    ensures |f| == |p| + 3 && f[0] == VT && f[|f| - 2..] == [FS, CR]
  {
    [VT] + p + [FS, CR]
  }

  /**
   * `Res.end`: the string written to the socket for an acknowledgment whose
   * text is `ackText`, with an extra CR before the end block when `appendCR`
   * is set.
   */
  function End(ackText: string, appendCR: bool): (w: string)
    ensures |w| == |ackText| + (if appendCR then 4 else 3)
    ensures w[0] == VT && w[|w| - 2..] == [FS, CR]
    ensures w[1..|ackText| + 1] == ackText
    ensures appendCR ==> w[|w| - 3] == CR
  {
    if appendCR then [VT] + ackText + [CR] + [FS, CR]
    else [VT] + ackText + [FS, CR]
  }

  /** The frame test holds exactly when the last two characters are FS and CR. */
  lemma EndsWithTerminatorIff(s: string)
    ensures EndsWithTerminator(s) <==> |s| >= 2 && s[|s| - 2] == FS && s[|s| - 1] == CR
  {
    if |s| < 2 {
      assert |Substring(s, |s| - 2, |s|)| < 2;
    } else {
      assert Substring(s, |s| - 2, |s|) == [s[|s| - 2], s[|s| - 1]];
    }
  }

  /**
   * The payload is the buffer minus its first character, whatever it is, and
   * minus its last two. Shorter buffers go through the index clamping and
   * swapping of `substring`: two characters yield the first, one or none
   * yield the buffer itself.
   */
  lemma PayloadStrips(s: string)
    ensures |s| >= 3 ==> Payload(s) == s[1..|s| - 2]
    ensures |s| == 2 ==> Payload(s) == s[..1]
    ensures |s| <= 1 ==> Payload(s) == s
  {
  }

  /** Deframing a frame gives back the payload, and the frame is recognised as complete. */
  lemma FrameRoundTrip(p: string)
    ensures EndsWithTerminator(Frame(p))
    ensures Payload(Frame(p)) == p
  {
    EndsWithTerminatorIff(Frame(p));
    assert Frame(p)[1..|Frame(p)| - 2] == p;
  }

  /**
   * What `Res.end` writes is a complete frame to the listener's own frame test,
   * and deframing it yields the acknowledgment text, followed by the extra CR
   * when one was inserted.
   */
  lemma EndIsDeframed(ackText: string, appendCR: bool)
    ensures EndsWithTerminator(End(ackText, appendCR))
    ensures Payload(End(ackText, appendCR)) == if appendCR then ackText + [CR] else ackText
  {
    var w := End(ackText, appendCR);
    EndsWithTerminatorIff(w);
    if appendCR {
      assert w == Frame(ackText + [CR]);
    } else {
      assert w == Frame(ackText);
    }
    FrameRoundTrip(if appendCR then ackText + [CR] else ackText);
  }

  /** Two frames back to back read as one frame around both payloads and the delimiters between them. */
  lemma FoldedFrames(p1: string, p2: string)
    ensures Frame(p1) + Frame(p2) == Frame(p1 + [FS, CR, VT] + p2)
  {
  }

  /**
   * A frame whose payload holds no FS is complete only at its end: no proper
   * prefix passes the frame test, so however it is split into chunks, the
   * listener waits for its last character.
   */
  lemma FrameHasNoEarlyEnd(p: string)
    requires FS !in p
    ensures forall k :: 0 <= k < |Frame(p)| ==> !EndsWithTerminator(Frame(p)[..k])
  {
    var f := Frame(p);
    forall k | 0 <= k < |f|
      ensures !EndsWithTerminator(f[..k])
    {
      EndsWithTerminatorIff(f[..k]);
      if k >= 2 {
        if k - 2 == 0 {
          assert f[..k][k - 2] == VT;
        } else {
          assert f[k - 2] == ([VT] + p)[k - 2] == p[k - 3];
          assert f[..k][k - 2] == p[k - 3];
        }
      }
    }
  }
}
