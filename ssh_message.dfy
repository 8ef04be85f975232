/**
 * The acknowledgement exchange of an scp transfer: reading the remote
 * side's status reply (waitForAck) and sending an acknowledgement
 * (sendAck). The input stream is given as the bytes it will deliver; a read
 * past its end yields -1, as InputStream.read does at end of stream.
 */
module SshMessage {
  import opened Wrappers
  import opened JavaStrings

  newtype byte = b: int | 0 <= b < 256

  const LineFeed: int := 10

  /** The value of the k-th read on a stream delivering `input`. */
  function Read(input: seq<byte>, k: nat): (r: int)
    ensures -1 <= r < 256
    ensures r == -1 <==> k >= |input|
  {
    if k < |input| then input[k] as int else -1
  }

  /** A value that ends the message loop: end of stream, a zero byte, or a line feed. */
  predicate EndsMessage(c: int)
  {
    c <= 0 || c == LineFeed
  }

  /** The position of the first value at or after `from` that ends the message. */
  function MessageEnd(input: seq<byte>, from: nat): (r: nat)
    ensures from <= r && (r <= |input| || r == from)
    ensures EndsMessage(Read(input, r))
    ensures forall k :: from <= k < r ==> !EndsMessage(Read(input, k))
    decreases |input| - from
  {
    if EndsMessage(Read(input, from)) then from else MessageEnd(input, from + 1)
  }

  /** Bytes appended to a StringBuffer one `(char)` cast at a time. */
  function AsText(bytes: seq<byte>): (r: string)
    ensures |r| == |bytes| && forall k :: 0 <= k < |bytes| ==> r[k] as int == bytes[k] as int
  {
    seq(|bytes|, k requires 0 <= k < |bytes| => (bytes[k] as int) as char)
  }

  /** The ScpException message for a non-zero status and the text that followed it. */
  const ErrorHead: string := "server indicated an error: "
  const FatalHead: string := "server indicated a fatal error: "
  const UnknownHead: string := "unknown response, code "
  const UnknownMiddle: string := " message: "

  /** The three openings part at their first or nineteenth character. */
  lemma HeadsDiffer()
    ensures |ErrorHead| == 27 && |FatalHead| == 32 && |UnknownHead| == 23
    ensures ErrorHead[18] == 'n' && FatalHead[18] == ' '
    ensures ErrorHead[0] == 's' && FatalHead[0] == 's' && UnknownHead[0] == 'u'
  {
  }

  /**
   * The ScpException message for a non-zero status and the text that
   * followed it: the message always ends the text, and its opening tells
   * an error (1) from a fatal error (2) from any other code.
   */
  function AckError(status: int, message: string): (r: string)
    ensures |r| >= |message| && r[|r| - |message|..] == message
    ensures status == 1 <==> |r| >= |ErrorHead| && r[..|ErrorHead|] == ErrorHead
    ensures status == 2 <==> |r| >= |FatalHead| && r[..|FatalHead|] == FatalHead
    ensures status != 1 && status != 2 ==> |r| >= |UnknownHead| && r[..|UnknownHead|] == UnknownHead
  {
    HeadsDiffer();
    if status == 1 then ErrorHead + message
    else if status == 2 then FatalHead + message
    else UnknownHead + DecimalString(status) + UnknownMiddle + message
  }

  /**
   * waitForAck: reads the status value; -1 is "No response from server", 0
   * returns normally, and any other status is followed by a message read up
   * to the first value that ends it, that value consumed too. `count` is the
   * number of read calls made.
   */
  method WaitForAck(input: seq<byte>) returns (r: Outcome, count: nat)
    ensures |input| == 0 ==> r == Fail("No response from server") && count == 1
    ensures r.Pass? <==> |input| > 0 && input[0] == 0
    ensures r.Pass? ==> count == 1
    ensures |input| > 0 && input[0] != 0 ==>
      var end := MessageEnd(input, 1);
      && end <= |input| && count == end + 1
      && r == Fail(AckError(input[0] as int, AsText(input[1..end])))
  {
    var b := Read(input, 0);
    count := 1;
    if b == -1 {
      return Fail("No response from server"), count;
    } else if b != 0 {
      var sb: string := [];
      var c := Read(input, count);
      count := count + 1;
      while c > 0 && c != LineFeed
        invariant 2 <= count <= |input| + 1
        invariant c == Read(input, count - 1)
        invariant sb == AsText(input[1..count - 1])
        invariant forall k :: 1 <= k < count - 1 ==> !EndsMessage(Read(input, k))
        decreases |input| + 1 - count
      {
        assert input[1..count] == input[1..count - 1] + [input[count - 1]];
        sb := sb + [c as char];
        c := Read(input, count);
        count := count + 1;
      }
      assert count - 1 == MessageEnd(input, 1);
      return Fail(AckError(b, sb)), count;
    }
    return Pass, count;
  }

  /** The reply a server sends: the status, the message bytes, and a line feed. */
  function Reply(status: byte, message: seq<byte>): seq<byte>
  {
    [status] + message + [LineFeed as byte]
  }

  /**
   * waitForAck reads back what Reply wrote: for a message free of zero bytes
   * and line feeds, the message ends just before the line feed, whatever the
   * stream holds after the reply.
   */
  lemma ReplyMessageEnd(status: byte, message: seq<byte>, rest: seq<byte>)
    requires forall k :: 0 <= k < |message| ==> message[k] != 0 && message[k] as int != LineFeed
    ensures var input := Reply(status, message) + rest;
      MessageEnd(input, 1) == |message| + 1 && input[1..|message| + 1] == message
  {
    var input := Reply(status, message) + rest;
    assert forall k :: 1 <= k < |message| + 1 ==> input[k] == message[k - 1];
    assert Read(input, |message| + 1) == LineFeed;
  }

  /** The message text waitForAck reports holds no line feed and no NUL. */
  lemma AckTextClean(input: seq<byte>)
    requires |input| > 0
    ensures var end := MessageEnd(input, 1);
      end <= |input| && forall k :: 0 <= k < |AsText(input[1..end])| ==>
        AsText(input[1..end])[k] != '\n' && AsText(input[1..end])[k] != '\0'
  {
    var end := MessageEnd(input, 1);
    forall k | 0 <= k < end - 1
      ensures AsText(input[1..end])[k] != '\n' && AsText(input[1..end])[k] != '\0'
    {
      assert !EndsMessage(Read(input, k + 1));
    }
  }

  /** An output stream: the bytes written, and how many of them have been flushed. */
  class OutputStream {
    var written: seq<byte>
    var flushed: nat

    constructor()
      ensures written == [] && flushed == 0
    {
      written := [];
      flushed := 0;
    }

    method Write(buf: array<byte>)
      modifies this
      ensures written == old(written) + buf[..] && flushed == old(flushed)
    {
      written := written + buf[..];
    }

    method Flush()
      modifies this
      ensures written == old(written) && flushed == |written|
    {
      flushed := |written|;
    }
  }

  /** sendAck: writes the single byte 0 and flushes it. */
  method SendAck(out: OutputStream)
    modifies out
    ensures out.written == old(out.written) + [0]
    ensures out.flushed == |out.written|
  {
    var buf := new byte[1];
    buf[0] := 0;
    out.Write(buf);
    out.Flush();
  }
}
