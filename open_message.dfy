/** The OPEN message: the opener's local stream ID in arg0, zero in arg1, a NUL-ended destination as payload. */
module OpenMessage {
  import opened Wire
  import MessageHeader
  import opened Messages

  function LocalId(m: Message): word
    requires m.Open?
  {
    m.header.arg0
  }

  /** OpenMessage(localId, destination bytes). */
  function New(localId: word, destination: ByteArray): (m: Message)
    ensures m.Open? && m.header.command == MessageHeader.CMD_OPEN
    ensures LocalId(m) == localId && m.header.arg1 == 0 && m.data == destination
    ensures Receivable(m)
  {
    var m := Open(OutgoingHeader(MessageHeader.CMD_OPEN, localId, 0, destination), destination);
    OutgoingIsReceivable(m);
    m
  }

  /** OpenMessage(localId, destination string): the destination with exactly one NUL appended. */
  function FromString(localId: word, destination: seq<byte>): (m: Message)
    requires |destination| < MaxArrayLength
    ensures m == New(localId, destination + [NUL])
    ensures m.data[..|destination|] == destination && m.data[|destination|..] == [NUL]
  {
    New(localId, destination + [NUL])
  }

  /** getDestination: the payload without its trailing NULs (the loop is Messages.StripNul). */
  function Destination(m: Message): (s: seq<byte>)
    requires m.Open?
    ensures s <= m.data && (|s| == 0 || s[|s| - 1] != NUL)
  {
    TrimNul(m.data)
  }

  /** The destination given to the string constructor is read back when it does not end in NUL. */
  lemma DestinationRoundTrip(localId: word, destination: seq<byte>)
    requires |destination| < MaxArrayLength
    requires |destination| == 0 || destination[|destination| - 1] != NUL
    ensures Destination(FromString(localId, destination)) == destination
    ensures LocalId(FromString(localId, destination)) == localId
  {
    TrimNulAppendNul(destination, 1);
    assert destination + seq(1, _ => NUL) == destination + [NUL];
  }

  /** Trailing NULs of the destination itself are lost on the way back. */
  lemma TrailingNulsLost(localId: word, destination: seq<byte>, n: nat)
    requires |destination| + n < MaxArrayLength
    requires |destination| == 0 || destination[|destination| - 1] != NUL
    ensures Destination(FromString(localId, destination + seq(n, _ => NUL))) == destination
  {
    TrimNulAppendNul(destination, n + 1);
    assert destination + seq(n, _ => NUL) + [NUL] == destination + seq(n + 1, _ => NUL);
  }
}
