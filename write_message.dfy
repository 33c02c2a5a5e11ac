/**
 * The WRTE message. The constructor stores the given ID in arg0 and zero in
 * arg1, while getRemoteId reads arg1.
 */
module WriteMessage {
  import opened Wire
  import MessageHeader
  import opened Messages

  function RemoteId(m: Message): word
    requires m.Write?
  {
    m.header.arg1
  }

  /** WriteMessage(remoteId, data): the ID lands in arg0, and getRemoteId of the result is 0. */
  function New(remoteId: word, data: ByteArray): (m: Message)
    ensures m.Write? && m.header.command == MessageHeader.CMD_WRTE
    ensures m.header.arg0 == remoteId && m.header.arg1 == 0 && m.data == data
    ensures RemoteId(m) == 0
    ensures Receivable(m)
  {
    var m := Write(OutgoingHeader(MessageHeader.CMD_WRTE, remoteId, 0, data), data);
    OutgoingIsReceivable(m);
    m
  }

  /** WriteMessage(remoteId, string): the string with exactly one NUL appended. */
  function FromString(remoteId: word, s: seq<byte>): (m: Message)
    requires |s| < MaxArrayLength
    ensures m == New(remoteId, s + [NUL])
    ensures m.data[..|s|] == s && m.data[|s|..] == [NUL]
  {
    New(remoteId, s + [NUL])
  }

  /** getDataAsString: the payload without its trailing NULs (the loop is Messages.StripNul). */
  function DataAsString(m: Message): (s: seq<byte>)
    requires m.Write?
    ensures s <= m.data && (|s| == 0 || s[|s| - 1] != NUL)
  {
    TrimNul(m.data)
  }

  /** getRemoteId returns the ID passed to the constructor only when that ID is 0. */
  lemma RemoteIdIsLost(remoteId: word, data: ByteArray)
    ensures RemoteId(New(remoteId, data)) == remoteId <==> remoteId == 0
  {
  }

  /** A string without trailing NUL is read back by getDataAsString. */
  lemma DataAsStringRoundTrip(remoteId: word, s: seq<byte>)
    requires |s| < MaxArrayLength
    requires |s| == 0 || s[|s| - 1] != NUL
    ensures DataAsString(FromString(remoteId, s)) == s
  {
    TrimNulAppendNul(s, 1);
    assert s + seq(1, _ => NUL) == s + [NUL];
  }
}
