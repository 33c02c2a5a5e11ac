/** The CLSE message: the sender's stream ID in arg0 (getLocalId), the peer's in arg1 (getRemoteId), no payload. */
module CloseMessage {
  import opened Wire
  import MessageHeader
  import opened Messages

  function LocalId(m: Message): word
    requires m.Close?
  {
    m.header.arg0
  }

  function RemoteId(m: Message): word
    requires m.Close?
  {
    m.header.arg1
  }

  /** CloseMessage(localId, remoteId): both getters return the constructor's arguments. */
  function New(localId: word, remoteId: word): (m: Message)
    ensures m.Close? && m.header.command == MessageHeader.CMD_CLSE
    ensures LocalId(m) == localId && RemoteId(m) == remoteId
    ensures m.data == [] && m.header.dataLength == 0 && m.header.dataChecksum == 0
    ensures Receivable(m)
  {
    var m := Close(OutgoingHeader(MessageHeader.CMD_CLSE, localId, remoteId, []), []);
    OutgoingIsReceivable(m);
    m
  }
}
