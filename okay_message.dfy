/** The OKAY message: the sender's ID in arg0 (getRemoteId), the receiver's in arg1 (getLocalId), no payload. */
module OkayMessage {
  import opened Wire
  import MessageHeader
  import opened Messages

  function RemoteId(m: Message): word
    requires m.Okay?
  {
    m.header.arg0
  }

  function LocalId(m: Message): word
    requires m.Okay?
  {
    m.header.arg1
  }

  /** OkayMessage(remoteId, localId): both getters return the constructor's arguments. */
  function New(remoteId: word, localId: word): (m: Message)
    ensures m.Okay? && m.header.command == MessageHeader.CMD_OKAY
    ensures RemoteId(m) == remoteId && LocalId(m) == localId
    ensures m.data == [] && m.header.dataLength == 0 && m.header.dataChecksum == 0
    ensures Receivable(m)
  {
    var m := Okay(OutgoingHeader(MessageHeader.CMD_OKAY, remoteId, localId, []), []);
    OutgoingIsReceivable(m);
    m
  }
}
