/** The AUTH message: the auth type in arg0, zero in arg1, and a token, signature or public key as payload. */
module AuthMessage {
  import opened Wire
  import MessageHeader
  import opened Messages

  const TYPE_TOKEN: word := 1
  const TYPE_SIGNATURE: word := 2
  const TYPE_RSAPUBLICKEY: word := 3

  function Type(m: Message): word
    requires m.Auth?
  {
    m.header.arg0
  }

  /** AuthMessage(type, data): an outgoing AUTH message whose getType is the given type. */
  function New(authType: word, data: ByteArray): (m: Message)
    ensures m.Auth? && m.header.command == MessageHeader.CMD_AUTH
    ensures Type(m) == authType && m.header.arg1 == 0 && m.data == data
    ensures Receivable(m) && Signed(m.header.dataLength) == |data|
  {
    var m := Auth(OutgoingHeader(MessageHeader.CMD_AUTH, authType, 0, data), data);
    OutgoingIsReceivable(m);
    m
  }

  /** Two AUTH messages built with different types are different messages. */
  lemma NewDistinguishesTypes(t1: word, t2: word, d1: ByteArray, d2: ByteArray)
    requires t1 != t2
    ensures New(t1, d1) != New(t2, d2)
  {
  }
}
