/**
 * The send and receive framing shared by AdbDevice and Device: a message is
 * the 24 header bytes in one transfer followed by the payload in another,
 * and each step is checked before the next one runs. The pipe is opened at
 * the start and closed on every path, as the `finally` blocks do.
 */
module Framing {
  import opened Wrappers
  import opened Wire
  import MessageHeader
  import opened Messages
  import opened Transport

  /** Since `before`, the log gained transfer events only. */
  predicate OnlyTransfers(before: seq<Event>, after: seq<Event>)
  {
    |after| >= |before| && after[..|before|] == before &&
    forall i | |before| <= i < |after| :: after[i].Sent? || after[i].Received?
  }

  lemma TransfersCompose(a: seq<Event>, b: seq<Event>, c: seq<Event>)
    requires OnlyTransfers(a, b) && OnlyTransfers(b, c)
    ensures OnlyTransfers(a, c)
  {
    assert c[..|a|] == c[..|b|][..|a|];
  }

  /** The pipe was opened once, then only transfers happened, then it was closed. */
  predicate Bracketed(before: PipeState, after: PipeState)
  {
    var b, a := before.log, after.log;
    !after.isOpen && |a| >= |b| + 2 && a[..|b| + 1] == b + [Opened] && a[|a| - 1] == Closed &&
    OnlyTransfers(b + [Opened], a[..|a| - 1])
  }

  /** The two transfers a message travels as. */
  function Frame(m: Message): seq<seq<byte>>
  {
    [MessageHeader.ToBytes(m.header), m.data]
  }

  /** Closing a pipe whose log shows an open followed by transfers brackets the call. */
  lemma CloseBrackets(p: PipeState, q: PipeState)
    requires OnlyTransfers(OpenPipe(p).log, q.log)
    ensures Bracketed(p, ClosePipe(q))
  {
    var a := ClosePipe(q).log;
    assert a[..|a| - 1] == q.log;
    assert a[..|p.log| + 1] == q.log[..|p.log| + 1];
  }

  /** The transfers of sendMessage: the header bytes, then the payload; a count that is off is an InvalidMessageException. */
  function WriteFrame(p: PipeState, m: Message): (r: (Outcome<Error>, PipeState))
    ensures r.1.incoming == p.incoming && r.1.isOpen == p.isOpen && OnlyTransfers(p.log, r.1.log)
    ensures r.0.Pass? <==> (|p.accepts| >= 2 && p.accepts[0] >= MessageHeader.Size &&
      Signed(m.header.dataLength) == (if p.accepts[1] <= |m.data| then p.accepts[1] else |m.data|))
    ensures r.0.Pass? && Signed(m.header.dataLength) == |m.data| ==>
      r.1 == p.(accepts := p.accepts[2..], log := p.log + [Sent(Frame(m)[0]), Sent(Frame(m)[1])])
  {
    var header := MessageHeader.ToBytes(m.header);
    var t1 := TransferOut(p, header);
    assert header[..MessageHeader.Size] == header;
    if t1.0.Failure? then (Fail(t1.0.error), t1.1)
    else if t1.0.value != MessageHeader.Size then (Fail(InvalidMessage(HeaderSizeSent(t1.0.value))), t1.1)
    else
      var t2 := TransferOut(t1.1, m.data);
      assert m.data[..|m.data|] == m.data;
      assert t2.0.Success? ==> p.accepts[1..][1..] == p.accepts[2..];
      if t2.0.Failure? then (Fail(t2.0.error), t2.1)
      else if t2.0.value != Signed(m.header.dataLength) then (Fail(InvalidMessage(DataSizeSent(t2.0.value))), t2.1)
      else (Pass, t2.1)
  }

  /** sendMessage: open, the two transfers, and close on every path. */
  function SendSpec(p: PipeState, m: Message): (r: (Outcome<Error>, PipeState))
    ensures Bracketed(p, r.1) && r.1.incoming == p.incoming
    ensures r.0 == WriteFrame(p, m).0
  {
    var w := WriteFrame(OpenPipe(p), m);
    CloseBrackets(p, w.1);
    (w.0, ClosePipe(w.1))
  }

  /**
   * The header stage of receiveMessage: 24 bytes, a valid header, and a
   * length the payload buffer can be allocated with (a negative one throws
   * NegativeArraySizeException).
   */
  function ReadHeader(p: PipeState): (r: (Result<MessageHeader.Header, Error>, PipeState))
    ensures r.1.accepts == p.accepts && r.1.isOpen == p.isOpen && OnlyTransfers(p.log, r.1.log)
    ensures r.0.Failure? && r.0.error == Usb ==> |p.incoming| == 0 && r.1 == p
    ensures r.0.Failure? ==> (r.0.error == Usb || r.0.error == NegativeArraySize ||
      (r.0.error.InvalidMessage? && (r.0.error.reason.HeaderSize? || r.0.error.reason.HeaderChecksum?)))
    ensures r.0.Failure? && r.0.error != Usb ==> |p.incoming| >= 1 && r.1.incoming == p.incoming[1..]
    ensures r.0.Success? <==> (|p.incoming| >= 1 && |p.incoming[0]| >= MessageHeader.Size &&
      var h := MessageHeader.FromBytes(p.incoming[0][..MessageHeader.Size]).value;
      MessageHeader.IsValid(h) && Signed(h.dataLength) >= 0)
    ensures r.0.Success? ==>
      MessageHeader.FromBytes(p.incoming[0][..MessageHeader.Size]) == Success(r.0.value) &&
      r.1.incoming == p.incoming[1..] && r.1.log == p.log + [Received(p.incoming[0][..MessageHeader.Size])]
  {
    var t := TransferIn(p, MessageHeader.Size);
    if t.0.Failure? then (Failure(t.0.error), t.1)
    else if |t.0.value| != MessageHeader.Size then (Failure(InvalidMessage(HeaderSize(|t.0.value|))), t.1)
    else
      var header := MessageHeader.FromBytes(t.0.value).value;
      if !MessageHeader.IsValid(header) then (Failure(InvalidMessage(HeaderChecksum)), t.1)
      else if Signed(header.dataLength) < 0 then (Failure(NegativeArraySize), t.1)
      else
        assert t.0.value == p.incoming[0][..MessageHeader.Size];
        (Success(header), t.1)
  }

  /** The payload stage: exactly dataLength bytes, a known command, then the checksum. */
  function ReadPayload(p: PipeState, header: MessageHeader.Header): (r: (Result<Message, Error>, PipeState))
    requires MessageHeader.IsValid(header) && Signed(header.dataLength) >= 0
    ensures r.1.accepts == p.accepts && r.1.isOpen == p.isOpen && OnlyTransfers(p.log, r.1.log)
    ensures r.0.Success? ==> Receivable(r.0.value) && r.0.value.header == header
    ensures r.0.Success? ==> |p.incoming| >= 1 && r.0.value.data <= p.incoming[0] && r.1.incoming == p.incoming[1..]
    ensures r.0.Failure? ==> (r.0.error == Usb || r.0.error.UnsupportedCommand? ||
      (r.0.error.InvalidMessage? && (r.0.error.reason.DataSize? || r.0.error.reason.DataChecksum?)))
  {
    var length := Signed(header.dataLength);
    var t := TransferIn(p, length);
    if t.0.Failure? then (Failure(t.0.error), t.1)
    else if |t.0.value| != length then (Failure(InvalidMessage(DataSize(|t.0.value|))), t.1)
    else
      assert t.0.value == p.incoming[0][..length];
      var created := Create(header, t.0.value);
      if created.Failure? then (Failure(created.error), t.1)
      else if !IsValid(created.value) then (Failure(InvalidMessage(DataChecksum)), t.1)
      else (Success(created.value), t.1)
  }

  /**
   * Which outcome the payload stage has, for every input: a USB failure
   * exactly when nothing arrives, a short payload exactly when fewer than
   * dataLength bytes arrive, an unknown command exactly when Message.create
   * fails on the first dataLength bytes, a checksum error exactly when the
   * message it creates is invalid, and success otherwise, with that message.
   */
  lemma ReadPayloadOutcomes(p: PipeState, header: MessageHeader.Header)
    requires MessageHeader.IsValid(header) && Signed(header.dataLength) >= 0
    ensures ReadPayload(p, header).0 == Failure(Usb) <==> |p.incoming| == 0
    ensures (ReadPayload(p, header).0.Failure? && ReadPayload(p, header).0.error.InvalidMessage? && ReadPayload(p, header).0.error.reason.DataSize?) <==>
      (|p.incoming| >= 1 && |p.incoming[0]| < Signed(header.dataLength))
    ensures (ReadPayload(p, header).0.Failure? && ReadPayload(p, header).0.error.UnsupportedCommand?) <==>
      (|p.incoming| >= 1 && |p.incoming[0]| >= Signed(header.dataLength) &&
       Create(header, p.incoming[0][..Signed(header.dataLength)]).Failure?)
    ensures ReadPayload(p, header).0 == Failure(InvalidMessage(DataChecksum)) <==>
      (|p.incoming| >= 1 && |p.incoming[0]| >= Signed(header.dataLength) &&
       var created := Create(header, p.incoming[0][..Signed(header.dataLength)]);
       created.Success? && !IsValid(created.value))
    ensures ReadPayload(p, header).0.Success? <==>
      (|p.incoming| >= 1 && |p.incoming[0]| >= Signed(header.dataLength) &&
       var created := Create(header, p.incoming[0][..Signed(header.dataLength)]);
       created.Success? && IsValid(created.value))
    ensures ReadPayload(p, header).0.Success? ==> ReadPayload(p, header).0 == Create(header, p.incoming[0][..Signed(header.dataLength)])
  {
    var length := Signed(header.dataLength);
    if |p.incoming| >= 1 && |p.incoming[0]| >= length {
      assert TransferIn(p, length).0.value == p.incoming[0][..length];
    }
  }

  /** receiveMessage: open, the header stage, the payload stage, and close on every path. */
  function ReceiveSpec(p: PipeState): (r: (Result<Message, Error>, PipeState))
    ensures Bracketed(p, r.1) && r.1.accepts == p.accepts
    ensures r.0.Success? ==> Receivable(r.0.value)
    ensures r.0.Success? ==> (|p.incoming| >= 2 && |p.incoming[0]| >= MessageHeader.Size &&
      MessageHeader.FromBytes(p.incoming[0][..MessageHeader.Size]) == Success(r.0.value.header) &&
      r.0.value.data <= p.incoming[1] && r.1.incoming == p.incoming[2..])
  {
    var p1 := OpenPipe(p);
    var h := ReadHeader(p1);
    if h.0.Failure? then
      CloseBrackets(p, h.1);
      (Failure(h.0.error), ClosePipe(h.1))
    else
      var m := ReadPayload(h.1, h.0.value);
      TransfersCompose(p1.log, h.1.log, m.1.log);
      CloseBrackets(p, m.1);
      assert m.0.Success? ==> h.1.incoming[1..] == p.incoming[2..];
      (m.0, ClosePipe(m.1))
  }

  lemma DropTwo(chunks: seq<seq<byte>>)
    requires |chunks| >= 2
    ensures chunks[1..][1..] == chunks[2..]
  {
  }

  lemma FirstTwo(chunks: seq<seq<byte>>, a: seq<byte>, b: seq<byte>)
    requires |chunks| >= 2 && chunks[..2] == [a, b]
    ensures chunks[0] == a && chunks[1] == b
  {
    assert chunks[..2][0] == a && chunks[..2][1] == b;
  }

  /** A message whose header states its payload length is sent as its frame when the device takes every byte. */
  lemma {:induction false} SendFrame(p: PipeState, m: Message)
    requires Signed(m.header.dataLength) == |m.data|
    requires |p.accepts| >= 2 && p.accepts[0] >= MessageHeader.Size && p.accepts[1] >= |m.data|
    ensures SendSpec(p, m).0 == Pass
    ensures SendSpec(p, m).1 == p.(accepts := p.accepts[2..], isOpen := false,
      log := p.log + [Opened, Sent(Frame(m)[0]), Sent(Frame(m)[1]), Closed])
  {
    assert p.accepts[1..][1..] == p.accepts[2..];
  }

  /** The frame of a receivable message is received as that message. */
  lemma {:induction false} ReceiveFrame(p: PipeState, m: Message)
    requires Receivable(m)
    requires |p.incoming| >= 2 && p.incoming[..2] == Frame(m)
    ensures ReceiveSpec(p).0 == Success(m)
    ensures ReceiveSpec(p).1.incoming == p.incoming[2..] && ReceiveSpec(p).1.accepts == p.accepts
    ensures ReceiveSpec(p).1.log == p.log + [Opened, Received(Frame(m)[0]), Received(Frame(m)[1]), Closed]
    ensures !ReceiveSpec(p).1.isOpen
  {
    FirstTwo(p.incoming, Frame(m)[0], Frame(m)[1]);
    var p1 := OpenPipe(p);
    var p2 := p1.(incoming := p1.incoming[1..], log := p1.log + [Received(Frame(m)[0])]);
    assert ReadHeader(p1) == (Success(m.header), p2) by {
      HeaderOfFrame(p1, m);
    }
    var p3 := p2.(incoming := p2.incoming[1..], log := p2.log + [Received(m.data)]);
    assert ReadPayload(p2, m.header) == (Success(m), p3) by {
      assert p2.incoming[0] == p.incoming[1];
      PayloadOfFrame(p2, m);
    }
    assert ReceiveSpec(p) == (Success(m), ClosePipe(p3)) by {
      ReceiveStages(p, m.header, p2);
    }
    DropTwo(p.incoming);
  }

  /** Once the header stage succeeds, receiveMessage is the payload stage followed by the close. */
  lemma ReceiveStages(p: PipeState, h: MessageHeader.Header, q: PipeState)
    requires ReadHeader(OpenPipe(p)) == (Success(h), q)
    ensures MessageHeader.IsValid(h) && Signed(h.dataLength) >= 0
    ensures ReceiveSpec(p) == (ReadPayload(q, h).0, ClosePipe(ReadPayload(q, h).1))
  {
  }

  /** The header stage takes the first chunk of a receivable message's frame as its header. */
  lemma HeaderOfFrame(p: PipeState, m: Message)
    requires Receivable(m) && |p.incoming| >= 1 && p.incoming[0] == MessageHeader.ToBytes(m.header)
    ensures ReadHeader(p) == (Success(m.header), p.(incoming := p.incoming[1..], log := p.log + [Received(p.incoming[0])]))
  {
    MessageHeader.DecodeEncode(m.header);
    assert p.incoming[0][..MessageHeader.Size] == p.incoming[0];
  }

  /** The payload stage takes the next chunk as the payload of that message. */
  lemma PayloadOfFrame(p: PipeState, m: Message)
    requires Receivable(m) && |p.incoming| >= 1 && p.incoming[0] == m.data
    ensures ReadPayload(p, m.header) == (Success(m), p.(incoming := p.incoming[1..], log := p.log + [Received(m.data)]))
  {
    CreateInvertsKind(m);
    assert p.incoming[0][..|m.data|] == m.data;
  }

  /** A header the receiver rejects stops the receive before the payload transfer. */
  lemma {:induction false} HeaderErrorsReadOneChunk(p: PipeState)
    requires var e := ReceiveSpec(p).0;
      e == Failure(InvalidMessage(HeaderChecksum)) || e == Failure(NegativeArraySize) ||
      (e.Failure? && e.error.InvalidMessage? && e.error.reason.HeaderSize?)
    ensures ReceiveSpec(p).1.incoming == p.incoming[1..]
  {
    var h := ReadHeader(OpenPipe(p));
    assert h.0.Failure?;
  }

  /** A header with an unknown command fails as unsupported whatever the payload's checksum. */
  lemma {:induction false} UnknownCommandBeforeChecksum(p: PipeState, h: MessageHeader.Header, data: ByteArray)
    requires MessageHeader.IsValid(h) && Signed(h.dataLength) == |data|
    requires Create(h, data).Failure?
    requires |p.incoming| >= 2 && p.incoming[..2] == [MessageHeader.ToBytes(h), data]
    ensures ReceiveSpec(p).0 == Failure(UnsupportedCommand(h.command))
  {
    FirstTwo(p.incoming, MessageHeader.ToBytes(h), data);
    MessageHeader.DecodeEncode(h);
  }

  /** A frame with one payload byte changed is rejected by the checksum check. */
  lemma {:induction false} CorruptedPayloadRejected(p: PipeState, m: Message, i: nat, x: byte)
    requires Receivable(m) && i < |m.data| && x != m.data[i]
    requires |p.incoming| >= 2 && p.incoming[..2] == [MessageHeader.ToBytes(m.header), m.data[i := x]]
    ensures ReceiveSpec(p).0 == Failure(InvalidMessage(DataChecksum))
  {
    FirstTwo(p.incoming, MessageHeader.ToBytes(m.header), m.data[i := x]);
    var p1 := OpenPipe(p);
    HeaderOfFrame(p1, m);
    var p2 := p1.(incoming := p1.incoming[1..], log := p1.log + [Received(p1.incoming[0])]);
    ReceiveStages(p, m.header, p2);
    assert p2.incoming[0] == m.data[i := x];
    assert ReadPayload(p2, m.header).0 == Failure(InvalidMessage(DataChecksum)) by {
      CreateInvertsKind(m);
      ByteChangeInvalidates(m, i, x);
      assert Create(m.header, m.data[i := x]) == Success(m.(data := m.data[i := x]));
      assert p2.incoming[0][..|m.data|] == m.data[i := x];
    }
  }

  /** sendMessage over an open-able pipe. */
  method Send(pipe: Pipe, m: Message) returns (r: Outcome<Error>)
    modifies pipe
    ensures (r, pipe.State()) == SendSpec(old(pipe.State()), m)
  {
    pipe.Open();
    var header := MessageHeader.GetBytes(m.header);
    var sent := pipe.SubmitOut(header[..]);
    if sent.Failure? {
      r := Fail(sent.error);
    } else if sent.value != MessageHeader.Size {
      r := Fail(InvalidMessage(HeaderSizeSent(sent.value)));
    } else {
      sent := pipe.SubmitOut(m.data);
      if sent.Failure? {
        r := Fail(sent.error);
      } else if sent.value != Signed(m.header.dataLength) {
        r := Fail(InvalidMessage(DataSizeSent(sent.value)));
      } else {
        r := Pass;
      }
    }
    pipe.Close();
  }

  /** The bytes the header transfer delivers. */
  function ReadHeaderBytes(p: PipeState): seq<byte>
    requires |p.incoming| > 0
  {
    TransferIn(p, MessageHeader.Size).0.value
  }

  /** The header stage: a fresh 24-byte buffer filled by one transfer and decoded. */
  method ReceiveHeader(pipe: Pipe) returns (r: Result<MessageHeader.Header, Error>)
    requires pipe.isOpen
    modifies pipe
    ensures (r, pipe.State()) == ReadHeader(old(pipe.State()))
  {
    var headerBytes := new byte[MessageHeader.Size];
    var received := pipe.SubmitIn(headerBytes);
    if received.Failure? {
      return Failure(received.error);
    }
    if received.value != MessageHeader.Size {
      return Failure(InvalidMessage(HeaderSize(received.value)));
    }
    assert headerBytes[..] == ReadHeaderBytes(old(pipe.State()));
    var decoded := MessageHeader.Decode(headerBytes);
    var header := decoded.value;
    if !MessageHeader.IsValid(header) {
      r := Failure(InvalidMessage(HeaderChecksum));
    } else if Signed(header.dataLength) < 0 {
      r := Failure(NegativeArraySize);
    } else {
      r := Success(header);
    }
  }

  /** The payload stage: a fresh dataLength-byte buffer filled by one transfer, dispatched and checked. */
  method ReceivePayload(pipe: Pipe, header: MessageHeader.Header) returns (r: Result<Message, Error>)
    requires pipe.isOpen
    requires MessageHeader.IsValid(header) && Signed(header.dataLength) >= 0
    modifies pipe
    ensures (r, pipe.State()) == ReadPayload(old(pipe.State()), header)
  {
    var length := Signed(header.dataLength);
    var data := new byte[length];
    var received := pipe.SubmitIn(data);
    if received.Failure? {
      return Failure(received.error);
    }
    if received.value != length {
      return Failure(InvalidMessage(DataSize(received.value)));
    }
    assert data[..] == TransferIn(old(pipe.State()), length).0.value;
    var created := Create(header, data[..]);
    if created.Failure? {
      return Failure(created.error);
    }
    var valid := CheckValid(created.value);
    r := if valid then Success(created.value) else Failure(InvalidMessage(DataChecksum));
  }

  /** receiveMessage: the pipe is closed whichever stage fails. */
  method Receive(pipe: Pipe) returns (r: Result<Message, Error>)
    modifies pipe
    ensures (r, pipe.State()) == ReceiveSpec(old(pipe.State()))
  {
    pipe.Open();
    var header := ReceiveHeader(pipe);
    if header.Failure? {
      r := Failure(header.error);
    } else {
      r := ReceivePayload(pipe, header.value);
    }
    pipe.Close();
  }
}
