/**
 * The ADB demo: send CONNECT, answer AUTH challenges until the device sends
 * its CONNECT, then open the "sync:" service and close it again. The signer
 * (the RSA cipher under the private key) and the public key are parameters;
 * printing is left out, and System.exit is the Exited ending, which leaves
 * the interface claimed because the JVM stops before the `finally` block.
 */
module AdbDemo {
  import opened Wrappers
  import opened Wire
  import opened Messages
  import MessageHeader
  import opened Transport
  import Framing
  import Adb
  import ConnectMessage
  import JavaString
  import AuthMessage
  import OpenMessage
  import OkayMessage
  import CloseMessage
  import opened AdbDevice

  /** The two flags of the handshake loop. */
  datatype AuthState = AuthState(triedAuthentication: bool, sentPublicKey: bool)

  /** Why the demo calls System.exit(1). */
  datatype Exit = NoDevices | AuthenticationFailed | UnexpectedMessage(message: Message) | OpenFailed(message: Message)

  datatype Ending = Connected | Finished | Exited(exit: Exit) | Threw(error: Error)

  /** What the handshake loop does with one received message. */
  datatype Step = Accept | Reply(message: Message, next: AuthState) | Stop(exit: Exit) | Throw(error: Error)

  type Cipher = seq<byte> -> Option<ByteArray>

  /** The replies still possible from a state: the loop's termination measure. */
  function Rank(s: AuthState): nat
  {
    match s
    case AuthState(false, false) => 3
    case AuthState(true, false) => 2
    case AuthState(false, true) => 1
    case AuthState(true, true) => 0
  }

  const INITIAL: AuthState := AuthState(false, false)

  /** The CONNECT the demo sends first: system type "host", serial "12345678", banner "ADB Demo". */
  function FirstMessage(): (m: Message)
    ensures m.Connect? && Receivable(m)
    ensures ConnectMessage.Version(m) == 0x0100_0000 && ConnectMessage.MaxData(m) == 4096
  {
    ConnectMessage.FromStrings(Some(ConnectMessage.SYSTEM_TYPE_HOST), Some(Ascii("12345678")), Some(Ascii("ADB Demo"))).value
  }

  /**
   * The host's identity in the first CONNECT is "host:12345678:ADB Demo" and
   * one NUL, and the device reads back exactly those three parts.
   */
  lemma FirstMessageIdentity()
    ensures FirstMessage().data == Ascii("host") + [COLON] + Ascii("12345678") + [COLON] + Ascii("ADB Demo") + [NUL]
    ensures ConnectMessage.SystemType(FirstMessage()) == Success(Ascii("host"))
    ensures ConnectMessage.SerialNo(FirstMessage()) == Success(Ascii("12345678"))
    ensures ConnectMessage.Banner(FirstMessage()) == Success(Ascii("ADB Demo"))
  {
    var host := ConnectMessage.SYSTEM_TYPE_HOST;
    var serial := Ascii("12345678");
    var banner := Ascii("ADB Demo");
    assert JavaString.ColonFree(host) && JavaString.ColonFree(serial) && JavaString.ColonFree(banner);
    ConnectMessage.IdentityRoundTrip(0x0100_0000, 4096, host, serial, banner);
    assert JavaString.Join([serial, banner]) == serial + [COLON] + banner;
  }

  const SYNC: seq<byte> := Ascii("sync:")

  /**
   * One pass of the loop body. CONNECT ends the loop. Any AUTH, whatever its
   * type, is answered: first with a signature of its payload, then with the
   * public key (clearing triedAuthentication), and once both were tried the
   * demo gives up. Anything else is unexpected.
   */
  function HandshakeStep(s: AuthState, m: Message, cipher: Cipher, publicKey: Option<Adb.KeyFile>): (r: Step)
    ensures r.Reply? ==> Rank(r.next) < Rank(s) && r.message.Auth? && Receivable(r.message)
    ensures r.Reply? || r.Throw? ==> m.Auth?
    ensures r.Throw? ==> r.error == KeyUnavailable
    ensures r.Accept? <==> m.Connect?
    ensures !m.Connect? && !m.Auth? ==> r == Stop(UnexpectedMessage(m))
    ensures m.Auth? && s.triedAuthentication && s.sentPublicKey ==> r == Stop(AuthenticationFailed)
  {
    if m.Connect? then Accept
    else if m.Auth? then
      if !s.triedAuthentication then
        match Adb.SignToken(cipher, m.data)
        case Success(signature) => Reply(AuthMessage.New(AuthMessage.TYPE_SIGNATURE, signature), s.(triedAuthentication := true))
        case Failure(e) => Throw(e)
      else if !s.sentPublicKey then
        match publicKey
        case Some(key) => Reply(AuthMessage.New(AuthMessage.TYPE_RSAPUBLICKEY, Adb.PublicKeyPayload(key)), AuthState(false, true))
        case None => Throw(KeyUnavailable)
      else Stop(AuthenticationFailed)
    else Stop(UnexpectedMessage(m))
  }

  /**
   * The handshake over a sequence of received messages: the replies sent and
   * how the loop ends. Each reply answers an AUTH, in order, and there are at
   * most Rank(s) of them; the loop connects exactly when the message after the
   * answered ones is a CONNECT, and runs out of messages (the USB read fails)
   * exactly when every message was answered.
   */
  function Handshake(s: AuthState, inbox: seq<Message>, cipher: Cipher, publicKey: Option<Adb.KeyFile>)
    : (r: (seq<Message>, Ending))
    ensures |r.0| <= Rank(s) && |r.0| <= |inbox|
    ensures forall i | 0 <= i < |r.0| :: inbox[i].Auth? && r.0[i].Auth? && Receivable(r.0[i])
    ensures r.1 == Connected <==> |r.0| < |inbox| && inbox[|r.0|].Connect?
    ensures r.1 == Threw(Usb) <==> |r.0| == |inbox|
    ensures r.1.Threw? && r.1 != Threw(Usb) ==> r.1 == Threw(KeyUnavailable) && inbox[|r.0|].Auth?
    ensures r.1 != Finished
    decreases |inbox|
  {
    if |inbox| == 0 then ([], Threw(Usb))
    else
      match HandshakeStep(s, inbox[0], cipher, publicKey)
      case Accept => ([], Connected)
      case Reply(m, next) =>
        var rest := Handshake(next, inbox[1..], cipher, publicKey);
        ([m] + rest.0, rest.1)
      case Stop(e) => ([], Exited(e))
      case Throw(e) => ([], Threw(e))
  }

  /** A received CONNECT ends the handshake at once, with nothing sent. */
  lemma ConnectEndsHandshake(s: AuthState, inbox: seq<Message>, cipher: Cipher, publicKey: Option<Adb.KeyFile>)
    requires |inbox| > 0 && inbox[0].Connect?
    ensures Handshake(s, inbox, cipher, publicKey) == ([], Connected)
  {
  }

  /** Anything but CONNECT or AUTH ends the handshake as unexpected, with nothing sent. */
  lemma UnexpectedEndsHandshake(s: AuthState, inbox: seq<Message>, cipher: Cipher, publicKey: Option<Adb.KeyFile>)
    requires |inbox| > 0 && !inbox[0].Connect? && !inbox[0].Auth?
    ensures Handshake(s, inbox, cipher, publicKey) == ([], Exited(UnexpectedMessage(inbox[0])))
  {
  }

  /** The AUTH type in arg0 is never looked at: only the payload matters. */
  lemma AuthTypeIgnored(s: AuthState, h1: MessageHeader.Header, h2: MessageHeader.Header, data: ByteArray,
                        cipher: Cipher, publicKey: Option<Adb.KeyFile>)
    ensures HandshakeStep(s, Auth(h1, data), cipher, publicKey) == HandshakeStep(s, Auth(h2, data), cipher, publicKey)
  {
  }

  /**
   * Four AUTH challenges in a row are answered with a signature, the public
   * key and a second signature, and the fourth ends in an authentication failure.
   */
  lemma FallbackOrder(inbox: seq<Message>, cipher: Cipher, key: Adb.KeyFile, m1: Message, m2: Message, m3: Message)
    requires |inbox| == 4 && inbox[0].Auth? && inbox[1].Auth? && inbox[2].Auth? && inbox[3].Auth?
    requires cipher(Adb.SigningInput(inbox[0].data)).Some? && cipher(Adb.SigningInput(inbox[2].data)).Some?
    requires m1 == AuthMessage.New(AuthMessage.TYPE_SIGNATURE, cipher(Adb.SigningInput(inbox[0].data)).value)
    requires m2 == AuthMessage.New(AuthMessage.TYPE_RSAPUBLICKEY, Adb.PublicKeyPayload(key))
    requires m3 == AuthMessage.New(AuthMessage.TYPE_SIGNATURE, cipher(Adb.SigningInput(inbox[2].data)).value)
    ensures Handshake(INITIAL, inbox, cipher, Some(key)) == ([m1, m2, m3], Exited(AuthenticationFailed))
  {
    assert Handshake(AuthState(true, false), inbox[1..], cipher, Some(key)) == ([m2, m3], Exited(AuthenticationFailed)) by {
      var rest := inbox[1..];
      assert rest[0] == inbox[1] && rest[1] == inbox[2] && rest[2] == inbox[3];
      KeyThenSignature(rest, cipher, key);
    }
    assert HandshakeStep(INITIAL, inbox[0], cipher, Some(key)) == Reply(m1, AuthState(true, false)) by {
      SignatureReply(INITIAL, inbox[0], cipher, Some(key));
    }
    ReplyStep(INITIAL, inbox, cipher, Some(key), m1, AuthState(true, false), [m2, m3], Exited(AuthenticationFailed));
    assert [m1] + [m2, m3] == [m1, m2, m3];
  }

  /** After a signature, the handshake answers the next AUTH with the public key, then signs once more. */
  lemma KeyThenSignature(inbox: seq<Message>, cipher: Cipher, key: Adb.KeyFile)
    requires |inbox| == 3 && inbox[0].Auth? && inbox[1].Auth? && inbox[2].Auth?
    requires cipher(Adb.SigningInput(inbox[1].data)).Some?
    ensures Handshake(AuthState(true, false), inbox, cipher, Some(key)) ==
      ([AuthMessage.New(AuthMessage.TYPE_RSAPUBLICKEY, Adb.PublicKeyPayload(key)),
        AuthMessage.New(AuthMessage.TYPE_SIGNATURE, cipher(Adb.SigningInput(inbox[1].data)).value)],
       Exited(AuthenticationFailed))
  {
    var m2 := AuthMessage.New(AuthMessage.TYPE_RSAPUBLICKEY, Adb.PublicKeyPayload(key));
    var m3 := AuthMessage.New(AuthMessage.TYPE_SIGNATURE, cipher(Adb.SigningInput(inbox[1].data)).value);
    assert Handshake(AuthState(false, true), inbox[1..], cipher, Some(key)) == ([m3], Exited(AuthenticationFailed)) by {
      var rest := inbox[1..];
      assert rest[0] == inbox[1] && rest[1] == inbox[2];
      SignatureThenGiveUp(rest, cipher, Some(key));
    }
    assert HandshakeStep(AuthState(true, false), inbox[0], cipher, Some(key)) == Reply(m2, AuthState(false, true)) by {
      KeyReply(AuthState(true, false), inbox[0], cipher, key);
    }
    ReplyStep(AuthState(true, false), inbox, cipher, Some(key), m2, AuthState(false, true), [m3], Exited(AuthenticationFailed));
    assert [m2] + [m3] == [m2, m3];
  }

  /** After the public key, the handshake signs one more AUTH and gives up at the next. */
  lemma SignatureThenGiveUp(inbox: seq<Message>, cipher: Cipher, publicKey: Option<Adb.KeyFile>)
    requires |inbox| == 2 && inbox[0].Auth? && inbox[1].Auth?
    requires cipher(Adb.SigningInput(inbox[0].data)).Some?
    ensures Handshake(AuthState(false, true), inbox, cipher, publicKey) ==
      ([AuthMessage.New(AuthMessage.TYPE_SIGNATURE, cipher(Adb.SigningInput(inbox[0].data)).value)],
       Exited(AuthenticationFailed))
  {
    var m3 := AuthMessage.New(AuthMessage.TYPE_SIGNATURE, cipher(Adb.SigningInput(inbox[0].data)).value);
    var rest := inbox[1..];
    assert rest[0] == inbox[1];
    GiveUp(rest, cipher, publicKey);
    SignatureReply(AuthState(false, true), inbox[0], cipher, publicKey);
    ReplyStep(AuthState(false, true), inbox, cipher, publicKey, m3, AuthState(true, true), [], Exited(AuthenticationFailed));
    assert [m3] + [] == [m3];
  }

  /** With both flags set, an AUTH ends the handshake as an authentication failure. */
  lemma GiveUp(inbox: seq<Message>, cipher: Cipher, publicKey: Option<Adb.KeyFile>)
    requires |inbox| > 0 && inbox[0].Auth?
    ensures Handshake(AuthState(true, true), inbox, cipher, publicKey) == ([], Exited(AuthenticationFailed))
  {
  }

  /** Before a signature was tried, an AUTH is answered with the signature of its payload. */
  lemma SignatureReply(s: AuthState, m: Message, cipher: Cipher, publicKey: Option<Adb.KeyFile>)
    requires m.Auth? && !s.triedAuthentication && cipher(Adb.SigningInput(m.data)).Some?
    ensures HandshakeStep(s, m, cipher, publicKey) ==
      Reply(AuthMessage.New(AuthMessage.TYPE_SIGNATURE, cipher(Adb.SigningInput(m.data)).value), s.(triedAuthentication := true))
  {
  }

  /** After a tried signature and before the key was sent, an AUTH is answered with the public key. */
  lemma KeyReply(s: AuthState, m: Message, cipher: Cipher, key: Adb.KeyFile)
    requires m.Auth? && s.triedAuthentication && !s.sentPublicKey
    ensures HandshakeStep(s, m, cipher, Some(key)) ==
      Reply(AuthMessage.New(AuthMessage.TYPE_RSAPUBLICKEY, Adb.PublicKeyPayload(key)), AuthState(false, true))
  {
  }

  /** A reply step puts its message in front of the replies to the rest of the inbox. */
  lemma ReplyStep(s: AuthState, inbox: seq<Message>, cipher: Cipher, publicKey: Option<Adb.KeyFile>,
                  m: Message, next: AuthState, replies: seq<Message>, ending: Ending)
    requires |inbox| > 0 && HandshakeStep(s, inbox[0], cipher, publicKey) == Reply(m, next)
    requires Handshake(next, inbox[1..], cipher, publicKey) == (replies, ending)
    ensures Handshake(s, inbox, cipher, publicKey) == ([m] + replies, ending)
  {
  }

  /** The state of the device's two pipes. */
  datatype Link = Link(input: PipeState, output: PipeState)

  /** The outcome of one pass of the loop over the pipes. */
  datatype RoundResult = Continue(next: AuthState, link: Link) | Done(ending: Ending, link: Link)

  /** One pass of the loop body over the pipes: receive a message, then carry out its step. */
  function RoundSpec(link: Link, s: AuthState, cipher: Cipher, publicKey: Option<Adb.KeyFile>): (r: RoundResult)
    ensures r.Continue? ==> Rank(r.next) < Rank(s)
    ensures r.Done? ==> r.ending.Connected? || r.ending.Exited? || r.ending.Threw?
  {
    var received := Framing.ReceiveSpec(link.input);
    var link1 := link.(input := received.1);
    if received.0.Failure? then Done(Threw(received.0.error), link1)
    else ActSpec(link1, s, received.0.value, cipher, publicKey)
  }

  /** The second half of a pass: carry out the step for a received message, sending its reply if any. */
  function ActSpec(link: Link, s: AuthState, m: Message, cipher: Cipher, publicKey: Option<Adb.KeyFile>): (r: RoundResult)
    ensures r.Continue? ==> Rank(r.next) < Rank(s)
    ensures r.Done? ==> r.ending.Connected? || r.ending.Exited? || r.ending.Threw?
    ensures r.link.input == link.input
  {
    match HandshakeStep(s, m, cipher, publicKey)
    case Accept => Done(Connected, link)
    case Stop(e) => Done(Exited(e), link)
    case Throw(e) => Done(Threw(e), link)
    case Reply(reply, next) =>
      var sent := Framing.SendSpec(link.output, reply);
      var link1 := link.(output := sent.1);
      if sent.0.Fail? then Done(Threw(sent.0.error), link1) else Continue(next, link1)
  }

  /** The handshake loop over the pipes: rounds until one is done. */
  function HandshakeLoop(link: Link, s: AuthState, cipher: Cipher, publicKey: Option<Adb.KeyFile>): (r: (Ending, Link))
    ensures r.0.Connected? || r.0.Exited? || r.0.Threw?
    decreases Rank(s)
  {
    match RoundSpec(link, s, cipher, publicKey)
    case Done(ending, link1) => (ending, link1)
    case Continue(next, link1) => HandshakeLoop(link1, next, cipher, publicKey)
  }

  /** The chunks a device sends to deliver each message in turn, header then payload. */
  function Frames(ms: seq<Message>): (chunks: seq<seq<byte>>)
    ensures |chunks| == 2 * |ms|
  {
    if |ms| == 0 then [] else Framing.Frame(ms[0]) + Frames(ms[1..])
  }

  /** The output log of sending each message in its own open-write-write-close bracket. */
  function SentLog(ms: seq<Message>): (events: seq<Event>)
    ensures |events| == 4 * |ms|
  {
    if |ms| == 0 then []
    else [Opened, Sent(Framing.Frame(ms[0])[0]), Sent(Framing.Frame(ms[0])[1]), Closed] + SentLog(ms[1..])
  }

  /** The input that delivers a non-empty inbox starts with the first message's frame. */
  lemma FramesSplit(ms: seq<Message>, rest: seq<seq<byte>>)
    requires |ms| > 0
    ensures |Frames(ms) + rest| >= 2
    ensures (Frames(ms) + rest)[..2] == Framing.Frame(ms[0])
    ensures (Frames(ms) + rest)[2..] == Frames(ms[1..]) + rest
  {
    assert Frames(ms) + rest == Framing.Frame(ms[0]) + (Frames(ms[1..]) + rest);
  }

  /** The device takes every byte of each message's header and payload transfer. */
  predicate AcceptsAll(accepts: seq<nat>, ms: seq<Message>)
    ensures AcceptsAll(accepts, ms) ==> |accepts| >= 2 * |ms|
  {
    |ms| == 0 ||
    (|accepts| >= 2 && accepts[0] >= MessageHeader.Size && accepts[1] >= |ms[0].data| &&
     AcceptsAll(accepts[2..], ms[1..]))
  }

  /** With nothing left to receive, the loop ends at once in a USB failure and sends nothing. */
  lemma EmptyInputEndsLoop(link: Link, s: AuthState, cipher: Cipher, publicKey: Option<Adb.KeyFile>)
    requires link.input.incoming == []
    ensures HandshakeLoop(link, s, cipher, publicKey).0 == Threw(Usb)
    ensures HandshakeLoop(link, s, cipher, publicKey).1.output == link.output
  {
    assert Framing.ReceiveSpec(link.input).0 == Failure(Usb);
  }

  /** A round whose input delivers the frame of m carries out m's step on the rest of the input. */
  lemma RoundReceives(link: Link, s: AuthState, m: Message, cipher: Cipher, publicKey: Option<Adb.KeyFile>)
    requires Receivable(m)
    requires |link.input.incoming| >= 2 && link.input.incoming[..2] == Framing.Frame(m)
    ensures var input1 := Framing.ReceiveSpec(link.input).1;
      input1.incoming == link.input.incoming[2..] &&
      RoundSpec(link, s, cipher, publicKey) == ActSpec(link.(input := input1), s, m, cipher, publicKey)
  {
    Framing.ReceiveFrame(link.input, m);
  }

  /** A reply the output takes whole is sent as its frame, and the loop goes on from the next state. */
  lemma ActReplies(link: Link, s: AuthState, m: Message, cipher: Cipher, publicKey: Option<Adb.KeyFile>,
                   reply: Message, next: AuthState)
    requires HandshakeStep(s, m, cipher, publicKey) == Reply(reply, next)
    requires |link.output.accepts| >= 2 && link.output.accepts[0] >= MessageHeader.Size &&
             link.output.accepts[1] >= |reply.data|
    ensures ActSpec(link, s, m, cipher, publicKey) ==
      Continue(next, link.(output := link.output.(accepts := link.output.accepts[2..], isOpen := false,
        log := link.output.log + [Opened, Sent(Framing.Frame(reply)[0]), Sent(Framing.Frame(reply)[1]), Closed])))
  {
    Framing.SendFrame(link.output, reply);
  }

  /** A step that sends nothing ends the round with the handshake's ending, leaving the pipes as they are. */
  lemma ActStops(link: Link, s: AuthState, inbox: seq<Message>, cipher: Cipher, publicKey: Option<Adb.KeyFile>)
    requires |inbox| > 0 && !HandshakeStep(s, inbox[0], cipher, publicKey).Reply?
    ensures Handshake(s, inbox, cipher, publicKey).0 == []
    ensures ActSpec(link, s, inbox[0], cipher, publicKey) == Done(Handshake(s, inbox, cipher, publicKey).1, link)
  {
  }

  /** A round that goes on is followed by the loop from its next state. */
  lemma LoopContinues(link: Link, s: AuthState, cipher: Cipher, publicKey: Option<Adb.KeyFile>, next: AuthState, link1: Link)
    requires RoundSpec(link, s, cipher, publicKey) == Continue(next, link1)
    ensures HandshakeLoop(link, s, cipher, publicKey) == HandshakeLoop(link1, next, cipher, publicKey)
  {
  }

  /** A round that is done ends the loop. */
  lemma LoopStops(link: Link, s: AuthState, cipher: Cipher, publicKey: Option<Adb.KeyFile>, ending: Ending, link1: Link)
    requires RoundSpec(link, s, cipher, publicKey) == Done(ending, link1)
    ensures HandshakeLoop(link, s, cipher, publicKey) == (ending, link1)
  {
  }

  /** The pipes feed the handshake: the input delivers the inbox's frames and the output takes every reply whole. */
  predicate Feeds(link: Link, s: AuthState, inbox: seq<Message>, rest: seq<seq<byte>>,
                  cipher: Cipher, publicKey: Option<Adb.KeyFile>)
  {
    (forall i | 0 <= i < |inbox| :: Receivable(inbox[i])) &&
    link.input.incoming == Frames(inbox) + rest &&
    AcceptsAll(link.output.accepts, Handshake(s, inbox, cipher, publicKey).0) &&
    (Handshake(s, inbox, cipher, publicKey).1 == Threw(Usb) ==> rest == [])
  }

  /** The loop ends as the handshake does, having sent exactly its replies, two transfers each. */
  predicate Follows(link: Link, s: AuthState, inbox: seq<Message>, cipher: Cipher, publicKey: Option<Adb.KeyFile>)
  {
    HandshakeLoop(link, s, cipher, publicKey).0 == Handshake(s, inbox, cipher, publicKey).1 &&
    HandshakeLoop(link, s, cipher, publicKey).1.output.log ==
      link.output.log + SentLog(Handshake(s, inbox, cipher, publicKey).0) &&
    |link.output.accepts| >= 2 * |Handshake(s, inbox, cipher, publicKey).0| &&
    HandshakeLoop(link, s, cipher, publicKey).1.output.accepts ==
      link.output.accepts[2 * |Handshake(s, inbox, cipher, publicKey).0|..]
  }

  /**
   * Receiving the first message's frame and sending its reply whole leaves the
   * loop to go on from the next state, with the pipes feeding the rest of the inbox.
   */
  lemma ReplyRound(link: Link, s: AuthState, inbox: seq<Message>, rest: seq<seq<byte>>,
                   cipher: Cipher, publicKey: Option<Adb.KeyFile>, reply: Message, next: AuthState) returns (link2: Link)
    requires |inbox| > 0 && Feeds(link, s, inbox, rest, cipher, publicKey)
    requires HandshakeStep(s, inbox[0], cipher, publicKey) == Reply(reply, next)
    ensures Handshake(s, inbox, cipher, publicKey) ==
      ([reply] + Handshake(next, inbox[1..], cipher, publicKey).0, Handshake(next, inbox[1..], cipher, publicKey).1)
    ensures Feeds(link2, next, inbox[1..], rest, cipher, publicKey)
    ensures |link.output.accepts| >= 2 && link2.output.accepts == link.output.accepts[2..]
    ensures link2.output.log == link.output.log + [Opened, Sent(Framing.Frame(reply)[0]), Sent(Framing.Frame(reply)[1]), Closed]
    ensures HandshakeLoop(link, s, cipher, publicKey) == HandshakeLoop(link2, next, cipher, publicKey)
  {
    FedReply(link, s, inbox, rest, cipher, publicKey, reply, next);
    link2 := ReplyPipes(link, s, inbox[0], cipher, publicKey, reply, next);
  }

  /** What feeding the handshake says about a first message that is answered, and about the rest of the inbox. */
  lemma FedReply(link: Link, s: AuthState, inbox: seq<Message>, rest: seq<seq<byte>>,
                 cipher: Cipher, publicKey: Option<Adb.KeyFile>, reply: Message, next: AuthState)
    requires |inbox| > 0 && Feeds(link, s, inbox, rest, cipher, publicKey)
    requires HandshakeStep(s, inbox[0], cipher, publicKey) == Reply(reply, next)
    ensures Handshake(s, inbox, cipher, publicKey) ==
      ([reply] + Handshake(next, inbox[1..], cipher, publicKey).0, Handshake(next, inbox[1..], cipher, publicKey).1)
    ensures Receivable(inbox[0]) && forall i | 0 <= i < |inbox[1..]| :: Receivable(inbox[1..][i])
    ensures |link.input.incoming| >= 2 && link.input.incoming[..2] == Framing.Frame(inbox[0])
    ensures link.input.incoming[2..] == Frames(inbox[1..]) + rest
    ensures |link.output.accepts| >= 2 && link.output.accepts[0] >= MessageHeader.Size &&
            link.output.accepts[1] >= |reply.data|
    ensures AcceptsAll(link.output.accepts[2..], Handshake(next, inbox[1..], cipher, publicKey).0)
  {
    var tail := Handshake(next, inbox[1..], cipher, publicKey);
    ReplyStep(s, inbox, cipher, publicKey, reply, next, tail.0, tail.1);
    FramesSplit(inbox, rest);
    assert ([reply] + tail.0)[1..] == tail.0;
    ReceivableTail(inbox);
  }

  lemma ReceivableTail(ms: seq<Message>)
    requires |ms| > 0 && forall i | 0 <= i < |ms| :: Receivable(ms[i])
    ensures forall i | 0 <= i < |ms[1..]| :: Receivable(ms[1..][i])
  {
    forall i | 0 <= i < |ms[1..]|
      ensures Receivable(ms[1..][i])
    {
      assert ms[1..][i] == ms[i + 1];
    }
  }

  /** The pipes' side of a reply round: the message's two chunks are read and the reply's two are written. */
  lemma ReplyPipes(link: Link, s: AuthState, m: Message, cipher: Cipher, publicKey: Option<Adb.KeyFile>,
                   reply: Message, next: AuthState) returns (link2: Link)
    requires Receivable(m)
    requires |link.input.incoming| >= 2 && link.input.incoming[..2] == Framing.Frame(m)
    requires HandshakeStep(s, m, cipher, publicKey) == Reply(reply, next)
    requires |link.output.accepts| >= 2 && link.output.accepts[0] >= MessageHeader.Size &&
             link.output.accepts[1] >= |reply.data|
    ensures link2.input.incoming == link.input.incoming[2..]
    ensures link2.output.accepts == link.output.accepts[2..]
    ensures link2.output.log == link.output.log + [Opened, Sent(Framing.Frame(reply)[0]), Sent(Framing.Frame(reply)[1]), Closed]
    ensures HandshakeLoop(link, s, cipher, publicKey) == HandshakeLoop(link2, next, cipher, publicKey)
  {
    RoundReceives(link, s, m, cipher, publicKey);
    var link1 := link.(input := Framing.ReceiveSpec(link.input).1);
    ActReplies(link1, s, m, cipher, publicKey, reply, next);
    link2 := ActSpec(link1, s, m, cipher, publicKey).link;
    LoopContinues(link, s, cipher, publicKey, next, link2);
  }

  /** Receiving a message whose step sends nothing ends the loop as the handshake ends, with the output untouched. */
  lemma StopPipes(link: Link, s: AuthState, inbox: seq<Message>, cipher: Cipher, publicKey: Option<Adb.KeyFile>)
    requires |inbox| > 0 && Receivable(inbox[0])
    requires |link.input.incoming| >= 2 && link.input.incoming[..2] == Framing.Frame(inbox[0])
    requires !HandshakeStep(s, inbox[0], cipher, publicKey).Reply?
    ensures Handshake(s, inbox, cipher, publicKey).0 == []
    ensures HandshakeLoop(link, s, cipher, publicKey).0 == Handshake(s, inbox, cipher, publicKey).1
    ensures HandshakeLoop(link, s, cipher, publicKey).1.output == link.output
    ensures HandshakeLoop(link, s, cipher, publicKey).1.input.incoming == link.input.incoming[2..]
  {
    RoundReceives(link, s, inbox[0], cipher, publicKey);
    var link1 := link.(input := Framing.ReceiveSpec(link.input).1);
    ActStops(link1, s, inbox, cipher, publicKey);
    LoopStops(link, s, cipher, publicKey, Handshake(s, inbox, cipher, publicKey).1, link1);
  }

  /** The stop case of LoopFollows: nothing is sent, and the loop ends as the handshake does. */
  lemma StopRound(link: Link, s: AuthState, inbox: seq<Message>, rest: seq<seq<byte>>,
                  cipher: Cipher, publicKey: Option<Adb.KeyFile>)
    requires |inbox| > 0 && Feeds(link, s, inbox, rest, cipher, publicKey)
    requires !HandshakeStep(s, inbox[0], cipher, publicKey).Reply?
    ensures Follows(link, s, inbox, cipher, publicKey)
  {
    FramesSplit(inbox, rest);
    StopPipes(link, s, inbox, cipher, publicKey);
    assert SentLog([]) == [] && link.output.accepts[0..] == link.output.accepts;
  }

  lemma DropsAdd(accepts: seq<nat>, k: nat)
    requires 2 + k <= |accepts|
    ensures accepts[2..][k..] == accepts[2 + k..]
  {
  }

  lemma LogsAppend(log: seq<Event>, sent: seq<Event>, more: seq<Event>)
    ensures (log + sent) + more == log + (sent + more)
  {
  }

  /** The induction step of HandshakeLoopFollowsHandshake for a reply: its frame goes before those of the later replies. */
  lemma ReplyFollows(out: PipeState, out2: PipeState, reply: Message, replies: seq<Message>, out3: PipeState)
    requires |out.accepts| >= 2 && out2.accepts == out.accepts[2..]
    requires out2.log == out.log + [Opened, Sent(Framing.Frame(reply)[0]), Sent(Framing.Frame(reply)[1]), Closed]
    requires out3.log == out2.log + SentLog(replies)
    requires |out2.accepts| >= 2 * |replies| && out3.accepts == out2.accepts[2 * |replies|..]
    ensures out3.log == out.log + SentLog([reply] + replies)
    ensures |out.accepts| >= 2 * |[reply] + replies| && out3.accepts == out.accepts[2 * |[reply] + replies|..]
  {
    var sent := [Opened, Sent(Framing.Frame(reply)[0]), Sent(Framing.Frame(reply)[1]), Closed];
    assert ([reply] + replies)[1..] == replies;
    DropsAdd(out.accepts, 2 * |replies|);
    assert SentLog([reply] + replies) == sent + SentLog(replies);
    LogsAppend(out.log, sent, SentLog(replies));
  }

  /** With the inbox used up and nothing more to receive, the loop ends as the handshake does. */
  lemma EmptyFollows(link: Link, s: AuthState, rest: seq<seq<byte>>, cipher: Cipher, publicKey: Option<Adb.KeyFile>)
    requires Feeds(link, s, [], rest, cipher, publicKey)
    ensures Follows(link, s, [], cipher, publicKey)
  {
    EmptyInputEndsLoop(link, s, cipher, publicKey);
    assert SentLog([]) == [] && link.output.accepts[0..] == link.output.accepts;
  }

  /** A reply's round followed by a loop that follows the rest of the inbox follows the whole inbox. */
  lemma ReplyThenFollows(link: Link, s: AuthState, inbox: seq<Message>, cipher: Cipher, publicKey: Option<Adb.KeyFile>,
                         reply: Message, next: AuthState, link2: Link)
    requires |inbox| > 0
    requires Handshake(s, inbox, cipher, publicKey) ==
      ([reply] + Handshake(next, inbox[1..], cipher, publicKey).0, Handshake(next, inbox[1..], cipher, publicKey).1)
    requires |link.output.accepts| >= 2 && link2.output.accepts == link.output.accepts[2..]
    requires link2.output.log == link.output.log + [Opened, Sent(Framing.Frame(reply)[0]), Sent(Framing.Frame(reply)[1]), Closed]
    requires HandshakeLoop(link, s, cipher, publicKey) == HandshakeLoop(link2, next, cipher, publicKey)
    requires Follows(link2, next, inbox[1..], cipher, publicKey)
    ensures Follows(link, s, inbox, cipher, publicKey)
  {
    ReplyFollows(link.output, link2.output, reply, Handshake(next, inbox[1..], cipher, publicKey).0,
                 HandshakeLoop(link2, next, cipher, publicKey).1.output);
  }

  /** The induction behind HandshakeLoopFollowsHandshake, one received message at a time. */
  lemma {:induction false} LoopFollows(link: Link, s: AuthState, inbox: seq<Message>, rest: seq<seq<byte>>,
                                       cipher: Cipher, publicKey: Option<Adb.KeyFile>)
    requires Feeds(link, s, inbox, rest, cipher, publicKey)
    ensures Follows(link, s, inbox, cipher, publicKey)
    decreases |inbox|
  {
    if |inbox| == 0 {
      EmptyFollows(link, s, rest, cipher, publicKey);
    } else if HandshakeStep(s, inbox[0], cipher, publicKey).Reply? {
      var step := HandshakeStep(s, inbox[0], cipher, publicKey);
      var link2 := ReplyRound(link, s, inbox, rest, cipher, publicKey, step.message, step.next);
      LoopFollows(link2, step.next, inbox[1..], rest, cipher, publicKey);
      ReplyThenFollows(link, s, inbox, cipher, publicKey, step.message, step.next, link2);
    } else {
      StopRound(link, s, inbox, rest, cipher, publicKey);
    }
  }

  /**
   * The loop over the pipes does what the message-level handshake says: when
   * the input pipe delivers the frames of the inbox and the output pipe takes
   * every reply whole, the loop ends as Handshake does, the output log gains
   * exactly one bracketed header-and-payload send per reply, and the output
   * pipe has used up two transfers per reply. Once the inbox is used up the
   * input must be empty too, so that the loop's next read fails as the
   * handshake's does.
   */
  lemma HandshakeLoopFollowsHandshake(link: Link, s: AuthState, inbox: seq<Message>, rest: seq<seq<byte>>,
                                      cipher: Cipher, publicKey: Option<Adb.KeyFile>)
    requires forall i | 0 <= i < |inbox| :: Receivable(inbox[i])
    requires link.input.incoming == Frames(inbox) + rest
    requires AcceptsAll(link.output.accepts, Handshake(s, inbox, cipher, publicKey).0)
    requires Handshake(s, inbox, cipher, publicKey).1 == Threw(Usb) ==> rest == []
    ensures HandshakeLoop(link, s, cipher, publicKey).0 == Handshake(s, inbox, cipher, publicKey).1
    ensures HandshakeLoop(link, s, cipher, publicKey).1.output.log ==
      link.output.log + SentLog(Handshake(s, inbox, cipher, publicKey).0)
    ensures HandshakeLoop(link, s, cipher, publicKey).1.output.accepts ==
      link.output.accepts[2 * |Handshake(s, inbox, cipher, publicKey).0|..]
  {
    LoopFollows(link, s, inbox, rest, cipher, publicKey);
  }

  /** Once the loop stops on a received message, the input holds the frames of the messages after it. */
  predicate Consumes(link: Link, s: AuthState, inbox: seq<Message>, rest: seq<seq<byte>>,
                     cipher: Cipher, publicKey: Option<Adb.KeyFile>)
  {
    |Handshake(s, inbox, cipher, publicKey).0| < |inbox| ==>
      HandshakeLoop(link, s, cipher, publicKey).1.input.incoming ==
        Frames(inbox[|Handshake(s, inbox, cipher, publicKey).0| + 1..]) + rest
  }

  lemma DropOneMore(ms: seq<Message>, k: nat)
    requires k + 2 <= |ms|
    ensures ms[1..][k + 1..] == ms[k + 2..]
  {
  }

  /** The stop case of LoopConsumes: the loop has read exactly the first message. */
  lemma StopConsumes(link: Link, s: AuthState, inbox: seq<Message>, rest: seq<seq<byte>>,
                     cipher: Cipher, publicKey: Option<Adb.KeyFile>)
    requires |inbox| > 0 && Feeds(link, s, inbox, rest, cipher, publicKey)
    requires !HandshakeStep(s, inbox[0], cipher, publicKey).Reply?
    ensures Consumes(link, s, inbox, rest, cipher, publicKey)
  {
    FramesSplit(inbox, rest);
    StopPipes(link, s, inbox, cipher, publicKey);
  }

  /** The reply case of LoopConsumes: what the rest of the loop leaves is what the whole loop leaves. */
  lemma ReplyConsumes(link: Link, s: AuthState, inbox: seq<Message>, rest: seq<seq<byte>>,
                      cipher: Cipher, publicKey: Option<Adb.KeyFile>, reply: Message, next: AuthState, link2: Link)
    requires |inbox| > 0
    requires Handshake(s, inbox, cipher, publicKey) ==
      ([reply] + Handshake(next, inbox[1..], cipher, publicKey).0, Handshake(next, inbox[1..], cipher, publicKey).1)
    requires HandshakeLoop(link, s, cipher, publicKey) == HandshakeLoop(link2, next, cipher, publicKey)
    requires Consumes(link2, next, inbox[1..], rest, cipher, publicKey)
    ensures Consumes(link, s, inbox, rest, cipher, publicKey)
  {
    var k := |Handshake(next, inbox[1..], cipher, publicKey).0|;
    if k + 1 < |inbox| {
      DropOneMore(inbox, k);
    }
  }

  /** The induction behind the input clause of DemoFinishes, one received message at a time. */
  lemma {:induction false} LoopConsumes(link: Link, s: AuthState, inbox: seq<Message>, rest: seq<seq<byte>>,
                                        cipher: Cipher, publicKey: Option<Adb.KeyFile>)
    requires Feeds(link, s, inbox, rest, cipher, publicKey)
    ensures Consumes(link, s, inbox, rest, cipher, publicKey)
    decreases |inbox|
  {
    if |inbox| == 0 {
    } else if HandshakeStep(s, inbox[0], cipher, publicKey).Reply? {
      var step := HandshakeStep(s, inbox[0], cipher, publicKey);
      var link2 := ReplyRound(link, s, inbox, rest, cipher, publicKey, step.message, step.next);
      LoopConsumes(link2, step.next, inbox[1..], rest, cipher, publicKey);
      ReplyConsumes(link, s, inbox, rest, cipher, publicKey, step.message, step.next, link2);
    } else {
      StopConsumes(link, s, inbox, rest, cipher, publicKey);
    }
  }

  /** After connecting: OPEN(1, "sync:"), an OKAY is required, then CLOSE(1, its arg0) and one more receive. */
  function StreamSpec(link: Link): (r: (Ending, Link))
    ensures r.0.Finished? || r.0.Exited? || r.0.Threw?
    ensures r.0.Exited? ==> r.0.exit.OpenFailed? && !r.0.exit.message.Okay?
  {
    var sentOpen := Framing.SendSpec(link.output, OpenMessage.FromString(1, SYNC));
    var link1 := link.(output := sentOpen.1);
    if sentOpen.0.Fail? then (Threw(sentOpen.0.error), link1)
    else
      var reply := Framing.ReceiveSpec(link1.input);
      var link2 := link1.(input := reply.1);
      if reply.0.Failure? then (Threw(reply.0.error), link2)
      else if !reply.0.value.Okay? then (Exited(OpenFailed(reply.0.value)), link2)
      else CloseSpec(link2, reply.0.value)
  }

  /** After the OKAY: CLOSE(1, the OKAY's local id), then one more message of any kind. */
  function CloseSpec(link: Link, okay: Message): (r: (Ending, Link))
    requires okay.Okay?
    ensures r.0.Finished? || r.0.Threw?
  {
    var sentClose := Framing.SendSpec(link.output, CloseMessage.New(1, OkayMessage.RemoteId(okay)));
    var link1 := link.(output := sentClose.1);
    if sentClose.0.Fail? then (Threw(sentClose.0.error), link1)
    else
      var last := Framing.ReceiveSpec(link1.input);
      var link2 := link1.(input := last.1);
      if last.0.Failure? then (Threw(last.0.error), link2) else (Finished, link2)
  }

  /** A frame at the front of the input is what the next receive reads, and the rest is left. */
  lemma FrameSplit(m: Message, rest: seq<seq<byte>>)
    ensures |Framing.Frame(m) + rest| >= 2
    ensures (Framing.Frame(m) + rest)[..2] == Framing.Frame(m) && (Framing.Frame(m) + rest)[2..] == rest
  {
  }

  /** The log of one whole send: open, header, payload, close. */
  lemma SentOne(m: Message)
    ensures SentLog([m]) == [Opened, Sent(Framing.Frame(m)[0]), Sent(Framing.Frame(m)[1]), Closed]
  {
    assert [m][1..] == [];
  }

  /**
   * A device that answers the OPEN with anything but OKAY makes the demo
   * exit with "Open failed" on that message, after sending only the OPEN.
   */
  lemma StreamRefused(link: Link, reply: Message, rest: seq<seq<byte>>)
    requires Receivable(reply) && !reply.Okay?
    requires link.input.incoming == Framing.Frame(reply) + rest
    requires AcceptsAll(link.output.accepts, [OpenMessage.FromString(1, SYNC)])
    ensures StreamSpec(link).0 == Exited(OpenFailed(reply))
    ensures StreamSpec(link).1.output.log == link.output.log + SentLog([OpenMessage.FromString(1, SYNC)])
    ensures StreamSpec(link).1.output.accepts == link.output.accepts[2..]
    ensures StreamSpec(link).1.input.incoming == rest
  {
    var open := OpenMessage.FromString(1, SYNC);
    Framing.SendFrame(link.output, open);
    FrameSplit(reply, rest);
    Framing.ReceiveFrame(link.input, reply);
    SentOne(open);
  }

  /**
   * A device that answers the OPEN with OKAY gets CLOSE(1, the OKAY's local
   * id) back, and one more message of any kind finishes the demo.
   */
  lemma StreamCompletes(link: Link, reply: Message, last: Message, rest: seq<seq<byte>>)
    requires Receivable(reply) && reply.Okay? && Receivable(last)
    requires link.input.incoming == Framing.Frame(reply) + (Framing.Frame(last) + rest)
    requires AcceptsAll(link.output.accepts,
      [OpenMessage.FromString(1, SYNC), CloseMessage.New(1, OkayMessage.RemoteId(reply))])
    ensures StreamSpec(link).0 == Finished
    ensures StreamSpec(link).1.output.log == link.output.log +
      SentLog([OpenMessage.FromString(1, SYNC), CloseMessage.New(1, OkayMessage.RemoteId(reply))])
    ensures StreamSpec(link).1.output.accepts == link.output.accepts[4..]
    ensures StreamSpec(link).1.input.incoming == rest
  {
    var open := OpenMessage.FromString(1, SYNC);
    var close := CloseMessage.New(1, OkayMessage.RemoteId(reply));
    var link2 := StreamOpened(link, reply, Framing.Frame(last) + rest);
    AcceptsBoth(link.output.accepts, open, close);
    CloseCompletes(link2, reply, last, rest);
    SentBoth(link.output.log, open, close, CloseSpec(link2, reply).1.output.log);
    DropTwoAccepts(link.output.accepts);
  }

  lemma AcceptsBoth(accepts: seq<nat>, a: Message, b: Message)
    requires AcceptsAll(accepts, [a, b])
    ensures AcceptsAll(accepts, [a]) && AcceptsAll(accepts[2..], [b]) && |accepts| >= 4
  {
    assert [a, b][1..] == [b];
  }

  lemma SentBoth(log: seq<Event>, a: Message, b: Message, log2: seq<Event>)
    requires log2 == log + SentLog([a]) + SentLog([b])
    ensures log2 == log + SentLog([a, b])
  {
    SentOne(a);
    SentOne(b);
    assert [a, b][1..] == [b];
    assert SentLog([a, b]) == SentLog([a]) + SentLog([b]);
  }

  /** The OPEN is sent and the OKAY received; what follows is the close stage. */
  lemma StreamOpened(link: Link, reply: Message, rest: seq<seq<byte>>) returns (link2: Link)
    requires Receivable(reply) && reply.Okay?
    requires link.input.incoming == Framing.Frame(reply) + rest
    requires AcceptsAll(link.output.accepts, [OpenMessage.FromString(1, SYNC)])
    ensures StreamSpec(link) == CloseSpec(link2, reply)
    ensures link2.output.log == link.output.log + SentLog([OpenMessage.FromString(1, SYNC)])
    ensures link2.output.accepts == link.output.accepts[2..]
    ensures link2.input.incoming == rest
  {
    var open := OpenMessage.FromString(1, SYNC);
    Framing.SendFrame(link.output, open);
    FrameSplit(reply, rest);
    Framing.ReceiveFrame(link.input, reply);
    SentOne(open);
    link2 := link.(output := Framing.SendSpec(link.output, open).1, input := Framing.ReceiveSpec(link.input).1);
  }

  /** CLOSE(1, the OKAY's local id) is sent whole and one more message finishes the demo. */
  lemma CloseCompletes(link: Link, okay: Message, last: Message, rest: seq<seq<byte>>)
    requires okay.Okay? && Receivable(last)
    requires link.input.incoming == Framing.Frame(last) + rest
    requires AcceptsAll(link.output.accepts, [CloseMessage.New(1, OkayMessage.RemoteId(okay))])
    ensures CloseSpec(link, okay).0 == Finished
    ensures CloseSpec(link, okay).1.output.log == link.output.log + SentLog([CloseMessage.New(1, OkayMessage.RemoteId(okay))])
    ensures CloseSpec(link, okay).1.output.accepts == link.output.accepts[2..]
    ensures CloseSpec(link, okay).1.input.incoming == rest
  {
    var close := CloseMessage.New(1, OkayMessage.RemoteId(okay));
    Framing.SendFrame(link.output, close);
    FrameSplit(last, rest);
    Framing.ReceiveFrame(link.input, last);
    SentOne(close);
  }

  lemma DropTwoAccepts(accepts: seq<nat>)
    requires |accepts| >= 4
    ensures accepts[2..][2..] == accepts[4..]
  {
  }

  /** The whole exchange inside the try block. */
  function DemoSpec(link: Link, cipher: Cipher, publicKey: Option<Adb.KeyFile>): (r: (Ending, Link))
    ensures r.0.Finished? || r.0.Exited? || r.0.Threw?
  {
    var sent := Framing.SendSpec(link.output, FirstMessage());
    var link1 := link.(output := sent.1);
    if sent.0.Fail? then (Threw(sent.0.error), link1)
    else
      var handshake := HandshakeLoop(link1, INITIAL, cipher, publicKey);
      if !handshake.0.Connected? then handshake else StreamSpec(handshake.1)
  }

  /** The device takes every transfer of a list of messages exactly when it takes those of each part. */
  lemma {:induction false} AcceptsSplit(accepts: seq<nat>, a: seq<Message>, b: seq<Message>)
    requires AcceptsAll(accepts, a + b)
    ensures AcceptsAll(accepts, a) && |accepts| >= 2 * |a| && AcceptsAll(accepts[2 * |a|..], b)
    decreases |a|
  {
    if |a| == 0 {
      assert a + b == b && accepts[0..] == accepts;
    } else {
      assert (a + b)[0] == a[0] && (a + b)[1..] == a[1..] + b;
      AcceptsSplit(accepts[2..], a[1..], b);
      DropsAdd(accepts, 2 * |a[1..]|);
    }
  }

  /** Sending two lists of messages one after the other logs both lists' sends in order. */
  lemma {:induction false} SentLogAppend(a: seq<Message>, b: seq<Message>)
    ensures SentLog(a + b) == SentLog(a) + SentLog(b)
    decreases |a|
  {
    if |a| == 0 {
      assert a + b == b;
    } else {
      assert (a + b)[0] == a[0] && (a + b)[1..] == a[1..] + b;
      SentLogAppend(a[1..], b);
    }
  }

  /**
   * A device that sends the handshake messages of the inbox, the last of them
   * its CONNECT, and then answers the OPEN with OKAY and one more message, and
   * that takes every transfer whole, sees the whole demo finish: the output log
   * gains, in order, the sends of the host's CONNECT, the handshake's replies,
   * the OPEN and the CLOSE, and the input is read up to what follows.
   */
  lemma DemoFinishes(link: Link, inbox: seq<Message>, reply: Message, last: Message, rest: seq<seq<byte>>,
                     cipher: Cipher, publicKey: Option<Adb.KeyFile>)
    requires forall i | 0 <= i < |inbox| :: Receivable(inbox[i])
    requires Handshake(INITIAL, inbox, cipher, publicKey).1 == Connected
    requires |Handshake(INITIAL, inbox, cipher, publicKey).0| + 1 == |inbox|
    requires Receivable(reply) && reply.Okay? && Receivable(last)
    requires link.input.incoming == Frames(inbox) + (Framing.Frame(reply) + (Framing.Frame(last) + rest))
    requires AcceptsAll(link.output.accepts, [FirstMessage()] + Handshake(INITIAL, inbox, cipher, publicKey).0 +
      [OpenMessage.FromString(1, SYNC), CloseMessage.New(1, OkayMessage.RemoteId(reply))])
    ensures DemoSpec(link, cipher, publicKey).0 == Finished
    ensures DemoSpec(link, cipher, publicKey).1.output.log == link.output.log +
      SentLog([FirstMessage()] + Handshake(INITIAL, inbox, cipher, publicKey).0 +
        [OpenMessage.FromString(1, SYNC), CloseMessage.New(1, OkayMessage.RemoteId(reply))])
    ensures DemoSpec(link, cipher, publicKey).1.input.incoming == rest
  {
    var replies := Handshake(INITIAL, inbox, cipher, publicKey).0;
    var stream := [OpenMessage.FromString(1, SYNC), CloseMessage.New(1, OkayMessage.RemoteId(reply))];
    AcceptsThree(link.output.accepts, FirstMessage(), replies, stream);
    var link2 := DemoConnects(link, inbox, Framing.Frame(reply) + (Framing.Frame(last) + rest), cipher, publicKey);
    StreamCompletes(link2, reply, last, rest);
    SentThree(link.output.log, FirstMessage(), replies, stream);
  }

  lemma AcceptsThree(accepts: seq<nat>, first: Message, replies: seq<Message>, stream: seq<Message>)
    requires AcceptsAll(accepts, [first] + replies + stream)
    ensures AcceptsAll(accepts, [first]) && |accepts| >= 2
    ensures AcceptsAll(accepts[2..], replies) && |accepts[2..]| >= 2 * |replies|
    ensures AcceptsAll(accepts[2..][2 * |replies|..], stream)
  {
    assert AcceptsAll(accepts, [first] + replies) && AcceptsAll(accepts[2 * (1 + |replies|)..], stream) by {
      AcceptsSplit(accepts, [first] + replies, stream);
    }
    AcceptsSplit(accepts, [first], replies);
    DropsAdd(accepts, 2 * |replies|);
  }

  lemma SentThree(log: seq<Event>, first: Message, replies: seq<Message>, stream: seq<Message>)
    ensures log + SentLog([first] + replies) + SentLog(stream) == log + SentLog([first] + replies + stream)
  {
    SentLogAppend([first] + replies, stream);
    LogsAppend(log, SentLog([first] + replies), SentLog(stream));
  }

  /** The host's CONNECT is sent whole and the handshake connects; what follows is the stream stage. */
  lemma DemoConnects(link: Link, inbox: seq<Message>, rest: seq<seq<byte>>,
                     cipher: Cipher, publicKey: Option<Adb.KeyFile>) returns (link2: Link)
    requires forall i | 0 <= i < |inbox| :: Receivable(inbox[i])
    requires Handshake(INITIAL, inbox, cipher, publicKey).1 == Connected
    requires |Handshake(INITIAL, inbox, cipher, publicKey).0| + 1 == |inbox|
    requires link.input.incoming == Frames(inbox) + rest
    requires AcceptsAll(link.output.accepts, [FirstMessage()])
    requires AcceptsAll(link.output.accepts[2..], Handshake(INITIAL, inbox, cipher, publicKey).0)
    ensures DemoSpec(link, cipher, publicKey) == StreamSpec(link2)
    ensures link2.output.log == link.output.log + SentLog([FirstMessage()] + Handshake(INITIAL, inbox, cipher, publicKey).0)
    ensures link2.output.accepts == link.output.accepts[2..][2 * |Handshake(INITIAL, inbox, cipher, publicKey).0|..]
    ensures link2.input.incoming == rest
  {
    var link1 := FirstSent(link, cipher, publicKey);
    link2 := LoopConnects(link1, inbox, rest, cipher, publicKey);
    SentLogAppend([FirstMessage()], Handshake(INITIAL, inbox, cipher, publicKey).0);
    LogsAppend(link.output.log, SentLog([FirstMessage()]), SentLog(Handshake(INITIAL, inbox, cipher, publicKey).0));
  }

  /** The host's CONNECT sent whole leaves the rest of the demo to the handshake loop. */
  lemma FirstSent(link: Link, cipher: Cipher, publicKey: Option<Adb.KeyFile>) returns (link1: Link)
    requires AcceptsAll(link.output.accepts, [FirstMessage()])
    ensures link1.input == link.input
    ensures link1.output.log == link.output.log + SentLog([FirstMessage()])
    ensures link1.output.accepts == link.output.accepts[2..]
    ensures HandshakeLoop(link1, INITIAL, cipher, publicKey).0.Connected? ==>
      DemoSpec(link, cipher, publicKey) == StreamSpec(HandshakeLoop(link1, INITIAL, cipher, publicKey).1)
  {
    Framing.SendFrame(link.output, FirstMessage());
    SentOne(FirstMessage());
    link1 := link.(output := Framing.SendSpec(link.output, FirstMessage()).1);
  }

  /** A handshake that connects on the last message of the inbox leaves the loop with the input after it. */
  lemma LoopConnects(link: Link, inbox: seq<Message>, rest: seq<seq<byte>>,
                     cipher: Cipher, publicKey: Option<Adb.KeyFile>) returns (link2: Link)
    requires forall i | 0 <= i < |inbox| :: Receivable(inbox[i])
    requires Handshake(INITIAL, inbox, cipher, publicKey).1 == Connected
    requires |Handshake(INITIAL, inbox, cipher, publicKey).0| + 1 == |inbox|
    requires link.input.incoming == Frames(inbox) + rest
    requires AcceptsAll(link.output.accepts, Handshake(INITIAL, inbox, cipher, publicKey).0)
    ensures HandshakeLoop(link, INITIAL, cipher, publicKey) == (Connected, link2)
    ensures link2.output.log == link.output.log + SentLog(Handshake(INITIAL, inbox, cipher, publicKey).0)
    ensures link2.output.accepts == link.output.accepts[2 * |Handshake(INITIAL, inbox, cipher, publicKey).0|..]
    ensures link2.input.incoming == rest
  {
    HandshakeLoopFollowsHandshake(link, INITIAL, inbox, rest, cipher, publicKey);
    LoopConsumes(link, INITIAL, inbox, rest, cipher, publicKey);
    NothingLeft(inbox, rest);
    link2 := HandshakeLoop(link, INITIAL, cipher, publicKey).1;
  }

  lemma NothingLeft(ms: seq<Message>, rest: seq<seq<byte>>)
    ensures Frames(ms[|ms|..]) + rest == rest
  {
    assert ms[|ms|..] == [];
  }

  function LinkOf(device: AdbDevice): Link
    requires device.Valid()
    reads device.InPipe(), device.OutPipe()
  {
    Link(device.InPipe().State(), device.OutPipe().State())
  }

  /** The body of the while (!connected) loop. */
  method Round(device: AdbDevice, s: AuthState, cipher: Cipher, publicKey: Option<Adb.KeyFile>)
    returns (done: bool, ending: Ending, next: AuthState)
    requires device.Valid()
    modifies device.InPipe(), device.OutPipe()
    ensures var r := RoundSpec(old(LinkOf(device)), s, cipher, publicKey);
      LinkOf(device) == r.link && done == r.Done? && (done ==> ending == r.ending) && (!done ==> next == r.next)
  {
    var received := device.ReceiveMessage();
    if received.Failure? {
      return true, Threw(received.error), s;
    }
    done, ending, next := Act(device, s, received.value, cipher, publicKey);
  }

  /** The branches of the loop body on the received message. */
  method Act(device: AdbDevice, s: AuthState, message: Message, cipher: Cipher, publicKey: Option<Adb.KeyFile>)
    returns (done: bool, ending: Ending, next: AuthState)
    requires device.Valid()
    modifies device.OutPipe()
    ensures var r := ActSpec(old(LinkOf(device)), s, message, cipher, publicKey);
      LinkOf(device) == r.link && done == r.Done? && (done ==> ending == r.ending) && (!done ==> next == r.next)
  {
    next := s;
    if message.Connect? {
      return true, Connected, s;
    } else if message.Auth? {
      if !s.triedAuthentication {
        var signature := Adb.SignToken(cipher, message.data);
        if signature.Failure? {
          return true, Threw(signature.error), s;
        }
        var sent := device.SendMessage(AuthMessage.New(AuthMessage.TYPE_SIGNATURE, signature.value));
        if sent.Fail? {
          return true, Threw(sent.error), s;
        }
        next := s.(triedAuthentication := true);
      } else if !s.sentPublicKey {
        if publicKey.None? {
          return true, Threw(KeyUnavailable), s;
        }
        var sent := device.SendMessage(AuthMessage.New(AuthMessage.TYPE_RSAPUBLICKEY, Adb.PublicKeyPayload(publicKey.value)));
        if sent.Fail? {
          return true, Threw(sent.error), s;
        }
        next := AuthState(false, true);
      } else {
        return true, Exited(AuthenticationFailed), s;
      }
    } else {
      return true, Exited(UnexpectedMessage(message)), s;
    }
    done, ending := false, Connected;
  }

  /** The while (!connected) loop over (triedAuthentication, sentPublicKey) and connected. */
  method HandshakeOn(device: AdbDevice, cipher: Cipher, publicKey: Option<Adb.KeyFile>) returns (result: Ending)
    requires device.Valid()
    modifies device.InPipe(), device.OutPipe()
    ensures (result, LinkOf(device)) == HandshakeLoop(old(LinkOf(device)), INITIAL, cipher, publicKey)
  {
    ghost var start := LinkOf(device);
    var state, connected := INITIAL, false;
    while !connected
      invariant !connected ==> HandshakeLoop(LinkOf(device), state, cipher, publicKey) == HandshakeLoop(start, INITIAL, cipher, publicKey)
      invariant connected ==> HandshakeLoop(start, INITIAL, cipher, publicKey) == (Connected, LinkOf(device))
      decreases !connected, Rank(state)
    {
      var done, ending, next := Round(device, state, cipher, publicKey);
      if done {
        if !ending.Connected? {
          return ending;
        }
        connected := true;
      } else {
        state := next;
      }
    }
    result := Connected;
  }

  /** Lines 124 to 141: the OPEN/OKAY/CLOSE exchange. */
  method StreamOn(device: AdbDevice) returns (result: Ending)
    requires device.Valid()
    modifies device.InPipe(), device.OutPipe()
    ensures (result, LinkOf(device)) == StreamSpec(old(LinkOf(device)))
  {
    var sent := device.SendMessage(OpenMessage.FromString(1, SYNC));
    if sent.Fail? {
      return Threw(sent.error);
    }
    var reply := device.ReceiveMessage();
    if reply.Failure? {
      return Threw(reply.error);
    }
    var message := reply.value;
    if !message.Okay? {
      return Exited(OpenFailed(message));
    }
    var remoteId := OkayMessage.RemoteId(message);
    sent := device.SendMessage(CloseMessage.New(1, remoteId));
    if sent.Fail? {
      return Threw(sent.error);
    }
    var last := device.ReceiveMessage();
    if last.Failure? {
      return Threw(last.error);
    }
    result := Finished;
  }

  /**
   * main after device selection: claim, run the exchange, and release in
   * `finally` unless the demo exited.
   */
  method Run(device: AdbDevice, cipher: Cipher, publicKey: Option<Adb.KeyFile>) returns (result: Ending)
    requires device.Valid()
    modifies device.iface, device.InPipe(), device.OutPipe()
    ensures (result, LinkOf(device)) == DemoSpec(old(LinkOf(device)), cipher, publicKey)
    ensures device.iface.claimed <==> result.Exited?
  {
    device.Open();
    result := Exchange(device, cipher, publicKey);
    if !result.Exited? {
      device.Close();
    }
  }

  /** The exchange inside the try block, on a claimed interface. */
  method Exchange(device: AdbDevice, cipher: Cipher, publicKey: Option<Adb.KeyFile>) returns (result: Ending)
    requires device.Valid()
    modifies device.InPipe(), device.OutPipe()
    ensures (result, LinkOf(device)) == DemoSpec(old(LinkOf(device)), cipher, publicKey)
  {
    var sent := device.SendMessage(FirstMessage());
    if sent.Fail? {
      result := Threw(sent.error);
    } else {
      result := HandshakeOn(device, cipher, publicKey);
      if result.Connected? {
        result := StreamOn(device);
      }
    }
  }

  /** main: no ADB device is an exit; otherwise the first device found is used. */
  method Demo(devices: seq<AdbDevice>, cipher: Cipher, publicKey: Option<Adb.KeyFile>) returns (result: Ending)
    requires |devices| > 0 ==> devices[0].Valid()
    modifies if |devices| > 0 then {devices[0].iface} else {}
    modifies if |devices| > 0 && devices[0].Valid() then {devices[0].InPipe(), devices[0].OutPipe()} else {}
    ensures |devices| == 0 ==> result == Exited(NoDevices)
    ensures |devices| > 0 ==> (result, LinkOf(devices[0])) == DemoSpec(old(LinkOf(devices[0])), cipher, publicKey)
  {
    if |devices| == 0 {
      return Exited(NoDevices);
    }
    result := Run(devices[0], cipher, publicKey);
  }
}
