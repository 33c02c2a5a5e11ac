/**
 * The ADB message: a header plus a payload, as one of six kinds. The
 * outgoing constructor computes dataLength and the wrapping byte-sum
 * checksum; `Create` turns a received header and payload into the kind its
 * command names.
 */
module Messages {
  import opened Wrappers
  import opened Wire
  import MessageHeader

  type Header = MessageHeader.Header

  /**
   * The six message classes. Each constructor is the class's
   * (header, data) constructor: it keeps both exactly as given.
   */
  datatype Message =
    | Connect(header: Header, data: ByteArray)
    | Auth(header: Header, data: ByteArray)
    | Open(header: Header, data: ByteArray)
    | Okay(header: Header, data: ByteArray)
    | Close(header: Header, data: ByteArray)
    | Write(header: Header, data: ByteArray)

  /** The command code that belongs to a message's class. */
  function Command(m: Message): word
  {
    match m
    case Connect(_, _) => MessageHeader.CMD_CNXN
    case Auth(_, _) => MessageHeader.CMD_AUTH
    case Open(_, _) => MessageHeader.CMD_OPEN
    case Okay(_, _) => MessageHeader.CMD_OKAY
    case Close(_, _) => MessageHeader.CMD_CLSE
    case Write(_, _) => MessageHeader.CMD_WRTE
  }

  /** The plain integer sum of the bytes, without wrap-around. */
  function Sum(s: seq<byte>): int
  {
    if |s| == 0 then 0 else Sum(s[..|s| - 1]) + s[|s| - 1]
  }

  /** The payload checksum as Java computes it: `checksum += b & 0xff`, wrapping at every step. */
  function Checksum(s: seq<byte>): word
  {
    if |s| == 0 then 0 else (Checksum(s[..|s| - 1]) + s[|s| - 1]) % Modulus
  }

  /** The wrapping checksum is the byte sum modulo 2^32. */
  lemma {:induction false} ChecksumIsSum(s: seq<byte>)
    ensures Checksum(s) == Sum(s) % Modulus
  {
    if |s| > 0 {
      ChecksumIsSum(s[..|s| - 1]);
      var a := Sum(s[..|s| - 1]);
      assert a >= 0 by { SumNonNegative(s[..|s| - 1]); }
      assert (a % Modulus + s[|s| - 1]) % Modulus == (a + s[|s| - 1]) % Modulus;
    }
  }

  lemma {:induction false} SumNonNegative(s: seq<byte>)
    ensures Sum(s) >= 0
  {
    if |s| > 0 {
      SumNonNegative(s[..|s| - 1]);
    }
  }

  /** Replacing one byte moves the sum by the difference of the two bytes. */
  lemma {:induction false} SumUpdate(s: seq<byte>, i: nat, x: byte)
    requires i < |s|
    ensures Sum(s[i := x]) == Sum(s) - s[i] + x
  {
    if i == |s| - 1 {
      assert s[i := x][..|s| - 1] == s[..|s| - 1];
    } else {
      SumUpdate(s[..|s| - 1], i, x);
      assert s[i := x][..|s| - 1] == s[..|s| - 1][i := x];
    }
  }

  /** A nonzero shift smaller than 2^32 always changes a value modulo 2^32. */
  lemma ShiftChangesResidue(a: int, d: int)
    requires 0 < d < Modulus || -Modulus < d < 0
    ensures (a + d) % Modulus != a % Modulus
  {
    assert a == (a / Modulus) * Modulus + a % Modulus;
    assert a + d == ((a + d) / Modulus) * Modulus + (a + d) % Modulus;
  }

  /** Changing any one payload byte changes the checksum. */
  lemma ChecksumDetectsByteChange(s: seq<byte>, i: nat, x: byte)
    requires i < |s| && x != s[i]
    ensures Checksum(s[i := x]) != Checksum(s)
  {
    ChecksumIsSum(s);
    ChecksumIsSum(s[i := x]);
    SumUpdate(s, i, x);
    ShiftChangesResidue(Sum(s), x - s[i]);
  }

  /** The checksum loop of the outgoing constructor and of isValid. */
  method ComputeChecksum(data: seq<byte>) returns (checksum: word)
    ensures checksum == Sum(data) % Modulus
  {
    checksum := 0;
    for i := 0 to |data|
      invariant checksum == Checksum(data[..i])
    {
      assert data[..i + 1][..i] == data[..i];
      checksum := (checksum + data[i]) % Modulus;
    }
    assert data[..|data|] == data;
    ChecksumIsSum(data);
  }

  /**
   * The header the outgoing constructor builds: the given command and
   * arguments, the payload's length and checksum, and the inverted command.
   */
  function OutgoingHeader(command: word, arg0: word, arg1: word, data: ByteArray): (h: Header)
    ensures MessageHeader.IsValid(h)
    ensures h.command == command && h.arg0 == arg0 && h.arg1 == arg1
    ensures Signed(h.dataLength) == |data| && h.dataChecksum == Sum(data) % Modulus
  {
    ChecksumIsSum(data);
    MessageHeader.New(command, arg0, arg1, |data|, Checksum(data), Complement(command))
  }

  /** Message.isValid: a valid header and a matching checksum; dataLength is not compared. */
  predicate IsValid(m: Message)
  {
    MessageHeader.IsValid(m.header) && Checksum(m.data) == m.header.dataChecksum
  }

  /** isValid with its checksum loop. */
  method CheckValid(m: Message) returns (ok: bool)
    ensures ok <==> MessageHeader.IsValid(m.header) && Sum(m.data) % Modulus == m.header.dataChecksum
    ensures ok == IsValid(m)
  {
    if !MessageHeader.IsValid(m.header) {
      return false;
    }
    var checksum := ComputeChecksum(m.data);
    ChecksumIsSum(m.data);
    ok := checksum == m.header.dataChecksum;
  }

  /** A message is what a checked receive can deliver: valid, its length as declared, its class matching its command. */
  predicate Receivable(m: Message)
  {
    IsValid(m) && Signed(m.header.dataLength) == |m.data| && m.header.command == Command(m)
  }

  /** Every message carrying an outgoing header is valid and receivable. */
  lemma OutgoingIsReceivable(m: Message)
    requires m.header == OutgoingHeader(Command(m), m.header.arg0, m.header.arg1, m.data)
    ensures IsValid(m) && Receivable(m)
  {
    ChecksumIsSum(m.data);
  }

  /** Changing one payload byte of a valid message makes it invalid. */
  lemma ByteChangeInvalidates(m: Message, i: nat, x: byte)
    requires IsValid(m) && i < |m.data| && x != m.data[i]
    ensures !IsValid(m.(data := m.data[i := x]))
  {
    ChecksumDetectsByteChange(m.data, i, x);
  }

  /** Validity does not depend on dataLength. */
  lemma ValidityIgnoresLength(m: Message, n: word)
    ensures IsValid(m) == IsValid(m.(header := m.header.(dataLength := n)))
  {
  }

  /** Message.create: dispatch on the command to the matching class; any other command is unsupported. */
  function Create(header: Header, data: ByteArray): (r: Result<Message, Error>)
    ensures r.Success? <==> (header.command in
      {MessageHeader.CMD_CNXN, MessageHeader.CMD_AUTH, MessageHeader.CMD_OPEN,
       MessageHeader.CMD_CLSE, MessageHeader.CMD_OKAY, MessageHeader.CMD_WRTE})
    ensures r.Success? ==> r.value.header == header && r.value.data == data && Command(r.value) == header.command
    ensures r.Failure? ==> r.error == UnsupportedCommand(header.command)
  {
    var command := header.command;
    if command == MessageHeader.CMD_CNXN then Success(Connect(header, data))
    else if command == MessageHeader.CMD_AUTH then Success(Auth(header, data))
    else if command == MessageHeader.CMD_OPEN then Success(Open(header, data))
    else if command == MessageHeader.CMD_CLSE then Success(Close(header, data))
    else if command == MessageHeader.CMD_OKAY then Success(Okay(header, data))
    else if command == MessageHeader.CMD_WRTE then Success(Write(header, data))
    else Failure(UnsupportedCommand(command))
  }

  /** SYNC is a known command but not a message class. */
  lemma CreateRejectsSync(header: Header, data: ByteArray)
    requires header.command == MessageHeader.CMD_SYNC
    ensures Create(header, data) == Failure(UnsupportedCommand(MessageHeader.CMD_SYNC))
  {
  }

  /** Every message is rebuilt by Create from its own header and payload when its command is its class's. */
  lemma {:induction false} CreateInvertsKind(m: Message)
    requires m.header.command == Command(m)
    ensures Create(m.header, m.data) == Success(m)
  {
    match m
    case Connect(_, _) =>
    case Auth(_, _) =>
    case Open(_, _) =>
    case Okay(_, _) =>
    case Close(_, _) =>
    case Write(_, _) =>
  }

  /** The payload without its trailing run of NUL bytes. */
  function TrimNul(s: seq<byte>): (r: seq<byte>)
    ensures r <= s
    ensures |r| == 0 || r[|r| - 1] != NUL
    ensures forall i | |r| <= i < |s| :: s[i] == NUL
  {
    if |s| > 0 && s[|s| - 1] == NUL then TrimNul(s[..|s| - 1]) else s
  }

  /** Trimming is undone by nothing but NULs: a string without a trailing NUL is its own trim, also after NULs are added. */
  lemma {:induction false} TrimNulAppendNul(s: seq<byte>, n: nat)
    requires |s| == 0 || s[|s| - 1] != NUL
    ensures TrimNul(s + seq(n, _ => NUL)) == s
  {
    if n > 0 {
      var t := s + seq(n, _ => NUL);
      assert t[..|t| - 1] == s + seq(n - 1, _ => NUL);
      TrimNulAppendNul(s, n - 1);
    } else {
      assert s + seq(0, _ => NUL) == s;
    }
  }

  /**
   * The trimming loop of getIdentity, getDestination and getDataAsString:
   * `while (len > 0 && data[len - 1] == 0) len--`.
   */
  method StripNul(data: seq<byte>) returns (s: seq<byte>)
    ensures s == TrimNul(data)
  {
    var len := |data|;
    while len > 0 && data[len - 1] == NUL
      invariant 0 <= len <= |data|
      invariant TrimNul(data[..len]) == TrimNul(data)
    {
      assert data[..len][..len - 1] == data[..len - 1];
      len := len - 1;
    }
    s := data[..len];
  }
}
