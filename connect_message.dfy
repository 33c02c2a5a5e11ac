/**
 * The CNXN message: protocol version in arg0, maximum payload size in arg1,
 * and an identity payload "systemType:serialNo:banner" ended by one NUL.
 */
module ConnectMessage {
  import opened Wrappers
  import opened Wire
  import MessageHeader
  import opened Messages
  import opened JavaString

  const DEFAULT_PROTOCOL_VERSION: word := 0x0100_0000
  const DEFAULT_MAX_DATA: word := 4096
  const SYSTEM_TYPE_BOOTLOADER: seq<byte> := Ascii("bootloader")
  const SYSTEM_TYPE_DEVICE: seq<byte> := Ascii("device")
  const SYSTEM_TYPE_HOST: seq<byte> := Ascii("host")

  function Version(m: Message): word
    requires m.Connect?
  {
    m.header.arg0
  }

  function MaxData(m: Message): word
    requires m.Connect?
  {
    m.header.arg1
  }

  /** ConnectMessage(version, maxData, identity): an outgoing CNXN message. */
  function New(version: word, maxData: word, identity: ByteArray): (m: Message)
    ensures m.Connect? && m.header.command == MessageHeader.CMD_CNXN
    ensures Version(m) == version && MaxData(m) == maxData && m.data == identity
    ensures Receivable(m)
  {
    var m := Connect(OutgoingHeader(MessageHeader.CMD_CNXN, version, maxData, identity), identity);
    OutgoingIsReceivable(m);
    m
  }

  /** The three parts, each possibly null, fit one Java array once joined. */
  predicate PartsFit(systemType: Option<ByteArray>, serialNo: Option<ByteArray>, banner: Option<ByteArray>)
  {
    systemType.Some? && serialNo.Some? && banner.Some? ==>
      |systemType.value| + |serialNo.value| + |banner.value| + 3 <= MaxArrayLength
  }

  /** buildIdentity: a null part is an IllegalArgumentException; otherwise the parts joined by colons and ended by one NUL. */
  function BuildIdentity(systemType: Option<ByteArray>, serialNo: Option<ByteArray>, banner: Option<ByteArray>)
    : (r: Result<ByteArray, Error>)
    requires PartsFit(systemType, serialNo, banner)
    ensures r.Failure? <==> systemType.None? || serialNo.None? || banner.None?
    ensures r.Failure? ==> r.error == IllegalArgument
    ensures r.Success? ==> r.value == Join([systemType.value, serialNo.value, banner.value]) + [NUL]
  {
    if systemType.None? || serialNo.None? || banner.None? then Failure(IllegalArgument)
    else
      var joined := systemType.value + [COLON] + serialNo.value + [COLON] + banner.value;
      assert Join([serialNo.value, banner.value]) == serialNo.value + [COLON] + banner.value;
      assert joined == Join([systemType.value, serialNo.value, banner.value]);
      Success(joined + [NUL])
  }

  /** ConnectMessage(version, maxData, systemType, serialNo, banner). */
  function FromParts(version: word, maxData: word,
                     systemType: Option<ByteArray>, serialNo: Option<ByteArray>, banner: Option<ByteArray>)
    : (r: Result<Message, Error>)
    requires PartsFit(systemType, serialNo, banner)
    ensures r.Failure? <==> systemType.None? || serialNo.None? || banner.None?
    ensures r.Failure? ==> r.error == IllegalArgument
    ensures r.Success? ==> r.value.Connect? && Receivable(r.value)
    ensures r.Success? ==> Version(r.value) == version && MaxData(r.value) == maxData
    ensures r.Success? ==> Success(r.value.data) == BuildIdentity(systemType, serialNo, banner)
  {
    var identity := BuildIdentity(systemType, serialNo, banner);
    if identity.Failure? then Failure(identity.error) else Success(New(version, maxData, identity.value))
  }

  /** ConnectMessage(systemType, serialNo, banner): the default version and maximum payload size. */
  function FromStrings(systemType: Option<ByteArray>, serialNo: Option<ByteArray>, banner: Option<ByteArray>)
    : (r: Result<Message, Error>)
    requires PartsFit(systemType, serialNo, banner)
    ensures r.Failure? <==> systemType.None? || serialNo.None? || banner.None?
    ensures r.Success? ==> r == FromParts(0x0100_0000, 4096, systemType, serialNo, banner)
    ensures r.Success? ==> r.value.Connect? && Version(r.value) == 0x0100_0000 && MaxData(r.value) == 4096
  {
    FromParts(DEFAULT_PROTOCOL_VERSION, DEFAULT_MAX_DATA, systemType, serialNo, banner)
  }

  /** getIdentity: the payload without its trailing NULs (the loop is Messages.StripNul). */
  function Identity(m: Message): (s: seq<byte>)
    requires m.Connect?
    ensures s <= m.data && (|s| == 0 || s[|s| - 1] != NUL)
  {
    TrimNul(m.data)
  }

  /** Piece k of the identity, or the ArrayIndexOutOfBoundsException of `split(":")[k]`. */
  function Part(m: Message, k: nat): (r: Result<seq<byte>, Error>)
    requires m.Connect?
    ensures r.Failure? <==> k >= |Split(Identity(m))|
    ensures r.Failure? ==> r.error == IndexOutOfBounds
    ensures r.Success? ==> ColonFree(r.value) && r.value == Split(Identity(m))[k]
  {
    var parts := Split(Identity(m));
    if k < |parts| then Success(parts[k]) else Failure(IndexOutOfBounds)
  }

  function SystemType(m: Message): Result<seq<byte>, Error>
    requires m.Connect?
  {
    Part(m, 0)
  }

  function SerialNo(m: Message): Result<seq<byte>, Error>
    requires m.Connect?
  {
    Part(m, 1)
  }

  function Banner(m: Message): Result<seq<byte>, Error>
    requires m.Connect?
  {
    Part(m, 2)
  }

  /**
   * The identity getters return the parts the message was built from when
   * no part holds a colon and the banner is non-empty without a trailing NUL.
   */
  lemma IdentityRoundTrip(version: word, maxData: word, systemType: ByteArray, serialNo: ByteArray, banner: ByteArray)
    requires PartsFit(Some(systemType), Some(serialNo), Some(banner))
    requires ColonFree(systemType) && ColonFree(serialNo) && ColonFree(banner)
    requires |banner| > 0 && banner[|banner| - 1] != NUL
    ensures FromParts(version, maxData, Some(systemType), Some(serialNo), Some(banner)).Success?
    ensures var m := FromParts(version, maxData, Some(systemType), Some(serialNo), Some(banner)).value;
      SystemType(m) == Success(systemType) && SerialNo(m) == Success(serialNo) && Banner(m) == Success(banner)
  {
    var m := FromParts(version, maxData, Some(systemType), Some(serialNo), Some(banner)).value;
    var pieces := [systemType, serialNo, banner];
    TrimJoinedIdentity(pieces);
    SplitJoined(pieces);
    assert Split(Identity(m)) == pieces;
  }

  /** The joined parts of a well-formed identity survive trimming of the final NUL. */
  lemma TrimJoinedIdentity(pieces: seq<seq<byte>>)
    requires |pieces| == 3 && |pieces[2]| > 0 && pieces[2][|pieces[2]| - 1] != NUL
    ensures TrimNul(Join(pieces) + [NUL]) == Join(pieces)
  {
    var joined := Join(pieces);
    assert Join(pieces[1..]) == pieces[1] + [COLON] + Join(pieces[2..]);
    assert joined == pieces[0] + [COLON] + pieces[1] + [COLON] + pieces[2];
    assert joined[|joined| - 1] == pieces[2][|pieces[2]| - 1];
    TrimNulAppendNul(joined, 1);
    assert joined + seq(1, _ => NUL) == joined + [NUL];
  }

  /** Three colon-free parts with a non-empty last one split back into themselves. */
  lemma SplitJoined(pieces: seq<seq<byte>>)
    requires |pieces| == 3 && |pieces[2]| > 0
    requires ColonFree(pieces[0]) && ColonFree(pieces[1]) && ColonFree(pieces[2])
    ensures Split(Join(pieces)) == pieces
  {
    var joined := Join(pieces);
    assert Join(pieces[1..]) == pieces[1] + [COLON] + Join(pieces[2..]);
    assert joined == pieces[0] + [COLON] + pieces[1] + [COLON] + pieces[2];
    assert joined[|pieces[0]|] == COLON;
    PiecesOfJoin(pieces);
  }

  /** With an empty banner the trailing empty piece is dropped, so getBanner throws. */
  lemma EmptyBannerUnreadable(version: word, maxData: word, systemType: ByteArray, serialNo: ByteArray)
    requires PartsFit(Some(systemType), Some(serialNo), Some([]))
    requires ColonFree(systemType) && ColonFree(serialNo)
    ensures FromParts(version, maxData, Some(systemType), Some(serialNo), Some([])).Success?
    ensures Banner(FromParts(version, maxData, Some(systemType), Some(serialNo), Some([])).value) == Failure(IndexOutOfBounds)
  {
    var m := FromParts(version, maxData, Some(systemType), Some(serialNo), Some([])).value;
    var pieces := [systemType, serialNo, []];
    var joined := Join(pieces);
    assert joined == systemType + [COLON] + serialNo + [COLON];
    assert m.data == joined + [NUL];
    assert m.data[..|m.data| - 1] == joined;
    assert TrimNul(m.data) == TrimNul(joined);
    assert TrimNul(joined) == joined;
    PiecesOfJoin(pieces);
    assert joined[|systemType|] == COLON;
    assert |Split(Identity(m))| <= 2;
  }

  /** A received CNXN with payload "host" and one NUL, version 0x01000000 and maxData 0x1000. */
  lemma HostIdentity(header: MessageHeader.Header)
    requires header.arg0 == 0x0100_0000 && header.arg1 == 0x1000
    ensures var m := Connect(header, SYSTEM_TYPE_HOST + [NUL]);
      Version(m) == DEFAULT_PROTOCOL_VERSION && MaxData(m) == DEFAULT_MAX_DATA &&
      Identity(m) == SYSTEM_TYPE_HOST &&
      SystemType(m) == Success(SYSTEM_TYPE_HOST) && SerialNo(m) == Failure(IndexOutOfBounds)
  {
    var m := Connect(header, SYSTEM_TYPE_HOST + [NUL]);
    assert SYSTEM_TYPE_HOST == [0x68, 0x6f, 0x73, 0x74];
    TrimNulAppendNul(SYSTEM_TYPE_HOST, 1);
    assert SYSTEM_TYPE_HOST + seq(1, _ => NUL) == m.data;
  }
}
