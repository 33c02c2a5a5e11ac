/**
 * The fixed 24-byte ADB message header: six little-endian words
 * (command, arg0, arg1, dataLength, dataChecksum, magic), where a header is
 * valid when magic is the bitwise complement of command.
 */
module MessageHeader {
  import opened Wrappers
  import opened Wire

  const CMD_SYNC: word := 0x434e5953
  const CMD_CNXN: word := 0x4e584e43
  const CMD_AUTH: word := 0x48545541
  const CMD_OPEN: word := 0x4e45504f
  const CMD_OKAY: word := 0x59414b4f
  const CMD_CLSE: word := 0x45534c43
  const CMD_WRTE: word := 0x45545257

  /** The header size in bytes. */
  const Size: nat := 24

  datatype Header = Header(
    command: word,
    arg0: word,
    arg1: word,
    dataLength: word,    // length of the payload (0 is allowed)
    dataChecksum: word,  // sum of all payload bytes, not a CRC32
    magic: word)         // the inverted command

  /** Field k of the header, in wire order. */
  function Field(h: Header, k: nat): word
    requires k < 6
  {
    match k
    case 0 => h.command
    case 1 => h.arg0
    case 2 => h.arg1
    case 3 => h.dataLength
    case 4 => h.dataChecksum
    case 5 => h.magic
  }

  /** Word k of a 24-byte header image. */
  function WordAt(b: seq<byte>, k: nat): word
    requires |b| == Size && k < 6
  {
    LeWord(b[4 * k .. 4 * k + 4])
  }

  /** The header's validity check: magic is the inverted command, and nothing else is looked at. */
  predicate IsValid(h: Header)
  {
    h.magic == Complement(h.command)
  }

  /**
   * The six-argument constructor. It stores five of its arguments and
   * computes magic from the command, so `magic` is never used.
   */
  function New(command: word, arg0: word, arg1: word, dataLength: word, dataChecksum: word, magic: word): (h: Header)
    ensures IsValid(h)
    ensures h.command == command && h.arg0 == arg0 && h.arg1 == arg1
    ensures h.dataLength == dataLength && h.dataChecksum == dataChecksum
  {
    Header(command, arg0, arg1, dataLength, dataChecksum, Complement(command))
  }

  lemma NewIgnoresMagic(command: word, arg0: word, arg1: word, dataLength: word, dataChecksum: word, m1: word, m2: word)
    ensures New(command, arg0, arg1, dataLength, dataChecksum, m1) == New(command, arg0, arg1, dataLength, dataChecksum, m2)
  {
  }

  /** The header as bytes (getBytes): the six fields little-endian, in wire order. */
  function ToBytes(h: Header): (b: seq<byte>)
    ensures |b| == Size
    ensures forall k | 0 <= k < 6 :: WordAt(b, k) == Field(h, k)
  {
    var b := LeBytes(h.command) + LeBytes(h.arg0) + LeBytes(h.arg1)
      + LeBytes(h.dataLength) + LeBytes(h.dataChecksum) + LeBytes(h.magic);
    forall k | 0 <= k < 6 ensures WordAt(b, k) == Field(h, k) {
      LeWordOfLeBytes(Field(h, k));
      assert b[4 * k .. 4 * k + 4] == LeBytes(Field(h, k));
    }
    b
  }

  /**
   * The byte-array constructor: refuses any length but 24 and otherwise
   * reads the six words, whatever they hold.
   */
  function FromBytes(b: seq<byte>): (r: Result<Header, Error>)
    ensures r.Failure? <==> |b| != Size
    ensures r.Failure? ==> r.error == IllegalArgument
    ensures r.Success? ==> forall k | 0 <= k < 6 :: Field(r.value, k) == WordAt(b, k)
  {
    if |b| != Size then Failure(IllegalArgument)
    else Success(Header(WordAt(b, 0), WordAt(b, 1), WordAt(b, 2), WordAt(b, 3), WordAt(b, 4), WordAt(b, 5)))
  }

  /** Decoding the bytes of a header gives back all six fields. */
  lemma {:induction false} DecodeEncode(h: Header)
    ensures FromBytes(ToBytes(h)) == Success(h)
  {
    var r := FromBytes(ToBytes(h));
    assert Field(r.value, 0) == Field(h, 0) && Field(r.value, 1) == Field(h, 1);
    assert Field(r.value, 2) == Field(h, 2) && Field(r.value, 3) == Field(h, 3);
    assert Field(r.value, 4) == Field(h, 4) && Field(r.value, 5) == Field(h, 5);
  }

  /** Encoding a decoded header gives back every one of the 24 bytes. */
  lemma {:induction false} EncodeDecode(b: seq<byte>)
    requires |b| == Size
    ensures FromBytes(b).Success? && ToBytes(FromBytes(b).value) == b
  {
    var h := FromBytes(b).value;
    var e := ToBytes(h);
    forall k | 0 <= k < 6 ensures e[4 * k .. 4 * k + 4] == b[4 * k .. 4 * k + 4] {
      assert WordAt(e, k) == WordAt(b, k);
      LeBytesOfLeWord(e[4 * k .. 4 * k + 4]);
      LeBytesOfLeWord(b[4 * k .. 4 * k + 4]);
    }
    forall i | 0 <= i < Size ensures e[i] == b[i] {
      var k := i / 4;
      assert e[4 * k .. 4 * k + 4][i - 4 * k] == e[i];
      assert b[4 * k .. 4 * k + 4][i - 4 * k] == b[i];
    }
  }

  /** The seven commands are distinct, and their bytes spell their mnemonics. */
  lemma CommandMnemonics()
    ensures LeBytes(CMD_SYNC) == Ascii("SYNC") && LeBytes(CMD_CNXN) == Ascii("CNXN")
    ensures LeBytes(CMD_AUTH) == Ascii("AUTH") && LeBytes(CMD_OPEN) == Ascii("OPEN")
    ensures LeBytes(CMD_OKAY) == Ascii("OKAY") && LeBytes(CMD_CLSE) == Ascii("CLSE")
    ensures LeBytes(CMD_WRTE) == Ascii("WRTE")
    ensures |{CMD_SYNC, CMD_CNXN, CMD_AUTH, CMD_OPEN, CMD_OKAY, CMD_CLSE, CMD_WRTE}| == 7
  {
  }

  /** Reads the little-endian word at `pos` (ByteBuffer.getInt at the cursor). */
  function GetInt(a: array<byte>, pos: nat): word
    requires pos + 4 <= a.Length
    reads a
  {
    LeWord(a[pos .. pos + 4])
  }

  /** The byte-array constructor, stepping a cursor through the buffer. */
  method Decode(bytes: array<byte>) returns (r: Result<Header, Error>)
    ensures r == FromBytes(bytes[..])
  {
    if bytes.Length != Size {
      return Failure(IllegalArgument);
    }
    var pos := 0;
    var command := GetInt(bytes, pos);
    pos := pos + 4;
    var arg0 := GetInt(bytes, pos);
    pos := pos + 4;
    var arg1 := GetInt(bytes, pos);
    pos := pos + 4;
    var dataLength := GetInt(bytes, pos);
    pos := pos + 4;
    var dataChecksum := GetInt(bytes, pos);
    pos := pos + 4;
    var magic := GetInt(bytes, pos);
    assert bytes[..][20..24] == bytes[20..24];
    assert bytes[..][16..20] == bytes[16..20] && bytes[..][12..16] == bytes[12..16];
    assert bytes[..][8..12] == bytes[8..12] && bytes[..][4..8] == bytes[4..8] && bytes[..][0..4] == bytes[0..4];
    r := Success(Header(command, arg0, arg1, dataLength, dataChecksum, magic));
  }

  /** Writes a word little-endian at `pos` (ByteBuffer.putInt at the cursor). */
  method PutInt(a: array<byte>, pos: nat, w: word)
    requires pos + 4 <= a.Length
    modifies a
    ensures a[..] == old(a[..pos]) + LeBytes(w) + old(a[pos + 4..])
  {
    var b := LeBytes(w);
    a[pos] := b[0];
    a[pos + 1] := b[1];
    a[pos + 2] := b[2];
    a[pos + 3] := b[3];
  }

  /** getBytes: fills a fresh 24-byte buffer field by field. */
  method GetBytes(h: Header) returns (a: array<byte>)
    ensures fresh(a) && a[..] == ToBytes(h)
  {
    a := new byte[Size];
    var pos := 0;
    PutInt(a, pos, h.command);
    ghost var written := LeBytes(h.command);
    assert a[..4] == written;
    pos := pos + 4;
    PutInt(a, pos, h.arg0);
    written := written + LeBytes(h.arg0);
    assert a[..8] == written;
    pos := pos + 4;
    PutInt(a, pos, h.arg1);
    written := written + LeBytes(h.arg1);
    assert a[..12] == written;
    pos := pos + 4;
    PutInt(a, pos, h.dataLength);
    written := written + LeBytes(h.dataLength);
    assert a[..16] == written;
    pos := pos + 4;
    PutInt(a, pos, h.dataChecksum);
    written := written + LeBytes(h.dataChecksum);
    assert a[..20] == written;
    pos := pos + 4;
    PutInt(a, pos, h.magic);
    written := written + LeBytes(h.magic);
    assert a[..] == written;
  }
}
