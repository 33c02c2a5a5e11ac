/**
 * Primitive values of the ADB wire format as the source handles them:
 * Java bytes and ints as unsigned bit patterns, byte arrays with Java's
 * length limit, the little-endian word layout, and the exceptions the
 * protocol code throws.
 */
module Wire {

  /** The bit pattern of a Java byte, read unsigned (what `b & 0xff` yields). */
  type byte = b: int | 0 <= b < 0x100

  /** The bit pattern of a Java int, read unsigned. */
  type word = w: int | 0 <= w < 0x1_0000_0000

  /** Java int arithmetic wraps modulo this. */
  const Modulus: int := 0x1_0000_0000

  /** A Java array is indexed by an int, so it holds at most 2^31 - 1 elements. */
  const MaxArrayLength: int := 0x7FFF_FFFF

  /** A Java `byte[]`. Strings are carried as their UTF-8 bytes. */
  type ByteArray = s: seq<byte> | |s| <= MaxArrayLength witness []

  const NUL: byte := 0
  const COLON: byte := 0x3A

  /** The value of a Java int with this bit pattern (two's complement). */
  function Signed(w: word): (i: int)
    ensures -0x8000_0000 <= i < 0x8000_0000
    ensures i >= 0 <==> w < 0x8000_0000
    ensures (i - w) % Modulus == 0
  {
    if w < 0x8000_0000 then w else w - Modulus
  }

  /** Java's `w ^ 0xffffffff` on an int: every bit inverted. */
  function Complement(w: word): (c: word)
  {
    0xFFFF_FFFF - w
  }

  /** The four bytes of a word in little-endian order (ByteBuffer.putInt). */
  function LeBytes(w: word): (b: seq<byte>)
    ensures |b| == 4
  {
    [w % 0x100, (w / 0x100) % 0x100, (w / 0x1_0000) % 0x100, w / 0x100_0000]
  }

  /** The word whose little-endian bytes these are (ByteBuffer.getInt). */
  function LeWord(b: seq<byte>): word
    requires |b| == 4
  {
    b[0] as int + 0x100 * (b[1] as int) + 0x1_0000 * (b[2] as int) + 0x100_0000 * (b[3] as int)
  }

  lemma LeWordOfLeBytes(w: word)
    ensures LeWord(LeBytes(w)) == w
  {
    var q := w / 0x100;
    assert w / 0x1_0000 == q / 0x100;
    assert w / 0x100_0000 == (q / 0x100) / 0x100;
  }

  lemma LeBytesOfLeWord(b: seq<byte>)
    requires |b| == 4
    ensures LeBytes(LeWord(b)) == b
  {
    var w := LeWord(b);
    assert w / 0x100 == b[1] as int + 0x100 * (b[2] as int) + 0x1_0000 * (b[3] as int);
    assert w / 0x1_0000 == b[2] as int + 0x100 * (b[3] as int);
    assert w / 0x100_0000 == b[3];
  }

  /** Inverting every bit inverts every byte, and inverting twice restores the word. */
  lemma ComplementBytes(w: word)
    ensures Complement(Complement(w)) == w
    ensures forall k | 0 <= k < 4 :: LeBytes(Complement(w))[k] == 0xFF - LeBytes(w)[k]
  {
    var c := Complement(w);
    var w1, w2 := w / 0x100, w / 0x100 / 0x100;
    var c1, c2 := c / 0x100, c / 0x100 / 0x100;
    ComplementDigit(w, 0x100_0000);
    ComplementDigit(w1, 0x1_0000);
    ComplementDigit(w2, 0x100);
    DivDiv(w);
    DivDiv(c);
    assert LeBytes(c)[1] == c1 % 0x100;
    assert LeBytes(w)[1] == w1 % 0x100;
  }

  lemma DivDiv(x: nat)
    ensures x / 0x1_0000 == x / 0x100 / 0x100 && x / 0x100_0000 == x / 0x100 / 0x100 / 0x100
  {
  }

  /** The low byte and the rest of `0x100 * n - 1 - x` are the inverted low byte and rest of `x`. */
  lemma ComplementDigit(x: int, n: int)
    requires 0 < n && 0 <= x < 0x100 * n
    ensures (0x100 * n - 1 - x) % 0x100 == 0xFF - x % 0x100
    ensures (0x100 * n - 1 - x) / 0x100 == n - 1 - x / 0x100
  {
    var q, r := x / 0x100, x % 0x100;
    assert 0x100 * n - 1 - x == 0x100 * (n - 1 - q) + (0xFF - r);
  }

  /** The bytes of a string literal made only of ASCII characters, which is its UTF-8 encoding. */
  function Ascii(s: string): (b: seq<byte>)
    requires forall i | 0 <= i < |s| :: s[i] < 128 as char
    ensures |b| == |s|
  {
    seq(|s|, i requires 0 <= i < |s| => s[i] as int)
  }

  /** Why an InvalidMessageException was thrown while moving a message over the pipes. */
  datatype Reason =
    | HeaderSizeSent(sent: int)       // fewer or more than 24 header bytes were sent
    | DataSizeSent(sent: int)         // the payload count sent differs from dataLength
    | HeaderSize(received: int)       // fewer than 24 header bytes were received
    | HeaderChecksum                  // the received header's magic is not ~command
    | DataSize(received: int)         // the payload count received differs from dataLength
    | DataChecksum                    // the received payload does not match dataChecksum

  /** The exceptions the protocol code throws or lets through. */
  datatype Error =
    | IllegalArgument                 // IllegalArgumentException
    | UnsupportedCommand(command: word) // UnsupportedOperationException from Message.create
    | InvalidMessage(reason: Reason)  // InvalidMessageException
    | NegativeArraySize               // `new byte[n]` with a negative n
    | IndexOutOfBounds                // `split(":")[k]` with too few pieces
    | IllegalState                    // a Device used while closed, or opened twice
    | Usb                             // UsbException from a transfer on the pipe
    | KeyUnavailable                  // IOException or GeneralSecurityException from the key files or the cipher
    | NullPointer                     // NullPointerException: an endpoint address the interface does not have
}
