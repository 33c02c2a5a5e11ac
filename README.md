# ADB over USB, and the USB missile launcher: a verified model

This project models the protocol core of the usb4java javax examples, together with its proofs.

- **The ADB wire protocol.** ADB is the Android Debug Bridge.
  - The 24-byte message header is six little-endian 32-bit words: command, arg0, arg1, dataLength, dataChecksum and magic.
  - Messages form a closed family: CNXN, AUTH, OPEN, OKAY, CLSE and WRTE. Each carries a payload checksum, which is the unsigned byte sum modulo 2^32.
  - Sending writes the header chunk and then the payload chunk. Receiving applies its checks in a fixed order: header size, header magic, payload size, command dispatch, then checksum.
  - The handshake driver answers AUTH challenges in the order Signature, PublicKey, Signature, then gives up. After connecting it opens `sync:` and closes that stream again.
  - `Adb` supplies the device and interface filter and the DigestInfo prefix that is signed.
- **The missile launcher.** The 64-byte control report, the three-packet command sequence (INIT_A, INIT_B, report) and the interactive key loop.

## How the model is built

**Numbers and strings**
- Words are integers in 0..2^32-1, the unsigned view of a Java `int`. Bytes are 0..255, the Java `b & 0xff`.
- `Wire.Signed` recovers the signed Java value. This matters for `new byte[dataLength]`, where a negative length raises an error, and for the `!=` comparisons of transfer counts.
- Payloads are byte sequences no longer than Java's largest array (2^31-1).
- Strings are their UTF-8 bytes. The model assumes text is ASCII. `':'` and NUL occur in UTF-8 only as themselves, so splitting and trimming bytes matches the Java string operations.

**Header and messages**
- The header codec exists both as pure functions (`MessageHeader.ToBytes`/`FromBytes`) and as the `ByteBuffer`-style methods over arrays that the source uses (`Decode`, `PutInt`, `GetBytes`). Each method is proved equal to its function.
- A `Messages.Message` is a datatype with one variant per message class. Each class's header constructor becomes the datatype constructor, which stores header and data unchecked.

**Pipes and devices**
- The USB pipe is abstract: a script of incoming chunks, a script of how many bytes each out-transfer accepts, an event log and an open flag.
  - A transfer that finds its script empty fails with a USB error.
  - `Transport.Pipe` and `Transport.Interface` are classes whose methods update that state in place.
- `AdbDevice.AdbDevice` and `Device.Device` are classes. Their send and receive methods stand against the staged framing functions of module `Framing`.
  - Each method opens the pipe, transfers step by step, and closes the pipe on every path.

**Demo driver and launcher**
- The demo driver is modelled at two levels:
  - as a pure message-level function (`AdbDemo.Handshake`), where the fallback properties are proved;
  - as methods over an `AdbDevice` that follow `main` line by line, proved against pipe-level specification functions.
- `AdbDemo.HandshakeLoopFollowsHandshake` connects the two levels. When the input pipe delivers the frames of an inbox of messages and the output pipe takes every reply whole, the pipe-level loop ends as `Handshake` does, and its output log is exactly the sends of the handshake's replies.
- `AdbDemo.StreamRefused`, `AdbDemo.StreamCompletes` and `AdbDemo.DemoFinishes` describe the rest of the exchange: what is refused, what finishes, and which frames are written in which order.
- `System.exit` becomes an `Exited` ending that skips the `finally` block, so the device stays claimed. A thrown exception becomes `Threw` and does run `finally`.
- The launcher is a class holding a log of control transfers and a budget of transfers the device accepts. The `Control` method is the source's `while (!exit)` key loop.

## Model

Paths are relative to the repository root.

| member | source | states |
|---|---|---|
| Wire.Signed | src/main/java/org/usb4java/javax/examples/adb/AdbDevice.java:129-134 | the signed Java reading of a word lies in [-2^31, 2^31), is non-negative exactly when the word is below 2^31, and is congruent to it mod 2^32 |
| Wire.LeBytes | src/main/java/org/usb4java/javax/examples/adb/MessageHeader.java:187-198 | a word is laid out as exactly four bytes |
| Wire.LeWordOfLeBytes | src/main/java/org/usb4java/javax/examples/adb/MessageHeader.java:96-109 | reading back the four little-endian bytes of a word gives the word |
| Wire.LeBytesOfLeWord | src/main/java/org/usb4java/javax/examples/adb/MessageHeader.java:96-109 | every four bytes are the little-endian layout of the word they encode |
| Wire.ComplementBytes | src/main/java/org/usb4java/javax/examples/adb/MessageHeader.java:177-180 | complementing twice is the identity, and each byte of `w ^ 0xffffffff` is 0xFF minus the corresponding byte of w |
| Wire.Ascii | src/main/java/org/usb4java/javax/examples/adb/ConnectMessage.java:111-122 | the byte encoding of ASCII text has one byte per character |
| MessageHeader.New | src/main/java/org/usb4java/javax/examples/adb/MessageHeader.java:79-88 | the six-argument constructor keeps command, arg0, arg1, dataLength and dataChecksum, and always yields a valid header |
| MessageHeader.NewIgnoresMagic | src/main/java/org/usb4java/javax/examples/adb/MessageHeader.java:79-88 | the magic argument has no influence on the header built |
| MessageHeader.ToBytes | src/main/java/org/usb4java/javax/examples/adb/MessageHeader.java:187-198 | the encoding is 24 bytes whose k-th little-endian word is the k-th field, in the order command, arg0, arg1, dataLength, dataChecksum, magic |
| MessageHeader.FromBytes | src/main/java/org/usb4java/javax/examples/adb/MessageHeader.java:96-109 | fails with an illegal-argument error exactly when the length is not 24; otherwise field k is the k-th little-endian word, and content is never rejected |
| MessageHeader.DecodeEncode | src/main/java/org/usb4java/javax/examples/adb/MessageHeader.java:96-109 | decoding the encoding of a header restores all six fields |
| MessageHeader.EncodeDecode | src/main/java/org/usb4java/javax/examples/adb/MessageHeader.java:96-109 | every 24-byte input decodes, and encoding the result gives the input back |
| MessageHeader.CommandMnemonics | src/main/java/org/usb4java/javax/examples/adb/MessageHeader.java:19-37 | the seven command constants spell ASCII SYNC, CNXN, AUTH, OPEN, OKAY, CLSE and WRTE little-endian, and are pairwise distinct |
| MessageHeader.Decode | src/main/java/org/usb4java/javax/examples/adb/MessageHeader.java:96-109 | the `ByteBuffer` read of an array agrees with `FromBytes` on its contents, the length error included |
| MessageHeader.PutInt | src/main/java/org/usb4java/javax/examples/adb/MessageHeader.java:187-198 | one `putInt` writes the four little-endian bytes at the cursor and leaves the rest of the array unchanged |
| MessageHeader.GetBytes | src/main/java/org/usb4java/javax/examples/adb/MessageHeader.java:187-198 | the fresh array filled by six `putInt` calls holds exactly `ToBytes` of the header |
| Messages.ChecksumIsSum | src/main/java/org/usb4java/javax/examples/adb/Message.java:37-39 | the wrapping accumulation of `b & 0xff` equals the byte sum modulo 2^32 |
| Messages.SumNonNegative | src/main/java/org/usb4java/javax/examples/adb/Message.java:37-39 | the unwrapped byte sum is never negative |
| Messages.SumUpdate | src/main/java/org/usb4java/javax/examples/adb/Message.java:87-89 | replacing one byte moves the sum by exactly the difference of the two byte values |
| Messages.ShiftChangesResidue | src/main/java/org/usb4java/javax/examples/adb/Message.java:87-90 | a nonzero shift smaller than 2^32 in size always changes the residue mod 2^32 |
| Messages.ChecksumDetectsByteChange | src/main/java/org/usb4java/javax/examples/adb/Message.java:87-90 | changing any single payload byte changes the checksum |
| Messages.ComputeChecksum | src/main/java/org/usb4java/javax/examples/adb/Message.java:37-39 | the for-loop over the payload yields the byte sum modulo 2^32 |
| Messages.OutgoingHeader | src/main/java/org/usb4java/javax/examples/adb/Message.java:34-42 | the outgoing constructor keeps command, arg0 and arg1, sets dataLength to the payload length and dataChecksum to the byte sum mod 2^32, and the header is valid |
| Messages.CheckValid | src/main/java/org/usb4java/javax/examples/adb/Message.java:84-91 | true exactly when the header is valid and the recomputed sum equals dataChecksum; dataLength is not consulted |
| Messages.OutgoingIsReceivable | src/main/java/org/usb4java/javax/examples/adb/Message.java:34-42 | a message built by the outgoing constructor is valid and its length field matches its payload |
| Messages.ByteChangeInvalidates | src/main/java/org/usb4java/javax/examples/adb/Message.java:84-91 | a valid message with any one payload byte changed is invalid |
| Messages.ValidityIgnoresLength | src/main/java/org/usb4java/javax/examples/adb/Message.java:84-91 | validity is the same whatever the dataLength field says |
| Messages.Create | src/main/java/org/usb4java/javax/examples/adb/Message.java:102-130 | succeeds exactly for CNXN, AUTH, OPEN, CLSE, OKAY and WRTE, with header and data unchanged and the variant matching the command; any other command fails as unsupported |
| Messages.CreateRejectsSync | src/main/java/org/usb4java/javax/examples/adb/Message.java:125-128 | a SYNC header is rejected as unsupported |
| Messages.CreateInvertsKind | src/main/java/org/usb4java/javax/examples/adb/Message.java:102-123 | dispatching a message's own header and data rebuilds that message |
| Messages.TrimNul | src/main/java/org/usb4java/javax/examples/adb/ConnectMessage.java:149-154 | the trimmed string is a prefix that does not end in NUL, and everything cut off is NUL |
| Messages.TrimNulAppendNul | src/main/java/org/usb4java/javax/examples/adb/OpenMessage.java:71-76 | trimming a string that does not end in NUL, followed by any number of NULs, gives the string back |
| Messages.StripNul | src/main/java/org/usb4java/javax/examples/adb/OpenMessage.java:71-76 | the `while (len > 0 && data[len - 1] == 0)` loop computes `TrimNul` |
| JavaString.Pieces | src/main/java/org/usb4java/javax/examples/adb/ConnectMessage.java:161-184 | cutting at every ':' gives at least one piece |
| JavaString.DropTrailingEmpty | src/main/java/org/usb4java/javax/examples/adb/ConnectMessage.java:161-184 | the result is a prefix that does not end in an empty piece, and every piece dropped is empty |
| JavaString.Split | src/main/java/org/usb4java/javax/examples/adb/ConnectMessage.java:161-184 | `String.split(":")` returns the input unchanged when it has no ':', and otherwise pieces that contain no ':' |
| JavaString.PiecesAreColonFree | src/main/java/org/usb4java/javax/examples/adb/ConnectMessage.java:161-184 | no piece contains ':' |
| JavaString.JoinPieces | src/main/java/org/usb4java/javax/examples/adb/ConnectMessage.java:161-184 | joining the pieces with ':' restores the string |
| JavaString.PiecesOfPrefix | src/main/java/org/usb4java/javax/examples/adb/ConnectMessage.java:161-184 | a colon-free prefix merges into the first piece of what follows it |
| JavaString.PiecesOfJoin | src/main/java/org/usb4java/javax/examples/adb/ConnectMessage.java:111-122 | cutting a ':'-join of colon-free pieces gives those pieces back |
| ConnectMessage.New | src/main/java/org/usb4java/javax/examples/adb/ConnectMessage.java:77-80 | has command CNXN, `getVersion` and `getMaxData` return version and maxData, data is the identity, and the message is valid |
| ConnectMessage.BuildIdentity | src/main/java/org/usb4java/javax/examples/adb/ConnectMessage.java:111-122 | a null part is an illegal-argument error; otherwise the result is systemType ':' serialNo ':' banner followed by one NUL |
| ConnectMessage.FromParts | src/main/java/org/usb4java/javax/examples/adb/ConnectMessage.java:94-98 | fails exactly when a part is null; otherwise a valid CNXN message whose version, maxData and payload are the arguments and `buildIdentity` |
| ConnectMessage.FromStrings | src/main/java/org/usb4java/javax/examples/adb/ConnectMessage.java:18-21 | the three-string constructor uses version 0x01000000 and maxData 4096 |
| ConnectMessage.Identity | src/main/java/org/usb4java/javax/examples/adb/ConnectMessage.java:149-154 | the identity is a prefix of the payload that never ends in NUL |
| ConnectMessage.Part | src/main/java/org/usb4java/javax/examples/adb/ConnectMessage.java:161-184 | the k-th piece of the split identity, or an index error when there are not enough pieces |
| ConnectMessage.IdentityRoundTrip | src/main/java/org/usb4java/javax/examples/adb/ConnectMessage.java:111-122 | from parts without ':' and a non-empty banner not ending in NUL, `getSystemType`, `getSerialNo` and `getBanner` return the original parts |
| ConnectMessage.TrimJoinedIdentity | src/main/java/org/usb4java/javax/examples/adb/ConnectMessage.java:149-154 | trimming the built identity removes exactly the one appended NUL |
| ConnectMessage.SplitJoined | src/main/java/org/usb4java/javax/examples/adb/ConnectMessage.java:161-184 | splitting the joined identity gives the three parts back when the banner is non-empty |
| ConnectMessage.EmptyBannerUnreadable | src/main/java/org/usb4java/javax/examples/adb/ConnectMessage.java:181-184 | with an empty banner, `getBanner` fails with an index error, because split drops trailing empty strings |
| ConnectMessage.HostIdentity | src/main/java/org/usb4java/javax/examples/adb/ConnectMessage.java:129-154 | payload "host" NUL with arg0 0x01000000 and arg1 0x1000 reads as version 0x01000000, maxData 4096, identity "host", system type "host" and no serial number |
| AuthMessage.New | src/main/java/org/usb4java/javax/examples/adb/AuthMessage.java:50-53 | has command AUTH, `getType` returns the type, arg1 is 0, data is unchanged, the message is valid and dataLength equals the payload length |
| AuthMessage.NewDistinguishesTypes | src/main/java/org/usb4java/javax/examples/adb/AuthMessage.java:61-64 | AUTH messages of different types are different |
| OpenMessage.New | src/main/java/org/usb4java/javax/examples/adb/OpenMessage.java:38-41 | has command OPEN, `getLocalId` returns localId, arg1 is 0, data is the bytes, and the message is valid |
| OpenMessage.FromString | src/main/java/org/usb4java/javax/examples/adb/OpenMessage.java:51-54 | the string constructor appends exactly one NUL to the destination |
| OpenMessage.Destination | src/main/java/org/usb4java/javax/examples/adb/OpenMessage.java:71-76 | the destination is a prefix of the payload that never ends in NUL |
| OpenMessage.DestinationRoundTrip | src/main/java/org/usb4java/javax/examples/adb/OpenMessage.java:51-76 | a destination not ending in NUL is read back unchanged, and so is the local ID |
| OpenMessage.TrailingNulsLost | src/main/java/org/usb4java/javax/examples/adb/OpenMessage.java:71-76 | NULs at the end of a destination are lost on reading |
| OkayMessage.New | src/main/java/org/usb4java/javax/examples/adb/OkayMessage.java:37-60 | has command OKAY, `getRemoteId` and `getLocalId` return the arguments, the payload is empty with length 0 and checksum 0, and the message is valid |
| CloseMessage.New | src/main/java/org/usb4java/javax/examples/adb/CloseMessage.java:37-60 | has command CLSE, `getLocalId` and `getRemoteId` return the arguments, the payload is empty with length 0 and checksum 0, and the message is valid |
| WriteMessage.New | src/main/java/org/usb4java/javax/examples/adb/WriteMessage.java:40-43 | has command WRTE, arg0 is remoteId, arg1 is 0, data is unchanged, the message is valid, and `getRemoteId` returns 0 |
| WriteMessage.FromString | src/main/java/org/usb4java/javax/examples/adb/WriteMessage.java:53-56 | the string constructor appends exactly one NUL |
| WriteMessage.DataAsString | src/main/java/org/usb4java/javax/examples/adb/WriteMessage.java:73-78 | the string is a prefix of the payload that never ends in NUL |
| WriteMessage.RemoteIdIsLost | src/main/java/org/usb4java/javax/examples/adb/WriteMessage.java:40-66 | `getRemoteId` returns the constructor's remoteId if and only if that ID is 0 |
| WriteMessage.DataAsStringRoundTrip | src/main/java/org/usb4java/javax/examples/adb/WriteMessage.java:53-78 | a string not ending in NUL is read back unchanged |
| Transport.OpenPipe | src/main/java/org/usb4java/javax/examples/adb/AdbDevice.java:86 | opening marks the pipe open and logs it, leaving both scripts untouched |
| Transport.ClosePipe | src/main/java/org/usb4java/javax/examples/adb/AdbDevice.java:99-102 | closing marks the pipe closed and logs it, leaving both scripts untouched |
| Transport.TransferIn | src/main/java/org/usb4java/javax/examples/adb/AdbDevice.java:120-133 | an in-transfer fails with a USB error exactly when no chunk is pending; otherwise it delivers the next chunk cut to the buffer length and logs it |
| Transport.TransferOut | src/main/java/org/usb4java/javax/examples/adb/AdbDevice.java:89-96 | an out-transfer fails with a USB error exactly when the device accepts nothing more; otherwise it reports the count accepted, which is the whole buffer exactly when the device accepts that much, and logs it |
| Transport.Pipe.constructor | src/main/java/org/usb4java/javax/examples/adb/AdbDevice.java:82-84 | a new pipe is closed with an empty log |
| Transport.Pipe.Open | src/main/java/org/usb4java/javax/examples/adb/AdbDevice.java:86 | the new state is `OpenPipe` of the old |
| Transport.Pipe.Close | src/main/java/org/usb4java/javax/examples/adb/AdbDevice.java:101 | the new state is `ClosePipe` of the old |
| Transport.Pipe.SubmitIn | src/main/java/org/usb4java/javax/examples/adb/AdbDevice.java:120-121 | `syncSubmit` on a buffer returns the count and the new state of `TransferIn`, and fills the front of the buffer with the delivered bytes |
| Transport.Pipe.SubmitOut | src/main/java/org/usb4java/javax/examples/adb/AdbDevice.java:89 | `syncSubmit` of data returns the count and the new state of `TransferOut` |
| Transport.Interface.constructor | src/main/java/org/usb4java/javax/examples/adb/AdbDevice.java:39-47 | a new interface is unclaimed and has the given endpoint pipes |
| Transport.Interface.Claim | src/main/java/org/usb4java/javax/examples/adb/AdbDevice.java:56-59 | the interface is claimed afterwards |
| Transport.Interface.Release | src/main/java/org/usb4java/javax/examples/adb/AdbDevice.java:67-70 | the interface is released afterwards |
| Framing.TransfersCompose | src/main/java/org/usb4java/javax/examples/adb/AdbDevice.java:86-102 | a log grown by transfers, then by more transfers, has grown by transfers only |
| Framing.CloseBrackets | src/main/java/org/usb4java/javax/examples/adb/AdbDevice.java:86-102 | open, then transfers only, then close: the pipe was opened once and closed once |
| Framing.WriteFrame | src/main/java/org/usb4java/javax/examples/adb/AdbDevice.java:89-97 | passes exactly when 24 header bytes and then dataLength payload bytes are accepted; the header check comes first; the log grows by transfers only |
| Framing.SendSpec | src/main/java/org/usb4java/javax/examples/adb/AdbDevice.java:80-103 | the pipe is opened once and closed on every path, and the outcome is that of `WriteFrame` |
| Framing.ReadHeader | src/main/java/org/usb4java/javax/examples/adb/AdbDevice.java:120-129 | succeeds exactly when the first chunk has 24 bytes, the header is valid and its length is non-negative; each error reads at most one chunk and names its cause |
| Framing.ReadPayload | src/main/java/org/usb4java/javax/examples/adb/AdbDevice.java:129-139 | the pipe stays as it was apart from the chunk taken; on success the message has the given header, its payload is a prefix of the next chunk, and it is valid; a failure is the USB, length, unsupported-command or checksum error |
| Framing.ReadPayloadOutcomes | src/main/java/org/usb4java/javax/examples/adb/AdbDevice.java:129-139 | the payload stage fails with the USB error exactly when no chunk is left, with the size error exactly when the chunk is shorter than dataLength, as unsupported exactly when no message class takes the command, with the checksum error exactly when the built message is invalid, and succeeds exactly otherwise, with the message the factory builds |
| Framing.ReceiveSpec | src/main/java/org/usb4java/javax/examples/adb/AdbDevice.java:112-145 | the pipe is opened once and closed on every path; a returned message is valid, and its header and data are the first two chunks |
| Framing.SendFrame | src/main/java/org/usb4java/javax/examples/adb/AdbDevice.java:80-103 | when the device accepts both chunks in full, sending passes and logs exactly open, the header bytes, the data and close |
| Framing.ReceiveFrame | src/main/java/org/usb4java/javax/examples/adb/AdbDevice.java:112-145 | receiving the two chunks of a valid message returns that message, consumes exactly those two chunks, logs open, the two chunks received and close, and leaves the pipe closed |
| Framing.ReceiveStages | src/main/java/org/usb4java/javax/examples/adb/AdbDevice.java:117-144 | after a successful header read, receiving is reading the payload from the rest and then closing |
| Framing.HeaderOfFrame | src/main/java/org/usb4java/javax/examples/adb/AdbDevice.java:117-128 | the header chunk of a valid message is read as its header |
| Framing.PayloadOfFrame | src/main/java/org/usb4java/javax/examples/adb/AdbDevice.java:129-139 | the data chunk of a valid message is read as that message |
| Framing.HeaderErrorsReadOneChunk | src/main/java/org/usb4java/javax/examples/adb/AdbDevice.java:120-129 | a header-size, magic or length error is raised before any payload is read |
| Framing.UnknownCommandBeforeChecksum | src/main/java/org/usb4java/javax/examples/adb/AdbDevice.java:135-138 | an unknown command fails as unsupported even when the checksum is also wrong |
| Framing.CorruptedPayloadRejected | src/main/java/org/usb4java/javax/examples/adb/AdbDevice.java:135-138 | a valid frame with one payload byte changed is rejected with a data-checksum error |
| Framing.Send | src/main/java/org/usb4java/javax/examples/adb/AdbDevice.java:80-103 | the open, submit, submit, close sequence yields the outcome and pipe state of `SendSpec` |
| Framing.ReceiveHeader | src/main/java/org/usb4java/javax/examples/adb/AdbDevice.java:120-129 | filling a 24-byte buffer and decoding it yields the result and pipe state of `ReadHeader` |
| Framing.ReceivePayload | src/main/java/org/usb4java/javax/examples/adb/AdbDevice.java:129-139 | filling a dataLength-byte buffer, dispatching and checking yields the result and pipe state of `ReadPayload` |
| Framing.Receive | src/main/java/org/usb4java/javax/examples/adb/AdbDevice.java:112-145 | the whole receive yields the result and pipe state of `ReceiveSpec` |
| AdbDevice.AdbDevice.constructor | src/main/java/org/usb4java/javax/examples/adb/AdbDevice.java:39-47 | keeps the interface and the two endpoint addresses |
| AdbDevice.AdbDevice.Open | src/main/java/org/usb4java/javax/examples/adb/AdbDevice.java:56-59 | the interface is claimed |
| AdbDevice.AdbDevice.Close | src/main/java/org/usb4java/javax/examples/adb/AdbDevice.java:67-70 | the interface is released |
| AdbDevice.AdbDevice.SendMessage | src/main/java/org/usb4java/javax/examples/adb/AdbDevice.java:80-103 | a missing out endpoint is a null-pointer error; otherwise the outcome and pipe state are those of `SendSpec` |
| AdbDevice.AdbDevice.ReceiveMessage | src/main/java/org/usb4java/javax/examples/adb/AdbDevice.java:112-145 | a missing in endpoint is a null-pointer error; otherwise the result and pipe state are those of `ReceiveSpec` |
| AdbDevice.Make | src/main/java/org/usb4java/javax/examples/adb/AdbDevice.java:39-47 | a null interface is an illegal-argument error; otherwise a fresh device with the given interface and endpoints |
| Device.Device.constructor | src/main/java/org/usb4java/javax/examples/adb/Device.java:34-39 | keeps the interface and starts closed |
| Device.Device.Open | src/main/java/org/usb4java/javax/examples/adb/Device.java:49-58 | an open device fails with an illegal-state error and nothing changes; a closed one claims its interface and becomes open |
| Device.Device.Close | src/main/java/org/usb4java/javax/examples/adb/Device.java:78-83 | a closed device fails with an illegal-state error; an open one releases its interface and becomes closed |
| Device.Device.SendMessage | src/main/java/org/usb4java/javax/examples/adb/Device.java:93-116 | closed is an illegal-state error, a missing endpoint 0x03 is a null-pointer error, otherwise `SendSpec` on endpoint 0x03; open or closed is unchanged |
| Device.Device.ReceiveMessage | src/main/java/org/usb4java/javax/examples/adb/Device.java:125-158 | closed is an illegal-state error, a missing endpoint 0x83 is a null-pointer error, otherwise `ReceiveSpec` on endpoint 0x83; open or closed is unchanged |
| Device.Make | src/main/java/org/usb4java/javax/examples/adb/Device.java:34-39 | a null interface is an illegal-argument error; otherwise a fresh closed device |
| Device.Reopen | src/main/java/org/usb4java/javax/examples/adb/Device.java:49-83 | open, close, open on a closed device all pass and leave it open and claimed |
| Device.OpenTwice | src/main/java/org/usb4java/javax/examples/adb/Device.java:49-58 | a second open fails with an illegal-state error and the device stays open |
| Adb.Classify | src/main/java/org/usb4java/javax/examples/adb/Adb.java:120-158 | an interface yields a device exactly when it has two endpoints, is an ADB interface, both endpoints carry the bulk bit and exactly one has the IN bit; that one becomes `in` and the other `out` |
| Adb.AdbInterfaces | src/main/java/org/usb4java/javax/examples/adb/Adb.java:118-160 | never more devices than interfaces |
| Adb.AdbInterfacesAppend | src/main/java/org/usb4java/javax/examples/adb/Adb.java:118-160 | devices are collected interface by interface, in order |
| Adb.AdbInterfacesExact | src/main/java/org/usb4java/javax/examples/adb/Adb.java:118-160 | every device comes from an accepted interface, and every accepted interface gives a device |
| Adb.InterruptEndpointsAccepted | src/main/java/org/usb4java/javax/examples/adb/Adb.java:134-136 | the bulk-bit test also lets interrupt endpoints (type 3) through |
| Adb.ControlAndIsochronousRejected | src/main/java/org/usb4java/javax/examples/adb/Adb.java:134-136 | a control (type 0) or isochronous (type 1) endpoint rejects the interface |
| Adb.IsAdbVendor | src/main/java/org/usb4java/javax/examples/adb/Adb.java:170-175 | true exactly when the vendor ID is in the whitelist |
| Adb.CheckDevice | src/main/java/org/usb4java/javax/examples/adb/Adb.java:108-161 | a vendor outside the whitelist adds nothing; otherwise the accepted interfaces' devices are appended in order and the list is otherwise unchanged |
| Adb.SigningInput | src/main/java/org/usb4java/javax/examples/adb/Adb.java:54-57 | the bytes handed to the cipher are the 15-byte DigestInfo prefix followed by the token |
| Adb.WriteSigningInput | src/main/java/org/usb4java/javax/examples/adb/Adb.java:268-270 | the two stream writes produce `SigningInput` |
| Adb.DigestInfoLengths | src/main/java/org/usb4java/javax/examples/adb/Adb.java:54-57 | for a 20-byte SHA-1 token the prefix is a well-formed DER SEQUENCE whose length byte covers the rest, ending with the OCTET STRING length 20 |
| Adb.SignToken | src/main/java/org/usb4java/javax/examples/adb/Adb.java:265-274 | the signature is the cipher applied to `SigningInput`, or a key-unavailable error when the cipher has no key |
| Adb.PublicKeyPayload | src/main/java/org/usb4java/javax/examples/adb/Adb.java:235-251 | the public-key payload is the key file's bytes followed by one NUL, and still fits in a Java array |
| AdbDemo.FirstMessage | src/main/java/org/usb4java/javax/examples/AdbDemo.java:56-57 | the first message is a valid CNXN with version 0x01000000 and maxData 4096 |
| AdbDemo.FirstMessageIdentity | src/main/java/org/usb4java/javax/examples/AdbDemo.java:56-57 | the CNXN payload is "host:12345678:ADB Demo" and one NUL, and the identity getters read back "host", "12345678" and "ADB Demo" |
| AdbDemo.HandshakeStep | src/main/java/org/usb4java/javax/examples/AdbDemo.java:67-120 | CNXN accepts; any other non-AUTH message stops as unexpected; AUTH after both attempts stops as an authentication failure; a reply is a valid AUTH and lowers the rank |
| AdbDemo.Handshake | src/main/java/org/usb4java/javax/examples/AdbDemo.java:65-121 | on messages already received, the loop sends only AUTH replies, one per AUTH before its last message and never more than the start state's rank; it ends connected exactly on a CNXN, throws the USB error exactly when the inbox runs out, and otherwise throws only the key-unavailable error of a failed signature; it never finishes |
| AdbDemo.ConnectEndsHandshake | src/main/java/org/usb4java/javax/examples/AdbDemo.java:71-74 | a CNXN ends the handshake as connected with nothing sent |
| AdbDemo.UnexpectedEndsHandshake | src/main/java/org/usb4java/javax/examples/AdbDemo.java:115-120 | a message neither CNXN nor AUTH ends the handshake with an unexpected-message exit |
| AdbDemo.AuthTypeIgnored | src/main/java/org/usb4java/javax/examples/AdbDemo.java:77-79 | the step does not depend on the AUTH message's header, so its type is never checked |
| AdbDemo.FallbackOrder | src/main/java/org/usb4java/javax/examples/AdbDemo.java:82-111 | four AUTH challenges are answered by Signature, PublicKey, Signature, and the fourth ends in an authentication failure |
| AdbDemo.KeyThenSignature | src/main/java/org/usb4java/javax/examples/AdbDemo.java:94-104 | after one signature, the next challenges get the public key and then a signature again, because `triedAuthentication` is reset |
| AdbDemo.SignatureThenGiveUp | src/main/java/org/usb4java/javax/examples/AdbDemo.java:82-111 | once the key was sent, a challenge gets a signature and the next one ends the demo |
| AdbDemo.GiveUp | src/main/java/org/usb4java/javax/examples/AdbDemo.java:107-111 | with both attempts used, an AUTH ends in an authentication failure |
| AdbDemo.SignatureReply | src/main/java/org/usb4java/javax/examples/AdbDemo.java:82-91 | before a signature was tried, an AUTH gets Auth(SIGNATURE, signature of its data) and `triedAuthentication` is set |
| AdbDemo.KeyReply | src/main/java/org/usb4java/javax/examples/AdbDemo.java:94-104 | after a signature and before the key, an AUTH gets Auth(RSAPUBLICKEY, key), clearing `triedAuthentication` and setting `sentPublicKey` |
| AdbDemo.ReplyStep | src/main/java/org/usb4java/javax/examples/AdbDemo.java:65-121 | a reply in one round is prepended to the replies of the rest of the loop |
| AdbDemo.RoundSpec | src/main/java/org/usb4java/javax/examples/AdbDemo.java:67-120 | a round that continues lowers the rank; one that stops is connected, an exit or an exception |
| AdbDemo.ActSpec | src/main/java/org/usb4java/javax/examples/AdbDemo.java:71-120 | acting on a received message never reads the in pipe, and continuing lowers the rank |
| AdbDemo.HandshakeLoop | src/main/java/org/usb4java/javax/examples/AdbDemo.java:65-121 | the loop ends connected, in an exit or in an exception |
| AdbDemo.Frames | src/main/java/org/usb4java/javax/examples/adb/AdbDevice.java:80-103 | a list of messages is sent as two chunks per message |
| AdbDemo.SentLog | src/main/java/org/usb4java/javax/examples/adb/AdbDevice.java:80-103 | a list of messages sent whole logs four events per message: open, header, payload, close |
| AdbDemo.AcceptsAll | src/main/java/org/usb4java/javax/examples/adb/AdbDevice.java:89-97 | a device that takes every transfer of a list of messages has two accept counts per message |
| AdbDemo.EmptyInputEndsLoop | src/main/java/org/usb4java/javax/examples/AdbDemo.java:67 | with nothing left to receive, the loop throws the USB error of the first read |
| AdbDemo.RoundReceives | src/main/java/org/usb4java/javax/examples/AdbDemo.java:67 | the frame of a valid message at the front of the input is read as that message, and the round then acts on it |
| AdbDemo.ActReplies | src/main/java/org/usb4java/javax/examples/AdbDemo.java:82-104 | a reply the output takes whole is logged as its frame, and the loop continues from the next state |
| AdbDemo.ActStops | src/main/java/org/usb4java/javax/examples/AdbDemo.java:71-120 | a message that gets no reply ends the round as the handshake ends, with no reply and the pipes untouched |
| AdbDemo.LoopContinues | src/main/java/org/usb4java/javax/examples/AdbDemo.java:65-121 | a round that goes on is followed by the loop from its next state |
| AdbDemo.LoopStops | src/main/java/org/usb4java/javax/examples/AdbDemo.java:65-121 | a round that is done ends the loop with the round's ending and pipes |
| AdbDemo.ReplyPipes | src/main/java/org/usb4java/javax/examples/AdbDemo.java:67-104 | an answered round reads the message's two chunks, writes the reply's two chunks, and leaves the loop to go on from the next state |
| AdbDemo.StopPipes | src/main/java/org/usb4java/javax/examples/AdbDemo.java:67-120 | a round that sends nothing ends the loop as the handshake ends, reading two chunks and leaving the output untouched |
| AdbDemo.ReplyRound | src/main/java/org/usb4java/javax/examples/AdbDemo.java:67-104 | an answered first message puts its reply before the rest of the handshake's replies, and the pipes go on feeding the rest of the inbox |
| AdbDemo.StopRound | src/main/java/org/usb4java/javax/examples/AdbDemo.java:71-120 | if the first message gets no reply, the loop ends as the handshake does, with nothing sent |
| AdbDemo.LoopFollows | src/main/java/org/usb4java/javax/examples/AdbDemo.java:65-121 | by induction on the inbox: pipes that feed the handshake make the loop follow it |
| AdbDemo.HandshakeLoopFollowsHandshake | src/main/java/org/usb4java/javax/examples/AdbDemo.java:65-121 | when the input delivers the inbox's frames and the output takes every reply whole, the loop over the pipes ends as the message-level handshake, logs exactly one open/header/payload/close send per reply, in order, and uses two output transfers per reply |
| AdbDemo.StopConsumes | src/main/java/org/usb4java/javax/examples/AdbDemo.java:67-120 | a round that stops reads exactly the first message's frame |
| AdbDemo.ReplyConsumes | src/main/java/org/usb4java/javax/examples/AdbDemo.java:67-104 | after an answered round, the input the rest of the loop leaves is what the whole loop leaves |
| AdbDemo.LoopConsumes | src/main/java/org/usb4java/javax/examples/AdbDemo.java:65-121 | once the loop has stopped on a received message, the input holds exactly the frames of the messages after it |
| AdbDemo.StreamSpec | src/main/java/org/usb4java/javax/examples/AdbDemo.java:124-140 | the open/okay/close exchange ends finished, in an exception, or with "Open failed" on a message that is not OKAY |
| AdbDemo.CloseSpec | src/main/java/org/usb4java/javax/examples/AdbDemo.java:133-140 | after the OKAY, the exchange ends finished or in an exception |
| AdbDemo.StreamRefused | src/main/java/org/usb4java/javax/examples/AdbDemo.java:124-131 | a reply other than OKAY to the OPEN(1, "sync:") exits with "Open failed" on that message, after only the OPEN was sent; its frame is the only input consumed |
| AdbDemo.StreamOpened | src/main/java/org/usb4java/javax/examples/AdbDemo.java:124-132 | when the OPEN(1, "sync:") is sent whole and the reply is OKAY, the exchange goes on with the close stage, the output log has gained the OPEN's send and the input has lost the OKAY's frame |
| AdbDemo.CloseCompletes | src/main/java/org/usb4java/javax/examples/AdbDemo.java:133-140 | CLOSE(1, the OKAY's arg0) is sent whole and any one valid message after it finishes the exchange |
| AdbDemo.StreamCompletes | src/main/java/org/usb4java/javax/examples/AdbDemo.java:124-140 | an OKAY to the OPEN and any valid message after the CLOSE finish the exchange, whatever that last message is; the output log gains the OPEN(1, "sync:") send and then the CLOSE(1, arg0 of the OKAY) send |
| AdbDemo.DemoSpec | src/main/java/org/usb4java/javax/examples/AdbDemo.java:53-140 | the whole demo ends finished, in an exit or in an exception |
| AdbDemo.FirstSent | src/main/java/org/usb4java/javax/examples/AdbDemo.java:56-59 | the host's CONNECT sent whole is logged as its frame, and a connected handshake loop after it leads to the stream stage |
| AdbDemo.LoopConnects | src/main/java/org/usb4java/javax/examples/AdbDemo.java:65-121 | a handshake that connects on the last message of the inbox leaves the loop connected, with one send per reply logged and the input after the inbox left |
| AdbDemo.DemoConnects | src/main/java/org/usb4java/javax/examples/AdbDemo.java:53-121 | the CONNECT and the handshake replies are sent in order and the demo goes on into the stream stage with the input after the inbox |
| AdbDemo.DemoFinishes | src/main/java/org/usb4java/javax/examples/AdbDemo.java:53-140 | a device that completes the handshake on its CNXN, answers the OPEN with OKAY and sends one more message sees the demo finish, with the output log gaining exactly the sends of the CNXN, the AUTH replies, the OPEN and the CLOSE, in that order |
| AdbDemo.Round | src/main/java/org/usb4java/javax/examples/AdbDemo.java:67-120 | one loop iteration over the device has the effect on ending, state and pipes given by `RoundSpec` |
| AdbDemo.Act | src/main/java/org/usb4java/javax/examples/AdbDemo.java:71-120 | the branch on the received message has the effect given by `ActSpec` |
| AdbDemo.HandshakeOn | src/main/java/org/usb4java/javax/examples/AdbDemo.java:62-121 | the `while (!connected)` loop has the result and pipe effect of `HandshakeLoop` from the initial state |
| AdbDemo.StreamOn | src/main/java/org/usb4java/javax/examples/AdbDemo.java:124-140 | sends OPEN(1, "sync:"), exits unless the reply is OKAY, sends CLOSE(1, the OKAY's arg0) and reads one unchecked reply, as `StreamSpec` states |
| AdbDemo.Run | src/main/java/org/usb4java/javax/examples/AdbDemo.java:51-140 | the demo has the effect of `DemoSpec`, and the interface is still claimed afterwards exactly when the demo exited, since `System.exit` skips `finally` |
| AdbDemo.Exchange | src/main/java/org/usb4java/javax/examples/AdbDemo.java:53-136 | the body of the try block has the result and pipe effect of `DemoSpec` |
| AdbDemo.Demo | src/main/java/org/usb4java/javax/examples/AdbDemo.java:42-52 | no ADB device is an exit; otherwise the first device runs the demo as `DemoSpec` states |
| MissileLauncher.CommandBits | src/main/java/org/usb4java/javax/examples/MissileLauncher.java:47-59 | UP, DOWN, LEFT, RIGHT and FIRE are distinct single bits together making 0x1F |
| MissileLauncher.Flag | src/main/java/org/usb4java/javax/examples/MissileLauncher.java:126-130 | a flag byte is 1 exactly when the bit is set, and 0 otherwise |
| MissileLauncher.Report | src/main/java/org/usb4java/javax/examples/MissileLauncher.java:125 | the report is 64 bytes long |
| MissileLauncher.ReportCommand | src/main/java/org/usb4java/javax/examples/MissileLauncher.java:126-130 | reading the flags back yields only the five command bits |
| MissileLauncher.ReportLayout | src/main/java/org/usb4java/javax/examples/MissileLauncher.java:125-132 | bytes 1 to 5 are 1 exactly when LEFT, RIGHT, UP, DOWN and FIRE are set, and 0 otherwise; bytes 6 and 7 are 8; byte 0 and bytes 8 to 63 are 0 |
| MissileLauncher.ReportRoundTrip | src/main/java/org/usb4java/javax/examples/MissileLauncher.java:125-132 | the report keeps exactly the five command bits of the command |
| MissileLauncher.BitsDecompose | src/main/java/org/usb4java/javax/examples/MissileLauncher.java:47-59 | a command masked to 0x1F is the union of its five single bits |
| MissileLauncher.SingleBit | src/main/java/org/usb4java/javax/examples/MissileLauncher.java:126-130 | for a single bit, choosing the bit when set is the same as masking with it |
| MissileLauncher.ReportsDistinguishCommands | src/main/java/org/usb4java/javax/examples/MissileLauncher.java:125-132 | two commands give the same report exactly when they agree on the five command bits |
| MissileLauncher.Irp | src/main/java/org/usb4java/javax/examples/MissileLauncher.java:101-110 | a control transfer carries the message as its data |
| MissileLauncher.Packets | src/main/java/org/usb4java/javax/examples/MissileLauncher.java:133-135 | a command is sent as three packets |
| MissileLauncher.Irps | src/main/java/org/usb4java/javax/examples/MissileLauncher.java:101-110 | one control transfer per packet, in order |
| MissileLauncher.IrpsAppend | src/main/java/org/usb4java/javax/examples/MissileLauncher.java:101-110 | the transfers of two packet lists in a row are the transfers of the first, then those of the second |
| MissileLauncher.Submit | src/main/java/org/usb4java/javax/examples/MissileLauncher.java:101-110 | a submission fails with a USB error and no effect when the device accepts nothing more; otherwise it logs one transfer |
| MissileLauncher.SendCommandSpec | src/main/java/org/usb4java/javax/examples/MissileLauncher.java:122-136 | `sendCommand` passes exactly when at least three transfers are accepted, fails only with the USB error, and only appends to the log, one entry per accepted transfer |
| MissileLauncher.SendCommandTransfers | src/main/java/org/usb4java/javax/examples/MissileLauncher.java:122-136 | `sendCommand` passes exactly when three transfers are accepted, and logs INIT_A, INIT_B and the report, as many of them as were accepted |
| MissileLauncher.Action | src/main/java/org/usb4java/javax/examples/MissileLauncher.java:198-229 | exactly the keys w, x, a, d, f and s send a command, which is one of UP, DOWN, LEFT, RIGHT, FIRE or 0; exactly q quits |
| MissileLauncher.ActionsDistinct | src/main/java/org/usb4java/javax/examples/MissileLauncher.java:198-229 | different command keys send different commands, each a single bit or 0 |
| MissileLauncher.StopClearsFlags | src/main/java/org/usb4java/javax/examples/MissileLauncher.java:220-222 | s sends command 0, whose report has every movement and fire flag clear |
| MissileLauncher.ReadKey | src/main/java/org/usb4java/javax/examples/MissileLauncher.java:143-156 | the key is the first character of the line, or character 0 for an empty line |
| MissileLauncher.AllPackets | src/main/java/org/usb4java/javax/examples/MissileLauncher.java:193-230 | a run of commands sends three packets per command |
| MissileLauncher.Session | src/main/java/org/usb4java/javax/examples/MissileLauncher.java:193-230 | the key loop fails only with the null-pointer error at the end of input or a USB error; it fails at the end of input only when no line is a q, and passes only when one is; it only appends to the log, one entry per accepted transfer |
| MissileLauncher.Commands | src/main/java/org/usb4java/javax/examples/MissileLauncher.java:193-230 | the commands are defined exactly when some line starts with q; there are fewer of them than lines, and each is UP, DOWN, LEFT, RIGHT, FIRE or 0 |
| MissileLauncher.SessionTransfers | src/main/java/org/usb4java/javax/examples/MissileLauncher.java:193-230 | the key loop passes exactly when input reaches a q and the device accepts all three packets of every command before it; then the log is exactly those packets, in order |
| MissileLauncher.SendThenSends | src/main/java/org/usb4java/javax/examples/MissileLauncher.java:193-230 | a command sent in full, followed by a session, is a session of that command and the rest |
| MissileLauncher.CommandsCons | src/main/java/org/usb4java/javax/examples/MissileLauncher.java:198-229 | a command key puts its command at the head of the session's commands |
| MissileLauncher.AllPacketsCons | src/main/java/org/usb4java/javax/examples/MissileLauncher.java:133-135 | the packets of a command run are those of its first command, then those of the rest |
| MissileLauncher.QuitSendsNothing | src/main/java/org/usb4java/javax/examples/MissileLauncher.java:224-226 | a q as the first key ends the session with nothing sent |
| MissileLauncher.Launcher.constructor | src/main/java/org/usb4java/javax/examples/MissileLauncher.java:101-110 | a new launcher has an empty log and the given budget |
| MissileLauncher.Launcher.SendMessage | src/main/java/org/usb4java/javax/examples/MissileLauncher.java:101-110 | the new state and outcome are those of `Submit` |
| MissileLauncher.Launcher.SendCommand | src/main/java/org/usb4java/javax/examples/MissileLauncher.java:122-136 | builds the report and sends INIT_A, INIT_B and the report, stopping at the first failure |
| MissileLauncher.NewReport | src/main/java/org/usb4java/javax/examples/MissileLauncher.java:125-132 | the fresh array written in place holds exactly `Report` of the command |
| MissileLauncher.Control | src/main/java/org/usb4java/javax/examples/MissileLauncher.java:193-230 | the `while (!exit)` loop over input lines has the outcome and launcher state of `Session` |

Some lemmas only rearrange sequences, sums or digits for the solver, and they have no row. They are `Wire.DivDiv`, `Wire.ComplementDigit`, `Framing.FirstTwo`, `Framing.DropTwo`, `AdbDemo.FramesSplit`, `AdbDemo.FrameSplit`, `AdbDemo.ReceivableTail`, `AdbDemo.FedReply`, `AdbDemo.DropsAdd`, `AdbDemo.DropTwoAccepts`, `AdbDemo.DropOneMore`, `AdbDemo.LogsAppend`, `AdbDemo.ReplyFollows`, `AdbDemo.EmptyFollows`, `AdbDemo.ReplyThenFollows`, `AdbDemo.SentOne`, `AdbDemo.AcceptsBoth`, `AdbDemo.SentBoth`, `AdbDemo.AcceptsSplit`, `AdbDemo.SentLogAppend`, `AdbDemo.AcceptsThree`, `AdbDemo.SentThree` and `AdbDemo.NothingLeft`.

## Left out

- The USB stack (javax.usb interfaces, pipes, IRPs, `UsbHostManager`) is replaced by the abstract pipe and interface described above. The exceptions that claim, release, open and close can raise are not modelled, and neither is the `forceClaim` policy.
- A blocking transfer with nothing to deliver is modelled as a USB error.
- Device discovery (`Adb.findDevices` and its hub recursion, `MissileLauncher.findMissileLauncher`) walks library objects. `Adb.CheckDevice` starts from a device's descriptors, given as values, and yields candidate (interface, in, out) triples instead of `AdbDevice` objects.
- The contents of `Vendors.VENDOR_IDS` are not part of this model; the whitelist is a parameter.
- `DumpNames` and `DumpDeviceTree` only print the device tree.
- Key files, Base64, `KeyFactory` and RSA are left out. The signer is a parameter taking the signing input to an optional signature. The public key is a parameter too; `Adb.PublicKeyPayload` states the appended NUL.
- UTF-8 encoding is taken as the identity on ASCII bytes.
- Transport.TransferIn: a chunk longer than the buffer is cut to the buffer's length and the rest of it is dropped, and an empty buffer still takes a whole chunk. A real bulk pipe would keep the excess for the next transfer or report an overflow. The model does not capture that, because the host-side buffering of libusb is not part of this model.
- MissileLauncher.ReadKey: every call of `readKey` wraps `System.in` in a new `BufferedReader`. That reader may read ahead, and the input it buffers past the first line is lost. The model consumes exactly one line per prompt and nothing more.
- `toString`, `printHexBinary` and all printing are left out.
- Console input is a sequence of lines. The end of input (`readLine` returning null) becomes a null-pointer error. The `IOException` path of `readKey` is not modelled.
- `System.exit` becomes an `Exited` ending. `InvalidMessageException` becomes an error variant naming the failed check.
- Null strings are modelled only where the source tests for them (`buildIdentity`). Elsewhere arguments are non-null.
- Java's array length limit appears as the `ByteArray` bound. `ConnectMessage.PartsFit` requires that the joined identity fits in an array.
- AdbDemo.Run: requires a device whose two endpoint pipes exist and are distinct, which the devices found by `checkDevice` have. The null-pointer paths of a missing endpoint are stated on `AdbDevice.AdbDevice.SendMessage` and `ReceiveMessage` instead.
- MissileLauncher.Launcher.SendMessage: the control request fields (request type 0x21, request 0x09, value 2, index 1) are fixed constants of every `ControlIrp`, not checked against a USB device.
- The header constructors of the six message classes are the datatype constructors of `Messages.Message`. They store header and data as given and need no member of their own.
- `WriteMessage` keeps its remote ID in arg0 while `getRemoteId` reads arg1. The model follows the code as written, and `WriteMessage.RemoteIdIsLost` states the consequence.
