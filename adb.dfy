/**
 * The pure rules of Adb: which USB interfaces are ADB interfaces, which of
 * their two endpoints is IN, the vendor whitelist, and the bytes signToken
 * hands to the RSA cipher. Descriptor fields keep Java's byte and short bit
 * patterns.
 */
module Adb {
  import opened Wrappers
  import opened Wire

  const ADB_CLASS: bv8 := 0xff
  const ADB_SUBCLASS: bv8 := 0x42
  const ADB_PROTOCOL: bv8 := 1

  /** UsbConst.ENDPOINT_TYPE_BULK, tested as a mask on bmAttributes. */
  const ENDPOINT_TYPE_BULK: bv8 := 0x02
  /** UsbConst.ENDPOINT_DIRECTION_IN: bit 7 of bEndpointAddress. */
  const ENDPOINT_DIRECTION_IN: bv8 := 0x80

  /** The DER prefix of a SHA-1 DigestInfo, as listed in the notes of section 9.2 of RFC 8017. */
  const HEADER_OID: seq<byte> := [0x30, 0x21, 0x30, 0x09, 0x06, 0x05, 0x2b, 0x0e, 0x03, 0x02, 0x1a, 0x05, 0x00, 0x04, 0x14]

  datatype EndpointDescriptor = EndpointDescriptor(bEndpointAddress: bv8, bmAttributes: bv8)

  datatype InterfaceDescriptor = InterfaceDescriptor(bInterfaceClass: bv8, bInterfaceSubClass: bv8, bInterfaceProtocol: bv8)

  /** A USB interface of the active configuration with its endpoints in the order the stack lists them. */
  datatype UsbInterface = UsbInterface(descriptor: InterfaceDescriptor, endpoints: seq<EndpointDescriptor>)

  datatype UsbDevice = UsbDevice(idVendor: bv16, interfaces: seq<UsbInterface>)

  /** What `new AdbDevice(iface, in, out)` is built from. */
  datatype Candidate = Candidate(iface: UsbInterface, inEndpoint: byte, outEndpoint: byte)

  /** isAdbInterface: class 0xff, subclass 0x42, protocol 1. */
  predicate IsAdbInterface(iface: UsbInterface)
  {
    var d := iface.descriptor;
    d.bInterfaceClass == ADB_CLASS && d.bInterfaceSubClass == ADB_SUBCLASS && d.bInterfaceProtocol == ADB_PROTOCOL
  }

  predicate HasBulkBit(e: EndpointDescriptor)
  {
    e.bmAttributes & ENDPOINT_TYPE_BULK != 0
  }

  predicate IsIn(e: EndpointDescriptor)
  {
    e.bEndpointAddress & ENDPOINT_DIRECTION_IN != 0
  }

  /** The body of checkDevice's loop for one interface: the device it adds, or none when a check says continue. */
  function Classify(iface: UsbInterface): (r: Option<Candidate>)
    ensures r.Some? <==> (|iface.endpoints| == 2 && IsAdbInterface(iface) &&
      HasBulkBit(iface.endpoints[0]) && HasBulkBit(iface.endpoints[1]) &&
      IsIn(iface.endpoints[0]) != IsIn(iface.endpoints[1]))
    ensures r.Some? ==> r.value.iface == iface
    ensures r.Some? && IsIn(iface.endpoints[0]) ==>
      r.value.inEndpoint == iface.endpoints[0].bEndpointAddress as int &&
      r.value.outEndpoint == iface.endpoints[1].bEndpointAddress as int
    ensures r.Some? && IsIn(iface.endpoints[1]) ==>
      r.value.inEndpoint == iface.endpoints[1].bEndpointAddress as int &&
      r.value.outEndpoint == iface.endpoints[0].bEndpointAddress as int
  {
    if |iface.endpoints| != 2 || !IsAdbInterface(iface) then None
    else
      var e1, e2 := iface.endpoints[0], iface.endpoints[1];
      if !HasBulkBit(e1) || !HasBulkBit(e2) then None
      else if IsIn(e1) && !IsIn(e2) then Some(Candidate(iface, e1.bEndpointAddress as int, e2.bEndpointAddress as int))
      else if IsIn(e2) && !IsIn(e1) then Some(Candidate(iface, e2.bEndpointAddress as int, e1.bEndpointAddress as int))
      else None
  }

  /** The devices checkDevice adds for the interfaces of a whitelisted device, in interface order. */
  function AdbInterfaces(interfaces: seq<UsbInterface>): (r: seq<Candidate>)
    ensures |r| <= |interfaces|
  {
    if |interfaces| == 0 then []
    else
      var rest := AdbInterfaces(interfaces[..|interfaces| - 1]);
      match Classify(interfaces[|interfaces| - 1])
      case Some(c) => rest + [c]
      case None => rest
  }

  /** Each interface contributes independently, in order. */
  lemma {:induction false} AdbInterfacesAppend(a: seq<UsbInterface>, b: seq<UsbInterface>)
    ensures AdbInterfaces(a + b) == AdbInterfaces(a) + AdbInterfaces(b)
    decreases |b|
  {
    if |b| == 0 {
      assert a + b == a;
    } else {
      assert (a + b)[..|a + b| - 1] == a + b[..|b| - 1];
      AdbInterfacesAppend(a, b[..|b| - 1]);
    }
  }

  /** Every added device comes from an interface that passes every check, and every passing interface adds one. */
  lemma {:induction false} AdbInterfacesExact(interfaces: seq<UsbInterface>)
    ensures forall c | c in AdbInterfaces(interfaces) :: Classify(c.iface) == Some(c) && c.iface in interfaces
    ensures forall i | 0 <= i < |interfaces| && Classify(interfaces[i]).Some? ::
      Classify(interfaces[i]).value in AdbInterfaces(interfaces)
  {
    if |interfaces| > 0 {
      var init := interfaces[..|interfaces| - 1];
      AdbInterfacesExact(init);
      forall i | 0 <= i < |interfaces| - 1
        ensures interfaces[i] == init[i]
      {
      }
    }
  }

  /** The bulk test looks at one bit only, so two interrupt endpoints (transfer type 3) pass it. */
  lemma InterruptEndpointsAccepted()
    ensures var iface := UsbInterface(InterfaceDescriptor(0xff, 0x42, 1),
      [EndpointDescriptor(0x81, 0x03), EndpointDescriptor(0x01, 0x03)]);
      Classify(iface) == Some(Candidate(iface, 0x81, 0x01))
  {
  }

  /** Control (0) and isochronous (1) endpoints fail the bulk test. */
  lemma ControlAndIsochronousRejected(address: bv8, other: EndpointDescriptor, d: InterfaceDescriptor)
    ensures Classify(UsbInterface(d, [EndpointDescriptor(address, 0x00), other])).None?
    ensures Classify(UsbInterface(d, [other, EndpointDescriptor(address, 0x01)])).None?
  {
  }

  /** isAdbVendor: a linear search of the whitelist. */
  method IsAdbVendor(vendorIds: seq<bv16>, vendorId: bv16) returns (found: bool)
    ensures found <==> vendorId in vendorIds
  {
    for i := 0 to |vendorIds|
      invariant vendorId !in vendorIds[..i]
    {
      if vendorIds[i] == vendorId {
        return true;
      }
    }
    assert vendorIds[..|vendorIds|] == vendorIds;
    return false;
  }

  /**
   * checkDevice: nothing for a vendor outside the whitelist; otherwise one
   * device per passing interface appended in interface order.
   */
  method CheckDevice(vendorIds: seq<bv16>, device: UsbDevice, adbDevices: seq<Candidate>)
    returns (result: seq<Candidate>)
    ensures device.idVendor !in vendorIds ==> result == adbDevices
    ensures device.idVendor in vendorIds ==> result == adbDevices + AdbInterfaces(device.interfaces)
  {
    result := adbDevices;
    var whitelisted := IsAdbVendor(vendorIds, device.idVendor);
    if !whitelisted {
      return;
    }
    var interfaces := device.interfaces;
    for i := 0 to |interfaces|
      invariant result == adbDevices + AdbInterfaces(interfaces[..i])
    {
      assert interfaces[..i + 1][..i] == interfaces[..i];
      var iface := interfaces[i];
      if |iface.endpoints| != 2 {
        continue;
      }
      if !IsAdbInterface(iface) {
        continue;
      }
      var ed1, ed2 := iface.endpoints[0], iface.endpoints[1];
      if !HasBulkBit(ed1) || !HasBulkBit(ed2) {
        continue;
      }
      var a1, a2 := ed1.bEndpointAddress, ed2.bEndpointAddress;
      var input, output;
      if a1 & ENDPOINT_DIRECTION_IN != 0 && a2 & ENDPOINT_DIRECTION_IN == 0 {
        input, output := a1, a2;
      } else if a2 & ENDPOINT_DIRECTION_IN != 0 && a1 & ENDPOINT_DIRECTION_IN == 0 {
        output, input := a1, a2;
      } else {
        continue;
      }
      result := result + [Candidate(iface, input as int, output as int)];
    }
    assert interfaces[..|interfaces|] == interfaces;
  }

  /** The bytes signToken encrypts: the DigestInfo prefix, then the token. */
  function SigningInput(token: seq<byte>): (b: seq<byte>)
    ensures |b| == |HEADER_OID| + |token| && b[..|HEADER_OID|] == HEADER_OID && b[|HEADER_OID|..] == token
  {
    HEADER_OID + token
  }

  /** signToken's stream: headerOID written first, the token second. */
  method WriteSigningInput(token: seq<byte>) returns (stream: seq<byte>)
    ensures stream == SigningInput(token)
  {
    stream := [];
    stream := stream + HEADER_OID;
    stream := stream + token;
  }

  /** For a 20-byte SHA-1 token the DER lengths in the prefix are those of the whole input and of the token. */
  lemma DigestInfoLengths(token: seq<byte>)
    requires |token| == 20
    ensures var b := SigningInput(token); b[0] == 0x30 && 2 + b[1] == |b| && b[|HEADER_OID| - 1] == |token|
  {
  }

  /**
   * signToken: the RSA encryption of the signing input under the private
   * key; the cipher (None for a missing key or a cipher failure) is a parameter.
   */
  function SignToken(cipher: seq<byte> -> Option<ByteArray>, token: seq<byte>): (r: Result<ByteArray, Error>)
    ensures r.Success? <==> cipher(SigningInput(token)).Some?
    ensures r.Success? ==> r.value == cipher(SigningInput(token)).value
    ensures r.Failure? ==> r.error == KeyUnavailable
  {
    match cipher(SigningInput(token))
    case Some(signature) => Success(signature)
    case None => Failure(KeyUnavailable)
  }

  /** The bytes of ~/.android/adbkey.pub, short enough that one more byte still fits in a Java array. */
  type KeyFile = s: seq<byte> | |s| < MaxArrayLength witness []

  /** getPublicKey: the key file's bytes followed by one NUL. */
  function PublicKeyPayload(fileContents: KeyFile): (p: ByteArray)
    ensures |p| == |fileContents| + 1 && p[..|fileContents|] == fileContents && p[|fileContents|] == NUL
  {
    fileContents + [NUL]
  }
}
