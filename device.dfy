/**
 * Device: an ADB device that claims interface 1 of configuration 1 on open
 * and always talks over endpoints 0x03 (out) and 0x83 (in). Every operation
 * but open needs the device open; open needs it closed.
 */
module Device {
  import opened Wrappers
  import opened Wire
  import opened Messages
  import opened Transport
  import Framing

  const OUT_ENDPOINT: byte := 0x03
  const IN_ENDPOINT: byte := 0x83

  class Device {
    /** Interface 1 of configuration 1 of the USB device. */
    const adbInterface: Interface
    /** The claimed interface; null while closed. */
    var iface: Interface?

    constructor (adbInterface: Interface)
      ensures this.adbInterface == adbInterface && iface == null
    {
      this.adbInterface := adbInterface;
      this.iface := null;
    }

    predicate IsOpen()
      reads this
    {
      iface != null
    }

    /** The pipe behind an endpoint address of the claimed interface, if there is one. */
    function PipeAt(address: byte): set<Pipe>
      reads this
    {
      if iface != null && address in iface.pipes then {iface.pipes[address]} else {}
    }

    /** open: IllegalStateException when already open; otherwise claim the interface and keep it. */
    method Open() returns (r: Outcome<Error>)
      modifies this, adbInterface
      ensures old(iface) != null ==> r == Fail(IllegalState) && iface == old(iface) && unchanged(adbInterface)
      ensures old(iface) == null ==> r == Pass && iface == adbInterface && adbInterface.claimed
    {
      if iface != null {
        return Fail(IllegalState);
      }
      adbInterface.Claim();
      iface := adbInterface;
      r := Pass;
    }

    /** close: IllegalStateException when not open; otherwise release the interface and forget it. */
    method Close() returns (r: Outcome<Error>)
      modifies this, iface
      ensures old(iface) == null ==> r == Fail(IllegalState) && iface == null
      ensures old(iface) != null ==> r == Pass && iface == null && !old(iface).claimed
    {
      if iface == null {
        return Fail(IllegalState);
      }
      iface.Release();
      iface := null;
      r := Pass;
    }

    /** sendMessage over endpoint 0x03 of the claimed interface. */
    method SendMessage(m: Message) returns (r: Outcome<Error>)
      modifies PipeAt(OUT_ENDPOINT)
      ensures iface == old(iface)
      ensures iface == null ==> r == Fail(IllegalState)
      ensures iface != null && OUT_ENDPOINT !in iface.pipes ==> r == Fail(NullPointer)
      ensures iface != null && OUT_ENDPOINT in iface.pipes ==>
        (r, iface.pipes[OUT_ENDPOINT].State()) == Framing.SendSpec(old(iface.pipes[OUT_ENDPOINT].State()), m)
    {
      if iface == null {
        return Fail(IllegalState);
      }
      if OUT_ENDPOINT !in iface.pipes {
        return Fail(NullPointer);
      }
      r := Framing.Send(iface.pipes[OUT_ENDPOINT], m);
    }

    /** receiveMessage over endpoint 0x83 of the claimed interface. */
    method ReceiveMessage() returns (r: Result<Message, Error>)
      modifies PipeAt(IN_ENDPOINT)
      ensures iface == old(iface)
      ensures iface == null ==> r == Failure(IllegalState)
      ensures iface != null && IN_ENDPOINT !in iface.pipes ==> r == Failure(NullPointer)
      ensures iface != null && IN_ENDPOINT in iface.pipes ==>
        (r, iface.pipes[IN_ENDPOINT].State()) == Framing.ReceiveSpec(old(iface.pipes[IN_ENDPOINT].State()))
    {
      if iface == null {
        return Failure(IllegalState);
      }
      if IN_ENDPOINT !in iface.pipes {
        return Failure(NullPointer);
      }
      r := Framing.Receive(iface.pipes[IN_ENDPOINT]);
    }
  }

  /** new Device(usbDevice): a null device is an IllegalArgumentException. */
  method Make(adbInterface: Interface?) returns (r: Result<Device, Error>)
    ensures r.Failure? <==> adbInterface == null
    ensures r.Failure? ==> r.error == IllegalArgument
    ensures r.Success? ==> fresh(r.value) && r.value.adbInterface == adbInterface && !r.value.IsOpen()
  {
    if adbInterface == null {
      return Failure(IllegalArgument);
    }
    var device := new Device(adbInterface);
    r := Success(device);
  }

  /** A closed device opens, closes and opens again, the second open claiming the interface anew. */
  method Reopen(device: Device) returns (first: Outcome<Error>, closed: Outcome<Error>, second: Outcome<Error>)
    requires !device.IsOpen()
    modifies device, device.adbInterface
    ensures first == Pass && closed == Pass && second == Pass
    ensures device.IsOpen() && device.iface == device.adbInterface && device.adbInterface.claimed
  {
    first := device.Open();
    closed := device.Close();
    second := device.Open();
  }

  /** Opening an open device fails and leaves it open on the same interface. */
  method OpenTwice(device: Device) returns (first: Outcome<Error>, second: Outcome<Error>)
    requires !device.IsOpen()
    modifies device, device.adbInterface
    ensures first == Pass && second == Fail(IllegalState)
    ensures device.iface == device.adbInterface && device.adbInterface.claimed
  {
    first := device.Open();
    second := device.Open();
  }
}
