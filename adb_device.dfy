/** AdbDevice: a claimed ADB interface with the in and out endpoint addresses found for it. */
module AdbDevice {
  import opened Wrappers
  import opened Wire
  import opened Messages
  import opened Transport
  import Framing

  class AdbDevice {
    const iface: Interface
    const inEndpoint: byte
    const outEndpoint: byte

    constructor (iface: Interface, inEndpoint: byte, outEndpoint: byte)
      ensures this.iface == iface && this.inEndpoint == inEndpoint && this.outEndpoint == outEndpoint
    {
      this.iface := iface;
      this.inEndpoint := inEndpoint;
      this.outEndpoint := outEndpoint;
    }

    /** Both endpoints exist on the interface and lead to different pipes, as for every device checkDevice builds. */
    predicate Valid()
    {
      inEndpoint in iface.pipes && outEndpoint in iface.pipes && iface.pipes[inEndpoint] != iface.pipes[outEndpoint]
    }

    function InPipe(): Pipe
      requires Valid()
    {
      iface.pipes[inEndpoint]
    }

    function OutPipe(): Pipe
      requires Valid()
    {
      iface.pipes[outEndpoint]
    }

    /** The pipe behind an endpoint address, if the interface has that endpoint. */
    function PipeAt(address: byte): set<Pipe>
    {
      if address in iface.pipes then {iface.pipes[address]} else {}
    }

    method Open()
      modifies iface
      ensures iface.claimed
    {
      iface.Claim();
    }

    method Close()
      modifies iface
      ensures !iface.claimed
    {
      iface.Release();
    }

    /** sendMessage on the out endpoint's pipe; a missing endpoint is a NullPointerException. */
    method SendMessage(m: Message) returns (r: Outcome<Error>)
      modifies PipeAt(outEndpoint)
      ensures outEndpoint !in iface.pipes ==> r == Fail(NullPointer)
      ensures outEndpoint in iface.pipes ==>
        (r, iface.pipes[outEndpoint].State()) == Framing.SendSpec(old(iface.pipes[outEndpoint].State()), m)
    {
      if outEndpoint !in iface.pipes {
        return Fail(NullPointer);
      }
      r := Framing.Send(iface.pipes[outEndpoint], m);
    }

    /** receiveMessage on the in endpoint's pipe; a missing endpoint is a NullPointerException. */
    method ReceiveMessage() returns (r: Result<Message, Error>)
      modifies PipeAt(inEndpoint)
      ensures inEndpoint !in iface.pipes ==> r == Failure(NullPointer)
      ensures inEndpoint in iface.pipes ==>
        (r, iface.pipes[inEndpoint].State()) == Framing.ReceiveSpec(old(iface.pipes[inEndpoint].State()))
    {
      if inEndpoint !in iface.pipes {
        return Failure(NullPointer);
      }
      r := Framing.Receive(iface.pipes[inEndpoint]);
    }
  }

  /** new AdbDevice(iface, in, out): a null interface is an IllegalArgumentException. */
  method Make(iface: Interface?, inEndpoint: byte, outEndpoint: byte) returns (r: Result<AdbDevice, Error>)
    ensures r.Failure? <==> iface == null
    ensures r.Failure? ==> r.error == IllegalArgument
    ensures r.Success? ==> (fresh(r.value) && r.value.iface == iface &&
      r.value.inEndpoint == inEndpoint && r.value.outEndpoint == outEndpoint)
  {
    if iface == null {
      return Failure(IllegalArgument);
    }
    var device := new AdbDevice(iface, inEndpoint, outEndpoint);
    r := Success(device);
  }
}
