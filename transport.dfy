/**
 * An abstract USB pipe standing in for javax.usb's UsbPipe. What the device
 * will do is a script: the chunks it will deliver to the next IN transfers
 * and the byte counts it will accept on the next OUT transfers. What the
 * host did is a log of events. A transfer the script has no entry for fails
 * as a UsbException.
 */
module Transport {
  import opened Wrappers
  import opened Wire

  datatype Event = Opened | Sent(bytes: seq<byte>) | Received(bytes: seq<byte>) | Closed

  datatype PipeState = PipeState(incoming: seq<seq<byte>>, accepts: seq<nat>, log: seq<Event>, isOpen: bool)

  function OpenPipe(p: PipeState): (q: PipeState)
    ensures q.isOpen && q.log == p.log + [Opened]
    ensures q.incoming == p.incoming && q.accepts == p.accepts
  {
    p.(isOpen := true, log := p.log + [Opened])
  }

  function ClosePipe(p: PipeState): (q: PipeState)
    ensures !q.isOpen && q.log == p.log + [Closed]
    ensures q.incoming == p.incoming && q.accepts == p.accepts
  {
    p.(isOpen := false, log := p.log + [Closed])
  }

  /**
   * An IN transfer into a buffer of the given length: the next chunk, cut
   * to the buffer, or a UsbException when no chunk is scripted.
   */
  function TransferIn(p: PipeState, bufferLength: nat): (r: (Result<seq<byte>, Error>, PipeState))
    ensures r.0.Failure? <==> |p.incoming| == 0
    ensures r.0.Failure? ==> r.0.error == Usb && r.1 == p
    ensures r.0.Success? ==> |r.0.value| <= bufferLength && r.0.value <= p.incoming[0]
    ensures r.0.Success? ==> (|r.0.value| == bufferLength || r.0.value == p.incoming[0])
    ensures r.0.Success? ==> r.1 == p.(incoming := p.incoming[1..], log := p.log + [Received(r.0.value)])
  {
    if |p.incoming| == 0 then (Failure(Usb), p)
    else
      var chunk := p.incoming[0];
      var bytes := if |chunk| <= bufferLength then chunk else chunk[..bufferLength];
      (Success(bytes), p.(incoming := p.incoming[1..], log := p.log + [Received(bytes)]))
  }

  /**
   * An OUT transfer: the device accepts the next scripted count, at most
   * the whole data; a UsbException when no count is scripted.
   */
  function TransferOut(p: PipeState, data: seq<byte>): (r: (Result<nat, Error>, PipeState))
    ensures r.0.Failure? <==> |p.accepts| == 0
    ensures r.0.Failure? ==> r.0.error == Usb && r.1 == p
    ensures r.0.Success? ==> r.0.value <= |data| && (r.0.value == |data| <==> p.accepts[0] >= |data|)
    ensures r.0.Success? ==> r.1 == p.(accepts := p.accepts[1..], log := p.log + [Sent(data[..r.0.value])])
  {
    if |p.accepts| == 0 then (Failure(Usb), p)
    else
      var count := if p.accepts[0] <= |data| then p.accepts[0] else |data|;
      (Success(count), p.(accepts := p.accepts[1..], log := p.log + [Sent(data[..count])]))
  }

  /** UsbPipe: a pipe object whose script and log the transfers advance. */
  class Pipe {
    var incoming: seq<seq<byte>>
    var accepts: seq<nat>
    var log: seq<Event>
    var isOpen: bool

    function State(): PipeState
      reads this
    {
      PipeState(incoming, accepts, log, isOpen)
    }

    constructor (incoming: seq<seq<byte>>, accepts: seq<nat>)
      ensures State() == PipeState(incoming, accepts, [], false)
    {
      this.incoming := incoming;
      this.accepts := accepts;
      this.log := [];
      this.isOpen := false;
    }

    method Open()
      modifies this
      ensures State() == OpenPipe(old(State()))
    {
      isOpen := true;
      log := log + [Opened];
    }

    method Close()
      modifies this
      ensures State() == ClosePipe(old(State()))
    {
      isOpen := false;
      log := log + [Closed];
    }

    /** syncSubmit(byte[]) on an IN pipe: fills the front of the buffer and returns the count. */
    method SubmitIn(buffer: array<byte>) returns (r: Result<nat, Error>)
      requires isOpen
      modifies this, buffer
      ensures var (bytes, next) := TransferIn(old(State()), buffer.Length);
        State() == next && r.Failure? == bytes.Failure? &&
        (r.Failure? ==> r.error == bytes.error && buffer[..] == old(buffer[..])) &&
        (r.Success? ==> r.value == |bytes.value| && buffer[..] == bytes.value + old(buffer[r.value..]))
    {
      var result := TransferIn(State(), buffer.Length);
      if result.0.Failure? {
        return Failure(result.0.error);
      }
      var bytes := result.0.value;
      forall i | 0 <= i < |bytes| {
        buffer[i] := bytes[i];
      }
      incoming := incoming[1..];
      log := log + [Received(bytes)];
      r := Success(|bytes|);
    }

    /** syncSubmit(byte[]) on an OUT pipe: returns the count the device took. */
    method SubmitOut(data: seq<byte>) returns (r: Result<nat, Error>)
      requires isOpen
      modifies this
      ensures (r, State()) == TransferOut(old(State()), data)
    {
      var result := TransferOut(State(), data);
      if result.0.Failure? {
        return Failure(result.0.error);
      }
      accepts := accepts[1..];
      log := log + [Sent(data[..result.0.value])];
      r := result.0;
    }
  }

  /** UsbInterface: claimable, with one pipe per endpoint address. */
  class Interface {
    var claimed: bool
    const pipes: map<byte, Pipe>

    constructor (pipes: map<byte, Pipe>)
      ensures !claimed && this.pipes == pipes
    {
      this.claimed := false;
      this.pipes := pipes;
    }

    method Claim()
      modifies this
      ensures claimed
    {
      claimed := true;
    }

    method Release()
      modifies this
      ensures !claimed
    {
      claimed := false;
    }
  }
}
