/**
 * The USB missile launcher driver: the 64-byte command report, the two
 * initialisation packets sent before it, and the console loop that maps
 * keys to commands.
 */
module MissileLauncher {
  import opened Wrappers
  import opened Wire

  /** The command bits of the launcher's protocol. */
  const CMD_UP: bv32 := 0x01
  const CMD_DOWN: bv32 := 0x02
  const CMD_LEFT: bv32 := 0x04
  const CMD_RIGHT: bv32 := 0x08
  const CMD_FIRE: bv32 := 0x10

  /** The five command bits together. */
  const CMD_ALL: bv32 := 0x1F

  /** The two packets sent ahead of every report. */
  const INIT_A: seq<byte> := [85, 83, 66, 67, 0, 0, 4, 0]
  const INIT_B: seq<byte> := [85, 83, 66, 67, 0, 64, 2, 0]

  /** REQUESTTYPE_TYPE_CLASS | REQUESTTYPE_RECIPIENT_INTERFACE, and the HID SET_REPORT request. */
  const REQUEST_TYPE: bv8 := 0x21
  const REQUEST: bv8 := 0x09
  const VALUE: bv16 := 2
  const INDEX: bv16 := 1

  lemma CommandBits()
    ensures CMD_UP | CMD_DOWN | CMD_LEFT | CMD_RIGHT | CMD_FIRE == CMD_ALL
    ensures forall b | b in [CMD_UP, CMD_DOWN, CMD_LEFT, CMD_RIGHT, CMD_FIRE] :: b != 0 && b & (b - 1) == 0
    ensures CMD_UP & CMD_DOWN == 0 && CMD_UP & CMD_LEFT == 0 && CMD_UP & CMD_RIGHT == 0 && CMD_UP & CMD_FIRE == 0
    ensures CMD_DOWN & CMD_LEFT == 0 && CMD_DOWN & CMD_RIGHT == 0 && CMD_DOWN & CMD_FIRE == 0
    ensures CMD_LEFT & CMD_RIGHT == 0 && CMD_LEFT & CMD_FIRE == 0 && CMD_RIGHT & CMD_FIRE == 0
  {
  }

  /** 1 when the command has this bit set, else 0. */
  function Flag(command: bv32, bit: bv32): (f: byte)
    ensures f == 1 <==> command & bit != 0
    ensures f == 0 || f == 1
  {
    if command & bit != 0 then 1 else 0
  }

  /** The report built by sendCommand: a zeroed 64-byte array with bytes 1 to 7 written. */
  function Report(command: bv32): (r: seq<byte>)
    ensures |r| == 64
  {
    seq(64, i requires 0 <= i < 64 => ReportByte(command, i))
  }

  /** Byte i of the report: the flags of the LEFT, RIGHT, UP, DOWN and FIRE bits at 1 to 5, then 8 and 8. */
  function ReportByte(command: bv32, i: int): byte
  {
    if i == 1 then Flag(command, CMD_LEFT) else if i == 2 then Flag(command, CMD_RIGHT)
    else if i == 3 then Flag(command, CMD_UP) else if i == 4 then Flag(command, CMD_DOWN)
    else if i == 5 then Flag(command, CMD_FIRE) else if i == 6 || i == 7 then 8 else 0
  }

  /** The command bits a report carries, read back from its flag bytes. */
  function ReportCommand(r: seq<byte>): (command: bv32)
    requires |r| == 64
    ensures command & CMD_ALL == command
  {
    (if r[1] == 1 then CMD_LEFT else 0) | (if r[2] == 1 then CMD_RIGHT else 0) |
    (if r[3] == 1 then CMD_UP else 0) | (if r[4] == 1 then CMD_DOWN else 0) |
    (if r[5] == 1 then CMD_FIRE else 0)
  }

  lemma ReportLayout(command: bv32)
    ensures Report(command)[0] == 0
    ensures Report(command)[1] == 1 <==> command & CMD_LEFT != 0
    ensures Report(command)[2] == 1 <==> command & CMD_RIGHT != 0
    ensures Report(command)[3] == 1 <==> command & CMD_UP != 0
    ensures Report(command)[4] == 1 <==> command & CMD_DOWN != 0
    ensures Report(command)[5] == 1 <==> command & CMD_FIRE != 0
    ensures forall i | 1 <= i <= 5 :: Report(command)[i] == 0 || Report(command)[i] == 1
    ensures Report(command)[6] == 8 && Report(command)[7] == 8
    ensures forall i | 8 <= i < 64 :: Report(command)[i] == 0
  {
  }

  /** The report keeps exactly the five command bits: higher bits are lost. */
  lemma {:induction false} ReportRoundTrip(command: bv32)
    ensures ReportCommand(Report(command)) == command & CMD_ALL
  {
    var r := Report(command);
    assert r[1] == Flag(command, CMD_LEFT) && r[2] == Flag(command, CMD_RIGHT) && r[3] == Flag(command, CMD_UP);
    assert r[4] == Flag(command, CMD_DOWN) && r[5] == Flag(command, CMD_FIRE);
    BitsDecompose(command);
  }

  lemma BitsDecompose(command: bv32)
    ensures command & CMD_ALL ==
      (if command & CMD_LEFT != 0 then CMD_LEFT else 0) | (if command & CMD_RIGHT != 0 then CMD_RIGHT else 0) |
      (if command & CMD_UP != 0 then CMD_UP else 0) | (if command & CMD_DOWN != 0 then CMD_DOWN else 0) |
      (if command & CMD_FIRE != 0 then CMD_FIRE else 0)
  {
    SingleBit(command, CMD_LEFT);
    SingleBit(command, CMD_RIGHT);
    SingleBit(command, CMD_UP);
    SingleBit(command, CMD_DOWN);
    SingleBit(command, CMD_FIRE);
    assert command & CMD_ALL ==
      (command & CMD_LEFT) | (command & CMD_RIGHT) | (command & CMD_UP) | (command & CMD_DOWN) | (command & CMD_FIRE);
  }

  /** Masking with a single bit yields that bit or nothing. */
  lemma SingleBit(command: bv32, bit: bv32)
    requires bit in [CMD_UP, CMD_DOWN, CMD_LEFT, CMD_RIGHT, CMD_FIRE]
    ensures (if command & bit != 0 then bit else 0) == command & bit
  {
  }

  /** Two commands give the same report exactly when they agree on the five command bits. */
  lemma ReportsDistinguishCommands(c1: bv32, c2: bv32)
    ensures Report(c1) == Report(c2) <==> c1 & CMD_ALL == c2 & CMD_ALL
  {
    ReportRoundTrip(c1);
    ReportRoundTrip(c2);
    if c1 & CMD_ALL == c2 & CMD_ALL {
      BitsDecompose(c1);
      BitsDecompose(c2);
      assert Flag(c1, CMD_LEFT) == Flag(c2, CMD_LEFT) && Flag(c1, CMD_RIGHT) == Flag(c2, CMD_RIGHT);
      assert Flag(c1, CMD_UP) == Flag(c2, CMD_UP) && Flag(c1, CMD_DOWN) == Flag(c2, CMD_DOWN);
      assert Flag(c1, CMD_FIRE) == Flag(c2, CMD_FIRE);
    }
  }

  /** One USB control transfer as the launcher receives it. */
  datatype ControlIrp = ControlIrp(requestType: bv8, request: bv8, value: bv16, index: bv16, data: seq<byte>)

  /** The control transfer sendMessage submits for a packet. */
  function Irp(message: seq<byte>): (irp: ControlIrp)
    ensures irp.data == message
  {
    ControlIrp(REQUEST_TYPE, REQUEST, VALUE, INDEX, message)
  }

  /** The packets sendCommand transmits, in order. */
  function Packets(command: bv32): (p: seq<seq<byte>>)
    ensures |p| == 3
  {
    [INIT_A, INIT_B, Report(command)]
  }

  /** The transfers for a sequence of packets. */
  function Irps(packets: seq<seq<byte>>): (irps: seq<ControlIrp>)
    ensures |irps| == |packets|
    ensures forall i | 0 <= i < |packets| :: irps[i] == Irp(packets[i])
  {
    seq(|packets|, i requires 0 <= i < |packets| => Irp(packets[i]))
  }

  lemma {:induction false} IrpsAppend(a: seq<seq<byte>>, b: seq<seq<byte>>)
    ensures Irps(a + b) == Irps(a) + Irps(b)
  {
    assert |Irps(a + b)| == |Irps(a) + Irps(b)|;
    forall i | 0 <= i < |a + b|
      ensures Irps(a + b)[i] == (Irps(a) + Irps(b))[i]
    {
      if i < |a| {
        assert (a + b)[i] == a[i];
      } else {
        assert (a + b)[i] == b[i - |a|];
      }
    }
  }

  /**
   * The launcher's control pipe: the transfers it has received, and how many
   * more it accepts before a transfer fails with a UsbException.
   */
  datatype LauncherState = LauncherState(log: seq<ControlIrp>, remaining: nat)

  /** sendMessage: one control transfer, or the UsbException that replaced it. */
  function Submit(st: LauncherState, message: seq<byte>): (r: (Outcome<Error>, LauncherState))
    ensures r.0.Pass? <==> st.remaining > 0
    ensures r.0.Fail? ==> r.0.error == Usb && r.1 == st
    ensures r.0.Pass? ==> r.1 == LauncherState(st.log + [Irp(message)], st.remaining - 1)
  {
    if st.remaining == 0 then (Fail(Usb), st)
    else (Pass, LauncherState(st.log + [Irp(message)], st.remaining - 1))
  }

  /** sendCommand: the three packets in order, stopping at the first failed transfer. */
  function SendCommandSpec(st: LauncherState, command: bv32): (r: (Outcome<Error>, LauncherState))
    ensures r.0.Pass? <==> st.remaining >= 3
    ensures r.0.Fail? ==> r.0.error == Usb
    ensures st.log <= r.1.log && |r.1.log| + r.1.remaining == |st.log| + st.remaining
  {
    var (a, st1) := Submit(st, INIT_A);
    if a.Fail? then (a, st1) else
    var (b, st2) := Submit(st1, INIT_B);
    if b.Fail? then (b, st2) else
    Submit(st2, Report(command))
  }

  /** A command goes out as INIT_A, INIT_B and the report, or as the prefix the device took before failing. */
  lemma SendCommandTransfers(st: LauncherState, command: bv32)
    ensures SendCommandSpec(st, command).0.Pass? <==> st.remaining >= 3
    ensures SendCommandSpec(st, command).0.Fail? ==> SendCommandSpec(st, command).0.error == Usb
    ensures SendCommandSpec(st, command).1 ==
      LauncherState(st.log + Irps(Packets(command)[..Min(3, st.remaining)]), st.remaining - Min(3, st.remaining))
  {
    var p := Packets(command);
    if st.remaining == 0 {
      assert p[..0] == [];
    } else if st.remaining == 1 {
      assert p[..1] == [INIT_A];
    } else if st.remaining == 2 {
      assert p[..2] == [INIT_A, INIT_B];
      assert Irps([INIT_A, INIT_B]) == [Irp(INIT_A), Irp(INIT_B)];
    } else {
      assert p[..3] == p;
      assert Irps(p) == [Irp(INIT_A), Irp(INIT_B), Irp(Report(command))];
    }
  }

  function Min(a: int, b: int): int
  {
    if a <= b then a else b
  }

  /** What a key at the prompt does. */
  datatype KeyAction = Send(command: bv32) | Quit | Ignore

  /** The switch in the launcher's console loop. */
  function Action(key: char): (a: KeyAction)
    ensures a.Send? <==> key in "wxadfs"
    ensures a.Quit? <==> key == 'q'
    ensures a.Send? ==> a.command in [CMD_UP, CMD_DOWN, CMD_LEFT, CMD_RIGHT, CMD_FIRE, 0]
  {
    match key
    case 'w' => Send(CMD_UP)
    case 'x' => Send(CMD_DOWN)
    case 'a' => Send(CMD_LEFT)
    case 'd' => Send(CMD_RIGHT)
    case 'f' => Send(CMD_FIRE)
    case 's' => Send(0)
    case 'q' => Quit
    case _ => Ignore
  }

  /** Different keys never send the same command, and each sends at most one bit. */
  lemma ActionsDistinct(k1: char, k2: char)
    requires Action(k1).Send? && Action(k2).Send?
    ensures Action(k1) == Action(k2) <==> k1 == k2
    ensures Action(k1).command & (Action(k1).command - 1) == 0
  {
  }

  /** The stop key sends a report with every flag byte clear. */
  lemma StopClearsFlags()
    ensures Action('s') == Send(0)
    ensures forall i | 1 <= i <= 5 :: Report(0)[i] == 0
  {
  }

  /** readKey: the first character of the line, or NUL for an empty line. */
  function ReadKey(line: seq<char>): (key: char)
    ensures |line| > 0 ==> key == line[0]
    ensures |line| == 0 ==> key == 0 as char
  {
    if |line| > 0 then line[0] else 0 as char
  }

  /**
   * The console loop over the lines typed: ends on 'q', propagates a
   * UsbException, and dereferences the null that readLine returns once
   * the input is exhausted.
   */
  function Session(st: LauncherState, lines: seq<seq<char>>): (r: (Outcome<Error>, LauncherState))
    ensures r.0.Fail? ==> r.0.error == NullPointer || r.0.error == Usb
    ensures r.0.Fail? && r.0.error == NullPointer ==> Commands(lines).None?
    ensures r.0.Pass? ==> Commands(lines).Some?
    ensures st.log <= r.1.log && |r.1.log| + r.1.remaining == |st.log| + st.remaining
    decreases |lines|
  {
    if lines == [] then (Fail(NullPointer), st)
    else match Action(ReadKey(lines[0]))
      case Quit => (Pass, st)
      case Ignore => Session(st, lines[1..])
      case Send(command) =>
        var (o, st1) := SendCommandSpec(st, command);
        if o.Fail? then (o, st1) else Session(st1, lines[1..])
  }

  /** The commands the lines issue before the quit key, or None when no line starts with 'q'. */
  function Commands(lines: seq<seq<char>>): (r: Option<seq<bv32>>)
    ensures r.Some? <==> exists i | 0 <= i < |lines| :: ReadKey(lines[i]) == 'q'
    ensures r.Some? ==> |r.value| < |lines|
    ensures r.Some? ==> forall c | c in r.value :: c in [CMD_UP, CMD_DOWN, CMD_LEFT, CMD_RIGHT, CMD_FIRE, 0]
    decreases |lines|
  {
    if lines == [] then None
    else match Action(ReadKey(lines[0]))
      case Quit => Some([])
      case Ignore => Commands(lines[1..])
      case Send(command) =>
        var rest := Commands(lines[1..]);
        if rest.None? then None else Some([command] + rest.value)
  }

  /** The packets for a sequence of commands, each as INIT_A, INIT_B, report. */
  function AllPackets(commands: seq<bv32>): (p: seq<seq<byte>>)
    ensures |p| == 3 * |commands|
  {
    if commands == [] then [] else Packets(commands[0]) + AllPackets(commands[1..])
  }

  /**
   * A session succeeds exactly when the input reaches a 'q' line and the
   * device accepts every transfer before it; the device then holds
   * INIT_A, INIT_B and the report for each command, in order.
   */
  lemma {:induction false} SessionTransfers(st: LauncherState, lines: seq<seq<char>>)
    ensures Sends(Session(st, lines), st, Commands(lines))
    decreases |lines|
  {
    if lines != [] {
      match Action(ReadKey(lines[0]))
      case Quit =>
        assert Irps([]) == [];
        assert st.log + [] == st.log;
      case Ignore =>
        SessionTransfers(st, lines[1..]);
      case Send(command) =>
        SendCommandTransfers(st, command);
        CommandsCons(lines, command);
        if st.remaining >= 3 {
          var st1 := LauncherState(st.log + Irps(Packets(command)), st.remaining - 3);
          assert Packets(command)[..3] == Packets(command);
          SessionTransfers(st1, lines[1..]);
          assert Session(st, lines) == Session(st1, lines[1..]);
          SendThenSends(Session(st1, lines[1..]), st, st1, command, Commands(lines[1..]));
        } else {
          assert Session(st, lines).0.Fail?;
          if Commands(lines[1..]).Some? {
            assert |[command] + Commands(lines[1..]).value| >= 1;
          }
        }
    }
  }

  /**
   * The ending r of a session from st that issued these commands: it
   * succeeds exactly when the input reaches a 'q' line and the device
   * accepts every transfer before it, and the device then holds INIT_A,
   * INIT_B and the report for each command, in order.
   */
  predicate Sends(r: (Outcome<Error>, LauncherState), st: LauncherState, commands: Option<seq<bv32>>)
  {
    (r.0.Pass? <==> (commands.Some? && st.remaining >= 3 * |commands.value|)) &&
    (r.0.Pass? ==> r.1 == LauncherState(st.log + Irps(AllPackets(commands.value)), st.remaining - 3 * |commands.value|))
  }

  /** The step of SessionTransfers for a command the device accepts. */
  lemma SendThenSends(r: (Outcome<Error>, LauncherState), st: LauncherState, st1: LauncherState,
                      command: bv32, rest: Option<seq<bv32>>)
    requires st.remaining >= 3 && st1 == LauncherState(st.log + Irps(Packets(command)), st.remaining - 3)
    requires Sends(r, st1, rest)
    ensures Sends(r, st, if rest.Some? then Some([command] + rest.value) else None)
  {
    if rest.Some? {
      var commands := [command] + rest.value;
      assert 3 * |commands| == 3 + 3 * |rest.value|;
      if r.0.Pass? {
        assert Irps(AllPackets(commands)) == Irps(Packets(command)) + Irps(AllPackets(rest.value)) by {
          AllPacketsCons(command, rest.value);
        }
        assert st.log + Irps(AllPackets(commands)) == st1.log + Irps(AllPackets(rest.value));
      }
    }
  }

  lemma CommandsCons(lines: seq<seq<char>>, command: bv32)
    requires |lines| > 0 && Action(ReadKey(lines[0])) == Send(command)
    ensures Commands(lines) ==
      (if Commands(lines[1..]).Some? then Some([command] + Commands(lines[1..]).value) else None)
  {
  }

  lemma AllPacketsCons(command: bv32, rest: seq<bv32>)
    ensures AllPackets([command] + rest) == Packets(command) + AllPackets(rest)
    ensures Irps(AllPackets([command] + rest)) == Irps(Packets(command)) + Irps(AllPackets(rest))
  {
    assert ([command] + rest)[1..] == rest;
    IrpsAppend(Packets(command), AllPackets(rest));
  }

  /** A 'q' line ends the session with nothing sent, whatever comes after it. */
  lemma QuitSendsNothing(st: LauncherState, lines: seq<seq<char>>)
    requires |lines| > 0 && |lines[0]| > 0 && lines[0][0] == 'q'
    ensures Session(st, lines) == (Pass, st)
  {
  }

  /** The launcher's control pipe as an object the driver submits transfers to. */
  class Launcher {
    var log: seq<ControlIrp>
    var remaining: nat

    function State(): LauncherState
      reads this
    {
      LauncherState(log, remaining)
    }

    constructor (remaining: nat)
      ensures State() == LauncherState([], remaining)
    {
      this.log := [];
      this.remaining := remaining;
    }

    /** sendMessage: submit one control transfer carrying the packet. */
    method SendMessage(message: seq<byte>) returns (r: Outcome<Error>)
      modifies this
      ensures (r, State()) == Submit(old(State()), message)
    {
      if remaining == 0 {
        return Fail(Usb);
      }
      log := log + [Irp(message)];
      remaining := remaining - 1;
      return Pass;
    }

    /** sendCommand: send INIT_A, INIT_B and the report, stopping at the first failed transfer. */
    method SendCommand(command: bv32) returns (r: Outcome<Error>)
      modifies this
      ensures (r, State()) == SendCommandSpec(old(State()), command)
    {
      var message := NewReport(command);
      r := SendMessage(INIT_A);
      if r.Fail? {
        return;
      }
      r := SendMessage(INIT_B);
      if r.Fail? {
        return;
      }
      r := SendMessage(message[..]);
    }
  }

  /** The report buffer of sendCommand: a fresh zeroed 64-byte array with bytes 1 to 7 written in place. */
  method NewReport(command: bv32) returns (message: array<byte>)
    ensures fresh(message) && message[..] == Report(command)
  {
    message := new byte[64](_ => 0);
    message[1] := if command & CMD_LEFT != 0 then 1 else 0;
    message[2] := if command & CMD_RIGHT != 0 then 1 else 0;
    message[3] := if command & CMD_UP != 0 then 1 else 0;
    message[4] := if command & CMD_DOWN != 0 then 1 else 0;
    message[5] := if command & CMD_FIRE != 0 then 1 else 0;
    message[6] := 8;
    message[7] := 8;
    assert forall k | 0 <= k < 64 :: message[k] == ReportByte(command, k);
  }

  /** The console loop of the launcher program, reading one line per prompt. */
  method Control(launcher: Launcher, lines: seq<seq<char>>) returns (r: Outcome<Error>)
    modifies launcher
    ensures (r, launcher.State()) == Session(old(launcher.State()), lines)
  {
    var exit := false;
    var i := 0;
    r := Pass;
    while !exit
      invariant 0 <= i <= |lines|
      invariant r == Pass
      invariant !exit ==> Session(launcher.State(), lines[i..]) == Session(old(launcher.State()), lines)
      invariant exit ==> (r, launcher.State()) == Session(old(launcher.State()), lines)
      decreases |lines| - i, !exit
    {
      if i == |lines| {
        return Fail(NullPointer);
      }
      var key := ReadKey(lines[i]);
      assert lines[i..][0] == lines[i] && lines[i..][1..] == lines[i + 1..];
      match Action(key) {
        case Send(command) =>
          r := launcher.SendCommand(command);
          if r.Fail? {
            return;
          }
        case Quit =>
          assert Session(launcher.State(), lines[i..]) == (Pass, launcher.State());
          exit := true;
        case Ignore =>
      }
      i := i + 1;
    }
  }
}
