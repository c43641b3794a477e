/** The embedded controller as the host sees it over the LPC bus: a shared memory, a status
    port, a data port, and a clock that only the host's own stalls advance. */
module LpcController {
  import opened Bytes

  const PACKET_SIZE := 0x100
  const MEMMAP_BASE := 0x100
  const MEMMAP_SIZE := 255

  /** What the host writes, and where. */
  const COMMAND_PROTOCOL_3 := 0xda
  const ADDR_HOST_DATA := 0x200
  const ADDR_HOST_CMD := 0x204

  /** Addresses 0..0xFF hold the packet being exchanged, 0x100..0x1FF the mapped memory. */
  type Memory = s: seq<byte> | 0x200 <= |s| <= 0x1_0000 witness seq(0x200, _ => 0)

  /** What the packet area holds at one moment. */
  type Window = s: seq<byte> | |s| == 0x100 witness seq(0x100, _ => 0)

  /** What the EC leaves behind for one command: its result code and a new packet area. */
  datatype Answer = Answer(result: byte, window: Window)

  /** All choices of the EC: its status byte after a number of commands at a given time, and
      its answer to the n-th command, given the packet area at the start of that command. */
  datatype Behaviour = Behaviour(status: (nat, nat) -> byte, answer: (nat, Window) -> Answer)

  datatype EcState = EcState(memory: Memory, elapsed: nat, started: nat, result: byte)

  function PacketArea(s: EcState): Window {
    s.memory[..PACKET_SIZE]
  }

  /** The EC runs the command whose frame is in the packet area. */
  function AfterCommand(b: Behaviour, s: EcState): EcState {
    var a := b.answer(s.started, PacketArea(s));
    EcState(Splice(s.memory, 0, a.window), s.elapsed, s.started + 1, a.result)
  }

  class Controller {
    const behaviour: Behaviour
    var memory: Memory
    var elapsed: nat
    var started: nat
    var result: byte

    constructor (behaviour: Behaviour, memory: Memory)
      ensures this.behaviour == behaviour
      ensures State() == EcState(memory, 0, 0, 0)
    {
      this.behaviour, this.memory := behaviour, memory;
      elapsed, started, result := 0, 0, 0;
    }

    function State(): EcState
      reads this
    {
      EcState(memory, elapsed, started, result)
    }

    function Status(): byte
      reads this
    {
      behaviour.status(started, elapsed)
    }

    /** The EC's ports: the result of a command at 0x200, the status at 0x204. */
    function ReadPort(port: nat): byte
      reads this
    {
      if port == 0x200 then result else if port == 0x204 then Status() else 0xFF
    }

    method Stall(microseconds: nat)
      modifies this`elapsed
      ensures elapsed == old(elapsed) + microseconds
    {
      elapsed := elapsed + microseconds;
    }

    /** Only the byte 0xDA at port 0x204 starts a command of protocol 3. */
    method WritePort(port: nat, value: byte)
      modifies this
      ensures State() == if port == 0x204 && value == 0xDA then AfterCommand(behaviour, old(State())) else old(State())
    {
      if port == 0x204 && value == 0xDA {
        var a := behaviour.answer(started, memory[..PACKET_SIZE]);
        memory := a.window + memory[PACKET_SIZE..];
        result := a.result;
        started := started + 1;
      }
    }
  }
}
