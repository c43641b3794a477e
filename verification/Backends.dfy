/** The two backends are interchangeable. */
module Backends {
  import opened Bytes
  import opened LpcController
  import opened Packets
  import opened MappedMemory
  import Microchip
  import Azalea

  /** Two ECs that behave alike and are in the same state cannot be told apart through the two
      backends: same code, same buffer contents, and the same state afterwards. */
  method SameExchange(regs: Microchip.Registers, ec: Controller, command: nat, version: nat, outdata: seq<byte>,
                      indata1: array<byte>, indata2: array<byte>, insize: nat)
    returns (rv1: int, rv2: int)
    requires insize <= MAX_PAYLOAD && insize <= indata1.Length && indata1[..] == indata2[..] && indata1 != indata2
    requires regs.ec != ec && regs.ec.behaviour == ec.behaviour && regs.ec.State() == ec.State()
    modifies regs, regs.ec, ec, indata1, indata2
    ensures rv1 == rv2 && indata1[..] == indata2[..] && regs.ec.State() == ec.State()
    ensures rv1 < 0 ==> indata1[..] == old(indata1[..])
  {
    rv1 := Microchip.SendCommand(regs, command, version, outdata, indata1, insize);
    rv2 := Azalea.SendCommand(ec, command, version, outdata, indata2, insize);
  }

  /** Reading mapped memory gives the same count and the same counted bytes, in string mode too,
      if the Microchip buffer has three bytes to spare. */
  method SameMemory(regs: Microchip.Registers, ec: Controller, offset: nat,
                    buffer1: array<byte>, buffer2: array<byte>, length: nat)
    returns (cnt1: int, cnt2: int)
    requires regs.ec != ec && regs.ec.memory == ec.memory && buffer1 != buffer2
    requires ReadCount(ec.memory, offset, length) < 0 || ReadCount(ec.memory, offset, length) + 3 <= buffer1.Length
    requires ReadCount(ec.memory, offset, length) <= buffer2.Length
    modifies regs, regs.ec`memory, ec`memory, buffer1, buffer2
    ensures cnt1 == cnt2
    ensures cnt1 >= 0 ==> cnt1 <= buffer1.Length && cnt1 <= buffer2.Length && buffer1[..cnt1] == buffer2[..cnt1]
    ensures regs.ec.memory == old(regs.ec.memory) && ec.memory == old(ec.memory)
  {
    cnt1 := Microchip.ReadMemory(regs, offset, buffer1, length);
    cnt2 := Azalea.ReadMemory(ec, offset, buffer2, length);
  }
}
