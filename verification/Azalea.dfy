/** The Azalea backend: EC memory mapped page by page into I/O space. */
module Azalea {
  import opened Wrappers
  import opened Bytes
  import opened LpcController
  import opened Backoff
  import opened Packets
  import opened HostCommand
  import opened MappedMemory
  import opened Transfer

  const PACKET_PORTS := 0x800
  const MEMMAP_PORTS := 0xE00

  /** The EC's side: which memory address answers at a port. */
  function MemoryAt(port: nat): Option<nat> {
    if PACKET_PORTS <= port < PACKET_PORTS + 0x100 then Some(port - PACKET_PORTS)
    else if MEMMAP_PORTS <= port < MEMMAP_PORTS + 0x100 then Some(MEMMAP_BASE + (port - MEMMAP_PORTS))
    else None
  }

  /** The host's side: bits 9 and 10 are set above address 0xFF, bit 8 as well above 0xFFF. */
  function BasePort(address: nat): nat
    requires address < 0x1_0000
  {
    0x800 + (if address / 0x100 > 0 then 0x600 else 0) + (if address / 0x1000 > 0 then 0x100 else 0)
  }

  function PortOf(address: nat): nat
    requires address < 0x1_0000
  {
    BasePort(address) + address % 0x100
  }

  /** The two sides agree on the packet area, at ports 0x800 to 0x8FF, and on the mapped memory, at
      ports 0xE00 to 0xEFF. */
  lemma PortReachesAddress(address: nat)
    requires address < 0x200
    ensures MemoryAt(PortOf(address)) == Some(address)
    ensures PortOf(address) == if address < 0x100 then 0x800 + address else 0xE00 + (address - 0x100)
  {
  }

  /** Where every other address goes: all pages below 0x1000 to the one at 0xE00, those above to the
      one at 0xF00. */
  lemma PortByPage(address: nat)
    requires address < 0x1_0000
    ensures PortOf(address) ==
            (if address < 0x100 then 0x800 else if address < 0x1000 then 0xE00 else 0xF00) + address % 0x100
  {
  }

  /** Exactly which addresses share a port: those with the same low byte in the same one of
      three classes. */
  lemma SamePort(a: nat, b: nat)
    requires a < 0x1_0000 && b < 0x1_0000
    ensures PortOf(a) == PortOf(b) <==>
              a % 0x100 == b % 0x100 && (a < 0x100 <==> b < 0x100) && (a < 0x1000 <==> b < 0x1000)
  {
  }

  /** At a port nothing answers to, a write is lost and a read gives any byte. */
  method IoWrite8(ec: Controller, port: nat, value: byte)
    modifies ec`memory
    ensures ec.memory == Written(old(ec.memory), port, value)
  {
    if MemoryAt(port).Some? {
      ec.memory := ec.memory[MemoryAt(port).value := value];
    }
  }

  function Written(memory: Memory, port: nat, value: byte): Memory {
    if MemoryAt(port).Some? then memory[MemoryAt(port).value := value] else memory
  }

  method IoRead8(ec: Controller, port: nat) returns (value: byte)
    ensures MemoryAt(port).Some? ==> value == ec.memory[MemoryAt(port).value]
  {
    if MemoryAt(port).Some? {
      value := ec.memory[MemoryAt(port).value];
    } else {
      value := *;
    }
  }

  /** The port a memory address answers at, if there is one. */
  function PortAt(address: nat): Option<nat> {
    if address < 0x100 then Some(PACKET_PORTS + address)
    else if address < 0x200 then Some(MEMMAP_PORTS + (address - MEMMAP_BASE))
    else None
  }

  lemma PortsAndAddresses(port: nat, address: nat)
    ensures MemoryAt(port) == Some(address) <==> PortAt(address) == Some(port)
  {
  }

  /** The ports from `port` to `port + n - 1` have been written from, or read into, the first
      `n` bytes of the buffer, and nothing else has changed. What a port without memory reads as
      is left open. */
  ghost predicate PortsMoved(direction: Direction, from: seq<byte>, was: seq<byte>, memory: seq<byte>, data: seq<byte>,
                             port: nat, start: nat, n: int)
    requires |from| >= 0x200
  {
    && 0 <= n && |memory| == |from| && |data| == |was| && start + n <= |was|
    && (direction.Write? ==>
          && data == was
          && forall k :: 0 <= k < |from| ==>
               memory[k] == if PortAt(k).Some? && port <= PortAt(k).value < port + n
                            then was[start + (PortAt(k).value - port)] else from[k])
    && (direction.Read? ==>
          && memory == from
          && forall k :: 0 <= k < |was| ==>
               if start <= k < start + n
               then MemoryAt(port + (k - start)).Some? ==> data[k] == from[MemoryAt(port + (k - start)).value]
               else data[k] == was[k])
  }

  /** A transfer moves the bytes of consecutive ports. Inside one of the two pages that have
      memory it is a plain copy of exactly `size` bytes. */
  method ECTransfer(ec: Controller, direction: Direction, address0: nat, data: array<byte>, start: nat, size: nat)
    requires address0 < 0x1_0000 && size < 0x1_0000 && start + size <= data.Length
    modifies ec`memory, data
    ensures PortsMoved(direction, old(ec.memory), old(data[..]), ec.memory, data[..], PortOf(address0), start, size)
    ensures address0 < 0x200 && address0 % 0x100 + size <= 0x100 ==>
              Copied(direction, old(ec.memory), old(data[..]), ec.memory, data[..], address0, start, size)
  {
    ghost var from, was := ec.memory, data[..];
    hide Copied;
    var basePort := BasePort(address0);
    var address := address0 % 0x100;
    if direction.Write? {
      for i := 0 to size
        invariant PortsMoved(direction, from, was, ec.memory, data[..], basePort + address, start, i)
      {
        WrittenOnce(ec.memory, basePort + address + i, data[start + i]);
        hide Written;
        hide MemoryAt;
        IoWrite8(ec, basePort + address + i, data[start + i]);
      }
    } else {
      for i := 0 to size
        invariant PortsMoved(direction, from, was, ec.memory, data[..], basePort + address, start, i)
      {
        data[start + i] := IoRead8(ec, basePort + address + i);
      }
    }
    if address0 < 0x200 && address + size <= 0x100 {
      PageIsCopied(direction, from, was, ec.memory, data[..], address0, start, size);
    }
  }

  lemma WrittenOnce(memory: Memory, port: nat, value: byte)
    ensures forall k :: 0 <= k < |memory| ==>
              Written(memory, port, value)[k] == if PortAt(k) == Some(port) then value else memory[k]
  {
    forall k | 0 <= k < |memory|
      ensures Written(memory, port, value)[k] == if PortAt(k) == Some(port) then value else memory[k]
    {
      PortsAndAddresses(port, k);
    }
  }

  lemma PageIsCopied(direction: Direction, from: Memory, was: seq<byte>, memory: seq<byte>, data: seq<byte>,
                     address: nat, start: nat, n: nat)
    requires address < 0x200 && address % 0x100 + n <= 0x100
    requires PortsMoved(direction, from, was, memory, data, PortOf(address), start, n)
    ensures Copied(direction, from, was, memory, data, address, start, n)
  {
  }

  /** The Azalea exchange is `Exchange` too. */
  method SendCommand(ec: Controller, command: nat, version: nat, outdata: seq<byte>, indata: array<byte>, insize: nat)
    returns (res: int)
    requires insize <= MAX_PAYLOAD && insize <= indata.Length
    modifies ec, indata
    ensures var o := old(Exchange(ec.behaviour, ec.State(), command, version, outdata, insize));
            && res == o.result.rv
            && ec.State() == o.state
            && indata[..] == Splice(old(indata[..]), 0, o.result.payload)
  {
    hide Accept;
    hide RequestFrame;
    hide WaitForReady;
    hide Splice;
    hide AfterCommand;
    hide Delivered;
    var u, r := new byte[PACKET_SIZE], new byte[PACKET_SIZE];

    if |outdata| + HEADER > PACKET_SIZE {
      return -RES_REQUEST_TRUNCATED;
    }
    FillRequest(u, command, version, outdata);

    ghost var entry := ec.State();
    var timeout := ECWaitForReady(ec, EXCHANGE_TIMEOUT);
    if timeout != 0 {
      return -RES_TIMEOUT;
    }

    SendPacket(ec, u, |outdata| + HEADER);

    DeliveredIs(entry, ec.State(), RequestFrame(command, version, outdata));
    ec.WritePort(ADDR_HOST_CMD, COMMAND_PROTOCOL_3);

    timeout := ECWaitForReady(ec, EXCHANGE_TIMEOUT);
    if timeout != 0 {
      return -RES_TIMEOUT;
    }

    var i := ec.ReadPort(ADDR_HOST_DATA);
    if i != 0 {
      return -EECRESULT - i;
    }

    res := ReceivePacket(ec, r, indata, insize);
  }

  /** Moves the frame in `u` to the start of EC memory. */
  method SendPacket(ec: Controller, u: array<byte>, size: nat)
    requires size <= u.Length == PACKET_SIZE
    modifies ec`memory, u
    ensures ec.memory == Splice(old(ec.memory), 0, old(u[..size]))
  {
    hide PortsMoved;
    ghost var from, was := ec.memory, u[..];
    ECTransfer(ec, Write, 0, u, 0, size);
    CopiedAll(Write, from, was, ec.memory, u[..], 0, 0, size);
  }

  /** Fetches and judges a response. */
  method ReceivePacket(ec: Controller, r: array<byte>, indata: array<byte>, insize: nat) returns (res: int)
    requires r.Length == PACKET_SIZE && r != indata
    requires insize <= MAX_PAYLOAD && insize <= indata.Length
    modifies ec`memory, r, indata
    ensures ec.memory == old(ec.memory)
    ensures var a := Accept(ec.memory[..PACKET_SIZE], insize);
            res == a.rv && indata[..] == Splice(old(indata[..]), 0, a.payload)
  {
    hide PortsMoved;
    ECTransfer(ec, Read, 0, r, 0, HEADER);
    ghost var w: Window := ec.memory[..PACKET_SIZE];
    assert r[..HEADER] == w[..HEADER];
    hide Checksum;

    if r[0] != RESPONSE_VERSION {
      return -RES_INVALID_HEADER_VERSION;
    }
    if FromLe16(r[6], r[7]) != 0 {
      return -RES_INVALID_HEADER;
    }
    var length := FromLe16(r[4], r[5]);
    if length > insize {
      return -RES_RESPONSE_TOO_BIG;
    }
    if length > 0 {
      ECTransfer(ec, Read, HEADER, r, HEADER, length);
      assert r[..HEADER + length] == w[..HEADER + length];
      var csum := ECChecksumBuffer(r, HEADER + length);
      if csum != 0 {
        return -RES_INVALID_CHECKSUM;
      }
      CopyInto(indata, 0, r[HEADER..HEADER + length]);
    }
    res := length;
  }

  /** Reads mapped memory: exactly the counted bytes are stored. */
  method ReadMemory(ec: Controller, offset: nat, buffer: array<byte>, length: nat) returns (cnt: int)
    requires ReadCount(ec.memory, offset, length) <= buffer.Length
    modifies ec`memory, buffer
    ensures ec.memory == old(ec.memory)
    ensures cnt == ReadCount(ec.memory, offset, length)
    ensures Fetched(ec.memory, offset, old(buffer[..]), buffer[..], Max(cnt, 0))
  {
    hide PortsMoved;
    ghost var memory, was := ec.memory, buffer[..];
    if offset + length > MEMMAP_SIZE {
      return -1;
    }
    if length > 0 {
      ECTransfer(ec, Read, MEMMAP_BASE + offset, buffer, 0, length);
      return length;
    }
    cnt := 0;
    var off := offset;
    while off < MEMMAP_SIZE
      invariant cnt == off - offset && offset <= off <= MEMMAP_SIZE
      invariant ec.memory == memory
      invariant StringLength(memory, offset) == cnt + StringLength(memory, off)
      invariant Fetched(memory, offset, was, buffer[..], cnt)
    {
      ECTransfer(ec, Read, MEMMAP_BASE + off, buffer, cnt, 1);
      cnt := cnt + 1;
      if buffer[cnt - 1] == 0 {
        return;
      }
      off := off + 1;
    }
  }
}
