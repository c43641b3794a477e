/** The Microchip backend: EC memory behind an address register and four data registers. */
module Microchip {
  import opened Bytes
  import opened LpcController
  import opened Backoff
  import opened Packets
  import opened HostCommand
  import opened MappedMemory
  import opened Transfer

  const BYTE_ACCESS := 0x00
  const LONG_ACCESS_AUTOINCREMENT := 0x03

  const ADDRESS_REGISTER0 := 0x0802
  const DATA_REGISTER0 := 0x0804
  const DATA_REGISTER2 := 0x0806
  const DATA_REGISTER3 := 0x0807

  /** The register window: the address at port 0x0802, with the kind of access in its lowest two
      bits (0 bytes, 3 dwords with auto-increment), and four data ports from 0x0804 on. In byte
      access, data register `r` is the byte `r` of the addressed dword. In auto-increment access the
      two 16-bit data registers are the halves of that dword, and using the upper one moves the
      address to the next dword. */
  class Registers {
    const ec: Controller
    var address: nat
    var autoIncrement: bool

    constructor (ec: Controller)
      ensures this.ec == ec
    {
      this.ec, address, autoIncrement := ec, 0, false;
    }

    method SetAddress(port: nat, value: nat)
      requires port == 0x0802 && value < 0x1_0000 && (value % 4 == 0 || value % 4 == 3)
      modifies this
      ensures address == value - value % 4
      ensures autoIncrement == (value % 4 == 3)
    {
      address := value - value % 4;
      autoIncrement := value % 4 == 3;
    }

    method IoWrite8(port: nat, value: byte)
      requires 0x0804 <= port <= 0x0807 && !autoIncrement
      requires address + (port - 0x0804) < |ec.memory|
      modifies ec`memory
      ensures ec.memory == old(ec.memory)[address + (port - 0x0804) := value]
    {
      ec.memory := ec.memory[address + (port - 0x0804) := value];
    }

    method IoRead8(port: nat) returns (value: byte)
      requires 0x0804 <= port <= 0x0807 && !autoIncrement
      requires address + (port - 0x0804) < |ec.memory|
      ensures value == ec.memory[address + (port - 0x0804)]
    {
      value := ec.memory[address + (port - 0x0804)];
    }

    method IoWrite16(port: nat, value: nat)
      requires (port == 0x0804 || port == 0x0806) && autoIncrement
      requires value < 0x1_0000 && address + 4 <= |ec.memory|
      modifies this`address, ec`memory
      ensures ec.memory == Splice(old(ec.memory), old(address) + (port - 0x0804), Le16(value))
      ensures address == old(address) + if port == 0x0806 then 4 else 0
    {
      ec.memory := Splice(ec.memory, address + (port - 0x0804), Le16(value));
      if port == 0x0806 {
        address := address + 4;
      }
    }

    method IoRead16(port: nat) returns (value: nat)
      requires (port == 0x0804 || port == 0x0806) && autoIncrement
      requires address + 4 <= |ec.memory|
      modifies this`address
      ensures value < 0x1_0000
      ensures Le16(value) == old(ec.memory[address + (port - 0x0804)..][..2])
      ensures address == old(address) + if port == 0x0806 then 4 else 0
    {
      var at := address + (port - 0x0804);
      value := FromLe16(ec.memory[at], ec.memory[at + 1]);
      if port == 0x0806 {
        address := address + 4;
      }
    }
  }

  /** Bytes before the next dword boundary. */
  function HeadLength(address: nat): (n: nat)
    ensures n < 4
    ensures (address + n) % 4 == 0
    ensures n > 0 <==> address % 4 > 0
    ensures n > 0 ==> n == 4 - address % 4
  {
    var past := address % 4;
    assert address == address / 4 * 4 + past;
    assert past > 0 ==> (address + (4 - past)) == (address / 4 + 1) * 4;
    if past == 0 then 0 else 4 - past
  }

  /** 16-bit address arithmetic. */
  function Wrap16(n: nat): (r: nat)
    ensures r < 0x1_0000
    ensures n < 0x1_0000 ==> r == n
  {
    n % 0x1_0000
  }

  /** How many bytes a transfer really moves: an unaligned start always runs to the next dword
      boundary, even if fewer bytes were asked for. */
  function Moved(address: nat, size: nat): (n: nat)
    ensures n >= size
  {
    Max(size, HeadLength(address))
  }

  /** One byte through data register `port`. */
  method TransferByte(regs: Registers, direction: Direction, port: nat, data: array<byte>, at: nat)
    requires DATA_REGISTER0 <= port <= DATA_REGISTER3 && !regs.autoIncrement
    requires regs.address + (port - DATA_REGISTER0) < |regs.ec.memory| && at < data.Length
    modifies regs.ec`memory, data
    ensures var a := regs.address + (port - DATA_REGISTER0);
            if direction.Write?
            then regs.ec.memory == old(regs.ec.memory)[a := data[at]] && data[..] == old(data[..])
            else regs.ec.memory == old(regs.ec.memory) && data[..] == old(data[..])[at := regs.ec.memory[a]]
  {
    if direction.Write? {
      regs.IoWrite8(port, data[at]);
    } else {
      data[at] := regs.IoRead8(port);
    }
  }

  /** One dword through the two 16-bit registers, which also moves the EC's address on. */
  method TransferDword(regs: Registers, direction: Direction, data: array<byte>, at: nat)
    requires regs.autoIncrement && regs.address + 4 <= |regs.ec.memory| && at + 4 <= data.Length
    modifies regs`address, regs.ec`memory, data
    ensures regs.address == old(regs.address) + 4
    ensures var a := old(regs.address);
            if direction.Write?
            then regs.ec.memory == Splice(old(regs.ec.memory), a, data[at..at + 4]) && data[..] == old(data[..])
            else && regs.ec.memory == old(regs.ec.memory)
                 && data[..] == Splice(old(data[..]), at, regs.ec.memory[a..a + 4])
  {
    if direction.Write? {
      var temp0 := FromLe16(data[at], data[at + 1]);
      var temp1 := FromLe16(data[at + 2], data[at + 3]);
      regs.IoWrite16(DATA_REGISTER0, temp0);
      regs.IoWrite16(DATA_REGISTER2, temp1);
    } else {
      var temp0 := regs.IoRead16(DATA_REGISTER0);
      var temp1 := regs.IoRead16(DATA_REGISTER2);
      data[at], data[at + 1] := Le16(temp0)[0], Le16(temp0)[1];
      data[at + 2], data[at + 3] := Le16(temp1)[0], Le16(temp1)[1];
    }
  }

  /** From an unaligned address up to the next dword boundary, byte by byte. */
  method TransferHead(regs: Registers, direction: Direction, address: nat, data: array<byte>, start: nat,
                      ghost from: seq<byte>, ghost was: seq<byte>) returns (pos: nat)
    requires address % 4 > 0
    requires address + HeadLength(address) <= |from| < 0x1_0001 && start + HeadLength(address) <= |was|
    requires Copied(direction, from, was, regs.ec.memory, data[..], address, start, 0)
    modifies regs, regs.ec`memory, data
    ensures pos == HeadLength(address)
    ensures Copied(direction, from, was, regs.ec.memory, data[..], address, start, pos)
  {
    pos := 0;
    regs.SetAddress(ADDRESS_REGISTER0, address - address % 4 + BYTE_ACCESS);
    for i := address % 4 to 4
      invariant pos == i - address % 4
      invariant regs.address == address - address % 4 && !regs.autoIncrement
      invariant Copied(direction, from, was, regs.ec.memory, data[..], address, start, pos)
    {
      TransferByte(regs, direction, DATA_REGISTER0 + i, data, start + pos);
      pos := pos + 1;
    }
  }

  /** Whole dwords; the host's `address` and the EC's own stay equal. */
  method TransferDwords(regs: Registers, direction: Direction, address1: nat, data: array<byte>, start: nat, size: nat,
                        pos1: nat, ghost from: seq<byte>, ghost was: seq<byte>, ghost address0: nat)
    returns (pos: nat, address: nat)
    requires pos1 + 4 <= size && address1 % 4 == 0 && address1 == address0 + pos1
    requires address0 + size <= |from| <= 0x1_0000 && start + size <= |was|
    requires Copied(direction, from, was, regs.ec.memory, data[..], address0, start, pos1)
    modifies regs, regs.ec`memory, data
    ensures pos1 <= pos <= size < pos + 4 && (pos - pos1) % 4 == 0
    ensures address == Wrap16(address0 + pos)
    ensures Copied(direction, from, was, regs.ec.memory, data[..], address0, start, pos)
  {
    hide Copied;
    hide Splice;
    pos, address := pos1, address1;
    regs.SetAddress(ADDRESS_REGISTER0, address - address % 4 + LONG_ACCESS_AUTOINCREMENT);
    while size - pos >= 4
      invariant pos1 <= pos <= size && (pos - pos1) % 4 == 0
      invariant address == Wrap16(address0 + pos)
      invariant regs.address == address0 + pos && regs.autoIncrement
      invariant Copied(direction, from, was, regs.ec.memory, data[..], address0, start, pos)
    {
      CopiedLengths(direction, from, was, regs.ec.memory, data[..], address0, start, pos);
      ghost var memory, bytes := regs.ec.memory, data[..];
      TransferDword(regs, direction, data, start + pos);
      CopiedMore(direction, from, was, memory, bytes, regs.ec.memory, data[..], address0, start, pos, 4);
      FourOn(pos1, pos, address0);
      pos := pos + 4;
      address := Wrap16(address + 4);
    }
  }

  lemma FourOn(pos1: nat, pos: nat, address0: nat)
    requires pos1 <= pos && (pos - pos1) % 4 == 0
    ensures (pos + 4 - pos1) % 4 == 0 && Wrap16(Wrap16(address0 + pos) + 4) == Wrap16(address0 + (pos + 4))
  {
  }

  /** The last one to three bytes. */
  method TransferTail(regs: Registers, direction: Direction, address: nat, data: array<byte>, start: nat, size: nat,
                      pos: nat, ghost from: seq<byte>, ghost was: seq<byte>, ghost address0: nat)
    requires pos < size < pos + 4 && address % 4 == 0 && address == address0 + pos
    requires address0 + size <= |from| <= 0x1_0000 && start + size <= |was|
    requires Copied(direction, from, was, regs.ec.memory, data[..], address0, start, pos)
    modifies regs, regs.ec`memory, data
    ensures Copied(direction, from, was, regs.ec.memory, data[..], address0, start, size)
  {
    regs.SetAddress(ADDRESS_REGISTER0, address - address % 4 + BYTE_ACCESS);
    for i := 0 to size - pos
      invariant regs.address == address && !regs.autoIncrement
      invariant Copied(direction, from, was, regs.ec.memory, data[..], address0, start, pos + i)
    {
      TransferByte(regs, direction, DATA_REGISTER0 + i, data, start + pos + i);
    }
  }

  /** The register protocol is a plain copy of `Moved(address0, size)` consecutive bytes between
      EC memory at `address0` and `data` at `start`; nothing else changes on either side. */
  method ECTransfer(regs: Registers, direction: Direction, address0: nat, data: array<byte>, start: nat, size: nat)
    requires address0 < 0x1_0000 && size < 0x1_0000
    requires address0 + Moved(address0, size) <= |regs.ec.memory|
    requires start + Moved(address0, size) <= data.Length
    modifies regs, regs.ec`memory, data
    ensures Copied(direction, old(regs.ec.memory), old(data[..]), regs.ec.memory, data[..], address0, start,
                   Moved(address0, size))
  {
    ghost var from, was := regs.ec.memory, data[..];
    var address, pos := address0, 0;
    if address % 4 > 0 {
      pos := TransferHead(regs, direction, address, data, start, from, was);
      address := Wrap16(address - address % 4 + 4);
    }
    assert pos == HeadLength(address0) && address == Wrap16(address0 + pos);

    if size - pos >= 4 {
      pos, address := TransferDwords(regs, direction, address, data, start, size, pos, from, was, address0);
    }
    assert address == Wrap16(address0 + pos) && (address0 + pos) % 4 == 0;

    ghost var done := pos;
    if size - pos > 0 {
      TransferTail(regs, direction, address, data, start, size, pos, from, was, address0);
      done := size;
    }
    assert done == Moved(address0, size);
  }

  /** The Microchip exchange is `Exchange`: same code, same payload, same effect on the EC; the
      caller's buffer changes only where payload is stored. */
  method SendCommand(regs: Registers, command: nat, version: nat, outdata: seq<byte>, indata: array<byte>, insize: nat)
    returns (res: int)
    requires insize <= MAX_PAYLOAD && insize <= indata.Length
    modifies regs, regs.ec, indata
    ensures var o := old(Exchange(regs.ec.behaviour, regs.ec.State(), command, version, outdata, insize));
            && res == o.result.rv
            && regs.ec.State() == o.state
            && indata[..] == Splice(old(indata[..]), 0, o.result.payload)
  {
    var ec := regs.ec;
    hide Accept;
    hide RequestFrame;
    hide WaitForReady;
    hide Splice;
    hide AfterCommand;
    hide Delivered;
    var u, r := new byte[PACKET_SIZE], new byte[PACKET_SIZE];

    if |outdata| + HEADER > PACKET_SIZE {
      return -RES_REQUEST_TRUNCATED;
    }
    FillRequest(u, command, version, outdata);

    ghost var entry := ec.State();
    var timeout := ECWaitForReady(ec, EXCHANGE_TIMEOUT);
    if timeout != 0 {
      return -RES_TIMEOUT;
    }

    SendPacket(regs, u, |outdata| + HEADER);

    DeliveredIs(entry, ec.State(), RequestFrame(command, version, outdata));
    ec.WritePort(ADDR_HOST_CMD, COMMAND_PROTOCOL_3);

    timeout := ECWaitForReady(ec, EXCHANGE_TIMEOUT);
    if timeout != 0 {
      return -RES_TIMEOUT;
    }

    var i := ec.ReadPort(ADDR_HOST_DATA);
    if i != 0 {
      return -EECRESULT - i;
    }

    res := ReceivePacket(regs, r, indata, insize);
  }

  /** Moves the frame in `u` to the start of EC memory. */
  method SendPacket(regs: Registers, u: array<byte>, size: nat)
    requires size <= u.Length == PACKET_SIZE
    modifies regs, regs.ec`memory, u
    ensures regs.ec.memory == Splice(old(regs.ec.memory), 0, old(u[..size]))
  {
    ghost var from, was := regs.ec.memory, u[..];
    ECTransfer(regs, Write, 0, u, 0, size);
    CopiedAll(Write, from, was, regs.ec.memory, u[..], 0, 0, size);
  }

  /** Fetches and judges a response. */
  method ReceivePacket(regs: Registers, r: array<byte>, indata: array<byte>, insize: nat) returns (res: int)
    requires r.Length == PACKET_SIZE && r != indata
    requires insize <= MAX_PAYLOAD && insize <= indata.Length
    modifies regs, regs.ec`memory, r, indata
    ensures regs.ec.memory == old(regs.ec.memory)
    ensures var a := Accept(regs.ec.memory[..PACKET_SIZE], insize);
            res == a.rv && indata[..] == Splice(old(indata[..]), 0, a.payload)
  {
    ECTransfer(regs, Read, 0, r, 0, HEADER);
    ghost var w: Window := regs.ec.memory[..PACKET_SIZE];
    assert r[..HEADER] == w[..HEADER];
    hide Checksum;

    if r[0] != RESPONSE_VERSION {
      return -RES_INVALID_HEADER_VERSION;
    }
    if FromLe16(r[6], r[7]) != 0 {
      return -RES_INVALID_HEADER;
    }
    var length := FromLe16(r[4], r[5]);
    if length > insize {
      return -RES_RESPONSE_TOO_BIG;
    }
    if length > 0 {
      ECTransfer(regs, Read, HEADER, r, HEADER, length);
      assert r[..HEADER + length] == w[..HEADER + length];
      var csum := ECChecksumBuffer(r, HEADER + length);
      if csum != 0 {
        return -RES_INVALID_CHECKSUM;
      }
      CopyInto(indata, 0, r[HEADER..HEADER + length]);
    }
    res := length;
  }

  /** How much of the caller's buffer a read may write: the last transfer decides. */
  function BufferNeeded(memory: Memory, offset: nat, length: nat): nat {
    var count := ReadCount(memory, offset, length);
    if count <= 0 then 0
    else if length > 0 then Moved(MEMMAP_BASE + offset, length)
    else StringTouched(offset, count)
  }

  /** Reads mapped memory. The count and the first `count` bytes are those of `ReadCount`; up to
      three more bytes of the buffer are overwritten, with the memory that follows. */
  method ReadMemory(regs: Registers, offset: nat, buffer: array<byte>, length: nat) returns (cnt: int)
    requires BufferNeeded(regs.ec.memory, offset, length) <= buffer.Length
    modifies regs, regs.ec`memory, buffer
    ensures regs.ec.memory == old(regs.ec.memory)
    ensures cnt == ReadCount(regs.ec.memory, offset, length)
    ensures BufferNeeded(regs.ec.memory, offset, length) <= Max(cnt, 0) + 3
    ensures Fetched(regs.ec.memory, offset, old(buffer[..]), buffer[..], BufferNeeded(regs.ec.memory, offset, length))
  {
    ghost var memory, was := regs.ec.memory, buffer[..];
    if offset + length > MEMMAP_SIZE {
      return -1;
    }
    if length > 0 {
      ECTransfer(regs, Read, MEMMAP_BASE + offset, buffer, 0, length);
      return length;
    }
    cnt := ReadString(regs, offset, buffer);
  }

  /** Reads byte by byte until a NUL has been stored. */
  method ReadString(regs: Registers, offset: nat, buffer: array<byte>) returns (cnt: nat)
    requires offset <= MEMMAP_SIZE
    requires BufferNeeded(regs.ec.memory, offset, 0) <= buffer.Length
    modifies regs, regs.ec`memory, buffer
    ensures regs.ec.memory == old(regs.ec.memory)
    ensures cnt == StringLength(regs.ec.memory, offset)
    ensures Fetched(regs.ec.memory, offset, old(buffer[..]), buffer[..], BufferNeeded(regs.ec.memory, offset, 0))
  {
    hide Moved;
    ghost var memory, was := regs.ec.memory, buffer[..];
    cnt := 0;
    var off := offset;
    while off < MEMMAP_SIZE
      invariant cnt == off - offset && offset <= off <= MEMMAP_SIZE
      invariant regs.ec.memory == memory
      invariant StringLength(memory, offset) == cnt + StringLength(memory, off)
      invariant Fetched(memory, offset, was, buffer[..], StringTouched(offset, cnt))
    {
      StringFits(memory, offset, off);
      if cnt > 0 {
        HeadsOverlap(MEMMAP_BASE + off - 1, 1);
      }
      FetchOne(regs, offset, buffer, cnt, StringTouched(offset, cnt), memory, was);
      cnt := cnt + 1;
      if buffer[cnt - 1] == 0 {
        return;
      }
      off := off + 1;
    }
  }

  /** How far the first `count` one-byte transfers of a string reach. */
  function StringTouched(offset: nat, count: nat): nat {
    if count == 0 then 0 else count - 1 + Moved(MEMMAP_BASE + offset + count - 1, 1)
  }

  /** The transfer of string byte `k`, with the bytes before it and some after it fetched. */
  method FetchOne(regs: Registers, offset: nat, buffer: array<byte>, k: nat, ghost touched: nat,
                  ghost memory: Memory, ghost was: seq<byte>)
    requires regs.ec.memory == memory && offset + k < MEMMAP_SIZE
    requires k <= touched <= k + Moved(MEMMAP_BASE + offset + k, 1) <= buffer.Length
    requires Fetched(memory, offset, was, buffer[..], touched)
    modifies regs, regs.ec`memory, buffer
    ensures regs.ec.memory == memory
    ensures Fetched(memory, offset, was, buffer[..], k + Moved(MEMMAP_BASE + offset + k, 1))
  {
    ECTransfer(regs, Read, MEMMAP_BASE + offset + k, buffer, k, 1);
  }

  /** A transfer in the middle of a string stays inside what the whole string needs. */
  lemma StringFits(memory: Memory, offset: nat, off: nat)
    requires offset <= off < MEMMAP_SIZE
    requires StringLength(memory, offset) == off - offset + StringLength(memory, off)
    ensures off - offset + Moved(MEMMAP_BASE + off, 1) <= BufferNeeded(memory, offset, 0)
  {
    hide Moved;
    var n := StringLength(memory, off);
    if n > 1 {
      HeadsOverlap(MEMMAP_BASE + off, n - 1);
    }
  }

  /** Later transfers reach at least as far as earlier ones. */
  lemma HeadsOverlap(a: nat, d: nat)
    ensures a + Moved(a, 1) <= a + d + Moved(a + d, 1)
  {
    if d < 4 && HeadLength(a) > d {
      assert HeadLength(a + d) == HeadLength(a) - d;
    }
  }
}
