/** Reading, writing and erasing flash in packet-sized pieces. */
module Flash {
  import opened Bytes
  import opened EcDevice
  import Packets

  /** Room for parameters and for a response next to an 8-byte packet header. */
  const MAX_REQUEST := Packets.MAX_PAYLOAD
  const MAX_RESPONSE := Packets.MAX_PAYLOAD
  const WRITE_HEADER := 8

  // ---------------------------------------------------------------- the runs

  /** Reading `size` more bytes, with `buf` as the last packet left it and `got` received. */
  function ReadLoop(ec: Ec, m: Machine, offset: nat, size: nat, buf: seq<byte>, got: seq<byte>)
    : (r: (int, seq<byte>, Machine))
    requires offset + size <= |m.s.flash| && |buf| == MAX_RESPONSE
    ensures |r.2.s.flash| == |m.s.flash|
    ensures r.0 <= 0 && (r.0 == 0 ==> |r.1| == |got| + size)
    decreases size
  {
    if size == 0 then (0, got, m)
    else
      var n := Min(size, MAX_RESPONSE);
      var (reply, m') := Send(ec, m, FlashRead(offset, n));
      if reply.rv < 0 then (reply.rv, got, m')
      else
        var buf' := Splice(buf, 0, reply.data);
        ReadLoop(ec, m', offset + n, size - n, buf', got + buf'[..n])
  }

  lemma ReadStep(ec: Ec, m: Machine, offset: nat, size: nat, buf: seq<byte>, got: seq<byte>)
    requires 0 < size && offset + size <= |m.s.flash| && |buf| == MAX_RESPONSE
    ensures var n := Min(size, MAX_RESPONSE);
            && 0 < n <= size && n <= MAX_RESPONSE
            && Answerable(m.s, FlashRead(offset, n))
            && var (reply, m') := Send(ec, m, FlashRead(offset, n));
               ReadLoop(ec, m, offset, size, buf, got) ==
               if reply.rv < 0 then (reply.rv, got, m')
               else
                 var buf' := Splice(buf, 0, reply.data);
                 ReadLoop(ec, m', offset + n, size - n, buf', got + buf'[..n])
  {
  }

  lemma ReadDone(ec: Ec, m: Machine, offset: nat, buf: seq<byte>, got: seq<byte>)
    requires offset <= |m.s.flash| && |buf| == MAX_RESPONSE
    ensures ReadLoop(ec, m, offset, 0, buf, got) == (0, got, m)
  {
  }

  function ReadRun(ec: Ec, m: Machine, offset: nat, size: nat): (r: (int, seq<byte>, Machine))
    requires offset + size <= |m.s.flash|
    ensures |r.2.s.flash| == |m.s.flash|
    ensures r.0 <= 0 && (r.0 == 0 ==> |r.1| == size)
  {
    ReadLoop(ec, m, offset, size, Zeros(MAX_RESPONSE), [])
  }

  function Zeros(n: nat): (s: seq<byte>)
    ensures |s| == n
  {
    seq(n, _ => 0)
  }

  /** The largest multiple of the ideal size that fits a request. */
  function Step(ideal: nat): nat
    requires ideal > 0
  {
    MAX_REQUEST / ideal * ideal
  }

  function WriteLoop(ec: Ec, m: Machine, offset: nat, data: seq<byte>, step: nat): (r: (int, Machine))
    requires offset + |data| <= |m.s.flash| && step > 0
    ensures |r.1.s.flash| == |m.s.flash|
    ensures r.0 <= 0
    decreases |data|
  {
    if data == [] then (0, m)
    else
      var n := Min(|data|, step);
      var (reply, m') := Send(ec, m, FlashWrite(offset, data[..n]));
      if reply.rv < 0 then (reply.rv, m') else WriteLoop(ec, m', offset + n, data[n..], step)
  }

  lemma WriteStep(ec: Ec, m: Machine, offset: nat, data: seq<byte>, step: nat)
    requires offset + |data| <= |m.s.flash| && step > 0 && data != []
    ensures var n := Min(|data|, step);
            && Answerable(m.s, FlashWrite(offset, data[..n]))
            && var (reply, m') := Send(ec, m, FlashWrite(offset, data[..n]));
               WriteLoop(ec, m, offset, data, step) ==
               if reply.rv < 0 then (reply.rv, m') else WriteLoop(ec, m', offset + n, data[n..], step)
  {
  }

  lemma WriteDone(ec: Ec, m: Machine, offset: nat, step: nat)
    requires offset <= |m.s.flash| && step > 0
    ensures WriteLoop(ec, m, offset, [], step) == (0, m)
  {
  }

  function WriteRun(ec: Ec, m: Machine, offset: nat, data: seq<byte>): (r: (int, Machine))
    requires offset + |data| <= |m.s.flash|
    ensures |r.1.s.flash| == |m.s.flash|
    ensures r.0 <= 0
  {
    var (reply, m') := Send(ec, m, FlashInfo);
    if reply.rv < 0 then (reply.rv, m')
    else
      StepIsPositive(reply.number);
      WriteLoop(ec, m', offset, data, Step(reply.number))
  }

  /** Sends the same command up to `tries` times, `pause` microseconds apart, until one is
      answered without an error. */
  function PollLoop(ec: Ec, m: Machine, q: Request, pause: nat, tries: nat, rv: int): (r: (int, Machine))
    requires Answerable(m.s, q)
    ensures |r.1.s.flash| == |m.s.flash|
    decreases tries
  {
    if rv >= 0 || tries == 0 then (rv, m)
    else
      var (reply, m') := Send(ec, Stalled(m, pause), q);
      PollLoop(ec, m', q, pause, tries - 1, reply.rv)
  }

  const ASYNC_TRIES := 4
  const ASYNC_PAUSE := 500000
  const HELLO_TRIES := 20
  const HELLO_PAUSE := 100000

  function EraseAsyncRun(ec: Ec, m: Machine, offset: nat, size: nat): (r: (int, Machine))
    requires offset + size <= |m.s.flash|
    ensures |r.1.s.flash| == |m.s.flash|
  {
    var (reply, m') := Send(ec, m, FlashEraseV1(FLASH_ERASE_SECTOR_ASYNC, offset, size));
    if reply.rv < 0 then (reply.rv, m')
    else PollLoop(ec, m', FlashEraseV1(FLASH_ERASE_GET_RESULT, offset, size), ASYNC_PAUSE, ASYNC_TRIES, -1)
  }

  function EraseRun(ec: Ec, m: Machine, offset: nat, size: nat): (r: (int, Machine))
    requires offset + size <= |m.s.flash|
    ensures |r.1.s.flash| == |m.s.flash|
  {
    var (versions, m1) := Send(ec, m, GetCmdVersions(EC_CMD_FLASH_ERASE));
    if versions.rv >= 0 && BitSet(versions.number, 1) then EraseAsyncRun(ec, m1, offset, size)
    else
      var (reply, m2) := Send(ec, m1, FlashErase(offset, size));
      PollLoop(ec, m2, Hello, HELLO_PAUSE, HELLO_TRIES, reply.rv)
  }

  // ---------------------------------------------------------------- the operations

  method FlashReadBytes(dev: Device, offset: nat, size: nat, buffer: array<byte>, start: nat) returns (rv: int)
    requires dev.Valid() && offset + size <= dev.flash.Length
    requires start + size <= buffer.Length && buffer != dev.flash
    modifies dev, dev.flash, buffer
    ensures dev.Valid()
    ensures var (code, got, m) := ReadRun(dev.ec, old(dev.M()), offset, size);
            && rv == code && dev.M() == m
            && (rv == 0 ==> buffer[..] == Splice(old(buffer[..]), start, got))
  {
    hide Send;
    hide ReadLoop;
    hide Splice;
    ghost var r := ReadRun(dev.ec, dev.M(), offset, size);
    var buf := new byte[MAX_RESPONSE](_ => 0);
    assert buf[..] == Zeros(MAX_RESPONSE);
    ghost var got: seq<byte> := [];
    assert buffer[..] == Splice(buffer[..], start, got);
    var i := 0;
    while i < size
      invariant 0 <= i <= size && |got| == i
      invariant dev.Valid() && buffer[..] == Splice(old(buffer[..]), start, got)
      invariant ReadLoop(dev.ec, dev.M(), offset + i, size - i, buf[..], got) == r
    {
      ReadStep(dev.ec, dev.M(), offset + i, size - i, buf[..], got);
      var n := Min(size - i, MAX_RESPONSE);
      rv := ReadPacket(dev, offset + i, n, buf, buffer, start + i);
      if rv < 0 {
        return;
      }
      SpliceMore(old(buffer[..]), start, got, buf[..n]);
      got := got + buf[..n];
      i := i + n;
    }
    ReadDone(dev.ec, dev.M(), offset + i, buf[..], got);
    return 0;
  }

  /** One packet: into `buf`, and from there to its place in `buffer`. */
  method ReadPacket(dev: Device, offset: nat, n: nat, buf: array<byte>, buffer: array<byte>, at: nat) returns (rv: int)
    requires dev.Valid() && offset + n <= dev.flash.Length && n <= buf.Length && at + n <= buffer.Length
    requires buf != buffer && buf != dev.flash && buffer != dev.flash
    modifies dev, dev.flash, buf, buffer
    ensures dev.Valid()
    ensures var (reply, m) := Send(dev.ec, old(dev.M()), FlashRead(offset, n));
            && rv == reply.rv && dev.M() == m
            && buf[..] == (if rv < 0 then old(buf[..]) else Splice(old(buf[..]), 0, reply.data))
            && buffer[..] == (if rv < 0 then old(buffer[..]) else Splice(old(buffer[..]), at, buf[..n]))
  {
    hide Send;
    var reply := dev.SendCommand(FlashRead(offset, n));
    rv := reply.rv;
    if rv < 0 {
      return;
    }
    CopyInto(buf, 0, reply.data);
    CopyInto(buffer, at, buf[..n]);
  }

  method FlashWriteBytes(dev: Device, offset: nat, size: nat, buffer: array<byte>, start: nat) returns (rv: int)
    requires dev.Valid() && offset + size <= dev.flash.Length
    requires start + size <= buffer.Length && buffer != dev.flash
    modifies dev, dev.flash
    ensures dev.Valid()
    ensures (rv, dev.M()) == WriteRun(dev.ec, old(dev.M()), offset, buffer[start..start + size])
  {
    hide Send;
    hide WriteLoop;
    ghost var data := buffer[start..start + size];
    ghost var r := WriteRun(dev.ec, dev.M(), offset, data);
    var info := dev.SendCommand(FlashInfo);
    if info.rv < 0 {
      return info.rv;
    }
    StepIsPositive(info.number);
    var step := Step(info.number);
    var commandBuffer := new byte[MAX_REQUEST](_ => 0);
    var i := 0;
    assert data[0..] == data;
    while i < size
      invariant 0 <= i <= size
      invariant dev.Valid() && buffer[start..start + size] == data
      invariant WriteLoop(dev.ec, dev.M(), offset + i, data[i..], step) == r
    {
      WriteStep(dev.ec, dev.M(), offset + i, data[i..], step);
      var n := Min(size - i, step);
      WrittenSlices(data, i, n);
      assert buffer[start + i..start + i + n] == data[i..][..n];
      var reply := WritePacket(dev, offset + i, buffer[start + i..start + i + n], commandBuffer);
      if reply.rv < 0 {
        return reply.rv;
      }
      i := i + n;
    }
    assert data[i..] == [];
    WriteDone(dev.ec, dev.M(), offset + i, step);
    return 0;
  }

  /** One packet, put together behind its header. */
  method WritePacket(dev: Device, offset: nat, data: seq<byte>, commandBuffer: array<byte>) returns (reply: Reply)
    requires dev.Valid() && offset + |data| <= dev.flash.Length
    requires WRITE_HEADER + |data| <= commandBuffer.Length && commandBuffer != dev.flash
    modifies dev, dev.flash, commandBuffer
    ensures dev.Valid()
    ensures (reply, dev.M()) == Send(dev.ec, old(dev.M()), FlashWrite(offset, data))
  {
    hide Send;
    CopyInto(commandBuffer, WRITE_HEADER, data);
    assert commandBuffer[WRITE_HEADER..WRITE_HEADER + |data|] == data;
    reply := dev.SendCommand(FlashWrite(offset, commandBuffer[WRITE_HEADER..WRITE_HEADER + |data|]));
  }

  lemma WrittenSlices(data: seq<byte>, i: nat, n: nat)
    requires i + n <= |data|
    ensures data[i..][..n] == data[i..i + n] && data[i..][n..] == data[i + n..]
  {
  }

  method FlashEraseAsync(dev: Device, offset: nat, size: nat) returns (rv: int)
    requires dev.Valid() && offset + size <= dev.flash.Length
    modifies dev, dev.flash
    ensures dev.Valid()
    ensures (rv, dev.M()) == EraseAsyncRun(dev.ec, old(dev.M()), offset, size)
  {
    hide Send;
    ghost var r := EraseAsyncRun(dev.ec, dev.M(), offset, size);
    var asyncTries := ASYNC_TRIES;
    var reply := dev.SendCommand(FlashEraseV1(FLASH_ERASE_SECTOR_ASYNC, offset, size));
    if reply.rv < 0 {
      return reply.rv;
    }
    rv := -1;
    while rv < 0 && asyncTries > 0
      invariant dev.Valid() && 0 <= asyncTries
      decreases asyncTries
      invariant var poll := FlashEraseV1(FLASH_ERASE_GET_RESULT, offset, size);
                PollLoop(dev.ec, dev.M(), poll, ASYNC_PAUSE, asyncTries, rv) == r
    {
      dev.Stall(ASYNC_PAUSE);
      reply := dev.SendCommand(FlashEraseV1(FLASH_ERASE_GET_RESULT, offset, size));
      rv := reply.rv;
      asyncTries := asyncTries - 1;
    }
  }

  method FlashEraseBytes(dev: Device, offset: nat, size: nat) returns (rv: int)
    requires dev.Valid() && offset + size <= dev.flash.Length
    modifies dev, dev.flash
    ensures dev.Valid()
    ensures (rv, dev.M()) == EraseRun(dev.ec, old(dev.M()), offset, size)
  {
    hide Send;
    ghost var r := EraseRun(dev.ec, dev.M(), offset, size);
    var asyncTries := HELLO_TRIES;
    var versions := dev.SendCommand(GetCmdVersions(EC_CMD_FLASH_ERASE));
    var versionMask := if versions.rv < 0 then 0 else versions.number;
    if BitSet(versionMask, 1) {
      rv := FlashEraseAsync(dev, offset, size);
      return;
    }
    ZeroHasNoBits(1);
    var reply := dev.SendCommand(FlashErase(offset, size));
    rv := reply.rv;
    while rv < 0 && asyncTries > 0
      invariant dev.Valid() && 0 <= asyncTries
      decreases asyncTries
      invariant PollLoop(dev.ec, dev.M(), Hello, HELLO_PAUSE, asyncTries, rv) == r
    {
      dev.Stall(HELLO_PAUSE);
      reply := dev.SendCommand(Hello);
      rv := reply.rv;
      asyncTries := asyncTries - 1;
    }
  }

  // ---------------------------------------------------------------- packet sizes

  lemma StepIsPositive(w: nat)
    requires Fitting(w)
    ensures 0 < Step(w) <= MAX_REQUEST - WRITE_HEADER
  {
    DivideAndMultiply(MAX_REQUEST, w);
  }

  lemma DivideAndMultiply(a: nat, w: nat)
    requires w > 0
    ensures a / w * w == a - a % w
  {
  }
}
