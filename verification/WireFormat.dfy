/** The requests of the reflash engine, byte for byte. */
module WireFormat {
  import opened Bytes
  import opened Packets
  import opened EcDevice
  import opened HostParams
  import opened FmapFacts

  lemma ShortIsLittle(n: nat)
    requires n < 0x1_0000
    ensures Le16(n) == Little(n, 2)
  {
    assert Little(n, 2) == [n % 0x100] + Little(n / 0x100, 1);
    assert Little(n / 0x100, 1) == [n / 0x100 % 0x100];
  }

  lemma LittleSplits(n: nat)
    ensures Little(n, 4) == Little(n % 0x1_0000, 2) + Little(n / 0x1_0000, 2)
  {
    var low, high := n % 0x1_0000, n / 0x1_0000;
    assert n == high * 0x1_0000 + low;
    var a := n / 0x100;
    assert a == high * 0x100 + low / 0x100;
    assert Little(n, 4) == [n % 0x100] + Little(a, 3);
    assert Little(a, 3) == [a % 0x100] + Little(a / 0x100, 2);
    assert a / 0x100 == high;
    assert Little(low, 2) == [low % 0x100] + Little(low / 0x100, 1);
    assert Little(low / 0x100, 1) == [low / 0x100 % 0x100];
  }

  lemma WordIsLittle(n: nat)
    requires n < 0x1_0000_0000
    ensures Le32(n) == Little(n, 4)
  {
    hide Little;
    hide Le16;
    LittleSplits(n);
    ShortIsLittle(n % 0x1_0000);
    ShortIsLittle(n / 0x1_0000);
  }

  /** What a request's frame is, apart from its checksum: 3, the command, its version, a zero, the
      length of the parameters, and these. */
  function Wire(checksum: byte, command: nat, version: byte, params: seq<byte>): seq<byte> {
    [3, checksum] + Little(command, 2) + [version, 0] + Little(|params|, 2) + params
  }

  lemma FrameIsWire(command: nat, version: byte, params: seq<byte>)
    requires command < 0x1_0000 && |params| <= 248
    ensures |RequestFrame(command, version, params)| == 8 + |params|
    ensures var f := RequestFrame(command, version, params);
            f == Wire(f[1], command, version, params) && Total(f) % 0x100 == 0
  {
    hide Checksum;
    hide Negated;
    hide Little;
    hide Le16;
    hide Total;
    var f := RequestFrame(command, version, params);
    var sum := Negated(Checksum(RequestHeader(command, version, |params|, 0) + params));
    assert f == RequestHeader(command, version, |params|, sum) + params;
    assert command % 0x1_0000 == command && version % 0x100 == version;
    ShortIsLittle(command);
    ShortIsLittle(|params|);
    assert f == Wire(sum, command, version, params);
    assert f[1] == sum;
    RequestFrameSumsToZero(command, version, params);
    ChecksumMeans(f);
  }

  lemma ChecksumMeans(s: seq<byte>)
    ensures Checksum(s) == Total(s) % 0x100
  {
  }

  /** Every request as it is sent. Erasing has version 0 and 1; the flash's information and its
      writing are asked for in version 1; the others have version 0. */
  lemma EveryRequest(q: Request)
    requires Sendable(q)
    ensures |Frame(q)| >= 8 && Total(Frame(q)) % 0x100 == 0
    ensures var f := Frame(q);
            match q
            case Hello => f == Wire(f[1], 0x01, 0, Little(0, 4))
            case GetVersion => f == Wire(f[1], 0x02, 0, [])
            case GetCmdVersions(command) => f == Wire(f[1], 0x08, 0, [command])
            case FlashInfo => f == Wire(f[1], 0x10, 1, [])
            case FlashRead(offset, size) => f == Wire(f[1], 0x11, 0, Little(offset, 4) + Little(size, 4))
            case FlashWrite(offset, data) => f == Wire(f[1], 0x12, 1, Little(offset, 4) + Little(|data|, 4) + data)
            case FlashErase(offset, size) => f == Wire(f[1], 0x13, 0, Little(offset, 4) + Little(size, 4))
            case FlashEraseV1(sub, offset, size) =>
              f == Wire(f[1], 0x13, 1, [sub, 0, 0, 0] + Little(offset, 4) + Little(size, 4))
            case FlashNotified(flags) => f == Wire(f[1], 0x3E01, 0, [flags])
  {
    hide Le32;
    hide Little;
    hide Wire;
    hide Total;
    hide RequestFrame;
    FrameIsWire(CommandOf(q), VersionOf(q), Params(q));
    match q
    case Hello => WordIsLittle(0);
    case FlashRead(offset, size) => WordIsLittle(offset); WordIsLittle(size);
    case FlashWrite(offset, data) => WordIsLittle(offset); WordIsLittle(|data|);
    case FlashErase(offset, size) => WordIsLittle(offset); WordIsLittle(size);
    case FlashEraseV1(_, offset, size) => WordIsLittle(offset); WordIsLittle(size);
    case _ =>
  }

  function Frame(q: Request): seq<byte>
    requires Sendable(q)
  {
    RequestFrame(CommandOf(q), VersionOf(q), Params(q))
  }
}
