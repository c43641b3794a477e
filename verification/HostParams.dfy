/** The flash requests as bytes: how their parameters are laid out in a request packet. */
module HostParams {
  import opened Wrappers
  import opened Bytes
  import opened LpcController
  import opened Packets
  import opened HostCommand
  import opened EcDevice
  import opened Flash
  import opened FlashFacts
  import opened FlashPackets

  /** Requests whose numbers fit their fields. */
  predicate Encodable(q: Request) {
    match q
    case GetCmdVersions(command) => command < 0x100
    case FlashRead(offset, size) => offset < 0x1_0000_0000 && size < 0x1_0000_0000
    case FlashWrite(offset, data) => offset < 0x1_0000_0000 && |data| < 0x1_0000_0000
    case FlashErase(offset, size) => offset < 0x1_0000_0000 && size < 0x1_0000_0000
    case FlashEraseV1(subcommand, offset, size) =>
      subcommand < 0x100 && offset < 0x1_0000_0000 && size < 0x1_0000_0000
    case _ => true
  }

  function CommandOf(q: Request): nat {
    match q
    case Hello => 0x0001
    case GetVersion => 0x0002
    case GetCmdVersions(_) => 0x0008
    case FlashInfo => 0x0010
    case FlashRead(_, _) => 0x0011
    case FlashWrite(_, _) => 0x0012
    case FlashErase(_, _) => 0x0013
    case FlashEraseV1(_, _, _) => 0x0013
    case FlashNotified(_) => 0x3E01
  }

  function VersionOf(q: Request): nat {
    if q.FlashInfo? || q.FlashWrite? || q.FlashEraseV1? then 1 else 0
  }

  function Params(q: Request): seq<byte>
    requires Encodable(q)
  {
    match q
    case Hello => Le32(0)
    case GetCmdVersions(command) => [command]
    case FlashRead(offset, size) => Le32(offset) + Le32(size)
    case FlashWrite(offset, data) => Le32(offset) + Le32(|data|) + data
    case FlashErase(offset, size) => Le32(offset) + Le32(size)
    case FlashEraseV1(subcommand, offset, size) => [subcommand, 0, 0, 0] + Le32(offset) + Le32(size)
    case FlashNotified(flags) => [flags]
    case _ => []
  }

  /** How a handler reads its parameters. */
  function Decode(command: nat, version: nat, p: seq<byte>): Option<Request> {
    if command == 0x0001 then Some(Hello)
    else if command == 0x0002 then Some(GetVersion)
    else if command == 0x0008 && |p| >= 1 then Some(GetCmdVersions(p[0]))
    else if command == 0x0010 then Some(FlashInfo)
    else if command == 0x0011 && |p| >= 8 then Some(FlashRead(FromLe32(p, 0), FromLe32(p, 4)))
    else if command == 0x0012 && |p| >= 8 && |p| >= 8 + FromLe32(p, 4) then
      Some(FlashWrite(FromLe32(p, 0), p[8..8 + FromLe32(p, 4)]))
    else if command == 0x0013 && version == 0 && |p| >= 8 then
      Some(FlashErase(FromLe32(p, 0), FromLe32(p, 4)))
    else if command == 0x0013 && version == 1 && |p| >= 12 then
      Some(FlashEraseV1(p[0], FromLe32(p, 4), FromLe32(p, 8)))
    else if command == 0x3E01 && |p| >= 1 then Some(FlashNotified(p[0]))
    else None
  }

  /** Two 32-bit values behind a prefix. */
  lemma TwoWords(p: seq<byte>, at: nat, x: nat, y: nat)
    requires x < 0x1_0000_0000 && y < 0x1_0000_0000 && at + 8 <= |p|
    requires p[at..at + 8] == Le32(x) + Le32(y)
    ensures FromLe32(p, at) == x && FromLe32(p, at + 4) == y
  {
    hide Le32;
    hide FromLe32;
    Le32RoundTrip(x);
    Le32RoundTrip(y);
    FromLe32At(p, at);
    FromLe32At(p, at + 4);
    assert p[at..at + 4] == p[at..at + 8][..4] == Le32(x);
    assert p[at + 4..at + 8] == p[at..at + 8][4..] == Le32(y);
  }

  lemma ParamsRoundTrip(q: Request)
    requires Encodable(q)
    ensures Decode(CommandOf(q), VersionOf(q), Params(q)) == Some(q)
  {
    hide Le32;
    hide FromLe32;
    var p := Params(q);
    match q
    case FlashRead(offset, size) =>
      assert p[0..8] == Le32(offset) + Le32(size);
      TwoWords(p, 0, offset, size);
    case FlashWrite(offset, data) =>
      assert p[0..8] == Le32(offset) + Le32(|data|);
      TwoWords(p, 0, offset, |data|);
      assert p[8..8 + |data|] == data;
    case FlashErase(offset, size) =>
      assert p[0..8] == Le32(offset) + Le32(size);
      TwoWords(p, 0, offset, size);
    case FlashEraseV1(subcommand, offset, size) =>
      assert p[4..12] == Le32(offset) + Le32(size);
      TwoWords(p, 4, offset, size);
    case _ =>
  }

  /** From the flash engine to the EC: whenever an exchange for an encodable request starts the
      EC, the EC parses and decodes exactly that request. */
  lemma RequestReachesEc(b: Behaviour, s: EcState, q: Request, insize: nat)
    requires Encodable(q) && insize <= MAX_PAYLOAD
    requires Exchange(b, s, CommandOf(q), VersionOf(q), Params(q), insize).state.started != s.started
    ensures |Params(q)| <= MAX_PAYLOAD
    ensures var parsed := ParseRequest(RequestArea(s, CommandOf(q), VersionOf(q), Params(q)));
            && parsed.Some?
            && Decode(parsed.value.command, parsed.value.version, parsed.value.data) == Some(q)
  {
    hide Exchange;
    hide ParseRequest;
    hide Decode;
    hide Params;
    EcReceivesTheRequest(b, s, CommandOf(q), VersionOf(q), Params(q), insize);
    ParamsRoundTrip(q);
  }

  /** How much room the caller has for the response. */
  function ReplySize(q: Request): nat {
    match q
    case Hello => 4
    case GetVersion => 100
    case GetCmdVersions(_) => 4
    case FlashInfo => 24
    case FlashRead(_, size) => size
    case _ => 0
  }

  /** A request whose parameters and response fit a packet. */
  predicate Sendable(q: Request) {
    Encodable(q) && |Params(q)| <= MAX_PAYLOAD && ReplySize(q) <= MAX_PAYLOAD
  }

  /** No command of a write is turned away by the size test: the size query and all packets fit,
      for every EC, every write size it may report, every offset and all data. */
  lemma WritePacketsAreSent(b: Behaviour, s: EcState, ec: Ec, m: Machine, offset: nat, data: seq<byte>)
    requires offset + |data| <= |m.s.flash| <= 0x1_0000_0000
    ensures var m' := WriteRun(ec, m, offset, data).1;
            forall k :: |m.log| <= k < |m'.log| ==>
              && Sendable(m'.log[k].request)
              && var q := m'.log[k].request;
                 Exchange(b, s, CommandOf(q), VersionOf(q), Params(q), ReplySize(q)).result.rv != -RES_REQUEST_TRUNCATED
  {
    hide WriteRun;
    hide Exchange;
    hide Send;
    var m' := WriteRun(ec, m, offset, data).1;
    WritePackets(ec, m, offset, data, 1);
    WriteRunConfined(ec, m, offset, data);
    forall k | |m.log| <= k < |m'.log|
      ensures Sendable(m'.log[k].request)
      ensures var q := m'.log[k].request;
              Exchange(b, s, CommandOf(q), VersionOf(q), Params(q), ReplySize(q)).result.rv != -RES_REQUEST_TRUNCATED
    {
      var q := m'.log[k].request;
      if k > |m.log| {
        assert EntryConfined(ec, m'.log[k], m.s.flash, offset, offset + |data|);
        assert PacketFits(q, 1);
        assert |Params(q)| == 8 + |q.data|;
      }
      ReturnCodes(b, s, CommandOf(q), VersionOf(q), Params(q), ReplySize(q));
    }
  }
}
