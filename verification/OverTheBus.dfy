/** Flashing over the LPC bus: an EC that decodes its packet area and answers as the simulated EC
    does is, for the host, the EC of the flash results. */
module OverTheBus {
  import opened Wrappers
  import opened Bytes
  import opened LpcController
  import opened Backoff
  import opened Packets
  import opened HostCommand
  import opened HostParams
  import opened EcDevice
  import opened Flash
  import opened FlashFacts
  import opened Regions
  import opened Reflash
  import opened PhaseFacts
  import opened EndToEnd

  // ---------------------------------------------------------------- one command

  /** The bytes an EC answers with. */
  predicate Encodes(q: Request, reply: Reply, data: seq<byte>) {
    && |data| == reply.rv
    && (q.FlashRead? ==> data == reply.data)
    && (q.FlashInfo? ==> |data| == 24 && FromLe32(data, 16) == reply.number)
    && (q.GetCmdVersions? ==> |data| == 4 && FromLe32(data, 0) == reply.number)
  }

  /** The answer says what the reply says: a frame with the bytes, or a result code. */
  ghost predicate Says(a: Answer, q: Request, reply: Reply) {
    if reply.rv < 0 then a.result == -reply.rv - EECRESULT
    else a.result == 0 && exists area: Window, data :: SaysIn(a, q, reply, area, data)
  }

  predicate SaysIn(a: Answer, q: Request, reply: Reply, area: Window, data: seq<byte>) {
    && |data| <= MAX_PAYLOAD && Encodes(q, reply, data)
    && |ResponseFrame(0, data)| <= PACKET_SIZE && a.window == Splice(area, 0, ResponseFrame(0, data))
  }

  /** The request the EC finds in its packet area. */
  function Found(w: Window): Option<Request> {
    var parsed := ParseRequest(w);
    if parsed.None? then None else Decode(parsed.value.command, parsed.value.version, parsed.value.data)
  }

  /** As its n-th command, in state `s`, the EC obeys whatever request it finds. */
  ghost predicate Serves(b: Behaviour, n: nat, s: Snapshot, p: Profile) {
    forall w: Window, q :: Found(w) == Some(q) && Sendable(q) && Answerable(s, q) ==>
      Says(b.answer(n, w), q, Obeyed(s, q, p).0)
  }

  /** The bytes of an obedient answer. */
  function ResponseBytes(q: Request, reply: Reply): seq<byte> {
    if q.FlashRead? then reply.data
    else if q.FlashInfo? && reply.number < 0x1_0000_0000 then Zeros(16) + Le32(reply.number) + Zeros(4)
    else if q.GetCmdVersions? && reply.number < 0x1_0000_0000 then Le32(reply.number)
    else []
  }

  /** An EC that decodes its packet area, obeys, and frames its answer. */
  function Respond(s: Snapshot, p: Profile, w: Window): Answer {
    var q := Found(w);
    if q.None? || !Sendable(q.value) || !Answerable(s, q.value) then Answer(RES_INVALID_COMMAND, w)
    else
      var reply := Obeyed(s, q.value, p).0;
      var data := ResponseBytes(q.value, reply);
      if reply.rv < 0 || |data| > MAX_PAYLOAD then Answer(RES_INVALID_COMMAND, w)
      else
        assert |ResponseFrame(0, data)| == HEADER + |data|;
        Answer(0, Splice(w, 0, ResponseFrame(0, data)))
  }

  /** There are such ECs: whatever its state at each command, one that responds like this serves
      it, if what it reports about itself fits its fields. */
  lemma RespondingServes(b: Behaviour, n: nat, s: Snapshot, p: Profile)
    requires p.overBus && (p.versions.Some? ==> p.versions.value < 0x1_0000_0000)
    requires forall w: Window :: b.answer(n, w) == Respond(s, p, w)
    ensures Serves(b, n, s, p)
  {
    hide ParseRequest;
    hide Decode;
    hide ResponseFrame;
    forall w: Window, q | Found(w) == Some(q) && Sendable(q) && Answerable(s, q)
      ensures Says(b.answer(n, w), q, Obeyed(s, q, p).0)
    {
      var reply := Obeyed(s, q, p).0;
      if reply.rv >= 0 {
        ResponseEncodes(s, q, p);
        assert |ResponseFrame(0, ResponseBytes(q, reply))| == HEADER + |ResponseBytes(q, reply)| by {
          ResponseRoundTrip(w, 0, ResponseBytes(q, reply), MAX_PAYLOAD);
        }
        assert SaysIn(b.answer(n, w), q, reply, w, ResponseBytes(q, reply));
      }
    }
  }

  lemma ResponseEncodes(s: Snapshot, q: Request, p: Profile)
    requires Answerable(s, q) && p.overBus && ReplySize(q) <= MAX_PAYLOAD
    requires (p.versions.Some? ==> p.versions.value < 0x1_0000_0000) && Obeyed(s, q, p).0.rv >= 0
    ensures var reply := Obeyed(s, q, p).0;
            Encodes(q, reply, ResponseBytes(q, reply)) && |ResponseBytes(q, reply)| <= MAX_PAYLOAD
  {
    hide Le32;
    hide FromLe32;
    var reply := Obeyed(s, q, p).0;
    var data := ResponseBytes(q, reply);
    if q.FlashInfo? {
      Le32RoundTrip(reply.number);
      FromLe32At(data, 16);
      assert data[16..20] == Le32(reply.number);
    } else if q.GetCmdVersions? {
      Le32RoundTrip(reply.number);
    }
  }

  const LATENCY := 990005

  /** It is idle soon enough, both before the command and after it. */
  ghost predicate Prompt(b: Behaviour, s: EcState) {
    && IdleFrom(b, s.started, s.elapsed + LATENCY)
    && IdleFrom(b, s.started + 1, WaitForReady(b, s.started, s.elapsed, EXCHANGE_TIMEOUT).elapsed + LATENCY)
  }

  /** The exchange for a request. */
  function Exchanged(b: Behaviour, s: EcState, q: Request): Outcome
    requires Sendable(q)
  {
    Exchange(b, s, CommandOf(q), VersionOf(q), Params(q), ReplySize(q))
  }

  /** What the flash engine takes from it. */
  function Heard(q: Request, r: Result): Reply {
    Reply(r.rv,
          if q.FlashRead? then r.payload else [],
          if q.FlashInfo? && |r.payload| == 24 then FromLe32(r.payload, 16)
          else if q.GetCmdVersions? && |r.payload| == 4 then FromLe32(r.payload, 0)
          else 0)
  }

  /** A command the EC refuses is heard as its result code. */
  lemma RefusalIsHeard(b: Behaviour, s: EcState, q: Request, code: byte)
    requires Sendable(q) && Prompt(b, s) && code != 0
    requires b.answer(s.started, RequestArea(s, CommandOf(q), VersionOf(q), Params(q))).result == code
    ensures Exchanged(b, s, q).result == Result(-EECRESULT - code, [])
  {
    hide RequestFrame;
    hide Params;
    RequestRoundTrip(PacketArea(s), CommandOf(q), VersionOf(q), Params(q));
    PromptlyReady(b, s.started, s.elapsed, EXCHANGE_TIMEOUT, LATENCY);
    var w := WaitForReady(b, s.started, s.elapsed, EXCHANGE_TIMEOUT);
    DeliveredArea(s, w, CommandOf(q), VersionOf(q), Params(q));
    var a := AfterCommand(b, Delivered(s, w, RequestFrame(CommandOf(q), VersionOf(q), Params(q))));
    PromptlyReady(b, a.started, a.elapsed, EXCHANGE_TIMEOUT, LATENCY);
  }

  lemma RequestIsFound(s: EcState, q: Request)
    requires Sendable(q)
    ensures Found(RequestArea(s, CommandOf(q), VersionOf(q), Params(q))) == Some(q)
  {
    hide ParseRequest;
    hide Decode;
    hide RequestFrame;
    RequestRoundTrip(PacketArea(s), CommandOf(q), VersionOf(q), Params(q));
    ParamsRoundTrip(q);
    assert CommandOf(q) % 0x1_0000 == CommandOf(q) && VersionOf(q) % 0x100 == VersionOf(q);
  }

  /** What an obeyed command answers fits the caller's buffer. */
  lemma ObeyedFits(s: Snapshot, q: Request, p: Profile)
    requires Answerable(s, q) && p.overBus
    ensures var reply := Obeyed(s, q, p).0;
            && reply.rv <= ReplySize(q)
            && (reply.rv < 0 ==> reply == Reply(-EECRESULT - RES_INVALID_COMMAND, [], 0))
            && (!q.FlashRead? ==> reply.data == [])
            && (!q.FlashInfo? && !q.GetCmdVersions? ==> reply.number == 0)
  {
  }

  /** Sending a command over the bus to an EC that serves it is what `Send` says of an EC that
      obeys: the host hears the same reply. */
  lemma BusObeys(b: Behaviour, s: EcState, q: Request, before: Snapshot, p: Profile)
    requires Sendable(q) && Answerable(before, q) && p.overBus
    requires Prompt(b, s) && Serves(b, s.started, before, p)
    ensures Heard(q, Exchanged(b, s, q).result) == Obeyed(before, q, p).0
  {
    hide Params;
    hide Obeyed;
    hide Exchange;
    hide ParseRequest;
    hide Decode;
    var w := RequestArea(s, CommandOf(q), VersionOf(q), Params(q));
    var reply := Obeyed(before, q, p).0;
    RequestIsFound(s, q);
    ObeyedFits(before, q, p);
    hide Found;
    assert Says(b.answer(s.started, w), q, reply);
    if reply.rv < 0 {
      RefusalIsHeard(b, s, q, RES_INVALID_COMMAND);
    } else {
      var area: Window, data :| SaysIn(b.answer(s.started, w), q, reply, area, data);
      PromptAnswerIsHeard(b, s, CommandOf(q), VersionOf(q), Params(q), ReplySize(q), area, data, LATENCY, LATENCY);
    }
  }

  // ---------------------------------------------------------------- the history of a run

  /** The EC's state before the k-th command. */
  function Before(m: Machine, m': Machine, k: nat): Snapshot
    requires |m.log| <= k <= |m'.log|
  {
    if k == |m.log| then m.s else m'.log[k - 1].after
  }

  /** A command that was obeyed in this state. */
  predicate Linked(e: Entry, s: Snapshot, p: Profile) {
    Sendable(e.request) && Answerable(s, e.request) && (e.reply, e.after) == Obeyed(s, e.request, p)
  }

  /** From `m` to `m'` every command was obeyed in the state the one before it left. */
  ghost predicate Chained(ec: Ec, m: Machine, m': Machine) {
    && Extends(m, m')
    && m'.s == Before(m, m', |m'.log|)
    && forall k :: |m.log| <= k < |m'.log| ==> Linked(m'.log[k], Before(m, m', k), ec.profile)
  }

  lemma ChainedThen(ec: Ec, m: Machine, m1: Machine, m2: Machine)
    requires Chained(ec, m, m1) && Chained(ec, m1, m2)
    ensures Chained(ec, m, m2)
  {
    hide Linked;
    ExtendsTransitive(m, m1, m2);
    forall k | |m.log| <= k < |m2.log|
      ensures Linked(m2.log[k], Before(m, m2, k), ec.profile)
    {
      if k < |m1.log| {
        assert Linked(m1.log[k], Before(m, m1, k), ec.profile);
      } else {
        assert Linked(m2.log[k], Before(m1, m2, k), ec.profile);
      }
    }
  }

  lemma SendChained(ec: Ec, m: Machine, q: Request)
    requires Obedient(ec) && Answerable(m.s, q) && Sendable(q)
    ensures Chained(ec, m, Send(ec, m, q).1)
  {
    SendObeyed(ec, m, q);
    hide Obeyed;
    hide Sendable;
  }

  lemma NothingChained(ec: Ec, m: Machine)
    ensures Chained(ec, m, m)
  {
  }

  lemma {:induction false} ReadLoopChained(ec: Ec, m: Machine, offset: nat, size: nat, buf: seq<byte>, got: seq<byte>)
    requires Obedient(ec) && offset + size <= |m.s.flash| < 0x1_0000_0000 && |buf| == MAX_RESPONSE
    ensures Chained(ec, m, ReadLoop(ec, m, offset, size, buf, got).2)
    decreases size
  {
    hide Send;
    hide ReadLoop;
    hide Splice;
    hide Chained;
    if size > 0 {
      ReadStep(ec, m, offset, size, buf, got);
      var n := Min(size, MAX_RESPONSE);
      assert Sendable(FlashRead(offset, n));
      var (reply, m1) := Send(ec, m, FlashRead(offset, n));
      SendChained(ec, m, FlashRead(offset, n));
      if reply.rv >= 0 {
        var buf' := Splice(buf, 0, reply.data);
        ReadLoopChained(ec, m1, offset + n, size - n, buf', got + buf'[..n]);
        ChainedThen(ec, m, m1, ReadLoop(ec, m1, offset + n, size - n, buf', got + buf'[..n]).2);
      }
    } else {
      ReadDone(ec, m, offset, buf, got);
      NothingChained(ec, m);
    }
  }

  lemma WriteSendable(offset: nat, data: seq<byte>)
    requires offset < 0x1_0000_0000 && |data| <= MAX_REQUEST - WRITE_HEADER
    ensures Sendable(FlashWrite(offset, data))
  {
  }

  lemma {:induction false} WriteLoopChained(ec: Ec, m: Machine, offset: nat, data: seq<byte>, step: nat)
    requires Obedient(ec) && offset + |data| <= |m.s.flash| < 0x1_0000_0000
    requires 0 < step <= MAX_REQUEST - WRITE_HEADER
    ensures Chained(ec, m, WriteLoop(ec, m, offset, data, step).1)
    decreases |data|
  {
    hide Send;
    hide WriteLoop;
    hide Chained;
    if data == [] {
      WriteDone(ec, m, offset, step);
      NothingChained(ec, m);
    } else {
      WriteStep(ec, m, offset, data, step);
      var n := Min(|data|, step);
      WriteSendable(offset, data[..n]);
      hide Sendable;
      var (reply, m1) := Send(ec, m, FlashWrite(offset, data[..n]));
      SendChained(ec, m, FlashWrite(offset, data[..n]));
      if reply.rv >= 0 {
        WriteLoopChained(ec, m1, offset + n, data[n..], step);
        ChainedThen(ec, m, m1, WriteLoop(ec, m1, offset + n, data[n..], step).1);
      }
    }
  }

  lemma WriteRunChained(ec: Ec, m: Machine, offset: nat, data: seq<byte>)
    requires Obedient(ec) && offset + |data| <= |m.s.flash| < 0x1_0000_0000
    ensures Chained(ec, m, WriteRun(ec, m, offset, data).1)
  {
    hide Send;
    hide WriteLoop;
    var (reply, m1) := Send(ec, m, FlashInfo);
    SendChained(ec, m, FlashInfo);
    if reply.rv >= 0 {
      StepIsPositive(reply.number);
      WriteLoopChained(ec, m1, offset, data, Step(reply.number));
      ChainedThen(ec, m, m1, WriteLoop(ec, m1, offset, data, Step(reply.number)).1);
    }
  }

  lemma StalledChained(ec: Ec, m: Machine, pause: nat, m': Machine)
    requires Chained(ec, Stalled(m, pause), m')
    ensures Chained(ec, m, m')
  {
    hide Linked;
    forall k | |m.log| <= k < |m'.log|
      ensures Linked(m'.log[k], Before(m, m', k), ec.profile)
    {
      assert Before(m, m', k) == Before(Stalled(m, pause), m', k);
    }
  }

  lemma {:induction false} PollLoopChained(ec: Ec, m: Machine, q: Request, pause: nat, tries: nat, rv: int)
    requires Obedient(ec) && Answerable(m.s, q) && Sendable(q)
    ensures Chained(ec, m, PollLoop(ec, m, q, pause, tries, rv).1)
    decreases tries
  {
    hide Send;
    hide Sendable;
    hide Linked;
    if rv < 0 && tries > 0 {
      var (reply, m1) := Send(ec, Stalled(m, pause), q);
      SendChained(ec, Stalled(m, pause), q);
      StalledChained(ec, m, pause, m1);
      hide Chained;
      PollLoopChained(ec, m1, q, pause, tries - 1, reply.rv);
      ChainedThen(ec, m, m1, PollLoop(ec, m1, q, pause, tries - 1, reply.rv).1);
    } else {
      NothingChained(ec, m);
    }
  }

  lemma EraseRunChained(ec: Ec, m: Machine, offset: nat, size: nat)
    requires Obedient(ec) && offset + size <= |m.s.flash| < 0x1_0000_0000
    ensures Chained(ec, m, EraseRun(ec, m, offset, size).1)
  {
    hide Send;
    hide PollLoop;
    hide Chained;
    var (versions, m1) := Send(ec, m, GetCmdVersions(EC_CMD_FLASH_ERASE));
    SendChained(ec, m, GetCmdVersions(EC_CMD_FLASH_ERASE));
    if versions.rv >= 0 && BitSet(versions.number, 1) {
      var start := FlashEraseV1(FLASH_ERASE_SECTOR_ASYNC, offset, size);
      var poll := FlashEraseV1(FLASH_ERASE_GET_RESULT, offset, size);
      var m2 := Send(ec, m1, start).1;
      SendChained(ec, m1, start);
      ChainedThen(ec, m, m1, m2);
      PollLoopChained(ec, m2, poll, ASYNC_PAUSE, ASYNC_TRIES, -1);
      ChainedThen(ec, m, m2, PollLoop(ec, m2, poll, ASYNC_PAUSE, ASYNC_TRIES, -1).1);
    } else {
      var (reply, m2) := Send(ec, m1, FlashErase(offset, size));
      SendChained(ec, m1, FlashErase(offset, size));
      ChainedThen(ec, m, m1, m2);
      PollLoopChained(ec, m2, Hello, HELLO_PAUSE, HELLO_TRIES, reply.rv);
      ChainedThen(ec, m, m2, PollLoop(ec, m2, Hello, HELLO_PAUSE, HELLO_TRIES, reply.rv).1);
    }
  }

  lemma RegionChained(ec: Ec, m: Machine, r: Region, image: seq<byte>)
    requires Obedient(ec) && r.End() <= |image| && r.End() <= |m.s.flash| < 0x1_0000_0000
    ensures Chained(ec, m, RegionRun(ec, m, r, image).1)
  {
    hide EraseRun;
    hide WriteRun;
    hide ReadLoop;
    hide Chained;
    var data := image[r.base..r.End()];
    var (rv1, m1) := EraseRun(ec, m, r.base, r.size);
    EraseRunChained(ec, m, r.base, r.size);
    var (rv2, m2) := WriteRun(ec, m1, r.base, data);
    WriteRunChained(ec, m1, r.base, data);
    ChainedThen(ec, m, m1, m2);
    ReadLoopChained(ec, m2, r.base, r.size, Zeros(MAX_RESPONSE), []);
    ChainedThen(ec, m, m2, ReadRun(ec, m2, r.base, r.size).2);
  }

  lemma {:induction false} PhaseChained(ec: Ec, m: Machine, regions: seq<Region>, mask: nat, image: seq<byte>, rv: int)
    requires Ordered(regions, |image|) && |image| <= |m.s.flash| < 0x1_0000_0000 && MaskWithin(mask, |regions|)
    requires Obedient(ec)
    ensures Chained(ec, m, PhaseRun(ec, m, regions, mask, image, rv).1)
    decreases mask
  {
    if mask > 0 {
      hide RegionRun;
      MaskStep(mask, |regions|);
      var top := LeadingBit(mask);
      var (rv1, m1) := RegionRun(ec, m, regions[top], image);
      RegionChained(ec, m, regions[top], image);
      if rv1 >= 0 {
        var rest := WithoutBit(mask, top);
        PhaseChained(ec, m1, regions, rest, image, rv1);
        ChainedThen(ec, m, m1, PhaseRun(ec, m1, regions, rest, image, rv1).1);
      }
    }
  }

  lemma NotifyChained(ec: Ec, m: Machine, first: byte, second: byte)
    requires Obedient(ec)
    ensures Chained(ec, m, NotifyRun(ec, m, first, second).1)
  {
    hide Send;
    hide Chained;
    var m1 := Send(ec, m, FlashNotified(first)).1;
    SendChained(ec, m, FlashNotified(first));
    SendChained(ec, m1, FlashNotified(second));
    ChainedThen(ec, m, m1, Send(ec, m1, FlashNotified(second)).1);
  }

  lemma UnlockedChained(ec: Ec, m: Machine, plan: Plan)
    requires PlanFits(plan, m) && Obedient(ec) && |m.s.flash| < 0x1_0000_0000
    ensures Chained(ec, m, UnlockedRun(ec, m, plan).1)
  {
    hide PhaseRun;
    hide NotifyRun;
    hide Chained;
    hide Ordered;
    hide MaskWithin;
    if plan.flashMap.requiresUnlock {
      var (rv1, m1) := NotifyRun(ec, m, ACCESS_SPI, FIRMWARE_START);
      NotifyChained(ec, m, ACCESS_SPI, FIRMWARE_START);
      var m2 := PhaseRun(ec, m1, plan.flashMap.regions, plan.mask, plan.image, rv1).1;
      PhaseChained(ec, m1, plan.flashMap.regions, plan.mask, plan.image, rv1);
      ChainedThen(ec, m, m1, m2);
      NotifyChained(ec, m2, ACCESS_SPI_DONE, FIRMWARE_DONE);
      ChainedThen(ec, m, m2, NotifyRun(ec, m2, ACCESS_SPI_DONE, FIRMWARE_DONE).1);
    } else {
      PhaseChained(ec, m, plan.flashMap.regions, plan.mask, plan.image, 0);
    }
  }

  // ---------------------------------------------------------------- the run over the bus

  ghost predicate AllSendable(m: Machine, m': Machine) {
    forall i :: |m.log| <= i < |m'.log| ==> Sendable(m'.log[i].request)
  }

  /** The LPC EC's state before the k-th command, if all commands before it went over the bus. */
  ghost function BusState(b: Behaviour, s: EcState, m: Machine, m': Machine, k: nat): EcState
    requires |m.log| <= k <= |m'.log| && AllSendable(m, m')
    decreases k
  {
    if k == |m.log| then s else Exchanged(b, BusState(b, s, m, m', k - 1), m'.log[k - 1].request).state
  }

  /** At every command of the run the LPC EC is prompt and serves the state the command before
      has left. */
  ghost predicate Attends(b: Behaviour, s: EcState, m: Machine, m': Machine, p: Profile)
    requires |m.log| <= |m'.log| && AllSendable(m, m')
  {
    forall k :: |m.log| <= k < |m'.log| ==>
      Prompt(b, BusState(b, s, m, m', k)) && Serves(b, BusState(b, s, m, m', k).started, Before(m, m', k), p)
  }

  /** Flashing over the bus: with an LPC EC that is prompt and obeys what it decodes, every
      command of the run is heard over the bus with the reply the flash engine was modelled
      with; and with these replies the run succeeds and leaves exactly the expected flash. */
  lemma FlashingOverTheBus(b: Behaviour, s: EcState, ec: Ec, m: Machine, plan: Plan)
    requires PlanFits(plan, m) && Obedient(ec) && ec.profile.overBus && |m.s.flash| < 0x1_0000_0000
    requires |m.s.ro| == |m.s.rw| == VERSION_LENGTH
    ensures var m' := UnlockedRun(ec, m, plan).1;
            && Extends(m, m')
            && AllSendable(m, m')
            && (Attends(b, s, m, m', ec.profile) ==>
                  forall k :: |m.log| <= k < |m'.log| ==>
                    var e := m'.log[k];
                    Heard(e.request, Exchanged(b, BusState(b, s, m, m', k), e.request).result) == e.reply)
    ensures var (status, m') := UnlockedRun(ec, m, plan); status == Success && Reflashed(m, m', plan)
  {
    hide UnlockedRun;
    hide Sendable;
    hide Prompt;
    hide Serves;
    hide Obeyed;
    hide Exchanged;
    hide BusState;
    UnlockedSucceeds(ec, m, plan);
    UnlockedChained(ec, m, plan);
    var m' := UnlockedRun(ec, m, plan).1;
    if Attends(b, s, m, m', ec.profile) {
      forall k | |m.log| <= k < |m'.log|
        ensures var e := m'.log[k];
                Heard(e.request, Exchanged(b, BusState(b, s, m, m', k), e.request).result) == e.reply
      {
        assert Linked(m'.log[k], Before(m, m', k), ec.profile);
        BusObeys(b, BusState(b, s, m, m', k), m'.log[k].request, Before(m, m', k), ec.profile);
      }
    }
  }

  // ---------------------------------------------------------------- an EC with a state of its own

  /** The packet area the EC is started on for the k-th command. */
  ghost function AreaAt(b: Behaviour, s: EcState, m: Machine, m': Machine, k: nat): Window
    requires |m.log| <= k < |m'.log| && AllSendable(m, m')
  {
    var q := m'.log[k].request;
    RequestArea(BusState(b, s, m, m', k), CommandOf(q), VersionOf(q), Params(q))
  }

  /** What obeying the request it finds leaves of the EC's own state. */
  function Next(own: Snapshot, p: Profile, w: Window): Snapshot {
    var q := Found(w);
    if q.None? || !Sendable(q.value) || !Answerable(own, q.value) then own else Obeyed(own, q.value, p).1
  }

  ghost predicate NeverBusy(b: Behaviour) {
    forall n, t :: Idle(b.status(n, t))
  }

  /** The EC answers from a state of its own: `own(n)` before its n-th command. */
  ghost predicate AnswersFrom(b: Behaviour, own: nat -> Snapshot, p: Profile) {
    forall n, w: Window :: b.answer(n, w) == Respond(own(n), p, w)
  }

  /** It changes this state by what it finds in its packet area. */
  ghost predicate Evolves(b: Behaviour, own: nat -> Snapshot, s: EcState, m: Machine, m': Machine, p: Profile)
    requires |m.log| <= |m'.log| && AllSendable(m, m')
  {
    forall k :: |m.log| <= k < |m'.log| ==> EvolvesAt(b, own, s, m, m', p, k)
  }

  ghost predicate EvolvesAt(b: Behaviour, own: nat -> Snapshot, s: EcState, m: Machine, m': Machine, p: Profile, k: nat)
    requires |m.log| <= k < |m'.log| && AllSendable(m, m')
  {
    var n := BusState(b, s, m, m', k).started; own(n + 1) == Next(own(n), p, AreaAt(b, s, m, m', k))
  }

  /** An EC that is never busy, starts with the flash of `m`, and knows only what it decodes. */
  ghost predicate Lives(b: Behaviour, own: nat -> Snapshot, s: EcState, m: Machine, m': Machine, p: Profile)
    requires |m.log| <= |m'.log| && AllSendable(m, m')
  {
    NeverBusy(b) && AnswersFrom(b, own, p) && own(s.started) == m.s && Evolves(b, own, s, m, m', p)
  }

  lemma NextObeys(own: Snapshot, p: Profile, s: EcState, q: Request)
    requires Sendable(q) && Answerable(own, q)
    ensures Next(own, p, RequestArea(s, CommandOf(q), VersionOf(q), Params(q))) == Obeyed(own, q, p).1
  {
    hide RequestArea;
    hide Found;
    RequestIsFound(s, q);
  }

  lemma NeverBusyIsPrompt(b: Behaviour, s: EcState)
    requires NeverBusy(b)
    ensures Prompt(b, s)
  {
    hide Idle;
  }

  lemma AnswersServe(b: Behaviour, own: nat -> Snapshot, p: Profile, n: nat)
    requires AnswersFrom(b, own, p) && Reportable32(p)
    ensures Serves(b, n, own(n), p)
  {
    hide Respond;
    hide Serves;
    RespondingServes(b, n, own(n), p);
  }

  /** One command at such an EC. */
  lemma LivesOn(b: Behaviour, own: nat -> Snapshot, s: EcState, e: Entry, before: Snapshot, p: Profile)
    requires NeverBusy(b) && AnswersFrom(b, own, p) && Reportable32(p)
    requires own(s.started) == before && Linked(e, before, p)
    ensures Sendable(e.request)
    ensures Prompt(b, s) && Serves(b, s.started, before, p)
    ensures Exchanged(b, s, e.request).state.started == s.started + 1
    ensures var q := e.request;
            Next(before, p, RequestArea(s, CommandOf(q), VersionOf(q), Params(q))) == e.after
  {
    hide NeverBusy;
    hide AnswersFrom;
    hide Next;
    hide Obeyed;
    hide Exchanged;
    hide Sendable;
    hide Prompt;
    hide Serves;
    hide RequestArea;
    NeverBusyIsPrompt(b, s);
    AnswersServe(b, own, p, s.started);
    ExchangeStarts(b, s, e.request, before, p);
    NextObeys(before, p, s, e.request);
  }

  lemma ExchangeStarts(b: Behaviour, s: EcState, q: Request, before: Snapshot, p: Profile)
    requires Sendable(q) && Answerable(before, q) && p.overBus
    requires Prompt(b, s) && Serves(b, s.started, before, p)
    ensures Exchanged(b, s, q).state.started == s.started + 1
  {
    hide Exchange;
    hide Prompt;
    hide Serves;
    hide Obeyed;
    hide RequestArea;
    BusObeys(b, s, q, before, p);
    ObeyedFits(before, q, p);
    SuccessMeansAnswered(b, s, CommandOf(q), VersionOf(q), Params(q), ReplySize(q));
    ReturnCodes(b, s, CommandOf(q), VersionOf(q), Params(q), ReplySize(q));
  }

  /** What the EC reports about itself fits its fields. */
  predicate Reportable32(p: Profile) {
    p.overBus && (p.versions.Some? ==> p.versions.value < 0x1_0000_0000)
  }

  /** The EC's own state is the one the flash results speak of, at every command. */
  lemma {:induction false} OwnState(b: Behaviour, own: nat -> Snapshot, s: EcState, ec: Ec, m: Machine, m': Machine,
                                    k: nat)
    requires Chained(ec, m, m') && |m.log| <= k <= |m'.log| && AllSendable(m, m') && Reportable32(ec.profile)
    requires Lives(b, own, s, m, m', ec.profile)
    ensures BusState(b, s, m, m', k).started == s.started + (k - |m.log|)
    ensures own(s.started + (k - |m.log|)) == Before(m, m', k)
    decreases k
  {
    hide NeverBusy;
    hide AnswersFrom;
    hide Next;
    hide Exchanged;
    hide Sendable;
    hide AllSendable;
    hide Prompt;
    hide Serves;
    hide RequestArea;
    hide Linked;
    hide Reportable32;
    if k > |m.log| {
      OwnState(b, own, s, ec, m, m', k - 1);
      assert EvolvesAt(b, own, s, m, m', ec.profile, k - 1);
      LivesOn(b, own, BusState(b, s, m, m', k - 1), m'.log[k - 1], Before(m, m', k - 1), ec.profile);
    }
  }

  lemma LivingAttends(b: Behaviour, own: nat -> Snapshot, s: EcState, ec: Ec, m: Machine, m': Machine)
    requires Chained(ec, m, m') && AllSendable(m, m') && Reportable32(ec.profile)
    requires Lives(b, own, s, m, m', ec.profile)
    ensures Attends(b, s, m, m', ec.profile)
    ensures own(s.started + (|m'.log| - |m.log|)) == m'.s
  {
    hide NeverBusy;
    hide AnswersFrom;
    hide Evolves;
    hide BusState;
    hide AllSendable;
    hide Prompt;
    hide Serves;
    hide Linked;
    hide Before;
    hide Reportable32;
    forall k | |m.log| <= k < |m'.log|
      ensures Prompt(b, BusState(b, s, m, m', k))
      ensures Serves(b, BusState(b, s, m, m', k).started, Before(m, m', k), ec.profile)
    {
      OwnState(b, own, s, ec, m, m', k);
      LivesOn(b, own, BusState(b, s, m, m', k), m'.log[k], Before(m, m', k), ec.profile);
    }
    OwnState(b, own, s, ec, m, m', |m'.log|);
  }

  /** Flashing an EC that lives on the bus: it starts with the flash of `m`, knows only what it
      decodes, and ends with exactly the expected flash; and the host has heard every reply. */
  lemma FlashingALivingEc(b: Behaviour, own: nat -> Snapshot, s: EcState, ec: Ec, m: Machine, plan: Plan)
    requires PlanFits(plan, m) && Obedient(ec) && Reportable32(ec.profile) && |m.s.flash| < 0x1_0000_0000
    requires |m.s.ro| == |m.s.rw| == VERSION_LENGTH
    ensures var (status, m') := UnlockedRun(ec, m, plan);
            && status == Success && Extends(m, m') && AllSendable(m, m')
            && (Lives(b, own, s, m, m', ec.profile) ==>
                  && own(s.started + (|m'.log| - |m.log|)).flash
                     == Expected(m.s.flash, plan.image, plan.flashMap.regions, plan.mask)
                  && forall k :: |m.log| <= k < |m'.log| ==>
                       var e := m'.log[k];
                       Heard(e.request, Exchanged(b, BusState(b, s, m, m', k), e.request).result) == e.reply)
  {
    hide UnlockedRun;
    hide Sendable;
    hide AllSendable;
    hide Exchanged;
    hide BusState;
    hide Expected;
    hide Lives;
    hide Attends;
    hide Chained;
    FlashingOverTheBus(b, s, ec, m, plan);
    UnlockedChained(ec, m, plan);
    var m' := UnlockedRun(ec, m, plan).1;
    if Lives(b, own, s, m, m', ec.profile) {
      LivingAttends(b, own, s, ec, m, m');
    }
  }

  /** There is such an EC for every run. */
  lemma SomeEcLives(s: EcState, ec: Ec, m: Machine, m': Machine)
    requires Chained(ec, m, m') && AllSendable(m, m') && Reportable32(ec.profile)
    ensures exists b, own :: Lives(b, own, s, m, m', ec.profile)
  {
    hide History;
    hide Historian;
    hide NeverBusy;
    hide AnswersFrom;
    hide EvolvesAt;
    hide AllSendable;
    hide Linked;
    hide Reportable32;
    var own, b := History(s, m, m'), Historian(s, m, m', ec.profile);
    HistorianAnswers(s, m, m', ec.profile);
    HistoryIsBefore(s, m, m');
    forall k | |m.log| <= k < |m'.log|
      ensures EvolvesAt(b, own, s, m, m', ec.profile, k)
    {
      HistorianEvolves(s, ec, m, m', k);
    }
    assert own(s.started + (|m.log| - |m.log|)) == Before(m, m', |m.log|) == m.s;
    assert Lives(b, own, s, m, m', ec.profile);
  }

  lemma HistorianEvolves(s: EcState, ec: Ec, m: Machine, m': Machine, k: nat)
    requires Chained(ec, m, m') && AllSendable(m, m') && Reportable32(ec.profile) && |m.log| <= k < |m'.log|
    ensures EvolvesAt(Historian(s, m, m', ec.profile), History(s, m, m'), s, m, m', ec.profile, k)
  {
    hide History;
    hide Historian;
    hide NeverBusy;
    hide AnswersFrom;
    hide BusState;
    hide AllSendable;
    hide Next;
    hide Before;
    hide Linked;
    hide Reportable32;
    hide RequestArea;
    var own, b := History(s, m, m'), Historian(s, m, m', ec.profile);
    HistorianAnswers(s, m, m', ec.profile);
    HistoryIsBefore(s, m, m');
    StartsEachTime(b, own, s, ec, m, m', k);
    LivesOn(b, own, BusState(b, s, m, m', k), m'.log[k], Before(m, m', k), ec.profile);
    BeforeNext(m, m', k);
    assert own(s.started + (k + 1 - |m.log|)) == Before(m, m', k + 1);
  }

  lemma BeforeNext(m: Machine, m': Machine, k: nat)
    requires |m.log| <= k < |m'.log|
    ensures Before(m, m', k + 1) == m'.log[k].after
  {
  }

  /** The states of the run, by the number of the EC's command. */
  function History(s: EcState, m: Machine, m': Machine): nat -> Snapshot
    requires |m.log| <= |m'.log|
  {
    (n: nat) =>
      if s.started <= n <= s.started + (|m'.log| - |m.log|) then Before(m, m', |m.log| + (n - s.started)) else m.s
  }

  function Historian(s: EcState, m: Machine, m': Machine, p: Profile): Behaviour
    requires |m.log| <= |m'.log|
  {
    Behaviour((n: nat, t: nat) => 0, (n: nat, w: Window) => Respond(History(s, m, m')(n), p, w))
  }

  lemma HistorianAnswers(s: EcState, m: Machine, m': Machine, p: Profile)
    requires |m.log| <= |m'.log|
    ensures NeverBusy(Historian(s, m, m', p)) && AnswersFrom(Historian(s, m, m', p), History(s, m, m'), p)
  {
    hide Respond;
    assert Idle(0);
    hide Idle;
  }

  lemma HistoryIsBefore(s: EcState, m: Machine, m': Machine)
    requires |m.log| <= |m'.log|
    ensures forall k :: |m.log| <= k <= |m'.log| ==> History(s, m, m')(s.started + (k - |m.log|)) == Before(m, m', k)
  {
  }

  lemma {:induction false} StartsEachTime(b: Behaviour, own: nat -> Snapshot, s: EcState, ec: Ec, m: Machine,
                                          m': Machine, k: nat)
    requires Chained(ec, m, m') && |m.log| <= k <= |m'.log| && AllSendable(m, m') && Reportable32(ec.profile)
    requires NeverBusy(b) && AnswersFrom(b, own, ec.profile)
    requires forall i :: |m.log| <= i <= |m'.log| ==> own(s.started + (i - |m.log|)) == Before(m, m', i)
    ensures BusState(b, s, m, m', k).started == s.started + (k - |m.log|)
    decreases k
  {
    hide NeverBusy;
    hide AnswersFrom;
    hide Next;
    hide Exchanged;
    hide Sendable;
    hide AllSendable;
    hide Prompt;
    hide Serves;
    hide RequestArea;
    hide Linked;
    hide Before;
    hide Reportable32;
    if k > |m.log| {
      StartsEachTime(b, own, s, ec, m, m', k - 1);
      LivesOn(b, own, BusState(b, s, m, m', k - 1), m'.log[k - 1], Before(m, m', k - 1), ec.profile);
    }
  }
}
