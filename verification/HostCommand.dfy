/** One command exchange, independent of the way bytes reach the EC's memory. */
module HostCommand {
  import opened Wrappers
  import opened Bytes
  import opened LpcController
  import opened Backoff
  import opened Packets

  const EXCHANGE_TIMEOUT := 1000000

  datatype Outcome = Outcome(result: Result, state: EcState)

  function Refused(code: int, s: EcState): Outcome {
    Outcome(Result(-code, []), s)
  }

  /** The state in which the EC is started, once the bus is free. */
  function Delivered(s: EcState, w: Wait, frame: seq<byte>): EcState
    requires |frame| <= PACKET_SIZE
  {
    s.(elapsed := w.elapsed, memory := Splice(s.memory, 0, frame))
  }

  lemma DeliveredIs(s: EcState, s': EcState, frame: seq<byte>)
    requires |frame| <= PACKET_SIZE && s' == s.(elapsed := s'.elapsed, memory := Splice(s.memory, 0, frame))
    ensures forall w: Wait :: w.elapsed == s'.elapsed ==> Delivered(s, w, frame) == s'
  {
  }

  function Exchange(b: Behaviour, s: EcState, command: nat, version: nat, outdata: seq<byte>, insize: nat): (o: Outcome)
    requires insize <= MAX_PAYLOAD
    ensures |o.result.payload| <= insize
  {
    if |outdata| + HEADER > PACKET_SIZE then Refused(RES_REQUEST_TRUNCATED, s)
    else
      var w1 := WaitForReady(b, s.started, s.elapsed, EXCHANGE_TIMEOUT);
      if !w1.ready then Refused(RES_TIMEOUT, s.(elapsed := w1.elapsed))
      else
        var frame := RequestFrame(command, version, outdata);
        assert |frame| == HEADER + |outdata|;
        Conclude(b, AfterCommand(b, Delivered(s, w1, frame)), insize)
  }

  /** From the moment the EC was started. */
  function Conclude(b: Behaviour, s: EcState, insize: nat): (o: Outcome)
    requires insize <= MAX_PAYLOAD
    ensures |o.result.payload| <= insize
  {
    var w := WaitForReady(b, s.started, s.elapsed, EXCHANGE_TIMEOUT);
    var s' := s.(elapsed := w.elapsed);
    if !w.ready then Refused(RES_TIMEOUT, s')
    else if s.result != 0 then Refused(EECRESULT + s.result, s')
    else Outcome(Accept(PacketArea(s'), insize), s')
  }

  method ECChecksumBuffer(data: array<byte>, size: nat) returns (sum: byte)
    requires size <= data.Length
    ensures sum == Checksum(data[..size])
  {
    sum := 0;
    for i := 0 to size
      invariant sum == Checksum(data[..i])
    {
      assert data[..i + 1][..i] == data[..i];
      sum := (sum + data[i]) % 0x100;
    }
  }

  /** Fills in the request packet in place. */
  method FillRequest(u: array<byte>, command: nat, version: nat, outdata: seq<byte>)
    requires u.Length == PACKET_SIZE && |outdata| <= MAX_PAYLOAD
    modifies u
    ensures |RequestFrame(command, version, outdata)| == HEADER + |outdata|
    ensures u[..HEADER + |outdata|] == RequestFrame(command, version, outdata)
  {
    hide Checksum;
    hide Negated;
    var length := HEADER + |outdata|;
    u[0], u[1] := REQUEST_VERSION, 0;
    u[2], u[3] := Le16(command % 0x1_0000)[0], Le16(command % 0x1_0000)[1];
    u[4], u[5] := version % 0x100, 0;
    u[6], u[7] := Le16(|outdata|)[0], Le16(|outdata|)[1];
    forall k | 0 <= k < |outdata| {
      u[HEADER + k] := outdata[k];
    }
    ghost var bare := RequestHeader(command, version, |outdata|, 0) + outdata;
    assert u[..length] == bare;
    var csum := ECChecksumBuffer(u, length);
    u[1] := Negated(csum);
    assert u[..length] == bare[1 := Negated(csum)];
  }

  /** No exchange keeps the caller waiting for more than two seconds of stalls, and it starts
      the EC at most once. */
  lemma ExchangeIsBounded(b: Behaviour, s: EcState, command: nat, version: nat, outdata: seq<byte>, insize: nat)
    requires insize <= MAX_PAYLOAD
    ensures var s' := Exchange(b, s, command, version, outdata, insize).state;
            && s.elapsed <= s'.elapsed <= s.elapsed + 2000000
            && s.started <= s'.started <= s.started + 1
            && s'.memory[PACKET_SIZE..] == s.memory[PACKET_SIZE..]
  {
    if |outdata| <= MAX_PAYLOAD {
      WaitBounds(b, s.started, s.elapsed, EXCHANGE_TIMEOUT);
      var w1 := WaitForReady(b, s.started, s.elapsed, EXCHANGE_TIMEOUT);
      var d := Delivered(s, w1, RequestFrame(command, version, outdata));
      var a := AfterCommand(b, d);
      WaitBounds(b, a.started, a.elapsed, EXCHANGE_TIMEOUT);
      assert d.memory[PACKET_SIZE..] == s.memory[PACKET_SIZE..];
      assert a.memory[PACKET_SIZE..] == d.memory[PACKET_SIZE..];
    }
  }

  /** The packet area the EC is started on. */
  function RequestArea(s: EcState, command: nat, version: nat, outdata: seq<byte>): Window
    requires |outdata| <= MAX_PAYLOAD
  {
    Splice(PacketArea(s), 0, RequestFrame(command, version, outdata))
  }

  /** The EC is started on the caller's frame. */
  lemma DeliveredArea(s: EcState, w: Wait, command: nat, version: nat, outdata: seq<byte>)
    requires |outdata| <= MAX_PAYLOAD
    ensures PacketArea(Delivered(s, w, RequestFrame(command, version, outdata)))
         == RequestArea(s, command, version, outdata)
  {
  }

  lemma AnsweredArea(b: Behaviour, s: EcState)
    ensures PacketArea(AfterCommand(b, s)) == b.answer(s.started, PacketArea(s)).window
  {
  }

  /** Whenever the EC is started at all, it reads back exactly the caller's request, and the
      packet area it leaves is the answer to that request. */
  lemma EcReceivesTheRequest(b: Behaviour, s: EcState, command: nat, version: nat, outdata: seq<byte>, insize: nat)
    requires insize <= MAX_PAYLOAD
    requires Exchange(b, s, command, version, outdata, insize).state.started != s.started
    ensures |outdata| <= MAX_PAYLOAD
    ensures var w := RequestArea(s, command, version, outdata);
            && ParseRequest(w) == Some(HostRequest(command % 0x1_0000, version % 0x100, outdata))
            && PacketArea(Exchange(b, s, command, version, outdata, insize).state) == b.answer(s.started, w).window
  {
    hide ParseRequest;
    RequestRoundTrip(PacketArea(s), command, version, outdata);
    var w1 := WaitForReady(b, s.started, s.elapsed, EXCHANGE_TIMEOUT);
    DeliveredArea(s, w1, command, version, outdata);
    AnsweredArea(b, Delivered(s, w1, RequestFrame(command, version, outdata)));
  }

  /** A non-negative return is only ever given for a request the EC has answered with result 0;
      a positive one delivers that many bytes of a frame whose bytes sum to zero; a negative
      one delivers nothing. */
  lemma SuccessMeansAnswered(b: Behaviour, s: EcState, command: nat, version: nat, outdata: seq<byte>, insize: nat)
    requires insize <= MAX_PAYLOAD
    ensures var o := Exchange(b, s, command, version, outdata, insize);
            && (o.result.rv < 0 ==> o.result.payload == [])
            && (o.result.rv >= 0 ==>
                  && |outdata| <= MAX_PAYLOAD
                  && o.state.started == s.started + 1
                  && var a := b.answer(s.started, RequestArea(s, command, version, outdata));
                     && a.result == 0
                     && o.result.rv == ResponseLength(a.window) <= insize
                     && o.result.payload == a.window[HEADER..HEADER + o.result.rv]
                     && (o.result.rv > 0 ==> Checksum(a.window[..HEADER + o.result.rv]) == 0))
  {
    hide WaitFrom;
    hide RequestFrame;
    hide RequestArea;
    hide Splice;
    if |outdata| <= MAX_PAYLOAD {
      var w1 := WaitForReady(b, s.started, s.elapsed, EXCHANGE_TIMEOUT);
      RequestRoundTrip(PacketArea(s), command, version, outdata);
      var d := Delivered(s, w1, RequestFrame(command, version, outdata));
      DeliveredArea(s, w1, command, version, outdata);
      AnsweredArea(b, d);
    }
  }

  /** Negative returns name their cause: only an oversized request is called truncated, only a
      wait that ran out a timeout, and codes below -1000 are exactly the EC's own. */
  lemma ReturnCodes(b: Behaviour, s: EcState, command: nat, version: nat, outdata: seq<byte>, insize: nat)
    requires insize <= MAX_PAYLOAD
    ensures var o := Exchange(b, s, command, version, outdata, insize);
            && (o.result.rv == -13 <==> |outdata| > 248)
            && (o.result.rv == -10 ==> o.state.elapsed >= s.elapsed + 990005)
            && (o.result.rv < -1000 <==>
                  o.state.started == s.started + 1 && o.result.rv != -10 && o.state.result != 0)
            && (o.result.rv < -1000 ==> o.result.rv == -1000 - o.state.result)
  {
    hide WaitFrom;
    hide RequestFrame;
    hide Splice;
    if |outdata| <= MAX_PAYLOAD {
      WaitBounds(b, s.started, s.elapsed, EXCHANGE_TIMEOUT);
      RequestRoundTrip(PacketArea(s), command, version, outdata);
      var w1 := WaitForReady(b, s.started, s.elapsed, EXCHANGE_TIMEOUT);
      var a := AfterCommand(b, Delivered(s, w1, RequestFrame(command, version, outdata)));
      WaitBounds(b, a.started, a.elapsed, EXCHANGE_TIMEOUT);
    }
  }

  /** The EC is started only while bits 1 and 2 of its status are clear, and its result is only
      read while they are: any other outcome is a timeout or a request that was too long. */
  lemma NothingReadWhileBusy(b: Behaviour, s: EcState, command: nat, version: nat, outdata: seq<byte>, insize: nat)
    requires insize <= MAX_PAYLOAD
    ensures var o := Exchange(b, s, command, version, outdata, insize);
            && (o.state.started != s.started ==> StartedWhileIdle(b, s, o.state.elapsed))
            && (o.result.rv != -10 && o.result.rv != -13 ==>
                  o.state.started == s.started + 1 && b.status(s.started + 1, o.state.elapsed) / 2 % 4 == 0)
  {
    hide WaitForReady;
    hide RequestFrame;
    hide Splice;
    hide Accept;
    if |outdata| <= MAX_PAYLOAD {
      WaitBounds(b, s.started, s.elapsed, EXCHANGE_TIMEOUT);
      RequestRoundTrip(PacketArea(s), command, version, outdata);
      var w1 := WaitForReady(b, s.started, s.elapsed, EXCHANGE_TIMEOUT);
      var a := AfterCommand(b, Delivered(s, w1, RequestFrame(command, version, outdata)));
      WaitBounds(b, a.started, a.elapsed, EXCHANGE_TIMEOUT);
    }
  }

  ghost predicate StartedWhileIdle(b: Behaviour, s: EcState, end: nat) {
    exists t :: s.elapsed <= t <= end && b.status(s.started, t) / 2 % 4 == 0
  }

  /** The other direction: a prompt EC that gets the request and answers with a well-formed
      frame is heard, byte for byte. */
  lemma PromptAnswerIsHeard(b: Behaviour, s: EcState, command: nat, version: nat, outdata: seq<byte>, insize: nat,
                            area: Window, data: seq<byte>, t1: nat, t2: nat)
    requires |outdata| <= MAX_PAYLOAD && |data| <= insize <= MAX_PAYLOAD
    requires t1 <= 990005 && IdleFrom(b, s.started, s.elapsed + t1)
    requires t2 <= 990005
    requires IdleFrom(b, s.started + 1, WaitForReady(b, s.started, s.elapsed, EXCHANGE_TIMEOUT).elapsed + t2)
    requires |ResponseFrame(0, data)| <= PACKET_SIZE
    requires b.answer(s.started, RequestArea(s, command, version, outdata))
          == Answer(0, Splice(area, 0, ResponseFrame(0, data)))
    ensures Exchange(b, s, command, version, outdata, insize).result == Result(|data|, data)
  {
    PromptlyReady(b, s.started, s.elapsed, EXCHANGE_TIMEOUT, t1);
    var w1 := WaitForReady(b, s.started, s.elapsed, EXCHANGE_TIMEOUT);
    var d := Delivered(s, w1, RequestFrame(command, version, outdata));
    assert PacketArea(d) == RequestArea(s, command, version, outdata);
    var a := AfterCommand(b, d);
    PromptlyReady(b, a.started, a.elapsed, EXCHANGE_TIMEOUT, t2);
    ResponseRoundTrip(area, 0, data, insize);
    assert PacketArea(a) == Splice(area, 0, ResponseFrame(0, data));
  }
}
