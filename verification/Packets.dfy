/** Protocol version 3 frames: the host's request, the EC's reading of it, and the host's
    judgement of the response. */
module Packets {
  import opened Wrappers
  import opened Bytes
  import opened LpcController

  const HEADER := 8
  const MAX_PAYLOAD := 248 // PACKET_SIZE - HEADER
  const REQUEST_VERSION := 3
  const RESPONSE_VERSION := 3

  const RES_INVALID_COMMAND := 1
  const RES_INVALID_CHECKSUM := 7
  const RES_TIMEOUT := 10
  const RES_INVALID_HEADER := 12
  const RES_REQUEST_TRUNCATED := 13
  const RES_RESPONSE_TOO_BIG := 14
  const RES_INVALID_HEADER_VERSION := 17
  const EECRESULT := 1000

  datatype HostRequest = HostRequest(command: nat, version: nat, data: seq<byte>)

  // ---------------------------------------------------------------- requests

  function RequestHeader(command: nat, version: nat, length: nat, checksum: byte): (h: seq<byte>)
    requires length <= MAX_PAYLOAD
  {
    [REQUEST_VERSION, checksum] + Le16(command % 0x1_0000) + [version % 0x100, 0] + Le16(length)
  }

  /** The frame sent: the checksum byte is minus the sum of all others. */
  function RequestFrame(command: nat, version: nat, data: seq<byte>): (f: seq<byte>)
    requires |data| <= MAX_PAYLOAD
  {
    var sum := Checksum(RequestHeader(command, version, |data|, 0) + data);
    RequestHeader(command, version, |data|, Negated(sum)) + data
  }

  /** How an EC reads its packet area, following the description of the request header. */
  function ParseRequest(w: Window): Option<HostRequest> {
    var length := FromLe16(w[6], w[7]);
    if w[0] != REQUEST_VERSION || w[5] != 0 || length > MAX_PAYLOAD then None
    else if Checksum(w[..HEADER + length]) != 0 then None
    else Some(HostRequest(FromLe16(w[2], w[3]), w[4], w[HEADER..HEADER + length]))
  }

  lemma RequestFrameSumsToZero(command: nat, version: nat, data: seq<byte>)
    requires |data| <= MAX_PAYLOAD
    ensures Checksum(RequestFrame(command, version, data)) == 0
  {
    var bare := RequestHeader(command, version, |data|, 0) + data;
    var sum := Checksum(bare);
    var c := Negated(sum);
    assert RequestFrame(command, version, data) == bare[1 := c];
    TotalUpdate(bare, 1, c);
    assert bare[1] == 0;
  }

  /** Whatever the rest of the packet area holds, the EC recovers the command, its version and
      its payload; the command number keeps 16 bits and the version 8. */
  lemma RequestRoundTrip(area: Window, command: nat, version: nat, data: seq<byte>)
    requires |data| <= MAX_PAYLOAD
    ensures |RequestFrame(command, version, data)| == HEADER + |data|
    ensures ParseRequest(Splice(area, 0, RequestFrame(command, version, data)))
         == Some(HostRequest(command % 0x1_0000, version % 0x100, data))
  {
    var f := RequestFrame(command, version, data);
    var w: Window := Splice(area, 0, f);
    RequestFrameSumsToZero(command, version, data);
    assert w[..HEADER + |data|] == f;
    assert FromLe16(w[6], w[7]) == |data|;
    assert FromLe16(w[2], w[3]) == command % 0x1_0000;
    assert w[HEADER..HEADER + |data|] == data;
  }

  // ---------------------------------------------------------------- responses

  /** What the caller gets: the returned code and the bytes stored at the start of its buffer. */
  datatype Result = Result(rv: int, payload: seq<byte>)

  function ResponseLength(w: Window): nat {
    FromLe16(w[4], w[5])
  }

  function Accept(w: Window, insize: nat): Result
    requires insize <= MAX_PAYLOAD
  {
    var length := ResponseLength(w);
    if w[0] != RESPONSE_VERSION then Result(-RES_INVALID_HEADER_VERSION, [])
    else if FromLe16(w[6], w[7]) != 0 then Result(-RES_INVALID_HEADER, [])
    else if length > insize then Result(-RES_RESPONSE_TOO_BIG, [])
    else if length > 0 && Checksum(w[..HEADER + length]) != 0 then Result(-RES_INVALID_CHECKSUM, [])
    else Result(length, w[HEADER..HEADER + length])
  }

  /** A response that carries data and meets its description. */
  predicate ValidResponse(w: Window, insize: nat)
    requires insize <= MAX_PAYLOAD
  {
    && w[0] == RESPONSE_VERSION
    && w[6] == 0 && w[7] == 0
    && 0 < ResponseLength(w) <= insize
    && Checksum(w[..HEADER + ResponseLength(w)]) == 0
  }

  /** A positive return is given exactly for valid responses, and then delivers the EC's bytes;
      a negative one delivers nothing. */
  lemma AcceptsExactlyValid(w: Window, insize: nat)
    requires insize <= MAX_PAYLOAD
    ensures Accept(w, insize).rv > 0 <==> ValidResponse(w, insize)
    ensures ValidResponse(w, insize) ==>
              Accept(w, insize) == Result(ResponseLength(w), w[HEADER..HEADER + ResponseLength(w)])
    ensures Accept(w, insize).rv <= 0 ==> Accept(w, insize).payload == []
  {
    hide Checksum;
    assert FromLe16(w[6], w[7]) == 0 <==> w[6] == 0 && w[7] == 0;
    hide FromLe16;
  }

  /** Which code a response is refused with, the first test that fails deciding: 17 if it is not of
      version 3, 12 if its reserved bytes are set, 14 if it is longer than the caller's buffer, 7
      if its bytes do not sum to zero. */
  lemma RefusalCodes(w: Window, insize: nat)
    requires insize <= 248
    ensures var rv := Accept(w, insize).rv;
            var length := w[4] as int + 0x100 * w[5] as int;
            && (rv == -17 <==> w[0] != 3)
            && (rv == -12 <==> w[0] == 3 && !(w[6] == 0 && w[7] == 0))
            && (rv == -14 <==> w[0] == 3 && w[6] == 0 && w[7] == 0 && length > insize)
            && (rv == -7 <==> && w[0] == 3 && w[6] == 0 && w[7] == 0
                              && 0 < length <= insize && Total(w[..8 + length]) % 0x100 != 0)
            && (rv < 0 ==> rv in {-17, -12, -14, -7})
            && (rv >= 0 ==> rv == length)
  {
    assert FromLe16(w[6], w[7]) == 0 <==> w[6] == 0 && w[7] == 0;
    hide Total;
  }

  /** Corrupting one byte of a valid response outside its length field is always noticed. */
  lemma CorruptionRefused(w: Window, insize: nat, k: nat, x: byte)
    requires insize <= MAX_PAYLOAD && ValidResponse(w, insize)
    requires k < HEADER + ResponseLength(w) && k != 4 && k != 5 && x != w[k]
    ensures Accept(w[k := x], insize).rv < 0
  {
    var n := HEADER + ResponseLength(w);
    var f := w[..n];
    assert w[k := x][..n] == f[k := x];
    TotalUpdate(f, k, x);
    assert Checksum(f[k := x]) != 0 by {
      CloseMultiples(Total(f), Total(f[k := x]));
    }
    assert ResponseLength(w[k := x]) == ResponseLength(w);
  }

  lemma CloseMultiples(a: nat, b: nat)
    requires a % 0x100 == 0 && a - 0x100 < b < a + 0x100 && a != b
    ensures b % 0x100 != 0
  {
  }

  /** Bytes behind the frame do not matter. */
  lemma TrailingBytesIgnored(w: Window, insize: nat, k: nat, x: byte)
    requires insize <= MAX_PAYLOAD && ValidResponse(w, insize)
    requires HEADER + ResponseLength(w) <= k < PACKET_SIZE
    ensures Accept(w[k := x], insize) == Accept(w, insize)
  {
    var n := HEADER + ResponseLength(w);
    assert w[k := x][..n] == w[..n];
    assert w[k := x][HEADER..n] == w[HEADER..n];
  }

  /** Corrupting the length field of a valid response is noticed exactly when the new length is
      neither zero nor one whose extra or missing bytes balance the change. */
  lemma LengthCorruption(w: Window, insize: nat, k: nat, x: byte)
    requires insize <= MAX_PAYLOAD && ValidResponse(w, insize)
    requires 4 <= k <= 5 && x != w[k]
    ensures var m := ResponseLength(w[k := x]);
            Accept(w[k := x], insize).rv >= 0 <==>
            m <= insize &&
            (m == 0 || (Total(w[..HEADER + m]) - w[k] + x) % 0x100 == 0)
  {
    var m := ResponseLength(w[k := x]);
    if 0 < m <= insize {
      assert w[k := x][..HEADER + m] == w[..HEADER + m][k := x];
      TotalUpdate(w[..HEADER + m], k, x);
    }
  }

  /** An instance on every valid response: with the low byte of its length lost, it is always
      accepted, as an empty response. */
  lemma LostLengthAccepted(w: Window, insize: nat)
    requires insize <= MAX_PAYLOAD && ValidResponse(w, insize)
    ensures w[4] != 0 && Accept(w[4 := 0], insize) == Result(0, [])
  {
    assert w[5] == 0;
    LengthCorruption(w, insize, 4, 0);
  }

  /** An empty response is accepted whatever its checksum says. */
  lemma EmptyResponseUnchecked(w: Window, insize: nat, x: byte)
    requires insize <= MAX_PAYLOAD
    requires w[0] == RESPONSE_VERSION && w[6] == 0 && w[7] == 0 && ResponseLength(w) == 0
    ensures Accept(w[1 := x], insize) == Result(0, [])
  {
  }

  // ---------------------------------------------------------------- the exchange

  /** The whole frame of an honest EC: header, sum and payload. */
  function ResponseFrame(result: nat, data: seq<byte>): (f: seq<byte>)
    requires result < 0x1_0000 && |data| <= MAX_PAYLOAD
  {
    var bare := [RESPONSE_VERSION, 0] + Le16(result) + Le16(|data|) + [0, 0] + data;
    bare[1 := Negated(Checksum(bare))]
  }

  /** A response built as the header describes is received as it was sent. */
  lemma ResponseRoundTrip(area: Window, result: nat, data: seq<byte>, insize: nat)
    requires result < 0x1_0000 && |data| <= insize <= MAX_PAYLOAD
    ensures |ResponseFrame(result, data)| == HEADER + |data|
    ensures Accept(Splice(area, 0, ResponseFrame(result, data)), insize) == Result(|data|, data)
  {
    ResponseFrameSumsToZero(result, data);
    ResponseFrameFields(result, data);
    hide Checksum;
    hide ResponseFrame;
    var f := ResponseFrame(result, data);
    var w: Window := Splice(area, 0, f);
    assert w[..HEADER + |data|] == f;
    assert w[HEADER..HEADER + |data|] == f[HEADER..];
  }

  lemma ResponseFrameFields(result: nat, data: seq<byte>)
    requires result < 0x1_0000 && |data| <= MAX_PAYLOAD
    ensures var f := ResponseFrame(result, data);
            && |f| == HEADER + |data| && f[HEADER..] == data
            && f[0] == RESPONSE_VERSION && f[4] == |data| && f[5] == f[6] == f[7] == 0
  {
    assert Le16(|data|) == [|data|, 0];
  }

  lemma ResponseFrameSumsToZero(result: nat, data: seq<byte>)
    requires result < 0x1_0000 && |data| <= MAX_PAYLOAD
    ensures Checksum(ResponseFrame(result, data)) == 0
  {
    var bare := [RESPONSE_VERSION, 0] + Le16(result) + Le16(|data|) + [0, 0] + data;
    TotalUpdate(bare, 1, Negated(Checksum(bare)));
  }
}
