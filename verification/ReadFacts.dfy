/** When the bytes a read returns are the flash contents. */
module ReadFacts {
  import opened Bytes
  import opened EcDevice
  import opened Flash
  import opened FlashFacts

  // ---------------------------------------------------------------- one packet

  /** What the n-th command delivers, if it is a read of this range that succeeds. */
  function Delivered(ec: Ec, n: nat, flash: seq<byte>, offset: nat, size: nat): (d: seq<byte>)
    requires offset + size <= |flash|
    ensures |d| <= size
  {
    match ec.faults(n)
    case ShortRead(count) => flash[offset..offset + Min(count, size)]
    case FalseRead(count, bytes) => Told(offset, Min(count, size), bytes)
    case _ => flash[offset..offset + size]
  }

  lemma ReadReply(ec: Ec, m: Machine, offset: nat, n: nat)
    requires offset + n <= |m.s.flash|
    ensures var (reply, m') := Send(ec, m, FlashRead(offset, n));
            var d := Delivered(ec, |m.log|, m.s.flash, offset, n);
            && m'.s == m.s && m'.log == m.log + [Entry(FlashRead(offset, n), reply, m.s)]
            && (reply.rv >= 0 ==> reply.rv == |d| && reply.data == d)
  {
  }

  /** After a packet the buffer holds the flash contents exactly if the bytes delivered are the
      flash's and the rest of the buffer happened to hold the others already. */
  lemma PacketExact(flash: seq<byte>, offset: nat, n: nat, d: seq<byte>, buf: seq<byte>)
    requires |d| <= n <= |buf| && offset + n <= |flash|
    ensures Splice(buf, 0, d)[..n] == flash[offset..offset + n]
       <==> d == flash[offset..offset + |d|] && flash[offset + |d|..offset + n] == buf[|d|..n]
  {
    var p := Splice(buf, 0, d)[..n];
    assert p[..|d|] == d && p[|d|..] == buf[|d|..n];
    assert p == p[..|d|] + p[|d|..];
    assert flash[offset..offset + n] == flash[offset..offset + |d|] + flash[offset + |d|..offset + n];
  }

  // ---------------------------------------------------------------- all packets

  /** The first packet of a read that starts with the n-th command: the bytes it delivers are the
      flash's, and those it does not deliver are what the packet buffer still holds. */
  predicate PacketMatches(ec: Ec, n: nat, flash: seq<byte>, offset: nat, size: nat, buf: seq<byte>)
    requires offset + size <= |flash| && |buf| == MAX_RESPONSE
  {
    var k := Min(size, MAX_RESPONSE);
    var d := Delivered(ec, n, flash, offset, k);
    d == flash[offset..offset + |d|] && flash[offset + |d|..offset + k] == buf[|d|..k]
  }

  /** So for all packets. */
  predicate PacketsMatch(ec: Ec, n: nat, flash: seq<byte>, offset: nat, size: nat, buf: seq<byte>)
    requires offset + size <= |flash| && |buf| == MAX_RESPONSE
    decreases size
  {
    size == 0 ||
    var k := Min(size, MAX_RESPONSE);
    && PacketMatches(ec, n, flash, offset, size, buf)
    && PacketsMatch(ec, n + 1, flash, offset + k, size - k, Splice(buf, 0, Delivered(ec, n, flash, offset, k)))
  }

  lemma PacketsStep(ec: Ec, n: nat, flash: seq<byte>, offset: nat, size: nat, buf: seq<byte>)
    requires 0 < size && offset + size <= |flash| && |buf| == MAX_RESPONSE
    ensures var k := Min(size, MAX_RESPONSE);
            PacketsMatch(ec, n, flash, offset, size, buf) <==>
            && PacketMatches(ec, n, flash, offset, size, buf)
            && PacketsMatch(ec, n + 1, flash, offset + k, size - k, Splice(buf, 0, Delivered(ec, n, flash, offset, k)))
  {
  }

  /** What was received behind `got` is what the flash holds, exactly if `matches`. */
  predicate Exact(all: seq<byte>, got: seq<byte>, flash: seq<byte>, offset: nat, size: nat, matches: bool)
    requires offset + size <= |flash|
  {
    got <= all && (all == got + flash[offset..offset + size] <==> matches)
  }

  lemma {:induction false} ReadLoopExact(ec: Ec, m: Machine, offset: nat, size: nat, buf: seq<byte>, got: seq<byte>)
    requires offset + size <= |m.s.flash| && |buf| == MAX_RESPONSE
    ensures var (rv, all, _) := ReadLoop(ec, m, offset, size, buf, got);
            var flash := m.s.flash;
            rv == 0 ==> Exact(all, got, flash, offset, size, PacketsMatch(ec, |m.log|, flash, offset, size, buf))
    decreases size
  {
    hide Send;
    hide ReadLoop;
    hide Splice;
    hide PacketsMatch;
    hide PacketMatches;
    hide Exact;
    hide Delivered;
    var flash := m.s.flash;
    if size == 0 {
      ReadDone(ec, m, offset, buf, got);
      NothingExact(ec, |m.log|, flash, offset, buf, got);
    } else {
      ReadStep(ec, m, offset, size, buf, got);
      var n := Min(size, MAX_RESPONSE);
      var (reply, m') := Send(ec, m, FlashRead(offset, n));
      ReadReply(ec, m, offset, n);
      if reply.rv >= 0 {
        var buf' := Splice(buf, 0, reply.data);
        ReadLoopExact(ec, m', offset + n, size - n, buf', got + buf'[..n]);
        PacketsStep(ec, |m.log|, flash, offset, size, buf);
        var (rv, all, _) := ReadLoop(ec, m', offset + n, size - n, buf', got + buf'[..n]);
        if rv == 0 {
          FirstPacket(ec, |m.log|, flash, offset, size, buf);
          var first := PacketMatches(ec, |m.log|, flash, offset, size, buf);
          var rest := PacketsMatch(ec, |m.log| + 1, flash, offset + n, size - n, buf');
          TwoPieces(all, got, buf'[..n], flash, offset, size, first, rest);
        }
      }
    }
  }

  lemma NothingExact(ec: Ec, n: nat, flash: seq<byte>, offset: nat, buf: seq<byte>, got: seq<byte>)
    requires offset <= |flash| && |buf| == MAX_RESPONSE
    ensures Exact(got, got, flash, offset, 0, PacketsMatch(ec, n, flash, offset, 0, buf))
  {
    assert got + flash[offset..offset] == got;
  }

  lemma FirstPacket(ec: Ec, n: nat, flash: seq<byte>, offset: nat, size: nat, buf: seq<byte>)
    requires offset + size <= |flash| && |buf| == MAX_RESPONSE
    ensures var k := Min(size, MAX_RESPONSE);
            PacketMatches(ec, n, flash, offset, size, buf)
            <==> Splice(buf, 0, Delivered(ec, n, flash, offset, k))[..k] == flash[offset..offset + k]
  {
    var k := Min(size, MAX_RESPONSE);
    PacketExact(flash, offset, k, Delivered(ec, n, flash, offset, k), buf);
    hide Splice;
    hide Delivered;
  }

  /** What was received agrees with the flash exactly if its first packet and the rest do. */
  lemma TwoPieces(all: seq<byte>, got: seq<byte>, p: seq<byte>, flash: seq<byte>, offset: nat, size: nat,
                  first: bool, rest: bool)
    requires |p| <= size && offset + size <= |flash|
    requires first <==> p == flash[offset..offset + |p|]
    requires Exact(all, got + p, flash, offset + |p|, size - |p|, rest)
    ensures Exact(all, got, flash, offset, size, first && rest)
  {
    var n := |p|;
    var f, f1, f2 := flash[offset..offset + size], flash[offset..offset + n], flash[offset + n..offset + size];
    assert f == f1 + f2;
    assert all[..|got|] == (got + p)[..|got|] == got;
    assert all[|got|..|got| + n] == (got + p)[|got|..] == p;
    if all == got + f {
      assert all[|got|..|got| + n] == f[..n] == f1;
      assert got + f == got + p + f2;
    } else if p == f1 {
      assert got + p + f2 == got + f;
    }
  }

  /** When a read can be trusted: on every EC, whatever its reads deliver, a read that succeeds
      returns the flash contents exactly if in every packet the bytes delivered are the flash's
      and those left undelivered were in the packet buffer already. */
  lemma ReadExact(ec: Ec, m: Machine, offset: nat, size: nat)
    requires offset + size <= |m.s.flash|
    ensures var (rv, got, m') := ReadRun(ec, m, offset, size);
            && m'.s == m.s
            && (rv == 0 ==>
                  (got == m.s.flash[offset..offset + size]
                   <==> PacketsMatch(ec, |m.log|, m.s.flash, offset, size, Zeros(MAX_RESPONSE))))
  {
    hide ReadLoop;
    hide PacketsMatch;
    ReadLoopExact(ec, m, offset, size, Zeros(MAX_RESPONSE), []);
    ReadLoopConfined(ec, m, offset, size, Zeros(MAX_RESPONSE), [], 0, 0);
    assert [] + m.s.flash[offset..offset + size] == m.s.flash[offset..offset + size];
  }

  // ---------------------------------------------------------------- what the replies say

  lemma TrueReadsThen(m: Machine, m1: Machine, m2: Machine)
    requires Extends(m, m1) && Extends(m1, m2)
    ensures TrueReads(m, m2) <==> TrueReads(m, m1) && TrueReads(m1, m2)
  {
    hide TrueRead;
    ExtendsTransitive(m, m1, m2);
    if TrueReads(m, m2) {
      forall k | |m.log| <= k < |m1.log|
        ensures TrueRead(m1.log[k])
      {
        assert TrueRead(m2.log[k]);
      }
    }
  }

  lemma {:induction false} TrueLoopMatches(ec: Ec, m: Machine, offset: nat, size: nat, buf: seq<byte>, got: seq<byte>)
    requires offset + size <= |m.s.flash| && |buf| == MAX_RESPONSE
    ensures var (rv, _, m') := ReadLoop(ec, m, offset, size, buf, got);
            rv == 0 && TrueReads(m, m') ==> PacketsMatch(ec, |m.log|, m.s.flash, offset, size, buf)
    decreases size
  {
    hide Send;
    hide ReadLoop;
    hide Splice;
    hide Delivered;
    if size > 0 {
      ReadStep(ec, m, offset, size, buf, got);
      var n := Min(size, MAX_RESPONSE);
      var (reply, m1) := Send(ec, m, FlashRead(offset, n));
      ReadReply(ec, m, offset, n);
      if reply.rv >= 0 {
        var buf' := Splice(buf, 0, reply.data);
        TrueLoopMatches(ec, m1, offset + n, size - n, buf', got + buf'[..n]);
        ReadLoopConfined(ec, m1, offset + n, size - n, buf', got + buf'[..n], 0, 0);
        var m2 := ReadLoop(ec, m1, offset + n, size - n, buf', got + buf'[..n]).2;
        TrueReadsThen(m, m1, m2);
        if TrueReads(m, m2) {
          assert TrueRead(m1.log[|m.log|]);
        }
      }
    }
  }

  /** If every read that succeeded delivered all of what the flash holds, the whole read returns
      the flash contents. */
  lemma TrueReadsAreExact(ec: Ec, m: Machine, offset: nat, size: nat)
    requires offset + size <= |m.s.flash|
    ensures var (rv, got, m') := ReadRun(ec, m, offset, size);
            m'.s == m.s && (rv == 0 && TrueReads(m, m') ==> got == m.s.flash[offset..offset + size])
  {
    hide ReadLoop;
    hide PacketsMatch;
    ReadExact(ec, m, offset, size);
    TrueLoopMatches(ec, m, offset, size, Zeros(MAX_RESPONSE), []);
  }

  lemma ConfinedReads(ec: Ec, m: Machine, m': Machine, lo: int, hi: int)
    requires Confined(ec, m, m', lo, hi)
    ensures NoFalseReads(ec) ==> (FullReads(m, m') <==> TrueReads(m, m'))
    ensures NoFalseReads(ec) && NoShortReads(ec) ==> TrueReads(m, m')
  {
    hide FullRead;
    hide TrueRead;
    hide NoFalseReads;
    hide NoShortReads;
    forall k | |m.log| <= k < |m'.log|
      ensures NoFalseReads(ec) ==> (FullRead(m'.log[k]) <==> TrueRead(m'.log[k]))
      ensures NoFalseReads(ec) && NoShortReads(ec) ==> TrueRead(m'.log[k])
    {
      assert EntryConfined(ec, m'.log[k], m.s.flash, lo, hi);
    }
  }

  /** The half a caller can check: on an EC that delivers no false bytes, a read that succeeds
      returns the flash contents if every reply returned the number of bytes asked for. */
  lemma FullReadIsExact(ec: Ec, m: Machine, offset: nat, size: nat)
    requires offset + size <= |m.s.flash| && NoFalseReads(ec)
    ensures var (rv, got, m') := ReadRun(ec, m, offset, size);
            m'.s == m.s && (rv == 0 && FullReads(m, m') ==> got == m.s.flash[offset..offset + size])
  {
    hide ReadLoop;
    TrueReadsAreExact(ec, m, offset, size);
    ReadLoopConfined(ec, m, offset, size, Zeros(MAX_RESPONSE), [], 0, 0);
    ConfinedReads(ec, m, ReadRun(ec, m, offset, size).2, 0, 0);
  }

  // ---------------------------------------------------------------- obedience

  /** On an EC that obeys, a read returns the flash contents and does no work. */
  lemma ReadMeaning(ec: Ec, m: Machine, offset: nat, size: nat)
    requires Obedient(ec) && offset + size <= |m.s.flash|
    ensures var (rv, got, m') := ReadRun(ec, m, offset, size);
            rv == 0 && got == m.s.flash[offset..offset + size] && m'.s == m.s
            && Worked(m, m', 0, 0, 0, 0) && TrueReads(m, m')
  {
    hide ReadLoop;
    ReadLoopObeyed(ec, m, offset, size, Zeros(MAX_RESPONSE), []);
    TrueReadsAreExact(ec, m, offset, size);
  }

  lemma {:induction false} ReadLoopObeyed(ec: Ec, m: Machine, offset: nat, size: nat, buf: seq<byte>, got: seq<byte>)
    requires Obedient(ec) && offset + size <= |m.s.flash| && |buf| == MAX_RESPONSE
    ensures var (rv, _, m') := ReadLoop(ec, m, offset, size, buf, got);
            rv == 0 && Worked(m, m', 0, 0, 0, 0) && TrueReads(m, m')
    decreases size
  {
    hide Send;
    hide ReadLoop;
    hide Splice;
    if size > 0 {
      ReadStep(ec, m, offset, size, buf, got);
      var n := Min(size, MAX_RESPONSE);
      var (reply, m1) := Send(ec, m, FlashRead(offset, n));
      SendObeyed(ec, m, FlashRead(offset, n));
      assert Worked(m, m1, 0, 0, 0, 0) && TrueReads(m, m1);
      var buf' := Splice(buf, 0, reply.data);
      ReadLoopObeyed(ec, m1, offset + n, size - n, buf', got + buf'[..n]);
      WorkedThen(m, m1, ReadLoop(ec, m1, offset + n, size - n, buf', got + buf'[..n]).2, 0, 0, 0, 0);
      TrueReadsThen(m, m1, ReadLoop(ec, m1, offset + n, size - n, buf', got + buf'[..n]).2);
    } else {
      ReadDone(ec, m, offset, buf, got);
    }
  }

  /** Erase, write, read back: any data of any size comes back, wherever it is stored and
      whatever was there before. */
  lemma EraseWriteRead(ec: Ec, m: Machine, offset: nat, data: seq<byte>)
    requires Obedient(ec) && offset + |data| <= |m.s.flash|
    ensures var m1 := EraseRun(ec, m, offset, |data|).1;
            var m2 := WriteRun(ec, m1, offset, data).1;
            && m2.s.flash == Splice(m.s.flash, offset, data)
            && ReadRun(ec, m2, offset, |data|).0 == 0
            && ReadRun(ec, m2, offset, |data|).1 == data
  {
    hide EraseRun;
    hide WriteRun;
    hide ReadRun;
    EraseMeaning(ec, m, offset, |data|);
    var m1 := EraseRun(ec, m, offset, |data|).1;
    WriteMeaning(ec, m1, offset, data);
    var m2 := WriteRun(ec, m1, offset, data).1;
    EraseThenProgram(m.s.flash, offset, data);
    ReadMeaning(ec, m2, offset, |data|);
    assert Splice(m.s.flash, offset, data)[offset..offset + |data|] == data;
  }

  // ---------------------------------------------------------------- a packet read again and again

  /** `size` bytes of the packet `p`, repeated. */
  function Repeated(p: seq<byte>, size: nat): (s: seq<byte>)
    requires |p| == MAX_RESPONSE
    ensures |s| == size
    decreases size
  {
    if size <= MAX_RESPONSE then p[..size] else p + Repeated(p, size - MAX_RESPONSE)
  }

  /** From the n-th command on, reads succeed and deliver nothing. */
  ghost predicate DeliversNothingFrom(ec: Ec, n: nat) {
    forall k :: n <= k ==> ec.faults(k) == ShortRead(0)
  }

  lemma {:induction false} NothingDelivered(ec: Ec, m: Machine, offset: nat, size: nat, buf: seq<byte>, got: seq<byte>)
    requires DeliversNothingFrom(ec, |m.log|) && offset + size <= |m.s.flash| && |buf| == MAX_RESPONSE
    ensures var (rv, all, _) := ReadLoop(ec, m, offset, size, buf, got);
            rv == 0 && all == got + Repeated(buf, size)
    decreases size
  {
    hide Send;
    hide ReadLoop;
    if size == 0 {
      ReadDone(ec, m, offset, buf, got);
      assert got + Repeated(buf, 0) == got;
    } else {
      ReadStep(ec, m, offset, size, buf, got);
      var n := Min(size, MAX_RESPONSE);
      var (reply, m') := Send(ec, m, FlashRead(offset, n));
      ReadReply(ec, m, offset, n);
      ShortReadSucceeds(ec, m, offset, n);
      assert Splice(buf, 0, reply.data) == buf;
      hide Splice;
      hide Repeated;
      NothingDelivered(ec, m', offset + n, size - n, buf, got + buf[..n]);
      RepeatedOnce(buf, size, got);
    }
  }

  lemma RepeatedOnce(p: seq<byte>, size: nat, got: seq<byte>)
    requires |p| == MAX_RESPONSE && 0 < size
    ensures var n := Min(size, MAX_RESPONSE); got + p[..n] + Repeated(p, size - n) == got + Repeated(p, size)
  {
    var n := Min(size, MAX_RESPONSE);
    assert Repeated(p, size) == p[..n] + Repeated(p, size - n);
  }

  lemma ShortReadSucceeds(ec: Ec, m: Machine, offset: nat, n: nat)
    requires 0 < n && offset + n <= |m.s.flash| && ec.faults(|m.log|) == ShortRead(0)
    ensures Send(ec, m, FlashRead(offset, n)).0 == Reply(0, [], 0)
  {
  }

  /** Any read longer than a packet may return its first packet over and over, with success. */
  lemma ShortReadsRepeat(ec: Ec, m: Machine, offset: nat, size: nat)
    requires MAX_RESPONSE <= size && offset + size <= |m.s.flash|
    requires ec.faults(|m.log|).Obey? && DeliversNothingFrom(ec, |m.log| + 1)
    ensures var (rv, got, _) := ReadRun(ec, m, offset, size);
            rv == 0 && got == Repeated(m.s.flash[offset..offset + MAX_RESPONSE], size)
  {
    hide ReadLoop;
    var buf := Zeros(MAX_RESPONSE);
    ReadStep(ec, m, offset, size, buf, []);
    var n := MAX_RESPONSE;
    var (reply, m1) := Send(ec, m, FlashRead(offset, n));
    assert reply == Reply(n, m.s.flash[offset..offset + n], 0) && |m1.log| == |m.log| + 1;
    hide Send;
    var p := m.s.flash[offset..offset + n];
    assert Splice(buf, 0, p) == p && p[..n] == p && [] + p == p;
    NothingDelivered(ec, m1, offset + n, size - n, p, p);
    RepeatedOnce(p, size, []);
    assert [] + p[..n] + Repeated(p, size - n) == p + Repeated(p, size - n);
    assert [] + Repeated(p, size) == Repeated(p, size);
  }
}
