/** The images whose verification can be relied on, whatever the EC leaves undelivered. */
module Freshness {
  import opened Bytes
  import opened EcDevice
  import opened Flash
  import opened ReadFacts
  import opened Regions
  import opened Reflash
  import opened PhaseFacts

  // ---------------------------------------------------------------- fresh images

  /** The last byte of every packet of `data` differs from what the packet buffer holds there,
      if every packet before it was received. */
  predicate Fresh(data: seq<byte>, buf: seq<byte>)
    requires |buf| == MAX_RESPONSE
    decreases |data|
  {
    data == [] ||
    var n := Min(|data|, MAX_RESPONSE);
    data[n - 1] != buf[n - 1] && Fresh(data[n..], Splice(buf, 0, data[..n]))
  }

  /** Where a packet of `size` bytes ends. */
  predicate PacketEnd(e: int, size: nat) {
    0 <= e < size && (e % 248 == 247 || e == size - 1)
  }

  /** What the buffer holds where byte `e` goes. */
  function HeldAt(data: seq<byte>, buf: seq<byte>, e: nat): byte
    requires |buf| == 248 && e < |data|
  {
    if e < 248 then buf[e] else data[e - 248]
  }

  /** Freshness can be read off the data: at every packet end the byte differs from the one a
      packet earlier, or from the buffer's in the first packet. */
  lemma {:induction false} FreshMeans(data: seq<byte>, buf: seq<byte>)
    requires |buf| == MAX_RESPONSE
    ensures Fresh(data, buf) <==> forall e :: PacketEnd(e, |data|) ==> data[e] != HeldAt(data, buf, e)
    decreases |data|
  {
    hide HeldAt;
    hide PacketEnd;
    hide Splice;
    if data != [] {
      var n := Min(|data|, MAX_RESPONSE);
      var rest, buf' := data[n..], Splice(buf, 0, data[..n]);
      FreshMeans(rest, buf');
      LastEnd(data, buf);
      if n == MAX_RESPONSE {
        EndsMove(data, buf);
        FreshSplit(data, buf, rest, buf');
      }
    } else {
      NoEnds();
    }
  }

  lemma NoEnds()
    ensures forall e :: !PacketEnd(e, 0)
  {
  }

  lemma LastEnd(data: seq<byte>, buf: seq<byte>)
    requires |buf| == MAX_RESPONSE && data != []
    ensures |data| <= MAX_RESPONSE ==>
              forall e :: PacketEnd(e, |data|) <==> e == |data| - 1
    ensures |data| <= MAX_RESPONSE ==> HeldAt(data, buf, |data| - 1) == buf[|data| - 1]
    ensures |data| <= MAX_RESPONSE ==> data[Min(|data|, MAX_RESPONSE)..] == []
  {
  }

  /** The ends of the packets after the first. */
  lemma EndsMove(data: seq<byte>, buf: seq<byte>)
    requires |buf| == MAX_RESPONSE <= |data|
    ensures var n := MAX_RESPONSE;
            var rest, buf' := data[n..], Splice(buf, 0, data[..n]);
            forall e :: 0 <= e < |rest| ==>
              && (PacketEnd(e, |rest|) <==> PacketEnd(e + n, |data|))
              && rest[e] == data[e + n] && HeldAt(rest, buf', e) == HeldAt(data, buf, e + n)
  {
  }

  lemma FreshSplit(data: seq<byte>, buf: seq<byte>, rest: seq<byte>, buf': seq<byte>)
    requires |buf| == |buf'| == MAX_RESPONSE <= |data| && |rest| == |data| - MAX_RESPONSE
    requires forall e :: 0 <= e < |rest| ==>
               && (PacketEnd(e, |rest|) <==> PacketEnd(e + MAX_RESPONSE, |data|))
               && rest[e] == data[e + MAX_RESPONSE] && HeldAt(rest, buf', e) == HeldAt(data, buf, e + MAX_RESPONSE)
    ensures (forall e :: PacketEnd(e, |data|) ==> data[e] != HeldAt(data, buf, e)) <==>
            && data[MAX_RESPONSE - 1] != buf[MAX_RESPONSE - 1]
            && (forall e :: PacketEnd(e, |rest|) ==> rest[e] != HeldAt(rest, buf', e))
  {
    var n := MAX_RESPONSE;
    assert PacketEnd(n - 1, |data|);
    if forall e :: PacketEnd(e, |data|) ==> data[e] != HeldAt(data, buf, e) {
      forall e | PacketEnd(e, |rest|)
        ensures rest[e] != HeldAt(rest, buf', e)
      {
        assert PacketEnd(e + n, |data|);
      }
    }
    if data[n - 1] != buf[n - 1] && forall e :: PacketEnd(e, |rest|) ==> rest[e] != HeldAt(rest, buf', e) {
      forall e | PacketEnd(e, |data|)
        ensures data[e] != HeldAt(data, buf, e)
      {
        if e >= n {
          assert PacketEnd(e - n, |rest|);
        }
      }
    }
  }

  /** In data of at least two packets that repeats a byte a packet later, at the end of a packet,
      verification cannot notice that this byte is missing: so in all padding. */
  lemma RepetitionIsStale(data: seq<byte>, buf: seq<byte>, e: nat)
    requires |buf| == MAX_RESPONSE <= e && PacketEnd(e, |data|) && data[e] == data[e - MAX_RESPONSE]
    ensures !Fresh(data, buf)
  {
    FreshMeans(data, buf);
  }

  // ---------------------------------------------------------------- fresh images are safe

  lemma {:induction false} FreshLoop(ec: Ec, m: Machine, offset: nat, data: seq<byte>, buf: seq<byte>, got: seq<byte>)
    requires NoFalseReads(ec) && offset + |data| <= |m.s.flash| && |buf| == MAX_RESPONSE && Fresh(data, buf)
    ensures var (rv, all, _) := ReadLoop(ec, m, offset, |data|, buf, got);
            rv == 0 && all == got + data ==> PacketsMatch(ec, |m.log|, m.s.flash, offset, |data|, buf)
    decreases |data|
  {
    hide Send;
    hide ReadLoop;
    hide PacketsMatch;
    hide PacketMatches;
    hide NoFalseReads;
    hide Splice;
    var size, flash := |data|, m.s.flash;
    if size == 0 {
      NothingMatches(ec, |m.log|, flash, offset, buf);
    } else {
      ReadStep(ec, m, offset, size, buf, got);
      var n := Min(size, MAX_RESPONSE);
      var (reply, m1) := Send(ec, m, FlashRead(offset, n));
      ReadReply(ec, m, offset, n);
      if reply.rv >= 0 {
        var d := Delivered(ec, |m.log|, flash, offset, n);
        hide Delivered;
        var buf' := Splice(buf, 0, d);
        var (rv, all, _) := ReadLoop(ec, m1, offset + n, size - n, buf', got + buf'[..n]);
        PacketsStep(ec, |m.log|, flash, offset, size, buf);
        if rv == 0 && all == got + data {
          ReadLoopStarts(ec, m1, offset + n, size - n, buf', got + buf'[..n]);
          AcceptedPacket(all, got, buf'[..n], data);
          FreshPacket(ec, |m.log|, flash, offset, data, buf);
          SameBuffer(buf, d, data[..n]);
          FreshLoop(ec, m1, offset + n, data[n..], buf', got + buf'[..n]);
        }
      }
    }
  }

  lemma AcceptedPacket(all: seq<byte>, got: seq<byte>, p: seq<byte>, data: seq<byte>)
    requires all == got + data && got + p <= all && |p| <= |data|
    ensures p == data[..|p|] && all == got + p + data[|p|..]
  {
    assert all[|got|..|got| + |p|] == (got + p)[|got|..] == p;
    assert all[|got|..|got| + |p|] == data[..|p|];
  }

  lemma SameBuffer(buf: seq<byte>, d: seq<byte>, p: seq<byte>)
    requires |d| <= |p| <= |buf| && Splice(buf, 0, d)[..|p|] == p
    ensures Splice(buf, 0, p) == Splice(buf, 0, d)
  {
    var a, b := Splice(buf, 0, p), Splice(buf, 0, d);
    forall k | 0 <= k < |buf|
      ensures a[k] == b[k]
    {
      if k < |p| {
        assert b[..|p|][k] == p[k];
      }
    }
  }

  lemma NothingMatches(ec: Ec, n: nat, flash: seq<byte>, offset: nat, buf: seq<byte>)
    requires offset <= |flash| && |buf| == MAX_RESPONSE
    ensures PacketsMatch(ec, n, flash, offset, 0, buf)
  {
  }

  lemma ReadLoopStarts(ec: Ec, m: Machine, offset: nat, size: nat, buf: seq<byte>, got: seq<byte>)
    requires offset + size <= |m.s.flash| && |buf| == MAX_RESPONSE
    ensures var (rv, all, _) := ReadLoop(ec, m, offset, size, buf, got); rv == 0 ==> got <= all
  {
    hide ReadLoop;
    hide PacketsMatch;
    ReadLoopExact(ec, m, offset, size, buf, got);
  }

  /** A packet that was accepted, and whose last byte is fresh, was delivered in full. */
  lemma FreshPacket(ec: Ec, k: nat, flash: seq<byte>, offset: nat, data: seq<byte>, buf: seq<byte>)
    requires NoFalseReads(ec) && offset + |data| <= |flash| && |buf| == MAX_RESPONSE && data != []
    requires var n := Min(|data|, MAX_RESPONSE);
             && data[n - 1] != buf[n - 1]
             && Splice(buf, 0, Delivered(ec, k, flash, offset, n))[..n] == data[..n]
    ensures PacketMatches(ec, k, flash, offset, |data|, buf)
  {
    var n := Min(|data|, MAX_RESPONSE);
    var d := Delivered(ec, k, flash, offset, n);
    assert !ec.faults(k).FalseRead?;
    assert Splice(buf, 0, d)[..n][n - 1] == data[..n][n - 1];
    assert |d| == n;
  }

  /** On an EC that delivers no false bytes, verification of a fresh image can be trusted. */
  lemma FreshIsTrusted(ec: Ec, m: Machine, r: Region, image: seq<byte>)
    requires NoFalseReads(ec) && r.End() <= |image| && r.End() <= |m.s.flash|
    requires Fresh(image[r.base..r.End()], Zeros(MAX_RESPONSE))
    ensures RegionRun(ec, m, r, image).0 >= 0 ==> ReadBackTrusted(ec, m, r, image)
  {
    hide EraseRun;
    hide WriteRun;
    hide ReadLoop;
    hide PacketsMatch;
    hide Fresh;
    hide NoFalseReads;
    var data := image[r.base..r.End()];
    var (rv1, m1) := EraseRun(ec, m, r.base, r.size);
    if rv1 >= 0 {
      var (rv2, m2) := WriteRun(ec, m1, r.base, data);
      assert [] + data == data;
      FreshLoop(ec, m2, r.base, data, Zeros(MAX_RESPONSE), []);
    }
  }

  /** The image is fresh in every selected region. */
  ghost predicate AllFresh(regions: seq<Region>, mask: nat, image: seq<byte>)
    requires Ordered(regions, |image|)
  {
    forall c: nat :: c < |regions| && BitSet(mask, c) ==> FreshIn(regions[c], image)
  }

  predicate FreshIn(r: Region, image: seq<byte>)
    requires r.End() <= |image|
  {
    Fresh(image[r.base..r.End()], Zeros(MAX_RESPONSE))
  }

  lemma {:induction false} FreshPhaseIsTrusted(ec: Ec, m: Machine, regions: seq<Region>, mask: nat, image: seq<byte>)
    requires Ordered(regions, |image|) && |image| <= |m.s.flash| && MaskWithin(mask, |regions|)
    requires NoFalseReads(ec) && AllFresh(regions, mask, image)
    ensures PhaseTrusted(ec, m, regions, mask, image)
    decreases mask
  {
    if mask > 0 {
      hide RegionRun;
      hide ReadBackTrusted;
      hide NoFalseReads;
      MaskStep(mask, |regions|);
      MaskRest(mask, |regions|);
      var top := LeadingBit(mask);
      var (rv, m1) := RegionRun(ec, m, regions[top], image);
      assert FreshIn(regions[top], image);
      FreshIsTrusted(ec, m, regions[top], image);
      if rv >= 0 {
        FreshPhaseIsTrusted(ec, m1, regions, WithoutBit(mask, top), image);
      }
    }
  }
}
