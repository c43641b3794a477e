/** Images that are not fresh: for each there is an EC on which verification passes although a
    byte of the image is missing. */
module StaleImages {
  import opened Bytes
  import opened EcDevice
  import opened Flash
  import opened FlashFacts
  import opened ReadFacts
  import opened Regions
  import opened Reflash
  import opened PhaseFacts
  import opened Freshness

  // ---------------------------------------------------------------- the stale packet

  /** How many packets come before the first one with a stale end, where this end is in the data,
      and how many bytes of its packet come before it. */
  function StalePacket(data: seq<byte>, buf: seq<byte>): nat
    requires |buf| == MAX_RESPONSE && !Fresh(data, buf)
    decreases |data|
  {
    var n := Min(|data|, MAX_RESPONSE);
    if data[n - 1] == buf[n - 1] then 0 else 1 + StalePacket(data[n..], Splice(buf, 0, data[..n]))
  }

  function StaleEnd(data: seq<byte>, buf: seq<byte>): (e: nat)
    requires |buf| == MAX_RESPONSE && !Fresh(data, buf)
    ensures e < |data|
    decreases |data|
  {
    var n := Min(|data|, MAX_RESPONSE);
    if data[n - 1] == buf[n - 1] then n - 1 else n + StaleEnd(data[n..], Splice(buf, 0, data[..n]))
  }

  function StaleCount(data: seq<byte>, buf: seq<byte>): nat
    requires |buf| == MAX_RESPONSE && !Fresh(data, buf)
    decreases |data|
  {
    var n := Min(|data|, MAX_RESPONSE);
    if data[n - 1] == buf[n - 1] then n - 1 else StaleCount(data[n..], Splice(buf, 0, data[..n]))
  }

  lemma StaleStep(data: seq<byte>, buf: seq<byte>)
    requires |buf| == MAX_RESPONSE && !Fresh(data, buf)
    ensures data != []
    ensures var n := Min(|data|, MAX_RESPONSE);
            var rest, buf' := data[n..], Splice(buf, 0, data[..n]);
            if data[n - 1] == buf[n - 1]
            then StalePacket(data, buf) == 0 && StaleEnd(data, buf) == StaleCount(data, buf) == n - 1
            else && !Fresh(rest, buf')
                 && StalePacket(data, buf) == 1 + StalePacket(rest, buf')
                 && StaleEnd(data, buf) == n + StaleEnd(rest, buf')
                 && StaleCount(data, buf) == StaleCount(rest, buf')
  {
  }

  // ---------------------------------------------------------------- an EC with a flash of its own

  /** An EC that takes every command from the n-th on and stores `fill` wherever it erases or
      writes; of its reads, which are true, one is cut short. */
  function Deceiver(ec: Ec, n: nat, at: nat, count: nat, fill: nat -> byte): Ec {
    ec.(faults := (k: nat) =>
          if k < n then (if ec.faults(k).FalseRead? then Obey else ec.faults(k))
          else if k == at then ShortRead(count)
          else Rogue(0, fill, 240, 0))
  }

  /** Commands `from` up to `to` store `fill`, except that the one at `at` may do anything. */
  ghost predicate Stores(ec: Ec, from: nat, to: nat, at: int, fill: nat -> byte) {
    forall k :: from <= k < to && k != at ==> ec.faults(k) == Rogue(0, fill, 240, 0)
  }

  /** All commands from `from` on. */
  ghost predicate StoresFrom(ec: Ec, from: nat, at: int, fill: nat -> byte) {
    forall k :: from <= k && k != at ==> ec.faults(k) == Rogue(0, fill, 240, 0)
  }

  function PacketCount(size: nat, step: nat): nat
    requires step > 0
    decreases size
  {
    if size == 0 then 0 else 1 + PacketCount(size - Min(size, step), step)
  }

  /** The range holds `fill`. */
  predicate Held(flash: seq<byte>, offset: nat, size: nat, fill: nat -> byte) {
    offset + size <= |flash| && forall k :: offset <= k < offset + size ==> flash[k] == fill(k)
  }

  lemma WriteStored(ec: Ec, m: Machine, q: Request, fill: nat -> byte)
    requires Modifying(q) && Answerable(m.s, q) && ec.faults(|m.log|) == Rogue(0, fill, 240, 0)
    ensures var (reply, m') := Send(ec, m, q);
            && reply.rv == 0 && |m'.log| == |m.log| + 1
            && Held(m'.s.flash, Range(q).0, Range(q).1 - Range(q).0, fill)
            && SameOutside(m'.s.flash, m.s.flash, Range(q).0, Range(q).1)
  {
  }

  lemma {:induction false} WritesStored(ec: Ec, m: Machine, offset: nat, data: seq<byte>, step: nat, fill: nat -> byte)
    requires offset + |data| <= |m.s.flash| && step > 0
    requires Stores(ec, |m.log|, |m.log| + PacketCount(|data|, step), -1, fill)
    ensures var (rv, m') := WriteLoop(ec, m, offset, data, step);
            && rv == 0 && |m'.log| == |m.log| + PacketCount(|data|, step)
            && Held(m'.s.flash, offset, |data|, fill)
    decreases |data|
  {
    hide Send;
    hide WriteLoop;
    if data == [] {
      WriteDone(ec, m, offset, step);
    } else {
      WriteStep(ec, m, offset, data, step);
      var n := Min(|data|, step);
      WriteStored(ec, m, FlashWrite(offset, data[..n]), fill);
      var m1 := Send(ec, m, FlashWrite(offset, data[..n])).1;
      WritesStored(ec, m1, offset + n, data[n..], step, fill);
      WriteLoopConfined(ec, m1, offset + n, data[n..], step, offset + n, offset + |data|);
      BothFilled(m1.s.flash, WriteLoop(ec, m1, offset + n, data[n..], step).1.s.flash, offset, n, |data|, fill);
    }
  }

  lemma BothFilled(before: seq<byte>, after: seq<byte>, offset: nat, n: nat, size: nat, fill: nat -> byte)
    requires n <= size && Held(before, offset, n, fill) && Held(after, offset + n, size - n, fill)
    requires SameOutside(after, before, offset + n, offset + size)
    ensures Held(after, offset, size, fill)
  {
  }

  /** The commands before a region is read back. */
  function CommandsToWrite(size: nat): nat {
    3 + PacketCount(size, 240)
  }

  lemma EraseStored(ec: Ec, m: Machine, offset: nat, size: nat, fill: nat -> byte)
    requires offset + size <= |m.s.flash| && Stores(ec, |m.log|, |m.log| + 2, -1, fill)
    ensures var (rv, m') := EraseRun(ec, m, offset, size); rv == 0 && |m'.log| == |m.log| + 2
  {
    var (versions, m1) := Send(ec, m, GetCmdVersions(EC_CMD_FLASH_ERASE));
    assert versions == Reply(0, [], 0) && |m1.log| == |m.log| + 1;
    ZeroHasNoBits(1);
    var (reply, m2) := Send(ec, m1, FlashErase(offset, size));
    assert reply.rv == 0 && |m2.log| == |m.log| + 2;
    hide Send;
    assert EraseRun(ec, m, offset, size) == (0, m2);
  }

  lemma SizeStored(ec: Ec, m: Machine, fill: nat -> byte)
    requires ec.faults(|m.log|) == Rogue(0, fill, 240, 0)
    ensures var (reply, m') := Send(ec, m, FlashInfo);
            reply == Reply(0, [], 240) && |m'.log| == |m.log| + 1 && m'.s == m.s
  {
  }

  lemma WriteRunStored(ec: Ec, m: Machine, offset: nat, data: seq<byte>, fill: nat -> byte)
    requires offset + |data| <= |m.s.flash|
    requires Stores(ec, |m.log|, |m.log| + 1 + PacketCount(|data|, 240), -1, fill)
    ensures var (rv, m') := WriteRun(ec, m, offset, data);
            && rv == 0 && |m'.log| == |m.log| + 1 + PacketCount(|data|, 240)
            && Held(m'.s.flash, offset, |data|, fill)
  {
    hide Send;
    hide WriteLoop;
    hide PacketCount;
    SizeStored(ec, m, fill);
    assert Step(240) == 240;
    WritesStored(ec, Send(ec, m, FlashInfo).1, offset, data, 240, fill);
  }

  // ---------------------------------------------------------------- reading back

  /** A read that is not cut short returns the flash contents. */
  lemma {:induction false} ReadsStored(ec: Ec, m: Machine, offset: nat, data: seq<byte>, buf: seq<byte>, got: seq<byte>,
                                       fill: nat -> byte)
    requires offset + |data| <= |m.s.flash| && |buf| == MAX_RESPONSE && m.s.flash[offset..offset + |data|] == data
    requires Stores(ec, |m.log|, |m.log| + PacketCount(|data|, MAX_RESPONSE), -1, fill)
    ensures var (rv, all, m') := ReadLoop(ec, m, offset, |data|, buf, got);
            rv == 0 && all == got + data && m'.s == m.s && |m'.log| == |m.log| + PacketCount(|data|, MAX_RESPONSE)
    decreases |data|
  {
    hide Send;
    hide ReadLoop;
    hide Splice;
    var flash, size := m.s.flash, |data|;
    if size == 0 {
      ReadDone(ec, m, offset, buf, got);
      assert got + data == got;
    } else {
      ReadStep(ec, m, offset, size, buf, got);
      var n := Min(size, MAX_RESPONSE);
      PacketRead(ec, m, offset, n, buf, fill);
      var (reply, m1) := Send(ec, m, FlashRead(offset, n));
      var buf' := Splice(buf, 0, reply.data);
      Pieces(flash, offset, n, data, got);
      ReadsStored(ec, m1, offset + n, data[n..], buf', got + buf'[..n], fill);
    }
  }

  lemma Pieces(flash: seq<byte>, offset: nat, n: nat, data: seq<byte>, got: seq<byte>)
    requires n <= |data| && offset + |data| <= |flash| && flash[offset..offset + |data|] == data
    ensures flash[offset..offset + n] == data[..n] && flash[offset + n..offset + |data|] == data[n..]
    ensures got + data[..n] + data[n..] == got + data
  {
    assert flash[offset..offset + n] == flash[offset..offset + |data|][..n];
    assert flash[offset + n..offset + |data|] == flash[offset..offset + |data|][n..];
    assert data[..n] + data[n..] == data;
  }

  lemma PacketRead(ec: Ec, m: Machine, offset: nat, n: nat, buf: seq<byte>, fill: nat -> byte)
    requires offset + n <= |m.s.flash| && n <= |buf| == MAX_RESPONSE && ec.faults(|m.log|) == Rogue(0, fill, 240, 0)
    ensures var (reply, m') := Send(ec, m, FlashRead(offset, n));
            && reply.rv >= 0 && m'.s == m.s && |m'.log| == |m.log| + 1
            && |reply.data| <= n
            && Splice(buf, 0, reply.data)[..n] == m.s.flash[offset..offset + n]
            && Splice(buf, 0, reply.data) == Splice(buf, 0, m.s.flash[offset..offset + n])
  {
  }

  /** The flash holds the data except where the stale packet ends. */
  predicate AllButStale(flash: seq<byte>, offset: nat, data: seq<byte>, buf: seq<byte>)
    requires offset + |data| <= |flash| && |buf| == MAX_RESPONSE && !Fresh(data, buf)
  {
    forall k :: 0 <= k < |data| && k != StaleEnd(data, buf) ==> flash[offset + k] == data[k]
  }

  /** A read whose stale packet is cut short by one byte returns the data, whatever the flash
      holds there. */
  lemma {:induction false} ReadsDeceived(ec: Ec, m: Machine, offset: nat, data: seq<byte>, buf: seq<byte>,
                                         got: seq<byte>, fill: nat -> byte)
    requires offset + |data| <= |m.s.flash| && |buf| == MAX_RESPONSE && !Fresh(data, buf)
    requires AllButStale(m.s.flash, offset, data, buf)
    requires ec.faults(|m.log| + StalePacket(data, buf)) == ShortRead(StaleCount(data, buf))
    requires Stores(ec, |m.log|, |m.log| + PacketCount(|data|, MAX_RESPONSE), |m.log| + StalePacket(data, buf), fill)
    ensures var (rv, all, m') := ReadLoop(ec, m, offset, |data|, buf, got);
            rv == 0 && all == got + data && m'.s == m.s && |m'.log| == |m.log| + PacketCount(|data|, MAX_RESPONSE)
    decreases |data|
  {
    hide Send;
    hide ReadLoop;
    hide Splice;
    hide Fresh;
    hide StalePacket;
    hide StaleEnd;
    hide StaleCount;
    var flash, size := m.s.flash, |data|;
    StaleStep(data, buf);
    ReadStep(ec, m, offset, size, buf, got);
    var n := Min(size, MAX_RESPONSE);
    var (reply, m1) := Send(ec, m, FlashRead(offset, n));
    var buf' := Splice(buf, 0, reply.data);
    InTwo(data, n, got);
    StalePieces(flash, offset, data, buf);
    hide AllButStale;
    if data[n - 1] == buf[n - 1] {
      PacketCutShort(ec, m, offset, n, data, buf);
      ReadsStored(ec, m1, offset + n, data[n..], buf', got + buf'[..n], fill);
    } else {
      PacketRead(ec, m, offset, n, buf, fill);
      ReadsDeceived(ec, m1, offset + n, data[n..], buf', got + buf'[..n], fill);
    }
  }

  lemma InTwo(data: seq<byte>, n: nat, got: seq<byte>)
    requires n <= |data|
    ensures got + data[..n] + data[n..] == got + data
  {
    assert data[..n] + data[n..] == data;
  }

  /** The first packet, and the others. */
  lemma StalePieces(flash: seq<byte>, offset: nat, data: seq<byte>, buf: seq<byte>)
    requires offset + |data| <= |flash| && |buf| == MAX_RESPONSE && !Fresh(data, buf)
    requires AllButStale(flash, offset, data, buf)
    ensures var n := Min(|data|, MAX_RESPONSE);
            var rest, buf' := data[n..], Splice(buf, 0, data[..n]);
            && 0 < n
            && (if data[n - 1] == buf[n - 1]
                then && (forall k :: 0 <= k < n - 1 ==> flash[offset + k] == data[k])
                     && flash[offset + n..offset + |data|] == rest
                else && flash[offset..offset + n] == data[..n]
                     && !Fresh(rest, buf') && AllButStale(flash, offset + n, rest, buf'))
  {
    hide Splice;
    hide Fresh;
    hide StaleEnd;
    hide StaleCount;
    hide StalePacket;
    StaleStep(data, buf);
    var n := Min(|data|, MAX_RESPONSE);
    var rest := data[n..];
    if data[n - 1] == buf[n - 1] {
      SliceIs(flash, offset + n, rest);
    } else {
      SliceIs(flash, offset, data[..n]);
      AfterPacket(flash, offset, data, buf);
    }
  }

  lemma SliceIs(flash: seq<byte>, offset: nat, data: seq<byte>)
    requires offset + |data| <= |flash| && forall k :: 0 <= k < |data| ==> flash[offset + k] == data[k]
    ensures flash[offset..offset + |data|] == data
  {
  }

  lemma AfterPacket(flash: seq<byte>, offset: nat, data: seq<byte>, buf: seq<byte>)
    requires offset + |data| <= |flash| && |buf| == MAX_RESPONSE && !Fresh(data, buf)
    requires var n := Min(|data|, MAX_RESPONSE); data[n - 1] != buf[n - 1]
    requires AllButStale(flash, offset, data, buf)
    ensures var n := Min(|data|, MAX_RESPONSE);
            var rest, buf' := data[n..], Splice(buf, 0, data[..n]);
            !Fresh(rest, buf') && AllButStale(flash, offset + n, rest, buf')
  {
    hide Splice;
    hide Fresh;
    hide StaleEnd;
    hide StaleCount;
    hide StalePacket;
    StaleStep(data, buf);
    var n := Min(|data|, MAX_RESPONSE);
    var rest, buf' := data[n..], Splice(buf, 0, data[..n]);
    forall k | 0 <= k < |rest| && k != StaleEnd(rest, buf')
      ensures flash[offset + n + k] == rest[k]
    {
      assert flash[offset + (n + k)] == data[n + k];
    }
  }

  lemma PacketCutShort(ec: Ec, m: Machine, offset: nat, n: nat, data: seq<byte>, buf: seq<byte>)
    requires 0 < n <= |data| && offset + |data| <= |m.s.flash| && n <= |buf| == MAX_RESPONSE
    requires ec.faults(|m.log|) == ShortRead(n - 1) && data[n - 1] == buf[n - 1]
    requires forall k :: 0 <= k < n - 1 ==> m.s.flash[offset + k] == data[k]
    ensures var (reply, m') := Send(ec, m, FlashRead(offset, n));
            && reply.rv >= 0 && m'.s == m.s && |m'.log| == |m.log| + 1
            && |reply.data| <= n
            && Splice(buf, 0, reply.data)[..n] == data[..n]
  {
    ReadReply(ec, m, offset, n);
  }

  // ---------------------------------------------------------------- a region

  function RegionCommands(size: nat): nat {
    CommandsToWrite(size) + PacketCount(size, MAX_RESPONSE)
  }

  /** Where the cut packet is, counted from the first command of the region. */
  function CutAt(data: seq<byte>): nat
    requires !Fresh(data, Zeros(MAX_RESPONSE))
  {
    CommandsToWrite(|data|) + StalePacket(data, Zeros(MAX_RESPONSE))
  }

  /** With `fill` as its flash the EC stores the region right. */
  lemma RegionStored(ec: Ec, m: Machine, r: Region, image: seq<byte>, fill: nat -> byte)
    requires r.End() <= |image| && r.End() <= |m.s.flash|
    requires Stores(ec, |m.log|, |m.log| + RegionCommands(r.size), -1, fill)
    requires forall k: nat :: r.base <= k < r.End() ==> fill(k) == image[k]
    ensures var (rv, m') := RegionRun(ec, m, r, image);
            rv == 0 && |m'.log| == |m.log| + RegionCommands(r.size)
  {
    hide EraseRun;
    hide WriteRun;
    hide ReadLoop;
    hide PacketCount;
    var data := image[r.base..r.End()];
    EraseStored(ec, m, r.base, r.size, fill);
    var m1 := EraseRun(ec, m, r.base, r.size).1;
    WriteRunStored(ec, m1, r.base, data, fill);
    var m2 := WriteRun(ec, m1, r.base, data).1;
    assert m2.s.flash[r.base..r.End()] == data;
    ReadsStored(ec, m2, r.base, data, Zeros(MAX_RESPONSE), [], fill);
    assert [] + data == data;
  }

  /** With a flash that is wrong where the image is stale, and that read cut short, the region
      passes all the same. */
  lemma RegionDeceived(ec: Ec, m: Machine, r: Region, image: seq<byte>, fill: nat -> byte)
    requires r.End() <= |image| && r.End() <= |m.s.flash| && !FreshIn(r, image)
    requires var data := image[r.base..r.End()];
             && ec.faults(|m.log| + CutAt(data)) == ShortRead(StaleCount(data, Zeros(MAX_RESPONSE)))
             && Stores(ec, |m.log|, |m.log| + RegionCommands(r.size), |m.log| + CutAt(data), fill)
             && forall k: nat :: r.base <= k < r.End() ==>
                  (fill(k) == image[k] <==> k != r.base + StaleEnd(data, Zeros(MAX_RESPONSE)))
    ensures var (rv, m') := RegionRun(ec, m, r, image);
            && rv == 0 && |m'.log| == |m.log| + RegionCommands(r.size)
            && !Holds(m'.s.flash, image, r)
  {
    hide EraseRun;
    hide WriteRun;
    hide ReadLoop;
    hide PacketCount;
    hide Fresh;
    hide StaleEnd;
    hide StaleCount;
    hide StalePacket;
    var data, e := image[r.base..r.End()], StaleEnd(image[r.base..r.End()], Zeros(MAX_RESPONSE));
    EraseStored(ec, m, r.base, r.size, fill);
    var m1 := EraseRun(ec, m, r.base, r.size).1;
    WriteRunStored(ec, m1, r.base, data, fill);
    var m2 := WriteRun(ec, m1, r.base, data).1;
    ReadsDeceived(ec, m2, r.base, data, Zeros(MAX_RESPONSE), [], fill);
    assert [] + data == data;
    assert m2.s.flash[r.base..r.End()][e] == fill(r.base + e) != data[e];
  }

  function Another(b: byte): (other: byte)
    ensures other != b
  {
    if b == 0 then 1 else 0
  }

  /** The image with one byte changed. */
  function Changed(image: seq<byte>, at: nat): nat -> byte {
    (k: nat) => if k >= |image| then 0 else if k == at then Another(image[k]) else image[k]
  }

  lemma DeceiverStores(ec: Ec, n: nat, at: nat, count: nat, fill: nat -> byte)
    ensures var d := Deceiver(ec, n, at, count, fill);
            && NoFalseReads(d) && d.memmap == ec.memmap && d.profile == ec.profile
            && (n <= at ==> Deceives(d, n, at, count, fill))
  {
  }

  /** Verification of this region is sound on this EC. */
  ghost predicate Verifies(ec: Ec, m: Machine, r: Region, image: seq<byte>)
    requires r.End() <= |image| && r.End() <= |m.s.flash|
  {
    var (rv, m') := RegionRun(ec, m, r, image);
    NoFalseReads(ec) && rv >= 0 ==> Holds(m'.s.flash, image, r)
  }

  /** Exactly which images are safe: a region that passes verification holds the image, on every
      EC that delivers no false bytes, if and only if the image is fresh in it. */
  lemma VerificationIsSoundIff(m: Machine, r: Region, image: seq<byte>)
    requires r.End() <= |image| && r.End() <= |m.s.flash|
    ensures (forall ec :: Verifies(ec, m, r, image)) <==> FreshIn(r, image)
  {
    hide RegionRun;
    hide ReadBackTrusted;
    hide Confined;
    hide NoFalseReads;
    if FreshIn(r, image) {
      forall ec
        ensures Verifies(ec, m, r, image)
      {
        if NoFalseReads(ec) {
          FreshIsTrusted(ec, m, r, image);
          VerificationExact(ec, m, r, image);
        }
      }
    } else {
      var ec := RegionDeceiver(m, r, image);
      DeceiverPasses(m, r, image);
      assert !Verifies(ec, m, r, image);
    }
  }

  const OBEYING := Ec((k: nat) => Obey, SIMULATED, (k: nat) => Zeros(0x100))

  function RegionDeceiver(m: Machine, r: Region, image: seq<byte>): Ec
    requires r.End() <= |image| && !FreshIn(r, image)
  {
    Deceiver(OBEYING, |m.log|, |m.log| + CutAt(image[r.base..r.End()]), CountIn(r, image), WrongImage(r, image))
  }

  /** The image, but wrong where it is stale in the region; and how much of that packet is read. */
  function WrongImage(r: Region, image: seq<byte>): nat -> byte
    requires r.End() <= |image| && !FreshIn(r, image)
  {
    Changed(image, r.base + StaleEnd(image[r.base..r.End()], Zeros(MAX_RESPONSE)))
  }

  function CountIn(r: Region, image: seq<byte>): nat
    requires r.End() <= |image| && !FreshIn(r, image)
  {
    StaleCount(image[r.base..r.End()], Zeros(MAX_RESPONSE))
  }

  lemma DeceiverPasses(m: Machine, r: Region, image: seq<byte>)
    requires r.End() <= |image| && r.End() <= |m.s.flash| && !FreshIn(r, image)
    ensures var ec := RegionDeceiver(m, r, image);
            var (rv, m') := RegionRun(ec, m, r, image);
            NoFalseReads(ec) && rv >= 0 && !Holds(m'.s.flash, image, r)
  {
    hide RegionRun;
    hide Holds;
    hide CutAt;
    hide Fresh;
    DeceiverStores(OBEYING, |m.log|, |m.log| + CutAt(image[r.base..r.End()]), CountIn(r, image), WrongImage(r, image));
    WrongImageIsWrong(r, image);
    hide WrongImage;
    hide Deceiver;
    hide NoFalseReads;
    hide WrongIn;
    TopDeceived(RegionDeceiver(m, r, image), m, r, image, WrongImage(r, image));
  }

  lemma WrongImageIsWrong(r: Region, image: seq<byte>)
    requires r.End() <= |image| && !FreshIn(r, image)
    ensures WrongIn(r, image, WrongImage(r, image))
  {
    hide Fresh;
    hide StaleEnd;
  }

  // ---------------------------------------------------------------- all regions

  /** The commands spent on the selected regions above `c`. */
  function CommandsAbove(regions: seq<Region>, mask: nat, c: nat): nat
    requires MaskWithin(mask, |regions|)
    decreases mask
  {
    if mask == 0 then 0
    else
      MaskStep(mask, |regions|);
      var top := LeadingBit(mask);
      if top == c then 0
      else RegionCommands(regions[top].size) + CommandsAbove(regions, WithoutBit(mask, top), c)
  }

  /** `fill` is the image in all selected regions. */
  ghost predicate FillsRight(regions: seq<Region>, mask: nat, image: seq<byte>, fill: nat -> byte)
    requires Ordered(regions, |image|)
  {
    forall c: nat :: c < |regions| && BitSet(mask, c) ==> RightIn(regions[c], image, fill)
  }

  ghost predicate RightIn(r: Region, image: seq<byte>, fill: nat -> byte)
    requires r.End() <= |image|
  {
    forall k: nat :: r.base <= k < r.End() ==> fill(k) == image[k]
  }

  lemma {:induction false} PhaseStored(ec: Ec, m: Machine, regions: seq<Region>, mask: nat, image: seq<byte>, rv: int,
                                       at: int, fill: nat -> byte)
    requires Ordered(regions, |image|) && |image| <= |m.s.flash| && MaskWithin(mask, |regions|) && rv >= 0
    requires StoresFrom(ec, |m.log|, at, fill)
    requires at < |m.log| && FillsRight(regions, mask, image, fill)
    ensures PhaseRun(ec, m, regions, mask, image, rv).0 >= 0
    decreases mask
  {
    if mask > 0 {
      hide RegionRun;
      hide RightIn;
      MaskStep(mask, |regions|);
      MaskRest(mask, |regions|);
      var top := LeadingBit(mask);
      var (rv1, m1) := RegionRun(ec, m, regions[top], image);
      StoresAll(ec, |m.log|, |m.log| + RegionCommands(regions[top].size), at, fill);
      TopStored(ec, m, regions[top], image, fill);
      hide RegionCommands;
      PhaseStored(ec, m1, regions, WithoutBit(mask, top), image, rv1, at, fill);
    }
  }

  lemma TopStored(ec: Ec, m: Machine, r: Region, image: seq<byte>, fill: nat -> byte)
    requires r.End() <= |image| && r.End() <= |m.s.flash|
    requires Stores(ec, |m.log|, |m.log| + RegionCommands(r.size), -1, fill) && RightIn(r, image, fill)
    ensures var (rv, m') := RegionRun(ec, m, r, image); rv == 0 && |m'.log| == |m.log| + RegionCommands(r.size)
  {
    RegionStored(ec, m, r, image, fill);
  }

  lemma StoresAll(ec: Ec, from: nat, to: nat, at: int, fill: nat -> byte)
    requires StoresFrom(ec, from, at, fill) && (at < from || to <= at)
    ensures Stores(ec, from, to, -1, fill)
  {
  }

  /** What the deceiver does from `from` on. */
  ghost predicate Deceives(ec: Ec, from: nat, at: nat, count: nat, fill: nat -> byte) {
    from <= at && ec.faults(at) == ShortRead(count) && StoresFrom(ec, from, at, fill)
  }

  /** `fill` is the image in all selected regions, except where it is stale in region `c`. */
  ghost predicate FillsWrong(regions: seq<Region>, mask: nat, image: seq<byte>, c: nat, fill: nat -> byte)
    requires Ordered(regions, |image|) && c < |regions| && !FreshIn(regions[c], image)
  {
    && (forall r: nat :: r < |regions| && r != c && BitSet(mask, r) ==> RightIn(regions[r], image, fill))
    && WrongIn(regions[c], image, fill)
  }

  ghost predicate WrongIn(r: Region, image: seq<byte>, fill: nat -> byte)
    requires r.End() <= |image| && !FreshIn(r, image)
  {
    forall k: nat :: r.base <= k < r.End() ==>
      (fill(k) == image[k] <==> k != r.base + StaleEnd(image[r.base..r.End()], Zeros(MAX_RESPONSE)))
  }

  lemma {:induction false} PhaseDeceived(ec: Ec, m: Machine, regions: seq<Region>, mask: nat, image: seq<byte>, rv: int,
                                         c: nat, fill: nat -> byte)
    requires Ordered(regions, |image|) && |image| <= |m.s.flash| && MaskWithin(mask, |regions|) && rv >= 0
    requires c < |regions| && BitSet(mask, c) && !FreshIn(regions[c], image)
    requires var data := image[regions[c].base..regions[c].End()];
             Deceives(ec, |m.log|, |m.log| + CommandsAbove(regions, mask, c) + CutAt(data),
                      StaleCount(data, Zeros(MAX_RESPONSE)), fill)
    requires FillsWrong(regions, mask, image, c, fill)
    ensures var (rv', m') := PhaseRun(ec, m, regions, mask, image, rv);
            rv' >= 0 && !HoldsFrom(m'.s.flash, image, regions, mask, 0)
    decreases mask
  {
    hide RegionRun;
    hide RightIn;
    hide WrongIn;
    hide Holds;
    hide Untouched;
    hide HoldsFrom;
    hide Stores;
    hide Fresh;
    hide CutAt;
    hide StaleCount;
    hide RegionCommands;
    if mask == 0 {
      ZeroHasNoBits(c);
    } else {
      MaskStep(mask, |regions|);
      MaskRest(mask, |regions|);
      var top := LeadingBit(mask);
      var rest := WithoutBit(mask, top);
      var data := image[regions[c].base..regions[c].End()];
      var at := |m.log| + CommandsAbove(regions, mask, c) + CutAt(data);
      var (rv1, m1) := RegionRun(ec, m, regions[top], image);
      if top == c {
        TopDeceived(ec, m, regions[c], image, fill);
        RestRight(regions, mask, image, c, fill);
        PhaseStored(ec, m1, regions, rest, image, rv1, at, fill);
      } else {
        AboveStored(ec, m, regions[top], image, at, CommandsAbove(regions, rest, c) + CutAt(data), fill);
        PhaseDeceived(ec, m1, regions, rest, image, rv1, c, fill);
      }
      VerificationExtends(ec, m, regions[top], image);
      PhaseSafety(ec, m1, regions, rest, image, rv1, false);
      RestHolds(m1, PhaseRun(ec, m1, regions, rest, image, rv1).1, regions, mask, image);
    }
  }

  lemma VerificationExtends(ec: Ec, m: Machine, r: Region, image: seq<byte>)
    requires r.End() <= |image| && r.End() <= |m.s.flash|
    ensures |RegionRun(ec, m, r, image).1.s.flash| == |m.s.flash|
  {
    hide RegionRun;
  }

  lemma RestRight(regions: seq<Region>, mask: nat, image: seq<byte>, c: nat, fill: nat -> byte)
    requires Ordered(regions, |image|) && c < |regions| && !FreshIn(regions[c], image) && mask > 0
    requires MaskWithin(mask, |regions|) && FillsWrong(regions, mask, image, c, fill) && LeadingBit(mask) == c
    ensures FillsRight(regions, WithoutBit(mask, c), image, fill)
  {
    hide RightIn;
    hide WrongIn;
    MaskRest(mask, |regions|);
  }

  lemma TopDeceived(ec: Ec, m: Machine, r: Region, image: seq<byte>, fill: nat -> byte)
    requires r.End() <= |image| && r.End() <= |m.s.flash| && !FreshIn(r, image) && WrongIn(r, image, fill)
    requires var data := image[r.base..r.End()];
             Deceives(ec, |m.log|, |m.log| + CutAt(data), StaleCount(data, Zeros(MAX_RESPONSE)), fill)
    ensures var (rv, m') := RegionRun(ec, m, r, image);
            && rv == 0 && !Holds(m'.s.flash, image, r)
            && |m.log| + CutAt(image[r.base..r.End()]) < |m'.log|
  {
    var data := image[r.base..r.End()];
    StaleInside(data, Zeros(MAX_RESPONSE));
    hide RegionRun;
    hide Fresh;
    hide StaleCount;
    hide StalePacket;
    hide PacketCount;
    RegionDeceived(ec, m, r, image, fill);
  }

  lemma {:induction false} StaleInside(data: seq<byte>, buf: seq<byte>)
    requires |buf| == MAX_RESPONSE && !Fresh(data, buf)
    ensures StalePacket(data, buf) < PacketCount(|data|, MAX_RESPONSE)
    decreases |data|
  {
    StaleStep(data, buf);
    var n := Min(|data|, MAX_RESPONSE);
    if data[n - 1] != buf[n - 1] {
      StaleInside(data[n..], Splice(buf, 0, data[..n]));
    }
  }

  lemma AboveStored(ec: Ec, m: Machine, r: Region, image: seq<byte>, at: nat, rest: nat, fill: nat -> byte)
    requires r.End() <= |image| && r.End() <= |m.s.flash| && RightIn(r, image, fill)
    requires at == |m.log| + RegionCommands(r.size) + rest && StoresFrom(ec, |m.log|, at, fill)
    ensures var (rv, m') := RegionRun(ec, m, r, image); rv == 0 && |m'.log| == |m.log| + RegionCommands(r.size)
  {
    hide RegionCommands;
    StoresAll(ec, |m.log|, |m.log| + RegionCommands(r.size), at, fill);
    TopStored(ec, m, r, image, fill);
  }

  lemma WrongImageFills(regions: seq<Region>, mask: nat, image: seq<byte>, c: nat)
    requires Ordered(regions, |image|) && c < |regions| && !FreshIn(regions[c], image)
    ensures FillsWrong(regions, mask, image, c, WrongImage(regions[c], image))
  {
    hide Fresh;
    hide StaleEnd;
    WrongImageIsWrong(regions[c], image);
    var fill := WrongImage(regions[c], image);
    var at := regions[c].base + StaleEnd(image[regions[c].base..regions[c].End()], Zeros(MAX_RESPONSE));
    forall r: nat | r < |regions| && r != c
      ensures RightIn(regions[r], image, fill)
    {
      assert !(regions[r].base <= at < regions[r].End());
    }
  }

  /** An EC that takes commands as `ec` does up to the n-th, and deceives in region `c` of a phase
      that starts with command `start`. */
  function PhaseDeceiver(ec: Ec, n: nat, start: nat, regions: seq<Region>, mask: nat, image: seq<byte>, c: nat): Ec
    requires Ordered(regions, |image|) && MaskWithin(mask, |regions|) && c < |regions| && !FreshIn(regions[c], image)
  {
    var data := image[regions[c].base..regions[c].End()];
    Deceiver(ec, n, start + CommandsAbove(regions, mask, c) + CutAt(data),
             CountIn(regions[c], image), WrongImage(regions[c], image))
  }

  lemma PhaseIsDeceived(ec: Ec, n: nat, m: Machine, regions: seq<Region>, mask: nat, image: seq<byte>, rv: int, c: nat)
    requires Ordered(regions, |image|) && |image| <= |m.s.flash| && MaskWithin(mask, |regions|) && rv >= 0
    requires n <= |m.log| && c < |regions| && BitSet(mask, c) && !FreshIn(regions[c], image)
    ensures NoFalseReads(PhaseDeceiver(ec, n, |m.log|, regions, mask, image, c))
    ensures var d := PhaseDeceiver(ec, n, |m.log|, regions, mask, image, c);
            var (rv', m') := PhaseRun(d, m, regions, mask, image, rv);
            rv' >= 0 && !HoldsFrom(m'.s.flash, image, regions, mask, 0)
  {
    hide PhaseRun;
    hide CutAt;
    hide Fresh;
    hide FillsWrong;
    hide StaleCount;
    var data := image[regions[c].base..regions[c].End()];
    var at := |m.log| + CommandsAbove(regions, mask, c) + CutAt(data);
    DeceiverStores(ec, n, at, CountIn(regions[c], image), WrongImage(regions[c], image));
    WrongImageFills(regions, mask, image, c);
    hide WrongImage;
    hide Deceiver;
    hide NoFalseReads;
    PhaseDeceived(PhaseDeceiver(ec, n, |m.log|, regions, mask, image, c), m, regions, mask, image, rv, c,
                  WrongImage(regions[c], image));
  }

  /** A phase without error is right on this EC. */
  ghost predicate PhaseVerifies(ec: Ec, m: Machine, regions: seq<Region>, mask: nat, image: seq<byte>, rv: int)
    requires Ordered(regions, |image|) && |image| <= |m.s.flash| && MaskWithin(mask, |regions|)
  {
    var (rv', m') := PhaseRun(ec, m, regions, mask, image, rv);
    NoFalseReads(ec) && rv' >= 0 ==> m'.s.flash == Expected(m.s.flash, image, regions, mask)
  }

  /** Exactly which images are safe: a phase that ends without error leaves exactly the expected
      flash, on every EC that delivers no false bytes, if and only if the image is fresh in every
      selected region. */
  lemma PhaseIsSoundIff(m: Machine, regions: seq<Region>, mask: nat, image: seq<byte>, rv: int)
    requires Ordered(regions, |image|) && |image| <= |m.s.flash| && MaskWithin(mask, |regions|) && rv >= 0
    ensures (forall ec :: PhaseVerifies(ec, m, regions, mask, image, rv)) <==> AllFresh(regions, mask, image)
  {
    hide PhaseRun;
    hide PhaseTrusted;
    hide Expected;
    hide HoldsFrom;
    hide Untouched;
    hide NoFalseReads;
    hide FreshIn;
    hide PhaseDeceiver;
    if AllFresh(regions, mask, image) {
      forall ec
        ensures PhaseVerifies(ec, m, regions, mask, image, rv)
      {
        if NoFalseReads(ec) {
          FreshPhaseIsTrusted(ec, m, regions, mask, image);
          VerifiedMeansFlashed(ec, m, regions, mask, image, rv);
        }
      }
    } else {
      var c: nat :| c < |regions| && BitSet(mask, c) && !FreshIn(regions[c], image);
      var ec := PhaseDeceiver(OBEYING, |m.log|, |m.log|, regions, mask, image, c);
      PhaseIsDeceived(OBEYING, |m.log|, m, regions, mask, image, rv, c);
      PhaseSafety(ec, m, regions, mask, image, rv, false);
      FinishedIsExpected(PhaseRun(ec, m, regions, mask, image, rv).1.s.flash, m.s.flash, image, regions, mask);
      assert !PhaseVerifies(ec, m, regions, mask, image, rv);
    }
  }

  // ---------------------------------------------------------------- false bytes

  /** An EC that stores `fill` and, from the n-th command on, tells `bytes` instead. */
  function Liar(n: nat, fill: nat -> byte, bytes: nat -> byte): Ec {
    OBEYING.(faults := (k: nat) => if k < n then Rogue(0, fill, 240, 0) else FalseRead(MAX_RESPONSE, bytes))
  }

  lemma {:induction false} ReadsTold(n: nat, m: Machine, offset: nat, data: seq<byte>, buf: seq<byte>, got: seq<byte>,
                                     fill: nat -> byte, bytes: nat -> byte)
    requires n <= |m.log| && offset + |data| <= |m.s.flash| && |buf| == MAX_RESPONSE
    requires forall k :: 0 <= k < |data| ==> bytes(offset + k) == data[k]
    ensures var (rv, all, m') := ReadLoop(Liar(n, fill, bytes), m, offset, |data|, buf, got);
            rv == 0 && all == got + data && m'.s == m.s
    decreases |data|
  {
    hide Send;
    hide ReadLoop;
    var ec, size := Liar(n, fill, bytes), |data|;
    if size == 0 {
      ReadDone(ec, m, offset, buf, got);
      assert got + data == got;
    } else {
      ReadStep(ec, m, offset, size, buf, got);
      var k := Min(size, MAX_RESPONSE);
      ReadReply(ec, m, offset, k);
      PacketTold(n, m, offset, k, fill, bytes);
      var (reply, m1) := Send(ec, m, FlashRead(offset, k));
      hide Liar;
      assert reply.data == data[..k];
      var buf' := Splice(buf, 0, reply.data);
      assert buf'[..k] == data[..k];
      InTwo(data, k, got);
      forall j | 0 <= j < |data[k..]|
        ensures bytes(offset + k + j) == data[k..][j]
      {
        assert bytes(offset + (k + j)) == data[k + j];
      }
      ReadsTold(n, m1, offset + k, data[k..], buf', got + buf'[..k], fill, bytes);
    }
  }

  lemma PacketTold(n: nat, m: Machine, offset: nat, k: nat, fill: nat -> byte, bytes: nat -> byte)
    requires n <= |m.log| && offset + k <= |m.s.flash| && k <= MAX_RESPONSE
    ensures Send(Liar(n, fill, bytes), m, FlashRead(offset, k)).0 == Reply(k, Told(offset, k, bytes), 0)
  {
  }

  lemma TellsImage(image: seq<byte>, r: Region)
    requires r.End() <= |image|
    ensures var data, bytes := image[r.base..r.End()], Changed(image, |image|);
            forall k :: 0 <= k < |data| ==> bytes(r.base + k) == data[k]
  {
  }

  lemma LiarPasses(m: Machine, r: Region, image: seq<byte>)
    requires r.End() <= |image| && r.End() <= |m.s.flash| && r.size > 0
    ensures var n := |m.log| + CommandsToWrite(r.size);
            var (rv, m') := RegionRun(Liar(n, Changed(image, r.base), Changed(image, |image|)), m, r, image);
            rv == 0 && !Holds(m'.s.flash, image, r)
  {
    hide EraseRun;
    hide WriteRun;
    hide ReadLoop;
    hide PacketCount;
    var data := image[r.base..r.End()];
    var n, fill, bytes := |m.log| + CommandsToWrite(r.size), Changed(image, r.base), Changed(image, |image|);
    var ec := Liar(n, fill, bytes);
    EraseStored(ec, m, r.base, r.size, fill);
    var m1 := EraseRun(ec, m, r.base, r.size).1;
    WriteRunStored(ec, m1, r.base, data, fill);
    var m2 := WriteRun(ec, m1, r.base, data).1;
    hide Liar;
    hide Stores;
    TellsImage(image, r);
    ReadsTold(n, m2, r.base, data, Zeros(MAX_RESPONSE), [], fill, bytes);
    assert [] + data == data;
    assert m2.s.flash[r.base..r.End()][0] == fill(r.base) != data[0];
  }

  ghost predicate VerifiesAnyway(ec: Ec, m: Machine, r: Region, image: seq<byte>)
    requires r.End() <= |image| && r.End() <= |m.s.flash|
  {
    var (rv, m') := RegionRun(ec, m, r, image);
    rv >= 0 ==> Holds(m'.s.flash, image, r)
  }

  /** Against false bytes verification is worth nothing: no region but an empty one can be relied
      on, whatever the image. */
  lemma LiesAreNotNoticed(m: Machine, r: Region, image: seq<byte>)
    requires r.End() <= |image| && r.End() <= |m.s.flash|
    ensures (forall ec :: VerifiesAnyway(ec, m, r, image)) <==> r.size == 0
  {
    hide RegionRun;
    if r.size == 0 {
      forall ec
        ensures VerifiesAnyway(ec, m, r, image)
      {
        var m' := RegionRun(ec, m, r, image).1;
        assert m'.s.flash[r.base..r.End()] == image[r.base..r.End()];
      }
    } else {
      hide Holds;
      LiarPasses(m, r, image);
      var ec := Liar(|m.log| + CommandsToWrite(r.size), Changed(image, r.base), Changed(image, |image|));
      assert !VerifiesAnyway(ec, m, r, image);
    }
  }
}
