/** The sizes of write packets. */
module FlashPackets {
  import opened Bytes
  import opened EcDevice
  import opened Flash

  /** The step is the largest multiple of the write size in 248 bytes. It is positive up to 248;
      a full chunk fits behind its 8-byte header exactly if 8 bytes were left over; and beyond
      248 the step is zero, with which the write loop cannot advance. */
  lemma PacketBound(w: nat)
    requires w > 0
    ensures Step(w) == 248 - 248 % w
    ensures Step(w) > 0 <==> w <= 248
    ensures w <= 248 ==> (8 + Step(w) <= 248 <==> Fitting(w))
    ensures Fitting(w) <==> w <= 248 && 248 % w >= 8
    ensures Step(w) % w == 0 && Step(w) + w > 248
  {
    DivideAndMultiply(MAX_REQUEST, w);
    MultipleModulo(MAX_REQUEST / w, w);
    if w > MAX_REQUEST {
      assert MAX_REQUEST / w == 0;
    }
  }

  /** All multiples of 16 up to 240 fit. */
  lemma CommonSizesFit(w: nat)
    requires 0 < w <= 240 && w % 16 == 0
    ensures Fitting(w)
  {
    assert w == 16 || w == 32 || w == 48 || w == 64 || w == 80 || w == 96 || w == 112 || w == 128
        || w == 144 || w == 160 || w == 176 || w == 192 || w == 208 || w == 224 || w == 240;
  }

  /** A packet of a write: not empty, small enough to be sent, and on write block boundaries. */
  predicate PacketFits(q: Request, block: nat)
    requires block > 0
  {
    && q.FlashWrite? && 0 < |q.data| <= 240
    && q.offset % block == 0 && |q.data| % block == 0
  }

  lemma {:induction false} WriteLoopPackets(ec: Ec, m: Machine, offset: nat, data: seq<byte>, step: nat, block: nat)
    requires offset + |data| <= |m.s.flash| && 0 < step <= MAX_REQUEST - WRITE_HEADER && block > 0
    requires offset % block == 0 && |data| % block == 0 && step % block == 0
    ensures var m' := WriteLoop(ec, m, offset, data, step).1;
            && Extends(m, m')
            && forall k :: |m.log| <= k < |m'.log| ==> PacketFits(m'.log[k].request, block)
    decreases |data|
  {
    hide WriteLoop;
    if data == [] {
      WriteDone(ec, m, offset, step);
    } else {
      WriteStep(ec, m, offset, data, step);
      var n := Min(|data|, step);
      var q := FlashWrite(offset, data[..n]);
      var (reply, m1) := Send(ec, m, q);
      assert m1.log == m.log + [m1.log[|m.log|]] && m1.log[|m.log|].request == q;
      hide Send;
      if reply.rv >= 0 {
        MultiplesAddUp(offset, n, |data|, block);
        WriteLoopPackets(ec, m1, offset + n, data[n..], step, block);
        var m' := WriteLoop(ec, m1, offset + n, data[n..], step).1;
        assert m'.log[..|m.log|] == m'.log[..|m1.log|][..|m.log|];
        assert m'.log[|m.log|] == m'.log[..|m1.log|][|m.log|];
      }
    }
  }

  /** The step keeps to every block size the write size keeps to. */
  lemma StepOfMultiple(w: nat, block: nat)
    requires w > 0 && block > 0 && w % block == 0
    ensures Step(w) % block == 0
  {
    var n, k := MAX_REQUEST / w, w / block;
    DivideAndMultiply(w, block);
    assert Step(w) == n * (k * block) == (n * k) * block;
    MultipleModulo(n * k, block);
  }

  /** Every command of a write, on every EC, is the size query or a packet that fits; and if
      base, size and the write size the EC reports are multiples of the write block, so are the
      offset and the size of every packet. */
  lemma WritePackets(ec: Ec, m: Machine, offset: nat, data: seq<byte>, block: nat)
    requires offset + |data| <= |m.s.flash| && block > 0
    requires offset % block == 0 && |data| % block == 0 && Send(ec, m, FlashInfo).0.number % block == 0
    ensures var m' := WriteRun(ec, m, offset, data).1;
            && Extends(m, m') && |m.log| < |m'.log|
            && m'.log[|m.log|].request == FlashInfo
            && forall k :: |m.log| < k < |m'.log| ==> PacketFits(m'.log[k].request, block)
  {
    var (reply, m1) := Send(ec, m, FlashInfo);
    assert m1.log == m.log + [m1.log[|m.log|]] && m1.log[|m.log|].request == FlashInfo;
    hide Send;
    if reply.rv >= 0 {
      StepIsPositive(reply.number);
      StepOfMultiple(reply.number, block);
      WriteLoopPackets(ec, m1, offset, data, Step(reply.number), block);
      var m' := WriteLoop(ec, m1, offset, data, Step(reply.number)).1;
      assert m'.log[..|m.log|] == m'.log[..|m1.log|][..|m.log|];
      assert m'.log[|m.log|] == m'.log[..|m1.log|][|m.log|];
    }
  }

  // ---------------------------------------------------------------- write sizes that do not fit

  /** A packet that fits behind its header. */
  predicate Fits(q: Request) {
    q.FlashWrite? && |q.data| <= 240
  }

  lemma {:induction false} WriteLoopSizes(ec: Ec, m: Machine, offset: nat, data: seq<byte>, step: nat)
    requires offset + |data| <= |m.s.flash| && step > 0
    ensures var m' := WriteLoop(ec, m, offset, data, step).1;
            && Extends(m, m')
            && (data != [] ==>
                  && |m.log| < |m'.log|
                  && m'.log[|m.log|].request == FlashWrite(offset, data[..Min(|data|, step)]))
            && forall k :: |m.log| <= k < |m'.log| ==>
                 m'.log[k].request.FlashWrite? && |m'.log[k].request.data| <= Min(|data|, step)
    decreases |data|
  {
    hide WriteLoop;
    if data == [] {
      WriteDone(ec, m, offset, step);
    } else {
      WriteStep(ec, m, offset, data, step);
      var n := Min(|data|, step);
      var q := FlashWrite(offset, data[..n]);
      var (reply, m1) := Send(ec, m, q);
      assert m1.log == m.log + [m1.log[|m.log|]] && m1.log[|m.log|].request == q;
      hide Send;
      if reply.rv >= 0 {
        WriteLoopSizes(ec, m1, offset + n, data[n..], step);
        ExtendsTransitive(m, m1, WriteLoop(ec, m1, offset + n, data[n..], step).1);
      }
    }
  }

  /** Exactly which writes stay inside the command buffer: on every EC, for every write size the
      loop can advance with, all packets of a write fit if and only if the write size fits or
      the whole write is at most 240 bytes. */
  lemma WritesFitIff(ec: Ec, m: Machine, offset: nat, data: seq<byte>, w: nat)
    requires 1 <= w <= 248 && offset + |data| <= |m.s.flash|
    ensures Step(w) > 0
    ensures var m' := WriteLoop(ec, m, offset, data, Step(w)).1;
            (forall k :: |m.log| <= k < |m'.log| ==> Fits(m'.log[k].request))
            <==> 248 % w >= 8 || |data| <= 240
  {
    hide Step;
    hide WriteLoop;
    PacketBound(w);
    WriteLoopSizes(ec, m, offset, data, Step(w));
    var m' := WriteLoop(ec, m, offset, data, Step(w)).1;
    if !Fitting(w) && |data| > MAX_REQUEST - WRITE_HEADER {
      assert !Fits(m'.log[|m.log|].request);
    }
  }

  /** Small powers of two do not fit: they fill the buffer and leave no room for the header. */
  lemma SmallSizesDoNotFit(w: nat)
    requires w in {1, 2, 4, 8}
    ensures !Fitting(w) && Step(w) == 248
  {
  }

  /** With more than a packet, 256 for one, the step is zero: every packet is empty, and the write
      never gets on. */
  lemma LargeSizesStall(w: nat, size: nat)
    requires w > 248
    ensures Step(w) == 0 && Min(size, Step(w)) == 0
  {
    PacketBound(w);
  }

  // ---------------------------------------------------------------- multiples

  lemma MultiplesAddUp(a: nat, n: nat, size: nat, block: nat)
    requires block > 0 && n <= size
    requires a % block == 0 && n % block == 0 && size % block == 0
    ensures (a + n) % block == 0 && (size - n) % block == 0
  {
    SumOfMultiples(a, n, block);
    DifferenceOfMultiples(size, n, block);
  }

  lemma SumOfMultiples(a: nat, b: nat, w: nat)
    requires w > 0 && a % w == 0 && b % w == 0
    ensures (a + b) % w == 0
  {
    DivideAndMultiply(a, w);
    DivideAndMultiply(b, w);
    Distribute(a / w, b / w, w);
    MultipleModulo(a / w + b / w, w);
  }

  lemma DifferenceOfMultiples(a: nat, b: nat, w: nat)
    requires w > 0 && b <= a && a % w == 0 && b % w == 0
    ensures (a - b) % w == 0
  {
    DivideAndMultiply(a, w);
    DivideAndMultiply(b, w);
    var x, y := a / w, b / w;
    Distribute(x, -y, w);
    MultipleModulo(x - y, w);
  }

  lemma Distribute(x: int, y: int, w: nat)
    ensures (x + y) * w == x * w + y * w
  {
  }

  lemma MultipleModulo(k: int, w: nat)
    requires w > 0
    ensures k * w % w == 0
  {
    var q, r := k * w / w, k * w % w;
    assert k * w == q * w + r;
    Distribute(k, -q, w);
    assert (k - q) * w == r;
    if k - q >= 1 {
      Distribute(k - q - 1, 1, w);
    } else if k - q <= -1 {
      Distribute(k - q + 1, -1, w);
    }
  }
}
