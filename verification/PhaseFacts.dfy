/** What flashing the selected regions keeps at every command, and what it achieves. */
module PhaseFacts {
  import opened Bytes
  import opened EcDevice
  import opened Flash
  import opened FlashFacts
  import opened ReadFacts
  import opened Regions
  import opened Reflash

  // ---------------------------------------------------------------- one region

  ghost predicate Holds(flash: seq<byte>, image: seq<byte>, r: Region) {
    r.End() <= |flash| && r.End() <= |image| && flash[r.base..r.End()] == image[r.base..r.End()]
  }

  /** Reading a region back after writing it was right packet by packet: what was delivered is the
      flash's, and what was left undelivered was in the packet buffer already. */
  ghost predicate ReadBackTrusted(ec: Ec, m: Machine, r: Region, image: seq<byte>)
    requires r.End() <= |image| && r.End() <= |m.s.flash|
  {
    var (rv1, m1) := EraseRun(ec, m, r.base, r.size);
    var (rv2, m2) := WriteRun(ec, m1, r.base, image[r.base..r.End()]);
    rv1 >= 0 && rv2 >= 0 && ReadRun(ec, m2, r.base, r.size).0 == 0 ==>
      PacketsMatch(ec, |m2.log|, m2.s.flash, r.base, r.size, Zeros(MAX_RESPONSE))
  }

  /** Flashing a region touches only that region, on every EC and at every command. When its
      verification can be trusted: if it passes, the region holds the image exactly if reading
      back was right packet by packet. */
  lemma VerificationExact(ec: Ec, m: Machine, r: Region, image: seq<byte>)
    requires r.End() <= |image| && r.End() <= |m.s.flash|
    ensures var (rv, m') := RegionRun(ec, m, r, image);
            && Confined(ec, m, m', r.base, r.End())
            && (rv >= 0 ==> (Holds(m'.s.flash, image, r) <==> ReadBackTrusted(ec, m, r, image)))
  {
    hide EraseRun;
    hide WriteRun;
    hide ReadLoop;
    hide PacketsMatch;
    var data := image[r.base..r.End()];
    var (rv1, m1) := EraseRun(ec, m, r.base, r.size);
    EraseRunConfined(ec, m, r.base, r.size);
    if rv1 >= 0 {
      var (rv2, m2) := WriteRun(ec, m1, r.base, data);
      WriteRunConfined(ec, m1, r.base, data);
      ConfinedTransitive(ec, m, m1, m2, r.base, r.End());
      if rv2 >= 0 {
        ReadLoopConfined(ec, m2, r.base, r.size, Zeros(MAX_RESPONSE), [], r.base, r.End());
        var (rv3, got, m3) := ReadRun(ec, m2, r.base, r.size);
        ConfinedTransitive(ec, m, m2, m3, r.base, r.End());
        ReadExact(ec, m2, r.base, r.size);
      }
    }
  }

  /** What flashing a region returns: the first error of erase, write and read, or -1 if what was
      read back is not the image. */
  lemma RegionReturns(ec: Ec, m: Machine, r: Region, image: seq<byte>)
    requires r.End() <= |image| && r.End() <= |m.s.flash|
    ensures var rv := RegionRun(ec, m, r, image).0;
            var (rv1, m1) := EraseRun(ec, m, r.base, r.size);
            var (rv2, m2) := WriteRun(ec, m1, r.base, image[r.base..r.End()]);
            var (rv3, got, _) := ReadRun(ec, m2, r.base, r.size);
            && (rv1 < 0 ==> rv == rv1)
            && (rv1 >= 0 && rv2 < 0 ==> rv == rv2)
            && (rv1 >= 0 && rv2 >= 0 && rv3 < 0 ==> rv == rv3)
            && (rv1 >= 0 && rv2 >= 0 && rv3 >= 0 ==> rv == if got == image[r.base..r.End()] then 0 else -1)
  {
    hide EraseRun;
    hide WriteRun;
    hide ReadLoop;
  }

  /** It was if every read that succeeded delivered all of what the flash holds. */
  lemma TrueReadBack(ec: Ec, m: Machine, r: Region, image: seq<byte>)
    requires r.End() <= |image| && r.End() <= |m.s.flash|
    ensures TrueReads(m, RegionRun(ec, m, r, image).1) ==> ReadBackTrusted(ec, m, r, image)
  {
    hide EraseRun;
    hide WriteRun;
    hide ReadLoop;
    hide PacketsMatch;
    hide TrueRead;
    var data := image[r.base..r.End()];
    var (rv1, m1) := EraseRun(ec, m, r.base, r.size);
    EraseRunConfined(ec, m, r.base, r.size);
    var (rv2, m2) := WriteRun(ec, m1, r.base, data);
    WriteRunConfined(ec, m1, r.base, data);
    if rv1 >= 0 && rv2 >= 0 {
      TrueLoopMatches(ec, m2, r.base, r.size, Zeros(MAX_RESPONSE), []);
    }
  }

  /** On an EC that obeys, flashing a region succeeds; the region then holds the image, the rest
      is as before; and on the way the bytes written never exceed the bytes erased, nor lag
      behind them by more than the region. */
  lemma RegionMeaning(ec: Ec, m: Machine, r: Region, image: seq<byte>)
    requires Obedient(ec) && r.End() <= |image| && r.End() <= |m.s.flash|
    ensures var (rv, m') := RegionRun(ec, m, r, image);
            && rv == 0
            && m'.s == m.s.(flash := Splice(m.s.flash, r.base, image[r.base..r.End()]),
                            erased := m.s.erased + r.size, written := m.s.written + r.size)
            && Balanced(m, m', r.size)
  {
    hide EraseRun;
    hide WriteRun;
    hide ReadRun;
    hide Programmed;
    hide Erased;
    var data := image[r.base..r.End()];
    EraseMeaning(ec, m, r.base, r.size);
    var m1 := EraseRun(ec, m, r.base, r.size).1;
    WriteMeaning(ec, m1, r.base, data);
    var m2 := WriteRun(ec, m1, r.base, data).1;
    EraseThenProgram(m.s.flash, r.base, data);
    ReadMeaning(ec, m2, r.base, r.size);
    var m3 := ReadRun(ec, m2, r.base, r.size).2;
    assert Splice(m.s.flash, r.base, data)[r.base..r.base + r.size] == data;
    BalancedSteps(m, m1, m2, m3, r.size);
  }

  /** At every command from `m` to `m'`, written <= erased <= written + size, counted from `m`. */
  ghost predicate Balanced(m: Machine, m': Machine, size: nat) {
    && Extends(m, m')
    && forall k :: |m.log| <= k < |m'.log| ==> EntryBalanced(m'.log[k], m.s, size)
  }

  predicate EntryBalanced(e: Entry, s: Snapshot, size: nat) {
    var erased, written := e.after.erased - s.erased, e.after.written - s.written;
    0 <= written <= erased <= written + size
  }

  lemma BalancedSteps(m: Machine, m1: Machine, m2: Machine, m3: Machine, size: nat)
    requires Worked(m, m1, 0, size, 0, 0) && m1.s.erased == m.s.erased + size && m1.s.written == m.s.written
    requires Worked(m1, m2, 0, 0, 0, size) && m2.s.erased == m1.s.erased && m2.s.written == m1.s.written + size
    requires Worked(m2, m3, 0, 0, 0, 0)
    ensures Balanced(m, m3, size)
  {
    assert m3.log[..|m1.log|] == m3.log[..|m2.log|][..|m1.log|];
    assert m3.log[..|m.log|] == m3.log[..|m1.log|][..|m.log|];
    forall k | |m.log| <= k < |m3.log|
      ensures EntryBalanced(m3.log[k], m.s, size)
    {
      if k < |m1.log| {
        assert m3.log[k] == m3.log[..|m1.log|][k];
        assert EntryWorked(m1.log[k], m.s, 0, size, 0, 0);
      } else if k < |m2.log| {
        assert m3.log[k] == m3.log[..|m2.log|][k];
        assert EntryWorked(m2.log[k], m1.s, 0, 0, 0, size);
      } else {
        assert EntryWorked(m3.log[k], m2.s, 0, 0, 0, 0);
      }
    }
  }

  // ---------------------------------------------------------------- safety of every run

  /** Byte `j` lies in a selected region with index `c` or above. */
  ghost predicate Covered(regions: seq<Region>, mask: nat, c: nat, j: int) {
    exists r: nat :: c <= r < |regions| && BitSet(mask, r) && InRegion(regions[r], j)
  }

  predicate InRegion(r: Region, j: int) {
    r.base <= j < r.End()
  }

  /** The run has got to region `c`: nothing outside the selected regions from `c` up has changed
      since `start`; and, if reading back can be trusted, those above `c` hold the image. */
  ghost predicate AtRegion(flash: seq<byte>, start: seq<byte>, image: seq<byte>, regions: seq<Region>, mask: nat,
                           c: nat, honest: bool) {
    && c < |regions| && BitSet(mask, c)
    && Untouched(flash, start, regions, mask, c)
    && (honest ==> HoldsFrom(flash, image, regions, mask, c + 1))
  }

  ghost predicate Untouched(flash: seq<byte>, start: seq<byte>, regions: seq<Region>, mask: nat, c: nat) {
    |flash| == |start| && forall j :: 0 <= j < |flash| && !Covered(regions, mask, c, j) ==> flash[j] == start[j]
  }

  ghost predicate HoldsFrom(flash: seq<byte>, image: seq<byte>, regions: seq<Region>, mask: nat, c: nat) {
    forall r: nat :: c <= r < |regions| && BitSet(mask, r) ==> Holds(flash, image, regions[r])
  }

  /** A command was sent while the run was at some region, and if it could modify flash, its
      range lay in that region. */
  ghost predicate Placed(e: Entry, start: seq<byte>, image: seq<byte>, regions: seq<Region>, mask: nat, honest: bool) {
    exists c: nat :: PlacedAt(e, start, image, regions, mask, c, honest)
  }

  ghost predicate PlacedAt(e: Entry, start: seq<byte>, image: seq<byte>, regions: seq<Region>, mask: nat, c: nat,
                           honest: bool) {
    && AtRegion(e.after.flash, start, image, regions, mask, c, honest)
    && (Modifying(e.request) ==> regions[c].base <= Range(e.request).0 && Range(e.request).1 <= regions[c].End())
    && !e.request.FlashNotified? && !e.request.GetVersion?
  }

  /** What holds from `m` to the end of a run with result `rv`. */
  ghost predicate Safe(m: Machine, rv: int, m': Machine, regions: seq<Region>, mask: nat, image: seq<byte>,
                       honest: bool) {
    && Extends(m, m')
    && (forall k :: |m.log| <= k < |m'.log| ==> Placed(m'.log[k], m.s.flash, image, regions, mask, honest))
    && (rv < 0 ==> exists c: nat :: AtRegion(m'.s.flash, m.s.flash, image, regions, mask, c, honest))
    && (rv >= 0 ==>
          && Untouched(m'.s.flash, m.s.flash, regions, mask, 0)
          && (honest ==> HoldsFrom(m'.s.flash, image, regions, mask, 0)))
  }

  /** The mask with its highest region done. */
  lemma MaskRest(mask: nat, n: nat)
    requires mask > 0 && MaskWithin(mask, n)
    ensures var top := LeadingBit(mask);
            forall k: nat :: BitSet(WithoutBit(mask, top), k) <==> k < top && BitSet(mask, k)
    ensures forall k: nat :: BitSet(mask, k) ==> k <= LeadingBit(mask)
    ensures LeadingBit(mask) < n && BitSet(mask, LeadingBit(mask))
  {
    var top := LeadingBit(mask);
    LeadingBitSet(mask);
    forall k: nat
      ensures BitSet(WithoutBit(mask, top), k) <==> k < top && BitSet(mask, k)
      ensures BitSet(mask, k) ==> k <= top
    {
      WithoutBitBits(mask, top, k);
      if BitSet(mask, k) {
        NothingAboveLeadingBit(mask, k);
      }
    }
  }

  /** While the highest region is being flashed. */
  lemma AtTop(flash: seq<byte>, start: seq<byte>, image: seq<byte>, regions: seq<Region>, mask: nat, honest: bool)
    requires mask > 0 && MaskWithin(mask, |regions|)
    requires var r := regions[LeadingBitBelow(mask, |regions|)]; SameOutside(flash, start, r.base, r.End())
    ensures AtRegion(flash, start, image, regions, mask, LeadingBit(mask), honest)
  {
    MaskRest(mask, |regions|);
    var top := LeadingBit(mask);
    forall j | 0 <= j < |flash| && !Covered(regions, mask, top, j)
      ensures flash[j] == start[j]
    {
      assert !InRegion(regions[top], j);
    }
  }

  function LeadingBitBelow(mask: nat, n: nat): (k: nat)
    requires mask > 0 && MaskWithin(mask, n)
    ensures k < n && k == LeadingBit(mask)
  {
    MaskStep(mask, n);
    LeadingBit(mask)
  }

  /** What is safe for the rest of the regions is safe for all of them, once the highest region
      has been flashed. */
  lemma RestIsAtRegion(flash: seq<byte>, middle: seq<byte>, start: seq<byte>, image: seq<byte>, regions: seq<Region>,
                       mask: nat, c: nat, honest: bool)
    requires mask > 0 && MaskWithin(mask, |regions|) && Ordered(regions, |image|) && |image| <= |start|
    requires var top := LeadingBitBelow(mask, |regions|);
             && SameOutside(middle, start, regions[top].base, regions[top].End())
             && (honest ==> Holds(middle, image, regions[top]))
             && AtRegion(flash, middle, image, regions, WithoutBit(mask, top), c, honest)
    ensures AtRegion(flash, start, image, regions, mask, c, honest)
  {
    MaskRest(mask, |regions|);
    var top := LeadingBit(mask);
    RestIsUntouched(flash, middle, start, image, regions, mask, c);
    if honest {
      forall r: nat | c + 1 <= r < |regions| && BitSet(mask, r)
        ensures Holds(flash, image, regions[r])
      {
        if r == top {
          TopKept(flash, middle, image, regions, mask, c);
        }
      }
    }
  }

  lemma RestIsUntouched(flash: seq<byte>, middle: seq<byte>, start: seq<byte>, image: seq<byte>, regions: seq<Region>,
                        mask: nat, c: nat)
    requires mask > 0 && MaskWithin(mask, |regions|)
    requires c <= LeadingBit(mask)
    requires var top := LeadingBitBelow(mask, |regions|);
             && SameOutside(middle, start, regions[top].base, regions[top].End())
             && Untouched(flash, middle, regions, WithoutBit(mask, top), c)
    ensures Untouched(flash, start, regions, mask, c)
  {
    MaskRest(mask, |regions|);
    var top := LeadingBit(mask);
    forall j | 0 <= j < |flash| && !Covered(regions, mask, c, j)
      ensures flash[j] == start[j]
    {
      assert !InRegion(regions[top], j);
      assert !Covered(regions, WithoutBit(mask, top), c, j);
    }
  }

  /** The highest region is not among the rest. */
  lemma TopKept(flash: seq<byte>, middle: seq<byte>, image: seq<byte>, regions: seq<Region>, mask: nat, c: nat)
    requires mask > 0 && MaskWithin(mask, |regions|) && Ordered(regions, |image|)
    requires Untouched(flash, middle, regions, WithoutBit(mask, LeadingBitBelow(mask, |regions|)), c)
    requires |image| <= |middle|
    ensures var r := regions[LeadingBitBelow(mask, |regions|)]; Holds(flash, image, r) <==> Holds(middle, image, r)
  {
    MaskRest(mask, |regions|);
    var top := LeadingBit(mask);
    var r := regions[top];
    forall j | r.base <= j < r.End()
      ensures flash[j] == middle[j]
    {
      assert !Covered(regions, WithoutBit(mask, top), c, j);
    }
    assert flash[r.base..r.End()] == middle[r.base..r.End()];
  }

  /** Reading back could be trusted for every region that was flashed. */
  ghost predicate PhaseTrusted(ec: Ec, m: Machine, regions: seq<Region>, mask: nat, image: seq<byte>)
    requires Ordered(regions, |image|) && |image| <= |m.s.flash| && MaskWithin(mask, |regions|)
    decreases mask
  {
    mask == 0 ||
    (MaskStep(mask, |regions|);
     var top := LeadingBit(mask);
     var (rv, m1) := RegionRun(ec, m, regions[top], image);
     rv >= 0 ==>
       && ReadBackTrusted(ec, m, regions[top], image)
       && PhaseTrusted(ec, m1, regions, WithoutBit(mask, top), image))
  }

  /** Safety of every run on every EC: whatever commands fail and whatever they leave in their
      range, at every command the run is at one region, all lower regions and everything not
      selected are as at the start, and (if reading back can be trusted) all higher selected
      regions hold the image. A run that ends without error has flashed them all. */
  lemma {:induction false} PhaseSafety(ec: Ec, m: Machine, regions: seq<Region>, mask: nat, image: seq<byte>,
                                       rv: int, honest: bool)
    requires Ordered(regions, |image|) && |image| <= |m.s.flash| && MaskWithin(mask, |regions|) && rv >= 0
    requires honest ==> PhaseTrusted(ec, m, regions, mask, image)
    ensures var (rv', m') := PhaseRun(ec, m, regions, mask, image, rv);
            Safe(m, rv', m', regions, mask, image, honest)
    decreases mask
  {
    if mask == 0 {
      forall r: nat
        ensures !BitSet(mask, r)
      {
        ZeroHasNoBits(r);
      }
    } else {
      hide RegionRun;
      hide ReadBackTrusted;
      MaskStep(mask, |regions|);
      var top := LeadingBit(mask);
      var (rv1, m1) := RegionRun(ec, m, regions[top], image);
      VerificationExact(ec, m, regions[top], image);
      TopPlaced(ec, m, m1, regions, mask, image, honest);
      if rv1 < 0 {
        AtTop(m1.s.flash, m.s.flash, image, regions, mask, honest);
      } else {
        var rest := WithoutBit(mask, top);
        var (rv2, m2) := PhaseRun(ec, m1, regions, rest, image, rv1);
        PhaseSafety(ec, m1, regions, rest, image, rv1, honest);
        RestIsSafe(ec, m, m1, rv2, m2, regions, mask, image, honest);
      }
    }
  }

  lemma TopPlaced(ec: Ec, m: Machine, m1: Machine, regions: seq<Region>, mask: nat, image: seq<byte>, honest: bool)
    requires mask > 0 && MaskWithin(mask, |regions|)
    requires var r := regions[LeadingBitBelow(mask, |regions|)]; Confined(ec, m, m1, r.base, r.End())
    ensures forall k :: |m.log| <= k < |m1.log| ==>
              PlacedAt(m1.log[k], m.s.flash, image, regions, mask, LeadingBit(mask), honest)
  {
    var top := LeadingBitBelow(mask, |regions|);
    forall k | |m.log| <= k < |m1.log|
      ensures PlacedAt(m1.log[k], m.s.flash, image, regions, mask, top, honest)
    {
      assert EntryConfined(ec, m1.log[k], m.s.flash, regions[top].base, regions[top].End());
      AtTop(m1.log[k].after.flash, m.s.flash, image, regions, mask, honest);
    }
  }

  lemma RestIsSafe(ec: Ec, m: Machine, m1: Machine, rv: int, m2: Machine, regions: seq<Region>, mask: nat,
                   image: seq<byte>, honest: bool)
    requires mask > 0 && MaskWithin(mask, |regions|) && Ordered(regions, |image|) && |image| <= |m.s.flash|
    requires var top := LeadingBitBelow(mask, |regions|);
             && Confined(ec, m, m1, regions[top].base, regions[top].End())
             && (honest ==> Holds(m1.s.flash, image, regions[top]))
             && Safe(m1, rv, m2, regions, WithoutBit(mask, top), image, honest)
    requires forall k :: |m.log| <= k < |m1.log| ==>
               PlacedAt(m1.log[k], m.s.flash, image, regions, mask, LeadingBit(mask), honest)
    ensures Safe(m, rv, m2, regions, mask, image, honest)
  {
    var top := LeadingBitBelow(mask, |regions|);
    var rest := WithoutBit(mask, top);
    assert m2.log[..|m.log|] == m2.log[..|m1.log|][..|m.log|];
    forall k | |m.log| <= k < |m2.log|
      ensures Placed(m2.log[k], m.s.flash, image, regions, mask, honest)
    {
      if k < |m1.log| {
        assert m2.log[k] == m2.log[..|m1.log|][k];
      } else {
        var c: nat :| PlacedAt(m2.log[k], m1.s.flash, image, regions, rest, c, honest);
        RestIsAtRegion(m2.log[k].after.flash, m1.s.flash, m.s.flash, image, regions, mask, c, honest);
        assert PlacedAt(m2.log[k], m.s.flash, image, regions, mask, c, honest);
      }
    }
    if rv < 0 {
      var c: nat :| AtRegion(m2.s.flash, m1.s.flash, image, regions, rest, c, honest);
      RestIsAtRegion(m2.s.flash, m1.s.flash, m.s.flash, image, regions, mask, c, honest);
    } else {
      RestIsUntouched(m2.s.flash, m1.s.flash, m.s.flash, image, regions, mask, 0);
      RestHolds(m1, m2, regions, mask, image);
    }
  }

  /** At the end all selected regions hold the image exactly if the highest did after its turn,
      and the others do. */
  lemma RestHolds(m1: Machine, m2: Machine, regions: seq<Region>, mask: nat, image: seq<byte>)
    requires mask > 0 && MaskWithin(mask, |regions|) && Ordered(regions, |image|) && |image| <= |m1.s.flash|
    requires Untouched(m2.s.flash, m1.s.flash, regions, WithoutBit(mask, LeadingBitBelow(mask, |regions|)), 0)
    ensures var top := LeadingBitBelow(mask, |regions|);
            HoldsFrom(m2.s.flash, image, regions, mask, 0)
            <==>
            && Holds(m1.s.flash, image, regions[top])
            && HoldsFrom(m2.s.flash, image, regions, WithoutBit(mask, top), 0)
  {
    MaskRest(mask, |regions|);
    TopKept(m2.s.flash, m1.s.flash, image, regions, mask, 0);
  }

  // ---------------------------------------------------------------- what a finished run means

  /** The image where a region is selected, the old contents everywhere else. */
  ghost function Expected(start: seq<byte>, image: seq<byte>, regions: seq<Region>, mask: nat): (r: seq<byte>)
    requires Ordered(regions, |image|)
    ensures |r| == |start|
  {
    seq(|start|, j requires 0 <= j < |start| =>
      if j < |image| && Covered(regions, mask, 0, j) then image[j] else start[j])
  }

  lemma FinishedIsExpected(flash: seq<byte>, start: seq<byte>, image: seq<byte>, regions: seq<Region>, mask: nat)
    requires Ordered(regions, |image|) && |image| <= |start|
    requires Untouched(flash, start, regions, mask, 0)
    ensures flash == Expected(start, image, regions, mask) <==> HoldsFrom(flash, image, regions, mask, 0)
  {
    var expected := Expected(start, image, regions, mask);
    if HoldsFrom(flash, image, regions, mask, 0) {
      forall j | 0 <= j < |flash|
        ensures flash[j] == expected[j]
      {
        if Covered(regions, mask, 0, j) {
          var r: nat :| r < |regions| && BitSet(mask, r) && InRegion(regions[r], j);
          assert Holds(flash, image, regions[r]);
          assert flash[regions[r].base..regions[r].End()][j - regions[r].base] == flash[j];
          assert image[regions[r].base..regions[r].End()][j - regions[r].base] == image[j];
        }
      }
    }
    if flash == expected {
      forall r: nat | r < |regions| && BitSet(mask, r)
        ensures Holds(flash, image, regions[r])
      {
        ExpectedHolds(start, image, regions, mask, r);
      }
    }
  }

  lemma ExpectedHolds(start: seq<byte>, image: seq<byte>, regions: seq<Region>, mask: nat, r: nat)
    requires Ordered(regions, |image|) && |image| <= |start| && r < |regions| && BitSet(mask, r)
    ensures Holds(Expected(start, image, regions, mask), image, regions[r])
  {
    var expected := Expected(start, image, regions, mask);
    forall j | regions[r].base <= j < regions[r].End()
      ensures expected[j] == image[j]
    {
      assert InRegion(regions[r], j) && Covered(regions, mask, 0, j);
    }
    assert expected[regions[r].base..regions[r].End()] == image[regions[r].base..regions[r].End()];
  }

  /** A run that ends without error has put the image into every selected region only if reading
      back could be trusted. */
  lemma {:induction false} HoldingIsTrusted(ec: Ec, m: Machine, regions: seq<Region>, mask: nat, image: seq<byte>,
                                            rv: int)
    requires Ordered(regions, |image|) && |image| <= |m.s.flash| && MaskWithin(mask, |regions|) && rv >= 0
    requires var (rv', m') := PhaseRun(ec, m, regions, mask, image, rv);
             rv' >= 0 && HoldsFrom(m'.s.flash, image, regions, mask, 0)
    ensures PhaseTrusted(ec, m, regions, mask, image)
    decreases mask
  {
    if mask > 0 {
      hide RegionRun;
      hide ReadBackTrusted;
      hide HoldsFrom;
      hide Untouched;
      MaskStep(mask, |regions|);
      var top := LeadingBit(mask);
      var (rv1, m1) := RegionRun(ec, m, regions[top], image);
      var rest := WithoutBit(mask, top);
      VerificationExact(ec, m, regions[top], image);
      var m2 := PhaseRun(ec, m1, regions, rest, image, rv1).1;
      PhaseSafety(ec, m1, regions, rest, image, rv1, false);
      RestHolds(m1, m2, regions, mask, image);
      HoldingIsTrusted(ec, m1, regions, rest, image, rv1);
    }
  }

  /** Exactly when verification is sound: on every EC, whatever its erases and writes do and
      report, a run that ends without error has put the image into every selected region and
      changed no other byte if and only if reading back could be trusted for every region. */
  lemma VerifiedMeansFlashed(ec: Ec, m: Machine, regions: seq<Region>, mask: nat, image: seq<byte>, rv: int)
    requires Ordered(regions, |image|) && |image| <= |m.s.flash| && MaskWithin(mask, |regions|) && rv >= 0
    ensures var (rv', m') := PhaseRun(ec, m, regions, mask, image, rv);
            rv' >= 0 ==>
              (m'.s.flash == Expected(m.s.flash, image, regions, mask) <==> PhaseTrusted(ec, m, regions, mask, image))
  {
    var (rv', m') := PhaseRun(ec, m, regions, mask, image, rv);
    hide PhaseRun;
    hide PhaseTrusted;
    hide Expected;
    hide HoldsFrom;
    hide Untouched;
    if rv' >= 0 {
      var trusted := PhaseTrusted(ec, m, regions, mask, image);
      PhaseSafety(ec, m, regions, mask, image, rv, trusted);
      FinishedIsExpected(m'.s.flash, m.s.flash, image, regions, mask);
      if HoldsFrom(m'.s.flash, image, regions, mask, 0) {
        HoldingIsTrusted(ec, m, regions, mask, image, rv);
      }
    }
  }

  /** Reading back could be trusted if every read that succeeded delivered all of what the flash
      holds. On an EC that delivers no false bytes, they did exactly if every reply returned the
      number of bytes asked for, which a caller can check. */
  lemma {:induction false} TrueReadsAreTrusted(ec: Ec, m: Machine, regions: seq<Region>, mask: nat, image: seq<byte>,
                                               rv: int)
    requires Ordered(regions, |image|) && |image| <= |m.s.flash| && MaskWithin(mask, |regions|) && rv >= 0
    ensures var m' := PhaseRun(ec, m, regions, mask, image, rv).1;
            && Extends(m, m')
            && (TrueReads(m, m') ==> PhaseTrusted(ec, m, regions, mask, image))
            && (NoFalseReads(ec) ==> (FullReads(m, m') <==> TrueReads(m, m')))
            && (NoFalseReads(ec) && NoShortReads(ec) ==> TrueReads(m, m'))
    decreases mask
  {
    if mask > 0 {
      hide RegionRun;
      hide ReadBackTrusted;
      hide Confined;
      hide FullReads;
      hide TrueReads;
      hide NoFalseReads;
      hide NoShortReads;
      hide Holds;
      MaskStep(mask, |regions|);
      var top := LeadingBit(mask);
      var (rv1, m1) := RegionRun(ec, m, regions[top], image);
      VerificationExact(ec, m, regions[top], image);
      TrueReadBack(ec, m, regions[top], image);
      ConfinedExtends(ec, m, m1, regions[top].base, regions[top].End());
      ConfinedReads(ec, m, m1, regions[top].base, regions[top].End());
      if rv1 >= 0 {
        var rest := WithoutBit(mask, top);
        var m2 := PhaseRun(ec, m1, regions, rest, image, rv1).1;
        TrueReadsAreTrusted(ec, m1, regions, rest, image, rv1);
        ReadsGoOn(m, m1, m2);
      }
    }
  }

  lemma ReadsGoOn(m: Machine, m1: Machine, m2: Machine)
    requires Extends(m, m1) && Extends(m1, m2)
    ensures Extends(m, m2)
    ensures TrueReads(m, m2) <==> TrueReads(m, m1) && TrueReads(m1, m2)
    ensures FullReads(m, m2) <==> FullReads(m, m1) && FullReads(m1, m2)
  {
    hide FullRead;
    hide TrueRead;
    ExtendsTransitive(m, m1, m2);
    TrueReadsThen(m, m1, m2);
    if FullReads(m, m2) {
      forall k | |m.log| <= k < |m1.log|
        ensures FullRead(m1.log[k])
      {
        assert FullRead(m2.log[k]);
      }
    }
  }

  lemma ConfinedExtends(ec: Ec, m: Machine, m': Machine, lo: int, hi: int)
    requires Confined(ec, m, m', lo, hi)
    ensures Extends(m, m') && |m'.s.flash| == |m.s.flash|
  {
  }

  /** The first region is untouched, or every other selected region holds the image. */
  ghost predicate BootSafe(e: Entry, start: seq<byte>, image: seq<byte>, regions: seq<Region>, mask: nat)
    requires regions != [] && regions[0].End() <= |e.after.flash| == |start|
  {
    var boot := regions[0];
    || e.after.flash[boot.base..boot.End()] == start[boot.base..boot.End()]
    || HoldsFrom(e.after.flash, image, regions, mask, 1)
  }

  lemma PlacedIsBootSafe(e: Entry, start: seq<byte>, image: seq<byte>, regions: seq<Region>, mask: nat)
    requires Ordered(regions, |image|) && |image| <= |start| && regions != []
    requires Placed(e, start, image, regions, mask, true)
    ensures regions[0].End() <= |e.after.flash| == |start| && BootSafe(e, start, image, regions, mask)
  {
    var c: nat :| PlacedAt(e, start, image, regions, mask, c, true);
    var boot := regions[0];
    if c > 0 {
      forall j | boot.base <= j < boot.End()
        ensures e.after.flash[j] == start[j]
      {
        assert !Covered(regions, mask, c, j);
      }
      assert e.after.flash[boot.base..boot.End()] == start[boot.base..boot.End()];
    }
  }

  /** The first region, which holds the boot block, comes last: at every command of a run on any
      EC, if every read delivered all of what the flash holds, either it is untouched or every
      other selected region already holds the image. */
  lemma BootBlockLast(ec: Ec, m: Machine, regions: seq<Region>, mask: nat, image: seq<byte>, rv: int)
    requires Ordered(regions, |image|) && |image| <= |m.s.flash| && MaskWithin(mask, |regions|) && rv >= 0
    requires regions != []
    ensures var m' := PhaseRun(ec, m, regions, mask, image, rv).1;
            TrueReads(m, m') ==>
              forall k :: |m.log| <= k < |m'.log| ==>
                && regions[0].End() <= |m'.log[k].after.flash| == |m.s.flash|
                && BootSafe(m'.log[k], m.s.flash, image, regions, mask)
  {
    var m' := PhaseRun(ec, m, regions, mask, image, rv).1;
    TrueReadsAreTrusted(ec, m, regions, mask, image, rv);
    hide PhaseRun;
    hide PhaseTrusted;
    if TrueReads(m, m') {
      PhaseSafety(ec, m, regions, mask, image, rv, true);
      forall k | |m.log| <= k < |m'.log|
        ensures regions[0].End() <= |m'.log[k].after.flash| == |m.s.flash|
             && BootSafe(m'.log[k], m.s.flash, image, regions, mask)
      {
        PlacedIsBootSafe(m'.log[k], m.s.flash, image, regions, mask);
      }
    }
  }

  // ---------------------------------------------------------------- an EC that obeys

  /** The bytes in the selected regions before index `k`. */
  function SelectedBytes(regions: seq<Region>, mask: nat, k: nat): nat
    requires k <= |regions|
  {
    if k == 0 then 0
    else SelectedBytes(regions, mask, k - 1) + (if BitSet(mask, k - 1) then regions[k - 1].size else 0)
  }

  lemma {:induction false} SelectedBytesSplit(regions: seq<Region>, mask: nat, k: nat)
    requires mask > 0 && MaskWithin(mask, |regions|) && k <= |regions|
    ensures var top := LeadingBitBelow(mask, |regions|);
            SelectedBytes(regions, mask, k) ==
            SelectedBytes(regions, WithoutBit(mask, top), k) + (if top < k then regions[top].size else 0)
  {
    if k > 0 {
      SelectedBytesSplit(regions, mask, k - 1);
      WithoutBitBits(mask, LeadingBit(mask), k - 1);
      MaskRest(mask, |regions|);
    }
  }

  lemma {:induction false} NothingSelected(regions: seq<Region>, k: nat)
    requires k <= |regions|
    ensures SelectedBytes(regions, 0, k) == 0
  {
    if k > 0 {
      ZeroHasNoBits(k - 1);
      NothingSelected(regions, k - 1);
    }
  }

  /** While a region is being flashed, written <= erased <= written + the size of this region. */
  ghost predicate InBalance(e: Entry, s: Snapshot, regions: seq<Region>, mask: nat, image: seq<byte>) {
    exists c: nat :: BalancedAt(e, s, regions, mask, image, c)
  }

  ghost predicate BalancedAt(e: Entry, s: Snapshot, regions: seq<Region>, mask: nat, image: seq<byte>, c: nat) {
    PlacedAt(e, s.flash, image, regions, mask, c, true) && EntryBalanced(e, s, regions[c].size)
  }

  ghost predicate AllInBalance(m: Machine, m': Machine, regions: seq<Region>, mask: nat, image: seq<byte>) {
    && Extends(m, m')
    && forall k :: |m.log| <= k < |m'.log| ==> InBalance(m'.log[k], m.s, regions, mask, image)
  }

  /** Work conservation and success: on an EC that obeys, the phase succeeds; at every command
      the run is at some region and erased and written bytes are in balance up to its size; and
      in the end both have grown by the total size of the selected regions. */
  lemma {:induction false} PhaseMeaning(ec: Ec, m: Machine, regions: seq<Region>, mask: nat, image: seq<byte>, rv: int)
    requires Ordered(regions, |image|) && |image| <= |m.s.flash| && MaskWithin(mask, |regions|) && rv >= 0
    requires Obedient(ec)
    ensures var (rv', m') := PhaseRun(ec, m, regions, mask, image, rv);
            var total := SelectedBytes(regions, mask, |regions|);
            && rv' >= 0
            && m'.s.erased == m.s.erased + total && m'.s.written == m.s.written + total
            && m'.s.ro == m.s.ro && m'.s.rw == m.s.rw
            && AllInBalance(m, m', regions, mask, image)
    decreases mask
  {
    if mask == 0 {
      NothingSelected(regions, |regions|);
    } else {
      hide RegionRun;
      hide PlacedAt;
      hide Confined;
      hide Balanced;
      hide AllInBalance;
      MaskStep(mask, |regions|);
      var top := LeadingBit(mask);
      var rest := WithoutBit(mask, top);
      RegionMeaning(ec, m, regions[top], image);
      VerificationExact(ec, m, regions[top], image);
      var (rv1, m1) := RegionRun(ec, m, regions[top], image);
      TopPlaced(ec, m, m1, regions, mask, image, true);
      PhaseMeaning(ec, m1, regions, rest, image, rv1);
      SelectedBytesSplit(regions, mask, |regions|);
      SplicedHolds(m.s.flash, image, regions[top]);
      BalanceGoesOn(ec, m, m1, PhaseRun(ec, m1, regions, rest, image, rv1).1, regions, mask, image);
    }
  }

  lemma SplicedHolds(flash: seq<byte>, image: seq<byte>, r: Region)
    requires r.End() <= |image| && r.End() <= |flash|
    ensures Holds(Splice(flash, r.base, image[r.base..r.End()]), image, r)
  {
  }

  lemma BalanceGoesOn(ec: Ec, m: Machine, m1: Machine, m2: Machine, regions: seq<Region>, mask: nat, image: seq<byte>)
    requires mask > 0 && MaskWithin(mask, |regions|) && Ordered(regions, |image|) && |image| <= |m.s.flash|
    requires var top := LeadingBitBelow(mask, |regions|);
             && Confined(ec, m, m1, regions[top].base, regions[top].End())
             && Holds(m1.s.flash, image, regions[top])
             && Balanced(m, m1, regions[top].size)
             && m1.s.erased - m.s.erased == m1.s.written - m.s.written >= 0
             && AllInBalance(m1, m2, regions, WithoutBit(mask, top), image)
    requires forall k :: |m.log| <= k < |m1.log| ==>
               PlacedAt(m1.log[k], m.s.flash, image, regions, mask, LeadingBit(mask), true)
    ensures AllInBalance(m, m2, regions, mask, image)
  {
    var top := LeadingBitBelow(mask, |regions|);
    var rest := WithoutBit(mask, top);
    assert m2.log[..|m.log|] == m2.log[..|m1.log|][..|m.log|];
    forall k | |m.log| <= k < |m2.log|
      ensures InBalance(m2.log[k], m.s, regions, mask, image)
    {
      if k < |m1.log| {
        assert m2.log[k] == m2.log[..|m1.log|][k];
        assert BalancedAt(m1.log[k], m.s, regions, mask, image, top);
      } else {
        assert InBalance(m2.log[k], m1.s, regions, rest, image);
        var c: nat :| BalancedAt(m2.log[k], m1.s, regions, rest, image, c);
        RestIsAtRegion(m2.log[k].after.flash, m1.s.flash, m.s.flash, image, regions, mask, c, true);
        assert BalancedAt(m2.log[k], m.s, regions, mask, image, c);
      }
    }
  }

  lemma ObedientReadsAreTrue(ec: Ec)
    requires Obedient(ec)
    ensures NoFalseReads(ec) && NoShortReads(ec)
  {
    forall n
      ensures !ec.faults(n).ShortRead? && !ec.faults(n).FalseRead?
    {
      assert ec.faults(n).Obey?;
    }
  }

  /** End to end: on an EC that obeys, for every image, every initial flash, every ordered
      region list and every mask, the phase succeeds and leaves exactly the expected flash. */
  lemma PhaseEndToEnd(ec: Ec, m: Machine, regions: seq<Region>, mask: nat, image: seq<byte>, rv: int)
    requires Ordered(regions, |image|) && |image| <= |m.s.flash| && MaskWithin(mask, |regions|) && rv >= 0
    requires Obedient(ec)
    ensures var (rv', m') := PhaseRun(ec, m, regions, mask, image, rv);
            rv' >= 0 && m'.s.flash == Expected(m.s.flash, image, regions, mask)
  {
    ObedientReadsAreTrue(ec);
    TrueReadsAreTrusted(ec, m, regions, mask, image, rv);
    PhaseMeaning(ec, m, regions, mask, image, rv);
    VerifiedMeansFlashed(ec, m, regions, mask, image, rv);
  }
}
