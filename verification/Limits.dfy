/** What the command does not guarantee, and exactly when it does. */
module Limits {
  import opened Wrappers
  import opened Bytes
  import opened Fmap
  import opened EcDevice
  import opened Regions
  import opened Reflash
  import opened PhaseFacts
  import opened CommandFacts

  // ---------------------------------------------------------------- the board gate

  lemma {:induction false} CStringTakes(s: seq<byte>, n: nat)
    ensures CString(s, n) == if n <= |CString(s, |s|)| then CString(s, |s|)[..n] else CString(s, |s|)
    decreases |s|
  {
    if n > 0 && s != [] && s[0] != 0 {
      CStringTakes(s[1..], n - 1);
    }
  }

  lemma {:induction false} CStringWhole(s: seq<byte>)
    requires 0 !in s
    ensures CString(s, |s|) == s
  {
    if s != [] {
      CStringWhole(s[1..]);
    }
  }

  lemma {:induction false} CStringCut(s: seq<byte>)
    requires 0 in s
    ensures |CString(s, |s|)| < |s|
  {
    if s[0] != 0 {
      assert 0 in s[1..];
      CStringCut(s[1..]);
    }
  }

  /** Exactly which images the gate accepts. It compares only as many characters as the image's
      ID has: an ID without a NUL passes if it is a prefix of the running board's. One with a NUL
      (the search for its end does not stop there) passes if the two are equal as C strings. */
  lemma GateIsPrefix(board: seq<byte>, id: seq<byte>)
    ensures SameBoard(board, id) <==>
            if 0 in id then CString(board, |board|) == CString(id, |id|) else id <= CString(board, |board|)
  {
    CStringTakes(board, |id|);
    if 0 in id {
      CStringCut(id);
    } else {
      CStringWhole(id);
    }
  }

  /** An image that passes has the running board's ID exactly if this is no longer than its own. */
  lemma GateIsEqualityIff(board: seq<byte>, id: seq<byte>)
    requires SameBoard(board, id)
    ensures CString(board, |board|) == CString(id, |id|) <==> |CString(board, |board|)| <= |id|
  {
    GateIsPrefix(board, id);
    if 0 in id {
      CStringCut(id);
    } else {
      CStringWhole(id);
    }
  }

  /** An image for a board "hx" passes on the board "hx20". */
  lemma ShorterIdPasses()
    ensures SameBoard(Ascii("hx20"), Ascii("hx")) && Ascii("hx20") != Ascii("hx")
  {
    var board, id := Ascii("hx20"), Ascii("hx");
    assert board == [0x68, 0x78, 0x32, 0x30] && id == [0x68, 0x78];
    assert board[1..] == [0x78, 0x32, 0x30] && id[1..] == [0x78];
    assert CString(board[1..], 1) == [0x78] + CString(board[1..][1..], 0);
    assert CString(id[1..], 1) == [0x78] + CString(id[1..][1..], 0);
  }

  /** An image whose version string starts with the delimiter passes everywhere, and is taken
      for the first board in the list. */
  lemma EmptyIdPassesEverywhere(board: seq<byte>)
    ensures SameBoard(board, [])
    ensures FindMapFrom([], 0) == Some(FlashMap("hx20", HX_REGIONS, true))
  {
    assert SameBoard(Ascii(FLASH_MAPS[0].board), []);
  }

  // ---------------------------------------------------------------- the lock

  /** Some command from `m` on asks the EC to give the flash up again. */
  ghost predicate LockAttempted(m: Machine, m': Machine) {
    exists k :: |m.log| <= k < |m'.log| && Notified(m'.log[k], 3)
  }

  /** Both commands that open the flash, and every region. */
  ghost predicate FlashedAll(ec: Ec, m: Machine, plan: Plan)
    requires PlanFits(plan, m)
  {
    var (rv1, m1) := NotifyRun(ec, m, ACCESS_SPI, FIRMWARE_START);
    rv1 >= 0 && PhaseRun(ec, m1, plan.flashMap.regions, plan.mask, plan.image, rv1).0 >= 0
  }

  lemma NoLockWhileFlashing(ec: Ec, m: Machine, plan: Plan, rv: int)
    requires PlanFits(plan, m) && rv >= 0
    ensures var m' := PhaseRun(ec, m, plan.flashMap.regions, plan.mask, plan.image, rv).1;
            Extends(m, m') && forall k :: |m.log| <= k < |m'.log| ==> !m'.log[k].request.FlashNotified?
  {
    hide PhaseRun;
    PhaseSafety(ec, m, plan.flashMap.regions, plan.mask, plan.image, rv, false);
    var m' := PhaseRun(ec, m, plan.flashMap.regions, plan.mask, plan.image, rv).1;
    forall k | |m.log| <= k < |m'.log|
      ensures !m'.log[k].request.FlashNotified?
    {
      assert Placed(m'.log[k], m.s.flash, plan.image, plan.flashMap.regions, plan.mask, false);
    }
  }

  /** On a board that needs unlocking, locking is attempted exactly if both commands that open
      the flash and every region succeeded. A run that fails in between leaves it open. */
  lemma LockAttemptIff(ec: Ec, m: Machine, plan: Plan)
    requires PlanFits(plan, m) && plan.flashMap.requiresUnlock
    ensures var (status, m') := UnlockedRun(ec, m, plan);
            && (LockAttempted(m, m') <==> FlashedAll(ec, m, plan))
            && (!FlashedAll(ec, m, plan) ==> status == DeviceError)
            && (Opened(m'.log, |m.log|) <==> NotifyRun(ec, m, ACCESS_SPI, FIRMWARE_START).0 >= 0)
  {
    hide PhaseRun;
    hide NotifyRun;
    hide Ordered;
    hide MaskWithin;
    NotifyFacts(ec, m, ACCESS_SPI, FIRMWARE_START);
    var (rv1, m1) := NotifyRun(ec, m, ACCESS_SPI, FIRMWARE_START);
    if rv1 >= 0 {
      NoLockWhileFlashing(ec, m1, plan, rv1);
      var (rv2, m2) := PhaseRun(ec, m1, plan.flashMap.regions, plan.mask, plan.image, rv1);
      ExtendsTransitive(m, m1, m2);
      if rv2 >= 0 {
        NotifyFacts(ec, m2, ACCESS_SPI_DONE, FIRMWARE_DONE);
        var m3 := NotifyRun(ec, m2, ACCESS_SPI_DONE, FIRMWARE_DONE).1;
        ExtendsTransitive(m, m2, m3);
        assert Notified(m3.log[|m2.log|], ACCESS_SPI_DONE);
      }
    }
  }

  /** If flashing fails on a board that was unlocked, none of the four notifications follows. */
  lemma FailureLeavesUnlocked(ec: Ec, m: Machine, plan: Plan)
    requires PlanFits(plan, m) && plan.flashMap.requiresUnlock
    requires NotifyRun(ec, m, ACCESS_SPI, FIRMWARE_START).0 >= 0 && !FlashedAll(ec, m, plan)
    ensures var (status, m') := UnlockedRun(ec, m, plan);
            && status == DeviceError
            && Opened(m'.log, |m.log|)
            && forall k :: |m.log| + 2 <= k < |m'.log| ==> !m'.log[k].request.FlashNotified?
  {
    hide PhaseRun;
    hide NotifyRun;
    hide Ordered;
    hide MaskWithin;
    LockAttemptIff(ec, m, plan);
    NotifyFacts(ec, m, ACCESS_SPI, FIRMWARE_START);
    var (rv1, m1) := NotifyRun(ec, m, ACCESS_SPI, FIRMWARE_START);
    NoLockWhileFlashing(ec, m1, plan, rv1);
  }

  /** What is known when locking was attempted: the flash is complete, and exactly the image if
      what was read can be relied on. The run succeeds exactly if both closing commands do; if the first
      succeeds and the second fails, a device error is reported over a complete flash. */
  lemma LockOutcome(ec: Ec, m: Machine, plan: Plan)
    requires PlanFits(plan, m) && plan.flashMap.requiresUnlock && FlashedAll(ec, m, plan)
    ensures var (status, m') := UnlockedRun(ec, m, plan);
            && Complete(m'.s.flash, m.s.flash, plan, Reliable(ec, m, m', plan))
            && (Reliable(ec, m, m', plan) ==>
                  m'.s.flash == Expected(m.s.flash, plan.image, plan.flashMap.regions, plan.mask))
            && (status == Success <==> Closed(m'.log))
            && (status == DeviceError <==> !Closed(m'.log))
    ensures var m' := UnlockedRun(ec, m, plan).1;
            var last := m'.log[|m'.log| - 1];
            !Closed(m'.log) ==>
              || (Notified(last, 3) && last.reply.rv < 0)
              || (&& Notified(last, 2) && last.reply.rv < 0
                  && Notified(m'.log[|m'.log| - 2], 3) && m'.log[|m'.log| - 2].reply.rv >= 0)
  {
    hide PhaseRun;
    hide NotifyRun;
    hide Ordered;
    hide MaskWithin;
    hide Untouched;
    hide HoldsFrom;
    hide TrueReads;
    hide NoFalseReads;
    hide PlanFresh;
    NotifyFacts(ec, m, ACCESS_SPI, FIRMWARE_START);
    var (rv1, m1) := NotifyRun(ec, m, ACCESS_SPI, FIRMWARE_START);
    var m2 := PhaseRun(ec, m1, plan.flashMap.regions, plan.mask, plan.image, rv1).1;
    NotifyFacts(ec, m2, ACCESS_SPI_DONE, FIRMWARE_DONE);
    var m3 := NotifyRun(ec, m2, ACCESS_SPI_DONE, FIRMWARE_DONE).1;
    NoLockWhileFlashing(ec, m1, plan, rv1);
    TrueReadsBetween(m, m1, m2, m3);
    PhaseIsLawful(ec, m1, plan, rv1, Reliable(ec, m, m3, plan));
    FinishedIsExpected(m3.s.flash, m.s.flash, plan.image, plan.flashMap.regions, plan.mask);
  }

  // ---------------------------------------------------------------- the order of regions

  /** The same work for a list of regions. */
  function ListRun(ec: Ec, m: Machine, regions: seq<Region>, order: seq<nat>, image: seq<byte>, rv: int)
    : (r: (int, Machine))
    requires |image| <= |m.s.flash|
    requires forall i :: 0 <= i < |order| ==> order[i] < |regions| && regions[order[i]].End() <= |image|
    decreases |order|
  {
    if order == [] then (rv, m)
    else
      var (rv', m') := RegionRun(ec, m, regions[order[0]], image);
      if rv' < 0 then (rv', m') else ListRun(ec, m', regions, order[1..], image, rv')
  }

  /** The loop over the bits of the mask is the work for the selected regions in descending
      order: `VisitsDescend` says that the list is exactly that. */
  lemma {:induction false} MaskLoopIsListRun(ec: Ec, m: Machine, regions: seq<Region>, mask: nat, image: seq<byte>,
                                             rv: int)
    requires Ordered(regions, |image|) && |image| <= |m.s.flash| && MaskWithin(mask, |regions|)
    ensures forall i :: 0 <= i < |Visits(mask)| ==> Visits(mask)[i] < |regions|
    ensures PhaseRun(ec, m, regions, mask, image, rv) == ListRun(ec, m, regions, Visits(mask), image, rv)
    decreases mask
  {
    hide RegionRun;
    VisitsDescend(mask);
    if mask != 0 {
      MaskStep(mask, |regions|);
      var top := LeadingBit(mask);
      var rest := WithoutBit(mask, top);
      assert Visits(mask)[1..] == Visits(rest);
      var (rv', m') := RegionRun(ec, m, regions[top], image);
      if rv' >= 0 {
        MaskLoopIsListRun(ec, m', regions, rest, image, rv');
      }
    }
  }
}
