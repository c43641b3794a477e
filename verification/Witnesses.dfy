/** Runs of the whole command on which a guarantee one might expect fails. */
module Witnesses {
  import opened Bytes
  import opened EcDevice
  import opened Packets
  import opened Flash
  import opened FlashFacts
  import opened Regions
  import opened Reflash
  import opened PhaseFacts
  import opened Freshness
  import opened StaleImages
  import opened CommandFacts
  import opened EndToEnd
  import opened Limits

  // ---------------------------------------------------------------- a flash left open

  /** An EC that refuses every command from the n-th on and wipes what it was to erase. */
  function StopsAnswering(n: nat, memmap: nat -> MappedMemory): Ec {
    Ec((k: nat) => if k < n then Obey else Rogue(-RES_TIMEOUT, (j: nat) => 0xFF, 240, 0), SIMULATED, memmap)
  }

  lemma EraseRefused(n: nat, memmap: nat -> MappedMemory, m: Machine, offset: nat, size: nat)
    requires n <= |m.log| && offset + size <= |m.s.flash|
    ensures EraseRun(StopsAnswering(n, memmap), m, offset, size).0 < 0
  {
    var ec := StopsAnswering(n, memmap);
    var (versions, m1) := Send(ec, m, GetCmdVersions(EC_CMD_FLASH_ERASE));
    assert versions.rv == -RES_TIMEOUT && |m1.log| == |m.log| + 1;
    var reply := Send(ec, m1, FlashErase(offset, size)).0;
    assert reply.rv == -RES_TIMEOUT;
    EraseResult(ec, m, offset, size);
    assert forall k :: n <= k ==> !HelloHeard(ec, k);
  }

  lemma PhaseRefused(n: nat, memmap: nat -> MappedMemory, m: Machine, regions: seq<Region>, mask: nat,
                     image: seq<byte>, rv: int)
    requires Ordered(regions, |image|) && |image| <= |m.s.flash| && MaskWithin(mask, |regions|)
    requires mask > 0 && n <= |m.log|
    ensures PhaseRun(StopsAnswering(n, memmap), m, regions, mask, image, rv).0 < 0
  {
    hide EraseRun;
    hide StopsAnswering;
    MaskStep(mask, |regions|);
    var r := regions[LeadingBit(mask)];
    EraseRefused(n, memmap, m, r.base, r.size);
  }

  lemma OpensFlash(ec: Ec, m: Machine, first: byte, second: byte)
    requires !ec.faults(|m.log|).Rogue? && !ec.faults(|m.log| + 1).Rogue?
    ensures var (rv, m') := NotifyRun(ec, m, first, second);
            rv == 0 && |m'.log| == |m.log| + 2 && m'.s == m.s
  {
    var (reply, m1) := Send(ec, m, FlashNotified(first));
    assert reply.rv == 0 && |m1.log| == |m.log| + 1 && m1.s == m.s;
    assert Send(ec, m1, FlashNotified(second)).0.rv == 0;
  }

  /** On every board that needs unlocking, for every command line, image and state with which
      the command gets as far as flashing anything: there is an EC with which it reports a device
      error, has opened the flash and makes no attempt to close it. */
  lemma LeftOpen(memmap: nat -> MappedMemory, m: Machine, args: seq<string>, file: ImageFile, keys: nat -> bool,
                 plan: Plan)
    requires Startable(m, file) && Cleared(StopsAnswering(|m.log| + 3, memmap), m, args, file, keys, plan)
    requires plan.flashMap.requiresUnlock && plan.mask > 0
    ensures var (status, m') := ReflashRun(StopsAnswering(|m.log| + 3, memmap), m, args, file, keys);
            status == DeviceError && Opened(m'.log, |m.log| + 1) && !LockAttempted(m, m')
  {
    var ec := StopsAnswering(|m.log| + 3, memmap);
    hide ReflashRun;
    hide UnlockedRun;
    hide PhaseRun;
    hide NotifyRun;
    hide Checked;
    hide Cleared;
    hide Reportable;
    hide FileReadable;
    ClearedRuns(ec, m, args, file, keys, plan);
    var m1 := Checked(ec, m, args, file, keys);
    OpensFlash(ec, m1, ACCESS_SPI, FIRMWARE_START);
    var (rv2, m2) := NotifyRun(ec, m1, ACCESS_SPI, FIRMWARE_START);
    PhaseRefused(|m.log| + 3, memmap, m2, plan.flashMap.regions, plan.mask, plan.image, rv2);
    LockAttemptIff(ec, m1, plan);
    FailureLeavesUnlocked(ec, m1, plan);
    NothingBeforeOpening(m, m1, UnlockedRun(ec, m1, plan).1, plan, ec);
  }

  lemma NothingBeforeOpening(m: Machine, m1: Machine, m': Machine, plan: Plan, ec: Ec)
    requires Extends(m, m1) && |m1.log| == |m.log| + 1 && m1.log[|m.log|].request.GetVersion?
    requires PlanFits(plan, m1) && m' == UnlockedRun(ec, m1, plan).1 && !LockAttempted(m1, m')
    ensures !LockAttempted(m, m')
  {
    hide UnlockedRun;
    UnlockedSafety(ec, m1, plan, false);
    ExtendsTransitive(m, m1, m');
  }

  // ---------------------------------------------------------------- a wrong flash that passes

  /** No command from the n-th on is answered with an error. */
  ghost predicate NoErrorsFrom(ec: Ec, n: nat) {
    forall k :: n <= k ==> !ec.faults(k).Rogue? || ec.faults(k).rv >= 0
  }

  lemma NotifyHeard(ec: Ec, m: Machine, first: byte, second: byte)
    requires NoErrorsFrom(ec, |m.log|)
    ensures var (rv, m') := NotifyRun(ec, m, first, second);
            rv >= 0 && |m'.log| == |m.log| + 2 && m'.s == m.s
  {
    var (reply, m1) := Send(ec, m, FlashNotified(first));
    assert reply.rv >= 0 && |m1.log| == |m.log| + 1 && m1.s == m.s;
    assert Send(ec, m1, FlashNotified(second)).0.rv >= 0;
  }

  /** The number of the first command of the phase. */
  function PhaseStart(m: Machine, plan: Plan): nat {
    |m.log| + (if plan.flashMap.requiresUnlock then 3 else 1)
  }

  /** Takes the version query as `ec` does, and deceives in region `c`. */
  function RunDeceiver(ec: Ec, m: Machine, plan: Plan, c: nat): Ec
    requires Ordered(plan.flashMap.regions, |plan.image|) && MaskWithin(plan.mask, |plan.flashMap.regions|)
    requires c < |plan.flashMap.regions| && !FreshIn(plan.flashMap.regions[c], plan.image)
  {
    PhaseDeceiver(ec, |m.log| + 1, PhaseStart(m, plan), plan.flashMap.regions, plan.mask, plan.image, c)
  }

  lemma DeceiverHasNoErrors(ec: Ec, n: nat, at: nat, count: nat, fill: nat -> byte)
    ensures var d := Deceiver(ec, n, at, count, fill);
            NoErrorsFrom(d, n) && NoFalseReads(d)
  {
  }

  /** What the checks before the countdown see of an EC is its answer to the version query and its
      mapped memory. */
  lemma DeceiverIsCleared(ec: Ec, n: nat, at: nat, count: nat, fill: nat -> byte, m: Machine, args: seq<string>,
                          file: ImageFile, keys: nat -> bool, plan: Plan)
    requires Startable(m, file) && Cleared(ec, m, args, file, keys, plan) && n == |m.log| + 1
    ensures Cleared(Deceiver(ec, n, at, count, fill), m, args, file, keys, plan)
  {
    hide Deceiver;
    hide Reportable;
    hide FileReadable;
    hide Cleared;
    SameReport(ec, n, at, count, fill, m);
    SameClearance(ec, Deceiver(ec, n, at, count, fill), m, args, file, keys, plan);
  }

  lemma SameClearance(ec: Ec, d: Ec, m: Machine, args: seq<string>, file: ImageFile, keys: nat -> bool, plan: Plan)
    requires Startable(m, file) && Cleared(ec, m, args, file, keys, plan)
    requires SendGetVersion(d, m).0 == SendGetVersion(ec, m).0 && d.memmap == ec.memmap
    ensures Cleared(d, m, args, file, keys, plan)
  {
    hide SendGetVersion;
    hide Reportable;
    hide FileReadable;
    hide ReadyAt;
    hide Approved;
    SameApproval(ec, d, m, args, file, plan);
    SameReadiness(ec, d, m.memoryReads);
    SameReadiness(ec, d, m.memoryReads + 4);
  }

  lemma SameReport(ec: Ec, n: nat, at: nat, count: nat, fill: nat -> byte, m: Machine)
    requires Reportable(m.s.flash) && n == |m.log| + 1
    ensures var d := Deceiver(ec, n, at, count, fill);
            SendGetVersion(d, m).0 == SendGetVersion(ec, m).0 && d.memmap == ec.memmap
  {
  }

  lemma SameReadiness(ec: Ec, d: Ec, n: nat)
    requires d.memmap == ec.memmap
    ensures ReadyAt(d, n) <==> ReadyAt(ec, n)
  {
  }

  lemma SameApproval(ec: Ec, d: Ec, m: Machine, args: seq<string>, file: ImageFile, plan: Plan)
    requires Startable(m, file) && Approved(ec, m, args, file, plan)
    requires SendGetVersion(d, m).0 == SendGetVersion(ec, m).0
    ensures Approved(d, m, args, file, plan)
  {
    hide Reportable;
    hide ImageReadable;
    hide SendGetVersion;
    hide SameBoard;
    hide ImageBoard;
    hide CurrentBoard;
    hide FlashMask;
    hide FindMapFrom;
    hide Parse;
  }

  /** On every board, for every command line, image and state with which the command gets as far
      as flashing: if the image is stale in some selected region, there is an EC, none of whose
      reads delivers a false byte, with which the command reports success over a wrong flash. */
  lemma WrongFlashSucceeds(ec: Ec, m: Machine, args: seq<string>, file: ImageFile, keys: nat -> bool, plan: Plan,
                           c: nat)
    requires Startable(m, file) && Cleared(ec, m, args, file, keys, plan)
    requires c < |plan.flashMap.regions| && BitSet(plan.mask, c)
    requires plan.flashMap.regions[c].End() <= |plan.image| && !FreshIn(plan.flashMap.regions[c], plan.image)
    ensures |plan.image| == IMAGE_SIZE && Ordered(plan.flashMap.regions, |plan.image|)
    ensures MaskWithin(plan.mask, |plan.flashMap.regions|)
    ensures var d := RunDeceiver(ec, m, plan, c);
            var (status, m') := ReflashRun(d, m, args, file, keys);
            && NoFalseReads(d) && Cleared(d, m, args, file, keys, plan)
            && status == Success
            && m'.s.flash != Expected(m.s.flash, plan.image, plan.flashMap.regions, plan.mask)
  {
    hide ReflashRun;
    hide PhaseRun;
    hide NotifyRun;
    hide Checked;
    hide Cleared;
    hide Reportable;
    hide FileReadable;
    hide Ordered;
    hide MaskWithin;
    hide Fresh;
    hide Untouched;
    hide HoldsFrom;
    hide Expected;
    hide NoFalseReads;
    hide NoErrorsFrom;
    hide CutAt;
    hide CountIn;
    hide WrongImage;
    hide CommandsAbove;
    hide Deceiver;
    ClearedRuns(ec, m, args, file, keys, plan);
    var regions, mask, image := plan.flashMap.regions, plan.mask, plan.image;
    var d := RunDeceiver(ec, m, plan, c);
    var data := image[regions[c].base..regions[c].End()];
    var at := PhaseStart(m, plan) + CommandsAbove(regions, mask, c) + CutAt(data);
    DeceiverHasNoErrors(ec, |m.log| + 1, at, CountIn(regions[c], image), WrongImage(regions[c], image));
    DeceiverIsCleared(ec, |m.log| + 1, at, CountIn(regions[c], image), WrongImage(regions[c], image), m, args, file,
                      keys, plan);
    ClearedRuns(d, m, args, file, keys, plan);
    DeceivedUnlocked(ec, m, Checked(d, m, args, file, keys), plan, c);
  }

  lemma DeceivedUnlocked(ec: Ec, m: Machine, m1: Machine, plan: Plan, c: nat)
    requires PlanFits(plan, m1) && |m1.log| == |m.log| + 1
    requires c < |plan.flashMap.regions| && BitSet(plan.mask, c) && !FreshIn(plan.flashMap.regions[c], plan.image)
    requires NoErrorsFrom(RunDeceiver(ec, m, plan, c), |m.log| + 1)
    ensures var (status, m') := UnlockedRun(RunDeceiver(ec, m, plan, c), m1, plan);
            && status == Success
            && m'.s.flash != Expected(m1.s.flash, plan.image, plan.flashMap.regions, plan.mask)
  {
    hide PhaseRun;
    hide NotifyRun;
    hide MaskWithin;
    hide FreshIn;
    hide Untouched;
    hide HoldsFrom;
    hide Expected;
    hide NoFalseReads;
    hide PhaseDeceiver;
    var regions, mask, image := plan.flashMap.regions, plan.mask, plan.image;
    var d := RunDeceiver(ec, m, plan, c);
    var m2 := m1;
    var rv2 := 0;
    if plan.flashMap.requiresUnlock {
      NotifyHeard(d, m1, ACCESS_SPI, FIRMWARE_START);
      rv2, m2 := NotifyRun(d, m1, ACCESS_SPI, FIRMWARE_START).0, NotifyRun(d, m1, ACCESS_SPI, FIRMWARE_START).1;
    }
    PhaseIsDeceived(ec, |m.log| + 1, m2, regions, mask, image, rv2, c);
    var m3 := PhaseRun(d, m2, regions, mask, image, rv2).1;
    PhaseIsLawful(d, m2, plan, rv2, false);
    FinishedIsExpected(m3.s.flash, m1.s.flash, image, regions, mask);
    if plan.flashMap.requiresUnlock {
      NotifyHeard(d, m3, ACCESS_SPI_DONE, FIRMWARE_DONE);
    }
  }

  /** A run with this plan that reports success is right on this EC. */
  ghost predicate RunVerifies(ec: Ec, m: Machine, args: seq<string>, file: ImageFile, keys: nat -> bool, plan: Plan)
    requires Startable(m, file) && Ordered(plan.flashMap.regions, |plan.image|)
  {
    var (status, m') := ReflashRun(ec, m, args, file, keys);
    NoFalseReads(ec) && Cleared(ec, m, args, file, keys, plan) && status == Success ==>
      m'.s.flash == Expected(m.s.flash, plan.image, plan.flashMap.regions, plan.mask)
  }

  /** Exactly when the success of a run can be relied on: whenever a run with this plan reports
      success, on every EC that delivers no false bytes, exactly the expected flash is there, if
      and only if the image is fresh in every selected region. */
  lemma SuccessIsSoundIff(ec: Ec, m: Machine, args: seq<string>, file: ImageFile, keys: nat -> bool, plan: Plan)
    requires Startable(m, file) && Cleared(ec, m, args, file, keys, plan)
    ensures Ordered(plan.flashMap.regions, |plan.image|)
    ensures (forall other :: RunVerifies(other, m, args, file, keys, plan)) <==> PlanFresh(plan)
  {
    hide ReflashRun;
    hide Checked;
    hide Cleared;
    hide Reportable;
    hide FileReadable;
    hide Ordered;
    hide MaskWithin;
    hide FreshIn;
    hide Expected;
    hide NoFalseReads;
    hide TrueReads;
    hide RunDeceiver;
    ClearedRuns(ec, m, args, file, keys, plan);
    if PlanFresh(plan) {
      forall other
        ensures RunVerifies(other, m, args, file, keys, plan)
      {
        var (status, m') := ReflashRun(other, m, args, file, keys);
        if NoFalseReads(other) && Cleared(other, m, args, file, keys, plan) && status == Success {
          SuccessIsExpected(other, m, args, file, keys, plan);
        }
      }
    } else {
      OrderedInside(plan);
      var regions := plan.flashMap.regions;
      var c: nat :| c < |regions| && BitSet(plan.mask, c) && !FreshIn(regions[c], plan.image);
      WrongFlashSucceeds(ec, m, args, file, keys, plan, c);
      assert !RunVerifies(RunDeceiver(ec, m, plan, c), m, args, file, keys, plan);
    }
  }

  lemma OrderedInside(plan: Plan)
    requires Ordered(plan.flashMap.regions, |plan.image|)
    ensures forall c :: 0 <= c < |plan.flashMap.regions| ==> plan.flashMap.regions[c].End() <= |plan.image|
  {
  }
}
