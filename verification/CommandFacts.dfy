/** What the whole reflash command guarantees. */
module CommandFacts {
  import opened Bytes
  import opened EcDevice
  import opened ReadFacts
  import opened Regions
  import opened Reflash
  import opened PhaseFacts
  import opened Freshness

  /** The states the command can start in. */
  predicate Startable(m: Machine, file: ImageFile) {
    && Reportable(m.s.flash) && |m.s.ro| == |m.s.rw| == VERSION_LENGTH
    && FileReadable(file) && |m.s.flash| >= IMAGE_SIZE
  }

  /** What a plan is made of, and every check it takes to get one but readiness. */
  ghost predicate Approved(ec: Ec, m: Machine, args: seq<string>, file: ImageFile, plan: Plan)
    requires Startable(m, file)
  {
    var o := Parse(args);
    && o.filename.Some? && file.Readable? && |file.bytes| == IMAGE_SIZE
    && plan.image == file.bytes && plan.force == o.force && plan.mask == FlashMask(plan.flashMap.regions, o)
    && ImageBoard(file.bytes).Some?
    && var id := ImageBoard(file.bytes).value;
       var version := SendGetVersion(ec, m).0;
       && version.rv >= 0 && |version.data| == 2 * VERSION_LENGTH
       && (o.force < 2 ==> SameBoard(CurrentBoard(version), id))
       && plan.flashMap == FindMapFrom(id, 0).GetOr(UNKNOWN_MAP)
       && (FindMapFrom(id, 0).None? ==> o.force >= 2)
  }

  /** The plan passes every check before the countdown. */
  ghost predicate Passes(ec: Ec, m: Machine, args: seq<string>, file: ImageFile, plan: Plan)
    requires Startable(m, file)
  {
    Approved(ec, m, args, file, plan) && (plan.force == 0 ==> ReadyAt(ec, m.memoryReads))
  }

  /** Before the countdown the command sends nothing but one version query, and none at all
      unless the file has been read; and it goes on exactly with the plan that passes every
      check. */
  lemma Preparation(ec: Ec, m: Machine, args: seq<string>, file: ImageFile)
    requires Startable(m, file)
    ensures var (prepared, m1) := PrepareRun(ec, m, args, file);
            && m1.s.flash == m.s.flash
            && m1.s.erased == m.s.erased && m1.s.written == m.s.written && m1.stalled == m.stalled
            && (m1.log != m.log ==>
                  && |m1.log| == |m.log| + 1 && m1.log[..|m.log|] == m.log
                  && m1.log[|m.log|].request.GetVersion? && m1.log[|m.log|].after.flash == m.s.flash)
            && prepared != Stop(Success)
            && (prepared.Go? ==>
                  && |m1.log| == |m.log| + 1
                  && PlanFits(prepared.plan, m1)
                  && m1.memoryReads == m.memoryReads + (if prepared.plan.force == 0 then 4 else 0))
    ensures forall plan :: PrepareRun(ec, m, args, file).0 == Go(plan) <==> Passes(ec, m, args, file, plan)
  {
    hide ImageReadable;
    hide ImageBoard;
    hide Reportable;
    hide CurrentBoard;
    hide PlanFits;
    hide SameBoard;
    hide FlashMask;
    hide FindMapFrom;
    hide ReadyAt;
    hide CheckReadyRun;
    hide SendGetVersion;
    hide Truncated;
    PreparedPlanFits(ec, m, args, file);
    var o := Parse(args);
    if o.filename.Some? {
      ReadinessOnce(ec, m);
      var (status, m0) := ReadyUnlessForced(ec, m, o.force);
      VersionAlone(ec, m0);
      VersionAlone(ec, m);
      VersionReplySize(ec, m);
    }
  }

  lemma VersionAlone(ec: Ec, m: Machine)
    requires Reportable(m.s.flash)
    ensures var (reply, m1) := SendGetVersion(ec, m);
            && m1.s.flash == m.s.flash && m1.s.erased == m.s.erased && m1.s.written == m.s.written
            && |m1.log| == |m.log| + 1 && m1.log[..|m.log|] == m.log
            && m1.log[|m.log|].request.GetVersion? && m1.log[|m.log|].after.flash == m.s.flash
            && m1.memoryReads == m.memoryReads && m1.stalled == m.stalled
            && forall r: nat :: reply == SendGetVersion(ec, m.(memoryReads := r)).0
  {
  }

  // ---------------------------------------------------------------- readiness

  /** A 32-bit value in mapped memory. */
  function Word(s: MappedMemory, at: nat): nat
    requires at + 4 <= 0x100
  {
    s[at] as int + 0x100 * s[at + 1] as int + 0x1_0000 * s[at + 2] as int + 0x100_0000 * s[at + 3] as int
  }

  /** "EC" stands at 0x20. */
  predicate HasEc(s: MappedMemory) {
    s[0x20] as int == 'E' as int && s[0x21] as int == 'C' as int
  }

  /** Bit 0 of the flags at 0x4C tells of power, bit 1 of a battery. */
  predicate HasPower(s: MappedMemory) {
    s[0x4C] % 2 == 1
  }

  predicate HasBattery(s: MappedMemory) {
    s[0x4C] / 2 % 2 == 1
  }

  /** The four reads starting with the n-th show an EC, power, and a battery that is absent or
      whose charge, at 0x48, is at least a fifth of its last full charge, at 0x58. */
  predicate ReadyAt(ec: Ec, n: nat) {
    && HasEc(ec.memmap(n)) && HasPower(ec.memmap(n + 1))
    && (HasBattery(ec.memmap(n + 1)) ==>
          Word(ec.memmap(n + 2), 0x58) > 0 && 5 * Word(ec.memmap(n + 3), 0x48) >= Word(ec.memmap(n + 2), 0x58))
  }

  /** A readiness check passes exactly when `ReadyAt` says so, and costs four reads then. Without
      an EC it calls the machine an invalid parameter. The division traps exactly when a battery is
      present that reports no full capacity. */
  lemma ReadinessOnce(ec: Ec, m: Machine)
    ensures var (status, m1) := CheckReadyRun(ec, m);
            var n := m.memoryReads;
            && m1 == m.(memoryReads := m1.memoryReads)
            && (status == Success <==> ReadyAt(ec, n))
            && (status == Success ==> m1.memoryReads == n + 4)
            && (status == InvalidParameter <==> !HasEc(ec.memmap(n)))
            && (status == DivideError <==>
                  && HasEc(ec.memmap(n)) && HasPower(ec.memmap(n + 1)) && HasBattery(ec.memmap(n + 1))
                  && Word(ec.memmap(n + 2), 0x58) == 0)
            && status in {Success, InvalidParameter, NotReady, DivideError}
  {
    hide Word;
    hide FromLe32;
    hide And;
    hide Readiness;
    var n := m.memoryReads;
    WordIsLe32(ec.memmap(n + 2), 0x58);
    WordIsLe32(ec.memmap(n + 3), 0x48);
    ReadinessMeans(ec.memmap(n + 1)[0x4C], Word(ec.memmap(n + 2), 0x58), Word(ec.memmap(n + 3), 0x48));
  }

  /** The decision itself: power, and a battery that is absent or at least a fifth full. */
  lemma ReadinessMeans(flag: byte, full: nat, left: nat)
    ensures var status := Readiness(flag, full, left);
            && (status == Success <==> flag % 2 == 1 && (flag / 2 % 2 == 1 ==> full > 0 && 5 * left >= full))
            && (status == DivideError <==> flag % 2 == 1 && flag / 2 % 2 == 1 && full == 0)
            && status in {Success, NotReady, DivideError}
  {
    hide And;
    LowBits(flag);
    if full > 0 {
      OneFifth(left, full);
    }
  }

  lemma WordIsLe32(s: MappedMemory, at: nat)
    requires at + 4 <= 0x100
    ensures Word(s, at) == FromLe32(s, at)
  {
  }

  lemma LowBits(flag: byte)
    ensures And(flag, 0x01) != 0 <==> flag % 2 == 1
    ensures And(flag, 0x02) != 0 <==> flag / 2 % 2 == 1
  {
    assert And(flag, 1) == flag % 2;
    assert And(flag, 2) == 2 * And(flag / 2, 1);
    assert And(flag / 2, 1) == flag / 2 % 2;
  }

  /** The percentage test in whole numbers is the comparison 5 * cap < lfcc. */
  lemma OneFifth(cap: nat, lfcc: nat)
    requires lfcc > 0
    ensures 100 * cap / lfcc < 20 <==> 5 * cap < lfcc
  {
    QuotientBelow(100 * cap, lfcc, 20);
  }

  lemma QuotientBelow(a: nat, d: nat, bound: nat)
    requires d > 0
    ensures a / d < bound <==> a < bound * d
  {
    var q := a / d;
    assert q * d <= a < q * d + d;
    if q < bound {
      AtMostTimes(q + 1, bound, d);
    } else {
      AtMostTimes(bound, q, d);
    }
  }

  lemma AtMostTimes(x: nat, y: nat, d: nat)
    requires x <= y
    ensures x * d <= y * d
  {
  }

  // ---------------------------------------------------------------- unlock, flash, lock

  predicate Notified(e: Entry, flags: byte) {
    e.request == FlashNotified(flags)
  }

  lemma NotifyFacts(ec: Ec, m: Machine, first: byte, second: byte)
    ensures var (rv, m') := NotifyRun(ec, m, first, second);
            && m'.s == m.s && Extends(m, m')
            && |m.log| < |m'.log| <= |m.log| + 2
            && Notified(m'.log[|m.log|], first) && m'.log[|m.log|].after == m.s
            && (|m'.log| == |m.log| + 2 ==> Notified(m'.log[|m.log| + 1], second) && m'.log[|m.log| + 1].after == m.s)
            && (|m'.log| == |m.log| + 2 <==> m'.log[|m.log|].reply.rv >= 0)
            && (rv >= 0 <==> |m'.log| == |m.log| + 2 && m'.log[|m.log| + 1].reply.rv >= 0)
  {
    NotifyOnce(ec, m, first);
    var (reply, m1) := Send(ec, m, FlashNotified(first));
    hide Send;
    if reply.rv >= 0 {
      NotifyOnce(ec, m1, second);
    }
  }

  lemma NotifyOnce(ec: Ec, m: Machine, flags: byte)
    ensures var (reply, m1) := Send(ec, m, FlashNotified(flags));
            && m1.s == m.s && m1.log == m.log + [Entry(FlashNotified(flags), reply, m.s)]
            && m1.memoryReads == m.memoryReads
  {
  }

  /** All selected regions hold the image and nothing else has changed. */
  ghost predicate Complete(flash: seq<byte>, start: seq<byte>, plan: Plan, honest: bool) {
    && Untouched(flash, start, plan.flashMap.regions, plan.mask, 0)
    && (honest ==> HoldsFrom(flash, plan.image, plan.flashMap.regions, plan.mask, 0))
  }

  /** What holds at a command after the countdown: the flash is unlocked while untouched,
      locked only when complete, and everything between happens at one of the regions. */
  ghost predicate Lawful(e: Entry, start: seq<byte>, plan: Plan, honest: bool) {
    if Notified(e, 0) || Notified(e, 1) then e.after.flash == start
    else if Notified(e, 3) || Notified(e, 2) then Complete(e.after.flash, start, plan, honest)
    else Placed(e, start, plan.image, plan.flashMap.regions, plan.mask, honest)
  }

  ghost predicate AllLawful(m: Machine, m': Machine, start: seq<byte>, plan: Plan, honest: bool) {
    Extends(m, m') && forall k :: |m.log| <= k < |m'.log| ==> Lawful(m'.log[k], start, plan, honest)
  }

  lemma LawfulThen(m: Machine, m1: Machine, m2: Machine, start: seq<byte>, plan: Plan, honest: bool)
    requires AllLawful(m, m1, start, plan, honest) && AllLawful(m1, m2, start, plan, honest)
    ensures AllLawful(m, m2, start, plan, honest)
  {
    ExtendsTransitive(m, m1, m2);
  }

  /** The two commands that open the flash, "access SPI" (0) and "firmware start" (1), both successful. */
  predicate Opened(log: seq<Entry>, at: nat) {
    && at + 2 <= |log|
    && Notified(log[at], 0) && log[at].reply.rv >= 0
    && Notified(log[at + 1], 1) && log[at + 1].reply.rv >= 0
  }

  /** The two that close it again, "access SPI done" (3) and "firmware done" (2). */
  predicate Closed(log: seq<Entry>) {
    && 2 <= |log|
    && Notified(log[|log| - 2], 3) && log[|log| - 2].reply.rv >= 0
    && Notified(log[|log| - 1], 2) && log[|log| - 1].reply.rv >= 0
  }

  /** The image is fresh in every region the plan selects. */
  ghost predicate PlanFresh(plan: Plan) {
    Ordered(plan.flashMap.regions, |plan.image|) && AllFresh(plan.flashMap.regions, plan.mask, plan.image)
  }

  /** When what is verified can be relied on: every read from `m` to `m'` that succeeded delivered
      all of what the flash holds; or reads deliver no false bytes, however few, and the image is
      fresh. */
  ghost predicate Reliable(ec: Ec, m: Machine, m': Machine, plan: Plan) {
    TrueReads(m, m') || (NoFalseReads(ec) && PlanFresh(plan))
  }

  lemma PhaseStaysInPlan(ec: Ec, m: Machine, plan: Plan, rv: int)
    requires PlanFits(plan, m) && rv >= 0
    ensures var m' := PhaseRun(ec, m, plan.flashMap.regions, plan.mask, plan.image, rv).1;
            Untouched(m'.s.flash, m.s.flash, plan.flashMap.regions, plan.mask, 0)
  {
    var (rv', m') := PhaseRun(ec, m, plan.flashMap.regions, plan.mask, plan.image, rv);
    hide PhaseRun;
    hide Placed;
    PhaseSafety(ec, m, plan.flashMap.regions, plan.mask, plan.image, rv, false);
    if rv' < 0 {
      var c: nat :| AtRegion(m'.s.flash, m.s.flash, plan.image, plan.flashMap.regions, plan.mask, c, false);
      UntouchedBelow(m'.s.flash, m.s.flash, plan.flashMap.regions, plan.mask, c);
    }
  }

  /** What lies outside the regions from `c` up includes what lies outside all of them. */
  lemma UntouchedBelow(flash: seq<byte>, start: seq<byte>, regions: seq<Region>, mask: nat, c: nat)
    requires Untouched(flash, start, regions, mask, c)
    ensures Untouched(flash, start, regions, mask, 0)
  {
    forall j | 0 <= j < |flash| && !Covered(regions, mask, 0, j)
      ensures flash[j] == start[j]
    {
      assert !Covered(regions, mask, c, j);
    }
  }

  lemma PhaseIsLawful(ec: Ec, m: Machine, plan: Plan, rv: int, honest: bool)
    requires PlanFits(plan, m) && rv >= 0
    ensures var (rv', m') := PhaseRun(ec, m, plan.flashMap.regions, plan.mask, plan.image, rv);
            && Extends(m, m')
            && Untouched(m'.s.flash, m.s.flash, plan.flashMap.regions, plan.mask, 0)
            && ((honest ==> Reliable(ec, m, m', plan)) ==>
                  && AllLawful(m, m', m.s.flash, plan, honest)
                  && (rv' >= 0 ==> Complete(m'.s.flash, m.s.flash, plan, honest)))
  {
    hide AtRegion;
    hide Untouched;
    hide NoFalseReads;
    hide NoShortReads;
    hide FullReads;
    hide TrueReads;
    hide AllFresh;
    hide PhaseRun;
    hide PhaseTrusted;
    var m' := PhaseRun(ec, m, plan.flashMap.regions, plan.mask, plan.image, rv).1;
    TrueReadsAreTrusted(ec, m, plan.flashMap.regions, plan.mask, plan.image, rv);
    if NoFalseReads(ec) && PlanFresh(plan) {
      FreshPhaseIsTrusted(ec, m, plan.flashMap.regions, plan.mask, plan.image);
    }
    PhaseStaysInPlan(ec, m, plan, rv);
    if honest ==> Reliable(ec, m, m', plan) {
      PhaseSafety(ec, m, plan.flashMap.regions, plan.mask, plan.image, rv, honest);
      forall k | |m.log| <= k < |m'.log|
        ensures Lawful(m'.log[k], m.s.flash, plan, honest)
      {
        assert Placed(m'.log[k], m.s.flash, plan.image, plan.flashMap.regions, plan.mask, honest);
      }
    }
  }

  lemma OpeningIsLawful(ec: Ec, m: Machine, plan: Plan, honest: bool)
    ensures AllLawful(m, NotifyRun(ec, m, ACCESS_SPI, FIRMWARE_START).1, m.s.flash, plan, honest)
  {
    hide NotifyRun;
    NotifyFacts(ec, m, ACCESS_SPI, FIRMWARE_START);
  }

  lemma ClosingIsLawful(ec: Ec, m: Machine, start: seq<byte>, plan: Plan, honest: bool)
    requires Complete(m.s.flash, start, plan, honest)
    ensures AllLawful(m, NotifyRun(ec, m, ACCESS_SPI_DONE, FIRMWARE_DONE).1, start, plan, honest)
  {
    hide NotifyRun;
    hide Complete;
    NotifyFacts(ec, m, ACCESS_SPI_DONE, FIRMWARE_DONE);
  }

  /** On a board that needs unlocking, the flash is opened before anything else, and a run that
      succeeds ends by closing it; on every board, success means completeness. Whether the
      regions hold the image is promised if what was read can be relied on. */
  lemma UnlockedSafety(ec: Ec, m: Machine, plan: Plan, honest: bool)
    requires PlanFits(plan, m)
    requires honest ==> Reliable(ec, m, UnlockedRun(ec, m, plan).1, plan)
    ensures var (status, m') := UnlockedRun(ec, m, plan);
            && AllLawful(m, m', m.s.flash, plan, honest)
            && (status == Success || status == DeviceError)
            && Untouched(m'.s.flash, m.s.flash, plan.flashMap.regions, plan.mask, 0)
            && (status == Success ==> Complete(m'.s.flash, m.s.flash, plan, honest))
            && (plan.flashMap.requiresUnlock ==>
                  && (|m'.log| > |m.log| + 2 ==> Opened(m'.log, |m.log|))
                  && (forall k :: |m.log| <= k < |m'.log| && Modifying(m'.log[k].request) ==> |m.log| + 2 <= k)
                  && (status == Success ==> Closed(m'.log)))
  {
    hide PhaseRun;
    hide NotifyRun;
    hide Ordered;
    hide MaskWithin;
    hide Placed;
    hide Lawful;
    hide TrueReads;
    hide NoFalseReads;
    hide PlanFresh;
    hide Complete;
    if plan.flashMap.requiresUnlock {
      NotifyFacts(ec, m, ACCESS_SPI, FIRMWARE_START);
      var (rv1, m1) := NotifyRun(ec, m, ACCESS_SPI, FIRMWARE_START);
      OpeningIsLawful(ec, m, plan, honest);
      if rv1 >= 0 {
        PhaseIsLawful(ec, m1, plan, rv1, honest);
        var (rv2, m2) := PhaseRun(ec, m1, plan.flashMap.regions, plan.mask, plan.image, rv1);
        ExtendsTransitive(m, m1, m2);
        if rv2 >= 0 {
          NotifyFacts(ec, m2, ACCESS_SPI_DONE, FIRMWARE_DONE);
          var (rv3, m3) := NotifyRun(ec, m2, ACCESS_SPI_DONE, FIRMWARE_DONE);
          TrueReadsBetween(m, m1, m2, m3);
          LawfulThen(m, m1, m2, m.s.flash, plan, honest);
          ClosingIsLawful(ec, m2, m.s.flash, plan, honest);
          LawfulThen(m, m2, m3, m.s.flash, plan, honest);
          ExtendsTransitive(m, m2, m3);
        } else {
          TrueReadsBetween(m, m1, m2, m2);
          LawfulThen(m, m1, m2, m.s.flash, plan, honest);
        }
        assert Opened(m2.log, |m.log|);
      }
    } else {
      PhaseIsLawful(ec, m, plan, 0, honest);
    }
  }

  lemma TrueReadsBetween(m: Machine, m1: Machine, m2: Machine, m3: Machine)
    requires Extends(m, m1) && Extends(m1, m2) && Extends(m2, m3)
    ensures TrueReads(m, m3) ==> TrueReads(m1, m2)
  {
    ExtendsTransitive(m, m1, m2);
    TrueReadsThen(m, m2, m3);
    TrueReadsThen(m, m1, m2);
  }

  // ---------------------------------------------------------------- the whole command

  /** Everything that must have happened before the flash is touched. */
  ghost predicate Cleared(ec: Ec, m: Machine, args: seq<string>, file: ImageFile, keys: nat -> bool, plan: Plan)
    requires Startable(m, file)
  {
    && Passes(ec, m, args, file, plan)
    && (forall i :: 1 <= i <= 7 ==> !keys(i))
    && (plan.force == 0 ==> ReadyAt(ec, m.memoryReads + 4))
  }

  /** The run had every clearance for the command `e`, and it was lawful. */
  ghost predicate Permitted(ec: Ec, m: Machine, args: seq<string>, file: ImageFile, keys: nat -> bool, e: Entry,
                            m': Machine)
    requires Startable(m, file)
  {
    exists plan :: && Cleared(ec, m, args, file, keys, plan)
                   && Lawful(e, m.s.flash, plan, Reliable(ec, m, m', plan))
  }

  /** The run succeeded, and rightly so. */
  ghost predicate Accomplished(ec: Ec, m: Machine, args: seq<string>, file: ImageFile, keys: nat -> bool, m': Machine)
    requires Startable(m, file)
  {
    exists plan :: && Cleared(ec, m, args, file, keys, plan)
                   && Complete(m'.s.flash, m.s.flash, plan, Reliable(ec, m, m', plan))
                   && (plan.flashMap.requiresUnlock ==> Closed(m'.log))
  }

  /** The machine after the checks, the countdown and the second check of a run with a plan. */
  function Checked(ec: Ec, m: Machine, args: seq<string>, file: ImageFile, keys: nat -> bool): (m': Machine)
    requires Startable(m, file)
  {
    var m1 := PrepareRun(ec, m, args, file).1;
    ReadyUnlessForced(ec, CountdownRun(m1, keys, COUNTDOWN).1, Parse(args).force).1
  }

  /** A run with every clearance has sent one version query and goes on to flash. */
  lemma ClearedRuns(ec: Ec, m: Machine, args: seq<string>, file: ImageFile, keys: nat -> bool, plan: Plan)
    requires Startable(m, file) && Cleared(ec, m, args, file, keys, plan)
    ensures var m' := Checked(ec, m, args, file, keys);
            && PlanFits(plan, m') && Listed(plan.flashMap)
            && m'.s.flash == m.s.flash && m'.s.erased == m.s.erased && m'.s.written == m.s.written
            && |m'.s.ro| == |m'.s.rw| == VERSION_LENGTH && m'.stalled == m.stalled + 7000000
            && |m'.log| == |m.log| + 1 && Extends(m, m')
            && m'.log[|m.log|].request.GetVersion? && m'.log[|m.log|].after.flash == m.s.flash
            && ReflashRun(ec, m, args, file, keys) == UnlockedRun(ec, m', plan)
  {
    hide PrepareRun;
    hide UnlockedRun;
    hide Approved;
    hide Reportable;
    hide FileReadable;
    hide Ordered;
    hide MaskWithin;
    hide ReadyAt;
    hide CheckReadyRun;
    Preparation(ec, m, args, file);
    PreparedPlanFits(ec, m, args, file);
    PreparationKeepsSizes(ec, m, args, file);
    PassesForce(ec, m, args, file, plan);
    var m1 := PrepareRun(ec, m, args, file).1;
    CountdownKeeps(m1, keys, COUNTDOWN);
    ReadinessOnce(ec, CountdownRun(m1, keys, COUNTDOWN).1);
  }

  lemma PreparationKeepsSizes(ec: Ec, m: Machine, args: seq<string>, file: ImageFile)
    requires Startable(m, file)
    ensures var m1 := PrepareRun(ec, m, args, file).1; |m1.s.ro| == |m1.s.rw| == VERSION_LENGTH
  {
    hide ChooseMap;
    hide ImageReadable;
    hide CheckReadyRun;
    ReadinessOnce(ec, m);
    var (status, m0) := ReadyUnlessForced(ec, m, Parse(args).force);
    VersionSizes(ec, m0);
  }

  lemma VersionSizes(ec: Ec, m: Machine)
    requires Reportable(m.s.flash) && |m.s.ro| == |m.s.rw| == VERSION_LENGTH
    ensures var m1 := SendGetVersion(ec, m).1; |m1.s.ro| == |m1.s.rw| == VERSION_LENGTH
  {
  }

  /** On every EC: the first command is the version query; every later one had every clearance
      and is lawful; a run with any status but success or device error has left the flash alone
      and sent nothing else; a run that succeeds has accomplished its plan; and on a board that
      needs unlocking, no command that modifies flash comes before the flash was opened. What
      regions hold is promised if what was read can be relied on. */
  lemma CommandSafety(ec: Ec, m: Machine, args: seq<string>, file: ImageFile, keys: nat -> bool)
    requires Startable(m, file)
    ensures Extends(m, ReflashRun(ec, m, args, file, keys).1)
    ensures var log := ReflashRun(ec, m, args, file, keys).1.log;
            |log| > |m.log| ==> log[|m.log|].request.GetVersion? && log[|m.log|].after.flash == m.s.flash
    ensures var m' := ReflashRun(ec, m, args, file, keys).1;
            forall k :: |m.log| < k < |m'.log| ==> Permitted(ec, m, args, file, keys, m'.log[k], m')
    ensures var (status, m') := ReflashRun(ec, m, args, file, keys);
            status != Success && status != DeviceError ==> m'.s.flash == m.s.flash && |m'.log| <= |m.log| + 1
    ensures var (status, m') := ReflashRun(ec, m, args, file, keys);
            status == Success ==> Accomplished(ec, m, args, file, keys, m')
    ensures var log := ReflashRun(ec, m, args, file, keys).1.log;
            forall k, plan :: |m.log| < k < |log| && Modifying(log[k].request)
                              && Cleared(ec, m, args, file, keys, plan) && plan.flashMap.requiresUnlock
                              ==> |m.log| + 3 <= k && Opened(log, |m.log| + 1)
  {
    hide ReflashRun;
    hide UnlockedRun;
    hide Cleared;
    hide Checked;
    hide Reportable;
    hide FileReadable;
    hide Ordered;
    hide MaskWithin;
    hide Lawful;
    hide Complete;
    hide TrueReads;
    hide NoFalseReads;
    hide PlanFresh;
    hide Modifying;
    if plan :| Cleared(ec, m, args, file, keys, plan) {
      ClearedRuns(ec, m, args, file, keys, plan);
      var m1 := Checked(ec, m, args, file, keys);
      var m' := UnlockedRun(ec, m1, plan).1;
      TrueReadsLater(m, m1, m');
      UnlockedSafety(ec, m1, plan, Reliable(ec, m, m', plan));
      AfterVersion(m, m1, m', plan, Reliable(ec, m, m', plan));
      forall other | Cleared(ec, m, args, file, keys, other)
        ensures other == plan
      {
        ClearedOnce(ec, m, args, file, keys, plan, other);
      }
    } else {
      UnclearedStops(ec, m, args, file, keys);
    }
  }

  lemma ClearedOnce(ec: Ec, m: Machine, args: seq<string>, file: ImageFile, keys: nat -> bool, plan: Plan, other: Plan)
    requires Startable(m, file) && Cleared(ec, m, args, file, keys, plan) && Cleared(ec, m, args, file, keys, other)
    ensures plan == other
  {
    hide Passes;
    hide PrepareRun;
    Preparation(ec, m, args, file);
    assert PrepareRun(ec, m, args, file).0 == Go(plan);
    assert PrepareRun(ec, m, args, file).0 == Go(other);
  }

  /** A run without every clearance sends at most the version query and does not succeed. */
  lemma UnclearedStops(ec: Ec, m: Machine, args: seq<string>, file: ImageFile, keys: nat -> bool)
    requires Startable(m, file) && forall plan :: !Cleared(ec, m, args, file, keys, plan)
    ensures var (status, m') := ReflashRun(ec, m, args, file, keys);
            && status != Success && m'.s.flash == m.s.flash && Extends(m, m') && |m'.log| <= |m.log| + 1
            && (|m'.log| > |m.log| ==> m'.log[|m.log|].request.GetVersion? && m'.log[|m.log|].after.flash == m.s.flash)
  {
    hide PrepareRun;
    hide UnlockedRun;
    hide Passes;
    hide Reportable;
    hide FileReadable;
    hide Ordered;
    hide MaskWithin;
    hide ReadyAt;
    hide CheckReadyRun;
    Preparation(ec, m, args, file);
    PreparedPlanFits(ec, m, args, file);
    var (prepared, m1) := PrepareRun(ec, m, args, file);
    if prepared.Go? {
      PassesForce(ec, m, args, file, prepared.plan);
      CountdownKeeps(m1, keys, COUNTDOWN);
      ReadinessOnce(ec, CountdownRun(m1, keys, COUNTDOWN).1);
      assert !Cleared(ec, m, args, file, keys, prepared.plan);
    }
  }

  lemma TrueReadsLater(m: Machine, m1: Machine, m': Machine)
    requires |m.log| <= |m1.log|
    ensures TrueReads(m, m') ==> TrueReads(m1, m')
  {
  }

  lemma PassesForce(ec: Ec, m: Machine, args: seq<string>, file: ImageFile, plan: Plan)
    requires Startable(m, file) && Passes(ec, m, args, file, plan)
    ensures plan.force == Parse(args).force
  {
  }

  lemma AfterVersion(m: Machine, m1: Machine, m': Machine, plan: Plan, honest: bool)
    requires Extends(m, m1) && |m1.log| == |m.log| + 1
    requires m1.s.flash == m.s.flash && AllLawful(m1, m', m1.s.flash, plan, honest)
    ensures Extends(m, m') && m'.log[|m.log|] == m1.log[|m.log|]
    ensures forall k :: |m.log| < k < |m'.log| ==> Lawful(m'.log[k], m.s.flash, plan, honest)
  {
    ExtendsTransitive(m, m1, m');
  }

  // ---------------------------------------------------------------- what a caller can check

  /** On an EC that delivers no false bytes the reads were true exactly if they were full. */
  ghost predicate ReadsTell(ec: Ec, m: Machine, m': Machine) {
    && (NoFalseReads(ec) ==> (FullReads(m, m') <==> TrueReads(m, m')))
    && (NoFalseReads(ec) && NoShortReads(ec) ==> TrueReads(m, m'))
  }

  lemma ReadsTellOn(ec: Ec, m: Machine, m1: Machine, m2: Machine)
    requires Extends(m, m1) && Extends(m1, m2) && ReadsTell(ec, m, m1) && ReadsTell(ec, m1, m2)
    ensures Extends(m, m2) && ReadsTell(ec, m, m2)
  {
    hide FullReads;
    hide TrueReads;
    hide NoFalseReads;
    hide NoShortReads;
    ReadsGoOn(m, m1, m2);
  }

  lemma NothingRead(ec: Ec, m: Machine, m': Machine)
    requires Extends(m, m') && forall k :: |m.log| <= k < |m'.log| ==> !m'.log[k].request.FlashRead?
    ensures ReadsTell(ec, m, m')
  {
  }

  lemma NotifyReads(ec: Ec, m: Machine, first: byte, second: byte)
    ensures Extends(m, NotifyRun(ec, m, first, second).1) && ReadsTell(ec, m, NotifyRun(ec, m, first, second).1)
  {
    hide NotifyRun;
    NotifyFacts(ec, m, first, second);
    NothingRead(ec, m, NotifyRun(ec, m, first, second).1);
  }

  lemma UnlockedReads(ec: Ec, m: Machine, plan: Plan)
    requires PlanFits(plan, m)
    ensures Extends(m, UnlockedRun(ec, m, plan).1) && ReadsTell(ec, m, UnlockedRun(ec, m, plan).1)
  {
    hide PhaseRun;
    hide NotifyRun;
    hide Ordered;
    hide MaskWithin;
    hide PhaseTrusted;
    hide FullReads;
    hide TrueReads;
    hide NoFalseReads;
    hide NoShortReads;
    hide Extends;
    if plan.flashMap.requiresUnlock {
      var (rv1, m1) := NotifyRun(ec, m, ACCESS_SPI, FIRMWARE_START);
      NotifyReads(ec, m, ACCESS_SPI, FIRMWARE_START);
      if rv1 >= 0 {
        var m2 := PhaseRun(ec, m1, plan.flashMap.regions, plan.mask, plan.image, rv1).1;
        TrueReadsAreTrusted(ec, m1, plan.flashMap.regions, plan.mask, plan.image, rv1);
        ReadsTellOn(ec, m, m1, m2);
        NotifyReads(ec, m2, ACCESS_SPI_DONE, FIRMWARE_DONE);
        ReadsTellOn(ec, m, m2, NotifyRun(ec, m2, ACCESS_SPI_DONE, FIRMWARE_DONE).1);
      }
    } else {
      TrueReadsAreTrusted(ec, m, plan.flashMap.regions, plan.mask, plan.image, 0);
    }
  }

  /** What a caller can check after a whole run: on an EC that delivers no false bytes, every read
      delivered all of what the flash holds exactly if every reply returned the number of bytes
      asked for. */
  lemma CommandReads(ec: Ec, m: Machine, args: seq<string>, file: ImageFile, keys: nat -> bool)
    requires Startable(m, file)
    ensures ReadsTell(ec, m, ReflashRun(ec, m, args, file, keys).1)
  {
    hide ReflashRun;
    hide UnlockedRun;
    hide Cleared;
    hide Checked;
    hide Reportable;
    hide FileReadable;
    hide ReadsTell;
    if plan :| Cleared(ec, m, args, file, keys, plan) {
      ClearedRuns(ec, m, args, file, keys, plan);
      var m1 := Checked(ec, m, args, file, keys);
      NothingRead(ec, m, m1);
      UnlockedReads(ec, m1, plan);
      ReadsTellOn(ec, m, m1, UnlockedRun(ec, m1, plan).1);
    } else {
      UnclearedStops(ec, m, args, file, keys);
      NothingRead(ec, m, ReflashRun(ec, m, args, file, keys).1);
    }
  }
}
