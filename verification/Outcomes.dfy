/** The status of the command, case by case. */
module Outcomes {
  import opened EcDevice
  import opened Regions
  import opened Reflash
  import opened CommandFacts

  /** The run is not kept from starting: forced, or ready at the first check. */
  predicate MayStart(ec: Ec, m: Machine, o: Options) {
    o.filename.Some? && (o.force > 0 || ReadyAt(ec, m.memoryReads))
  }

  /** The file has been read, all 0x80000 bytes. */
  predicate Loaded(ec: Ec, m: Machine, o: Options, file: ImageFile) {
    MayStart(ec, m, o) && file.Readable? && |file.bytes| == 0x80000
  }

  /** Image and board go together: the image has a board ID, and unless the run is forced twice it
      passes the gate and has a flash map. */
  predicate Matching(ec: Ec, m: Machine, o: Options, file: ImageFile)
    requires Startable(m, file) && Loaded(ec, m, o, file)
  {
    && ImageBoard(file.bytes).Some?
    && (o.force < 2 ==>
          && FindMapFrom(ImageBoard(file.bytes).value, 0).Some?
          && |SendGetVersion(ec, m).0.data| == 64
          && SameBoard(CurrentBoard(SendGetVersion(ec, m).0), ImageBoard(file.bytes).value))
  }

  /** Why a run stops before the countdown: every status names its one cause. */
  lemma WhyItStops(ec: Ec, m: Machine, args: seq<string>, file: ImageFile)
    requires Startable(m, file)
    ensures var o, prepared, n := Parse(args), PrepareRun(ec, m, args, file).0, m.memoryReads;
            var unready := o.filename.Some? && o.force == 0 && !ReadyAt(ec, n);
            && (prepared == Stop(Usage) <==> o.filename.None?)
            && (prepared == Stop(InvalidParameter) <==> unready && !HasEc(ec.memmap(n)))
            && (prepared == Stop(DivideError) <==>
                  unready && HasEc(ec.memmap(n)) && HasPower(ec.memmap(n + 1)) && HasBattery(ec.memmap(n + 1))
                  && Word(ec.memmap(n + 2), 0x58) == 0)
            && (unready ==> prepared in {Stop(InvalidParameter), Stop(DivideError), Stop(NotReady)})
            && (prepared == Stop(NotReady) ==> unready)
    ensures var o, prepared := Parse(args), PrepareRun(ec, m, args, file).0;
            && (prepared == Stop(OpenError) <==> MayStart(ec, m, o) && file.CannotOpen?)
            && (prepared == Stop(Unsupported) <==>
                  MayStart(ec, m, o) && !file.CannotOpen? && file.FileSize() != 0x80000)
            && (prepared == Stop(ReadError) <==> MayStart(ec, m, o) && file.ReadFails? && file.size == 0x80000)
            && (prepared == Stop(EndOfFile) <==> MayStart(ec, m, o) && file.ReadsShort? && file.size == 0x80000)
            && (prepared == Stop(DeviceError) <==> Loaded(ec, m, o, file) && SendGetVersion(ec, m).0.rv < 0)
            && (prepared == Stop(Aborted) <==>
                  Loaded(ec, m, o, file) && SendGetVersion(ec, m).0.rv >= 0 && !Matching(ec, m, o, file))
            && (prepared.Go? <==>
                  Loaded(ec, m, o, file) && SendGetVersion(ec, m).0.rv >= 0 && Matching(ec, m, o, file))
  {
    hide ImageReadable;
    hide ImageBoard;
    hide Reportable;
    hide CurrentBoard;
    hide SameBoard;
    hide FlashMask;
    hide FindMapFrom;
    hide ReadyAt;
    hide CheckReadyRun;
    hide SendGetVersion;
    hide Parse;
    hide HasEc;
    hide HasPower;
    hide HasBattery;
    hide Word;
    var o := Parse(args);
    if o.filename.Some? {
      ReadinessOnce(ec, m);
      var (status, m0) := ReadyUnlessForced(ec, m, o.force);
      VersionAlone(ec, m0);
      VersionAlone(ec, m);
      VersionReplySize(ec, m);
    }
  }

  /** A key pressed while the countdown shows `i`, with none before, ends it there: 8 - i seconds
      after its start. Without any it takes seven seconds. */
  lemma {:induction false} CountdownEnds(m: Machine, keys: nat -> bool, from: nat, i: nat)
    requires i <= from && (forall k :: i < k <= from ==> !keys(k)) && (i == 0 || keys(i))
    ensures CountdownRun(m, keys, from) ==
            (i == 0, m.(stalled := m.stalled + 1000000 * (if i == 0 then from else from - i + 1)))
    decreases from
  {
    if from > i {
      CountdownEnds(Stalled(m, 1000000), keys, from - 1, i);
    }
  }

  /** What follows a plan: a key pressed in the seven seconds aborts the run, having sent nothing
      more; then an unforced run is checked again, four memory reads after the first check; and
      then only success or a device error is left. */
  lemma AfterThePlan(ec: Ec, m: Machine, args: seq<string>, file: ImageFile, keys: nat -> bool, plan: Plan, i: nat)
    requires Startable(m, file) && Passes(ec, m, args, file, plan)
    requires i <= 7 && (forall k :: i < k <= 7 ==> !keys(k)) && (i == 0 || keys(i))
    ensures var (status, m') := ReflashRun(ec, m, args, file, keys);
            var again := plan.force > 0 || ReadyAt(ec, m.memoryReads + 4);
            && (status == Aborted <==> i > 0)
            && (i > 0 ==> m'.stalled == m.stalled + 1000000 * (8 - i) && m'.s.flash == m.s.flash)
            && (i == 0 && !again ==> status in {InvalidParameter, DivideError, NotReady} && m'.s.flash == m.s.flash)
            && (i == 0 && again ==> status == Success || status == DeviceError)
  {
    hide PrepareRun;
    hide UnlockedRun;
    hide Passes;
    hide Reportable;
    hide FileReadable;
    hide Ordered;
    hide MaskWithin;
    hide ReadyAt;
    hide CheckReadyRun;
    Preparation(ec, m, args, file);
    PreparedPlanFits(ec, m, args, file);
    var m1 := PrepareRun(ec, m, args, file).1;
    assert PrepareRun(ec, m, args, file).0 == Go(plan);
    CountdownKeeps(m1, keys, 7);
    CountdownEnds(m1, keys, 7, i);
    ReadinessOnce(ec, CountdownRun(m1, keys, 7).1);
    if i == 0 && (plan.force > 0 || ReadyAt(ec, m.memoryReads + 4)) {
      UnlockedSafety(ec, ReadyUnlessForced(ec, CountdownRun(m1, keys, 7).1, plan.force).1, plan, false);
    }
  }
}
