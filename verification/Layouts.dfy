/** Which addresses a command line may touch on which board, and which it never does. */
module Layouts {
  import opened Bytes
  import opened EcDevice
  import opened Regions
  import opened Reflash
  import opened PhaseFacts
  import opened CommandFacts
  import opened EndToEnd
  import opened Boards

  /** Boards with a Microchip EC, boards with a Nuvoton EC, and boards without a map. */
  datatype Family = Hx | Npcx | Unknown

  function RegionsOf(f: Family): seq<Region> {
    match f
    case Hx => HX_REGIONS
    case Npcx => NPCX_REGIONS
    case Unknown => UNKNOWN_REGIONS
  }

  /** The image names a board of the family. */
  predicate ImageFor(file: ImageFile, f: Family)
    requires FileReadable(file)
  {
    && file.Readable? && |file.bytes| == 0x80000 && ImageBoard(file.bytes).Some?
    && IdFor(ImageBoard(file.bytes).value, f)
  }

  predicate IdFor(id: seq<byte>, f: Family) {
    match f
    case Hx => id == Ascii("hx20") || id == Ascii("hx30")
    case Npcx =>
      || id == Ascii("azalea") || id == Ascii("lotus") || id == Ascii("marigold")
      || id == Ascii("sunflower") || id == Ascii("lilac") || id == Ascii("tulip")
    case Unknown => IsUnknown(id)
  }

  /** The addresses that options ask for: with --all everything; otherwise RO unless only --rw is
      given, and RW unless only --ro is. */
  predicate Touchable(f: Family, options: seq<string>, j: int) {
    if "--all" in options then 0 <= j < 0x80000
    else
      var ro, rw := "--ro" in options || "--rw" !in options, "--rw" in options || "--ro" !in options;
      match f
      case Hx => (ro && 0 <= j < 0x3C000) || (rw && 0x40000 <= j < 0x79000)
      case Npcx => (ro && 0 <= j < 0x40000) || (rw && 0x40000 <= j < 0x7F000)
      case Unknown => (ro && 0 <= j < 0x40000) || (rw && 0x40000 <= j < 0x80000)
  }

  // ---------------------------------------------------------------- from regions to addresses

  predicate SelectedBy(options: seq<string>, r: Region) {
    || "--all" in options
    || ("--ro" in options && r.name == "RO")
    || ("--rw" in options && r.name == "RW")
    || ("--ro" !in options && "--rw" !in options && !r.skip)
  }

  lemma CoveredMeans(f: Family, args: seq<string>, j: int)
    ensures var regions := RegionsOf(f);
            Covered(regions, FlashMask(regions, Parse(args)), 0, j) <==>
            exists k :: 0 <= k < |regions| && SelectedBy(OptionPart(args, 1), regions[k]) && InRegion(regions[k], j)
  {
    var regions, options := RegionsOf(f), OptionPart(args, 1);
    var mask := FlashMask(regions, Parse(args));
    assert |regions| <= 16;
    forall k: nat | k < |regions|
      ensures BitSet(mask, k) <==> SelectedBy(options, regions[k])
    {
      SelectionClosedForm(args, regions, k);
    }
    hide FlashMask;
    hide Parse;
    hide OptionPart;
    hide RegionsOf;
    hide SelectedBy;
    hide InRegion;
    if Covered(regions, mask, 0, j) {
      var k: nat :| k < |regions| && BitSet(mask, k) && InRegion(regions[k], j);
      assert SelectedBy(options, regions[k]);
    }
    if k :| 0 <= k < |regions| && SelectedBy(options, regions[k]) && InRegion(regions[k], j) {
      assert BitSet(mask, k);
    }
  }

  lemma HxAddresses(options: seq<string>, j: int)
    ensures (exists k :: 0 <= k < |HX_REGIONS| && SelectedBy(options, HX_REGIONS[k]) && InRegion(HX_REGIONS[k], j))
       <==> Touchable(Hx, options, j)
  {
    RegionNamesDiffer();
    var a, b, c, d := HX_REGIONS[0], HX_REGIONS[1], HX_REGIONS[2], HX_REGIONS[3];
    assert forall k :: 0 <= k < |HX_REGIONS| ==>
             HX_REGIONS[k] == a || HX_REGIONS[k] == b || HX_REGIONS[k] == c || HX_REGIONS[k] == d;
    assert a.name == "RO" && b.name == "RO_VPD" && c.name == "RW" && d.name == "RW_VPD";
  }

  lemma NpcxAddresses(options: seq<string>, j: int)
    ensures (exists k :: 0 <= k < |NPCX_REGIONS| && SelectedBy(options, NPCX_REGIONS[k])
                         && InRegion(NPCX_REGIONS[k], j))
       <==> Touchable(Npcx, options, j)
  {
    RegionNamesDiffer();
    var a, b, c := NPCX_REGIONS[0], NPCX_REGIONS[1], NPCX_REGIONS[2];
    assert forall k :: 0 <= k < |NPCX_REGIONS| ==> NPCX_REGIONS[k] == a || NPCX_REGIONS[k] == b || NPCX_REGIONS[k] == c;
    assert a.name == "RO" && b.name == "RW" && c.name == "SPI_FLAGS";
  }

  lemma UnknownAddresses(options: seq<string>, j: int)
    ensures (exists k :: 0 <= k < |UNKNOWN_REGIONS| && SelectedBy(options, UNKNOWN_REGIONS[k])
                         && InRegion(UNKNOWN_REGIONS[k], j))
       <==> Touchable(Unknown, options, j)
  {
    RegionNamesDiffer();
    var a, b := UNKNOWN_REGIONS[0], UNKNOWN_REGIONS[1];
    assert forall k :: 0 <= k < |UNKNOWN_REGIONS| ==> UNKNOWN_REGIONS[k] == a || UNKNOWN_REGIONS[k] == b;
    assert a.name == "RO" && b.name == "RW";
  }

  lemma RegionNamesDiffer()
    ensures "RO" != "RW" && "RO_VPD" != "RO" && "RO_VPD" != "RW" && "RW_VPD" != "RO" && "RW_VPD" != "RW"
    ensures "SPI_FLAGS" != "RO" && "SPI_FLAGS" != "RW"
  {
    assert "RO"[1] != "RW"[1];
    assert |"RO_VPD"| == |"RW_VPD"| == 6 && |"SPI_FLAGS"| == 9 && |"RO"| == |"RW"| == 2;
  }

  /** In addresses: what the options select on a board. */
  lemma CoveredIsTouchable(f: Family, args: seq<string>, j: int)
    ensures Covered(RegionsOf(f), FlashMask(RegionsOf(f), Parse(args)), 0, j) <==> Touchable(f, OptionPart(args, 1), j)
  {
    CoveredMeans(f, args, j);
    HxAddresses(OptionPart(args, 1), j);
    NpcxAddresses(OptionPart(args, 1), j);
    UnknownAddresses(OptionPart(args, 1), j);
    hide Touchable;
    hide SelectedBy;
    hide InRegion;
    hide FlashMask;
    hide Parse;
    hide OptionPart;
    hide Covered;
  }

  // ---------------------------------------------------------------- runs

  lemma MapForFamily(id: seq<byte>, f: Family)
    requires IdFor(id, f)
    ensures var flashMap := FindMapFrom(id, 0).GetOr(UNKNOWN_MAP);
            flashMap.regions == RegionsOf(f) && (flashMap.requiresUnlock <==> !f.Npcx?)
  {
    NoMapForUnknown(id);
    hide IsUnknown;
    hide FindMapFrom;
    hide Ascii;
    MapByName("hx20");
    MapByName("hx30");
    MapByName("azalea");
    MapByName("lotus");
    MapByName("marigold");
    MapByName("sunflower");
    MapByName("lilac");
    MapByName("tulip");
  }

  /** The plan of a run with an image for a board. */
  lemma PlanForFamily(ec: Ec, m: Machine, args: seq<string>, file: ImageFile, plan: Plan, f: Family)
    requires Startable(m, file) && ImageFor(file, f) && Passes(ec, m, args, file, plan)
    ensures plan.flashMap.regions == RegionsOf(f) && (plan.flashMap.requiresUnlock <==> !f.Npcx?)
    ensures plan.mask == FlashMask(RegionsOf(f), Parse(args)) && plan.image == file.bytes
  {
    hide IdFor;
    hide RegionsOf;
    hide FindMapFrom;
    hide FlashMask;
    hide Parse;
    hide ImageBoard;
    hide Reportable;
    MapForFamily(ImageBoard(file.bytes).value, f);
  }

  /** Only these addresses have changed. */
  ghost predicate OnlyTouched(flash: seq<byte>, start: seq<byte>, f: Family, options: seq<string>) {
    |flash| == |start| && forall j :: 0 <= j < |flash| && !Touchable(f, options, j) ==> flash[j] == start[j]
  }

  lemma UntouchedMeans(flash: seq<byte>, start: seq<byte>, f: Family, args: seq<string>)
    requires Untouched(flash, start, RegionsOf(f), FlashMask(RegionsOf(f), Parse(args)), 0)
    ensures OnlyTouched(flash, start, f, OptionPart(args, 1))
  {
    hide FlashMask;
    hide Parse;
    hide OptionPart;
    hide Touchable;
    hide Covered;
    forall j | 0 <= j < |flash| && !Touchable(f, OptionPart(args, 1), j)
      ensures flash[j] == start[j]
    {
      CoveredIsTouchable(f, args, j);
    }
  }

  lemma LawfulStaysInPlan(e: Entry, start: seq<byte>, plan: Plan, honest: bool)
    requires Lawful(e, start, plan, honest)
    ensures Untouched(e.after.flash, start, plan.flashMap.regions, plan.mask, 0)
  {
    if Placed(e, start, plan.image, plan.flashMap.regions, plan.mask, honest) {
      var c: nat :| PlacedAt(e, start, plan.image, plan.flashMap.regions, plan.mask, c, honest);
      UntouchedBelow(e.after.flash, start, plan.flashMap.regions, plan.mask, c);
    }
  }

  /** On every EC, for every command line: at every command of a run with an image for a board, and
      at its end, only the addresses that the options ask for on that board have changed. */
  lemma OnlyAskedIsTouched(ec: Ec, m: Machine, args: seq<string>, file: ImageFile, keys: nat -> bool, f: Family)
    requires Startable(m, file) && ImageFor(file, f)
    ensures var m' := ReflashRun(ec, m, args, file, keys).1;
            && Extends(m, m')
            && OnlyTouched(m'.s.flash, m.s.flash, f, OptionPart(args, 1))
            && forall k :: |m.log| <= k < |m'.log| ==>
                 OnlyTouched(m'.log[k].after.flash, m.s.flash, f, OptionPart(args, 1))
  {
    hide ReflashRun;
    hide UnlockedRun;
    hide Checked;
    hide Passes;
    hide Lawful;
    hide Untouched;
    hide OnlyTouched;
    hide Reportable;
    hide FileReadable;
    hide ImageFor;
    hide OptionPart;
    hide FlashMask;
    hide Parse;
    hide RegionsOf;
    var m' := ReflashRun(ec, m, args, file, keys).1;
    NothingTouched(m.s.flash, f, OptionPart(args, 1));
    if plan :| Cleared(ec, m, args, file, keys, plan) {
      PlanForFamily(ec, m, args, file, plan, f);
      ClearedRuns(ec, m, args, file, keys, plan);
      var m1 := Checked(ec, m, args, file, keys);
      UnlockedSafety(ec, m1, plan, false);
      UntouchedMeans(m'.s.flash, m.s.flash, f, args);
      ExtendsTransitive(m, m1, m');
      forall k | |m.log| < k < |m'.log|
        ensures OnlyTouched(m'.log[k].after.flash, m.s.flash, f, OptionPart(args, 1))
      {
        LawfulStaysInPlan(m'.log[k], m.s.flash, plan, false);
        UntouchedMeans(m'.log[k].after.flash, m.s.flash, f, args);
      }
      assert m'.log[|m.log|] == m1.log[|m.log|];
    } else {
      UnclearedStops(ec, m, args, file, keys);
    }
  }

  lemma NothingTouched(flash: seq<byte>, f: Family, options: seq<string>)
    ensures OnlyTouched(flash, flash, f, options)
  {
  }

  /** Vital product data and configuration, by address. */
  predicate Vital(f: Family, j: int) {
    match f
    case Hx => 0x3C000 <= j < 0x40000 || 0x79000 <= j < 0x80000
    case Npcx => 0x7F000 <= j < 0x80000
    case Unknown => false
  }

  ghost predicate VitalKept(flash: seq<byte>, start: seq<byte>, f: Family) {
    |flash| == |start| && forall j :: 0 <= j < |flash| && Vital(f, j) ==> flash[j] == start[j]
  }

  /** On every EC, without --all: at every command and at the end the vital product data of a board
      with a Microchip EC (0x3C000 to 0x3FFFF and 0x79000 to 0x7FFFF) and the configuration of one
      with a Nuvoton EC (0x7F000 to 0x7FFFF) are as at the start. */
  lemma VitalDataIsKept(ec: Ec, m: Machine, args: seq<string>, file: ImageFile, keys: nat -> bool, f: Family)
    requires Startable(m, file) && ImageFor(file, f) && "--all" !in OptionPart(args, 1)
    ensures var m' := ReflashRun(ec, m, args, file, keys).1;
            && Extends(m, m')
            && VitalKept(m'.s.flash, m.s.flash, f)
            && forall k :: |m.log| <= k < |m'.log| ==> VitalKept(m'.log[k].after.flash, m.s.flash, f)
  {
    hide ReflashRun;
    hide OptionPart;
    hide ImageFor;
    hide Reportable;
    hide FileReadable;
    OnlyAskedIsTouched(ec, m, args, file, keys, f);
    var m' := ReflashRun(ec, m, args, file, keys).1;
    var options := OptionPart(args, 1);
    OnlyTouchedKeepsVital(m'.s.flash, m.s.flash, f, options);
    forall k | |m.log| <= k < |m'.log|
      ensures VitalKept(m'.log[k].after.flash, m.s.flash, f)
    {
      OnlyTouchedKeepsVital(m'.log[k].after.flash, m.s.flash, f, options);
    }
  }

  lemma OnlyTouchedKeepsVital(flash: seq<byte>, start: seq<byte>, f: Family, options: seq<string>)
    requires OnlyTouched(flash, start, f, options) && "--all" !in options
    ensures VitalKept(flash, start, f)
  {
    forall j | 0 <= j < |flash| && Vital(f, j)
      ensures flash[j] == start[j]
    {
      assert !Touchable(f, options, j);
    }
  }

  /** On every EC, a run that reports success and could rely on what it read has put the image
      exactly where the options ask for it on that board, and changed nothing else. */
  lemma AskedIsFlashed(ec: Ec, m: Machine, args: seq<string>, file: ImageFile, keys: nat -> bool, plan: Plan, f: Family)
    requires Startable(m, file) && ImageFor(file, f) && Cleared(ec, m, args, file, keys, plan)
    requires var (status, m') := ReflashRun(ec, m, args, file, keys); status == Success && Reliable(ec, m, m', plan)
    ensures var flash := ReflashRun(ec, m, args, file, keys).1.s.flash;
            && |flash| == |m.s.flash|
            && forall j :: 0 <= j < |flash| ==>
                 flash[j] == if j < 0x80000 && Touchable(f, OptionPart(args, 1), j) then file.bytes[j] else m.s.flash[j]
  {
    hide ReflashRun;
    hide OptionPart;
    hide Reportable;
    hide FlashMask;
    hide Parse;
    hide Reliable;
    hide Touchable;
    hide Covered;
    hide Passes;
    SuccessIsExpected(ec, m, args, file, keys, plan);
    PlanForFamily(ec, m, args, file, plan, f);
    hide RegionsOf;
    hide ImageFor;
    var flash := ReflashRun(ec, m, args, file, keys).1.s.flash;
    forall j | 0 <= j < |flash|
      ensures flash[j] == if j < 0x80000 && Touchable(f, OptionPart(args, 1), j) then file.bytes[j] else m.s.flash[j]
    {
      CoveredIsTouchable(f, args, j);
    }
  }

  // ---------------------------------------------------------------- opening and closing, by board

  /** A command of the EC's flash notification. */
  predicate IsNotification(e: Entry) {
    e.request.FlashNotified?
  }

  lemma LawfulWithoutUnlock(ec: Ec, m: Machine, plan: Plan)
    requires PlanFits(plan, m) && !plan.flashMap.requiresUnlock
    ensures var m' := UnlockedRun(ec, m, plan).1;
            Extends(m, m') && forall k :: |m.log| <= k < |m'.log| ==> !IsNotification(m'.log[k])
  {
    hide PhaseRun;
    PhaseSafety(ec, m, plan.flashMap.regions, plan.mask, plan.image, 0, false);
    var m' := PhaseRun(ec, m, plan.flashMap.regions, plan.mask, plan.image, 0).1;
    forall k | |m.log| <= k < |m'.log|
      ensures !IsNotification(m'.log[k])
    {
      assert Placed(m'.log[k], m.s.flash, plan.image, plan.flashMap.regions, plan.mask, false);
    }
  }

  /** On every EC: on a board with a Microchip EC and on an unknown one, nothing is erased or written
      before the notifications 0 and 1 have succeeded, and a run that succeeds ends with 3 and 2. On
      a board with a Nuvoton EC none is ever sent. */
  lemma NotificationsByBoard(ec: Ec, m: Machine, args: seq<string>, file: ImageFile, keys: nat -> bool, f: Family)
    requires Startable(m, file) && ImageFor(file, f)
    ensures Extends(m, ReflashRun(ec, m, args, file, keys).1)
    ensures var (status, m') := ReflashRun(ec, m, args, file, keys);
            if f.Npcx? then forall k :: |m.log| <= k < |m'.log| ==> !IsNotification(m'.log[k])
            else
              && (forall k :: |m.log| <= k < |m'.log| && Modifying(m'.log[k].request) ==>
                    |m.log| + 3 <= k && Opened(m'.log, |m.log| + 1))
              && (status == Success ==> Closed(m'.log))
  {
    hide ReflashRun;
    hide UnlockedRun;
    hide Checked;
    hide Passes;
    hide Reportable;
    hide FileReadable;
    hide ImageFor;
    hide IsNotification;
    hide Modifying;
    hide Opened;
    hide Closed;
    if plan :| Cleared(ec, m, args, file, keys, plan) {
      PlanForFamily(ec, m, args, file, plan, f);
      ClearedRuns(ec, m, args, file, keys, plan);
      NotificationsOfPlan(ec, Checked(ec, m, args, file, keys), plan);
      FirstIsVersion(m, Checked(ec, m, args, file, keys), UnlockedRun(ec, Checked(ec, m, args, file, keys), plan).1);
    } else {
      UnclearedStops(ec, m, args, file, keys);
      NotVersion();
    }
  }

  lemma NotVersion()
    ensures forall e: Entry :: e.request.GetVersion? ==> !IsNotification(e) && !Modifying(e.request)
  {
  }

  lemma FirstIsVersion(m: Machine, m1: Machine, m': Machine)
    requires Extends(m, m1) && |m1.log| == |m.log| + 1 && m1.log[|m.log|].request.GetVersion? && Extends(m1, m')
    ensures Extends(m, m') && !IsNotification(m'.log[|m.log|]) && !Modifying(m'.log[|m.log|].request)
  {
    ExtendsTransitive(m, m1, m');
  }

  lemma NotificationsOfPlan(ec: Ec, m: Machine, plan: Plan)
    requires PlanFits(plan, m)
    ensures Extends(m, UnlockedRun(ec, m, plan).1)
    ensures var (status, m') := UnlockedRun(ec, m, plan);
            if !plan.flashMap.requiresUnlock then forall k :: |m.log| <= k < |m'.log| ==> !IsNotification(m'.log[k])
            else
              && (forall k :: |m.log| <= k < |m'.log| && Modifying(m'.log[k].request) ==>
                    |m.log| + 2 <= k && Opened(m'.log, |m.log|))
              && (status == Success ==> Closed(m'.log))
  {
    hide UnlockedRun;
    hide IsNotification;
    hide Modifying;
    hide Opened;
    hide Closed;
    hide Lawful;
    hide Untouched;
    hide Complete;
    UnlockedSafety(ec, m, plan, false);
    if !plan.flashMap.requiresUnlock {
      LawfulWithoutUnlock(ec, m, plan);
    }
  }
}
