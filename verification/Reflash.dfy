/** The reflash command. */
module Reflash {
  import opened Wrappers
  import opened Bytes
  import opened Fmap
  import opened EcDevice
  import opened Flash
  import opened Regions

  // ---------------------------------------------------------------- one region

  /** Erase, write, read back and compare. */
  function RegionRun(ec: Ec, m: Machine, r: Region, image: seq<byte>): (res: (int, Machine))
    requires r.End() <= |image| && r.End() <= |m.s.flash|
    ensures |res.1.s.flash| == |m.s.flash|
  {
    var data := image[r.base..r.End()];
    var (rv1, m1) := EraseRun(ec, m, r.base, r.size);
    if rv1 < 0 then (rv1, m1)
    else
      var (rv2, m2) := WriteRun(ec, m1, r.base, data);
      if rv2 < 0 then (rv2, m2)
      else
        var (rv3, got, m3) := ReadRun(ec, m2, r.base, r.size);
        if rv3 < 0 then (rv3, m3)
        else if got == data then (rv3, m3)
        else (-1, m3)
  }

  method FlashRegion(dev: Device, r: Region, firmware: array<byte>, verify: array<byte>) returns (rv: int)
    requires dev.Valid() && r.End() <= firmware.Length == verify.Length && r.End() <= dev.flash.Length
    requires firmware != dev.flash && verify != dev.flash && firmware != verify
    modifies dev, dev.flash, verify
    ensures dev.Valid()
    ensures (rv, dev.M()) == RegionRun(dev.ec, old(dev.M()), r, firmware[..])
  {
    hide EraseRun;
    hide WriteRun;
    hide ReadRun;
    assert firmware[..][r.base..r.End()] == firmware[r.base..r.base + r.size];
    rv := FlashEraseBytes(dev, r.base, r.size);
    if rv < 0 {
      return;
    }
    rv := FlashWriteBytes(dev, r.base, r.size, firmware, r.base);
    if rv < 0 {
      return;
    }
    ghost var was := verify[..];
    ghost var got := ReadRun(dev.ec, dev.M(), r.base, r.size).1;
    rv := FlashReadBytes(dev, r.base, r.size, verify, r.base);
    if rv < 0 {
      return;
    }
    assert verify[r.base..r.base + r.size] == got by {
      assert verify[..] == Splice(was, r.base, got);
      assert verify[..][r.base..r.base + r.size] == got;
    }
    if verify[r.base..r.base + r.size] != firmware[r.base..r.base + r.size] {
      rv := -1;
    }
  }

  // ---------------------------------------------------------------- all regions

  ghost predicate MaskWithin(mask: nat, n: nat) {
    forall k: nat :: BitSet(mask, k) ==> k < n
  }

  lemma MaskStep(mask: nat, n: nat)
    requires mask > 0 && MaskWithin(mask, n)
    ensures LeadingBit(mask) < n && BitSet(mask, LeadingBit(mask))
    ensures WithoutBit(mask, LeadingBit(mask)) < mask
    ensures MaskWithin(WithoutBit(mask, LeadingBit(mask)), n)
  {
    var top := LeadingBit(mask);
    LeadingBitSet(mask);
    WithoutBitDecreases(mask, top);
    forall k: nat | BitSet(WithoutBit(mask, top), k)
      ensures k < n
    {
      WithoutBitBits(mask, top, k);
    }
  }

  /** The regions of the mask, from the highest down, until one fails. */
  ghost function PhaseRun(ec: Ec, m: Machine, regions: seq<Region>, mask: nat, image: seq<byte>, rv: int)
    : (res: (int, Machine))
    requires Ordered(regions, |image|) && |image| <= |m.s.flash| && MaskWithin(mask, |regions|)
    ensures |res.1.s.flash| == |m.s.flash|
    decreases mask
  {
    if mask == 0 then (rv, m)
    else
      MaskStep(mask, |regions|);
      var index := LeadingBit(mask);
      var (rv', m') := RegionRun(ec, m, regions[index], image);
      if rv' < 0 then (rv', m')
      else PhaseRun(ec, m', regions, WithoutBit(mask, index), image, rv')
  }

  method FlashRegions(dev: Device, regions: seq<Region>, mask0: nat, firmware: array<byte>, verify: array<byte>,
                      rv0: int)
    returns (rv: int)
    requires dev.Valid() && firmware.Length == verify.Length && firmware.Length <= dev.flash.Length
    requires Ordered(regions, firmware.Length) && MaskWithin(mask0, |regions|)
    requires firmware != dev.flash && verify != dev.flash && firmware != verify
    modifies dev, dev.flash, verify
    ensures dev.Valid()
    ensures (rv, dev.M()) == PhaseRun(dev.ec, old(dev.M()), regions, mask0, firmware[..], rv0)
  {
    hide RegionRun;
    var mask := mask0;
    rv := rv0;
    while mask != 0
      invariant dev.Valid() && MaskWithin(mask, |regions|)
      invariant firmware[..] == old(firmware[..])
      invariant PhaseRun(dev.ec, dev.M(), regions, mask, firmware[..], rv)
             == PhaseRun(dev.ec, old(dev.M()), regions, mask0, firmware[..], rv0)
      decreases mask
    {
      MaskStep(mask, |regions|);
      var index := LeadingBit(mask);
      mask := WithoutBit(mask, index);
      rv := FlashRegion(dev, regions[index], firmware, verify);
      if rv < 0 {
        return;
      }
    }
  }

  // ---------------------------------------------------------------- readiness

  datatype Status =
    | Success | Usage | OpenError | ReadError | InvalidParameter | NotReady
    | Unsupported | EndOfFile | Aborted | DeviceError
    | DivideError // the processor's exception, not a status: the application stops there

  const MEMMAP_ID := 0x20
  const MEMMAP_BATT_CAP := 0x48
  const MEMMAP_BATT_FLAG := 0x4c
  const MEMMAP_BATT_LFCC := 0x58
  const BATT_FLAG_AC_PRESENT := 0x01
  const BATT_FLAG_BATT_PRESENT := 0x02

  function Readiness(flag: byte, lfcc: nat, cap: nat): Status {
    if And(flag, BATT_FLAG_AC_PRESENT) == 0 then NotReady
    else if And(flag, BATT_FLAG_BATT_PRESENT) == 0 then Success
    else if lfcc == 0 then DivideError
    else if 100 * cap / lfcc < 20 then NotReady
    else Success
  }

  function CheckReadyRun(ec: Ec, m: Machine): (Status, Machine) {
    var n := m.memoryReads;
    var id := ec.memmap(n);
    if id[MEMMAP_ID] != 0x45 || id[MEMMAP_ID + 1] != 0x43 then (InvalidParameter, m.(memoryReads := n + 1))
    else
      (Readiness(ec.memmap(n + 1)[MEMMAP_BATT_FLAG],
                 FromLe32(ec.memmap(n + 2), MEMMAP_BATT_LFCC),
                 FromLe32(ec.memmap(n + 3), MEMMAP_BATT_CAP)),
       m.(memoryReads := n + 4))
  }

  method CheckReadyForECFlash(dev: Device) returns (status: Status)
    modifies dev`memoryReads
    ensures (status, dev.M()) == CheckReadyRun(dev.ec, old(dev.M()))
  {
    var ecid := dev.ReadMemory();
    if ecid[MEMMAP_ID] != 0x45 || ecid[MEMMAP_ID + 1] != 0x43 {
      return InvalidParameter;
    }
    var batteryFlag := dev.ReadMemory();
    var batteryLfcc := dev.ReadMemory();
    var batteryCap := dev.ReadMemory();
    status := Readiness(batteryFlag[MEMMAP_BATT_FLAG],
                        FromLe32(batteryLfcc, MEMMAP_BATT_LFCC),
                        FromLe32(batteryCap, MEMMAP_BATT_CAP));
  }

  /** Only an unforced run checks. */
  function ReadyUnlessForced(ec: Ec, m: Machine, force: nat): (Status, Machine) {
    if force > 0 then (Success, m) else CheckReadyRun(ec, m)
  }

  // ---------------------------------------------------------------- the board

  predicate Delimiter(c: byte) {
    c == 0x5F || c == 0x2D
  }

  /** A version string cut at its first delimiter. */
  function Truncated(id: seq<byte>): (r: seq<byte>)
    ensures |r| == |id|
  {
    if id == [] then []
    else if Delimiter(id[0]) then [0] + id[1..]
    else [id[0]] + Truncated(id[1..])
  }

  /** NUL, '_' or '-'. */
  predicate Ends(c: byte) {
    c == 0 || c as int == '_' as int || c as int == '-' as int
  }

  /** As a C string, a cut version string is what stands before its first '_', '-' or NUL. */
  lemma {:induction false} TruncatedMeans(id: seq<byte>)
    ensures var board := CString(Truncated(id), |id|);
            && board <= id
            && (forall c :: c in board ==> !Ends(c))
            && (|board| == |id| || Ends(id[|board|]))
  {
    if id != [] && !Ends(id[0]) {
      TruncatedMeans(id[1..]);
      assert Truncated(id)[1..] == Truncated(id[1..]);
      assert CString(Truncated(id), |id|) == [id[0]] + CString(Truncated(id[1..]), |id| - 1);
    }
  }

  method TruncateInPlace(id: array<byte>)
    modifies id
    ensures id[..] == Truncated(old(id[..]))
  {
    ghost var was := id[..];
    var end := 0;
    assert was[..0] == [] && was[0..] == was;
    while end < id.Length
      invariant 0 <= end <= id.Length && id[..] == was
      invariant Truncated(was) == was[..end] + Truncated(was[end..])
    {
      TruncatedStep(was, end);
      if Delimiter(id[end]) {
        id[end] := 0;
        assert id[..] == was[..end] + [0] + was[end + 1..];
        return;
      }
      end := end + 1;
    }
    assert was[end..] == [] && was[..end] == was;
  }

  lemma TruncatedStep(id: seq<byte>, end: nat)
    requires end < |id|
    ensures id[..end] + Truncated(id[end..]) ==
            if Delimiter(id[end]) then id[..end] + [0] + id[end + 1..] else id[..end + 1] + Truncated(id[end + 1..])
  {
    assert id[end..][1..] == id[end + 1..];
    assert id[..end + 1] == id[..end] + [id[end]];
  }

  /** The scan for the delimiter reads only bytes of the image: the source checks no bounds. */
  predicate IdReadable(image: seq<byte>, at: nat, n: nat)
    decreases VERSION_LENGTH - n
  {
    at + n < |image| && (Delimiter(image[at + n]) || n >= VERSION_LENGTH || IdReadable(image, at, n + 1))
  }

  function IdLength(image: seq<byte>, at: nat, n: nat): (r: nat)
    requires IdReadable(image, at, n)
    ensures at + r < |image| && n <= r && (n <= 32 ==> r <= 32)
    ensures image[at + r] == 0x5F || image[at + r] == 0x2D || r >= 32
    ensures forall k :: at + n <= k < at + r ==> image[k] != 0x5F && image[k] != 0x2D
    decreases VERSION_LENGTH - n
  {
    if Delimiter(image[at + n]) || n >= VERSION_LENGTH then n else IdLength(image, at, n + 1)
  }

  /** Everything the image is asked for lies inside it. */
  predicate ImageReadable(image: seq<byte>) {
    var header := GetImageFlashMap(image);
    header.Some? ==> header.value + HEADER_SIZE <= |image| && BoardReadable(image, header.value)
  }

  predicate BoardReadable(image: seq<byte>, header: nat)
    requires header + HEADER_SIZE <= |image|
  {
    && Searchable(image, header, RO_FRID, 0)
    && var area := AreaFrom(image, header, RO_FRID, 0);
       area.Some? ==> IdReadable(image, AreaOffset(image, area.value), 0)
  }

  /** The board ID of an image: the characters of its version before the delimiter. */
  function ImageBoard(image: seq<byte>): Option<seq<byte>>
    requires ImageReadable(image)
  {
    var header := GetImageFlashMap(image);
    if header.None? then None else BoardFrom(image, header.value)
  }

  function BoardFrom(image: seq<byte>, header: nat): Option<seq<byte>>
    requires header + HEADER_SIZE <= |image| && BoardReadable(image, header)
  {
    var area := AreaFrom(image, header, RO_FRID, 0);
    if area.None? then None
    else
      var at := AreaOffset(image, area.value);
      Some(image[at..at + IdLength(image, at, 0)])
  }

  function Ascii(s: string): seq<byte> {
    seq(|s|, k requires 0 <= k < |s| => if s[k] as int < 0x100 then s[k] as int else 0)
  }

  /** Equal in as many characters as the image's ID has. */
  predicate SameBoard(board: seq<byte>, id: seq<byte>) {
    CString(board, |id|) == CString(id, |id|)
  }

  function FindMapFrom(id: seq<byte>, i: nat): Option<FlashMap>
    decreases |FLASH_MAPS| - i
  {
    if i >= |FLASH_MAPS| then None
    else if SameBoard(Ascii(FLASH_MAPS[i].board), id) then Some(FLASH_MAPS[i])
    else FindMapFrom(id, i + 1)
  }

  predicate MapFor(k: nat, id: seq<byte>)
    requires k < |FLASH_MAPS|
  {
    SameBoard(Ascii(FLASH_MAPS[k].board), id)
  }

  /** The map found is the first one in the list whose board has the ID. */
  lemma {:induction false} FirstMatchingMap(id: seq<byte>, i: nat)
    requires i <= |FLASH_MAPS|
    ensures var r := FindMapFrom(id, i);
            if r.None? then forall k :: i <= k < |FLASH_MAPS| ==> !MapFor(k, id)
            else exists k :: && i <= k < |FLASH_MAPS| && MapFor(k, id) && r.value == FLASH_MAPS[k]
                             && forall j :: i <= j < k ==> !MapFor(j, id)
    decreases |FLASH_MAPS| - i
  {
    hide SameBoard;
    if i < |FLASH_MAPS| {
      if MapFor(i, id) {
        assert FindMapFrom(id, i).value == FLASH_MAPS[i];
      } else {
        FirstMatchingMap(id, i + 1);
      }
    }
  }

  method FindMap(id: seq<byte>) returns (found: Option<FlashMap>)
    ensures found == FindMapFrom(id, 0)
  {
    var i := 0;
    while i < |FLASH_MAPS|
      invariant FindMapFrom(id, i) == FindMapFrom(id, 0)
    {
      if SameBoard(Ascii(FLASH_MAPS[i].board), id) {
        return Some(FLASH_MAPS[i]);
      }
      i := i + 1;
    }
    return None;
  }

  // ---------------------------------------------------------------- before the countdown

  datatype ImageFile = CannotOpen | ReadFails(size: nat) | ReadsShort(size: nat) | Readable(bytes: seq<byte>) {
    function FileSize(): nat
      requires !CannotOpen?
    {
      if Readable? then |bytes| else size
    }
  }

  datatype Plan = Plan(flashMap: FlashMap, mask: nat, image: seq<byte>, force: nat)
  datatype Prepared = Stop(status: Status) | Go(plan: Plan)

  predicate FileReadable(file: ImageFile) {
    file.Readable? && |file.bytes| == IMAGE_SIZE ==> ImageReadable(file.bytes)
  }

  /** The running board's ID: the RO version, or the RW one if that is empty. */
  function CurrentBoard(reply: Reply): seq<byte>
    requires |reply.data| == 2 * VERSION_LENGTH
  {
    Truncated(if reply.data[0] != 0 then reply.data[..VERSION_LENGTH] else reply.data[VERSION_LENGTH..])
  }

  /** The board ID of an EC that reports an RO version is what stands before the first '_', '-' or
      NUL of it; that of one that does not, what stands there in the RW version. */
  lemma CurrentBoardMeans(ro: seq<byte>, rw: seq<byte>, rv: int)
    requires |ro| == |rw| == VERSION_LENGTH
    ensures var version := if ro[0] == 0 then rw else ro;
            var board := CString(CurrentBoard(Reply(rv, ro + rw, 0)), VERSION_LENGTH);
            && board <= version
            && (forall c :: c in board ==> !Ends(c))
            && (|board| == VERSION_LENGTH || Ends(version[|board|]))
  {
    assert (ro + rw)[..VERSION_LENGTH] == ro && (ro + rw)[VERSION_LENGTH..] == rw;
    TruncatedMeans(if ro[0] == 0 then rw else ro);
  }

  function ChooseMap(current: seq<byte>, image: seq<byte>, o: Options): Prepared
    requires ImageReadable(image)
  {
    var id := ImageBoard(image);
    if id.None? then Stop(Aborted)
    else if o.force < 2 && !SameBoard(current, id.value) then Stop(Aborted)
    else
      var found := FindMapFrom(id.value, 0);
      if found.None? && o.force < 2 then Stop(Aborted)
      else
        var flashMap := if found.Some? then found.value else UNKNOWN_MAP;
        Go(Plan(flashMap, FlashMask(flashMap.regions, o), image, o.force))
  }

  lemma VersionReplySize(ec: Ec, m: Machine)
    requires Reportable(m.s.flash) && |m.s.ro| == |m.s.rw| == VERSION_LENGTH
    ensures |SendGetVersion(ec, m).0.data| == 2 * VERSION_LENGTH
  {
  }

  function LoadRun(ec: Ec, m: Machine, o: Options, file: ImageFile): (Prepared, Machine)
    requires Reportable(m.s.flash) && |m.s.ro| == |m.s.rw| == VERSION_LENGTH && FileReadable(file)
  {
    if file.CannotOpen? then (Stop(OpenError), m)
    else if file.FileSize() != IMAGE_SIZE then (Stop(Unsupported), m)
    else if file.ReadFails? then (Stop(ReadError), m)
    else if file.ReadsShort? then (Stop(EndOfFile), m)
    else
      VersionReplySize(ec, m);
      var (reply, m1) := SendGetVersion(ec, m);
      if reply.rv < 0 then (Stop(DeviceError), m1)
      else (ChooseMap(CurrentBoard(reply), file.bytes, o), m1)
  }

  function PrepareRun(ec: Ec, m: Machine, args: seq<string>, file: ImageFile): (Prepared, Machine)
    requires Reportable(m.s.flash) && |m.s.ro| == |m.s.rw| == VERSION_LENGTH && FileReadable(file)
  {
    var o := Parse(args);
    if o.filename.None? then (Stop(Usage), m)
    else
      var (status, m1) := ReadyUnlessForced(ec, m, o.force);
      if status != Success then (Stop(status), m1) else LoadRun(ec, m1, o, file)
  }

  // ---------------------------------------------------------------- the countdown and after

  const COUNTDOWN := 7

  /** Seconds `i` and above have passed; a key pressed in second `i` cancels. */
  function CountdownRun(m: Machine, keys: nat -> bool, i: nat): (bool, Machine)
    decreases i
  {
    if i == 0 then (true, m)
    else
      var m1 := Stalled(m, 1000000);
      if keys(i) then (false, m1) else CountdownRun(m1, keys, i - 1)
  }

  const ACCESS_SPI := 0
  const FIRMWARE_START := 1
  const FIRMWARE_DONE := 2
  const ACCESS_SPI_DONE := 3

  /** Two notifications, the second only after the first succeeded. */
  function NotifyRun(ec: Ec, m: Machine, first: byte, second: byte): (r: (int, Machine))
    ensures |r.1.s.flash| == |m.s.flash|
  {
    var (reply1, m1) := Send(ec, m, FlashNotified(first));
    if reply1.rv < 0 then (reply1.rv, m1)
    else
      var (reply2, m2) := Send(ec, m1, FlashNotified(second));
      (reply2.rv, m2)
  }

  ghost predicate PlanFits(plan: Plan, m: Machine) {
    && |plan.image| == IMAGE_SIZE <= |m.s.flash|
    && Ordered(plan.flashMap.regions, IMAGE_SIZE)
    && MaskWithin(plan.mask, |plan.flashMap.regions|)
  }

  /** Unlock, flash, lock. */
  ghost function UnlockedRun(ec: Ec, m: Machine, plan: Plan): (Status, Machine)
    requires PlanFits(plan, m)
  {
    var (rv1, m1) := if plan.flashMap.requiresUnlock then NotifyRun(ec, m, ACCESS_SPI, FIRMWARE_START) else (0, m);
    if rv1 < 0 then (DeviceError, m1)
    else
      var (rv2, m2) := PhaseRun(ec, m1, plan.flashMap.regions, plan.mask, plan.image, rv1);
      if rv2 < 0 then (DeviceError, m2)
      else
        var (rv3, m3) :=
          if plan.flashMap.requiresUnlock then NotifyRun(ec, m2, ACCESS_SPI_DONE, FIRMWARE_DONE) else (0, m2);
        (if rv3 < 0 then DeviceError else Success, m3)
  }

  ghost function CommitRun(ec: Ec, m: Machine, plan: Plan, keys: nat -> bool): (Status, Machine)
    requires PlanFits(plan, m)
  {
    var (finished, m1) := CountdownRun(m, keys, COUNTDOWN);
    if !finished then (Aborted, m1)
    else
      CountdownKeeps(m, keys, COUNTDOWN);
      var (status, m2) := ReadyUnlessForced(ec, m1, plan.force);
      if status != Success then (status, m2) else UnlockedRun(ec, m2, plan)
  }

  lemma {:induction false} CountdownKeeps(m: Machine, keys: nat -> bool, i: nat)
    ensures var (finished, m') := CountdownRun(m, keys, i);
            && m'.s == m.s && m'.log == m.log && m'.memoryReads == m.memoryReads
            && (finished ==> m'.stalled == m.stalled + 1000000 * i)
            && (finished <==> forall k :: 1 <= k <= i ==> !keys(k))
    decreases i
  {
    if i > 0 && !keys(i) {
      CountdownKeeps(Stalled(m, 1000000), keys, i - 1);
    }
  }

  /** The whole command. */
  ghost function ReflashRun(ec: Ec, m: Machine, args: seq<string>, file: ImageFile, keys: nat -> bool)
    : (Status, Machine)
    requires Reportable(m.s.flash) && |m.s.ro| == |m.s.rw| == VERSION_LENGTH && FileReadable(file)
    requires |m.s.flash| >= IMAGE_SIZE
  {
    var (prepared, m1) := PrepareRun(ec, m, args, file);
    match prepared
    case Stop(status) => (status, m1)
    case Go(plan) =>
      PreparedPlanFits(ec, m, args, file);
      CommitRun(ec, m1, plan, keys)
  }

  lemma PreparedPlanFits(ec: Ec, m: Machine, args: seq<string>, file: ImageFile)
    requires Reportable(m.s.flash) && |m.s.ro| == |m.s.rw| == VERSION_LENGTH && FileReadable(file)
    requires |m.s.flash| >= IMAGE_SIZE
    ensures var (prepared, m1) := PrepareRun(ec, m, args, file);
            && m1.s.flash == m.s.flash
            && (prepared.Go? ==> PlanFits(prepared.plan, m1) && Listed(prepared.plan.flashMap))
  {
    hide ImageReadable;
    hide Reportable;
    hide ChooseMap;
    var o := Parse(args);
    if o.filename.Some? && file.Readable? && |file.bytes| == IMAGE_SIZE {
      forall current: seq<byte> | ChooseMap(current, file.bytes, o).Go?
        ensures PlanFits(ChooseMap(current, file.bytes, o).plan, m)
        ensures Listed(ChooseMap(current, file.bytes, o).plan.flashMap)
      {
        ChosenPlanFits(current, file.bytes, args);
      }
    }
  }

  lemma ChosenPlanFits(current: seq<byte>, image: seq<byte>, args: seq<string>)
    requires ImageReadable(image) && ChooseMap(current, image, Parse(args)).Go?
    ensures var plan := ChooseMap(current, image, Parse(args)).plan;
            && plan.image == image
            && Listed(plan.flashMap)
            && Ordered(plan.flashMap.regions, IMAGE_SIZE)
            && MaskWithin(plan.mask, |plan.flashMap.regions|)
  {
    hide ImageReadable;
    hide ImageBoard;
    hide FlashMask;
    FoundIsListed(ImageBoard(image).value, 0);
    MaskFitsMap(args, ChooseMap(current, image, Parse(args)).plan.flashMap);
  }

  lemma MaskFitsMap(args: seq<string>, flashMap: FlashMap)
    requires Listed(flashMap)
    ensures Ordered(flashMap.regions, IMAGE_SIZE)
    ensures MaskWithin(FlashMask(flashMap.regions, Parse(args)), |flashMap.regions|)
  {
    MapsTileTheImage(flashMap);
    forall k: nat | BitSet(FlashMask(flashMap.regions, Parse(args)), k)
      ensures k < |flashMap.regions|
    {
      SelectionClosedForm(args, flashMap.regions, k);
    }
  }

  lemma FoundIsListed(id: seq<byte>, i: nat)
    ensures var r := FindMapFrom(id, i); r.Some? ==> r.value in FLASH_MAPS
    decreases |FLASH_MAPS| - i
  {
    if i < |FLASH_MAPS| {
      FoundIsListed(id, i + 1);
    }
  }
}
