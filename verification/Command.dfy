/** The reflash command, step by step. */
module Command {
  import opened Wrappers
  import opened Bytes
  import opened Fmap
  import opened EcDevice
  import opened Regions
  import opened Reflash

  /** The board ID in the image's own version string. */
  method FindImageBoard(image: seq<byte>) returns (id: Option<seq<byte>>)
    requires ImageReadable(image)
    ensures id == ImageBoard(image)
  {
    hide GetImageFlashMap;
    hide BoardReadable;
    hide BoardFrom;
    var incomingMap := GetImageFlashMap(image);
    if incomingMap.None? {
      return None;
    }
    id := FindBoardInMap(image, incomingMap.value);
  }

  method FindBoardInMap(image: seq<byte>, header: nat) returns (id: Option<seq<byte>>)
    requires header + HEADER_SIZE <= |image| && BoardReadable(image, header)
    ensures id == BoardFrom(image, header)
  {
    hide AreaFrom;
    hide Searchable;
    var roFrid := GetImageFlashArea(image, header, RO_FRID);
    if roFrid.None? {
      return None;
    }
    var at := AreaOffset(image, roFrid.value);
    var length := MeasureId(image, at);
    id := Some(image[at..at + length]);
  }

  method MeasureId(image: seq<byte>, firmwareBoardId: nat) returns (length: nat)
    requires IdReadable(image, firmwareBoardId, 0)
    ensures length == IdLength(image, firmwareBoardId, 0)
  {
    length := 0;
    while !Delimiter(image[firmwareBoardId + length]) && length < VERSION_LENGTH
      invariant IdReadable(image, firmwareBoardId, length)
      invariant IdLength(image, firmwareBoardId, length) == IdLength(image, firmwareBoardId, 0)
      decreases VERSION_LENGTH - length
    {
      length := length + 1;
    }
  }

  /** The board gate and the choice of the flash map. */
  method ChooseFlashMap(current: seq<byte>, image: seq<byte>, o: Options) returns (prepared: Prepared)
    requires ImageReadable(image)
    ensures prepared == ChooseMap(current, image, o)
  {
    hide ImageReadable;
    hide ImageBoard;
    hide SameBoard;
    hide FlashMask;
    hide FindMapFrom;
    var board := FindImageBoard(image);
    if board.None? {
      return Stop(Aborted);
    }
    var id := board.value;
    if o.force < 2 && !SameBoard(current, id) {
      return Stop(Aborted);
    }
    var found := FindMap(id);
    if found.None? && o.force < 2 {
      return Stop(Aborted);
    }
    var flashMap := if found.Some? then found.value else UNKNOWN_MAP;
    var mask := ComputeMask(flashMap.regions, o);
    return Go(Plan(flashMap, mask, image, o.force));
  }

  /** Everything up to the countdown. */
  method Prepare(dev: Device, args: seq<string>, file: ImageFile) returns (prepared: Prepared)
    requires dev.Valid() && Reportable(dev.State().flash) && FileReadable(file)
    requires |dev.versionRo| == |dev.versionRw| == VERSION_LENGTH
    modifies dev
    ensures dev.Valid()
    ensures (prepared, dev.M()) == PrepareRun(dev.ec, old(dev.M()), args, file)
  {
    hide ChooseMap;
    hide ImageReadable;
    hide Reportable;
    hide CheckReadyRun;
    hide LoadRun;
    var o := ParseArguments(args);
    if o.filename.None? {
      return Stop(Usage);
    }
    if o.force == 0 {
      var status := CheckReadyForECFlash(dev);
      if status != Success {
        return Stop(status);
      }
    }
    prepared := Load(dev, o, file);
  }

  /** The image file, the running version, and the board gate. */
  method Load(dev: Device, o: Options, file: ImageFile) returns (prepared: Prepared)
    requires dev.Valid() && Reportable(dev.State().flash) && FileReadable(file)
    requires |dev.versionRo| == |dev.versionRw| == VERSION_LENGTH
    modifies dev
    ensures dev.Valid()
    ensures (prepared, dev.M()) == LoadRun(dev.ec, old(dev.M()), o, file)
  {
    hide ChooseMap;
    hide ImageReadable;
    hide Reportable;
    hide SendGetVersion;
    hide CurrentBoard;
    if file.CannotOpen? {
      return Stop(OpenError);
    }
    if file.FileSize() != IMAGE_SIZE {
      return Stop(Unsupported);
    }
    if file.ReadFails? {
      return Stop(ReadError);
    }
    if file.ReadsShort? {
      return Stop(EndOfFile);
    }
    VersionReplySize(dev.ec, dev.M());
    var version := dev.GetVersion();
    if version.rv < 0 {
      return Stop(DeviceError);
    }
    var current := BoardOf(version);
    prepared := ChooseFlashMap(current, file.bytes, o);
  }

  /** The current board's ID, cut in place. */
  method BoardOf(version: Reply) returns (board: seq<byte>)
    requires |version.data| == 2 * VERSION_LENGTH
    ensures board == CurrentBoard(version)
  {
    var from := if version.data[0] != 0 then 0 else VERSION_LENGTH;
    var id := new byte[VERSION_LENGTH](k requires 0 <= k < VERSION_LENGTH => version.data[from + k]);
    ghost var chosen := if version.data[0] != 0 then version.data[..VERSION_LENGTH] else version.data[VERSION_LENGTH..];
    assert id[..] == chosen;
    TruncateInPlace(id);
    board := id[..];
  }

  method Notify(dev: Device, first: byte, second: byte) returns (rv: int)
    requires dev.Valid()
    modifies dev, dev.flash
    ensures dev.Valid()
    ensures (rv, dev.M()) == NotifyRun(dev.ec, old(dev.M()), first, second)
  {
    hide Send;
    var reply := dev.SendCommand(FlashNotified(first));
    if reply.rv < 0 {
      return reply.rv;
    }
    reply := dev.SendCommand(FlashNotified(second));
    return reply.rv;
  }

  method Countdown(dev: Device, keys: nat -> bool) returns (finished: bool)
    modifies dev`stalled
    ensures (finished, dev.M()) == CountdownRun(old(dev.M()), keys, COUNTDOWN)
  {
    var i := COUNTDOWN;
    while i > 0
      invariant 0 <= i
      invariant CountdownRun(dev.M(), keys, i) == CountdownRun(old(dev.M()), keys, COUNTDOWN)
    {
      dev.Stall(1000000);
      if keys(i) {
        return false;
      }
      i := i - 1;
    }
    return true;
  }

  /** Unlock, flash, lock: the lock is reached only if every region was flashed. */
  method Unlocked(dev: Device, plan: Plan) returns (status: Status)
    requires dev.Valid() && PlanFits(plan, dev.M())
    modifies dev, dev.flash
    ensures dev.Valid()
    ensures (status, dev.M()) == UnlockedRun(dev.ec, old(dev.M()), plan)
  {
    hide PhaseRun;
    hide NotifyRun;
    hide Ordered;
    hide MaskWithin;
    var firmware := new byte[IMAGE_SIZE](k requires 0 <= k < IMAGE_SIZE => plan.image[k]);
    assert firmware[..] == plan.image;
    var verify := new byte[IMAGE_SIZE];
    var rv := 0;
    if plan.flashMap.requiresUnlock {
      rv := Notify(dev, ACCESS_SPI, FIRMWARE_START);
      if rv < 0 {
        return DeviceError;
      }
    }
    rv := FlashRegions(dev, plan.flashMap.regions, plan.mask, firmware, verify, rv);
    if rv < 0 {
      return DeviceError;
    }
    if plan.flashMap.requiresUnlock {
      rv := Notify(dev, ACCESS_SPI_DONE, FIRMWARE_DONE);
      if rv < 0 {
        return DeviceError;
      }
    }
    return Success;
  }

  /** The command. `keys(i)` tells whether a key is pressed while the countdown shows `i`. */
  method CmdReflash(dev: Device, args: seq<string>, file: ImageFile, keys: nat -> bool) returns (status: Status)
    requires dev.Valid() && Reportable(dev.State().flash) && FileReadable(file)
    requires |dev.versionRo| == |dev.versionRw| == VERSION_LENGTH && dev.flash.Length >= IMAGE_SIZE
    modifies dev, dev.flash
    ensures dev.Valid()
    ensures (status, dev.M()) == ReflashRun(dev.ec, old(dev.M()), args, file, keys)
  {
    hide PrepareRun;
    hide UnlockedRun;
    hide Reportable;
    hide FileReadable;
    hide Ordered;
    hide MaskWithin;
    ghost var m := dev.M();
    PreparedPlanFits(dev.ec, m, args, file);
    var prepared := Prepare(dev, args, file);
    if prepared.Stop? {
      return prepared.status;
    }
    var plan := prepared.plan;
    CountdownKeeps(dev.M(), keys, COUNTDOWN);
    var finished := Countdown(dev, keys);
    if !finished {
      return Aborted;
    }
    if plan.force == 0 {
      status := CheckReadyForECFlash(dev);
      if status != Success {
        return;
      }
    }
    status := Unlocked(dev, plan);
  }
}
