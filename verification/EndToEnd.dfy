/** The command against an EC that obeys, from the command line to the reported version. */
module EndToEnd {
  import opened Bytes
  import opened Fmap
  import opened EcDevice
  import opened FlashFacts
  import opened Regions
  import opened Reflash
  import opened PhaseFacts
  import opened CommandFacts

  lemma NotifyObeyed(ec: Ec, m: Machine, first: byte, second: byte)
    requires Obedient(ec)
    ensures NotifyRun(ec, m, first, second).0 >= 0
  {
    SendObeyed(ec, m, FlashNotified(first));
    SendObeyed(ec, m, FlashNotified(second));
    var m1 := Send(ec, m, FlashNotified(first)).1;
    SendObeyed(ec, m1, FlashNotified(second));
  }

  /** Success, the exact flash and the exact work. */
  ghost predicate Reflashed(m: Machine, m': Machine, plan: Plan)
    requires Ordered(plan.flashMap.regions, |plan.image|)
  {
    var total := SelectedBytes(plan.flashMap.regions, plan.mask, |plan.flashMap.regions|);
    && m'.s.flash == Expected(m.s.flash, plan.image, plan.flashMap.regions, plan.mask)
    && m'.s.erased == m.s.erased + total && m'.s.written == m.s.written + total
    && |m'.s.ro| == |m'.s.rw| == VERSION_LENGTH
  }

  lemma UnlockedSucceeds(ec: Ec, m: Machine, plan: Plan)
    requires PlanFits(plan, m) && Obedient(ec) && |m.s.ro| == |m.s.rw| == VERSION_LENGTH
    ensures var (status, m') := UnlockedRun(ec, m, plan);
            status == Success && Reflashed(m, m', plan)
  {
    hide PhaseRun;
    hide NotifyRun;
    hide Ordered;
    hide MaskWithin;
    hide Expected;
    hide Obedient;
    var m1 := m;
    if plan.flashMap.requiresUnlock {
      NotifyObeyed(ec, m, ACCESS_SPI, FIRMWARE_START);
      NotifyFacts(ec, m, ACCESS_SPI, FIRMWARE_START);
      m1 := NotifyRun(ec, m, ACCESS_SPI, FIRMWARE_START).1;
    }
    var rv1 := if plan.flashMap.requiresUnlock then NotifyRun(ec, m, ACCESS_SPI, FIRMWARE_START).0 else 0;
    PhaseMeaning(ec, m1, plan.flashMap.regions, plan.mask, plan.image, rv1);
    PhaseEndToEnd(ec, m1, plan.flashMap.regions, plan.mask, plan.image, rv1);
    var m2 := PhaseRun(ec, m1, plan.flashMap.regions, plan.mask, plan.image, rv1).1;
    if plan.flashMap.requiresUnlock {
      NotifyObeyed(ec, m2, ACCESS_SPI_DONE, FIRMWARE_DONE);
      NotifyFacts(ec, m2, ACCESS_SPI_DONE, FIRMWARE_DONE);
    }
  }

  /** End to end: with every check passed (file, version, board gate, map, both readiness checks
      of an unforced run, no key pressed), the command succeeds on an EC that obeys: the image is
      in every selected region, every other byte is as before, and exactly the selected regions'
      bytes were erased and written. */
  lemma ReflashSucceeds(ec: Ec, m: Machine, args: seq<string>, file: ImageFile, keys: nat -> bool, plan: Plan)
    requires Startable(m, file) && Obedient(ec) && Cleared(ec, m, args, file, keys, plan)
    ensures Ordered(plan.flashMap.regions, |plan.image|)
    ensures var (status, m') := ReflashRun(ec, m, args, file, keys);
            status == Success && Reflashed(m, m', plan)
  {
    hide ReflashRun;
    hide UnlockedRun;
    hide Checked;
    hide Obedient;
    hide Cleared;
    hide Reportable;
    hide FileReadable;
    hide Ordered;
    hide MaskWithin;
    hide Expected;
    ClearedRuns(ec, m, args, file, keys, plan);
    UnlockedSucceeds(ec, Checked(ec, m, args, file, keys), plan);
  }

  // ---------------------------------------------------------------- the version afterwards

  /** The first `end` bytes of the image hold its first flash map, the areas searched, and the
      version string its RO_FRID area points to. */
  predicate SelfDescribing(image: seq<byte>, end: nat)
    requires end <= |image|
  {
    var p := image[..end];
    && GetImageFlashMap(p).Some?
    && var header := GetImageFlashMap(p).value;
       && header + HEADER_SIZE <= end
       && Searchable(p, header, RO_FRID, 0) && Searchable(p, header, RW_FWID, 0)
       && AreaFrom(p, header, RO_FRID, 0).Some?
       && AreaOffset(p, AreaFrom(p, header, RO_FRID, 0).value) + VERSION_LENGTH <= end
       && VersionReadable(p, header, RO_FRID)
  }

  /** Looking up a name in a prefix finds the same as in the whole. */
  lemma PrefixArea(p: seq<byte>, q: seq<byte>, header: nat, name: seq<byte>)
    requires header + HEADER_SIZE <= |p| && Searchable(p, header, name, 0)
    ensures Searchable(p + q, header, name, 0)
    ensures var area := AreaFrom(p, header, name, 0);
            && AreaFrom(p + q, header, name, 0) == area
            && (area.Some? ==> AreaOffset(p + q, area.value) == AreaOffset(p, area.value))
  {
    AreaInPrefix(p, q, header, name, 0);
    hide Searchable;
  }

  lemma PrefixVersion(p: seq<byte>, q: seq<byte>, header: nat, name: seq<byte>, other: seq<byte>)
    requires header + HEADER_SIZE <= |p| && VersionReadable(p, header, name)
    ensures VersionReadable(p + q, header, name)
    ensures VersionString(p + q, header, name, other) == VersionString(p, header, name, other)
  {
    PrefixArea(p, q, header, name);
    hide Searchable;
    hide AreaFrom;
    hide AreaOffset;
  }

  /** The RW version string, wherever it is, lies in a flash of this size. */
  predicate RwVersionWithin(image: seq<byte>, end: nat, size: nat)
    requires end <= |image| && SelfDescribing(image, end)
  {
    var rw := AreaFrom(image[..end], GetImageFlashMap(image[..end]).value, RW_FWID, 0);
    rw.Some? ==> AreaOffset(image[..end], rw.value) + VERSION_LENGTH <= size
  }

  /** The flash reports whenever its first bytes are those of a self-describing image. */
  lemma PrefixReportable(image: seq<byte>, end: nat, s: seq<byte>)
    requires end <= |image| && end <= |s| && s[..end] == image[..end]
    requires SelfDescribing(image, end) && RwVersionWithin(image, end, |s|)
    ensures GetImageFlashMap(s) == GetImageFlashMap(image[..end])
    ensures Reportable(s)
  {
    var p, q := image[..end], s[end..];
    var header := GetImageFlashMap(p).value;
    assert p + q == s;
    ScanInPrefix(p, q, 0);
    PrefixVersion(p, q, header, RO_FRID, []);
    PrefixArea(p, q, header, RW_FWID);
    hide Searchable;
    hide AreaFrom;
    hide ScanFrom;
    hide AreaOffset;
  }

  /** The version the image itself carries. */
  function ImageVersion(image: seq<byte>, end: nat): seq<byte>
    requires end <= |image| && SelfDescribing(image, end)
  {
    VersionString(image[..end], GetImageFlashMap(image[..end]).value, RO_FRID, [])
  }

  /** A flash that starts with the image's first `end` bytes reports the image's version. */
  lemma FlashReportsImage(ec: Ec, m: Machine, image: seq<byte>, end: nat)
    requires !ec.faults(|m.log|).Rogue?
    requires end <= |image| && end <= |m.s.flash| && m.s.flash[..end] == image[..end]
    requires SelfDescribing(image, end) && RwVersionWithin(image, end, |m.s.flash|)
    ensures Reportable(m.s.flash)
    ensures var reply := SendGetVersion(ec, m).0;
            && |ImageVersion(image, end)| == VERSION_LENGTH
            && reply.rv >= 0 && |reply.data| >= VERSION_LENGTH
            && reply.data[..VERSION_LENGTH] == ImageVersion(image, end)
  {
    PrefixReportable(image, end, m.s.flash);
    RoReported(image, end, m.s.flash, m.s.ro);
    hide VersionReadable;
    hide VersionString;
    hide GetImageFlashMap;
    hide SelfDescribing;
    assert Reported(m.s).ro == ImageVersion(image, end);
  }

  /** What the report takes for the RO version. */
  lemma RoReported(image: seq<byte>, end: nat, s: seq<byte>, other: seq<byte>)
    requires end <= |image| && end <= |s| && s[..end] == image[..end]
    requires SelfDescribing(image, end) && GetImageFlashMap(s) == GetImageFlashMap(image[..end])
    ensures |ImageVersion(image, end)| == VERSION_LENGTH
    ensures var header := GetImageFlashMap(s).value;
            && header + HEADER_SIZE <= |s| && VersionReadable(s, header, RO_FRID)
            && VersionString(s, header, RO_FRID, other) == ImageVersion(image, end)
  {
    assert image[..end] + s[end..] == s;
    hide Searchable;
    hide AreaFrom;
    hide ScanFrom;
    hide AreaOffset;
    PrefixVersion(image[..end], s[end..], GetImageFlashMap(s).value, RO_FRID, other);
  }

  /** The image's first region carries its map and its version. */
  predicate FirstRegionDescribes(plan: Plan, size: nat) {
    && |plan.flashMap.regions| > 0
    && var end := plan.flashMap.regions[0].End();
       && end <= |plan.image| && SelfDescribing(plan.image, end) && RwVersionWithin(plan.image, end, size)
  }

  /** On every EC: after a run that succeeded, flashed the first region, and could rely on what it
      read, a version query that does not go rogue finds the image's map in the flash and reports
      the image's version, provided that region carries it. */
  lemma VersionAfterReflash(ec: Ec, m: Machine, args: seq<string>, file: ImageFile, keys: nat -> bool, plan: Plan)
    requires Startable(m, file) && Cleared(ec, m, args, file, keys, plan)
    requires BitSet(plan.mask, 0) && FirstRegionDescribes(plan, |m.s.flash|)
    requires var (status, m') := ReflashRun(ec, m, args, file, keys);
             status == Success && Reliable(ec, m, m', plan) && !ec.faults(|m'.log|).Rogue?
    ensures Reportable(ReflashRun(ec, m, args, file, keys).1.s.flash)
    ensures var m' := ReflashRun(ec, m, args, file, keys).1;
            var reply := SendGetVersion(ec, m').0;
            && reply.rv >= 0 && |reply.data| >= VERSION_LENGTH
            && reply.data[..VERSION_LENGTH] == ImageVersion(plan.image, plan.flashMap.regions[0].End())
  {
    hide ReflashRun;
    hide Reportable;
    hide SelfDescribing;
    hide RwVersionWithin;
    hide Reliable;
    SuccessIsExpected(ec, m, args, file, keys, plan);
    MapsTileTheImage(plan.flashMap);
    FirstRegionIsImage(m.s.flash, plan);
    FlashReportsImage(ec, ReflashRun(ec, m, args, file, keys).1, plan.image, plan.flashMap.regions[0].End());
  }

  /** On every EC: a run that succeeded and could rely on what it read has left exactly the
      expected flash. */
  lemma SuccessIsExpected(ec: Ec, m: Machine, args: seq<string>, file: ImageFile, keys: nat -> bool, plan: Plan)
    requires Startable(m, file) && Cleared(ec, m, args, file, keys, plan)
    requires var (status, m') := ReflashRun(ec, m, args, file, keys); status == Success && Reliable(ec, m, m', plan)
    ensures |plan.image| == IMAGE_SIZE && Ordered(plan.flashMap.regions, |plan.image|) && Listed(plan.flashMap)
    ensures ReflashRun(ec, m, args, file, keys).1.s.flash
         == Expected(m.s.flash, plan.image, plan.flashMap.regions, plan.mask)
  {
    hide ReflashRun;
    hide UnlockedRun;
    hide Cleared;
    hide Checked;
    hide Reportable;
    hide FileReadable;
    hide Untouched;
    hide HoldsFrom;
    hide TrueReads;
    hide NoFalseReads;
    hide PlanFresh;
    hide AllLawful;
    hide Expected;
    ClearedRuns(ec, m, args, file, keys, plan);
    var m1 := Checked(ec, m, args, file, keys);
    var m' := UnlockedRun(ec, m1, plan).1;
    TrueReadsLater(m, m1, m');
    UnlockedSafety(ec, m1, plan, true);
    FinishedIsExpected(m'.s.flash, m.s.flash, plan.image, plan.flashMap.regions, plan.mask);
  }

  lemma FirstRegionIsImage(start: seq<byte>, plan: Plan)
    requires Ordered(plan.flashMap.regions, |plan.image|) && |plan.image| <= |start|
    requires BitSet(plan.mask, 0) && |plan.flashMap.regions| > 0 && plan.flashMap.regions[0].base == 0
    ensures var end := plan.flashMap.regions[0].End();
            Expected(start, plan.image, plan.flashMap.regions, plan.mask)[..end] == plan.image[..end]
  {
    var end := plan.flashMap.regions[0].End();
    var flash := Expected(start, plan.image, plan.flashMap.regions, plan.mask);
    forall j | 0 <= j < end
      ensures flash[j] == plan.image[j]
    {
      assert InRegion(plan.flashMap.regions[0], j);
      assert Covered(plan.flashMap.regions, plan.mask, 0, j);
    }
  }
}
