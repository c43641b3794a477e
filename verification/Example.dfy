/** Images for every board the command knows: the conditions of the results about whole runs can
    be met, and the runs on which a guarantee fails occur on every board. */
module Example {
  import opened Wrappers
  import opened Bytes
  import opened Fmap
  import opened EcDevice
  import opened Flash
  import opened Regions
  import opened Reflash
  import opened PhaseFacts
  import opened Freshness
  import opened StaleImages
  import opened CommandFacts
  import opened EndToEnd
  import opened Limits
  import opened Witnesses
  import opened Boards

  const HEADER_AND_AREA := 98

  /** '_' or '-' */
  type Mark = d: byte | d == 0x5F || d == 0x2D witness 0x5F

  /** `n` bytes with a flash map of one area, RO_FRID, behind which the version string is. */
  function OneArea(id: seq<byte>, d: Mark, n: nat): (s: seq<byte>)
    requires Id(id) && n >= 256
    ensures |s| == n
    ensures forall k :: 0 <= k < |id| ==> s[HEADER_AND_AREA + k] == id[k]
    ensures s[HEADER_AND_AREA + |id|] == d
    ensures forall k :: HEADER_AND_AREA + |id| < k < n ==> s[k] == 0
  {
    SIGNATURE + Zeros(46) + [1, 0] + [98, 0, 0, 0] + Zeros(4) + RO_FRID + Zeros(27)
    + id + [d] + Zeros(n - HEADER_AND_AREA - |id| - 1)
  }

  lemma OneAreaFields(id: seq<byte>, d: Mark, n: nat)
    requires Id(id) && n >= 256
    ensures var s := OneArea(id, d, n);
            && GetImageFlashMap(s) == Some(0)
            && AreaCount(s, 0) == 1
            && AreaOffset(s, AreaAt(0, 0)) == HEADER_AND_AREA
            && s[64..96] == RO_FRID + Zeros(25)
  {
    var s := OneArea(id, d, n);
    assert s[0..8] == SIGNATURE;
    assert s[54] == 1 && s[55] == 0;
    assert s[56] == 98 && s[57] == s[58] == s[59] == 0;
    assert s[64..96] == RO_FRID + Zeros(25);
  }

  lemma PrefixOfOneArea(id: seq<byte>, d: Mark, n: nat, end: nat)
    requires Id(id) && 256 <= end <= n
    ensures OneArea(id, d, n)[..end] == OneArea(id, d, end)
  {
  }

  /** A name padded with NULs. */
  lemma {:induction false} PaddedName(a: seq<byte>, k: nat)
    requires 0 !in a && k > 0
    ensures CString(a + Zeros(k), |a| + k) == a
  {
    if a == [] {
      assert a + Zeros(k) == Zeros(k) && Zeros(k)[0] == 0;
    } else {
      assert (a + Zeros(k))[1..] == a[1..] + Zeros(k);
      PaddedName(a[1..], k);
    }
  }

  lemma NamesAsStrings()
    ensures CString(RO_FRID + Zeros(25), NAMELEN) == CString(RO_FRID, NAMELEN) == RO_FRID
    ensures CString(RW_FWID, NAMELEN) == RW_FWID && RO_FRID != RW_FWID
  {
    PaddedName(RO_FRID, 25);
    CStringWhole(RO_FRID);
    CStringTakes(RO_FRID, NAMELEN);
    CStringWhole(RW_FWID);
    CStringTakes(RW_FWID, NAMELEN);
    hide CString;
    assert RO_FRID[1] != RW_FWID[1];
  }

  lemma OneAreaNames(id: seq<byte>, d: Mark, n: nat)
    requires Id(id) && n >= 256
    ensures var s := OneArea(id, d, n);
            AreaNamed(s, AreaAt(0, 0), RO_FRID) && !AreaNamed(s, AreaAt(0, 0), RW_FWID)
  {
    hide OneArea;
    hide CString;
    OneAreaFields(id, d, n);
    NamesAsStrings();
    var s, at := OneArea(id, d, n), AreaAt(0, 0) + AREA_NAME_AT;
    assert at == 64 && at + NAMELEN == 96;
    assert s[at..at + NAMELEN] == RO_FRID + Zeros(25);
  }

  /** Scanning for the delimiter ends behind the ID. */
  lemma {:induction false} IdEnds(s: seq<byte>, at: nat, id: seq<byte>, k: nat)
    requires Id(id) && k <= |id| && at + |id| < |s| && s[at..at + |id|] == id && Delimiter(s[at + |id|])
    ensures IdReadable(s, at, k) && IdLength(s, at, k) == |id|
    decreases |id| - k
  {
    if k < |id| {
      assert s[at + k] == id[k];
      IdEnds(s, at, id, k + 1);
    }
  }

  lemma OneAreaFound(id: seq<byte>, d: Mark, n: nat)
    requires Id(id) && n >= 256
    ensures var s := OneArea(id, d, n);
            && Searchable(s, 0, RO_FRID, 0) && Searchable(s, 0, RW_FWID, 0)
            && AreaFrom(s, 0, RO_FRID, 0) == Some(AreaAt(0, 0)) && AreaFrom(s, 0, RW_FWID, 0) == None
  {
    OneAreaFields(id, d, n);
    OneAreaNames(id, d, n);
    hide OneArea;
    hide AreaNamed;
  }

  lemma IdInOneArea(id: seq<byte>, d: Mark, n: nat)
    requires Id(id) && n >= 256
    ensures var s, at := OneArea(id, d, n), HEADER_AND_AREA;
            IdReadable(s, at, 0) && IdLength(s, at, 0) == |id| && s[at..at + |id|] == id
  {
    hide OneArea;
    assert OneArea(id, d, n)[HEADER_AND_AREA..HEADER_AND_AREA + |id|] == id;
    IdEnds(OneArea(id, d, n), HEADER_AND_AREA, id, 0);
  }

  /** The image carries its board ID. */
  lemma OneAreaBoard(id: seq<byte>, d: Mark, n: nat)
    requires Id(id) && n >= 256
    ensures ImageReadable(OneArea(id, d, n)) && ImageBoard(OneArea(id, d, n)) == Some(id)
  {
    OneAreaFields(id, d, n);
    OneAreaFound(id, d, n);
    IdInOneArea(id, d, n);
    hide OneArea;
    hide Searchable;
    hide AreaFrom;
    hide AreaOffset;
    hide IdReadable;
    hide IdLength;
    hide GetImageFlashMap;
  }

  /** It describes itself in its first `end` bytes, for any `end` from 256 up. */
  lemma OneAreaDescribes(id: seq<byte>, d: Mark, n: nat, end: nat)
    requires Id(id) && 256 <= end <= n
    ensures SelfDescribing(OneArea(id, d, n), end) && RwVersionWithin(OneArea(id, d, n), end, n)
  {
    PrefixOfOneArea(id, d, n, end);
    OneAreaFields(id, d, end);
    OneAreaFound(id, d, end);
    hide OneArea;
    hide Searchable;
    hide AreaFrom;
    hide AreaOffset;
    hide GetImageFlashMap;
  }

  // ---------------------------------------------------------------- plans

  function Image(id: seq<byte>, d: Mark): (s: seq<byte>)
    requires Id(id)
    ensures |s| == IMAGE_SIZE
  {
    OneArea(id, d, IMAGE_SIZE)
  }

  function PlanFor(id: seq<byte>, d: Mark, args: seq<string>): Plan
    requires Id(id)
  {
    var flashMap := FindMapFrom(id, 0).GetOr(UNKNOWN_MAP);
    Plan(flashMap, FlashMask(flashMap.regions, Parse(args)), Image(id, d), Parse(args).force)
  }

  /** The running board passes the gate for an image with this ID. */
  predicate Matches(ec: Ec, m: Machine, id: seq<byte>)
    requires Reportable(m.s.flash) && |m.s.ro| == |m.s.rw| == VERSION_LENGTH
  {
    VersionReplySize(ec, m);
    SameBoard(CurrentBoard(SendGetVersion(ec, m).0), id)
  }

  /** Every state and EC, command line and board ID get a plan: unforced on a matching and ready
      board with a known map, forced once without being ready, forced twice in any case. */
  lemma PlanExists(ec: Ec, m: Machine, id: seq<byte>, d: Mark, args: seq<string>)
    requires Id(id) && Startable(m, Readable(Image(id, d))) && !ec.faults(|m.log|).Rogue?
    requires var o := Parse(args);
             && o.filename.Some?
             && (o.force == 0 ==> ReadyAt(ec, m.memoryReads))
             && (o.force < 2 ==> Matches(ec, m, id) && FindMapFrom(id, 0).Some?)
    ensures Passes(ec, m, args, Readable(Image(id, d)), PlanFor(id, d, args))
    ensures FirstRegionDescribes(PlanFor(id, d, args), |m.s.flash|)
  {
    OneAreaBoard(id, d, IMAGE_SIZE);
    VersionReplySize(ec, m);
    hide OneArea;
    hide ImageReadable;
    hide ImageBoard;
    hide FlashMask;
    hide FindMapFrom;
    hide Reportable;
    hide Parse;
    hide SameBoard;
    hide CurrentBoard;
    hide ReadyAt;
    hide FirstRegionDescribes;
    FoundIsListed(id, 0);
    ExampleDescribes(id, d, args, |m.s.flash|);
  }

  lemma ExampleDescribes(id: seq<byte>, d: Mark, args: seq<string>, size: nat)
    requires Id(id) && Listed(PlanFor(id, d, args).flashMap) && size >= IMAGE_SIZE
    ensures FirstRegionDescribes(PlanFor(id, d, args), size)
  {
    hide SelfDescribing;
    hide RwVersionWithin;
    hide OneArea;
    hide FindMapFrom;
    hide FlashMask;
    var plan := PlanFor(id, d, args);
    FirstRegionEnd(plan.flashMap);
    var end := plan.flashMap.regions[0].End();
    OneAreaDescribes(id, d, IMAGE_SIZE, end);
    RwWithinMore(plan.image, end, size);
  }

  lemma FirstRegionEnd(flashMap: FlashMap)
    requires Listed(flashMap)
    ensures 0 < |flashMap.regions| <= 16 && 256 <= flashMap.regions[0].End() <= IMAGE_SIZE
  {
  }

  lemma RwWithinMore(image: seq<byte>, end: nat, size: nat)
    requires end <= |image| <= size && SelfDescribing(image, end) && RwVersionWithin(image, end, |image|)
    ensures RwVersionWithin(image, end, size)
  {
    hide SelfDescribing;
    hide AreaFrom;
  }

  // ---------------------------------------------------------------- a board that is ready

  /** An EC with mains power and no battery. */
  function ReadyMemory(): MappedMemory {
    Zeros(0x20) + [0x45, 0x43] + Zeros(0x2a) + [0x01] + Zeros(0xb3)
  }

  function Ready(): nat -> MappedMemory {
    (n: nat) => ReadyMemory()
  }

  lemma AlwaysReady(ec: Ec, n: nat)
    requires ec.memmap == Ready()
    ensures ReadyAt(ec, n)
  {
    var s := ReadyMemory();
    assert s[MEMMAP_ID..MEMMAP_ID + 2] == [0x45, 0x43] && s[MEMMAP_BATT_FLAG] == 0x01;
  }

  /** A version string that starts with the ID. */
  function Version(id: seq<byte>, e: Mark): (s: seq<byte>)
    requires Id(id)
    ensures |s| == VERSION_LENGTH
  {
    id + [e] + Zeros(VERSION_LENGTH - 1 - |id|)
  }

  /** A board with erased flash that runs the version. */
  function Start(id: seq<byte>, e: Mark): Machine
    requires Id(id)
  {
    Machine(Snapshot(Ones(IMAGE_SIZE), 0, 0, Version(id, e), Zeros(VERSION_LENGTH)), [], 0, 0)
  }

  lemma {:induction false} NoMapInOnes(n: nat, at: nat)
    ensures ScanFrom(Ones(n), at) == None
    decreases n - at
  {
    if at + 8 <= n {
      assert Ones(n)[at..at + 8][0] == 0xFF && SIGNATURE[0] != 0xFF;
      NoMapInOnes(n, at + 8);
    }
  }

  lemma StartMatches(ec: Ec, id: seq<byte>, d: Mark, e: Mark)
    requires Id(id) && id != [] && !ec.faults(0).Rogue?
    ensures Startable(Start(id, e), Readable(Image(id, d))) && Matches(ec, Start(id, e), id)
  {
    NoMapInOnes(IMAGE_SIZE, 0);
    OneAreaBoard(id, d, IMAGE_SIZE);
    hide OneArea;
    hide ImageReadable;
    var m := Start(id, e);
    VersionReplySize(ec, m);
    assert SendGetVersion(ec, m).0 == Reply(100, Version(id, e) + Zeros(VERSION_LENGTH), 0);
    CurrentBoardMeans(Version(id, e), Zeros(VERSION_LENGTH), 100);
    var current := CurrentBoard(SendGetVersion(ec, m).0);
    hide CurrentBoard;
    assert |current| == VERSION_LENGTH;
    GateIsPrefix(current, id);
    BoardIsId(CString(current, VERSION_LENGTH), id, e);
  }

  lemma BoardIsId(board: seq<byte>, id: seq<byte>, e: Mark)
    requires Id(id) && board <= Version(id, e) && (forall c :: c in board ==> !Ends(c))
    requires |board| == VERSION_LENGTH || Ends(Version(id, e)[|board|])
    ensures board == id
  {
    assert Version(id, e)[|id|] == e;
    assert forall k :: 0 <= k < |id| ==> Version(id, e)[k] == id[k];
    assert forall k :: 0 <= k < |board| ==> board[k] == Version(id, e)[k] && board[k] in board;
  }

  function NoKeys(): nat -> bool {
    (i: nat) => false
  }

  /** On every board in the list, a run with an image for it, forced or not, has every clearance. */
  lemma BoardIsCleared(ec: Ec, k: nat, d: Mark, e: Mark, args: seq<string>)
    requires k < |FLASH_MAPS| && ec.memmap == Ready() && !ec.faults(0).Rogue? && Parse(args).filename.Some?
    ensures Id(BoardId(k)) && BoardId(k) != [] && Startable(Start(BoardId(k), e), Readable(Image(BoardId(k), d)))
    ensures var id := BoardId(k);
            && Cleared(ec, Start(id, e), args, Readable(Image(id, d)), NoKeys(), PlanFor(id, d, args))
            && PlanFor(id, d, args).flashMap == FLASH_MAPS[k]
            && FirstRegionDescribes(PlanFor(id, d, args), IMAGE_SIZE)
  {
    BoardIds(k);
    MapOfBoard(k);
    var id := BoardId(k);
    StartMatches(ec, id, d, e);
    AlwaysReady(ec, 0);
    AlwaysReady(ec, 4);
    hide OneArea;
    hide BoardId;
    hide Matches;
    hide Startable;
    hide FindMapFrom;
    hide FlashMask;
    hide Parse;
    hide ReadyAt;
    PlanExists(ec, Start(id, e), id, d, args);
    hide Passes;
    hide FirstRegionDescribes;
    assert |Start(id, e).s.flash| == IMAGE_SIZE;
  }

  lemma ObeyedNext(ec: Ec, m: Machine)
    requires Obedient(ec)
    ensures !ec.faults(|m.log|).Rogue?
  {
    assert ec.faults(|m.log|).Obey?;
  }

  /** The EC reports the version in the first region of the plan's image. */
  predicate Reports(ec: Ec, m: Machine, plan: Plan) {
    && Reportable(m.s.flash)
    && FirstRegionDescribes(plan, |m.s.flash|)
    && var reply := SendGetVersion(ec, m).0;
       && |reply.data| >= VERSION_LENGTH
       && reply.data[..VERSION_LENGTH] == ImageVersion(plan.image, plan.flashMap.regions[0].End())
  }

  /** On every board in the list, a run that does not ask for RW alone, forced or not, updates an EC that
      obeys, which then reports the image's version. */
  lemma EveryBoardUpdates(ec: Ec, k: nat, d: Mark, e: Mark, args: seq<string>)
    requires k < |FLASH_MAPS| && ec.memmap == Ready() && Obedient(ec) && Parse(args).filename.Some?
    requires var part := OptionPart(args, 1); "--rw" in part ==> "--ro" in part || "--all" in part
    ensures Id(BoardId(k)) && Startable(Start(BoardId(k), e), Readable(Image(BoardId(k), d)))
    ensures var id := BoardId(k);
            var (status, m') := ReflashRun(ec, Start(id, e), args, Readable(Image(id, d)), NoKeys());
            status == Success && Reports(ec, m', PlanFor(id, d, args))
  {
    assert ec.faults(0).Obey?;
    BoardIsCleared(ec, k, d, e, args);
    OnlyRw(k);
    SelectionClosedForm(args, FLASH_MAPS[k].regions, 0);
    var id := BoardId(k);
    assert |Start(id, e).s.flash| == IMAGE_SIZE;
    hide Cleared;
    hide Startable;
    hide OneArea;
    hide FlashMask;
    hide Parse;
    hide FindMapFrom;
    hide BoardId;
    hide ReflashRun;
    hide SelfDescribing;
    hide RwVersionWithin;
    hide Obedient;
    hide Reportable;
    hide SendGetVersion;
    ReflashSucceeds(ec, Start(id, e), args, Readable(Image(id, d)), NoKeys(), PlanFor(id, d, args));
    CommandReads(ec, Start(id, e), args, Readable(Image(id, d)), NoKeys());
    ObedientReadsAreTrue(ec);
    ObeyedNext(ec, ReflashRun(ec, Start(id, e), args, Readable(Image(id, d)), NoKeys()).1);
    VersionAfterReflash(ec, Start(id, e), args, Readable(Image(id, d)), NoKeys(), PlanFor(id, d, args));
  }

  // ---------------------------------------------------------------- what fails on every board

  /** The index of RW. */
  function RwIndex(k: nat): (c: nat)
    requires k < |FLASH_MAPS|
  {
    if FLASH_MAPS[k].requiresUnlock then 2 else 1
  }

  lemma OnlyRw(k: nat)
    requires k < |FLASH_MAPS|
    ensures var regions, c := FLASH_MAPS[k].regions, RwIndex(k);
            && c < |regions| <= 16
            && regions[0].name == "RO" && !regions[0].skip
            && forall i :: 0 <= i < |regions| ==> (regions[i].name == "RW" <==> i == c)
  {
  }

  /** Every command line selects something. */
  lemma SomethingSelected(k: nat, args: seq<string>)
    requires k < |FLASH_MAPS|
    ensures FlashMask(FLASH_MAPS[k].regions, Parse(args)) > 0
  {
    hide FlashMask;
    hide Parse;
    hide OptionPart;
    OnlyRw(k);
    SelectionClosedForm(args, FLASH_MAPS[k].regions, 0);
    SelectionClosedForm(args, FLASH_MAPS[k].regions, RwIndex(k));
    ZeroHasNoBits(0);
    ZeroHasNoBits(RwIndex(k));
  }

  /** The rest of the image is padding, which is stale in every region of two packets. */
  lemma ImageIsStale(id: seq<byte>, d: Mark, r: Region)
    requires Id(id) && r.End() <= IMAGE_SIZE && r.size >= 2 * MAX_RESPONSE
    ensures !FreshIn(r, Image(id, d))
  {
    hide OneArea;
    hide Fresh;
    var data, e := Image(id, d)[r.base..r.End()], 2 * MAX_RESPONSE - 1;
    assert data[e] == Image(id, d)[r.base + e] && data[e - MAX_RESPONSE] == Image(id, d)[r.base + e - MAX_RESPONSE];
    RepetitionIsStale(data, Zeros(MAX_RESPONSE), e);
  }

  lemma RegionsAreLarge(k: nat)
    requires k < |FLASH_MAPS|
    ensures forall c :: 0 <= c < |FLASH_MAPS[k].regions| ==>
              FLASH_MAPS[k].regions[c].size >= 2 * MAX_RESPONSE && FLASH_MAPS[k].regions[c].End() <= IMAGE_SIZE
  {
  }

  /** The run reports success, without a false byte, over a flash that is not as expected. */
  ghost predicate SucceedsWrongly(ec: Ec, m: Machine, args: seq<string>, file: ImageFile, keys: nat -> bool, plan: Plan)
    requires Startable(m, file)
  {
    var (status, m') := ReflashRun(ec, m, args, file, keys);
    && NoFalseReads(ec) && Cleared(ec, m, args, file, keys, plan) && status == Success
    && Ordered(plan.flashMap.regions, |plan.image|)
    && m'.s.flash != Expected(m.s.flash, plan.image, plan.flashMap.regions, plan.mask)
  }

  lemma SelectionIsStale(k: nat, id: seq<byte>, d: Mark, args: seq<string>)
    requires k < |FLASH_MAPS| && Id(id)
    ensures FlashMask(FLASH_MAPS[k].regions, Parse(args)) > 0
    ensures var regions := FLASH_MAPS[k].regions;
            var c := LeadingBit(FlashMask(regions, Parse(args)));
            && c < |regions| && BitSet(FlashMask(regions, Parse(args)), c)
            && regions[c].End() <= IMAGE_SIZE && !FreshIn(regions[c], Image(id, d))
  {
    hide FlashMask;
    hide Parse;
    hide OptionPart;
    hide Image;
    hide FreshIn;
    var regions := FLASH_MAPS[k].regions;
    SomethingSelected(k, args);
    RegionsAreLarge(k);
    OnlyRw(k);
    var c := LeadingBit(FlashMask(regions, Parse(args)));
    LeadingBitSet(FlashMask(regions, Parse(args)));
    SelectionClosedForm(args, regions, c);
    ImageIsStale(id, d, regions[c]);
  }

  /** On every board in the list, every command line with a file can report success over a wrong
      flash. */
  lemma WrongFlashOnEveryBoard(k: nat, d: Mark, e: Mark, args: seq<string>)
    requires k < |FLASH_MAPS| && Parse(args).filename.Some?
    ensures Id(BoardId(k))
    ensures var id := BoardId(k);
            && Startable(Start(id, e), Readable(Image(id, d)))
            && var file, plan := Readable(Image(id, d)), PlanFor(id, d, args);
               exists ec :: SucceedsWrongly(ec, Start(id, e), args, file, NoKeys(), plan)
  {
    hide Cleared;
    hide Startable;
    hide OneArea;
    hide FlashMask;
    hide Parse;
    hide FindMapFrom;
    hide BoardId;
    hide ReflashRun;
    hide FreshIn;
    hide Fresh;
    hide Expected;
    hide RunDeceiver;
    hide Image;
    var ec := OBEYING.(memmap := Ready());
    BoardIsCleared(ec, k, d, e, args);
    var id := BoardId(k);
    var plan := PlanFor(id, d, args);
    SelectionIsStale(k, id, d, args);
    assert plan.image == Image(id, d) && |plan.image| == IMAGE_SIZE;
    var c := LeadingBit(plan.mask);
    WrongFlashSucceeds(ec, Start(id, e), args, Readable(Image(id, d)), NoKeys(), plan, c);
    var wrong := RunDeceiver(ec, Start(id, e), plan, c);
    assert SucceedsWrongly(wrong, Start(id, e), args, Readable(Image(id, d)), NoKeys(), plan);
  }

  /** On every board in the list that needs unlocking, every command line with a file can end with
      the flash left open. */
  lemma LeftOpenOnEveryBoard(k: nat, d: Mark, e: Mark, args: seq<string>)
    requires k < |FLASH_MAPS| && FLASH_MAPS[k].requiresUnlock && Parse(args).filename.Some?
    ensures Id(BoardId(k))
    ensures var id := BoardId(k);
            && Startable(Start(id, e), Readable(Image(id, d)))
            && var file := Readable(Image(id, d));
               var (status, m') := ReflashRun(StopsAnswering(3, Ready()), Start(id, e), args, file, NoKeys());
               status == DeviceError && Opened(m'.log, 1) && !LockAttempted(Start(id, e), m')
  {
    BoardIds(k);
    var id := BoardId(k);
    BoardIsCleared(StopsAnswering(3, Ready()), k, d, e, args);
    SomethingSelected(k, args);
    hide Cleared;
    hide Startable;
    hide OneArea;
    hide FlashMask;
    hide Parse;
    hide FindMapFrom;
    hide BoardId;
    hide ReflashRun;
    LeftOpen(Ready(), Start(id, e), args, Readable(Image(id, d)), NoKeys(), PlanFor(id, d, args));
  }
}
