/** Flash regions, the boards' flash maps, and which regions a command line selects. */
module Regions {
  import opened Wrappers
  import opened Bytes

  datatype Region = Region(name: string, base: nat, size: nat, skip: bool) {
    function End(): nat {
      base + size
    }
  }

  datatype FlashMap = FlashMap(board: string, regions: seq<Region>, requiresUnlock: bool)

  const IMAGE_SIZE := 512 * 1024
  const ALL_REGIONS := 0xFFFF

  const HX_REGIONS: seq<Region> := [
    Region("RO", 0x00000, 0x3C000, false),
    Region("RO_VPD", 0x3C000, 0x04000, true),
    Region("RW", 0x40000, 0x39000, false),
    Region("RW_VPD", 0x79000, 0x07000, true)]

  const NPCX_REGIONS: seq<Region> := [
    Region("RO", 0x00000, 0x40000, false),
    Region("RW", 0x40000, 0x3F000, false),
    Region("SPI_FLAGS", 0x7F000, 0x01000, true)]

  const UNKNOWN_REGIONS: seq<Region> := [
    Region("RO", 0x00000, 0x40000, false),
    Region("RW", 0x40000, 0x40000, false)]

  const UNKNOWN_MAP := FlashMap("unknown", UNKNOWN_REGIONS, true)

  const FLASH_MAPS: seq<FlashMap> := [
    FlashMap("hx20", HX_REGIONS, true),
    FlashMap("hx30", HX_REGIONS, true),
    FlashMap("azalea", NPCX_REGIONS, false),
    FlashMap("lotus", NPCX_REGIONS, false),
    FlashMap("marigold", NPCX_REGIONS, false),
    FlashMap("sunflower", NPCX_REGIONS, false),
    FlashMap("lilac", NPCX_REGIONS, false),
    FlashMap("tulip", NPCX_REGIONS, false)]

  /** Regions in ascending order, one after the other, inside the first `size` bytes. */
  ghost predicate Ordered(regions: seq<Region>, size: nat) {
    && |regions| <= 16
    && (forall i :: 0 <= i < |regions| ==> regions[i].End() <= size)
    && (forall i, j :: 0 <= i < j < |regions| ==> regions[i].End() <= regions[j].base)
  }

  /** The regions follow each other from `from` to `size` without a gap. */
  predicate Tiles(regions: seq<Region>, from: nat, size: nat) {
    if regions == [] then from == size
    else regions[0].base == from && Tiles(regions[1..], regions[0].End(), size)
  }

  lemma {:induction false} TilesAreOrdered(regions: seq<Region>, from: nat, size: nat)
    requires Tiles(regions, from, size)
    ensures from <= size
    ensures forall i :: 0 <= i < |regions| ==> from <= regions[i].base && regions[i].End() <= size
    ensures forall i, j :: 0 <= i < j < |regions| ==> regions[i].End() <= regions[j].base
  {
    if regions != [] {
      TilesAreOrdered(regions[1..], regions[0].End(), size);
      forall i, j | 0 <= i < j < |regions|
        ensures regions[i].End() <= regions[j].base
      {
        assert regions[j] == regions[1..][j - 1];
        if i > 0 {
          assert regions[i] == regions[1..][i - 1];
        }
      }
      forall i | 0 <= i < |regions|
        ensures from <= regions[i].base && regions[i].End() <= size
      {
        if i > 0 {
          assert regions[i] == regions[1..][i - 1];
        }
      }
    }
  }

  /** The maps the command can choose. */
  predicate Listed(flashMap: FlashMap) {
    flashMap in FLASH_MAPS || flashMap == UNKNOWN_MAP
  }

  /** Every flash map in use tiles the whole image. */
  lemma MapsTileTheImage(flashMap: FlashMap)
    requires Listed(flashMap)
    ensures Tiles(flashMap.regions, 0, IMAGE_SIZE) && Ordered(flashMap.regions, IMAGE_SIZE)
    ensures |flashMap.regions| > 0 && flashMap.regions[0].name == "RO" && flashMap.regions[0].base == 0
  {
    assert flashMap.regions in {HX_REGIONS, NPCX_REGIONS, UNKNOWN_REGIONS};
    assert Tiles(HX_REGIONS[3..], 0x79000, IMAGE_SIZE);
    assert Tiles(HX_REGIONS[2..], 0x40000, IMAGE_SIZE) by { assert HX_REGIONS[2..][1..] == HX_REGIONS[3..]; }
    assert Tiles(HX_REGIONS[1..], 0x3C000, IMAGE_SIZE) by { assert HX_REGIONS[1..][1..] == HX_REGIONS[2..]; }
    assert Tiles(HX_REGIONS, 0, IMAGE_SIZE);
    assert Tiles(NPCX_REGIONS[2..], 0x7F000, IMAGE_SIZE);
    assert Tiles(NPCX_REGIONS[1..], 0x40000, IMAGE_SIZE) by { assert NPCX_REGIONS[1..][1..] == NPCX_REGIONS[2..]; }
    assert Tiles(NPCX_REGIONS, 0, IMAGE_SIZE);
    assert Tiles(UNKNOWN_REGIONS[1..], 0x40000, IMAGE_SIZE);
    assert Tiles(UNKNOWN_REGIONS, 0, IMAGE_SIZE);
    TilesAreOrdered(flashMap.regions, 0, IMAGE_SIZE);
  }

  // ---------------------------------------------------------------- options

  datatype Options = Options(force: nat, ro: bool, rw: bool, all: bool, desired: nat, filename: Option<string>)

  const NO_OPTIONS := Options(0, false, false, false, ALL_REGIONS, None)

  predicate IsOption(a: string) {
    a == "-f" || a == "--ro" || a == "--rw" || a == "--all"
  }

  function Apply(o: Options, a: string): Options {
    if a == "-f" then o.(force := o.force + 1)
    else if a == "--ro" then o.(desired := 0, ro := true)
    else if a == "--rw" then o.(desired := 0, rw := true)
    else if a == "--all" then o.(all := true)
    else o.(filename := Some(a))
  }

  /** The arguments from `i` on; the first that is no option is the file, and the last looked at. */
  function ParseFrom(args: seq<string>, i: nat, o: Options): Options
    decreases |args| - i
  {
    if i >= |args| then o
    else if !IsOption(args[i]) then Apply(o, args[i])
    else ParseFrom(args, i + 1, Apply(o, args[i]))
  }

  /** Argument 0 is the name of the command. */
  function Parse(args: seq<string>): Options {
    ParseFrom(args, 1, NO_OPTIONS)
  }

  method ParseArguments(args: seq<string>) returns (o: Options)
    ensures o == Parse(args)
  {
    o := NO_OPTIONS;
    var i := 1;
    while i < |args|
      invariant 1 <= i
      invariant ParseFrom(args, i, o) == Parse(args)
    {
      if args[i] == "-f" {
        o := o.(force := o.force + 1);
      } else if args[i] == "--ro" {
        o := o.(desired := 0, ro := true);
      } else if args[i] == "--rw" {
        o := o.(desired := 0, rw := true);
      } else if args[i] == "--all" {
        o := o.(all := true);
      } else {
        o := o.(filename := Some(args[i]));
        return;
      }
      i := i + 1;
    }
  }

  /** The options before the file. */
  function OptionPart(args: seq<string>, i: nat): seq<string>
    decreases |args| - i
  {
    if i >= |args| || !IsOption(args[i]) then [] else [args[i]] + OptionPart(args, i + 1)
  }

  predicate Coherent(o: Options) {
    o.desired == if o.ro || o.rw then 0 else ALL_REGIONS
  }

  lemma {:induction false} ParseMeans(args: seq<string>, i: nat, o: Options)
    requires Coherent(o) && o.filename == None
    ensures var part := OptionPart(args, i);
            var r := ParseFrom(args, i, o);
            && Coherent(r)
            && (r.ro <==> o.ro || "--ro" in part)
            && (r.rw <==> o.rw || "--rw" in part)
            && (r.all <==> o.all || "--all" in part)
            && r.filename == if i + |part| < |args| then Some(args[i + |part|]) else None
    decreases |args| - i
  {
    if i < |args| && IsOption(args[i]) {
      ParseMeans(args, i + 1, Apply(o, args[i]));
      assert OptionPart(args, i) == [args[i]] + OptionPart(args, i + 1);
    }
  }

  /** The force level is the number of -f options. */
  lemma {:induction false} ForceCounts(args: seq<string>, i: nat, o: Options)
    ensures ParseFrom(args, i, o).force == o.force + multiset(OptionPart(args, i))["-f"]
    decreases |args| - i
  {
    if i < |args| && IsOption(args[i]) {
      ForceCounts(args, i + 1, Apply(o, args[i]));
      assert OptionPart(args, i) == [args[i]] + OptionPart(args, i + 1);
      assert multiset(OptionPart(args, i)) == multiset{args[i]} + multiset(OptionPart(args, i + 1));
    }
  }

  /** Only the multiset of options before the file matters, not their order; and for everything
      but the force level only which of them occur. */
  lemma OptionOrderIrrelevant(args1: seq<string>, args2: seq<string>)
    ensures var o1, o2 := Parse(args1), Parse(args2);
            var p1, p2 := OptionPart(args1, 1), OptionPart(args2, 1);
            && ((forall a :: a in p1 <==> a in p2) ==>
                  o1.ro == o2.ro && o1.rw == o2.rw && o1.all == o2.all && o1.desired == o2.desired)
            && (multiset(p1) == multiset(p2) ==> o1.(filename := None) == o2.(filename := None))
  {
    hide ParseFrom;
    hide OptionPart;
    ParseMeans(args1, 1, NO_OPTIONS);
    ParseMeans(args2, 1, NO_OPTIONS);
    ForceCounts(args1, 1, NO_OPTIONS);
    ForceCounts(args2, 1, NO_OPTIONS);
    var p1, p2 := OptionPart(args1, 1), OptionPart(args2, 1);
    if multiset(p1) == multiset(p2) {
      SameElements(p1, p2);
    }
  }

  lemma SameElements(p1: seq<string>, p2: seq<string>)
    requires multiset(p1) == multiset(p2)
    ensures forall a :: a in p1 <==> a in p2
  {
    forall a
      ensures a in p1 <==> a in p2
    {
      assert a in p1 <==> a in multiset(p1);
      assert a in p2 <==> a in multiset(p2);
    }
  }

  // ---------------------------------------------------------------- the region mask

  /** The masks of existing and of desired regions after looking at the regions before `k`. */
  function Masks(regions: seq<Region>, o: Options, k: nat): (nat, nat)
    requires k <= |regions|
  {
    if k == 0 then (0, o.desired)
    else
      var (present, desired) := Masks(regions, o, k - 1);
      var region := regions[k - 1];
      var desired1 := if region.skip then WithoutBit(desired, k - 1) else desired;
      (WithBit(present, k - 1),
       if o.ro && region.name == "RO" then WithBit(desired1, k - 1)
       else if o.rw && region.name == "RW" then WithBit(desired1, k - 1)
       else desired1)
  }

  function FlashMask(regions: seq<Region>, o: Options): nat {
    var (present, desired) := Masks(regions, o, |regions|);
    And(present, if o.all then ALL_REGIONS else desired)
  }

  method ComputeMask(regions: seq<Region>, o: Options) returns (mask: nat)
    ensures mask == FlashMask(regions, o)
  {
    var desired := o.desired;
    mask := 0;
    for k := 0 to |regions|
      invariant (mask, desired) == Masks(regions, o, k)
    {
      mask := WithBit(mask, k);
      if regions[k].skip {
        desired := WithoutBit(desired, k);
      }
      if o.ro && regions[k].name == "RO" {
        desired := WithBit(desired, k);
      } else if o.rw && regions[k].name == "RW" {
        desired := WithBit(desired, k);
      }
    }
    if o.all {
      desired := ALL_REGIONS;
    }
    mask := And(mask, desired);
  }

  /** Which regions the options ask for. */
  predicate Selected(o: Options, r: Region) {
    || o.all
    || (o.ro && r.name == "RO")
    || (o.rw && r.name == "RW")
    || (!o.ro && !o.rw && !r.skip)
  }

  lemma {:induction false} MasksBits(regions: seq<Region>, o: Options, k: nat, j: nat)
    requires k <= |regions| <= 16 && Coherent(o)
    ensures var (present, desired) := Masks(regions, o, k);
            && (BitSet(present, j) <==> j < k)
            && (j < k ==> (BitSet(desired, j) <==> Selected(o.(all := false), regions[j])))
            && (k <= j ==> (BitSet(desired, j) <==> BitSet(o.desired, j)))
    decreases k
  {
    if k == 0 {
      ZeroHasNoBits(j);
    } else {
      MasksBits(regions, o, k - 1, j);
      var (present, desired) := Masks(regions, o, k - 1);
      WithBitBits(present, k - 1, j);
      WithoutBitBits(desired, k - 1, j);
      WithBitBits(desired, k - 1, j);
      WithBitBits(WithoutBit(desired, k - 1), k - 1, j);
      if j == k - 1 {
        DesiredBits(o, j);
      }
    }
  }

  lemma DesiredBits(o: Options, j: nat)
    requires Coherent(o)
    ensures BitSet(o.desired, j) <==> !o.ro && !o.rw && j < 16
  {
    ZeroHasNoBits(j);
    AllBits(j);
  }

  lemma AllBits(j: nat)
    ensures BitSet(ALL_REGIONS, j) <==> j < 16
  {
    assert AllOnes(0xFF);
    assert AllOnes(0xFFFF) by { assert AllOnes(0xFFF); }
    assert Pow2(8) == 0x100;
    assert Pow2(16) == 0x1_0000 by { assert Pow2(12) == 0x1000; }
    AllOnesBits(ALL_REGIONS, j, 16);
  }

  /** For every command line and every map, a region is flashed exactly if --all was given, or
      it is RO and --ro was given, or it is RW and --rw was given, or neither of these two was
      given and it is not to be skipped. */
  lemma SelectionClosedForm(args: seq<string>, regions: seq<Region>, k: nat)
    requires |regions| <= 16
    ensures var part := OptionPart(args, 1);
            BitSet(FlashMask(regions, Parse(args)), k) <==>
            k < |regions| &&
            ("--all" in part
             || ("--ro" in part && regions[k].name == "RO")
             || ("--rw" in part && regions[k].name == "RW")
             || ("--ro" !in part && "--rw" !in part && !regions[k].skip))
  {
    var o := Parse(args);
    ParseMeans(args, 1, NO_OPTIONS);
    MasksBits(regions, o, |regions|, k);
    var (present, desired) := Masks(regions, o, |regions|);
    AndBits(present, if o.all then ALL_REGIONS else desired, k);
    AllBits(k);
  }

  // ---------------------------------------------------------------- the order of work

  /** The regions in the order the loop over the mask visits them. */
  function Visits(mask: nat): seq<nat>
    decreases mask
  {
    if mask == 0 then []
    else
      LeadingBitSet(mask);
      WithoutBitDecreases(mask, LeadingBit(mask));
      [LeadingBit(mask)] + Visits(WithoutBit(mask, LeadingBit(mask)))
  }

  /** The loop visits exactly the set bits, each once, from the highest down. */
  lemma {:induction false} VisitsDescend(mask: nat)
    ensures forall k :: k in Visits(mask) <==> BitSet(mask, k)
    ensures forall i, j :: 0 <= i < j < |Visits(mask)| ==> Visits(mask)[i] > Visits(mask)[j]
    decreases mask
  {
    hide BitSet;
    hide LeadingBit;
    hide WithoutBit;
    if mask == 0 {
      forall k: nat
        ensures !BitSet(mask, k)
      {
        ZeroHasNoBits(k);
      }
    } else {
      var top := LeadingBit(mask);
      LeadingBitSet(mask);
      WithoutBitDecreases(mask, top);
      var rest := WithoutBit(mask, top);
      VisitsDescend(rest);
      BitsBelowTop(mask);
      assert Visits(mask) == [top] + Visits(rest);
      hide Visits;
      ConsDescends(top, Visits(rest));
    }
  }

  lemma BitsBelowTop(mask: nat)
    requires mask > 0
    ensures var top := LeadingBit(mask);
            forall k: nat :: BitSet(mask, k) <==> k == top || (k < top && BitSet(WithoutBit(mask, top), k))
    ensures forall k: nat :: BitSet(WithoutBit(mask, LeadingBit(mask)), k) ==> k < LeadingBit(mask)
  {
    hide BitSet;
    hide LeadingBit;
    hide WithoutBit;
    var top := LeadingBit(mask);
    LeadingBitSet(mask);
    forall k: nat
      ensures BitSet(WithoutBit(mask, top), k) <==> k != top && BitSet(mask, k)
      ensures BitSet(mask, k) ==> k <= top
    {
      WithoutBitBits(mask, top, k);
      if BitSet(mask, k) {
        NothingAboveLeadingBit(mask, k);
      }
    }
  }

  lemma ConsDescends(top: nat, rest: seq<nat>)
    requires forall k :: k in rest ==> k < top
    requires forall i, j :: 0 <= i < j < |rest| ==> rest[i] > rest[j]
    ensures var all := [top] + rest;
            && (forall k :: k in all <==> k == top || k in rest)
            && forall i, j :: 0 <= i < j < |all| ==> all[i] > all[j]
  {
    var all := [top] + rest;
    forall i, j | 0 <= i < j < |all|
      ensures all[i] > all[j]
    {
      assert all[j] == rest[j - 1] && rest[j - 1] in rest;
      if i > 0 {
        assert all[i] == rest[i - 1];
      }
    }
  }
}
