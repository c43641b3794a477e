/** The boards the command knows, by name, and what their flash maps say. */
module Boards {
  import opened Wrappers
  import opened Bytes
  import opened EcDevice
  import opened Regions
  import opened Reflash
  import opened Limits

  /** A board ID that leaves room for a delimiter. */
  predicate Id(id: seq<byte>) {
    |id| < VERSION_LENGTH && forall k :: 0 <= k < |id| ==> !Ends(id[k])
  }

  function BoardId(k: nat): seq<byte>
    requires k < |FLASH_MAPS|
  {
    Ascii(FLASH_MAPS[k].board)
  }

  /** Small letters and digits. */
  predicate Plain(s: string) {
    4 <= |s| < VERSION_LENGTH && forall i :: 0 <= i < |s| ==> '0' <= s[i] <= '9' || 'a' <= s[i] <= 'z'
  }

  lemma PlainIsId(s: string)
    requires Plain(s)
    ensures Id(Ascii(s)) && |Ascii(s)| >= 4
  {
  }

  lemma BoardIds(k: nat)
    requires k < |FLASH_MAPS|
    ensures Id(BoardId(k)) && |BoardId(k)| >= 4
  {
    assert Plain("hx20");
    assert Plain("hx30");
    assert Plain("azalea");
    assert Plain("lotus");
    assert Plain("marigold");
    assert Plain("sunflower");
    assert Plain("lilac");
    assert Plain("tulip");
    hide Plain;
    PlainIsId(FLASH_MAPS[k].board);
  }

  /** No board's ID starts with another's. */
  lemma BoardsDiffer(j: nat, k: nat)
    requires j < |FLASH_MAPS| && k < |FLASH_MAPS| && BoardId(k) <= BoardId(j)
    ensures j == k
  {
    assert BoardId(j)[0] == BoardId(k)[0] && BoardId(j)[1] == BoardId(k)[1] && BoardId(j)[2] == BoardId(k)[2];
  }

  /** An image with a board's ID gets that board's map. */
  lemma MapOfBoard(k: nat)
    requires k < |FLASH_MAPS|
    ensures FindMapFrom(BoardId(k), 0) == Some(FLASH_MAPS[k])
  {
    BoardIds(k);
    FirstMatchingMap(BoardId(k), 0);
    forall j: nat | j < |FLASH_MAPS|
      ensures MapFor(j, BoardId(k)) <==> j == k
    {
      BoardIds(j);
      GateIsPrefix(BoardId(j), BoardId(k));
      CStringWhole(BoardId(j));
      if MapFor(j, BoardId(k)) {
        BoardsDiffer(j, k);
      }
    }
  }

  /** The boards with a Microchip EC, and those with a Nuvoton EC. */
  predicate IsHx(name: string) {
    name == "hx20" || name == "hx30"
  }

  predicate IsNpcx(name: string) {
    || name == "azalea" || name == "lotus" || name == "marigold" || name == "sunflower" || name == "lilac"
    || name == "tulip"
  }

  lemma IndexOfBoard(name: string)
    requires IsHx(name) || IsNpcx(name)
    ensures exists k: nat :: k < |FLASH_MAPS| && FLASH_MAPS[k].board == name
  {
    assert FLASH_MAPS[0].board == "hx20" && FLASH_MAPS[1].board == "hx30" && FLASH_MAPS[2].board == "azalea";
    assert FLASH_MAPS[3].board == "lotus" && FLASH_MAPS[4].board == "marigold" && FLASH_MAPS[5].board == "sunflower";
    assert FLASH_MAPS[6].board == "lilac" && FLASH_MAPS[7].board == "tulip";
  }

  /** An image for a board gets the map of that board; only those with a Microchip EC need unlocking. */
  lemma MapByName(name: string)
    requires IsHx(name) || IsNpcx(name)
    ensures FindMapFrom(Ascii(name), 0) ==
            Some(FlashMap(name, if IsHx(name) then HX_REGIONS else NPCX_REGIONS, IsHx(name)))
  {
    IndexOfBoard(name);
    var k: nat :| k < |FLASH_MAPS| && FLASH_MAPS[k].board == name;
    MapOfBoard(k);
    hide FindMapFrom;
    assert FLASH_MAPS[k] == FlashMap(name, if IsHx(name) then HX_REGIONS else NPCX_REGIONS, IsHx(name));
  }

  /** An ID that no board's starts with gets the map for unknown boards, which needs unlocking. */
  predicate IsUnknown(id: seq<byte>) {
    && !SameBoard(Ascii("hx20"), id) && !SameBoard(Ascii("hx30"), id)
    && !SameBoard(Ascii("azalea"), id) && !SameBoard(Ascii("lotus"), id) && !SameBoard(Ascii("marigold"), id)
    && !SameBoard(Ascii("sunflower"), id) && !SameBoard(Ascii("lilac"), id) && !SameBoard(Ascii("tulip"), id)
  }

  lemma NoMapForUnknown(id: seq<byte>)
    ensures FindMapFrom(id, 0) == None <==> IsUnknown(id)
  {
    hide SameBoard;
    assert FLASH_MAPS[0].board == "hx20" && FLASH_MAPS[1].board == "hx30" && FLASH_MAPS[2].board == "azalea";
    assert FLASH_MAPS[3].board == "lotus" && FLASH_MAPS[4].board == "marigold" && FLASH_MAPS[5].board == "sunflower";
    assert FLASH_MAPS[6].board == "lilac" && FLASH_MAPS[7].board == "tulip";
    FirstMatchingMap(id, 0);
    hide FindMapFrom;
    assert MapFor(0, id) <==> SameBoard(Ascii("hx20"), id);
    assert MapFor(1, id) <==> SameBoard(Ascii("hx30"), id);
    assert MapFor(2, id) <==> SameBoard(Ascii("azalea"), id);
    assert MapFor(3, id) <==> SameBoard(Ascii("lotus"), id);
    assert MapFor(4, id) <==> SameBoard(Ascii("marigold"), id);
    assert MapFor(5, id) <==> SameBoard(Ascii("sunflower"), id);
    assert MapFor(6, id) <==> SameBoard(Ascii("lilac"), id);
    assert MapFor(7, id) <==> SameBoard(Ascii("tulip"), id);
  }
}
