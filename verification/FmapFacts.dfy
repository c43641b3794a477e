/** Flash maps packed into an image, and what is found in them. */
module FmapFacts {
  import opened Wrappers
  import opened Bytes
  import opened Fmap
  import opened EcDevice
  import opened Reflash

  // ---------------------------------------------------------------- packing

  /** `k` bytes, the lowest first. */
  function Little(n: nat, k: nat): (s: seq<byte>)
    ensures |s| == k
  {
    if k == 0 then [] else [n % 0x100] + Little(n / 0x100, k - 1)
  }

  /** One entry of the table behind the header: 42 bytes. */
  datatype AreaRecord = AreaRecord(offset: nat, size: nat, name: seq<byte>, flags: nat)

  type Area = r: AreaRecord | |r.name| == 32 && r.offset < 0x1_0000_0000
    witness AreaRecord(0, 0, seq(32, _ => 0), 0)

  function Pack(r: Area): (s: seq<byte>)
    ensures |s| == 42
  {
    Little(r.offset, 4) + Little(r.size, 4) + r.name + Little(r.flags, 2)
  }

  function PackAll(rs: seq<Area>): (s: seq<byte>)
    ensures |s| == 42 * |rs|
  {
    if rs == [] then [] else Pack(rs[0]) + PackAll(rs[1..])
  }

  /** The header: the signature, 46 bytes of versions, base, size and name, and the number of areas. */
  function Header(middle: seq<byte>, count: nat): (s: seq<byte>)
    requires |middle| == 46
    ensures |s| == 56
  {
    Ascii("__FMAP__") + middle + Little(count, 2)
  }

  /** An image with a flash map behind `front`. */
  function Packed(front: seq<byte>, middle: seq<byte>, rs: seq<Area>, back: seq<byte>): (s: seq<byte>)
    requires |middle| == 46
    ensures |s| == |front| + 56 + 42 * |rs| + |back|
  {
    front + Header(middle, |rs|) + PackAll(rs) + back
  }

  /** The names are equal as C strings of at most 32 characters. */
  predicate Named(r: Area, name: string) {
    CString(r.name, 32) == CString(Ascii(name), 32)
  }

  /** The index of the first record with the name, from the i-th on. */
  function FirstRecord(rs: seq<Area>, name: string, i: nat): (k: Option<nat>)
    ensures k.Some? ==> i <= k.value < |rs| && Named(rs[k.value], name)
    decreases |rs| - i
  {
    if i >= |rs| then None else if Named(rs[i], name) then Some(i) else FirstRecord(rs, name, i + 1)
  }

  // ---------------------------------------------------------------- unpacking

  lemma LittleFour(s: seq<byte>, at: nat, n: nat)
    requires at + 4 <= |s| && s[at..at + 4] == Little(n, 4) && n < 0x1_0000_0000
    ensures FromLe32(s, at) == n
  {
    var a := n / 0x100;
    var b := a / 0x100;
    assert Little(n, 4) == [n % 0x100] + Little(a, 3);
    assert Little(a, 3) == [a % 0x100] + Little(b, 2);
    assert Little(b, 2) == [b % 0x100] + Little(b / 0x100, 1);
    assert s[at] == s[at..at + 4][0] && s[at + 1] == s[at..at + 4][1];
    assert s[at + 2] == s[at..at + 4][2] && s[at + 3] == s[at..at + 4][3];
    assert n == s[at] as int + 0x100 * s[at + 1] as int
              + 0x1_0000 * s[at + 2] as int + 0x100_0000 * s[at + 3] as int;
  }

  lemma {:induction false} PackAllAt(rs: seq<Area>, i: nat)
    requires i < |rs|
    ensures PackAll(rs)[42 * i..42 * i + 42] == Pack(rs[i])
  {
    var first, rest := Pack(rs[0]), PackAll(rs[1..]);
    hide Pack;
    if i > 0 {
      PackAllAt(rs[1..], i - 1);
      assert PackAll(rs)[42 * i..42 * i + 42] == rest[42 * (i - 1)..42 * (i - 1) + 42];
    }
  }

  /** The i-th record stands 56 + 42 * i bytes behind the start of the map. */
  lemma RecordAt(front: seq<byte>, middle: seq<byte>, rs: seq<Area>, back: seq<byte>, i: nat)
    requires |middle| == 46 && i < |rs|
    ensures var at := |front| + 56 + 42 * i; Packed(front, middle, rs, back)[at..at + 42] == Pack(rs[i])
  {
    hide Pack;
    hide PackAll;
    hide Header;
    PackAllAt(rs, i);
    var s, at := Packed(front, middle, rs, back), |front| + 56 + 42 * i;
    assert s[at..at + 42] == PackAll(rs)[42 * i..42 * i + 42];
  }

  lemma CountAt(front: seq<byte>, middle: seq<byte>, rs: seq<Area>, back: seq<byte>)
    requires |middle| == 46 && |rs| < 0x1_0000
    ensures AreaCount(Packed(front, middle, rs, back), |front|) == |rs|
  {
    hide PackAll;
    var s := Packed(front, middle, rs, back);
    var n := |rs|;
    assert Little(n, 2) == [n % 0x100] + Little(n / 0x100, 1);
    assert s[|front| + 54] == n % 0x100 && s[|front| + 55] == n / 0x100 % 0x100;
  }

  lemma SliceOfSlice(s: seq<byte>, at: nat, n: nat, i: nat, j: nat)
    requires at + n <= |s| && i <= j <= n
    ensures s[at..at + n][i..j] == s[at + i..at + j]
  {
    var a, b := s[at..at + n], s[at + i..at + j];
    forall k | 0 <= k < j - i
      ensures a[i..j][k] == b[k]
    {
      assert a[i + k] == s[at + (i + k)];
    }
  }

  lemma RecordFields(s: seq<byte>, at: nat, r: Area, name: string)
    requires at + 42 <= |s| && s[at..at + 42] == Pack(r)
    ensures AreaOffset(s, at) == r.offset
    ensures AreaNamed(s, at, Ascii(name)) <==> Named(r, name)
  {
    hide CString;
    var p := s[at..at + 42];
    SliceOfSlice(s, at, 42, 0, 4);
    SliceOfSlice(s, at, 42, 8, 40);
    assert p[0..4] == Little(r.offset, 4);
    assert p[8..40] == r.name;
    LittleFour(s, at, r.offset);
  }

  lemma {:induction false} PackedSearch(front: seq<byte>, middle: seq<byte>, rs: seq<Area>, back: seq<byte>,
                                        name: string, i: nat)
    requires |middle| == 46 && i <= |rs| < 0x1_0000
    ensures var s, header := Packed(front, middle, rs, back), |front|;
            && Searchable(s, header, Ascii(name), i)
            && AreaFrom(s, header, Ascii(name), i) ==
               match FirstRecord(rs, name, i)
               case None => None
               case Some(k) => Some(|front| + 56 + 42 * k)
    decreases |rs| - i
  {
    hide Packed;
    hide Pack;
    hide Named;
    hide AreaNamed;
    hide Ascii;
    var s := Packed(front, middle, rs, back);
    CountAt(front, middle, rs, back);
    hide AreaCount;
    if i < |rs| {
      RecordAt(front, middle, rs, back, i);
      RecordFields(s, |front| + 56 + 42 * i, rs[i], name);
      assert AreaAt(|front|, i) == |front| + 56 + 42 * i;
      if !Named(rs[i], name) {
        PackedSearch(front, middle, rs, back, name, i + 1);
      }
    }
  }

  /** Round trip: whatever records are packed one after the other behind a header, the search for
      a name finds the first that has it, 42 bytes apart behind the 56 of the header, and reads
      back its offset. */
  lemma PackedAreaIsFound(front: seq<byte>, middle: seq<byte>, rs: seq<Area>, back: seq<byte>, name: string)
    requires |middle| == 46 && |rs| < 0x1_0000
    ensures var s, header := Packed(front, middle, rs, back), |front|;
            && Searchable(s, header, Ascii(name), 0)
            && match FirstRecord(rs, name, 0)
               case None => AreaFrom(s, header, Ascii(name), 0) == None
               case Some(k) =>
                 && AreaFrom(s, header, Ascii(name), 0) == Some(|front| + 56 + 42 * k)
                 && AreaOffset(s, |front| + 56 + 42 * k) == rs[k].offset
  {
    hide Searchable;
    hide AreaFrom;
    hide Packed;
    hide Pack;
    hide AreaOffset;
    hide AreaNamed;
    hide Ascii;
    hide Named;
    hide FirstRecord;
    PackedSearch(front, middle, rs, back, name, 0);
    var k := FirstRecord(rs, name, 0);
    if k.Some? {
      RecordAt(front, middle, rs, back, k.value);
      RecordFields(Packed(front, middle, rs, back), |front| + 56 + 42 * k.value, rs[k.value], name);
    }
  }

  /** Where the area with the name starts. */
  function FoundOffset(s: seq<byte>, header: nat, name: seq<byte>): Option<nat>
    requires header + HEADER_SIZE <= |s| && Searchable(s, header, name, 0)
  {
    var area := AreaFrom(s, header, name, 0);
    if area.None? then None else Some(AreaOffset(s, area.value))
  }

  function RecordOffset(rs: seq<Area>, name: string): Option<nat> {
    var k := FirstRecord(rs, name, 0);
    if k.None? then None else Some(rs[k.value].offset)
  }

  lemma PackedOffset(front: seq<byte>, middle: seq<byte>, rs: seq<Area>, back: seq<byte>, name: string)
    requires |middle| == 46 && |rs| < 0x1_0000
    ensures var s, header := Packed(front, middle, rs, back), |front|;
            && Searchable(s, header, Ascii(name), 0)
            && FoundOffset(s, header, Ascii(name)) == RecordOffset(rs, name)
  {
    hide Packed;
    hide Searchable;
    hide AreaFrom;
    hide AreaOffset;
    hide Ascii;
    hide Named;
    hide FirstRecord;
    PackedAreaIsFound(front, middle, rs, back, name);
  }

  /** "__FMAP__" stands there. */
  predicate Signed(s: seq<byte>, at: nat) {
    at + 8 <= |s| && s[at..at + 8] == Ascii("__FMAP__")
  }

  lemma SignatureIsText(s: seq<byte>, at: nat)
    ensures SignatureAt(s, at) <==> Signed(s, at)
  {
    assert Ascii("__FMAP__") == SIGNATURE;
  }

  /** The map is found if it is 8-aligned and the text "__FMAP__" stands at no 8-aligned place
      before it. */
  lemma PackedMapIsFound(front: seq<byte>, middle: seq<byte>, rs: seq<Area>, back: seq<byte>)
    requires |middle| == 46 && |front| % 8 == 0
    requires forall k :: 0 <= k < |front| && k % 8 == 0 ==> !Signed(Packed(front, middle, rs, back), k)
    ensures GetImageFlashMap(Packed(front, middle, rs, back)) == Some(|front|)
  {
    var s := Packed(front, middle, rs, back);
    assert s[|front|..|front| + 8] == Ascii("__FMAP__");
    hide Packed;
    hide GetImageFlashMap;
    hide Ascii;
    FirstAlignedSignature(s);
    SignatureIsText(s, |front|);
    if GetImageFlashMap(s).Some? {
      SignatureIsText(s, GetImageFlashMap(s).value);
    }
  }

  // ---------------------------------------------------------------- the board and the version

  lemma NamesAreText()
    ensures RO_FRID == Ascii("RO_FRID") && RW_FWID == Ascii("RW_FWID")
  {
  }

  /** What stands from `at` on before the first '_' or '-', or 32 characters. */
  predicate IsBoardId(id: seq<byte>, s: seq<byte>, at: nat) {
    && |id| <= 32 && at + |id| < |s| && s[at..at + |id|] == id
    && (forall c :: c in id ==> c != 0x5F && c != 0x2D)
    && (|id| == 32 || s[at + |id|] == 0x5F || s[at + |id|] == 0x2D)
  }

  /** The board of an image is what stands before the first '_' or '-' in the area that the first
      record named RO_FRID points to, or its first 32 characters; an image without has none. */
  lemma BoardOfPacked(front: seq<byte>, middle: seq<byte>, rs: seq<Area>, back: seq<byte>)
    requires |middle| == 46 && |rs| < 0x1_0000 && |front| % 8 == 0
    requires var s, at := Packed(front, middle, rs, back), RecordOffset(rs, "RO_FRID");
             && (forall k :: 0 <= k < |front| && k % 8 == 0 ==> !Signed(s, k))
             && (at.Some? ==> at.value + 33 <= |s|)
    ensures var s, at := Packed(front, middle, rs, back), RecordOffset(rs, "RO_FRID");
            && ImageReadable(s)
            && (ImageBoard(s).Some? <==> at.Some?)
            && (at.Some? ==> IsBoardId(ImageBoard(s).value, s, at.value))
  {
    hide Packed;
    hide GetImageFlashMap;
    hide Searchable;
    hide FoundOffset;
    hide RecordOffset;
    hide Ascii;
    hide Signed;
    hide ImageReadable;
    hide ImageBoard;
    hide IsBoardId;
    PackedMapIsFound(front, middle, rs, back);
    PackedOffset(front, middle, rs, back, "RO_FRID");
    NamesAreText();
    BoardFound(Packed(front, middle, rs, back), |front|);
  }

  lemma BoardFound(s: seq<byte>, header: nat)
    requires GetImageFlashMap(s) == Some(header) && header + HEADER_SIZE <= |s| && Searchable(s, header, RO_FRID, 0)
    requires var at := FoundOffset(s, header, RO_FRID); at.Some? ==> at.value + 33 <= |s|
    ensures ImageReadable(s)
    ensures var at := FoundOffset(s, header, RO_FRID);
            && (ImageBoard(s).Some? <==> at.Some?)
            && (at.Some? ==> IsBoardId(ImageBoard(s).value, s, at.value))
  {
    hide GetImageFlashMap;
    hide Searchable;
    hide AreaFrom;
    hide AreaOffset;
    hide IdReadable;
    hide IdLength;
    hide IsBoardId;
    var at := FoundOffset(s, header, RO_FRID);
    if at.Some? {
      LongEnough(s, at.value, 0);
      BoardMeans(s, at.value);
    }
  }

  lemma {:induction false} LongEnough(s: seq<byte>, at: nat, n: nat)
    requires at + 33 <= |s| && n <= 32
    ensures IdReadable(s, at, n)
    decreases 32 - n
  {
    if n < 32 {
      LongEnough(s, at, n + 1);
    }
  }

  lemma BoardMeans(s: seq<byte>, at: nat)
    requires IdReadable(s, at, 0)
    ensures IsBoardId(s[at..at + IdLength(s, at, 0)], s, at)
  {
    hide IdLength;
    hide IdReadable;
    var n := IdLength(s, at, 0);
    var id := s[at..at + n];
    forall c | c in id
      ensures c != 0x5F && c != 0x2D
    {
      var i :| 0 <= i < n && id[i] == c;
      assert s[at + i] == c;
    }
  }

  /** The 32 bytes from there on, if there is such a place. */
  function BytesAt(s: seq<byte>, at: Option<nat>, other: seq<byte>): seq<byte>
    requires at.Some? ==> at.value + 32 <= |s|
  {
    if at.None? then other else s[at.value..at.value + 32]
  }

  /** The version report takes its RO string from the first record named RO_FRID and its RW string
      from the first named RW_FWID, 32 bytes each, and keeps what is not found. */
  lemma VersionOfPacked(snapshot: Snapshot, front: seq<byte>, middle: seq<byte>, rs: seq<Area>, back: seq<byte>)
    requires |middle| == 46 && |rs| < 0x1_0000 && |front| % 8 == 0
    requires snapshot.flash == Packed(front, middle, rs, back)
    requires forall k :: 0 <= k < |front| && k % 8 == 0 ==> !Signed(snapshot.flash, k)
    requires var ro, rw := RecordOffset(rs, "RO_FRID"), RecordOffset(rs, "RW_FWID");
             && (ro.Some? ==> ro.value + 32 <= |snapshot.flash|)
             && (rw.Some? ==> rw.value + 32 <= |snapshot.flash|)
    ensures Reportable(snapshot.flash)
    ensures Reported(snapshot) ==
            snapshot.(ro := BytesAt(snapshot.flash, RecordOffset(rs, "RO_FRID"), snapshot.ro),
                      rw := BytesAt(snapshot.flash, RecordOffset(rs, "RW_FWID"), snapshot.rw))
  {
    hide Packed;
    hide GetImageFlashMap;
    hide Searchable;
    hide FoundOffset;
    hide RecordOffset;
    hide Ascii;
    hide Signed;
    hide Reportable;
    hide Reported;
    PackedMapIsFound(front, middle, rs, back);
    PackedOffset(front, middle, rs, back, "RO_FRID");
    PackedOffset(front, middle, rs, back, "RW_FWID");
    NamesAreText();
    VersionsFound(snapshot, |front|);
  }

  lemma VersionsFound(snapshot: Snapshot, header: nat)
    requires var s := snapshot.flash;
             && GetImageFlashMap(s) == Some(header) && header + HEADER_SIZE <= |s|
             && Searchable(s, header, RO_FRID, 0) && Searchable(s, header, RW_FWID, 0)
             && var ro, rw := FoundOffset(s, header, RO_FRID), FoundOffset(s, header, RW_FWID);
                && (ro.Some? ==> ro.value + 32 <= |s|)
                && (rw.Some? ==> rw.value + 32 <= |s|)
    ensures Reportable(snapshot.flash)
    ensures var s := snapshot.flash;
            Reported(snapshot) ==
            snapshot.(ro := BytesAt(s, FoundOffset(s, header, RO_FRID), snapshot.ro),
                      rw := BytesAt(s, FoundOffset(s, header, RW_FWID), snapshot.rw))
  {
    hide GetImageFlashMap;
    hide Searchable;
    hide AreaFrom;
    hide AreaOffset;
  }

  /** Without a map an image has no board, and the version report is as it was. */
  lemma NothingWithoutMap(s: seq<byte>, snapshot: Snapshot)
    requires forall k :: 0 <= k < |s| && k % 8 == 0 ==> !Signed(s, k)
    ensures GetImageFlashMap(s) == None && ImageReadable(s) && ImageBoard(s) == None
    ensures snapshot.flash == s ==> Reportable(s) && Reported(snapshot) == snapshot
  {
    hide GetImageFlashMap;
    hide Signed;
    FirstAlignedSignature(s);
    if GetImageFlashMap(s).Some? {
      SignatureIsText(s, GetImageFlashMap(s).value);
    }
  }
}
