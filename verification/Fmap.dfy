/** The flash map inside a firmware image. */
module Fmap {
  import opened Wrappers
  import opened Bytes

  /** "__FMAP__" */
  const SIGNATURE: seq<byte> := [0x5F, 0x5F, 0x46, 0x4D, 0x41, 0x50, 0x5F, 0x5F]
  const HEADER_SIZE := 56
  const AREA_SIZE := 42
  const NAMELEN := 32
  const AREA_COUNT_AT := 54
  const AREA_NAME_AT := 8

  /** "RO_FRID" and "RW_FWID" */
  const RO_FRID: seq<byte> := [0x52, 0x4F, 0x5F, 0x46, 0x52, 0x49, 0x44]
  const RW_FWID: seq<byte> := [0x52, 0x57, 0x5F, 0x46, 0x57, 0x49, 0x44]

  // ---------------------------------------------------------------- the header

  predicate SignatureAt(s: seq<byte>, at: nat) {
    at + 8 <= |s| && s[at..at + 8] == SIGNATURE
  }

  /** The scan looks at every eighth byte only. */
  function ScanFrom(s: seq<byte>, at: nat): Option<nat>
    decreases |s| - at
  {
    if at + 8 > |s| then None
    else if SignatureAt(s, at) then Some(at)
    else ScanFrom(s, at + 8)
  }

  function GetImageFlashMap(s: seq<byte>): Option<nat> {
    ScanFrom(s, 0)
  }

  lemma {:induction false} ScanFindsFirst(s: seq<byte>, at: nat)
    requires at % 8 == 0
    ensures var r := ScanFrom(s, at);
            && (forall k :: at <= k && k % 8 == 0 && SignatureAt(s, k) ==> r.Some? && r.value <= k)
            && (r.Some? ==> r.value % 8 == 0 && at <= r.value && SignatureAt(s, r.value))
    decreases |s| - at
  {
    if at + 8 <= |s| && !SignatureAt(s, at) {
      ScanFindsFirst(s, at + 8);
    }
  }

  /** The map found is the first 8-aligned signature; none is found only if there is none. */
  lemma FirstAlignedSignature(s: seq<byte>)
    ensures var r := GetImageFlashMap(s);
            && (forall k :: k % 8 == 0 && SignatureAt(s, k) ==> r.Some? && r.value <= k)
            && (r.Some? ==> r.value % 8 == 0 && SignatureAt(s, r.value))
  {
    ScanFindsFirst(s, 0);
  }

  // ---------------------------------------------------------------- areas

  /** The characters a comparison of at most `n` looks at: those before the first NUL. Two
      strings compare equal in their first `n` characters exactly when these agree. */
  function CString(s: seq<byte>, n: nat): (t: seq<byte>)
    ensures |t| <= n && t <= s
  {
    if n == 0 || s == [] || s[0] == 0 then [] else [s[0]] + CString(s[1..], n - 1)
  }

  function AreaCount(s: seq<byte>, header: nat): nat
    requires header + HEADER_SIZE <= |s|
  {
    FromLe16(s[header + AREA_COUNT_AT], s[header + AREA_COUNT_AT + 1])
  }

  function AreaAt(header: nat, i: nat): nat {
    header + HEADER_SIZE + AREA_SIZE * i
  }

  predicate AreaNamed(s: seq<byte>, at: nat, name: seq<byte>)
    requires at + AREA_SIZE <= |s|
  {
    CString(name, NAMELEN) == CString(s[at + AREA_NAME_AT..at + AREA_NAME_AT + NAMELEN], NAMELEN)
  }

  /** The search from area `i` on reads only bytes of `s`: the source checks no bounds. */
  predicate Searchable(s: seq<byte>, header: nat, name: seq<byte>, i: nat)
    requires header + HEADER_SIZE <= |s|
    decreases AreaCount(s, header) - i
  {
    i < AreaCount(s, header) ==>
      && AreaAt(header, i) + AREA_SIZE <= |s|
      && (AreaNamed(s, AreaAt(header, i), name) || Searchable(s, header, name, i + 1))
  }

  /** The position of the first area from `i` on that has the name. */
  function AreaFrom(s: seq<byte>, header: nat, name: seq<byte>, i: nat): (r: Option<nat>)
    requires header + HEADER_SIZE <= |s| && Searchable(s, header, name, i)
    ensures r.Some? ==> r.value + AREA_SIZE <= |s|
    decreases AreaCount(s, header) - i
  {
    if i >= AreaCount(s, header) then None
    else if AreaNamed(s, AreaAt(header, i), name) then Some(AreaAt(header, i))
    else AreaFrom(s, header, name, i + 1)
  }

  method GetImageFlashArea(s: seq<byte>, header: nat, name: seq<byte>) returns (area: Option<nat>)
    requires header + HEADER_SIZE <= |s| && Searchable(s, header, name, 0)
    ensures area == AreaFrom(s, header, name, 0)
  {
    var i := 0;
    while i < AreaCount(s, header)
      invariant Searchable(s, header, name, i)
      invariant AreaFrom(s, header, name, i) == AreaFrom(s, header, name, 0)
    {
      if AreaNamed(s, AreaAt(header, i), name) {
        return Some(AreaAt(header, i));
      }
      i := i + 1;
    }
    return None;
  }

  /** The area found is the first one with the name. */
  lemma {:induction false} AreaFindsFirst(s: seq<byte>, header: nat, name: seq<byte>, i: nat)
    requires header + HEADER_SIZE <= |s| && Searchable(s, header, name, i)
    ensures var r := AreaFrom(s, header, name, i);
            if r.Some?
            then exists k :: FirstNamed(s, header, name, i, k) && r.value == AreaAt(header, k)
            else forall k :: i <= k < AreaCount(s, header) ==> NotNamed(s, header, name, k)
    decreases AreaCount(s, header) - i
  {
    hide AreaNamed;
    hide AreaCount;
    if i < AreaCount(s, header) {
      if AreaNamed(s, AreaAt(header, i), name) {
        assert FirstNamed(s, header, name, i, i);
      } else {
        AreaFindsFirst(s, header, name, i + 1);
        assert NotNamed(s, header, name, i);
        if AreaFrom(s, header, name, i + 1).Some? {
          var k :| FirstNamed(s, header, name, i + 1, k) && AreaFrom(s, header, name, i + 1).value == AreaAt(header, k);
          assert FirstNamed(s, header, name, i, k);
        }
      }
    }
  }

  predicate NotNamed(s: seq<byte>, header: nat, name: seq<byte>, k: nat) {
    AreaAt(header, k) + AREA_SIZE <= |s| && !AreaNamed(s, AreaAt(header, k), name)
  }

  ghost predicate FirstNamed(s: seq<byte>, header: nat, name: seq<byte>, i: nat, k: nat)
    requires header + HEADER_SIZE <= |s|
  {
    && i <= k < AreaCount(s, header)
    && AreaAt(header, k) + AREA_SIZE <= |s| && AreaNamed(s, AreaAt(header, k), name)
    && forall j :: i <= j < k ==> NotNamed(s, header, name, j)
  }

  /** Where an area's contents start. */
  function AreaOffset(s: seq<byte>, area: nat): nat
    requires area + AREA_SIZE <= |s|
  {
    FromLe32(s, area)
  }

  // ---------------------------------------------------------------- a map inside a prefix

  lemma {:induction false} ScanInPrefix(p: seq<byte>, q: seq<byte>, at: nat)
    requires ScanFrom(p, at).Some?
    ensures ScanFrom(p + q, at) == ScanFrom(p, at)
    decreases |p| - at
  {
    assert (p + q)[at..at + 8] == p[at..at + 8];
    if !SignatureAt(p, at) {
      ScanInPrefix(p, q, at + 8);
    }
  }

  lemma {:induction false} AreaInPrefix(p: seq<byte>, q: seq<byte>, header: nat, name: seq<byte>, i: nat)
    requires header + HEADER_SIZE <= |p| && Searchable(p, header, name, i)
    ensures Searchable(p + q, header, name, i)
    ensures AreaFrom(p + q, header, name, i) == AreaFrom(p, header, name, i)
    decreases AreaCount(p, header) - i
  {
    if i < AreaCount(p, header) {
      var at := AreaAt(header, i) + AREA_NAME_AT;
      assert (p + q)[at..at + NAMELEN] == p[at..at + NAMELEN];
      if !AreaNamed(p, AreaAt(header, i), name) {
        AreaInPrefix(p, q, header, name, i + 1);
      }
    }
  }
}
