/** Fixed-width values: bytes, little-endian packing, byte sums and bit masks. */
module Bytes {

  type byte = b: nat | b < 0x100

  function Min(a: nat, b: nat): nat {
    if a <= b then a else b
  }

  function Max(a: int, b: int): int {
    if a <= b then b else a
  }

  // ---------------------------------------------------------------- packing

  /** The two bytes of an unsigned 16-bit value, low byte first. */
  function Le16(n: nat): (s: seq<byte>)
    requires n < 0x1_0000
  {
    [n % 0x100, n / 0x100]
  }

  function FromLe16(lo: byte, hi: byte): (n: nat) {
    lo + 0x100 * hi
  }

  function Le32(n: nat): (s: seq<byte>)
    requires n < 0x1_0000_0000
    ensures |s| == 4
  {
    Le16(n % 0x1_0000) + Le16(n / 0x1_0000)
  }

  /** The 32-bit little-endian value stored at `at`. */
  function FromLe32(s: seq<byte>, at: nat): (n: nat)
    requires at + 4 <= |s|
  {
    FromLe16(s[at], s[at + 1]) + 0x1_0000 * FromLe16(s[at + 2], s[at + 3])
  }

  lemma Le32RoundTrip(n: nat)
    requires n < 0x1_0000_0000
    ensures FromLe32(Le32(n), 0) == n
  {
  }

  /** Reading a 32-bit value depends only on its four bytes. */
  lemma FromLe32At(s: seq<byte>, at: nat)
    requires at + 4 <= |s|
    ensures FromLe32(s, at) == FromLe32(s[at..at + 4], 0)
  {
  }

  /** `s` with the bytes from `at` on replaced by `d`. */
  function Splice(s: seq<byte>, at: nat, d: seq<byte>): (r: seq<byte>)
    requires at + |d| <= |s|
    ensures |r| == |s|
    ensures forall k :: 0 <= k < |s| ==> r[k] == if at <= k < at + |d| then d[k - at] else s[k]
  {
    s[..at] + d + s[at + |d|..]
  }

  lemma SpliceMore(s: seq<byte>, at: nat, a: seq<byte>, b: seq<byte>)
    requires at + |a| + |b| <= |s|
    ensures Splice(Splice(s, at, a), at + |a|, b) == Splice(s, at, a + b)
  {
  }

  /** `CopyMem` */
  method CopyInto(a: array<byte>, at: nat, data: seq<byte>)
    requires at + |data| <= a.Length
    modifies a
    ensures a[..] == Splice(old(a[..]), at, data)
  {
    forall k | 0 <= k < |data| {
      a[at + k] := data[k];
    }
  }

  // ---------------------------------------------------------------- byte sums

  function Total(s: seq<byte>): (n: nat) {
    if s == [] then 0 else Total(s[..|s| - 1]) + s[|s| - 1]
  }

  /** The 8-bit wrap-around sum the packets are protected by. */
  function Checksum(s: seq<byte>): (b: byte) {
    Total(s) % 0x100
  }

  /** `(UCHAR)(-b)` */
  function Negated(b: byte): (n: byte) {
    if b == 0 then 0 else 0x100 - b
  }

  lemma {:induction false} TotalConcat(a: seq<byte>, b: seq<byte>)
    ensures Total(a + b) == Total(a) + Total(b)
  {
    if b == [] {
      assert a + b == a;
    } else {
      assert (a + b)[..|a + b| - 1] == a + b[..|b| - 1];
      TotalConcat(a, b[..|b| - 1]);
    }
  }

  lemma {:induction false} TotalUpdate(s: seq<byte>, k: nat, x: byte)
    requires k < |s|
    ensures Total(s[k := x]) == Total(s) - s[k] + x
  {
    var t := s[k := x];
    if k == |s| - 1 {
      assert t[..|s| - 1] == s[..|s| - 1];
    } else {
      assert t[..|s| - 1] == s[..|s| - 1][k := x];
      TotalUpdate(s[..|s| - 1], k, x);
    }
  }

  // ---------------------------------------------------------------- bits

  predicate BitSet(m: nat, k: nat) {
    if k == 0 then m % 2 == 1 else BitSet(m / 2, k - 1)
  }

  /** Bitwise AND. */
  function And(a: nat, b: nat): (r: nat)
    ensures r <= a && r <= b
  {
    if a == 0 || b == 0 then 0
    else 2 * And(a / 2, b / 2) + (if a % 2 == 1 && b % 2 == 1 then 1 else 0)
  }

  /** `m | (1 << k)` */
  function WithBit(m: nat, k: nat): (r: nat)
    ensures r >= m
  {
    if k == 0 then m / 2 * 2 + 1 else 2 * WithBit(m / 2, k - 1) + m % 2
  }

  /** `m & ~(1 << k)` */
  function WithoutBit(m: nat, k: nat): (r: nat)
    ensures r <= m
  {
    if k == 0 then m / 2 * 2 else 2 * WithoutBit(m / 2, k - 1) + m % 2
  }

  /** `31 - __builtin_clz(m)`: the index of the leading one. */
  function LeadingBit(m: nat): (k: nat)
    requires m > 0
  {
    if m == 1 then 0 else 1 + LeadingBit(m / 2)
  }

  lemma {:induction false} ZeroHasNoBits(k: nat)
    ensures !BitSet(0, k)
  {
    if k > 0 {
      ZeroHasNoBits(k - 1);
    }
  }

  lemma {:induction false} AndBits(a: nat, b: nat, k: nat)
    ensures BitSet(And(a, b), k) <==> BitSet(a, k) && BitSet(b, k)
    decreases k
  {
    if a == 0 || b == 0 {
      ZeroHasNoBits(k);
    } else if k > 0 {
      AndBits(a / 2, b / 2, k - 1);
    }
  }

  lemma {:induction false} WithBitBits(m: nat, k: nat, j: nat)
    ensures BitSet(WithBit(m, k), j) <==> j == k || BitSet(m, j)
    decreases k
  {
    if k > 0 && j > 0 {
      WithBitBits(m / 2, k - 1, j - 1);
    }
  }

  lemma {:induction false} WithoutBitBits(m: nat, k: nat, j: nat)
    ensures BitSet(WithoutBit(m, k), j) <==> j != k && BitSet(m, j)
    decreases k
  {
    if k > 0 && j > 0 {
      WithoutBitBits(m / 2, k - 1, j - 1);
    }
  }

  lemma {:induction false} WithoutBitDecreases(m: nat, k: nat)
    requires BitSet(m, k)
    ensures WithoutBit(m, k) < m
  {
    if k > 0 {
      WithoutBitDecreases(m / 2, k - 1);
    }
  }

  lemma {:induction false} LeadingBitSet(m: nat)
    requires m > 0
    ensures BitSet(m, LeadingBit(m))
  {
    if m > 1 {
      LeadingBitSet(m / 2);
    }
  }

  lemma {:induction false} NothingAboveLeadingBit(m: nat, j: nat)
    requires m > 0 && BitSet(m, j)
    ensures j <= LeadingBit(m)
  {
    if m == 1 {
      if j > 0 {
        ZeroHasNoBits(j - 1);
      }
    } else if j > 0 {
      NothingAboveLeadingBit(m / 2, j - 1);
    }
  }

  /** Programming an erased byte stores the byte. */
  lemma AndOnes(d: byte)
    ensures And(0xFF, d) == d
  {
    AndAllOnes(0xFF, d);
  }

  predicate AllOnes(m: nat) {
    m == 0 || (m % 2 == 1 && AllOnes(m / 2))
  }

  lemma {:induction false} AndAllOnes(m: nat, d: nat)
    requires AllOnes(m) && d <= m
    ensures And(m, d) == d
  {
    if m != 0 && d != 0 {
      AndAllOnes(m / 2, d / 2);
    }
  }

  /** 0xFFFF has exactly its sixteen low bits set. */
  lemma {:induction false} AllOnesBits(m: nat, k: nat, width: nat)
    requires AllOnes(m) && m + 1 == Pow2(width)
    ensures BitSet(m, k) <==> k < width
    decreases k
  {
    if width == 0 {
      ZeroHasNoBits(k);
    } else if k > 0 {
      AllOnesBits(m / 2, k - 1, width - 1);
    }
  }

  function Pow2(k: nat): (r: nat)
    ensures r > 0
  {
    if k == 0 then 1 else 2 * Pow2(k - 1)
  }
}
