/** Little-endian integers and fixed-width records inside byte strings. */
module LittleEndian {
  import opened Machine
  import opened Arithmetic

  function Pow256(width: nat): (p: int)
    ensures p > 0
  {
    if width == 0 then 1 else 256 * Pow256(width - 1)
  }

  lemma Pow256Values()
    ensures Pow256(2) == TWO_16 && Pow256(4) == TWO_32 && Pow256(8) == TWO_64 && Pow256(16) == TWO_128
  {
  }

  function ToBytes(n: nat, width: nat): (b: seq<byte>)
    ensures |b| == width
    decreases width, n
  {
    if width == 0 then [] else [n % 256] + ToBytes(n / 256, width - 1)
  }

  /** The value of the `width` bytes at `at`, least significant first. */
  function ReadLe(data: seq<byte>, at: nat, width: nat): nat
    requires at + width <= |data|
    decreases width, at, data
  {
    if width == 0 then 0 else data[at] + 256 * ReadLe(data, at + 1, width - 1)
  }

  function FromBytes(b: seq<byte>): nat {
    ReadLe(b, 0, |b|)
  }

  lemma {:induction false} ReadLeBound(data: seq<byte>, at: nat, width: nat)
    requires at + width <= |data|
    ensures ReadLe(data, at, width) < Pow256(width)
    decreases width
  {
    if width > 0 {
      ReadLeBound(data, at + 1, width - 1);
    }
  }

  lemma FromBytesBound(b: seq<byte>)
    ensures FromBytes(b) < Pow256(|b|)
  {
    ReadLeBound(b, 0, |b|);
  }

  /** The value depends on the bytes read only, wherever they lie. */
  lemma {:induction false} ReadLeMoved(a: seq<byte>, i: nat, b: seq<byte>, j: nat, width: nat)
    requires i + width <= |a| && j + width <= |b|
    requires forall k :: i <= k < i + width ==> a[k] == b[k - i + j]
    ensures ReadLe(a, i, width) == ReadLe(b, j, width)
    decreases width
  {
    if width > 0 {
      ReadLeMoved(a, i + 1, b, j + 1, width - 1);
    }
  }

  lemma {:induction false} ReadLeInjective(a: seq<byte>, i: nat, b: seq<byte>, j: nat, width: nat)
    requires i + width <= |a| && j + width <= |b|
    requires ReadLe(a, i, width) == ReadLe(b, j, width)
    ensures a[i..i + width] == b[j..j + width]
    decreases width
  {
    if width > 0 {
      LowDigit(a[i], ReadLe(a, i + 1, width - 1), b[j], ReadLe(b, j + 1, width - 1));
      ReadLeInjective(a, i + 1, b, j + 1, width - 1);
      HeadOfSlice(a, i, width);
      HeadOfSlice(b, j, width);
    }
  }

  lemma LowDigit(x: byte, r: int, y: byte, s: int)
    requires x + 256 * r == y + 256 * s
    ensures x == y && r == s
  {
  }

  lemma HeadOfSlice(a: seq<byte>, i: nat, width: nat)
    requires width > 0 && i + width <= |a|
    ensures a[i..i + width] == [a[i]] + a[i + 1..i + 1 + (width - 1)]
  {
  }

  lemma {:induction false} FromToBytes(n: nat, width: nat)
    requires n < Pow256(width)
    ensures FromBytes(ToBytes(n, width)) == n
    decreases width
  {
    if width > 0 {
      FromToBytes(n / 256, width - 1);
      ReadLeMoved(ToBytes(n, width), 1, ToBytes(n / 256, width - 1), 0, width - 1);
    }
  }

  lemma {:induction false} ToFromBytes(b: seq<byte>)
    ensures ToBytes(FromBytes(b), |b|) == b
  {
    FromBytesBound(b);
    FromToBytes(FromBytes(b), |b|);
    FromBytesInjective(ToBytes(FromBytes(b), |b|), b);
  }

  /** Equal-length byte strings with equal values are equal. */
  lemma FromBytesInjective(a: seq<byte>, b: seq<byte>)
    requires |a| == |b| && FromBytes(a) == FromBytes(b)
    ensures a == b
  {
    ReadLeInjective(a, 0, b, 0, |a|);
    assert a == a[0..|a|] && b == b[0..|b|];
  }

  // Two's complement, in `width` bytes.

  function SignedToBytes(v: int, width: nat): (b: seq<byte>)
    requires -Pow256(width) <= v
    ensures |b| == width
  {
    ToBytes(if v < 0 then v + Pow256(width) else v, width)
  }

  /** The signed reading of `n` modulo `p`. */
  function Signed(n: nat, p: int): int {
    if 2 * n >= p then n - p else n
  }

  function SignedFromBytes(b: seq<byte>): int {
    Signed(FromBytes(b), Pow256(|b|))
  }

  /** Byte `i` is digit `i` in base 256, the least significant first. */
  lemma {:induction false} ToBytesAt(n: nat, width: nat, i: nat)
    requires i < width
    ensures ToBytes(n, width)[i] == n / Pow256(i) % 256
    decreases width
  {
    if i > 0 {
      ToBytesAt(n / 256, width - 1, i - 1);
      DivTwice(n, 256, Pow256(i - 1));
    }
  }

  /** A negative number is encoded as the unsigned number congruent to it. */
  lemma TwosComplement(v: int, width: nat)
    requires -Pow256(width) <= v < Pow256(width)
    ensures FromBytes(SignedToBytes(v, width)) == if v < 0 then v + Pow256(width) else v
  {
    FromToBytes(if v < 0 then v + Pow256(width) else v, width);
  }

  lemma SignedFromToBytes(v: int, width: nat)
    requires -Pow256(width) <= 2 * v < Pow256(width)
    ensures SignedFromBytes(SignedToBytes(v, width)) == v
  {
    FromToBytes(if v < 0 then v + Pow256(width) else v, width);
  }

  lemma SignedToFromBytes(b: seq<byte>)
    ensures -Pow256(|b|) <= 2 * SignedFromBytes(b) < Pow256(|b|)
    ensures SignedToBytes(SignedFromBytes(b), |b|) == b
  {
    FromBytesBound(b);
    SignedInverse(FromBytes(b), Pow256(|b|));
    UnsignedImage(SignedFromBytes(b), FromBytes(b), |b|);
    ToFromBytes(b);
  }

  lemma UnsignedImage(v: int, n: nat, width: nat)
    requires -Pow256(width) <= v && (if v < 0 then v + Pow256(width) else v) == n
    ensures SignedToBytes(v, width) == ToBytes(n, width)
  {
  }

  lemma SignedInverse(n: nat, p: int)
    requires n < p
    ensures var v := Signed(n, p);
            -p <= 2 * v < p && (if v < 0 then v + p else v) == n
  {
  }

  // Typed reads at an offset.

  function ReadU16(data: seq<byte>, at: nat): (r: u16)
    requires at + 2 <= |data|
  {
    data[at] as int + 256 * (data[at + 1] as int)
  }

  function ReadU32(data: seq<byte>, at: nat): (r: u32)
    requires at + 4 <= |data|
  {
    ReadLeBound(data, at, 4);
    Pow256Values();
    ReadLe(data, at, 4)
  }

  function ReadU64(data: seq<byte>, at: nat): (r: u64)
    requires at + 8 <= |data|
  {
    ReadLeBound(data, at, 8);
    Pow256Values();
    ReadLe(data, at, 8)
  }

  function U16Bytes(n: u16): (b: seq<byte>)
    ensures |b| == 2
  {
    [n % 256, n / 256]
  }

  lemma ReadU16At(data: seq<byte>, at: nat, n: u16)
    requires at + 2 <= |data| && data[at..at + 2] == U16Bytes(n)
    ensures ReadU16(data, at) == n
  {
    assert data[at] == data[at..at + 2][0] && data[at + 1] == data[at..at + 2][1];
  }

  lemma ReadU32At(data: seq<byte>, at: nat, n: u32)
    requires at + 4 <= |data| && data[at..at + 4] == U32Bytes(n)
    ensures ReadU32(data, at) == n
  {
    ReadMoved(data, at, U32Bytes(n));
  }

  lemma ReadU64At(data: seq<byte>, at: nat, n: u64)
    requires at + 8 <= |data| && data[at..at + 8] == U64Bytes(n)
    ensures ReadU64(data, at) == n
  {
    ReadMoved(data, at, U64Bytes(n));
  }

  lemma ReadMoved(data: seq<byte>, at: nat, b: seq<byte>)
    requires at + |b| <= |data| && data[at..at + |b|] == b
    ensures ReadLe(data, at, |b|) == FromBytes(b)
  {
    assert forall k :: at <= k < at + |b| ==> data[k] == data[at..at + |b|][k - at];
    ReadLeMoved(data, at, b, 0, |b|);
  }

  function U32Bytes(n: u32): (b: seq<byte>)
    ensures |b| == 4 && FromBytes(b) == n
  {
    Pow256Values();
    FromToBytes(n, 4);
    ToBytes(n, 4)
  }

  function U64Bytes(n: u64): (b: seq<byte>)
    ensures |b| == 8 && FromBytes(b) == n
  {
    Pow256Values();
    FromToBytes(n, 8);
    ToBytes(n, 8)
  }

  function I64Bytes(n: i64): (b: seq<byte>)
    ensures |b| == 8 && SignedFromBytes(b) == n
  {
    Pow256Values();
    SignedFromToBytes(n, 8);
    SignedToBytes(n, 8)
  }

  function I128Bytes(n: i128): (b: seq<byte>)
    ensures |b| == 16 && SignedFromBytes(b) == n
  {
    Pow256Values();
    SignedFromToBytes(n, 16);
    SignedToBytes(n, 16)
  }

  function I64FromBytes(b: seq<byte>): (n: i64)
    requires |b| == 8
    ensures I64Bytes(n) == b
  {
    Pow256Values();
    SignedToFromBytes(b);
    SignedFromBytes(b)
  }

  function I128FromBytes(b: seq<byte>): (n: i128)
    requires |b| == 16
    ensures I128Bytes(n) == b
  {
    Pow256Values();
    SignedToFromBytes(b);
    SignedFromBytes(b)
  }

  /** A part appended to `p` keeps its place when more bytes follow. */
  lemma SectionAt(p: seq<byte>, part: seq<byte>, d: seq<byte>)
    requires p + part <= d
    ensures |p| + |part| <= |d| && d[|p|..|p| + |part|] == part && p <= d
  {
  }

  /** Every part of a concatenation of six keeps its place. */
  lemma SixSections(a: seq<byte>, b: seq<byte>, c: seq<byte>, e: seq<byte>, f: seq<byte>, g: seq<byte>)
    ensures var d := a + b + c + e + f + g;
            var b1 := |a| + |b|;
            var c1 := b1 + |c|;
            var e1 := c1 + |e|;
            var f1 := e1 + |f|;
            && |d| == f1 + |g| && d[..|a|] == a && d[|a|..b1] == b && d[b1..c1] == c
            && d[c1..e1] == e && d[e1..f1] == f && d[f1..] == g
  {
  }

  // Concatenations of equally long parts.

  function Flatten(parts: seq<seq<byte>>): seq<byte> {
    if parts == [] then [] else parts[0] + Flatten(parts[1..])
  }

  ghost predicate AllOfWidth(parts: seq<seq<byte>>, width: nat) {
    forall i :: 0 <= i < |parts| ==> |parts[i]| == width
  }

  lemma {:induction false} FlattenLength(parts: seq<seq<byte>>, width: nat)
    requires AllOfWidth(parts, width)
    ensures |Flatten(parts)| == |parts| * width
  {
    if parts != [] {
      FlattenLength(parts[1..], width);
      assert |parts| * width == width + |parts[1..]| * width;
    }
  }

  /** Part `i` of a concatenation of equally long parts starts at byte `i * width`. */
  lemma {:induction false} FlattenAt(parts: seq<seq<byte>>, width: nat, i: nat, at: nat)
    requires AllOfWidth(parts, width) && i < |parts| && at == i * width
    ensures at + width <= |Flatten(parts)| && Flatten(parts)[at..at + width] == parts[i]
  {
    if i == 0 {
      assert 0 * width == 0;
    } else {
      var prev := (i - 1) * width;
      assert at == width + prev;
      FlattenAt(parts[1..], width, i - 1, prev);
      assert Flatten(parts)[width..] == Flatten(parts[1..]);
      assert Flatten(parts)[at..at + width] == Flatten(parts[1..])[prev..prev + width];
    }
  }

  /** The same, for a concatenation that occupies bytes `from` to `to` of `d`. */
  lemma RecordAt(d: seq<byte>, from: nat, to: nat, parts: seq<seq<byte>>, width: nat, i: nat, at: nat)
    requires from <= to <= |d| && d[from..to] == Flatten(parts)
    requires AllOfWidth(parts, width) && i < |parts| && at == i * width
    ensures from + at + width <= |d| && d[from + at..from + at + width] == parts[i]
  {
    FlattenAt(parts, width, i, at);
    SliceInside(d, from, to, at, width);
  }

  lemma SliceInside(d: seq<byte>, from: nat, to: nat, at: nat, width: nat)
    requires from <= to <= |d| && at + width <= to - from
    ensures d[from..to][at..at + width] == d[from + at..from + at + width]
  {
    SubSlice(d, from, to, at, at + width);
  }

  /** A slice of a slice. */
  lemma SubSlice(d: seq<byte>, from: nat, to: nat, i: nat, j: nat)
    requires from <= to <= |d| && i <= j <= to - from
    ensures d[from..to][i..j] == d[from + i..from + j]
  {
    var a, b := d[from..to][i..j], d[from + i..from + j];
    assert forall k :: 0 <= k < |a| ==> a[k] == b[k];
  }

  /** The two halves of a pair that occupies bytes `at` onward. */
  lemma PairAt(d: seq<byte>, at: nat, a: seq<byte>, b: seq<byte>)
    requires at + |a| + |b| <= |d| && d[at..at + |a| + |b|] == a + b
    ensures d[at..at + |a|] == a && d[at + |a|..at + |a| + |b|] == b
  {
    SubSlice(d, at, at + |a| + |b|, 0, |a|);
    SubSlice(d, at, at + |a| + |b|, |a|, |a| + |b|);
    assert (a + b)[0..|a|] == a && (a + b)[|a|..|a| + |b|] == b;
  }
}
