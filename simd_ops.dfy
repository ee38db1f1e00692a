/** The buffer operations of native/simd-ops.cc (`SimdOps`), after argument
    checking: the byte sum, the first-occurrence search and the byte-wise AND.
    Which vector loop runs is fixed when the file is compiled (AVX2 on x86
    with AVX2 enabled, NEON on ARM64, none elsewhere), so the platform is a
    parameter or each build's loop is its own method. */
module SimdOps {
  import opened Machine
  import opened Memory

  datatype Platform = Portable | Neon | Avx2

  /** Bytes handled per iteration of the vector loop of `AndBuffers`. */
  function VectorWidth(p: Platform): nat
  {
    match p
    case Portable => 0
    case Neon => 16
    case Avx2 => 32
  }

  // ---------------------------------------------------------------------------
  // SumUint8

  /** The sum of all bytes, as unsigned values. */
  function Sum(s: seq<byte>): nat
  {
    if s == [] then 0 else Sum(s[..|s| - 1]) + s[|s| - 1] as nat
  }

  lemma {:induction false} SumAppend(a: seq<byte>, b: seq<byte>)
    ensures Sum(a + b) == Sum(a) + Sum(b)
    decreases |b|
  {
    if b == [] {
      assert a + b == a;
    } else {
      assert (a + b)[..|a + b| - 1] == a + b[..|b| - 1];
      SumAppend(a, b[..|b| - 1]);
    }
  }

  lemma SumSplit(s: seq<byte>, k: nat)
    requires k <= |s|
    ensures Sum(s) == Sum(s[..k]) + Sum(s[k..])
  {
    SumAppend(s[..k], s[k..]);
    assert s[..k] + s[k..] == s;
  }

  lemma {:induction false} SumBound(s: seq<byte>)
    ensures Sum(s) <= 255 * |s|
  {
    if s != [] {
      SumBound(s[..|s| - 1]);
    }
  }

  lemma {:induction false} SumOfConstant(s: seq<byte>, c: byte)
    requires forall i :: 0 <= i < |s| ==> s[i] == c
    ensures Sum(s) == |s| * c as nat
  {
    if s != [] {
      var n := |s| - 1;
      SumOfConstant(s[..n], c);
      var cv := c as nat;
      assert Sum(s) == n * cv + cv;
      assert n * cv + cv == (n + 1) * cv;
    }
  }

  /** `vpaddlq_u16(vpaddlq_u8(v))`, lane by lane: the four bytes from `p` on,
      added pairwise and then the pairs added. */
  function Quad(data: seq<byte>, p: nat): nat
    requires p + 4 <= |data|
  {
    (data[p] as nat + data[p + 1] as nat) + (data[p + 2] as nat + data[p + 3] as nat)
  }

  lemma QuadIsSum(data: seq<byte>, p: nat)
    requires p + 4 <= |data|
    ensures Sum(data[..p + 4]) == Sum(data[..p]) + Quad(data, p)
  {
    SumStep(data, p);
    SumStep(data, p + 1);
    SumStep(data, p + 2);
    SumStep(data, p + 3);
  }

  lemma ChunkIsSum(data: seq<byte>, i: nat)
    requires i + 16 <= |data|
    ensures Sum(data[..i + 16]) == Sum(data[..i]) + Quad(data, i) + Quad(data, i + 4) + Quad(data, i + 8) + Quad(data, i + 12)
  {
    QuadIsSum(data, i);
    QuadIsSum(data, i + 4);
    QuadIsSum(data, i + 8);
    QuadIsSum(data, i + 12);
  }

  lemma SumStep(data: seq<byte>, i: nat)
    requires i < |data|
    ensures Sum(data[..i + 1]) == Sum(data[..i]) + data[i] as nat
  {
    assert data[..i + 1][..i] == data[..i];
  }

  /** Adding a reduced value and reducing again is reducing the plain sum. */
  lemma ModAbsorb(x: nat, y: nat)
    ensures (x % U32_MODULUS + y) % U32_MODULUS == (x + y) % U32_MODULUS
  {
    var q := x / U32_MODULUS;
    assert x == q * U32_MODULUS + x % U32_MODULUS;
    assert x + y == q * U32_MODULUS + (x % U32_MODULUS + y);
  }

  /** One block: each lane adds its four bytes modulo 2^32, which keeps the
      lanes' total congruent to the bytes summed so far. */
  lemma LanesStep(l0: nat, l1: nat, l2: nat, l3: nat, q0: nat, q1: nat, q2: nat, q3: nat, before: nat)
    requires (l0 + l1 + l2 + l3) % U32_MODULUS == before % U32_MODULUS
    ensures ((l0 + q0) % U32_MODULUS + (l1 + q1) % U32_MODULUS + (l2 + q2) % U32_MODULUS + (l3 + q3) % U32_MODULUS) % U32_MODULUS
            == (before + q0 + q1 + q2 + q3) % U32_MODULUS
  {
    var m0, m1, m2, m3 := (l0 + q0) % U32_MODULUS, (l1 + q1) % U32_MODULUS, (l2 + q2) % U32_MODULUS, (l3 + q3) % U32_MODULUS;
    ModAbsorb(l0 + q0, m1 + m2 + m3);
    ModAbsorb(l1 + q1, l0 + q0 + m2 + m3);
    ModAbsorb(l2 + q2, l0 + q0 + l1 + q1 + m3);
    ModAbsorb(l3 + q3, l0 + q0 + l1 + q1 + l2 + q2);
    ModAbsorb(l0 + l1 + l2 + l3, q0 + q1 + q2 + q3);
    ModAbsorb(before, q0 + q1 + q2 + q3);
  }

  /** `sums[0] + sums[1] + sums[2] + sums[3]` in 32-bit arithmetic. */
  lemma LanesTotal(l0: nat, l1: nat, l2: nat, l3: nat)
    ensures (((l0 + l1) % U32_MODULUS + l2) % U32_MODULUS + l3) % U32_MODULUS == (l0 + l1 + l2 + l3) % U32_MODULUS
  {
    ModAbsorb(l0 + l1, l2);
    ModAbsorb((l0 + l1) % U32_MODULUS + l2, l3);
    ModAbsorb(l0 + l1 + l2, l3);
  }

  /** Where a loop over whole blocks of `width` bytes stops. */
  lemma BlocksEnd(i: nat, n: nat, width: nat)
    requires (width == 16 || width == 32) && i % width == 0 && i <= n < i + width
    ensures i == n - n % width
  {
    if width == 16 {
      assert n % 16 == n - i;
    } else {
      assert n % 32 == n - i;
    }
  }

  /** The scalar loop every build ends with: adds the bytes from `from` on
      to the running total. */
  method AddRemaining(data: seq<byte>, from: nat, total: nat) returns (sum: nat)
    requires from <= |data|
    ensures sum == total + Sum(data[from..])
  {
    sum := total;
    var i := from;
    while i < |data|
      invariant from <= i <= |data|
      invariant sum == total + Sum(data[from..i])
    {
      assert data[from..i + 1][..i - from] == data[from..i];
      sum := sum + data[i] as nat;
      i := i + 1;
    }
    assert data[from..i] == data[from..];
  }

  /** The build without vector instructions: the scalar loop over every byte. */
  method SumUint8Portable(data: seq<byte>) returns (sum: nat)
    ensures sum == Sum(data)
  {
    sum := AddRemaining(data, 0, 0);
    assert data[0..] == data;
  }

  /** The sum as the ARM64 build computes it: the 16-byte blocks are summed
      only modulo 2^32, the bytes after the last full block exactly. */
  function NeonSum(data: seq<byte>): nat
  {
    var k := |data| - |data| % 16;
    Sum(data[..k]) % U32_MODULUS + Sum(data[k..])
  }

  /** The ARM64 build as written: four 32-bit lanes accumulate the blocks
      (each lane wrapping at 2^32), the lanes are added in 32-bit arithmetic
      before widening, then a scalar loop adds the remaining bytes. */
  method SumUint8Neon(data: seq<byte>) returns (sum: nat)
    ensures sum == NeonSum(data)
  {
    sum := 0;
    var i := 0;
    var lane0: nat, lane1: nat, lane2: nat, lane3: nat := 0, 0, 0, 0;
    while i + 16 <= |data|
      invariant i <= |data| && i % 16 == 0
      invariant lane0 < U32_MODULUS && lane1 < U32_MODULUS && lane2 < U32_MODULUS && lane3 < U32_MODULUS
      invariant (lane0 + lane1 + lane2 + lane3) % U32_MODULUS == Sum(data[..i]) % U32_MODULUS
    {
      var q0, q1, q2, q3 := Quad(data, i), Quad(data, i + 4), Quad(data, i + 8), Quad(data, i + 12);
      ChunkIsSum(data, i);
      LanesStep(lane0, lane1, lane2, lane3, q0, q1, q2, q3, Sum(data[..i]));
      lane0 := (lane0 + q0) % U32_MODULUS;
      lane1 := (lane1 + q1) % U32_MODULUS;
      lane2 := (lane2 + q2) % U32_MODULUS;
      lane3 := (lane3 + q3) % U32_MODULUS;
      i := i + 16;
    }
    BlocksEnd(i, |data|, 16);
    LanesTotal(lane0, lane1, lane2, lane3);
    sum := sum + (((lane0 + lane1) % U32_MODULUS + lane2) % U32_MODULUS + lane3) % U32_MODULUS;
    sum := AddRemaining(data, i, sum);
  }

  /** Below 16843010 bytes (where 255 per byte cannot reach 2^32) the ARM64
      build returns the true sum. */
  lemma NeonSumExactBelowWrap(data: seq<byte>)
    requires |data| < 16843010
    ensures NeonSum(data) == Sum(data)
  {
    var k := |data| - |data| % 16;
    var head := data[..k];
    SumBelowModulus(head);
    var blocks := Sum(head);
    assert blocks % U32_MODULUS == blocks by {
      ModOfSmall(blocks);
    }
    SumSplit(data, k);
  }

  lemma ModOfSmall(x: nat)
    requires x < U32_MODULUS
    ensures x % U32_MODULUS == x
  {
  }

  lemma SumBelowModulus(s: seq<byte>)
    requires |s| < 16843010
    ensures Sum(s) < U32_MODULUS
  {
    SumBound(s);
  }

  /** A buffer of 16843024 bytes of 0xFF sums to 4294971120, but the ARM64
      build returns 3824. */
  lemma NeonSumWrapsExample()
    ensures var data := seq(16843024, _ => 0xFF as byte);
            Sum(data) == 4294971120 && NeonSum(data) == 3824
  {
    var data := seq(16843024, _ => 0xFF as byte);
    SumOfConstant(data, 0xFF);
    assert data[..16843024] == data;
    assert data[16843024..] == [];
  }

  /** The sum as the x86 AVX2 build computes it: the loop over 32-byte blocks
      loads each block and adds nothing, so only the bytes after the last full
      block are summed. */
  function Avx2Sum(data: seq<byte>): nat
  {
    Sum(data[|data| - |data| % 32..])
  }

  /** The x86 AVX2 build as written. */
  method SumUint8Avx2(data: seq<byte>) returns (sum: nat)
    ensures sum == Avx2Sum(data)
  {
    sum := 0;
    var i := 0;
    while i + 32 <= |data|
      invariant i <= |data| && i % 32 == 0
    {
      i := i + 32;
    }
    BlocksEnd(i, |data|, 32);
    sum := AddRemaining(data, i, sum);
  }

  /** 32 bytes of value 1 sum to 32, but the AVX2 build returns 0. */
  lemma Avx2SumSkipsExample()
    ensures var data := seq(32, _ => 1 as byte);
            Sum(data) == 32 && Avx2Sum(data) == 0
  {
    var data := seq(32, _ => 1 as byte);
    SumOfConstant(data, 1);
    assert data[32..] == [];
  }

  /** `sumUint8` with the vector loop doing what it evidently should: each
      16-byte block is reduced with widening adds and added to the 64-bit
      total, then the remaining bytes are added one by one. */
  method SumUint8(data: seq<byte>) returns (sum: nat)
    ensures sum == Sum(data)
  {
    sum := 0;
    var i := 0;
    while i + 16 <= |data|
      invariant i <= |data|
      invariant sum == Sum(data[..i])
    {
      ChunkIsSum(data, i);
      sum := sum + (Quad(data, i) + Quad(data, i + 4)) + (Quad(data, i + 8) + Quad(data, i + 12));
      i := i + 16;
    }
    sum := AddRemaining(data, i, sum);
    SumSplit(data, i);
  }

  // ---------------------------------------------------------------------------
  // FindPattern

  /** `needle` occurs in `haystack` starting at `i`. */
  predicate MatchesAt(haystack: seq<byte>, needle: seq<byte>, i: nat)
  {
    i + |needle| <= |haystack| && haystack[i..i + |needle|] == needle
  }

  /** `findPattern(haystack, needle)`: the first position at which the needle
      occurs, or -1 if it occurs nowhere (in particular when it is longer than
      the haystack). An empty needle is found at 0. */
  method FindPattern(haystack: seq<byte>, needle: seq<byte>) returns (r: int)
    ensures -1 <= r
    ensures r >= 0 ==> MatchesAt(haystack, needle, r)
    ensures r >= 0 ==> forall i: nat :: i < r ==> !MatchesAt(haystack, needle, i)
    ensures r == -1 <==> forall i: nat :: !MatchesAt(haystack, needle, i)
    ensures |needle| > |haystack| ==> r == -1
    ensures |needle| == 0 ==> r == 0
  {
    if |needle| > |haystack| {
      return -1;
    }
    var i := 0;
    while i <= |haystack| - |needle|
      invariant 0 <= i <= |haystack| - |needle| + 1
      invariant forall j: nat :: j < i ==> !MatchesAt(haystack, needle, j)
    {
      if Memcmp(haystack[i..i + |needle|], needle) == 0 {
        assert MatchesAt(haystack, needle, i);
        assert |needle| == 0 ==> MatchesAt(haystack, needle, 0);
        return i;
      }
      i := i + 1;
    }
    assert |needle| == 0 ==> MatchesAt(haystack, needle, 0);
    return -1;
  }

  // ---------------------------------------------------------------------------
  // AndBuffers

  /** `andBuffers(buf1, buf2)`: a new buffer as long as the shorter input,
      holding the byte-wise AND; the vector loop covers whole blocks and the
      scalar loop the rest. */
  method AndBuffers(a: seq<byte>, b: seq<byte>, platform: Platform) returns (r: array<byte>)
    ensures fresh(r)
    ensures r.Length == Min(|a|, |b|)
    ensures forall i :: 0 <= i < r.Length ==> r[i] == a[i] & b[i]
  {
    var len := Min(|a|, |b|);
    r := new byte[len];
    var i := 0;
    var width := VectorWidth(platform);
    if width > 0 {
      while i + width <= len
        invariant i <= len
        invariant forall j :: 0 <= j < i ==> r[j] == a[j] & b[j]
      {
        forall j | i <= j < i + width {
          r[j] := a[j] & b[j];
        }
        i := i + width;
      }
    }
    while i < len
      invariant i <= len
      invariant forall j :: 0 <= j < i ==> r[j] == a[j] & b[j]
    {
      r[i] := a[i] & b[i];
      i := i + 1;
    }
  }
}
