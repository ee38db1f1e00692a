/** The byte-buffer operations of native/buffer-ops.cc (`BufferOps`), after
    their arguments have been checked: a range-checked copying slice, a
    length-first comparison, a prefix copy into a target buffer, and
    allocation. */
module BufferOps {
  import opened Wrappers
  import opened Machine
  import opened Memory

  /** The `RangeError` that `slice` throws. */
  datatype SliceError = InvalidSliceRange

  /** `slice(buffer, start, end)`: a fresh copy of `buffer[start..end]`, or a
      range error when either bound lies past the end or they are reversed. */
  function Slice(buffer: seq<byte>, start: nat, end: nat): (r: Result<seq<byte>, SliceError>)
    ensures r.Err? <==> start > |buffer| || end > |buffer| || start > end
    ensures r.Ok? ==> |r.value| == end - start
    ensures r.Ok? ==> forall i :: 0 <= i < |r.value| ==> r.value[i] == buffer[start + i]
  {
    if start > |buffer| || end > |buffer| || start > end then Err(InvalidSliceRange)
    else Ok(buffer[start..end])
  }

  /** `compare(buf1, buf2)`: a shorter buffer is less and a longer one greater
      whatever their contents; equally long buffers compare by `memcmp`. (C
      leaves the magnitude of `memcmp`'s result unspecified; this is its sign.) */
  function Compare(a: seq<byte>, b: seq<byte>): (r: int)
    ensures -1 <= r <= 1
    ensures |a| < |b| ==> r == -1
    ensures |a| > |b| ==> r == 1
    ensures |a| == |b| ==> (r == 0 <==> a == b)
  {
    if |a| != |b| then (if |a| < |b| then -1 else 1)
    else Memcmp(a, b)
  }

  /** Swapping the operands negates the comparison. */
  lemma {:induction false} CompareAntisymmetric(a: seq<byte>, b: seq<byte>)
    ensures Compare(b, a) == -Compare(a, b)
  {
    if |a| == |b| && a != b {
      MemcmpFollowsFirstDifference(a, b);
      MemcmpFollowsFirstDifference(b, a);
      assert FirstDifference(a, b) == FirstDifference(b, a);
    }
  }

  /** `compare` orders buffers transitively: by length first, then by content. */
  lemma CompareTransitive(a: seq<byte>, b: seq<byte>, c: seq<byte>)
    requires Compare(a, b) == -1 && Compare(b, c) == -1
    ensures Compare(a, c) == -1
  {
    if |a| == |b| == |c| {
      MemcmpTransitive(a, b, c);
    }
  }

  /** The target after `bulkCopy(source, target)`: its first
      `min(|source|, |target|)` bytes come from the source, the rest stay. */
  function CopiedPrefix(source: seq<byte>, target: seq<byte>): (r: seq<byte>)
    ensures |r| == |target|
    ensures forall i :: 0 <= i < |r| ==> r[i] == (if i < |source| then source[i] else target[i])
  {
    var n := Min(|source|, |target|);
    source[..n] + target[n..]
  }

  /** `bulkCopy(source, target)`: `memcpy` of the common length into the
      target, in place; returns the number of bytes copied. */
  method BulkCopy(source: array<byte>, target: array<byte>) returns (n: nat)
    modifies target
    ensures n == Min(source.Length, target.Length)
    ensures target[..] == CopiedPrefix(old(source[..]), old(target[..]))
    ensures source[..] == old(source[..])
  {
    n := Min(source.Length, target.Length);
    var i := 0;
    while i < n
      invariant 0 <= i <= n
      invariant forall j :: 0 <= j < i ==> target[j] == old(source[j])
      invariant forall j :: i <= j < target.Length ==> target[j] == old(target[j])
      invariant source[..] == old(source[..])
    {
      target[i] := source[i];
      i := i + 1;
    }
  }

  /** `allocate(size)`: a new buffer of `size` bytes whose contents are left
      unspecified. */
  method Allocate(size: nat) returns (buffer: array<byte>)
    ensures fresh(buffer)
    ensures buffer.Length == size
  {
    buffer := new byte[size];
  }
}
