/** The C library's `memcmp`, which both native files call: byte-wise
    comparison of two equally long regions as unsigned values. */
module Memory {
  import opened Machine

  /** The sign of `memcmp` over two equally long buffers: bytes are compared
      as unsigned values, the first difference decides. */
  function Memcmp(a: seq<byte>, b: seq<byte>): (r: int)
    requires |a| == |b|
    ensures -1 <= r <= 1
    ensures r == 0 <==> a == b
    decreases |a|
  {
    if |a| == 0 then 0
    else if a[0] < b[0] then -1
    else if a[0] > b[0] then 1
    else
      assert a == [a[0]] + a[1..] && b == [b[0]] + b[1..];
      Memcmp(a[1..], b[1..])
  }

  /** The first index at which two equally long, different buffers differ. */
  function FirstDifference(a: seq<byte>, b: seq<byte>): (i: nat)
    requires |a| == |b| && a != b
    ensures i < |a| && a[..i] == b[..i] && a[i] != b[i]
    decreases |a|
  {
    if a[0] != b[0] then 0
    else
      assert a == [a[0]] + a[1..] && b == [b[0]] + b[1..];
      var j := FirstDifference(a[1..], b[1..]);
      assert a[..j + 1] == [a[0]] + a[1..][..j];
      assert b[..j + 1] == [b[0]] + b[1..][..j];
      j + 1
  }

  /** `memcmp`'s sign is that of the first differing byte. */
  lemma {:induction false} MemcmpFollowsFirstDifference(a: seq<byte>, b: seq<byte>)
    requires |a| == |b| && a != b
    ensures var i := FirstDifference(a, b);
            Memcmp(a, b) == (if a[i] < b[i] then -1 else 1)
    decreases |a|
  {
    if a[0] == b[0] {
      assert a == [a[0]] + a[1..] && b == [b[0]] + b[1..];
      MemcmpFollowsFirstDifference(a[1..], b[1..]);
    }
  }

  /** `memcmp` orders equally long buffers transitively. */
  lemma {:induction false} MemcmpTransitive(a: seq<byte>, b: seq<byte>, c: seq<byte>)
    requires |a| == |b| == |c|
    requires Memcmp(a, b) == -1 && Memcmp(b, c) == -1
    ensures Memcmp(a, c) == -1
    decreases |a|
  {
    if a[0] == b[0] && b[0] == c[0] {
      MemcmpTransitive(a[1..], b[1..], c[1..]);
    }
  }
}
