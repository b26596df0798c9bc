/** The timing-safe byte comparison behind `compare`: both buffers are walked
    to the end, folding the XOR of each byte pair into one accumulator with OR,
    so the loop never leaves early on the first difference. */
module TssCompare {
  import opened Results

  /** The accumulator after folding the first `n` byte pairs. */
  function DiffPrefix(a: seq<bv8>, b: seq<bv8>, n: nat): bv8
    requires n <= |a| == |b|
  {
    if n == 0 then 0 else DiffPrefix(a, b, n - 1) | (a[n - 1] ^ b[n - 1])
  }

  lemma XorZeroIffEqual(x: bv8, y: bv8)
    ensures (x ^ y) == 0 <==> x == y
  {
  }

  lemma OrZeroIffBothZero(p: bv8, q: bv8)
    ensures (p | q) == 0 <==> p == 0 && q == 0
  {
  }

  /** The fold over a prefix is zero exactly when that prefix of the two
      buffers is identical. */
  lemma {:induction false} DiffPrefixZeroIffEqual(a: seq<bv8>, b: seq<bv8>, n: nat)
    requires n <= |a| == |b|
    ensures DiffPrefix(a, b, n) == 0 <==> a[..n] == b[..n]
  {
    if n > 0 {
      DiffPrefixZeroIffEqual(a, b, n - 1);
      OrZeroIffBothZero(DiffPrefix(a, b, n - 1), a[n - 1] ^ b[n - 1]);
      XorZeroIffEqual(a[n - 1], b[n - 1]);
      assert a[..n] == a[..n - 1] + [a[n - 1]];
      assert b[..n] == b[..n - 1] + [b[n - 1]];
      if a[..n] == b[..n] {
        assert a[..n - 1] == a[..n][..n - 1];
        assert b[..n - 1] == b[..n][..n - 1];
      }
    }
  }

  /** `compareArrayBuffer`: fails when the byte lengths differ, otherwise
      reports whether every byte pair is equal. The accumulator it returns
      on is the fold over every index, so no byte is skipped. */
  method CompareArrayBuffer(a: seq<bv8>, b: seq<bv8>) returns (r: Result<bool>)
    ensures |a| != |b| <==> r == Err("ArrayBuffer lengths must match.")
    ensures |a| == |b| ==> r == Ok(a == b)
    ensures |a| == |b| ==> r == Ok(DiffPrefix(a, b, |a|) == 0)
  {
    if |a| != |b| {
      return Err("ArrayBuffer lengths must match.");
    }
    var out: bv8 := 0;
    var i := 0;
    while i < |a|
      invariant 0 <= i <= |a|
      invariant out == DiffPrefix(a, b, i)
      invariant out == 0 <==> a[..i] == b[..i]
    {
      DiffPrefixZeroIffEqual(a, b, i + 1);
      out := out | (a[i] ^ b[i]);
      i := i + 1;
    }
    assert a[..i] == a && b[..i] == b;
    return Ok(out == 0);
  }

  /** Comparing a buffer with itself always succeeds with `true`. */
  method CompareSelf(a: seq<bv8>) returns (r: Result<bool>)
    ensures r == Ok(true)
  {
    r := CompareArrayBuffer(a, a);
  }
}
