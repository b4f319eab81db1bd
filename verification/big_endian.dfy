/**
 The unsigned big-endian reading of a byte string, as done by Go's
 `big.Int.SetBytes`, and its inverse `big.Int.Bytes` (the minimal
 big-endian bytes of a natural number, with no leading zero byte).
 */
module BigEndian {
  import opened Bytes

  /** 256 to the power `k`. */
  function Pow256(k: nat): (p: nat)
    ensures p >= 1
    ensures k > 0 ==> p >= 256
  {
    if k == 0 then 1 else 256 * Pow256(k - 1)
  }

  /** The value of `b` read as an unsigned big-endian number: each byte
      shifts what was read before it by one byte. A value of `k` bytes is
      below 256 to the power `k`. */
  function Unsigned(b: seq<byte>): (n: nat)
    ensures n < Pow256(|b|)
  {
    if |b| == 0 then 0 else 256 * Unsigned(b[..|b| - 1]) + b[|b| - 1]
  }

  /** `k` zero bytes. */
  function Zeros(k: nat): (z: seq<byte>)
    ensures |z| == k
    ensures forall i :: 0 <= i < k ==> z[i] == 0
  {
    seq(k, i => 0)
  }

  /** Reading one more byte shifts what was read so far by one byte. */
  lemma UnsignedAppend(b: seq<byte>, x: byte)
    ensures Unsigned(b + [x]) == 256 * Unsigned(b) + x
  {
    assert (b + [x])[..|b|] == b;
  }

  /** Positional form: the first byte weighs 256 to the power of the number
      of bytes after it. */
  lemma {:induction false} UnsignedPrepend(x: byte, b: seq<byte>)
    ensures Unsigned([x] + b) == x * Pow256(|b|) + Unsigned(b)
    decreases |b|
  {
    if |b| == 0 {
      assert [x] + b == [] + [x];
      UnsignedAppend([], x);
    } else {
      var c, y := b[..|b| - 1], b[|b| - 1];
      assert b == c + [y];
      assert [x] + b == ([x] + c) + [y];
      UnsignedAppend([x] + c, y);
      UnsignedAppend(c, y);
      UnsignedPrepend(x, c);
      assert Pow256(|b|) == 256 * Pow256(|c|);
      ShiftWeight(x, Pow256(|c|));
    }
  }

  lemma ShiftWeight(x: nat, p: nat)
    ensures x * (256 * p) == 256 * (x * p)
  {
  }

  lemma MulMonotone(x: nat, y: nat, p: nat)
    requires x <= y
    ensures x * p <= y * p
  {
  }

  /** A value whose first byte is not zero is at least that byte's weight, so
      in particular it is not zero. */
  lemma UnsignedLowerBound(b: seq<byte>)
    requires |b| > 0 && b[0] != 0
    ensures Unsigned(b) >= Pow256(|b| - 1)
    ensures Unsigned(b) > 0
  {
    assert b == [b[0]] + b[1..];
    UnsignedPrepend(b[0], b[1..]);
    MulMonotone(1, b[0], Pow256(|b| - 1));
  }

  /** Leading zero bytes do not change the value. */
  lemma {:induction false} UnsignedLeadingZeros(k: nat, b: seq<byte>)
    ensures Unsigned(Zeros(k) + b) == Unsigned(b)
    decreases k
  {
    if k > 0 {
      var c := Zeros(k) + b;
      assert c == [0] + (Zeros(k - 1) + b);
      UnsignedPrepend(0, Zeros(k - 1) + b);
      UnsignedLeadingZeros(k - 1, b);
    } else {
      assert Zeros(k) + b == b;
    }
  }

  /** `big.Int.Bytes`: the big-endian bytes of `n` with no leading zero byte
      (the empty sequence for zero). */
  function MinimalBytes(n: nat): (b: seq<byte>)
    ensures |b| == 0 <==> n == 0
    ensures |b| > 0 ==> b[0] != 0
    decreases n
  {
    if n == 0 then [] else MinimalBytes(n / 256) + [n % 256]
  }

  /** Reading the minimal bytes of `n` gives `n`. */
  lemma {:induction false} UnsignedMinimalBytes(n: nat)
    ensures Unsigned(MinimalBytes(n)) == n
    decreases n
  {
    if n > 0 {
      UnsignedMinimalBytes(n / 256);
      UnsignedAppend(MinimalBytes(n / 256), n % 256);
    }
  }

  /** The other direction: bytes with no leading zero are the minimal bytes
      of their value, so the minimal encoding of a number is unique. */
  lemma {:induction false} MinimalBytesUnsigned(b: seq<byte>)
    requires |b| == 0 || b[0] != 0
    ensures MinimalBytes(Unsigned(b)) == b
    decreases |b|
  {
    if |b| > 0 {
      var c, x := b[..|b| - 1], b[|b| - 1];
      assert b == c + [x];
      UnsignedAppend(c, x);
      UnsignedLowerBound(b);
      var n := Unsigned(b);
      assert n / 256 == Unsigned(c) && n % 256 == x;
      MinimalBytesUnsigned(c);
    }
  }

  /** Every byte string is its value's minimal bytes behind some zero bytes. */
  lemma {:induction false} SplitLeadingZeros(b: seq<byte>)
    ensures exists k :: 0 <= k <= |b| && b == Zeros(k) + MinimalBytes(Unsigned(b))
    decreases |b|
  {
    if |b| == 0 {
      assert b == Zeros(0) + MinimalBytes(Unsigned(b));
    } else if b[0] != 0 {
      MinimalBytesUnsigned(b);
      assert b == Zeros(0) + MinimalBytes(Unsigned(b));
    } else {
      SplitLeadingZeros(b[1..]);
      var k :| 0 <= k <= |b[1..]| && b[1..] == Zeros(k) + MinimalBytes(Unsigned(b[1..]));
      assert b == [0] + b[1..];
      UnsignedPrepend(0, b[1..]);
      assert Unsigned(b) == Unsigned(b[1..]);
      assert Zeros(k + 1) == [0] + Zeros(k);
      assert b == Zeros(k + 1) + MinimalBytes(Unsigned(b));
    }
  }

  /** `new(big.Int).SetBytes(b)`: reads the bytes one at a time, most
      significant first. */
  method SetBytes(b: seq<byte>) returns (v: nat)
    ensures v == Unsigned(b)
  {
    v := 0;
    var i := 0;
    while i < |b|
      invariant 0 <= i <= |b|
      invariant v == Unsigned(b[..i])
    {
      assert b[..i + 1] == b[..i] + [b[i]];
      UnsignedAppend(b[..i], b[i]);
      v := 256 * v + b[i];
      i := i + 1;
    }
    assert b[..i] == b;
  }
}
