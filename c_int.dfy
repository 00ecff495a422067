/** Fixed-width C integer conversions used by the firmware (two's complement
    truncation on assignment, unsigned wrap-around, truncating division). */
module CInt {
  const TWO_15: int := 0x8000
  const TWO_16: int := 0x1_0000
  const TWO_31: int := 0x8000_0000
  const TWO_32: int := 0x1_0000_0000
  const TWO_64: int := 0x1_0000_0000_0000_0000

  predicate IsInt16(v: int) { -TWO_15 <= v < TWO_15 }
  predicate IsUInt16(v: int) { 0 <= v < TWO_16 }
  predicate IsUInt32(v: int) { 0 <= v < TWO_32 }
  predicate IsUInt64(v: int) { 0 <= v < TWO_64 }

  /** Storing an int into an int16_t: keeps the value modulo 2^16, in [-2^15, 2^15). */
  function ToInt16(v: int): (r: int)
    ensures IsInt16(r)
    ensures (v - r) % TWO_16 == 0
    ensures IsInt16(v) ==> r == v
  {
    (v + TWO_15) % TWO_16 - TWO_15
  }

  /** Storing an int into a uint16_t. */
  function ToUInt16(v: int): (r: int)
    ensures IsUInt16(r)
    ensures (v - r) % TWO_16 == 0
    ensures IsUInt16(v) ==> r == v
  {
    v % TWO_16
  }

  /** Converting an int to a 32-bit unsigned (size_t, uint32_t on the target). */
  function ToUInt32(v: int): (r: int)
    ensures IsUInt32(r)
    ensures (v - r) % TWO_32 == 0
    ensures IsUInt32(v) ==> r == v
  {
    v % TWO_32
  }

  /** Difference of two uint64_t values, as unsigned subtraction computes it. */
  function Elapsed(now: int, since: int): (r: int)
    requires IsUInt64(now) && IsUInt64(since)
    ensures IsUInt64(r)
    ensures since <= now ==> r == now - since
    ensures now < since ==> r == now - since + TWO_64
  {
    (now - since) % TWO_64
  }

  function Abs(v: int): nat { if v < 0 then -v else v }

  /** C's `/`: the quotient is truncated toward zero. */
  function CDiv(a: int, b: int): (q: int)
    requires b != 0
    ensures Abs(a - q * b) < Abs(b)
    ensures a >= 0 ==> a - q * b >= 0
    ensures a < 0 ==> a - q * b <= 0
  {
    if a >= 0 && b > 0 then
      a / b
    else if a >= 0 then
      assert a - -(a / -b) * b == a % -b;
      -(a / -b)
    else if b > 0 then
      assert a - -(-a / b) * b == -(-a % b);
      -(-a / b)
    else
      assert a - (-a / -b) * b == -(-a % -b);
      -a / -b
  }

  /** Dividing an exact multiple gives back the factor. */
  lemma CDivExact(k: int, b: int)
    requires b != 0
    ensures CDiv(k * b, b) == k
  {
    var q := CDiv(k * b, b);
    assert k * b - q * b == (k - q) * b;
    if k != q {
      MulAbsAtLeast(k - q, b);
    }
  }

  lemma MulAbsAtLeast(m: int, b: int)
    requires m != 0
    ensures Abs(m * b) >= Abs(b)
  {
    var n := Abs(m);
    assert n * b == (n - 1) * b + b;
    assert (n - 1) * Abs(b) >= 0;
    assert Abs(n * b) == n * Abs(b);
    assert m * b == n * b || m * b == -(n * b);
  }

  /** Quotient and remainder are unique: a = q * n + r with 0 <= r < n
      fixes both. */
  lemma DivModUnique(a: int, n: int, q: int, r: int)
    requires n > 0 && 0 <= r < n && a == q * n + r
    ensures a / n == q && a % n == r
  {
    var q0 := a / n;
    var r0 := a % n;
    assert a == q0 * n + r0;
    assert (q - q0) * n == r0 - r;
    if q > q0 {
      MulAtLeast(q - q0, n);
    } else if q < q0 {
      MulAtLeast(q0 - q, n);
    }
  }

  lemma {:induction false} MulAtLeast(k: int, n: int)
    requires k >= 1 && n > 0
    ensures k * n >= n
    decreases k
  {
    if k > 1 {
      MulAtLeast(k - 1, n);
      assert k * n == (k - 1) * n + n;
    }
  }
}
