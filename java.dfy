/** The parts of Java's semantics that the byte-queue classes rely on: the primitive
    integer types, the exceptions the code throws, the truncating remainder operator,
    two's-complement narrowing and System.arraycopy. */
module Java {

  /** Java's signed primitive integer types. */
  newtype Int8 = x: int | -0x80 <= x < 0x80
  newtype Int16 = x: int | -0x8000 <= x < 0x8000
  newtype Int32 = x: int | -0x8000_0000 <= x < 0x8000_0000
  newtype Int64 = x: int | -0x8000_0000_0000_0000 <= x < 0x8000_0000_0000_0000

  /** The exceptions the modelled code throws, explicitly or through the runtime. */
  datatype Exception =
    | IllegalArgument    // IllegalArgumentException
    | IndexOutOfBounds   // ArrayIndexOutOfBoundsException and the IndexOutOfBoundsException of arraycopy
    | Arithmetic         // ArithmeticException: an integer remainder by zero
    | NegativeArraySize  // NegativeArraySizeException: `new byte[n]` with n < 0

  /** A call that either returns normally with a value or throws. */
  datatype Result<+T> = Ok(value: T) | Throw(exception: Exception)

  /** Math.min on ints. */
  function Min(a: int, b: int): (r: int)
    ensures r <= a && r <= b
    ensures r == a || r == b
  {
    if a <= b then a else b
  }

  function Abs(a: int): (r: int)
    ensures r >= 0
  {
    if a < 0 then -a else a
  }

  /** Java's remainder `a % m` (section 15.17.3 of the Java Language Specification): it
      completes the truncating division and takes the sign of the dividend, unlike
      Dafny's Euclidean `%`. */
  function Rem(a: int, m: int): (r: int)
    requires m != 0
    ensures 0 <= a ==> 0 <= r < Abs(m)
    ensures a <= 0 ==> -Abs(m) < r <= 0
    ensures 0 <= a && 0 < m ==> r == a % m
  {
    if a >= 0 then a % Abs(m) else -((-a) % Abs(m))
  }

  /** The int that a Java int operation yields when its exact result is `x`: the low 32
      bits, read as two's complement. */
  function Wrap32(x: int): (r: Int32)
    ensures (x - r as int) % 0x1_0000_0000 == 0
    ensures -0x8000_0000 <= x < 0x8000_0000 ==> r as int == x
  {
    var y := x % 0x1_0000_0000;
    (if y < 0x8000_0000 then y else y - 0x1_0000_0000) as Int32
  }

  /** The narrowing cast `(byte) x`: the low 8 bits, read as two's complement. */
  function ToInt8(x: int): (r: Int8)
    ensures (x - r as int) % 0x100 == 0
    ensures -0x80 <= x < 0x80 ==> r as int == x
  {
    var y := x % 0x100;
    (if y < 0x80 then y else y - 0x100) as Int8
  }

  /** `b & 0xFF`: the byte read as an unsigned value. */
  function Unsigned(b: Int8): (r: nat)
    ensures r < 0x100
    ensures (r - b as int) % 0x100 == 0
  {
    if b < 0 then b as int + 0x100 else b as int
  }

  /** Whether System.arraycopy(src, srcPos, dst, dstPos, length) stays inside both arrays;
      when it does not, the call throws before it writes anything. */
  predicate CopyInBounds(srcLength: int, srcPos: int, dstLength: int, dstPos: int, length: int)
  {
    0 <= srcPos && 0 <= dstPos && 0 <= length && srcPos + length <= srcLength && dstPos + length <= dstLength
  }

  /** The contents of `dst` after System.arraycopy(src, srcPos, dst, dstPos, length):
      dst[dstPos .. dstPos + length) receives src[srcPos .. srcPos + length) and every
      other element keeps its value. Because both sides are values, a copy within one
      array behaves as if through a temporary, as the Java API promises. */
  function Copy(src: seq<Int8>, srcPos: int, dst: seq<Int8>, dstPos: int, length: int): (r: Result<seq<Int8>>)
    ensures r.Ok? <==> CopyInBounds(|src|, srcPos, |dst|, dstPos, length)
    ensures r.Throw? ==> r.exception == IndexOutOfBounds
    ensures r.Ok? ==> |r.value| == |dst|
  {
    if CopyInBounds(|src|, srcPos, |dst|, dstPos, length) then
      Ok(dst[..dstPos] + src[srcPos..srcPos + length] + dst[dstPos + length..])
    else
      Throw(IndexOutOfBounds)
  }

  /** Element by element, a copy that stays in bounds gives dst[dstPos .. dstPos + length)
      the values of src[srcPos .. srcPos + length) and leaves every other element alone. */
  lemma CopyWrites(src: seq<Int8>, srcPos: int, dst: seq<Int8>, dstPos: int, length: int)
    requires CopyInBounds(|src|, srcPos, |dst|, dstPos, length)
    ensures forall i :: 0 <= i < |dst| ==>
      Copy(src, srcPos, dst, dstPos, length).value[i] ==
        if dstPos <= i < dstPos + length then src[srcPos + (i - dstPos)] else dst[i]
  {
  }

  /** A copy of no elements at positions inside both arrays changes nothing. */
  lemma CopyNothing(src: seq<Int8>, srcPos: int, dst: seq<Int8>, dstPos: int)
    requires 0 <= srcPos <= |src| && 0 <= dstPos <= |dst|
    ensures Copy(src, srcPos, dst, dstPos, 0) == Ok(dst)
  {
    assert dst[..dstPos] + src[srcPos..srcPos] + dst[dstPos..] == dst;
  }

  /** System.arraycopy on arrays. `src` and `dst` may be the same array. */
  method ArrayCopy(src: array<Int8>, srcPos: int, dst: array<Int8>, dstPos: int, length: int) returns (r: Result<()>)
    modifies dst
    ensures r.Ok? == Copy(old(src[..]), srcPos, old(dst[..]), dstPos, length).Ok?
    ensures r.Ok? ==> dst[..] == Copy(old(src[..]), srcPos, old(dst[..]), dstPos, length).value
    ensures r.Throw? ==> r.exception == IndexOutOfBounds && dst[..] == old(dst[..])
  {
    if !CopyInBounds(src.Length, srcPos, dst.Length, dstPos, length) {
      return Throw(IndexOutOfBounds);
    }
    ghost var before := dst[..];
    ghost var expected := Copy(src[..], srcPos, before, dstPos, length).value;
    CopyWrites(src[..], srcPos, before, dstPos, length);
    var chunk := src[srcPos..srcPos + length];
    assert forall i :: 0 <= i < |before| ==>
      expected[i] == if dstPos <= i < dstPos + length then chunk[i - dstPos] else before[i];
    forall k | 0 <= k < length {
      dst[dstPos + k] := chunk[k];
    }
    assert forall i :: 0 <= i < dst.Length ==> dst[i] == expected[i];
    assert dst[..] == expected;
    r := Ok(());
  }
}

/** Facts about Euclidean division and remainder used by the index arithmetic proofs. */
module Arith {

  lemma MulSign(k: int, m: int)
    requires m > 0
    ensures k >= 1 ==> k * m >= m
    ensures k <= -1 ==> k * m <= -m
  {
    if k >= 1 {
      assert k * m == (k - 1) * m + m;
    } else if k <= -1 {
      assert k * m == (k + 1) * m - m;
    }
  }

  /** Division with remainder is unique. */
  lemma DivModUnique(x: int, m: int, q: int, r: int)
    requires m > 0 && 0 <= r < m && x == q * m + r
    ensures x % m == r && x / m == q
  {
    var q', r' := x / m, x % m;
    assert (q - q') * m == r' - r;
    MulSign(q - q', m);
  }

  /** Euclidean division splits a number into quotient and remainder. */
  lemma DivModParts(x: int, m: int)
    requires m > 0
    ensures x == x / m * m + x % m && 0 <= x % m < m
  {
  }

  /** Adding a multiple of the modulus does not change the remainder. */
  lemma ModAddMultiple(x: int, k: int, m: int)
    requires m > 0
    ensures (x + k * m) % m == x % m
  {
    DivModUnique(x + k * m, m, x / m + k, x % m);
  }

  lemma MulDistributes(x: int, y: int, z: int)
    ensures (x + y) * z == x * z + y * z
  {
  }

  lemma MulAssociates(x: int, y: int, z: int)
    ensures (x * y) * z == x * (y * z)
  {
  }

  /** A remainder times a positive factor stays below the next multiple. */
  lemma MulBelow(r: int, b: int, a: int)
    requires 0 <= r < b && a > 0
    ensures 0 <= r * a <= b * a - a
  {
    MulDistributes(r, b - r - 1, a);
    MulDistributes(r + (b - r - 1), 1, a);
    MulSign(b - r - 1, a);
  }

  /** Dividing twice is dividing by the product, and the remainder by the product is
      made of the two remainders. */
  lemma DivDiv(x: int, a: int, b: int)
    requires a > 0 && b > 0
    ensures x / a / b == x / (a * b)
    ensures x % (a * b) == x % a + (x / a % b) * a
  {
    var q, r := x / a, x % a;
    var q2, r2 := q / b, q % b;
    assert x == q * a + r;
    assert q == q2 * b + r2;
    MulDistributes(q2 * b, r2, a);
    MulAssociates(q2, b, a);
    assert b * a == a * b;
    assert x == q2 * (a * b) + (r2 * a + r);
    MulBelow(r2, b, a);
    DivModUnique(x, a * b, q2, r2 * a + r);
  }
}
