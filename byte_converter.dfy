/** com.antoniovm.util.raw.ByteConverter: splitting a short, int or long into bytes of a
    caller's array, and assembling a value of up to four bytes back from an array.

    The `littleEndian` flag is modelled literally. With it off, the least significant
    byte is written first and read first; with it on, the most significant byte comes
    first. Decoding accumulates into a Java `int`, so every addition and shift wraps at
    32 bits and shift distances are taken modulo 32. */
module ByteConverter {
  import opened Java
  import Arith

  /** 2^n. */
  function Pow2(n: nat): (r: nat)
    ensures r >= 1
  {
    if n == 0 then 1 else 2 * Pow2(n - 1)
  }

  lemma {:induction false} Pow2Add(a: nat, b: nat)
    ensures Pow2(a + b) == Pow2(a) * Pow2(b)
  {
    if a > 0 {
      Pow2Add(a - 1, b);
      Arith.MulAssociates(2, Pow2(a - 1), Pow2(b));
    }
  }

  lemma Pow2Values()
    ensures Pow2(8) == 0x100 && Pow2(16) == 0x1_0000 && Pow2(24) == 0x100_0000
  {
    assert Pow2(2) == 4;
    assert Pow2(4) == 16;
    assert Pow2(6) == 64;
    assert Pow2(8) == 0x100;
    Pow2Add(8, 8);
    Pow2Add(16, 8);
  }

  /** One more byte of weight multiplies by 256. */
  lemma Pow2NextByte(k: nat)
    ensures Pow2(8 * (k + 1)) == Pow2(8 * k) * 0x100
  {
    Pow2Values();
    Pow2Add(8 * k, 8);
  }

  /** The weights of the bytes an int holds. */
  lemma Pow2IntByte(k: nat)
    requires k <= 3
    ensures Pow2(8 * k) == if k == 0 then 1 else if k == 1 then 0x100 else if k == 2 then 0x1_0000 else 0x100_0000
  {
    Pow2Values();
  }

  lemma Pow2IntBound(k: nat)
    requires k <= 3
    ensures Pow2(8 * k) <= 0x100_0000
  {
    Pow2IntByte(k);
  }

  /** Java's `x << distance` on an int: the low 32 bits of x * 2^(distance mod 32). */
  function ShiftLeft32(x: int, distance: int): Int32
  {
    Wrap32(x * Pow2(distance % 32))
  }

  /** `x << distance` keeps x * 2^(distance mod 32) modulo 2^32, and all of it when that
      fits an int. */
  lemma ShiftLeft32Low(x: int, distance: int)
    ensures (x * Pow2(distance % 32) - ShiftLeft32(x, distance) as int) % 0x1_0000_0000 == 0
    ensures -0x8000_0000 <= x * Pow2(distance % 32) < 0x8000_0000 ==>
      ShiftLeft32(x, distance) as int == x * Pow2(distance % 32)
  {
  }

  /** Java's `acc += b << distance` on an int accumulator. */
  function AddShifted(acc: Int32, b: int, distance: int): Int32
  {
    Wrap32(acc as int + ShiftLeft32(b, distance) as int)
  }

  /** `acc += b << distance` adds b * 2^(distance mod 32) exactly when neither the shift
      nor the sum leaves the int range. */
  lemma AddShiftedExact(acc: Int32, b: int, distance: int)
    requires -0x8000_0000 <= b * Pow2(distance % 32) < 0x8000_0000
    requires -0x8000_0000 <= acc as int + b * Pow2(distance % 32) < 0x8000_0000
    ensures AddShifted(acc, b, distance) as int == acc as int + b * Pow2(distance % 32)
  {
    ShiftLeft32Low(b, distance);
  }

  /** getByteAt(value, position): the low 8 bits of value >> 8 * position, where the
      shift of a long uses the distance modulo 64 and rounds toward minus infinity. */
  function GetByteAt(value: Int64, position: int): (r: Int8)
    ensures 0 <= position <= 7 ==> Unsigned(r) == (value as int / Pow2(8 * position)) % 0x100
  {
    var r := ToInt8(value as int / Pow2((8 * position) % 64));
    assert 0 <= position <= 7 ==> Unsigned(r) == (value as int / Pow2(8 * position)) % 0x100 by {
      if 0 <= position <= 7 {
        assert (8 * position) % 64 == 8 * position;
      }
    }
    r
  }

  /** For a position inside the long, getByteAt gives bits 8p .. 8p+7 of the value, read
      as a signed byte. */
  lemma GetByteAtBits(value: Int64, position: int)
    requires 0 <= position <= 7
    ensures var u := (value as int / Pow2(8 * position)) % 0x100;
      GetByteAt(value, position) as int == if u < 0x80 then u else u - 0x100
  {
  }

  /** The `width` bytes of a value in the order toBytesArray writes them. */
  function ToBytes(value: Int64, width: nat, littleEndian: bool): (r: seq<Int8>)
    ensures |r| == width
  {
    seq(width, k => GetByteAt(value, if littleEndian then width - 1 - k else k))
  }

  /** The contents of `bytes` after the private toBytesArray(value, bytes, start, width,
      littleEndian). It throws before writing when start + width passes the end of the
      array, and also when a write would go before its start. */
  function Encode(bytes: seq<Int8>, value: Int64, start: int, width: nat, littleEndian: bool): (r: Result<seq<Int8>>)
    ensures r.Ok? <==> start + width <= |bytes| && (width == 0 || 0 <= start)
    ensures r.Throw? ==> r.exception == IndexOutOfBounds
    ensures r.Ok? ==> |r.value| == |bytes|
    ensures r.Ok? ==> forall i :: 0 <= i < |bytes| ==>
      r.value[i] == if start <= i < start + width then ToBytes(value, width, littleEndian)[i - start] else bytes[i]
  {
    if start + width > |bytes| then Throw(IndexOutOfBounds)
    else if width == 0 then Ok(bytes)
    else if start < 0 then Throw(IndexOutOfBounds)
    else Ok(bytes[..start] + ToBytes(value, width, littleEndian) + bytes[start + width..])
  }

  /** Byte order: with littleEndian off, bytes[start + k] is byte k of the value (its
      least significant byte first); with it on, byte width - 1 - k. */
  lemma EncodeByteOrder(bytes: seq<Int8>, value: Int64, start: int, width: nat, littleEndian: bool)
    requires Encode(bytes, value, start, width, littleEndian).Ok?
    ensures forall i :: start <= i < start + width ==>
      Encode(bytes, value, start, width, littleEndian).value[i] ==
        GetByteAt(value, if littleEndian then width - 1 - (i - start) else i - start)
  {
  }

  /** The private toBytesArray(value, bytes, start, valueLength, littleEndian). */
  method ToBytesArray(value: Int64, bytes: array<Int8>, start: int, valueLength: nat, littleEndian: bool) returns (r: Result<()>)
    modifies bytes
    ensures r.Ok? <==> Encode(old(bytes[..]), value, start, valueLength, littleEndian).Ok?
    ensures r.Ok? ==> bytes[..] == Encode(old(bytes[..]), value, start, valueLength, littleEndian).value
    ensures r.Throw? ==> r == Throw(IndexOutOfBounds) && bytes[..] == old(bytes[..])
  {
    ghost var before := bytes[..];
    ghost var e := Encode(before, value, start, valueLength, littleEndian);
    var i: int := if littleEndian then valueLength - 1 else 0;
    var sum := if littleEndian then -1 else 1;
    var end := start + valueLength;
    if end > bytes.Length {
      assert e == Throw(IndexOutOfBounds);
      return Throw(IndexOutOfBounds);
    }
    ghost var image := ToBytes(value, valueLength, littleEndian);
    var j := start;
    while j < end && i < valueLength && i >= 0
      invariant start <= j <= end
      invariant i == if littleEndian then valueLength - 1 - (j - start) else j - start
      invariant j > start ==> start >= 0
      invariant forall p :: 0 <= p < bytes.Length ==>
        bytes[p] == if start <= p < j then image[p - start] else before[p]
      decreases end - j
    {
      if j < 0 {
        assert e == Throw(IndexOutOfBounds);
        assert bytes[..] == before;
        return Throw(IndexOutOfBounds);
      }
      assert image[j - start] == GetByteAt(value, i);
      bytes[j] := GetByteAt(value, i);
      j := j + 1;
      i := i + sum;
    }
    assert e.Ok?;
    assert forall p :: 0 <= p < bytes.Length ==> bytes[p] == e.value[p];
    assert bytes[..] == e.value;
    r := Ok(());
  }

  /** toBytesArray(short value, bytes, start, littleEndian): two bytes. */
  method ShortToBytesAt(value: Int16, bytes: array<Int8>, start: int, littleEndian: bool) returns (r: Result<()>)
    modifies bytes
    ensures r.Ok? <==> Encode(old(bytes[..]), value as Int64, start, 2, littleEndian).Ok?
    ensures r.Ok? ==> bytes[..] == Encode(old(bytes[..]), value as Int64, start, 2, littleEndian).value
    ensures r.Throw? ==> r == Throw(IndexOutOfBounds) && bytes[..] == old(bytes[..])
  {
    r := ToBytesArray(value as Int64, bytes, start, 2, littleEndian);
  }

  /** toBytesArray(int value, bytes, start, littleEndian): four bytes. */
  method IntToBytesAt(value: Int32, bytes: array<Int8>, start: int, littleEndian: bool) returns (r: Result<()>)
    modifies bytes
    ensures r.Ok? <==> Encode(old(bytes[..]), value as Int64, start, 4, littleEndian).Ok?
    ensures r.Ok? ==> bytes[..] == Encode(old(bytes[..]), value as Int64, start, 4, littleEndian).value
    ensures r.Throw? ==> r == Throw(IndexOutOfBounds) && bytes[..] == old(bytes[..])
  {
    r := ToBytesArray(value as Int64, bytes, start, 4, littleEndian);
  }

  /** toBytesArray(long value, bytes, start, littleEndian): eight bytes. */
  method LongToBytesAt(value: Int64, bytes: array<Int8>, start: int, littleEndian: bool) returns (r: Result<()>)
    modifies bytes
    ensures r.Ok? <==> Encode(old(bytes[..]), value, start, 8, littleEndian).Ok?
    ensures r.Ok? ==> bytes[..] == Encode(old(bytes[..]), value, start, 8, littleEndian).value
    ensures r.Throw? ==> r == Throw(IndexOutOfBounds) && bytes[..] == old(bytes[..])
  {
    r := ToBytesArray(value, bytes, start, 8, littleEndian);
  }

  /** toBytesArray(short value, bytes, littleEndian): two bytes from index 0. */
  method ShortToBytes(value: Int16, bytes: array<Int8>, littleEndian: bool) returns (r: Result<()>)
    modifies bytes
    ensures r.Ok? <==> Encode(old(bytes[..]), value as Int64, 0, 2, littleEndian).Ok?
    ensures r.Ok? ==> bytes[..] == Encode(old(bytes[..]), value as Int64, 0, 2, littleEndian).value
    ensures r.Throw? ==> r == Throw(IndexOutOfBounds) && bytes[..] == old(bytes[..])
  {
    r := ShortToBytesAt(value, bytes, 0, littleEndian);
  }

  /** toBytesArray(int value, bytes, littleEndian): four bytes from index 0. */
  method IntToBytes(value: Int32, bytes: array<Int8>, littleEndian: bool) returns (r: Result<()>)
    modifies bytes
    ensures r.Ok? <==> Encode(old(bytes[..]), value as Int64, 0, 4, littleEndian).Ok?
    ensures r.Ok? ==> bytes[..] == Encode(old(bytes[..]), value as Int64, 0, 4, littleEndian).value
    ensures r.Throw? ==> r == Throw(IndexOutOfBounds) && bytes[..] == old(bytes[..])
  {
    r := IntToBytesAt(value, bytes, 0, littleEndian);
  }

  /** toBytesArray(long value, bytes, littleEndian): eight bytes from index 0. */
  method LongToBytes(value: Int64, bytes: array<Int8>, littleEndian: bool) returns (r: Result<()>)
    modifies bytes
    ensures r.Ok? <==> Encode(old(bytes[..]), value, 0, 8, littleEndian).Ok?
    ensures r.Ok? ==> bytes[..] == Encode(old(bytes[..]), value, 0, 8, littleEndian).value
    ensures r.Throw? ==> r == Throw(IndexOutOfBounds) && bytes[..] == old(bytes[..])
  {
    r := LongToBytesAt(value, bytes, 0, littleEndian);
  }

  /** Where toValue takes the sign-carrying byte: the last of the range, or with
      littleEndian on the first. */
  function MsbIndex(index: int, bytesPerValue: int, littleEndian: bool): int
  {
    if littleEndian then index else index + bytesPerValue - 1
  }

  /** The array index toValue's loop reads on its iteration t. */
  function LoopIndex(index: int, littleEndian: bool, t: int): int
  {
    if littleEndian then index + 1 + t else index + t
  }

  /** The byte weight (shift in bytes) toValue's loop gives to its iteration t. */
  function LoopWeight(bytesPerValue: int, littleEndian: bool, t: int): int
  {
    if littleEndian then bytesPerValue - 2 - t else t
  }

  /** The number of iterations toValue's loop makes. */
  function LoopCount(bytesPerValue: int): nat
  {
    if bytesPerValue >= 2 then bytesPerValue - 1 else 0
  }

  /** Whether toValue returns normally: index + bytesPerValue fits the array, the last
      byte of the range exists, with littleEndian on so does its first byte, and with it
      off the loop's first read is not before the array. */
  predicate DecodeInBounds(length: int, index: int, bytesPerValue: int, littleEndian: bool)
  {
    && index + bytesPerValue <= length
    && 0 <= index + bytesPerValue - 1
    && (littleEndian ==> 0 <= index < length)
    && (!littleEndian && bytesPerValue >= 2 ==> 0 <= index)
  }

  /** toValue's `int` accumulator after the sign-carrying byte and n loop iterations. */
  function Accumulated(bytes: seq<Int8>, index: int, bytesPerValue: int, littleEndian: bool, n: nat): Int32
    requires 0 <= MsbIndex(index, bytesPerValue, littleEndian) < |bytes|
    requires n >= 1 ==> 0 <= LoopIndex(index, littleEndian, 0) && LoopIndex(index, littleEndian, n - 1) < |bytes|
    decreases n
  {
    if n == 0 then
      AddShifted(0, bytes[MsbIndex(index, bytesPerValue, littleEndian)] as int, 8 * (bytesPerValue - 1))
    else
      AddShifted(Accumulated(bytes, index, bytesPerValue, littleEndian, n - 1),
                 Unsigned(bytes[LoopIndex(index, littleEndian, n - 1)]), 8 * LoopWeight(bytesPerValue, littleEndian, n - 1))
  }

  /** toValue(bytes, index, bytesPerValue, littleEndian) as a long. Whatever the width,
      the result is an int widened to a long. */
  function Decode(bytes: seq<Int8>, index: int, bytesPerValue: int, littleEndian: bool): (r: Result<Int64>)
    ensures r.Ok? <==> DecodeInBounds(|bytes|, index, bytesPerValue, littleEndian)
    ensures r.Throw? ==> r.exception == IndexOutOfBounds
    ensures r.Ok? ==> -0x8000_0000 <= r.value as int < 0x8000_0000
  {
    if !DecodeInBounds(|bytes|, index, bytesPerValue, littleEndian) then Throw(IndexOutOfBounds)
    else Ok(Accumulated(bytes, index, bytesPerValue, littleEndian, LoopCount(bytesPerValue)) as Int64)
  }

  /** toIntValue(bytes, index, littleEndian): four bytes, narrowed to an int, which loses
      nothing. */
  function IntValue(bytes: seq<Int8>, index: int, littleEndian: bool): (r: Result<Int32>)
    ensures r.Ok? <==> DecodeInBounds(|bytes|, index, 4, littleEndian)
    ensures r.Ok? ==> r.value as int == Decode(bytes, index, 4, littleEndian).value as int
  {
    match Decode(bytes, index, 4, littleEndian)
    case Ok(v) => Ok(Wrap32(v as int))
    case Throw(e) => Throw(e)
  }

  /** toValue(bytes, index, bytesPerValue, littleEndian). It only reads the array. */
  method ToValue(bytes: array<Int8>, index: int, bytesPerValue: int, littleEndian: bool) returns (r: Result<Int64>)
    ensures r == Decode(bytes[..], index, bytesPerValue, littleEndian)
  {
    var value: Int32 := 0;
    var i := 0;
    var increment := 1;
    var first := index;
    if first + bytesPerValue > bytes.Length {
      return Throw(IndexOutOfBounds);
    }
    var lastByteIndex := first + bytesPerValue - 1;
    if lastByteIndex < 0 {
      return Throw(IndexOutOfBounds);
    }
    var mostSignificantByte := bytes[lastByteIndex] as int;
    if littleEndian {
      increment := -1;
      i := bytesPerValue - 2;
      if first < 0 || first >= bytes.Length {
        return Throw(IndexOutOfBounds);
      }
      mostSignificantByte := bytes[first] as int;
      first := first + 1;
      lastByteIndex := lastByteIndex + 1;
    }
    value := AddShifted(value, mostSignificantByte, 8 * (bytesPerValue - 1));
    r := AccumulateBytes(bytes, bytes[..], index, bytesPerValue, littleEndian, first, lastByteIndex, i, increment, value);
  }

  /** The loop of toValue, from j == first up to lastByteIndex, with the accumulator
      already holding the sign-carrying byte. */
  method AccumulateBytes(bytes: array<Int8>, ghost s: seq<Int8>, index: int, bytesPerValue: int, littleEndian: bool,
                         first: int, lastByteIndex: int, i0: int, increment: int, value0: Int32) returns (r: Result<Int64>)
    requires s == bytes[..]
    requires index + bytesPerValue <= |s| && 0 <= index + bytesPerValue - 1
    requires littleEndian ==> 0 <= index < |s|
    requires first == LoopIndex(index, littleEndian, 0)
    requires lastByteIndex == LoopIndex(index, littleEndian, bytesPerValue - 1)
    requires i0 == LoopWeight(bytesPerValue, littleEndian, 0)
    requires increment == if littleEndian then -1 else 1
    requires value0 == Accumulated(s, index, bytesPerValue, littleEndian, 0)
    ensures r == Decode(s, index, bytesPerValue, littleEndian)
  {
    var value := value0;
    var i := i0;
    var j := first;
    ghost var t: nat := 0;
    while j < lastByteIndex && i < bytesPerValue && i >= 0
      invariant j == LoopIndex(index, littleEndian, t)
      invariant i == LoopWeight(bytesPerValue, littleEndian, t)
      invariant t <= LoopCount(bytesPerValue)
      invariant t >= 1 ==> 0 <= LoopIndex(index, littleEndian, 0)
      invariant value == Accumulated(s, index, bytesPerValue, littleEndian, t)
      decreases lastByteIndex - j
    {
      if j < 0 {
        return Throw(IndexOutOfBounds);
      }
      AccumulatedNext(s, index, bytesPerValue, littleEndian, t, value, Unsigned(bytes[j]), 8 * i);
      value := AddShifted(value, Unsigned(bytes[j]), 8 * i);
      j := j + 1;
      i := i + increment;
      t := t + 1;
    }
    assert t == LoopCount(bytesPerValue);
    assert DecodeInBounds(|s|, index, bytesPerValue, littleEndian);
    return Ok(value as Int64);
  }

  /** One iteration of toValue's loop takes the accumulator from t to t + 1 iterations. */
  lemma AccumulatedNext(s: seq<Int8>, index: int, bytesPerValue: int, littleEndian: bool, t: nat, value: Int32, b: int, distance: int)
    requires 0 <= MsbIndex(index, bytesPerValue, littleEndian) < |s|
    requires 0 <= LoopIndex(index, littleEndian, 0) && LoopIndex(index, littleEndian, t) < |s|
    requires value == Accumulated(s, index, bytesPerValue, littleEndian, t)
    requires b == Unsigned(s[LoopIndex(index, littleEndian, t)]) && distance == 8 * LoopWeight(bytesPerValue, littleEndian, t)
    ensures AddShifted(value, b, distance) == Accumulated(s, index, bytesPerValue, littleEndian, t + 1)
  {
  }

  /** toIntValue(bytes, index, littleEndian). */
  method ToIntValue(bytes: array<Int8>, index: int, littleEndian: bool) returns (r: Result<Int32>)
    ensures r == IntValue(bytes[..], index, littleEndian)
  {
    var v := ToValue(bytes, index, 4, littleEndian);
    if v.Throw? {
      return Throw(v.exception);
    }
    return Ok(Wrap32(v.value as int));
  }

  // Reference definitions: the two's-complement value of a run of bytes.

  /** The unsigned value of the first n bytes of d, least significant first. */
  function UnsignedSum(d: seq<Int8>, n: nat): int
    requires n <= |d|
  {
    if n == 0 then 0 else UnsignedSum(d, n - 1) + Unsigned(d[n - 1]) * Pow2(8 * (n - 1))
  }

  /** The two's-complement value of the bytes d, least significant first: every byte
      counts unsigned except the last, which carries the sign. */
  function TwosComplement(d: seq<Int8>): int
    requires |d| >= 1
  {
    UnsignedSum(d, |d| - 1) + d[|d| - 1] as int * Pow2(8 * (|d| - 1))
  }

  /** The bytes of bytes[index .. index + width) in the order of their weight in the
      value toBytesArray stored there: least significant first. */
  function Digits(bytes: seq<Int8>, index: int, width: nat, littleEndian: bool): (r: seq<Int8>)
    requires 0 <= index && index + width <= |bytes|
    ensures |r| == width
  {
    seq(width, w requires 0 <= w < width => if littleEndian then bytes[index + width - 1 - w] else bytes[index + w])
  }

  lemma {:induction false} UnsignedSumBounds(d: seq<Int8>, n: nat)
    requires n <= |d|
    ensures 0 <= UnsignedSum(d, n) < Pow2(8 * n)
  {
    if n > 0 {
      UnsignedSumBounds(d, n - 1);
      Pow2NextByte(n - 1);
      Arith.MulBelow(Unsigned(d[n - 1]), 0x100, Pow2(8 * (n - 1)));
    }
  }

  lemma {:induction false} UnsignedSumGrows(d: seq<Int8>, m: nat, n: nat)
    requires m <= n <= |d|
    ensures UnsignedSum(d, m) <= UnsignedSum(d, n)
    decreases n
  {
    if m < n {
      UnsignedSumGrows(d, m, n - 1);
    }
  }

  /** The sign-carrying byte, times its weight, stays within an int when the weight is
      at most 2^24. */
  lemma SignedByteWeight(b: int, p: nat)
    requires -0x80 <= b < 0x80 && 1 <= p <= 0x100_0000
    ensures -0x80 * p <= b * p <= 0x7F * p
  {
    Arith.MulBelow(b + 0x80, 0x100, p);
    Arith.MulDistributes(b, 0x80, p);
  }

  /** toValue's first step: the sign-carrying byte shifted into place, with no
      wrap-around for widths up to four. */
  lemma AccumulatedFirst(bytes: seq<Int8>, index: int, bytesPerValue: int, littleEndian: bool)
    requires 1 <= bytesPerValue <= 4 && 0 <= index && index + bytesPerValue <= |bytes|
    ensures Accumulated(bytes, index, bytesPerValue, littleEndian, 0) as int ==
      Digits(bytes, index, bytesPerValue, littleEndian)[bytesPerValue - 1] as int * Pow2(8 * (bytesPerValue - 1))
  {
    var msb := bytes[MsbIndex(index, bytesPerValue, littleEndian)] as int;
    var p := Pow2(8 * (bytesPerValue - 1));
    Pow2IntByte(bytesPerValue - 1);
    Arith.DivModUnique(8 * (bytesPerValue - 1), 32, 0, 8 * (bytesPerValue - 1));
    SignedByteWeight(msb, p);
  }

  /** One iteration of toValue's loop adds the next byte, unsigned and at its weight,
      with no wrap-around for widths up to four. */
  lemma AccumulatedStep(bytes: seq<Int8>, index: int, bytesPerValue: int, littleEndian: bool, t: nat, w: int, d: seq<Int8>)
    requires 1 <= bytesPerValue <= 4 && 0 <= index && index + bytesPerValue <= |bytes|
    requires 1 <= t <= bytesPerValue - 1
    requires w == LoopWeight(bytesPerValue, littleEndian, t - 1)
    requires d == Digits(bytes, index, bytesPerValue, littleEndian)
    ensures 0 <= w <= bytesPerValue - 2
    ensures Accumulated(bytes, index, bytesPerValue, littleEndian, t) ==
      Wrap32(Accumulated(bytes, index, bytesPerValue, littleEndian, t - 1) as int + Unsigned(d[w]) * Pow2(8 * w))
  {
    assert bytes[LoopIndex(index, littleEndian, t - 1)] == d[w];
    var u := Unsigned(d[w]);
    Pow2IntByte(w);
    Arith.DivModUnique(8 * w, 32, 0, 8 * w);
    Arith.MulBelow(u, 0x100, Pow2(8 * w));
  }

  /** The unsigned value of the t bytes toValue's loop has read after t iterations,
      out of the top bytes below the sign-carrying one of d: the t least significant with
      littleEndian off, the t just below the top with it on. */
  function ReadSoFar(d: seq<Int8>, top: nat, t: nat, littleEndian: bool): int
    requires t <= top < |d|
  {
    if littleEndian then UnsignedSum(d, top) - UnsignedSum(d, top - t) else UnsignedSum(d, t)
  }

  lemma ReadSoFarStep(d: seq<Int8>, top: nat, t: nat, littleEndian: bool, w: nat)
    requires 1 <= t <= top < |d|
    requires w == if littleEndian then top - t else t - 1
    ensures ReadSoFar(d, top, t, littleEndian) == ReadSoFar(d, top, t - 1, littleEndian) + Unsigned(d[w]) * Pow2(8 * w)
  {
  }

  lemma ReadSoFarBounds(d: seq<Int8>, top: nat, t: nat, littleEndian: bool)
    requires t <= top < |d|
    ensures 0 <= ReadSoFar(d, top, t, littleEndian) < Pow2(8 * top)
  {
    UnsignedSumBounds(d, top);
    UnsignedSumBounds(d, t);
    UnsignedSumGrows(d, top - t, top);
    UnsignedSumGrows(d, t, top);
    UnsignedSumGrows(d, 0, top - t);
    if !littleEndian {
      Pow2Grows(8 * t, 8 * top);
    }
  }

  lemma Pow2Grows(a: nat, b: nat)
    requires a <= b
    ensures Pow2(a) <= Pow2(b)
  {
    Pow2Add(a, b - a);
    Arith.MulSign(Pow2(b - a), Pow2(a));
  }

  /** After the sign-carrying byte and t iterations, toValue's accumulator holds the
      sign-carrying byte at its weight plus the bytes read so far at theirs. */
  lemma {:induction false} AccumulatedValue(bytes: seq<Int8>, index: int, bytesPerValue: int, littleEndian: bool, t: nat)
    requires 1 <= bytesPerValue <= 4 && 0 <= index && index + bytesPerValue <= |bytes|
    requires t <= bytesPerValue - 1
    ensures var d := Digits(bytes, index, bytesPerValue, littleEndian);
      Accumulated(bytes, index, bytesPerValue, littleEndian, t) as int ==
        d[bytesPerValue - 1] as int * Pow2(8 * (bytesPerValue - 1)) + ReadSoFar(d, bytesPerValue - 1, t, littleEndian)
  {
    if t == 0 {
      AccumulatedFirst(bytes, index, bytesPerValue, littleEndian);
      assert ReadSoFar(Digits(bytes, index, bytesPerValue, littleEndian), bytesPerValue - 1, 0, littleEndian) == 0;
    } else {
      AccumulatedValue(bytes, index, bytesPerValue, littleEndian, t - 1);
      AccumulatedValueStep(bytes, index, bytesPerValue, littleEndian, t, Digits(bytes, index, bytesPerValue, littleEndian));
    }
  }

  /** The inductive step of AccumulatedValue. */
  lemma AccumulatedValueStep(bytes: seq<Int8>, index: int, bytesPerValue: int, littleEndian: bool, t: nat, d: seq<Int8>)
    requires 1 <= bytesPerValue <= 4 && 0 <= index && index + bytesPerValue <= |bytes|
    requires 1 <= t <= bytesPerValue - 1
    requires d == Digits(bytes, index, bytesPerValue, littleEndian)
    requires Accumulated(bytes, index, bytesPerValue, littleEndian, t - 1) as int ==
      d[bytesPerValue - 1] as int * Pow2(8 * (bytesPerValue - 1)) + ReadSoFar(d, bytesPerValue - 1, t - 1, littleEndian)
    ensures Accumulated(bytes, index, bytesPerValue, littleEndian, t) as int ==
      d[bytesPerValue - 1] as int * Pow2(8 * (bytesPerValue - 1)) + ReadSoFar(d, bytesPerValue - 1, t, littleEndian)
  {
    var top := bytesPerValue - 1;
    var p := Pow2(8 * top);
    var w := LoopWeight(bytesPerValue, littleEndian, t - 1);
    AccumulatedStep(bytes, index, bytesPerValue, littleEndian, t, w, d);
    ReadSoFarStep(d, top, t, littleEndian, w);
    ReadSoFarBounds(d, top, t, littleEndian);
    Pow2IntBound(top);
    SignedByteWeight(d[top] as int, p);
    var before := ReadSoFar(d, top, t - 1, littleEndian);
    var after := ReadSoFar(d, top, t, littleEndian);
    var add := Unsigned(d[w]) * Pow2(8 * w);
    var m := d[top] as int * p;
    var prev := Accumulated(bytes, index, bytesPerValue, littleEndian, t - 1);
    NoWrap(prev, m, before, after, add, p);
    assert Accumulated(bytes, index, bytesPerValue, littleEndian, t) as int == m + after;
  }

  /** Adding the next byte to an accumulator that holds the sign-carrying part m plus a
      partial sum below p does not wrap when p is at most 2^24. */
  lemma NoWrap(acc: Int32, m: int, before: int, after: int, add: int, p: nat)
    requires acc as int == m + before && after == before + add
    requires 0 <= after < p <= 0x100_0000 && -0x80 * p <= m <= 0x7F * p
    ensures Wrap32(acc as int + add) as int == m + after
  {
  }

  /** For widths 1 to 4, toValue returns normally exactly when the range is inside the
      array, and then gives the two's-complement value of the range read in the order
      toBytesArray writes it. */
  lemma DecodeSigned(bytes: seq<Int8>, index: int, bytesPerValue: int, littleEndian: bool)
    requires 1 <= bytesPerValue <= 4 && 0 <= index && index + bytesPerValue <= |bytes|
    ensures var r := Decode(bytes, index, bytesPerValue, littleEndian);
      r.Ok? && r.value as int == TwosComplement(Digits(bytes, index, bytesPerValue, littleEndian))
  {
    AccumulatedValue(bytes, index, bytesPerValue, littleEndian, LoopCount(bytesPerValue));
  }

  /** The low k bytes of a value make up the value modulo 2^(8k). */
  lemma {:induction false} LowBytes(value: Int64, width: nat, k: nat)
    requires k <= width <= 8
    ensures UnsignedSum(seq(width, j => GetByteAt(value, j)), k) == value as int % Pow2(8 * k)
  {
    var d := seq(width, j => GetByteAt(value, j));
    if k > 0 {
      LowBytes(value, width, k - 1);
      var p := Pow2(8 * (k - 1));
      GetByteAtBits(value, k - 1);
      Pow2NextByte(k - 1);
      Arith.DivDiv(value as int, p, 0x100);
    }
  }

  /** A value within the range of `width` bytes is the two's-complement value of its own
      bytes: getByteAt loses nothing. */
  lemma BytesOfValue(value: Int64, width: nat)
    requires 1 <= width <= 8
    requires -0x80 * Pow2(8 * (width - 1)) <= value as int < 0x80 * Pow2(8 * (width - 1))
    ensures TwosComplement(seq(width, j => GetByteAt(value, j))) == value as int
  {
    var d := seq(width, j => GetByteAt(value, j));
    var p := Pow2(8 * (width - 1));
    var v := value as int;
    LowBytes(value, width, width - 1);
    var q := v / p;
    Arith.DivModParts(v, p);
    if q >= 0x80 {
      Arith.MulSign(q - 0x7F, p);
      Arith.MulDistributes(q - 0x7F, 0x7F, p);
    } else if q < -0x80 {
      Arith.MulSign(q + 0x80, p);
      Arith.MulDistributes(q + 0x80, -0x80, p);
    }
    Arith.DivModUnique(8 * (width - 1), 64, 0, 8 * (width - 1));
    assert d[width - 1] as int == q;
  }

  /** Round trip: the value toBytesArray writes with `width` bytes, for a width of 1 to 4
      and a value that fits, is what toValue reads back from the same start with the
      same flag. */
  lemma RoundTrip(bytes: seq<Int8>, value: Int64, start: int, width: nat, littleEndian: bool)
    requires 1 <= width <= 4 && 0 <= start && start + width <= |bytes|
    requires -0x80 * Pow2(8 * (width - 1)) <= value as int < 0x80 * Pow2(8 * (width - 1))
    ensures Encode(bytes, value, start, width, littleEndian).Ok?
    ensures Decode(Encode(bytes, value, start, width, littleEndian).value, start, width, littleEndian) == Ok(value)
  {
    var e := Encode(bytes, value, start, width, littleEndian).value;
    EncodeByteOrder(bytes, value, start, width, littleEndian);
    assert Digits(e, start, width, littleEndian) == seq(width, j => GetByteAt(value, j));
    DecodeSigned(e, start, width, littleEndian);
    BytesOfValue(value, width);
  }

  /** toIntValue after toBytesArray of an int at the same start, with the same flag,
      gives the int back. */
  lemma IntRoundTrip(bytes: seq<Int8>, value: Int32, start: int, littleEndian: bool)
    requires 0 <= start && start + 4 <= |bytes|
    ensures Encode(bytes, value as Int64, start, 4, littleEndian).Ok?
    ensures IntValue(Encode(bytes, value as Int64, start, 4, littleEndian).value, start, littleEndian) == Ok(value)
  {
    Pow2IntByte(3);
    RoundTrip(bytes, value as Int64, start, 4, littleEndian);
  }

  /** toValue with two bytes after toBytesArray of a short at the same start, with the
      same flag, gives the short back. */
  lemma ShortRoundTrip(bytes: seq<Int8>, value: Int16, start: int, littleEndian: bool)
    requires 0 <= start && start + 2 <= |bytes|
    ensures Encode(bytes, value as Int64, start, 2, littleEndian).Ok?
    ensures Decode(Encode(bytes, value as Int64, start, 2, littleEndian).value, start, 2, littleEndian) == Ok(value as Int64)
  {
    Pow2IntByte(1);
    RoundTrip(bytes, value as Int64, start, 2, littleEndian);
  }

  lemma {:induction false} AccumulatedReadsOnlySlice(b1: seq<Int8>, b2: seq<Int8>, index: int, bytesPerValue: int, littleEndian: bool, n: nat)
    requires |b1| == |b2| && bytesPerValue >= 1
    requires DecodeInBounds(|b1|, index, bytesPerValue, littleEndian)
    requires n <= LoopCount(bytesPerValue)
    requires forall k :: index <= k < index + bytesPerValue && 0 <= k < |b1| ==> b1[k] == b2[k]
    ensures Accumulated(b1, index, bytesPerValue, littleEndian, n) == Accumulated(b2, index, bytesPerValue, littleEndian, n)
  {
    if n > 0 {
      AccumulatedReadsOnlySlice(b1, b2, index, bytesPerValue, littleEndian, n - 1);
    }
  }

  /** toValue reads nothing outside bytes[index .. index + bytesPerValue): two arrays of
      the same length that agree there decode alike. */
  lemma DecodeReadsOnlySlice(b1: seq<Int8>, b2: seq<Int8>, index: int, bytesPerValue: int, littleEndian: bool)
    requires |b1| == |b2| && bytesPerValue >= 1
    requires forall k :: index <= k < index + bytesPerValue && 0 <= k < |b1| ==> b1[k] == b2[k]
    ensures Decode(b1, index, bytesPerValue, littleEndian) == Decode(b2, index, bytesPerValue, littleEndian)
  {
    if DecodeInBounds(|b1|, index, bytesPerValue, littleEndian) {
      AccumulatedReadsOnlySlice(b1, b2, index, bytesPerValue, littleEndian, LoopCount(bytesPerValue));
    }
  }
}
