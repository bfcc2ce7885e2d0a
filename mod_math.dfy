/** com.antoniovm.util.Math: the modular increment helpers, on Java ints. `%` is Java's
    truncating remainder and every `+` wraps at 32 bits. */
module ModMath {
  import opened Java
  import Arith

  /** increaseMod(value, increment, modValue, positiveMod): the Java remainder of
      value + increment, plus modValue whenever positiveMod is set and the increment is
      negative, whatever the sign of the remainder. A modValue of 0 throws. */
  function IncreaseModSigned(value: Int32, increment: Int32, modValue: Int32, positiveMod: bool): (r: Result<Int32>)
    ensures r.Throw? <==> modValue == 0
    ensures r.Throw? ==> r.exception == Arithmetic
  {
    if modValue == 0 then Throw(Arithmetic)
    else
      var incremented := Rem(Wrap32(value as int + increment as int) as int, modValue as int);
      Ok(if positiveMod && increment < 0 then Wrap32(incremented + modValue as int) else Wrap32(incremented))
  }

  /** increaseMod(value, increment, modValue): the same with positiveMod set. */
  function IncreaseModBy(value: Int32, increment: Int32, modValue: Int32): (r: Result<Int32>)
    ensures r == IncreaseModSigned(value, increment, modValue, true)
  {
    IncreaseModSigned(value, increment, modValue, true)
  }

  /** increaseMod(value, modValue): a step of one. */
  function IncreaseMod(value: Int32, modValue: Int32): (r: Result<Int32>)
    ensures r == IncreaseModSigned(value, 1, modValue, true)
  {
    IncreaseModBy(value, 1, modValue)
  }

  /** decreaseMod(value, modValue): a step of minus one. */
  function DecreaseMod(value: Int32, modValue: Int32): (r: Result<Int32>)
    ensures r == IncreaseModSigned(value, -1, modValue, true)
  {
    IncreaseModBy(value, -1, modValue)
  }

  /** Without overflow the result is the truncating remainder of value + increment,
      shifted by exactly modValue when positiveMod is set and the increment is negative,
      and by nothing otherwise. */
  lemma IncreaseModShift(value: Int32, increment: Int32, modValue: Int32, positiveMod: bool)
    requires modValue != 0
    requires -0x8000_0000 <= value as int + increment as int < 0x8000_0000
    requires -0x8000_0000 < modValue as int + Rem(value as int + increment as int, modValue as int) < 0x8000_0000
    ensures var r := IncreaseModSigned(value, increment, modValue, positiveMod);
      r.Ok? && r.value as int - Rem(value as int + increment as int, modValue as int) ==
        if positiveMod && increment < 0 then modValue as int else 0
  {
  }

  /** For a non-negative value, a non-negative increment and a positive modulus the
      result is the mathematical remainder and lies in [0, modValue), under either
      flag. */
  lemma IncreaseModNonNegative(value: Int32, increment: Int32, modValue: Int32, positiveMod: bool)
    requires value >= 0 && increment >= 0 && modValue > 0
    requires value as int + increment as int < 0x8000_0000
    ensures var r := IncreaseModSigned(value, increment, modValue, positiveMod);
      r.Ok? && r.value as int == (value as int + increment as int) % modValue as int && 0 <= r.value < modValue
  {
  }

  /** A step of one on a value in [0, modValue) moves to the next value, and from the
      last value back to 0. */
  lemma IncreaseModCycles(value: Int32, modValue: Int32)
    requires 0 <= value < modValue
    ensures var r := IncreaseMod(value, modValue);
      r.Ok? && r.value as int == if value as int == modValue as int - 1 then 0 else value as int + 1
  {
    IncreaseModNonNegative(value, 1, modValue, true);
    var x, m := value as int + 1, modValue as int;
    if x == m {
      Arith.DivModUnique(x, m, 1, 0);
    } else {
      Arith.DivModUnique(x, m, 0, x);
    }
  }

  /** A step of minus one from 0 gives the last value. */
  lemma DecreaseModFromZero(modValue: Int32)
    requires modValue >= 2
    ensures DecreaseMod(0, modValue) == Ok(modValue - 1)
  {
    assert Wrap32(-1) == -1;
    Arith.DivModUnique(1, modValue as int, 0, 1);
    assert Rem(-1, modValue as int) == -1;
  }

  /** From any value in [1, modValue) a step of minus one gives value - 1 + modValue: it
      is congruent to value - 1 but not reduced into [0, modValue), because modValue is
      added for every negative increment. decreaseMod(5, 10) is 14, not 4. */
  lemma DecreaseModNotReduced(value: Int32, modValue: Int32)
    requires 1 <= value < modValue
    requires value as int - 1 + modValue as int < 0x8000_0000
    ensures var r := DecreaseMod(value, modValue);
      r.Ok? && r.value as int == value as int - 1 + modValue as int && r.value >= modValue
  {
    assert Rem(value as int - 1, modValue as int) == value as int - 1;
  }

  /** With positiveMod off the result is the plain Java remainder, which is negative
      exactly when value + increment is negative and not a multiple of the modulus. */
  lemma IncreaseModPlainRemainder(value: Int32, increment: Int32, modValue: Int32)
    requires modValue != 0
    requires -0x8000_0000 <= value as int + increment as int < 0x8000_0000
    ensures var r := IncreaseModSigned(value, increment, modValue, false);
      r.Ok? && r.value as int == Rem(value as int + increment as int, modValue as int) &&
      (r.value < 0 <==> value as int + increment as int < 0 && (value as int + increment as int) % modValue as int != 0)
  {
    var x := value as int + increment as int;
    var m := modValue as int;
    if x < 0 {
      var a := if m < 0 then -m else m;
      assert (-x) % a == 0 <==> x % m == 0 by {
        ModNegation(x, m);
      }
    }
  }

  /** A number and its negation are multiples of m together, and so are multiples of m
      and of -m. */
  lemma ModNegation(x: int, m: int)
    requires m != 0
    ensures (-x) % Abs(m) == 0 <==> x % m == 0
  {
    var a := Abs(m);
    if x % m == 0 {
      var q := x / m;
      assert x == q * m;
      if m > 0 {
        assert -x == (-q) * a;
      } else {
        assert -x == q * a;
      }
      ModOfMultiple(-x, if m > 0 then -q else q, a);
    }
    if (-x) % a == 0 {
      var q := (-x) / a;
      assert -x == q * a;
      if m > 0 {
        assert x == (-q) * m;
        ModOfMultiple(x, -q, m);
      } else {
        assert x == q * m;
        ModOfMultiple(x, q, m);
      }
    }
  }

  lemma ModOfMultiple(x: int, q: int, m: int)
    requires m != 0 && x == q * m
    ensures x % m == 0
  {
    if m > 0 {
      Arith.DivModUnique(x, m, q, 0);
    } else {
      assert x == (-q) * (-m);
      Arith.DivModUnique(x, -m, -q, 0);
      assert x % m == x % (-m);
    }
  }
}
