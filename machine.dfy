/** Machine integers of the Go decoder and the bitwise operators it uses.

    Go's fixed-width integers are modelled as bounded mathematical integers;
    wrap-around and reinterpretation between signed and unsigned are written
    out explicitly. `|` and `^` are defined bit by bit over a given width. */
module Machine {

  type byte = x: int | 0 <= x < 0x100
  type u32 = x: int | 0 <= x < 0x1_0000_0000
  type u64 = x: int | 0 <= x < 0x1_0000_0000_0000_0000
  type i32 = x: int | -0x8000_0000 <= x < 0x8000_0000
  type i64 = x: int | -0x8000_0000_0000_0000 <= x < 0x8000_0000_0000_0000

  /** The reserved uint32 meaning "this optional table or slot is absent". */
  const Absent32: u32 := 0xFFFF_FFFF

  /** A computation that either yields a value or panics in the source
      (index or slice out of range, or an unchecked read past a buffer). */
  datatype Result<T> = Ok(value: T) | Fault

  datatype Option<T> = None | Some(value: T)

  function Pow2(n: nat): (r: nat)
    ensures r >= 1
  {
    if n == 0 then 1 else 2 * Pow2(n - 1)
  }

  /** Truncation of an integer to a uint32 (Go's `uint32(x)` and uint32 arithmetic). */
  function Wrap32(x: int): (r: u32)
  {
    x % 0x1_0000_0000
  }

  /** Truncation of an integer to a uint64 / uintptr. */
  function Wrap64(x: int): (r: u64)
  {
    x % 0x1_0000_0000_0000_0000
  }

  /** Go's `int32(x)`: the low 32 bits read as two's complement. */
  function Int32(x: int): (r: int)
    ensures -0x8000_0000 <= r < 0x8000_0000
  {
    var w := Wrap32(x);
    if w < 0x8000_0000 then w else w - 0x1_0000_0000
  }

  /** Go's `int64(x)`: the low 64 bits read as two's complement. */
  function Int64(x: int): (r: int)
    ensures -0x8000_0000_0000_0000 <= r < 0x8000_0000_0000_0000
  {
    var w := Wrap64(x);
    if w < 0x8000_0000_0000_0000 then w else w - 0x1_0000_0000_0000_0000
  }

  /** Go's `/` on integers, which truncates toward zero. */
  function TruncDiv(a: int, d: nat): (q: int)
    requires d > 0
    ensures a >= 0 ==> q * d <= a < q * d + d
    ensures a < 0 ==> q * d - d < a <= q * d
  {
    if a >= 0 then a / d else -((-a) / d)
  }

  /** The low bit of `x` as 0 or 1. */
  function Bit(x: nat): (r: nat) { x % 2 }

  /** Bitwise OR of the low `w` bits of `a` and `b`. */
  function OrBits(a: nat, b: nat, w: nat): (r: nat)
  {
    if w == 0 then 0
    else (if Bit(a) == 1 || Bit(b) == 1 then 1 else 0) + 2 * OrBits(a / 2, b / 2, w - 1)
  }

  /** Bitwise XOR of the low `w` bits of `a` and `b`. */
  function XorBits(a: nat, b: nat, w: nat): (r: nat)
  {
    if w == 0 then 0
    else (if Bit(a) != Bit(b) then 1 else 0) + 2 * XorBits(a / 2, b / 2, w - 1)
  }

  /** Go's `x | y` on uint32. */
  function Or32(x: u32, y: u32): (r: u32)
  {
    OrBitsBound(x, y, 32);
    Pow2Of32();
    OrBits(x, y, 32)
  }

  /** Go's `x ^ y` on uint32. */
  function Xor32(x: u32, y: u32): (r: u32)
  {
    XorBitsBound(x, y, 32);
    Pow2Of32();
    XorBits(x, y, 32)
  }

  /** Go's `x << s` on uint32, one doubling at a time: bits pushed past bit 31 are lost. */
  function Shl32(x: u32, s: nat): (r: u32)
  {
    if s == 0 then x else Wrap32(2 * Shl32(x, s - 1))
  }

  /** Shifting left by `s` multiplies by 2^s modulo 2^32. */
  lemma {:induction false} Shl32Wraps(x: u32, s: nat)
    ensures Shl32(x, s) == Wrap32(x * Pow2(s))
  {
    if s > 0 {
      Shl32Wraps(x, s - 1);
      var y := x * Pow2(s - 1);
      assert x * Pow2(s) == 2 * y;
      WrapDouble(y);
    }
  }

  /** When nothing is pushed past bit 31, the shift is exact. */
  lemma {:induction false} Shl32Exact(x: u32, s: nat)
    requires x * Pow2(s) < 0x1_0000_0000
    ensures Shl32(x, s) == x * Pow2(s)
  {
    Shl32Wraps(x, s);
    Wrap32Small(x * Pow2(s));
  }

  lemma WrapDouble(y: int)
    ensures Wrap32(2 * Wrap32(y)) == Wrap32(2 * y)
  {
    var r := y % 0x1_0000_0000;
    var q := y / 0x1_0000_0000;
    var r2 := (2 * r) % 0x1_0000_0000;
    var q2 := (2 * r) / 0x1_0000_0000;
    assert 2 * y == (2 * q + q2) * 0x1_0000_0000 + r2;
    ModUnique(2 * y, 2 * q + q2, r2);
  }

  /** The remainder modulo 2^32 is the unique one in range. */
  lemma ModUnique(x: int, q: int, r: int)
    requires 0 <= r < 0x1_0000_0000 && x == q * 0x1_0000_0000 + r
    ensures x % 0x1_0000_0000 == r
  {
  }


  lemma Wrap32Small(x: int)
    requires 0 <= x < 0x1_0000_0000
    ensures Wrap32(x) == x
  {
  }

  /** Reading a uint32 as int32: values from 2^31 up stand for negatives. */
  lemma Int32OfU32(w: u32)
    ensures Int32(w) == if w < 0x8000_0000 then w else w - 0x1_0000_0000
  {
    Wrap32Small(w);
  }

  /** Adding to a wrapped value wraps like adding to the original. */
  lemma WrapAdd32(x: int, c: int)
    ensures Wrap32(Wrap32(x) + c) == Wrap32(x + c)
  {
    var q := x / 0x1_0000_0000;
    assert x == q * 0x1_0000_0000 + Wrap32(x);
    assert x + c == q * 0x1_0000_0000 + (Wrap32(x) + c);
  }

  lemma Pow2Of32()
    ensures Pow2(32) == 0x1_0000_0000
  {
    assert Pow2(4) == 16;
    Pow2Add(4, 4);
    Pow2Add(8, 8);
    Pow2Add(16, 16);
  }

  lemma {:induction false} Pow2Add(a: nat, b: nat)
    ensures Pow2(a + b) == Pow2(a) * Pow2(b)
  {
    if a > 0 {
      Pow2Add(a - 1, b);
    }
  }

  lemma {:induction false} Pow2Monotonic(a: nat, b: nat)
    requires a <= b
    ensures Pow2(a) <= Pow2(b)
  {
    if a < b {
      Pow2Monotonic(a, b - 1);
    }
  }

  /** OR and XOR of `w` bits fit in `w` bits. */
  lemma {:induction false} OrBitsBound(a: nat, b: nat, w: nat)
    ensures OrBits(a, b, w) < Pow2(w)
  {
    if w > 0 {
      OrBitsBound(a / 2, b / 2, w - 1);
    }
  }

  lemma {:induction false} XorBitsBound(a: nat, b: nat, w: nat)
    ensures XorBits(a, b, w) < Pow2(w)
  {
    if w > 0 {
      XorBitsBound(a / 2, b / 2, w - 1);
    }
  }

  /** OR with zero is the identity on values that fit the width. */
  lemma {:induction false} OrZeroLeft(b: nat, w: nat)
    requires b < Pow2(w)
    ensures OrBits(0, b, w) == b
  {
    if w > 0 {
      OrZeroLeft(b / 2, w - 1);
    }
  }

  /** The low `s` bits of `b` are all zero. */
  predicate LowZero(b: nat, s: nat)
  {
    s == 0 || (Bit(b) == 0 && LowZero(b / 2, s - 1))
  }

  /** A multiple of 2^s has its low `s` bits clear. */
  lemma {:induction false} ShiftedLowZero(c: nat, s: nat)
    ensures LowZero(c * Pow2(s), s)
  {
    if s > 0 {
      var half := c * Pow2(s - 1);
      assert c * Pow2(s) == 2 * half;
      Halve(half);
      ShiftedLowZero(c, s - 1);
    }
  }

  /** OR of a value below bit `s` with one whose low `s` bits are clear is their
      sum: the bits do not overlap. */
  lemma {:induction false} OrLowZero(a: nat, b: nat, s: nat, w: nat)
    requires s <= w && a < Pow2(s) && b < Pow2(w) && LowZero(b, s)
    ensures OrBits(a, b, w) == a + b
  {
    if s == 0 {
      OrZeroLeft(b, w);
    } else {
      OrLowZero(a / 2, b / 2, s - 1, w - 1);
    }
  }

  /** OR of a value below bit `s` with a multiple of 2^s is their sum. */
  lemma OrDisjoint(a: nat, c: nat, s: nat, w: nat)
    requires s <= w
    requires a < Pow2(s)
    requires c * Pow2(s) < Pow2(w)
    ensures OrBits(a, c * Pow2(s), w) == a + c * Pow2(s)
  {
    ShiftedLowZero(c, s);
    OrLowZero(a, c * Pow2(s), s, w);
  }

  lemma Halve(x: nat)
    ensures Bit(2 * x) == 0 && (2 * x) / 2 == x
  {
  }

  /** XOR with zero is the identity on values that fit the width. */
  lemma {:induction false} XorZeroLeft(x: nat, w: nat)
    requires x < Pow2(w)
    ensures XorBits(0, x, w) == x
  {
    if w > 0 {
      XorZeroLeft(x / 2, w - 1);
    }
  }

  /** XOR with the all-ones value of the width is the complement. */
  lemma {:induction false} XorOnesLeft(x: nat, w: nat)
    requires x < Pow2(w)
    ensures XorBits(Pow2(w) - 1, x, w) == Pow2(w) - 1 - x
  {
    if w > 0 {
      var ones := Pow2(w) - 1;
      assert Bit(ones) == 1;
      assert ones / 2 == Pow2(w - 1) - 1;
      XorOnesLeft(x / 2, w - 1);
    }
  }
}
