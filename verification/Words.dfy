/** Machine words of the x86-64 instance, modelled as integers with explicit
    wrap-around, and the bitwise `or` the parser builds its values with. */
module Words {

  type u8 = x: int | 0 <= x < 0x100
  type u16 = x: int | 0 <= x < 0x1_0000
  type u32 = x: int | 0 <= x < 0x1_0000_0000
  type i32 = x: int | -0x8000_0000 <= x < 0x8000_0000
  type u64 = x: int | 0 <= x < 0x1_0000_0000_0000_0000

  /** Truncation to `unsigned int`. */
  function U32(x: int): u32 { x % 0x1_0000_0000 }

  /** Truncation to `int`: the two's complement reading of the low 32 bits. */
  function I32(x: int): i32 {
    var u := U32(x);
    if u < 0x8000_0000 then u else u - 0x1_0000_0000
  }

  /** Truncation to `uintptr_t`. */
  function U64(x: int): u64 { x % 0x1_0000_0000_0000_0000 }

  /** Sign extension of a narrow unsigned value, as in `(signed char)` and `(short)`. */
  function I8(x: u8): i32 { if x < 0x80 then x else x - 0x100 }

  function I16(x: u16): i32 { if x < 0x8000 then x else x - 0x1_0000 }

  function Pow2(n: nat): (p: nat)
    ensures p >= 1
  {
    if n == 0 then 1 else 2 * Pow2(n - 1)
  }

  /** Bitwise or of two non-negative integers. */
  function Or(a: nat, b: nat): nat {
    if a == 0 then b
    else if b == 0 then a
    else (if a % 2 == 1 || b % 2 == 1 then 1 else 0) + 2 * Or(a / 2, b / 2)
  }

  lemma {:induction false} Pow2Add(m: nat, n: nat)
    ensures Pow2(m + n) == Pow2(m) * Pow2(n)
  {
    if m == 0 {
      assert Pow2(0) * Pow2(n) == Pow2(n);
    } else {
      Pow2Add(m - 1, n);
      var p, q := Pow2(m - 1), Pow2(n);
      assert 2 * (p * q) == (2 * p) * q;
    }
  }

  lemma Pow2Seven(n: nat)
    ensures Pow2(n + 7) == 128 * Pow2(n)
  {
    Pow2Add(n, 7);
    Pow2Small();
  }

  lemma Pow2Small()
    ensures Pow2(0) == 1 && Pow2(1) == 2 && Pow2(7) == 128 && Pow2(8) == 0x100
    ensures Pow2(32) == 0x1_0000_0000
  {
    assert Pow2(2) == 4;
    assert Pow2(4) == 16;
    assert Pow2(6) == 64;
    Pow2Add(4, 4);
    Pow2Add(8, 8);
    Pow2Add(16, 16);
  }

  lemma {:induction false} OrZero(a: nat)
    ensures Or(a, 0) == a && Or(0, a) == a
  {
  }

  /** `or` of values with no common bit position is their sum. */
  lemma {:induction false} OrDisjoint(a: nat, b: nat, k: nat)
    requires a < Pow2(k)
    ensures Or(a, b * Pow2(k)) == a + b * Pow2(k)
    decreases k
  {
    if k == 0 || a == 0 || b * Pow2(k) == 0 {
      OrZero(b * Pow2(k));
    } else {
      var h := b * Pow2(k - 1);
      assert b * Pow2(k) == 2 * h by {
        assert b * (2 * Pow2(k - 1)) == 2 * (b * Pow2(k - 1));
      }
      assert (2 * h) % 2 == 0 && (2 * h) / 2 == h;
      OrDisjoint(a / 2, b, k - 1);
    }
  }

  lemma ProductMod(a: int, b: int, m: int)
    requires m > 0
    ensures (a * m + b) % m == b % m
  {
    var q, r := b / m, b % m;
    assert a * m + b == (a + q) * m + r;
    ModUnique(a * m + b, a + q, r, m);
  }

  lemma MulAtLeast(d: int, m: nat)
    requires d >= 1
    ensures d * m >= m
  {
    assert d * m == (d - 1) * m + m;
    assert (d - 1) * m >= 0;
  }

  lemma QuotientUnique(q: int, r: int, q': int, r': int, m: int)
    requires m > 0 && 0 <= r < m && 0 <= r' < m && q * m + r == q' * m + r'
    ensures q == q' && r == r'
  {
    assert (q - q') * m == r' - r;
    if q > q' {
      MulAtLeast(q - q', m);
    } else if q < q' {
      MulAtLeast(q' - q, m);
    }
  }

  lemma ModUnique(x: int, q: int, r: int, m: int)
    requires m > 0 && 0 <= r < m && x == q * m + r
    ensures x % m == r && x / m == q
  {
    assert x == (x / m) * m + x % m;
    QuotientUnique(q, r, x / m, x % m, m);
  }

  /** One round of the LEB128 loop: shifting seven fresh bits in above `s`
      settled ones, in 32-bit arithmetic, is addition modulo 2^32. */
  lemma OrShifted(acc: nat, d: nat, s: nat)
    requires acc < Pow2(s)
    ensures Or(U32(acc), U32(d * Pow2(s))) == U32(acc + d * Pow2(s))
  {
    if s < 32 {
      var q, r := SplitShift(d, s);
      OrDisjoint(acc, r, s);
      TruncateSum(q, r * Pow2(s), acc);
    } else {
      var t := ShiftedOut(d, s);
      TruncateSum(t, 0, 0);
      ShiftTruncate(t, acc);
      OrZero(U32(acc));
    }
  }

  lemma Divide(d: nat, w: nat) returns (q: nat, r: nat)
    requires w > 0
    ensures d == q * w + r && r < w
  {
    q, r := d / w, d % w;
  }

  lemma SplitShift(d: nat, s: nat) returns (q: nat, r: nat)
    requires s < 32
    ensures d * Pow2(s) == q * 0x1_0000_0000 + r * Pow2(s)
    ensures 0 <= r * Pow2(s) && r * Pow2(s) + Pow2(s) <= 0x1_0000_0000
  {
    Pow2Small();
    Pow2Add(s, 32 - s);
    var p, w := Pow2(s), Pow2(32 - s);
    q, r := Divide(d, w);
    SplitProduct(d, q, r, w, p);
  }

  lemma SplitProduct(d: nat, q: nat, r: nat, w: nat, p: nat)
    requires d == q * w + r && r < w
    ensures d * p == q * (p * w) + r * p
    ensures 0 <= r * p && r * p + p <= p * w
  {
    assert (q * w + r) * p == q * (p * w) + r * p;
    MulAtLeast(w - r, p);
    assert (w - r) * p == p * w - r * p;
  }

  lemma ShiftedOut(d: nat, s: nat) returns (t: nat)
    requires s >= 32
    ensures d * Pow2(s) == t * 0x1_0000_0000
  {
    Pow2Small();
    Pow2Add(32, s - 32);
    var w := Pow2(s - 32);
    t := d * w;
    assert d * (0x1_0000_0000 * w) == (d * w) * 0x1_0000_0000;
  }

  lemma TruncateSum(q: int, r: nat, acc: nat)
    requires r + acc < 0x1_0000_0000
    ensures U32(q * 0x1_0000_0000 + r) == r
    ensures U32(acc + (q * 0x1_0000_0000 + r)) == acc + r
    ensures U32(acc) == acc
  {
  }

  lemma ShiftTruncate(q: int, acc: int)
    ensures U32(acc + q * 0x1_0000_0000) == U32(acc)
  {
  }

  /** Truncation respects addition and is the identity on the type's range. */
  lemma I32Congruent(x: int, y: int)
    requires U32(x) == U32(y)
    ensures I32(x) == I32(y)
  {
  }

  lemma I32Exact(x: int)
    requires -0x8000_0000 <= x < 0x8000_0000
    ensures I32(x) == x
  {
  }

  lemma I32OfU32(x: int)
    ensures I32(U32(x)) == I32(x) && U32(I32(x)) == U32(x)
  {
  }

  lemma U32Mul(x: int, y: int)
    ensures U32(U32(x) * y) == U32(x * y)
  {
    var m := 0x1_0000_0000;
    var q := x / m;
    assert x * y == U32(x) * y + (q * y) * m by {
      assert x == q * m + U32(x);
      assert (q * m + U32(x)) * y == (q * y) * m + U32(x) * y;
    }
    ProductMod(q * y, U32(x) * y, m);
  }
}
