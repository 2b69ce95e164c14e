/** Unsigned fixed-width values and the bitwise operators of Go.

    The interpreter works on `uint8` and `uint16` values.  They are modelled
    here as bounded integers, so that wrap-around is written out explicitly
    (`% 256`, `% 65536`) and the bitwise operators `&`, `|`, `^` are defined
    bit by bit on the binary expansion.  Shifts and masks with a constant
    operand are the usual arithmetic on unsigned values:
    `x >> k` is `x / 2^k`, `x & (2^k - 1)` is `x % 2^k`.
 */
module Bits {

  /** Go's `uint8`. */
  type Byte = x: int | 0 <= x < 256

  /** Go's `uint16`. */
  type Word = x: int | 0 <= x < 65536

  /** A 4-bit field of an instruction word. */
  type Nibble = x: int | 0 <= x < 16

  /** The 12-bit address field of an instruction word. */
  type Addr = x: int | 0 <= x < 4096

  function Pow2(k: nat): (p: nat)
    ensures p >= 1
  {
    if k == 0 then 1 else 2 * Pow2(k - 1)
  }

  /** Bit `k` of `x` (bit 0 is the least significant one). */
  predicate TestBit(x: nat, k: nat)
    decreases k
  {
    if k == 0 then x % 2 == 1 else TestBit(x / 2, k - 1)
  }

  /** The bitwise operators of Go, one bit at a time. */
  datatype BitOp = OrOp | AndOp | XorOp

  predicate Apply(op: BitOp, p: bool, q: bool) {
    match op
    case OrOp => p || q
    case AndOp => p && q
    case XorOp => p != q
  }

  /** `op` applied to the low `n` bits of `a` and `b`. */
  function Zip(op: BitOp, a: nat, b: nat, n: nat): (r: nat)
    decreases n
  {
    if n == 0 then 0
    else (if Apply(op, a % 2 == 1, b % 2 == 1) then 1 else 0) + 2 * Zip(op, a / 2, b / 2, n - 1)
  }

  function And8(a: Byte, b: Byte): Byte {
    ZipBound(AndOp, a, b, 8);
    Zip(AndOp, a, b, 8)
  }

  function Or8(a: Byte, b: Byte): Byte {
    ZipBound(OrOp, a, b, 8);
    Zip(OrOp, a, b, 8)
  }

  function Xor8(a: Byte, b: Byte): Byte {
    ZipBound(XorOp, a, b, 8);
    Zip(XorOp, a, b, 8)
  }

  function And16(a: Word, b: Word): Word {
    ZipBound(AndOp, a, b, 16);
    Zip(AndOp, a, b, 16)
  }

  function Or16(a: Word, b: Word): Word {
    ZipBound(OrOp, a, b, 16);
    Zip(OrOp, a, b, 16)
  }

  /** Go's `^x` on a `uint16`. */
  function Not16(x: Word): Word {
    65535 - x
  }

  lemma Pow2Values()
    ensures Pow2(4) == 16 && Pow2(8) == 256 && Pow2(16) == 65536
  {
    assert Pow2(4) == 16;
  }

  lemma {:induction false} Pow2Grows(a: nat, b: nat)
    requires a <= b
    ensures Pow2(a) <= Pow2(b)
    decreases b - a
  {
    if a < b {
      Pow2Grows(a, b - 1);
    }
  }

  /** Single-bit masks fit the width they are used at. */
  lemma Pow2Below(k: nat)
    ensures k < 8 ==> Pow2(k) < 256
    ensures k < 16 ==> Pow2(k) < 65536
  {
    Pow2Values();
    if k < 16 {
      Pow2Grows(k, 15);
      assert Pow2(16) == 2 * Pow2(15);
    }
    if k < 8 {
      Pow2Grows(k, 7);
      assert Pow2(8) == 2 * Pow2(7);
    }
  }

  lemma {:induction false} ZipBound(op: BitOp, a: nat, b: nat, n: nat)
    ensures Zip(op, a, b, n) < Pow2(n)
    ensures n == 8 ==> Zip(op, a, b, n) < 256
    ensures n == 16 ==> Zip(op, a, b, n) < 65536
    decreases n
  {
    Pow2Values();
    if n > 0 {
      ZipBound(op, a / 2, b / 2, n - 1);
    }
  }

  lemma TestBitStep(c: nat, r: nat, k: nat)
    requires c < 2
    ensures TestBit(c + 2 * r, k) == if k == 0 then c == 1 else TestBit(r, k - 1)
  {
    if k > 0 {
      assert (c + 2 * r) / 2 == r;
    }
  }

  /** Bit `k` of a zipped value is `op` of the operands' bits `k`, and no
      bit at or above `n` is set. */
  lemma {:induction false} ZipBit(op: BitOp, a: nat, b: nat, n: nat, k: nat)
    ensures TestBit(Zip(op, a, b, n), k) == (k < n && Apply(op, TestBit(a, k), TestBit(b, k)))
    decreases n
  {
    var c := if Apply(op, a % 2 == 1, b % 2 == 1) then 1 else 0;
    if n == 0 {
      ZeroHasNoBits(k);
    } else {
      TestBitStep(c, Zip(op, a / 2, b / 2, n - 1), k);
      if k > 0 {
        ZipBit(op, a / 2, b / 2, n - 1, k - 1);
      }
    }
  }

  lemma {:induction false} ZeroHasNoBits(k: nat)
    ensures !TestBit(0, k)
  {
    if k > 0 {
      ZeroHasNoBits(k - 1);
    }
  }

  /** The only bit of `2^m` is bit `m`. */
  lemma {:induction false} Pow2Bit(m: nat, k: nat)
    ensures TestBit(Pow2(m), k) == (k == m)
    decreases m
  {
    if m == 0 {
      if k > 0 {
        ZeroHasNoBits(k - 1);
      }
    } else {
      TestBitStep(0, Pow2(m - 1), k);
      if k > 0 {
        Pow2Bit(m - 1, k - 1);
      } else {
        assert Pow2(m) % 2 == 0;
      }
    }
  }

  /** A value is determined by its bits. */
  lemma {:induction false} BitsDetermine(a: nat, b: nat, n: nat)
    requires a < Pow2(n) && b < Pow2(n)
    requires forall k :: 0 <= k < n ==> TestBit(a, k) == TestBit(b, k)
    ensures a == b
    decreases n
  {
    if n > 0 {
      TestBitStep(a % 2, a / 2, 0);
      TestBitStep(b % 2, b / 2, 0);
      forall k | 0 <= k < n - 1
        ensures TestBit(a / 2, k) == TestBit(b / 2, k)
      {
        TestBitStep(a % 2, a / 2, k + 1);
        TestBitStep(b % 2, b / 2, k + 1);
      }
      BitsDetermine(a / 2, b / 2, n - 1);
    }
  }

  /** `x & 2^m` is either `2^m` or 0, depending on bit `m` of `x`. */
  lemma AndSingleBit(x: nat, m: nat, n: nat)
    requires m < n
    ensures Zip(AndOp, x, Pow2(m), n) != 0 <==> TestBit(x, m)
  {
    ZipBit(AndOp, x, Pow2(m), n, m);
    Pow2Bit(m, m);
    if TestBit(x, m) {
      if Zip(AndOp, x, Pow2(m), n) == 0 {
        ZeroHasNoBits(m);
      }
    } else {
      if Zip(AndOp, x, Pow2(m), n) != 0 {
        ZipBound(AndOp, x, Pow2(m), n);
        forall k | 0 <= k < n
          ensures TestBit(Zip(AndOp, x, Pow2(m), n), k) == TestBit(0, k)
        {
          ZipBit(AndOp, x, Pow2(m), n, k);
          Pow2Bit(m, k);
          ZeroHasNoBits(k);
        }
        BitsDetermine(Zip(AndOp, x, Pow2(m), n), 0, n);
      }
    }
  }

  /** The bits of `2^n - 1 - x` are the complements of those of `x`. */
  lemma {:induction false} ComplementBit(x: nat, n: nat, k: nat)
    requires x < Pow2(n) && k < n
    ensures TestBit(Pow2(n) - 1 - x, k) == !TestBit(x, k)
    decreases n
  {
    var c := x % 2;
    var r := x / 2;
    assert Pow2(n) - 1 - x == (1 - c) + 2 * (Pow2(n - 1) - 1 - r);
    TestBitStep(1 - c, Pow2(n - 1) - 1 - r, k);
    TestBitStep(c, r, k);
    if k > 0 {
      ComplementBit(r, n - 1, k - 1);
    }
  }

  lemma {:induction false} ZeroAnd(m: nat, n: nat)
    ensures Zip(AndOp, 0, m, n) == 0
    decreases n
  {
    if n > 0 {
      ZeroAnd(m / 2, n - 1);
    }
  }

  /** Every bit below `n` of `2^n - 1` is set. */
  lemma {:induction false} AllOnesBelow(x: nat, n: nat, k: nat)
    requires x == Pow2(n) - 1 && k < n
    ensures TestBit(x, k)
    decreases n
  {
    assert Pow2(n) == 2 * Pow2(n - 1);
    if k > 0 {
      AllOnesBelow(x / 2, n - 1, k - 1);
    }
  }

  lemma MulAtLeast(d: int, k: int)
    requires d > 0 && k >= 1
    ensures d * k >= d
  {
  }

  lemma ModUnique(a: int, d: int, q: int, r: int)
    requires d > 0 && 0 <= r < d && a == d * q + r
    ensures a % d == r && a / d == q
  {
    var q' := a / d;
    var r' := a % d;
    assert a == d * q' + r';
    assert d * q - d * q' == d * (q - q');
    if q > q' {
      MulAtLeast(d, q - q');
    } else if q < q' {
      MulAtLeast(d, q' - q);
    }
  }

  lemma HalfMod(a: nat, p: nat)
    requires p >= 1
    ensures a % (2 * p) == a % 2 + 2 * ((a / 2) % p)
  {
    var q := (a / 2) / p;
    var r := (a / 2) % p;
    ModUnique(a / 2, p, q, r);
    ModUnique(a, 2, a / 2, a % 2);
    assert a == (2 * p) * q + (2 * r + a % 2);
    ModUnique(a, 2 * p, q, 2 * r + a % 2);
  }

  /** Masking with `2^m - 1` keeps the low `m` bits: `x & (2^m - 1)` is
      `x % 2^m`. */
  lemma {:induction false} LowMask(a: nat, m: nat, n: nat)
    requires m <= n
    ensures Zip(AndOp, a, Pow2(m) - 1, n) == a % Pow2(m)
    decreases n
  {
    if m == 0 {
      ZeroAnd(a, n);
      ZipAndCommutes(a, 0, n);
    } else {
      var p := Pow2(m - 1);
      assert Pow2(m) == 2 * p;
      ModUnique(2 * p - 1, 2, p - 1, 1);
      LowMask(a / 2, m - 1, n - 1);
      var z := Zip(AndOp, a / 2, p - 1, n - 1);
      assert Zip(AndOp, a, 2 * p - 1, n) == a % 2 + 2 * z;
      HalfMod(a, p);
    }
  }

  lemma {:induction false} ZipAndCommutes(a: nat, b: nat, n: nat)
    ensures Zip(AndOp, a, b, n) == Zip(AndOp, b, a, n)
    decreases n
  {
    if n > 0 {
      ZipAndCommutes(a / 2, b / 2, n - 1);
    }
  }
}
