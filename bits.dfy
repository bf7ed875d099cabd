// Bit-level arithmetic on natural numbers.
//
// The calculator keeps its register in a u128. The model keeps it as a nat
// below 2^128 and describes every mask, shift and bitwise operator of the
// source on nats. This module holds the definitions shared by the register
// engine, the parsers and the legacy bit-vector engine, together with the
// division, modulo and bit-field facts that the rest of the model relies on.
module Bits {

  /** 2 raised to the n-th power. */
  function Pow2(n: nat): (p: nat)
    ensures p >= 1
  {
    if n == 0 then 1 else Pow2(n - 1) + Pow2(n - 1)
  }

  lemma {:induction false} Pow2Add(a: nat, b: nat)
    ensures Pow2(a + b) == Pow2(a) * Pow2(b)
    decreases b
  {
    if b > 0 {
      Pow2Add(a, b - 1);
      assert Pow2(a + b) == Pow2(a + b - 1) + Pow2(a + b - 1);
      assert Pow2(b) == Pow2(b - 1) + Pow2(b - 1);
    }
  }

  lemma Pow2Sub(a: nat, b: nat)
    requires a <= b
    ensures Pow2(b) == Pow2(a) * Pow2(b - a)
  {
    Pow2Add(a, b - a);
  }

  lemma Pow2Le(a: nat, b: nat)
    requires a <= b
    ensures Pow2(a) <= Pow2(b)
  {
    Pow2Sub(a, b);
    MulLe(Pow2(a), 1, Pow2(b - a));
  }

  lemma Pow2Lt(a: nat, b: nat)
    requires a < b
    ensures Pow2(a) < Pow2(b)
  {
    Pow2Le(a + 1, b);
  }

  /** Small powers used by the register engine. */
  lemma Pow2Small()
    ensures Pow2(1) == 2 && Pow2(2) == 4 && Pow2(3) == 8 && Pow2(4) == 16
    ensures Pow2(5) == 32 && Pow2(6) == 64 && Pow2(7) == 128 && Pow2(8) == 256
  {
    assert Pow2(4) == 16;
    Pow2Add(4, 4);
    Pow2Add(4, 3);
  }

  /** The limits of the unsigned machine words. */
  lemma Pow2Words()
    ensures Pow2(16) == 0x1_0000 && Pow2(32) == 0x1_0000_0000
    ensures Pow2(64) == 0x1_0000_0000_0000_0000
    ensures Pow2(127) == 0x8000_0000_0000_0000_0000_0000_0000_0000
    ensures Pow2(128) == 0x1_0000_0000_0000_0000_0000_0000_0000_0000
  {
    Pow2Small();
    Pow2Add(8, 8);
    Pow2Add(16, 16);
    Pow2Add(32, 32);
    Pow2Add(64, 64);
    Pow2Add(64, 63);
    Pow2Add(32, 31);
    Pow2Add(16, 15);
    Pow2Add(8, 7);
  }

  // ---------------------------------------------------------------------
  // Division and remainder
  // ---------------------------------------------------------------------

  lemma MulLe(a: nat, b: int, c: int)
    requires b <= c
    ensures a * b <= a * c
  {
    assert a * c - a * b == a * (c - b);
  }

  lemma MulSign(a: int, b: int)
    requires b > 0
    ensures a >= 1 ==> a * b >= b
    ensures a <= -1 ==> a * b <= -b
    ensures a >= 0 ==> a * b >= a
  {
    assert a * b - b == (a - 1) * b;
    assert a * b + b == (a + 1) * b;
    assert a * b - a == a * (b - 1);
  }

  /** Division by a positive divisor has a unique quotient and remainder. */
  lemma DivModUnique(x: int, d: int, q: int, r: int)
    requires d > 0 && 0 <= r < d && x == q * d + r
    ensures x / d == q && x % d == r
  {
    var k := x / d - q;
    assert k * d == r - x % d;
    MulSign(k, d);
  }

  lemma DivNat(x: int, d: int)
    requires x >= 0 && d > 0
    ensures x / d >= 0 && x / d <= x
  {
    MulSign(x / d, d);
  }

  lemma DivModSplit(x: nat, d: nat)
    requires d > 0
    ensures x == (x / d) * d + x % d && x % d < d
  {
  }

  lemma ModLess(x: nat, d: nat)
    requires x < d
    ensures x % d == x && x / d == 0
  {
    DivModUnique(x, d, 0, x);
  }

  lemma MulDiv(q: nat, d: nat, r: nat)
    requires d > 0 && r < d
    ensures (q * d + r) / d == q && (q * d + r) % d == r
  {
    DivModUnique(q * d + r, d, q, r);
  }

  /** Peeling a divisor n = a·b at once is peeling a, then b. */
  lemma DivModMul(x: nat, a: nat, b: nat, n: nat)
    requires a > 0 && b > 0 && n == a * b
    ensures x / n >= 0 && x / n == x / a / b
    ensures x % n == (x / a) % b * a + x % a
  {
    var q1, r1 := x / a, x % a;
    DivNat(x, a);
    var q2, r2 := q1 / b, q1 % b;
    assert x == (q2 * b + r2) * a + r1;
    assert x == q2 * (a * b) + (r2 * a + r1);
    MulLe(a, r2, b - 1);
    assert r2 * a + r1 < a * b;
    DivModUnique(x, a * b, q2, r2 * a + r1);
  }

  lemma ModMod(y: nat, q: nat, r: nat, n: nat)
    requires q > 0 && r > 0 && n == q * r
    ensures (y % n) % q == y % q
  {
    DivModMul(y, q, r, n);
    MulDiv((y / q) % r, q, y % q);
  }

  lemma ModDiv(x: nat, p: nat, m: nat, n: nat)
    requires p > 0 && m > 0 && n == p * m
    ensures (x % n) / p == (x / p) % m
  {
    DivModMul(x, p, m, n);
    MulDiv((x / p) % m, p, x % p);
  }

  lemma DivBound(x: nat, k: nat, n: nat)
    requires k <= n && x < Pow2(n)
    ensures x / Pow2(k) < Pow2(n - k)
  {
    var p, q := Pow2(k), Pow2(n - k);
    Pow2Sub(k, n);
    DivNat(x, p);
    if x / p >= q {
      MulLe(p, q, x / p);
    }
  }

  lemma ModPow2Mul(x: nat, k: nat, m: nat)
    requires k <= m
    ensures (x % Pow2(m)) % Pow2(k) == x % Pow2(k)
  {
    Pow2Sub(k, m);
    ModMod(x, Pow2(k), Pow2(m - k), Pow2(m));
  }

  // ---------------------------------------------------------------------
  // Bit fields
  // ---------------------------------------------------------------------

  /** Bit i of x is set. */
  predicate Bit(x: nat, i: nat)
  {
    (x / Pow2(i)) % 2 == 1
  }

  /** The w bits of x starting at bit l, as a number. */
  function Field(x: nat, l: nat, w: nat): (f: nat)
    ensures f < Pow2(w)
  {
    (x / Pow2(l)) % Pow2(w)
  }

  /** x with its w bits starting at bit l replaced by the low w bits of v. */
  function WithField(x: nat, l: nat, w: nat, v: nat): nat
  {
    x % Pow2(l) + (v % Pow2(w)) * Pow2(l) + (x / Pow2(l + w)) * Pow2(l + w)
  }

  lemma DecomposeGen(x: nat, p: nat, q: nat, n: nat)
    requires p > 0 && q > 0 && n == p * q
    ensures x == x % p + (x / p) % q * p + x / n * n
  {
    DivModMul(x, p, q, n);
    DivNat(x, p);
    var d := x / p;
    assert x == d * p + x % p;
    assert d == d % q + d / q * q;
    assert d * p == d % q * p + d / q * q * p;
    assert x / n * n == d / q * q * p;
  }

  lemma AssembleLow(lo: nat, f: nat, hi: nat, p: nat, q: nat, n: nat)
    requires p > 0 && q > 0 && n == p * q && lo < p && f < q
    ensures var y := lo + f * p + hi * n;
      y % p == lo && y / p == f + hi * q
  {
    var u := f + hi * q;
    assert hi * n == hi * q * p;
    assert lo + f * p + hi * n == u * p + lo;
    MulDiv(u, p, lo);
  }

  lemma AssembleHigh(lo: nat, f: nat, hi: nat, p: nat, q: nat, n: nat)
    requires p > 0 && q > 0 && n == p * q && lo < p && f < q
    ensures lo + f * p + hi * n == hi * n + (lo + f * p)
    ensures (lo + f * p + hi * n) / n == hi
  {
    MulLe(p, f, q - 1);
    assert p * (q - 1) == n - p;
    MulDiv(hi, n, lo + f * p);
  }

  lemma AssembleGen(lo: nat, f: nat, hi: nat, p: nat, q: nat, n: nat)
    requires p > 0 && q > 0 && n == p * q && lo < p && f < q
    ensures var y := lo + f * p + hi * n;
      y % p == lo && (y / p) % q == f && y / n == hi && y / p == f + hi * q
  {
    AssembleLow(lo, f, hi, p, q, n);
    AssembleHigh(lo, f, hi, p, q, n);
    MulDiv(hi, q, f);
  }

  /** Every nat is its bits below l, plus its field, plus its bits above the field. */
  lemma Decompose(x: nat, l: nat, w: nat)
    ensures x == x % Pow2(l) + Field(x, l, w) * Pow2(l) + (x / Pow2(l + w)) * Pow2(l + w)
  {
    Pow2Add(l, w);
    DecomposeGen(x, Pow2(l), Pow2(w), Pow2(l + w));
  }

  /** A number assembled from a low part, a field and a high part has exactly those parts. */
  lemma Assemble(lo: nat, f: nat, hi: nat, l: nat, w: nat)
    requires lo < Pow2(l) && f < Pow2(w)
    ensures var y := lo + f * Pow2(l) + hi * Pow2(l + w);
      y % Pow2(l) == lo && Field(y, l, w) == f && y / Pow2(l + w) == hi
  {
    Pow2Add(l, w);
    AssembleGen(lo, f, hi, Pow2(l), Pow2(w), Pow2(l + w));
  }

  /** Two numbers with the same low part, field and high part are equal. */
  lemma SameParts(x: nat, y: nat, l: nat, w: nat)
    requires x % Pow2(l) == y % Pow2(l) && Field(x, l, w) == Field(y, l, w)
    requires x / Pow2(l + w) == y / Pow2(l + w)
    ensures x == y
  {
    Decompose(x, l, w);
    Decompose(y, l, w);
  }

  /**
   * Writing a field and reading it back yields the low w bits of the value;
   * the bits below and above the field are those of x.
   */
  lemma FieldOfWithField(x: nat, l: nat, w: nat, v: nat)
    ensures Field(WithField(x, l, w, v), l, w) == v % Pow2(w)
    ensures WithField(x, l, w, v) % Pow2(l) == x % Pow2(l)
    ensures WithField(x, l, w, v) / Pow2(l + w) == x / Pow2(l + w)
  {
    Assemble(x % Pow2(l), v % Pow2(w), x / Pow2(l + w), l, w);
  }

  /** Writing back the field that is already there changes nothing. */
  lemma WithSameField(x: nat, l: nat, w: nat)
    ensures WithField(x, l, w, Field(x, l, w)) == x
  {
    Decompose(x, l, w);
    ModLess(Field(x, l, w), Pow2(w));
  }

  /** Of two writes to the same field the second wins. */
  lemma WithFieldTwice(x: nat, l: nat, w: nat, u: nat, v: nat)
    ensures WithField(WithField(x, l, w, u), l, w, v) == WithField(x, l, w, v)
  {
    FieldOfWithField(x, l, w, u);
  }

  /** A field below bit k is unaffected by reducing modulo 2^k. */
  lemma FieldOfLow(x: nat, l: nat, w: nat, k: nat)
    requires l + w <= k
    ensures Field(x % Pow2(k), l, w) == Field(x, l, w)
  {
    var p, m := Pow2(l), Pow2(k - l);
    Pow2Sub(l, k);
    Pow2Sub(w, k - l);
    ModDiv(x, p, m, Pow2(k));
    DivNat(x, p);
    ModMod(x / p, Pow2(w), Pow2(k - l - w), m);
  }

  /** A field above bit k is the same field of x / 2^k, moved down by k. */
  lemma FieldOfHigh(x: nat, k: nat, l: nat, w: nat)
    requires k <= l
    ensures Field(x / Pow2(k), l - k, w) == Field(x, l, w)
  {
    Pow2Sub(k, l);
    DivModMul(x, Pow2(k), Pow2(l - k), Pow2(l));
  }

  /** A field write leaves every field that does not overlap it alone. */
  lemma DisjointFields(x: nat, l1: nat, w1: nat, l2: nat, w2: nat, v: nat)
    requires l1 + w1 <= l2 || l2 + w2 <= l1
    ensures Field(WithField(x, l2, w2, v), l1, w1) == Field(x, l1, w1)
  {
    var y := WithField(x, l2, w2, v);
    FieldOfWithField(x, l2, w2, v);
    if l1 + w1 <= l2 {
      FieldOfLow(x, l1, w1, l2);
      FieldOfLow(y, l1, w1, l2);
    } else {
      FieldOfHigh(x, l2 + w2, l1, w1);
      FieldOfHigh(y, l2 + w2, l1, w1);
    }
  }

  lemma BoundGen(lo: nat, f: nat, hi: nat, p: nat, q: nat, r: nat, n: nat, m: nat)
    requires p > 0 && q > 0 && n == p * q && m == n * r
    requires lo < p && f < q && hi < r
    ensures lo + f * p + hi * n < m
  {
    MulLe(p, f, q - 1);
    MulLe(n, hi, r - 1);
  }

  /** A field write below bit n keeps a number below 2^n. */
  lemma WithFieldBound(x: nat, l: nat, w: nat, v: nat, n: nat)
    requires x < Pow2(n) && l + w <= n
    ensures WithField(x, l, w, v) < Pow2(n)
  {
    DivNat(x, Pow2(l + w));
    DivBound(x, l + w, n);
    Pow2Add(l, w);
    Pow2Sub(l + w, n);
    BoundGen(x % Pow2(l), v % Pow2(w), x / Pow2(l + w), Pow2(l), Pow2(w), Pow2(n - (l + w)),
             Pow2(l + w), Pow2(n));
  }

  /** Bits outside the written field keep their value. */
  lemma WithFieldKeepsOtherBits(x: nat, l: nat, w: nat, v: nat, i: nat)
    requires i < l || l + w <= i
    ensures Bit(WithField(x, l, w, v), i) <==> Bit(x, i)
  {
    DisjointFields(x, i, 1, l, w, v);
    assert Pow2(1) == 2;
  }

  /** A field write keeps every bit outside the field. */
  lemma WithFieldOutside(x: nat, l: nat, w: nat, v: nat)
    ensures forall i: nat :: i < l || l + w <= i ==> (Bit(WithField(x, l, w, v), i) <==> Bit(x, i))
  {
    forall i: nat | i < l || l + w <= i
      ensures Bit(WithField(x, l, w, v), i) <==> Bit(x, i)
    {
      WithFieldKeepsOtherBits(x, l, w, v, i);
    }
  }

  /** Bits inside the written field take the bits of the value. */
  lemma WithFieldSetsBits(x: nat, l: nat, w: nat, v: nat, i: nat)
    requires l <= i < l + w
    ensures Bit(WithField(x, l, w, v), i) <==> Bit(v, i - l)
  {
    FieldOfWithField(x, l, w, v);
    BitOfFieldValue(WithField(x, l, w, v), l, w, v, i);
  }

  /** When the field of y at l holds the low w bits of v, its bits are those of v. */
  lemma BitOfFieldValue(y: nat, l: nat, w: nat, v: nat, i: nat)
    requires l <= i < l + w && Field(y, l, w) == v % Pow2(w)
    ensures Bit(y, i) <==> Bit(v, i - l)
  {
    var f := Field(y, l, w);
    DivNat(y, Pow2(l));
    assert Field(y, i, 1) == Field(y / Pow2(l), i - l, 1) by { FieldOfHigh(y, l, i, 1); }
    assert Field(y / Pow2(l), i - l, 1) == Field(f, i - l, 1) by { FieldOfLow(y / Pow2(l), i - l, 1, w); }
    assert Field(f, i - l, 1) == Field(v, i - l, 1) by { FieldOfLow(v, i - l, 1, w); }
    BitIsField(y, i);
    BitIsField(v, i - l);
  }

  /** Bit i is the one-bit field at i. */
  lemma BitIsField(x: nat, i: nat)
    ensures Bit(x, i) <==> Field(x, i, 1) == 1
  {
    assert Pow2(1) == 2;
  }

  // ---------------------------------------------------------------------
  // Bitwise operators
  // ---------------------------------------------------------------------

  datatype BitOp = AndOp | OrOp | XorOp

  /** The operator on one pair of bits, each 0 or 1. */
  function OpBit(op: BitOp, x: nat, y: nat): nat
  {
    match op
    case AndOp => if x == 1 && y == 1 then 1 else 0
    case OrOp => if x == 1 || y == 1 then 1 else 0
    case XorOp => if x != y then 1 else 0
  }

  /** The operator applied bit by bit, least significant bit first. */
  function Bitwise(op: BitOp, a: nat, b: nat): nat
    decreases a + b
  {
    if a == 0 && b == 0 then 0
    else 2 * Bitwise(op, a / 2, b / 2) + OpBit(op, a % 2, b % 2)
  }

  /** `a & b` */
  function And(a: nat, b: nat): nat { Bitwise(AndOp, a, b) }
  /** `a | b` */
  function Or(a: nat, b: nat): nat { Bitwise(OrOp, a, b) }
  /** `a ^ b` */
  function Xor(a: nat, b: nat): nat { Bitwise(XorOp, a, b) }

  lemma BitwiseUnfold(op: BitOp, a: nat, b: nat)
    ensures Bitwise(op, a, b) == 2 * Bitwise(op, a / 2, b / 2) + OpBit(op, a % 2, b % 2)
  {
  }

  /** Halving, then reducing modulo p, is reducing modulo 2p, then halving. */
  lemma HalfSplit(a: nat, p: nat, n: nat)
    requires p > 0 && n == 2 * p
    ensures a / n >= 0 && (a % n) / 2 == (a / 2) % p && (a % n) % 2 == a % 2 && a / n == a / 2 / p
  {
    DivModMul(a, 2, p, n);
    DivModUnique(a % n, 2, (a / 2) % p, a % 2);
  }

  lemma SplitAlgebra(whole: int, half: int, low: int, lowHalf: int, high: int, bit: int, p: int, n: int)
    requires whole == 2 * half + bit && half == lowHalf + high * p
    requires low == 2 * lowHalf + bit && n == 2 * p
    ensures whole == low + high * n
  {
  }

  /**
   * A bitwise operator acts separately on the bits below k and on the bits
   * from k up: the fact behind every mask identity of the engine.
   */
  lemma {:induction false} BitwiseSplit(op: BitOp, a: nat, b: nat, k: nat)
    ensures Bitwise(op, a, b)
         == Bitwise(op, a % Pow2(k), b % Pow2(k)) + Bitwise(op, a / Pow2(k), b / Pow2(k)) * Pow2(k)
    decreases k
  {
    if k > 0 {
      var p, n := Pow2(k - 1), Pow2(k);
      BitwiseSplit(op, a / 2, b / 2, k - 1);
      HalfSplit(a, p, n);
      HalfSplit(b, p, n);
      BitwiseUnfold(op, a, b);
      BitwiseUnfold(op, a % n, b % n);
      SplitAlgebra(Bitwise(op, a, b), Bitwise(op, a / 2, b / 2), Bitwise(op, a % n, b % n),
                   Bitwise(op, (a / 2) % p, (b / 2) % p), Bitwise(op, a / n, b / n),
                   OpBit(op, a % 2, b % 2), p, n);
    }
  }

  lemma PartsAlgebra(whole: int, low: int, upper: int, mid: int, high: int, p: int, q: int, n: int)
    requires whole == low + upper * p && upper == mid + high * q && n == p * q
    ensures whole == low + mid * p + high * n
  {
    assert upper * p == mid * p + high * q * p;
  }

  /** The bits of a / 2^l split once more at w. */
  lemma BitwiseUpper(op: BitOp, a: nat, b: nat, l: nat, w: nat)
    ensures a / Pow2(l) >= 0 && b / Pow2(l) >= 0 && a / Pow2(l + w) >= 0 && b / Pow2(l + w) >= 0
    ensures Bitwise(op, a / Pow2(l), b / Pow2(l))
         == Bitwise(op, Field(a, l, w), Field(b, l, w)) + Bitwise(op, a / Pow2(l + w), b / Pow2(l + w)) * Pow2(w)
  {
    var p, q := Pow2(l), Pow2(w);
    DivNat(a, p);
    DivNat(b, p);
    DivNat(a, Pow2(l + w));
    DivNat(b, Pow2(l + w));
    BitwiseSplit(op, a / p, b / p, w);
    Pow2Add(l, w);
    DivModMul(a, p, q, Pow2(l + w));
    DivModMul(b, p, q, Pow2(l + w));
  }

  /**
   * A bitwise operator acts separately on the bits below l, the field of w
   * bits at l, and the bits above that field.
   */
  lemma BitwiseParts(op: BitOp, a: nat, b: nat, l: nat, w: nat)
    ensures a / Pow2(l + w) >= 0 && b / Pow2(l + w) >= 0
    ensures Bitwise(op, a, b)
         == Bitwise(op, a % Pow2(l), b % Pow2(l))
          + Bitwise(op, Field(a, l, w), Field(b, l, w)) * Pow2(l)
          + Bitwise(op, a / Pow2(l + w), b / Pow2(l + w)) * Pow2(l + w)
  {
    DivNat(a, Pow2(l));
    DivNat(b, Pow2(l));
    BitwiseUpper(op, a, b, l, w);
    BitwiseSplit(op, a, b, l);
    Pow2Add(l, w);
    PartsAlgebra(Bitwise(op, a, b), Bitwise(op, a % Pow2(l), b % Pow2(l)),
                 Bitwise(op, a / Pow2(l), b / Pow2(l)),
                 Bitwise(op, Field(a, l, w), Field(b, l, w)),
                 Bitwise(op, a / Pow2(l + w), b / Pow2(l + w)), Pow2(l), Pow2(w), Pow2(l + w));
  }

  lemma {:induction false} BitwiseZeroRight(op: BitOp, a: nat)
    ensures Bitwise(op, a, 0) == (if op == AndOp then 0 else a)
    decreases a
  {
    if a > 0 {
      BitwiseZeroRight(op, a / 2);
      BitwiseUnfold(op, a, 0);
    }
  }

  lemma {:induction false} BitwiseZeroLeft(op: BitOp, b: nat)
    ensures Bitwise(op, 0, b) == (if op == AndOp then 0 else b)
    decreases b
  {
    if b > 0 {
      BitwiseZeroLeft(op, b / 2);
      BitwiseUnfold(op, 0, b);
    }
  }

  lemma BoundAlgebra(whole: int, half: int, bit: int, p: int)
    requires whole == 2 * half + bit && 0 <= bit <= 1 && half < p
    ensures whole < 2 * p
  {
  }

  /** Bitwise operators on n-bit numbers yield n-bit numbers. */
  lemma {:induction false} BitwiseBound(op: BitOp, a: nat, b: nat, n: nat)
    requires a < Pow2(n) && b < Pow2(n)
    ensures Bitwise(op, a, b) < Pow2(n)
    decreases n
  {
    if n > 0 {
      BitwiseBound(op, a / 2, b / 2, n - 1);
      BitwiseUnfold(op, a, b);
      BoundAlgebra(Bitwise(op, a, b), Bitwise(op, a / 2, b / 2), OpBit(op, a % 2, b % 2), Pow2(n - 1));
    }
  }

  lemma OnesStep(a: nat, p: nat, m: nat)
    requires p >= 1 && m == 2 * p
    ensures (m - 1) / 2 == p - 1 && (m - 1) % 2 == 1
    ensures a / 2 >= 0 && a % m == 2 * ((a / 2) % p) + a % 2
  {
    DivModUnique(m - 1, 2, p - 1, 1);
    DivModMul(a, 2, p, m);
  }

  lemma OnesAlgebra(whole: int, half: int, lowHalf: int, bit: nat, mbit: nat, amod: int)
    requires whole == 2 * half + OpBit(AndOp, bit, mbit) && half == lowHalf
    requires mbit == 1 && bit <= 1 && amod == 2 * lowHalf + bit
    ensures whole == amod
  {
  }

  /** And-ing with n ones keeps exactly the low n bits. */
  lemma {:induction false} AndOnes(a: nat, n: nat)
    ensures And(a, Pow2(n) - 1) == a % Pow2(n)
    decreases n
  {
    if n == 0 {
      BitwiseZeroRight(AndOp, a);
    } else {
      var p, m := Pow2(n - 1), Pow2(n);
      OnesStep(a, p, m);
      AndOnes(a / 2, n - 1);
      BitwiseUnfold(AndOp, a, m - 1);
      OnesAlgebra(And(a, m - 1), And(a / 2, (m - 1) / 2), (a / 2) % p, a % 2, (m - 1) % 2, a % m);
    }
  }

  /** `AndOnes` for a mask given by value. */
  lemma AndOnesAt(a: nat, n: nat, m: nat)
    requires m == Pow2(n) - 1
    ensures And(a, m) == a % Pow2(n)
  {
    AndOnes(a, n);
  }

  /** And-ing with 2^i isolates bit i. */
  lemma AndPow2(x: nat, i: nat)
    ensures And(x, Pow2(i)) == if Bit(x, i) then Pow2(i) else 0
  {
    var p := Pow2(i);
    BitwiseSplit(AndOp, x, p, i);
    MulDiv(1, p, 0);
    BitwiseZeroRight(AndOp, x % p);
    DivNat(x, p);
    var y := x / p;
    BitwiseUnfold(AndOp, y, 1);
    BitwiseZeroRight(AndOp, y / 2);
  }

  // ---------------------------------------------------------------------
  // 128-bit words
  // ---------------------------------------------------------------------

  /** `x << k` on a u128: bits pushed past bit 127 are lost; k >= 128 panics. */
  function Shl(x: nat, k: nat): (r: nat)
    requires k < 128
    ensures r < Pow2(128)
  {
    (x * Pow2(k)) % Pow2(128)
  }

  /** `x >> k` on a u128; k >= 128 panics. */
  function Shr(x: nat, k: nat): nat
    requires k < 128
  {
    x / Pow2(k)
  }

  /** `!x` on a u128. */
  function Not128(x: nat): (r: nat)
    requires x < Pow2(128)
    ensures r < Pow2(128) && x + r == Pow2(128) - 1
  {
    Pow2(128) - 1 - x
  }

  /** A value below 2^(n-k) survives a left shift by k within n bits. */
  lemma ShiftFits(x: nat, k: nat, n: nat)
    requires k <= n && x < Pow2(n - k)
    ensures x * Pow2(k) < Pow2(n)
  {
    var p, q := Pow2(k), Pow2(n - k);
    Pow2Sub(k, n);
    MulLe(p, x, q - 1);
  }

  /** Within n bits, a left shift by k loses nothing when the value fits in n - k bits. */
  lemma ShiftFitsMod(x: nat, k: nat, n: nat)
    requires k <= n && x < Pow2(n - k)
    ensures (x * Pow2(k)) % Pow2(n) == x * Pow2(k)
  {
    ShiftFits(x, k, n);
    ModLess(x * Pow2(k), Pow2(n));
  }

  /** A u128 shift left by k loses nothing when the value fits in 128 - k bits. */
  lemma ShlNoLoss(x: nat, k: nat)
    requires k < 128 && x < Pow2(128 - k)
    ensures Shl(x, k) == x * Pow2(k)
  {
    ShiftFitsMod(x, k, 128);
  }

  /** Within n bits, a left shift by k loses nothing when the value fits in w <= n - k bits. */
  lemma ShiftFitsIn(x: nat, k: nat, w: nat, n: nat)
    requires k + w <= n && x < Pow2(w)
    ensures (x * Pow2(k)) % Pow2(n) == x * Pow2(k)
  {
    Pow2Add(w, k);
    Pow2Le(w + k, n);
    FitsBelow(x, Pow2(k), Pow2(w), Pow2(n));
    MulLe(x, 0, Pow2(k));
    ModLess(x * Pow2(k), Pow2(n));
  }

  lemma FitsBelow(x: nat, p: nat, q: nat, t: nat)
    requires x < q && q * p <= t
    ensures x * p < t || p == 0
  {
    MulLe(p, x, q - 1);
  }

  /** A u128 shift left by k loses nothing when the value fits in w <= 128 - k bits. */
  lemma ShlFits(x: nat, k: nat, w: nat)
    requires k < 128 && k + w <= 128 && x < Pow2(w)
    ensures Shl(x, k) == x * Pow2(k)
  {
    ShiftFitsIn(x, k, w, 128);
  }

  /** A u128 shift left by k keeps the low w = 128 - k bits of the value. */
  lemma ShlKeepsLow(x: nat, k: nat, w: nat)
    requires k < 128 && k + w == 128
    ensures Shl(x, k) == (x % Pow2(w)) * Pow2(k)
  {
    ShiftLeftMod(x, k, 128);
  }

  /** The parts of the mask `(2^w - 1) << l`. */
  lemma FieldMaskParts(l: nat, w: nat)
    ensures var m := (Pow2(w) - 1) * Pow2(l);
      m % Pow2(l) == 0 && Field(m, l, w) == Pow2(w) - 1 && m / Pow2(l + w) == 0
  {
    Assemble(0, Pow2(w) - 1, 0, l, w);
  }

  lemma ClearMaskAlgebra(p: int, q: int, r: int, m: int, t: int, c: int)
    requires p >= 1 && q >= 1 && r >= 1 && m == p * q && t == m * r && c == t - 1 - (q - 1) * p
    ensures 0 <= c && c == (p - 1) + 0 * p + (r - 1) * m && (q - 1) * p < t
  {
    assert (q - 1) * p == m - p;
    assert (r - 1) * m == t - m;
    MulLe(p as nat, 1, q);
    MulLe(m as nat, 1, r);
  }

  lemma AssembleAt(y: nat, lo: nat, f: nat, hi: nat, l: nat, w: nat)
    requires lo < Pow2(l) && f < Pow2(w) && y == lo + f * Pow2(l) + hi * Pow2(l + w)
    ensures y % Pow2(l) == lo && Field(y, l, w) == f && y / Pow2(l + w) == hi
  {
    Assemble(lo, f, hi, l, w);
  }

  /** The parts of c, the n-bit complement of the mask `(2^w - 1) << l`. */
  lemma ComplementMaskParts(l: nat, w: nat, n: nat, m: int, c: int)
    requires l + w <= n && m == (Pow2(w) - 1) * Pow2(l) && c == Pow2(n) - 1 - m
    ensures c >= 0 && c % Pow2(l) == Pow2(l) - 1 && Field(c, l, w) == 0
    ensures c / Pow2(l + w) == Pow2(n - (l + w)) - 1
    ensures (Pow2(w) - 1) * Pow2(l) < Pow2(n)
  {
    Pow2Add(l, w);
    Pow2Sub(l + w, n);
    ClearMaskAlgebra(Pow2(l), Pow2(w), Pow2(n - (l + w)), Pow2(l + w), Pow2(n), c);
    AssembleAt(c, Pow2(l) - 1, 0, Pow2(n - (l + w)) - 1, l, w);
  }

  /**
   * `x & !((2^w - 1) << l)` clears the field [l, l + w) of a u128 and keeps
   * every other bit.
   */
  lemma ClearField(x: nat, l: nat, w: nat)
    requires x < Pow2(128) && l + w <= 128
    ensures 0 <= (Pow2(w) - 1) * Pow2(l) < Pow2(128)
    ensures And(x, Not128((Pow2(w) - 1) * Pow2(l))) == WithField(x, l, w, 0)
  {
    var m := (Pow2(w) - 1) * Pow2(l);
    FieldMaskBelow(l, w, 128, m);
    ClearFieldWithin(x, l, w, 128, m, Not128(m));
  }

  /** The mask `(2^w - 1) << l` fits in n bits when l + w <= n. */
  lemma FieldMaskBelow(l: nat, w: nat, n: nat, m: int)
    requires l + w <= n && m == (Pow2(w) - 1) * Pow2(l)
    ensures 0 <= m < Pow2(n)
  {
    assert Pow2(n) == Pow2(l) * Pow2(n - l) by { Pow2Sub(l, n); }
    assert Pow2(w) <= Pow2(n - l) by { Pow2Le(w, n - l); }
    MaskAlgebra(Pow2(w), Pow2(l), Pow2(n - l), Pow2(n));
  }

  lemma MaskAlgebra(a: int, b: int, c: int, t: int)
    requires 1 <= a <= c && 1 <= b && t == b * c
    ensures 0 <= (a - 1) * b < t
  {
    MulLe(b as nat, a - 1, c - 1);
    MulSign(a - 1, b);
  }

  /** Within n bits, and-ing with c, the complement of a field mask, clears that field. */
  lemma ClearFieldWithin(x: nat, l: nat, w: nat, n: nat, m: int, c: nat)
    requires x < Pow2(n) && l + w <= n && m == (Pow2(w) - 1) * Pow2(l) && c == Pow2(n) - 1 - m
    ensures And(x, c) == WithField(x, l, w, 0)
  {
    ComplementMaskParts(l, w, n, m, c);
    AndClearMask(x, c, l, w, n);
  }

  lemma AndClearMask(x: nat, c: nat, l: nat, w: nat, n: nat)
    requires x < Pow2(n) && l + w <= n
    requires c % Pow2(l) == Pow2(l) - 1 && Field(c, l, w) == 0
    requires c / Pow2(l + w) == Pow2(n - (l + w)) - 1
    ensures And(x, c) == WithField(x, l, w, 0)
  {
    DivNat(x, Pow2(l + w));
    BitwiseParts(AndOp, x, c, l, w);
    AndOnes(x % Pow2(l), l);
    ModPow2Mul(x, l, l);
    BitwiseZeroRight(AndOp, Field(x, l, w));
    AndOnes(x / Pow2(l + w), n - (l + w));
    DivBound(x, l + w, n);
    ModLess(x / Pow2(l + w), Pow2(n - (l + w)));
    ModLess(0, Pow2(w));
  }

  /** `x & ((2^w - 1) << l)` keeps only the field [l, l + w) of x. */
  lemma AndFieldMask(x: nat, l: nat, w: nat)
    ensures And(x, (Pow2(w) - 1) * Pow2(l)) == Field(x, l, w) * Pow2(l)
  {
    FieldMaskParts(l, w);
    AndMaskParts(x, (Pow2(w) - 1) * Pow2(l), l, w);
  }

  lemma AndMaskParts(x: nat, m: nat, l: nat, w: nat)
    requires m % Pow2(l) == 0 && Field(m, l, w) == Pow2(w) - 1 && m / Pow2(l + w) == 0
    ensures And(x, m) == Field(x, l, w) * Pow2(l)
  {
    DivNat(x, Pow2(l + w));
    BitwiseParts(AndOp, x, m, l, w);
    BitwiseZeroRight(AndOp, x % Pow2(l));
    AndOnes(Field(x, l, w), w);
    ModLess(Field(x, l, w), Pow2(w));
    BitwiseZeroRight(AndOp, x / Pow2(l + w));
  }

  /** Or-ing a field value into a cleared field is writing that field. */
  lemma OrIntoClearedField(x: nat, l: nat, w: nat, v: nat)
    requires v < Pow2(w)
    ensures Or(WithField(x, l, w, 0), v * Pow2(l)) == WithField(x, l, w, v)
  {
    var c, s := WithField(x, l, w, 0), v * Pow2(l);
    FieldOfWithField(x, l, w, 0);
    ModLess(0, Pow2(w));
    ShiftedParts(v, l, w);
    OrParts(c, s, x, l, w, v);
  }

  /** The parts of v << l for a v of at most w bits. */
  lemma ShiftedParts(v: nat, l: nat, w: nat)
    requires v < Pow2(w)
    ensures (v * Pow2(l)) % Pow2(l) == 0 && Field(v * Pow2(l), l, w) == v
    ensures (v * Pow2(l)) / Pow2(l + w) == 0
  {
    MulDiv(v, Pow2(l), 0);
    ModLess(v, Pow2(w));
    Pow2Add(l, w);
    DivModMul(v * Pow2(l), Pow2(l), Pow2(w), Pow2(l + w));
  }

  lemma OrParts(c: nat, s: nat, x: nat, l: nat, w: nat, v: nat)
    requires v < Pow2(w)
    requires c % Pow2(l) == x % Pow2(l) && Field(c, l, w) == 0 && c / Pow2(l + w) == x / Pow2(l + w)
    requires s % Pow2(l) == 0 && Field(s, l, w) == v && s / Pow2(l + w) == 0
    ensures Or(c, s) == WithField(x, l, w, v)
  {
    DivNat(x, Pow2(l + w));
    BitwiseParts(OrOp, c, s, l, w);
    BitwiseZeroRight(OrOp, x % Pow2(l));
    BitwiseZeroLeft(OrOp, v);
    BitwiseZeroRight(OrOp, x / Pow2(l + w));
    ModLess(v, Pow2(w));
  }

  /** Or-ing a value shifted above the bits of a is addition. */
  lemma OrDisjoint(a: nat, v: nat, k: nat)
    requires a < Pow2(k)
    ensures Or(a, v * Pow2(k)) == a + v * Pow2(k)
  {
    BitwiseSplit(OrOp, a, v * Pow2(k), k);
    ModLess(a, Pow2(k));
    MulDiv(v, Pow2(k), 0);
    BitwiseZeroRight(OrOp, a);
    BitwiseZeroLeft(OrOp, v);
  }

  // ---------------------------------------------------------------------
  // Counting, measuring and reversing bits
  // ---------------------------------------------------------------------

  /** The number of bits needed to write x: 128 minus `leading_zeros` for a u128. */
  function BitLength(x: nat): nat
  {
    if x == 0 then 0 else 1 + BitLength(x / 2)
  }

  /** x needs exactly BitLength(x) bits. */
  lemma {:induction false} BitLengthBounds(x: nat)
    ensures x < Pow2(BitLength(x))
    ensures x > 0 ==> Pow2(BitLength(x) - 1) <= x
    decreases x
  {
    if x > 0 {
      BitLengthBounds(x / 2);
    }
  }

  /** A number below 2^n needs at most n bits. */
  lemma {:induction false} BitLengthLe(x: nat, n: nat)
    requires x < Pow2(n)
    ensures BitLength(x) <= n
    decreases x
  {
    if x > 0 {
      BitLengthLe(x / 2, n - 1);
    }
  }

  /** The number of set bits among the low n bits of x. */
  function Ones(x: nat, n: nat): (c: nat)
    ensures c <= n
  {
    if n == 0 then 0 else x % 2 + Ones(x / 2, n - 1)
  }

  /** The low n bits of x in reverse order. */
  function Reverse(x: nat, n: nat): (r: nat)
    ensures r < Pow2(n)
  {
    if n == 0 then 0 else (x % 2) * Pow2(n - 1) + Reverse(x / 2, n - 1)
  }

  /** Counting the low m bits is counting the low n bits, then the m - n bits above them. */
  lemma {:induction false} OnesSplit(x: nat, n: nat, m: nat)
    requires n <= m
    ensures x / Pow2(n) >= 0 && Ones(x, m) == Ones(x, n) + Ones(x / Pow2(n), m - n)
    decreases n
  {
    DivNat(x, Pow2(n));
    if n > 0 {
      DivNat(x, 2);
      OnesSplit(x / 2, n - 1, m - 1);
      DivModMul(x, 2, Pow2(n - 1), Pow2(n));
    }
  }

  lemma {:induction false} OnesOfZero(k: nat)
    ensures Ones(0, k) == 0
    decreases k
  {
    if k > 0 {
      OnesOfZero(k - 1);
    }
  }

  lemma {:induction false} OnesOfOnes(k: nat)
    ensures Ones(Pow2(k) - 1, k) == k
    decreases k
  {
    if k > 0 {
      OnesStep(0, Pow2(k - 1), Pow2(k));
      OnesOfOnes(k - 1);
    }
  }

  /** A number of at most w bits has all its set bits among its low w bits. */
  lemma OnesOfNarrow(x: nat, w: nat, n: nat)
    requires x < Pow2(w) && w <= n
    ensures Ones(x, n) == Ones(x, w)
  {
    OnesSplit(x, w, n);
    ModLess(x, Pow2(w));
    OnesOfZero(n - w);
  }

  /** Only the low n bits of x are counted. */
  lemma {:induction false} OnesOfLow(x: nat, n: nat)
    ensures Ones(x % Pow2(n), n) == Ones(x, n)
    decreases n
  {
    if n > 0 {
      var p, m := Pow2(n - 1), Pow2(n);
      OnesStep(x, p, m);
      OnesOfLow(x / 2, n - 1);
      DivModUnique(x % m, 2, (x / 2) % p, x % 2);
    }
  }

  /** The n-bit complement of x has a one wherever x has a zero. */
  lemma {:induction false} OnesOfComplement(x: nat, n: nat)
    requires x < Pow2(n)
    ensures Ones(Pow2(n) - 1 - x, n) == n - Ones(x, n)
    decreases n
  {
    if n > 0 {
      var p := Pow2(n - 1);
      assert Pow2(1) == 2;
      DivBound(x, 1, n);
      DivModUnique(Pow2(n) - 1 - x, 2, p - 1 - x / 2, 1 - x % 2);
      OnesOfComplement(x / 2, n - 1);
    }
  }

  /**
   * Filling bits w up to n - 1 of a w-bit f with ones adds n - w to its
   * count of ones.
   */
  lemma OnesOfFilled(f: nat, w: nat, n: nat, v: nat, m: nat)
    requires f < Pow2(w) && w <= n && v == Pow2(n - w) - 1 && m == v * Pow2(w)
    ensures Ones(Or(f, m), n) == Ones(f, w) + (n - w)
  {
    OrAt(f, v, w, m);
    var y := f + m;
    assert y / Pow2(w) == v && y % Pow2(w) == f by {
      MulDiv(v, Pow2(w), f);
    }
    OnesSplit(y, w, n);
    assert Ones(y, w) == Ones(f, w) by {
      OnesOfLow(y, w);
    }
    assert Ones(y / Pow2(w), n - w) == n - w by {
      OnesOfOnes(n - w);
    }
  }

  /** Reversing m bits: the reversed low n bits move to the top, the rest follow below. */
  lemma {:induction false} ReverseSplit(x: nat, n: nat, m: nat)
    requires n <= m
    ensures x / Pow2(n) >= 0
    ensures Reverse(x, m) == Reverse(x, n) * Pow2(m - n) + Reverse(x / Pow2(n), m - n)
    decreases n
  {
    DivNat(x, Pow2(n));
    if n > 0 {
      ReverseSplit(x / 2, n - 1, m - 1);
      DivModMul(x, 2, Pow2(n - 1), Pow2(n));
      Pow2Add(n - 1, m - n);
      ReverseAlgebra(Reverse(x, m), Reverse(x / 2, m - 1), Reverse(x, n), Reverse(x / 2, n - 1),
                     Reverse(x / Pow2(n), m - n), x % 2, Pow2(m - 1), Pow2(n - 1), Pow2(m - n));
    }
  }

  lemma ReverseAlgebra(whole: int, half: int, low: int, lowHalf: int, rest: int, b: int,
                       pm: int, pn: int, q: int)
    requires whole == b * pm + half && half == lowHalf * q + rest
    requires low == b * pn + lowHalf && pm == pn * q
    ensures whole == low * q + rest
  {
    assert low * q == b * pn * q + lowHalf * q;
  }

  lemma {:induction false} ReverseOfZero(k: nat)
    ensures Reverse(0, k) == 0
    decreases k
  {
    if k > 0 {
      ReverseOfZero(k - 1);
    }
  }

  /** Reversing a w-bit number within n bits puts its w reversed bits at the top. */
  lemma ReverseNarrow(x: nat, w: nat, n: nat)
    requires x < Pow2(w) && w <= n
    ensures Reverse(x, n) / Pow2(n - w) == Reverse(x, w)
  {
    ReverseSplit(x, w, n);
    ModLess(x, Pow2(w));
    ReverseOfZero(n - w);
    MulDiv(Reverse(x, w), Pow2(n - w), 0);
  }

  /** Bitwise operators are symmetric in their operands. */
  lemma {:induction false} BitwiseComm(op: BitOp, a: nat, b: nat)
    ensures Bitwise(op, a, b) == Bitwise(op, b, a)
    decreases a + b
  {
    if a != 0 || b != 0 {
      BitwiseComm(op, a / 2, b / 2);
      BitwiseUnfold(op, a, b);
      BitwiseUnfold(op, b, a);
    }
  }

  /** Within n bits, a left shift by k keeps the low n - k bits of x, moved up by k. */
  lemma ShiftLeftMod(x: nat, k: nat, n: nat)
    requires k <= n
    ensures (x * Pow2(k)) % Pow2(n) == (x % Pow2(n - k)) * Pow2(k)
  {
    var p, q := Pow2(k), Pow2(n - k);
    Pow2Sub(k, n);
    var hi, lo := x / q, x % q;
    DivNat(x, q);
    ShiftSplitAlgebra(0, x, p, q, Pow2(n), hi, lo);
    ShiftFits(lo, k, n);
    MulDiv(hi, Pow2(n), lo * p);
  }

  /** Adding a multiple of 2^k to a number below 2^k, then reducing modulo 2^n. */
  lemma LowPlusShiftedMod(y: nat, v: nat, k: nat, n: nat)
    requires y < Pow2(k) && k <= n
    ensures (y + v * Pow2(k)) % Pow2(n) == y + (v % Pow2(n - k)) * Pow2(k)
  {
    var p, q := Pow2(k), Pow2(n - k);
    Pow2Sub(k, n);
    var hi, lo := v / q, v % q;
    DivNat(v, q);
    ShiftSplitAlgebra(y, v, p, q, Pow2(n), hi, lo);
    BoundGen(y, lo, 0, p, q, 1, Pow2(n), Pow2(n));
    MulDiv(hi, Pow2(n), y + lo * p);
  }

  /** Splitting v as hi * q + lo splits y + v * p over n = p * q. */
  lemma ShiftSplitAlgebra(y: int, v: int, p: int, q: int, n: int, hi: int, lo: int)
    requires v == hi * q + lo && n == p * q
    ensures y + v * p == hi * n + (y + lo * p)
  {
    assert v * p == hi * q * p + lo * p;
    assert hi * q * p == hi * n;
  }

  /** Adding a multiple of d does not change the remainder modulo d. */
  lemma ModShift(x: int, j: int, d: int)
    requires d > 0
    ensures (x + j * d) % d == x % d
  {
    DivModUnique(x + j * d, d, x / d + j, x % d);
  }

  /** Reducing modulo 2^m, then modulo 2^k, for k <= m, is reducing modulo 2^k, also for negative x. */
  lemma ModModInt(x: int, k: nat, m: nat)
    requires k <= m
    ensures (x % Pow2(m)) % Pow2(k) == x % Pow2(k)
  {
    Pow2Sub(k, m);
    ModModGen(x, Pow2(k), Pow2(m - k), Pow2(m));
  }

  lemma ModModGen(x: int, p: int, q: int, n: int)
    requires p > 0 && q > 0 && n == p * q
    ensures (x % n) % p == x % p
  {
    var r := x % n;
    DivNat(r, p);
    var a, b := x / n, r / p;
    assert x == a * n + r;
    assert r == b * p + r % p;
    assert a * n == a * q * p;
    assert x == (a * q + b) * p + r % p;
    DivModUnique(x, p, a * q + b, r % p);
  }

  /** Bit i of x survives reducing modulo 2^n when i < n. */
  lemma BitOfMod(x: nat, i: nat, n: nat)
    requires i < n
    ensures Bit(x % Pow2(n), i) <==> Bit(x, i)
  {
    FieldOfLow(x, i, 1, n);
    assert Pow2(1) == 2;
  }

  /** The top bit of a w-bit number is set exactly when the number is at least 2^(w-1). */
  lemma TopBit(f: nat, w: nat)
    requires 1 <= w && f < Pow2(w)
    ensures Bit(f, w - 1) <==> f >= Pow2(w - 1)
  {
    var p := Pow2(w - 1);
    assert Pow2(w) == 2 * p;
    DivBound(f, w - 1, w);
    assert Pow2(1) == 2;
    DivNat(f, p);
    MulSign(f / p, p);
    ModLess(f / p, 2);
  }

  /** A number between 2^(k-1) and 2^k needs exactly k bits. */
  lemma BitLengthExact(x: nat, k: nat)
    requires 1 <= k && Pow2(k - 1) <= x < Pow2(k)
    ensures BitLength(x) == k
  {
    BitLengthLe(x, k);
    BitLengthBounds(x);
    if BitLength(x) < k {
      Pow2Le(BitLength(x), k - 1);
    }
  }

  /** The low k bits of 2^n - 1, for k <= n, are k ones. */
  lemma OnesMod(n: nat, k: nat)
    requires k <= n
    ensures (Pow2(n) - 1) % Pow2(k) == Pow2(k) - 1
  {
    Pow2Sub(k, n);
    OnesModGen(Pow2(n), Pow2(k), Pow2(n - k));
  }

  lemma OnesModGen(n: int, p: int, q: int)
    requires p >= 1 && q >= 1 && n == p * q
    ensures (n - 1) % p == p - 1
  {
    assert n - 1 == (q - 1) * p + (p - 1);
    DivModUnique(n - 1, p, q - 1, p - 1);
  }

  /** Reducing modulo 2^n keeps exactly the bits below n. */
  lemma LowBits(x: nat, n: nat)
    ensures x % Pow2(n) < Pow2(n)
    ensures forall i: nat :: i < n ==> (Bit(x % Pow2(n), i) <==> Bit(x, i))
  {
    forall i: nat | i < n
      ensures Bit(x % Pow2(n), i) <==> Bit(x, i)
    {
      BitOfMod(x, i, n);
    }
  }

  /** `OrDisjoint` for a shifted value given by value. */
  lemma OrAt(a: nat, v: nat, k: nat, m: nat)
    requires a < Pow2(k) && m == v * Pow2(k)
    ensures Or(a, m) == a + m
  {
    OrDisjoint(a, v, k);
  }

  /** Bits k up to n - 1 set: (2^(n-k) - 1) * 2^k is 2^n - 2^k. */
  lemma OnesShifted(k: nat, n: nat)
    requires k <= n
    ensures (Pow2(n - k) - 1) * Pow2(k) == Pow2(n) - Pow2(k)
  {
    Pow2Sub(k, n);
  }

  /** Shifting w - k ones left by k, within n >= w bits, sets bits k up to w - 1. */
  lemma ShlOnes(m: nat, k: nat, w: nat, n: nat, r: int)
    requires k <= w <= n && m == Pow2(w - k) - 1 && r == Pow2(w) - Pow2(k)
    ensures (m * Pow2(k)) % Pow2(n) == r
  {
    OnesShifted(k, w);
    Pow2Le(k, w);
    Pow2Le(w, n);
    ModLess(r, Pow2(n));
  }

  /** `AndPow2` for a power of two given by value. */
  lemma AndPow2At(x: nat, i: nat, m: nat)
    requires m == Pow2(i)
    ensures And(x, m) == if Bit(x, i) then m else 0
  {
    AndPow2(x, i);
  }

  /** A value below 2^k or-ed with bits k up to n - 1 adds them. */
  lemma OrHigh(a: nat, k: nat, n: nat, m: nat)
    requires a < Pow2(k) && k <= n && m == Pow2(n) - Pow2(k)
    ensures Or(a, m) == a + m
  {
    OnesShifted(k, n);
    OrAt(a, Pow2(n - k) - 1, k, m);
  }

  /** Reducing x + 2^bign - 2^k, for x below 2^k, to n >= k bits gives x + 2^n - 2^k. */
  lemma ExtendMod(y: nat, x: nat, k: nat, n: nat, bign: nat)
    requires k <= n <= bign && x < Pow2(k) && y == x + Pow2(bign) - Pow2(k)
    ensures y % Pow2(n) == x + Pow2(n) - Pow2(k)
  {
    Pow2Le(k, n);
    Pow2Sub(n, bign);
    ExtendModFacts(x, k, n, bign);
  }

  lemma ExtendModFacts(x: nat, k: nat, n: nat, bign: nat)
    requires k <= n <= bign && x < Pow2(k)
    requires Pow2(k) <= Pow2(n) && Pow2(bign) == Pow2(n) * Pow2(bign - n)
    ensures (x + Pow2(bign) - Pow2(k)) % Pow2(n) == x + Pow2(n) - Pow2(k)
  {
    ExtendAlgebra(x, Pow2(k), Pow2(n), Pow2(bign - n), Pow2(bign));
  }

  lemma ExtendAlgebra(x: int, pk: int, pn: int, q: int, t: int)
    requires 0 <= x < pk <= pn && q >= 1 && t == pn * q
    ensures (x + t - pk) % pn == x + pn - pk
  {
    var lo := x + pn - pk;
    assert x + t - pk == (q - 1) * pn + lo;
    DivModUnique(x + t - pk, pn, q - 1, lo);
  }

  /** A value below p plus q - 1 multiples of p stays below p * q. */
  lemma FillAlgebra(x: int, p: int, q: int, t: int)
    requires 0 <= x < p && t == p * q
    ensures x + (q - 1) * p < t
  {
  }
}
