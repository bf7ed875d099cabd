// The older register engine of src/number/mod.rs. The register is a vector
// of bits, least significant first, that grows as additions carry into new
// positions, with a `max_size` that bounds how far an addition reaches.
// Addition is a ripple-carry adder over the vector, multiplication by m is
// m - 1 repeated additions, and a literal is parsed digit by digit with
// both.
module LegacyNumbers {
  import opened Bits

  datatype BitsIndex = Highest | Lowest | Indexed(i: nat)

  /** `BitsIndexRange(high, low)`. */
  datatype BitsRange = BitsRange(high: BitsIndex, low: BitsIndex)

  datatype NumberType = Integer | Float | Fixed

  const USIZE_MAX: nat := 0xFFFF_FFFF_FFFF_FFFF
  const U32_MAX: nat := 0xFFFF_FFFF

  function Max(a: nat, b: nat): nat
  {
    if a >= b then a else b
  }

  // ---------------------------------------------------------------------
  // The value of a bit vector
  // ---------------------------------------------------------------------

  /** Bit i of the vector, reading positions past its end as zero. */
  predicate BitAt(s: seq<bool>, i: nat)
  {
    i < |s| && s[i]
  }

  /** The number the low n bits of the vector s stand for, least significant first. */
  function LowValue(s: seq<bool>, n: nat): nat
  {
    if n == 0 then 0 else LowValue(s, n - 1) + (if BitAt(s, n - 1) then Pow2(n - 1) else 0)
  }

  /** The number the whole vector stands for. */
  function Value(s: seq<bool>): nat
  {
    LowValue(s, |s|)
  }

  /** n bits stand for a number below 2^n. */
  lemma {:induction false} LowValueBound(s: seq<bool>, n: nat)
    ensures LowValue(s, n) < Pow2(n)
    decreases n
  {
    if n > 0 {
      LowValueBound(s, n - 1);
    }
  }

  /** Two vectors that agree on their low n bits have the same low value. */
  lemma {:induction false} LowValueFrame(s: seq<bool>, t: seq<bool>, n: nat)
    requires forall k: nat :: k < n ==> BitAt(s, k) == BitAt(t, k)
    ensures LowValue(s, n) == LowValue(t, n)
    decreases n
  {
    if n > 0 {
      LowValueFrame(s, t, n - 1);
    }
  }

  /** Two vectors that agree on bits i up to n - 1 gain the same amount between their low i and low n bits. */
  lemma {:induction false} LowValueUpperFrame(s: seq<bool>, t: seq<bool>, i: nat, n: nat)
    requires i <= n && forall k: nat :: i <= k < n ==> BitAt(s, k) == BitAt(t, k)
    ensures LowValue(s, n) - LowValue(s, i) == LowValue(t, n) - LowValue(t, i)
    decreases n
  {
    if n > i {
      LowValueUpperFrame(s, t, i, n - 1);
    }
  }

  /** Positions past the end of the vector add nothing. */
  lemma {:induction false} LowValuePadded(s: seq<bool>, n: nat)
    requires |s| <= n
    ensures LowValue(s, n) == Value(s)
    decreases n
  {
    if n > |s| {
      LowValuePadded(s, n - 1);
    }
  }

  /** The low n bits of a vector are its low m bits, for m >= n, reduced modulo 2^n. */
  lemma {:induction false} LowValueMod(s: seq<bool>, n: nat, m: nat)
    requires n <= m
    ensures LowValue(s, n) == LowValue(s, m) % Pow2(n)
    decreases m
  {
    if m == n {
      LowValueBound(s, n);
      ModLess(LowValue(s, n), Pow2(n));
    } else {
      LowValueMod(s, n, m - 1);
      if BitAt(s, m - 1) {
        Pow2Add(m - 1 - n, n);
        ModAddMultiple(LowValue(s, m - 1), Pow2(m - 1 - n), Pow2(n));
      }
    }
  }

  /** Adding a multiple of p does not change the remainder modulo p. */
  lemma ModAddMultiple(x: nat, k: nat, p: nat)
    requires p > 0
    ensures (x + k * p) % p == x % p
  {
    DivModUnique(x + k * p, p, x / p + k, x % p);
  }

  /** The vector from position l on stands for its value shifted down by l. */
  lemma {:induction false} LowValueSplit(s: seq<bool>, l: nat, n: nat)
    requires l <= n && l <= |s|
    ensures LowValue(s, n) == LowValue(s, l) + Pow2(l) * LowValue(s[l..], n - l)
    decreases n
  {
    if n > l {
      LowValueSplit(s, l, n - 1);
      Pow2Add(l, n - 1 - l);
      var b := if BitAt(s, n - 1) then 1 else 0;
      assert BitAt(s, n - 1) == BitAt(s[l..], n - 1 - l);
      assert LowValue(s, n) == LowValue(s, n - 1) + b * Pow2(n - 1);
      assert LowValue(s[l..], n - l) == LowValue(s[l..], n - 1 - l) + b * Pow2(n - 1 - l);
      LowValueSplitAlgebra(LowValue(s, n), LowValue(s, n - 1), LowValue(s, l), Pow2(l),
                   LowValue(s[l..], n - 1 - l), LowValue(s[l..], n - l), b, Pow2(n - 1 - l), Pow2(n - 1));
    }
  }

  lemma LowValueSplitAlgebra(total: int, prev: int, low: int, p: int, restPrev: int, rest: int, b: int, q: int, pn: int)
    requires total == prev + b * pn && pn == p * q && prev == low + p * restPrev && rest == restPrev + b * q
    ensures total == low + p * rest
  {
  }

  lemma DivModSum(v: int, lo: int, p: int, hi: int)
    requires v == lo + p * hi && 0 <= lo < p
    ensures v / p == hi && v % p == lo
  {
    DivModUnique(v, p, hi, lo);
  }

  /** The positions from l on stand for the vector's value shifted down by l. */
  lemma UpperValue(s: seq<bool>, l: nat)
    requires l <= |s|
    ensures Value(s) / Pow2(l) == Value(s[l..])
    ensures Value(s) % Pow2(l) == LowValue(s, l)
  {
    var rest, n := s[l..], |s|;
    LowValueSplit(s, l, n);
    LowValueBound(s, l);
    assert |rest| == n - l;
    DivModSum(LowValue(s, n), LowValue(s, l), Pow2(l), LowValue(rest, n - l));
  }

  /** The slice of positions l to h stands for the field of the vector's value at l, h + 1 - l bits wide. */
  lemma SliceValue(s: seq<bool>, l: nat, h: nat)
    requires l <= h + 1 <= |s|
    ensures Value(s[l..h + 1]) == Field(Value(s), l, h + 1 - l)
  {
    var w, rest := h + 1 - l, s[l..];
    UpperValue(s, l);
    LowValueFrame(s[l..h + 1], rest, w);
    LowValueMod(rest, w, |rest|);
  }

  // ---------------------------------------------------------------------
  // Arithmetic facts for the adders
  // ---------------------------------------------------------------------

  lemma ModAddMod(x: int, a: int, p: int)
    requires p > 0
    ensures (x + a % p) % p == (x + a) % p
  {
    DivModUnique(x + a, p, (x + a % p) / p + a / p, (x + a % p) % p);
  }

  lemma ModMulMod(x: int, r: int, p: int)
    requires p > 0
    ensures ((x % p) * r) % p == (x * r) % p
  {
    var q := x / p;
    assert x * r == (x % p) * r + (q * r) * p;
    DivModUnique(x * r, p, ((x % p) * r) / p + q * r, ((x % p) * r) % p);
  }

  /** Adding v once more to a product x·k taken modulo p, where v is x modulo p. */
  lemma ModMulStep(x: int, k: int, v: int, p: int)
    requires p > 0 && v % p == x % p
    ensures ((x * k) % p + v) % p == (x * (k + 1)) % p
  {
    ModAddMod(v, x * k, p);
    ModAddMod(x * k, v, p);
    ModAddMod(x * k, x, p);
    assert x * (k + 1) == x * k + x;
  }

  /** The low i + 1 bits of a number: its low i bits and bit i. */
  lemma ModStep(a: nat, i: nat)
    ensures a % Pow2(i + 1) == a % Pow2(i) + (if Bit(a, i) then Pow2(i) else 0)
  {
    DivModMul(a, Pow2(i), 2, Pow2(i + 1));
    DivNat(a, Pow2(i));
  }

  /** A power of two modulo a larger one is itself, modulo a smaller one zero. */
  lemma PowMod(i: nat, n: nat)
    ensures Pow2(i) % Pow2(n) == if i < n then Pow2(i) else 0
  {
    if i < n {
      Pow2Lt(i, n);
      ModLess(Pow2(i), Pow2(n));
    } else {
      var k: nat := i - n;
      Pow2Add(n, k);
      var x, p, q := Pow2(i), Pow2(n), Pow2(k);
      assert x == p * q;
      assert x == q * p + 0;
      DivModUnique(x, p, q, 0);
    }
  }

  /**
   * The u32 mask of `add_number` after i left shifts of 1: 2^i while it
   * fits, zero once shifted out.
   */
  function WordMask(i: nat): nat
  {
    Pow2(i) % Pow2(32)
  }

  lemma MaskStarts()
    ensures WordMask(0) == 1
  {
    PowMod(0, 32);
  }

  /** And-ed with a u32, the mask reads bit i. */
  lemma MaskReadsBit(a: nat, i: nat)
    requires a <= U32_MAX
    ensures (And(a, WordMask(i)) != 0) == Bit(a, i)
  {
    Pow2Words();
    var mask := WordMask(i);
    PowMod(i, 32);
    if i < 32 {
      AndPow2At(a, i, mask);
    } else {
      BitwiseZeroRight(AndOp, a);
      Pow2Le(32, i);
      ModLess(a, Pow2(i));
    }
  }

  /** `<<= 1` on the mask, a u32. */
  lemma MaskShifts(i: nat)
    ensures (WordMask(i) * 2) % 0x1_0000_0000 == WordMask(i + 1)
  {
    var mask := WordMask(i);
    PowMod(i, 32);
    PowMod(i + 1, 32);
    Pow2Words();
    var p := Pow2(32);
    if i + 1 < 32 {
      assert mask * 2 == Pow2(i + 1);
      ModLess(mask * 2, p);
    } else if i + 1 == 32 {
      assert mask * 2 == 1 * p + 0;
      DivModUnique(mask * 2, p, 1, 0);
    } else {
      ModLess(0, p);
    }
  }

  /**
   * One step of the ripple-carry adder: position i of the vector receives
   * the sum bit of the old bit, the operand's bit and the carry, and the
   * carry moves on.
   */
  lemma AdderStep(b: seq<bool>, bits: seq<bool>, next: seq<bool>, i: nat, a: bool, c: bool, low: nat, low': nat)
    requires i < |bits| && |next| == |bits| && bits[i] == BitAt(b, i)
    requires forall k: nat :: k < i ==> next[k] == bits[k]
    requires next[i] == ((a != bits[i]) != c)
    requires LowValue(bits, i) + (if c then Pow2(i) else 0) == LowValue(b, i) + low
    requires low' == low + (if a then Pow2(i) else 0)
    ensures var carry := ((a != bits[i]) && c) || (a && bits[i]);
      LowValue(next, i + 1) + (if carry then Pow2(i + 1) else 0) == LowValue(b, i + 1) + low'
  {
    LowValueFrame(next, bits, i);
  }

  /**
   * One pass of the loop body both adders share: grow the vector by a
   * false bit when position i is past its end, then add the operand's bit
   * and the carry into position i.
   */
  method FullAdderStep(b: seq<bool>, bits: seq<bool>, i: nat, bit: bool, c: bool, ghost low: nat, ghost low': nat)
    returns (next: seq<bool>, carry: bool)
    requires |bits| == Max(|b|, i)
    requires forall k: nat :: i <= k < |bits| ==> bits[k] == b[k]
    requires LowValue(bits, i) + (if c then Pow2(i) else 0) == LowValue(b, i) + low
    requires low' == low + (if bit then Pow2(i) else 0)
    ensures |next| == Max(|b|, i + 1)
    ensures forall k: nat :: i + 1 <= k < |next| ==> next[k] == b[k]
    ensures LowValue(next, i + 1) + (if carry then Pow2(i + 1) else 0) == LowValue(b, i + 1) + low'
    ensures |b| <= i ==> next[i] == (bit != c) && (carry <==> bit && c)
  {
    var grown := bits;
    if i >= |bits| {
      grown := bits + [false];
      LowValueFrame(grown, bits, i);
    }
    carry := ((bit != grown[i]) && c) || (bit && grown[i]);
    next := grown[i := (bit != grown[i]) != c];
    AdderStep(b, grown, next, i, bit, c, low, low');
  }

  /**
   * When the adder stops, at `max_size` or with no carry left and no
   * operand bits left, the low `max_size` bits hold the sum modulo
   * 2^max_size and the carry says whether it overflowed.
   */
  lemma AdderResult(b: seq<bool>, bits: seq<bool>, i: nat, m: nat, c: bool, low: nat)
    requires i <= m && |bits| == Max(|b|, i)
    requires forall k: nat :: i <= k < |bits| ==> bits[k] == b[k]
    requires LowValue(bits, i) + (if c then Pow2(i) else 0) == LowValue(b, i) + low
    requires i == m || !c
    ensures LowValue(bits, m) == (LowValue(b, m) + low) % Pow2(m)
    ensures c <==> LowValue(b, m) + low >= Pow2(m)
    ensures forall k: nat :: m <= k ==> BitAt(bits, k) == BitAt(b, k)
  {
    LowValueUpperFrame(bits, b, i, m);
    LowValueBound(bits, m);
    DivModUnique(LowValue(b, m) + low, Pow2(m), if c then 1 else 0, LowValue(bits, m));
  }

  /**
   * An adder that stopped at position i without overflowing the sum leaves
   * a vector as long as the old one or the sum's bits, whichever is more,
   * provided it set the last bit it pushed.
   */
  lemma StopLength(b: seq<bool>, bits: seq<bool>, i: nat, m: nat, sum: nat)
    requires |b| <= m && i <= m && |bits| == Max(|b|, i) && sum < Pow2(m)
    requires LowValue(bits, m) == sum % Pow2(m)
    requires |b| < i ==> bits[i - 1]
    ensures |bits| == Max(|b|, BitLength(sum))
  {
    ModLess(sum, Pow2(m));
    LowValuePadded(bits, m);
    if i <= |b| {
      LowValueBound(bits, |bits|);
      BitLengthLe(sum, |b|);
    } else {
      assert BitAt(bits, i - 1);
      LowValueBound(bits, i - 1);
      BitLengthExact(sum, i);
    }
  }

  /** A number needs at least as many bits as any smaller one. */
  lemma BitLengthMono(a: nat, b: nat)
    requires a <= b
    ensures BitLength(a) <= BitLength(b)
  {
    BitLengthBounds(b);
    BitLengthLe(a, BitLength(b));
  }

  /** The digit a character stands for in a literal: 0-9, then a-z and A-Z from 10 on. */
  predicate IsDigitChar(c: char)
  {
    '0' <= c <= '9' || 'a' <= c <= 'z' || 'A' <= c <= 'Z'
  }

  function DigitOf(c: char): nat
    requires IsDigitChar(c)
  {
    if '0' <= c <= '9' then c as nat - '0' as nat
    else if 'a' <= c <= 'z' then c as nat - 'a' as nat + 10
    else c as nat - 'A' as nat + 10
  }

  /** What `from` reads without panicking: a u32 radix and a literal of digits each below it. */
  predicate Parsable(literal: string, radix: nat)
  {
    radix <= U32_MAX && forall i :: 0 <= i < |literal| ==> IsDigitChar(literal[i]) && DigitOf(literal[i]) < radix
  }

  /** The number the digits of s stand for in the radix, most significant digit first. */
  function DigitsValue(s: string, radix: nat): nat
    requires forall i :: 0 <= i < |s| ==> IsDigitChar(s[i])
  {
    if |s| == 0 then 0 else DigitsValue(s[..|s| - 1], radix) * radix + DigitOf(s[|s| - 1])
  }

  /** One more digit: the value so far times the radix plus the digit. */
  lemma DigitsStep(s: string, i: nat, radix: nat)
    requires i < |s| && forall k :: 0 <= k < |s| ==> IsDigitChar(s[k])
    ensures DigitsValue(s[..i + 1], radix) == DigitsValue(s[..i], radix) * radix + DigitOf(s[i])
  {
    assert s[..i + 1][..i] == s[..i];
  }

  /** The value of digits grows with every digit appended, in any radix of at least 1. */
  lemma {:induction false} PrefixValueBounded(s: string, i: nat, radix: nat)
    requires i <= |s| && radix >= 1 && forall k :: 0 <= k < |s| ==> IsDigitChar(s[k])
    ensures DigitsValue(s[..i], radix) <= DigitsValue(s, radix)
    decreases |s| - i
  {
    if i < |s| {
      DigitsStep(s, i, radix);
      GrowsByDigit(DigitsValue(s[..i], radix), radix, DigitOf(s[i]));
      PrefixValueBounded(s, i + 1, radix);
    } else {
      assert s[..i] == s;
    }
  }

  /** Appending digit i folds it into the value of the prefix, which stays below the value of the whole. */
  lemma NextDigit(s: string, i: nat, radix: nat)
    requires i < |s| && forall k :: 0 <= k < |s| ==> IsDigitChar(s[k]) && DigitOf(s[k]) < radix
    ensures DigitsValue(s[..i + 1], radix) == DigitsValue(s[..i], radix) * radix + DigitOf(s[i])
    ensures DigitsValue(s[..i], radix) <= DigitsValue(s[..i + 1], radix) <= DigitsValue(s, radix)
  {
    DigitsStep(s, i, radix);
    GrowsByDigit(DigitsValue(s[..i], radix), radix, DigitOf(s[i]));
    PrefixValueBounded(s, i + 1, radix);
  }

  lemma GrowsByDigit(v: int, radix: int, d: int)
    requires v >= 0 && radix >= 1 && d >= 0
    ensures v * radix + d >= v
  {
  }

  /** The width `from` gives a literal of length bits: whole bytes, rounded up. */
  function WholeBytes(length: nat): (width: nat)
    ensures width % 8 == 0 && length <= width < length + 8
    ensures 1 <= length ==> 8 <= width
  {
    (length / 8 + if length % 8 != 0 then 1 else 0) * 8
  }

  /** k binary digits '1' stand for 2^k - 1. */
  lemma {:induction false} BinaryOnesValue(k: nat)
    ensures Parsable(seq(k, _ => '1'), 2) && DigitsValue(seq(k, _ => '1'), 2) == Pow2(k) - 1
  {
    if k > 0 {
      var s := seq(k, _ => '1');
      assert s[..k - 1] == seq(k - 1, _ => '1');
      BinaryOnesValue(k - 1);
    }
  }

  /** The width `from` gives "0" in radix 10: one byte. */
  lemma FromZeroWidth()
    ensures Parsable("0", 10) && DigitsValue("0", 10) == 0 < Pow2(USIZE_MAX)
      && WholeBytes(Max(1, BitLength(DigitsValue("0", 10)))) == 8
  {
    assert "0"[..0] == "";
  }

  /** The width `from` gives "1111" in radix 8, that is 585 or ten bits: two bytes. */
  lemma FromOctalWidth()
    ensures Parsable("1111", 8) && DigitsValue("1111", 8) == 585 < Pow2(USIZE_MAX)
      && WholeBytes(Max(1, BitLength(DigitsValue("1111", 8)))) == 16
  {
    assert "1111"[..3] == "111" && "111"[..2] == "11" && "11"[..1] == "1" && "1"[..0] == "";
    assert Pow2(10) == 1024 by {
      Pow2Small();
      Pow2Add(8, 2);
    }
    BitLengthExact(585, 10);
    Pow2Le(10, USIZE_MAX);
  }

  /**
   * The width `from` gives k binary ones: k bits rounded up to whole bytes,
   * exactly k when k is a multiple of 8, as for the forty ones of the unit test.
   */
  lemma FromBinaryOnesWidth(k: nat)
    requires 1 <= k <= USIZE_MAX
    ensures var ones := seq(k, _ => '1');
      Parsable(ones, 2) && DigitsValue(ones, 2) < Pow2(USIZE_MAX)
      && WholeBytes(Max(1, BitLength(DigitsValue(ones, 2)))) == WholeBytes(k)
      && (k % 8 == 0 ==> WholeBytes(Max(1, BitLength(DigitsValue(ones, 2)))) == k)
  {
    BinaryOnesValue(k);
    Pow2Le(k, USIZE_MAX);
    Pow2Lt(k - 1, k);
    BitLengthExact(Pow2(k) - 1, k);
  }

  /** n false bits. */
  function Zeros(n: nat): (z: seq<bool>)
    ensures |z| == n && forall k :: 0 <= k < n ==> !z[k]
  {
    seq(n, _ => false)
  }

  /** Padding a vector with false bits keeps its value. */
  lemma PaddedValue(s: seq<bool>, n: nat)
    ensures Value(s + Zeros(n)) == Value(s)
  {
    var t := s + Zeros(n);
    LowValueFrame(t, s, |t|);
    LowValuePadded(s, |t|);
  }

  /**
   * `vec![false; n]` with the bits of s copied into its first positions, as
   * `from` and `extend_to` build it.
   */
  method Padded(s: seq<bool>, n: nat) returns (buf: seq<bool>)
    requires |s| <= n
    ensures buf == s + Zeros(n - |s|)
  {
    var a := new bool[n](_ => false);
    var i := 0;
    while i < |s|
      invariant i <= |s|
      invariant a[..i] == s[..i] && forall k :: i <= k < n ==> !a[k]
    {
      a[i] := s[i];
      i := i + 1;
    }
    buf := a[..];
    assert buf == s + Zeros(n - |s|);
  }

  /** A clear top bit: the number fits one bit fewer and the mask moves down one. */
  lemma LengthShrinks(n: nat, length: nat, mask: nat)
    requires 1 <= length && n < Pow2(length) && mask == Pow2(length - 1) && And(n, mask) == 0
    ensures n < Pow2(length - 1)
    ensures mask / 2 == if length == 1 then 0 else Pow2(length - 2)
  {
    AndPow2At(n, length - 1, mask);
    TopBit(n, length);
    if length >= 2 {
      assert Pow2(length - 1) == Pow2(length - 2) + Pow2(length - 2);
    }
  }

  /** A set top bit: the number needs exactly that many bits. */
  lemma LengthFound(n: nat, length: nat, mask: nat)
    requires 1 <= length && n < Pow2(length) && mask == Pow2(length - 1) && And(n, mask) != 0
    ensures BitLength(n) == length
  {
    AndPow2At(n, length - 1, mask);
    TopBit(n, length);
    BitLengthExact(n, length);
  }

  /** `signing_bits`: the number of bits needed to write the u32 n. */
  method SigningBits(n: nat) returns (length: nat)
    requires n <= U32_MAX
    ensures length == BitLength(n)
  {
    length := 32;
    var mask: nat := 0x8000_0000;
    assert Pow2(31) == 0x8000_0000 && n < Pow2(32) by {
      Pow2Words();
    }
    while And(n, mask) == 0 && mask > 0
      invariant length <= 32 && mask == (if length == 0 then 0 else Pow2(length - 1))
      invariant n < Pow2(length)
      decreases length
    {
      LengthShrinks(n, length, mask);
      length := length - 1;
      mask := mask / 2;
    }
    if mask != 0 {
      LengthFound(n, length, mask);
    }
  }

  /** The low bits a ripple-carry adder stops at: everything below the stop, and nothing carried out, matches the operand's value once past its length. */
  lemma OperandExhausted(a: nat, length: nat, i: nat, m: nat)
    requires length == BitLength(a) && length <= i <= m
    ensures a % Pow2(i) == a % Pow2(m) == a
  {
    BitLengthBounds(a);
    Pow2Le(length, i);
    Pow2Le(i, m);
    ModLess(a, Pow2(i));
    ModLess(a, Pow2(m));
  }

  /** The low bits of a vector no longer than the width need no more bits than the vector has. */
  lemma FitsItsLength(b: seq<bool>, m: nat)
    requires |b| <= m
    ensures BitLength(LowValue(b, m)) <= |b|
  {
    LowValuePadded(b, m);
    LowValueBound(b, |b|);
    BitLengthLe(LowValue(b, m), |b|);
  }

  /** Before a digit is folded in, the value and its product with the radix already fit. */
  lemma DigitFits(d: nat, radix: nat, digit: nat, p: nat)
    requires digit < radix && d * radix + digit < p
    ensures d % p == d && d * radix < p && (d * radix) % p == d * radix
  {
    GrowsByDigit(d, radix, 0);
    ModLess(d, p);
    ModLess(d * radix, p);
  }

  /** Multiplying and adding modulo p, one step of `from` after the other, is folding the digit in modulo p. */
  lemma FoldMod(d: nat, radix: nat, digit: nat, p: nat, low: nat, v: nat, w: nat)
    requires p > 0 && low == d % p && v == (low * radix) % p && w == (v + digit) % p
    ensures w == (d * radix + digit) % p
  {
    ModMulMod(d, radix, p);
    ModAddMod(digit, d * radix, p);
  }

  /**
   * One addition of `mul_number`'s loop on values: a running sum low of
   * x * k modulo p, plus x, is x * (k + 1) modulo p; when that product
   * fits, a vector length that tracked x * k tracks x * (k + 1).
   */
  lemma MultipleStep(m: nat, p: nat, la: nat, before: nat, after: nat, low: nat, x: nat, k: nat, w: nat)
    requires p > 0 && low == (x * k) % p && w == (low + x) % p
    requires la <= before <= m && low + x < p ==> after == Max(before, BitLength(low + x))
    ensures w == (x * (k + 1)) % p
    ensures la <= before <= m && x * (k + 1) < p && before == Max(la, BitLength(x * k)) ==>
      after == Max(la, BitLength(x * (k + 1)))
  {
    ModMulStep(x, k, x, p);
    if la <= before <= m && x * (k + 1) < p && before == Max(la, BitLength(x * k)) {
      MultipleLength(m, p, la, before, after, low, x, k);
    }
  }

  /** The length half of `MultipleStep`, for a product that fits. */
  lemma MultipleLength(m: nat, p: nat, la: nat, before: nat, after: nat, low: nat, x: nat, k: nat)
    requires p > 0 && low == (x * k) % p && x * (k + 1) < p
    requires la <= before <= m && before == Max(la, BitLength(x * k))
    requires low + x < p ==> after == Max(before, BitLength(low + x))
    ensures after == Max(la, BitLength(x * (k + 1)))
  {
    ProductsFit(low, x, k, k + 1, p);
    assert low == x * k && low + x == x * (k + 1);
    LengthGrows(la, before, after, low, low + x);
  }

  /**
   * One digit of `from` on values: a multiplication by the radix and an
   * addition of the digit, each modulo p, fold the digit in modulo p; when
   * the new value e fits, no carry is left and a vector length that
   * tracked d tracks e.
   */
  lemma DigitStep(m: nat, p: nat, start: nat, product: nat, after: nat, d: nat, radix: nat, digit: nat, e: nat,
                  low: nat, v: nat, w: nat, c: bool)
    requires p > 0 && digit < radix && e == d * radix + digit
    requires low == d % p && v == (low * radix) % p && w == (v + digit) % p
    requires product <= Max(start, m)
    requires start <= m && low * radix < p ==> v == low * radix && product == Max(start, BitLength(low * radix))
    requires product <= m && v + digit < p ==> after == Max(product, BitLength(v + digit)) && !c
    ensures w == e % p
    ensures start <= m && e < p ==> after == Max(start, BitLength(e)) && !c
  {
    FoldMod(d, radix, digit, p, low, v, w);
    if start <= m && e < p {
      DigitFits(d, radix, digit, p);
      assert low == d && low * radix == d * radix;
      assert v == d * radix && product <= m && v + digit == e;
      LengthGrows(start, product, after, d * radix, e);
    }
  }

  /** A vector whose length tracks a growing value keeps tracking it. */
  lemma LengthGrows(start: nat, before: nat, after: nat, a: nat, b: nat)
    requires a <= b && before == Max(start, BitLength(a)) && after == Max(before, BitLength(b))
    ensures after == Max(start, BitLength(b))
  {
    BitLengthMono(a, b);
  }

  /** Below a product that fits, the running sum of `mul_number` still has room for one more addend. */
  lemma ProductsFit(v: nat, x: nat, k: nat, m: nat, p: nat)
    requires k < m && x * m < p && v == (x * k) % p
    ensures v == x * k && v + x == x * (k + 1) < p
  {
    MulLe(x, k + 1, m);
    ModLess(x * k, p);
    assert x * (k + 1) == x * k + x;
  }

  /** Bit i of a is clear from its bit length on, and set just below it. */
  lemma LengthBits(a: nat, i: nat)
    ensures BitLength(a) <= i ==> !Bit(a, i)
    ensures i + 1 == BitLength(a) ==> Bit(a, i)
  {
    if BitLength(a) <= i {
      BitsAboveLength(a, i);
    } else if i + 1 == BitLength(a) {
      BitLengthBounds(a);
      TopBit(a, i + 1);
    }
  }

  lemma BitsAboveLength(a: nat, i: nat)
    requires BitLength(a) <= i
    ensures !Bit(a, i)
  {
    BitLengthBounds(a);
    Pow2Le(BitLength(a), i);
    DivBound(a, i, i);
    assert a / Pow2(i) < Pow2(0) == 1;
  }

  /** What one step of `add_number` reads from its u32 operand: bit i, and the next mask. */
  lemma WordStep(additive: nat, i: nat, mask: nat)
    requires additive <= U32_MAX && mask == WordMask(i)
    ensures (And(additive, mask) != 0) == Bit(additive, i)
    ensures (mask * 2) % 0x1_0000_0000 == WordMask(i + 1)
    ensures additive % Pow2(i + 1) == additive % Pow2(i) + (if Bit(additive, i) then Pow2(i) else 0)
    ensures BitLength(additive) <= i ==> !Bit(additive, i)
    ensures i + 1 == BitLength(additive) ==> Bit(additive, i)
  {
    MaskReadsBit(additive, i);
    MaskShifts(i);
    ModStep(additive, i);
    LengthBits(additive, i);
  }

  /** Where the loop of `add_number` stops, its vector holds the sum and the carry out of bit m - 1. */
  lemma WordAdderDone(b: seq<bool>, bits: seq<bool>, i: nat, m: nat, c: bool, additive: nat)
    requires i <= m && |bits| == Max(|b|, i)
    requires forall k: nat :: i <= k < |bits| ==> bits[k] == b[k]
    requires LowValue(bits, i) + (if c then Pow2(i) else 0) == LowValue(b, i) + additive % Pow2(i)
    requires |b| < i && !c && BitLength(additive) <= i ==> bits[i - 1]
    requires (!c && i >= BitLength(additive)) || i == m
    ensures LowValue(bits, m) == (LowValue(b, m) + additive) % Pow2(m)
    ensures c <==> LowValue(b, m) + additive % Pow2(m) >= Pow2(m)
    ensures forall k: nat :: m <= k ==> BitAt(bits, k) == BitAt(b, k)
    ensures |b| <= m && LowValue(b, m) + additive < Pow2(m) ==>
      |bits| == Max(|b|, BitLength(LowValue(b, m) + additive))
  {
    if i < m {
      OperandExhausted(additive, BitLength(additive), i, m);
    }
    AdderResult(b, bits, i, m, c, additive % Pow2(m));
    ModAddMod(LowValue(b, m), additive, Pow2(m));
    if |b| <= m && LowValue(b, m) + additive < Pow2(m) {
      ModLess(additive, Pow2(m));
      if i == m {
        BitLengthLe(additive, m);
      }
      StopLength(b, bits, i, m, LowValue(b, m) + additive);
    }
  }

  /**
   * The loop of `add_number` on the bit vector b with `max_size` m: the
   * sum of b's low m bits and the u32 additive, modulo 2^m, and the carry
   * out of bit m - 1. Without overflow the vector grows exactly to the
   * sum's bit length.
   */
  method RippleAddWord(b: seq<bool>, m: nat, additive: nat) returns (bits: seq<bool>, carry: bool)
    requires additive <= U32_MAX
    ensures LowValue(bits, m) == (LowValue(b, m) + additive) % Pow2(m)
    ensures carry <==> LowValue(b, m) + additive % Pow2(m) >= Pow2(m)
    ensures forall k: nat :: m <= k ==> BitAt(bits, k) == BitAt(b, k)
    ensures |b| <= |bits| <= Max(|b|, m)
    ensures |b| <= m && LowValue(b, m) + additive < Pow2(m) ==>
      |bits| == Max(|b|, BitLength(LowValue(b, m) + additive))
  {
    var length := SigningBits(additive);
    bits := b;
    var i := 0;
    var mask: nat := 1;
    var c := false;
    MaskStarts();
    while !(!c && i >= length) && i < m
      invariant i <= m && mask == WordMask(i)
      invariant |bits| == Max(|b|, i)
      invariant forall k: nat :: i <= k < |bits| ==> bits[k] == b[k]
      invariant LowValue(bits, i) + (if c then Pow2(i) else 0) == LowValue(b, i) + additive % Pow2(i)
      invariant |b| < i && !c && length <= i ==> bits[i - 1]
      decreases m - i
    {
      var bit := And(additive, mask) != 0;
      WordStep(additive, i, mask);
      ghost var c0 := c;
      bits, c := FullAdderStep(b, bits, i, bit, c, additive % Pow2(i), additive % Pow2(i + 1));
      if |b| <= i && !c && length <= i + 1 {
        // the loop ran on, so a carry came in or bit i is the additive's top bit
        assert c0 || (i + 1 == length && bit);
        assert bits[i];
      }
      i := i + 1;
      mask := (mask * 2) % 0x1_0000_0000;
    }
    WordAdderDone(b, bits, i, m, c, additive);
    carry := c;
  }


  /**
   * The loop of `add_bools` on the bit vector b with `max_size` m: the sum
   * of the low m bits of b and of the additive, modulo 2^m, and the carry
   * out of bit m - 1.
   */
  method RippleAddBits(b: seq<bool>, m: nat, additive: seq<bool>) returns (bits: seq<bool>, carry: bool)
    ensures LowValue(bits, m) == (LowValue(b, m) + LowValue(additive, m)) % Pow2(m)
    ensures carry <==> LowValue(b, m) + LowValue(additive, m) >= Pow2(m)
    ensures forall k: nat :: m <= k ==> BitAt(bits, k) == BitAt(b, k)
    ensures |b| <= |bits| <= Max(|b|, m)
    ensures |additive| <= |b| <= m && LowValue(b, m) + LowValue(additive, m) < Pow2(m) ==>
      |bits| == Max(|b|, BitLength(LowValue(b, m) + LowValue(additive, m)))
  {
    bits := b;
    var i := 0;
    var c := false;
    while !(!c && i >= |additive|) && i < m
      invariant i <= m
      invariant |bits| == Max(|b|, i)
      invariant forall k: nat :: i <= k < |bits| ==> bits[k] == b[k]
      invariant LowValue(bits, i) + (if c then Pow2(i) else 0) == LowValue(b, i) + LowValue(additive, i)
      invariant |b| < i && |additive| <= |b| ==> bits[i - 1] && !c
      decreases m - i
    {
      var bit := if i >= |additive| then false else additive[i];
      ghost var c0 := c;
      assert LowValue(additive, i + 1) == LowValue(additive, i) + (if bit then Pow2(i) else 0);
      bits, c := FullAdderStep(b, bits, i, bit, c, LowValue(additive, i), LowValue(additive, i + 1));
      if |b| <= i && |additive| <= |b| {
        // past both operands the loop only runs on for a carry coming in
        assert c0 && !bit;
        assert bits[i] && !c;
      }
      i := i + 1;
    }
    BitAdderDone(b, bits, i, m, c, additive);
    carry := c;
  }

  /**
   * When the loop of `add_bools` stops, at `max_size` or with no carry and
   * no operand bits left, the vector holds the sum modulo 2^max_size and
   * the carry says whether the sum overflowed.
   */
  lemma BitAdderDone(b: seq<bool>, bits: seq<bool>, i: nat, m: nat, c: bool, additive: seq<bool>)
    requires i <= m && |bits| == Max(|b|, i)
    requires forall k: nat :: i <= k < |bits| ==> bits[k] == b[k]
    requires LowValue(bits, i) + (if c then Pow2(i) else 0) == LowValue(b, i) + LowValue(additive, i)
    requires |b| < i && |additive| <= |b| ==> bits[i - 1] && !c
    requires i == m || (!c && i >= |additive|)
    ensures LowValue(bits, m) == (LowValue(b, m) + LowValue(additive, m)) % Pow2(m)
    ensures c <==> LowValue(b, m) + LowValue(additive, m) >= Pow2(m)
    ensures forall k: nat :: m <= k ==> BitAt(bits, k) == BitAt(b, k)
    ensures |additive| <= |b| <= m && LowValue(b, m) + LowValue(additive, m) < Pow2(m) ==>
      |bits| == Max(|b|, BitLength(LowValue(b, m) + LowValue(additive, m)))
  {
    if i < m {
      LowValuePadded(additive, i);
      LowValuePadded(additive, m);
    }
    AdderResult(b, bits, i, m, c, LowValue(additive, m));
    if |additive| <= |b| <= m && LowValue(b, m) + LowValue(additive, m) < Pow2(m) {
      StopLength(b, bits, i, m, LowValue(b, m) + LowValue(additive, m));
    }
  }

  // ---------------------------------------------------------------------
  // Ranges of positions
  // ---------------------------------------------------------------------

  function Min(a: nat, b: nat): nat
  {
    if a <= b then a else b
  }

  /** `HighestBit` resolves to `len() - 1`, which needs a non-empty vector. */
  predicate Resolvable(s: seq<bool>, i: BitsIndex)
  {
    i.Highest? ==> |s| >= 1
  }

  /** The position a `BitsIndex` stands for in the vector s. */
  function IndexIn(s: seq<bool>, i: BitsIndex): nat
    requires Resolvable(s, i)
  {
    match i
    case Indexed(n) => n
    case Highest => |s| - 1
    case Lowest => 0
  }

  /** `get_bits` slices `low..=high`, which must lie inside the vector. */
  predicate SliceOk(s: seq<bool>, r: BitsRange)
  {
    Resolvable(s, r.high) && Resolvable(s, r.low) &&
    IndexIn(s, r.low) <= IndexIn(s, r.high) + 1 && IndexIn(s, r.high) < |s|
  }

  /**
   * `set_bits` writes position low first, growing the vector by one bit
   * at a time, so a write that starts past the end of the vector is out
   * of bounds.
   */
  predicate SetOk(s: seq<bool>, r: BitsRange, source: seq<bool>)
  {
    Resolvable(s, r.high) && Resolvable(s, r.low) &&
    (IndexIn(s, r.low) <= IndexIn(s, r.high) && |source| > 0 ==> IndexIn(s, r.low) <= |s|)
  }

  /**
   * The vector `set_bits` leaves: positions low, low + 1, ... receive the
   * source's bits until the range or the source runs out; each write past
   * the end grows the vector by one; a source that runs out first still
   * grows the vector by one false bit when the next position is past its
   * end.
   */
  function WrittenBits(b: seq<bool>, low: nat, high: nat, source: seq<bool>): seq<bool>
    requires low <= high && |source| > 0 ==> low <= |b|
  {
    if low > high then b
    else
      var n := Min(high + 1 - low, |source|);
      var grown := if n == 0 then |b| else Max(|b|, low + n);
      var length := if n < high + 1 - low && low + n >= grown then grown + 1 else grown;
      seq(length, k requires 0 <= k < length => if low <= k < low + n then source[k - low] else BitAt(b, k))
  }

  /**
   * A range inside the vector and a source at least as long as the range:
   * reading the range back gives the source's first bits, every other
   * position keeps its bit and the length is kept.
   */
  lemma SetThenGet(b: seq<bool>, low: nat, high: nat, source: seq<bool>)
    requires low <= high + 1 && high < |b| && high + 1 - low <= |source|
    ensures var w := WrittenBits(b, low, high, source);
      |w| == |b| && w[low..high + 1] == source[..high + 1 - low] &&
      forall k :: 0 <= k < |b| && !(low <= k <= high) ==> w[k] == b[k]
  {
    var w := WrittenBits(b, low, high, source);
    if low <= high {
      assert |w| == |b|;
      assert w[low..high + 1] == source[..high + 1 - low];
    }
  }

  /**
   * The same write on values: the vector's value afterwards is its old
   * value with the field at low, high + 1 - low bits wide, replaced by the
   * value of the source's first bits.
   */
  lemma SetBitsWritesField(b: seq<bool>, low: nat, high: nat, source: seq<bool>)
    requires low <= high + 1 && high < |b| && high + 1 - low <= |source|
    ensures var w := high + 1 - low;
      Value(WrittenBits(b, low, high, source)) == WithField(Value(b), low, w, Value(source[..w]))
  {
    var width := high + 1 - low;
    var after := WrittenBits(b, low, high, source);
    var v := Value(source[..width]);
    var y := WithField(Value(b), low, width, v);
    SetThenGet(b, low, high, source);
    FieldOfWithField(Value(b), low, width, v);
    UpperValue(after, low);
    UpperValue(b, low);
    LowValueFrame(after, b, low);
    SliceValue(after, low, high);
    LowValueBound(source[..width], width);
    ModLess(v, Pow2(width));
    UpperValue(after, high + 1);
    UpperValue(b, high + 1);
    assert after[high + 1..] == b[high + 1..];
    SameParts(Value(after), y, low, width);
  }

  /** The digit `Display` writes for position i: '1' for a set bit, '0' otherwise and past the end. */
  function BitChar(s: seq<bool>, i: int): char
  {
    if 0 <= i < |s| && s[i] then '1' else '0'
  }

  // ---------------------------------------------------------------------
  // The register
  // ---------------------------------------------------------------------

  /**
   * `Number`: the bit vector, least significant bit first; `maxSize`
   * bounds the positions an addition writes; `carry` is the carry out of
   * the last `AddNumber`.
   */
  class Number {
    var buffer: seq<bool>
    var maxSize: nat
    var numberType: NumberType
    var isSigned: bool
    var carry: bool

    /**
     * `Number::from`: the literal's digits, most significant first, each
     * folded in by a multiplication by the radix and an addition; the
     * vector is then padded with false bits to a whole number of bytes,
     * which becomes its `max_size`.
     */
    constructor From(literal: string, radix: nat)
      requires Parsable(literal, radix)
      ensures Value(buffer) == DigitsValue(literal, radix) % Pow2(USIZE_MAX)
      ensures |buffer| == maxSize && maxSize % 8 == 0 && maxSize >= 8
      ensures DigitsValue(literal, radix) < Pow2(USIZE_MAX) ==>
        maxSize == WholeBytes(Max(1, BitLength(DigitsValue(literal, radix)))) && !carry
      ensures numberType == Integer && !isSigned
    {
      assert forall i :: 0 <= i < |literal| ==> literal[i] != '.' && literal[i] != '-';
      buffer := [false];
      maxSize := USIZE_MAX;
      numberType := if '.' in literal then Float else Integer;
      isSigned := |literal| > 0 && literal[0] == '-';
      carry := false;
      new;
      ParseDigits(literal, radix);
      PadToBytes();
    }

    /** The loop of `from`, on a register that starts as one false bit. */
    method ParseDigits(literal: string, radix: nat)
      requires radix <= U32_MAX && buffer == [false] && maxSize >= 1 && !carry
      requires forall i :: 0 <= i < |literal| ==> IsDigitChar(literal[i]) && DigitOf(literal[i]) < radix
      modifies this
      ensures LowValue(buffer, maxSize) == DigitsValue(literal, radix) % Pow2(maxSize)
      ensures 1 <= |buffer| <= maxSize
      ensures DigitsValue(literal, radix) < Pow2(maxSize) ==>
        |buffer| == Max(1, BitLength(DigitsValue(literal, radix))) && !carry
      ensures maxSize == old(maxSize) && numberType == old(numberType) && isSigned == old(isSigned)
    {
      LowValuePadded(buffer, maxSize);
      assert !BitAt(buffer, 0) && LowValue(buffer, 0) == 0;
      assert Value(buffer) == LowValue(buffer, 1) == 0;
      assert literal[..0] == [];
      ghost var m, p := maxSize, Pow2(maxSize);
      var i := 0;
      while i < |literal|
        invariant i <= |literal| && maxSize == m && 1 <= |buffer| <= m
        invariant LowValue(buffer, m) == DigitsValue(literal[..i], radix) % p
        invariant DigitsValue(literal, radix) < p ==>
          |buffer| == Max(1, BitLength(DigitsValue(literal[..i], radix))) && !carry
        invariant numberType == old(numberType) && isSigned == old(isSigned)
      {
        FoldNextDigit(literal, i, radix);
        assert Pow2(maxSize) == p;
        i := i + 1;
      }
      assert literal[..i] == literal;
    }

    /** One turn of the loop of `from`: the digit at i is folded into the register. */
    method FoldNextDigit(literal: string, i: nat, radix: nat)
      requires i < |literal| && radix <= U32_MAX && 1 <= |buffer| <= maxSize
      requires forall k :: 0 <= k < |literal| ==> IsDigitChar(literal[k]) && DigitOf(literal[k]) < radix
      requires LowValue(buffer, maxSize) == DigitsValue(literal[..i], radix) % Pow2(maxSize)
      requires DigitsValue(literal, radix) < Pow2(maxSize) ==>
        |buffer| == Max(1, BitLength(DigitsValue(literal[..i], radix))) && !carry
      modifies this
      ensures 1 <= |buffer| <= maxSize
      ensures LowValue(buffer, maxSize) == DigitsValue(literal[..i + 1], radix) % Pow2(maxSize)
      ensures DigitsValue(literal, radix) < Pow2(maxSize) ==>
        |buffer| == Max(1, BitLength(DigitsValue(literal[..i + 1], radix))) && !carry
      ensures maxSize == old(maxSize) && numberType == old(numberType) && isSigned == old(isSigned)
    {
      var n := DigitOf(literal[i]);
      ghost var before, p := |buffer|, Pow2(maxSize);
      ghost var a, b := DigitsValue(literal[..i], radix), DigitsValue(literal[..i + 1], radix);
      NextDigit(literal, i, radix);
      FoldDigit(radix, n, a, b);
      assert Pow2(maxSize) == p;
      if DigitsValue(literal, radix) < p {
        assert before <= maxSize && b < p;
        assert |buffer| == Max(before, BitLength(b)) && !carry;
        LengthGrows(1, before, |buffer|, a, b);
      }
    }

    /** The end of `from`: the vector padded with false bits to whole bytes, which become `max_size`. */
    method PadToBytes()
      requires |buffer| <= maxSize
      modifies this
      ensures Value(buffer) == LowValue(old(buffer), old(maxSize))
      ensures maxSize == WholeBytes(|old(buffer)|) && |buffer| == maxSize
      ensures buffer == old(buffer) + Zeros(maxSize - |old(buffer)|)
      ensures numberType == old(numberType) && isSigned == old(isSigned) && carry == old(carry)
    {
      LowValuePadded(buffer, maxSize);
      var length := |buffer|;
      maxSize := WholeBytes(length);
      PaddedValue(buffer, maxSize - length);
      buffer := Padded(buffer, maxSize);
    }

    /**
     * The body of the loop of `from`: multiply by the radix, then add the
     * digit. When the new value e fits the width, the vector grows to
     * exactly e's bit length.
     */
    method FoldDigit(radix: nat, digit: nat, ghost d: nat, ghost e: nat)
      requires digit < radix <= U32_MAX && LowValue(buffer, maxSize) == d % Pow2(maxSize)
      requires e == d * radix + digit
      modifies this
      ensures LowValue(buffer, maxSize) == e % Pow2(maxSize)
      ensures |old(buffer)| <= |buffer| <= Max(|old(buffer)|, maxSize)
      ensures |old(buffer)| <= maxSize && e < Pow2(maxSize) ==> |buffer| == Max(|old(buffer)|, BitLength(e))
      ensures |old(buffer)| <= maxSize && e < Pow2(maxSize) ==> !carry
      ensures maxSize == old(maxSize) && numberType == old(numberType) && isSigned == old(isSigned)
    {
      ghost var p := Pow2(maxSize);
      ghost var start, low := |buffer|, LowValue(buffer, maxSize);
      MulNumber(radix);
      assert Pow2(maxSize) == p;
      ghost var product, v := |buffer|, LowValue(buffer, maxSize);
      AddNumber(digit);
      assert Pow2(maxSize) == p;
      DigitStep(maxSize, p, start, product, |buffer|, d, radix, digit, e, low, v, LowValue(buffer, maxSize), carry);
    }

    /** `Number::new`: maxSize false bits. */
    constructor New(numberType: NumberType, isSigned: bool, maxSize: nat)
      ensures buffer == Zeros(maxSize) && this.maxSize == maxSize
      ensures this.numberType == numberType && this.isSigned == isSigned && !carry
    {
      buffer := Zeros(maxSize);
      this.maxSize := maxSize;
      this.numberType := numberType;
      this.isSigned := isSigned;
      carry := false;
    }

    /**
     * `add_number`: adds a u32 into the low maxSize bits, growing the
     * vector as far as the carries reach and keeping the carry out. When
     * the sum fits, the sum and the new length are exact.
     */
    method AddNumber(additive: nat)
      requires additive <= U32_MAX
      modifies this
      ensures LowValue(buffer, maxSize) == (LowValue(old(buffer), maxSize) + additive) % Pow2(maxSize)
      ensures carry <==> LowValue(old(buffer), maxSize) + additive % Pow2(maxSize) >= Pow2(maxSize)
      ensures forall k: nat :: maxSize <= k ==> BitAt(buffer, k) == BitAt(old(buffer), k)
      ensures |old(buffer)| <= |buffer| <= Max(|old(buffer)|, maxSize)
      ensures |old(buffer)| <= maxSize && LowValue(old(buffer), maxSize) + additive < Pow2(maxSize) ==>
        LowValue(buffer, maxSize) == LowValue(old(buffer), maxSize) + additive
        && |buffer| == Max(|old(buffer)|, BitLength(LowValue(old(buffer), maxSize) + additive))
        && !carry
      ensures maxSize == old(maxSize) && numberType == old(numberType) && isSigned == old(isSigned)
    {
      ghost var sum := LowValue(buffer, maxSize) + additive;
      buffer, carry := RippleAddWord(buffer, maxSize, additive);
      if sum < Pow2(maxSize) {
        ModLess(sum, Pow2(maxSize));
        ModLess(additive, Pow2(maxSize));
      }
    }

    /**
     * `add_bools`: adds a bit vector into the low maxSize bits the same
     * way; the carry out is dropped and the `carry` field kept. The new
     * length is exact when the sum fits, as for `AddNumber`.
     */
    method AddBools(additive: seq<bool>)
      modifies this
      ensures LowValue(buffer, maxSize) == (LowValue(old(buffer), maxSize) + LowValue(additive, maxSize)) % Pow2(maxSize)
      ensures forall k: nat :: maxSize <= k ==> BitAt(buffer, k) == BitAt(old(buffer), k)
      ensures |old(buffer)| <= |buffer| <= Max(|old(buffer)|, maxSize)
      ensures (|additive| <= |old(buffer)| <= maxSize
        && LowValue(old(buffer), maxSize) + LowValue(additive, maxSize) < Pow2(maxSize)) ==>
        |buffer| == Max(|old(buffer)|, BitLength(LowValue(old(buffer), maxSize) + LowValue(additive, maxSize)))
      ensures maxSize == old(maxSize) && numberType == old(numberType) && isSigned == old(isSigned)
      ensures carry == old(carry)
    {
      var carryOut;
      buffer, carryOut := RippleAddBits(buffer, maxSize, additive);
    }

    /**
     * `mul_number`: m - 1 additions of the vector's old bits, so the low
     * maxSize bits are multiplied by m; m = 0 leaves the vector as it was.
     * When the product fits, it and the new length are exact, as for `AddNumber`.
     */
    method MulNumber(m: nat)
      modifies this
      ensures m <= 1 ==> buffer == old(buffer)
      ensures m >= 1 ==> LowValue(buffer, maxSize) == (LowValue(old(buffer), maxSize) * m) % Pow2(maxSize)
      ensures forall k: nat :: maxSize <= k ==> BitAt(buffer, k) == BitAt(old(buffer), k)
      ensures |old(buffer)| <= |buffer| <= Max(|old(buffer)|, maxSize)
      ensures 1 <= m && |old(buffer)| <= maxSize && LowValue(old(buffer), maxSize) * m < Pow2(maxSize) ==>
        LowValue(buffer, maxSize) == LowValue(old(buffer), maxSize) * m
        && |buffer| == Max(|old(buffer)|, BitLength(LowValue(old(buffer), maxSize) * m))
      ensures maxSize == old(maxSize) && numberType == old(numberType) && isSigned == old(isSigned)
      ensures carry == old(carry)
    {
      var additive := buffer;
      var x := LowValue(additive, maxSize);
      LowValueBound(additive, maxSize);
      ghost var n, p := maxSize, Pow2(maxSize);
      ModLess(x, p);
      ghost var exact := 1 <= m && |buffer| <= n && x * m < p;
      if exact {
        FitsItsLength(additive, maxSize);
        assert x * 1 == x;
      }
      var k := 1;
      while k < m
        invariant 1 <= k <= Max(m, 1)
        invariant maxSize == n && numberType == old(numberType) && isSigned == old(isSigned)
        invariant carry == old(carry)
        invariant k == 1 ==> buffer == additive
        invariant LowValue(buffer, n) == (x * k) % p
        invariant forall j: nat :: n <= j ==> BitAt(buffer, j) == BitAt(additive, j)
        invariant |additive| <= |buffer| <= Max(|additive|, n)
        invariant exact ==> |buffer| == Max(|additive|, BitLength(x * k))
        decreases m - k
      {
        if exact {
          MulLe(x, k + 1, m);
        }
        AddOnce(additive, x, k);
        assert Pow2(maxSize) == p;
        k := k + 1;
      }
      assert Pow2(maxSize) == p;
      if exact {
        ModLess(x * m, p);
      }
    }

    /** One addition of `mul_number`'s loop: the k-th multiple of x becomes the (k + 1)-th. */
    method AddOnce(additive: seq<bool>, ghost x: nat, ghost k: nat)
      requires x == LowValue(additive, maxSize) && LowValue(buffer, maxSize) == (x * k) % Pow2(maxSize)
      modifies this
      ensures LowValue(buffer, maxSize) == (x * (k + 1)) % Pow2(maxSize)
      ensures forall j: nat :: maxSize <= j ==> BitAt(buffer, j) == BitAt(old(buffer), j)
      ensures |old(buffer)| <= |buffer| <= Max(|old(buffer)|, maxSize)
      ensures (|additive| <= |old(buffer)| <= maxSize && x * (k + 1) < Pow2(maxSize)
        && |old(buffer)| == Max(|additive|, BitLength(x * k))) ==>
        |buffer| == Max(|additive|, BitLength(x * (k + 1)))
      ensures maxSize == old(maxSize) && numberType == old(numberType) && isSigned == old(isSigned)
      ensures carry == old(carry)
    {
      ghost var p := Pow2(maxSize);
      ghost var before, low := |buffer|, LowValue(buffer, maxSize);
      AddBools(additive);
      assert Pow2(maxSize) == p;
      MultipleStep(maxSize, p, |additive|, before, |buffer|, low, x, k, LowValue(buffer, maxSize));
    }

    /** `assign_value`: a copy of the other register's bits, width, type and signedness, with no carry. */
    method AssignValue(other: Number)
      requires other != this
      modifies this
      ensures buffer == other.buffer && maxSize == other.maxSize
      ensures numberType == other.numberType && isSigned == other.isSigned && !carry
    {
      var copy: seq<bool> := [];
      var i := 0;
      while i < |other.buffer|
        invariant i <= |other.buffer| && copy == other.buffer[..i]
      {
        copy := copy + [other.buffer[i]];
        i := i + 1;
      }
      buffer := copy;
      maxSize := other.maxSize;
      numberType := other.numberType;
      isSigned := other.isSigned;
      carry := false;
    }

    /** `get_bits`: the positions low to high; their value is the field of the register's value there. */
    function GetBits(r: BitsRange): (bits: seq<bool>)
      reads this
      requires SliceOk(buffer, r)
      ensures |bits| == IndexIn(buffer, r.high) + 1 - IndexIn(buffer, r.low)
      ensures Value(bits) == Field(Value(buffer), IndexIn(buffer, r.low), |bits|)
    {
      var low, high := IndexIn(buffer, r.low), IndexIn(buffer, r.high);
      SliceValue(buffer, low, high);
      buffer[low..high + 1]
    }

    /** `set_bits`: writes the source into the positions from low on, as `WrittenBits` describes. */
    method SetBits(r: BitsRange, source: seq<bool>)
      requires SetOk(buffer, r, source)
      modifies this
      ensures buffer == WrittenBits(old(buffer), IndexIn(old(buffer), r.low), IndexIn(old(buffer), r.high), source)
      ensures maxSize == old(maxSize) && numberType == old(numberType) && isSigned == old(isSigned)
      ensures carry == old(carry)
    {
      var b := buffer;
      var low, high := IndexIn(b, r.low), IndexIn(b, r.high);
      var bits := b;
      var index := 0;
      var target := low;
      while target <= high
        invariant target == low + index && index <= |source|
        invariant if low <= high then target <= high + 1 else index == 0
        invariant index > 0 ==> low <= |b|
        invariant |bits| == if index == 0 then |b| else Max(|b|, target)
        invariant forall k :: 0 <= k < |bits| ==> bits[k] == if low <= k < target then source[k - low] else BitAt(b, k)
        decreases high + 1 - target
      {
        if target >= |bits| {
          bits := bits + [false];
        }
        if index < |source| {
          bits := bits[target := source[index]];
          index := index + 1;
          target := target + 1;
        } else {
          ghost var written := WrittenBits(b, low, high, source);
          assert |bits| == |written|;
          assert forall k :: 0 <= k < |bits| ==> bits[k] == written[k];
          assert bits == written;
          break;
        }
      }
      ghost var written := WrittenBits(b, low, high, source);
      if low <= high && target == high + 1 {
        assert Min(high + 1 - low, |source|) == index;
        assert |bits| == |written|;
        assert forall k :: 0 <= k < |bits| ==> bits[k] == written[k];
      } else if low > high {
        assert forall k :: 0 <= k < |bits| ==> bits[k] == b[k];
      }
      assert bits == written;
      buffer := bits;
    }

    /** `extend_to`: the register widened to n bits, the new bits false. */
    method ExtendTo(n: nat)
      requires |buffer| <= n
      modifies this
      ensures buffer == old(buffer) + Zeros(n - |old(buffer)|) && maxSize == n
      ensures Value(buffer) == Value(old(buffer))
      ensures numberType == old(numberType) && isSigned == old(isSigned) && carry == old(carry)
    {
      maxSize := n;
      PaddedValue(buffer, n - |buffer|);
      buffer := Padded(buffer, n);
    }

    /**
     * The `Display` text: "0b", a zero for every position between the
     * vector's length and maxSize, then the vector from its most
     * significant bit down, so the character at j shows bit width + 1 - j.
     */
    method Display() returns (text: string)
      ensures |text| == 2 + Max(maxSize, |buffer|) && text[..2] == "0b"
      ensures forall j :: 2 <= j < |text| ==> text[j] == BitChar(buffer, Max(maxSize, |buffer|) + 1 - j)
    {
      var width := Max(maxSize, |buffer|);
      text := "0b";
      var k := |buffer|;
      while k < maxSize
        invariant |buffer| <= k <= width && |text| == 2 + k - |buffer| && text[..2] == "0b"
        invariant forall j :: 2 <= j < |text| ==> text[j] == BitChar(buffer, width + 1 - j)
      {
        text := text + "0";
        k := k + 1;
      }
      var i := |buffer|;
      while i > 0
        invariant 0 <= i <= |buffer| && |text| == 2 + width - i && text[..2] == "0b"
        invariant forall j :: 2 <= j < |text| ==> text[j] == BitChar(buffer, width + 1 - j)
      {
        text := text + (if buffer[i - 1] then "1" else "0");
        i := i - 1;
      }
    }
  }
}
