/** The wrapping numeric layer of the generator: the five unsigned integer
    types the engine is instantiated at, modelled as naturals below 2^BITS,
    with the wrapping add and multiply, the narrowing conversion, the
    conversion to a (64-bit) usize, and the shift, rotate and bitwise
    operators the output permutations are built from. */
module NumOps {

  /** The unsigned integer types u8, u16, u32, u64 and u128. */
  datatype Width = W8 | W16 | W32 | W64 | W128

  /** size_of::<T>() for each type, in bytes. */
  function SizeOf(w: Width): (r: nat)
    ensures 1 <= r <= 16
  {
    match w
    case W8 => 1
    case W16 => 2
    case W32 => 4
    case W64 => 8
    case W128 => 16
  }

  /** BitSize::BITS: the number of bits of the type, eight per byte. */
  function Bits(w: Width): (r: nat)
    ensures r == 8 * SizeOf(w)
  {
    match w
    case W8 => 8
    case W16 => 16
    case W32 => 32
    case W64 => 64
    case W128 => 128
  }

  /** BITS takes exactly the five values of the five types. */
  lemma BitsValues(w: Width)
    ensures Bits(w) in {8, 16, 32, 64, 128}
  {
  }

  function Pow2(n: nat): (r: nat)
    ensures r >= 1
  {
    if n == 0 then 1 else 2 * Pow2(n - 1)
  }

  /** 2^BITS: every value of the type is below it, and all arithmetic wraps modulo it. */
  function Modulus(w: Width): (r: nat)
  {
    Pow2(Bits(w))
  }

  /** The value range of the type. */
  predicate Fits(x: nat, w: Width)
  {
    x < Modulus(w)
  }

  /** The pairs for which AsSmaller is implemented: strictly narrowing ones. */
  predicate Narrower(small: Width, big: Width)
  {
    Bits(small) < Bits(big)
  }

  /** The width of usize on the 64-bit targets the model assumes. */
  const UsizeBits: nat := 64

  // ---------------------------------------------------------------------
  // The operations of PcgOps, AsSmaller and AsUsize

  /** PcgOps::wrap_add: u*::wrapping_add. On in-range operands the sum wraps
      at most once. */
  function WrapAdd(a: nat, b: nat, w: Width): (r: nat)
    ensures Fits(r, w)
    ensures a + b < Modulus(w) ==> r == a + b
    ensures Fits(a, w) && Fits(b, w) && a + b >= Modulus(w) ==> r == a + b - Modulus(w)
  {
    ModSmall(a + b, Modulus(w));
    ModOnce(a + b, Modulus(w));
    (a + b) % Modulus(w)
  }

  /** PcgOps::wrap_mul: u*::wrapping_mul. */
  function WrapMul(a: nat, b: nat, w: Width): (r: nat)
    ensures Fits(r, w)
    ensures a * b < Modulus(w) ==> r == a * b
  {
    ModSmall(a * b, Modulus(w));
    (a * b) % Modulus(w)
  }

  /** AsSmaller::shrink: the `as` cast to a narrower type keeps the low bits. */
  function Shrink(x: nat, big: Width, small: Width): (r: nat)
    requires Narrower(small, big)
    ensures Fits(r, small)
    ensures Fits(x, small) ==> r == x
  {
    ModSmall(x, Modulus(small));
    x % Modulus(small)
  }

  /** AsUsize::as_usize: an `as usize` cast, truncating to 64 bits. */
  function AsUsize(x: nat): (r: nat)
    ensures r < Pow2(UsizeBits)
    ensures x < Pow2(UsizeBits) ==> r == x
  {
    ModSmall(x, Pow2(UsizeBits));
    x % Pow2(UsizeBits)
  }

  // ---------------------------------------------------------------------
  // Shifts, rotation and bitwise operators on naturals

  /** Logical right shift: the low k bits are dropped, so the value never
      grows, and a value of fewer than k bits shifts out entirely. */
  function Shr(x: nat, k: nat): (r: nat)
    ensures r <= x
    ensures x < Pow2(k) ==> r == 0
  {
    DivShrinks(x, Pow2(k));
    x / Pow2(k)
  }

  /** Left shift within a type: the bits shifted past the top are lost. */
  function Shl(x: nat, k: nat, w: Width): (r: nat)
    ensures Fits(r, w)
  {
    (x * Pow2(k)) % Modulus(w)
  }

  /** Bitwise exclusive or: never more than the sum (no carries), and a
      value xored with itself is 0. */
  function Xor(a: nat, b: nat): (r: nat)
    ensures r <= a + b
    ensures a == b ==> r == 0
    decreases a + b
  {
    if a == 0 && b == 0 then 0
    else 2 * Xor(a / 2, b / 2) + (if a % 2 != b % 2 then 1 else 0)
  }

  /** Bitwise or: at least each operand and at most their sum. */
  function Or(a: nat, b: nat): (r: nat)
    ensures a <= r && b <= r && r <= a + b
    decreases a + b
  {
    if a == 0 && b == 0 then 0
    else 2 * Or(a / 2, b / 2) + (if a % 2 == 1 || b % 2 == 1 then 1 else 0)
  }

  /** Bitwise and: it only clears bits, so it is at most each operand. */
  function And(a: nat, b: nat): (r: nat)
    ensures r <= a && r <= b
    decreases a + b
  {
    if a == 0 && b == 0 then 0
    else 2 * And(a / 2, b / 2) + (if a % 2 == 1 && b % 2 == 1 then 1 else 0)
  }

  /** u*::rotate_right: rotate by n modulo the width; bits leaving the bottom
      re-enter at the top. */
  function RotR(x: nat, n: nat, w: Width): (r: nat)
    requires Fits(x, w)
    ensures Fits(r, w)
  {
    ModBounds(n, Bits(w));
    var k := n % Bits(w);
    ModBounds(x, Pow2(k));
    RotBound(x, k, Bits(w));
    MulNat(x % Pow2(k), Pow2(Bits(w) - k));
    Shr(x, k) + (x % Pow2(k)) * Pow2(Bits(w) - k)
  }

  // ---------------------------------------------------------------------
  // Facts about division and remainder

  // The next three lemmas are hints for the solver; they model nothing in
  // the sources.

  /** A quotient of naturals is a natural. */
  lemma DivNat(x: nat, p: nat)
    requires p > 0
    ensures x / p >= 0
  {
  }

  /** A product of naturals is a natural. */
  lemma MulNat(a: nat, b: nat)
    ensures a * b >= 0
  {
  }

  /** A remainder by a positive divisor lies below it. */
  lemma ModBounds(x: nat, m: nat)
    requires m > 0
    ensures 0 <= x % m < m
  {
  }

  /** Dividing by a positive number never grows a natural, and sends the
      naturals below the divisor to 0. */
  lemma DivShrinks(x: nat, p: nat)
    requires p > 0
    ensures 0 <= x / p <= x
    ensures x < p ==> x / p == 0
  {
    if x < p {
      DivModUnique(x, p, 0, x);
    } else {
      assert (x / p) * p <= x;
      MulMonotone(1, p, x / p);
    }
  }

  lemma ModSmall(x: nat, m: nat)
    requires m > 0
    ensures x < m ==> x % m == x
  {
    if x < m {
      DivModUnique(x, m, 0, x);
    }
  }

  lemma ModOnce(x: nat, m: nat)
    requires m > 0
    ensures m <= x < 2 * m ==> x % m == x - m
  {
    if m <= x < 2 * m {
      DivModUnique(x, m, 1, x - m);
    }
  }

  lemma MulLessCancel(a: int, b: int, c: int)
    requires c > 0 && a * c < b * c
    ensures a < b
  {
  }

  lemma MulMonotone(a: int, b: int, c: int)
    requires a <= b && c >= 0
    ensures a * c <= b * c
  {
  }

  /** Euclidean division is determined by quotient and remainder. */
  lemma DivModUnique(x: int, d: int, q: int, r: int)
    requires d > 0 && 0 <= r < d && x == q * d + r
    ensures x / d == q && x % d == r
  {
    var q0, r0 := x / d, x % d;
    assert q0 * d + r0 == q * d + r;
    assert (q0 - q) * d == r - r0;
    MulLessCancel(q0 - q, 1, d);
    MulLessCancel(q - q0, 1, d);
  }

  lemma MulModSmall(a: nat, p: nat, q: nat)
    requires p > 0 && a < q
    ensures (a * p) % (q * p) == a * p
  {
    MulMonotone(a, q - 1, p);
    DivModUnique(a * p, q * p, 0, a * p);
  }

  lemma ShiftOutGeneral(x: nat, p: nat, q: nat)
    requires p > 0 && q > 0
    ensures (x * q) % (p * q) == (x % p) * q
  {
    MulMonotone(x % p, p - 1, q);
    assert x * q == (x / p) * (p * q) + (x % p) * q;
    DivModUnique(x * q, p * q, x / p, (x % p) * q);
  }

  lemma MulModAssoc(a: nat, b: nat, c: nat, m: nat)
    requires m > 0
    ensures ((a * b) % m * c) % m == (a * (b * c)) % m
  {
    ModProduct(a * b, c, m);
    ModProduct((a * b) % m, c, m);
    ModSmall((a * b) % m, m);
    assert (a * b) * c == a * (b * c);
  }


  lemma DivDivGeneral(x: nat, p: nat, q: nat)
    requires p > 0 && q > 0
    ensures x / p / q == x / (p * q)
  {
    var q1, r1 := x / p, x % p;
    var q2, r2 := q1 / q, q1 % q;
    assert x == q2 * (p * q) + (r2 * p + r1) by {
      assert x == q1 * p + r1;
      assert q1 == q2 * q + r2;
    }
    MulMonotone(r2, q - 1, p);
    DivModUnique(x, p * q, q2, r2 * p + r1);
  }

  lemma ModModGeneral(x: nat, p: nat, q: nat)
    requires p > 0 && q > 0
    ensures x % (p * q) % p == x % p
  {
    var big := x % (p * q);
    var k := x / (p * q);
    assert x == k * (p * q) + big;
    assert big == (big / p) * p + big % p;
    assert x == (k * q + big / p) * p + big % p;
    DivModUnique(x, p, k * q + big / p, big % p);
  }

  lemma ModSum(a: nat, b: nat, m: nat)
    requires m > 0
    ensures (a + b) % m == (a % m + b % m) % m
  {
    var s := a % m + b % m;
    assert a == (a / m) * m + a % m;
    assert b == (b / m) * m + b % m;
    assert s == (s / m) * m + s % m;
    assert a + b == (a / m + b / m + s / m) * m + s % m;
    DivModUnique(a + b, m, a / m + b / m + s / m, s % m);
  }

  lemma ModProduct(a: nat, b: nat, m: nat)
    requires m > 0
    ensures (a * b) % m == ((a % m) * (b % m)) % m
  {
    var qa, ra, qb, rb := a / m, a % m, b / m, b % m;
    var s := ra * rb;
    assert a == qa * m + ra;
    assert b == qb * m + rb;
    assert a * b == (qa * m + ra) * (qb * m + rb);
    assert a * b == (qa * qb * m + qa * rb + ra * qb) * m + s;
    assert s == (s / m) * m + s % m;
    assert a * b == (qa * qb * m + qa * rb + ra * qb + s / m) * m + s % m;
    DivModUnique(a * b, m, qa * qb * m + qa * rb + ra * qb + s / m, s % m);
  }

  lemma DivBoundGeneral(x: nat, p: nat, q: nat)
    requires p > 0 && q > 0 && x < p * q
    ensures x / p < q
  {
    assert (x / p) * p <= x;
    MulLessCancel(x / p, q, p);
  }

  lemma HalveMod(a: nat, p: nat)
    requires p > 0
    ensures a % (2 * p) == 2 * ((a / 2) % p) + a % 2
  {
    var q := (a / 2) / p;
    assert a / 2 == q * p + (a / 2) % p;
    assert a == 2 * (a / 2) + a % 2;
    assert a == q * (2 * p) + (2 * ((a / 2) % p) + a % 2);
    DivModUnique(a, 2 * p, q, 2 * ((a / 2) % p) + a % 2);
  }

  /** Splitting x below p * q into its quotient by p and its remainder, and
      putting the remainder on top, stays below p * q. */
  lemma RotGeneral(x: nat, p: nat, q: nat)
    requires p > 0 && q > 0 && x < p * q
    ensures x / p + (x % p) * q < p * q
  {
    DivBoundGeneral(x, p, q);
    MulMonotone(x % p, p - 1, q);
  }

  lemma RotInverseGeneral(x: nat, p: nat, q: nat)
    requires p > 0 && q > 0 && x < p * q
    ensures var y := x / p + (x % p) * q; y / q + (y % q) * p == x
  {
    var y := x / p + (x % p) * q;
    DivBoundGeneral(x, p, q);
    DivModUnique(y, q, x % p, x / p);
  }

  // ---------------------------------------------------------------------
  // Facts about powers of two

  lemma {:induction false} Pow2Add(a: nat, b: nat)
    ensures Pow2(a + b) == Pow2(a) * Pow2(b)
  {
    if a > 0 {
      Pow2Add(a - 1, b);
      assert Pow2(a + b) == 2 * Pow2(a - 1 + b);
    }
  }

  lemma Pow2Monotone(a: nat, b: nat)
    requires a <= b
    ensures Pow2(a) <= Pow2(b)
  {
    Pow2Add(a, b - a);
    MulMonotone(1, Pow2(b - a), Pow2(a));
  }

  /** u64 narrows to u32. */
  lemma NarrowW64W32()
    ensures Narrower(W32, W64) && Modulus(W32) < Modulus(W64)
  {
    Pow2Monotone(33, 64);
    assert Pow2(33) == 2 * Pow2(32);
  }

  /** Every type holds 0 and 1: its modulus is at least 2. */
  lemma OneFits(w: Width)
    ensures Fits(1, w) && Modulus(w) >= 2
  {
    assert Pow2(Bits(w)) == 2 * Pow2(Bits(w) - 1);
  }

  /** The moduli of the five types, written out. */
  lemma ModulusValues()
    ensures Pow2(8) == Modulus(W8) == 0x100
    ensures Pow2(16) == Modulus(W16) == 0x1_0000
    ensures Pow2(32) == Modulus(W32) == 0x1_0000_0000
    ensures Pow2(64) == Modulus(W64) == 0x1_0000_0000_0000_0000
    ensures Pow2(128) == Modulus(W128) == 0x1_0000_0000_0000_0000_0000_0000_0000_0000
  {
    assert Pow2(8) == 0x100;
    Pow2Add(8, 8);
    Pow2Add(16, 16);
    Pow2Add(32, 32);
    Pow2Add(64, 64);
  }

  /** Shifting right by a then by b is shifting right by a + b. */
  lemma DivDiv(x: nat, a: nat, b: nat)
    ensures x / Pow2(a) / Pow2(b) == x / Pow2(a + b)
  {
    Pow2Add(a, b);
    DivDivGeneral(x, Pow2(a), Pow2(b));
  }

  lemma ModMod(x: nat, a: nat, b: nat)
    requires a <= b
    ensures x % Pow2(b) % Pow2(a) == x % Pow2(a)
  {
    Pow2Add(a, b - a);
    ModModGeneral(x, Pow2(a), Pow2(b - a));
  }

  /** Dropping the low k bits of an n-bit value leaves an (n-k)-bit value. */
  lemma DivBound(x: nat, k: nat, n: nat)
    requires x < Pow2(n) && k <= n
    ensures x / Pow2(k) < Pow2(n - k)
  {
    Pow2Add(k, n - k);
    DivBoundGeneral(x, Pow2(k), Pow2(n - k));
  }

  lemma RotBound(x: nat, k: nat, n: nat)
    requires x < Pow2(n) && k <= n
    ensures x / Pow2(k) + (x % Pow2(k)) * Pow2(n - k) < Pow2(n)
  {
    Pow2Add(k, n - k);
    RotGeneral(x, Pow2(k), Pow2(n - k));
  }

  // ---------------------------------------------------------------------
  // Facts about the bitwise operators

  lemma {:induction false} XorCommutes(a: nat, b: nat)
    ensures Xor(a, b) == Xor(b, a)
    decreases a + b
  {
    if a != 0 || b != 0 {
      XorCommutes(a / 2, b / 2);
    }
  }

  lemma {:induction false} OrCommutes(a: nat, b: nat)
    ensures Or(a, b) == Or(b, a)
    decreases a + b
  {
    if a != 0 || b != 0 {
      OrCommutes(a / 2, b / 2);
    }
  }

  lemma {:induction false} XorBound(a: nat, b: nat, n: nat)
    requires a < Pow2(n) && b < Pow2(n)
    ensures Xor(a, b) < Pow2(n)
  {
    if n > 0 && (a != 0 || b != 0) {
      XorBound(a / 2, b / 2, n - 1);
    }
  }

  lemma {:induction false} OrBound(a: nat, b: nat, n: nat)
    requires a < Pow2(n) && b < Pow2(n)
    ensures Or(a, b) < Pow2(n)
  {
    if n > 0 && (a != 0 || b != 0) {
      OrBound(a / 2, b / 2, n - 1);
    }
  }

  lemma {:induction false} OrZero(a: nat)
    ensures Or(a, 0) == a && Or(0, a) == a
  {
    if a != 0 {
      OrZero(a / 2);
    }
  }

  lemma {:induction false} OrSelf(a: nat)
    ensures Or(a, a) == a
  {
    if a != 0 {
      OrSelf(a / 2);
    }
  }

  /** `x | 1` sets the lowest bit and leaves the rest: the result is odd. */
  lemma OrOne(a: nat)
    ensures Or(a, 1) == (if a % 2 == 0 then a + 1 else a)
    ensures Or(a, 1) % 2 == 1
  {
    var h := a / 2;
    OrZero(h);
    assert Or(a, 1) == 2 * Or(h, 0) + 1;
  }

  /** Or of bit ranges that do not overlap is their sum. */
  lemma {:induction false} OrDisjoint(a: nat, b: nat, k: nat)
    requires a < Pow2(k)
    ensures Or(a, b * Pow2(k)) == a + b * Pow2(k)
  {
    if k == 0 {
      OrZero(b);
    } else {
      var hi := b * Pow2(k);
      assert hi == 2 * (b * Pow2(k - 1));
      if a != 0 || hi != 0 {
        OrDisjoint(a / 2, b, k - 1);
      }
    }
  }

  lemma {:induction false} AndZero(a: nat)
    ensures And(a, 0) == 0
  {
    if a != 0 {
      AndZero(a / 2);
    }
  }

  /** Masking with 2^k - 1 keeps the low k bits. */
  lemma {:induction false} AndLowMask(a: nat, k: nat)
    ensures And(a, Pow2(k) - 1) == a % Pow2(k)
  {
    if k == 0 {
      AndZero(a);
    } else {
      AndLowMask(a / 2, k - 1);
      AndMaskStep(a, Pow2(k - 1));
    }
  }

  /** One bit more of mask: from the halves' low bits to the value's. */
  lemma AndMaskStep(a: nat, p: nat)
    requires p > 0 && And(a / 2, p - 1) == (a / 2) % p
    ensures And(a, 2 * p - 1) == a % (2 * p)
  {
    assert (2 * p - 1) % 2 == 1 && (2 * p - 1) / 2 == p - 1;
    AndOddStep(a, 2 * p - 1);
    HalveMod(a, p);
  }

  /** Against an odd mask, `&` keeps the low bit and recurses on the halves. */
  lemma AndOddStep(a: nat, m: nat)
    requires m % 2 == 1
    ensures And(a, m) == 2 * And(a / 2, m / 2) + a % 2
  {
  }

  // ---------------------------------------------------------------------
  // Properties of the modelled operations

  /** Narrowing composes: u128 -> u64 -> u32 is u128 -> u32 (and likewise
      for every chain of narrowing casts). */
  lemma ShrinkCompose(x: nat, big: Width, mid: Width, small: Width)
    requires Narrower(mid, big) && Narrower(small, mid)
    ensures Narrower(small, big)
    ensures Shrink(Shrink(x, big, mid), mid, small) == Shrink(x, big, small)
  {
    ModMod(x, Bits(small), Bits(mid));
  }

  /** Wrapping addition at a wide type, narrowed, is wrapping addition of the
      narrowed operands at the narrow type. */
  lemma ShrinkWrapAdd(a: nat, b: nat, big: Width, small: Width)
    requires Narrower(small, big)
    ensures Shrink(WrapAdd(a, b, big), big, small)
         == WrapAdd(Shrink(a, big, small), Shrink(b, big, small), small)
  {
    var s, x, y := WrapAdd(a, b, big), Shrink(a, big, small), Shrink(b, big, small);
    WrapAddDef(a, b, big);
    ShrinkDef(a, big, small);
    ShrinkDef(b, big, small);
    NarrowSum(a, b, s, x, y, Bits(small), Bits(big));
    ShrinkDef(s, big, small);
    WrapAddDef(x, y, small);
  }

  lemma WrapAddDef(a: nat, b: nat, w: Width)
    ensures WrapAdd(a, b, w) == (a + b) % Pow2(Bits(w))
  {
  }

  lemma ShrinkDef(x: nat, big: Width, small: Width)
    requires Narrower(small, big)
    ensures Shrink(x, big, small) == x % Pow2(Bits(small))
  {
  }

  /** The sum reduced modulo 2^n, then modulo 2^k for k <= n, is the sum of
      the operands reduced modulo 2^k, reduced once more. */
  lemma NarrowSum(a: nat, b: nat, s: nat, x: nat, y: nat, k: nat, n: nat)
    requires k <= n && s == (a + b) % Pow2(n) && x == a % Pow2(k) && y == b % Pow2(k)
    ensures s % Pow2(k) == (x + y) % Pow2(k)
  {
    ModMod(a + b, k, n);
    ModSum(a, b, Pow2(k));
  }

  /** The same for wrapping multiplication. */
  lemma ShrinkWrapMul(a: nat, b: nat, big: Width, small: Width)
    requires Narrower(small, big)
    ensures Shrink(WrapMul(a, b, big), big, small)
         == WrapMul(Shrink(a, big, small), Shrink(b, big, small), small)
  {
    ModMod(a * b, Bits(small), Bits(big));
    ModProduct(a, b, Modulus(small));
  }

  /** For k <= 10, `x.as_usize() & (2^k - 1)` is x mod 2^k, whatever the
      width of x: the low bits survive the usize cast. */
  lemma AsUsizeMask(x: nat, k: nat)
    requires k <= 10
    ensures And(AsUsize(x), Pow2(k) - 1) == x % Pow2(k)
  {
    AndLowMask(AsUsize(x), k);
    ModMod(x, k, UsizeBits);
  }

  /** A rotation by a multiple of the width changes nothing. */
  lemma RotRByWidth(x: nat, n: nat, w: Width)
    requires Fits(x, w) && n % Bits(w) == 0
    ensures RotR(x, n, w) == x
  {
    assert Pow2(0) == 1;
  }

  lemma RotRUnfold(x: nat, n: nat, w: Width, k: nat, p: nat, q: nat)
    requires Fits(x, w) && k == n % Bits(w) && p == Pow2(k) && q == Pow2(Bits(w) - k)
    ensures RotR(x, n, w) == x / p + (x % p) * q
  {
    assert Shr(x, k) == x / p;
  }

  /** Rotating right by n, then by the width minus n, restores the value. */
  lemma RotRInverse(x: nat, n: nat, w: Width)
    requires Fits(x, w)
    ensures RotR(RotR(x, n, w), Bits(w) - n % Bits(w), w) == x
  {
    var b := Bits(w);
    var k := n % b;
    if k == 0 {
      RotRByWidth(x, n, w);
      RotRByWidth(x, b, w);
    } else {
      RotRInverseBy(x, n, w, k, Pow2(k), Pow2(b - k));
    }
  }

  lemma RotRInverseBy(x: nat, n: nat, w: Width, k: nat, p: nat, q: nat)
    requires Fits(x, w) && 0 < k < Bits(w) && k == n % Bits(w)
    requires p == Pow2(k) && q == Pow2(Bits(w) - k)
    ensures RotR(RotR(x, n, w), Bits(w) - k, w) == x
  {
    var b := Bits(w);
    var y := RotR(x, n, w);
    RotRUnfold(x, n, w, k, p, q);
    ModSmall(b - k, b);
    assert b - (b - k) == k;
    RotRUnfold(y, b - k, w, b - k, q, p);
    Pow2Add(k, b - k);
    RotInverseGeneral(x, p, q);
  }
  /** Shifting left by n - k within n bits keeps only the low k bits of x. */
  lemma ShlLowBits(x: nat, k: nat, w: Width)
    requires k <= Bits(w)
    ensures Shl(x, Bits(w) - k, w) == (x % Pow2(k)) * Pow2(Bits(w) - k)
  {
    Pow2Add(k, Bits(w) - k);
    ShiftOutGeneral(x, Pow2(k), Pow2(Bits(w) - k));
  }

  lemma RotRAsShiftsZero(x: nat, w: Width)
    requires Fits(x, w)
    ensures RotR(x, 0, w) == Or(Shr(x, 0), Shl(x, Bits(w) % Bits(w), w))
  {
    ShiftsByZero(x, w);
    var b := Bits(w);
    DivModUnique(b, b, 1, 0);
    OrSelf(x);
    RotRByWidth(x, 0, w);
  }

  /** Shifting by zero leaves an in-range value as it is. */
  lemma ShiftsByZero(x: nat, w: Width)
    requires Fits(x, w)
    ensures Shr(x, 0) == x && Shl(x, 0, w) == x
  {
    assert Pow2(0) == 1;
    ModSmall(x, Modulus(w));
  }

  lemma RotRAsShiftsPositive(x: nat, r: nat, w: Width)
    requires Fits(x, w) && 0 < r < Bits(w)
    ensures RotR(x, r, w) == Or(Shr(x, r), Shl(x, Bits(w) - r, w))
  {
    var b := Bits(w);
    ShlLowBits(x, r, w);
    DivBound(x, r, b);
    OrDisjoint(Shr(x, r), x % Pow2(r), b - r);
    ModSmall(r, b);
    RotRUnfold(x, r, w, r, Pow2(r), Pow2(b - r));
  }

  /** rotate_right by r is `(x >> r) | (x << ((BITS - r) mod BITS))`, the
      two-shift form hand-written rotations use. */
  lemma RotRAsShifts(x: nat, r: nat, w: Width)
    requires Fits(x, w) && r < Bits(w)
    ensures RotR(x, r, w) == Or(Shr(x, r), Shl(x, (Bits(w) - r) % Bits(w), w))
  {
    if r == 0 {
      RotRAsShiftsZero(x, w);
    } else {
      ModSmall(Bits(w) - r, Bits(w));
      RotRAsShiftsPositive(x, r, w);
    }
  }
}
