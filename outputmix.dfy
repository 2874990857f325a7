/** The output permutations: total functions from the state before the step
    (of type Itype) to the generator's output (of the narrower type Xtype).
    All three take the state, the increment and the multiplier; none of them
    uses the increment, and only DXsM uses the multiplier. */
module OutputMix {
  import opened NumOps

  /** XshRsMixin, XshRrMixin and DXsMMixin. */
  datatype OutMix = XshRs | XshRr | DXsM

  /** Itype::BITS - Xtype::BITS. Every narrowing pair leaves at least eight
      spare bits, so none of the usize subtractions below can underflow. */
  function SpareBits(itype: Width, xtype: Width): (r: nat)
    requires Narrower(xtype, itype)
    ensures r >= 8 && Bits(itype) == Bits(xtype) + r
  {
    Bits(itype) - Bits(xtype)
  }

  // ---------------------------------------------------------------------
  // XshRs: xorshift, then a right shift chosen by the top bits of the state

  /** How many top bits of the state XshRs spends on its random shift. */
  function XshRsOpBits(sparebits: nat): (r: nat)
    ensures r <= 5
    ensures r == if sparebits >= 69 then 5
                 else if sparebits >= 36 then 4
                 else if sparebits >= 19 then 3
                 else if sparebits >= 6 then 2
                 else if sparebits > 1 then 1
                 else 0
    ensures Pow2(r) - 1 <= sparebits - r
  {
    if sparebits - 5 >= 64 then 5
    else if sparebits - 4 >= 32 then 4
    else if sparebits - 3 >= 16 then 3
    else if sparebits - 2 >= 4 then 2
    else if sparebits > 1 then 1
    else 0
  }

  /** rshift: the top opbits bits of the state, at most the mask 2^opbits - 1. */
  function XshRsRandomShift(state: nat, itype: Width, xtype: Width): (r: nat)
    requires Narrower(xtype, itype) && Fits(state, itype)
    ensures r <= Pow2(XshRsOpBits(SpareBits(itype, xtype))) - 1
  {
    StateTopBits(state, Bits(itype), XshRsOpBits(SpareBits(itype, xtype)))
  }

  /** `if opbits != 0 { (state >> (BITS - opbits)).as_usize() & mask } else { 0 }`
      with mask = 2^opbits - 1: the top opbits bits of the state, the random
      part of both XshRs and XshRr. */
  function StateTopBits(state: nat, bits: nat, opbits: nat): (r: nat)
    requires opbits <= bits
    ensures r <= Pow2(opbits) - 1
  {
    if opbits != 0 then
      var top := AsUsize(Shr(state, bits - opbits));
      AndLowMask(top, opbits);
      ModBounds(top, Pow2(opbits));
      And(top, Pow2(opbits) - 1)
    else 0
  }

  /** xshift, the distance of the xorshift step: always inside the type. */
  function XshRsXorShift(itype: Width, xtype: Width): (r: nat)
    requires Narrower(xtype, itype)
    ensures 0 < r < Bits(itype)
  {
    var opbits := XshRsOpBits(SpareBits(itype, xtype));
    var mask := Pow2(opbits) - 1;
    opbits + (Bits(xtype) + mask) / 2
  }

  /** The final right shift `bottomspare - maxrandshift + rshift`: it lies
      between bottomspare - mask and bottomspare, so it is inside the type
      and leaves at least Xtype::BITS bits above it. */
  function XshRsShift(state: nat, itype: Width, xtype: Width): (r: nat)
    requires Narrower(xtype, itype) && Fits(state, itype)
    ensures var opbits := XshRsOpBits(SpareBits(itype, xtype));
            var bottomspare := SpareBits(itype, xtype) - opbits;
            bottomspare - (Pow2(opbits) - 1) <= r <= bottomspare
    ensures r + Bits(xtype) <= Bits(itype)
  {
    var sparebits := SpareBits(itype, xtype);
    var opbits := XshRsOpBits(sparebits);
    var maxrandshift := Pow2(opbits) - 1;
    var bottomspare := sparebits - opbits;
    bottomspare - maxrandshift + XshRsRandomShift(state, itype, xtype)
  }

  /** XshRsMixin::output. */
  function XshRsOutput(state: nat, itype: Width, xtype: Width): (r: nat)
    requires Narrower(xtype, itype) && Fits(state, itype)
    ensures Fits(r, xtype)
  {
    var mixed := Xor(state, Shr(state, XshRsXorShift(itype, xtype)));
    Shrink(Shr(mixed, XshRsShift(state, itype, xtype)), itype, xtype)
  }

  // ---------------------------------------------------------------------
  // XshRr: xorshift, then a rotation chosen by the top bits of the state

  /** The rotation width XshRr would like for an output of xbits bits; never
      wider than the output itself can be rotated by. */
  function XshRrWantedOpBits(xbits: nat): (r: nat)
    ensures 3 <= r <= 7
    ensures xbits >= 8 ==> Pow2(r) <= xbits
  {
    if xbits >= 128 then 7
    else if xbits >= 64 then 6
    else if xbits >= 32 then 5
    else if xbits >= 16 then 4
    else 3
  }

  /** opbits: the wanted number, clipped to the spare bits. */
  function XshRrOpBits(itype: Width, xtype: Width): (r: nat)
    requires Narrower(xtype, itype)
    ensures var wanted := XshRrWantedOpBits(Bits(xtype));
            r <= wanted && r <= SpareBits(itype, xtype)
            && (r == wanted || r == SpareBits(itype, xtype))
  {
    var sparebits := SpareBits(itype, xtype);
    var wanted := XshRrWantedOpBits(Bits(xtype));
    if sparebits >= wanted then wanted else sparebits
  }

  /** amprot: the amplified rotation amount. It is at most 2^opbits - 1,
      which is less than Xtype::BITS. */
  function XshRrRotation(state: nat, itype: Width, xtype: Width): (r: nat)
    requires Narrower(xtype, itype) && Fits(state, itype)
    ensures r <= Pow2(XshRrOpBits(itype, xtype)) - 1
    ensures r < Bits(xtype)
  {
    var opbits := XshRrOpBits(itype, xtype);
    var wanted := XshRrWantedOpBits(Bits(xtype));
    var rot := StateTopBits(state, Bits(itype), opbits);
    Pow2Monotone(opbits, wanted);
    Amplify(rot, wanted - opbits, opbits)
  }

  /** `(rot << amplifier) & mask` on usize, with mask = 2^opbits - 1. */
  function Amplify(rot: nat, amplifier: nat, opbits: nat): (r: nat)
    ensures r <= Pow2(opbits) - 1
  {
    MulNat(rot, Pow2(amplifier));
    var amplified := (rot * Pow2(amplifier)) % Pow2(UsizeBits);
    AndLowMask(amplified, opbits);
    ModBounds(amplified, Pow2(opbits));
    And(amplified, Pow2(opbits) - 1)
  }

  /** XshRrMixin::output. */
  function XshRrOutput(state: nat, itype: Width, xtype: Width): (r: nat)
    requires Narrower(xtype, itype) && Fits(state, itype)
    ensures Fits(r, xtype)
  {
    var opbits := XshRrOpBits(itype, xtype);
    var bottomspare := SpareBits(itype, xtype) - opbits;
    var xshift := (opbits + Bits(xtype)) / 2;
    var mixed := Xor(state, Shr(state, xshift));
    var result := Shrink(Shr(mixed, bottomspare), itype, xtype);
    RotR(result, XshRrRotation(state, itype, xtype), xtype)
  }

  // ---------------------------------------------------------------------
  // DXsM: double xorshift and multiply

  /** The second multiplicand of DXsM: the low half of the state with its
      bottom bit forced to one, hence odd. */
  function DXsMLow(state: nat, itype: Width, xtype: Width): (r: nat)
    requires Narrower(xtype, itype)
    ensures Fits(r, xtype) && r % 2 == 1
  {
    var low := Shrink(state, itype, xtype);
    OrOne(low);
    ModulusValues();
    OrBound(low, 1, Bits(xtype));
    Or(low, 1)
  }

  /** DXsMMixin::output. */
  function DXsMOutput(state: nat, multiplier: nat, itype: Width, xtype: Width): (r: nat)
    requires Narrower(xtype, itype)
    ensures Fits(r, xtype)
  {
    var x := Bits(xtype);
    var hi := Shrink(Shr(state, Bits(itype) - x), itype, xtype);
    var low := DXsMLow(state, itype, xtype);
    var hi1 := Xor(hi, Shr(hi, x / 2));
    var hi2 := WrapMul(hi1, Shrink(multiplier, itype, xtype), xtype);
    var hi3 := Xor(hi2, Shr(hi2, 3 * x / 4));
    WrapMul(hi3, low, xtype)
  }

  // ---------------------------------------------------------------------
  // The mixin interface

  /** OutputMixin::output(state, increment, multiplier). */
  function Output(mix: OutMix, state: nat, increment: nat, multiplier: nat,
                  itype: Width, xtype: Width): (r: nat)
    requires Narrower(xtype, itype) && Fits(state, itype)
    ensures Fits(r, xtype)
  {
    match mix
    case XshRs => XshRsOutput(state, itype, xtype)
    case XshRr => XshRrOutput(state, itype, xtype)
    case DXsM => DXsMOutput(state, multiplier, itype, xtype)
  }

  /** No output permutation reads the increment; XshRs and XshRr do not read
      the multiplier either, and DXsM reads only its low Xtype::BITS bits. */
  lemma OutputArguments(mix: OutMix, state: nat, inc1: nat, inc2: nat, m1: nat, m2: nat,
                        itype: Width, xtype: Width)
    requires Narrower(xtype, itype) && Fits(state, itype)
    requires mix == DXsM ==> m1 % Modulus(xtype) == m2 % Modulus(xtype)
    ensures Output(mix, state, inc1, m1, itype, xtype) == Output(mix, state, inc2, m2, itype, xtype)
  {
  }

  // ---------------------------------------------------------------------
  // The permutations at the widths the named generators use

  /** The top k bits of a 2^n-bounded value pass through the usize cast and
      the mask 2^k - 1 unchanged. */
  lemma TopBits(s: nat, n: nat, k: nat)
    requires s < Pow2(n) && 1 <= k <= 10 && k <= n
    ensures And(AsUsize(Shr(s, n - k)), Pow2(k) - 1) == Shr(s, n - k) < Pow2(k)
  {
    var x := Shr(s, n - k);
    TopBitsBound(s, n, k);
    AsUsizeMask(x, k);
    ModSmall(x, Pow2(k));
  }

  /** The top k bits of a 2^n-bounded value are below 2^k. */
  lemma TopBitsBound(s: nat, n: nat, k: nat)
    requires s < Pow2(n) && k <= n
    ensures Shr(s, n - k) < Pow2(k)
  {
    DivBound(s, n - k, n);
    assert n - (n - k) == k;
  }

  /** For opbits > 0 the random part is the masked usize of the shifted state. */
  lemma {:induction false} StateTopBitsUnfold(state: nat, bits: nat, opbits: nat)
    requires 0 < opbits <= bits
    ensures StateTopBits(state, bits, opbits) == And(AsUsize(Shr(state, bits - opbits)), Pow2(opbits) - 1)
  {
  }

  /** For 1 <= k <= 10 the random part is the state shifted right by n - k. */
  lemma {:induction false} StateTopBitsIsShr(s: nat, n: nat, k: nat)
    requires s < Pow2(n) && 1 <= k <= 10 && k <= n
    ensures StateTopBits(s, n, k) == Shr(s, n - k) < Pow2(k)
  {
    TopBits(s, n, k);
    StateTopBitsUnfold(s, n, k);
  }

  /** At (u64, u32) XshRs spends the top three bits: rshift is s >> 61. */
  lemma XshRsRandomShift6432(s: nat)
    requires Fits(s, W64)
    ensures XshRsRandomShift(s, W64, W32) == Shr(s, 61)
  {
    XshRsConstants6432();
    TopBits(s, 64, 3);
  }

  /** XshRs from u64 to u32 (Pcg32Fast): ((s ^ (s >> 22)) >> (22 + (s >> 61))) as u32.
      Its final shift is between 22 and 29. */
  lemma XshRs6432(s: nat)
    requires Fits(s, W64)
    ensures 22 <= XshRsShift(s, W64, W32) <= 29
    ensures XshRsOutput(s, W64, W32) == Shrink(Shr(Xor(s, Shr(s, 22)), 22 + Shr(s, 61)), W64, W32)
  {
    XshRsConstants6432();
    XshRsShift6432(s);
  }

  /** At (u64, u32) XshRs spends three bits, and its xorshift distance is 22. */
  lemma XshRsConstants6432()
    ensures XshRsOpBits(SpareBits(W64, W32)) == 3 && Pow2(3) == 8
    ensures XshRsXorShift(W64, W32) == 22
  {
    assert XshRsOpBits(32) == 3;
    assert Pow2(3) == 8;
  }

  /** At (u64, u32) the final shift of XshRs is 22 + (s >> 61), at most 29. */
  lemma XshRsShift6432(s: nat)
    requires Fits(s, W64)
    ensures XshRsShift(s, W64, W32) == 22 + Shr(s, 61)
    ensures 22 <= XshRsShift(s, W64, W32) <= 29
  {
    XshRsConstants6432();
    XshRsRandomShift6432(s);
  }

  /** At (u64, u32) XshRr rotates by the top five bits, s >> 59. */
  lemma XshRrRotation6432(s: nat)
    requires Fits(s, W64)
    ensures XshRrRotation(s, W64, W32) == Shr(s, 59)
  {
    XshRrConstants6432();
    XshRrRotationUnfold(s, W64, W32);
    UnamplifiedTop(s, 64, 5);
  }

  /** Unamplified, the rotation is the top k bits of the state. */
  lemma {:induction false} UnamplifiedTop(s: nat, n: nat, k: nat)
    requires s < Pow2(n) && 1 <= k <= 10 && k <= n
    ensures Amplify(StateTopBits(s, n, k), 0, k) == Shr(s, n - k)
  {
    var top := Shr(s, n - k);
    assert StateTopBits(s, n, k) == top < Pow2(k) by { StateTopBitsIsShr(s, n, k); }
    AmplifyNone(top, k);
  }

  /** amprot is the amplified random part of the state. */
  lemma {:induction false} XshRrRotationUnfold(s: nat, itype: Width, xtype: Width)
    requires Narrower(xtype, itype) && Fits(s, itype)
    ensures XshRrOpBits(itype, xtype) <= XshRrWantedOpBits(Bits(xtype))
    ensures XshRrRotation(s, itype, xtype) ==
      Amplify(StateTopBits(s, Bits(itype), XshRrOpBits(itype, xtype)),
              XshRrWantedOpBits(Bits(xtype)) - XshRrOpBits(itype, xtype), XshRrOpBits(itype, xtype))
  {
  }

  /** At (u64, u32) XshRr spends five bits, as many as it wants, so the
      rotation is not amplified. */
  lemma XshRrConstants6432()
    ensures XshRrWantedOpBits(32) == XshRrOpBits(W64, W32) == 5
    ensures SpareBits(W64, W32) - 5 == 27 && (5 + Bits(W32)) / 2 == 18
  {
  }

  /** With no amplification the masked rotation is the top bits themselves. */
  lemma AmplifyNone(rot: nat, k: nat)
    requires rot < Pow2(k) && k <= 10
    ensures Amplify(rot, 0, k) == rot
  {
    assert rot * Pow2(0) == rot;
    AsUsizeMask(rot, k);
    ModSmall(rot, Pow2(k));
  }

  /** XshRr from u64 to u32 (Pcg32): rotr32(((s ^ (s >> 18)) >> 27) as u32, s >> 59). */
  lemma XshRr6432(s: nat)
    requires Fits(s, W64)
    ensures XshRrOutput(s, W64, W32) == RotR(Shrink(Shr(Xor(s, Shr(s, 18)), 27), W64, W32), Shr(s, 59), W32)
  {
    XshRrConstants6432();
    XshRrRotation6432(s);
  }

  /** At (u128, u64) XshRr rotates by the top six bits, s >> 122. */
  lemma XshRrRotation12864(s: nat)
    requires Fits(s, W128)
    ensures XshRrRotation(s, W128, W64) == Shr(s, 122)
  {
    XshRrConstants12864();
    XshRrRotationUnfold(s, W128, W64);
    UnamplifiedTop(s, 128, 6);
  }

  /** At (u128, u64) XshRr spends six bits, as many as it wants. */
  lemma XshRrConstants12864()
    ensures XshRrWantedOpBits(64) == XshRrOpBits(W128, W64) == 6
    ensures SpareBits(W128, W64) - 6 == 58 && (6 + Bits(W64)) / 2 == 35
  {
  }

  /** XshRr from u128 to u64 (Pcg64): rotr64(((s ^ (s >> 35)) >> 58) as u64, s >> 122). */
  lemma XshRr12864(s: nat)
    requires Fits(s, W128)
    ensures XshRrOutput(s, W128, W64) == RotR(Shrink(Shr(Xor(s, Shr(s, 35)), 58), W128, W64), Shr(s, 122), W64)
  {
    XshRrConstants12864();
    XshRrRotation12864(s);
  }

  /** DXsM from u128 to u64 (Pcg64 Dxsm): with hi = s >> 64 and lo = (s as u64) | 1,
      `hi ^= hi >> 32; hi *= M; hi ^= hi >> 48; hi *= lo`, every product mod 2^64. */
  lemma DXsM12864(s: nat, m: nat)
    requires Fits(s, W128)
    ensures
      var hi := Shr(s, 64);
      var h1 := Xor(hi, Shr(hi, 32));
      var h2 := WrapMul(h1, m % Modulus(W64), W64);
      DXsMOutput(s, m, W128, W64) == WrapMul(Xor(h2, Shr(h2, 48)), Or(s % Modulus(W64), 1), W64)
  {
    assert Bits(W128) == 128 && Bits(W64) == 64 && 3 * 64 / 4 == 48;
    TopBitsBound(s, 128, 64);
    assert Shrink(Shr(s, 64), W128, W64) == Shr(s, 64);
  }
}
