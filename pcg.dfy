/** The generator engine: a linear congruential step on the state, whose old
    value is permuted into the output; and Pcg32Basic, the hand-written
    minimal PCG32. */
module Pcg {
  import opened NumOps
  import opened Multipliers
  import opened Streams
  import opened OutputMix
  import opened Seeds

  /** The type parameters of a PcgEngine other than its stream: the state
      type, the output type, the multiplier and the output permutation. */
  datatype Config = Config(itype: Width, xtype: Width, mul: MulMix, out: OutMix)

  /** RngCore is implemented for u32 and u64 outputs; every output mixin
      narrows the state type to the output type. */
  predicate ValidConfig(c: Config)
  {
    Narrower(c.xtype, c.itype) && (c.xtype == W32 || c.xtype == W64)
  }

  /** Pcg32 (SetseqXshRr6432): u64 state, u32 output, default multiplier,
      XshRr output. */
  const Pcg32Config := Config(W64, W32, DefaultMul, XshRr)

  /** The engines that implement RngCore: a u32 output over a u64 or u128
      state, or a u64 output over a u128 state. */
  lemma ValidConfigCases(c: Config)
    ensures ValidConfig(c) <==>
      (c.xtype == W32 && (c.itype == W64 || c.itype == W128)) ||
      (c.xtype == W64 && c.itype == W128)
  {
  }

  /** Pcg32 is a valid engine whose multiplier is the u64 PCG constant. */
  lemma Pcg32ConfigValid()
    ensures ValidConfig(Pcg32Config)
    ensures Multiplier(Pcg32Config.mul, Pcg32Config.itype) == 6_364_136_223_846_793_005
  {
  }

  // ---------------------------------------------------------------------
  // The step and its iterates

  /** `increment.wrap_add(oldstate.wrap_mul(multiplier))` on Itype. */
  function Step(state: nat, inc: nat, c: Config): (r: nat)
    ensures Fits(r, c.itype)
  {
    WrapAdd(inc, WrapMul(state, Multiplier(c.mul, c.itype), c.itype), c.itype)
  }

  /** The new state is increment + old * multiplier, taken modulo
      2^Itype::BITS: the two wrapping operations compose into one reduction. */
  lemma StepIsModular(state: nat, inc: nat, c: Config)
    ensures Step(state, inc, c) == (inc + state * Multiplier(c.mul, c.itype)) % Modulus(c.itype)
  {
    var m := Multiplier(c.mul, c.itype);
    var modulus := Modulus(c.itype);
    var product := WrapMul(state, m, c.itype);
    assert product == (state * m) % modulus;
    ModSum(inc, state * m, modulus);
    ModSum(inc, product, modulus);
    ModSmall(product, modulus);
  }

  /** The native output of a draw: the permutation of the state before the step. */
  function Draw(state: nat, inc: nat, c: Config): (r: nat)
    requires ValidConfig(c) && Fits(state, c.itype)
    ensures Fits(r, c.xtype)
  {
    Output(c.out, state, inc, Multiplier(c.mul, c.itype), c.itype, c.xtype)
  }

  /** The state after n steps. */
  function StateAfter(state: nat, inc: nat, c: Config, n: nat): (r: nat)
    requires Fits(state, c.itype)
    ensures Fits(r, c.itype)
    decreases n
  {
    if n == 0 then state else StateAfter(Step(state, inc, c), inc, c, n - 1)
  }

  /** The outputs of n successive native draws from `state`. */
  function Draws(state: nat, inc: nat, c: Config, n: nat): (r: seq<nat>)
    requires ValidConfig(c) && Fits(state, c.itype)
    ensures |r| == n
    ensures forall i :: 0 <= i < n ==> Fits(r[i], c.xtype)
    decreases n
  {
    if n == 0 then [] else [Draw(state, inc, c)] + Draws(Step(state, inc, c), inc, c, n - 1)
  }

  /** Draw n + 1 is the permutation of the state after n steps. */
  lemma {:induction false} DrawsSnoc(state: nat, inc: nat, c: Config, n: nat)
    requires ValidConfig(c) && Fits(state, c.itype)
    ensures StateAfter(state, inc, c, n + 1) == Step(StateAfter(state, inc, c, n), inc, c)
    ensures Draws(state, inc, c, n + 1)
         == Draws(state, inc, c, n) + [Draw(StateAfter(state, inc, c, n), inc, c)]
    decreases n
  {
    if n > 0 {
      DrawsSnoc(Step(state, inc, c), inc, c, n - 1);
    }
  }

  /** b^n. */
  function Power(b: nat, n: nat): (r: nat)
  {
    if n == 0 then 1 else b * Power(b, n - 1)
  }

  /** With NoSeqStream (increment 0) and McgMultiplier, as in Pcg32Fast and
      the Mcg engines, n steps multiply the state by m^n modulo 2^W. */
  lemma {:induction false} McgStateAfter(state: nat, c: Config, n: nat)
    requires c.mul == McgMul && Fits(state, c.itype)
    ensures StateAfter(state, 0, c, n)
         == (state * Power(McgMultiplier(c.itype), n)) % Modulus(c.itype)
    decreases n
  {
    var m, modulus := McgMultiplier(c.itype), Modulus(c.itype);
    if n == 0 {
      ModSmall(state, modulus);
    } else {
      var next := Step(state, 0, c);
      StepIsModular(state, 0, c);
      McgStateAfter(next, c, n - 1);
      MulModAssoc(state, m, Power(m, n - 1), modulus);
    }
  }

  // ---------------------------------------------------------------------
  // PcgEngine

  /** PcgEngine<Itype, Xtype, StreamMix, MulMix, OutMix>: the state and the
      stream instance; multiplier and output are fixed by the configuration. */
  class PcgEngine {
    const config: Config
    const stream: Stream
    var state: nat

    ghost predicate Valid()
      reads this, stream
    {
      ValidConfig(config) && stream.Valid() && stream.width == config.itype
      && Fits(state, config.itype)
    }

    /** RngCore::next_u64 of the u64-output engines: step the state and
        return the permutation of the old state. */
    method NextU64() returns (r: nat)
      requires Valid() && config.xtype == W64
      modifies this
      ensures Valid()
      ensures state == Step(old(state), stream.Increment(), config)
      ensures r == Draw(old(state), stream.Increment(), config)
    {
      var oldstate := state;
      var m := Multiplier(config.mul, config.itype);
      state := WrapAdd(stream.Increment(), WrapMul(oldstate, m, config.itype), config.itype);
      r := Output(config.out, oldstate, stream.Increment(), m, config.itype, config.xtype);
    }

    /** RngCore::next_u32: for u32-output engines the native step; for
        u64-output engines the low 32 bits of next_u64. */
    method NextU32() returns (r: nat)
      requires Valid()
      modifies this
      ensures Valid() && Fits(r, W32)
      ensures state == Step(old(state), stream.Increment(), config)
      ensures config.xtype == W32 ==> r == Draw(old(state), stream.Increment(), config)
      ensures config.xtype == W64
              ==> r == Draw(old(state), stream.Increment(), config) % Modulus(W32)
    {
      if config.xtype == W32 {
        var oldstate := state;
        var m := Multiplier(config.mul, config.itype);
        state := WrapAdd(stream.Increment(), WrapMul(oldstate, m, config.itype), config.itype);
        r := Output(config.out, oldstate, stream.Increment(), m, config.itype, config.xtype);
      } else {
        var wide := NextU64();
        NarrowW64W32();
        r := Shrink(wide, W64, W32);
      }
    }

    /** SeedableRng::from_seed: the state is the seeder's first value. The
        stream is what StreamMix::build makes of the rest of the seed; that
        construction is not part of this model, so the built stream is an
        argument. */
    constructor FromSeed(seed: PcgSeeder, stream: Stream, c: Config)
      requires ValidConfig(c) && stream.Valid() && stream.width == c.itype
      requires seed.Valid() && seed.width == c.itype
      requires SizeOf(c.itype) <= seed.data.Length - seed.atPos
      modifies seed
      ensures Valid() && config == c && this.stream == stream
      ensures state == Read(seed.data[old(seed.atPos)..], c.itype)
      ensures seed.Valid() && seed.atPos == old(seed.atPos) + SizeOf(c.itype)
    {
      var s := seed.Get();
      config, this.stream, state := c, stream, s;
    }

    /** PcgEngine::new_unseeded: from_seed of the default seeder, so every
        unseeded engine starts from the default seed of its state type. */
    static method NewUnseeded(stream: Stream, c: Config) returns (e: PcgEngine)
      requires ValidConfig(c) && stream.Valid() && stream.width == c.itype
      ensures fresh(e) && e.Valid() && e.config == c && e.stream == stream
      ensures e.state == DefaultSeed(c.itype)
    {
      var seed := PcgSeeder.Default(c.itype);
      ReadPair(DefaultSeed(c.itype), DefaultStream(c.itype), c.itype);
      assert seed.data[0..] == seed.data[..];
      e := new PcgEngine.FromSeed(seed, stream, c);
    }
  }

  /** Two engines on the same configuration and stream increment that start
      from equal states produce equal outputs, draw after draw. */
  method Determinism(e1: PcgEngine, e2: PcgEngine) returns (a: nat, b: nat)
    requires e1 != e2 && e1.Valid() && e2.Valid()
    requires e1.config == e2.config && e1.state == e2.state
    requires e1.stream.Increment() == e2.stream.Increment()
    modifies e1, e2
    ensures e1.Valid() && e2.Valid()
    ensures a == b && e1.state == e2.state
  {
    a := e1.NextU32();
    b := e2.NextU32();
  }

  // ---------------------------------------------------------------------
  // Pcg32Basic

  /** The literal multiplier of Pcg32Basic is the u64 default multiplier. */
  lemma BasicMultiplier()
    ensures DefaultMultiplier(W64) == 6_364_136_223_846_793_005
  {
  }

  lemma Mask31(x: nat)
    ensures And(x, 31) == x % 32
  {
    AndLowMask(x, 5);
    assert Pow2(5) == 32;
  }

  /** The bits of `-(rot as i32)`: 2^32 - rot, or 0 when rot is 0. */
  function NegI32Bits(rot: nat): (r: nat)
    requires rot < 32
    ensures Fits(r, W32)
    ensures rot == 0 ==> r == 0
    ensures rot > 0 ==> r == Modulus(W32) - rot
  {
    var m := Modulus(W32);
    ModBounds(m - rot, m);
    ModSmall(m - rot, m);
    DivModUnique(m, m, 1, 0);
    (m - rot) % m
  }

  lemma NegI32BitsValue(rot: nat)
    requires 0 < rot < 32
    ensures NegI32Bits(rot) == 0x1_0000_0000 - rot
  {
    ModulusW32();
    ModSmall(0x1_0000_0000 - rot, 0x1_0000_0000);
  }

  lemma ModulusW32()
    ensures Modulus(W32) == 0x1_0000_0000
  {
    ModulusValues();
  }

  lemma LowOfNegative(x: nat, rot: nat)
    requires 0 < rot < 32 && x == 0x1_0000_0000 - rot
    ensures x % 32 == 32 - rot
  {
    DivModUnique(x, 32, 0x800_0000 - 1, 32 - rot);
  }

  lemma NegI32BitsZero()
    ensures NegI32Bits(0) == 0
  {
    var m := Modulus(W32);
    assert (m - 0) % m == 0;
  }

  /** The low five bits of 2^32 - rot are those of 32 - rot. */
  lemma NegI32BitsLow(rot: nat)
    requires rot < 32
    ensures NegI32Bits(rot) % 32 == (32 - rot) % 32
  {
    if rot > 0 {
      NegI32BitsValue(rot);
      LowOfNegative(NegI32Bits(rot), rot);
      ModSmall(32 - rot, 32);
    } else {
      NegI32BitsZero();
    }
  }

  /** -rot in 32-bit two's complement, masked to five bits, is (32 - rot) mod 32. */
  lemma NegRotBits(rot: nat)
    requires rot < 32
    ensures And(NegI32Bits(rot), 31) == (32 - rot) % 32
  {
    Mask31(NegI32Bits(rot));
    NegI32BitsLow(rot);
  }

  /** `(-(rot as i32)) & 31`: the left-shift distance of the rotation. */
  function NegRotMask(rot: nat): (r: nat)
    requires rot < 32
    ensures r == (32 - rot) % 32
  {
    NegRotBits(rot);
    And(NegI32Bits(rot), 31)
  }

  /** The permutation of Pcg32Basic::next_u32. */
  function BasicOutput(oldstate: nat): (r: nat)
    requires Fits(oldstate, W64)
    ensures Fits(r, W32)
  {
    NarrowW64W32();
    var xorshifted := Shrink(Shr(Xor(Shr(oldstate, 18), oldstate), 27), W64, W32);
    var rot := Shrink(Shr(oldstate, 59), W64, W32);
    DivBound(oldstate, 59, 64);
    assert Pow2(5) == 32;
    OrBound(Shr(xorshifted, rot), Shl(xorshifted, NegRotMask(rot), W32), Bits(W32));
    Or(Shr(xorshifted, rot), Shl(xorshifted, NegRotMask(rot), W32))
  }

  /** The rotation of Pcg32Basic, `(oldstate >> 59) as u32`, is below 32. */
  lemma BasicRotation(s: nat)
    requires Fits(s, W64)
    ensures Shrink(Shr(s, 59), W64, W32) == Shr(s, 59) < 32
  {
    TopFiveBits(s);
    SmallFitsW32(Shr(s, 59));
  }

  lemma TopFiveBits(s: nat)
    requires Fits(s, W64)
    ensures Shr(s, 59) < 32
  {
    var p := Pow2(59);
    Pow2Add(59, 5);
    assert Pow2(5) == 32;
    assert Modulus(W64) == p * 32;
    DivBoundGeneral(s, p, 32);
  }

  lemma SmallFitsW32(y: nat)
    requires y < 32
    ensures Shrink(y, W64, W32) == y
  {
    Pow2Monotone(5, 32);
    assert Pow2(5) == 32;
    assert Modulus(W32) == Pow2(32);
  }

  /** The hand-written permutation is XshRr from u64 to u32. */
  lemma BasicOutputIsXshRr(s: nat)
    requires Fits(s, W64)
    ensures BasicOutput(s) == XshRrOutput(s, W64, W32)
  {
    var xorshifted := Shrink(Shr(Xor(s, Shr(s, 18)), 27), W64, W32);
    var rot := Shr(s, 59);
    XorCommutes(Shr(s, 18), s);
    BasicRotation(s);
    assert BasicOutput(s) == Or(Shr(xorshifted, rot), Shl(xorshifted, (32 - rot) % 32, W32));
    RotRAsShifts(xorshifted, rot, W32);
    XshRr6432(s);
  }

  /** Pcg32Basic's state update is the engine step of Pcg32. */
  lemma BasicStepIsStep(s: nat, inc: nat)
    ensures WrapAdd(WrapMul(s, 6_364_136_223_846_793_005, W64), inc, W64) == Step(s, inc, Pcg32Config)
  {
    BasicMultiplier();
    var m := WrapMul(s, 6_364_136_223_846_793_005, W64);
    assert WrapAdd(m, inc, W64) == WrapAdd(inc, m, W64);
  }

  /** Pcg32Basic's output is the engine draw of Pcg32, whatever the increment. */
  lemma BasicOutputIsDraw(s: nat, inc: nat)
    requires Fits(s, W64)
    ensures BasicOutput(s) == Draw(s, inc, Pcg32Config) == XshRrOutput(s, W64, W32)
  {
    BasicOutputIsXshRr(s);
  }

  /** Pcg32Basic: the state and the stream value; the increment used is
      `inc | 1`. */
  class Pcg32Basic {
    var state: nat
    var inc: nat

    ghost predicate Valid()
      reads this
    {
      Fits(state, W64) && Fits(inc, W64)
    }

    /** Pcg32Basic::next_u32. The step is Pcg32's engine step with increment
        `inc | 1`, and the output is Pcg32's XshRr output of the old state. */
    method NextU32() returns (r: nat)
      requires Valid()
      modifies this
      ensures Valid() && inc == old(inc)
      ensures state == Step(old(state), Or(inc, 1), Pcg32Config)
      ensures r == Draw(old(state), Or(inc, 1), Pcg32Config)
      ensures r == XshRrOutput(old(state), W64, W32)
    {
      var oldstate := state;
      state := WrapAdd(WrapMul(oldstate, 6_364_136_223_846_793_005, W64), Or(inc, 1), W64);
      r := BasicOutput(oldstate);
      BasicStepIsStep(oldstate, Or(inc, 1));
      BasicOutputIsDraw(oldstate, Or(inc, 1));
    }

    /** SeedableRng::from_seed: the seeder's first value is the state, the
        second the stream. */
    constructor FromSeed(seed: PcgSeeder)
      requires seed.Valid() && seed.width == W64
      requires 2 * SizeOf(W64) <= seed.data.Length - seed.atPos
      modifies seed
      ensures Valid()
      ensures state == Read(seed.data[old(seed.atPos)..], W64)
      ensures inc == Read(seed.data[old(seed.atPos) + SizeOf(W64)..], W64)
      ensures seed.Valid() && seed.atPos == old(seed.atPos) + 2 * SizeOf(W64)
    {
      var s := seed.Get();
      var i := seed.Get();
      state, inc := s, i;
    }

    /** Pcg32Basic::new_unseeded: from_seed of the default u64 seeder. */
    static method NewUnseeded() returns (g: Pcg32Basic)
      ensures fresh(g) && g.Valid()
      ensures g.state == DefaultSeed(W64) && g.inc == DefaultStream(W64)
    {
      var seed := PcgSeeder.Default(W64);
      ReadPair(DefaultSeed(W64), DefaultStream(W64), W64);
      assert seed.data[0..] == seed.data[..];
      g := new Pcg32Basic.FromSeed(seed);
    }
  }

  /** n successive `next_u32` calls on one Pcg32Basic, the values the tests
      take and compare: they are the first n draws of Pcg32 from the start
      state with increment `inc | 1`, and the state is n steps on. */
  method BasicTake(g: Pcg32Basic, n: nat) returns (out: seq<nat>)
    requires g.Valid()
    modifies g
    ensures g.Valid() && g.inc == old(g.inc)
    ensures g.state == StateAfter(old(g.state), Or(g.inc, 1), Pcg32Config, n)
    ensures out == Draws(old(g.state), Or(g.inc, 1), Pcg32Config, n)
  {
    ghost var start := g.state;
    var i := 0;
    out := [];
    while i < n
      invariant 0 <= i <= n
      invariant g.Valid() && g.inc == old(g.inc)
      invariant g.state == StateAfter(start, Or(g.inc, 1), Pcg32Config, i)
      invariant out == Draws(start, Or(g.inc, 1), Pcg32Config, i)
    {
      DrawsSnoc(start, Or(g.inc, 1), Pcg32Config, i);
      var x := g.NextU32();
      out := out + [x];
      i := i + 1;
    }
  }

  /** Only `inc | 1` enters the step, so an even stream value and the next
      odd one (12 and 13, say) give the same sequence. */
  lemma EvenAndOddIncrement(state: nat, inc: nat, n: nat)
    requires Fits(state, W64) && inc % 2 == 0
    ensures Or(inc, 1) == Or(inc + 1, 1) == inc + 1
    ensures Draws(state, Or(inc, 1), Pcg32Config, n) == Draws(state, Or(inc + 1, 1), Pcg32Config, n)
  {
    OrOne(inc);
    OrOne(inc + 1);
  }
}
