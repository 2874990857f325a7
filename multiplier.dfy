/** The multiplier of the generator's linear congruential step. A multiplier
    strategy takes no state: it is one constant per strategy and width. */
module Multipliers {
  import opened NumOps

  /** DefaultMultiplier (the general-purpose LCG constants) and McgMultiplier
      (the constants for the zero-increment, multiplicative variant). */
  datatype MulMix = DefaultMul | McgMul

  /** DefaultMultiplier::multiplier() per width. Odd, as a full-period LCG
      multiplier must be, and representable in the type. */
  function DefaultMultiplier(w: Width): (r: nat)
    ensures Fits(r, w) && r % 2 == 1
  {
    ModulusValues();
    match w
    case W8 => 141
    case W16 => 12829
    case W32 => 747_796_405
    case W64 => 6_364_136_223_846_793_005
    case W128 => 47_026_247_687_942_121_848_144_207_491_837_523_525
  }

  /** McgMultiplier::multiplier() per width; also odd and in range. */
  function McgMultiplier(w: Width): (r: nat)
    ensures Fits(r, w) && r % 2 == 1
  {
    ModulusValues();
    match w
    case W8 => 217
    case W16 => 62169
    case W32 => 277_803_737
    case W64 => 12_605_985_483_714_917_081
    case W128 => 327_738_287_884_841_127_335_028_083_622_016_905_945
  }

  /** Multiplier::multiplier() for a strategy. */
  function Multiplier(m: MulMix, w: Width): (r: nat)
    ensures Fits(r, w) && r % 2 == 1
    ensures m == DefaultMul ==> r == DefaultMultiplier(w)
    ensures m == McgMul ==> r == McgMultiplier(w)
  {
    match m
    case DefaultMul => DefaultMultiplier(w)
    case McgMul => McgMultiplier(w)
  }

  /** The 128-bit default constant is the PCG pair
      (2549297995355413924, 4865540595714422341) of 64-bit halves. */
  lemma DefaultU128Parts()
    ensures DefaultMultiplier(W128) == 2549297995355413924 * Pow2(64) + 4865540595714422341
  {
    ModulusValues();
  }

  /** The 128-bit MCG constant is the pair
      (17766728186571221404, 12605985483714917081), and its low half is the
      64-bit MCG constant. */
  lemma McgU128Parts()
    ensures McgMultiplier(W128) == 17766728186571221404 * Pow2(64) + 12605985483714917081
    ensures Shrink(McgMultiplier(W128), W128, W64) == McgMultiplier(W64)
  {
    ModulusValues();
  }
}
