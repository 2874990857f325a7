/** The sizes of the extension array of an extended generator. */
module ExtSizes {
  import opened NumOps

  /** The provided ExtSize types, Ext2 to Ext1024. */
  datatype ExtSize = Ext2 | Ext4 | Ext8 | Ext16 | Ext32 | Ext64 | Ext128 | Ext256 | Ext512 | Ext1024

  /** ExtSize::EXT_BITS. */
  function ExtBits(s: ExtSize): (r: nat)
    ensures 1 <= r <= 10
  {
    match s
    case Ext2 => 1
    case Ext4 => 2
    case Ext8 => 3
    case Ext16 => 4
    case Ext32 => 5
    case Ext64 => 6
    case Ext128 => 7
    case Ext256 => 8
    case Ext512 => 9
    case Ext1024 => 10
  }

  /** ExtSize::EXT_SIZE. */
  function ExtSizeOf(s: ExtSize): (r: nat)
    ensures 2 <= r <= 1024
  {
    match s
    case Ext2 => 2
    case Ext4 => 4
    case Ext8 => 8
    case Ext16 => 16
    case Ext32 => 32
    case Ext64 => 64
    case Ext128 => 128
    case Ext256 => 256
    case Ext512 => 512
    case Ext1024 => 1024
  }

  /** Every size is the power of two its bit count names, as the generator's
      masking of the state requires. */
  lemma SizeIsPowerOfBits(s: ExtSize)
    ensures ExtSizeOf(s) == Pow2(ExtBits(s))
  {
    match s
    case Ext2 => assert Pow2(1) == 2;
    case Ext4 => assert Pow2(2) == 4;
    case Ext8 => assert Pow2(3) == 8;
    case Ext16 => assert Pow2(4) == 16;
    case Ext32 => assert Pow2(5) == 32;
    case Ext64 => assert Pow2(6) == 64;
    case Ext128 => assert Pow2(7) == 128;
    case Ext256 => assert Pow2(8) == 256;
    case Ext512 => assert Pow2(9) == 512;
    case Ext1024 => assert Pow2(10) == 1024;
  }
}
