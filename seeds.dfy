/** The seed codec: every state type is written to and read from bytes
    (little-endian, with the two 64-bit halves of a u128 high half first),
    and a PcgSeeder hands out the values of its byte buffer one by one. */
module Seeds {
  import opened NumOps

  type Byte = x: nat | x < 256

  // ---------------------------------------------------------------------
  // Little-endian byte strings

  /** The low n bytes of x, least significant first. */
  function LeBytes(x: nat, n: nat): (r: seq<Byte>)
    ensures |r| == n
  {
    if n == 0 then [] else [x % 256] + LeBytes(x / 256, n - 1)
  }

  /** The number a little-endian byte string denotes. */
  function LeValue(b: seq<Byte>): (r: nat)
    ensures r < Pow2(8 * |b|)
  {
    if |b| == 0 then 0
    else
      var rest := LeValue(b[1..]);
      LeStep(b[0], rest, |b| - 1);
      b[0] + 256 * rest
  }

  lemma LeStep(low: nat, rest: nat, n: nat)
    requires low < 256 && rest < Pow2(8 * n)
    ensures low + 256 * rest < Pow2(8 * (n + 1))
  {
    var p := Pow2(8 * n);
    Pow2Add(8, 8 * n);
    assert Pow2(8 * (n + 1)) == 256 * p;
    MulMonotone(rest, p - 1, 256);
  }

  /** Decoding an n-byte encoding gives back every x below 2^(8n). */
  lemma {:induction false} LeRoundTrip(x: nat, n: nat)
    requires x < Pow2(8 * n)
    ensures LeValue(LeBytes(x, n)) == x
  {
    if n > 0 {
      assert 8 * n == 8 + 8 * (n - 1);
      DivDiv(x, 0, 8);
      DivBound(x, 8, 8 * n);
      LeRoundTrip(x / 256, n - 1);
      assert LeBytes(x, n)[1..] == LeBytes(x / 256, n - 1);
    }
  }

  /** Byte i of the encoding is (x >> 8i) mod 256. */
  lemma {:induction false} LeBytesIndex(x: nat, n: nat, i: nat)
    requires i < n
    ensures LeBytes(x, n)[i] == Shr(x, 8 * i) % 256
  {
    if i > 0 {
      LeBytesIndex(x / 256, n - 1, i - 1);
      assert 8 * i == 8 + 8 * (i - 1);
      DivDiv(x, 8, 8 * (i - 1));
    }
  }

  // ---------------------------------------------------------------------
  // ReadByteOrder

  /** ReadByteOrder::write: the bytes `write` produces for a value of type w. */
  function Encode(x: nat, w: Width): (r: seq<Byte>)
    requires Fits(x, w)
    ensures |r| == SizeOf(w)
  {
    match w
    case W8 => [x]
    case W16 | W32 | W64 => LeBytes(x, SizeOf(w))
    case W128 => LeBytes(Shrink(Shr(x, 64), W128, W64), 8) + LeBytes(Shrink(x, W128, W64), 8)
  }

  /** ReadByteOrder::read: the value of type w at the front of src. Reading
      from a slice shorter than the type panics, so callers must supply
      enough bytes. */
  function Read(src: seq<Byte>, w: Width): (r: nat)
    requires |src| >= SizeOf(w)
    ensures Fits(r, w)
  {
    match w
    case W8 => src[0]
    case W16 | W32 | W64 => LeValue(src[..SizeOf(w)])
    case W128 =>
      var top := LeValue(src[..8]);
      var bottom := LeValue(src[8..16]);
      Pow2Monotone(64, 128);
      OrBound(Shl(top, 64, W128), bottom, 128);
      Or(Shl(top, 64, W128), bottom)
  }

  /** read looks at the first size_of::<T>() bytes only. */
  lemma ReadPrefix(src: seq<Byte>, w: Width)
    requires |src| >= SizeOf(w)
    ensures Read(src, w) == Read(src[..SizeOf(w)], w)
  {
    var p := src[..SizeOf(w)];
    if w == W128 {
      assert p[..8] == src[..8] && p[8..16] == src[8..16];
    } else if w != W8 {
      assert p[..SizeOf(w)] == p;
    }
  }

  /** The top half of a u128, cast to u64, is x / 2^64. */
  lemma U128Top(x: nat)
    requires Fits(x, W128)
    ensures Shrink(Shr(x, 64), W128, W64) == x / Pow2(64) < Pow2(64)
  {
    var p := Pow2(64);
    Pow2Add(64, 64);
    DivBoundGeneral(x, p, p);
    DivNat(x, p);
    TopHalfFits(x / p);
  }

  lemma TopHalfFits(y: nat)
    requires y < Pow2(64)
    ensures Shrink(y, W128, W64) == y
  {
  }

  lemma U128Split(x: nat)
    ensures x == (x / Pow2(64)) * Pow2(64) + x % Pow2(64)
  {
    var p := Pow2(64);
    DivModUnique(x, p, x / p, x % p);
  }

  /** The halves of a u128: x = (x >> 64) * 2^64 + (x mod 2^64), both below 2^64. */
  lemma U128Halves(x: nat)
    requires Fits(x, W128)
    ensures Shrink(Shr(x, 64), W128, W64) == x / Pow2(64) < Pow2(64)
    ensures Shrink(x, W128, W64) == x % Pow2(64)
    ensures x == (x / Pow2(64)) * Pow2(64) + x % Pow2(64)
  {
    U128Top(x);
    U128Split(x);
  }

  /** Or of a top half shifted into place and a bottom half is their sum. */
  lemma JoinHalves(top: nat, bottom: nat)
    requires top < Pow2(64) && bottom < Pow2(64)
    ensures Or(Shl(top, 64, W128), bottom) == top * Pow2(64) + bottom
  {
    var p := Pow2(64);
    Pow2Add(64, 64);
    assert Modulus(W128) == p * p;
    MulModSmall(top, p, p);
    assert Shl(top, 64, W128) == top * p;
    OrCommutes(top * p, bottom);
    OrDisjoint(bottom, top, 64);
  }

  lemma ReadEncodeU128(x: nat)
    requires Fits(x, W128)
    ensures Read(Encode(x, W128), W128) == x
  {
    var p := Pow2(64);
    DivNat(x, p);
    ModBounds(x, p);
    var top, bottom := x / p, x % p;
    U128Halves(x);
    EncodeU128Halves(x);
    ReadHalves(Encode(x, W128), top, bottom);
  }

  /** read of the encodings of two halves joins them. */
  lemma ReadHalves(src: seq<Byte>, top: nat, bottom: nat)
    requires top < Pow2(64) && bottom < Pow2(64) && |src| >= 16
    requires src[..8] == LeBytes(top, 8) && src[8..16] == LeBytes(bottom, 8)
    ensures Read(src, W128) == top * Pow2(64) + bottom
  {
    LeRoundTrip(top, 8);
    LeRoundTrip(bottom, 8);
    JoinHalves(top, bottom);
    ReadU128(src);
  }

  /** write puts the top half of a u128 first, then the bottom half. */
  lemma EncodeU128Halves(x: nat)
    requires Fits(x, W128)
    ensures Encode(x, W128)[..8] == LeBytes(x / Pow2(64), 8)
    ensures Encode(x, W128)[8..16] == LeBytes(x % Pow2(64), 8)
  {
    U128Halves(x);
    DivNat(x, Pow2(64));
    ConcatHalves(LeBytes(Shrink(Shr(x, 64), W128, W64), 8), LeBytes(Shrink(x, W128, W64), 8));
  }

  lemma ConcatHalves(a: seq<Byte>, b: seq<Byte>)
    requires |a| == 8 && |b| == 8
    ensures (a + b)[..8] == a && (a + b)[8..16] == b
  {
  }

  /** read joins the two halves at the front of src. */
  lemma ReadU128(src: seq<Byte>)
    requires |src| >= 16
    ensures Read(src, W128) == Or(Shl(LeValue(src[..8]), 64, W128), LeValue(src[8..16]))
  {
  }

  /** Reading what write produced gives the value back, at every width. */
  lemma ReadEncode(x: nat, w: Width)
    requires Fits(x, w)
    ensures Read(Encode(x, w), w) == x
  {
    var e := Encode(x, w);
    match w
    case W8 =>
    case W16 | W32 | W64 =>
      assert e[..SizeOf(w)] == e;
      LeRoundTrip(x, SizeOf(w));
    case W128 =>
      ReadEncodeU128(x);
  }

  /** The two values written back to back by seed_with_stream read back in
      order: the first from the front, the second after size_of::<T>() bytes. */
  lemma ReadPair(a: nat, b: nat, w: Width)
    requires Fits(a, w) && Fits(b, w)
    ensures Read(Encode(a, w) + Encode(b, w), w) == a
    ensures Read((Encode(a, w) + Encode(b, w))[SizeOf(w)..], w) == b
  {
    var bytes := Encode(a, w) + Encode(b, w);
    ReadPrefix(bytes, w);
    assert bytes[..SizeOf(w)] == Encode(a, w);
    assert bytes[SizeOf(w)..] == Encode(b, w);
    ReadEncode(a, w);
    ReadEncode(b, w);
  }

  /** u8, u16, u32 and u64 are written little-endian: byte i is (x >> 8i) mod 256. */
  lemma EncodeLittleEndian(x: nat, w: Width, i: nat)
    requires Fits(x, w) && w != W128 && i < SizeOf(w)
    ensures Encode(x, w)[i] == Shr(x, 8 * i) % 256
  {
    if w == W8 {
      assert Shr(x, 0) == x;
    } else {
      LeBytesIndex(x, SizeOf(w), i);
    }
  }

  /** A u128 is written as its top 64 bits, little-endian, followed by its
      bottom 64 bits, little-endian. */
  lemma EncodeU128Layout(x: nat)
    requires Fits(x, W128)
    ensures Encode(x, W128)[..8] == LeBytes(x / Pow2(64), 8)
    ensures Encode(x, W128)[8..] == LeBytes(x % Pow2(64), 8)
  {
    U128Halves(x);
  }

  /** ReadByteOrder::write into the slice of dest that starts at `at`; the
      bytes outside that slice are untouched. */
  method Write(x: nat, w: Width, dest: array<Byte>, at: nat)
    requires Fits(x, w) && at + SizeOf(w) <= dest.Length
    modifies dest
    ensures dest[..] == old(dest[..at]) + Encode(x, w) + old(dest[at + SizeOf(w)..])
  {
    var e := Encode(x, w);
    forall i | at <= i < at + |e| {
      dest[i] := e[i - at];
    }
    assert dest[..] == old(dest[..at]) + e + old(dest[at + |e|..]);
  }

  // ---------------------------------------------------------------------
  // The default seeds

  /** The seed half of PcgSeeder::default() for each width. */
  function DefaultSeed(w: Width): (r: nat)
    ensures Fits(r, w)
  {
    ModulusValues();
    match w
    case W8 => 0xE1
    case W16 => 0xAA19
    case W32 => 0x308A_20A0
    case W64 => 0x1801_3CAD_3A48_3F72
    case W128 => 0xECC1_C32B_E531_D51A_93DC_E189_F916_29F4
  }

  /** The stream half of PcgSeeder::default() for each width. */
  function DefaultStream(w: Width): (r: nat)
    ensures Fits(r, w)
  {
    ModulusValues();
    match w
    case W8 => 0xB3
    case W16 => 0x4FD8
    case W32 => 0xD133_51F1
    case W64 => 0x51DB_FCDA_0D6B_21D4
    case W128 => 0xF1CB_2035_E14F_F74B_46EF_3505_C538_6547
  }

  // ---------------------------------------------------------------------
  // PcgSeeder

  /** PcgSeeder<T>: a byte buffer and the position of the next unread byte. */
  class PcgSeeder {
    const width: Width
    const data: array<Byte>
    var atPos: nat

    ghost predicate Valid()
      reads this
    {
      atPos <= data.Length
    }

    /** PcgSeeder::seed_with_stream: a zeroed buffer of two values, the seed
        written into the first half and the stream into the second. */
    constructor SeedWithStream(seed: nat, stream: nat, w: Width)
      requires Fits(seed, w) && Fits(stream, w)
      ensures Valid() && width == w && atPos == 0 && fresh(data)
      ensures data.Length == 2 * SizeOf(w)
      ensures data[..] == Encode(seed, w) + Encode(stream, w)
    {
      var n := SizeOf(w);
      ghost var es, et := Encode(seed, w), Encode(stream, w);
      var buf := new Byte[2 * n](_ => 0);
      ghost var zeros := buf[..];
      Write(seed, w, buf, 0);
      assert buf[..] == es + zeros[n..];
      assert buf[..n] == es;
      Write(stream, w, buf, n);
      assert buf[..] == es + et + [];
      width, data, atPos := w, buf, 0;
    }

    /** PcgSeeder::seed: seed_with_stream with a zero stream. */
    static method Seed(seed: nat, w: Width) returns (p: PcgSeeder)
      requires Fits(seed, w)
      ensures fresh(p) && fresh(p.data) && p.Valid() && p.width == w && p.atPos == 0
      ensures p.data[..] == Encode(seed, w) + Encode(0, w)
    {
      p := new PcgSeeder.SeedWithStream(seed, 0, w);
    }

    /** PcgSeeder::default: seed_with_stream of the fixed default pair. */
    static method Default(w: Width) returns (p: PcgSeeder)
      ensures fresh(p) && fresh(p.data) && p.Valid() && p.width == w && p.atPos == 0
      ensures p.data[..] == Encode(DefaultSeed(w), w) + Encode(DefaultStream(w), w)
    {
      p := new PcgSeeder.SeedWithStream(DefaultSeed(w), DefaultStream(w), w);
    }

    /** PcgSeeder::get: reads the next value and moves the cursor past it.
        With fewer than size_of::<T>() bytes left it panics, so that is
        excluded. The bytes themselves never change. */
    method Get() returns (r: nat)
      requires Valid() && SizeOf(width) <= data.Length - atPos
      modifies this
      ensures Valid() && atPos == old(atPos) + SizeOf(width)
      ensures r == Read(data[old(atPos)..], width)
      ensures Fits(r, width)
    {
      r := Read(data[atPos..], width);
      atPos := atPos + SizeOf(width);
    }
  }

  /** A fresh seed_with_stream(s, t) hands out s, then t, and then has no
      bytes left, so a third get would panic. */
  method SeedThenStream(s: nat, t: nat, w: Width) returns (first: nat, second: nat, left: nat)
    requires Fits(s, w) && Fits(t, w)
    ensures first == s && second == t
    ensures left == 0 && left < SizeOf(w)
  {
    var p := new PcgSeeder.SeedWithStream(s, t, w);
    ReadPair(s, t, w);
    first := p.Get();
    second := p.Get();
    left := p.data.Length - p.atPos;
  }
}
