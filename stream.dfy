/** Stream strategies: where the additive increment of the generator's step
    comes from. OneSeq is a fixed constant, SpecificSeq a settable field,
    UniqueSeq the address of the stream object, NoSeq zero. */
module Streams {
  import opened NumOps

  datatype StreamKind = OneSeq | SpecificSeq | UniqueSeq | NoSeq

  /** The OneSeqStream increments. They are given only up to u64; there is
      no 128-bit OneSeq constant. */
  function OneSeqIncrement(w: Width): (r: nat)
    requires w != W128
    ensures Fits(r, w) && r % 2 == 1
  {
    OneSeqIncrementFits(w);
    OneSeqConstant(w)
  }

  /** The constants themselves, all odd. */
  function OneSeqConstant(w: Width): (r: nat)
    requires w != W128
    ensures r % 2 == 1
  {
    if w == W8 then 77
    else if w == W16 then 47989
    else if w == W32 then 2891336453
    else 1442695040888963407
  }

  lemma OneSeqIncrementFits(w: Width)
    requires w != W128
    ensures Fits(OneSeqConstant(w), w)
  {
    ModulusValues();
    match w
    case W8 =>
    case W16 =>
    case W32 =>
    case W64 =>
  }

  /** The increment SpecificSeqStream::set_stream stores: `(v << 1) | 1`. */
  function SetStreamIncrement(v: nat, w: Width): (r: nat)
    ensures Fits(r, w) && r % 2 == 1
  {
    OneFits(w);
    OrOne(Shl(v, 1, w));
    OrBound(Shl(v, 1, w), 1, Bits(w));
    Or(Shl(v, 1, w), 1)
  }

  /** The increment of a UniqueSeqStream: its address cast to the type, `| 1`. */
  function UniqueIncrement(address: nat, w: Width): (r: nat)
    ensures Fits(r, w) && r % 2 == 1
  {
    var a := address % Modulus(w);
    OneFits(w);
    OrOne(a);
    OrBound(a, 1, Bits(w));
    Or(a, 1)
  }

  /** A stream strategy instance for state type `width`. `inc` is the field
      of a SpecificSeqStream (the other kinds have no state and ignore it);
      `address` stands for the memory address a UniqueSeqStream reads, an
      input the model cannot observe. */
  class Stream {
    const kind: StreamKind
    const width: Width
    const address: nat
    var inc: nat

    ghost predicate Valid()
      reads this
    {
      Fits(inc, width) && inc % 2 == 1
      && address < Pow2(UsizeBits)
      && (kind == OneSeq ==> width != W128)
    }

    /** OneSeqStream::new. */
    constructor OneSeqStream(w: Width)
      requires w != W128
      ensures Valid() && kind == OneSeq && width == w
    {
      kind, width, address, inc := OneSeq, w, 0, 1;
      OneFits(w);
    }

    /** SpecificSeqStream::new: the increment starts at 1. */
    constructor SpecificSeqStream(w: Width)
      ensures Valid() && kind == SpecificSeq && width == w
      ensures Increment() == 1
    {
      kind, width, address, inc := SpecificSeq, w, 0, 1;
      OneFits(w);
    }

    /** UniqueSeqStream::new, placed at `address`. */
    constructor UniqueSeqStream(w: Width, address: nat)
      requires address < Pow2(UsizeBits)
      ensures Valid() && kind == UniqueSeq && width == w && this.address == address
    {
      kind, width, this.address, inc := UniqueSeq, w, address, 1;
      OneFits(w);
    }

    /** NoSeqStream::new. */
    constructor NoSeqStream(w: Width)
      ensures Valid() && kind == NoSeq && width == w
    {
      kind, width, address, inc := NoSeq, w, 0, 1;
      OneFits(w);
    }

    /** Stream::increment. It only reads the stream. It is odd for every kind
        but NoSeq, whose increment is 0. */
    function Increment(): (r: nat)
      reads this
      requires Valid()
      ensures Fits(r, width)
      ensures kind == NoSeq <==> r == 0
      ensures kind != NoSeq ==> r % 2 == 1
      ensures kind == SpecificSeq ==> r == inc
    {
      match kind
      case OneSeq => OneSeqIncrement(width)
      case SpecificSeq => inc
      case UniqueSeq => UniqueIncrement(address, width)
      case NoSeq => 0
    }

    /** Stream::set_stream. Only SpecificSeqStream overrides it; on the other
        kinds the default body panics, so they may not call it. */
    method SetStream(v: nat)
      requires Valid() && kind == SpecificSeq && Fits(v, width)
      modifies this
      ensures Valid()
      ensures inc == SetStreamIncrement(v, width)
      ensures Increment() % 2 == 1
    {
      inc := SetStreamIncrement(v, width);
    }
  }

  /** set_stream shifts its argument left by one, so the top bit is lost:
      v and v + 2^(W-1) select the same stream. */
  lemma {:induction false} SetStreamDropsTopBit(v: nat, w: Width)
    requires v < Pow2(Bits(w) - 1)
    ensures SetStreamIncrement(v, w) == SetStreamIncrement(v + Pow2(Bits(w) - 1), w)
  {
    ShlDropsTop(v, Bits(w), w);
    SetStreamByShl(v, v + Pow2(Bits(w) - 1), w);
  }

  /** `<< 1` on an n-bit type forgets bit n - 1. */
  lemma {:induction false} ShlDropsTop(v: nat, n: nat, w: Width)
    requires n == Bits(w) && v < Pow2(n - 1)
    ensures Shl(v, 1, w) == Shl(v + Pow2(n - 1), 1, w)
  {
    DoubleDropsTop(v, n);
  }

  /** set_stream depends on its argument only through `stream_seq << 1`. */
  lemma SetStreamByShl(a: nat, b: nat, w: Width)
    requires Shl(a, 1, w) == Shl(b, 1, w)
    ensures SetStreamIncrement(a, w) == SetStreamIncrement(b, w)
  {
  }

  /** Doubling modulo 2^n forgets bit n - 1 of the argument. */
  lemma {:induction false} DoubleDropsTop(v: nat, n: nat)
    requires 1 <= n && v < Pow2(n - 1)
    ensures ((v + Pow2(n - 1)) * Pow2(1)) % Pow2(n) == (v * Pow2(1)) % Pow2(n)
  {
    var h := Pow2(n - 1);
    assert Pow2(n) == 2 * h && Pow2(1) == 2;
    assert (v + h) * 2 == 2 * v + 2 * h;
    ModSmall(2 * v, 2 * h);
    DivModUnique(2 * v + 2 * h, 2 * h, 1, 2 * v);
  }

  /** Below the top bit, set_stream(v) gives the increment 2v + 1: distinct
      such arguments select distinct streams. */
  lemma SetStreamIncrementValue(v: nat, w: Width)
    requires v < Pow2(Bits(w) - 1)
    ensures SetStreamIncrement(v, w) == 2 * v + 1
  {
    var h := Pow2(Bits(w) - 1);
    assert Modulus(w) == 2 * h;
    assert v * Pow2(1) == 2 * v;
    ModSmall(2 * v, Modulus(w));
    OrOne(2 * v);
  }
}
