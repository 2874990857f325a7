/** The extended generator: a PcgEngine plus an array of EXT_SIZE outputs.
    Each draw steps the engine, picks a slot by the low bits of the new state,
    returns the engine's output xor that slot, and increments the slot. */
module Extension {
  import opened NumOps
  import opened Multipliers
  import opened Streams
  import opened OutputMix
  import opened Seeds
  import opened Pcg
  import opened ExtSizes

  /** `state.as_usize() & (2usize.pow(EXT_BITS) - 1)`: the slot a draw uses.
      It is the state modulo EXT_SIZE, hence always a valid index. */
  function Pick(state: nat, size: ExtSize): (r: nat)
    ensures r == state % ExtSizeOf(size)
    ensures r < ExtSizeOf(size)
  {
    AsUsizeMask(state, ExtBits(size));
    SizeIsPowerOfBits(size);
    And(AsUsize(state), Pow2(ExtBits(size)) - 1)
  }

  /** The mask reaches every slot: state i picks slot i. */
  lemma PickReachesEverySlot(size: ExtSize, i: nat)
    requires i < ExtSizeOf(size)
    ensures Pick(i, size) == i
  {
    ModSmall(i, ExtSizeOf(size));
  }

  /** `pcg.gen()` at the engine's output type: one native draw, next_u32
      for u32 outputs and next_u64 for u64 outputs. */
  method Gen(pcg: PcgEngine) returns (r: nat)
    requires pcg.Valid()
    modifies pcg
    ensures pcg.Valid()
    ensures pcg.state == Step(old(pcg.state), pcg.stream.Increment(), pcg.config)
    ensures r == Draw(old(pcg.state), pcg.stream.Increment(), pcg.config)
  {
    if pcg.config.xtype == W32 {
      r := pcg.NextU32();
    } else {
      r := pcg.NextU64();
    }
  }

  /** The fill loop of from_pcg: `n` successive native draws pushed in order,
      then stored in a freshly allocated array. */
  method DrawMany(pcg: PcgEngine, n: nat) returns (slots: array<nat>)
    requires pcg.Valid()
    modifies pcg
    ensures fresh(slots) && pcg.Valid() && slots.Length == n
    ensures forall i :: 0 <= i < n ==> Fits(slots[i], pcg.config.xtype)
    ensures slots[..] == Draws(old(pcg.state), pcg.stream.Increment(), pcg.config, n)
    ensures pcg.state == StateAfter(old(pcg.state), pcg.stream.Increment(), pcg.config, n)
  {
    ghost var start, inc := pcg.state, pcg.stream.Increment();
    var pushed: seq<nat> := [];
    var i := 0;
    while i < n
      invariant 0 <= i <= n
      invariant pcg.Valid() && pcg.stream.Increment() == inc
      invariant pcg.state == StateAfter(start, inc, pcg.config, i)
      invariant pushed == Draws(start, inc, pcg.config, i)
    {
      DrawsSnoc(start, inc, pcg.config, i);
      var x := Gen(pcg);
      pushed := pushed + [x];
      i := i + 1;
    }
    slots := new nat[n];
    forall j | 0 <= j < n {
      slots[j] := pushed[j];
    }
    assert slots[..] == pushed;
  }

  /** ExtPcg<Itype, Xtype, StreamMix, MulMix, OutMix, Size>. */
  class ExtPcg {
    const pcg: PcgEngine
    const size: ExtSize
    const ext: array<nat>

    ghost predicate Valid()
      reads this, pcg, pcg.stream, ext
    {
      pcg.Valid() && ext.Length == ExtSizeOf(size)
      && forall i :: 0 <= i < ext.Length ==> Fits(ext[i], pcg.config.xtype)
    }

    /** ExtPcg::from_pcg: takes over the engine and fills the extension with
        EXT_SIZE successive draws, in order. */
    constructor FromPcg(pcg: PcgEngine, size: ExtSize)
      requires pcg.Valid()
      modifies pcg
      ensures Valid() && this.pcg == pcg && this.size == size && fresh(ext)
      ensures ext[..] == Draws(old(pcg.state), pcg.stream.Increment(), pcg.config, ExtSizeOf(size))
      ensures pcg.state == StateAfter(old(pcg.state), pcg.stream.Increment(), pcg.config, ExtSizeOf(size))
    {
      var slots := DrawMany(pcg, ExtSizeOf(size));
      this.pcg, this.size, ext := pcg, size, slots;
    }

    /** The body the two RngCore impls share (next_u32 for u32 outputs,
        next_u64 for u64 outputs): step the engine, pick the slot from the
        new state, return the output of the old state xor the slot's old
        value, and increment that slot (wrapping) and no other. */
    method NativeNext() returns (r: nat)
      requires Valid()
      modifies pcg, ext
      ensures Valid() && Fits(r, pcg.config.xtype)
      ensures pcg.state == Step(old(pcg.state), pcg.stream.Increment(), pcg.config)
      ensures var pick := Pick(pcg.state, size);
              && r == Xor(Draw(old(pcg.state), pcg.stream.Increment(), pcg.config), old(ext[pick]))
              && ext[..] == old(ext[..])[pick := WrapAdd(old(ext[pick]), 1, pcg.config.xtype)]
    {
      var c, inc := pcg.config, pcg.stream.Increment();
      var oldstate := pcg.state;
      var m := Multiplier(c.mul, c.itype);
      var next := WrapAdd(inc, WrapMul(oldstate, m, c.itype), c.itype);
      assert next == Step(oldstate, inc, c);
      pcg.state := next;
      var pick := Pick(next, size);
      var extVal := ext[pick];
      assert Fits(extVal, c.xtype);
      ext[pick] := WrapAdd(extVal, 1, c.xtype);
      var out := Output(c.out, oldstate, inc, m, c.itype, c.xtype);
      XorBound(out, extVal, Bits(c.xtype));
      r := Xor(out, extVal);
    }

    /** RngCore::next_u64 of the u64-output extended generators. */
    method NextU64() returns (r: nat)
      requires Valid() && pcg.config.xtype == W64
      modifies pcg, ext
      ensures Valid() && Fits(r, W64)
      ensures pcg.state == Step(old(pcg.state), pcg.stream.Increment(), pcg.config)
      ensures var pick := Pick(pcg.state, size);
              && r == Xor(Draw(old(pcg.state), pcg.stream.Increment(), pcg.config), old(ext[pick]))
              && ext[..] == old(ext[..])[pick := WrapAdd(old(ext[pick]), 1, W64)]
    {
      r := NativeNext();
    }

    /** RngCore::next_u32: native for u32 outputs; for u64 outputs the low
        32 bits of next_u64. */
    method NextU32() returns (r: nat)
      requires Valid()
      modifies pcg, ext
      ensures Valid() && Fits(r, W32)
      ensures pcg.state == Step(old(pcg.state), pcg.stream.Increment(), pcg.config)
      ensures var pick := Pick(pcg.state, size);
              var wide := Xor(Draw(old(pcg.state), pcg.stream.Increment(), pcg.config), old(ext[pick]));
              && (pcg.config.xtype == W32 ==> r == wide)
              && (pcg.config.xtype == W64 ==> r == wide % Modulus(W32))
              && ext[..] == old(ext[..])[pick := WrapAdd(old(ext[pick]), 1, pcg.config.xtype)]
    {
      if pcg.config.xtype == W32 {
        r := NativeNext();
      } else {
        var wide := NextU64();
        NarrowW64W32();
        r := Shrink(wide, W64, W32);
      }
    }
  }

  /** ExtPcg::from_seed: from_pcg of PcgEngine::from_seed. */
  method FromSeed(seed: PcgSeeder, stream: Stream, c: Config, size: ExtSize) returns (e: ExtPcg)
    requires ValidConfig(c) && stream.Valid() && stream.width == c.itype
    requires seed.Valid() && seed.width == c.itype
    requires SizeOf(c.itype) <= seed.data.Length - seed.atPos
    modifies seed
    ensures fresh(e) && fresh(e.pcg) && e.Valid() && e.size == size
    ensures e.pcg.config == c && e.pcg.stream == stream
    ensures e.ext[..] == Draws(Read(seed.data[old(seed.atPos)..], c.itype), stream.Increment(), c, ExtSizeOf(size))
    ensures e.pcg.state == StateAfter(Read(seed.data[old(seed.atPos)..], c.itype), stream.Increment(), c, ExtSizeOf(size))
    ensures seed.Valid() && seed.atPos == old(seed.atPos) + SizeOf(c.itype)
  {
    var pcg := new PcgEngine.FromSeed(seed, stream, c);
    ghost var bytes := seed.data[old(seed.atPos)..];
    ghost var start := pcg.state;
    assert start == Read(bytes, c.itype);
    e := new ExtPcg.FromPcg(pcg, size);
    assert seed.data[old(seed.atPos)..] == bytes;
    assert e.ext[..] == Draws(start, stream.Increment(), c, ExtSizeOf(size));
    assert e.pcg.state == StateAfter(start, stream.Increment(), c, ExtSizeOf(size));
  }

  /** ExtPcg::new_unseeded: from_pcg of PcgEngine::new_unseeded, so the
      extension holds the first EXT_SIZE draws from the default seed and the
      engine is EXT_SIZE steps past it. */
  method NewUnseeded(stream: Stream, c: Config, size: ExtSize) returns (e: ExtPcg)
    requires ValidConfig(c) && stream.Valid() && stream.width == c.itype
    ensures fresh(e) && fresh(e.pcg) && e.Valid() && e.size == size
    ensures e.pcg.config == c && e.pcg.stream == stream
    ensures e.ext[..] == Draws(DefaultSeed(c.itype), stream.Increment(), c, ExtSizeOf(size))
    ensures e.pcg.state == StateAfter(DefaultSeed(c.itype), stream.Increment(), c, ExtSizeOf(size))
  {
    var pcg := PcgEngine.NewUnseeded(stream, c);
    e := new ExtPcg.FromPcg(pcg, size);
  }
}
