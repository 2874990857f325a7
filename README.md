# pcg_rand: a Dafny model of the PCG generator engine

This project models the generator core of the Rust crate `pcg_rand` and proves
properties of it. That core consists of:

- the `PcgEngine` linear congruential step over wrapping 8- to 128-bit words;
- its multipliers and stream increments;
- the three output permutations XshRs, XshRr and DXsM;
- the seed byte codec and the `PcgSeeder` cursor;
- the hand-written `Pcg32Basic`;
- the extended generator `ExtPcg` with its power-of-two extension array.

Modules, one per source file:

- `NumOps` (numops.dfy): machine words. A word of width `w` is a `nat` below
  `Modulus(w) = 2^Bits(w)`. Wrapping add and multiply are written as reductions
  modulo that. Shifts, xor, or, and and rotate are defined on `nat`. `usize` is
  64 bits.
- `Multipliers` (multiplier.dfy): the Default and MCG multiplier constants.
- `Streams` (stream.dfy): a `Stream` class whose `kind` is OneSeq, SpecificSeq,
  UniqueSeq or NoSeq. It has the settable `inc` field of a SpecificSeqStream.
  `SetStream` updates that field in place.
- `OutputMix` (outputmix.dfy): the output permutations. Each intermediate
  quantity is a separate function with its own bounds (opbits, shift amounts,
  rotation amount).
- `Seeds` (seeds.dfy): the per-width little-endian `Read`/`Encode` codec and
  `Write`, which fills an array in place. It also has the `PcgSeeder` class (a
  byte array and a cursor) and the default seed constants.
- `Pcg` (pcg.dfy): the `PcgEngine` class (`NextU32`, `NextU64`, `FromSeed`,
  `NewUnseeded`) and the `Pcg32Basic` class. The engine is proved against the
  functions `Step`, `Draw`, `StateAfter` and `Draws`.
- `ExtSizes` (extsizes.dfy): the `Ext2`…`Ext1024` sizes.
- `Extension` (extension.dfy): the `ExtPcg` class. Its extension array is filled
  by a loop of native draws. Each draw increments one slot in place.

## Model

| member | source | states |
|---|---|---|
| NumOps.SizeOf | src/numops.rs:74-80 | the byte size of each word type is between 1 and 16 |
| NumOps.Bits | src/numops.rs:47-49 | `BITS` is eight times the byte size |
| NumOps.BitsValues | src/numops.rs:47-49 | `BITS` is one of 8, 16, 32, 64, 128 |
| NumOps.WrapAdd | src/numops.rs:64-67 | wrapping add fits the width; it is the plain sum without overflow and the sum minus 2^W with overflow |
| NumOps.WrapMul | src/numops.rs:59-62 | wrapping multiply fits the width and is the plain product when that product fits |
| NumOps.Shrink | src/numops.rs:85-106 | `shrink` is defined only for a strictly narrower target, fits it, and keeps a value that already fits |
| NumOps.AsUsize | src/numops.rs:51-56 | `as_usize` is below 2^64 and is the identity on values below 2^64 |
| NumOps.Shl | src/stream.rs:78 | a left shift on a word type stays inside the width |
| NumOps.Shr | src/outputmix.rs:78 | a logical right shift never grows the value, and shifts out a value of fewer than k bits entirely |
| NumOps.Xor | src/outputmix.rs:139 | `a ^ b` is at most a + b, and `a ^ a` is 0 |
| NumOps.Or | src/stream.rs:78 | `a \| b` is at least each operand and at most their sum |
| NumOps.And | src/outputmix.rs:78 | `a & b` is at most each operand |
| NumOps.RotR | src/outputmix.rs:142 | `rotate_right` stays inside the width |
| NumOps.ShrinkCompose | src/numops.rs:95-106 | narrowing composes: u128→u64→u32 equals u128→u32 |
| NumOps.ShrinkWrapAdd | src/numops.rs:64-67 | wrapping add commutes with narrowing |
| NumOps.ShrinkWrapMul | src/numops.rs:59-62 | wrapping multiply commutes with narrowing |
| NumOps.AsUsizeMask | src/numops.rs:52-55 | `as_usize(x) & (2^k - 1)` is `x mod 2^k` |
| NumOps.RotRByWidth | src/outputmix.rs:142 | rotating by a multiple of the width is the identity |
| NumOps.RotRInverse | src/outputmix.rs:142 | rotating right by n and then by W - n gives back the word |
| NumOps.RotRAsShifts | src/lib.rs:420 | a rotation by r < W is `(x >> r) \| (x << ((W - r) mod W))` |
| NumOps.XorBound | src/outputmix.rs:83 | xor of two W-bit values is a W-bit value |
| NumOps.OrBound | src/stream.rs:78 | or of two W-bit values is a W-bit value |
| NumOps.OrOne | src/stream.rs:78 | `x \| 1` is odd, and is x + 1 for even x and x for odd x |
| NumOps.AndLowMask | src/outputmix.rs:71-78 | masking with 2^k - 1 keeps the value modulo 2^k |
| Multipliers.DefaultMultiplier | src/multiplier.rs:49-55 | each Default constant fits its width and is odd |
| Multipliers.McgMultiplier | src/multiplier.rs:72-78 | each MCG constant fits its width and is odd |
| Multipliers.Multiplier | src/multiplier.rs:30-32 | `multiplier()` is a constant per strategy and width, odd and in range |
| Multipliers.DefaultU128Parts | src/multiplier.rs:54 | the u128 Default constant is 2549297995355413924·2^64 + 4865540595714422341 |
| Multipliers.McgU128Parts | src/multiplier.rs:76-77 | the u128 MCG constant is 17766728186571221404·2^64 + 12605985483714917081, and its low 64 bits are the u64 MCG constant |
| Streams.OneSeqConstant | src/stream.rs:129-134 | each of the OneSeq literals for u8 to u64 is odd |
| Streams.OneSeqIncrement | src/stream.rs:129-134 | each OneSeq increment fits its width and is odd |
| Streams.SetStreamIncrement | src/stream.rs:77-79 | `(v << 1) \| 1` fits the width and is odd |
| Streams.UniqueIncrement | src/stream.rs:100-103 | the address cast to the type, `\| 1`, fits and is odd for every address |
| Streams.Stream.OneSeqStream | src/stream.rs:38-42 | a valid OneSeq stream of a width with a constant |
| Streams.Stream.SpecificSeqStream | src/stream.rs:61-63 | a fresh SpecificSeqStream has increment 1 |
| Streams.Stream.UniqueSeqStream | src/stream.rs:91-95 | a valid Unique stream at the given address |
| Streams.Stream.NoSeqStream | src/stream.rs:112-116 | a valid NoSeq stream |
| Streams.Stream.Increment | src/stream.rs:32-33 | `increment` only reads the stream; it is 0 exactly for NoSeq (src/stream.rs:120-124), odd for every other kind, and it is the field for SpecificSeq |
| Streams.Stream.SetStream | src/stream.rs:28-30 | only a SpecificSeqStream may call it (the trait default panics); it stores `(v << 1) \| 1`, leaving the increment odd (src/stream.rs:77-79) |
| Streams.SetStreamDropsTopBit | src/stream.rs:78 | v and v + 2^(W-1) select the same increment |
| Streams.SetStreamIncrementValue | src/stream.rs:78 | below the top bit, set_stream(v) gives 2v + 1 |
| OutputMix.SpareBits | src/outputmix.rs:56 | every narrowing pair leaves at least 8 spare bits |
| OutputMix.XshRsOpBits | src/outputmix.rs:58-70 | opbits is 5, 4, 3, 2, 1 or 0 at the thresholds 69, 36, 19, 6 and > 1, and 2^opbits - 1 ≤ sparebits - opbits |
| OutputMix.StateTopBits | src/outputmix.rs:77-81 | the random part `(state >> (BITS - opbits)).as_usize() & mask`, or 0 when opbits is 0, is at most the mask 2^opbits - 1 (the same code is src/outputmix.rs:132-136) |
| OutputMix.XshRsRandomShift | src/outputmix.rs:71-81 | rshift is at most the mask 2^opbits - 1 |
| OutputMix.XshRsXorShift | src/outputmix.rs:75 | the xorshift distance is positive and inside the type |
| OutputMix.XshRsShift | src/outputmix.rs:71-84 | the final shift lies in [bottomspare - mask, bottomspare] and leaves room for the whole output |
| OutputMix.XshRsOutput | src/outputmix.rs:54-85 | the XshRs output fits the output type |
| OutputMix.XshRrWantedOpBits | src/outputmix.rs:107-118 | wanted opbits is 3 to 7, and 2^wanted is at most the output width |
| OutputMix.XshRrOpBits | src/outputmix.rs:120-124 | opbits is min(wanted, sparebits) |
| OutputMix.Amplify | src/outputmix.rs:138 | `(rot << amplifier) & mask` on usize is at most the mask 2^opbits - 1 |
| OutputMix.XshRrRotation | src/outputmix.rs:126-138 | amprot is at most 2^opbits - 1 and below the output width |
| OutputMix.XshRrOutput | src/outputmix.rs:103-143 | the XshRr output fits the output type |
| OutputMix.DXsMLow | src/outputmix.rs:165-167 | the second multiplicand `low \| 1` fits and is odd |
| OutputMix.DXsMOutput | src/outputmix.rs:163-175 | the DXsM output fits the output type |
| OutputMix.DXsM12864 | src/outputmix.rs:163-175 | at (u128, u64), with hi = s >> 64 and lo = (s mod 2^64) \| 1, the output is `hi ^= hi >> 32; hi *= M; hi ^= hi >> 48; hi *= lo` with each product mod 2^64 |
| OutputMix.Output | src/outputmix.rs:34-37 | every output permutation yields a value of the output type |
| OutputMix.OutputArguments | src/outputmix.rs:54 | no permutation reads the increment; XshRs and XshRr ignore the multiplier, and DXsM reads only its low X bits (src/outputmix.rs:103, 163, 170) |
| OutputMix.TopBits | src/outputmix.rs:78 | the top k ≤ 10 bits pass through the usize cast and the mask unchanged |
| OutputMix.XshRsRandomShift6432 | src/outputmix.rs:77-81 | at (u64, u32) rshift is s >> 61 |
| OutputMix.XshRs6432 | src/outputmix.rs:54-85 | at (u64, u32) the shift lies in [22, 29] and the output is `((s ^ (s >> 22)) >> (22 + (s >> 61))) as u32` |
| OutputMix.XshRrRotation6432 | src/outputmix.rs:132-138 | at (u64, u32) amprot is s >> 59 |
| OutputMix.XshRr6432 | src/outputmix.rs:103-143 | at (u64, u32) the output is `rotr32(((s ^ (s >> 18)) >> 27) as u32, s >> 59)` |
| OutputMix.XshRrRotation12864 | src/outputmix.rs:132-138 | at (u128, u64) amprot is s >> 122 |
| OutputMix.XshRr12864 | src/outputmix.rs:103-143 | at (u128, u64) the output is `rotr64(((s ^ (s >> 35)) >> 58) as u64, s >> 122)` |
| Seeds.LeBytes | src/seeds.rs:24-52 | the little-endian encoding of n bytes has length n |
| Seeds.LeValue | src/seeds.rs:24-52 | the value of b little-endian bytes is below 2^(8b) |
| Seeds.LeRoundTrip | src/seeds.rs:24-52 | decoding the n-byte encoding of x < 2^(8n) gives x |
| Seeds.LeBytesIndex | src/seeds.rs:24-52 | byte i of the encoding is (x >> 8i) mod 256 |
| Seeds.Encode | src/seeds.rs:14-67 | `write` produces exactly size_of::<T>() bytes at every width |
| Seeds.Read | src/seeds.rs:14-67 | `read` needs size_of::<T>() bytes and yields a value of the type |
| Seeds.ReadPrefix | src/seeds.rs:14-67 | `read` looks only at the first size_of::<T>() bytes |
| Seeds.U128Halves | src/seeds.rs:62-67 | the top and bottom 64-bit halves of a u128 recombine into it |
| Seeds.JoinHalves | src/seeds.rs:55-59 | `(top << 64) \| bottom` is top·2^64 + bottom |
| Seeds.ReadEncode | src/seeds.rs:14-67 | `read(write(x)) == x` at every width |
| Seeds.ReadPair | src/seeds.rs:126-150 | reading two consecutive encodings gives back both values |
| Seeds.EncodeLittleEndian | src/seeds.rs:24-52 | for u8 to u64, byte i is (x >> 8i) mod 256 |
| Seeds.EncodeU128Layout | src/seeds.rs:62-67 | a u128 is written as its top half, little-endian, followed by its bottom half |
| Seeds.Write | src/seeds.rs:14-67 | writing fills exactly size_of::<T>() bytes at the offset with the encoding, and nothing else changes |
| Seeds.DefaultSeed | src/seeds.rs:87-118 | the default seed of each width fits its width |
| Seeds.DefaultStream | src/seeds.rs:87-118 | the default stream of each width fits its width |
| Seeds.PcgSeeder.SeedWithStream | src/seeds.rs:126-139 | the buffer has 2·size_of::<T>() bytes: the seed's encoding followed by the stream's; the cursor is 0 |
| Seeds.PcgSeeder.Seed | src/seeds.rs:121-123 | `seed(s)` is `seed_with_stream(s, 0)` |
| Seeds.PcgSeeder.Default | src/seeds.rs:87-118 | the default seeder holds the fixed default pair of its width |
| Seeds.PcgSeeder.Get | src/seeds.rs:141-150 | `get` needs size_of::<T>() bytes left, reads the value at the cursor, and advances the cursor by exactly that; the bytes do not change |
| Seeds.SeedThenStream | src/seeds.rs:126-150 | a fresh `seed_with_stream(s, t)` yields s, then t, and then has no bytes left, so a third get panics |
| Pcg.ValidConfigCases | src/lib.rs:193-198 | RngCore exists exactly for a u32 output over a u64 or u128 state and a u64 output over a u128 state (src/lib.rs:225-230), as the output mixin's AsSmaller bound allows |
| Pcg.Pcg32ConfigValid | src/lib.rs:268 | `Pcg32` is a valid engine with the u64 default multiplier 6364136223846793005 |
| Pcg.Step | src/lib.rs:200-205 | the step yields a state of the type |
| Pcg.StepIsModular | src/lib.rs:200-205 | the new state is (increment + old·multiplier) mod 2^W |
| Pcg.Draw | src/lib.rs:207 | a draw yields a value of the output type |
| Pcg.StateAfter | src/lib.rs:200-205 | the state after n steps is a state of the type |
| Pcg.Draws | src/lib.rs:200-207 | n draws give n outputs of the output type |
| Pcg.DrawsSnoc | src/lib.rs:200-207 | draw n + 1 permutes the state after n steps, and that state then takes one more step |
| Pcg.McgStateAfter | src/lib.rs:264-265 | with NoSeq and the MCG multiplier (Pcg32Fast, src/lib.rs:278) the state after n steps is state·m^n mod 2^W |
| Pcg.PcgEngine.NextU64 | src/lib.rs:236-244 | the state becomes the step of the old state; the result is the output of the OLD state; the stream is only read |
| Pcg.PcgEngine.NextU32 | src/lib.rs:200-208 | the same step; the result is the native output for u32 engines and the low 32 bits of next_u64 for u64 engines (src/lib.rs:232-234) |
| Pcg.PcgEngine.FromSeed | src/lib.rs:372-380 | the state is the seeder's first value, and the seeder's cursor moves past it |
| Pcg.PcgEngine.NewUnseeded | src/lib.rs:187-189 | `new_unseeded` starts from the default seed of its state type and keeps the given stream, so two unseeded engines of one configuration agree when their streams have equal increments |
| Pcg.Determinism | src/lib.rs:200-207 | two engines with the same configuration, increment and state give the same draw and stay equal |
| Pcg.BasicMultiplier | src/lib.rs:413 | Pcg32Basic's literal multiplier is the u64 Default multiplier |
| Pcg.NegI32Bits | src/lib.rs:420 | the u32 bits of `-(rot as i32)`: 0 for rot 0 and 2^32 - rot otherwise |
| Pcg.Mask31 | src/lib.rs:420 | `x & 31` is x mod 32 |
| Pcg.NegRotBits | src/lib.rs:420 | `(-(rot as i32)) & 31` is (32 - rot) mod 32 |
| Pcg.NegRotMask | src/lib.rs:420 | the left-shift distance of the rotation is (32 - rot) mod 32 |
| Pcg.BasicRotation | src/lib.rs:417 | `(oldstate >> 59) as u32` is below 32 |
| Pcg.BasicOutput | src/lib.rs:416-420 | Pcg32Basic's output is a u32 |
| Pcg.BasicOutputIsXshRr | src/lib.rs:416-420 | Pcg32Basic's permutation equals XshRr from u64 to u32 |
| Pcg.BasicStepIsStep | src/lib.rs:413 | Pcg32Basic's wrapping update is Pcg32's engine step with the given increment |
| Pcg.BasicOutputIsDraw | src/lib.rs:416-420 | Pcg32Basic's permutation is Pcg32's engine draw, whatever the increment |
| Pcg.Pcg32Basic.NextU32 | src/lib.rs:410-421 | the state becomes old·6364136223846793005 + (inc \| 1) mod 2^64, i.e. Pcg32's engine step with increment `inc \| 1`; the result is the XshRr output of the old state; inc is unchanged |
| Pcg.Pcg32Basic.FromSeed | src/lib.rs:441-446 | the seeder's first value becomes the state and its second the increment |
| Pcg.Pcg32Basic.NewUnseeded | src/lib.rs:403-405 | the state and the increment are the default u64 pair |
| Pcg.BasicTake | tests/pcg_basic_tests.rs:8-21 | n successive `next_u32` calls (src/lib.rs:409-421) return the first n Pcg32 draws from the start state with increment `inc \| 1` and leave the state n steps on, so two generators with equal state and increment yield equal sequences of every length |
| Pcg.EvenAndOddIncrement | src/lib.rs:413 | an even increment and the next odd one (12 and 13, say) give identical output sequences |
| ExtSizes.ExtBits | src/extension/extsizes.rs:58-69 | EXT_BITS ranges over 1..10 |
| ExtSizes.ExtSizeOf | src/extension/extsizes.rs:58-69 | EXT_SIZE ranges over 2..1024 |
| ExtSizes.SizeIsPowerOfBits | src/extension/extsizes.rs:24-25 | EXT_SIZE = 2^EXT_BITS for every provided size |
| Extension.Pick | src/extension/mod.rs:145-146 | the slot is the state mod EXT_SIZE and is always a valid index |
| Extension.PickReachesEverySlot | src/extension/mod.rs:145-146 | the mask reaches every index below EXT_SIZE |
| Extension.Gen | src/extension/mod.rs:92 | `pcg.gen()` is one native draw: the engine's step and output |
| Extension.DrawMany | src/extension/mod.rs:90-93 | the fill loop yields EXT_SIZE successive draws, in order, and leaves the engine after that many steps |
| Extension.ExtPcg.FromPcg | src/extension/mod.rs:84-100 | the extension has exactly EXT_SIZE entries: the engine's next EXT_SIZE draws, in order |
| Extension.ExtPcg.NativeNext | src/extension/mod.rs:137-151 | the engine takes its step; the slot picked by the NEW state is xored into the output of the OLD state using its value before the increment; only that slot changes, by a wrapping + 1 |
| Extension.ExtPcg.NextU64 | src/extension/mod.rs:180-194 | the same, for u64 outputs |
| Extension.ExtPcg.NextU32 | src/extension/mod.rs:176-178 | for u32 outputs the native draw (src/extension/mod.rs:137-151); for u64 outputs the low 32 bits of next_u64 |
| Extension.FromSeed | src/extension/mod.rs:242-245 | from_pcg of PcgEngine::from_seed: the extension holds the EXT_SIZE draws from the seeder's first value, the engine is EXT_SIZE steps past that value, and the seeder's cursor moves past it, so equal seed bytes and stream increments give the same extended generator |
| Extension.NewUnseeded | src/extension/mod.rs:121-124 | from_pcg of PcgEngine::new_unseeded: the extension holds the EXT_SIZE draws from the default seed under the given stream's increment and the engine is EXT_SIZE steps past the default seed, so two such extensions (table and engine state) agree when their streams have equal increments |

## Left out

- `advance` (jump-ahead): no implementation of it appears in the modelled files. `StateAfter` is only a specification function for n steps.
- src/extension.rs is an older copy of the extension that does not compile. The model follows src/extension/mod.rs.
- Serialization (src/custom_serialize.rs, src/serialization.rs) is left out. It is serde plumbing around functions that these sources do not show.
- Code from the `rand`/`rand_core` crates is foreign and left out: `next_u64_via_u32` (so the u32-output engines have no `NextU64`), `fill_bytes_via_next`, `try_fill_bytes`, `from_entropy` and `Standard`. `pcg.gen()` is modelled as one native draw (`Extension.Gen`).
- Pcg.BasicTake: the tests compare `gen_ascii_chars().take(100)`, which maps draws to characters inside the `rand` crate. The model compares the underlying `next_u32` draws.
- Streams.UniqueIncrement: the memory address of a UniqueSeqStream is an input (the `address` field), because the model cannot observe real addresses. The address is fixed for the life of each Stream object. src/stream.rs:101 re-reads `self as *const UniqueSeqStream` on every `increment` call, and a Rust move can relocate the engine: `from_pcg` moves it into a local (src/extension/mod.rs:87) and then into the returned struct (src/extension/mod.rs:95-99), and `from_seed` and `new_unseeded` return by value. Such moves are not modelled. For a UniqueSeq stream, the continuity that `Extension.ExtPcg.FromPcg` and `Extension.ExtPcg.NativeNext` state (the table is filled and later draws are taken under one increment) therefore holds only while the engine stays at one address.
- `StreamMix::build` (src/lib.rs:375) is not part of this model. `Pcg.PcgEngine.FromSeed` takes the stream it builds as a parameter. It therefore states only what the state is and how far the seeder's cursor moves.
- Pcg.PcgEngine.FromSeed: the seeder is not consumed. The model only advances its cursor.
- Statistical claims are not provable properties: seed and stream sensitivity, and the K-dimensional equidistribution of the extended generator.
- Wrapping arithmetic follows release builds. Debug builds trap on overflow of `ext[pick] += 1` (src/extension/mod.rs:149); the model wraps it. `(v << 1)` in src/stream.rs:78 drops the top bit in every build, as `Streams.SetStreamDropsTopBit` states.
- Bits: its own contract states only that `BITS` is eight times the byte size. The value set 8, 16, 32, 64, 128 is the separate lemma `NumOps.BitsValues`, because as an ensures of Bits it sends the solver into a case split on every width wherever Bits appears.
- OutputMix.XshRsOpBits: the guards `sparebits - k >= …` of src/outputmix.rs:58-64 subtract on `usize` and would underflow for sparebits < 5. The model evaluates them on unbounded integers. That agrees with Rust whenever sparebits ≥ 5, and every narrowing pair has at least 8.
- `usize` is 64 bits throughout (`NumOps.AsUsize`).
- Streams.OneSeqIncrement: src/stream.rs:129-137 gives stream implementations for u8 to u64 only. SpecificSeq, Unique and NoSeq are modelled for every width, because src/lib.rs names u128 engines with them. OneSeq has no u128 constant, so it excludes W128.
- The `AsMut<[u8]>` access to a seeder's bytes (src/seeds.rs:77-81) is left out.
- Extension.ExtPcg.FromPcg: `from_pcg` takes the engine by value and consumes it (src/extension/mod.rs:84-87). In the model the caller keeps a reference to the engine now held by the ExtPcg (`this.pcg == pcg`), so the model does not rule out that alias.
- Pcg.PcgEngine.FromSeed, Pcg.PcgEngine.NewUnseeded, Extension.FromSeed, Extension.NewUnseeded: these require `ValidConfig`, i.e. a u32 or u64 output. src/lib.rs:361-380 builds an engine for any `OutputMixin<Itype, Xtype>` pair, such as u16 to u8 or u64 to u16. Such engines have no RngCore (src/lib.rs:193-198, 225-230), so they cannot draw, and the model does not construct them.
- Extension.ExtPcg.FromPcg: the `Vec::with_capacity` and `push` loop (`Extension.DrawMany`) pushes onto a sequence. The sequence is then copied into a freshly allocated array of EXT_SIZE entries, so the vector's capacity is not modelled.
- Parts of the sources disagree, and the model follows src/outputmix.rs and src/stream.rs:
  - src/lib.rs:207 calls `OutMix::output(oldstate)` with one argument, but src/outputmix.rs:36 declares `output(state, increment, multiplier)`. The model uses the three-argument form and passes the stream increment and the multiplier.
  - src/lib.rs:375 calls `StreamMix::build`, which src/stream.rs does not define.
