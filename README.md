# crypto_tools: four-register integers and the sponge PRNG

A Dafny model of the core of the Rust crate `crypto_tools`:

- `Ux4`: an unsigned integer held in four registers, least significant first.
  It has constructors, a getter and a setter, the bitwise operators, a
  one-bit-at-a-time left shift, ripple-carry addition, subtraction through the
  two's complement, and equality.
- `SPRNG`: the sponge-based pseudo-random number generator of Gazi and Tessaro
  ("Provably Robust Sponge-Based PRNGs and KDFs", 2016). The rate part of the
  sponge is the low `r` bits selected by `mask`; the capacity part is the rest.
  - `new` draws a seed of `s` masked words and a random capacity part.
  - `refresh` absorbs a list of inputs, each XOR-ed with the seed word under a
    cursor `j` that cycles through the seed.
  - `next` permutes the state, outputs its rate bits, runs `t - 1` passes of
    "permute and clear the rate bits", and resets the cursor to 1.
- The older copy of the same generator in `gt2016.rs`. It has the same
  `setup`, `next` and getters, but a `refresh` that loops over `1..l` and
  absorbs `inputs[i-1]`.

The files are:

- `bits.dfy` (module `Bits`): bitwise AND, XOR, NOT and OR on `k`-bit naturals,
  defined bit by bit, with the identities the other modules use.
- `ustates.dfy` (module `UStates`): `Ux4` with 8-bit registers. The operations
  are functions. `Add` and `Shl` are methods with the source's loops, each
  proved equal to its function. Lemmas give the meaning of each operation in
  terms of the integer the registers spell (`Value`).
- `sprng.dfy` (module `Sprng`): 64-bit words, the absorb fold, the output and
  truncation functions, and the class `SpongePrng`. Its fields `t`, `s`,
  `mask`, `perm` and `seed` are constants; `state` and `j` are updated in place
  by `Refresh` and `Next`.
- `gt2016.dfy` (module `Gt2016`): the class `GtSponge` for the older copy.

The permutation is the caller's function `perm`. The random draws of
`new`/`setup` are the constructor's `draws` parameter: the first `s` words
become the seed, and the last one becomes the capacity part of the state.

The older `refresh` loops over `1..l` and absorbs `inputs[i-1]`, so it never
absorbs the last input (`src/prng/gt2016.rs:94-96`); see Findings.

## Model

| member | source | states |
|---|---|---|
| UStates.Value | src/utilities/ustates.rs:15 | the integer the four registers spell, register 0 least significant, is below 2^32 |
| UStates.ValueInjective | src/utilities/ustates.rs:15 | two `Ux4` values spell the same integer exactly when their registers are equal |
| UStates.New | src/utilities/ustates.rs:21-23 | register `i` of `new(state)` is `state[i]` |
| UStates.Get | src/utilities/ustates.rs:45-47 | `get` returns the four registers in order |
| UStates.Set | src/utilities/ustates.rs:50-52 | after `set(regs)`, `get` returns `regs`, whatever the registers were before |
| UStates.NewGetRoundTrip | src/utilities/ustates.rs:21-47 | `new` and `get` are inverses, in both directions |
| UStates.Zero | src/utilities/ustates.rs:26-28 | every register of `zero()` is 0 |
| UStates.ZeroValue | src/utilities/ustates.rs:26-28 | `zero()` spells 0 |
| UStates.From | src/utilities/ustates.rs:58-62 | `from(b)` holds `b` in register 0 and 0 in the other three |
| UStates.FromValue | src/utilities/ustates.rs:58-62 | `from(b)` spells the integer `b` |
| UStates.Not | src/utilities/ustates.rs:69-71 | each register of `!a` is the 8-bit complement of the same register of `a` |
| UStates.NotValue | src/utilities/ustates.rs:69-71 | `!a` spells `2^32 - 1 - a` |
| UStates.NotInvolutive | src/utilities/ustates.rs:69-71 | `!!a == a` |
| UStates.And | src/utilities/ustates.rs:78-81 | each register of `a & b` is the AND of the matching registers |
| UStates.AndZero | src/utilities/ustates.rs:78-81 | `a & zero() == zero()` |
| UStates.Xor | src/utilities/ustates.rs:88-91 | each register of `a ^ b` is the XOR of the matching registers |
| UStates.XorSelf | src/utilities/ustates.rs:88-91 | `a ^ a == zero()` |
| UStates.CarryOut | src/utilities/ustates.rs:129-133 | the carry the loop passes on: 1 when the wrapped sum of the two words and the carry in is below either word, else 0; its meaning is stated by `CarryOutCorrect` |
| UStates.CarryOutCorrect | src/utilities/ustates.rs:127-133 | the carry rule gives 0 or 1. It equals the true carry of `x + y + c`, except when both words are 255 and the carry in is 1: there the true carry is 1 and the rule gives 0 |
| UStates.AddStep | src/utilities/ustates.rs:127-133 | for one register, `x + y + c` equals the stored wrapped sum plus 256 times the rule's carry plus 256 in the lost-carry case |
| UStates.CarryIn | src/utilities/ustates.rs:124-133 | the carry entering each register is 0 or 1 |
| UStates.Plus | src/utilities/ustates.rs:122-137 | the value `a + b` returns: four wrapped register sums, each with the carry the rule passes up from the register below, the last carry dropped; its meaning is stated by `PlusAt` and `PlusValue` |
| UStates.PlusAt | src/utilities/ustates.rs:126-134 | register `i` of `a + b` is the wrapped sum of both registers and the carry into `i` |
| UStates.PlusValue | src/utilities/ustates.rs:122-137 | `a + b` spells `(a + b) mod 2^32` if and only if no carry is lost in registers 0-2 (`CarrySafe`) |
| UStates.CarrySafeSmall | src/utilities/ustates.rs:122-137 | a right operand with zero upper registers never loses a carry, so such sums are right modulo 2^32 |
| UStates.PlusCommutes | src/utilities/ustates.rs:127-133 | the carry rule is symmetric, so `a + b == b + a` |
| UStates.PlusZero | src/utilities/ustates.rs:122-137 | `zero()` is a two-sided identity for `+` |
| UStates.PlusExamples | src/utilities/ustates.rs:165-179 | `[1,0,0,0] + [1,0,0,0] == [2,0,0,0]` and `[255,0,0,0] + [1,0,0,0] == [0,1,0,0]` |
| UStates.Add | src/utilities/ustates.rs:122-137 | the loop over a result buffer computes `Plus(a, b)`, and its value is the sum modulo 2^32 exactly when `CarrySafe` |
| UStates.Negate | src/utilities/ustates.rs:147-148 | the two's complement `sub` forms, `!b + [1,0,0,0]`, through the addition as written; its meaning is stated by `NegateValue` |
| UStates.Sub | src/utilities/ustates.rs:146-150 | the value `a - b` returns, `a + (!b + [1,0,0,0])`; its meaning is stated by `SubValue` and `SubZero` |
| UStates.NegateValue | src/utilities/ustates.rs:147-148 | `!b + [1,0,0,0]` spells `2^32 - b` (0 when `b` is 0), the additive inverse of `b` modulo 2^32 |
| UStates.SubZero | src/utilities/ustates.rs:146-150 | `a - zero() == a` |
| UStates.SubValue | src/utilities/ustates.rs:146-150 | `a - b` spells `(a - b) mod 2^32` exactly when adding the two's complement loses no carry |
| UStates.ShiftOnce | src/utilities/ustates.rs:104-110 | one pass of the outer loop: each register shifted left by one bit with the top bit of the register below moved into its low bit, the top bit of register 3 dropped |
| UStates.ShiftOnceValue | src/utilities/ustates.rs:104-110 | one pass of the outer loop doubles the value modulo 2^32 |
| UStates.ShlBy | src/utilities/ustates.rs:103-111 | `n` passes of the outer loop, the value `a << n` returns; its meaning is stated by `ShlByValue` and `ShlByCompose` |
| UStates.ShlByValue | src/utilities/ustates.rs:99-114 | `a << n` spells `a * 2^n mod 2^32` |
| UStates.ShlByZero | src/utilities/ustates.rs:103 | `a << 0 == a` |
| UStates.ShlByCompose | src/utilities/ustates.rs:103-111 | `a << (p + q) == (a << p) << q` |
| UStates.ShlByWord | src/utilities/ustates.rs:103-111 | `a << 8` moves every register up one place and drops register 3 |
| UStates.ShlExamples | src/utilities/ustates.rs:182-195 | `[1,1,1,1] << 1`, `[127,127,127,127] << 1` and `[1,2,4,8] << 4` are `[2,2,2,2]`, `[254,254,254,254]` and `[16,32,64,128]` |
| UStates.ShlCarryExample | src/utilities/ustates.rs:199-211 | `[255,0,0,0] << 1 == [254,1,0,0]` |
| UStates.ShlCarryAcrossExample | src/utilities/ustates.rs:202-212 | `[128,128,128,0] << 1 == [0,1,1,1]` |
| UStates.ShlCarryTopExample | src/utilities/ustates.rs:205-213 | `[255,255,255,255] << 1 == [254,255,255,255]` |
| UStates.ShlWordExample | src/utilities/ustates.rs:208-214 | `[255,255,255,255] << 8 == [0,255,255,255]` |
| UStates.Shl | src/utilities/ustates.rs:99-114 | the nested loops on a register buffer compute `ShlBy(a, shift)`, whose value is `a * 2^shift mod 2^32` |
| UStates.Eq | src/utilities/ustates.rs:156-158 | `eq` holds exactly when the registers are equal, and exactly when the values are equal |
| UStates.PlusLosesCarry | src/utilities/ustates.rs:129-133 | `[255,255,0,0] + [255,255,0,0]` gives `[254,255,0,0]` as written and `[254,255,1,0]` with the intended carry |
| UStates.PlusIntendedValue | src/utilities/ustates.rs:122-137 | with the carry taken from the true sum, `a + b` spells `(a + b) mod 2^32` for all operands |
| UStates.PlusIntendedAssociative | src/utilities/ustates.rs:122-137 | the corrected addition is associative |
| UStates.SubIntendedUndoesPlus | src/utilities/ustates.rs:146-150 | with the corrected addition, `(a + b) - b == a` |
| Sprng.LowMask | src/prng/sprng.rs:40-41 | the mask `(1 << r) - 1`, which is `2^r - 1` as `r` is below the width; its bits are stated by `LowMaskBits` |
| Sprng.LowMaskBits | src/prng/sprng.rs:40-41 | bit `i` of `(1 << r) - 1` is set exactly when `i < r` |
| Sprng.AndLowMask | src/prng/sprng.rs:40-41 | `x & mask` is `x mod 2^r` |
| Sprng.Advance | src/prng/sprng.rs:98 | the next seed position stays below `s` |
| Sprng.NextCursor | src/prng/sprng.rs:98 | `(j + 1) % s` is the next position, wrapping from `s - 1` to 0 |
| Sprng.Cursor | src/prng/sprng.rs:94-99 | after any number of absorptions the cursor is below `s` |
| Sprng.CursorValue | src/prng/sprng.rs:94-99 | after `n` absorptions the cursor is `(j0 + n) mod s` |
| Sprng.CursorConcat | src/prng/sprng.rs:94-99 | `n + m` cursor steps are `n` steps followed by `m` steps |
| Sprng.AbsorbOne | src/prng/sprng.rs:95-97 | one absorption: the input XOR-ed with the seed word, cut to the rate bits by the mask, XOR-ed into the state, then permuted |
| Sprng.Absorb | src/prng/sprng.rs:94-99 | the state after absorbing the inputs first to last, the seed word of the `k`-th input being the one `k` cursor steps on from `j0`; `Sprng.SpongePrng.Refresh` is proved to compute it |
| Sprng.AbsorbConcat | src/prng/sprng.rs:94-99 | refreshing with `xs` and then `ys` leaves the state that refreshing once with `xs + ys` leaves |
| Sprng.AbsorbOneMasked | src/prng/sprng.rs:95-97 | masking an input before it is absorbed does not change the absorption |
| Sprng.MaskedInputsIrrelevant | src/prng/sprng.rs:94-99 | bits of the inputs outside the mask never affect the state |
| Sprng.Rounds | src/prng/sprng.rs:113 | the loop over `1..t` runs `t - 1` times, or none when `t` is 0 |
| Sprng.Truncate | src/prng/sprng.rs:113-116 | `rounds` passes of "permute, then clear the rate bits" |
| Sprng.TruncateClearsRate | src/prng/sprng.rs:113-116 | after at least one truncation pass the rate bits are zero |
| Sprng.Output | src/prng/sprng.rs:107-110 | the value a draw returns: the permuted state AND the mask |
| Sprng.OutputInMask | src/prng/sprng.rs:107-110 | an output has no bit outside the mask |
| Sprng.OutputLowBits | src/prng/sprng.rs:110 | with the mask of `new`, an output is the permuted state modulo `2^r` |
| Sprng.NextState | src/prng/sprng.rs:105-116 | the state a draw leaves: the permuted state followed by `t - 1` truncation passes (none when `t` is 0 or 1); its meaning is stated by `NextStateRate` |
| Sprng.NextStateRate | src/prng/sprng.rs:105-116 | with `t >= 2` a draw leaves the rate bits zero; with `t <= 1` it applies the permutation exactly once |
| Sprng.SeedWordInMask | src/prng/sprng.rs:47 | a drawn seed word AND-ed with the mask has no bit outside the mask |
| Sprng.InitialState | src/prng/sprng.rs:51-52 | `0 \| (draw & !mask)` is `draw & !mask`, whose rate bits are zero |
| Sprng.SpongePrng.New | src/prng/sprng.rs:33-63 | stores `t` and `s`, the mask `(1 << r) - 1`, the seed words `draws[k] & mask` and the state `draws[s] & !mask` (rate bits zero), and sets `j` to 1 |
| Sprng.SpongePrng.GetParams | src/prng/sprng.rs:66-68 | returns `[t, s]` |
| Sprng.SpongePrng.GetSeed | src/prng/sprng.rs:71-73 | returns the `s` seed words, each inside the mask |
| Sprng.SpongePrng.GetMask | src/prng/sprng.rs:76-78 | returns the mask |
| Sprng.SpongePrng.Refresh | src/prng/sprng.rs:89-102 | absorbs every input in order, first to last; the cursor moves to `(j + l) mod s`; the seed invariant is kept |
| Sprng.SpongePrng.Next | src/prng/sprng.rs:105-122 | returns the rate bits of the permuted state, with no bit outside the mask. The new state is `NextState`, with rate bits zero when `t >= 2`. `j` is reset to 1 |
| Gt2016.AbsorbedInputs | src/prng/gt2016.rs:94-96 | the inputs the older loop absorbs: the first `l - 1` of them, none when `l` is 0 or 1 |
| Gt2016.LastInputIgnored | src/prng/gt2016.rs:94-96 | the inputs absorbed from `xs + [x]` are `xs`, whatever `x` is |
| Gt2016.ShortInputsIgnored | src/prng/gt2016.rs:93-99 | with zero or one input the loop absorbs nothing and the cursor stays put |
| Gt2016.GtSponge.Setup | src/prng/gt2016.rs:58-89 | as `Sprng.SpongePrng.New`: the mask, the masked seed, a state with rate bits zero, `j == 1` |
| Gt2016.GtSponge.GetParams | src/prng/gt2016.rs:32-34 | returns `[t, s]` |
| Gt2016.GtSponge.GetSeed | src/prng/gt2016.rs:37-39 | returns the `s` seed words, each inside the mask |
| Gt2016.GtSponge.GetMask | src/prng/gt2016.rs:42-44 | returns the mask |
| Gt2016.GtSponge.Refresh | src/prng/gt2016.rs:92-101 | accepts any input list and absorbs all inputs but the last; the cursor moves `l - 1` places (none for `l <= 1`); the seed invariant is kept |
| Gt2016.GtSponge.Next | src/prng/gt2016.rs:104-113 | as `Sprng.SpongePrng.Next` |

## Left out

- `Ux4::rand` (`src/utilities/ustates.rs:35-38`) and the random draws in `new`/`setup`: randomness is not modelled. The drawn words are the constructor's `draws` parameter.
- The permutation `perm` is any caller-supplied function; nothing is assumed about it.
- The `PRNG` trait (`src/prng/mod.rs:13-27`) is not modelled as a trait. `Refresh` and `Next` have its signatures.
- The `Result`/`Error` wrapping is dropped: no operation ever returns `Err`. A call that returns `Ok(x)` is modelled as returning `x`.
- The panics of `assert!` become preconditions: four parameters, `r <= n` and `s > 1` in `new`/`setup`, and a non-empty input list in the newer `refresh`. `n` is only checked, never stored.
- Sprng.SpongePrng.New: requires `r < 64`. With a 64-bit word, `1 << r` for `r >= 64` is a shift overflow in Rust, so those calls are outside the model. The same holds for `Gt2016.GtSponge.Setup`.
- The generic register type `U` is fixed. `Ux4` has 8-bit registers (`u8`), the type the source's carry tests use; the `u64` addition test is read with 8-bit registers. The sponge uses 64-bit words (`u64`). A sponge over `Ux4` words is not modelled.
- `usize` bounds on `t`, `s`, `j`, `shift` and the input lengths are not modelled: they are unbounded naturals. `j + 1` cannot overflow, since `j < s`.
- UStates.Set: modelled as a function returning the new value, not as a `&mut self` update. `set` replaces the whole value, so the two agree.
- UStates.Add and UStates.Shl: the methods work on a local register array. The operators take their operands by value, so nothing is aliased.
- `Clone`/`Debug` derives and module declarations have no behaviour to model.

## Findings

| source | as written | input that shows it | evidently intended | confidence | as-written member | corrected member |
|---|---|---|---|---|---|---|
| src/utilities/ustates.rs:129-133 | the carry out of a register is 1 only when the wrapped sum is below one of the two words | `[255,255,0,0] + [255,255,0,0]`: register 1 gets `255 + 255 + 1`, which wraps to 255. That is below neither word, so the carry is lost and the result is `[254,255,0,0]` | a carry whenever `x + y + carry >= 256`, giving `[254,255,1,0]`, which is the sum modulo 2^32 | not executed | UStates.PlusLosesCarry | UStates.PlusIntendedValue |
| src/prng/gt2016.rs:94-96 | `for i in 1..l` absorbs `inputs[i-1]`, so only the first `l - 1` inputs are used | `refresh([x])` absorbs nothing; `refresh(xs + [x])` ignores `x` | every input absorbed, as the newer `src/prng/sprng.rs:94-99` does | not executed | Gt2016.LastInputIgnored | Sprng.SpongePrng.Refresh |
