/** The sponge-based PRNG of Gazi and Tessaro ("Provably Robust Sponge-Based
    PRNGs and KDFs", 2016), with the word type fixed to 64-bit unsigned
    integers.  The rate part of the sponge sits in the low `r` bits, the bits
    the mask covers; the capacity part is everything else. */
module Sprng {

  import opened Bits

  /** One sponge word (`U` fixed to `u64`). */
  type Word = x: int | 0 <= x < 0x1_0000_0000_0000_0000

  /** Bits in a word. */
  const Width: nat := 64

  lemma Pow2Width()
    ensures Pow2(Width) == 0x1_0000_0000_0000_0000
  {
    assert Pow2(4) == 0x10;
    Pow2Add(4, 4);
    assert Pow2(8) == 0x100;
    Pow2Add(8, 8);
    assert Pow2(16) == 0x1_0000;
    Pow2Add(16, 16);
    assert Pow2(32) == 0x1_0000_0000;
    Pow2Add(32, 32);
  }

  /** `x & y`. */
  function And(x: Word, y: Word): Word {
    Pow2Width();
    BitsBound(x, y, Width);
    AndBits(x, y, Width)
  }

  /** `x ^ y`. */
  function Xor(x: Word, y: Word): Word {
    Pow2Width();
    BitsBound(x, y, Width);
    XorBits(x, y, Width)
  }

  /** `x | y`. */
  function Or(x: Word, y: Word): Word {
    Pow2Width();
    BitsBound(x, y, Width);
    OrBits(x, y, Width)
  }

  /** `!x`. */
  function Not(x: Word): Word {
    Pow2Width();
    BitsBound(x, x, Width);
    NotBits(x, Width)
  }

  /** The mask setup computes, `(1 << r) - 1`: with `r` below the width the
      shift does not overflow and `1 << r` is `2^r`. */
  function LowMask(r: nat): Word
    requires r < 64
  {
    Pow2Width();
    Pow2Monotone(r, Width);
    Pow2(r) - 1
  }

  /** The mask has exactly the low `r` bits set. */
  lemma LowMaskBits(r: nat, i: nat)
    requires r < 64
    ensures Bit(LowMask(r), i) == if i < r then 1 else 0
  {
    LowOnesBits(r, i);
  }

  /** AND with the mask keeps the low `r` bits. */
  lemma AndLowMask(x: Word, r: nat)
    requires r < 64
    ensures And(x, LowMask(r)) == x % Pow2(r)
  {
    AndLowOnes(x, r, Width);
  }

  // ---------------------------------------------------------------------------
  // Absorbing inputs
  // ---------------------------------------------------------------------------

  /** The seed cursor one place on, wrapping to 0 at the end of the seed. */
  function Advance(j: nat, s: nat): (j': nat)
    requires j < s
    ensures j' < s
  {
    if j + 1 == s then 0 else j + 1
  }

  /** `(j + 1) % s`, as `refresh` computes it, is `Advance`. */
  lemma AdvanceMod(j: nat, s: nat)
    requires j < s
    ensures (j + 1) % s == Advance(j, s)
  {
    if j + 1 == s {
      ModUnique(j + 1, 1, 0, s);
    } else {
      ModUnique(j + 1, 0, j + 1, s);
    }
  }

  /** The cursor step of `refresh`, `(j + 1) % s`. */
  function NextCursor(j: nat, s: nat): (r: nat)
    requires j < s
    ensures r == Advance(j, s)
  {
    AdvanceMod(j, s);
    (j + 1) % s
  }

  /** The seed cursor after `n` absorptions starting from `j0`. */
  function Cursor(j0: nat, n: nat, s: nat): (j: nat)
    requires j0 < s
    ensures j < s
  {
    if n == 0 then j0 else Advance(Cursor(j0, n - 1, s), s)
  }

  /** The cursor moves `n` places modulo the seed length. */
  lemma {:induction false} CursorValue(j0: nat, n: nat, s: nat)
    requires j0 < s
    ensures Cursor(j0, n, s) == (j0 + n) % s
  {
    if n == 0 {
      ModUnique(j0, 0, j0, s);
    } else {
      CursorValue(j0, n - 1, s);
      ModSucc(j0 + n - 1, s);
      AdvanceMod(Cursor(j0, n - 1, s), s);
    }
  }

  lemma ModSucc(a: nat, n: nat)
    requires n > 0
    ensures (a % n + 1) % n == (a + 1) % n
  {
    var q := a / n;
    assert a == q * n + a % n;
    if a % n + 1 == n {
      ModUnique(a + 1, q + 1, 0, n);
      ModUnique(a % n + 1, 1, 0, n);
    } else {
      ModUnique(a + 1, q, a % n + 1, n);
      ModUnique(a % n + 1, 0, a % n + 1, n);
    }
  }

  lemma {:induction false} CursorConcat(j0: nat, n: nat, m: nat, s: nat)
    requires j0 < s
    ensures Cursor(j0, n + m, s) == Cursor(Cursor(j0, n, s), m, s)
  {
    if m > 0 {
      CursorConcat(j0, n, m - 1, s);
      assert Cursor(j0, n + m, s) == Advance(Cursor(j0, n + (m - 1), s), s);
    }
  }

  /** One absorption: the input, XOR-ed with the seed word under the cursor
      and cut to the rate bits by the mask, is XOR-ed into the state, which is
      then permuted. */
  function AbsorbOne(perm: Word -> Word, mask: Word, state: Word, x: Word, seedWord: Word): Word {
    perm(Xor(state, And(Xor(x, seedWord), mask)))
  }

  /** The state after absorbing `inputs` in order, the first one first, with
      the cursor starting at `j0`. */
  function Absorb(perm: Word -> Word, mask: Word, seed: seq<Word>, state: Word, j0: nat, inputs: seq<Word>): Word
    requires j0 < |seed|
    decreases |inputs|
  {
    if inputs == [] then state
    else
      var n := |inputs| - 1;
      AbsorbOne(perm, mask, Absorb(perm, mask, seed, state, j0, inputs[..n]), inputs[n], seed[Cursor(j0, n, |seed|)])
  }

  /** Absorbing one more input extends the fold by one step. */
  lemma AbsorbLast(perm: Word -> Word, mask: Word, seed: seq<Word>, state: Word, j0: nat, xs: seq<Word>, x: Word)
    requires j0 < |seed|
    ensures Absorb(perm, mask, seed, state, j0, xs + [x])
            == AbsorbOne(perm, mask, Absorb(perm, mask, seed, state, j0, xs), x, seed[Cursor(j0, |xs|, |seed|)])
  {
    assert (xs + [x])[..|xs|] == xs;
  }

  /** The fold over a prefix one input longer. */
  lemma AbsorbPrefix(perm: Word -> Word, mask: Word, seed: seq<Word>, state: Word, j0: nat, inputs: seq<Word>, i: nat)
    requires j0 < |seed| && i < |inputs|
    ensures Absorb(perm, mask, seed, state, j0, inputs[..i + 1])
            == AbsorbOne(perm, mask, Absorb(perm, mask, seed, state, j0, inputs[..i]), inputs[i], seed[Cursor(j0, i, |seed|)])
  {
    assert inputs[..i + 1][..i] == inputs[..i];
  }

  /** Absorbing `xs` and then `ys` is absorbing `xs + ys`: two refreshes in a
      row act as one over the concatenated inputs. */
  lemma {:induction false} AbsorbConcat(perm: Word -> Word, mask: Word, seed: seq<Word>, state: Word, j0: nat, xs: seq<Word>, ys: seq<Word>)
    requires j0 < |seed|
    ensures Absorb(perm, mask, seed, state, j0, xs + ys)
            == Absorb(perm, mask, seed, Absorb(perm, mask, seed, state, j0, xs), Cursor(j0, |xs|, |seed|), ys)
    decreases |ys|
  {
    if ys == [] {
      assert xs + ys == xs;
    } else {
      var front, y := ys[..|ys| - 1], ys[|ys| - 1];
      var mid, c := Absorb(perm, mask, seed, state, j0, xs), Cursor(j0, |xs|, |seed|);
      assert ys == front + [y];
      assert xs + ys == (xs + front) + [y];
      var before := Absorb(perm, mask, seed, state, j0, xs + front);
      assert before == Absorb(perm, mask, seed, mid, c, front) by {
        AbsorbConcat(perm, mask, seed, state, j0, xs, front);
      }
      assert seed[Cursor(j0, |xs + front|, |seed|)] == seed[Cursor(c, |front|, |seed|)] by {
        CursorConcat(j0, |xs|, |front|, |seed|);
      }
      AbsorbLast(perm, mask, seed, state, j0, xs + front, y);
      AbsorbLast(perm, mask, seed, mid, c, front, y);
    }
  }

  /** Every input with the bits outside `mask` cleared. */
  function MaskAll(inputs: seq<Word>, mask: Word): seq<Word> {
    seq(|inputs|, i requires 0 <= i < |inputs| => And(inputs[i], mask))
  }

  /** Masking an input before it is absorbed changes nothing. */
  lemma AbsorbOneMasked(perm: Word -> Word, mask: Word, state: Word, x: Word, seedWord: Word)
    ensures AbsorbOne(perm, mask, state, And(x, mask), seedWord) == AbsorbOne(perm, mask, state, x, seedWord)
  {
    AndXorAnd(x, seedWord, mask, Width);
  }

  /** Input bits outside the mask never reach the sponge. */
  lemma {:induction false} MaskedInputsIrrelevant(perm: Word -> Word, mask: Word, seed: seq<Word>, state: Word, j0: nat, inputs: seq<Word>)
    requires j0 < |seed|
    ensures Absorb(perm, mask, seed, state, j0, MaskAll(inputs, mask)) == Absorb(perm, mask, seed, state, j0, inputs)
    decreases |inputs|
  {
    if inputs != [] {
      var n := |inputs| - 1;
      var front, masked := inputs[..n], MaskAll(inputs, mask);
      assert masked[..n] == MaskAll(front, mask);
      MaskedInputsIrrelevant(perm, mask, seed, state, j0, front);
      AbsorbOneMasked(perm, mask, Absorb(perm, mask, seed, state, j0, front), inputs[n], seed[Cursor(j0, n, |seed|)]);
    }
  }

  // ---------------------------------------------------------------------------
  // Producing an output
  // ---------------------------------------------------------------------------

  /** The number of passes of a loop over `1..t`. */
  function Rounds(t: nat): (n: nat)
    ensures n + 1 == t || (t == 0 && n == 0)
  {
    if t >= 1 then t - 1 else 0
  }

  /** `rounds` passes of "permute, then clear the rate bits". */
  function Truncate(perm: Word -> Word, mask: Word, state: Word, rounds: nat): Word {
    if rounds == 0 then state else And(perm(Truncate(perm, mask, state, rounds - 1)), Not(mask))
  }

  /** After at least one truncation pass the rate bits are zero. */
  lemma TruncateClearsRate(perm: Word -> Word, mask: Word, state: Word, rounds: nat)
    requires rounds > 0
    ensures And(Truncate(perm, mask, state, rounds), mask) == 0
  {
    AndAndNot(perm(Truncate(perm, mask, state, rounds - 1)), mask, Width);
  }

  /** The output a draw yields: the rate bits of the permuted state, with no
      bit outside the mask. */
  function Output(perm: Word -> Word, mask: Word, state: Word): Word {
    And(perm(state), mask)
  }

  /** An output has no bit outside the mask. */
  lemma OutputInMask(perm: Word -> Word, mask: Word, state: Word)
    ensures And(Output(perm, mask, state), Not(mask)) == 0
  {
    AndNotAnd(perm(state), mask, Width);
  }

  /** With the mask of setup, the output is the permuted state modulo `2^r`. */
  lemma OutputLowBits(perm: Word -> Word, r: nat, state: Word)
    requires r < 64
    ensures Output(perm, LowMask(r), state) == perm(state) % Pow2(r)
  {
    AndLowMask(perm(state), r);
  }

  /** The state a draw leaves: permute, then `t - 1` truncation passes. */
  function NextState(perm: Word -> Word, mask: Word, t: nat, state: Word): Word {
    Truncate(perm, mask, perm(state), Rounds(t))
  }

  /** A draw after `n` truncation passes, `n` being `t - 1` (or 0). */
  lemma NextStateAfter(perm: Word -> Word, mask: Word, t: nat, state: Word, n: nat)
    requires n == Rounds(t)
    ensures NextState(perm, mask, t, state) == Truncate(perm, mask, perm(state), n)
  {
  }

  /** With two or more rounds a draw leaves the rate bits zero; with fewer it
      applies the permutation exactly once (`t == 0` acts like `t == 1`). */
  lemma NextStateRate(perm: Word -> Word, mask: Word, t: nat, state: Word)
    ensures t >= 2 ==> And(NextState(perm, mask, t, state), mask) == 0
    ensures t <= 1 ==> NextState(perm, mask, t, state) == perm(state)
  {
    if t >= 2 {
      TruncateClearsRate(perm, mask, perm(state), Rounds(t));
    }
  }

  /** A seed word as setup draws it: cut to the mask. */
  lemma SeedWordInMask(draw: Word, mask: Word)
    ensures And(And(draw, mask), Not(mask)) == 0
  {
    AndNotAnd(draw, mask, Width);
  }

  /** The initial state as setup forms it, `0 | (draw & !mask)`: the draw with
      the rate bits cleared. */
  lemma InitialState(draw: Word, mask: Word)
    ensures Or(0, And(draw, Not(mask))) == And(draw, Not(mask))
    ensures And(And(draw, Not(mask)), mask) == 0
  {
    Pow2Width();
    OrBitsZero(And(draw, Not(mask)), Width);
    AndAndNot(draw, mask, Width);
  }

  // ---------------------------------------------------------------------------
  // The generator object
  // ---------------------------------------------------------------------------

  /** `SPRNG<u64>`.  The random words setup draws are the constructor's
      `draws` parameter: the first `s` become the seed, the last one the
      capacity part of the initial state. */
  class SpongePrng {
    /** Permutation rounds of `next`. */
    const t: nat
    /** Length of the seed vector. */
    const s: nat
    /** The low `r` bits: the rate part. */
    const mask: Word
    /** The caller's permutation. */
    const perm: Word -> Word
    const seed: seq<Word>
    /** The sponge. */
    var state: Word
    /** Cursor into the seed. */
    var j: nat

    /** What setup fixes: at least two seed words, each inside the mask. */
    ghost predicate SeedInMask() {
      s > 1 && |seed| == s
      && forall k :: 0 <= k < |seed| ==> And(seed[k], Not(mask)) == 0
    }

    ghost predicate Valid()
      reads this
    {
      SeedInMask() && j < s
    }

    /** `new`: it panics unless there are four parameters `[n, r, t, s]` with
        `r <= n` and `s > 1`; with a 64-bit word `r` must also be below 64. */
    constructor New(params: seq<nat>, func: Word -> Word, draws: seq<Word>)
      requires |params| == 4
      requires params[1] <= params[0] && params[3] > 1
      requires params[1] < 64
      requires |draws| == params[3] + 1
      ensures Valid()
      ensures t == params[2] && s == params[3] && perm == func
      ensures mask == LowMask(params[1])
      ensures forall k :: 0 <= k < s ==> seed[k] == And(draws[k], mask)
      ensures state == And(draws[s], Not(mask)) && And(state, mask) == 0
      ensures j == 1
    {
      var r, rounds, size := params[1], params[2], params[3];
      var m := LowMask(r);
      var seedVec: seq<Word> := [];
      for i := 0 to size
        invariant |seedVec| == i
        invariant forall k :: 0 <= k < i ==> seedVec[k] == And(draws[k], m)
        invariant forall k :: 0 <= k < i ==> And(seedVec[k], Not(m)) == 0
      {
        SeedWordInMask(draws[i], m);
        seedVec := seedVec + [And(draws[i], m)];
      }
      var st: Word := 0;
      st := Or(st, And(draws[size], Not(m)));
      InitialState(draws[size], m);
      t, s, j, mask, perm, seed, state := rounds, size, 1, m, func, seedVec, st;
    }

    /** `get_params`: `[t, s]`. */
    function GetParams(): (p: seq<nat>)
      ensures |p| == 2 && p[0] == t && p[1] == s
    {
      [t, s]
    }

    /** `get_seed`: a copy of the seed, every word inside the mask. */
    function GetSeed(): (r: seq<Word>)
      reads this
      requires Valid()
      ensures r == seed && |r| == s
      ensures forall k :: 0 <= k < |r| ==> And(r[k], Not(mask)) == 0
    {
      seed
    }

    /** `get_mask`. */
    function GetMask(): (m: Word)
      ensures m == mask
    {
      mask
    }

    /** `refresh`: it panics on an empty input list; otherwise it absorbs
        every input in order, cycling through the seed. */
    method Refresh(inputs: seq<Word>)
      requires Valid()
      requires |inputs| > 0
      modifies this
      ensures Valid()
      ensures state == Absorb(perm, mask, seed, old(state), old(j), inputs)
      ensures j == Cursor(old(j), |inputs|, s) == (old(j) + |inputs|) % s
    {
      ghost var state0, j0 := state, j;
      for i := 0 to |inputs|
        invariant Valid()
        invariant state == Absorb(perm, mask, seed, state0, j0, inputs[..i])
        invariant j == Cursor(j0, i, s)
      {
        AbsorbPrefix(perm, mask, seed, state0, j0, inputs, i);
        state := perm(Xor(state, And(Xor(inputs[i], seed[j]), mask)));
        j := NextCursor(j, s);
      }
      assert inputs[..|inputs|] == inputs;
      CursorValue(j0, |inputs|, s);
    }

    /** `next`: permute, output the rate bits, run `t - 1` passes of
        "permute and clear the rate bits", and reset the cursor to 1. */
    method Next() returns (out: Word)
      requires Valid()
      modifies this
      ensures Valid()
      ensures out == Output(perm, mask, old(state))
      ensures state == NextState(perm, mask, t, old(state))
      ensures t >= 2 ==> And(state, mask) == 0
      ensures t <= 1 ==> state == perm(old(state))
      ensures And(out, Not(mask)) == 0
      ensures j == 1
    {
      ghost var state0 := state;
      state := perm(state);
      out := And(state, mask);
      ghost var permuted := state;
      var k := 1;
      while k < t
        invariant 1 <= k <= if t >= 1 then t else 1
        invariant state == Truncate(perm, mask, permuted, k - 1)
      {
        state := perm(state);
        state := And(state, Not(mask));
        k := k + 1;
      }
      j := 1;
      NextStateAfter(perm, mask, t, state0, k - 1);
      NextStateRate(perm, mask, t, state0);
      OutputInMask(perm, mask, state0);
    }
  }
}
