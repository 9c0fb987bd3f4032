/** The older copy of the sponge PRNG.  Setup, `next` and the getters behave
    as in `Sprng`; `refresh` differs: its loop runs over `1..l` and absorbs
    `inputs[i - 1]`, so the last input is never absorbed and it takes an
    empty input list without complaint. */
module Gt2016 {

  import opened Sprng

  /** The inputs the `refresh` loop absorbs: all but the last one. */
  function AbsorbedInputs(inputs: seq<Word>): seq<Word> {
    inputs[..Rounds(|inputs|)]
  }

  /** The last input never matters: whatever it is, what is absorbed is the
      inputs before it. */
  lemma LastInputIgnored(xs: seq<Word>, x: Word)
    ensures AbsorbedInputs(xs + [x]) == xs
  {
    assert (xs + [x])[..|xs|] == xs;
  }

  /** With at most one input `refresh` changes neither the state nor the
      cursor. */
  lemma ShortInputsIgnored(perm: Word -> Word, mask: Word, seed: seq<Word>,
                           state: Word, j0: nat, inputs: seq<Word>)
    requires j0 < |seed|
    ensures |inputs| <= 1 ==>
      Absorb(perm, mask, seed, state, j0, AbsorbedInputs(inputs)) == state
      && Cursor(j0, Rounds(|inputs|), |seed|) == j0
  {
    if |inputs| <= 1 {
      assert AbsorbedInputs(inputs) == [];
    }
  }

  /** `SPRNG<u64>` of the older copy; the random words setup draws are the
      constructor's `draws` parameter, as in `Sprng.SpongePrng`. */
  class GtSponge {
    const t: nat
    const s: nat
    const mask: Word
    const perm: Word -> Word
    const seed: seq<Word>
    var state: Word
    var j: nat

    /** What setup fixes: at least two seed words, each inside the mask. */
    ghost predicate SeedInMask() {
      s > 1 && |seed| == s
      && forall k :: 0 <= k < |seed| ==> And(seed[k], Not(mask)) == 0
    }

    ghost predicate Valid()
      reads this
    {
      SeedInMask() && j < s
    }

    /** `setup`: it panics unless there are four parameters `[n, r, t, s]`
        with `r <= n` and `s > 1`; with a 64-bit word `r` must also be below 64. */
    constructor Setup(params: seq<nat>, func: Word -> Word, draws: seq<Word>)
      requires |params| == 4
      requires params[1] <= params[0] && params[3] > 1
      requires params[1] < 64
      requires |draws| == params[3] + 1
      ensures Valid()
      ensures t == params[2] && s == params[3] && perm == func
      ensures mask == LowMask(params[1])
      ensures forall k :: 0 <= k < s ==> seed[k] == And(draws[k], mask)
      ensures state == And(draws[s], Not(mask)) && And(state, mask) == 0
      ensures j == 1
    {
      var r, rounds, size := params[1], params[2], params[3];
      var m := LowMask(r);
      var seedVec: seq<Word> := [];
      for i := 0 to size
        invariant |seedVec| == i
        invariant forall k :: 0 <= k < i ==> seedVec[k] == And(draws[k], m)
        invariant forall k :: 0 <= k < i ==> And(seedVec[k], Not(m)) == 0
      {
        SeedWordInMask(draws[i], m);
        seedVec := seedVec + [And(draws[i], m)];
      }
      var st: Word := 0;
      st := Or(st, And(draws[size], Not(m)));
      InitialState(draws[size], m);
      t, s, j, mask, perm, seed, state := rounds, size, 1, m, func, seedVec, st;
    }

    /** `get_params`: `[t, s]`. */
    function GetParams(): (p: seq<nat>)
      ensures |p| == 2 && p[0] == t && p[1] == s
    {
      [t, s]
    }

    /** `get_seed`: a copy of the seed, every word inside the mask. */
    function GetSeed(): (r: seq<Word>)
      reads this
      requires Valid()
      ensures r == seed && |r| == s
      ensures forall k :: 0 <= k < |r| ==> And(r[k], Not(mask)) == 0
    {
      seed
    }

    /** `get_mask`. */
    function GetMask(): (m: Word)
      ensures m == mask
    {
      mask
    }

    /** `refresh`: `l - 1` absorptions (none for `l <= 1`), each of the
        input before the loop index, cycling through the seed. */
    method Refresh(inputs: seq<Word>)
      requires Valid()
      modifies this
      ensures Valid()
      ensures state == Absorb(perm, mask, seed, old(state), old(j), AbsorbedInputs(inputs))
      ensures j == Cursor(old(j), Rounds(|inputs|), s) == (old(j) + Rounds(|inputs|)) % s
      ensures |inputs| <= 1 ==> state == old(state) && j == old(j)
    {
      ghost var state0, j0 := state, j;
      var l := |inputs|;
      var i := 1;
      while i < l
        invariant 1 <= i <= if l >= 1 then l else 1
        invariant Valid()
        invariant state == Absorb(perm, mask, seed, state0, j0, inputs[..i - 1])
        invariant j == Cursor(j0, i - 1, s)
      {
        AbsorbPrefix(perm, mask, seed, state0, j0, inputs, i - 1);
        state := perm(Xor(state, And(Xor(inputs[i - 1], seed[j]), mask)));
        j := NextCursor(j, s);
        i := i + 1;
      }
      ghost var n := i - 1;
      assert n == Rounds(l);
      ShortInputsIgnored(perm, mask, seed, state0, j0, inputs);
      assert j == Cursor(j0, Rounds(|inputs|), s);
      CursorValue(j0, Rounds(|inputs|), s);
    }

    /** `next`: as in `Sprng.SpongePrng.Next`. */
    method Next() returns (out: Word)
      requires Valid()
      modifies this
      ensures Valid()
      ensures out == Output(perm, mask, old(state))
      ensures state == NextState(perm, mask, t, old(state))
      ensures t >= 2 ==> And(state, mask) == 0
      ensures t <= 1 ==> state == perm(old(state))
      ensures And(out, Not(mask)) == 0
      ensures j == 1
    {
      ghost var state0 := state;
      state := perm(state);
      out := And(state, mask);
      ghost var permuted := state;
      var k := 1;
      while k < t
        invariant 1 <= k <= if t >= 1 then t else 1
        invariant state == Truncate(perm, mask, permuted, k - 1)
      {
        state := perm(state);
        state := And(state, Not(mask));
        k := k + 1;
      }
      j := 1;
      NextStateAfter(perm, mask, t, state0, k - 1);
      NextStateRate(perm, mask, t, state0);
      OutputInMask(perm, mask, state0);
    }
  }
}
