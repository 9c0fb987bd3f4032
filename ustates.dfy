/** Four-register unsigned integers (`Ux4`), with the register type fixed to
    8-bit unsigned words.  Register 0 is the least significant one, so a value
    spells the integer `r0 + 2^8 r1 + 2^16 r2 + 2^24 r3`, and its arithmetic
    wraps modulo 2^32. */
module UStates {

  import opened Bits

  /** The number of values four registers hold together, 2^32. */
  const Modulus: int := 0x1_0000_0000

  /** One 8-bit register. */
  type Word = x: int | 0 <= x < 0x100

  /** Four registers as an array, least significant first (`[U; 4]`). */
  type Regs = s: seq<Word> | |s| == 4 witness [0, 0, 0, 0]

  /** The four-register value, least significant register first. */
  datatype Ux4 = Ux4(r0: Word, r1: Word, r2: Word, r3: Word)

  /** Register `i`. */
  function Reg(a: Ux4, i: nat): Word
    requires i < 4
  {
    if i == 0 then a.r0 else if i == 1 then a.r1 else if i == 2 then a.r2 else a.r3
  }

  /** The unsigned integer the four registers spell. */
  function Value(a: Ux4): (v: int)
    ensures 0 <= v < Modulus
  {
    a.r0 as int + 0x100 * (a.r1 as int + 0x100 * (a.r2 as int + 0x100 * a.r3 as int))
  }

  /** The low digit in base 2^8 and the rest are determined by the number. */
  lemma DigitStep(x0: int, x: int, y0: int, y: int)
    requires 0 <= x0 < 0x100 && 0 <= y0 < 0x100
    requires x0 + 0x100 * x == y0 + 0x100 * y
    ensures x0 == y0 && x == y
  {
    assert x0 - y0 == 0x100 * (y - x);
  }

  /** Distinct register contents spell distinct integers. */
  lemma ValueInjective(a: Ux4, b: Ux4)
    ensures Value(a) == Value(b) <==> a == b
  {
    if Value(a) == Value(b) {
      var x2, y2 := a.r2 as int + 0x100 * a.r3 as int, b.r2 as int + 0x100 * b.r3 as int;
      var x1, y1 := a.r1 as int + 0x100 * x2, b.r1 as int + 0x100 * y2;
      DigitStep(a.r0, x1, b.r0, y1);
      DigitStep(a.r1, x2, b.r1, y2);
      DigitStep(a.r2, a.r3, b.r2, b.r3);
    }
  }

  /** `x`, known to be `s + d + 2^32 t`, leaves `s` modulo 2^32 exactly when `d` is 0. */
  lemma ModulusSplit(x: int, s: int, d: int, t: int)
    requires 0 <= s < Modulus && 0 <= d < Modulus
    requires x == s + d + Modulus * t
    ensures x % Modulus == s <==> d == 0
  {
    if d == 0 {
      assert x == s + Modulus * t;
    } else if s + d < Modulus {
      assert x % Modulus == s + d;
    } else {
      assert x - Modulus * (t + 1) == s + d - Modulus;
    }
  }

  /** Reducing one summand first does not change the sum modulo 2^32. */
  lemma ModAddLeft(x: int, y: int)
    ensures ((x % Modulus) + y) % Modulus == (x + y) % Modulus
  {
    var q := x / Modulus;
    assert x == q * Modulus + x % Modulus;
    assert (x % Modulus) + y == (x + y) + Modulus * (-q);
  }

  // ---------------------------------------------------------------------------
  // Bitwise operations on one register
  // ---------------------------------------------------------------------------

  /** `!x` on an 8-bit word. */
  function WordNot(x: Word): Word {
    0xFF - x
  }

  /** `x & y` on 8-bit words. */
  function WordAnd(x: Word, y: Word): Word {
    assert Pow2(8) == 0x100;
    BitsBound(x, y, 8);
    AndBits(x, y, 8)
  }

  /** `x ^ y` on 8-bit words. */
  function WordXor(x: Word, y: Word): Word {
    assert Pow2(8) == 0x100;
    BitsBound(x, y, 8);
    XorBits(x, y, 8)
  }

  // ---------------------------------------------------------------------------
  // Construction and access
  // ---------------------------------------------------------------------------

  /** `new`: the value holding the given registers. */
  function New(state: Regs): (r: Ux4)
    ensures forall i :: 0 <= i < 4 ==> Reg(r, i) == state[i]
  {
    Ux4(state[0], state[1], state[2], state[3])
  }

  /** `get`: a copy of the four registers. */
  function Get(a: Ux4): (r: Regs)
    ensures forall i :: 0 <= i < 4 ==> r[i] == Reg(a, i)
  {
    [a.r0, a.r1, a.r2, a.r3]
  }

  /** `set`: the value after its registers are overwritten with `regs`; the
      previous registers play no part. */
  function Set(a: Ux4, regs: Regs): (r: Ux4)
    ensures Get(r) == regs
  {
    New(regs)
  }

  /** `new` and `get` are inverse to each other. */
  lemma NewGetRoundTrip(a: Ux4, regs: Regs)
    ensures New(Get(a)) == a
    ensures Get(New(regs)) == regs
  {
  }

  /** `zero`: every register 0. */
  function Zero(): (r: Ux4)
    ensures forall i :: 0 <= i < 4 ==> Reg(r, i) == 0
  {
    Ux4(0, 0, 0, 0)
  }

  lemma ZeroValue()
    ensures Value(Zero()) == 0
  {
  }

  /** `from(u8)`: the byte in register 0, zero elsewhere. */
  function From(b: Word): (r: Ux4)
    ensures Reg(r, 0) == b && Reg(r, 1) == 0 && Reg(r, 2) == 0 && Reg(r, 3) == 0
  {
    Ux4(b, 0, 0, 0)
  }

  /** The byte keeps its value. */
  lemma FromValue(b: Word)
    ensures Value(From(b)) == b
  {
  }

  // ---------------------------------------------------------------------------
  // Bitwise operations on four registers: register by register, no carry
  // ---------------------------------------------------------------------------

  function Not(a: Ux4): (r: Ux4)
    ensures forall i :: 0 <= i < 4 ==> Reg(r, i) == WordNot(Reg(a, i))
  {
    Ux4(WordNot(a.r0), WordNot(a.r1), WordNot(a.r2), WordNot(a.r3))
  }

  /** Flipping every bit of the four registers reflects the value. */
  lemma NotValue(a: Ux4)
    ensures Value(Not(a)) == Modulus - 1 - Value(a)
  {
  }

  function And(a: Ux4, b: Ux4): (r: Ux4)
    ensures forall i :: 0 <= i < 4 ==> Reg(r, i) == WordAnd(Reg(a, i), Reg(b, i))
  {
    Ux4(WordAnd(a.r0, b.r0), WordAnd(a.r1, b.r1), WordAnd(a.r2, b.r2), WordAnd(a.r3, b.r3))
  }

  function Xor(a: Ux4, b: Ux4): (r: Ux4)
    ensures forall i :: 0 <= i < 4 ==> Reg(r, i) == WordXor(Reg(a, i), Reg(b, i))
  {
    Ux4(WordXor(a.r0, b.r0), WordXor(a.r1, b.r1), WordXor(a.r2, b.r2), WordXor(a.r3, b.r3))
  }

  lemma NotInvolutive(a: Ux4)
    ensures Not(Not(a)) == a
  {
  }

  lemma XorSelf(a: Ux4)
    ensures Xor(a, a) == Zero()
  {
    XorBitsSelf(a.r0, 8);
    XorBitsSelf(a.r1, 8);
    XorBitsSelf(a.r2, 8);
    XorBitsSelf(a.r3, 8);
  }

  lemma AndZero(a: Ux4)
    ensures And(a, Zero()) == Zero()
  {
    AndBitsZero(a.r0, 8);
    AndBitsZero(a.r1, 8);
    AndBitsZero(a.r2, 8);
    AndBitsZero(a.r3, 8);
  }

  // ---------------------------------------------------------------------------
  // Addition, as the ripple-carry loop computes it
  // ---------------------------------------------------------------------------

  /** The wrapping sum of two words and a carry. */
  function WrappingSum(x: Word, y: Word, c: Word): Word {
    (x as int + y as int + c as int) % 0x100
  }

  /** The carry the addition loop passes on from one register: 1 when the
      wrapped sum is below either operand word. */
  function CarryOut(x: Word, y: Word, c: Word): Word {
    var sum := WrappingSum(x, y, c);
    if sum < x || sum < y then 1 else 0
  }

  /** 1 in the one case where the carry rule misses a carry: both words are
      all-ones and the carry coming in is 1. */
  function LostCarry(x: Word, y: Word, c: Word): int {
    if x == 0xFF && y == 0xFF && c == 1 then 1 else 0
  }

  /** The carry rule is right except in the lost-carry case. */
  lemma CarryOutCorrect(x: Word, y: Word, c: Word)
    requires c <= 1
    ensures CarryOut(x, y, c) <= 1
    ensures CarryOut(x, y, c) as int == (x as int + y as int + c as int) / 0x100 - LostCarry(x, y, c)
  {
  }

  /** One register of the loop: the words and the carry in are the wrapped
      sum plus 2^8 times the carry out and the carry it misses. */
  lemma AddStep(x: Word, y: Word, c: Word)
    requires c <= 1
    ensures x as int + y as int + c as int
            == WrappingSum(x, y, c) as int + 0x100 * (CarryOut(x, y, c) as int + LostCarry(x, y, c))
  {
    CarryOutCorrect(x, y, c);
  }

  /** The carries out of registers 0, 1, 2 and 3 (the last is discarded). */
  function Carry1(a: Ux4, b: Ux4): Word {
    CarryOut(a.r0, b.r0, 0)
  }

  function Carry2(a: Ux4, b: Ux4): Word {
    CarryOut(a.r1, b.r1, Carry1(a, b))
  }

  function Carry3(a: Ux4, b: Ux4): Word {
    CarryOut(a.r2, b.r2, Carry2(a, b))
  }

  function Carry4(a: Ux4, b: Ux4): Word {
    CarryOut(a.r3, b.r3, Carry3(a, b))
  }

  /** The carry entering register `i` (for `i == 4`, the carry out of
      register 3). */
  function CarryIn(a: Ux4, b: Ux4, i: nat): (c: Word)
    requires i <= 4
    ensures c <= 1
  {
    if i == 0 then 0 else if i == 1 then Carry1(a, b) else if i == 2 then Carry2(a, b)
    else if i == 3 then Carry3(a, b) else Carry4(a, b)
  }

  /** The value `a + b` returns. */
  function Plus(a: Ux4, b: Ux4): Ux4 {
    Ux4(WrappingSum(a.r0, b.r0, 0), WrappingSum(a.r1, b.r1, Carry1(a, b)),
        WrappingSum(a.r2, b.r2, Carry2(a, b)), WrappingSum(a.r3, b.r3, Carry3(a, b)))
  }

  /** Register `i` of the sum is the wrapped sum of both words and the carry in. */
  lemma PlusAt(a: Ux4, b: Ux4, i: nat)
    requires i < 4
    ensures Reg(Plus(a, b), i) == WrappingSum(Reg(a, i), Reg(b, i), CarryIn(a, b, i))
  {
  }

  /** No register below the top one has both words all-ones and an incoming
      carry of 1 (a carry lost out of register 3 is discarded anyway). */
  predicate CarrySafe(a: Ux4, b: Ux4) {
    LostCarry(a.r1, b.r1, Carry1(a, b)) == 0 && LostCarry(a.r2, b.r2, Carry2(a, b)) == 0
  }

  /** Four ripple-carry steps, on plain integers: the sum is right modulo
      2^32 exactly when no carry is missed in registers 1 and 2. */
  lemma RippleSum(x0: int, x1: int, x2: int, x3: int, y0: int, y1: int, y2: int, y3: int,
                  s0: int, s1: int, s2: int, s3: int, c1: int, c2: int, c3: int, c4: int,
                  l1: int, l2: int, l3: int, x: int, y: int, s: int)
    requires x == x0 + 0x100 * (x1 + 0x100 * (x2 + 0x100 * x3))
    requires y == y0 + 0x100 * (y1 + 0x100 * (y2 + 0x100 * y3))
    requires s == s0 + 0x100 * (s1 + 0x100 * (s2 + 0x100 * s3)) && 0 <= s < Modulus
    requires x0 + y0 == s0 + 0x100 * c1
    requires x1 + y1 + c1 == s1 + 0x100 * (c2 + l1)
    requires x2 + y2 + c2 == s2 + 0x100 * (c3 + l2)
    requires x3 + y3 + c3 == s3 + 0x100 * (c4 + l3)
    requires 0 <= l1 <= 1 && 0 <= l2 <= 1
    ensures (x + y) % Modulus == s <==> l1 == 0 && l2 == 0
  {
    var lost := 0x1_0000 * l1 + 0x100_0000 * l2;
    assert x + y == s + lost + Modulus * (c4 + l3);
    ModulusSplit(x + y, s, lost, c4 + l3);
  }

  /** The four register steps of `a + b`, each as `AddStep` states it. */
  lemma PlusSteps(a: Ux4, b: Ux4, p: Ux4)
    requires p == Plus(a, b)
    ensures a.r0 as int + b.r0 as int == p.r0 as int + 0x100 * Carry1(a, b) as int
    ensures a.r1 as int + b.r1 as int + Carry1(a, b) as int
            == p.r1 as int + 0x100 * (Carry2(a, b) as int + LostCarry(a.r1, b.r1, Carry1(a, b)))
    ensures a.r2 as int + b.r2 as int + Carry2(a, b) as int
            == p.r2 as int + 0x100 * (Carry3(a, b) as int + LostCarry(a.r2, b.r2, Carry2(a, b)))
    ensures a.r3 as int + b.r3 as int + Carry3(a, b) as int
            == p.r3 as int + 0x100 * (Carry4(a, b) as int + LostCarry(a.r3, b.r3, Carry3(a, b)))
  {
    AddStep(a.r0, b.r0, 0);
    AddStep(a.r1, b.r1, Carry1(a, b));
    AddStep(a.r2, b.r2, Carry2(a, b));
    AddStep(a.r3, b.r3, Carry3(a, b));
  }

  /** The loop's sum is the sum modulo 2^32 exactly when no carry is lost. */
  lemma PlusValue(a: Ux4, b: Ux4)
    ensures Value(Plus(a, b)) == (Value(a) + Value(b)) % Modulus <==> CarrySafe(a, b)
  {
    var p := Plus(a, b);
    PlusSteps(a, b, p);
    var c1, c2, c3, c4 := Carry1(a, b), Carry2(a, b), Carry3(a, b), Carry4(a, b);
    RippleSum(a.r0, a.r1, a.r2, a.r3, b.r0, b.r1, b.r2, b.r3, p.r0, p.r1, p.r2, p.r3,
              c1, c2, c3, c4, LostCarry(a.r1, b.r1, c1), LostCarry(a.r2, b.r2, c2),
              LostCarry(a.r3, b.r3, c3), Value(a), Value(b), Value(p));
  }

  /** A right operand whose upper three registers are zero never loses a carry. */
  lemma CarrySafeSmall(a: Ux4, b: Ux4)
    requires b.r1 == 0 && b.r2 == 0 && b.r3 == 0
    ensures CarrySafe(a, b)
  {
  }

  /** The carry rule treats both operands alike, so addition commutes. */
  lemma PlusCommutes(a: Ux4, b: Ux4)
    ensures Plus(a, b) == Plus(b, a)
  {
    assert Carry1(a, b) == Carry1(b, a);
    assert Carry2(a, b) == Carry2(b, a);
  }

  lemma PlusZero(a: Ux4)
    ensures Plus(a, Zero()) == a && Plus(Zero(), a) == a
  {
    assert Carry1(a, Zero()) == 0 && Carry1(Zero(), a) == 0;
    assert Carry2(a, Zero()) == 0 && Carry2(Zero(), a) == 0;
    assert Carry3(a, Zero()) == 0 && Carry3(Zero(), a) == 0;
  }

  /** `[1,0,0,0] + [1,0,0,0] == [2,0,0,0]` and `[255,0,0,0] + [1,0,0,0] ==
      [0,1,0,0]`: the carry ripples into register 1. */
  lemma PlusExamples()
    ensures Plus(Ux4(1, 0, 0, 0), Ux4(1, 0, 0, 0)) == Ux4(2, 0, 0, 0)
    ensures Plus(Ux4(0xFF, 0, 0, 0), Ux4(1, 0, 0, 0)) == Ux4(0, 1, 0, 0)
  {
  }

  /** `Add`: the ripple-carry loop over a four-register result buffer. */
  method Add(a: Ux4, b: Ux4) returns (r: Ux4)
    ensures r == Plus(a, b)
    ensures Value(r) == (Value(a) + Value(b)) % Modulus <==> CarrySafe(a, b)
  {
    var result := new Word[4](_ => 0);
    var carry: Word := 0;
    for i := 0 to 4
      invariant carry == CarryIn(a, b, i)
      invariant forall k :: 0 <= k < i ==> result[k] == Reg(Plus(a, b), k)
    {
      PlusAt(a, b, i);
      var sum := (Reg(a, i) as int + Reg(b, i) as int + carry as int) % 0x100;
      result[i] := sum;
      carry := if sum < Reg(a, i) || sum < Reg(b, i) then 1 else 0;
    }
    r := Ux4(result[0], result[1], result[2], result[3]);
    PlusValue(a, b);
  }

  // ---------------------------------------------------------------------------
  // Subtraction through the two's complement
  // ---------------------------------------------------------------------------

  /** The value `[1, 0, 0, 0]`. */
  const One: Ux4 := Ux4(1, 0, 0, 0)

  /** The two's complement of `b` as `sub` forms it: `!b + [1,0,0,0]`. */
  function Negate(b: Ux4): Ux4 {
    Plus(Not(b), One)
  }

  /** `a - b`, computed as `a + (!b + [1,0,0,0])`. */
  function Sub(a: Ux4, b: Ux4): Ux4 {
    Plus(a, Negate(b))
  }

  /** `Negate(b)` is the additive inverse of `b` modulo 2^32: it spells
      `2^32 - b`, or 0 when `b` is 0. */
  lemma NegateValue(b: Ux4)
    ensures Value(Negate(b)) == if Value(b) == 0 then 0 else Modulus - Value(b)
    ensures (Value(b) + Value(Negate(b))) % Modulus == 0
  {
    NotValue(b);
    CarrySafeSmall(Not(b), One);
    PlusValue(Not(b), One);
    assert Value(Negate(b)) == (Modulus - Value(b)) % Modulus;
    if Value(b) == 0 {
      ModulusSplit(Modulus, 0, 0, 1);
    } else {
      ModulusSplit(Modulus - Value(b), Modulus - Value(b), 0, 0);
      ModulusSplit(Modulus, 0, 0, 1);
    }
  }

  lemma SubZero(a: Ux4)
    ensures Sub(a, Zero()) == a
  {
    ZeroValue();
    NegateValue(Zero());
    ValueInjective(Negate(Zero()), Zero());
    PlusZero(a);
  }

  /** Adding `2^32 - y` (or 0 when `y` is 0) and subtracting `y` agree modulo 2^32. */
  lemma SubMod(x: int, y: int, n: int)
    requires 0 <= x < Modulus && 0 <= y < Modulus
    requires n == if y == 0 then 0 else Modulus - y
    ensures (x + n) % Modulus == (x - y) % Modulus
  {
    if y == 0 {
    } else if x >= y {
      ModulusSplit(x + n, x - y, 0, 1);
      ModulusSplit(x - y, x - y, 0, 0);
    } else {
      ModulusSplit(x + n, x + n, 0, 0);
      ModulusSplit(x - y, x + n, 0, -1);
    }
  }

  /** Subtraction is right modulo 2^32 exactly when adding the complement
      loses no carry. */
  lemma SubValue(a: Ux4, b: Ux4)
    ensures Value(Sub(a, b)) == (Value(a) - Value(b)) % Modulus <==> CarrySafe(a, Negate(b))
  {
    NegateValue(b);
    SubMod(Value(a), Value(b), Value(Negate(b)));
    PlusValue(a, Negate(b));
  }

  // ---------------------------------------------------------------------------
  // Left shift, one bit per pass
  // ---------------------------------------------------------------------------

  /** `(x << 1) + carry` on an 8-bit word with a one-bit carry: the top bit
      of `x` falls off and the carry fills the freed low bit. */
  function ShiftIn(x: Word, carry: Word): Word
    requires carry <= 1
  {
    (2 * x as int) % 0x100 + carry as int
  }

  /** Register `i` after one pass: shifted left by one with the top bit of
      the register below carried into its low bit. */
  function ShiftedWord(a: Ux4, i: nat): Word
    requires i < 4
  {
    ShiftIn(Reg(a, i), if i == 0 then 0 else Reg(a, i - 1) / 0x80)
  }

  /** One register of a pass: twice the word is the shifted word plus 2^8
      times the bit shifted out. */
  lemma ShiftStep(x: Word)
    ensures 2 * x as int == (2 * x as int) % 0x100 + 0x100 * (x as int / 0x80)
    ensures x as int / 0x80 <= 1
  {
  }

  /** One pass of the outer shift loop; the top bit of register 3 is dropped. */
  function ShiftOnce(a: Ux4): Ux4 {
    Ux4(ShiftedWord(a, 0), ShiftedWord(a, 1), ShiftedWord(a, 2), ShiftedWord(a, 3))
  }

  /** One pass doubles the value modulo 2^32. */
  lemma ShiftOnceValue(a: Ux4)
    ensures Value(ShiftOnce(a)) == (2 * Value(a)) % Modulus
  {
    ShiftStep(a.r0);
    ShiftStep(a.r1);
    ShiftStep(a.r2);
    ShiftStep(a.r3);
    assert 2 * Value(a) == Value(ShiftOnce(a)) + Modulus * (a.r3 as int / 0x80);
    ModulusSplit(2 * Value(a), Value(ShiftOnce(a)), 0, a.r3 as int / 0x80);
  }

  /** `n` passes of the shift loop. */
  function ShlBy(a: Ux4, n: nat): Ux4 {
    if n == 0 then a else ShiftOnce(ShlBy(a, n - 1))
  }

  lemma DoubleMod(x: int, p: nat)
    ensures (2 * ((x * p) % Modulus)) % Modulus == (x * (2 * p)) % Modulus
  {
    var m := x * p;
    assert x * (2 * p) == 2 * m;
    ModAddLeft(m, m % Modulus);
    ModAddLeft(m, m);
  }

  /** Shifting by `n` multiplies by 2^n modulo 2^32. */
  lemma {:induction false} ShlByValue(a: Ux4, n: nat)
    ensures Value(ShlBy(a, n)) == (Value(a) * Pow2(n)) % Modulus
  {
    if n > 0 {
      ShlByValue(a, n - 1);
      ShiftOnceValue(ShlBy(a, n - 1));
      DoubleMod(Value(a), Pow2(n - 1));
    }
  }

  lemma ShlByZero(a: Ux4)
    ensures ShlBy(a, 0) == a
  {
  }

  lemma {:induction false} ShlByCompose(a: Ux4, p: nat, q: nat)
    ensures ShlBy(a, p + q) == ShlBy(ShlBy(a, p), q)
  {
    if q > 0 {
      ShlByCompose(a, p, q - 1);
    }
  }

  /** A shift is determined by its value: `a << n` is `f` whenever `a`
      times 2^n is `f` plus a multiple of 2^32. */
  lemma ShlByFromValue(a: Ux4, n: nat, f: Ux4, t: int)
    requires Value(a) * Pow2(n) == Value(f) + Modulus * t
    ensures ShlBy(a, n) == f
  {
    ShlByValue(a, n);
    ModulusSplit(Value(a) * Pow2(n), Value(f), 0, t);
    ValueInjective(ShlBy(a, n), f);
  }

  /** Eight single-bit passes move every register up one place. */
  lemma ShlByWord(a: Ux4)
    ensures ShlBy(a, 8) == Ux4(0, a.r0, a.r1, a.r2)
  {
    assert Pow2(8) == 0x100;
    ShlByFromValue(a, 8, Ux4(0, a.r0, a.r1, a.r2), a.r3);
  }

  /** The plain shift cases: `[1,1,1,1] << 1`, `[127,127,127,127] << 1` and
      `[1,2,4,8] << 4`. */
  lemma ShlExamples()
    ensures ShlBy(Ux4(1, 1, 1, 1), 1) == Ux4(2, 2, 2, 2)
    ensures ShlBy(Ux4(127, 127, 127, 127), 1) == Ux4(254, 254, 254, 254)
    ensures ShlBy(Ux4(1, 2, 4, 8), 4) == Ux4(16, 32, 64, 128)
  {
    assert Pow2(1) == 2;
    ShlByFromValue(Ux4(1, 1, 1, 1), 1, Ux4(2, 2, 2, 2), 0);
    ShlByFromValue(Ux4(127, 127, 127, 127), 1, Ux4(254, 254, 254, 254), 0);
    assert Pow2(4) == 16;
    ShlByFromValue(Ux4(1, 2, 4, 8), 4, Ux4(16, 32, 64, 128), 0);
  }

  /** `[255,0,0,0] << 1 == [254,1,0,0]`: the top bit moves into register 1. */
  lemma ShlCarryExample()
    ensures ShlBy(Ux4(0xFF, 0, 0, 0), 1) == Ux4(254, 1, 0, 0)
  {
    assert Pow2(1) == 2;
    ShlByFromValue(Ux4(0xFF, 0, 0, 0), 1, Ux4(254, 1, 0, 0), 0);
  }

  /** `[128,128,128,0] << 1 == [0,1,1,1]`: every top bit moves up a register. */
  lemma ShlCarryAcrossExample()
    ensures ShlBy(Ux4(128, 128, 128, 0), 1) == Ux4(0, 1, 1, 1)
  {
    assert Pow2(1) == 2;
    assert Value(Ux4(128, 128, 128, 0)) == 0x80_8080;
    assert Value(Ux4(0, 1, 1, 1)) == 0x101_0100;
    ShlByFromValue(Ux4(128, 128, 128, 0), 1, Ux4(0, 1, 1, 1), 0);
  }

  /** `[255,255,255,255] << 1 == [254,255,255,255]`: the top bit of register 3
      falls off. */
  lemma ShlCarryTopExample()
    ensures ShlBy(Ux4(0xFF, 0xFF, 0xFF, 0xFF), 1) == Ux4(254, 0xFF, 0xFF, 0xFF)
  {
    assert Pow2(1) == 2;
    assert Value(Ux4(0xFF, 0xFF, 0xFF, 0xFF)) == 0xFFFF_FFFF;
    assert Value(Ux4(254, 0xFF, 0xFF, 0xFF)) == 0xFFFF_FFFE;
    ShlByFromValue(Ux4(0xFF, 0xFF, 0xFF, 0xFF), 1, Ux4(254, 0xFF, 0xFF, 0xFF), 1);
  }

  /** `[255,255,255,255] << 8 == [0,255,255,255]`. */
  lemma ShlWordExample()
    ensures ShlBy(Ux4(0xFF, 0xFF, 0xFF, 0xFF), 8) == Ux4(0, 0xFF, 0xFF, 0xFF)
  {
    ShlByWord(Ux4(0xFF, 0xFF, 0xFF, 0xFF));
  }

  /** `Shl`: `shift` passes, each rippling the carry from register 0 to 3. */
  method Shl(a: Ux4, shift: nat) returns (r: Ux4)
    ensures r == ShlBy(a, shift)
    ensures Value(r) == (Value(a) * Pow2(shift)) % Modulus
  {
    var result := new Word[4];
    result[0], result[1], result[2], result[3] := a.r0, a.r1, a.r2, a.r3;
    for n := 0 to shift
      invariant Ux4(result[0], result[1], result[2], result[3]) == ShlBy(a, n)
    {
      ghost var prev := Ux4(result[0], result[1], result[2], result[3]);
      var carry: Word := 0;
      for i := 0 to 4
        invariant forall k :: 0 <= k < i ==> result[k] == ShiftedWord(prev, k)
        invariant forall k :: i <= k < 4 ==> result[k] == Reg(prev, k)
        invariant carry == if i == 0 then 0 else Reg(prev, i - 1) as int / 0x80
      {
        var newCarry := result[i] / 0x80;
        result[i] := ShiftIn(result[i], carry);
        carry := newCarry;
      }
    }
    r := Ux4(result[0], result[1], result[2], result[3]);
    ShlByValue(a, shift);
  }

  // ---------------------------------------------------------------------------
  // Equality
  // ---------------------------------------------------------------------------

  /** `eq`: all four register pairs match. */
  function Eq(a: Ux4, b: Ux4): (r: bool)
    ensures r <==> a == b
    ensures r <==> Value(a) == Value(b)
  {
    ValueInjective(a, b);
    a.r0 == b.r0 && a.r1 == b.r1 && a.r2 == b.r2 && a.r3 == b.r3
  }

  // ---------------------------------------------------------------------------
  // The carry rule as evidently intended
  // ---------------------------------------------------------------------------

  /** A carry exactly when the true sum of the two words and the carry
      overflows the word. */
  function IntendedCarryOut(x: Word, y: Word, c: Word): Word {
    if x as int + y as int + c as int >= 0x100 then 1 else 0
  }

  /** The carries out of registers 0, 1, 2 and 3 under the intended rule. */
  function IntendedCarry1(a: Ux4, b: Ux4): Word {
    IntendedCarryOut(a.r0, b.r0, 0)
  }

  function IntendedCarry2(a: Ux4, b: Ux4): Word {
    IntendedCarryOut(a.r1, b.r1, IntendedCarry1(a, b))
  }

  function IntendedCarry3(a: Ux4, b: Ux4): Word {
    IntendedCarryOut(a.r2, b.r2, IntendedCarry2(a, b))
  }

  function IntendedCarry4(a: Ux4, b: Ux4): Word {
    IntendedCarryOut(a.r3, b.r3, IntendedCarry3(a, b))
  }

  /** Ripple-carry addition with the intended carry rule. */
  function PlusIntended(a: Ux4, b: Ux4): Ux4 {
    Ux4(WrappingSum(a.r0, b.r0, 0), WrappingSum(a.r1, b.r1, IntendedCarry1(a, b)),
        WrappingSum(a.r2, b.r2, IntendedCarry2(a, b)), WrappingSum(a.r3, b.r3, IntendedCarry3(a, b)))
  }

  /** Subtraction through the corrected addition. */
  function SubIntended(a: Ux4, b: Ux4): Ux4 {
    PlusIntended(a, PlusIntended(Not(b), One))
  }

  lemma IntendedAddStep(x: Word, y: Word, c: Word)
    requires c <= 1
    ensures x as int + y as int + c as int == WrappingSum(x, y, c) as int + 0x100 * IntendedCarryOut(x, y, c) as int
  {
  }

  /** With the intended carry rule the sum is right modulo 2^32 for all operands. */
  lemma PlusIntendedValue(a: Ux4, b: Ux4)
    ensures Value(PlusIntended(a, b)) == (Value(a) + Value(b)) % Modulus
  {
    var c1, c2, c3, c4 := IntendedCarry1(a, b), IntendedCarry2(a, b), IntendedCarry3(a, b), IntendedCarry4(a, b);
    IntendedAddStep(a.r0, b.r0, 0);
    IntendedAddStep(a.r1, b.r1, c1);
    IntendedAddStep(a.r2, b.r2, c2);
    IntendedAddStep(a.r3, b.r3, c3);
    assert Value(a) + Value(b) == Value(PlusIntended(a, b)) + Modulus * c4;
    ModulusSplit(Value(a) + Value(b), Value(PlusIntended(a, b)), 0, c4);
  }

  /** Reassociating a sum reduced modulo 2^32 at every step. */
  lemma ModAssociative(x: int, y: int, z: int, xy: int, yz: int, left: int, right: int)
    requires xy == (x + y) % Modulus && left == (xy + z) % Modulus
    requires yz == (y + z) % Modulus && right == (x + yz) % Modulus
    ensures left == right
  {
    ModAddLeft(x + y, z);
    ModAddLeft(y + z, x);
    assert yz + x == x + yz;
    assert y + z + x == x + y + z;
  }

  /** The corrected addition is associative. */
  lemma PlusIntendedAssociative(a: Ux4, b: Ux4, c: Ux4)
    ensures PlusIntended(PlusIntended(a, b), c) == PlusIntended(a, PlusIntended(b, c))
  {
    var ab, bc := PlusIntended(a, b), PlusIntended(b, c);
    var left, right := PlusIntended(ab, c), PlusIntended(a, bc);
    PlusIntendedValue(a, b);
    PlusIntendedValue(ab, c);
    PlusIntendedValue(b, c);
    PlusIntendedValue(a, bc);
    ModAssociative(Value(a), Value(b), Value(c), Value(ab), Value(bc), Value(left), Value(right));
    ValueInjective(left, right);
  }

  /** Adding `y` and then `2^32 - y`, each reduced modulo 2^32, gives `x` back. */
  lemma ModCancel(x: int, y: int, xy: int, ny: int, res: int)
    requires 0 <= x < Modulus && 0 <= y < Modulus
    requires xy == (x + y) % Modulus && ny == (Modulus - y) % Modulus
    requires res == (xy + ny) % Modulus
    ensures res == x
  {
    ModAddLeft(x + y, ny);
    if y == 0 {
      ModulusSplit(Modulus, 0, 0, 1);
      ModulusSplit(x, x, 0, 0);
    } else {
      ModulusSplit(Modulus - y, Modulus - y, 0, 0);
      ModulusSplit(x + Modulus, x, 0, 1);
    }
  }

  /** With the corrected addition, subtracting `b` undoes adding it. */
  lemma SubIntendedUndoesPlus(a: Ux4, b: Ux4)
    ensures SubIntended(PlusIntended(a, b), b) == a
  {
    var ab, nb := PlusIntended(a, b), PlusIntended(Not(b), One);
    PlusIntendedValue(a, b);
    NotValue(b);
    PlusIntendedValue(Not(b), One);
    PlusIntendedValue(ab, nb);
    ModCancel(Value(a), Value(b), Value(ab), Value(nb), Value(SubIntended(ab, b)));
    ValueInjective(SubIntended(ab, b), a);
  }

  /** `[255,255,0,0] + [255,255,0,0]` as written yields `[254,255,0,0]`: the carry
      out of register 1 is lost, and the true sum `[254,255,1,0]` is what the
      intended rule gives. */
  lemma PlusLosesCarry()
    ensures Plus(Ux4(0xFF, 0xFF, 0, 0), Ux4(0xFF, 0xFF, 0, 0)) == Ux4(254, 0xFF, 0, 0)
    ensures !CarrySafe(Ux4(0xFF, 0xFF, 0, 0), Ux4(0xFF, 0xFF, 0, 0))
    ensures PlusIntended(Ux4(0xFF, 0xFF, 0, 0), Ux4(0xFF, 0xFF, 0, 0)) == Ux4(254, 0xFF, 1, 0)
  {
  }
}
