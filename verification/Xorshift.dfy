/** The two xorshift32 generators of the benchmarks: one keeps JavaScript's signed 32-bit
    integer as its state, the other an unsigned one. */
module Xorshift {

  function AllBits(bit: bool): seq<bool> {
    seq(32, (i: nat) => bit)
  }

  /** 32 bits, the least significant first. */
  type Word = w: seq<bool> | |w| == 32 witness AllBits(false)

  const ZERO: Word := AllBits(false)

  const ONE: Word := AllBits(false)[0 := true]

  function XorBits(a: Word, b: Word): Word {
    seq(32, i requires 0 <= i < 32 => a[i] != b[i])
  }

  function ShiftUp(a: Word, k: nat): Word {
    seq(32, i requires 0 <= i < 32 => i >= k && a[i - k])
  }

  function ShiftDown(a: Word, k: nat): Word {
    seq(32, i requires 0 <= i < 32 => i + k < 32 && a[i + k])
  }

  function Up(x: Word, k: nat): Word {
    XorBits(x, ShiftUp(x, k))
  }

  function Down(x: Word, k: nat): Word {
    XorBits(x, ShiftDown(x, k))
  }

  /** One step on the bits. */
  function Step(x: Word): Word {
    Up(Down(Up(x, 13), 17), 5)
  }

  // ---------- the step is a permutation ----------

  /** Doing a third of the step twice doubles its shift, until nothing is left of it. */
  lemma Doubled(x: Word, k: nat)
    ensures Up(Up(x, k), k) == Up(x, 2 * k) && Down(Down(x, k), k) == Down(x, 2 * k)
    ensures k >= 32 ==> Up(x, k) == x && Down(x, k) == x
  {}

  lemma UpsCommute(x: Word, j: nat, k: nat)
    ensures Up(Up(x, j), k) == Up(Up(x, k), j)
  {
    forall i | 0 <= i < 32 ensures Up(Up(x, j), k)[i] == Up(Up(x, k), j)[i] {
      if i >= j + k {
        assert i - j - k == i - k - j;
      }
    }
  }

  function UndoUp13(y: Word): Word {
    Up(Up(y, 13), 26)
  }

  function UndoUp5(y: Word): Word {
    Up(Up(Up(y, 5), 10), 20)
  }

  function Unstep(y: Word): Word {
    UndoUp13(Down(UndoUp5(y), 17))
  }

  lemma Up13Undone(x: Word)
    ensures UndoUp13(Up(x, 13)) == x && Up(UndoUp13(x), 13) == x
  {
    Doubled(x, 13);
    Doubled(x, 26);
    Doubled(x, 52);
    UpsCommute(Up(x, 13), 26, 13);
  }

  lemma Up5Undone(x: Word)
    ensures UndoUp5(Up(x, 5)) == x && Up(UndoUp5(x), 5) == x
  {
    Doubled(x, 5);
    Doubled(x, 10);
    Doubled(x, 20);
    Doubled(x, 40);
    UpsCommute(Up(Up(x, 5), 10), 20, 5);
    UpsCommute(Up(x, 5), 10, 5);
  }

  lemma Down17Undone(x: Word)
    ensures Down(Down(x, 17), 17) == x
  {
    Doubled(x, 17);
    Doubled(x, 34);
  }

  lemma ZeroFixed()
    ensures Step(ZERO) == ZERO && Unstep(ZERO) == ZERO
  {
    forall k: nat ensures Up(ZERO, k) == ZERO && Down(ZERO, k) == ZERO {}
  }

  /** Every word has exactly one predecessor, and only zero leads to zero. */
  lemma StepIsPermutation(x: Word)
    ensures Unstep(Step(x)) == x && Step(Unstep(x)) == x
    ensures Step(x) == ZERO <==> x == ZERO
  {
    var a := Up(x, 13);
    Up13Undone(x);
    Down17Undone(a);
    Up5Undone(Down(a, 17));
    var c := UndoUp5(x);
    Up5Undone(x);
    Down17Undone(c);
    Up13Undone(Down(c, 17));
    ZeroFixed();
  }

  // ---------- integers and their 32 bits ----------

  function Pow2(n: nat): nat {
    if n == 0 then 1 else 2 * Pow2(n - 1)
  }

  /** The value of bits read as an unsigned number. */
  function Value(bits: seq<bool>): nat {
    if bits == [] then 0 else (if bits[0] then 1 else 0) + 2 * Value(bits[1..])
  }

  lemma Pow2Positive(n: nat)
    ensures Pow2(n) > 0
  {}

  /** Bit `i` of an integer in two's complement; division rounds down. */
  function BitAt(n: int, i: nat): bool {
    Pow2Positive(i);
    n / Pow2(i) % 2 == 1
  }

  /** What JavaScript's bitwise operators see of an integer. */
  function Bits(n: int): Word {
    seq(32, (i: nat) => BitAt(n, i))
  }

  lemma MulMonotone(d: int, a: int, b: int)
    requires d > 0 && a < b
    ensures d * a + d <= d * b
  {
    assert d * (b - a - 1) >= 0;
    assert d * (b - a - 1) == d * b - d * a - d;
  }

  lemma DivMod(n: int, d: int)
    requires d > 0
    ensures n == d * (n / d) + n % d && 0 <= n % d < d
  {}

  lemma QuotientUnique(n: int, d: int, q: int, r: int)
    requires n == d * q + r && 0 <= r < d
    ensures n / d == q
  {
    DivMod(n, d);
    if q < n / d {
      MulMonotone(d, q, n / d);
    } else if n / d < q {
      MulMonotone(d, n / d, q);
    }
  }

  lemma HalveFirst(n: int, p: int)
    requires p > 0
    ensures n / (2 * p) == n / 2 / p
  {
    var h, q, r := n / 2, n / 2 / p, n / 2 % p;
    assert h == p * q + r;
    assert n == (2 * p) * q + (2 * r + n % 2);
    QuotientUnique(n, 2 * p, q, 2 * r + n % 2);
  }

  lemma {:induction false} BitOfValue(bits: seq<bool>, high: int, i: nat)
    requires i < |bits|
    ensures BitAt(Value(bits) + high * Pow2(|bits|), i) == bits[i]
  {
    var rest := bits[1..];
    var n := Value(bits) + high * Pow2(|bits|);
    assert high * Pow2(|bits|) == 2 * (high * Pow2(|rest|));
    var half := Value(rest) + high * Pow2(|rest|);
    assert n == 2 * half + if bits[0] then 1 else 0;
    if i > 0 {
      BitOfValue(rest, high, i - 1);
      Pow2Positive(i - 1);
      HalveFirst(n, Pow2(i - 1));
    }
  }

  lemma BitsOfValue(w: Word, high: int)
    ensures Bits(Value(w) + high * Pow2(32)) == w
  {
    forall i: nat | i < 32 ensures BitAt(Value(w) + high * Pow2(|w|), i) == w[i] {
      BitOfValue(w, high, i);
    }
  }

  lemma {:induction false} ValueInRange(bits: seq<bool>)
    ensures Value(bits) < Pow2(|bits|)
    ensures Value(bits) == 0 <==> forall i :: 0 <= i < |bits| ==> !bits[i]
  {
    if bits != [] {
      ValueInRange(bits[1..]);
      assert forall i :: 0 < i < |bits| ==> bits[i] == bits[1..][i - 1];
    }
  }

  lemma Pow32()
    ensures Pow2(32) == 0x1_0000_0000
  {
    assert Pow2(8) == 256;
    assert Pow2(16) == 0x1_0000;
    assert Pow2(24) == 0x100_0000;
  }

  function Signed(w: Word): int {
    if w[31] then Value(w) - 0x1_0000_0000 else Value(w)
  }

  /** Either reading of 32 bits gives the same bits back. */
  lemma BitsOfReading(w: Word)
    ensures Bits(Value(w)) == w && Bits(Signed(w)) == w
    ensures 0 <= Value(w) < 0x1_0000_0000
  {
    BitsOfValue(w, 0);
    BitsOfValue(w, -1);
    ValueInRange(w);
    Pow32();
  }

  // ---------- JavaScript's operators on integers ----------

  function ShiftLeft(n: int, k: nat): int {
    Signed(ShiftUp(Bits(n), k))
  }

  /** `>>>`, whose result is unsigned. */
  function ShiftRightUnsigned(n: int, k: nat): int {
    Value(ShiftDown(Bits(n), k))
  }

  function Xor(m: int, n: int): int {
    Signed(XorBits(Bits(m), Bits(n)))
  }

  lemma RemainderOfDouble(n: int, p: int)
    requires p > 0
    ensures n % (2 * p) == n % 2 + 2 * (n / 2 % p)
  {
    var h := n / 2;
    DivMod(h, p);
    DivMod(n, 2);
    var q, r := h / p, 2 * (h % p) + n % 2;
    assert n == 2 * (p * q + h % p) + n % 2;
    assert n == (2 * p) * q + r;
    QuotientUnique(n, 2 * p, q, r);
    DivMod(n, 2 * p);
  }

  function LowBits(n: int, k: nat): seq<bool> {
    seq(k, (i: nat) => BitAt(n, i))
  }

  lemma {:induction false} ValueOfLowBits(n: int, k: nat)
    ensures Pow2(k) > 0 && Value(LowBits(n, k)) == n % Pow2(k)
    decreases k
  {
    Pow2Positive(k);
    if k > 0 {
      Pow2Positive(k - 1);
      ValueOfLowBits(n / 2, k - 1);
      forall i: nat | i < k - 1 ensures BitAt(n, i + 1) == BitAt(n / 2, i) {
        Pow2Positive(i);
        HalveFirst(n, Pow2(i));
      }
      assert LowBits(n, k)[1..] == LowBits(n / 2, k - 1);
      RemainderOfDouble(n, Pow2(k - 1));
    }
  }

  /** Read as unsigned, the bits of an integer are its remainder modulo 2 to the 32. */
  lemma UnsignedReading(n: int)
    ensures Value(Bits(n)) == n % 0x1_0000_0000
  {
    ValueOfLowBits(n, 32);
    assert LowBits(n, 32) == Bits(n);
    Pow32();
  }

  lemma BitOfWord(w: Word, n: int, i: nat)
    requires Bits(n) == w && i < 32
    ensures BitAt(n, i) == w[i]
  {
    assert Bits(n)[i] == BitAt(n, i);
  }

  /** The operators bit by bit: a shift moves bits and fills with zeros, exclusive or differs. */
  lemma OperatorsBitByBit(m: int, n: int, k: nat, i: nat)
    requires i < 32
    ensures BitAt(ShiftLeft(n, k), i) <==> i >= k && BitAt(n, i - k)
    ensures BitAt(ShiftRightUnsigned(n, k), i) <==> i + k < 32 && BitAt(n, i + k)
    ensures BitAt(Xor(m, n), i) <==> BitAt(m, i) != BitAt(n, i)
    ensures 0 <= ShiftRightUnsigned(n, k) < 0x1_0000_0000
  {
    BitsOfReading(ShiftUp(Bits(n), k));
    BitsOfReading(ShiftDown(Bits(n), k));
    BitsOfReading(XorBits(Bits(m), Bits(n)));
    BitOfWord(ShiftUp(Bits(n), k), ShiftLeft(n, k), i);
    BitOfWord(ShiftDown(Bits(n), k), ShiftRightUnsigned(n, k), i);
    BitOfWord(XorBits(Bits(m), Bits(n)), Xor(m, n), i);
  }

  /** The three assignments to an integer state, seen on the bits. */
  lemma IntegerStep(n: int)
    ensures var a := Xor(n, ShiftLeft(n, 13));
            var b := Xor(a, ShiftRightUnsigned(a, 17));
            Bits(Xor(b, ShiftLeft(b, 5))) == Step(Bits(n))
  {
    var x := Bits(n);
    var y := Up(x, 13);
    var z := Down(y, 17);
    BitsOfReading(ShiftUp(x, 13));
    BitsOfReading(y);
    BitsOfReading(ShiftDown(y, 17));
    BitsOfReading(z);
    BitsOfReading(ShiftUp(z, 5));
    BitsOfReading(Step(x));
  }

  // ---------- the generators ----------

  /** The bits of the state after `n` steps. */
  function After(x: Word, n: nat): Word {
    if n == 0 then x else Step(After(x, n - 1))
  }

  /** What is returned for a state. */
  function Output(x: Word): real {
    Value(x) as real / 4294967295.0
  }

  lemma OutputInRange(x: Word)
    ensures 0.0 <= Output(x) <= 1.0
    ensures Output(x) == 0.0 <==> x == ZERO
    ensures Output(x) * 4294967295.0 == Value(x) as real
  {
    BitsOfReading(x);
    ValueInRange(x);
    assert Value(x) == 0 <==> x == ZERO;
  }

  lemma AfterStep(x: Word, n: nat)
    ensures After(x, 0) == x && After(x, n + 1) == Step(After(x, n))
  {}

  lemma OnlyZeroToZero(x: Word, y: Word)
    requires x != ZERO && y == Step(x)
    ensures y != ZERO
  {
    StepIsPermutation(x);
  }

  lemma {:induction false} StaysNonZero(x: Word, n: nat)
    requires x != ZERO
    ensures After(x, n) != ZERO
  {
    if n == 0 {
      AfterStep(x, n);
    } else {
      StaysNonZero(x, n - 1);
      AfterStep(x, n - 1);
      OnlyZeroToZero(After(x, n - 1), After(x, n));
    }
  }

  lemma PositiveOutput(x: Word)
    requires x != ZERO
    ensures 0.0 < Output(x) <= 1.0
  {
    OutputInRange(x);
  }

  /** From a non-zero word no run reaches zero, and every output lies in (0, 1]. */
  lemma NeverZero(x: Word, n: nat)
    requires x != ZERO
    ensures After(x, n) != ZERO && 0.0 < Output(After(x, n)) <= 1.0
  {
    StaysNonZero(x, n);
    PositiveOutput(After(x, n));
  }

  /** The bits a seed starts the unsigned generator with: a zero seed is replaced by one. */
  function Repaired(seed: int): Word {
    if Bits(seed) == ZERO then ONE else Bits(seed)
  }

  /** The generator of the seeding code. */
  class SignedRng {
    var seed: int

    constructor (seed: int)
      ensures this.seed == seed
    {
      this.seed := seed;
    }

    method Next() returns (r: real)
      modifies this
      ensures Bits(seed) == Step(Bits(old(seed))) && r == Output(Bits(seed))
    {
      IntegerStep(seed);
      seed := Xor(seed, ShiftLeft(seed, 13));
      seed := Xor(seed, ShiftRightUnsigned(seed, 17));
      seed := Xor(seed, ShiftLeft(seed, 5));
      r := Value(Bits(seed)) as real / 4294967295.0;
    }
  }

  lemma OneIsOne()
    ensures Bits(1) == ONE
  {
    forall i: nat | i < 32 ensures BitAt(1, i) == ONE[i] {
      if i > 0 {
        Pow2Positive(i - 1);
        QuotientUnique(1, Pow2(i), 0, 1);
      }
    }
  }

  /** `seed >>> 0 || 1` */
  lemma StartOfSeed(seed: int)
    ensures var word := Value(Bits(seed));
            word == seed % 0x1_0000_0000 && Bits(if word != 0 then word else 1) == Repaired(seed)
  {
    UnsignedReading(seed);
    ValueInRange(Bits(seed));
    assert Value(Bits(seed)) == 0 <==> Bits(seed) == ZERO;
    BitsOfReading(Bits(seed));
    OneIsOne();
  }

  /** The generator of the vector benchmark. */
  class UnsignedRng {
    var state: int

    constructor (seed: int)
      ensures Bits(state) == Repaired(seed)
      ensures state == if seed % 0x1_0000_0000 == 0 then 1 else seed % 0x1_0000_0000
    {
      StartOfSeed(seed);
      var word := Value(Bits(seed));
      this.state := if word != 0 then word else 1;
    }

    method Next() returns (r: real)
      modifies this
      ensures 0 <= state < 0x1_0000_0000
      ensures Bits(state) == Step(Bits(old(state))) && r == Output(Bits(state))
    {
      IntegerStep(state);
      state := Xor(state, ShiftLeft(state, 13));
      state := Xor(state, ShiftRightUnsigned(state, 17));
      state := Xor(state, ShiftLeft(state, 5));
      BitsOfReading(Bits(state));
      state := Value(Bits(state));
      r := state as real / 4294967295.0;
    }
  }

  /** The first `n` outputs of a run from given bits. */
  function Stream(x: Word, n: nat): seq<real> {
    if n == 0 then [] else Stream(x, n - 1) + [Output(After(x, n))]
  }

  lemma StreamStep(x: Word, n: nat, y: Word, z: Word)
    requires y == After(x, n) && z == Step(y)
    ensures z == After(x, n + 1) && Stream(x, n + 1) == Stream(x, n) + [Output(z)]
  {}

  method DrawSigned(seed: int, n: nat) returns (draws: seq<real>)
    ensures draws == Stream(Bits(seed), n)
  {
    var rng := new SignedRng(seed);
    draws := [];
    for i := 0 to n
      invariant Bits(rng.seed) == After(Bits(seed), i) && draws == Stream(Bits(seed), i)
    {
      ghost var before := Bits(rng.seed);
      var r := rng.Next();
      StreamStep(Bits(seed), i, before, Bits(rng.seed));
      draws := draws + [r];
    }
  }

  method DrawUnsigned(seed: int, n: nat) returns (draws: seq<real>)
    ensures draws == Stream(Repaired(seed), n)
  {
    var rng := new UnsignedRng(seed);
    draws := [];
    for i := 0 to n
      invariant Bits(rng.state) == After(Repaired(seed), i) && draws == Stream(Repaired(seed), i)
    {
      ghost var before := Bits(rng.state);
      var r := rng.Next();
      StreamStep(Repaired(seed), i, before, Bits(rng.state));
      draws := draws + [r];
    }
  }

  /** The two generators draw the same stream exactly when the seed's 32 bits are not all zero. */
  lemma SameStreamIff(seed: int)
    ensures (forall n :: Stream(Bits(seed), n) == Stream(Repaired(seed), n)) <==> Bits(seed) != ZERO
  {
    if Bits(seed) == ZERO {
      ZeroFixed();
      OutputInRange(ZERO);
      assert ONE[0];
      NeverZero(ONE, 1);
      assert After(ZERO, 1) == Step(After(ZERO, 0));
      assert Stream(ZERO, 1) == Stream(ZERO, 0) + [Output(ZERO)] &&
        Stream(ONE, 1) == Stream(ONE, 0) + [Output(After(ONE, 1))];
      assert Stream(ZERO, 1)[0] != Stream(ONE, 1)[0];
    }
  }
}
