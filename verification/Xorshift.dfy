/** The xorshift64 generator. A 64-bit word is its bits, least significant first. */
module Xorshift {

  const WIDTH: nat := 64

  type Word = w: seq<bool> | |w| == WIDTH witness seq(WIDTH, _ => false)

  const ZERO: Word := seq(WIDTH, _ => false)

  function Xor(a: Word, b: Word): Word { seq(WIDTH, i requires 0 <= i < WIDTH => a[i] != b[i]) }

  /** `a << n` */
  function Shl(a: Word, n: nat): Word { seq(WIDTH, i requires 0 <= i < WIDTH => i >= n && a[i - n]) }

  /** `a >> n` */
  function Shr(a: Word, n: nat): Word { seq(WIDTH, i requires 0 <= i < WIDTH => i + n < WIDTH && a[i + n]) }

  function MixLeft(x: Word, n: nat): Word { Xor(x, Shl(x, n)) }

  function MixRight(x: Word, n: nat): Word { Xor(x, Shr(x, n)) }

  /** The next state, which is also the number drawn. */
  function Xorshift64(state: Word): Word { MixLeft(MixRight(MixLeft(state, 13), 7), 17) }

  method Step(state: Word) returns (r: Word)
    ensures r == Xorshift64(state)
  {
    var x := state;
    x := Xor(x, Shl(x, 13));
    x := Xor(x, Shr(x, 7));
    x := Xor(x, Shl(x, 17));
    return x;
  }

  /** Bit `i` of `x ^ (x << n)` and of `x ^ (x >> n)`. */
  predicate FoldedLeft(x: Word, n: nat, y: Word) {
    forall i: nat :: i < 64 ==> y[i] == (x[i] != (i >= n && x[i - n]))
  }

  predicate FoldedRight(x: Word, n: nat, y: Word) {
    forall i: nat :: i < 64 ==> y[i] == (x[i] != (i + n < 64 && x[i + n]))
  }

  lemma FoldedLeftExactly(x: Word, n: nat, y: Word)
    ensures FoldedLeft(x, n, y) <==> y == MixLeft(x, n)
  {
    if FoldedLeft(x, n, y) {
      forall i: nat | i < WIDTH ensures y[i] == MixLeft(x, n)[i] {
        assert y[i] == (x[i] != (i >= n && x[i - n]));
      }
      assert y == MixLeft(x, n);
    }
  }

  lemma FoldedRightExactly(x: Word, n: nat, y: Word)
    ensures FoldedRight(x, n, y) <==> y == MixRight(x, n)
  {
    if FoldedRight(x, n, y) {
      forall i: nat | i < WIDTH ensures y[i] == MixRight(x, n)[i] {
        assert y[i] == (x[i] != (i + n < 64 && x[i + n]));
      }
      assert y == MixRight(x, n);
    }
  }

  /** The shifts of the step, bit by bit: 13 up, 7 down, 17 up, and only these give its result. */
  lemma StepExactly(state: Word, x: Word, y: Word, r: Word)
    ensures FoldedLeft(state, 13, x) && FoldedRight(x, 7, y) && FoldedLeft(y, 17, r)
            <==> x == MixLeft(state, 13) && y == MixRight(x, 7) && r == Xorshift64(state)
  {
    FoldedLeftExactly(state, 13, x);
    FoldedRightExactly(x, 7, y);
    FoldedLeftExactly(y, 17, r);
  }

  // -------------------------------------------------------------- the inverse

  /** Bit `i` of the word that `MixLeft` by `n` turned into `y`, found from the low bits up. */
  function UnmixLeftBit(y: Word, n: nat, i: nat): bool
    requires n > 0 && i < WIDTH
  {
    if i < n then y[i] else y[i] != UnmixLeftBit(y, n, i - n)
  }

  /** The same for `MixRight`, from the high bits down. */
  function UnmixRightBit(y: Word, n: nat, i: nat): bool
    requires n > 0 && i < WIDTH
    decreases WIDTH - i
  {
    if i + n >= WIDTH then y[i] else y[i] != UnmixRightBit(y, n, i + n)
  }

  function UnmixLeft(y: Word, n: nat): Word
    requires n > 0
  {
    seq(WIDTH, i requires 0 <= i < WIDTH => UnmixLeftBit(y, n, i))
  }

  function UnmixRight(y: Word, n: nat): Word
    requires n > 0
  {
    seq(WIDTH, i requires 0 <= i < WIDTH => UnmixRightBit(y, n, i))
  }

  /** The state before a step. */
  function Previous(state: Word): Word { UnmixLeft(UnmixRight(UnmixLeft(state, 17), 7), 13) }

  lemma {:induction false} UnmixLeftBitInverse(x: Word, n: nat, i: nat)
    requires n > 0 && i < WIDTH
    ensures UnmixLeftBit(MixLeft(x, n), n, i) == x[i]
  {
    if i >= n {
      UnmixLeftBitInverse(x, n, i - n);
    }
  }

  lemma {:induction false} UnmixRightBitInverse(x: Word, n: nat, i: nat)
    requires n > 0 && i < WIDTH
    ensures UnmixRightBit(MixRight(x, n), n, i) == x[i]
    decreases WIDTH - i
  {
    if i + n < WIDTH {
      UnmixRightBitInverse(x, n, i + n);
    }
  }

  /** Folding a word with a shift of itself loses nothing, for any nonzero distance. */
  lemma MixLeftInverse(x: Word, n: nat)
    requires n > 0
    ensures UnmixLeft(MixLeft(x, n), n) == x && MixLeft(UnmixLeft(x, n), n) == x
  {
    forall i: nat | i < WIDTH ensures UnmixLeft(MixLeft(x, n), n)[i] == x[i] {
      UnmixLeftBitInverse(x, n, i);
    }
    assert forall i: nat :: i < WIDTH ==> MixLeft(UnmixLeft(x, n), n)[i] == x[i];
  }

  lemma MixRightInverse(x: Word, n: nat)
    requires n > 0
    ensures UnmixRight(MixRight(x, n), n) == x && MixRight(UnmixRight(x, n), n) == x
  {
    forall i: nat | i < WIDTH ensures UnmixRight(MixRight(x, n), n)[i] == x[i] {
      UnmixRightBitInverse(x, n, i);
    }
    assert forall i: nat :: i < WIDTH ==> MixRight(UnmixRight(x, n), n)[i] == x[i];
  }

  /** The step is a bijection of the 2^64 states. */
  lemma StepIsBijection(state: Word)
    ensures Previous(Xorshift64(state)) == state
    ensures Xorshift64(Previous(state)) == state
  {
    MixLeftInverse(state, 13);
    MixRightInverse(MixLeft(state, 13), 7);
    MixLeftInverse(MixRight(MixLeft(state, 13), 7), 17);
    MixLeftInverse(state, 17);
    MixRightInverse(UnmixLeft(state, 17), 7);
    MixLeftInverse(UnmixRight(UnmixLeft(state, 17), 7), 13);
  }

  lemma StepInjective(a: Word, b: Word)
    ensures Xorshift64(a) == Xorshift64(b) <==> a == b
  {
    StepIsBijection(a);
    StepIsBijection(b);
  }

  lemma ZeroStays()
    ensures Xorshift64(ZERO) == ZERO
  {
    assert forall n: nat, i: nat :: i < WIDTH ==> !Shl(ZERO, n)[i] && !Shr(ZERO, n)[i];
    assert MixLeft(ZERO, 13) == ZERO && MixRight(ZERO, 7) == ZERO && MixLeft(ZERO, 17) == ZERO;
  }

  lemma OnlyZeroToZero(state: Word)
    ensures Xorshift64(state) == ZERO <==> state == ZERO
  {
    ZeroStays();
    StepInjective(state, ZERO);
  }

  // ------------------------------------------------------------------ streams

  function After(seed: Word, steps: nat): Word {
    if steps == 0 then seed else Xorshift64(After(seed, steps - 1))
  }

  /** A stream reaches zero exactly when it was seeded with zero. */
  lemma {:induction false} ZeroExactly(seed: Word, steps: nat)
    ensures After(seed, steps) == ZERO <==> seed == ZERO
  {
    if steps > 0 {
      ZeroExactly(seed, steps - 1);
      var before := After(seed, steps - 1);
      assert Xorshift64(before) == ZERO <==> before == ZERO by {
        OnlyZeroToZero(before);
      }
    }
  }

  /** Streams from different seeds differ at every step. */
  lemma {:induction false} SeedsStayApart(a: Word, b: Word, steps: nat)
    requires a != b
    ensures After(a, steps) != After(b, steps)
  {
    if steps > 0 {
      SeedsStayApart(a, b, steps - 1);
      var before, other := After(a, steps - 1), After(b, steps - 1);
      assert Xorshift64(before) != Xorshift64(other) by {
        StepInjective(before, other);
      }
    }
  }

  // ------------------------------------------------------------ numeric value

  function Pow2(n: nat): nat { if n == 0 then 1 else 2 * Pow2(n - 1) }

  /** Value of bits 0 to n - 1. */
  function LowValue(w: Word, n: nat): (v: nat)
    requires n <= WIDTH
    ensures v < Pow2(n)
  {
    if n == 0 then 0 else LowValue(w, n - 1) + if w[n - 1] then Pow2(n - 1) else 0
  }

  function Value(w: Word): nat { LowValue(w, WIDTH) }

  /** The lowest bit is the parity, and shifting right by one halves. */
  lemma ValueHalves(w: Word)
    ensures Value(w) == 2 * Value(Shr(w, 1)) + if w[0] then 1 else 0
  {
    LowValueHalves(w, WIDTH - 1);
    assert !Shr(w, 1)[WIDTH - 1];
    LowValueStep(Shr(w, 1), WIDTH);
  }

  lemma LowValueStep(w: Word, n: nat)
    requires 0 < n <= WIDTH
    ensures LowValue(w, n) == LowValue(w, n - 1) + if w[n - 1] then Pow2(n - 1) else 0
  {
  }

  lemma {:induction false} LowValueHalves(w: Word, n: nat)
    requires n < WIDTH
    ensures LowValue(w, n + 1) == 2 * LowValue(Shr(w, 1), n) + if w[0] then 1 else 0
  {
    LowValueStep(w, n + 1);
    if n > 0 {
      LowValueHalves(w, n - 1);
      LowValueStep(Shr(w, 1), n);
      assert Shr(w, 1)[n - 1] == w[n];
    } else {
      assert LowValue(w, 0) == 0 && LowValue(Shr(w, 1), 0) == 0 && Pow2(0) == 1;
    }
  }
}
