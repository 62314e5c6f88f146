// Machine words: the bit tricks and the 64-bit arithmetic that the queue uses,
// each tied to the plain arithmetic it stands for.
module Words {

  const TWO63: nat := 0x8000_0000_0000_0000
  const TWO64: nat := 0x1_0000_0000_0000_0000

  function Pow2(k: nat): (r: nat)
    ensures r >= 1
  {
    if k == 0 then 1 else 2 * Pow2(k - 1)
  }

  /** Bitwise `a & b`. */
  function BitAnd(a: nat, b: nat): nat {
    if a == 0 || b == 0 then 0
    else 2 * BitAnd(a / 2, b / 2) + (if a % 2 == 1 && b % 2 == 1 then 1 else 0)
  }

  /** Bitwise `~m` on 64 bits. */
  function BitNot64(m: nat): nat
    requires m < TWO64
  {
    TWO64 - 1 - m
  }

  /** The cast `(int64_t)x`. */
  function ToInt64(x: nat): int
    requires x < TWO64
  {
    if x < TWO63 then x else x - TWO64
  }

  predicate IsPowerOfTwo(value: nat) {
    value != 0 && BitAnd(value, value - 1) == 0
  }

  function AlignUp(value: nat, alignment: nat): nat
    requires 1 <= alignment < TWO64
  {
    BitAnd((value + alignment - 1) % TWO64, BitNot64(alignment - 1))
  }

  // ----- bit masks are remainders

  lemma {:induction false} MaskIsMod(p: nat, k: nat)
    ensures BitAnd(p, Pow2(k) - 1) == p % Pow2(k)
  {
    if p != 0 && k != 0 {
      MaskIsMod(p / 2, k - 1);
      ModHalf(p, Pow2(k - 1));
      assert (Pow2(k) - 1) / 2 == Pow2(k - 1) - 1;
    }
  }

  lemma ModHalf(p: nat, m: nat)
    requires m > 0
    ensures p % (2 * m) == 2 * ((p / 2) % m) + p % 2
  {
    var q, r := (p / 2) / m, (p / 2) % m;
    assert p == 2 * (q * m + r) + p % 2 == q * (2 * m) + (2 * r + p % 2);
    DivModUnique(p, 2 * m, q, 2 * r + p % 2);
  }

  lemma DivModUnique(p: int, m: nat, q: int, r: nat)
    requires m > 0 && r < m && p == q * m + r
    ensures p / m == q && p % m == r
  {
    var q', r' := p / m, p % m;
    assert p == q' * m + r';
    if q < q' {
      Scale(q + 1, q', m);
    } else if q' < q {
      Scale(q' + 1, q, m);
    }
  }

  lemma Scale(a: int, b: int, m: nat)
    requires a <= b
    ensures a * m <= b * m
  {
    assert (b - a) * m >= 0;
  }

  /** A mask and its complement split a word in two. */
  lemma {:induction false} SplitByMask(x: nat, m: nat, width: nat)
    requires x < Pow2(width) && m < Pow2(width)
    ensures BitAnd(x, m) + BitAnd(x, Pow2(width) - 1 - m) == x
  {
    if width != 0 && x != 0 {
      SplitByMask(x / 2, m / 2, width - 1);
      assert (Pow2(width) - 1 - m) / 2 == Pow2(width - 1) - 1 - m / 2;
      assert (Pow2(width) - 1 - m) % 2 == 1 - m % 2;
    }
  }

  lemma Pow2Is64()
    ensures Pow2(63) == TWO63 && Pow2(64) == TWO64
  {
    assert Pow2(4) == 0x10;
    Pow2Add(4, 4);
    Pow2Add(8, 8);
    Pow2Add(16, 16);
    Pow2Add(32, 32);
    assert Pow2(64) == 2 * Pow2(63);
  }

  lemma {:induction false} Pow2Add(a: nat, b: nat)
    ensures Pow2(a + b) == Pow2(a) * Pow2(b)
  {
    if b != 0 {
      Pow2Add(a, b - 1);
      assert Pow2(a + b) == 2 * (Pow2(a) * Pow2(b - 1)) == Pow2(a) * Pow2(b);
    }
  }

  lemma {:induction false} Pow2Monotone(a: nat, b: nat)
    requires a <= b
    ensures Pow2(a) <= Pow2(b)
  {
    if a < b {
      Pow2Monotone(a, b - 1);
    }
  }

  /** `value & (value - 1)` is zero exactly on the powers of two. */
  lemma {:induction false} PowerOfTwoTest(value: nat)
    ensures IsPowerOfTwo(value) <==> exists k: nat :: value == Pow2(k)
  {
    if value == 1 {
      assert value == Pow2(0);
    } else if value > 1 && value % 2 == 0 {
      PowerOfTwoTest(value / 2);
      assert (value - 1) / 2 == value / 2 - 1;
      assert BitAnd(value, value - 1) == 2 * BitAnd(value / 2, value / 2 - 1);
      assert IsPowerOfTwo(value) <==> IsPowerOfTwo(value / 2);
      if IsPowerOfTwo(value / 2) {
        var k: nat :| value / 2 == Pow2(k);
        assert value == Pow2(k + 1);
      } else {
        forall k: nat ensures value != Pow2(k) {
          assert k > 0 ==> value / 2 != Pow2(k - 1);
        }
      }
    } else if value > 1 {
      assert (value - 1) / 2 == value / 2;
      AndSelf(value / 2);
      assert BitAnd(value, value - 1) > 0;
      forall k: nat ensures value != Pow2(k) {
        assert k > 0 ==> Pow2(k) % 2 == 0;
      }
    }
  }

  lemma {:induction false} AndSelf(a: nat)
    ensures BitAnd(a, a) == a
  {
    if a != 0 {
      AndSelf(a / 2);
    }
  }

  /** Clearing the low bits of a word rounds it down to a multiple. */
  lemma ClearLowBits(x: nat, k: nat)
    requires x < TWO64 && k < 64
    ensures Pow2(k) < TWO64
    ensures BitAnd(x, BitNot64(Pow2(k) - 1)) == x - x % Pow2(k)
  {
    Pow2Is64();
    Pow2Monotone(k, 63);
    SplitByMask(x, Pow2(k) - 1, 64);
    MaskIsMod(x, k);
  }

  lemma RoundedDown(value: nat, a: nat)
    requires a >= 1
    ensures var x := value + a - 1; (x - x % a) % a == 0 && value <= x - x % a < value + a
  {
    var x := value + a - 1;
    assert x == (x / a) * a + x % a;
    DivModUnique((x / a) * a, a, x / a, 0);
  }

  lemma AlignUpClears(value: nat, alignment: nat, k: nat)
    requires k < 64 && alignment == Pow2(k) && value + alignment - 1 < TWO64
    ensures alignment < TWO64
    ensures AlignUp(value, alignment) == value + alignment - 1 - (value + alignment - 1) % alignment
  {
    WordFits(value + alignment - 1);
    ClearLowBits(value + alignment - 1, k);
    hide BitAnd, Pow2;
  }

  /** The alignment helper returns the least multiple of the alignment that is not below the value. */
  lemma AlignUpIsLeastMultiple(value: nat, alignment: nat, k: nat)
    requires k < 64 && alignment == Pow2(k) && value + alignment - 1 < TWO64
    ensures alignment < TWO64
    ensures AlignUp(value, alignment) % alignment == 0
    ensures value <= AlignUp(value, alignment) < value + alignment
  {
    hide AlignUp, Pow2;
    AlignUpClears(value, alignment, k);
    RoundedDown(value, alignment);
  }

  lemma WordFits(x: nat)
    requires x < TWO64
    ensures x % TWO64 == x
  {
  }

  // ----- rounding up

  /** One turn of the rounding loop: the left shift drops the bit that leaves the word. */
  function Doubled(power: nat): nat {
    (2 * power) % TWO64
  }

  function DoubledTimes(n: nat): nat {
    if n == 0 then 1 else Doubled(DoubledTimes(n - 1))
  }

  lemma DoubledIs(power: nat)
    ensures power < TWO63 ==> Doubled(power) == 2 * power
    ensures power == TWO63 ==> Doubled(power) == 0
  {
    if power < TWO63 {
      WordFits(2 * power);
    }
  }

  lemma {:induction false} DoubledTimesIs(n: nat)
    ensures DoubledTimes(n) == if n < 64 then Pow2(n) else 0
    ensures DoubledTimes(n) <= TWO63
  {
    Pow2Is64();
    if n != 0 {
      DoubledTimesIs(n - 1);
      DoubledIs(DoubledTimes(n - 1));
      hide Doubled;
      if n < 64 {
        Pow2Monotone(n, 63);
        assert Pow2(n) == 2 * Pow2(n - 1);
      }
    }
  }

  /** The rounding loop reaches its exit exactly for values up to 2^63. */
  lemma RoundUpExitsExactly(value: nat)
    ensures (exists n: nat :: DoubledTimes(n) >= value) <==> value <= TWO63
  {
    if value <= TWO63 {
      DoubledTimesIs(63);
      Pow2Is64();
      assert DoubledTimes(63) >= value;
    }
    if n: nat :| DoubledTimes(n) >= value {
      DoubledTimesIs(n);
    }
  }

  method RoundUpPowerOfTwo(value: nat) returns (power: nat)
    requires value <= TWO63
    ensures value <= power
    ensures exists k: nat :: power == Pow2(k)
    ensures forall k: nat :: value <= Pow2(k) ==> power <= Pow2(k)
  {
    if value <= 1 {
      assert 1 == Pow2(0);
      return 1;
    }
    power := 1;
    ghost var n: nat := 0;
    while power < value
      invariant power == Pow2(n) <= TWO63
      invariant n > 0 ==> Pow2(n - 1) < value
      decreases TWO63 - power
    {
      DoubledTimesIs(n + 1);
      DoubledTimesIs(n);
      PowerGap(n);
      power := Doubled(power);
      n := n + 1;
    }
    forall k: nat | value <= Pow2(k) ensures power <= Pow2(k) {
      if k < n {
        Pow2Monotone(k, n - 1);
      } else {
        Pow2Monotone(n, k);
      }
    }
  }

  lemma PowerGap(n: nat)
    requires Pow2(n) < TWO63
    ensures n < 63
  {
    Pow2Is64();
    if n >= 63 {
      Pow2Monotone(63, n);
    }
  }

  /** The least power of two that is not below a value. */
  function LeastPow2(value: nat): nat {
    if value <= 1 then 1 else 2 * LeastPow2((value + 1) / 2)
  }

  lemma {:induction false} LeastPow2Is(value: nat) returns (k: nat)
    ensures LeastPow2(value) == Pow2(k) && value <= Pow2(k)
    ensures forall j: nat :: value <= Pow2(j) ==> Pow2(k) <= Pow2(j)
  {
    if value <= 1 {
      k := 0;
    } else {
      var half := LeastPow2Is((value + 1) / 2);
      k := half + 1;
      forall j: nat | value <= Pow2(j) ensures Pow2(k) <= Pow2(j) {
        assert j > 0 && (value + 1) / 2 <= Pow2(j - 1);
      }
    }
  }

  /** The capacity that create settles on. */
  method EffectiveCapacity(capacity: nat) returns (effective: nat)
    requires 1 <= capacity <= TWO63
    ensures effective == LeastPow2(capacity)
    ensures effective >= 2 <==> capacity >= 2
  {
    PowerOfTwoTest(capacity);
    if IsPowerOfTwo(capacity) {
      effective := capacity;
    } else {
      effective := RoundUpPowerOfTwo(capacity);
    }
    ghost var k := LeastPow2Is(capacity);
    ghost var j: nat :| effective == Pow2(j);
    assert effective <= Pow2(k) <= Pow2(j);
    assert Pow2(0) == 1;
  }

  // ----- signed differences

  /** `(int64_t)sequence - (int64_t)position` on the stored words. */
  function Difference(sequence: nat, position: nat): int {
    ToInt64(sequence % TWO64) - ToInt64(position % TWO64)
  }

  /**
   * The difference of the stored words is the difference of the ideal counters
   * exactly when no 2^63 boundary separates them.
   */
  lemma DifferenceExact(sequence: nat, position: nat)
    requires sequence < TWO64 && position < TWO64
    ensures Difference(sequence, position) == sequence - position
            <==> (sequence < TWO63 <==> position < TWO63)
  {
  }
}
