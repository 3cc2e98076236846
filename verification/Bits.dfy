/** Bit masks on machine words, and what they mean arithmetically. */
module Bits {
  import opened Common
  import opened Modular

  // The number of values of a machine word of 64 bits.
  const WORD: nat := SIZE_MAX + 1

  function Pow2(n: nat): (r: nat)
    ensures r > 0
  {
    if n == 0 then 1 else 2 * Pow2(n - 1)
  }

  // Bitwise conjunction.
  function And(a: nat, b: nat): nat
    decreases a
  {
    if a == 0 || b == 0 then 0
    else 2 * And(a / 2, b / 2) + if a % 2 == 1 && b % 2 == 1 then 1 else 0
  }

  // The complement of a word.
  function Not(a: nat): nat
    requires a < WORD
  {
    WORD - 1 - a
  }

  predicate IsPowerOfTwo(value: nat) {
    value != 0 && And(value, value - 1) == 0
  }

  // Word arithmetic: the sum wraps.
  function AlignUp(value: nat, alignment: nat): nat
    requires value < WORD && 0 < alignment < WORD
  {
    var mask := alignment - 1;
    And((value + mask) % WORD, Not(mask))
  }

  predicate AddWouldOverflow(a: nat, b: nat) {
    b > SIZE_MAX - a
  }

  predicate MulWouldOverflow(a: nat, b: nat) {
    a != 0 && b > SIZE_MAX / a
  }

  lemma HalfTwice(value: nat, k: nat)
    requires k > 0
    ensures value / (2 * k) == (value / 2) / k
    ensures value % (2 * k) == 2 * ((value / 2) % k) + value % 2
  {
    var h := value / 2;
    var q, r := h / k, 2 * (h % k) + value % 2;
    assert value == 2 * h + value % 2 && h == q * k + h % k;
    assert value == q * (2 * k) + r;
    DivModUnique(value, 2 * k, q, r);
  }

  lemma AndStep(a: nat, b: nat)
    ensures And(a, b) == 2 * And(a / 2, b / 2) + if a % 2 == 1 && b % 2 == 1 then 1 else 0
  {
  }

  lemma AndEven(a: nat, half: nat)
    ensures And(a, 2 * half) == 2 * And(a / 2, half)
  {
    var even := 2 * half;
    assert even / 2 == half && even % 2 == 0;
    AndStep(a, even);
  }

  lemma AndOdd(a: nat, half: nat)
    ensures And(a, 2 * half + 1) == 2 * And(a / 2, half) + a % 2
  {
    var odd := 2 * half + 1;
    assert odd / 2 == half && odd % 2 == 1;
    AndStep(a, odd);
  }

  lemma {:induction false} AndSelf(a: nat)
    ensures And(a, a) == a
  {
    if a > 0 {
      AndSelf(a / 2);
    }
  }

  // A mask of k ones takes the remainder modulo 2^k.
  lemma {:induction false} AndMask(x: nat, k: nat)
    ensures And(x, Pow2(k) - 1) == x % Pow2(k)
    decreases k
  {
    if k > 0 {
      AndMask(x / 2, k - 1);
      HalfTwice(x, Pow2(k - 1));
      assert (Pow2(k) - 1) / 2 == Pow2(k - 1) - 1;
    }
  }

  // A word splits into its low k bits and the others.
  lemma {:induction false} AndSplit(x: nat, k: nat, w: nat)
    requires k <= w && x < Pow2(w)
    ensures Splits(x, Pow2(k), Pow2(w))
    decreases w
  {
    if k == 0 {
      AndAll(x, w);
      AndZero(x);
    } else {
      AndSplit(x / 2, k - 1, w - 1);
      SplitStep(x, Pow2(k - 1), Pow2(w - 1));
    }
  }

  predicate Splits(x: nat, p: nat, q: nat) {
    0 < p <= q && And(x, q - p) + And(x, p - 1) == x
  }

  lemma SplitStep(x: nat, p: nat, q: nat)
    requires Splits(x / 2, p, q)
    ensures Splits(x, 2 * p, 2 * q)
  {
    var a, b := q - p, p - 1;
    AndEven(x, a);
    AndOdd(x, b);
    assert 2 * q - 2 * p == 2 * a && 2 * p - 1 == 2 * b + 1;
  }

  lemma AndZero(x: nat)
    ensures And(x, 0) == 0
  {
  }

  lemma {:induction false} AndAll(x: nat, w: nat)
    requires x < Pow2(w)
    ensures And(x, Pow2(w) - 1) == x
    decreases w
  {
    if w > 0 {
      AndAll(x / 2, w - 1);
      AndOdd(x, Pow2(w - 1) - 1);
      assert Pow2(w) - 1 == 2 * (Pow2(w - 1) - 1) + 1;
    }
  }

  // Zeroing the low k of w bits rounds down to a multiple of 2^k.
  lemma AndComplement(x: nat, k: nat, w: nat)
    requires k <= w && x < Pow2(w)
    ensures Pow2(k) <= Pow2(w) && And(x, Pow2(w) - Pow2(k)) == x - x % Pow2(k)
  {
    AndSplit(x, k, w);
    AndMask(x, k);
  }

  lemma {:induction false} Pow2Mono(k: nat, w: nat)
    requires k <= w
    ensures Pow2(k) <= Pow2(w) && (k < w ==> Pow2(k) < Pow2(w))
    decreases w
  {
    if k < w {
      Pow2Mono(k, w - 1);
    }
  }

  ghost predicate SomePower(value: nat) {
    exists k: nat :: value == Pow2(k)
  }

  lemma SomePowerHalves(value: nat)
    requires value > 0
    ensures SomePower(value) <==> value == 1 || (value % 2 == 0 && SomePower(value / 2))
  {
    if k: nat :| value == Pow2(k) {
      assert k > 0 ==> value / 2 == Pow2(k - 1);
    }
    if k: nat :| value % 2 == 0 && value / 2 == Pow2(k) {
      assert value == Pow2(k + 1);
    }
    assert 1 == Pow2(0);
  }

  // The test on a word and its predecessor singles out the powers of two.
  lemma {:induction false} PowerOfTwoIff(value: nat)
    ensures IsPowerOfTwo(value) <==> SomePower(value)
  {
    if value > 0 {
      var h := value / 2;
      SomePowerHalves(value);
      AndStep(value, value - 1);
      if value % 2 == 1 {
        AndSelf(h);
      } else {
        PowerOfTwoIff(h);
      }
    }
  }

  lemma {:induction false} Pow2Sum(a: nat, b: nat)
    ensures Pow2(a + b) == Pow2(a) * Pow2(b)
    decreases b
  {
    if b > 0 {
      Pow2Sum(a, b - 1);
    }
  }

  lemma WordBits()
    ensures Pow2(64) == WORD
  {
    assert Pow2(8) == 0x100;
    Pow2Sum(8, 8);
    Pow2Sum(16, 16);
    Pow2Sum(32, 32);
  }

  // For the capacities the queues and the timer wheel admit, masking with the
  // capacity less one is taking the position modulo the capacity.
  lemma MaskIsModulo(pos: nat, capacity: nat)
    requires IsPowerOfTwo(capacity)
    ensures And(pos, capacity - 1) == pos % capacity
  {
    PowerOfTwoIff(capacity);
    var k: nat :| capacity == Pow2(k);
    AndMask(pos, k);
  }

  // Aligning up gives the least multiple at or above the value, or zero when
  // that does not fit in a word.
  lemma AlignUpExact(value: nat, alignment: nat)
    requires value < WORD && 0 < alignment < WORD && IsPowerOfTwo(alignment)
    ensures var up, r := AlignUp(value, alignment), value % alignment;
            up == if r == 0 then value else if value - r + alignment < WORD then value - r + alignment else 0
  {
    AlignUpMasks(value, alignment);
    var m := WordMultiple(alignment);
    RoundUp(value, alignment, m);
  }

  lemma AlignUpMasks(value: nat, alignment: nat)
    requires value < WORD && 0 < alignment < WORD && IsPowerOfTwo(alignment)
    ensures var sum := (value + alignment - 1) % WORD;
            AlignUp(value, alignment) == sum - sum % alignment
  {
    var sum := (value + alignment - 1) % WORD;
    var k := PowerInWord(alignment);
    WordBits();
    AndComplement(sum, k, 64);
    assert Not(alignment - 1) == Pow2(64) - Pow2(k);
  }

  lemma PowerInWord(alignment: nat) returns (k: nat)
    requires alignment < WORD && IsPowerOfTwo(alignment)
    ensures k < 64 && alignment == Pow2(k)
  {
    PowerOfTwoIff(alignment);
    k :| alignment == Pow2(k);
    WordBits();
    if k >= 64 {
      Pow2Mono(64, k);
    }
  }

  lemma RoundUp(value: nat, n: nat, m: nat)
    requires 0 < n && value < WORD == m * n
    ensures var sum, r := (value + n - 1) % WORD, value % n;
            sum - sum % n == if r == 0 then value else if value - r + n < WORD then value - r + n else 0
  {
    if value + n - 1 < WORD {
      RoundUpFits(value, n, m);
    } else {
      RoundUpWraps(value, n, m);
    }
  }

  lemma RoundUpFits(value: nat, n: nat, m: nat)
    requires 0 < n && value + n - 1 < WORD == m * n
    ensures var sum, r := (value + n - 1) % WORD, value % n;
            sum - sum % n == (if r == 0 then value else value - r + n) < WORD
  {
    var sum, q, r := value + n - 1, value / n, value % n;
    DivModUnique(sum, WORD, 0, sum);
    assert value == q * n + r && (q + 1) * n == q * n + n;
    if r == 0 {
      DivModUnique(sum, n, q, n - 1);
    } else {
      DivModUnique(sum, n, q + 1, r - 1);
    }
  }

  lemma RoundUpWraps(value: nat, n: nat, m: nat)
    requires 0 < n && value < WORD == m * n && value + n - 1 >= WORD
    ensures var sum, r := (value + n - 1) % WORD, value % n;
            sum - sum % n == 0 && r != 0 && value - r + n >= WORD
  {
    Scale(m, n);
    LastMultiple(value, n, m);
    SmallSum(value, n);
  }

  lemma SmallSum(value: nat, n: nat)
    requires 0 < n <= WORD && value < WORD <= value + n - 1
    ensures var sum := (value + n - 1) % WORD;
            sum == value + n - 1 - WORD && sum % n == sum
  {
    DivModUnique(value + n - 1, WORD, 1, value + n - 1 - WORD);
    DivModUnique(value + n - 1 - WORD, n, 0, value + n - 1 - WORD);
  }

  lemma NotAbove(a: int, b: int, n: int)
    requires a <= b && 0 < n
    ensures a * n <= b * n
  {
    assert (b - a) * n == b * n - a * n;
    if a < b {
      Scale(b - a, n);
    }
  }

  lemma WordMultiple(alignment: nat) returns (m: nat)
    requires alignment < WORD && IsPowerOfTwo(alignment)
    ensures WORD == m * alignment && 0 < m
  {
    var k := PowerInWord(alignment);
    WordBits();
    Pow2Sum(64 - k, k);
    m := Pow2(64 - k);
  }

  // Within one step of the end of a word only its last multiple is aligned.
  lemma LastMultiple(value: nat, n: nat, m: nat)
    requires 0 < n && value < m * n < value + n
    ensures value % n != 0 && value - value % n + n == m * n
  {
    assert (m - 1) * n == m * n - n;
    DivModUnique(value, n, m - 1, value - (m - 1) * n);
  }

  // The overflow test is exact.
  lemma ProductFits(count: nat, size: nat)
    requires count < WORD && size < WORD
    ensures MulWouldOverflow(count, size) <==> count * size >= WORD
  {
    if count > 0 {
      var q := SIZE_MAX / count;
      assert SIZE_MAX == q * count + SIZE_MAX % count;
      assert (q + 1) * count == q * count + count;
      if size > q {
        NotAbove(q + 1, size, count);
      } else {
        NotAbove(size, q, count);
      }
    }
  }
}
