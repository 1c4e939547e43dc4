/** Unsigned machine words as natural numbers, and the bit operations the driver applies to them.
    Every operation is defined bit by bit, least significant bit first. */
module Bits {

  function Pow2(n: nat): (p: nat)
    ensures p >= 1
  {
    if n == 0 then 1 else 2 * Pow2(n - 1)
  }

  /** Bit `i` of `b`. */
  predicate Bit(b: nat, i: nat)
    decreases i
  {
    if i == 0 then b % 2 == 1 else Bit(b / 2, i - 1)
  }

  /** `b >> n`, as `n` shifts by one. */
  function ShiftRight(b: nat, n: nat): nat
    decreases n
  {
    if n == 0 then b else ShiftRight(b / 2, n - 1)
  }

  /** `b | (1 << k)`. */
  function SetBit(b: nat, k: nat): nat
    decreases k
  {
    if k == 0 then (if b % 2 == 1 then b else b + 1) else 2 * SetBit(b / 2, k - 1) + b % 2
  }

  lemma Pow2Monotone(m: nat, n: nat)
    requires m <= n
    ensures Pow2(m) <= Pow2(n)
    decreases n - m
  {
    if m < n {
      Pow2Monotone(m, n - 1);
    }
  }

  // ---------- Masks ----------

  function And(x: nat, y: nat): nat
    decreases x
  {
    if x == 0 || y == 0 then 0 else 2 * And(x / 2, y / 2) + (if x % 2 == 1 && y % 2 == 1 then 1 else 0)
  }

  function Or(x: nat, y: nat): nat
    decreases x + y
  {
    if x == 0 then y else if y == 0 then x
    else 2 * Or(x / 2, y / 2) + (if x % 2 == 1 || y % 2 == 1 then 1 else 0)
  }

  lemma {:induction false} AndUnfold(x: nat, y: nat)
    ensures And(x, y) == 2 * And(x / 2, y / 2) + (if x % 2 == 1 && y % 2 == 1 then 1 else 0)
  {
  }

  lemma {:induction false} DoubleMod(x: nat, m: nat)
    requires m >= 1
    ensures x % (2 * m) == 2 * ((x / 2) % m) + x % 2
  {
    var q, r := (x / 2) / m, (x / 2) % m;
    assert x / 2 == m * q + r;
    ModUnique(x, 2 * m, q, 2 * r + x % 2);
  }

  lemma ModUnique(x: nat, d: nat, q: nat, r: nat)
    requires d >= 1 && r < d && x == d * q + r
    ensures x % d == r && x / d == q
  {
    var a := x / d;
    MulGap(d, a, q);
    MulGap(d, q, a);
  }

  lemma {:induction false} MulGap(d: nat, a: nat, b: nat)
    ensures a < b ==> d * a + d <= d * b
    decreases b
  {
    if a < b {
      assert d * b == d * (b - 1) + d;
      MulGap(d, a, b - 1);
    }
  }

  lemma Pow2Half(k: nat)
    requires k > 0
    ensures Pow2(k) == 2 * Pow2(k - 1)
  {
  }

  /** Masking the low k bits is the remainder modulo 2^k. */
  lemma {:induction false} AndLow(x: nat, k: nat)
    ensures And(x, Pow2(k) - 1) == x % Pow2(k)
    decreases k
  {
    if k > 0 {
      hide And, Pow2;
      Pow2Half(k);
      AndUnfold(x, Pow2(k) - 1);
      AndLow(x / 2, k - 1);
      DoubleMod(x, Pow2(k - 1));
    }
  }

  /** A mask and its complement split a word. */
  lemma {:induction false} AndSplit(x: nat, y: nat, w: nat)
    requires x < Pow2(w) && y < Pow2(w)
    ensures And(x, y) + And(x, Pow2(w) - 1 - y) == x
    decreases w
  {
    if w > 0 {
      hide And, Pow2;
      var z := Pow2(w) - 1 - y;
      Pow2Half(w);
      Complement(y, Pow2(w - 1));
      AndSplit(x / 2, y / 2, w - 1);
      AndUnfold(x, y);
      AndUnfold(x, z);
      assert x == 2 * (x / 2) + x % 2;
    }
  }

  lemma Complement(y: nat, half: nat)
    requires y < 2 * half
    ensures (2 * half - 1 - y) / 2 == half - 1 - y / 2 && (2 * half - 1 - y) % 2 == 1 - y % 2
  {
  }

  /** `or` of a multiple of 2^k and a number below it is their sum. */
  lemma {:induction false} OrSum(x: nat, y: nat, k: nat)
    requires x % Pow2(k) == 0 && y < Pow2(k)
    ensures Or(x, y) == x + y
    decreases k
  {
    if k > 0 && x > 0 && y > 0 {
      DoubleMod(x, Pow2(k - 1));
      OrSum(x / 2, y / 2, k - 1);
    }
  }

  lemma {:induction false} OrUnfold(x: nat, y: nat)
    ensures Or(x, y) == 2 * Or(x / 2, y / 2) + (if x % 2 == 1 || y % 2 == 1 then 1 else 0)
  {
  }

  lemma OddMask(m: nat)
    requires m >= 1
    ensures (2 * m - 1) / 2 == m - 1 && (2 * m - 1) % 2 == 1
  {
  }

  /** Setting the low k bits: `m` is 2^k. */
  lemma {:induction false} OrLow(x: nat, k: nat, m: nat)
    requires m == Pow2(k)
    ensures Or(x, m - 1) == x - x % m + m - 1
    decreases k
  {
    if k > 0 {
      var h := Pow2(k - 1);
      OrLow(x / 2, k - 1, h);
      OrOdd(x, h);
      DoubleMod(x, h);
    }
  }

  lemma OrOdd(x: nat, m: nat)
    requires m >= 1
    ensures Or(x, 2 * m - 1) == 2 * Or(x / 2, m - 1) + 1
  {
    hide Or;
    OrUnfold(x, 2 * m - 1);
    OddMask(m);
  }
}
