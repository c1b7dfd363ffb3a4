/** Bitwise operations of C on unsigned numbers. */
module Bits {

  function And(a: nat, b: nat): (r: nat)
    ensures r <= b
  {
    if a == 0 || b == 0 then 0
    else 2 * And(a / 2, b / 2) + if a % 2 == 1 && b % 2 == 1 then 1 else 0
  }

  function Or(a: nat, b: nat): nat {
    if a == 0 then b else if b == 0 then a
    else 2 * Or(a / 2, b / 2) + if a % 2 == 1 || b % 2 == 1 then 1 else 0
  }

  predicate IsPowerOfTwo(n: nat) {
    n == 1 || (n > 1 && n % 2 == 0 && IsPowerOfTwo(n / 2))
  }

  lemma OrStep(a: nat, b: nat)
    ensures Or(a, b) == 2 * Or(a / 2, b / 2) + if a % 2 == 1 || b % 2 == 1 then 1 else 0
  {
  }

  lemma AndStep(a: nat, b: nat)
    ensures And(a, b) == 2 * And(a / 2, b / 2) + if a % 2 == 1 && b % 2 == 1 then 1 else 0
  {
  }

  lemma Halve(q: nat, p: nat, r: nat, b: nat)
    requires b == q * (2 * p) + r
    ensures b / 2 == q * p + r / 2 && b % 2 == r % 2
  {
    assert q * (2 * p) == 2 * (q * p);
  }

  /** Above a power of two p the operation is that of the multiples of p, below it the
      second operand alone. */
  lemma {:induction false} OrSplit(a: nat, x: nat, q: nat, r: nat, b: nat, p: nat)
    requires IsPowerOfTwo(p) && x == a * p && b == q * p + r && r < p
    ensures Or(x, b) == Or(a, q) * p + r
    decreases p
  {
    hide Or;
    if p > 1 {
      var h := p / 2;
      OrStep(x, b);
      Halve(a, h, 0, x);
      Halve(q, h, r, b);
      OrSplit(a, x / 2, q, r / 2, b / 2, h);
      Halve(Or(a, q), h, r, Or(a, q) * (2 * h) + r);
    }
  }

  /** A mask whose low part is all ones keeps what is below p. */
  lemma {:induction false} AndSplit(q: nat, r: nat, b: nat, a: nat, m: nat, p: nat)
    requires IsPowerOfTwo(p) && b == q * p + r && r < p && m == a * p + (p - 1)
    ensures And(b, m) == And(q, a) * p + r
    decreases p
  {
    hide And;
    if p > 1 {
      var h := p / 2;
      AndStep(b, m);
      Halve(q, h, r, b);
      Halve(a, h, p - 1, m);
      AndSplit(q, r / 2, b / 2, a, m / 2, h);
      Halve(And(q, a), h, r, And(q, a) * (2 * h) + r);
    }
  }

  /** A mask of ones below p leaves the remainder of a division by p. */
  lemma Mask(q: nat, r: nat, p: nat)
    requires IsPowerOfTwo(p) && r < p
    ensures And(q * p + r, p - 1) == r
  {
    hide And, IsPowerOfTwo;
    AndSplit(q, r, q * p + r, 0, p - 1, p);
    AndZero(q);
  }

  lemma AndZero(a: nat)
    ensures And(a, 0) == 0
  {
  }

  lemma Powers()
    ensures IsPowerOfTwo(8) && IsPowerOfTwo(16) && IsPowerOfTwo(32) && IsPowerOfTwo(64) && IsPowerOfTwo(0x400)
  {
    assert IsPowerOfTwo(4);
    assert IsPowerOfTwo(16);
    assert IsPowerOfTwo(64);
    assert IsPowerOfTwo(0x100);
  }
}
