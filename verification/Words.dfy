/** Powers of two and bitwise operations on non-negative integers. */
module Words {
  function BitAnd(a: nat, b: nat): (r: nat)
    ensures r <= b
  {
    if a == 0 || b == 0 then 0 else 2 * BitAnd(a / 2, b / 2) + (a % 2) * (b % 2)
  }

  function BitOr(a: nat, b: nat): (r: nat)
    ensures r >= a && r >= b
  {
    if a == 0 then b else if b == 0 then a
    else 2 * BitOr(a / 2, b / 2) + (if a % 2 == 1 || b % 2 == 1 then 1 else 0)
  }

  function BitXor(a: nat, b: nat): nat
  {
    if a == 0 then b else if b == 0 then a
    else 2 * BitXor(a / 2, b / 2) + (if a % 2 == b % 2 then 0 else 1)
  }

  function Power2(k: nat): (r: nat)
    ensures r >= 1
  {
    if k == 0 then 1 else 2 * Power2(k - 1)
  }

  lemma Power2Doubled(k: nat, m: nat)
    requires Power2(k) == m
    ensures Power2(k + k) == m * m
  {
    Power2Adds(k, k);
  }

  lemma {:induction false} Power2Adds(a: nat, b: nat)
    ensures Power2(a + b) == Power2(a) * Power2(b)
  {
    if a != 0 {
      Power2Adds(a - 1, b);
      assert Power2(a + b) == 2 * Power2(a - 1 + b);
    }
  }

  lemma BitOrEven(a: nat, y: nat)
    ensures BitOr(a, 2 * y) == 2 * BitOr(a / 2, y) + a % 2
  {
  }

  lemma Scale(a: int, b: int, n: nat)
    requires a <= b
    ensures a * n <= b * n
  {
  }

  lemma Doubled(b: nat, p: nat)
    ensures b * (2 * p) == 2 * (b * p) && b * p >= 0
  {
  }

  /** Bits that do not overlap add up. */
  lemma {:induction false} BitOrDisjoint(a: nat, b: nat, k: nat)
    requires a < Power2(k)
    ensures BitOr(a, b * Power2(k)) == a + b * Power2(k)
  {
    if k != 0 {
      var p := Power2(k - 1);
      Doubled(b, p);
      BitOrDisjoint(a / 2, b, k - 1);
      BitOrEven(a, b * p);
    }
  }

  lemma {:induction false} BitOrBelow(a: nat, b: nat, k: nat)
    requires a < Power2(k) && b < Power2(k)
    ensures BitOr(a, b) < Power2(k)
  {
    if k != 0 {
      BitOrBelow(a / 2, b / 2, k - 1);
    }
  }
}
