/** The bitwise square root in the contract fixture (fixtures/QpiDual.h). Words are 64-bit: a result that does not fit
    fails to verify, so every addition below is free of wrap-around; a shift right by one or two is a division. */
module IntegerSqrt {
  import opened Words

  newtype uint64 = x: int | 0 <= x < 0x1_0000_0000_0000_0000

  /** The square tried at step k: a quarter of the square of 2^k, rounded down. */
  function Quarter(k: nat): (q: nat)
    ensures q == 0 <==> k == 0
  {
    if k == 0 then 0 else Power2(k - 1) * Power2(k - 1)
  }

  lemma QuarterShifts(k: nat)
    requires k > 0
    ensures Quarter(k) / 4 == Quarter(k - 1)
  {
    if k > 1 {
      var p := Power2(k - 2);
      assert Quarter(k) == (2 * p) * (2 * p) == 4 * (p * p);
    }
  }

  /** The root found so far is q, its remaining uncertainty 2^k. */
  ghost predicate Narrowed(n: nat, k: nat, q: nat, root: int, rest: int, bit: int) {
    var h := Power2(k);
    && bit == Quarter(k)
    && root == q * h
    && rest == n - q * q
    && q * q <= n < (q + h) * (q + h)
    && q + h <= 0x1_0000_0000
  }

  /** The sum compared in the loop is the growth of the square, and fits a word. */
  lemma SumFits(n: nat, k: nat, q: nat, root: int, rest: int, bit: int)
    requires k > 0 && Narrowed(n, k, q, root, rest, bit)
    ensures root + bit == (q + Power2(k - 1)) * (q + Power2(k - 1)) - q * q
    ensures root + bit < 0x1_0000_0000_0000_0000
    ensures root / 2 == q * Power2(k - 1)
  {
    var p := Power2(k - 1);
    assert root == q * (2 * p) == 2 * (q * p);
    assert (q + p) * (q + p) == q * q + 2 * (q * p) + p * p;
    SquareBelow(q + p);
  }

  lemma SquareBelow(x: nat)
    requires x < 0x1_0000_0000
    ensures x * x < 0x1_0000_0000_0000_0000
  {
    Squares(x, 0xFFFF_FFFF);
  }

  lemma StepTaken(n: nat, k: nat, q: nat, root: int, rest: int, bit: int)
    requires k > 0 && Narrowed(n, k, q, root, rest, bit) && rest >= root + bit
    ensures Narrowed(n, k - 1, q + Power2(k - 1), root / 2 + bit, rest - (root + bit), bit / 4)
  {
    var p := Power2(k - 1);
    SumFits(n, k, q, root, rest, bit);
    QuarterShifts(k);
    assert (q + p) * p == q * p + p * p;
    assert q + p + p == q + Power2(k);
  }

  lemma StepSkipped(n: nat, k: nat, q: nat, root: int, rest: int, bit: int)
    requires k > 0 && Narrowed(n, k, q, root, rest, bit) && rest < root + bit
    ensures Narrowed(n, k - 1, q, root / 2, rest, bit / 4)
  {
    SumFits(n, k, q, root, rest, bit);
    QuarterShifts(k);
  }

  lemma Start(n: nat)
    requires n < 0x1_0000_0000_0000_0000
    ensures Narrowed(n, 32, 0, 0, n, 0x4000_0000_0000_0000)
  {
    assert Power2(8) == 0x100;
    assert Power2(16) == 0x1_0000;
    assert Power2(24) == 0x100_0000;
    assert Power2(31) == 0x8000_0000;
  }

  /** A trial square above the value leaves the root below half the range. */
  lemma Shrunk(n: nat, k: nat, bit: int)
    requires Narrowed(n, k, 0, 0, n, bit) && bit > n
    ensures k > 0 && Narrowed(n, k - 1, 0, 0, n, bit / 4)
  {
    QuarterShifts(k);
  }

  /** The integer square root of every 64-bit value. */
  method Root(n: uint64) returns (root: uint64)
    ensures root as int * root as int <= n as int < (root as int + 1) * (root as int + 1)
  {
    var rootValue := n;
    root := 0;
    var rootBit: uint64 := 0x4000_0000_0000_0000;
    ghost var k: nat := 32;
    Start(n as nat);
    while rootBit > rootValue
      invariant rootValue == n && Narrowed(n as nat, k, 0, 0, n as int, rootBit as int)
      decreases k
    {
      Shrunk(n as nat, k, rootBit as int);
      rootBit := rootBit / 4;
      k := k - 1;
    }
    ghost var q: nat := 0;
    while rootBit != 0
      invariant Narrowed(n as nat, k, q, root as int, rootValue as int, rootBit as int)
      decreases k
    {
      SumFits(n as nat, k, q, root as int, rootValue as int, rootBit as int);
      if rootValue >= root + rootBit {
        StepTaken(n as nat, k, q, root as int, rootValue as int, rootBit as int);
        rootValue := rootValue - (root + rootBit);
        root := root / 2 + rootBit;
        q := q + Power2(k - 1);
      } else {
        StepSkipped(n as nat, k, q, root as int, rootValue as int, rootBit as int);
        root := root / 2;
      }
      rootBit := rootBit / 4;
      k := k - 1;
    }
    assert root as int == q;
  }

  /** The root is the only number with that property. */
  lemma RootUnique(n: nat, r: nat, s: nat)
    requires r * r <= n < (r + 1) * (r + 1) && s * s <= n < (s + 1) * (s + 1)
    ensures r == s
  {
    if r < s {
      Squares(r + 1, s);
    } else if s < r {
      Squares(s + 1, r);
    }
  }

  lemma Squares(a: nat, b: nat)
    requires a <= b
    ensures a * a <= b * b
  {
    assert a * a <= a * b <= b * b;
  }

  /** What the fixture adds to its checksum: the root of the square, which wraps at 64 bits. The seed comes back exactly
      when nothing wraps. */
  method RootOfSquare(seed: uint64) returns (root: uint64)
    ensures
      var square := (seed as int * seed as int) % 0x1_0000_0000_0000_0000;
      root as int * root as int <= square < (root as int + 1) * (root as int + 1)
    ensures root == seed <==> seed < 0x1_0000_0000
  {
    var rootValue := ((seed as int * seed as int) % 0x1_0000_0000_0000_0000) as uint64;
    root := Root(rootValue);
    if seed >= 0x1_0000_0000 {
      Squares(0x1_0000_0000, seed as int);
    } else {
      SquareBelow(seed as int);
      assert (seed as int + 1) * (seed as int + 1) == seed as int * seed as int + 2 * seed as int + 1;
      RootUnique(rootValue as int, root as int, seed as int);
    }
  }
}
