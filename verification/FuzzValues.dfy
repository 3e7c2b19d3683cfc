/** What the evaluator's values mean, said without its steps: conversion picks the one value of the type that is the same
    word, arithmetic is exact up to that, bit operations work bit by bit, shifts multiply and divide. */
module FuzzValues {
  import opened Words
  import opened FuzzProgram
  import opened FuzzSoundness
  import opened FuzzOverflow

  /** Equal as words of this width. */
  predicate SameWord(w: Width, x: int, y: int) {
    x % Modulus(w) == y % Modulus(w)
  }

  lemma Remainder(m: nat, x: int, q: int, r: int)
    requires x == q * m + r && 0 <= r < m
    ensures x % m == r
  {
    var (q', r') := (x / m, x % m);
    assert x == q' * m + r' && (q' + 1) * m == q' * m + m && (q + 1) * m == q * m + m;
    if q' < q {
      Scale(q' + 1, q, m);
    } else if q < q' {
      Scale(q + 1, q', m);
    }
  }

  lemma WholeWords(m: nat, n: int, k: int)
    requires m > 0
    ensures (n + k * m) % m == n % m
  {
    assert n == (n / m) * m + n % m;
    assert (n / m + k) * m == (n / m) * m + k * m;
    Remainder(m, n + k * m, n / m + k, n % m);
  }

  /** Conversion to an integer type gives the one value the type can hold that is the same word. */
  lemma ConvertMeans(ty: ScalarType, n: int, r: int)
    requires ty.Scalar?
    ensures Convert(ty, n) == r <==> InRange(ty, r) && SameWord(ty.width, r, n)
  {
    hide Modulus;
    var m: nat := Modulus(ty.width);
    WholeWords(m, n % m, -1);
    WholeWords(m, n % m, 0);
    Remainder(m, n % m, 0, n % m);
    if 0 <= r < m {
      Remainder(m, r, 0, r);
    } else if 0 <= r + m < m {
      Remainder(m, r, -1, r + m);
    }
  }

  lemma SumWords(w: Width, x: int, y: int, x': int, y': int)
    requires SameWord(w, x, x') && SameWord(w, y, y')
    ensures SameWord(w, x + y, x' + y') && SameWord(w, x - y, x' - y')
  {
    hide Modulus;
    var m: nat := Modulus(w);
    var (p, q) := (x / m - x' / m, y / m - y' / m);
    Apart(m, x, x');
    Apart(m, y, y');
    assert (p + q) * m == p * m + q * m && (p - q) * m == p * m - q * m;
    WholeWords(m, x' + y', p + q);
    WholeWords(m, x' - y', p - q);
  }

  lemma Apart(m: nat, x: int, y: int)
    requires m > 0 && x % m == y % m
    ensures x == y + (x / m - y / m) * m
  {
    assert x == (x / m) * m + x % m && y == (y / m) * m + y % m;
    assert (x / m - y / m) * m == (x / m) * m - (y / m) * m;
  }

  lemma ProductWords(w: Width, x: int, y: int, x': int, y': int)
    requires SameWord(w, x, x') && SameWord(w, y, y')
    ensures SameWord(w, x * y, x' * y')
  {
    hide Modulus;
    var m: nat := Modulus(w);
    var (p, q) := (x / m - x' / m, y / m - y' / m);
    Apart(m, x, x');
    Apart(m, y, y');
    SameProduct(m, x, y, x', y', p, q);
  }

  lemma SameProduct(m: nat, x: int, y: int, x': int, y': int, p: int, q: int)
    requires m > 0 && x == x' + p * m && y == y' + q * m
    ensures (x * y) % m == (x' * y') % m
  {
    Expands(m, x', p, y', q);
    var k := p * (y' + q * m) + x' * q;
    WholeWords(m, x' * y', k);
  }

  lemma Expands(m: nat, x: int, p: int, y: int, q: int)
    ensures (x + p * m) * (y + q * m) == x * y + (p * (y + q * m) + x * q) * m
  {
    var z := y + q * m;
    assert (x + p * m) * z == x * z + (p * m) * z;
    assert x * z == x * y + x * (q * m);
    assert (p * m) * z == (p * z) * m && x * (q * m) == (x * q) * m;
    assert (p * z + x * q) * m == (p * z) * m + (x * q) * m;
  }

  /** Bit k of a word. */
  function BitAt(n: nat, k: nat): (b: nat)
    ensures b < 2
  {
    if k == 0 then n % 2 else BitAt(n / 2, k - 1)
  }

  lemma {:induction false} BitOfAnd(x: nat, y: nat, k: nat)
    ensures BitAt(BitAnd(x, y), k) == (if BitAt(x, k) == 1 && BitAt(y, k) == 1 then 1 else 0)
  {
    NoBits(k);
    if x != 0 && y != 0 {
      var low := if x % 2 == 1 && y % 2 == 1 then 1 else 0;
      assert (x % 2) * (y % 2) == low by { LowBits(x % 2, y % 2); }
      assert BitAnd(x, y) == 2 * BitAnd(x / 2, y / 2) + low;
      if k != 0 {
        BitOfAnd(x / 2, y / 2, k - 1);
      }
    }
  }

  lemma LowBits(a: nat, b: nat)
    requires a < 2 && b < 2
    ensures a * b == if a == 1 && b == 1 then 1 else 0
  {
  }

  lemma {:induction false} BitOfOr(x: nat, y: nat, k: nat)
    ensures BitAt(BitOr(x, y), k) == (if BitAt(x, k) == 1 || BitAt(y, k) == 1 then 1 else 0)
  {
    NoBits(k);
    if k != 0 && x != 0 && y != 0 {
      BitOfOr(x / 2, y / 2, k - 1);
    }
  }

  lemma {:induction false} BitOfXor(x: nat, y: nat, k: nat)
    ensures BitAt(BitXor(x, y), k) == (if BitAt(x, k) != BitAt(y, k) then 1 else 0)
  {
    NoBits(k);
    if k != 0 && x != 0 && y != 0 {
      BitOfXor(x / 2, y / 2, k - 1);
    }
  }

  lemma {:induction false} NoBits(k: nat)
    ensures BitAt(0, k) == 0
  {
    if k != 0 {
      NoBits(k - 1);
    }
  }

  lemma {:induction false} BitXorBelow(a: nat, b: nat, k: nat)
    requires a < Power2(k) && b < Power2(k)
    ensures BitXor(a, b) < Power2(k)
  {
    if k != 0 {
      BitXorBelow(a / 2, b / 2, k - 1);
    }
  }

  /** The bits of a value of this type. */
  function Word(ty: ScalarType, n: int): (w: nat)
    requires ty.Scalar?
    ensures w < Modulus(ty.width)
  {
    n % Modulus(ty.width)
  }

  predicate Bitwise(op: ArithOp) {
    op == And || op == Or || op == Xor
  }

  function Combined(op: ArithOp, x: nat, y: nat): nat {
    match op
    case And => if x == 1 && y == 1 then 1 else 0
    case Or => if x == 1 || y == 1 then 1 else 0
    case _ => if x != y then 1 else 0
  }

  function BitwiseOf(op: ArithOp, p: nat, q: nat): nat {
    match op
    case And => BitAnd(p, q)
    case Or => BitOr(p, q)
    case _ => BitXor(p, q)
  }

  lemma BitwiseFits(op: ArithOp, w: Width, p: nat, q: nat)
    requires Bitwise(op) && p < Modulus(w) && q < Modulus(w)
    ensures BitwiseOf(op, p, q) < Modulus(w)
    ensures forall k: nat :: BitAt(BitwiseOf(op, p, q), k) == Combined(op, BitAt(p, k), BitAt(q, k))
  {
    Power2IsModulus(w);
    BitOrBelow(p, q, Bits(w));
    BitXorBelow(p, q, Bits(w));
    forall k: nat ensures BitAt(BitwiseOf(op, p, q), k) == Combined(op, BitAt(p, k), BitAt(q, k)) {
      match op
      case And => BitOfAnd(p, q, k);
      case Or => BitOfOr(p, q, k);
      case _ => BitOfXor(p, q, k);
    }
  }

  lemma BitwiseMeans(op: ArithOp, a: Value, b: Value)
    requires Bitwise(op)
    ensures var (ty, r) := (Common(a.ty, b.ty), ArithValue(op, a, b));
      && r.ty == ty && InRange(ty, r.n)
      && forall k: nat :: BitAt(Word(ty, r.n), k) == Combined(op, BitAt(Word(ty, a.n), k), BitAt(Word(ty, b.n), k))
  {
    hide Modulus;
    hide Convert;
    hide InRange;
    hide BitAt;
    hide BitAnd;
    hide BitOr;
    hide BitXor;
    var ty := Common(a.ty, b.ty);
    ConvertMeans(ty, a.n, Convert(ty, a.n));
    ConvertMeans(ty, b.n, Convert(ty, b.n));
    var w := BitwiseOf(op, Word(ty, a.n), Word(ty, b.n));
    BitwiseFits(op, ty.width, Word(ty, a.n), Word(ty, b.n));
    assert ArithValue(op, a, b).n == Convert(ty, w);
    ConvertMeans(ty, w, Convert(ty, w));
    Remainder(Modulus(ty.width), w, 0, w);
  }

  /** Arithmetic is done in the common type: sums, differences and products are the exact ones as words, and bit operations
      combine the operands bit by bit. */
  lemma ArithMeans(op: ArithOp, a: Value, b: Value)
    ensures var (ty, r) := (Common(a.ty, b.ty), ArithValue(op, a, b));
      && r.ty == ty && InRange(ty, r.n)
      && match op
         case Add => SameWord(ty.width, r.n, a.n + b.n)
         case Sub => SameWord(ty.width, r.n, a.n - b.n)
         case Mul => SameWord(ty.width, r.n, a.n * b.n)
         case _ => forall k: nat :: BitAt(Word(ty, r.n), k) == Combined(op, BitAt(Word(ty, a.n), k), BitAt(Word(ty, b.n), k))
  {
    var ty := Common(a.ty, b.ty);
    var (x, y) := (Convert(ty, a.n), Convert(ty, b.n));
    ConvertMeans(ty, a.n, x);
    ConvertMeans(ty, b.n, y);
    match op
    case Add =>
      SumWords(ty.width, x, y, a.n, b.n);
      ConvertMeans(ty, x + y, Convert(ty, x + y));
    case Sub =>
      SumWords(ty.width, x, y, a.n, b.n);
      ConvertMeans(ty, x - y, Convert(ty, x - y));
    case Mul =>
      ProductWords(ty.width, x, y, a.n, b.n);
      ConvertMeans(ty, x * y, Convert(ty, x * y));
    case _ =>
      BitwiseMeans(op, a, b);
  }

  /** Where nothing overflows and the operands are in range, a signed sum, difference or product is the exact number. */
  lemma SignedIsExact(op: ArithOp, a: Value, b: Value)
    requires !Bitwise(op) && Common(a.ty, b.ty).signed && InRange(a.ty, a.n) && InRange(b.ty, b.n) && !ArithOverflows(op, a, b)
    ensures ArithValue(op, a, b).n == match op case Add => a.n + b.n case Sub => a.n - b.n case _ => a.n * b.n
  {
    hide Modulus;
    var ty := Common(a.ty, b.ty);
    CommonHolds(a.ty, b.ty, a.n);
    CommonHolds(a.ty, b.ty, b.n);
    var exact := match op case Add => a.n + b.n case Sub => a.n - b.n case _ => a.n * b.n;
    ConvertMeans(ty, exact, exact);
  }

  /** Negation and complement, as words of the promoted type. */
  lemma UnaryMeans(op: UnaryOp, a: Value)
    requires op != Not
    ensures var (ty, r) := (Promoted(a.ty), UnaryValue(op, a));
      r.ty == ty && InRange(ty, r.n) && SameWord(ty.width, r.n, if op == Neg then -a.n else -1 - a.n)
  {
    var ty := Promoted(a.ty);
    var x := Convert(ty, a.n);
    ConvertMeans(ty, a.n, x);
    SumWords(ty.width, 0, x, 0, a.n);
    SumWords(ty.width, -1, x, -1, a.n);
    ConvertMeans(ty, -x, Convert(ty, -x));
    ConvertMeans(ty, -1 - x, Convert(ty, -1 - x));
  }

  /** A shift by a count below the width multiplies by a power of two, as words, or divides by it, rounding down. */
  lemma ShiftMeans(op: ShiftOp, a: Value, count: Value)
    requires InRange(a.ty, a.n)
    ensures ShiftValue(op, a, count).Success? <==> 0 <= count.n < Bits(Promoted(a.ty).width)
    ensures ShiftValue(op, a, count).Success? ==>
      var (ty, r, p) := (Promoted(a.ty), ShiftValue(op, a, count).value, Power2(count.n));
      && r.ty == ty && InRange(ty, r.n)
      && if op == Shl then SameWord(ty.width, r.n, a.n * p) else r.n * p <= a.n < (r.n + 1) * p
  {
    if 0 <= count.n < Bits(Promoted(a.ty).width) {
      var (ty, p) := (Promoted(a.ty), Power2(count.n));
      ConvertMeans(ty, a.n, a.n);
      ConvertMeans(ty, a.n * p, Convert(ty, a.n * p));
      Floor(a.n, p);
      Shrinks(ty, a.n, p);
      ConvertMeans(ty, a.n / p, a.n / p);
    }
  }

  lemma Floor(n: int, p: nat)
    requires p > 0
    ensures (n / p) * p <= n < (n / p + 1) * p
  {
    assert n == (n / p) * p + n % p;
    assert (n / p + 1) * p == (n / p) * p + p;
  }

  lemma Shrinks(ty: ScalarType, n: int, p: nat)
    requires ty.Scalar? && InRange(ty, n) && p > 0
    ensures InRange(ty, n / p)
  {
    hide Modulus;
    Floor(n, p);
    Between(n, p, n / p);
  }

  lemma Between(n: int, p: nat, q: int)
    requires p > 0 && q * p <= n < (q + 1) * p
    ensures if n >= 0 then 0 <= q <= n else n <= q < 0
  {
    if n >= 0 {
      if q < 0 { Scale(q + 1, 0, p); }
      Scale(1, p, n + 1);
      if q > n { Scale(n + 1, q, p); }
    } else {
      if q >= 0 { Scale(0, q, p); }
      Scale(1, p, -n);
      if q < n { Scale(q + 1, n, p); }
    }
  }

  function Abs(n: int): nat {
    if n < 0 then -n else n
  }

  /** Division is undefined exactly on a zero divisor; otherwise it truncates toward zero, and the remainder has the sign of
      the dividend. */
  lemma QuotientMeans(op: QuotientOp, a: Value, b: Value) returns (q: int, rem: int)
    ensures var ty := Common(a.ty, b.ty);
      var (x, y, r) := (Convert(ty, a.n), Convert(ty, b.n), QuotientValue(op, a, b));
      && (r.Success? <==> y != 0)
      && (r.Success? ==>
            && x == q * y + rem && Abs(rem) < Abs(y) && (rem > 0 ==> x > 0) && (rem < 0 ==> x < 0)
            && r.value.ty == ty && InRange(ty, r.value.n) && SameWord(ty.width, r.value.n, if op == Div then q else rem))
  {
    var ty := Common(a.ty, b.ty);
    var (x, y) := (Convert(ty, a.n), Convert(ty, b.n));
    if y == 0 {
      q, rem := 0, 0;
    } else {
      q := TruncatedDiv(x, y);
      rem := x - y * q;
      TruncatedRest(x, y);
      ConvertMeans(ty, q, Convert(ty, q));
      ConvertMeans(ty, rem, Convert(ty, rem));
    }
  }

  lemma TruncatedRest(x: int, y: int)
    requires y != 0
    ensures var rem := x - y * TruncatedDiv(x, y);
      Abs(rem) < Abs(y) && (rem > 0 ==> x > 0) && (rem < 0 ==> x < 0)
  {
    hide TruncatedDiv;
    var d := Abs(x) / y;
    Product(x, y, d);
    Rest(Abs(x), y, d);
    SignedRest(x, y, d * y, y * TruncatedDiv(x, y));
  }

  lemma SignedRest(x: int, y: int, whole: int, product: int)
    requires 0 <= Abs(x) - whole < Abs(y) && product == (if x >= 0 then whole else -whole) && (x == 0 ==> whole == 0)
    ensures var rem := x - product; Abs(rem) < Abs(y) && (rem > 0 ==> x > 0) && (rem < 0 ==> x < 0)
  {
  }

  lemma Product(x: int, y: int, d: int)
    requires y != 0 && d == Abs(x) / y
    ensures y * TruncatedDiv(x, y) == if x >= 0 then d * y else -(d * y)
  {
    Signs(y, d);
  }

  lemma Rest(x: nat, y: int, d: int)
    requires y != 0 && d == x / y
    ensures 0 <= x - d * y < Abs(y)
  {
    assert x == d * y + x % y;
  }

  lemma Signs(y: int, d: int)
    ensures y * d == d * y && y * -d == -(d * y)
  {
  }

  /** Saturation gives the value of the type that is nearest to the exact one. */
  lemma ClampMeans(ty: ScalarType, n: int, other: int)
    requires ty.Scalar? && InRange(ty, other)
    ensures InRange(ty, Clamp(ty, n)) && Abs(n - Clamp(ty, n)) <= Abs(n - other)
  {
    match ty.width case W1 => case W2 => case W4 => case W8 =>
  }

  /** A comparison of values that the common type can hold compares the numbers themselves. */
  lemma CompareMeans(op: CompareOp, a: Value, b: Value)
    requires InRange(Common(a.ty, b.ty), a.n) && InRange(Common(a.ty, b.ty), b.n)
    ensures CompareValue(op, a, b).n == 1 <==>
      match op case Lt => a.n < b.n case Gt => a.n > b.n case Le => a.n <= b.n case Ge => a.n >= b.n case Eq => a.n == b.n case Ne => a.n != b.n
    ensures CompareValue(op, a, b).ty == Bit && CompareValue(op, a, b).n in {0, 1}
  {
    var ty := Common(a.ty, b.ty);
    ConvertMeans(ty, a.n, a.n);
    ConvertMeans(ty, b.n, b.n);
  }
}
