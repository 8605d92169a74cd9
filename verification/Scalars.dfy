/** What the scalar operations mean, case by case, in terms of integers, reals and bytes. */
module Scalars {
  import opened Cells

  // ----- Byte order of strings -----

  /** Up to position k the strings agree; there `a` has ended or holds the smaller byte. */
  predicate SmallerAt(a: string, b: string, k: nat) {
    k <= |a| && k < |b| && a[..k] == b[..k] && (k == |a| || a[k] < b[k])
  }

  ghost predicate StrBefore(a: string, b: string) { exists k: nat :: SmallerAt(a, b, k) }

  lemma {:induction false} LessHasPlace(a: string, b: string)
    requires StrLess(a, b)
    ensures StrBefore(a, b)
  {
    if a == [] || a[0] != b[0] {
      assert SmallerAt(a, b, 0);
    } else {
      LessHasPlace(a[1..], b[1..]);
      var k: nat :| SmallerAt(a[1..], b[1..], k);
      assert a == [a[0]] + a[1..] && b == [b[0]] + b[1..];
      assert a[..k + 1] == [a[0]] + a[1..][..k] && b[..k + 1] == [b[0]] + b[1..][..k];
      assert SmallerAt(a, b, k + 1);
    }
  }

  lemma {:induction false} PlaceIsLess(a: string, b: string, k: nat)
    requires SmallerAt(a, b, k)
    ensures StrLess(a, b)
  {
    if k > 0 {
      assert a[0] == a[..k][0] == b[..k][0] == b[0];
      assert a[1..][..k - 1] == a[..k][1..] && b[1..][..k - 1] == b[..k][1..];
      PlaceIsLess(a[1..], b[1..], k - 1);
    }
  }

  /** The string order is decided by the first differing byte; a proper prefix comes first. */
  lemma StrLessIff(a: string, b: string)
    ensures StrLess(a, b) <==> StrBefore(a, b)
  {
    if StrLess(a, b) { LessHasPlace(a, b); }
    if StrBefore(a, b) {
      var k: nat :| SmallerAt(a, b, k);
      PlaceIsLess(a, b, k);
    }
  }

  lemma {:induction false} StrLessTotal(a: string, b: string)
    ensures !(StrLess(a, b) && StrLess(b, a))
    ensures StrLess(a, b) || StrLess(b, a) <==> a != b
  {
    if a != [] && b != [] && a[0] == b[0] {
      StrLessTotal(a[1..], b[1..]);
      assert a == [a[0]] + a[1..] && b == [b[0]] + b[1..];
    }
  }

  lemma {:induction false} StrLessTransitive(a: string, b: string, c: string)
    requires StrLess(a, b) && StrLess(b, c)
    ensures StrLess(a, c)
  {
    if a != [] && a[0] == b[0] && b[0] == c[0] {
      StrLessTransitive(a[1..], b[1..], c[1..]);
    }
  }

  // ----- The order under a key -----

  /** The one value stands before the other under one key: a present value before NULL in
      either direction, present values by the order of numbers or bytes. */
  ghost predicate CellBefore(asc: bool, a: Cell, b: Cell) {
    match (a, b)
    case (Null, _) => false
    case (_, Null) => true
    case (Int(x), Int(y)) => if asc then x < y else x > y
    case (Float(x), Float(y)) => if asc then x < y else x > y
    case (Str(x), Str(y)) => if asc then StrBefore(x, y) else StrBefore(y, x)
    case (_, _) => false
  }

  // ----- Comparisons -----

  /** A truth value as the evaluator stores it. */
  predicate Says(c: Cell, b: bool) { c == if b then Int(1) else Int(0) }

  lemma IntComparisons(ty: TypeId, x: int, y: int)
    ensures Says(ApplyBinary(Eq, ty, Int(x), Int(y)), x == y) && Says(ApplyBinary(Ne, ty, Int(x), Int(y)), x != y)
    ensures Says(ApplyBinary(Lt, ty, Int(x), Int(y)), x < y) && Says(ApplyBinary(Le, ty, Int(x), Int(y)), x <= y)
    ensures Says(ApplyBinary(Gt, ty, Int(x), Int(y)), x > y) && Says(ApplyBinary(Ge, ty, Int(x), Int(y)), x >= y)
  {
  }

  /** The cell is a number with this value. */
  predicate Is(c: Cell, x: real) { c == Float(x) || (c.Int? && c.i as real == x) }

  /** As soon as one operand is a float, both are compared as reals. */
  lemma RealComparisons(ty: TypeId, a: Cell, b: Cell, x: real, y: real)
    requires Is(a, x) && Is(b, y) && (a.Float? || b.Float?)
    ensures Says(ApplyBinary(Eq, ty, a, b), x == y) && Says(ApplyBinary(Ne, ty, a, b), x != y)
    ensures Says(ApplyBinary(Lt, ty, a, b), x < y) && Says(ApplyBinary(Le, ty, a, b), x <= y)
    ensures Says(ApplyBinary(Gt, ty, a, b), x > y) && Says(ApplyBinary(Ge, ty, a, b), x >= y)
  {
  }

  lemma StringComparisons(ty: TypeId, x: string, y: string)
    ensures Says(ApplyBinary(Eq, ty, Str(x), Str(y)), x == y)
    ensures Says(ApplyBinary(Ne, ty, Str(x), Str(y)), x != y)
    ensures Says(ApplyBinary(Lt, ty, Str(x), Str(y)), StrBefore(x, y))
    ensures Says(ApplyBinary(Le, ty, Str(x), Str(y)), !StrBefore(y, x))
    ensures Says(ApplyBinary(Gt, ty, Str(x), Str(y)), StrBefore(y, x))
    ensures Says(ApplyBinary(Ge, ty, Str(x), Str(y)), !StrBefore(x, y))
  {
    StrLessIff(x, y);
    StrLessIff(y, x);
    StrLessTotal(x, y);
  }

  /** NULL in either operand gives NULL, whatever the operation; so do a string and a number,
      which the binder rejects. */
  lemma NullOperand(op: BinOp, ty: TypeId, c: Cell)
    ensures ApplyBinary(op, ty, Null, c) == Null && ApplyBinary(op, ty, c, Null) == Null
    ensures forall uop: UnOp :: ApplyUnary(uop, Null) == Null
    ensures op.IsComparison() && c.Str? ==> forall n: Cell :: IsNumber(n) ==> ApplyBinary(op, ty, c, n) == Null
  {
  }

  lemma EvalColumn(op: BinOp, ty: TypeId, i: nat, row: Row, v: Cell)
    requires i < |row|
    ensures Eval(Bin(op, ty, Ref(i, Int64), Lit(v, Int64)), row) == ApplyBinary(op, ty, row[i], v)
  {
  }

  /** A predicate `column op literal` on integers keeps a row exactly when the relation holds
      of the two numbers; a row with NULL in the column is never kept. */
  lemma WhereColumn(ty: TypeId, i: nat, row: Row, y: int)
    requires i < |row| && (row[i].Int? || row[i].Null?)
    ensures
      var column, literal := Ref(i, Int64), Lit(Int(y), Int64);
      && (Holds(Bin(Eq, ty, column, literal), row) <==> row[i] == Int(y))
      && (Holds(Bin(Ne, ty, column, literal), row) <==> row[i].Int? && row[i].i != y)
      && (Holds(Bin(Lt, ty, column, literal), row) <==> row[i].Int? && row[i].i < y)
      && (Holds(Bin(Le, ty, column, literal), row) <==> row[i].Int? && row[i].i <= y)
      && (Holds(Bin(Gt, ty, column, literal), row) <==> row[i].Int? && row[i].i > y)
      && (Holds(Bin(Ge, ty, column, literal), row) <==> row[i].Int? && row[i].i >= y)
  {
    forall op: BinOp ensures Eval(Bin(op, ty, Ref(i, Int64), Lit(Int(y), Int64)), row) ==
      ApplyBinary(op, ty, row[i], Int(y))
    {
      EvalColumn(op, ty, i, row, Int(y));
    }
    if row[i].Int? { IntComparisons(ty, row[i].i, y); }
  }

  // ----- Logic -----

  lemma Connectives(ty: TypeId, x: int, y: int)
    ensures Says(ApplyBinary(And, ty, Int(x), Int(y)), x != 0 && y != 0)
    ensures Says(ApplyBinary(Or, ty, Int(x), Int(y)), x != 0 || y != 0)
    ensures Says(ApplyUnary(Not, Int(x)), x == 0)
  {
  }

  // ----- Arithmetic -----

  /** t is r without its fraction. */
  predicate TowardZero(r: real, t: int) {
    if r >= 0.0 then t as real <= r < t as real + 1.0 else t as real - 1.0 < r <= t as real
  }

  lemma TruncMeaning(r: real)
    ensures TowardZero(r, Trunc(r))
  {
  }

  /** A float result is the real number itself, an integer result loses its fraction. */
  predicate Result(ty: TypeId, r: real, c: Cell) {
    if ty.IsFloat() then c == Float(r) else c.Int? && TowardZero(r, c.i)
  }

  lemma ResultOf(ty: TypeId, r: real)
    ensures Result(ty, r, if ty.IsFloat() then Float(r) else Int(Trunc(r)))
  {
    TruncMeaning(r);
  }

  lemma Sums(ty: TypeId, a: Cell, b: Cell, x: real, y: real)
    requires Is(a, x) && Is(b, y)
    ensures Result(ty, x + y, ApplyBinary(Add, ty, a, b)) && Result(ty, x - y, ApplyBinary(Sub, ty, a, b))
  {
    ResultOf(ty, x + y);
    ResultOf(ty, x - y);
  }

  lemma Products(ty: TypeId, a: Cell, b: Cell, x: real, y: real)
    requires Is(a, x) && Is(b, y)
    ensures Result(ty, x * y, ApplyBinary(Mul, ty, a, b))
  {
    assert ToReal(a) == x && ToReal(b) == y;
    ProductIs(ty, a, b, x * y);
    ResultOf(ty, x * y);
  }

  lemma ProductIs(ty: TypeId, a: Cell, b: Cell, m: real)
    requires IsNumber(a) && IsNumber(b) && m == ToReal(a) * ToReal(b)
    ensures ApplyBinary(Mul, ty, a, b) == if ty.IsFloat() then Float(m) else Int(Trunc(m))
  {
  }

  /** Division by zero gives NULL. */
  lemma Quotients(ty: TypeId, a: Cell, b: Cell, x: real, y: real)
    requires Is(a, x) && Is(b, y)
    ensures if y == 0.0 then ApplyBinary(Div, ty, a, b) == Null else Result(ty, x / y, ApplyBinary(Div, ty, a, b))
  {
    if y != 0.0 { ResultOf(ty, x / y); }
  }

  lemma Negation(x: int, r: real)
    ensures ApplyUnary(Neg, Int(x)) == Int(-x) && ApplyUnary(Neg, Float(r)) == Float(-r)
  {
  }

  lemma TruncExact(a: int)
    ensures Trunc(a as real) == a
  {
    assert (-(a as real)) == (-a) as real;
  }

  lemma ScaleLess(x: real, y: real, b: real)
    requires b > 0.0
    ensures x < y <==> x * b < y * b
  {
  }

  lemma FloorOfQuotient(a: nat, b: nat)
    requires b > 0
    ensures ((a as real) / (b as real)).Floor == a / b
  {
    var q := a / b;
    var x := (a as real) / (b as real);
    assert q * b <= a < q * b + b;
    assert x * (b as real) == a as real;
    assert (q as real) * (b as real) == (q * b) as real;
    assert ((q + 1) as real) * (b as real) == (q * b + b) as real;
    ScaleLess(x, q as real, b as real);
    ScaleLess(x, (q + 1) as real, b as real);
    assert q as real <= x < (q + 1) as real;
  }

  lemma QuotientSign(a: real, b: real)
    requires b != 0.0
    ensures (-a) / b == -(a / b) && a / (-b) == -(a / b) && (-a) / (-b) == a / b
  {
  }

  /** The evaluator divides in floating point and truncates; folding divides integers. */
  lemma TruncOfQuotient(a: int, b: int)
    requires b != 0
    ensures Trunc((a as real) / (b as real)) == TruncDiv(a, b)
  {
    var aa, bb := Abs(a), Abs(b);
    FloorOfQuotient(aa, bb);
    QuotientSign(aa as real, bb as real);
    var y := (aa as real) / (bb as real);
    assert y >= 0.0 by { if aa > 0 { assert y > 0.0; } }
    if a < 0 { assert a as real == -(aa as real); } else { assert a as real == aa as real; }
    if b < 0 { assert b as real == -(bb as real); } else { assert b as real == bb as real; }
    var x := (a as real) / (b as real);
    assert x == if (a < 0) == (b < 0) then y else -y;
    assert Trunc(x) == if (a < 0) == (b < 0) then y.Floor else -y.Floor;
  }

  lemma IntArithmeticFolds(op: BinOp, ty: TypeId, a: int, b: int)
    requires op.IsArithmetic() && !ty.IsFloat() && (op.Div? ==> b != 0)
    ensures ApplyBinary(op, ty, Int(a), Int(b)) ==
      Int(if op.Add? then a + b else if op.Sub? then a - b else if op.Mul? then a * b else TruncDiv(a, b))
  {
    if op.Div? {
      TruncOfQuotient(a, b);
    } else if op.Mul? {
      ProductExact(a, b);
    } else {
      TruncExact(a + b);
      TruncExact(a - b);
    }
  }

  lemma ProductExact(a: int, b: int)
    ensures Trunc((a as real) * (b as real)) == a * b
  {
    TruncExact(a * b);
    assert (a * b) as real == (a as real) * (b as real);
  }

  /** Quotient and remainder: the remainder is smaller than the divisor and has the sign of
      the dividend. */
  predicate Divides(x: int, y: int, q: int) {
    var rem := x - q * y;
    Abs(rem) < Abs(y) && (rem == 0 || (rem < 0 <==> x < 0))
  }

  /** Signs put back: the product of quotient and divisor takes the sign of the dividend. */
  lemma SignedProduct(x: int, y: int, q: int, p: int)
    requires p == q * Abs(y)
    ensures (if (x < 0) == (y < 0) then q else -q) * y == if x < 0 then -p else p
  {
  }

  lemma TruncDivMeaning(x: int, y: int)
    requires y != 0
    ensures Divides(x, y, TruncDiv(x, y))
  {
    var q: int, rem: int := Abs(x) / Abs(y), Abs(x) % Abs(y);
    var p := q * Abs(y);
    assert Abs(x) == p + rem;
    SignedProduct(x, y, q, p);
    assert x - TruncDiv(x, y) * y == if x < 0 then -rem else rem;
  }

  /** Integer arithmetic is exact, and division rounds toward zero. */
  lemma IntArithmetic(ty: TypeId, x: int, y: int)
    requires !ty.IsFloat()
    ensures ApplyBinary(Add, ty, Int(x), Int(y)) == Int(x + y) && ApplyBinary(Sub, ty, Int(x), Int(y)) == Int(x - y)
    ensures ApplyBinary(Mul, ty, Int(x), Int(y)) == Int(x * y)
    ensures
      var d := ApplyBinary(Div, ty, Int(x), Int(y));
      if y == 0 then d == Null else d.Int? && Divides(x, y, d.i)
  {
    IntArithmeticFolds(Add, ty, x, y);
    IntArithmeticFolds(Sub, ty, x, y);
    IntArithmeticFolds(Mul, ty, x, y);
    if y != 0 {
      IntArithmeticFolds(Div, ty, x, y);
      TruncDivMeaning(x, y);
    }
  }

  // ----- Casts -----

  /** An integer widens to the same number, a float is truncated toward zero, NULL stays NULL
      and a cast that changes no representation changes nothing. */
  lemma Casts(from: TypeId, to: TypeId, x: int, r: real, c: Cell)
    ensures from.Int64? && to.IsFloat() ==> ApplyCast(from, to, Int(x)) == Float(x as real)
    ensures from.IsFloat() && to.Int64? ==>
      ApplyCast(from, to, Float(r)).Int? && TowardZero(r, ApplyCast(from, to, Float(r)).i)
    ensures ApplyCast(from, to, Null) == Null
    ensures !(from.Int64? && to.IsFloat()) && !(from.IsFloat() && to.Int64?) ==> ApplyCast(from, to, c) == c
  {
    TruncMeaning(r);
  }
}
