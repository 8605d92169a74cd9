/** Cell values, scalar expressions and the vectorised expression evaluator.

    A cell is one slot of a data vector: a missing validity bit is `Null`, integer and
    BOOLEAN vectors share the integer store (a boolean is 0 or 1), and floating-point
    vectors are modelled over the reals.  `Eval` is the meaning of an expression on one
    row; the methods below are the column-at-a-time evaluator proved against it. */
module Cells {

  datatype Cell = Null | Int(i: int) | Float(f: real) | Str(s: string)

  type Row = seq<Cell>

  datatype TypeId = Invalid | Boolean | Int8 | Int16 | Int32 | Int64 | Float32 | Float64 | Varchar
  {
    predicate IsFloat() { Float32? || Float64? }
    predicate IsInteger() { Int8? || Int16? || Int32? || Int64? }
    predicate IsNumeric() { IsFloat() || IsInteger() }
  }

  datatype BinOp = Add | Sub | Mul | Div | Eq | Lt | Gt | Le | Ge | Ne | And | Or
  {
    predicate IsArithmetic() { Add? || Sub? || Mul? || Div? }
    predicate IsComparison() { Eq? || Lt? || Gt? || Le? || Ge? || Ne? }
  }

  datatype UnOp = Not | Neg

  datatype Expr =
    | Ref(idx: nat, ty: TypeId)
    | Lit(value: Cell, ty: TypeId)
    | Bin(op: BinOp, ty: TypeId, left: Expr, right: Expr)
    | Un(uop: UnOp, ty: TypeId, child: Expr)
    | Cast(from: TypeId, ty: TypeId, child: Expr)

  // ----- Scalar meaning -----

  /** Byte-wise lexicographic order of std::string. */
  predicate StrLess(a: string, b: string) {
    if b == [] then false
    else if a == [] then true
    else if a[0] != b[0] then a[0] < b[0]
    else StrLess(a[1..], b[1..])
  }

  /** The conversion static_cast<int64_t>(double): truncation toward zero. */
  function Trunc(r: real): int {
    if r >= 0.0 then r.Floor else -((-r).Floor)
  }

  /** Integer division as the host language does it: truncation toward zero. */
  function TruncDiv(a: int, b: int): int
    requires b != 0
  {
    var q := Abs(a) / Abs(b);
    if (a < 0) == (b < 0) then q else -q
  }

  function Abs(a: int): nat { if a < 0 then -a else a }

  function BoolCell(b: bool): Cell { Int(if b then 1 else 0) }

  predicate IsNumber(c: Cell) { c.Int? || c.Float? }

  function ToReal(c: Cell): real
    requires IsNumber(c)
  {
    if c.Int? then c.i as real else c.f
  }

  function Compare<T(==)>(op: BinOp, a: T, b: T, less: bool, greater: bool): bool {
    match op
    case Eq => a == b
    case Ne => a != b
    case Lt => less
    case Gt => greater
    case Le => less || a == b
    case _ => greater || a == b
  }

  /** One slot of ApplyBinaryOp.  A null operand gives null; an operand pair the binder
      rejects (for instance a string and a number) is given null here. */
  function ApplyBinary(op: BinOp, ty: TypeId, l: Cell, r: Cell): Cell {
    if l.Null? || r.Null? then Null
    else if op.IsArithmetic() then
      if !IsNumber(l) || !IsNumber(r) then Null
      else
        var lv, rv := ToReal(l), ToReal(r);
        if op.Div? && rv == 0.0 then Null
        else
          var res := if op.Add? then lv + rv else if op.Sub? then lv - rv else if op.Mul? then lv * rv else lv / rv;
          if ty.IsFloat() then Float(res) else Int(Trunc(res))
    else if op.IsComparison() then
      if l.Str? && r.Str? then BoolCell(Compare(op, l.s, r.s, StrLess(l.s, r.s), StrLess(r.s, l.s)))
      else if !IsNumber(l) || !IsNumber(r) then Null
      else if l.Float? || r.Float? then
        BoolCell(Compare(op, ToReal(l), ToReal(r), ToReal(l) < ToReal(r), ToReal(r) < ToReal(l)))
      else BoolCell(Compare(op, l.i, r.i, l.i < r.i, r.i < l.i))
    else if l.Int? && r.Int? then
      BoolCell(if op.And? then l.i != 0 && r.i != 0 else l.i != 0 || r.i != 0)
    else Null
  }

  function ApplyUnary(op: UnOp, c: Cell): Cell {
    match (op, c)
    case (Not, Int(i)) => BoolCell(i == 0)
    case (Neg, Int(i)) => Int(-i)
    case (Neg, Float(f)) => Float(-f)
    case (_, _) => Null
  }

  function ApplyCast(from: TypeId, to: TypeId, c: Cell): Cell {
    if from.Int64? && to.IsFloat() && c.Int? then Float(c.i as real)
    else if from.IsFloat() && to.Int64? && c.Float? then Int(Trunc(c.f))
    else c
  }

  /** Meaning of an expression on one row.  A literal denotes its own value. */
  function Eval(e: Expr, row: Row): Cell {
    match e
    case Ref(idx, _) => if idx < |row| then row[idx] else Null
    case Lit(v, _) => v
    case Bin(op, ty, l, r) => ApplyBinary(op, ty, Eval(l, row), Eval(r, row))
    case Un(op, _, c) => ApplyUnary(op, Eval(c, row))
    case Cast(from, ty, c) => ApplyCast(from, ty, Eval(c, row))
  }

  /** A predicate keeps a row when its value is neither null nor zero. */
  predicate IsTrue(c: Cell) { c.Int? && c.i != 0 }

  predicate Holds(e: Expr, row: Row) { IsTrue(Eval(e, row)) }

  predicate AllHold(es: seq<Expr>, row: Row) { forall e <- es :: Holds(e, row) }

  // ----- Column references -----

  function Refs(e: Expr): set<nat> {
    match e
    case Ref(idx, _) => {idx}
    case Lit(_, _) => {}
    case Bin(_, _, l, r) => Refs(l) + Refs(r)
    case Un(_, _, c) => Refs(c)
    case Cast(_, _, c) => Refs(c)
  }

  /** Every reference of e addresses one of the first n columns. */
  predicate RefsBelow(e: Expr, n: nat) {
    match e
    case Ref(idx, _) => idx < n
    case Lit(_, _) => true
    case Bin(_, _, l, r) => RefsBelow(l, n) && RefsBelow(r, n)
    case Un(_, _, c) => RefsBelow(c, n)
    case Cast(_, _, c) => RefsBelow(c, n)
  }

  function RefsOf(es: seq<Expr>): set<nat> {
    set e, i | e in es && i in Refs(e) :: i
  }

  /** Replace every column reference; a reference outside the map stays as it is. */
  function Remap(e: Expr, m: map<nat, nat>): Expr {
    match e
    case Ref(idx, ty) => Ref(if idx in m then m[idx] else idx, ty)
    case Lit(_, _) => e
    case Bin(op, ty, l, r) => Bin(op, ty, Remap(l, m), Remap(r, m))
    case Un(op, ty, c) => Un(op, ty, Remap(c, m))
    case Cast(from, ty, c) => Cast(from, ty, Remap(c, m))
  }

  /** The rows agree at every reference of e, through the remapping. */
  ghost predicate Agree(e: Expr, m: map<nat, nat>, from: Row, to: Row) {
    forall i <- Refs(e) :: i < |from| && i in m && m[i] < |to| && to[m[i]] == from[i]
  }

  /** Rows that agree at every reference give the same value. */
  lemma {:induction false} RemapKeepsValue(e: Expr, m: map<nat, nat>, from: Row, to: Row)
    requires Agree(e, m, from, to)
    ensures Eval(Remap(e, m), to) == Eval(e, from)
  {
    match e
    case Ref(idx, _) => assert idx in Refs(e);
    case Lit(_, _) =>
    case Bin(_, _, l, r) =>
      assert Refs(l) <= Refs(e) && Refs(r) <= Refs(e);
      RemapKeepsValue(l, m, from, to);
      RemapKeepsValue(r, m, from, to);
    case Un(_, _, c) =>
      assert Refs(c) <= Refs(e);
      RemapKeepsValue(c, m, from, to);
    case Cast(_, _, c) =>
      assert Refs(c) <= Refs(e);
      RemapKeepsValue(c, m, from, to);
  }

  // ----- Chunks and the vectorised evaluator -----

  datatype Chunk = Chunk(columns: seq<seq<Cell>>, count: nat)
  {
    ghost predicate Valid() { forall c <- columns :: |c| == count }

    function RowAt(i: nat): Row
      requires Valid() && i < count
    {
      seq(|columns|, c requires 0 <= c < |columns| => columns[c][i])
    }

    function Rows(): seq<Row>
      requires Valid()
    {
      seq(count, i requires 0 <= i < count => RowAt(i))
    }
  }

  /** The rows of a sequence of chunks. */
  function Concat(chunks: seq<Chunk>): seq<Row>
    requires forall c <- chunks :: c.Valid()
  {
    if chunks == [] then [] else Concat(chunks[..|chunks| - 1]) + chunks[|chunks| - 1].Rows()
  }

  method ApplyBinaryOp(op: BinOp, ty: TypeId, left: seq<Cell>, right: seq<Cell>, count: nat) returns (out: seq<Cell>)
    requires |left| == |right| == count
    ensures |out| == count
    ensures forall i :: 0 <= i < count ==> out[i] == ApplyBinary(op, ty, left[i], right[i])
  {
    out := [];
    for i := 0 to count
      invariant |out| == i
      invariant forall k :: 0 <= k < i ==> out[k] == ApplyBinary(op, ty, left[k], right[k])
    {
      if left[i].Null? || right[i].Null? {
        out := out + [Null];
      } else {
        out := out + [ApplyBinary(op, ty, left[i], right[i])];
      }
    }
  }

  method ApplyPointwise(f: Cell -> Cell, src: seq<Cell>) returns (out: seq<Cell>)
    ensures |out| == |src| && forall i :: 0 <= i < |src| ==> out[i] == f(src[i])
  {
    out := [];
    for i := 0 to |src|
      invariant |out| == i && forall k :: 0 <= k < i ==> out[k] == f(src[k])
    {
      out := out + [f(src[i])];
    }
  }

  /** Column-at-a-time evaluation computes, in slot i, the scalar meaning on row i. */
  method Evaluate(e: Expr, chunk: Chunk) returns (out: seq<Cell>)
    requires chunk.Valid()
    requires RefsBelow(e, |chunk.columns|)
    ensures |out| == chunk.count
    ensures forall i :: 0 <= i < chunk.count ==> out[i] == Eval(e, chunk.RowAt(i))
    decreases e
  {
    match e {
      case Ref(idx, _) =>
        out := chunk.columns[idx];
      case Lit(v, _) =>
        out := seq(chunk.count, _ => v);
      case Bin(op, ty, l, r) =>
        var lv := Evaluate(l, chunk);
        var rv := Evaluate(r, chunk);
        out := ApplyBinaryOp(op, ty, lv, rv, chunk.count);
      case Un(op, _, c) =>
        var cv := Evaluate(c, chunk);
        out := ApplyPointwise(x => ApplyUnary(op, x), cv);
      case Cast(from, ty, c) =>
        var cv := Evaluate(c, chunk);
        out := ApplyPointwise(x => ApplyCast(from, ty, x), cv);
    }
  }

  /** The selection vector: exactly the rows that satisfy the predicate, in order. */
  method EvaluatePredicate(e: Expr, chunk: Chunk) returns (sel: seq<nat>)
    requires chunk.Valid()
    requires RefsBelow(e, |chunk.columns|)
    ensures forall i: nat :: i in sel <==> i < chunk.count && Holds(e, chunk.RowAt(i))
    ensures forall i, j :: 0 <= i < j < |sel| ==> sel[i] < sel[j]
  {
    var result := Evaluate(e, chunk);
    sel := [];
    for i := 0 to chunk.count
      invariant forall k: nat :: k in sel <==> k < i && Holds(e, chunk.RowAt(k))
      invariant forall k :: 0 <= k < |sel| ==> sel[k] < i
      invariant forall k, m :: 0 <= k < m < |sel| ==> sel[k] < sel[m]
    {
      if !result[i].Null? && IsTrue(result[i]) {
        sel := sel + [i];
      }
    }
  }
}
