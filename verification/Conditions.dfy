/**
 What a WHERE condition means, independently of how it is compiled, and the prefix code that
 represents it.
 */
module Conditions {
  import opened LogicVm

  datatype Expr = Const(l: int) | Var(name: string) | Bin(op: Operator, left: Expr, right: Expr)

  /** A condition is a list of comparisons joined by connectives; it groups to the right. */
  datatype Comparison = Comparison(rel: Operator, left: Expr, right: Expr)

  datatype Condition = Single(c: Comparison) | Join(c: Comparison, connective: Operator, rest: Condition)

  type Env = string -> int

  predicate IsArith(op: Operator) {
    op == ADD || op == SUB || op == MUL || op == DIV
  }

  predicate IsRelation(op: Operator) {
    op == EQ || op == NEQ || op == GE || op == GEQ || op == LE || op == LEQ
  }

  predicate WfExpr(e: Expr) {
    e.Bin? ==> IsArith(e.op) && WfExpr(e.left) && WfExpr(e.right)
  }

  predicate WfComparison(c: Comparison) {
    IsRelation(c.rel) && WfExpr(c.left) && WfExpr(c.right)
  }

  predicate WfCondition(w: Condition) {
    WfComparison(w.c) && (w.Join? ==> (w.connective == AND || w.connective == OR) && WfCondition(w.rest))
  }

  // ----- Meaning -----

  /** Value of an expression; a quotient with divisor zero counts as 0. */
  function Value(e: Expr, env: Env): int {
    match e
    case Const(l) => l
    case Var(x) => env(x)
    case Bin(op, l, r) =>
      var a, b := Value(l, env), Value(r, env);
      if op == ADD then a + b
      else if op == SUB then a - b
      else if op == MUL then a * b
      else if b == 0 then 0
      else TruncDiv(a, b)
  }

  /** Some quotient inside the expression has divisor zero. */
  predicate DividesByZero(e: Expr, env: Env) {
    e.Bin? &&
    (DividesByZero(e.left, env) || DividesByZero(e.right, env) || (e.op == DIV && Value(e.right, env) == 0))
  }

  predicate ComparisonDividesByZero(c: Comparison, env: Env) {
    DividesByZero(c.left, env) || DividesByZero(c.right, env)
  }

  predicate ConditionDividesByZero(w: Condition, env: Env) {
    ComparisonDividesByZero(w.c, env) || (w.Join? && ConditionDividesByZero(w.rest, env))
  }

  predicate ComparisonHolds(c: Comparison, env: Env) {
    var a, b := Value(c.left, env), Value(c.right, env);
    match c.rel
    case EQ => a == b
    case NEQ => a != b
    case GE => a > b
    case GEQ => a >= b
    case LE => a < b
    case _ => a <= b
  }

  predicate Holds(w: Condition, env: Env) {
    match w
    case Single(c) => ComparisonHolds(c, env)
    case Join(c, op, rest) =>
      if op == AND then ComparisonHolds(c, env) && Holds(rest, env)
      else ComparisonHolds(c, env) || Holds(rest, env)
  }

  // ----- Prefix code -----

  predicate KnowsExpr(names: seq<string>, e: Expr) {
    match e
    case Const(_) => true
    case Var(x) => x in names
    case Bin(_, l, r) => KnowsExpr(names, l) && KnowsExpr(names, r)
  }

  predicate KnowsCondition(names: seq<string>, w: Condition) {
    KnowsExpr(names, w.c.left) && KnowsExpr(names, w.c.right) && (w.Join? ==> KnowsCondition(names, w.rest))
  }

  function ExprCode(e: Expr, names: seq<string>): (code: seq<Cell>)
    ensures |code| >= 2
  {
    match e
    case Const(l) => [Type(OPERAND), Opnd(Long(l))]
    case Var(x) => [Type(OPERAND), Opnd(Variable(IndexOf(names, x)))]
    case Bin(op, l, r) => [Type(ARITH_OP), Op(op)] + ExprCode(l, names) + ExprCode(r, names)
  }

  function ComparisonCode(c: Comparison, names: seq<string>): (code: seq<Cell>)
    ensures |code| >= 2
  {
    [Type(CMP_OP), Op(c.rel)] + ExprCode(c.left, names) + ExprCode(c.right, names)
  }

  function ConditionCode(w: Condition, names: seq<string>): (code: seq<Cell>)
    ensures |code| >= 2
  {
    match w
    case Single(c) => ComparisonCode(c, names)
    case Join(c, op, rest) => [Type(CMP_OP), Op(op)] + ComparisonCode(c, names) + ConditionCode(rest, names)
  }

  /** The fragment `part` sits in `code` at position `ip`. */
  ghost predicate At(code: seq<Cell>, ip: nat, part: seq<Cell>) {
    ip + |part| <= |code| && code[ip..ip + |part|] == part
  }

  ghost predicate Agrees(names: seq<string>, values: seq<int>, env: Env) {
    |names| == |values| && forall i :: 0 <= i < |names| ==> values[i] == env(names[i])
  }

  lemma AtSplit(code: seq<Cell>, ip: nat, a: seq<Cell>, b: seq<Cell>)
    requires At(code, ip, a + b)
    ensures At(code, ip, a) && At(code, ip + |a|, b)
  {
    var part := code[ip..ip + |a + b|];
    assert part[..|a|] == a && part[|a|..] == b;
    assert code[ip..ip + |a|] == part[..|a|];
    assert code[ip + |a|..ip + |a| + |b|] == part[|a|..];
  }

  lemma AtHeader(code: seq<Cell>, ip: nat, x: Cell, y: Cell, a: seq<Cell>, b: seq<Cell>)
    requires At(code, ip, [x, y] + a + b)
    ensures code[ip] == x && code[ip + 1] == y
    ensures At(code, ip + 2, a) && At(code, ip + 2 + |a|, b)
  {
    assert [x, y] + a + b == [x, y] + (a + b);
    AtSplit(code, ip, [x, y], a + b);
    AtSplit(code, ip + 2, a, b);
    assert code[ip..ip + 2][0] == x && code[ip..ip + 2][1] == y;
  }

  // ----- Prefix code evaluates to the meaning -----

  lemma {:induction false} RunsExpr(code: seq<Cell>, ip: nat, e: Expr, names: seq<string>, values: seq<int>, env: Env)
    requires WfExpr(e) && KnowsExpr(names, e) && Agrees(names, values, env)
    requires At(code, ip, ExprCode(e, names))
    ensures RunArgument(code, ip, values).status == if DividesByZero(e, env) then MATH_ERROR else TRUE
    ensures !DividesByZero(e, env) ==>
      RunArgument(code, ip, values) == ExprStep(TRUE, Value(e, env), ip + |ExprCode(e, names)|)
    decreases e
  {
    hide RunArgument, Arith, Value, Agrees, At, IsArith;
    if e.Bin? {
      var mid := ip + 2 + |ExprCode(e.left, names)|;
      AtHeader(code, ip, Type(ARITH_OP), Op(e.op), ExprCode(e.left, names), ExprCode(e.right, names));
      RunsOperation(code, ip, e.op, values);
      ArithMeans(e, env);
      RunsExpr(code, ip + 2, e.left, names, values, env);
      if !DividesByZero(e.left, env) {
        RunsExpr(code, mid, e.right, names, values, env);
      }
    } else {
      RunsLeaf(code, ip, e, names, values, env);
    }
  }

  lemma RunsLeaf(code: seq<Cell>, ip: nat, e: Expr, names: seq<string>, values: seq<int>, env: Env)
    requires !e.Bin? && KnowsExpr(names, e) && Agrees(names, values, env)
    requires At(code, ip, ExprCode(e, names))
    ensures RunArgument(code, ip, values) == ExprStep(TRUE, Value(e, env), ip + |ExprCode(e, names)|)
  {
    assert code[ip..ip + 2][0] == code[ip] && code[ip..ip + 2][1] == code[ip + 1];
    assert code[ip] == Type(OPERAND) && code[ip + 1] == ExprCode(e, names)[1];
  }

  lemma ArithMeans(e: Expr, env: Env)
    requires e.Bin? && IsArith(e.op)
    ensures var a, b := Value(e.left, env), Value(e.right, env);
      Arith(e.op, a, b) == if e.op == DIV && b == 0 then ExprStep(MATH_ERROR, 0, 0)
                           else ExprStep(TRUE, Value(e, env), 0)
  {
  }

  lemma RunsComparison(code: seq<Cell>, ip: nat, c: Comparison, names: seq<string>, values: seq<int>, env: Env)
    requires WfComparison(c) && KnowsExpr(names, c.left) && KnowsExpr(names, c.right)
    requires Agrees(names, values, env)
    requires At(code, ip, ComparisonCode(c, names))
    ensures var r := RunLogicArgument(code, ip, values);
      if ComparisonDividesByZero(c, env) then r.status == MATH_ERROR
      else r == LogicStep(Truth(ComparisonHolds(c, env)), ip + |ComparisonCode(c, names)|)
  {
    hide RunLogic, RunLogicArgument, RunArgument, ExprCode, DividesByZero, Value, Compare, ComparisonHolds,
      WfExpr, KnowsExpr, Agrees;
    var mid := ip + 2 + |ExprCode(c.left, names)|;
    AtHeader(code, ip, Type(CMP_OP), Op(c.rel), ExprCode(c.left, names), ExprCode(c.right, names));
    RunsHeader(code, ip, c.rel, values);
    RunsRelation(code, ip + 2, c.rel, values);
    CompareMeans(c, env);
    RunsExpr(code, ip + 2, c.left, names, values, env);
    if !DividesByZero(c.left, env) {
      RunsExpr(code, mid, c.right, names, values, env);
    }
  }

  lemma RunsHeader(code: seq<Cell>, ip: nat, op: Operator, values: seq<int>)
    requires ip + 1 < |code| && code[ip] == Type(CMP_OP) && code[ip + 1] == Op(op)
    ensures RunLogicArgument(code, ip, values) == RunLogic(code, ip + 2, op, values)
  {
    hide RunLogic;
  }

  lemma CompareMeans(c: Comparison, env: Env)
    requires IsRelation(c.rel)
    ensures Compare(c.rel, Value(c.left, env), Value(c.right, env)) == Truth(ComparisonHolds(c, env))
  {
    hide Value;
  }

  lemma RunsRelation(code: seq<Cell>, ip: nat, op: Operator, values: seq<int>)
    requires IsRelation(op)
    ensures var x := RunArgument(code, ip, values); var y := RunArgument(code, x.ip, values);
      RunLogic(code, ip, op, values) ==
        if x.status != TRUE then LogicStep(x.status, x.ip)
        else if y.status != TRUE then LogicStep(y.status, y.ip)
        else LogicStep(Compare(op, x.value, y.value), y.ip)
  {
    hide RunArgument;
  }

  lemma RunsOperation(code: seq<Cell>, ip: nat, op: Operator, values: seq<int>)
    requires ip + 1 < |code| && code[ip] == Type(ARITH_OP) && code[ip + 1] == Op(op)
    ensures var x := RunArgument(code, ip + 2, values); var y := RunArgument(code, x.ip, values);
      RunArgument(code, ip, values) ==
        if x.status != TRUE then x
        else if y.status != TRUE then y
        else Arith(op, x.value, y.value).(ip := y.ip)
  {
  }

  lemma {:induction false} RunsCondition(code: seq<Cell>, ip: nat, w: Condition, names: seq<string>,
                                         values: seq<int>, env: Env)
    requires WfCondition(w) && KnowsCondition(names, w) && Agrees(names, values, env)
    requires At(code, ip, ConditionCode(w, names))
    ensures var r := RunLogicArgument(code, ip, values);
      if ConditionDividesByZero(w, env) then r.status == MATH_ERROR
      else r == LogicStep(Truth(Holds(w, env)), ip + |ConditionCode(w, names)|)
    decreases w
  {
    hide RunLogic, RunLogicArgument, ComparisonCode, ComparisonHolds, ComparisonDividesByZero, WfComparison, KnowsExpr,
      Agrees, At;
    match w
    case Single(c) =>
      RunsComparison(code, ip, c, names, values, env);
    case Join(c, op, rest) =>
      var mid := ip + 2 + |ComparisonCode(c, names)|;
      AtHeader(code, ip, Type(CMP_OP), Op(op), ComparisonCode(c, names), ConditionCode(rest, names));
      RunsHeader(code, ip, op, values);
      RunsComparison(code, ip + 2, c, names, values, env);
      if !ComparisonDividesByZero(c, env) {
        RunsCondition(code, mid, rest, names, values, env);
        RunsConnective(code, ip + 2, op, values, mid);
      } else {
        FailsConnective(code, ip + 2, op, values);
      }
  }

  lemma FailsConnective(code: seq<Cell>, ip: nat, op: Operator, values: seq<int>)
    requires IsConnective(op) && RunLogicArgument(code, ip, values).status.IsError()
    ensures RunLogic(code, ip, op, values) == RunLogicArgument(code, ip, values)
  {
  }

  lemma RunsConnective(code: seq<Cell>, ip: nat, op: Operator, values: seq<int>, mid: nat)
    requires op == AND || op == OR
    requires !RunLogicArgument(code, ip, values).status.IsError() && RunLogicArgument(code, ip, values).ip == mid
    ensures var p, q := RunLogicArgument(code, ip, values).status, RunLogicArgument(code, mid, values);
      RunLogic(code, ip, op, values) ==
        if q.status.IsError() then q
        else LogicStep(Truth(if op == AND then p == TRUE && q.status == TRUE else p == TRUE || q.status == TRUE), q.ip)
  {
  }

  /**
   Executing a buffer that starts with the prefix code of a condition returns the truth value of the
   condition and stops right behind the code; or it returns MATH_ERROR, exactly when a quotient
   somewhere in the condition has divisor zero.
   */
  lemma ExecutionMeansCondition(code: seq<Cell>, w: Condition, names: seq<string>, values: seq<int>, env: Env)
    requires WfCondition(w) && KnowsCondition(names, w) && Agrees(names, values, env)
    requires At(code, 0, ConditionCode(w, names))
    ensures Run(code, values).status == MATH_ERROR <==> ConditionDividesByZero(w, env)
    ensures !ConditionDividesByZero(w, env) ==>
      Run(code, values) == LogicStep(Truth(Holds(w, env)), |ConditionCode(w, names)|)
  {
    RunsCondition(code, 0, w, names, values, env);
    assert TypeAt(code, 0) == Type(CMP_OP) by {
      assert code[0] == ConditionCode(w, names)[0];
    }
  }

  // ----- Prefix code is uniquely readable -----

  /** Operands minus operators: 1 for a complete prefix expression. */
  function Weight(code: seq<Cell>): int {
    if code == [] then 0
    else Weight(code[..|code| - 1]) + (match code[|code| - 1] case Opnd(_) => 1 case Op(_) => -1 case _ => 0)
  }

  lemma {:induction false} WeightConcat(a: seq<Cell>, b: seq<Cell>)
    ensures Weight(a + b) == Weight(a) + Weight(b)
  {
    if b == [] {
      assert a + b == a;
    } else {
      assert (a + b)[..|a + b| - 1] == a + b[..|b| - 1];
      WeightConcat(a, b[..|b| - 1]);
    }
  }

  lemma {:induction false} ExprCodeWeight(e: Expr, names: seq<string>, k: nat)
    requires k <= |ExprCode(e, names)|
    ensures Weight(ExprCode(e, names)) == 1
    ensures k < |ExprCode(e, names)| ==> Weight(ExprCode(e, names)[..k]) <= 0
  {
    hide Weight;
    var code := ExprCode(e, names);
    match e
    case Const(l) =>
      LeafWeight(code, k);
    case Var(x) =>
      LeafWeight(code, k);
    case Bin(op, l, r) =>
      var h, a, b := [Type(ARITH_OP), Op(op)], ExprCode(l, names), ExprCode(r, names);
      var i := if k <= 2 then 0 else if k <= 2 + |a| then k - 2 else |a|;
      var j := if k <= 2 + |a| then 0 else k - 2 - |a|;
      HeaderWeight(h);
      assert h + a + b == code;
      WeightConcat(h + a, b);
      WeightConcat(h, a);
      ExprCodeWeight(l, names, i);
      ExprCodeWeight(r, names, j);
      assert a[..|a|] == a;
      if k <= 2 {
        assert code[..k] == h[..k];
      } else if k <= 2 + |a| {
        assert code[..k] == h + a[..i];
        WeightConcat(h, a[..i]);
      } else {
        assert code[..k] == h + a + b[..j];
        WeightConcat(h + a, b[..j]);
      }
  }

  lemma HeaderWeight(h: seq<Cell>)
    requires |h| == 2 && h[0].Type? && h[1].Op?
    ensures Weight(h) == -1 && Weight(h[..1]) == 0 && Weight(h[..0]) == 0 && h[..2] == h
  {
    assert h[..2] == h && h[..1] == [h[0]] && h[..0] == [];
    assert Weight(h) == Weight(h[..1]) - 1;
  }

  lemma LeafWeight(code: seq<Cell>, k: nat)
    requires |code| == 2 && code[0] == Type(OPERAND) && code[1].Opnd? && k <= 2
    ensures Weight(code) == 1
    ensures k < 2 ==> Weight(code[..k]) <= 0
  {
    assert code[..1] == [Type(OPERAND)] && code[..0] == [];
    assert Weight(code[..1]) == 0;
  }

  /** Code that begins with an expression begins with no other one, and the expression can be told from it. */
  lemma {:induction false} PrefixCodeUnique(e: Expr, f: Expr, names: seq<string>, s: seq<Cell>, t: seq<Cell>)
    requires KnowsExpr(names, e) && KnowsExpr(names, f)
    requires ExprCode(e, names) + s == ExprCode(f, names) + t
    ensures e == f && s == t
    decreases e
  {
    hide ExprCode;
    SameHead(e, f, names, s, t);
    if e.Bin? {
      PrefixCodeUnique(e.left, f.left, names, ExprCode(e.right, names) + s, ExprCode(f.right, names) + t);
      PrefixCodeUnique(e.right, f.right, names, s, t);
    }
  }

  /** The first two cells tell what the expression is. */
  lemma SameHead(e: Expr, f: Expr, names: seq<string>, s: seq<Cell>, t: seq<Cell>)
    requires KnowsExpr(names, e) && KnowsExpr(names, f)
    requires ExprCode(e, names) + s == ExprCode(f, names) + t
    ensures e.Bin? == f.Bin? && (!e.Bin? ==> e == f && s == t)
    ensures e.Bin? ==>
      && e.op == f.op
      && ExprCode(e.left, names) + (ExprCode(e.right, names) + s) ==
           ExprCode(f.left, names) + (ExprCode(f.right, names) + t)
  {
    var c, d := ExprCode(e, names), ExprCode(f, names);
    assert (c + s)[0] == c[0] && (d + t)[0] == d[0] && (c + s)[1] == c[1] && (d + t)[1] == d[1];
    if e.Bin? {
      Tail(Type(ARITH_OP), Op(e.op), ExprCode(e.left, names), ExprCode(e.right, names), s);
      Tail(Type(ARITH_OP), Op(f.op), ExprCode(f.left, names), ExprCode(f.right, names), t);
    } else {
      assert (c + s)[2..] == s && (d + t)[2..] == t;
    }
  }

  lemma Tail(x: Cell, y: Cell, l: seq<Cell>, r: seq<Cell>, s: seq<Cell>)
    ensures ([x, y] + l + r + s)[2..] == l + (r + s)
  {
  }

  lemma ComparisonCodeUnique(c: Comparison, d: Comparison, names: seq<string>, s: seq<Cell>, t: seq<Cell>)
    requires KnowsExpr(names, c.left) && KnowsExpr(names, c.right)
    requires KnowsExpr(names, d.left) && KnowsExpr(names, d.right)
    requires ComparisonCode(c, names) + s == ComparisonCode(d, names) + t
    ensures c == d && s == t
  {
    hide ExprCode;
    var a, b := ComparisonCode(c, names) + s, ComparisonCode(d, names) + t;
    var l, r, l', r' := ExprCode(c.left, names), ExprCode(c.right, names), ExprCode(d.left, names),
      ExprCode(d.right, names);
    assert a[1] == Op(c.rel) && b[1] == Op(d.rel);
    assert a[2..] == l + (r + s) && b[2..] == l' + (r' + t);
    PrefixCodeUnique(c.left, d.left, names, r + s, r' + t);
    PrefixCodeUnique(c.right, d.right, names, s, t);
  }

  /** The same for whole conditions: a program is the code of one condition at most. */
  lemma {:induction false} ConditionCodeUnique(w: Condition, v: Condition, names: seq<string>, s: seq<Cell>,
                                               t: seq<Cell>)
    requires WfCondition(w) && WfCondition(v) && KnowsCondition(names, w) && KnowsCondition(names, v)
    requires ConditionCode(w, names) + s == ConditionCode(v, names) + t
    ensures w == v && s == t
    decreases w
  {
    hide ExprCode, ComparisonCode, WfExpr, KnowsExpr, IsArith;
    var a, b := ConditionCode(w, names) + s, ConditionCode(v, names) + t;
    ConditionHead(w, names);
    ConditionHead(v, names);
    assert a[1] == ConditionCode(w, names)[1] && b[1] == ConditionCode(v, names)[1];
    if w.Single? {
      ComparisonCodeUnique(w.c, v.c, names, s, t);
    } else {
      var r, r' := ConditionCode(w.rest, names), ConditionCode(v.rest, names);
      Tail(Type(CMP_OP), Op(w.connective), ComparisonCode(w.c, names), r, s);
      Tail(Type(CMP_OP), Op(v.connective), ComparisonCode(v.c, names), r', t);
      ComparisonCodeUnique(w.c, v.c, names, r + s, r' + t);
      ConditionCodeUnique(w.rest, v.rest, names, s, t);
    }
  }

  lemma ConditionHead(w: Condition, names: seq<string>)
    ensures ConditionCode(w, names)[1] == Op(if w.Single? then w.c.rel else w.connective)
  {
  }
}
