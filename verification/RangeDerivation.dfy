/**
 Range derivation (apps/antelope/lvm.c): an abstract run of the bytecode that bounds the variables a
 condition constrains, so that an index can be searched for the rows that may satisfy it.
 */
module RangeDerivation {
  import opened LogicVm
  import opened Conditions

  const LONG_MAX: int := 0x7fff_ffff
  const LONG_MIN: int := -0x8000_0000

  datatype Range = Range(derived: bool, min: int, max: int)

  const NO_RANGE := Range(false, 0, 0)

  datatype DeriveStep = DeriveStep(status: Status, ranges: seq<Range>, ip: nat)

  function Intersection(r: Range, a: Range, b: Range): Range {
    if !a.derived && !b.derived then r
    else if a.derived && !b.derived then Range(true, a.min, a.max)
    else if !a.derived && b.derived then Range(true, b.min, b.max)
    else Range(true, if a.min > b.min then a.min else b.min, if a.max < b.max then a.max else b.max)
  }

  function Union(r: Range, a: Range, b: Range): Range {
    if !a.derived && !b.derived then r
    else if a.derived && !b.derived then Range(true, a.min, a.max)
    else if !a.derived && b.derived then Range(true, b.min, b.max)
    else Range(true, if a.min > b.min then b.min else a.min, if a.max < b.max then b.max else a.max)
  }

  function Merge(op: Operator, r: seq<Range>, a: seq<Range>, b: seq<Range>): (m: seq<Range>)
    requires |r| == |a| == |b|
    ensures |m| == |r|
  {
    seq(|r|, i requires 0 <= i < |r| => if op == AND then Intersection(r[i], a[i], b[i]) else Union(r[i], a[i], b[i]))
  }

  function Blank(n: nat): (r: seq<Range>)
    ensures |r| == n && forall i :: 0 <= i < n ==> r[i] == NO_RANGE
  {
    seq(n, _ => NO_RANGE)
  }

  /** The variable id that the union of an operand holds: of a constant, its lowest byte. */
  function UnionId(o: Operand): nat {
    match o
    case Variable(id) => id
    case Long(l) => l % 256
  }

  function LeafRange(op: Operator, l: int): Range {
    match op
    case EQ => Range(true, l, l)
    case GE => Range(true, l + 1, LONG_MAX)
    case GEQ => Range(true, l, LONG_MAX)
    case LE => Range(true, LONG_MIN, l - 1)
    case _ => Range(true, LONG_MIN, l)
  }

  predicate HasLeafRange(op: Operator) {
    op == EQ || op == GE || op == GEQ || op == LE || op == LEQ
  }

  function DeriveLeaf(op: Operator, x: Operand, y: Operand, d: seq<Range>): DeriveStep {
    if x.Variable? && y.Variable? then DeriveStep(DERIVATION_ERROR, d, 0)
    else
      var id := if x.Variable? then x.id else UnionId(y);
      var l := if x.Variable? then y.l else x.l;
      if id >= |d| || !HasLeafRange(op) then DeriveStep(DERIVATION_ERROR, d, 0)
      else DeriveStep(TRUE, d[id := LeafRange(op, l)], 0)
  }

  /** derive_relation at `ip`; the ranges mean something only when the status is TRUE. */
  function DeriveAt(code: seq<Cell>, ip: nat, d: seq<Range>): (r: DeriveStep)
    ensures r.status == TRUE || r.status == DERIVATION_ERROR
    ensures r.status == TRUE ==> ip < |code| && ip < r.ip && |r.ranges| == |d|
    decreases |code| - ip
  {
    var o := OperatorAt(code, ip + 1);
    if !o.Op? || o.op == NOT then DeriveStep(DERIVATION_ERROR, d, ip)
    else if IsConnective(o.op) then
      var a := DeriveAt(code, ip + 2, Blank(|d|));
      if a.status != TRUE then DeriveStep(DERIVATION_ERROR, d, ip)
      else
        var b := DeriveAt(code, a.ip, Blank(|d|));
        if b.status != TRUE then DeriveStep(DERIVATION_ERROR, d, ip)
        else DeriveStep(TRUE, Merge(o.op, d, a.ranges, b.ranges), b.ip)
    else
      var x, y := OperandAt(code, ip + 3), OperandAt(code, ip + 5);
      if TypeAt(code, ip + 2) != Type(OPERAND) || TypeAt(code, ip + 4) != Type(OPERAND) || !x.Opnd? || !y.Opnd?
      then DeriveStep(DERIVATION_ERROR, d, ip)
      else DeriveLeaf(o.op, x.operand, y.operand, d).(ip := ip + 6)
  }

  // ----- The imperative derivation -----

  method CreateIntersection(result: array<Range>, d1: array<Range>, d2: array<Range>)
    requires result.Length == d1.Length == d2.Length && result != d1 && result != d2
    modifies result
    ensures result[..] == Merge(AND, old(result[..]), d1[..], d2[..])
  {
    for i := 0 to result.Length
      invariant forall k :: i <= k < result.Length ==> result[k] == old(result[k])
      invariant forall k :: 0 <= k < i ==> result[k] == Intersection(old(result[k]), d1[k], d2[k])
    {
      if !d1[i].derived && !d2[i].derived {
        continue;
      } else if d1[i].derived && !d2[i].derived {
        result[i] := Range(true, d1[i].min, d1[i].max);
      } else if !d1[i].derived && d2[i].derived {
        result[i] := Range(true, d2[i].min, d2[i].max);
      } else {
        var min := if d1[i].min > d2[i].min then d1[i].min else d2[i].min;
        var max := if d1[i].max < d2[i].max then d1[i].max else d2[i].max;
        result[i] := Range(true, min, max);
      }
    }
  }

  method CreateUnion(result: array<Range>, d1: array<Range>, d2: array<Range>)
    requires result.Length == d1.Length == d2.Length && result != d1 && result != d2
    modifies result
    ensures result[..] == Merge(OR, old(result[..]), d1[..], d2[..])
  {
    for i := 0 to result.Length
      invariant forall k :: i <= k < result.Length ==> result[k] == old(result[k])
      invariant forall k :: 0 <= k < i ==> result[k] == Union(old(result[k]), d1[k], d2[k])
    {
      if !d1[i].derived && !d2[i].derived {
        continue;
      } else if d1[i].derived && !d2[i].derived {
        result[i] := Range(true, d1[i].min, d1[i].max);
      } else if !d1[i].derived && d2[i].derived {
        result[i] := Range(true, d2[i].min, d2[i].max);
      } else {
        var min := if d1[i].min > d2[i].min then d2[i].min else d1[i].min;
        var max := if d1[i].max < d2[i].max then d2[i].max else d1[i].max;
        result[i] := Range(true, min, max);
      }
    }
  }

  method DeriveRelation(vm: Lvm, d: array<Range>) returns (r: Status)
    modifies vm`ip, d
    ensures r == DeriveAt(vm.code[..], old(vm.ip), old(d[..])).status
    ensures r == TRUE ==> DeriveStep(r, d[..], vm.ip) == DeriveAt(vm.code[..], old(vm.ip), old(d[..]))
    ensures r != TRUE ==> forall i :: 0 <= i < d.Length ==> d[i].derived == old(d[i].derived)
    decreases vm.code.Length - vm.ip
  {
    hide DeriveAt, Merge;
    ghost var ranges := d[..];
    var t := vm.GetType();
    var o := vm.GetOperator();
    if !o.Op? || (IsConnective(o.op) && o.op != AND && o.op != OR) {
      NothingDerived(vm.code[..], old(vm.ip), ranges);
      return DERIVATION_ERROR;
    }
    if IsConnective(o.op) {
      DerivesConnective(vm.code[..], old(vm.ip), o.op, ranges);
      var d1 := new Range[d.Length](_ => NO_RANGE);
      var d2 := new Range[d.Length](_ => NO_RANGE);
      assert d1[..] == Blank(d.Length) && d2[..] == Blank(d.Length) && d[..] == ranges;
      r := DeriveRelation(vm, d1);
      if r.IsError() {
        return DERIVATION_ERROR;
      }
      r := DeriveRelation(vm, d2);
      if r.IsError() {
        return DERIVATION_ERROR;
      }
      if o.op == AND {
        CreateIntersection(d, d1, d2);
      } else {
        CreateUnion(d, d1, d2);
      }
      return TRUE;
    }

    r := DeriveComparison(vm, o.op, d);
  }

  lemma NothingDerived(code: seq<Cell>, ip: nat, d: seq<Range>)
    requires var o := OperatorAt(code, ip + 1); !o.Op? || o.op == NOT
    ensures DeriveAt(code, ip, d).status == DERIVATION_ERROR
  {
  }

  lemma DerivesLeaf(code: seq<Cell>, ip: nat, op: Operator, d: seq<Range>)
    requires OperatorAt(code, ip + 1) == Op(op) && !IsConnective(op)
    ensures
      var x, y := OperandAt(code, ip + 3), OperandAt(code, ip + 5);
      DeriveAt(code, ip, d)
      == if TypeAt(code, ip + 2) != Type(OPERAND) || TypeAt(code, ip + 4) != Type(OPERAND) || !x.Opnd? || !y.Opnd?
         then DeriveStep(DERIVATION_ERROR, d, ip)
         else DeriveLeaf(op, x.operand, y.operand, d).(ip := ip + 6)
  {
  }

  /** The part of derive_relation that handles a comparison, once its operator has been read. */
  method DeriveComparison(vm: Lvm, op: Operator, d: array<Range>) returns (r: Status)
    requires vm.ip >= 2 && !IsConnective(op) && OperatorAt(vm.code[..], vm.ip - 1) == Op(op)
    modifies vm`ip, d
    ensures r == DeriveAt(vm.code[..], old(vm.ip) - 2, old(d[..])).status
    ensures r == TRUE ==> DeriveStep(r, d[..], vm.ip) == DeriveAt(vm.code[..], old(vm.ip) - 2, old(d[..]))
    ensures r != TRUE ==> forall i :: 0 <= i < d.Length ==> d[i].derived == old(d[i].derived)
  {
    hide DeriveAt, DeriveLeaf;
    ghost var code, ranges := vm.code[..], d[..];
    DerivesLeaf(code, vm.ip - 2, op, ranges);
    var t;
    var operand := [Long(0), Long(0)];
    for i := 0 to 2
      invariant |operand| == 2 && vm.ip == old(vm.ip) + 2 * i && d[..] == ranges
      invariant i >= 1 ==>
        && TypeAt(code, old(vm.ip)) == Type(OPERAND)
        && OperandAt(code, old(vm.ip) + 1) == Opnd(operand[0])
      invariant i >= 2 ==>
        && TypeAt(code, old(vm.ip) + 2) == Type(OPERAND)
        && OperandAt(code, old(vm.ip) + 3) == Opnd(operand[1])
    {
      t := vm.GetType();
      if t != Type(OPERAND) {
        return DERIVATION_ERROR;
      }
      var x := vm.GetOperand();
      if !x.Opnd? {
        return DERIVATION_ERROR;
      }
      operand := operand[i := x.operand];
    }
    r := StoreRange(op, operand[0], operand[1], d);
  }

  /** The rest of derive_relation: the range goes to the variable of the comparison. */
  method StoreRange(op: Operator, x: Operand, y: Operand, d: array<Range>) returns (r: Status)
    modifies d
    ensures r == DeriveLeaf(op, x, y, old(d[..])).status
    ensures r == TRUE ==> d[..] == DeriveLeaf(op, x, y, old(d[..])).ranges
    ensures r != TRUE ==> forall i :: 0 <= i < d.Length ==> d[i].derived == old(d[i].derived)
  {
    if x.Variable? && y.Variable? {
      return DERIVATION_ERROR;
    }
    var id, value;
    if x.Variable? {
      id, value := x.id, y.l;
    } else {
      id, value := UnionId(y), x.l;
    }
    if id >= d.Length {
      return DERIVATION_ERROR;
    }
    d[id] := Range(d[id].derived, LONG_MIN, LONG_MAX);
    match op {
      case EQ =>
        d[id] := Range(d[id].derived, value, value);
      case GE =>
        d[id] := Range(d[id].derived, value + 1, d[id].max);
      case GEQ =>
        d[id] := Range(d[id].derived, value, d[id].max);
      case LE =>
        d[id] := Range(d[id].derived, d[id].min, value - 1);
      case LEQ =>
        d[id] := Range(d[id].derived, d[id].min, value);
      case _ =>
        return DERIVATION_ERROR;
    }
    d[id] := Range(true, d[id].min, d[id].max);
    return TRUE;
  }

  // ----- Which conditions have derived ranges, and which ones -----

  predicate IsLeaf(e: Expr) {
    !e.Bin?
  }

  function LeafOperand(e: Expr, names: seq<string>): Operand
    requires IsLeaf(e)
  {
    match e case Const(l) => Long(l) case Var(x) => Variable(IndexOf(names, x))
  }

  /** The shape of a comparison that the derivation accepts. */
  predicate DerivableComparison(c: Comparison, names: seq<string>, n: nat) {
    && IsLeaf(c.left) && IsLeaf(c.right) && !(c.left.Var? && c.right.Var?) && HasLeafRange(c.rel)
    && (if c.left.Var? then IndexOf(names, c.left.name) else UnionId(LeafOperand(c.right, names))) < n
  }

  predicate Derivable(w: Condition, names: seq<string>, n: nat) {
    DerivableComparison(w.c, names, n) && (w.Join? ==> Derivable(w.rest, names, n))
  }

  function ComparisonRanges(c: Comparison, names: seq<string>, n: nat): (r: seq<Range>)
    requires DerivableComparison(c, names, n)
    ensures |r| == n
  {
    DeriveLeaf(c.rel, LeafOperand(c.left, names), LeafOperand(c.right, names), Blank(n)).ranges
  }

  function Ranges(w: Condition, names: seq<string>, n: nat): (r: seq<Range>)
    requires Derivable(w, names, n)
    ensures |r| == n
  {
    match w
    case Single(c) => ComparisonRanges(c, names, n)
    case Join(c, op, rest) => Merge(op, Blank(n), ComparisonRanges(c, names, n), Ranges(rest, names, n))
  }

  lemma LeafAt(code: seq<Cell>, ip: nat, e: Expr, names: seq<string>)
    requires At(code, ip, ExprCode(e, names))
    ensures IsLeaf(e) ==> |ExprCode(e, names)| == 2 && TypeAt(code, ip) == Type(OPERAND)
                          && OperandAt(code, ip + 1) == Opnd(LeafOperand(e, names))
    ensures !IsLeaf(e) ==> TypeAt(code, ip) != Type(OPERAND)
  {
    assert code[ip] == code[ip..ip + |ExprCode(e, names)|][0];
    assert code[ip + 1] == code[ip..ip + |ExprCode(e, names)|][1];
  }

  lemma DerivesComparison(code: seq<Cell>, ip: nat, c: Comparison, names: seq<string>, n: nat)
    requires WfComparison(c) && At(code, ip, ComparisonCode(c, names))
    ensures var r := DeriveAt(code, ip, Blank(n));
      if DerivableComparison(c, names, n)
      then r == DeriveStep(TRUE, ComparisonRanges(c, names, n), ip + |ComparisonCode(c, names)|)
      else r.status == DERIVATION_ERROR
  {
    AtHeader(code, ip, Type(CMP_OP), Op(c.rel), ExprCode(c.left, names), ExprCode(c.right, names));
    LeafAt(code, ip + 2, c.left, names);
    LeafAt(code, ip + 2 + |ExprCode(c.left, names)|, c.right, names);
  }

  lemma OperatorOfHeader(code: seq<Cell>, ip: nat, op: Operator, a: seq<Cell>, b: seq<Cell>)
    requires At(code, ip, [Type(CMP_OP), Op(op)] + a + b)
    ensures OperatorAt(code, ip + 1) == Op(op)
  {
    AtHeader(code, ip, Type(CMP_OP), Op(op), a, b);
  }

  lemma DerivesConnective(code: seq<Cell>, ip: nat, op: Operator, d: seq<Range>)
    requires (op == AND || op == OR) && OperatorAt(code, ip + 1) == Op(op)
    ensures var a := DeriveAt(code, ip + 2, Blank(|d|)); var b := DeriveAt(code, a.ip, Blank(|d|));
      if a.status == TRUE && b.status == TRUE
      then DeriveAt(code, ip, d) == DeriveStep(TRUE, Merge(op, d, a.ranges, b.ranges), b.ip)
      else DeriveAt(code, ip, d).status == DERIVATION_ERROR
  {
    hide Merge;
  }

  /** Derivation of the prefix code of a condition: when it succeeds, and with which ranges. */
  lemma {:induction false} DerivesCondition(code: seq<Cell>, ip: nat, w: Condition, names: seq<string>, n: nat)
    requires WfCondition(w) && At(code, ip, ConditionCode(w, names))
    ensures var r := DeriveAt(code, ip, Blank(n));
      if Derivable(w, names, n)
      then r == DeriveStep(TRUE, Ranges(w, names, n), ip + |ConditionCode(w, names)|)
      else r.status == DERIVATION_ERROR
    decreases w
  {
    hide ExprCode, ComparisonCode, WfComparison, DerivableComparison, ComparisonRanges, DeriveAt, Merge;
    match w
    case Single(c) => DerivesComparison(code, ip, c, names, n);
    case Join(c, op, rest) =>
      OperatorOfHeader(code, ip, op, ComparisonCode(c, names), ConditionCode(rest, names));
      AtHeader(code, ip, Type(CMP_OP), Op(op), ComparisonCode(c, names), ConditionCode(rest, names));
      DerivesConnective(code, ip, op, Blank(n));
      DerivesComparison(code, ip + 2, c, names, n);
      DerivesCondition(code, ip + 2 + |ComparisonCode(c, names)|, rest, names, n);
  }

  // ----- Soundness -----

  predicate InRange(r: Range, v: int) {
    r.derived ==> r.min <= v <= r.max
  }

  ghost predicate AllInRange(ranges: seq<Range>, names: seq<string>, env: Env) {
    forall i :: 0 <= i < |ranges| && i < |names| ==> InRange(ranges[i], env(names[i]))
  }

  ghost predicate Longs(env: Env, names: seq<string>) {
    forall x :: x in names ==> LONG_MIN <= env(x) <= LONG_MAX
  }

  /** The variable stands first; or the comparison is an equality of a constant and a variable. */
  predicate VariableFirst(c: Comparison) {
    (c.left.Var? && c.right.Const?) || (c.left.Const? && c.right.Var? && c.rel == EQ)
  }

  function ComparedVariable(c: Comparison): string
    requires VariableFirst(c)
  {
    if c.left.Var? then c.left.name else c.right.name
  }

  predicate Oriented(w: Condition) {
    VariableFirst(w.c) && (w.Join? ==> Oriented(w.rest))
  }

  function Constrained(w: Condition): set<string>
    requires Oriented(w)
  {
    {ComparedVariable(w.c)} + if w.Join? then Constrained(w.rest) else {}
  }

  /** Both sides of every OR constrain the same variables. */
  predicate SidesAgree(w: Condition)
    requires Oriented(w)
  {
    w.Join? ==> SidesAgree(w.rest) && (w.connective == OR ==> Constrained(w.rest) == {ComparedVariable(w.c)})
  }

  predicate OnlyAnd(w: Condition) {
    w.Join? ==> w.connective == AND && OnlyAnd(w.rest)
  }

  /** Exactly the constrained variables have derived ranges. */
  lemma {:induction false} DerivedAreConstrained(w: Condition, names: seq<string>, n: nat, i: nat)
    requires WfCondition(w) && Oriented(w) && Derivable(w, names, n) && KnowsCondition(names, w) && Distinct(names)
    requires i < n
    ensures Ranges(w, names, n)[i].derived <==> i < |names| && names[i] in Constrained(w)
    decreases w
  {
    if i < |names| {
      IndexOfName(names, i);
    }
    if w.Join? {
      DerivedAreConstrained(w.rest, names, n, i);
    }
  }

  lemma LeafSound(c: Comparison, names: seq<string>, n: nat, env: Env)
    requires WfComparison(c) && VariableFirst(c)
    requires DerivableComparison(c, names, n) && Distinct(names) && Longs(env, names)
    requires KnowsExpr(names, c.left) && KnowsExpr(names, c.right)
    ensures ComparisonHolds(c, env) <==> AllInRange(ComparisonRanges(c, names, n), names, env)
  {
    var x := ComparedVariable(c);
    var k := IndexOf(names, x);
    var r := ComparisonRanges(c, names, n);
    assert names[k] == x && LONG_MIN <= env(x) <= LONG_MAX;
    assert ComparisonHolds(c, env) <==> InRange(r[k], env(x));
    assert forall i :: 0 <= i < n && i != k ==> r[i] == NO_RANGE;
  }

  /** A derivable AND-only condition holds exactly when every derived variable lies in its range. */
  lemma {:induction false} ConjunctionExact(w: Condition, names: seq<string>, n: nat, env: Env)
    requires WfCondition(w) && Oriented(w) && OnlyAnd(w) && Derivable(w, names, n)
    requires KnowsCondition(names, w) && Distinct(names) && Longs(env, names)
    ensures Holds(w, env) <==> AllInRange(Ranges(w, names, n), names, env)
    decreases w
  {
    hide Ranges, ComparisonHolds, WfComparison, DerivableComparison, ComparisonRanges, KnowsExpr, Longs, VariableFirst;
    LeafSound(w.c, names, n, env);
    RangesMerge(w, names, n);
    if w.Join? {
      ConjunctionExact(w.rest, names, n, env);
      var a, b, r := ComparisonRanges(w.c, names, n), Ranges(w.rest, names, n), Ranges(w, names, n);
      assert forall i :: 0 <= i < n && i < |names| ==>
        (InRange(r[i], env(names[i])) <==> InRange(a[i], env(names[i])) && InRange(b[i], env(names[i])));
    }
  }

  /** The ranges of a condition, position by position. */
  lemma RangesMerge(w: Condition, names: seq<string>, n: nat)
    requires Derivable(w, names, n)
    ensures w.Single? ==> Ranges(w, names, n) == ComparisonRanges(w.c, names, n)
    ensures w.Join? ==> forall i :: 0 <= i < n ==>
      var a, b := ComparisonRanges(w.c, names, n)[i], Ranges(w.rest, names, n)[i];
      Ranges(w, names, n)[i] == if w.connective == AND then Intersection(NO_RANGE, a, b) else Union(NO_RANGE, a, b)
  {
    hide ComparisonRanges, DerivableComparison;
  }

  /** When a condition holds, every derived variable lies in its range. */
  lemma {:induction false} DerivationSound(w: Condition, names: seq<string>, n: nat, env: Env)
    requires WfCondition(w) && Oriented(w) && SidesAgree(w) && Derivable(w, names, n)
    requires KnowsCondition(names, w) && Distinct(names) && Longs(env, names)
    requires Holds(w, env)
    ensures AllInRange(Ranges(w, names, n), names, env)
    decreases w
  {
    hide Ranges, ComparisonHolds, WfComparison, DerivableComparison, ComparisonRanges, KnowsExpr, Longs, Intersection,
      Union;
    LeafSound(w.c, names, n, env);
    RangesMerge(w, names, n);
    if w.Join? {
      var a, b, r := ComparisonRanges(w.c, names, n), Ranges(w.rest, names, n), Ranges(w, names, n);
      if Holds(w.rest, env) {
        DerivationSound(w.rest, names, n, env);
      }
      forall i | 0 <= i < n && i < |names|
        ensures InRange(r[i], env(names[i]))
      {
        if w.connective == AND {
          BothHold(a[i], b[i], env(names[i]));
        } else {
          DerivedAreConstrained(Single(w.c), names, n, i);
          RangesMerge(Single(w.c), names, n);
          DerivedAreConstrained(w.rest, names, n, i);
          OneHolds(a[i], b[i], env(names[i]));
        }
      }
    }
  }

  lemma BothHold(a: Range, b: Range, v: int)
    ensures InRange(a, v) && InRange(b, v) ==> InRange(Intersection(NO_RANGE, a, b), v)
  {
  }

  lemma OneHolds(a: Range, b: Range, v: int)
    requires a.derived <==> b.derived
    ensures InRange(a, v) || InRange(b, v) ==> InRange(Union(NO_RANGE, a, b), v)
  {
  }

  // ----- Where it is not sound -----

  ghost predicate SoundFor(w: Condition, names: seq<string>, n: nat)
    requires Derivable(w, names, n)
  {
    forall env: Env :: Longs(env, names) && Holds(w, env) ==> AllInRange(Ranges(w, names, n), names, env)
  }

  /**
   A constant before its variable: the operand order is ignored, so the derived range is the mirror
   image of the right one.  It is sound exactly for equalities and at the ends of the value range.
   */
  lemma ConstantFirstSoundIff(op: Operator, l: int, x: string, names: seq<string>, n: nat)
    requires HasLeafRange(op) && x in names && Distinct(names) && IndexOf(names, x) < n
    requires LONG_MIN <= l <= LONG_MAX
    ensures SoundFor(Single(Comparison(op, Const(l), Var(x))), names, n) <==>
      op == EQ || ((op == GE || op == GEQ) && l == LONG_MIN) || ((op == LE || op == LEQ) && l == LONG_MAX)
  {
    hide Holds, AllInRange, Ranges;
    var w := Single(Comparison(op, Const(l), Var(x)));
    var v := if op == GE || op == GEQ then l - 1 else l + 1;
    if op != EQ && LONG_MIN <= v <= LONG_MAX {
      var env: Env := y => if y == x then v else 0;
      assert env(x) == v && Longs(env, names);
      ConstantFirst(op, l, x, names, n, env);
      assert Holds(w, env) && !AllInRange(Ranges(w, names, n), names, env);
    } else {
      forall env: Env | Longs(env, names) && Holds(w, env)
        ensures AllInRange(Ranges(w, names, n), names, env)
      {
        ConstantFirst(op, l, x, names, n, env);
      }
    }
  }

  lemma ConstantFirst(op: Operator, l: int, x: string, names: seq<string>, n: nat, env: Env)
    requires HasLeafRange(op) && x in names && Distinct(names) && IndexOf(names, x) < n && Longs(env, names)
    ensures
      var w, v := Single(Comparison(op, Const(l), Var(x))), env(x);
      && (Holds(w, env) <==> if op == EQ then v == l else if op == GE then l > v else if op == GEQ then l >= v
                             else if op == LE then l < v else l <= v)
      && (AllInRange(Ranges(w, names, n), names, env) <==> InRange(LeafRange(op, l), v))
      && LONG_MIN <= v <= LONG_MAX
  {
    var k, r := IndexOf(names, x), Ranges(Single(Comparison(op, Const(l), Var(x))), names, n);
    assert names[k] == x && r == Blank(n)[k := LeafRange(op, l)];
    if InRange(r[k], env(x)) {
      assert forall i :: 0 <= i < n && i != k ==> InRange(r[i], 0);
    }
  }

  /**
   Two constants: the derivation takes the lowest byte of the second one for a variable, and gives that variable a
   range.  For an equality this is sound exactly when it is false, or when there is no such variable.
   */
  lemma TwoConstantsSoundIff(a: int, b: int, names: seq<string>, n: nat)
    requires Distinct(names) && b % 256 < n
    ensures
      var w := Single(Comparison(EQ, Const(a), Const(b)));
      && Derivable(w, names, n) && Ranges(w, names, n)[b % 256] == Range(true, a, a)
      && (SoundFor(w, names, n) <==> a != b || b % 256 >= |names|)
  {
    var w, id := Single(Comparison(EQ, Const(a), Const(b))), b % 256;
    var r := Ranges(w, names, n);
    assert r == Blank(n)[id := Range(true, a, a)];
    if a == b && id < |names| {
      var v := if a == 0 then 1 else 0;
      var env: Env := _ => v;
      assert Longs(env, names) && Holds(w, env) && !InRange(r[id], env(names[id]));
      assert !AllInRange(r, names, env);
    }
  }

  predicate OnlyOr(w: Condition) {
    w.Join? ==> w.connective == OR && OnlyOr(w.rest)
  }

  /** Every comparison is true for some value, and its constant is a value. */
  predicate Satisfiable(w: Condition)
    requires Oriented(w)
  {
    && LONG_MIN <= ComparedConstant(w.c) <= LONG_MAX && LONG_MIN <= Inside(w.c) <= LONG_MAX
    && (w.Join? ==> Satisfiable(w.rest))
  }

  predicate Whole(r: Range) {
    r.derived ==> r.min <= LONG_MIN && LONG_MAX <= r.max
  }

  lemma {:induction false} OneVariableAgrees(w: Condition)
    requires Oriented(w) && Constrained(w) == {ComparedVariable(w.c)}
    ensures SidesAgree(w)
    decreases w
  {
    if w.Join? {
      assert ComparedVariable(w.rest.c) in Constrained(w);
      assert forall x :: x in Constrained(w.rest) ==> x in Constrained(w);
      assert Constrained(w.rest) == {ComparedVariable(w.c)};
      OneVariableAgrees(w.rest);
    }
  }

  /** A value of one variable that makes the whole disjunction true. */
  lemma {:induction false} OneIsEnough(w: Condition, x: string) returns (a: int)
    requires WfCondition(w) && Oriented(w) && OnlyOr(w) && Satisfiable(w) && x in Constrained(w)
    requires forall c :: InCondition(c, w) ==> HasLeafRange(c.rel)
    ensures LONG_MIN <= a <= LONG_MAX && forall env: Env :: env(x) == a ==> Holds(w, env)
    decreases w
  {
    assert InCondition(w.c, w);
    if ComparedVariable(w.c) == x {
      a := Inside(w.c);
    } else {
      assert forall c :: InCondition(c, w.rest) ==> InCondition(c, w);
      a := OneIsEnough(w.rest, x);
    }
  }

  predicate InCondition(c: Comparison, w: Condition) {
    c == w.c || (w.Join? && InCondition(c, w.rest))
  }

  lemma {:induction false} DerivableLeaves(w: Condition, names: seq<string>, n: nat)
    requires Derivable(w, names, n)
    ensures forall c :: InCondition(c, w) ==> HasLeafRange(c.rel)
    decreases w
  {
    if w.Join? {
      DerivableLeaves(w.rest, names, n);
    }
  }

  /**
   Comparisons joined by OR: the union keeps a range that only one side constrains, so the ranges are sound
   exactly when there is only one variable, or when none of them excludes any value.
   */
  lemma DisjunctionSoundIff(w: Condition, names: seq<string>, n: nat)
    requires WfCondition(w) && Oriented(w) && OnlyOr(w) && Derivable(w, names, n)
    requires KnowsCondition(names, w) && Distinct(names) && Satisfiable(w)
    ensures SoundFor(w, names, n) <==>
      Constrained(w) == {ComparedVariable(w.c)} || forall i :: 0 <= i < n ==> Whole(Ranges(w, names, n)[i])
  {
    var r := Ranges(w, names, n);
    if Constrained(w) == {ComparedVariable(w.c)} {
      OneVariableAgrees(w);
      forall env: Env | Longs(env, names) && Holds(w, env)
        ensures AllInRange(r, names, env)
      {
        DerivationSound(w, names, n, env);
      }
    } else if i :| 0 <= i < n && !Whole(r[i]) {
      NotSound(w, names, n, i);
    } else {
      forall env: Env | Longs(env, names) && Holds(w, env)
        ensures AllInRange(r, names, env)
      {
        forall i | 0 <= i < n && i < |names|
          ensures InRange(r[i], env(names[i]))
        {
          assert Whole(r[i]) && names[i] in names;
        }
      }
    }
  }

  lemma NotSound(w: Condition, names: seq<string>, n: nat, i: nat)
    requires WfCondition(w) && Oriented(w) && OnlyOr(w) && Derivable(w, names, n)
    requires KnowsCondition(names, w) && Distinct(names) && Satisfiable(w)
    requires Constrained(w) != {ComparedVariable(w.c)} && i < n && !Whole(Ranges(w, names, n)[i])
    ensures !SoundFor(w, names, n)
  {
    hide Ranges, Holds, Satisfiable, WfCondition, Derivable;
    var r := Ranges(w, names, n);
    DerivedAreConstrained(w, names, n, i);
    var y := names[i];
    var x := OtherVariable(w, y);
    DerivableLeaves(w, names, n);
    var a := OneIsEnough(w, x);
    var b := if r[i].min > LONG_MIN then LONG_MIN else LONG_MAX;
    var env: Env := z => if z == x then a else if z == y then b else 0;
    assert env(x) == a && env(names[i]) == b && !InRange(r[i], b);
    assert Longs(env, names) && Holds(w, env) && !AllInRange(r, names, env);
  }

  lemma OtherVariable(w: Condition, y: string) returns (x: string)
    requires Oriented(w) && Constrained(w) != {ComparedVariable(w.c)} && y in Constrained(w)
    ensures x in Constrained(w) && x != y
  {
    if ComparedVariable(w.c) != y {
      x := ComparedVariable(w.c);
    } else {
      assert exists z :: z in Constrained(w) && z != y;
      x :| x in Constrained(w) && x != y;
    }
  }

  /** The union of two ranges with values is the least range that holds all of their values. */
  lemma UnionIsLeast(r: Range, a: Range, b: Range, lo: int, hi: int)
    requires a.derived && b.derived && a.min <= a.max && b.min <= b.max
    ensures
      var u := Union(r, a, b);
      && u.derived && (forall v :: InRange(a, v) || InRange(b, v) ==> InRange(u, v))
      && ((forall v :: InRange(a, v) || InRange(b, v) ==> lo <= v <= hi) <==> lo <= u.min && u.max <= hi)
  {
    assert InRange(a, a.min) && InRange(a, a.max) && InRange(b, b.min) && InRange(b, b.max);
  }

  /** A comparison of the variable x holds when x has the value v. */
  predicate HoldsFor(c: Comparison, x: string, v: int)
    requires VariableFirst(c)
  {
    ComparedVariable(c) == x &&
    var l := ComparedConstant(c);
    match c.rel
    case EQ => v == l
    case NEQ => v != l
    case GE => v > l
    case GEQ => v >= l
    case LE => v < l
    case _ => v <= l
  }

  /** Some comparison of the variable x holds when x has the value v. */
  predicate SomeHoldsFor(w: Condition, x: string, v: int)
    requires Oriented(w)
  {
    HoldsFor(w.c, x, v) || (w.Join? && SomeHoldsFor(w.rest, x, v))
  }

  /**
   Comparisons joined by OR, on any number of variables: the bounds of a derived range are the least and the greatest
   value for which some comparison of its variable holds.
   */
  lemma {:induction false} DisjunctionHull(w: Condition, names: seq<string>, n: nat, i: nat)
    requires WfCondition(w) && Oriented(w) && OnlyOr(w) && Derivable(w, names, n)
    requires KnowsCondition(names, w) && Distinct(names) && Satisfiable(w)
    requires i < n && i < |names| && names[i] in Constrained(w)
    ensures
      var r := Ranges(w, names, n)[i];
      && r.derived && SomeHoldsFor(w, names[i], r.min) && SomeHoldsFor(w, names[i], r.max)
      && LONG_MIN <= r.min <= r.max <= LONG_MAX
      && forall v :: LONG_MIN <= v <= LONG_MAX && SomeHoldsFor(w, names[i], v) ==> r.min <= v <= r.max
    decreases w
  {
    hide Ranges, ComparisonRanges, DerivableComparison, KnowsExpr, WfComparison, Satisfiable;
    var x := names[i];
    RangesMerge(w, names, n);
    LeafHull(w.c, names, n, i, w);
    if w.Join? {
      RestSatisfiable(w);
      if x in Constrained(w.rest) {
        DisjunctionHull(w.rest, names, n, i);
      } else {
        DerivedAreConstrained(w.rest, names, n, i);
        NoneHolds(w.rest, x);
      }
    }
  }

  lemma RestSatisfiable(w: Condition)
    requires Oriented(w) && Satisfiable(w) && w.Join?
    ensures Satisfiable(w.rest)
  {
  }

  lemma {:induction false} NoneHolds(w: Condition, x: string)
    requires Oriented(w) && x !in Constrained(w)
    ensures forall v :: !SomeHoldsFor(w, x, v)
  {
    if w.Join? {
      NoneHolds(w.rest, x);
    }
  }

  /** The range of one comparison. */
  lemma LeafHull(c: Comparison, names: seq<string>, n: nat, i: nat, w: Condition)
    requires Oriented(w) && c == w.c && WfComparison(c) && Satisfiable(w) && DerivableComparison(c, names, n)
    requires KnowsExpr(names, c.left) && KnowsExpr(names, c.right) && Distinct(names) && i < n && i < |names|
    ensures
      var r := ComparisonRanges(c, names, n)[i];
      if ComparedVariable(c) == names[i] then
        && r.derived && HoldsFor(c, names[i], r.min) && HoldsFor(c, names[i], r.max)
        && LONG_MIN <= r.min <= r.max <= LONG_MAX
        && forall v :: LONG_MIN <= v <= LONG_MAX && HoldsFor(c, names[i], v) ==> r.min <= v <= r.max
      else r == NO_RANGE && forall v :: !HoldsFor(c, names[i], v)
  {
    IndexOfName(names, i);
    var k := IndexOf(names, ComparedVariable(c));
    assert names[k] == ComparedVariable(c);
  }

  /** With a single variable, the condition holds exactly for the values for which some comparison does. */
  lemma {:induction false} OneVariableHolds(w: Condition, x: string, env: Env)
    requires WfCondition(w) && Oriented(w) && OnlyOr(w) && Constrained(w) == {x}
    ensures Holds(w, env) <==> SomeHoldsFor(w, x, env(x))
    decreases w
  {
    assert ComparedVariable(w.c) in Constrained(w);
    if w.Join? {
      assert forall y :: y in Constrained(w.rest) ==> y in Constrained(w);
      assert ComparedVariable(w.rest.c) in Constrained(w.rest);
      assert Constrained(w.rest) == {x};
      OneVariableHolds(w.rest, x, env);
    }
  }

  /** With a single variable, both bounds are values that satisfy the whole condition. */
  lemma OneVariableHull(w: Condition, names: seq<string>, n: nat, x: string, env: Env)
    requires WfCondition(w) && Oriented(w) && OnlyOr(w) && Derivable(w, names, n)
    requires KnowsCondition(names, w) && Distinct(names) && Satisfiable(w) && Constrained(w) == {x}
    requires x in names && IndexOf(names, x) < n
    ensures
      var r := Ranges(w, names, n)[IndexOf(names, x)];
      && r.derived && (env(x) == r.min || env(x) == r.max ==> Holds(w, env))
      && (Longs(env, names) && Holds(w, env) ==> r.min <= env(x) <= r.max)
  {
    hide Ranges, Holds, Satisfiable, WfCondition, Derivable, SomeHoldsFor;
    DisjunctionHull(w, names, n, IndexOf(names, x));
    OneVariableHolds(w, x, env);
  }

  /** Two comparisons, with constants that are not the ends of the value range: they must compare the same variable. */
  lemma TwoDisjunctsSoundIff(c: Comparison, d: Comparison, names: seq<string>, n: nat)
    requires WfComparison(c) && WfComparison(d) && VariableFirst(c) && VariableFirst(d)
    requires var w := Join(c, OR, Single(d)); Derivable(w, names, n) && KnowsCondition(names, w) && Distinct(names)
    requires LONG_MIN < ComparedConstant(c) < LONG_MAX && LONG_MIN < ComparedConstant(d) < LONG_MAX
    ensures SoundFor(Join(c, OR, Single(d)), names, n) <==> ComparedVariable(c) == ComparedVariable(d)
  {
    hide SoundFor, Whole, Ranges, IndexOf;
    var w := Join(c, OR, Single(d));
    assert w.rest == Single(d);
    OneComparison(d);
    DisjunctionSoundIff(w, names, n);
    if ComparedVariable(c) != ComparedVariable(d) {
      var j := LeafIsKept(c, d, names, n);
      assert ComparedVariable(d) in Constrained(w);
    }
  }

  lemma OneComparison(d: Comparison)
    requires WfComparison(d) && VariableFirst(d) && LONG_MIN < ComparedConstant(d) < LONG_MAX
    ensures WfCondition(Single(d)) && Oriented(Single(d)) && OnlyOr(Single(d)) && Satisfiable(Single(d))
    ensures Constrained(Single(d)) == {ComparedVariable(d)}
  {
  }

  /** The range of a variable that only the second side compares. */
  lemma LeafIsKept(c: Comparison, d: Comparison, names: seq<string>, n: nat) returns (j: nat)
    requires VariableFirst(c) && VariableFirst(d) && ComparedVariable(c) != ComparedVariable(d)
    requires var w := Join(c, OR, Single(d)); Derivable(w, names, n) && KnowsCondition(names, w) && Distinct(names)
    requires LONG_MIN < ComparedConstant(d) < LONG_MAX
    ensures j < n && !Whole(Ranges(Join(c, OR, Single(d)), names, n)[j])
  {
    var w, x, y := Join(c, OR, Single(d)), ComparedVariable(c), ComparedVariable(d);
    j := IndexOf(names, y);
    assert w.rest == Single(d) && Derivable(w.rest, names, n);
    assert names[IndexOf(names, x)] == x && names[j] == y;
    assert Ranges(w.rest, names, n) == ComparisonRanges(d, names, n);
    assert Ranges(w, names, n)[j] == Union(NO_RANGE, ComparisonRanges(c, names, n)[j],
                                           ComparisonRanges(d, names, n)[j]);
  }

  function ComparedConstant(c: Comparison): int
    requires VariableFirst(c)
  {
    if c.left.Var? then c.right.l else c.left.l
  }

  /** A value that satisfies the comparison. */
  function Inside(c: Comparison): int
    requires VariableFirst(c)
  {
    var l := ComparedConstant(c);
    if c.rel == GE then l + 1 else if c.rel == LE then l - 1 else l
  }
}
