/**
 The LogicVM of Antelope (apps/antelope/lvm.c): a bytecode buffer that is filled in place, and an
 evaluator that walks the buffer with an instruction pointer.

 One buffer cell holds one node type, one operator or one operand.  `Zero` is a cleared cell.
 */
module LogicVm {

  datatype NodeType = ARITH_OP | OPERAND | CMP_OP

  datatype Operator = ADD | SUB | MUL | DIV | EQ | NEQ | GE | GEQ | LE | LEQ | AND | OR | NOT

  datatype Operand = Long(l: int) | Variable(id: nat)

  datatype Cell = Zero | Type(node: NodeType) | Op(op: Operator) | Opnd(operand: Operand)

  datatype Status =
    | FALSE | TRUE | INVALID_IDENTIFIER | SEMANTIC_ERROR | MATH_ERROR
    | VARIABLE_LIMIT_REACHED | EXECUTION_ERROR | DERIVATION_ERROR
  {
    predicate IsError() {
      !FALSE? && !TRUE?
    }
  }

  predicate IsConnective(op: Operator) {
    op == AND || op == OR || op == NOT
  }

  /** C division: the quotient is truncated toward zero. */
  function TruncDiv(a: int, b: int): int
    requires b != 0
  {
    if (a < 0) == (b < 0) then Abs(a) / Abs(b) else -(Abs(a) / Abs(b))
  }

  function Abs(a: int): nat {
    if a < 0 then -a else a
  }

  function Truth(b: bool): Status {
    if b then TRUE else FALSE
  }

  // ----- The evaluator as a function of the buffer -----

  /** Outcome of evaluating an arithmetic node: `status` is TRUE when `value` is meaningful. */
  datatype ExprStep = ExprStep(status: Status, value: int, ip: nat)

  datatype LogicStep = LogicStep(status: Status, ip: nat)

  function TypeAt(code: seq<Cell>, ip: nat): Cell {
    if ip < |code| && code[ip].Type? then code[ip] else Zero
  }

  function OperatorAt(code: seq<Cell>, ip: nat): Cell {
    if ip < |code| && code[ip].Op? then code[ip] else Zero
  }

  function OperandAt(code: seq<Cell>, ip: nat): Cell {
    if ip < |code| && code[ip].Opnd? then code[ip] else Zero
  }

  function OperandToLong(o: Operand, values: seq<int>): int {
    match o
    case Long(l) => l
    case Variable(id) => if id < |values| then values[id] else 0
  }

  function Arith(op: Operator, a: int, b: int): ExprStep {
    match op
    case ADD => ExprStep(TRUE, a + b, 0)
    case SUB => ExprStep(TRUE, a - b, 0)
    case MUL => ExprStep(TRUE, a * b, 0)
    case DIV => if b == 0 then ExprStep(MATH_ERROR, 0, 0) else ExprStep(TRUE, TruncDiv(a, b), 0)
    case _ => ExprStep(EXECUTION_ERROR, 0, 0)
  }

  function Compare(op: Operator, a: int, b: int): Status {
    match op
    case EQ => Truth(a == b)
    case NEQ => Truth(a != b)
    case GE => Truth(a > b)
    case GEQ => Truth(a >= b)
    case LE => Truth(a < b)
    case LEQ => Truth(a <= b)
    case _ => EXECUTION_ERROR
  }

  /** One iteration of the operand loops of eval_expr and eval_logic. */
  function RunArgument(code: seq<Cell>, ip: nat, values: seq<int>): (r: ExprStep)
    ensures r.status == TRUE ==> ip < |code| && ip < r.ip
    ensures r.status != FALSE
    decreases |code| - ip, 0
  {
    var t := TypeAt(code, ip);
    if t == Type(ARITH_OP) then
      var o := OperatorAt(code, ip + 1);
      if o.Op? then RunExpr(code, ip + 2, o.op, values) else ExprStep(EXECUTION_ERROR, 0, ip + 2)
    else if t == Type(OPERAND) then
      var o := OperandAt(code, ip + 1);
      if o.Opnd? then ExprStep(TRUE, OperandToLong(o.operand, values), ip + 2)
      else ExprStep(EXECUTION_ERROR, 0, ip + 2)
    else ExprStep(SEMANTIC_ERROR, 0, ip + 1)
  }

  function RunExpr(code: seq<Cell>, ip: nat, op: Operator, values: seq<int>): (r: ExprStep)
    ensures r.status == TRUE ==> ip < r.ip
    ensures r.status != FALSE
    decreases |code| - ip, 1
  {
    var x := RunArgument(code, ip, values);
    if x.status != TRUE then x
    else
      var y := RunArgument(code, x.ip, values);
      if y.status != TRUE then y
      else Arith(op, x.value, y.value).(ip := y.ip)
  }

  function RunLogic(code: seq<Cell>, ip: nat, op: Operator, values: seq<int>): (r: LogicStep)
    ensures !r.status.IsError() ==> ip < |code| && ip < r.ip
    decreases |code| - ip, 1
  {
    if IsConnective(op) then
      var p := RunLogicArgument(code, ip, values);
      if p.status.IsError() then p
      else if op == NOT then LogicStep(Truth(p.status == FALSE), p.ip)
      else
        var q := RunLogicArgument(code, p.ip, values);
        if q.status.IsError() then q
        else if op == AND then LogicStep(Truth(p.status == TRUE && q.status == TRUE), q.ip)
        else LogicStep(Truth(p.status == TRUE || q.status == TRUE), q.ip)
    else
      var x := RunArgument(code, ip, values);
      if x.status != TRUE then LogicStep(x.status, x.ip)
      else
        var y := RunArgument(code, x.ip, values);
        if y.status != TRUE then LogicStep(y.status, y.ip)
        else LogicStep(Compare(op, x.value, y.value), y.ip)
  }

  /** One iteration of the argument loop of eval_logic's connective branch. */
  function RunLogicArgument(code: seq<Cell>, ip: nat, values: seq<int>): (r: LogicStep)
    ensures !r.status.IsError() ==> ip < |code| && ip < r.ip
    decreases |code| - ip, 0
  {
    if TypeAt(code, ip) != Type(CMP_OP) then LogicStep(SEMANTIC_ERROR, ip + 1)
    else
      var o := OperatorAt(code, ip + 1);
      if o.Op? then RunLogic(code, ip + 2, o.op, values) else LogicStep(EXECUTION_ERROR, ip + 2)
  }

  function Run(code: seq<Cell>, values: seq<int>): LogicStep {
    if TypeAt(code, 0) != Type(CMP_OP) then LogicStep(EXECUTION_ERROR, 1)
    else
      var o := OperatorAt(code, 1);
      if o.Op? then RunLogic(code, 2, o.op, values) else LogicStep(EXECUTION_ERROR, 2)
  }

  // ----- The variable table -----

  ghost predicate Distinct(names: seq<string>) {
    forall i, j :: 0 <= i < j < |names| ==> names[i] != names[j]
  }

  /** Position of a name in the variable table, or its length when the name is missing. */
  function IndexOf(names: seq<string>, name: string): (i: nat)
    ensures i <= |names|
    ensures i < |names| ==> names[i] == name
    ensures name in names <==> i < |names|
    ensures forall k :: 0 <= k < i ==> names[k] != name
  {
    if names == [] || names[0] == name then 0 else IndexOf(names[1..], name) + 1
  }

  lemma IndexOfName(names: seq<string>, i: nat)
    requires Distinct(names) && i < |names|
    ensures IndexOf(names, names[i]) == i
  {
    assert names[i] in names;
  }

  function Register(names: seq<string>, name: string): seq<string> {
    if name in names then names else names + [name]
  }

  lemma {:induction false} IndexOfStable(names: seq<string>, more: seq<string>, name: string)
    requires names <= more && name in names
    ensures IndexOf(more, name) == IndexOf(names, name)
  {
    assert names[IndexOf(names, name)] == more[IndexOf(names, name)];
  }

  // ----- The instance -----

  class Lvm {
    const code: array<Cell>
    const maxVariables: nat
    var end: nat
    var ip: nat
    var error: nat
    var names: seq<string>
    var values: seq<int>
    /** The value in the first free slot of the variable table; those behind it have never been written. */
    var spare: int

    ghost predicate Valid()
      reads this
    {
      && end <= code.Length
      && |names| <= maxVariables
      && |values| == |names|
      && Distinct(names)
    }

    ghost function Code(): seq<Cell>
      reads this, code
      requires end <= code.Length
    {
      code[..end]
    }

    /** lvm_reset on a buffer of `size` cells. */
    constructor (size: nat, maxVariables: nat)
      ensures Valid() && fresh(code) && code.Length == size && this.maxVariables == maxVariables
      ensures end == 0 && error == 0 && names == [] && Code() == []
      ensures forall i :: 0 <= i < size ==> code[i] == Zero
    {
      code := new Cell[size](_ => Zero);
      this.maxVariables := maxVariables;
      end, ip, error, names, values, spare := 0, 0, 0, [], [], 0;
    }

    // ----- Emitting code -----

    method JumpToOperand() returns (oldEnd: nat)
      requires Valid()
      modifies `end, `error
      ensures Valid() && oldEnd == old(end)
      ensures end == if old(end) + 2 >= code.Length then old(end) else old(end) + 2
      ensures error == old(error) || old(end) + 2 >= code.Length
    {
      oldEnd := end;
      if end + 2 >= code.Length {
        error := 321;
      } else {
        end := end + 2;
      }
    }

    /** Opens a slot of two cells at `at` by moving the tail of the code, and leaves `end` at the slot. */
    method ShiftForOperator(at: nat) returns (newEnd: nat)
      requires Valid() && end + 1 != code.Length
      modifies `end, `error, code
      ensures Valid()
      ensures at < old(end) < code.Length ==>
        && end == at && newEnd == old(end) + 2 && error == old(error)
        && code[..at] == old(code[..at])
        && code[at + 2..newEnd] == old(code[at..end])
        && code[newEnd..] == old(code[newEnd..])
      ensures at >= old(end) || old(end) == code.Length ==>
        newEnd == 0 && error == 338 && end == old(end) && code[..] == old(code[..])
    {
      if end + 1 > code.Length || at >= end {
        error := 338;
        return 0;
      }
      var oldEnd := end;
      forall i | at <= i < oldEnd {
        code[i + 2] := code[i];
      }
      end := at;
      newEnd := oldEnd + 2;
      assert code[at + 2..newEnd] == old(code[at..end]);
      assert code[newEnd..] == old(code[oldEnd + 2..]);
    }

    method SetEnd(e: nat) returns (oldEnd: nat)
      requires Valid()
      modifies `end, `error
      ensures Valid() && oldEnd == old(end)
      ensures end == if e >= code.Length then old(end) else e
      ensures error == old(error) || e >= code.Length
    {
      oldEnd := end;
      if e >= code.Length {
        error := 362;
      } else {
        end := e;
      }
    }

    method SetOp(op: Operator)
      requires Valid() && end + 2 <= code.Length
      modifies `end, code
      ensures Valid() && end == old(end) + 2
      ensures code[..] == old(code[..])[old(end) := Type(ARITH_OP)][old(end) + 1 := Op(op)]
    {
      code[end] := Type(ARITH_OP);
      code[end + 1] := Op(op);
      end := end + 2;
    }

    method SetRelation(op: Operator)
      requires Valid() && end + 2 <= code.Length
      modifies `end, code
      ensures Valid() && end == old(end) + 2
      ensures code[..] == old(code[..])[old(end) := Type(CMP_OP)][old(end) + 1 := Op(op)]
    {
      code[end] := Type(CMP_OP);
      code[end + 1] := Op(op);
      end := end + 2;
    }

    method SetOperand(o: Operand)
      requires Valid() && end + 2 <= code.Length
      modifies `end, code
      ensures Valid() && end == old(end) + 2
      ensures Code() == old(Code()) + [Type(OPERAND), Opnd(o)]
    {
      code[end] := Type(OPERAND);
      code[end + 1] := Opnd(o);
      end := end + 2;
      assert code[..end - 2] == old(code[..end]);
    }

    // ----- Variables -----

    method Lookup(name: string) returns (id: nat)
      ensures id == IndexOf(names, name)
    {
      id := 0;
      while id < |names| && names[id] != name
        invariant id <= |names|
        invariant forall k :: 0 <= k < id ==> names[k] != name
      {
        id := id + 1;
      }
    }

    method RegisterVariable(name: string) returns (r: Status)
      requires Valid()
      modifies `names, `values, `spare
      ensures Valid()
      ensures |Register(old(names), name)| <= maxVariables ==>
        && r == TRUE && names == Register(old(names), name)
        && values == old(values) + (if name in old(names) then [] else [old(spare)])
      ensures |Register(old(names), name)| > maxVariables ==>
        r == VARIABLE_LIMIT_REACHED && names == old(names) && values == old(values)
    {
      var id := Lookup(name);
      if id == maxVariables {
        return VARIABLE_LIMIT_REACHED;
      }
      if id == |names| {
        names := names + [name];
        values := values + [spare];
        spare := 0;
      }
      return TRUE;
    }

    /** The value of a name that is not in the table goes to the first free slot, and that counts as success. */
    method SetVariableValue(name: string, value: int) returns (r: Status)
      requires Valid()
      modifies `values, `spare
      ensures Valid()
      ensures r == if name !in names && |names| == maxVariables then INVALID_IDENTIFIER else TRUE
      ensures values == if name in names then old(values)[IndexOf(names, name) := value] else old(values)
      ensures spare == if name !in names && |names| < maxVariables then value else old(spare)
    {
      var id := Lookup(name);
      if id == maxVariables {
        return INVALID_IDENTIFIER;
      }
      if id == |names| {
        spare := value;
      } else {
        values := values[id := value];
      }
      return TRUE;
    }

    /** A name that is not in the table stands for the first free slot. */
    method SetVariable(name: string)
      requires Valid() && end + 2 <= code.Length
      modifies `end, code
      ensures Valid()
      ensures IndexOf(names, name) < maxVariables ==>
        Code() == old(Code()) + [Type(OPERAND), Opnd(Variable(IndexOf(names, name)))]
      ensures IndexOf(names, name) == maxVariables ==> end == old(end) && code[..] == old(code[..])
    {
      var id := Lookup(name);
      if id < maxVariables {
        SetOperand(Variable(id));
      }
    }

    // ----- Execution -----

    method GetType() returns (t: Cell)
      modifies `ip
      ensures t == TypeAt(code[..], old(ip)) && ip == old(ip) + 1
    {
      t := if ip < code.Length && code[ip].Type? then code[ip] else Zero;
      ip := ip + 1;
    }

    method GetOperator() returns (t: Cell)
      modifies `ip
      ensures t == OperatorAt(code[..], old(ip)) && ip == old(ip) + 1
    {
      t := if ip < code.Length && code[ip].Op? then code[ip] else Zero;
      ip := ip + 1;
    }

    method GetOperand() returns (t: Cell)
      modifies `ip
      ensures t == OperandAt(code[..], old(ip)) && ip == old(ip) + 1
    {
      t := if ip < code.Length && code[ip].Opnd? then code[ip] else Zero;
      ip := ip + 1;
    }

    method EvalExpr(op: Operator) returns (status: Status, result: int)
      modifies `ip
      ensures ExprStep(status, result, ip) == RunExpr(code[..], old(ip), op, values)
      decreases code.Length - ip, 1
    {
      ghost var x := RunArgument(code[..], ip, values);
      var value := [0, 0];
      for i := 0 to 2
        invariant |value| == 2
        invariant i == 0 ==> ip == old(ip)
        invariant i >= 1 ==> x.status == TRUE && value[0] == x.value
        invariant i == 1 ==> ip == x.ip
        invariant i == 2 ==> RunArgument(code[..], x.ip, values) == ExprStep(TRUE, value[1], ip)
      {
        var s, v := EvalArgument();
        if s != TRUE {
          return s, v;
        }
        value := value[i := v];
      }
      var r := Arith(op, value[0], value[1]);
      return r.status, r.value;
    }

    /** The body of the operand loops: fetch a node and evaluate it. */
    method EvalArgument() returns (status: Status, value: int)
      modifies `ip
      ensures ExprStep(status, value, ip) == RunArgument(code[..], old(ip), values)
      decreases code.Length - ip, 0
    {
      var t := GetType();
      if t == Type(ARITH_OP) {
        var o := GetOperator();
        if o.Op? {
          status, value := EvalExpr(o.op);
        } else {
          status, value := EXECUTION_ERROR, 0;
        }
      } else if t == Type(OPERAND) {
        var o := GetOperand();
        if o.Opnd? {
          status, value := TRUE, OperandToLong(o.operand, values);
        } else {
          status, value := EXECUTION_ERROR, 0;
        }
      } else {
        status, value := SEMANTIC_ERROR, 0;
      }
    }

    method EvalLogic(op: Operator) returns (status: Status)
      modifies `ip
      ensures LogicStep(status, ip) == RunLogic(code[..], old(ip), op, values)
      decreases code.Length - ip, 3
    {
      if IsConnective(op) {
        status := EvalConnective(op);
      } else {
        status := EvalRelation(op);
      }
    }

    /** The branch of eval_logic for AND, OR and NOT. */
    method EvalConnective(op: Operator) returns (status: Status)
      requires IsConnective(op)
      modifies `ip
      ensures LogicStep(status, ip) == RunLogic(code[..], old(ip), op, values)
      decreases code.Length - ip, 2
    {
      var arguments := if op == NOT then 1 else 2;
      var result := [FALSE, FALSE];
      ghost var p := RunLogicArgument(code[..], ip, values);
      for i := 0 to arguments
        invariant |result| == 2
        invariant i == 0 ==> ip == old(ip)
        invariant i >= 1 ==> !p.status.IsError() && result[0] == p.status
        invariant i == 1 ==> ip == p.ip
        invariant i == 2 ==> !result[1].IsError()
        invariant i == 2 ==> RunLogicArgument(code[..], p.ip, values) == LogicStep(result[1], ip)
      {
        var s := EvalLogicArgument();
        if s.IsError() {
          return s;
        }
        result := result[i := s];
      }
      if op == NOT {
        return Truth(result[0] == FALSE);
      } else if op == AND {
        return Truth(result[0] == TRUE && result[1] == TRUE);
      } else {
        return Truth(result[0] == TRUE || result[1] == TRUE);
      }
    }

    /** The body of that loop: an argument of a connective is another logical operator. */
    method EvalLogicArgument() returns (status: Status)
      modifies `ip
      ensures LogicStep(status, ip) == RunLogicArgument(code[..], old(ip), values)
      decreases code.Length - ip, 1
    {
      var t := GetType();
      if t != Type(CMP_OP) {
        return SEMANTIC_ERROR;
      }
      var o := GetOperator();
      status := EXECUTION_ERROR;
      if o.Op? {
        status := EvalLogic(o.op);
      }
    }

    /** The branch of eval_logic for comparisons. */
    method EvalRelation(op: Operator) returns (status: Status)
      requires !IsConnective(op)
      modifies `ip
      ensures LogicStep(status, ip) == RunLogic(code[..], old(ip), op, values)
      decreases code.Length - ip, 2
    {
      var result := [0, 0];
      ghost var x := RunArgument(code[..], ip, values);
      for i := 0 to 2
        invariant |result| == 2
        invariant i == 0 ==> ip == old(ip)
        invariant i >= 1 ==> x.status == TRUE && result[0] == x.value
        invariant i == 1 ==> ip == x.ip
        invariant i == 2 ==> RunArgument(code[..], x.ip, values) == ExprStep(TRUE, result[1], ip)
      {
        var s, v := EvalArgument();
        if s != TRUE {
          return s;
        }
        result := result[i := v];
      }
      return Compare(op, result[0], result[1]);
    }

    /** lvm_execute */
    method Execute() returns (status: Status)
      modifies `ip
      ensures LogicStep(status, ip) == Run(code[..], values)
    {
      ip := 0;
      status := EXECUTION_ERROR;
      var t := GetType();
      if t == Type(CMP_OP) {
        var o := GetOperator();
        if o.Op? {
          status := EvalLogic(o.op);
        }
      }
    }
  }
}
