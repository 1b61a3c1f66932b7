/**
 Compiling a WHERE clause and executing the code.  The code is that of what the clause denotes exactly when its
 arithmetic has at most one operator per parenthesis level; what the machine makes of any other clause is given, too.
 */
module CompilerCorrectness {
  import opened LogicVm
  import opened Conditions
  import opened WhereCompiler

  // ----- Sources the compiler translates faithfully -----

  predicate Short(s: Chain) {
    |s.tails| <= 1 && ShortArgument(s.head) &&
    forall i :: 0 <= i < |s.tails| ==> ShortArgument(s.tails[i].arg)
  }

  predicate ShortArgument(a: Argument) {
    a.Paren? ==> Short(a.inner)
  }

  predicate ShortComparison(c: ComparisonSource) {
    Short(c.left) && Short(c.right)
  }

  predicate ShortWhere(w: WhereSource) {
    ShortComparison(w.c) && (w.More? ==> ShortWhere(w.rest))
  }

  // ----- What a source denotes -----

  function OperandOf(t: Token): Expr {
    match t
    case IDENTIFIER(x) => Var(x)
    case INTEGER_VALUE(l) => Const(l)
    case _ => Const(0)
  }

  /** The head and the first k tails, grouped to the left. */
  function ChainExpr(s: Chain, k: nat): Expr
    requires WfChain(s) && k <= |s.tails|
    decreases s, 1, k
  {
    if k == 0 then ArgumentOf(s.head)
    else
      var t := s.tails[k - 1];
      assert WfTail(t);
      Bin(OperatorOf(t.op), ChainExpr(s, k - 1), ArgumentOf(t.arg))
  }

  function ArgumentOf(a: Argument): Expr
    requires WfArgument(a)
    decreases a, 0
  {
    match a
    case Plain(x) => OperandOf(x)
    case Paren(s) => ChainExpr(s, |s.tails|)
  }

  function ExprOf(s: Chain): Expr
    requires WfChain(s)
  {
    ChainExpr(s, |s.tails|)
  }

  function ComparisonOf(c: ComparisonSource): Comparison
    requires WfComparisonSource(c)
  {
    Comparison(RelationOf(c.rel), ExprOf(c.left), ExprOf(c.right))
  }

  function ConditionOf(w: WhereSource): Condition
    requires WfWhere(w)
  {
    match w
    case One(c) => Single(ComparisonOf(c))
    case More(c, op, rest) => Join(ComparisonOf(c), ConnectiveOf(op), ConditionOf(rest))
  }

  // ----- What a source denotes is well formed, and mentions no other variables -----

  lemma {:induction false} ChainIsKnown(s: Chain, k: nat, names: seq<string>)
    requires WfChain(s) && k <= |s.tails| && KnowsChain(names, s, k)
    ensures WfExpr(ChainExpr(s, k)) && KnowsExpr(names, ChainExpr(s, k))
    decreases s, 1, k
  {
    if k == 0 {
      ArgumentIsKnown(s.head, names);
    } else {
      assert WfTail(s.tails[k - 1]);
      ChainIsKnown(s, k - 1, names);
      ArgumentIsKnown(s.tails[k - 1].arg, names);
    }
  }

  lemma {:induction false} ArgumentIsKnown(a: Argument, names: seq<string>)
    requires WfArgument(a) && KnowsArgument(names, a)
    ensures WfExpr(ArgumentOf(a)) && KnowsExpr(names, ArgumentOf(a))
    decreases a, 0
  {
    match a
    case Plain(_) =>
    case Paren(s) => ChainIsKnown(s, |s.tails|, names);
  }

  lemma {:induction false} WhereIsKnown(w: WhereSource, names: seq<string>)
    requires WfWhere(w) && KnowsOpen(names, w, Connectives(w))
    ensures WfCondition(ConditionOf(w)) && KnowsCondition(names, ConditionOf(w))
  {
    ChainIsKnown(w.c.left, |w.c.left.tails|, names);
    ChainIsKnown(w.c.right, |w.c.right.tails|, names);
    if w.More? {
      WhereIsKnown(w.rest, names);
    }
  }

  /** The emitted code of a clause without long chains is the prefix code of a condition over known variables. */
  lemma WhereCodeIsPrefixCode(w: WhereSource, names: seq<string>)
    requires WfWhere(w) && ShortWhere(w) && KnowsOpen(names, w, Connectives(w))
    ensures WhereCode(w, names) == ConditionCode(ConditionOf(w), names)
    ensures WfCondition(ConditionOf(w)) && KnowsCondition(names, ConditionOf(w))
  {
    WhereCodeIffShort(w, names);
    WhereIsKnown(w, names);
  }

  // ----- When the emitted code is the prefix code of what the source denotes -----

  lemma {:induction false} ChainWeight(s: Chain, k: nat, names: seq<string>)
    requires WfChain(s) && k <= |s.tails|
    ensures Weight(ChainCode(s, k, names)) == 1
    decreases s, 1, k
  {
    if k == 0 {
      ArgumentWeight(s.head, names);
    } else {
      var t := s.tails[k - 1];
      assert WfTail(t);
      var slot, done, part := [Type(ARITH_OP), Op(OperatorOf(t.op))], ChainCode(s, k - 1, names),
        ArgumentCode(t.arg, names);
      ChainWeight(s, k - 1, names);
      ArgumentWeight(t.arg, names);
      HeaderWeight(slot);
      WeightConcat(slot, done);
      WeightConcat(done, slot);
      WeightConcat(slot + done, part);
      WeightConcat(done + slot, part);
    }
  }

  lemma {:induction false} ArgumentWeight(a: Argument, names: seq<string>)
    requires WfArgument(a)
    ensures Weight(ArgumentCode(a, names)) == 1
    decreases a, 0
  {
    match a
    case Plain(x) => LeafWeight(OperandCode(x, names), 0);
    case Paren(s) => ChainWeight(s, |s.tails|, names);
  }

  lemma {:induction false} ChainCodeExtends(s: Chain, k: nat, n: nat, names: seq<string>)
    requires WfChain(s) && 1 <= k <= n <= |s.tails|
    ensures ChainCode(s, k, names) <= ChainCode(s, n, names)
    ensures k < n ==> |ChainCode(s, k, names)| < |ChainCode(s, n, names)|
    decreases n
  {
    if k < n {
      assert WfTail(s.tails[n - 1]);
      ChainCodeExtends(s, k, n - 1, names);
    }
  }

  lemma {:induction false} ChainLength(s: Chain, k: nat, names: seq<string>)
    requires WfChain(s) && k <= |s.tails|
    ensures |ChainCode(s, k, names)| == |ExprCode(ChainExpr(s, k), names)|
    decreases s, 1, k
  {
    if k == 0 {
      ArgumentLength(s.head, names);
    } else {
      assert WfTail(s.tails[k - 1]);
      ChainLength(s, k - 1, names);
      ArgumentLength(s.tails[k - 1].arg, names);
    }
  }

  lemma {:induction false} ArgumentLength(a: Argument, names: seq<string>)
    requires WfArgument(a)
    ensures |ArgumentCode(a, names)| == |ExprCode(ArgumentOf(a), names)|
    decreases a, 0
  {
    if a.Paren? {
      ChainLength(a.inner, |a.inner.tails|, names);
    }
  }

  /** With two operators in a row, the code is complete before its end. */
  lemma TwoOperators(s: Chain, names: seq<string>, e: Expr)
    requires WfChain(s) && |s.tails| >= 2
    ensures FullChainCode(s, names) != ExprCode(e, names)
  {
    hide ChainCode, ExprCode, Weight;
    var n := |s.tails|;
    var i := |ChainCode(s, n - 1, names)|;
    ChainWeight(s, n - 1, names);
    ChainCodeExtends(s, n - 1, n, names);
    var part, code := ChainCode(s, n - 1, names), ChainCode(s, n, names);
    assert code[..i] == part;
    if code == ExprCode(e, names) {
      ExprCodeWeight(e, names, i);
    }
  }

  lemma SplitCode(slot: seq<Cell>, a: seq<Cell>, b: seq<Cell>, c: seq<Cell>, d: seq<Cell>)
    requires |a| == |c| && |b| == |d|
    ensures slot + a + b == slot + c + d <==> a == c && b == d
  {
    var x, y := slot + a + b, slot + c + d;
    assert x[|slot|..|slot| + |a|] == a && y[|slot|..|slot| + |a|] == c;
    assert x[|slot| + |a|..] == b && y[|slot| + |a|..] == d;
  }

  /**
   The code emitted for an arithmetic source is the prefix code of what it denotes exactly when the source
   has at most one operator on every parenthesis level.
   */
  lemma {:induction false} PrefixCodeIffShort(s: Chain, names: seq<string>)
    requires WfChain(s)
    ensures FullChainCode(s, names) == ExprCode(ExprOf(s), names) <==> Short(s)
    decreases s, 1
  {
    if |s.tails| >= 2 {
      TwoOperators(s, names, ExprOf(s));
    } else {
      ArgumentCodeIffShort(s.head, names);
      if |s.tails| == 1 {
        OneOperator(s, names);
        ArgumentCodeIffShort(s.tails[0].arg, names);
      }
    }
  }

  lemma {:induction false} ArgumentCodeIffShort(a: Argument, names: seq<string>)
    requires WfArgument(a)
    ensures ArgumentCode(a, names) == ExprCode(ArgumentOf(a), names) <==> ShortArgument(a)
    decreases a, 0
  {
    if a.Paren? {
      PrefixCodeIffShort(a.inner, names);
    }
  }

  lemma OneOperator(s: Chain, names: seq<string>)
    requires WfChain(s) && |s.tails| == 1
    ensures WfArgument(s.tails[0].arg)
    ensures FullChainCode(s, names) == ExprCode(ExprOf(s), names) <==>
      && ArgumentCode(s.head, names) == ExprCode(ArgumentOf(s.head), names)
      && ArgumentCode(s.tails[0].arg, names) == ExprCode(ArgumentOf(s.tails[0].arg), names)
  {
    var t := s.tails[0];
    assert WfTail(t) && ChainCode(s, 0, names) == ArgumentCode(s.head, names) && ChainExpr(s, 0) == ArgumentOf(s.head);
    ArgumentLength(s.head, names);
    ArgumentLength(t.arg, names);
    SplitCode([Type(ARITH_OP), Op(OperatorOf(t.op))], ArgumentCode(s.head, names), ArgumentCode(t.arg, names),
              ExprCode(ArgumentOf(s.head), names), ExprCode(ArgumentOf(t.arg), names));
  }

  /** The same for whole clauses. */
  lemma {:induction false} WhereCodeIffShort(w: WhereSource, names: seq<string>)
    requires WfWhere(w)
    ensures |WhereCode(w, names)| == |ConditionCode(ConditionOf(w), names)|
    ensures WhereCode(w, names) == ConditionCode(ConditionOf(w), names) <==> ShortWhere(w)
  {
    hide FullChainCode, ExprCode, ExprOf, WfComparisonSource, ComparisonSourceCode, ComparisonCode;
    ComparisonCodeIffShort(w.c, names);
    if w.More? {
      WhereCodeIffShort(w.rest, names);
      SplitCode([Type(CMP_OP), Op(ConnectiveOf(w.connective))], ComparisonSourceCode(w.c, names),
                WhereCode(w.rest, names), ComparisonCode(ComparisonOf(w.c), names),
                ConditionCode(ConditionOf(w.rest), names));
    }
  }

  lemma ComparisonCodeIffShort(c: ComparisonSource, names: seq<string>)
    requires WfComparisonSource(c)
    ensures |ComparisonSourceCode(c, names)| == |ComparisonCode(ComparisonOf(c), names)|
    ensures ComparisonSourceCode(c, names) == ComparisonCode(ComparisonOf(c), names) <==> ShortComparison(c)
  {
    hide ChainCode, ExprCode, Short;
    PrefixCodeIffShort(c.left, names);
    PrefixCodeIffShort(c.right, names);
    ChainLength(c.left, |c.left.tails|, names);
    ChainLength(c.right, |c.right.tails|, names);
    SplitCode([Type(CMP_OP), Op(RelationOf(c.rel))], FullChainCode(c.left, names), FullChainCode(c.right, names),
              ExprCode(ExprOf(c.left), names), ExprCode(ExprOf(c.right), names));
  }

  // ----- What the virtual machine makes of the code of any source -----

  /** An operator with its second operand; the first one is still to come. */
  datatype Pending = Pending(op: Operator, arg: Expr)

  /** A sequence of cells, as the machine reads it: an expression, and operators that it does not reach. */
  datatype Reading = Reading(first: Expr, rest: seq<Pending>)

  function RestCode(rest: seq<Pending>, names: seq<string>): seq<Cell> {
    if rest == [] then []
    else [Type(ARITH_OP), Op(rest[0].op)] + ExprCode(rest[0].arg, names) + RestCode(rest[1..], names)
  }

  function ReadingCode(r: Reading, names: seq<string>): seq<Cell> {
    ExprCode(r.first, names) + RestCode(r.rest, names)
  }

  /** What is read when pending operators are followed by an expression. */
  function Absorb(rest: seq<Pending>, e: Expr): Expr {
    if rest == [] then e else Bin(rest[0].op, rest[0].arg, Absorb(rest[1..], e))
  }

  function ReadChain(s: Chain, k: nat): Reading
    requires WfChain(s) && k <= |s.tails|
    decreases s, 1, k
  {
    if k == 0 then ReadArgument(s.head)
    else
      var t := s.tails[k - 1];
      assert WfTail(t);
      var a, b := ReadChain(s, k - 1), ReadArgument(t.arg);
      if k == 1 then Reading(Bin(OperatorOf(t.op), a.first, Absorb(a.rest, b.first)), b.rest)
      else Reading(a.first, a.rest + [Pending(OperatorOf(t.op), b.first)] + b.rest)
  }

  function ReadArgument(a: Argument): Reading
    requires WfArgument(a)
    decreases a, 0
  {
    match a
    case Plain(x) => Reading(OperandOf(x), [])
    case Paren(s) => ReadChain(s, |s.tails|)
  }

  predicate Sound(r: Reading, names: seq<string>) {
    && SoundExpr(r.first, names)
    && forall i :: 0 <= i < |r.rest| ==> SoundExpr(r.rest[i].arg, names) && IsArith(r.rest[i].op)
  }

  predicate SoundExpr(e: Expr, names: seq<string>) {
    WfExpr(e) && KnowsExpr(names, e)
  }

  lemma {:induction false} RestConcat(a: seq<Pending>, b: seq<Pending>, names: seq<string>)
    ensures RestCode(a + b, names) == RestCode(a, names) + RestCode(b, names)
  {
    if a == [] {
      assert a + b == b;
    } else {
      assert (a + b)[1..] == a[1..] + b;
      RestConcat(a[1..], b, names);
    }
  }

  lemma {:induction false} AbsorbCode(rest: seq<Pending>, e: Expr, names: seq<string>)
    ensures ExprCode(Absorb(rest, e), names) == RestCode(rest, names) + ExprCode(e, names)
    ensures Sound(Reading(e, rest), names) ==> SoundExpr(Absorb(rest, e), names)
  {
    if rest != [] {
      AbsorbCode(rest[1..], e, names);
      var h, a, b := [Type(ARITH_OP), Op(rest[0].op)], ExprCode(rest[0].arg, names), RestCode(rest[1..], names);
      assert h + a + (b + ExprCode(e, names)) == (h + a + b) + ExprCode(e, names);
    }
  }

  /** The first operator: what is pending in its first operand is absorbed by the second one. */
  lemma FirstOperatorReads(op: Operator, a: Reading, b: Reading, names: seq<string>)
    requires IsArith(op) && Sound(a, names) && Sound(b, names)
    ensures
      var r := Reading(Bin(op, a.first, Absorb(a.rest, b.first)), b.rest);
      && Sound(r, names)
      && ReadingCode(r, names) == [Type(ARITH_OP), Op(op)] + ReadingCode(a, names) + ReadingCode(b, names)
  {
    AbsorbCode(a.rest, b.first, names);
    var h, x, y, z, u := [Type(ARITH_OP), Op(op)], ExprCode(a.first, names), RestCode(a.rest, names),
      ExprCode(b.first, names), RestCode(b.rest, names);
    FiveParts(h, x, y, z, u);
  }

  lemma FiveParts(h: seq<Cell>, x: seq<Cell>, y: seq<Cell>, z: seq<Cell>, u: seq<Cell>)
    ensures h + x + (y + z) + u == h + (x + y) + (z + u)
  {
  }

  lemma OnePending(p: Pending, names: seq<string>)
    ensures RestCode([p], names) == [Type(ARITH_OP), Op(p.op)] + ExprCode(p.arg, names)
  {
    assert [p][1..] == [];
  }

  lemma FourParts(x: seq<Cell>, y: seq<Cell>, h: seq<Cell>, z: seq<Cell>, u: seq<Cell>)
    ensures x + (y + (h + z) + u) == (x + y) + h + (z + u)
  {
  }

  lemma LaterOperatorReads(op: Operator, a: Reading, b: Reading, names: seq<string>)
    requires IsArith(op) && Sound(a, names) && Sound(b, names)
    ensures
      var r := Reading(a.first, a.rest + [Pending(op, b.first)] + b.rest);
      && Sound(r, names)
      && ReadingCode(r, names) == ReadingCode(a, names) + [Type(ARITH_OP), Op(op)] + ReadingCode(b, names)
  {
    hide ExprCode, RestCode, SoundExpr, IsArith;
    var p := [Pending(op, b.first)];
    RestConcat(a.rest + p, b.rest, names);
    RestConcat(a.rest, p, names);
    OnePending(p[0], names);
    FourParts(ExprCode(a.first, names), RestCode(a.rest, names), [Type(ARITH_OP), Op(op)],
              ExprCode(b.first, names), RestCode(b.rest, names));
  }

  lemma {:induction false} ChainReads(s: Chain, k: nat, names: seq<string>)
    requires WfChain(s) && k <= |s.tails| && KnowsChain(names, s, k)
    ensures ChainCode(s, k, names) == ReadingCode(ReadChain(s, k), names) && Sound(ReadChain(s, k), names)
    decreases s, 1, k
  {
    hide ReadingCode, Sound;
    if k == 0 {
      ArgumentReads(s.head, names);
    } else {
      var t := s.tails[k - 1];
      assert WfTail(t);
      ChainReads(s, k - 1, names);
      ArgumentReads(t.arg, names);
      var a, b := ReadChain(s, k - 1), ReadArgument(t.arg);
      if k == 1 {
        FirstOperatorReads(OperatorOf(t.op), a, b, names);
      } else {
        LaterOperatorReads(OperatorOf(t.op), a, b, names);
      }
    }
  }

  lemma {:induction false} ArgumentReads(a: Argument, names: seq<string>)
    requires WfArgument(a) && KnowsArgument(names, a)
    ensures ArgumentCode(a, names) == ReadingCode(ReadArgument(a), names) && Sound(ReadArgument(a), names)
    decreases a, 0
  {
    match a
    case Plain(x) => assert ExprCode(OperandOf(x), names) + [] == OperandCode(x, names);
    case Paren(s) => ChainReads(s, |s.tails|, names);
  }

  // ----- When the code is that of some expression -----

  /** The last argument of a chain decides: it stands behind at most one operator, on every level. */
  predicate EndsShort(s: Chain) {
    if s.tails == [] then EndsShortArgument(s.head) else |s.tails| == 1 && EndsShortArgument(s.tails[0].arg)
  }

  predicate EndsShortArgument(a: Argument) {
    a.Paren? ==> EndsShort(a.inner)
  }

  lemma {:induction false} NothingPending(s: Chain)
    requires WfChain(s)
    ensures ReadChain(s, |s.tails|).rest == [] <==> EndsShort(s)
    decreases s, 1
  {
    if s.tails == [] {
      NothingPendingIn(s.head);
    } else if |s.tails| == 1 {
      assert WfTail(s.tails[0]);
      NothingPendingIn(s.tails[0].arg);
    }
  }

  lemma {:induction false} NothingPendingIn(a: Argument)
    requires WfArgument(a)
    ensures ReadArgument(a).rest == [] <==> EndsShortArgument(a)
    decreases a, 0
  {
    if a.Paren? {
      NothingPending(a.inner);
    }
  }

  /** No chain starts with a parenthesis. */
  predicate PlainHeads(s: Chain) {
    s.head.Plain? && forall i :: 0 <= i < |s.tails| && s.tails[i].arg.Paren? ==> PlainHeads(s.tails[i].arg.inner)
  }

  lemma {:induction false} PlainHeadsEndShort(s: Chain)
    requires PlainHeads(s)
    ensures Short(s) <==> EndsShort(s)
  {
    if |s.tails| == 1 && s.tails[0].arg.Paren? {
      PlainHeadsEndShort(s.tails[0].arg.inner);
    }
  }

  /**
   The code of a chain is the code of some expression exactly when its last arguments are short; that expression is
   then what the machine reads, which need not be what the chain denotes.  When no chain starts with a parenthesis,
   long chains have the code of no expression at all.
   */
  lemma SomeCodeIff(s: Chain, names: seq<string>)
    requires WfChain(s) && KnowsChain(names, s, |s.tails|)
    ensures EndsShort(s) <==> IsSomeCode(FullChainCode(s, names), names)
    ensures EndsShort(s) ==> FullChainCode(s, names) == ExprCode(ReadChain(s, |s.tails|).first, names)
    ensures PlainHeads(s) ==> (Short(s) <==> IsSomeCode(FullChainCode(s, names), names))
  {
    hide ExprCode, ChainCode, ReadChain, Short, EndsShort, PlainHeads, Weight;
    hide IsSomeCode;
    var r := ReadChain(s, |s.tails|);
    ChainReads(s, |s.tails|, names);
    NothingPending(s);
    if PlainHeads(s) {
      PlainHeadsEndShort(s);
    }
    if r.rest == [] {
      NothingLeftOver(names);
      SomeCode(FullChainCode(s, names), names, r.first);
    } else {
      EndsEarly(r, names);
    }
  }

  ghost predicate IsSomeCode(code: seq<Cell>, names: seq<string>) {
    exists e :: code == ExprCode(e, names)
  }

  lemma SomeCode(code: seq<Cell>, names: seq<string>, e: Expr)
    requires code == ExprCode(e, names)
    ensures IsSomeCode(code, names)
  {
  }

  /** With something pending, the expression ends before the code does. */
  lemma EndsEarly(r: Reading, names: seq<string>)
    requires r.rest != []
    ensures !IsSomeCode(ReadingCode(r, names), names)
  {
    hide Weight;
    var i, code := |ExprCode(r.first, names)|, ReadingCode(r, names);
    if IsSomeCode(code, names) {
      var e :| code == ExprCode(e, names);
      assert code[..i] == ExprCode(r.first, names);
      ExprCodeWeight(r.first, names, i);
      ExprCodeWeight(e, names, i);
    }
  }

  // ----- What a clause is executed as -----

  /** The comparison that the machine reads: what is pending on the left becomes part of the right side. */
  function ReadAs(c: ComparisonSource): Comparison
    requires WfComparisonSource(c)
  {
    var l, r := ReadChain(c.left, |c.left.tails|), ReadChain(c.right, |c.right.tails|);
    Comparison(RelationOf(c.rel), l.first, Absorb(l.rest, r.first))
  }

  /** What it leaves behind the comparison. */
  function LeftOver(c: ComparisonSource): seq<Pending>
    requires WfComparisonSource(c)
  {
    ReadChain(c.right, |c.right.tails|).rest
  }

  lemma ComparisonReads(c: ComparisonSource, names: seq<string>)
    requires WfComparisonSource(c) && KnowsComparison(names, c)
    ensures ComparisonSourceCode(c, names) == ComparisonCode(ReadAs(c), names) + RestCode(LeftOver(c), names)
    ensures WfComparison(ReadAs(c)) && KnowsExpr(names, ReadAs(c).left) && KnowsExpr(names, ReadAs(c).right)
  {
    hide ChainCode, ReadChain, ExprCode, RestCode, Absorb, KnowsChain;
    ChainReads(c.left, |c.left.tails|, names);
    ChainReads(c.right, |c.right.tails|, names);
    var l, r := ReadChain(c.left, |c.left.tails|), ReadChain(c.right, |c.right.tails|);
    AbsorbCode(l.rest, r.first, names);
    FiveParts([Type(CMP_OP), Op(RelationOf(c.rel))], ExprCode(l.first, names), RestCode(l.rest, names),
              ExprCode(r.first, names), RestCode(r.rest, names));
  }

  function ComparisonOutcome(c: Comparison, env: Env): Status {
    if ComparisonDividesByZero(c, env) then MATH_ERROR else Truth(ComparisonHolds(c, env))
  }

  /**
   The answer of the machine to any clause.  What is left over behind the last comparison is never looked at;
   behind an earlier one, it stands where the next comparison is expected.
   */
  function Outcome(w: WhereSource, env: Env): Status
    requires WfWhere(w)
  {
    var p := ComparisonOutcome(ReadAs(w.c), env);
    if w.One? || p.IsError() then p
    else if LeftOver(w.c) != [] then SEMANTIC_ERROR
    else
      var q := Outcome(w.rest, env);
      if q.IsError() then q
      else Truth(if w.connective == AND_T then p == TRUE && q == TRUE else p == TRUE || q == TRUE)
  }

  lemma {:induction false} RunsWhere(code: seq<Cell>, ip: nat, w: WhereSource, names: seq<string>, values: seq<int>,
                                     env: Env)
    requires WfWhere(w) && KnowsOpen(names, w, Connectives(w)) && Agrees(names, values, env)
    requires At(code, ip, WhereCode(w, names))
    ensures RunLogicArgument(code, ip, values).status == Outcome(w, env)
    decreases w
  {
    hide RunLogic, RunLogicArgument, ComparisonSourceCode, ComparisonCode, ReadAs, LeftOver, ComparisonHolds, RestCode,
      ComparisonDividesByZero, Agrees, At, KnowsExpr, WfComparison, WfComparisonSource;
    var c, bytes, left := ReadAs(w.c), ComparisonCode(ReadAs(w.c), names), RestCode(LeftOver(w.c), names);
    ComparisonReads(w.c, names);
    if w.One? {
      AtSplit(code, ip, bytes, left);
      RunsComparison(code, ip, c, names, values, env);
    } else {
      var op, mid := ConnectiveOf(w.connective), ip + 2 + |bytes|;
      AtHeader(code, ip, Type(CMP_OP), Op(op), bytes + left, WhereCode(w.rest, names));
      AtSplit(code, ip + 2, bytes, left);
      RunsHeader(code, ip, op, values);
      RunsComparison(code, ip + 2, c, names, values, env);
      if ComparisonDividesByZero(c, env) {
        FailsConnective(code, ip + 2, op, values);
      } else {
        RunsConnective(code, ip + 2, op, values, mid);
        if LeftOver(w.c) != [] {
          NoComparison(code, mid, LeftOver(w.c), names, values);
        } else {
          NothingLeftOver(names);
          RunsWhere(code, mid, w.rest, names, values, env);
        }
      }
    }
  }

  lemma NothingLeftOver(names: seq<string>)
    ensures RestCode([], names) == []
  {
  }

  /** An arithmetic operator where a comparison is expected. */
  lemma NoComparison(code: seq<Cell>, ip: nat, rest: seq<Pending>, names: seq<string>, values: seq<int>)
    requires rest != [] && At(code, ip, RestCode(rest, names))
    ensures RunLogicArgument(code, ip, values).status == SEMANTIC_ERROR
  {
    var part := RestCode(rest, names);
    assert code[ip] == code[ip..ip + |part|][0] == part[0] == Type(ARITH_OP);
  }

  /** Short sources are read as what they denote, and leave nothing over. */
  lemma {:induction false} ShortReads(s: Chain)
    requires WfChain(s) && Short(s)
    ensures ReadChain(s, |s.tails|) == Reading(ExprOf(s), [])
    decreases s, 1
  {
    ShortArgumentReads(s.head);
    if s.tails != [] {
      assert WfTail(s.tails[0]);
      assert ReadChain(s, 0) == ReadArgument(s.head) && ChainExpr(s, 0) == ArgumentOf(s.head);
      ShortArgumentReads(s.tails[0].arg);
    }
  }

  lemma {:induction false} ShortArgumentReads(a: Argument)
    requires WfArgument(a) && ShortArgument(a)
    ensures ReadArgument(a) == Reading(ArgumentOf(a), [])
    decreases a, 0
  {
    if a.Paren? {
      ShortReads(a.inner);
    }
  }

  lemma {:induction false} ShortOutcome(w: WhereSource, env: Env)
    requires WfWhere(w) && ShortWhere(w)
    ensures Outcome(w, env)
            == if ConditionDividesByZero(ConditionOf(w), env) then MATH_ERROR else Truth(Holds(ConditionOf(w), env))
  {
    hide Short, ExprOf, ReadChain, ComparisonHolds, ComparisonDividesByZero;
    ShortReads(w.c.left);
    ShortReads(w.c.right);
    assert ReadAs(w.c) == ComparisonOf(w.c) && LeftOver(w.c) == [];
    if w.More? {
      ShortOutcome(w.rest, env);
    }
  }

  // ----- What the text says about integers -----

  function OperandValue(t: Token, env: Env): int {
    match t
    case IDENTIFIER(x) => env(x)
    case INTEGER_VALUE(l) => l
    case _ => 0
  }

  /** q is the quotient of x and y that C computes: it is truncated toward zero. */
  predicate IsQuotient(x: int, y: int, q: int) {
    var x', y', q' := if x < 0 then -x else x, if y < 0 then -y else y, if q < 0 then -q else q;
    0 <= x' - q' * y' < y' && (q >= 0 <==> q == 0 || (x < 0 <==> y < 0))
  }

  /** There is exactly one quotient unless the divisor is zero, and it is the one that the machine computes. */
  lemma TruncDivIff(x: int, y: int, q: int)
    ensures IsQuotient(x, y, q) <==> y != 0 && q == TruncDiv(x, y)
  {
    var x', y', q' := Abs(x), Abs(y), Abs(q);
    if y != 0 {
      QuotientIff(x', y', q');
      SameQuotient(x, y, q, x' / y');
    }
  }

  lemma SameQuotient(x: int, y: int, q: int, p: nat)
    requires y != 0 && p == Abs(x) / Abs(y)
    ensures Abs(q) == p && (q >= 0 <==> q == 0 || (x < 0 <==> y < 0)) <==> q == TruncDiv(x, y)
  {
  }

  lemma QuotientIff(x: nat, y: nat, q: nat)
    requires y > 0
    ensures 0 <= x - q * y < y <==> q == x / y
  {
    var p := x / y;
    if 0 <= x - q * y < y && q != p {
      assert (p - q) * y == (x - q * y) - x % y;
      NoMultipleBetween(p - q, y);
    }
  }

  lemma NoMultipleBetween(d: int, y: nat)
    requires d != 0 && y > 0
    ensures !(0 - y < d * y < y)
  {
  }

  /** What an operator token does to two integers; a quotient with divisor zero counts as 0. */
  function Apply(op: Token, a: int, b: int): (v: int)
    requires IsArithToken(op)
    ensures op == DIV_T && b != 0 ==> IsQuotient(a, b, v)
  {
    match op
    case ADD_T => a + b
    case SUB_T => a - b
    case MUL_T => a * b
    case _ =>
      if b == 0 then 0
      else
        TruncDivIff(a, b, TruncDiv(a, b));
        TruncDiv(a, b)
  }

  predicate Related(rel: Token, a: int, b: int)
    requires IsRelationToken(rel)
  {
    match rel
    case GT => a > b
    case GEQ_T => a >= b
    case LT => a < b
    case LEQ_T => a <= b
    case EQUAL => a == b
    case _ => a != b
  }

  /** The head and the first k tails, computed from left to right. */
  function TextValue(s: Chain, k: nat, env: Env): int
    requires WfChain(s) && k <= |s.tails|
    decreases s, 1, k
  {
    if k == 0 then ArgumentValue(s.head, env)
    else
      assert WfTail(s.tails[k - 1]);
      Apply(s.tails[k - 1].op, TextValue(s, k - 1, env), ArgumentValue(s.tails[k - 1].arg, env))
  }

  function ArgumentValue(a: Argument, env: Env): int
    requires WfArgument(a)
    decreases a, 0
  {
    match a
    case Plain(x) => OperandValue(x, env)
    case Paren(s) => TextValue(s, |s.tails|, env)
  }

  predicate TextDivides(s: Chain, k: nat, env: Env)
    requires WfChain(s) && k <= |s.tails|
    decreases s, 1, k
  {
    if k == 0 then ArgumentDivides(s.head, env)
    else
      var t := s.tails[k - 1];
      assert WfTail(t);
      TextDivides(s, k - 1, env) || ArgumentDivides(t.arg, env) || (t.op == DIV_T && ArgumentValue(t.arg, env) == 0)
  }

  /** Some divisor in the argument is zero. */
  predicate ArgumentDivides(a: Argument, env: Env)
    requires WfArgument(a)
    decreases a, 0
  {
    a.Paren? && TextDivides(a.inner, |a.inner.tails|, env)
  }

  predicate ComparisonTextHolds(c: ComparisonSource, env: Env)
    requires WfComparisonSource(c)
  {
    Related(c.rel, TextValue(c.left, |c.left.tails|, env), TextValue(c.right, |c.right.tails|, env))
  }

  /** AND and OR have the same precedence and group to the right. */
  predicate TextHolds(w: WhereSource, env: Env)
    requires WfWhere(w)
  {
    match w
    case One(c) => ComparisonTextHolds(c, env)
    case More(c, AND_T, rest) => ComparisonTextHolds(c, env) && TextHolds(rest, env)
    case More(c, _, rest) => ComparisonTextHolds(c, env) || TextHolds(rest, env)
  }

  predicate TextDividesByZero(w: WhereSource, env: Env)
    requires WfWhere(w)
  {
    || TextDivides(w.c.left, |w.c.left.tails|, env) || TextDivides(w.c.right, |w.c.right.tails|, env)
    || (w.More? && TextDividesByZero(w.rest, env))
  }

  lemma {:induction false} ChainMeans(s: Chain, k: nat, env: Env)
    requires WfChain(s) && k <= |s.tails|
    ensures Value(ChainExpr(s, k), env) == TextValue(s, k, env)
    ensures DividesByZero(ChainExpr(s, k), env) <==> TextDivides(s, k, env)
    decreases s, 1, k
  {
    if k == 0 {
      ArgumentMeans(s.head, env);
    } else {
      assert WfTail(s.tails[k - 1]);
      ChainMeans(s, k - 1, env);
      ArgumentMeans(s.tails[k - 1].arg, env);
    }
  }

  lemma {:induction false} ArgumentMeans(a: Argument, env: Env)
    requires WfArgument(a)
    ensures Value(ArgumentOf(a), env) == ArgumentValue(a, env)
    ensures DividesByZero(ArgumentOf(a), env) <==> ArgumentDivides(a, env)
    decreases a, 0
  {
    if a.Paren? {
      ChainMeans(a.inner, |a.inner.tails|, env);
    }
  }

  /** The condition that a clause denotes is what its tokens say about integers. */
  lemma {:induction false} WhereMeans(w: WhereSource, env: Env)
    requires WfWhere(w)
    ensures Holds(ConditionOf(w), env) <==> TextHolds(w, env)
    ensures ConditionDividesByZero(ConditionOf(w), env) <==> TextDividesByZero(w, env)
  {
    hide ChainExpr, Value, DividesByZero, TextValue, TextDivides;
    ChainMeans(w.c.left, |w.c.left.tails|, env);
    ChainMeans(w.c.right, |w.c.right.tails|, env);
    if w.More? {
      WhereMeans(w.rest, env);
    }
  }

  // ----- Small clauses, token by token -----

  /** The answer to a relation between two integers, unless a divisor is zero. */
  predicate Answers(status: Status, error: bool, rel: Token, a: int, b: int)
    requires IsRelationToken(rel)
  {
    && (error ==> status == MATH_ERROR)
    && (!error ==> status == TRUE || status == FALSE)
    && (!error && rel == GT ==> (status == TRUE <==> a > b))
    && (!error && rel == GEQ_T ==> (status == TRUE <==> a >= b))
    && (!error && rel == LT ==> (status == TRUE <==> a < b))
    && (!error && rel == LEQ_T ==> (status == TRUE <==> a <= b))
    && (!error && rel == EQUAL ==> (status == TRUE <==> a == b))
    && (!error && rel == NOT_EQUAL ==> (status == TRUE <==> a != b))
  }

  /** A chain of one operand. */
  lemma OneOperand(x: Token, env: Env)
    requires IsOperand(x)
    ensures
      var s := Chain(Plain(x), []);
      && WfChain(s) && Short(s) && ChainTokens(s, 0) == [x] && ReadChain(s, 0) == Reading(OperandOf(x), [])
      && TextValue(s, 0, env) == OperandValue(x, env) && !TextDivides(s, 0, env)
  {
    assert ArgumentTokens(Plain(x)) + [] == [x];
  }

  /** l rel r */
  lemma PlainComparison(l: Token, rel: Token, r: Token, env: Env)
    requires IsOperand(l) && IsRelationToken(rel) && IsOperand(r)
    ensures
      var w := One(ComparisonSource(Chain(Plain(l), []), rel, Chain(Plain(r), [])));
      && WfWhere(w) && ShortWhere(w) && WhereTokens(w) == [l, rel, r]
      && Answers(Outcome(w, env), false, rel, OperandValue(l, env), OperandValue(r, env))
  {
    hide Outcome, Holds, ConditionDividesByZero, ChainTokens, Short, WfChain, ConditionOf, TextValue, TextDivides,
      IsOperand;
    var w := One(ComparisonSource(Chain(Plain(l), []), rel, Chain(Plain(r), [])));
    OneOperand(l, env);
    OneOperand(r, env);
    assert [l] + [rel] + [r] == [l, rel, r];
    ShortOutcome(w, env);
    WhereMeans(w, env);
  }

  /** The value v of a op b, when there is one. */
  predicate Computes(op: Token, a: int, b: int, v: int) {
    && (op == ADD_T ==> v == a + b)
    && (op == SUB_T ==> v == a - b)
    && (op == MUL_T ==> v == a * b)
    && (op == DIV_T && b != 0 ==> IsQuotient(a, b, v))
  }

  /** x op y rel z */
  lemma OneOperation(x: Token, op: Token, y: Token, rel: Token, z: Token, env: Env)
    returns (v: int)
    requires IsOperand(x) && IsArithToken(op) && IsOperand(y) && IsRelationToken(rel) && IsOperand(z)
    ensures Computes(op, OperandValue(x, env), OperandValue(y, env), v)
    ensures
      var w := One(ComparisonSource(Chain(Plain(x), [Tail(op, Plain(y))]), rel, Chain(Plain(z), [])));
      && WfWhere(w) && ShortWhere(w) && WhereTokens(w) == [x, op, y, rel, z]
      && Answers(Outcome(w, env), op == DIV_T && OperandValue(y, env) == 0, rel, v, OperandValue(z, env))
  {
    hide Outcome, Holds, ConditionDividesByZero, ChainTokens, Short, WfChain, ConditionOf, TextValue, TextDivides,
      IsOperand, IsQuotient;
    var s := Chain(Plain(x), [Tail(op, Plain(y))]);
    var w := One(ComparisonSource(s, rel, Chain(Plain(z), [])));
    v := Apply(op, OperandValue(x, env), OperandValue(y, env));
    OneTail(s, x, op, y, env);
    OneOperand(z, env);
    assert [x, op, y] + [rel] + [z] == [x, op, y, rel, z];
    ShortOutcome(w, env);
    WhereMeans(w, env);
  }

  lemma OneTail(s: Chain, x: Token, op: Token, y: Token, env: Env)
    requires s == Chain(Plain(x), [Tail(op, Plain(y))]) && IsOperand(x) && IsArithToken(op) && IsOperand(y)
    ensures WfChain(s) && Short(s) && ChainTokens(s, 1) == [x, op, y]
    ensures TextValue(s, 1, env) == Apply(op, OperandValue(x, env), OperandValue(y, env))
    ensures TextDivides(s, 1, env) <==> op == DIV_T && OperandValue(y, env) == 0
  {
    hide IsQuotient;
    assert WfTail(s.tails[0]);
    assert ArgumentTokens(Plain(x)) + [] == [x];
    assert ChainTokens(s, 0) == [x] && [x] + [op] + [y] == [x, op, y];
    assert TextValue(s, 0, env) == OperandValue(x, env) && !TextDivides(s, 0, env);
  }

  /** x op y op' z rel u: the second operator takes the last operand instead of the first two. */
  lemma TwoOperations(x: Token, op: Token, y: Token, op': Token, z: Token, rel: Token, u: Token, env: Env)
    returns (v: int, v': int)
    requires IsOperand(x) && IsArithToken(op) && IsOperand(y) && IsArithToken(op') && IsOperand(z)
    requires IsRelationToken(rel) && IsOperand(u)
    ensures Computes(op, OperandValue(x, env), OperandValue(y, env), v)
    ensures Computes(op', OperandValue(z, env), OperandValue(u, env), v')
    ensures
      var s := Chain(Plain(x), [Tail(op, Plain(y)), Tail(op', Plain(z))]);
      var w := One(ComparisonSource(s, rel, Chain(Plain(u), [])));
      var error := (op == DIV_T && OperandValue(y, env) == 0) || (op' == DIV_T && OperandValue(u, env) == 0);
      && WfWhere(w) && WhereTokens(w) == [x, op, y, op', z, rel, u] && Answers(Outcome(w, env), error, rel, v, v')
  {
    hide ChainTokens, WfChain, ReadChain, IsOperand, IsQuotient, Value, DividesByZero, Absorb, TextValue, TextDivides;
    var s := Chain(Plain(x), [Tail(op, Plain(y)), Tail(op', Plain(z))]);
    v := Apply(op, OperandValue(x, env), OperandValue(y, env));
    v' := Apply(op', OperandValue(z, env), OperandValue(u, env));
    TwoTails(s, x, op, y, op', z);
    OneOperand(u, env);
    assert [x, op, y, op', z] + [rel] + [u] == [x, op, y, op', z, rel, u];
    AbsorbOne(OperatorOf(op'), OperandOf(z), OperandOf(u));
    BinMeans(x, op, y, env);
    BinMeans(z, op', u, env);
  }

  lemma AbsorbOne(op: Operator, e: Expr, f: Expr)
    ensures Absorb([Pending(op, e)], f) == Bin(op, e, f)
  {
    assert [Pending(op, e)][1..] == [];
  }

  lemma BinMeans(x: Token, op: Token, y: Token, env: Env)
    requires IsOperand(x) && IsArithToken(op) && IsOperand(y)
    ensures
      var e := Bin(OperatorOf(op), OperandOf(x), OperandOf(y));
      && Value(e, env) == Apply(op, OperandValue(x, env), OperandValue(y, env))
      && (DividesByZero(e, env) <==> op == DIV_T && OperandValue(y, env) == 0)
  {
    hide IsQuotient;
  }

  lemma TwoTails(s: Chain, x: Token, op: Token, y: Token, op': Token, z: Token)
    requires IsOperand(x) && IsArithToken(op) && IsOperand(y) && IsArithToken(op') && IsOperand(z)
    requires s == Chain(Plain(x), [Tail(op, Plain(y)), Tail(op', Plain(z))])
    ensures WfChain(s) && ChainTokens(s, 2) == [x, op, y, op', z]
    ensures ReadChain(s, 2) == Reading(Bin(OperatorOf(op), OperandOf(x), OperandOf(y)),
                                       [Pending(OperatorOf(op'), OperandOf(z))])
  {
    assert WfTail(s.tails[0]) && WfTail(s.tails[1]);
    assert ArgumentTokens(Plain(x)) + [] == [x];
    assert ChainTokens(s, 0) == [x] && [x] + [op] + [y] == [x, op, y];
    assert ChainTokens(s, 1) == [x, op, y] && [x, op, y] + [op'] + [z] == [x, op, y, op', z];
    assert ReadChain(s, 0) == Reading(OperandOf(x), []);
    assert ReadChain(s, 1) == Reading(Bin(OperatorOf(op), OperandOf(x), OperandOf(y)), []);
  }

  /** l rel r AND l' rel' r', and the same with OR */
  lemma TwoComparisons(l: Token, rel: Token, r: Token, con: Token, l': Token, rel': Token, r': Token, env: Env)
    returns (p: Status, q: Status)
    requires IsOperand(l) && IsRelationToken(rel) && IsOperand(r) && (con == AND_T || con == OR_T)
    requires IsOperand(l') && IsRelationToken(rel') && IsOperand(r')
    ensures Answers(p, false, rel, OperandValue(l, env), OperandValue(r, env))
    ensures Answers(q, false, rel', OperandValue(l', env), OperandValue(r', env))
    ensures
      var c, d := ComparisonSource(Chain(Plain(l), []), rel, Chain(Plain(r), [])),
                  ComparisonSource(Chain(Plain(l'), []), rel', Chain(Plain(r'), []));
      var w := More(c, con, One(d));
      && WfWhere(w) && ShortWhere(w) && WhereTokens(w) == [l, rel, r, con, l', rel', r']
      && (Outcome(w, env) == TRUE <==> if con == AND_T then p == TRUE && q == TRUE else p == TRUE || q == TRUE)
      && (Outcome(w, env) == FALSE <==> Outcome(w, env) != TRUE)
  {
    hide ReadAs, Holds, ConditionDividesByZero, ChainTokens, Short, ConditionOf, TextValue, TextDivides, IsOperand,
      ComparisonOutcome, WfComparisonSource, LeftOver;
    var c, d := ComparisonSource(Chain(Plain(l), []), rel, Chain(Plain(r), [])),
                ComparisonSource(Chain(Plain(l'), []), rel', Chain(Plain(r'), []));
    PlainComparison(l, rel, r, env);
    PlainComparison(l', rel', r', env);
    OneOperand(r, env);
    p, q := Outcome(One(c), env), Outcome(One(d), env);
    assert [l, rel, r] + [con] + [l', rel', r'] == [l, rel, r, con, l', rel', r'];
    NothingBehind(c, r);
  }

  lemma NothingBehind(c: ComparisonSource, r: Token)
    requires WfComparisonSource(c) && IsOperand(r) && c.right == Chain(Plain(r), [])
    ensures LeftOver(c) == []
  {
    OneOperand(r, _ => 0);
  }

  // ----- End to end -----

  /**
   Compiles a clause, binds the variables it mentions and executes it.  For short clauses the answer is the truth
   value of the right-grouped condition, or MATH_ERROR exactly when some divisor in it is zero; for any other one it
   is the answer to what the machine reads.
   */
  method CompileAndExecute(tokens: seq<Token>, size: nat, maxVariables: nat, env: Env, ghost w: WhereSource)
    returns (status: Status)
    requires WfWhere(w)
    requires WhereTokens(w) <= tokens && EndsWhere(tokens, |WhereTokens(w)|)
    requires |WhereCode(w, [])| < size && |RegisterWhere([], w)| <= maxVariables
    ensures status == Outcome(w, env)
    ensures ShortWhere(w) ==>
      status == if ConditionDividesByZero(ConditionOf(w), env) then MATH_ERROR else Truth(Holds(ConditionOf(w), env))
    ensures ShortWhere(w) ==> (status == MATH_ERROR <==> TextDividesByZero(w, env))
    ensures ShortWhere(w) && status != MATH_ERROR ==> status == if TextHolds(w, env) then TRUE else FALSE
  {
    hide WfWhere, ShortWhere, WhereTokens, EndsWhere, WhereCode, RegisterWhere, ConditionOf, Holds, Run, Outcome,
      ConditionDividesByZero, TextHolds, TextDividesByZero, Distinct, KnowsOpen, Connectives, RunLogicArgument;
    var vm := new Lvm(size, maxVariables);
    var parser := new Parser(vm, tokens);
    assert tokens[0..] == tokens;
    var r := parser.ParseWhere(w);
    ghost var names, code := vm.names, vm.Code();
    BindAll(vm, env);
    status := vm.Execute();
    RegisteredWhere(w);
    assert vm.code[..][0..|code|] == code;
    RunsFromStart(vm.code[..], w, names, vm.values, env);
    if ShortWhere(w) {
      ShortOutcome(w, env);
      WhereMeans(w, env);
    }
  }

  lemma RunsFromStart(code: seq<Cell>, w: WhereSource, names: seq<string>, values: seq<int>, env: Env)
    requires WfWhere(w) && KnowsOpen(names, w, Connectives(w)) && Agrees(names, values, env)
    requires At(code, 0, WhereCode(w, names))
    ensures Run(code, values).status == Outcome(w, env)
  {
    hide Outcome;
    RunsWhere(code, 0, w, names, values, env);
    assert code[0] == WhereCode(w, names)[0] == Type(CMP_OP);
  }

  /** Every variable of the table gets its value. */
  method BindAll(vm: Lvm, env: Env)
    requires vm.Valid()
    modifies vm`values, vm`spare
    ensures vm.Valid() && Agrees(vm.names, vm.values, env)
  {
    hide IndexOf;
    var i := 0;
    while i < |vm.names|
      invariant vm.Valid() && i <= |vm.names|
      invariant forall k :: 0 <= k < i ==> vm.values[k] == env(vm.names[k])
    {
      IndexOfName(vm.names, i);
      var _ := vm.SetVariableValue(vm.names[i], env(vm.names[i]));
      i := i + 1;
    }
  }

  const ONE := Plain(INTEGER_VALUE(1))
  const TWO := Plain(INTEGER_VALUE(2))
  const THREE := Plain(INTEGER_VALUE(3))
  const SIX := Plain(INTEGER_VALUE(6))

  /** 1 + 2 + 3 */
  const SUM_OF_THREE := Chain(ONE, [Tail(ADD_T, TWO), Tail(ADD_T, THREE)])

  /** 1 + 2 + 3 = 6 is executed as (1 + 2) = (3 + 6). */
  lemma SumOfThreeIsMiscompiled(env: Env)
    ensures
      var w := One(ComparisonSource(SUM_OF_THREE, EQUAL, Chain(SIX, [])));
      && WfWhere(w) && Outcome(w, env) == FALSE && Holds(ConditionOf(w), env)
      && Run(WhereCode(w, []), []).status == FALSE
  {
    hide Run, ReadAs, ComparisonHolds;
    SumIsReadAs();
    SumMeans();
    SumHasNoVariables();
    var w := One(ComparisonSource(SUM_OF_THREE, EQUAL, Chain(SIX, [])));
    NineIsNotThree(env);
    var code := WhereCode(w, []);
    assert code[0..|code|] == code;
    RunsFromStart(code, w, [], [], env);
  }

  lemma NineIsNotThree(env: Env)
    ensures
      var three, six := Bin(ADD, Const(1), Const(2)), Const(6);
      && ComparisonOutcome(Comparison(EQ, three, Bin(ADD, Const(3), six)), env) == FALSE
      && ComparisonHolds(Comparison(EQ, Bin(ADD, three, Const(3)), six), env)
  {
  }

  lemma SumIsReadAs()
    ensures
      var c := ComparisonSource(SUM_OF_THREE, EQUAL, Chain(SIX, []));
      && WfComparisonSource(c)
      && ReadAs(c) == Comparison(EQ, Bin(ADD, Const(1), Const(2)), Bin(ADD, Const(3), Const(6)))
  {
    SumWellFormed();
    SumReads();
    assert ReadChain(Chain(SIX, []), 0) == Reading(Const(6), []);
    assert [Pending(ADD, Const(3))][1..] == [];
  }

  lemma SumReads()
    ensures WfChain(SUM_OF_THREE)
    ensures ReadChain(SUM_OF_THREE, 2) == Reading(Bin(ADD, Const(1), Const(2)), [Pending(ADD, Const(3))])
  {
    SumWellFormed();
    assert ReadChain(SUM_OF_THREE, 0) == Reading(Const(1), []);
    assert ReadChain(SUM_OF_THREE, 1) == Reading(Bin(ADD, Const(1), Const(2)), []);
  }

  lemma SumMeans()
    ensures WfChain(SUM_OF_THREE) && WfChain(Chain(SIX, []))
    ensures ExprOf(SUM_OF_THREE) == Bin(ADD, Bin(ADD, Const(1), Const(2)), Const(3))
    ensures ExprOf(Chain(SIX, [])) == Const(6)
  {
    SumWellFormed();
    assert WfTail(SUM_OF_THREE.tails[0]) && WfTail(SUM_OF_THREE.tails[1]);
    assert ChainExpr(SUM_OF_THREE, 0) == Const(1);
    assert ChainExpr(SUM_OF_THREE, 1) == Bin(ADD, Const(1), Const(2));
    assert ChainExpr(SUM_OF_THREE, 2) == Bin(ADD, Bin(ADD, Const(1), Const(2)), Const(3));
  }

  lemma SumHasNoVariables()
    ensures KnowsChain([], SUM_OF_THREE, |SUM_OF_THREE.tails|) && KnowsChain([], Chain(SIX, []), 0)
  {
    SumWellFormed();
    assert KnowsChain([], SUM_OF_THREE, 0);
    assert KnowsChain([], SUM_OF_THREE, 1);
  }

  lemma SumWellFormed()
    ensures WfChain(SUM_OF_THREE) && WfChain(Chain(SIX, [])) && |SUM_OF_THREE.tails| == 2
  {
    assert SUM_OF_THREE.tails == [Tail(ADD_T, TWO), Tail(ADD_T, THREE)];
    assert WfTail(Tail(ADD_T, TWO)) && WfTail(Tail(ADD_T, THREE));
  }

  lemma RegisteredWhere(w: WhereSource)
    requires WfWhere(w)
    ensures KnowsOpen(RegisterWhere([], w), w, Connectives(w))
  {
    RegisteredOpen([], w, Connectives(w));
    OpenEnds(w, Connectives(w), []);
  }
}
