/**
 The one-pass compiler of WHERE clauses (apps/antelope/aql-parser.c): a recursive descent over the
 token stream that emits operands first and opens a slot for each operator afterwards.
 */
module WhereCompiler {
  import opened LogicVm
  import opened Conditions

  datatype Token =
    | IDENTIFIER(name: string) | INTEGER_VALUE(l: int) | STRING_VALUE | FLOAT_VALUE
    | LEFT_PAREN | RIGHT_PAREN
    | ADD_T | SUB_T | MUL_T | DIV_T
    | EQUAL | NOT_EQUAL | GT | LT | GEQ_T | LEQ_T
    | AND_T | OR_T | OTHER | NONE

  datatype AqlStatus = OK | SYNTAX_ERROR

  // ----- Sources: token streams the compiler accepts -----

  /**
   An argument followed by any number of operators, each with an argument.  A parenthesised head needs
   a second closing parenthesis: the first one is swallowed by the loop of the inner parse_expr.
   */
  datatype Chain = Chain(head: Argument, tails: seq<Tail>)
  datatype Tail = Tail(op: Token, arg: Argument)
  datatype Argument = Plain(operand: Token) | Paren(inner: Chain)

  datatype ComparisonSource = ComparisonSource(left: Chain, rel: Token, right: Chain)
  datatype WhereSource = One(c: ComparisonSource) | More(c: ComparisonSource, connective: Token, rest: WhereSource)

  predicate IsOperand(t: Token) {
    t.IDENTIFIER? || t.INTEGER_VALUE?
  }

  predicate IsArithToken(t: Token) {
    t == ADD_T || t == SUB_T || t == MUL_T || t == DIV_T
  }

  predicate IsRelationToken(t: Token) {
    t == EQUAL || t == NOT_EQUAL || t == GT || t == LT || t == GEQ_T || t == LEQ_T
  }

  predicate WfChain(s: Chain) {
    WfArgument(s.head) && forall i :: 0 <= i < |s.tails| ==> WfTail(s.tails[i])
  }

  predicate WfTail(t: Tail) {
    IsArithToken(t.op) && WfArgument(t.arg)
  }

  predicate WfArgument(a: Argument) {
    match a
    case Plain(x) => IsOperand(x)
    case Paren(s) => WfChain(s)
  }

  predicate WfComparisonSource(c: ComparisonSource) {
    WfChain(c.left) && IsRelationToken(c.rel) && WfChain(c.right)
  }

  predicate WfWhere(w: WhereSource) {
    WfComparisonSource(w.c) &&
    (w.More? ==> (w.connective == AND_T || w.connective == OR_T) && w.rest.c.left.head.Plain? && WfWhere(w.rest))
  }

  function OperatorOf(t: Token): Operator
    requires IsArithToken(t)
  {
    match t case ADD_T => ADD case SUB_T => SUB case MUL_T => MUL case _ => DIV
  }

  /** The relation names of the LogicVM: GE is "greater", LE is "less". */
  function RelationOf(t: Token): Operator
    requires IsRelationToken(t)
  {
    match t
    case GT => GE
    case GEQ_T => GEQ
    case LT => LE
    case LEQ_T => LEQ
    case EQUAL => EQ
    case _ => NEQ
  }

  /** Tokens of the head and the first k tails. */
  function ChainTokens(s: Chain, k: nat): (r: seq<Token>)
    requires k <= |s.tails|
    ensures |r| >= 1
    decreases s, 1, k
  {
    if k == 0 then HeadTokens(s.head)
    else ChainTokens(s, k - 1) + [s.tails[k - 1].op] + ArgumentTokens(s.tails[k - 1].arg)
  }

  function HeadTokens(a: Argument): (r: seq<Token>)
    ensures |r| >= 1
    decreases a, 1
  {
    ArgumentTokens(a) + if a.Paren? then [RIGHT_PAREN] else []
  }

  function ArgumentTokens(a: Argument): (r: seq<Token>)
    ensures |r| >= 1
    decreases a, 0
  {
    match a
    case Plain(x) => [x]
    case Paren(s) => [LEFT_PAREN] + ChainTokens(s, |s.tails|) + [RIGHT_PAREN]
  }

  function ComparisonTokens(c: ComparisonSource): seq<Token> {
    ChainTokens(c.left, |c.left.tails|) + [c.rel] + ChainTokens(c.right, |c.right.tails|)
  }

  function WhereTokens(w: WhereSource): seq<Token> {
    match w
    case One(c) => ComparisonTokens(c)
    case More(c, op, rest) => ComparisonTokens(c) + [op] + WhereTokens(rest)
  }

  // ----- The variable table after a source -----

  function RegisterToken(names: seq<string>, t: Token): (r: seq<string>)
    ensures names <= r
    ensures t.IDENTIFIER? ==> t.name in r
  {
    if t.IDENTIFIER? then Register(names, t.name) else names
  }

  function RegisterChain(names: seq<string>, s: Chain, k: nat): (r: seq<string>)
    requires k <= |s.tails|
    ensures names <= r
    decreases s, 1, k
  {
    if k == 0 then RegisterArgument(names, s.head)
    else RegisterArgument(RegisterChain(names, s, k - 1), s.tails[k - 1].arg)
  }

  function RegisterArgument(names: seq<string>, a: Argument): (r: seq<string>)
    ensures names <= r
    decreases a, 0
  {
    match a
    case Plain(x) => RegisterToken(names, x)
    case Paren(s) => RegisterChain(names, s, |s.tails|)
  }

  function RegisterComparison(names: seq<string>, c: ComparisonSource): (r: seq<string>)
    ensures names <= r
  {
    RegisterChain(RegisterChain(names, c.left, |c.left.tails|), c.right, |c.right.tails|)
  }

  function RegisterWhere(names: seq<string>, w: WhereSource): (r: seq<string>)
    ensures names <= r
    decreases w
  {
    match w
    case One(c) => RegisterComparison(names, c)
    case More(c, _, rest) => RegisterWhere(RegisterComparison(names, c), rest)
  }

  // ----- The code left in the buffer -----

  function OperandCode(t: Token, names: seq<string>): (r: seq<Cell>)
    requires IsOperand(t)
    ensures |r| == 2
  {
    match t
    case IDENTIFIER(x) => [Type(OPERAND), Opnd(Variable(IndexOf(names, x)))]
    case INTEGER_VALUE(l) => [Type(OPERAND), Opnd(Long(l))]
  }

  /**
   Code of the head and the first k tails.  The first operator goes in front of the whole chain; every
   later one only goes in front of its own argument, since the parser then has moved `saved_end` on.
   */
  function ChainCode(s: Chain, k: nat, names: seq<string>): (r: seq<Cell>)
    requires WfChain(s) && k <= |s.tails|
    ensures |r| >= 2
    decreases s, 1, k
  {
    if k == 0 then ArgumentCode(s.head, names)
    else
      var t := s.tails[k - 1];
      assert WfTail(t);
      var slot := [Type(ARITH_OP), Op(OperatorOf(t.op))];
      var done := ChainCode(s, k - 1, names);
      if k == 1 then slot + done + ArgumentCode(t.arg, names)
      else done + slot + ArgumentCode(t.arg, names)
  }

  function ArgumentCode(a: Argument, names: seq<string>): (r: seq<Cell>)
    requires WfArgument(a)
    ensures |r| >= 2
    decreases a, 0
  {
    match a
    case Plain(x) => OperandCode(x, names)
    case Paren(s) => ChainCode(s, |s.tails|, names)
  }

  function FullChainCode(s: Chain, names: seq<string>): (r: seq<Cell>)
    requires WfChain(s)
    ensures |r| >= 2
  {
    ChainCode(s, |s.tails|, names)
  }

  function ComparisonSourceCode(c: ComparisonSource, names: seq<string>): (r: seq<Cell>)
    requires WfComparisonSource(c)
    ensures |r| >= 2
  {
    [Type(CMP_OP), Op(RelationOf(c.rel))] + FullChainCode(c.left, names) + FullChainCode(c.right, names)
  }

  function ConnectiveOf(t: Token): Operator {
    if t == AND_T then AND else OR
  }

  function WhereCode(w: WhereSource, names: seq<string>): (r: seq<Cell>)
    requires WfWhere(w)
    ensures |r| >= 2
  {
    match w
    case One(c) => ComparisonSourceCode(c, names)
    case More(c, op, rest) =>
      [Type(CMP_OP), Op(ConnectiveOf(op))] + ComparisonSourceCode(c, names) + WhereCode(rest, names)
  }

  // ----- Stability under later registrations -----

  ghost predicate KnowsToken(names: seq<string>, t: Token) {
    t.IDENTIFIER? ==> t.name in names
  }

  ghost predicate KnowsChain(names: seq<string>, s: Chain, k: nat)
    requires k <= |s.tails|
    decreases s, 1, k
  {
    if k == 0 then KnowsArgument(names, s.head)
    else KnowsChain(names, s, k - 1) && KnowsArgument(names, s.tails[k - 1].arg)
  }

  ghost predicate KnowsArgument(names: seq<string>, a: Argument)
    decreases a, 0
  {
    match a
    case Plain(x) => KnowsToken(names, x)
    case Paren(s) => KnowsChain(names, s, |s.tails|)
  }

  lemma {:induction false} ChainStable(names: seq<string>, more: seq<string>, s: Chain, k: nat)
    requires WfChain(s) && k <= |s.tails| && names <= more && KnowsChain(names, s, k)
    ensures KnowsChain(more, s, k) && ChainCode(s, k, more) == ChainCode(s, k, names)
    decreases s, 1, k
  {
    if k == 0 {
      ArgumentStable(names, more, s.head);
    } else {
      assert WfTail(s.tails[k - 1]);
      ChainStable(names, more, s, k - 1);
      ArgumentStable(names, more, s.tails[k - 1].arg);
    }
  }

  lemma {:induction false} ArgumentStable(names: seq<string>, more: seq<string>, a: Argument)
    requires WfArgument(a)
    requires names <= more && KnowsArgument(names, a)
    ensures KnowsArgument(more, a) && ArgumentCode(a, more) == ArgumentCode(a, names)
    decreases a, 0
  {
    match a
    case Plain(x) => TokenStable(names, more, x);
    case Paren(s) => ChainStable(names, more, s, |s.tails|);
  }

  lemma TokenStable(names: seq<string>, more: seq<string>, t: Token)
    requires IsOperand(t) && names <= more && KnowsToken(names, t)
    ensures KnowsToken(more, t) && OperandCode(t, more) == OperandCode(t, names)
  {
    if t.IDENTIFIER? {
      IndexOfStable(names, more, t.name);
    }
  }

  lemma {:induction false} RegisteredChain(names: seq<string>, s: Chain, k: nat)
    requires WfChain(s) && k <= |s.tails|
    ensures KnowsChain(RegisterChain(names, s, k), s, k)
    decreases s, 1, k
  {
    if k == 0 {
      RegisteredArgument(names, s.head);
    } else {
      assert WfTail(s.tails[k - 1]);
      RegisteredChain(names, s, k - 1);
      ChainStable(RegisterChain(names, s, k - 1), RegisterChain(names, s, k), s, k - 1);
      RegisteredArgument(RegisterChain(names, s, k - 1), s.tails[k - 1].arg);
    }
  }

  lemma {:induction false} RegisteredArgument(names: seq<string>, a: Argument)
    requires WfArgument(a)
    ensures KnowsArgument(RegisterArgument(names, a), a)
    decreases a, 0
  {
    match a
    case Plain(_) =>
    case Paren(s) => RegisteredChain(names, s, |s.tails|);
  }

  // ----- Lengths, for the room a source needs -----

  lemma {:induction false} ChainCodeLength(s: Chain, k: nat, names: seq<string>, more: seq<string>)
    requires WfChain(s) && k <= |s.tails|
    ensures |ChainCode(s, k, names)| == |ChainCode(s, k, more)|
    decreases s, 1, k
  {
    if k == 0 {
      ArgumentCodeLength(s.head, names, more);
    } else {
      assert WfTail(s.tails[k - 1]);
      ChainCodeLength(s, k - 1, names, more);
      ArgumentCodeLength(s.tails[k - 1].arg, names, more);
    }
  }

  lemma {:induction false} ArgumentCodeLength(a: Argument, names: seq<string>, more: seq<string>)
    requires WfArgument(a)
    ensures |ArgumentCode(a, names)| == |ArgumentCode(a, more)|
    decreases a, 0
  {
    if a.Paren? {
      ChainCodeLength(a.inner, |a.inner.tails|, names, more);
    }
  }

  lemma {:induction false} ChainTokensPrefix(s: Chain, k: nat, n: nat)
    requires k <= n <= |s.tails|
    ensures ChainTokens(s, k) <= ChainTokens(s, n)
    decreases n
  {
    if k < n {
      ChainTokensPrefix(s, k, n - 1);
    }
  }

  lemma {:induction false} ChainGrows(s: Chain, k: nat, n: nat, names: seq<string>)
    requires WfChain(s) && k <= n <= |s.tails|
    ensures RegisterChain(names, s, k) <= RegisterChain(names, s, n)
    ensures |ChainCode(s, k, names)| <= |ChainCode(s, n, names)|
    decreases n
  {
    if k < n {
      ChainGrows(s, k, n - 1, names);
    }
  }

  lemma ChainStart(s: Chain, names: seq<string>)
    requires WfChain(s)
    ensures ChainTokens(s, 0) == HeadTokens(s.head)
    ensures RegisterChain(names, s, 0) == RegisterArgument(names, s.head)
    ensures ChainCode(s, 0, names) == ArgumentCode(s.head, names)
  {
  }

  lemma HeadAhead(s: Chain, ahead: seq<Token>)
    requires ChainTokens(s, |s.tails|) <= ahead
    ensures HeadTokens(s.head) <= ahead && ArgumentTokens(s.head) <= ahead
    ensures ahead[0] == ArgumentTokens(s.head)[0]
  {
    ChainTokensPrefix(s, 0, |s.tails|);
    assert ArgumentTokens(s.head) <= HeadTokens(s.head) == ChainTokens(s, 0);
  }

  /** What parse_expr needs to know before it reads the head. */
  lemma ChainBeginning(s: Chain, ahead: seq<Token>, names: seq<string>)
    requires WfChain(s) && ChainTokens(s, |s.tails|) <= ahead
    ensures WfArgument(s.head) && HeadTokens(s.head) <= ahead && ChainTokens(s, 0) == HeadTokens(s.head)
    ensures |ArgumentCode(s.head, [])| <= |ChainCode(s, |s.tails|, [])|
    ensures RegisterChain(names, s, 0) == RegisterArgument(names, s.head)
    ensures |RegisterChain(names, s, 0)| <= |RegisterChain(names, s, |s.tails|)|
    ensures var first := RegisterArgument(names, s.head); ChainCode(s, 0, first) == ArgumentCode(s.head, first)
  {
    HeadAhead(s, ahead);
    ChainStart(s, names);
    ChainStart(s, RegisterArgument(names, s.head));
    ChainGrows(s, 0, |s.tails|, names);
    ChainGrows(s, 0, |s.tails|, []);
  }

  /** What lies at position `at`, once the head and k tails of a chain at `from` have been read. */
  lemma TailAhead(s: Chain, k: nat, tokens: seq<Token>, from: nat, at: nat)
    requires k < |s.tails| && from <= |tokens| && ChainTokens(s, |s.tails|) <= tokens[from..]
    requires at == from + |ChainTokens(s, k)|
    ensures at < |tokens| && tokens[at] == s.tails[k].op
    ensures ArgumentTokens(s.tails[k].arg) <= tokens[at + 1..]
    ensures from + |ChainTokens(s, k + 1)| == at + 1 + |ArgumentTokens(s.tails[k].arg)|
  {
    var ahead, i := tokens[from..], |ChainTokens(s, k)|;
    ChainTokensPrefix(s, k + 1, |s.tails|);
    assert ahead[..|ChainTokens(s, k + 1)|] == ChainTokens(s, k + 1);
    assert ahead[i] == ChainTokens(s, k + 1)[i];
    assert ahead[i + 1..][..|ArgumentTokens(s.tails[k].arg)|] == ChainTokens(s, k + 1)[i + 1..];
    assert tokens[at + 1..] == ahead[i + 1..];
  }

  lemma RoomForTail(s: Chain, k: nat, names: seq<string>)
    requires WfChain(s) && k < |s.tails| && WfTail(s.tails[k])
    ensures |ChainCode(s, k, names)| + 2 + |ArgumentCode(s.tails[k].arg, [])| <= |FullChainCode(s, [])|
  {
    ChainCodeLength(s, k, names, []);
    ChainCodeStep(s, k, []);
    ChainGrows(s, k + 1, |s.tails|, []);
  }

  /** All that the loop needs to know about the next tail. */
  lemma NextTail(s: Chain, k: nat, tokens: seq<Token>, from: nat, at: nat, names0: seq<string>)
    requires WfChain(s) && k < |s.tails|
    requires from <= |tokens| && ChainTokens(s, |s.tails|) <= tokens[from..] && at == from + |ChainTokens(s, k)|
    ensures at < |tokens| && tokens[at] == s.tails[k].op && WfTail(s.tails[k])
    ensures ArgumentTokens(s.tails[k].arg) <= tokens[at + 1..]
    ensures from + |ChainTokens(s, k + 1)| == at + 1 + |ArgumentTokens(s.tails[k].arg)|
    ensures var names := RegisterChain(names0, s, k);
      && RegisterChain(names0, s, k + 1) == RegisterArgument(names, s.tails[k].arg)
      && |RegisterArgument(names, s.tails[k].arg)| <= |RegisterChain(names0, s, |s.tails|)|
      && |ChainCode(s, k, names)| + 2 + |ArgumentCode(s.tails[k].arg, [])| <= |ChainCode(s, |s.tails|, [])|
      && KnowsChain(names, s, k)
  {
    assert WfTail(s.tails[k]);
    TailAhead(s, k, tokens, from, at);
    RoomForTail(s, k, RegisterChain(names0, s, k));
    RoomForNames(s, k, names0);
    RegisteredChain(names0, s, k);
  }

  lemma ChainCodeStep(s: Chain, k: nat, names: seq<string>)
    requires WfChain(s) && k < |s.tails| && WfTail(s.tails[k])
    ensures |ChainCode(s, k + 1, names)| == |ChainCode(s, k, names)| + 2 + |ArgumentCode(s.tails[k].arg, names)|
  {
  }

  lemma RoomForNames(s: Chain, k: nat, names0: seq<string>)
    requires WfChain(s) && k < |s.tails|
    ensures RegisterChain(names0, s, k + 1) == RegisterArgument(RegisterChain(names0, s, k), s.tails[k].arg)
    ensures |RegisterArgument(RegisterChain(names0, s, k), s.tails[k].arg)| <= |RegisterChain(names0, s, |s.tails|)|
  {
    ChainGrows(s, k + 1, |s.tails|, names0);
    assert RegisterChain(names0, s, k + 1) == RegisterArgument(RegisterChain(names0, s, k), s.tails[k].arg);
  }

  /** Where the next operator of a chain goes: in front of everything, or in front of its argument. */
  lemma SlotPlaced(s: Chain, k: nat, names: seq<string>, base: seq<Cell>)
    requires WfChain(s) && k < |s.tails| && WfTail(s.tails[k])
    ensures var slot := [Type(ARITH_OP), Op(OperatorOf(s.tails[k].op))];
      var done, part := ChainCode(s, k, names), ArgumentCode(s.tails[k].arg, names);
      var whole, at := base + done + part, if k == 0 then |base| else |base + done|;
      base + ChainCode(s, k + 1, names) == whole[..at] + slot + whole[at..]
  {
    var done, part := ChainCode(s, k, names), ArgumentCode(s.tails[k].arg, names);
    var whole := base + done + part;
    if k == 0 {
      assert whole[..|base|] == base && whole[|base|..] == done + part;
    } else {
      assert whole[..|base + done|] == base + done && whole[|base + done|..] == part;
    }
  }

  lemma ComparisonAhead(c: ComparisonSource, ahead: seq<Token>)
    requires ComparisonTokens(c) <= ahead
    ensures var left := ChainTokens(c.left, |c.left.tails|);
      && left <= ahead && |left| < |ahead| && ahead[|left|] == c.rel
      && ChainTokens(c.right, |c.right.tails|) <= ahead[|left| + 1..]
  {
    hide ChainTokens;
    var left, right := ChainTokens(c.left, |c.left.tails|), ChainTokens(c.right, |c.right.tails|);
    assert ahead[..|ComparisonTokens(c)|] == left + [c.rel] + right;
    assert ahead[|left| + 1..][..|right|] == right;
  }

  lemma Regroup(a: seq<Cell>, b: seq<Cell>, c: seq<Cell>, d: seq<Cell>)
    ensures a + b + c + d == a + (b + c + d)
  {
  }

  // ----- A clause of which the first j connectives have been compiled -----

  function Connectives(w: WhereSource): nat {
    if w.One? then 0 else 1 + Connectives(w.rest)
  }

  function Suffix(w: WhereSource, j: nat): (r: WhereSource)
    requires j <= Connectives(w)
    ensures Connectives(r) == Connectives(w) - j
    ensures WfWhere(w) ==> WfWhere(r)
    decreases w
  {
    if j == 0 then w else Suffix(w.rest, j - 1)
  }

  function OpenTokens(w: WhereSource, j: nat): seq<Token>
    requires j <= Connectives(w)
    decreases w
  {
    if j == 0 then ComparisonTokens(w.c)
    else ComparisonTokens(w.c) + [w.connective] + OpenTokens(w.rest, j - 1)
  }

  function OpenNames(names: seq<string>, w: WhereSource, j: nat): seq<string>
    requires j <= Connectives(w)
    decreases w
  {
    if j == 0 then RegisterComparison(names, w.c)
    else OpenNames(RegisterComparison(names, w.c), w.rest, j - 1)
  }

  function OpenCode(w: WhereSource, j: nat, names: seq<string>): seq<Cell>
    requires WfWhere(w) && j <= Connectives(w)
    decreases w
  {
    if j == 0 then ComparisonSourceCode(w.c, names)
    else
      var slot := [Type(CMP_OP), Op(ConnectiveOf(w.connective))];
      slot + ComparisonSourceCode(w.c, names) + OpenCode(w.rest, j - 1, names)
  }

  /** Where the code of comparison j starts. */
  function OpenAt(w: WhereSource, j: nat, names: seq<string>): nat
    requires WfWhere(w) && j <= Connectives(w)
    decreases w
  {
    if j == 0 then 0 else 2 + |ComparisonSourceCode(w.c, names)| + OpenAt(w.rest, j - 1, names)
  }

  ghost predicate KnowsOpen(names: seq<string>, w: WhereSource, j: nat)
    requires j <= Connectives(w)
    decreases w
  {
    KnowsComparison(names, w.c) && (j > 0 ==> KnowsOpen(names, w.rest, j - 1))
  }

  ghost predicate KnowsComparison(names: seq<string>, c: ComparisonSource) {
    KnowsChain(names, c.left, |c.left.tails|) && KnowsChain(names, c.right, |c.right.tails|)
  }

  lemma ComparisonStable(names: seq<string>, more: seq<string>, c: ComparisonSource)
    requires WfComparisonSource(c) && names <= more && KnowsComparison(names, c)
    ensures KnowsComparison(more, c) && ComparisonSourceCode(c, more) == ComparisonSourceCode(c, names)
  {
    ChainStable(names, more, c.left, |c.left.tails|);
    ChainStable(names, more, c.right, |c.right.tails|);
  }

  lemma RegisteredComparison(names: seq<string>, c: ComparisonSource)
    requires WfComparisonSource(c)
    ensures KnowsComparison(RegisterComparison(names, c), c)
  {
    var left := RegisterChain(names, c.left, |c.left.tails|);
    RegisteredChain(names, c.left, |c.left.tails|);
    RegisteredChain(left, c.right, |c.right.tails|);
    ChainStable(left, RegisterComparison(names, c), c.left, |c.left.tails|);
  }

  lemma ComparisonCodeLength(c: ComparisonSource, names: seq<string>, more: seq<string>)
    requires WfComparisonSource(c)
    ensures |ComparisonSourceCode(c, names)| == |ComparisonSourceCode(c, more)|
  {
    ChainCodeLength(c.left, |c.left.tails|, names, more);
    ChainCodeLength(c.right, |c.right.tails|, names, more);
  }

  lemma {:induction false} OpenStable(names: seq<string>, more: seq<string>, w: WhereSource, j: nat)
    requires WfWhere(w) && j <= Connectives(w) && names <= more && KnowsOpen(names, w, j)
    ensures KnowsOpen(more, w, j) && OpenCode(w, j, more) == OpenCode(w, j, names)
    ensures OpenAt(w, j, more) == OpenAt(w, j, names)
    decreases w
  {
    ComparisonStable(names, more, w.c);
    if j > 0 {
      OpenStable(names, more, w.rest, j - 1);
    }
  }

  lemma {:induction false} OpenLength(w: WhereSource, j: nat, names: seq<string>, more: seq<string>)
    requires WfWhere(w) && j <= Connectives(w)
    ensures |OpenCode(w, j, names)| == |OpenCode(w, j, more)|
    decreases w
  {
    ComparisonCodeLength(w.c, names, more);
    if j > 0 {
      OpenLength(w.rest, j - 1, names, more);
    }
  }

  lemma {:induction false} RegisteredOpen(names: seq<string>, w: WhereSource, j: nat)
    requires WfWhere(w) && j <= Connectives(w)
    ensures names <= OpenNames(names, w, j) && KnowsOpen(OpenNames(names, w, j), w, j)
    decreases w
  {
    var first := RegisterComparison(names, w.c);
    RegisteredComparison(names, w.c);
    if j > 0 {
      RegisteredOpen(first, w.rest, j - 1);
      ComparisonStable(first, OpenNames(names, w, j), w.c);
    }
  }

  lemma {:induction false} OpenSteps(w: WhereSource, j: nat, names: seq<string>)
    requires WfWhere(w) && j < Connectives(w)
    ensures
      var s := Suffix(w, j);
      && s.More?
      && OpenTokens(w, j + 1) == OpenTokens(w, j) + [s.connective] + ComparisonTokens(s.rest.c)
      && OpenNames(names, w, j + 1) == RegisterComparison(OpenNames(names, w, j), s.rest.c)
      && Suffix(w, j + 1) == s.rest
    decreases w
  {
    hide ComparisonTokens, RegisterComparison, WfComparisonSource;
    if j > 0 {
      OpenSteps(w.rest, j - 1, RegisterComparison(names, w.c));
      var s := Suffix(w, j);
      assert OpenTokens(w, j + 1) == ComparisonTokens(w.c) + [w.connective] + OpenTokens(w.rest, j);
      assert OpenTokens(w, j) == ComparisonTokens(w.c) + [w.connective] + OpenTokens(w.rest, j - 1);
    }
  }

  lemma {:induction false} SlotInOpenCode(w: WhereSource, j: nat, names: seq<string>)
    requires WfWhere(w) && j < Connectives(w)
    ensures
      var s, code, at := Suffix(w, j), OpenCode(w, j, names), OpenAt(w, j, names);
      && s.More? && WfWhere(s.rest) && at < |code| && OpenAt(w, j + 1, names) == |code| + 2
      && OpenCode(w, j + 1, names)
         == code[..at] + [Type(CMP_OP), Op(ConnectiveOf(s.connective))] + code[at..]
           + ComparisonSourceCode(s.rest.c, names)
    decreases w
  {
    hide ComparisonSourceCode, WfComparisonSource;
    var slot := [Type(CMP_OP), Op(ConnectiveOf(w.connective))];
    var head := slot + ComparisonSourceCode(w.c, names);
    if j == 0 {
      assert OpenCode(w.rest, 0, names) == ComparisonSourceCode(w.rest.c, names);
      assert OpenCode(w, 1, names) == head + ComparisonSourceCode(w.rest.c, names);
    } else {
      var s := Suffix(w.rest, j - 1);
      var code, at := OpenCode(w.rest, j - 1, names), OpenAt(w.rest, j - 1, names);
      SlotInOpenCode(w.rest, j - 1, names);
      assert OpenCode(w, j, names) == head + code && OpenAt(w, j, names) == |head| + at;
      assert OpenCode(w, j + 1, names) == head + OpenCode(w.rest, j, names);
      SlotBehind(head, code, at, [Type(CMP_OP), Op(ConnectiveOf(s.connective))], ComparisonSourceCode(s.rest.c, names));
    }
  }

  lemma SlotBehind(head: seq<Cell>, code: seq<Cell>, at: nat, slot: seq<Cell>, tail: seq<Cell>)
    requires at <= |code|
    ensures head + (code[..at] + slot + code[at..] + tail)
         == (head + code)[..|head| + at] + slot + (head + code)[|head| + at..] + tail
  {
    assert (head + code)[..|head| + at] == head + code[..at] && (head + code)[|head| + at..] == code[at..];
  }

  lemma {:induction false} OpenEnds(w: WhereSource, j: nat, names: seq<string>)
    requires WfWhere(w) && j <= Connectives(w)
    ensures OpenTokens(w, j) <= WhereTokens(w)
    ensures OpenNames(names, w, j) <= RegisterWhere(names, w)
    ensures |OpenCode(w, j, names)| <= |WhereCode(w, names)|
    ensures j == Connectives(w) ==> OpenTokens(w, j) == WhereTokens(w)
    ensures j == Connectives(w) ==> OpenNames(names, w, j) == RegisterWhere(names, w)
    ensures j == Connectives(w) ==> OpenCode(w, j, names) == WhereCode(w, names)
    decreases w
  {
    hide ComparisonTokens, RegisterComparison, ComparisonSourceCode, WfComparisonSource;
    if j > 0 {
      OpenEnds(w.rest, j - 1, names);
      OpenEnds(w.rest, j - 1, RegisterComparison(names, w.c));
    }
  }

  lemma OpenBeginning(w: WhereSource, names: seq<string>)
    requires WfWhere(w)
    ensures WfComparisonSource(w.c) && OpenTokens(w, 0) == ComparisonTokens(w.c) <= WhereTokens(w)
    ensures OpenNames(names, w, 0) == RegisterComparison(names, w.c) <= RegisterWhere(names, w)
    ensures |ComparisonSourceCode(w.c, [])| <= |WhereCode(w, [])|
    ensures
      var first := RegisterComparison(names, w.c);
      OpenCode(w, 0, first) == ComparisonSourceCode(w.c, first) && OpenAt(w, 0, first) == 0
  {
    hide ComparisonTokens, RegisterComparison, ComparisonSourceCode;
  }

  lemma FirstToken(c: ComparisonSource, ahead: seq<Token>)
    requires WfComparisonSource(c) && ComparisonTokens(c) <= ahead && c.left.head.Plain?
    ensures |ahead| > 0 && ahead[0] != LEFT_PAREN
  {
    ComparisonAhead(c, ahead);
    HeadAhead(c.left, ahead);
    assert WfArgument(c.left.head) && ArgumentTokens(c.left.head) == [c.left.head.operand];
  }

  predicate EndsComparison(tokens: seq<Token>, i: nat) {
    i < |tokens| ==> !IsArithToken(tokens[i]) && tokens[i] != RIGHT_PAREN
  }

  predicate EndsWhere(tokens: seq<Token>, i: nat) {
    EndsComparison(tokens, i) && (i < |tokens| ==> tokens[i] != AND_T && tokens[i] != OR_T)
  }

  lemma RelationEnds(c: ComparisonSource, tokens: seq<Token>, i: nat)
    requires IsRelationToken(c.rel) && c.rel == if i < |tokens| then tokens[i] else NONE
    ensures EndsComparison(tokens, i) && c.rel != NONE
  {
  }

  /** After comparison j the text of the clause goes on with a connective, or the clause is over. */
  lemma ComparisonEnds(w: WhereSource, j: nat, tokens: seq<Token>, from: nat)
    requires WfWhere(w) && j <= Connectives(w)
    requires from <= |tokens| && WhereTokens(w) <= tokens[from..] && EndsWhere(tokens, from + |WhereTokens(w)|)
    ensures EndsComparison(tokens, from + |OpenTokens(w, j)|)
  {
    if j < Connectives(w) {
      ConnectiveAhead(w, j, tokens, from);
    } else {
      OpenEnds(w, j, []);
    }
  }

  lemma ConnectiveAhead(w: WhereSource, j: nat, tokens: seq<Token>, from: nat)
    requires WfWhere(w) && j < Connectives(w)
    requires from <= |tokens| && WhereTokens(w) <= tokens[from..]
    ensures var s, at := Suffix(w, j), from + |OpenTokens(w, j)|;
      && s.More? && (s.connective == AND_T || s.connective == OR_T) && s.rest.c.left.head.Plain?
      && at < |tokens| && tokens[at] == s.connective && ComparisonTokens(s.rest.c) <= tokens[at + 1..]
      && |OpenTokens(w, j + 1)| == |OpenTokens(w, j)| + 1 + |ComparisonTokens(s.rest.c)|
  {
    hide ComparisonTokens, WfComparisonSource;
    OpenSteps(w, j, []);
    OpenEnds(w, j + 1, []);
    var s, i, n, ahead := Suffix(w, j), |OpenTokens(w, j)|, |OpenTokens(w, j + 1)|, tokens[from..];
    hide OpenTokens, WhereTokens, ComparisonTokens, Suffix;
    assert ahead[..n] == OpenTokens(w, j + 1);
    assert ahead[i] == OpenTokens(w, j + 1)[i];
    assert ahead[i + 1..n] == OpenTokens(w, j + 1)[i + 1..];
    assert tokens[from + i + 1..][..n - i - 1] == ahead[i + 1..n];
  }

  /** There is room for one more connective and its comparison. */
  lemma RoomForComparison(w: WhereSource, j: nat, names0: seq<string>)
    requires WfWhere(w) && j < Connectives(w)
    ensures var names, c := OpenNames(names0, w, j), Suffix(w, j + 1).c;
      && WfComparisonSource(c) && KnowsOpen(names, w, j)
      && OpenAt(w, j, names) < |OpenCode(w, j, names)|
      && |OpenCode(w, j, names)| + 2 + |ComparisonSourceCode(c, [])| <= |WhereCode(w, [])|
      && OpenNames(names0, w, j + 1) == RegisterComparison(names, c)
      && |RegisterComparison(names, c)| <= |RegisterWhere(names0, w)|
  {
    hide ComparisonSourceCode, RegisterComparison, OpenCode, OpenAt, KnowsOpen, OpenTokens, WhereTokens, WhereCode,
      RegisterWhere;
    var names := OpenNames(names0, w, j);
    OpenSteps(w, j, names0);
    RegisteredOpen(names0, w, j);
    SlotInOpenCode(w, j, names);
    SlotInOpenCode(w, j, []);
    OpenLength(w, j, names, []);
    OpenEnds(w, j + 1, []);
    OpenEnds(w, j + 1, names0);
  }

  lemma ConnectivePlaced(w: WhereSource, j: nat, names: seq<string>, more: seq<string>)
    requires WfWhere(w) && j < Connectives(w) && names <= more && KnowsOpen(names, w, j)
    ensures
      var s, code, at := Suffix(w, j), OpenCode(w, j, names), OpenAt(w, j, names);
      && s.More? && WfWhere(s.rest) && at < |code| && OpenAt(w, j + 1, more) == |code| + 2 && Suffix(w, j + 1) == s.rest
      && OpenCode(w, j + 1, more)
         == code[..at] + [Type(CMP_OP), Op(ConnectiveOf(s.connective))] + code[at..]
           + ComparisonSourceCode(s.rest.c, more)
  {
    OpenSteps(w, j, names);
    OpenStable(names, more, w, j);
    SlotInOpenCode(w, j, more);
  }

  /** What the loop of parse_where meets after comparison j, and what it makes of it. */
  lemma NextConnective(w: WhereSource, j: nat, tokens: seq<Token>, from: nat, names0: seq<string>)
    requires WfWhere(w) && j <= Connectives(w)
    requires from <= |tokens| && WhereTokens(w) <= tokens[from..] && EndsWhere(tokens, from + |WhereTokens(w)|)
    ensures
      var (at, names) := (from + |OpenTokens(w, j)|, OpenNames(names0, w, j));
      if j == Connectives(w) then
        && at == from + |WhereTokens(w)| && names == RegisterWhere(names0, w)
        && OpenCode(w, j, names) == WhereCode(w, names)
        && (at < |tokens| ==> tokens[at] != AND_T && tokens[at] != OR_T)
      else
        var (code, slot, c) := (OpenCode(w, j, names), OpenAt(w, j, names), Suffix(w, j + 1).c);
        && at < |tokens| && (tokens[at] == AND_T || tokens[at] == OR_T)
        && WfComparisonSource(c) && c.left.head.Plain? && ComparisonTokens(c) <= tokens[at + 1..]
        && EndsComparison(tokens, at + 1 + |ComparisonTokens(c)|)
        && from + |OpenTokens(w, j + 1)| == at + 1 + |ComparisonTokens(c)|
        && slot < |code| && |code| + 2 + |ComparisonSourceCode(c, [])| <= |WhereCode(w, [])|
        && OpenNames(names0, w, j + 1) == RegisterComparison(names, c)
        && |RegisterComparison(names, c)| <= |RegisterWhere(names0, w)|
        && OpenAt(w, j + 1, RegisterComparison(names, c)) == |code| + 2
        && OpenCode(w, j + 1, RegisterComparison(names, c))
           == code[..slot] + [Type(CMP_OP), Op(ConnectiveOf(tokens[at]))] + code[slot..]
              + ComparisonSourceCode(c, RegisterComparison(names, c))
  {
    hide WhereTokens, WhereCode, RegisterWhere, ComparisonTokens, ComparisonSourceCode, RegisterComparison, Suffix,
      Connectives, KnowsOpen, WfComparisonSource, OpenTokens, OpenNames, OpenCode, OpenAt, WfWhere, EndsComparison,
      ConnectiveOf;
    if j < Connectives(w) {
      ConnectiveAhead(w, j, tokens, from);
      RoomForComparison(w, j, names0);
      ComparisonEnds(w, j + 1, tokens, from);
      ConnectivePlaced(w, j, OpenNames(names0, w, j), RegisterComparison(OpenNames(names0, w, j), Suffix(w, j + 1).c));
    } else {
      OpenEnds(w, j, names0);
      OpenEnds(w, j, OpenNames(names0, w, j));
    }
  }

  // ----- The parser -----

  class Parser {
    const vm: Lvm
    const tokens: seq<Token>
    var pos: nat
    var prev: nat
    var token: Token

    ghost predicate Valid()
      reads this, vm
    {
      pos <= |tokens| && prev <= |tokens| && vm.Valid()
    }

    function Peek(k: nat): Token
      reads this
    {
      if pos + k < |tokens| then tokens[pos + k] else NONE
    }

    ghost predicate Ahead(ts: seq<Token>)
      reads this
    {
      pos <= |tokens| && ts <= tokens[pos..]
    }

    constructor (vm: Lvm, tokens: seq<Token>)
      requires vm.Valid()
      ensures Valid() && this.vm == vm && this.tokens == tokens && pos == 0
    {
      this.vm, this.tokens := vm, tokens;
      pos, prev, token := 0, 0, NONE;
    }

    /** lexer_next on the token stream */
    method Next()
      requires Valid()
      modifies `pos, `prev, `token
      ensures Valid() && token == old(Peek(0)) && prev == old(pos)
      ensures pos == if old(pos) < |tokens| then old(pos) + 1 else old(pos)
    {
      prev := pos;
      token := Peek(0);
      if pos < |tokens| {
        pos := pos + 1;
      }
    }

    /** lexer_rewind */
    method Rewind()
      requires Valid()
      modifies `pos
      ensures Valid() && pos == prev
    {
      pos := prev;
    }

    method ParseCmp() returns (t: Token)
      requires Valid()
      modifies `pos, `prev, `token
      ensures Valid() && prev == old(pos)
      ensures t == if IsRelationToken(old(Peek(0))) then old(Peek(0)) else NONE
      ensures pos == if old(pos) < |tokens| then old(pos) + 1 else old(pos)
    {
      Next();
      t := if IsRelationToken(token) then token else NONE;
    }

    method ParseOp() returns (t: Token)
      requires Valid()
      modifies `pos, `prev, `token
      ensures Valid() && prev == old(pos)
      ensures var x := old(Peek(0)); t == if IsArithToken(x) || x == RIGHT_PAREN then x else NONE
      ensures pos == if old(pos) < |tokens| then old(pos) + 1 else old(pos)
    {
      Next();
      t := if IsArithToken(token) || token == RIGHT_PAREN then token else NONE;
    }

    method ParseOperand() returns (r: AqlStatus)
      requires Valid() && vm.end + 2 <= vm.code.Length
      modifies this, vm, vm.code
      ensures Valid() && prev == old(pos) && vm.error == old(vm.error)
      ensures pos == if old(pos) < |tokens| then old(pos) + 1 else old(pos)
      ensures var t := old(Peek(0));
        if IsOperand(t) && |RegisterToken(old(vm.names), t)| > vm.maxVariables then
          // The table of variables is full: nothing is emitted for the new name.
          r == OK && vm.names == old(vm.names) && vm.Code() == old(vm.Code())
        else if IsOperand(t) then
          r == OK && vm.names == RegisterToken(old(vm.names), t)
          && vm.Code() == old(vm.Code()) + OperandCode(t, vm.names)
        else
          (r == OK <==> t == STRING_VALUE || t == FLOAT_VALUE)
          && vm.names == old(vm.names) && vm.end == old(vm.end) && vm.code[..] == old(vm.code[..])
    {
      hide IndexOf, Distinct;
      Next();
      if token.IDENTIFIER? {
        var _ := vm.RegisterVariable(token.name);
        vm.SetVariable(token.name);
      } else if token.INTEGER_VALUE? {
        vm.SetOperand(Long(token.l));
      } else if token == STRING_VALUE || token == FLOAT_VALUE {
      } else {
        return SYNTAX_ERROR;
      }
      return OK;
    }

    /** Opens a slot at `at`, writes the operator into it and puts the end behind the moved tail. */
    method EmitOperator(at: nat, op: Operator) returns (savedEnd: nat)
      requires vm.Valid() && at < vm.end && vm.end + 2 < vm.code.Length
      modifies vm, vm.code
      ensures vm.Valid() && savedEnd == vm.end && vm.error == old(vm.error) && vm.names == old(vm.names)
      ensures vm.Code() == old(vm.Code()[..at]) + [Type(ARITH_OP), Op(op)] + old(vm.Code()[at..])
    {
      savedEnd := vm.ShiftForOperator(at);
      vm.SetOp(op);
      var _ := vm.SetEnd(savedEnd);
      assert vm.code[..at] == old(vm.code[..at]);
      assert vm.code[at + 2..savedEnd] == old(vm.code[at..vm.end]);
    }

    /**
     Compiles one chain.  A chain inside parentheses is `closed`: its loop swallows the closing
     parenthesis.
     */
    method ParseExpr(ghost s: Chain, ghost closed: bool) returns (r: AqlStatus)
      requires Valid() && WfChain(s)
      requires Ahead(ChainTokens(s, |s.tails|))
      requires var i := pos + |ChainTokens(s, |s.tails|)|;
        if closed then i < |tokens| && tokens[i] == RIGHT_PAREN else EndsComparison(tokens, i)
      requires vm.end + |FullChainCode(s, [])| < vm.code.Length
      requires |RegisterChain(vm.names, s, |s.tails|)| <= vm.maxVariables
      modifies this, vm, vm.code
      ensures Valid() && r == OK && vm.error == old(vm.error)
      ensures pos == old(pos) + |ChainTokens(s, |s.tails|)| + (if closed then 1 else 0)
      ensures vm.names == RegisterChain(old(vm.names), s, |s.tails|)
      ensures vm.Code() == old(vm.Code()) + FullChainCode(s, vm.names)
      decreases s, 2
    {
      ghost var names0 := vm.names;
      ChainBeginning(s, tokens[pos..], names0);
      hide ChainCode, ChainTokens, RegisterChain, RegisterArgument, ArgumentCode, HeadTokens, WfChain, Distinct;
      var savedEnd := vm.end;
      r := ParseHead(s.head);
      if r != OK {
        return SYNTAX_ERROR;
      }
      r := ParseTails(savedEnd, s, closed, old(pos), names0, old(vm.Code()));
    }

    /** The part of parse_expr before its loop. */
    method ParseHead(ghost a: Argument) returns (r: AqlStatus)
      requires Valid() && WfArgument(a) && Ahead(HeadTokens(a))
      requires vm.end + |ArgumentCode(a, [])| < vm.code.Length
      requires |RegisterArgument(vm.names, a)| <= vm.maxVariables
      modifies this, vm, vm.code
      ensures Valid() && r == OK && vm.error == old(vm.error)
      ensures pos == old(pos) + |HeadTokens(a)|
      ensures vm.names == RegisterArgument(old(vm.names), a)
      ensures vm.Code() == old(vm.Code()) + ArgumentCode(a, vm.names)
      decreases a, 1
    {
      ghost var ahead := tokens[pos..];
      assert ahead[0] == ArgumentTokens(a)[0];
      Next();
      if token == LEFT_PAREN {
        assert a.Paren? && tokens[pos..] == ahead[1..];
        var e := ParseExpr(a.inner, true);
        if e != OK {
          return SYNTAX_ERROR;
        }
        assert Peek(0) == ahead[|ArgumentTokens(a)|];
        Next();
        if token != RIGHT_PAREN {
          return SYNTAX_ERROR;
        }
      } else {
        Rewind();
        var o := ParseOperand();
        if o != OK {
          return SYNTAX_ERROR;
        }
      }
      return OK;
    }

    /** The loop of parse_expr: operators, each with its argument. */
    method ParseTails(start: nat, ghost s: Chain, ghost closed: bool, ghost pos0: nat,
                      ghost names0: seq<string>, ghost base: seq<Cell>) returns (r: AqlStatus)
      requires Valid() && WfChain(s) && start == |base|
      requires pos0 <= |tokens| && ChainTokens(s, |s.tails|) <= tokens[pos0..]
      requires pos == pos0 + |ChainTokens(s, 0)|
      requires var i := pos0 + |ChainTokens(s, |s.tails|)|;
        if closed then i < |tokens| && tokens[i] == RIGHT_PAREN else EndsComparison(tokens, i)
      requires vm.names == RegisterChain(names0, s, 0)
      requires vm.Code() == base + ChainCode(s, 0, vm.names)
      requires |base| + |ChainCode(s, |s.tails|, [])| < vm.code.Length
      requires |RegisterChain(names0, s, |s.tails|)| <= vm.maxVariables
      modifies this, vm, vm.code
      ensures Valid() && r == OK && vm.error == old(vm.error)
      ensures pos == pos0 + |ChainTokens(s, |s.tails|)| + (if closed then 1 else 0)
      ensures vm.names == RegisterChain(names0, s, |s.tails|)
      ensures vm.Code() == base + ChainCode(s, |s.tails|, vm.names)
      decreases s, 1, 1
    {
      hide ChainCode, ChainTokens, RegisterChain, RegisterArgument, ArgumentCode, ArgumentTokens,
        KnowsChain, WfChain, WfArgument, Distinct, OperatorOf, EndsComparison;
      var savedEnd := start;
      ghost var k: nat := 0;
      var more := true;
      r := OK;
      while more
        invariant Valid() && vm.error == old(vm.error) && r == OK
        invariant k <= |s.tails| && (!more ==> k == |s.tails|)
        invariant pos == pos0 + |ChainTokens(s, k)| + if !more && closed then 1 else 0
        invariant vm.names == RegisterChain(names0, s, k)
        invariant vm.Code() == base + ChainCode(s, k, vm.names)
        invariant more ==> savedEnd == if k == 0 then |base| else vm.end
        decreases |s.tails| - k, more
      {
        if k < |s.tails| {
          NextTail(s, k, tokens, pos0, pos, names0);
        }
        more, r, savedEnd := TailStep(savedEnd, s, closed, k, base);
        if r != OK {
          return SYNTAX_ERROR;
        }
        if more {
          k := k + 1;
        }
      }
      return OK;
    }

    /** The body of that loop: an operator and its argument, or the end of the expression. */
    method TailStep(savedEnd: nat, ghost s: Chain, ghost closed: bool, ghost k: nat, ghost base: seq<Cell>)
      returns (more: bool, r: AqlStatus, newEnd: nat)
      requires Valid() && WfChain(s) && k <= |s.tails|
      requires k < |s.tails| ==>
        && WfTail(s.tails[k]) && Peek(0) == s.tails[k].op && KnowsChain(vm.names, s, k)
        && pos < |tokens| && ArgumentTokens(s.tails[k].arg) <= tokens[pos + 1..]
        && vm.end + 2 + |ArgumentCode(s.tails[k].arg, [])| < vm.code.Length
        && |RegisterArgument(vm.names, s.tails[k].arg)| <= vm.maxVariables
      requires k == |s.tails| ==>
        if closed then pos < |tokens| && tokens[pos] == RIGHT_PAREN else EndsComparison(tokens, pos)
      requires vm.Code() == base + ChainCode(s, k, vm.names)
      requires savedEnd == if k == 0 then |base| else vm.end
      modifies this, vm, vm.code
      ensures Valid() && r == OK && vm.error == old(vm.error) && more == (k < |s.tails|)
      ensures more ==>
        && newEnd == vm.end && pos == old(pos) + 1 + |ArgumentTokens(s.tails[k].arg)|
        && vm.names == RegisterArgument(old(vm.names), s.tails[k].arg)
        && vm.Code() == base + ChainCode(s, k + 1, vm.names)
      ensures !more ==>
        && pos == old(pos) + (if closed then 1 else 0) && vm.names == old(vm.names)
        && vm.Code() == old(vm.Code())
      decreases s, 1, 0
    {
      hide ChainCode, ChainTokens, RegisterChain, RegisterArgument, ArgumentCode, ArgumentTokens,
        KnowsChain, WfChain, WfArgument, Distinct, OperatorOf;
      more, r, newEnd := false, OK, savedEnd;
      var t := ParseOp();
      if t == NONE {
        newEnd := vm.end;
        Rewind();
      } else if t != RIGHT_PAREN {
        r, newEnd := ParseTail(t, savedEnd, s, k, base);
        more := true;
      }
    }

    /** The rest of the loop body of parse_expr, once the operator `t` has been read. */
    method ParseTail(t: Token, savedEnd: nat, ghost s: Chain, ghost k: nat, ghost base: seq<Cell>)
      returns (r: AqlStatus, newEnd: nat)
      requires Valid() && WfChain(s) && k < |s.tails| && WfTail(s.tails[k]) && t == s.tails[k].op
      requires Ahead(ArgumentTokens(s.tails[k].arg)) && KnowsChain(vm.names, s, k)
      requires vm.Code() == base + ChainCode(s, k, vm.names)
      requires savedEnd == if k == 0 then |base| else vm.end
      requires vm.end + 2 + |ArgumentCode(s.tails[k].arg, [])| < vm.code.Length
      requires |RegisterArgument(vm.names, s.tails[k].arg)| <= vm.maxVariables
      modifies this, vm, vm.code
      ensures Valid() && r == OK && vm.error == old(vm.error) && newEnd == vm.end
      ensures pos == old(pos) + |ArgumentTokens(s.tails[k].arg)|
      ensures vm.names == RegisterArgument(old(vm.names), s.tails[k].arg)
      ensures vm.Code() == base + ChainCode(s, k + 1, vm.names)
      decreases s, 0
    {
      ghost var a, before := s.tails[k].arg, vm.names;
      r := ParseArgument(a);
      if r != OK {
        return r, savedEnd;
      }
      ChainStable(before, vm.names, s, k);
      ArgumentCodeLength(a, vm.names, []);
      SlotPlaced(s, k, vm.names, base);
      newEnd := EmitOperator(savedEnd, OperatorOf(t));
    }

    /** `PARSE(operand) || PARSE(expr)`: a failed operand has consumed the opening parenthesis. */
    method ParseArgument(ghost a: Argument) returns (r: AqlStatus)
      requires Valid()
      requires WfArgument(a)
      requires Ahead(ArgumentTokens(a))
      requires vm.end + |ArgumentCode(a, [])| < vm.code.Length
      requires |RegisterArgument(vm.names, a)| <= vm.maxVariables
      modifies this, vm, vm.code
      ensures Valid() && r == OK && vm.error == old(vm.error)
      ensures pos == old(pos) + |ArgumentTokens(a)|
      ensures vm.names == RegisterArgument(old(vm.names), a)
      ensures vm.Code() == old(vm.Code()) + ArgumentCode(a, vm.names)
      decreases a, 0
    {
      hide ChainCode, ChainTokens, RegisterChain, WfChain, Distinct, EndsComparison, IndexOf;
      assert tokens[pos..][0] == ArgumentTokens(a)[0];
      ghost var ahead := tokens[pos..];
      r := ParseOperand();
      if r != OK {
        assert tokens[pos..] == ahead[1..];
        assert a.Paren?;
        r := ParseExpr(a.inner, true);
      }
    }

    /** lvm_set_relation at the current end, which is a slot left open, and lvm_set_end back to `savedEnd`. */
    method FillRelation(savedEnd: nat, op: Operator)
      requires vm.Valid() && vm.end + 2 <= savedEnd < vm.code.Length
      modifies vm, vm.code
      ensures vm.Valid() && vm.end == savedEnd && vm.error == old(vm.error) && vm.names == old(vm.names)
      ensures vm.Code() == old(vm.code[..vm.end]) + [Type(CMP_OP), Op(op)] + old(vm.code[vm.end + 2..savedEnd])
    {
      vm.SetRelation(op);
      var _ := vm.SetEnd(savedEnd);
      assert vm.code[..old(vm.end)] == old(vm.code[..vm.end]);
      assert vm.code[old(vm.end) + 2..savedEnd] == old(vm.code[vm.end + 2..savedEnd]);
    }

    method ParseComparison(ghost c: ComparisonSource) returns (r: AqlStatus)
      requires Valid() && WfComparisonSource(c)
      requires Ahead(ComparisonTokens(c))
      requires EndsComparison(tokens, pos + |ComparisonTokens(c)|)
      requires vm.end + |ComparisonSourceCode(c, [])| < vm.code.Length
      requires |RegisterComparison(vm.names, c)| <= vm.maxVariables
      modifies this, vm, vm.code
      ensures Valid() && r == OK && vm.error == old(vm.error)
      ensures pos == old(pos) + |ComparisonTokens(c)|
      ensures vm.names == RegisterComparison(old(vm.names), c)
      ensures vm.Code() == old(vm.Code()) + ComparisonSourceCode(c, vm.names)
    {
      hide ChainCode, ChainTokens, RegisterChain, KnowsChain, WfChain, Distinct, EndsComparison, IsRelationToken,
        RelationOf;
      ghost var base, ahead := vm.Code(), tokens[pos..];
      ComparisonAhead(c, ahead);
      RegisteredChain(vm.names, c.left, |c.left.tails|);
      ChainCodeLength(c.left, |c.left.tails|, RegisterChain(vm.names, c.left, |c.left.tails|), []);
      r := ParseLeftSide(c);
      if r != OK {
        return SYNTAX_ERROR;
      }
      ghost var names := vm.names;
      assert tokens[pos..] == ahead[|ChainTokens(c.left, |c.left.tails|)| + 1..];
      r := ParseExpr(c.right, false);
      if r != OK {
        return SYNTAX_ERROR;
      }
      ChainStable(names, vm.names, c.left, |c.left.tails|);
      Regroup(base, [Type(CMP_OP), Op(RelationOf(c.rel))], FullChainCode(c.left, names),
              FullChainCode(c.right, vm.names));
    }

    /** parse_comparison up to its second operand: the slot is left open first and filled afterwards. */
    method ParseLeftSide(ghost c: ComparisonSource) returns (r: AqlStatus)
      requires Valid() && WfComparisonSource(c)
      requires Ahead(ChainTokens(c.left, |c.left.tails|)) && Peek(|ChainTokens(c.left, |c.left.tails|)|) == c.rel
      requires vm.end + 2 + |FullChainCode(c.left, [])| < vm.code.Length
      requires |RegisterChain(vm.names, c.left, |c.left.tails|)| <= vm.maxVariables
      modifies this, vm, vm.code
      ensures Valid() && r == OK && vm.error == old(vm.error)
      ensures pos == old(pos) + |ChainTokens(c.left, |c.left.tails|)| + 1
      ensures vm.names == RegisterChain(old(vm.names), c.left, |c.left.tails|)
      ensures vm.Code() == old(vm.Code()) + [Type(CMP_OP), Op(RelationOf(c.rel))] + FullChainCode(c.left, vm.names)
    {
      hide ChainCode, ChainTokens, RegisterChain, WfChain, Distinct, IsRelationToken, RelationOf;
      ghost var base := vm.Code();
      ChainCodeLength(c.left, |c.left.tails|, RegisterChain(vm.names, c.left, |c.left.tails|), []);
      RelationEnds(c, tokens, pos + |ChainTokens(c.left, |c.left.tails|)|);
      var savedEnd := vm.JumpToOperand();
      r := ParseExpr(c.left, false);
      if r != OK {
        return SYNTAX_ERROR;
      }
      ghost var leftCode := FullChainCode(c.left, vm.names);
      assert vm.Code()[..|base|] == base && vm.Code()[|base| + 2..] == leftCode;
      savedEnd := vm.SetEnd(savedEnd);
      var t := ParseCmp();
      if t == NONE {
        return SYNTAX_ERROR;
      }
      FillRelation(savedEnd, RelationOf(t));
    }

    /** lvm_shift_for_operator, lvm_set_relation and lvm_set_end, as parse_where calls them. */
    method EmitConnective(at: nat, op: Operator) returns (savedEnd: nat)
      requires vm.Valid() && at < vm.end && vm.end + 2 < vm.code.Length
      modifies vm, vm.code
      ensures vm.Valid() && savedEnd == vm.end && vm.error == old(vm.error) && vm.names == old(vm.names)
      ensures vm.Code() == old(vm.Code()[..at]) + [Type(CMP_OP), Op(op)] + old(vm.Code()[at..])
    {
      savedEnd := vm.ShiftForOperator(at);
      vm.SetRelation(op);
      var _ := vm.SetEnd(savedEnd);
      assert vm.code[..at] == old(vm.code[..at]);
      assert vm.code[at + 2..savedEnd] == old(vm.code[at..vm.end]);
    }

    /** The loop body of parse_where, once a connective has been read. */
    method ParseConnected(connective: Operator, at: nat, ghost c: ComparisonSource)
      returns (r: AqlStatus, savedEnd: nat)
      requires Valid() && WfComparisonSource(c) && c.left.head.Plain? && at < vm.end
      requires Ahead(ComparisonTokens(c)) && EndsComparison(tokens, pos + |ComparisonTokens(c)|)
      requires vm.end + 2 + |ComparisonSourceCode(c, [])| < vm.code.Length
      requires |RegisterComparison(vm.names, c)| <= vm.maxVariables
      modifies this, vm, vm.code
      ensures Valid() && r == OK && vm.error == old(vm.error)
      ensures pos == old(pos) + |ComparisonTokens(c)|
      ensures vm.names == RegisterComparison(old(vm.names), c)
      ensures savedEnd == old(vm.end) + 2
      ensures vm.Code() == old(vm.Code()[..at]) + [Type(CMP_OP), Op(connective)] + old(vm.Code()[at..])
                           + ComparisonSourceCode(c, vm.names)
    {
      hide ComparisonTokens, ComparisonSourceCode, RegisterComparison, WfComparisonSource, EndsComparison, Distinct;
      savedEnd := EmitConnective(at, connective);
      FirstToken(c, tokens[pos..]);
      Next();
      if token == LEFT_PAREN {
        r := OK;
        assert false; // A group in parentheses is outside the modelled grammar.
      } else {
        Rewind();
        r := ParseComparison(c);
      }
    }

    /**
     Compiles a whole WHERE clause into an empty buffer.  Each connective is put in front of the
     comparison before it, so the clause groups to the right.
     */
    method ParseWhere(ghost w: WhereSource) returns (r: AqlStatus)
      requires Valid() && WfWhere(w) && vm.end == 0
      requires Ahead(WhereTokens(w))
      requires EndsWhere(tokens, pos + |WhereTokens(w)|)
      requires |WhereCode(w, [])| < vm.code.Length
      requires |RegisterWhere(vm.names, w)| <= vm.maxVariables
      modifies this, vm, vm.code
      ensures Valid() && r == OK && vm.error == old(vm.error)
      ensures pos == old(pos) + |WhereTokens(w)|
      ensures vm.names == RegisterWhere(old(vm.names), w)
      ensures vm.Code() == WhereCode(w, vm.names)
    {
      hide WhereTokens, WhereCode, RegisterWhere, ComparisonTokens, ComparisonSourceCode, RegisterComparison,
        Connectives, OpenTokens, OpenNames, OpenCode, OpenAt, WfWhere, WfComparisonSource, Distinct, EndsWhere,
        EndsComparison;
      OpenBeginning(w, vm.names);
      ComparisonEnds(w, 0, tokens, pos);
      r := ParseComparison(w.c);
      if r != OK {
        return SYNTAX_ERROR;
      }
      r := ParseConnectives(w, old(pos), old(vm.names));
    }

    /** The loop of parse_where. */
    method ParseConnectives(ghost w: WhereSource, ghost pos0: nat, ghost names0: seq<string>) returns (r: AqlStatus)
      requires Valid() && WfWhere(w) && pos0 <= |tokens| && WhereTokens(w) <= tokens[pos0..]
      requires EndsWhere(tokens, pos0 + |WhereTokens(w)|)
      requires pos == pos0 + |OpenTokens(w, 0)| && vm.names == OpenNames(names0, w, 0)
      requires vm.Code() == OpenCode(w, 0, vm.names) && OpenAt(w, 0, vm.names) == 0
      requires |WhereCode(w, [])| < vm.code.Length
      requires |RegisterWhere(names0, w)| <= vm.maxVariables
      modifies this, vm, vm.code
      ensures Valid() && r == OK && vm.error == old(vm.error)
      ensures pos == pos0 + |WhereTokens(w)|
      ensures vm.names == RegisterWhere(names0, w)
      ensures vm.Code() == WhereCode(w, vm.names)
    {
      hide WhereTokens, WhereCode, RegisterWhere, ComparisonTokens, ComparisonSourceCode, RegisterComparison, Suffix,
        Connectives, KnowsOpen, WfComparisonSource, OpenTokens, OpenNames, OpenCode, OpenAt, WfWhere, Distinct,
        EndsWhere,
        EndsComparison, ConnectiveOf;
      ghost var j: nat := 0;
      var savedEnd := 0;
      r := OK;
      while true
        invariant Valid() && vm.error == old(vm.error) && r == OK
        invariant j <= Connectives(w) && pos == pos0 + |OpenTokens(w, j)|
        invariant vm.names == OpenNames(names0, w, j)
        invariant vm.Code() == OpenCode(w, j, vm.names)
        invariant savedEnd == OpenAt(w, j, vm.names)
        decreases Connectives(w) - j
      {
        NextConnective(w, j, tokens, pos0, names0);
        Next();
        if token != AND_T && token != OR_T {
          Rewind();
          break;
        }
        ghost var c := Suffix(w, j + 1).c;
        r, savedEnd := ParseConnected(ConnectiveOf(token), savedEnd, c);
        if r != OK {
          return r;
        }
        j := j + 1;
      }
    }
  }
}
