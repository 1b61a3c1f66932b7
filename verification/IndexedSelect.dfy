/**
 The query pipeline: the ranges derived from a compiled condition select an index, and the rows that
 come out of the index are the rows a full scan produces.
 */
module IndexedSelect {
  import opened Common
  import opened LogicVm
  import opened Conditions
  import opened RangeDerivation
  import opened Relation
  import opened Selection
  import II = InlineIndex

  /** The program of a WHERE condition, with its variable table. */
  ghost predicate Compiled(code: seq<Cell>, names: seq<string>, w: Condition) {
    WfCondition(w) && KnowsCondition(names, w) && Distinct(names) && At(code, 0, ConditionCode(w, names))
  }

  lemma {:induction false} NoDivision(w: Condition, env: Env)
    requires Oriented(w)
    ensures !ConditionDividesByZero(w, env)
  {
    if w.Join? {
      NoDivision(w.rest, env);
    }
  }

  /** A row that satisfies the condition has, in every column with a derived range, a value in that range. */
  lemma SelectedRowsInRange(code: seq<Cell>, names: seq<string>, w: Condition, attrs: seq<Attribute>, row: Tuple,
                            n: nat, k: nat)
    requires Compiled(code, names, w) && Oriented(w) && SidesAgree(w) && Derivable(w, names, n)
    requires |row| == |attrs| && k < |attrs| && AttributeIndex(attrs, attrs[k].name) == k
    requires HasRange(attrs[k].name, names, Ranges(w, names, n)) && Longs(RowEnv(attrs, row), names)
    requires RowStatus(code, names, attrs, row) == TRUE
    ensures var r := Ranges(w, names, n)[IndexOf(names, attrs[k].name)]; r.min <= row[k] <= r.max
  {
    var env, i := RowEnv(attrs, row), IndexOf(names, attrs[k].name);
    NoDivision(w, env);
    ExecutionMeansCondition(code, w, names, RowValues(names, attrs, row), env);
    DerivationSound(w, names, n, env);
    assert InRange(Ranges(w, names, n)[i], env(names[i]));
  }

  /** Iterating over the index on a column with the given bounds comes to row i. */
  predicate Visited(col: seq<int>, bounds: Range, unique: bool, i: nat) {
    II.Visits(II.RangeOf(col, bounds.min, bounds.max), unique && bounds.min == bounds.max, i)
  }

  /** What relation_process_select produces, row after row, when it searches a column for the given bounds. */
  function SearchResult(code: seq<Cell>, names: seq<string>, attrs: seq<Attribute>, attrMap: seq<MapEntry>,
                        rows: seq<Tuple>, col: seq<int>, bounds: Range, unique: bool): (DbResult, seq<Tuple>)
    requires WfMap(attrMap, attrs) && WfRows(rows, attrs) && |col| == |rows|
  {
    var range := II.RangeOf(col, bounds.min, bounds.max);
    match range
    case Lost => (UNDEFINED, [])
    case NoRows => (DB_INDEX_ERROR, [])
    case Rows(start, _) =>
      II.IterationVisits(col, bounds.min, bounds.max, unique, 0);
      var end := II.VisitEnd(range, unique && bounds.min == bounds.max);
      (DB_FINISHED, Scan(code, names, attrs, attrMap, rows, TRUE, start, end))
  }

  /** For any column and bounds, the rows through the index are the full scan iff all selected rows are visited. */
  lemma SearchIsScanIff(code: seq<Cell>, names: seq<string>, attrs: seq<Attribute>, attrMap: seq<MapEntry>,
                        rows: seq<Tuple>, col: seq<int>, bounds: Range, unique: bool)
    requires WfMap(attrMap, attrs) && WfRows(rows, attrs) && |col| == |rows|
    ensures
      && (SearchResult(code, names, attrs, attrMap, rows, col, bounds, unique).1
          == Scan(code, names, attrs, attrMap, rows, TRUE, 0, |rows|))
      <==> forall i :: 0 <= i < |rows| && RowStatus(code, names, attrs, rows[i]) == TRUE ==>
             Visited(col, bounds, unique, i)
  {
    hide Scan, RowStatus, WfMap, II.RangeOf;
    var range := II.RangeOf(col, bounds.min, bounds.max);
    if range.Rows? {
      II.IterationVisits(col, bounds.min, bounds.max, unique, 0);
      PartialScanIff(code, names, attrs, attrMap, rows, TRUE, range.start,
                     II.VisitEnd(range, unique && bounds.min == bounds.max));
    } else {
      ScanIsEmptyIff(code, names, attrs, attrMap, rows, TRUE, 0, |rows|);
    }
  }

  /** The index on column k, searched for the derived range, yields the rows of the full scan. */
  lemma IndexEqualsScan(code: seq<Cell>, names: seq<string>, w: Condition, attrs: seq<Attribute>,
                        attrMap: seq<MapEntry>, rows: seq<Tuple>, n: nat, k: nat, unique: bool)
    requires Compiled(code, names, w) && Oriented(w) && SidesAgree(w) && Derivable(w, names, n)
    requires WfMap(attrMap, attrs) && WfRows(rows, attrs)
    requires k < |attrs| && AttributeIndex(attrs, attrs[k].name) == k
    requires HasRange(attrs[k].name, names, Ranges(w, names, n))
    requires forall r :: r in rows ==> Longs(RowEnv(attrs, r), names)
    requires var r := Ranges(w, names, n)[IndexOf(names, attrs[k].name)];
      II.Indexable(Column(rows, attrs, k), r.min, r.max)
    ensures var r := Ranges(w, names, n)[IndexOf(names, attrs[k].name)];
      var (result, out) := SearchResult(code, names, attrs, attrMap, rows, Column(rows, attrs, k), r, unique);
      result != UNDEFINED ==> out == Scan(code, names, attrs, attrMap, rows, TRUE, 0, |rows|)
  {
    hide Compiled, Oriented, SidesAgree, Derivable, Ranges, Scan, RowStatus, WfMap, AttributeIndex, IndexOf,
      Longs, II.Indexable, II.RangeOf, Visited, Column;
    var r, col := Ranges(w, names, n)[IndexOf(names, attrs[k].name)], Column(rows, attrs, k);
    SearchIsScanIff(code, names, attrs, attrMap, rows, col, r, unique);
    if !II.RangeOf(col, r.min, r.max).Lost? {
      forall i | 0 <= i < |rows| && RowStatus(code, names, attrs, rows[i]) == TRUE
        ensures Visited(col, r, unique, i)
      {
        assert rows[i] in rows;
        SelectedRowsInRange(code, names, w, attrs, rows[i], n, k);
        InRangeIsVisited(col, r, unique, i);
      }
    }
  }

  lemma InRangeIsVisited(col: seq<int>, r: Range, unique: bool, i: nat)
    requires II.Indexable(col, r.min, r.max) && !II.RangeOf(col, r.min, r.max).Lost?
    requires i < |col| && r.min <= col[i] <= r.max
    ensures Visited(col, r, unique, i)
  {
    hide II.Indexable, II.RangeOf;
    II.RangeCovers(col, r.min, r.max);
    assert col[i] in col;
    if II.RangeOf(col, r.min, r.max).Rows? {
      II.IterationCovers(col, r.min, r.max, unique, 0);
    }
  }

  /** The derived range that an attribute is searched for, before it is narrowed. */
  ghost function DerivedRange(w: Condition, names: seq<string>, n: nat, attrs: seq<Attribute>, k: nat): Range
    requires k < |attrs| && Derivable(w, names, n) && HasRange(attrs[k].name, names, Ranges(w, names, n))
  {
    Ranges(w, names, n)[IndexOf(names, attrs[k].name)]
  }

  /** The ranges are sound for the rows, and the bounds fit an int and stand in the ordered column at most once. */
  ghost predicate SafelyIndexed(w: Condition, names: seq<string>, attrs: seq<Attribute>, rows: seq<Tuple>,
                                col: seq<int>, r: Range, intBits: nat)
    requires intBits > 0
  {
    && Oriented(w) && SidesAgree(w) && (forall t :: t in rows ==> Longs(RowEnv(attrs, t), names))
    && BoundsFit(r, intBits) && II.Indexable(col, r.min, r.max)
  }

  /** The result of a search of column k, and how it relates to the full scan. */
  ghost predicate IndexedOutcome(code: seq<Cell>, names: seq<string>, w: Condition, attrs: seq<Attribute>,
                                 attrMap: seq<MapEntry>, rows: seq<Tuple>, n: nat, k: nat, intBits: nat,
                                 result: DbResult, out: seq<Tuple>)
    requires WfMap(attrMap, attrs) && WfRows(rows, attrs) && k < |attrs| && intBits > 0
    requires Derivable(w, names, n) && HasRange(attrs[k].name, names, Ranges(w, names, n))
  {
    var r, col := DerivedRange(w, names, n, attrs, k), Column(rows, attrs, k);
    var full, search := Scan(code, names, attrs, attrMap, rows, TRUE, 0, |rows|), Narrowed(r, intBits);
    && (result, out) == SearchResult(code, names, attrs, attrMap, rows, col, search, attrs[k].unique)
    && (II.Nondecreasing(col) ==>
          (result == UNDEFINED <==> rows == [] || search.min < rows[0][k] || search.max < rows[0][k]))
    && (SafelyIndexed(w, names, attrs, rows, col, r, intBits) && result != UNDEFINED ==> out == full)
    && (out == full <==>
          forall i :: 0 <= i < |rows| && RowStatus(code, names, attrs, rows[i]) == TRUE ==>
            Visited(col, search, attrs[k].unique, i))
  }

  /**
   relation_select followed by the calls of relation_process_select: derive ranges, pick an index, and collect the
   rows.  The search leaves the relation exactly when the relation is empty or the column starts above a bound, as an
   int reads it.  Otherwise the result is the full scan if the bounds fit an int and are not repeated, and, in any
   case, exactly when the search comes to all rows that satisfy the condition.
   */
  method Select(vm: Lvm, attrs: seq<Attribute>, attrMap: seq<MapEntry>, rows: seq<Tuple>, n: nat, intBits: nat,
                ghost w: Condition)
    returns (result: DbResult, out: seq<Tuple>, ghost k: int)
    requires vm.Valid() && Compiled(vm.code[..], vm.names, w) && intBits > 0
    requires WfMap(attrMap, attrs) && WfRows(rows, attrs) && |rows| < II.INVALID_TUPLE
    requires forall x :: x in vm.names ==> exists e :: e in attrMap && e.name == x
    requires forall i :: 0 <= i < |attrs| ==> AttributeIndex(attrs, attrs[i].name) == i
    modifies vm`ip, vm`values, vm`spare
    ensures vm.names == old(vm.names)
    ensures k == if Derivable(w, vm.names, n) then LastDerived(attrs, vm.names, Ranges(w, vm.names, n), |attrs|) else -1
    ensures k < 0 ==>
      result == DB_FINISHED && out == Scan(vm.code[..], vm.names, attrs, attrMap, rows, TRUE, 0, |rows|)
    ensures k >= 0 ==>
      IndexedOutcome(vm.code[..], vm.names, w, attrs, attrMap, rows, n, k, intBits, result, out)
  {
    hide Compiled, Derivable, Ranges, LastDerived, Scan, II.Indexable, II.Nondecreasing, II.RangeOf, II.VisitEnd,
      Column, WfMap, HasRange, Distinct, RowStatus, AsInt, IndexedOutcome;
    ghost var code, names := vm.code[..], vm.names;
    k := -1;
    var found, column, min, max := Choose(vm, attrs, n, intBits, w);
    var values := if found then Column(rows, attrs, column) else [];
    var iter := new II.Iterator(values, min, max, found && attrs[column].unique);
    ColumnLength(rows, attrs, column, found);
    var handle := new Handle(vm, attrs, attrMap, rows, false, found, iter);
    result, out := handle.SelectAll();
    if found {
      k := column;
      SearchOutcome(code, names, w, attrs, attrMap, rows, n, column, intBits, result, out);
    }
  }

  lemma SearchOutcome(code: seq<Cell>, names: seq<string>, w: Condition, attrs: seq<Attribute>,
                      attrMap: seq<MapEntry>, rows: seq<Tuple>, n: nat, k: nat, intBits: nat,
                      result: DbResult, out: seq<Tuple>)
    requires Compiled(code, names, w) && WfMap(attrMap, attrs) && WfRows(rows, attrs) && k < |attrs| && intBits > 0
    requires Derivable(w, names, n) && HasRange(attrs[k].name, names, Ranges(w, names, n))
    requires AttributeIndex(attrs, attrs[k].name) == k
    requires var search := Narrowed(DerivedRange(w, names, n, attrs, k), intBits);
      (result, out) == SearchResult(code, names, attrs, attrMap, rows, Column(rows, attrs, k), search, attrs[k].unique)
    ensures IndexedOutcome(code, names, w, attrs, attrMap, rows, n, k, intBits, result, out)
  {
    hide Compiled, Derivable, Ranges, Scan, II.Indexable, II.Nondecreasing, II.RangeOf, Column, WfMap, RowStatus,
      Visited, AsInt, FitsInt, AttributeIndex, IndexOf;
    var r, col := DerivedRange(w, names, n, attrs, k), Column(rows, attrs, k);
    var search := Narrowed(r, intBits);
    NarrowedIff(r, intBits);
    SearchIsScanIff(code, names, attrs, attrMap, rows, col, search, attrs[k].unique);
    if II.Nondecreasing(col) {
      SearchLeaves(rows, attrs, k, search.min, search.max);
    }
    if SafelyIndexed(w, names, attrs, rows, col, r, intBits) {
      IndexEqualsScan(code, names, w, attrs, attrMap, rows, n, k, attrs[k].unique);
    }
  }

  /** Deriving the ranges, and picking an index by them. */
  method Choose(vm: Lvm, attrs: seq<Attribute>, n: nat, intBits: nat, ghost w: Condition)
    returns (found: bool, column: nat, min: int, max: int)
    requires vm.Valid() && Compiled(vm.code[..], vm.names, w) && intBits > 0
    modifies vm`ip
    ensures vm.Valid()
    ensures
      var last := if Derivable(w, vm.names, n) then LastDerived(attrs, vm.names, Ranges(w, vm.names, n), |attrs|)
                  else -1;
      (found <==> last >= 0) && (found ==> column == last)
    ensures found ==>
      && column < |attrs| && attrs[column].indexed && HasRange(attrs[column].name, vm.names, Ranges(w, vm.names, n))
      && var r := Narrowed(DerivedRange(w, vm.names, n, attrs, column), intBits); min == r.min && max == r.max
  {
    hide LastDerived, Derivable, Ranges, DeriveAt, AsInt;
    var d := new Range[n](_ => NO_RANGE);
    assert d[..] == Blank(n);
    vm.ip := 0;
    var status := DeriveRelation(vm, d);
    DerivesCondition(vm.code[..], 0, w, vm.names, n);
    found, column, min, max := false, 0, 0, 0;
    if !status.IsError() {
      found, column, min, max := SelectIndex(attrs, vm.names, d, intBits);
    }
  }

  lemma ColumnLength(rows: seq<Tuple>, attrs: seq<Attribute>, k: nat, found: bool)
    requires WfRows(rows, attrs) && (found ==> k < |attrs|)
    ensures found ==> |Column(rows, attrs, k)| == |rows|
  {
  }

  /** When the search for the bounds leaves the relation. */
  lemma SearchLeaves(rows: seq<Tuple>, attrs: seq<Attribute>, k: nat, min: int, max: int)
    requires WfRows(rows, attrs) && k < |attrs| && II.Nondecreasing(Column(rows, attrs, k))
    ensures II.RangeOf(Column(rows, attrs, k), min, max).Lost? <==> rows == [] || min < rows[0][k] || max < rows[0][k]
  {
    II.FindRowCorrect(Column(rows, attrs, k), min, min == max);
    II.FindRowCorrect(Column(rows, attrs, k), max, min == max);
  }

  // ----- A query from end to end: x = a OR x = b -----

  function Either(x: string, a: int, b: int): Condition {
    Join(Comparison(EQ, Var(x), Const(a)), OR, Single(Comparison(EQ, Var(x), Const(b))))
  }

  /** The projections of the first n rows with the value a or b in column k. */
  function RowsHaving(rows: seq<Tuple>, attrMap: seq<MapEntry>, attrs: seq<Attribute>, k: nat, a: int, b: int, n: nat)
    : (r: seq<Tuple>)
    requires n <= |rows| && k < |attrs| && WfMap(attrMap, attrs) && WfRows(rows, attrs)
  {
    if n == 0 then []
    else
      var row := rows[n - 1];
      assert row in rows;
      var before := RowsHaving(rows, attrMap, attrs, k, a, b, n - 1);
      if row[k] == a || row[k] == b then before + [Project(attrMap, row)] else before
  }

  lemma EitherRange(x: string, a: int, b: int, names: seq<string>, n: nat)
    requires x in names && Distinct(names) && IndexOf(names, x) < n
    ensures
      var w := Either(x, a, b);
      && WfCondition(w) && KnowsCondition(names, w) && Oriented(w) && SidesAgree(w) && Derivable(w, names, n)
      && Ranges(w, names, n)[IndexOf(names, x)] == (if a < b then Range(true, a, b) else Range(true, b, a))
      && forall i :: 0 <= i < n && i != IndexOf(names, x) ==> !Ranges(w, names, n)[i].derived
  {
    hide Holds;
    var w := Either(x, a, b);
    assert w.rest == Single(Comparison(EQ, Var(x), Const(b)));
    RangesMerge(w, names, n);
    RangesMerge(w.rest, names, n);
  }

  lemma EitherHolds(x: string, a: int, b: int, env: Env)
    ensures !ConditionDividesByZero(Either(x, a, b), env)
    ensures Holds(Either(x, a, b), env) <==> env(x) == a || env(x) == b
  {
    assert Either(x, a, b).rest == Single(Comparison(EQ, Var(x), Const(b)));
  }

  lemma EitherStatus(code: seq<Cell>, names: seq<string>, attrs: seq<Attribute>, row: Tuple, k: nat, a: int, b: int)
    requires k < |attrs| == |row| && AttributeIndex(attrs, attrs[k].name) == k
    requires attrs[k].name in names && Compiled(code, names, Either(attrs[k].name, a, b))
    ensures RowStatus(code, names, attrs, row) == TRUE <==> row[k] == a || row[k] == b
  {
    hide Run, Holds, ConditionDividesByZero;
    var x, env := attrs[k].name, RowEnv(attrs, row);
    EitherHolds(x, a, b, env);
    ExecutionMeansCondition(code, Either(x, a, b), names, RowValues(names, attrs, row), env);
  }

  lemma {:induction false} EitherScan(code: seq<Cell>, names: seq<string>, attrs: seq<Attribute>,
                                      attrMap: seq<MapEntry>, rows: seq<Tuple>, k: nat, a: int, b: int, hi: nat)
    requires hi <= |rows| && k < |attrs| && WfMap(attrMap, attrs) && WfRows(rows, attrs)
    requires AttributeIndex(attrs, attrs[k].name) == k
    requires attrs[k].name in names && Compiled(code, names, Either(attrs[k].name, a, b))
    ensures Scan(code, names, attrs, attrMap, rows, TRUE, 0, hi) == RowsHaving(rows, attrMap, attrs, k, a, b, hi)
    decreases hi
  {
    hide RowStatus, Compiled, Project, Scan, WfMap;
    if hi > 0 {
      ScanStep(code, names, attrs, attrMap, rows, TRUE, 0, hi - 1);
      EitherStatus(code, names, attrs, rows[hi - 1], k, a, b);
      EitherScan(code, names, attrs, attrMap, rows, k, a, b, hi - 1);
    } else {
      ScanEmpty(code, names, attrs, attrMap, rows, TRUE, 0);
    }
  }

  /**
   The query x = a OR x = b on an ordered, indexed column that holds a and b, each once, with bounds that fit an int:
   the index is used, and the result is all rows with one of the values.
   */
  method SelectEither(vm: Lvm, attrs: seq<Attribute>, attrMap: seq<MapEntry>, rows: seq<Tuple>, n: nat, intBits: nat,
                      ghost k: nat, ghost a: int, ghost b: int)
    returns (result: DbResult, out: seq<Tuple>)
    requires k < |attrs| && attrs[k].indexed && attrs[k].name in vm.names && IndexOf(vm.names, attrs[k].name) < n
    requires vm.Valid() && Compiled(vm.code[..], vm.names, Either(attrs[k].name, a, b)) && intBits > 0
    requires WfMap(attrMap, attrs) && WfRows(rows, attrs) && |rows| < II.INVALID_TUPLE
    requires forall x :: x in vm.names ==> exists e :: e in attrMap && e.name == x
    requires forall i :: 0 <= i < |attrs| ==> AttributeIndex(attrs, attrs[i].name) == i
    requires forall t :: t in rows ==> Longs(RowEnv(attrs, t), vm.names)
    requires var col := Column(rows, attrs, k);
      a in col && b in col && FitsInt(a, intBits) && FitsInt(b, intBits) && II.Indexable(col, a, b)
    modifies vm`ip, vm`values, vm`spare
    ensures result == DB_FINISHED && out == RowsHaving(rows, attrMap, attrs, k, a, b, |rows|)
  {
    hide Compiled, Derivable, Ranges, LastDerived, Scan, II.RangeOf, II.VisitEnd, WfMap, Distinct, RowStatus, Visited,
      AsInt, FitsInt, Oriented, SidesAgree, Holds, RowsHaving, II.AtMostOnce, AttributeIndex;
    ghost var x, names, code := attrs[k].name, vm.names, vm.code[..];
    ghost var w := Either(x, a, b);
    EitherRange(x, a, b, names, n);
    OnlyCandidate(attrs, names, Ranges(w, names, n), k);
    ghost var chosen;
    result, out, chosen := Select(vm, attrs, attrMap, rows, n, intBits, w);
    EitherScan(code, names, attrs, attrMap, rows, k, a, b, |rows|);
    FirstIsLeast(Column(rows, attrs, k), a, b);
    NarrowedIff(DerivedRange(w, names, n, attrs, k), intBits);
    FoundRange(Column(rows, attrs, k), a, b);
  }

  /** The chosen attribute, when only one attribute has a derived range. */
  lemma OnlyCandidate(attrs: seq<Attribute>, names: seq<string>, ranges: seq<Range>, k: nat)
    requires k < |attrs| && attrs[k].indexed && attrs[k].name in names && IndexOf(names, attrs[k].name) < |ranges|
    requires forall i :: 0 <= i < |attrs| ==> AttributeIndex(attrs, attrs[i].name) == i
    requires ranges[IndexOf(names, attrs[k].name)].derived
    requires forall i :: 0 <= i < |ranges| && i != IndexOf(names, attrs[k].name) ==> !ranges[i].derived
    ensures LastDerived(attrs, names, ranges, |attrs|) == k
  {
    hide LastDerived, AttributeIndex;
    var last := LastDerived(attrs, names, ranges, |attrs|);
    assert HasRange(attrs[k].name, names, ranges);
    assert last >= k;
    assert names[IndexOf(names, attrs[last].name)] == names[IndexOf(names, attrs[k].name)];
  }

  lemma FirstIsLeast(col: seq<int>, a: int, b: int)
    requires II.Nondecreasing(col) && a in col && b in col
    ensures col != [] && col[0] <= a && col[0] <= b
  {
  }

  /** Neither search misses. */
  lemma FoundRange(col: seq<int>, a: int, b: int)
    requires II.Nondecreasing(col) && a in col && b in col
    ensures II.RangeOf(col, a, b).Rows? && II.RangeOf(col, b, a).Rows?
  {
    II.FindRowCorrect(col, a, a == b);
    II.FindRowCorrect(col, b, a == b);
  }

  // ----- Where an int is shorter than a long -----

  /** The ends of the value range do not fit; they are read as -1 and 0. */
  lemma LongEnds(intBits: nat)
    requires 0 < intBits < 32
    ensures AsInt(LONG_MAX, intBits) == -1 && AsInt(LONG_MIN, intBits) == 0
  {
    hide Pow2, AsInt;
    PowersDivide(intBits, 31);
    Pow2At31();
    var q: int := Pow2(31 - intBits);
    LowBits(LONG_MAX, -1, q, intBits);
    LowBits(LONG_MIN, 0, -q, intBits);
  }

  lemma Pow2At31()
    ensures Pow2(31) == 0x8000_0000
  {
    assert Pow2(8) == 256;
    PowersDivide(8, 16);
    PowersDivide(8, 24);
    assert Pow2(7) == 128;
    PowersDivide(7, 31);
  }

  lemma {:induction false} PowersDivide(m: nat, n: nat)
    requires m <= n
    ensures Pow2(n) == Pow2(n - m) * Pow2(m)
  {
    if m > 0 {
      PowersDivide(m - 1, n - 1);
      assert Pow2(n) == 2 * Pow2(n - 1) && Pow2(m) == 2 * Pow2(m - 1);
    }
  }

  /**
   A range without an upper bound leaves the relation, too, when the column starts at 0 or above; and one without
   a lower bound leaves it when the column starts above 0.
   */
  lemma OpenRangeIsLostIff(col: seq<int>, bound: int, intBits: nat)
    requires 0 < intBits < 32 && II.Nondecreasing(col)
    ensures
      var r := Narrowed(Range(true, bound, LONG_MAX), intBits);
      II.RangeOf(col, r.min, r.max).Lost? <==> col == [] || AsInt(bound, intBits) < col[0] || 0 <= col[0]
    ensures
      var r := Narrowed(Range(true, LONG_MIN, bound), intBits);
      II.RangeOf(col, r.min, r.max).Lost? <==> col == [] || AsInt(bound, intBits) < col[0] || 0 < col[0]
  {
    hide AsInt, II.Nondecreasing, II.FindRow;
    LongEnds(intBits);
    var b := AsInt(bound, intBits);
    II.FindRowCorrect(col, b, b == -1);
    II.FindRowCorrect(col, -1, b == -1);
    II.FindRowCorrect(col, b, b == 0);
    II.FindRowCorrect(col, 0, b == 0);
  }

  /** `x > 5` on the values 0, 7: where an int has fewer than 32 bits, the row with 7 is not found. */
  lemma GreaterThanFiveIsLost(intBits: nat)
    requires 3 < intBits < 32
    ensures
      var w, names, col := Single(Comparison(GE, Var("x"), Const(5))), ["x"], [0, 7];
      var r := Range(true, 6, LONG_MAX);
      && Derivable(w, names, 1) && Ranges(w, names, 1) == [r] && r.min <= col[1] <= r.max
      && Narrowed(r, intBits) == Range(true, 6, -1) && !BoundsFit(r, intBits)
      && II.RangeOf(col, 6, -1).Lost? && II.RangeOf(col, r.min, r.max) == II.Rows(1, 1)
  {
    hide AsInt, FitsInt, Pow2, Ranges, Derivable, II.RangeOf;
    FiveIsDerived();
    ZeroSevenSearched();
    LongEnds(intBits);
    NarrowedIff(Range(true, 6, LONG_MAX), intBits);
    SixFits(intBits);
    AsIntIff(6, intBits);
  }

  lemma FiveIsDerived()
    ensures
      var w, names := Single(Comparison(GE, Var("x"), Const(5))), ["x"];
      Derivable(w, names, 1) && Ranges(w, names, 1) == [Range(true, 6, LONG_MAX)]
  {
    assert IndexOf(["x"], "x") == 0;
    assert Blank(1)[0 := Range(true, 6, LONG_MAX)] == [Range(true, 6, LONG_MAX)];
  }

  lemma ZeroSevenSearched()
    ensures II.RangeOf([0, 7], 6, -1).Lost? && II.RangeOf([0, 7], 6, LONG_MAX) == II.Rows(1, 1)
  {
    assert II.Search([0, 7], 6, 0, 1) == II.At(1);
    assert II.Search([0, 7], LONG_MAX, 0, 1) == II.At(1);
    assert II.Search([0, 7], -1, 0, 1) == II.Wrapped;
  }

  lemma SixFits(intBits: nat)
    requires intBits > 3
    ensures FitsInt(6, intBits)
  {
    assert Pow2(3) == 8;
    PowersDivide(3, intBits - 1);
    assert Pow2(intBits - 4) * 8 >= 8;
  }
}
