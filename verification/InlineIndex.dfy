/**
 The inline index of Antelope (apps/antelope/index-inline.c): binary searches over a sorted column,
 with unsigned row numbers, and an iterator over the rows between the two search results.
 */
module InlineIndex {

  /** INVALID_TUPLE is the largest row number; a relation holds fewer rows. */
  const INVALID_TUPLE: nat := 0xffff_ffff

  /**
   Outcome of a search.  `Wrapped` is where `max = center - 1` wraps around below row 0 (or the relation
   is empty) and the search goes on beyond the end of the relation.
   */
  datatype Probe = At(row: nat) | Missing | Wrapped

  /** The do-while loop of binary_search on the rows min..max. */
  function Search(col: seq<int>, target: int, min: nat, max: nat): (r: Probe)
    requires min <= max < |col|
    ensures r.At? ==> r.row < |col|
    ensures !r.Missing?
    decreases max - min
  {
    var center := min + (max - min) / 2;
    if target > col[center] then
      if center + 1 <= max then Search(col, target, center + 1, max) else At(center)
    else if target == col[center] then At(center)
    else if center == 0 then Wrapped
    else if min <= center - 1 then Search(col, target, min, center - 1)
    else At(center)
  }

  function FindRow(col: seq<int>, target: int, exact: bool): (r: Probe)
    ensures r.At? ==> r.row < |col|
  {
    if col == [] then Wrapped
    else
      var r := Search(col, target, 0, |col| - 1);
      if r.At? && exact && col[r.row] != target then Missing else r
  }

  method BinarySearch(col: seq<int>, target: int, exact: bool) returns (r: Probe)
    requires |col| < INVALID_TUPLE
    ensures r == FindRow(col, target, exact)
  {
    hide Search;
    if |col| == 0 {
      return Wrapped;
    }
    var min, max := 0, |col| - 1;
    var center := 0;
    var again := true;
    while again
      invariant again ==> min <= max < |col|
      invariant again ==> Search(col, target, 0, |col| - 1) == Search(col, target, min, max)
      invariant !again ==> center < |col| && Search(col, target, 0, |col| - 1) == At(center)
      decreases again, max - min
    {
      SearchStep(col, target, min, max);
      center := min + (max - min) / 2;
      if target > col[center] {
        min := center + 1;
      } else if center == 0 && target != col[center] {
        return Wrapped;
      } else {
        max := center - 1;
      }
      again := min <= max && target != col[center];
    }
    if exact && target != col[center] {
      return Missing;
    }
    return At(center);
  }

  // ----- Where the search lands -----

  ghost predicate Nondecreasing(col: seq<int>) {
    forall i, j :: 0 <= i < j < |col| ==> col[i] <= col[j]
  }

  ghost predicate AtMostOnce(col: seq<int>, v: int) {
    forall i, j :: 0 <= i < j < |col| && col[i] == v ==> col[j] != v
  }

  /** All rows before `row` are below the target and all rows behind it are above. */
  ghost predicate Brackets(col: seq<int>, target: int, row: nat) {
    && row < |col|
    && (forall i :: 0 <= i < row ==> col[i] < target)
    && (forall i :: row < i < |col| ==> target < col[i])
  }

  /** On a row of the target, or, when no row has it, on one that the target belongs next to. */
  ghost predicate Lands(col: seq<int>, target: int, row: nat) {
    row < |col| && (if target in col then col[row] == target else Brackets(col, target, row))
  }

  lemma {:induction false} SearchLands(col: seq<int>, target: int, min: nat, max: nat)
    requires min <= max < |col| && Nondecreasing(col)
    requires forall i :: 0 <= i < min ==> col[i] < target
    requires forall i :: max < i < |col| ==> target < col[i]
    ensures Search(col, target, min, max).Wrapped? <==> target < col[0]
    ensures target >= col[0] ==> Lands(col, target, Search(col, target, min, max).row)
    decreases max - min
  {
    hide Lands, Nondecreasing, Search;
    SearchStep(col, target, min, max);
    var center := min + (max - min) / 2;
    if target > col[center] {
      LeftOf(col, target, center);
      if center + 1 <= max {
        SearchLands(col, target, center + 1, max);
      } else {
        LandsBetween(col, target, center);
      }
    } else if target < col[center] {
      RightOf(col, target, center);
      if center > 0 && min <= center - 1 {
        SearchLands(col, target, min, center - 1);
      } else if center > 0 {
        LandsBetween(col, target, center);
      }
    } else {
      LandsOn(col, target, center);
    }
  }

  /** One round of the loop. */
  lemma SearchStep(col: seq<int>, target: int, min: nat, max: nat)
    requires min <= max < |col|
    ensures
      var center := min + (max - min) / 2;
      Search(col, target, min, max) ==
        if target > col[center] then if center + 1 <= max then Search(col, target, center + 1, max) else At(center)
        else if target == col[center] then At(center)
        else if center == 0 then Wrapped
        else if min <= center - 1 then Search(col, target, min, center - 1) else At(center)
  {
  }

  lemma LandsBetween(col: seq<int>, target: int, row: nat)
    requires row < |col| && col[row] != target
    requires (forall i :: 0 <= i < row ==> col[i] < target) && forall i :: row < i < |col| ==> target < col[i]
    ensures Lands(col, target, row)
  {
  }

  lemma LandsOn(col: seq<int>, target: int, row: nat)
    requires Nondecreasing(col) && row < |col| && col[row] == target
    ensures Lands(col, target, row) && col[0] <= target
  {
  }

  lemma LeftOf(col: seq<int>, target: int, center: nat)
    requires Nondecreasing(col) && center < |col| && target > col[center]
    ensures forall i :: 0 <= i <= center ==> col[i] < target
  {
  }

  lemma RightOf(col: seq<int>, target: int, center: nat)
    requires Nondecreasing(col) && center < |col| && target < col[center]
    ensures forall i :: center <= i < |col| ==> target < col[i]
  {
  }

  /**
   The search works exactly when the column is not empty and does not start above the target; then it
   lands on a row of the target or, when there is none, on a row that the target belongs next to.
   */
  lemma FindRowCorrect(col: seq<int>, target: int, exact: bool)
    requires Nondecreasing(col)
    ensures FindRow(col, target, exact).Wrapped? <==> col == [] || target < col[0]
    ensures FindRow(col, target, exact).At? ==> Lands(col, target, FindRow(col, target, exact).row)
    ensures FindRow(col, target, exact).Missing? <==> col != [] && col[0] <= target && exact && target !in col
    ensures AtMostOnce(col, target) && FindRow(col, target, exact).At? ==>
              Brackets(col, target, FindRow(col, target, exact).row)
  {
    if col != [] {
      SearchLands(col, target, 0, |col| - 1);
    }
  }

  // ----- Ranges of rows -----

  datatype RowRange = Rows(start: nat, end: nat) | NoRows | Lost

  /** range_search */
  function RangeOf(col: seq<int>, low: int, high: int): RowRange {
    var start := FindRow(col, low, low == high);
    if start.Wrapped? then Lost
    else if start.Missing? then NoRows
    else
      var end := FindRow(col, high, low == high);
      if end.Wrapped? then Lost else if end.Missing? then NoRows else Rows(start.row, end.row)
  }

  ghost predicate Indexable(col: seq<int>, low: int, high: int) {
    Nondecreasing(col) && AtMostOnce(col, low) && AtMostOnce(col, high)
  }

  /** Every row with a value between the bounds is in the range found; an empty answer means no such row. */
  lemma RangeCovers(col: seq<int>, low: int, high: int)
    requires Indexable(col, low, high)
    ensures var r := RangeOf(col, low, high);
      && (r.Lost? <==> col == [] || low < col[0] || high < col[0])
      && (r.Rows? ==> r.start < |col| && r.end < |col|)
      && (r.Rows? ==> forall i :: 0 <= i < |col| && low <= col[i] <= high ==> r.start <= i <= r.end)
      && (r.NoRows? ==> low == high && low !in col)
      && (col != [] && col[0] <= low == high && low !in col ==> r.NoRows?)
  {
    FindRowCorrect(col, low, low == high);
    FindRowCorrect(col, high, low == high);
  }

  ghost predicate Covers(range: RowRange, col: seq<int>, low: int, high: int) {
    forall i :: 0 <= i < |col| && low <= col[i] <= high ==> range.Rows? && range.start <= i <= range.end
  }

  /** The rows of a value stand next to each other; these are the first and the last of them. */
  predicate FirstOfRun(col: seq<int>, row: nat) {
    row < |col| && (row == 0 || col[row - 1] != col[row])
  }

  predicate LastOfRun(col: seq<int>, row: nat) {
    row < |col| && (row + 1 == |col| || col[row + 1] != col[row])
  }

  /**
   With repeated values, a range is complete iff the row found for its lower bound is the first with that value, and
   the row found for its upper bound is the last one; a bound that no row has does no harm.
   */
  lemma RangeCoversIff(col: seq<int>, low: int, high: int)
    requires Nondecreasing(col) && low <= high
    ensures var r := RangeOf(col, low, high);
      && (r.Lost? <==> col == [] || low < col[0])
      && (r.NoRows? <==> col != [] && col[0] <= low == high && low !in col)
      && (r.Rows? ==>
           (Covers(r, col, low, high)
            <==> (low in col ==> FirstOfRun(col, r.start)) && (high in col ==> LastOfRun(col, r.end))))
  {
    FindRowCorrect(col, low, low == high);
    FindRowCorrect(col, high, low == high);
    var r := RangeOf(col, low, high);
    if r.Rows? {
      if low in col && r.start > 0 {
        assert col[r.start - 1] == low ==> low <= col[r.start - 1] <= high;
      }
      if high in col && r.end + 1 < |col| {
        assert col[r.end + 1] == high ==> low <= col[r.end + 1] <= high;
      }
    }
  }

  /** The first row among first..last that the halving of min..max comes to; no values are looked at. */
  function Midpoint(min: nat, max: nat, first: nat, last: nat): (r: nat)
    requires min <= first <= last <= max
    ensures first <= r <= last
    decreases max - min
  {
    var center := min + (max - min) / 2;
    if center < first then Midpoint(center + 1, max, first, last)
    else if last < center then Midpoint(min, center - 1, first, last)
    else center
  }

  /** Exactly the rows first..last have the value v. */
  ghost predicate Run(col: seq<int>, v: int, first: nat, last: nat) {
    first <= last < |col| && forall i :: 0 <= i < |col| ==> (col[i] == v <==> first <= i <= last)
  }

  lemma {:induction false} SearchEndsAt(col: seq<int>, v: int, min: nat, max: nat, first: nat, last: nat)
    requires Nondecreasing(col) && Run(col, v, first, last) && min <= first && last <= max < |col|
    ensures Search(col, v, min, max) == At(Midpoint(min, max, first, last))
    decreases max - min
  {
    hide Search;
    SearchStep(col, v, min, max);
    var center := min + (max - min) / 2;
    assert center < first ==> col[center] < v by {
      assert col[first] == v;
    }
    assert last < center ==> v < col[center] by {
      assert col[last] == v;
    }
    if center < first {
      SearchEndsAt(col, v, center + 1, max, first, last);
    } else if last < center {
      SearchEndsAt(col, v, min, center - 1, first, last);
    }
  }

  /**
   The same by position alone: what counts is where the halving of all rows first enters the run of a bound.  For the
   lower bound it has to be the first row of its run, for the upper bound the last one.
   */
  lemma RangeCoversByPosition(col: seq<int>, low: int, high: int, a: nat, b: nat, c: nat, d: nat)
    requires Nondecreasing(col) && low <= high && RangeOf(col, low, high).Rows?
    requires (low in col ==> Run(col, low, a, b)) && (high in col ==> Run(col, high, c, d))
    ensures
      var r := RangeOf(col, low, high);
      && (low in col ==> r.start == Midpoint(0, |col| - 1, a, b))
      && (high in col ==> r.end == Midpoint(0, |col| - 1, c, d))
      && (Covers(r, col, low, high)
          <==> (low in col ==> Midpoint(0, |col| - 1, a, b) == a)
               && (high in col ==> Midpoint(0, |col| - 1, c, d) == d))
  {
    hide Search, Nondecreasing, Covers;
    RangeCoversIff(col, low, high);
    if low in col {
      SearchEndsAt(col, low, 0, |col| - 1, a, b);
    }
    if high in col {
      SearchEndsAt(col, high, 0, |col| - 1, c, d);
    }
  }

  /** The rows of one value are all found iff there is only one of them. */
  lemma EqualRangeCoversIff(col: seq<int>, v: int)
    requires Nondecreasing(col) && v in col
    ensures RangeOf(col, v, v).Rows? && (Covers(RangeOf(col, v, v), col, v, v) <==> AtMostOnce(col, v))
  {
    RangeCoversIff(col, v, v);
    FindRowCorrect(col, v, true);
    var row := RangeOf(col, v, v).start;
    if Covers(RangeOf(col, v, v), col, v, v) {
      forall i, j | 0 <= i < j < |col| && col[i] == v
        ensures col[j] != v
      {
        assert col[j] == v ==> i == row == j;
      }
    } else {
      var i :| 0 <= i < |col| && col[i] == v && i != row;
      assert col[row] == v;
    }
  }

  /** Three rows with the value 7, of which only the middle one is found. */
  lemma RepeatedValuesAreMissed()
    ensures
      var col := [7, 7, 7];
      && Nondecreasing(col) && RangeOf(col, 7, 7) == Rows(1, 1)
      && col[0] == col[2] == 7 && !Covers(RangeOf(col, 7, 7), col, 7, 7)
  {
    var col := [7, 7, 7];
    assert RangeOf(col, 7, 7) == Rows(1, 1);
    EqualRangeCoversIff(col, 7);
    assert 0 < 2 < |col| && col[0] == col[2] == 7;
  }

  // ----- The iterator -----

  datatype NextRow = Row(id: nat) | INVALID | LOST

  /** The answer to request number n, and the number of rows returned afterwards. */
  function NextOf(col: seq<int>, low: int, high: int, unique: bool, n: nat): (NextRow, nat) {
    var range := RangeOf(col, low, high);
    if n == 0 then
      match range
      case Lost => (LOST, 0)
      case NoRows => (INVALID, 0)
      case Rows(start, _) => (Row(start), 1)
    else if range.Rows? && !(unique && n == 1 && low == high) && range.start + n <= range.end
    then (Row(range.start + n), n + 1)
    else (INVALID, n)
  }

  /** The rows an iteration visits are consecutive: from the start of the range up to here. */
  function VisitEnd(range: RowRange, one: bool): nat
    requires range.Rows?
  {
    if one || range.end < range.start then range.start + 1 else range.end + 1
  }

  /** Whether an iteration comes to a row. */
  predicate Visits(range: RowRange, one: bool, i: nat) {
    range.Rows? && range.start <= i < VisitEnd(range, one)
  }

  /** On any column, iterating visits the rows from the start of the range up to VisitEnd, each once and in order. */
  lemma IterationVisits(col: seq<int>, low: int, high: int, unique: bool, n: nat)
    requires RangeOf(col, low, high).Rows?
    ensures var range := RangeOf(col, low, high); var end := VisitEnd(range, unique && low == high);
      && range.start < end <= |col|
      && NextOf(col, low, high, unique, 0) == (Row(range.start), 1)
      && (n > 0 && range.start + n <= end ==>
           NextOf(col, low, high, unique, n)
           == if range.start + n < end then (Row(range.start + n), n + 1) else (INVALID, n))
  {
    if low == high {
      assert RangeOf(col, low, high).start == RangeOf(col, low, high).end;
    }
  }

  /** When the bounds are not repeated, these rows include every row with a value between the bounds. */
  lemma IterationCovers(col: seq<int>, low: int, high: int, unique: bool, n: nat)
    requires Indexable(col, low, high) && RangeOf(col, low, high).Rows?
    ensures var range := RangeOf(col, low, high); var end := VisitEnd(range, unique && low == high);
      && range.start < end <= |col|
      && NextOf(col, low, high, unique, 0) == (Row(range.start), 1)
      && (n > 0 && range.start + n <= end ==>
           NextOf(col, low, high, unique, n)
           == if range.start + n < end then (Row(range.start + n), n + 1) else (INVALID, n))
      && forall i :: 0 <= i < |col| && low <= col[i] <= high ==> range.start <= i < end
  {
    IterationVisits(col, low, high, unique, n);
    RangeCovers(col, low, high);
  }

  class Iterator {
    const col: seq<int>
    const low: int
    const high: int
    const unique: bool
    var nextItemNo: nat
    var cachedStart: nat
    var cachedEnd: nat

    /** Either nothing has been returned yet, or the cached range is the one of the bounds. */
    ghost predicate Valid()
      reads this
    {
      && |col| < INVALID_TUPLE
      && (nextItemNo > 0 ==> RangeOf(col, low, high) == Rows(cachedStart, cachedEnd))
    }

    /** index_get_iterator */
    constructor (col: seq<int>, low: int, high: int, unique: bool)
      requires |col| < INVALID_TUPLE
      ensures Valid() && nextItemNo == 0
      ensures this.col == col && this.low == low && this.high == high && this.unique == unique
    {
      this.col, this.low, this.high, this.unique := col, low, high, unique;
      nextItemNo, cachedStart, cachedEnd := 0, 0, 0;
    }

    /** index_get_next */
    method GetNext() returns (r: NextRow)
      requires Valid()
      modifies `nextItemNo, `cachedStart, `cachedEnd
      ensures Valid()
      ensures (r, nextItemNo) == NextOf(col, low, high, unique, old(nextItemNo))
    {
      if unique && nextItemNo == 1 && low == high {
        return INVALID;
      }
      if nextItemNo == 0 {
        var start := BinarySearch(col, low, low == high);
        if start.Wrapped? {
          return LOST;
        }
        if start.Missing? {
          return INVALID;
        }
        var end := BinarySearch(col, high, low == high);
        if end.Wrapped? {
          return LOST;
        }
        if end.Missing? {
          return INVALID;
        }
        cachedStart, cachedEnd := start.row, end.row;
        nextItemNo := 1;
        return Row(cachedStart);
      } else if cachedStart + nextItemNo <= cachedEnd {
        r := Row(cachedStart + nextItemNo);
        nextItemNo := nextItemNo + 1;
        return;
      }
      return INVALID;
    }
  }
}
