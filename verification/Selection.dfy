/**
 Selection from a relation (apps/antelope/relation.c): choosing an index from the derived ranges, and
 the step function that filters one row per call, over all rows or over the rows of the index.
 */
module Selection {
  import opened LogicVm
  import opened Conditions
  import opened RangeDerivation
  import opened Relation
  import opened Common
  import II = InlineIndex

  /** An entry of the attribute map: column, attribute name, and whether it serves the condition only. */
  datatype MapEntry = MapEntry(from: nat, name: string, noStore: bool)

  datatype Attribute = Attribute(name: string, indexed: bool, unique: bool)

  // ----- What a selection should produce -----

  /** The row, cut down to the stored attributes. */
  function Project(attrMap: seq<MapEntry>, row: Tuple): Tuple
    requires forall e :: e in attrMap ==> e.from < |row|
  {
    if attrMap == [] then []
    else
      var e := attrMap[|attrMap| - 1];
      var rest := Project(attrMap[..|attrMap| - 1], row);
      if e.noStore then rest else rest + [row[e.from]]
  }

  lemma ProjectStep(attrMap: seq<MapEntry>, i: nat, row: Tuple)
    requires i < |attrMap| && forall e :: e in attrMap ==> e.from < |row|
    ensures Project(attrMap[..i + 1], row)
         == Project(attrMap[..i], row) + if attrMap[i].noStore then [] else [row[attrMap[i].from]]
  {
    assert attrMap[..i + 1][..i] == attrMap[..i];
  }

  lemma ProjectNothing(row: Tuple)
    ensures Project([], row) == []
  {
  }

  /** The stored entries among the first i. */
  function StoredBefore(attrMap: seq<MapEntry>, i: nat): set<nat>
    requires i <= |attrMap|
  {
    set j: nat | j < i && !attrMap[j].noStore
  }

  /** A result row has one cell for each stored entry, in the order of the entries, and no other cells. */
  lemma ProjectCells(attrMap: seq<MapEntry>, row: Tuple)
    requires forall e :: e in attrMap ==> e.from < |row|
    ensures |Project(attrMap, row)| == |StoredBefore(attrMap, |attrMap|)|
    ensures forall i :: 0 <= i < |attrMap| && !attrMap[i].noStore ==>
      && |StoredBefore(attrMap, i)| < |Project(attrMap, row)|
      && Project(attrMap, row)[|StoredBefore(attrMap, i)|] == row[attrMap[i].from]
  {
    hide Project, StoredBefore;
    CellsSoFar(attrMap, |attrMap|, row);
    assert attrMap[..|attrMap|] == attrMap;
  }

  lemma {:induction false} CellsSoFar(attrMap: seq<MapEntry>, n: nat, row: Tuple)
    requires n <= |attrMap| && forall e :: e in attrMap ==> e.from < |row|
    ensures |Project(attrMap[..n], row)| == |StoredBefore(attrMap, n)|
    ensures forall i :: 0 <= i < n && !attrMap[i].noStore ==>
      && |StoredBefore(attrMap, i)| < |Project(attrMap[..n], row)|
      && Project(attrMap[..n], row)[|StoredBefore(attrMap, i)|] == row[attrMap[i].from]
    decreases n
  {
    hide Project, StoredBefore;
    if n == 0 {
      ProjectNothing(row);
      assert attrMap[..0] == [];
      NothingStored(attrMap);
    } else {
      CellsSoFar(attrMap, n - 1, row);
      ProjectStep(attrMap, n - 1, row);
      StoredStep(attrMap, n - 1);
    }
  }

  lemma NothingStored(attrMap: seq<MapEntry>)
    ensures StoredBefore(attrMap, 0) == {}
  {
  }

  lemma StoredStep(attrMap: seq<MapEntry>, i: nat)
    requires i < |attrMap|
    ensures |StoredBefore(attrMap, i + 1)| == |StoredBefore(attrMap, i)| + if attrMap[i].noStore then 0 else 1
  {
    var before := StoredBefore(attrMap, i);
    assert StoredBefore(attrMap, i + 1) == if attrMap[i].noStore then before else before + {i};
  }

  /** The environment of a row: attributes are looked up by name. */
  function RowEnv(attrs: seq<Attribute>, row: Tuple): Env {
    x => var i := AttributeIndex(attrs, x); if i < |row| then row[i] else 0
  }

  function AttributeIndex(attrs: seq<Attribute>, x: string): (i: nat)
    ensures i <= |attrs| && (i < |attrs| ==> attrs[i].name == x)
    ensures forall j :: 0 <= j < i ==> attrs[j].name != x
  {
    if attrs == [] || attrs[0].name == x then 0 else AttributeIndex(attrs[1..], x) + 1
  }

  ghost predicate WfMap(attrMap: seq<MapEntry>, attrs: seq<Attribute>) {
    forall e :: e in attrMap ==> e.from == AttributeIndex(attrs, e.name) < |attrs|
  }

  ghost predicate WfRows(rows: seq<Tuple>, attrs: seq<Attribute>) {
    forall r :: r in rows ==> |r| == |attrs|
  }

  /** The values of the condition's variables on a row. */
  function RowValues(names: seq<string>, attrs: seq<Attribute>, row: Tuple): (v: seq<int>)
    ensures |v| == |names| && forall i :: 0 <= i < |names| ==> v[i] == RowEnv(attrs, row)(names[i])
  {
    seq(|names|, i requires 0 <= i < |names| => RowEnv(attrs, row)(names[i]))
  }

  /** The status of the compiled condition on a row. */
  function RowStatus(code: seq<Cell>, names: seq<string>, attrs: seq<Attribute>, row: Tuple): Status {
    Run(code, RowValues(names, attrs, row)).status
  }

  /** Full scan: the projections of the rows lo..hi on which the condition has the wanted status. */
  function Scan(code: seq<Cell>, names: seq<string>, attrs: seq<Attribute>, attrMap: seq<MapEntry>,
                rows: seq<Tuple>, wanted: Status, lo: nat, hi: nat): seq<Tuple>
    requires lo <= hi <= |rows| && WfMap(attrMap, attrs) && WfRows(rows, attrs)
    decreases hi - lo
  {
    if lo == hi then []
    else
      assert rows[hi - 1] in rows;
      Scan(code, names, attrs, attrMap, rows, wanted, lo, hi - 1)
      + if RowStatus(code, names, attrs, rows[hi - 1]) == wanted then [Project(attrMap, rows[hi - 1])] else []
  }

  lemma ScanEmpty(code: seq<Cell>, names: seq<string>, attrs: seq<Attribute>, attrMap: seq<MapEntry>,
                  rows: seq<Tuple>, wanted: Status, lo: nat)
    requires lo <= |rows| && WfMap(attrMap, attrs) && WfRows(rows, attrs)
    ensures Scan(code, names, attrs, attrMap, rows, wanted, lo, lo) == []
  {
  }

  lemma ScanStep(code: seq<Cell>, names: seq<string>, attrs: seq<Attribute>, attrMap: seq<MapEntry>,
                 rows: seq<Tuple>, wanted: Status, lo: nat, hi: nat)
    requires lo <= hi < |rows| && WfMap(attrMap, attrs) && WfRows(rows, attrs)
    ensures rows[hi] in rows
    ensures Scan(code, names, attrs, attrMap, rows, wanted, lo, hi + 1)
         == Scan(code, names, attrs, attrMap, rows, wanted, lo, hi)
            + if RowStatus(code, names, attrs, rows[hi]) == wanted then [Project(attrMap, rows[hi])] else []
  {
  }

  // ----- Choosing an index -----

  const ULONG_MAX: nat := 0xffff_ffff

  /** Position of the last indexed attribute with a derived range. */
  function LastDerived(attrs: seq<Attribute>, names: seq<string>, ranges: seq<Range>, n: nat): (k: int)
    requires n <= |attrs|
    ensures -1 <= k < n
    ensures k >= 0 ==> attrs[k].indexed && HasRange(attrs[k].name, names, ranges)
    ensures forall i :: k < i < n ==> !(attrs[i].indexed && HasRange(attrs[i].name, names, ranges))
  {
    if n == 0 then -1
    else if attrs[n - 1].indexed && HasRange(attrs[n - 1].name, names, ranges) then n - 1
    else LastDerived(attrs, names, ranges, n - 1)
  }

  predicate HasRange(x: string, names: seq<string>, ranges: seq<Range>) {
    var i := IndexOf(names, x);
    i < |names| && i < |ranges| && ranges[i].derived
  }

  /** The low bits of a long, read as an int of that many bits. */
  function AsInt(x: int, bits: nat): (y: int)
    requires bits > 0
  {
    var half := Pow2(bits - 1);
    (x + half) % (2 * half) - half
  }

  predicate FitsInt(x: int, bits: nat)
    requires bits > 0
  {
    var half: int := Pow2(bits - 1);
    -half <= x < half
  }

  /** An int has the same low bits, and the same value iff it can hold that value. */
  lemma AsIntIff(x: int, bits: nat)
    requires bits > 0
    ensures FitsInt(AsInt(x, bits), bits) && (AsInt(x, bits) - x) % Pow2(bits) == 0
    ensures AsInt(x, bits) == x <==> FitsInt(x, bits)
  {
    hide Pow2;
    var half := Pow2(bits - 1);
    Twice(bits);
    Quotient(x + half, 2 * half);
  }

  lemma Twice(bits: nat)
    requires bits > 0
    ensures Pow2(bits) == 2 * Pow2(bits - 1)
  {
  }

  lemma Quotient(z: int, n: nat)
    requires n > 0
    ensures (z % n - z) % n == 0 && (0 <= z < n ==> z % n == z)
  {
    var d, m := z / n, z % n - z;
    assert m == -d * n;
    OnlyZero(-d - m / n, n);
  }

  lemma OnlyZero(d: int, n: int)
    requires -n < d * n < n
    ensures d == 0
  {
  }

  lemma RemainderIs(z: int, q: int, n: nat, r: int)
    requires 0 <= r < n && z == q * n + r
    ensures z % n == r
  {
    var p := z / n;
    assert (p - q) * n == r - z % n;
    OnlyZero(p - q, n);
  }

  /** The int with the same low bits. */
  lemma LowBits(x: int, y: int, q: int, bits: nat)
    requires bits > 0 && FitsInt(y, bits) && x == q * Pow2(bits) + y
    ensures AsInt(x, bits) == y
  {
    hide Pow2;
    var half := Pow2(bits - 1);
    Twice(bits);
    assert x + half == q * (2 * half) + (y + half);
    RemainderIs(x + half, q, 2 * half, y + half);
  }

  /** The bounds of a range as the search reads them: they are stored as longs, and marked as ints. */
  function Narrowed(r: Range, intBits: nat): Range
    requires intBits > 0
  {
    Range(r.derived, AsInt(r.min, intBits), AsInt(r.max, intBits))
  }

  predicate BoundsFit(r: Range, intBits: nat)
    requires intBits > 0
  {
    FitsInt(r.min, intBits) && FitsInt(r.max, intBits)
  }

  /** The range that is searched is the derived one iff both of its bounds fit an int. */
  lemma NarrowedIff(r: Range, intBits: nat)
    requires intBits > 0
    ensures Narrowed(r, intBits) == r <==> BoundsFit(r, intBits)
  {
    AsIntIff(r.min, intBits);
    AsIntIff(r.max, intBits);
  }

  /**
   select_index: the loop keeps the smallest range so far in mind but never lowers the bound, so it
   ends up with the last candidate rather than with the narrowest.
   */
  method SelectIndex(attrs: seq<Attribute>, names: seq<string>, ranges: array<Range>, intBits: nat)
    returns (found: bool, k: nat, min: int, max: int)
    requires intBits > 0
    ensures found <==> LastDerived(attrs, names, ranges[..], |attrs|) >= 0
    ensures found ==> k == LastDerived(attrs, names, ranges[..], |attrs|)
    ensures found ==>
      var r := Narrowed(ranges[IndexOf(names, attrs[k].name)], intBits); min == r.min && max == r.max
  {
    hide AsInt, IndexOf;
    found, k, min, max := false, 0, 0, 0;
    var minRange := ULONG_MAX;
    for i := 0 to |attrs|
      invariant found <==> LastDerived(attrs, names, ranges[..], i) >= 0
      invariant found ==> k == LastDerived(attrs, names, ranges[..], i)
      invariant found ==>
        var r := Narrowed(ranges[IndexOf(names, attrs[k].name)], intBits); min == r.min && max == r.max
    {
      var id := IndexOf(names, attrs[i].name);
      if attrs[i].indexed && id < |names| && id < ranges.Length && ranges[id].derived {
        var range := (ranges[id].max - ranges[id].min) % (ULONG_MAX + 1);
        if range <= minRange {
          found, k, min, max := true, i, AsInt(ranges[id].min, intBits), AsInt(ranges[id].max, intBits);
        }
      }
    }
  }

  predicate Candidate(attrs: seq<Attribute>, names: seq<string>, ranges: seq<Range>, i: nat) {
    i < |attrs| && attrs[i].indexed && HasRange(attrs[i].name, names, ranges)
  }

  /** The number of values in a candidate's range, less one, in unsigned arithmetic. */
  function Width(attrs: seq<Attribute>, names: seq<string>, ranges: seq<Range>, i: nat): nat {
    if Candidate(attrs, names, ranges, i) then
      var r := ranges[IndexOf(names, attrs[i].name)];
      (r.max - r.min) % (ULONG_MAX + 1)
    else 0
  }

  /** What the comment of select_index asks for: the candidate with the smallest range, the last one of these. */
  function Narrowest(attrs: seq<Attribute>, names: seq<string>, ranges: seq<Range>, n: nat): (k: int)
    requires n <= |attrs|
    ensures -1 <= k < n && (k >= 0 ==> Candidate(attrs, names, ranges, k))
  {
    if n == 0 then -1
    else
      var k := Narrowest(attrs, names, ranges, n - 1);
      if Candidate(attrs, names, ranges, n - 1)
         && (k < 0 || Width(attrs, names, ranges, n - 1) <= Width(attrs, names, ranges, k))
      then n - 1 else k
  }

  lemma {:induction false} NarrowestIsNarrowest(attrs: seq<Attribute>, names: seq<string>, ranges: seq<Range>, n: nat)
    requires n <= |attrs|
    ensures
      var k := Narrowest(attrs, names, ranges, n);
      forall i :: 0 <= i < n && Candidate(attrs, names, ranges, i) ==>
        && k >= 0 && Width(attrs, names, ranges, k) <= Width(attrs, names, ranges, i)
        && (i > k ==> Width(attrs, names, ranges, k) < Width(attrs, names, ranges, i))
  {
    hide Candidate, Width;
    if n > 0 {
      NarrowestIsNarrowest(attrs, names, ranges, n - 1);
    }
  }

  /** The chosen candidate is the narrowest one iff no candidate before it has a smaller range. */
  lemma NarrowestIffLast(attrs: seq<Attribute>, names: seq<string>, ranges: seq<Range>)
    ensures
      var last := LastDerived(attrs, names, ranges, |attrs|);
      && (last < 0 <==> Narrowest(attrs, names, ranges, |attrs|) < 0)
      && (last >= 0 ==>
           && Candidate(attrs, names, ranges, last)
           && (last == Narrowest(attrs, names, ranges, |attrs|)
               <==> forall i :: 0 <= i < last && Candidate(attrs, names, ranges, i) ==>
                      Width(attrs, names, ranges, last) <= Width(attrs, names, ranges, i)))
  {
    hide Width, Narrowest, LastDerived;
    var last, k := LastDerived(attrs, names, ranges, |attrs|), Narrowest(attrs, names, ranges, |attrs|);
    assert forall i :: last < i < |attrs| ==> !Candidate(attrs, names, ranges, i);
    assert last >= 0 ==> Candidate(attrs, names, ranges, last);
    NarrowestIsNarrowest(attrs, names, ranges, |attrs|);
  }

  /** Two candidates, of which the later and wider one is chosen. */
  lemma NotTheNarrowest()
    ensures
      var attrs := [Attribute("a", true, false), Attribute("b", true, false)];
      var names, ranges := ["a", "b"], [Range(true, 5, 5), Range(true, 0, 1000)];
      LastDerived(attrs, names, ranges, 2) == 1 && Narrowest(attrs, names, ranges, 2) == 0
  {
    var attrs := [Attribute("a", true, false), Attribute("b", true, false)];
    var names, ranges := ["a", "b"], [Range(true, 5, 5), Range(true, 0, 1000)];
    assert IndexOf(names, "b") == 1 && IndexOf(names, "a") == 0;
    assert Narrowest(attrs, names, ranges, 1) == 0;
  }

  // ----- Processing one row per call -----

  /** The variables that the first n attributes of the map name have the values of the row. */
  ghost predicate Bound(attrMap: seq<MapEntry>, n: nat, names: seq<string>, now: seq<int>, values: seq<int>) {
    && n <= |attrMap| && |now| == |values| == |names|
    && forall j, k :: 0 <= j < n && 0 <= k < |names| && attrMap[j].name == names[k] ==> now[k] == values[k]
  }

  lemma NothingBound(attrMap: seq<MapEntry>, names: seq<string>, now: seq<int>, values: seq<int>)
    requires |now| == |values| == |names|
    ensures Bound(attrMap, 0, names, now, values)
  {
  }

  lemma BoundStep(attrMap: seq<MapEntry>, n: nat, names: seq<string>, now: seq<int>, values: seq<int>, value: int)
    requires Bound(attrMap, n, names, now, values) && n < |attrMap| && Distinct(names)
    requires var i := IndexOf(names, attrMap[n].name); i < |names| ==> values[i] == value
    ensures var i := IndexOf(names, attrMap[n].name);
      Bound(attrMap, n + 1, names, if i < |names| then now[i := value] else now, values)
  {
    hide IndexOf;
    if attrMap[n].name in names {
      var i := IndexOf(names, attrMap[n].name);
      assert forall k :: 0 <= k < |names| && names[k] == attrMap[n].name ==> k == i;
    }
  }

  lemma AllBound(attrMap: seq<MapEntry>, names: seq<string>, now: seq<int>, values: seq<int>)
    requires Bound(attrMap, |attrMap|, names, now, values)
    requires forall x :: x in names ==> exists e :: e in attrMap && e.name == x
    ensures now == values
  {
    forall k | 0 <= k < |names|
      ensures now[k] == values[k]
    {
      assert names[k] in names;
      var e :| e in attrMap && e.name == names[k];
    }
  }

  class Handle {
    const vm: Lvm
    const attrs: seq<Attribute>
    const attrMap: seq<MapEntry>
    const rows: seq<Tuple>
    const inverse: bool
    const searchIndex: bool
    const iterator_: II.Iterator
    var tupleId: nat
    var currentRow: nat
    var resultRow: Tuple

    /** Every variable of the condition is among the mapped attributes. */
    ghost predicate Valid()
      reads this, vm, iterator_
    {
      && vm.Valid() && iterator_.Valid()
      && WfMap(attrMap, attrs) && WfRows(rows, attrs) && |rows| < II.INVALID_TUPLE
      && (forall x :: x in vm.names ==> exists e :: e in attrMap && e.name == x)
      && (searchIndex ==> |iterator_.col| == |rows|)
    }

    /** The inverse selection keeps the rows for which the condition is false. */
    function Wanted(): (status: Status)
      ensures (status == FALSE <==> inverse) && (status == TRUE <==> !inverse)
    {
      if inverse then FALSE else TRUE
    }

    constructor (vm: Lvm, attrs: seq<Attribute>, attrMap: seq<MapEntry>, rows: seq<Tuple>, inverse: bool,
                 searchIndex: bool, iter: II.Iterator)
      requires vm.Valid() && iter.Valid() && WfMap(attrMap, attrs) && WfRows(rows, attrs)
      requires |rows| < II.INVALID_TUPLE && (searchIndex ==> |iter.col| == |rows|)
      requires forall x :: x in vm.names ==> exists e :: e in attrMap && e.name == x
      ensures Valid() && tupleId == 0
      ensures this.vm == vm && this.attrs == attrs && this.attrMap == attrMap && this.rows == rows
      ensures this.inverse == inverse && this.searchIndex == searchIndex && iterator_ == iter
    {
      this.vm, this.attrs, this.attrMap, this.rows, this.inverse := vm, attrs, attrMap, rows, inverse;
      this.searchIndex, iterator_ := searchIndex, iter;
      tupleId, currentRow, resultRow := 0, 0, [];
    }

    ghost function Code(): seq<Cell>
      reads vm.code
    {
      vm.code[..]
    }

    /** Binds the mapped attributes and copies the stored ones; the loop over the attribute map. */
    method BindRow(row: Tuple)
      requires Valid() && row in rows
      modifies vm`values, vm`spare, `resultRow
      ensures Valid() && vm.names == old(vm.names)
      ensures vm.values == RowValues(vm.names, attrs, row)
      ensures resultRow == Project(attrMap, row)
    {
      hide IndexOf, AttributeIndex, Project, Distinct, Bound;
      ProjectNothing(row);
      assert attrMap[..0] == [];
      resultRow := [];
      ghost var names, values := vm.names, RowValues(vm.names, attrs, row);
      NothingBound(attrMap, names, vm.values, values);
      for i := 0 to |attrMap|
        invariant vm.Valid() && vm.names == names
        invariant resultRow == Project(attrMap[..i], row)
        invariant Bound(attrMap, i, names, vm.values, values)
      {
        var e := attrMap[i];
        ProjectStep(attrMap, i, row);
        assert e in attrMap && row[e.from] == RowEnv(attrs, row)(e.name);
        BoundStep(attrMap, i, names, vm.values, values, row[e.from]);
        var _ := vm.SetVariableValue(e.name, row[e.from]);
        if !e.noStore {
          resultRow := resultRow + [row[e.from]];
        }
      }
      assert attrMap[..|attrMap|] == attrMap;
      AllBound(attrMap, names, vm.values, values);
    }

    /** relation_process_select without aggregates */
    method Process() returns (result: DbResult)
      requires Valid()
      modifies this, vm`ip, vm`values, vm`spare, iterator_
      ensures Valid() && vm.names == old(vm.names)
      ensures result == DB_GOT_ROW || result == DB_OK ==>
        && 0 < tupleId <= |rows|
        && (!searchIndex ==> tupleId == old(tupleId) + 1)
        && (result == DB_GOT_ROW <==> RowStatus(Code(), vm.names, attrs, rows[tupleId - 1]) == Wanted())
        && (result == DB_GOT_ROW ==>
              && resultRow == Project(attrMap, rows[tupleId - 1])
              && currentRow == old(currentRow) + 1)
      ensures !searchIndex ==> iterator_.nextItemNo == old(iterator_.nextItemNo)
      ensures !searchIndex ==> 
        (if old(tupleId) < |rows| then result == DB_GOT_ROW || result == DB_OK else result == DB_FINISHED)
      ensures searchIndex ==>
        var (next, n) := II.NextOf(iterator_.col, iterator_.low, iterator_.high, iterator_.unique,
                                   old(iterator_.nextItemNo));
        && iterator_.nextItemNo == n
        && match next
           case LOST => result == UNDEFINED
           case INVALID => result == if n == 0 then DB_INDEX_ERROR else DB_FINISHED
           case Row(id) => id < |rows| ==> tupleId == id + 1 && (result == DB_GOT_ROW || result == DB_OK)
    {
      hide Project, RowStatus, II.RangeOf, Distinct;
      if searchIndex {
        var next := iterator_.GetNext();
        if next == II.LOST {
          return UNDEFINED;
        }
        if next == II.INVALID {
          if iterator_.nextItemNo == 0 {
            return DB_INDEX_ERROR;
          }
          return DB_FINISHED;
        }
        tupleId := next.id;
      }
      result := ProcessRow();
    }

    /** The part of relation_process_select behind the choice of the row. */
    method ProcessRow() returns (result: DbResult)
      requires Valid()
      modifies `tupleId, `currentRow, `resultRow, vm`ip, vm`values, vm`spare
      ensures Valid() && vm.names == old(vm.names) && tupleId == old(tupleId) + 1
      ensures old(tupleId) >= |rows| ==> result == DB_FINISHED
      ensures old(tupleId) < |rows| ==>
        if RowStatus(Code(), vm.names, attrs, rows[tupleId - 1]) == Wanted()
        then result == DB_GOT_ROW && resultRow == Project(attrMap, rows[tupleId - 1]) &&
             currentRow == old(currentRow) + 1
        else result == DB_OK
    {
      hide Project;
      // storage_get_row
      if tupleId >= |rows| {
        tupleId := tupleId + 1;
        return DB_FINISHED;
      }
      var row := rows[tupleId];
      tupleId := tupleId + 1;
      BindRow(row);
      var status := vm.Execute();
      if status == Wanted() {
        currentRow := currentRow + 1;
        return DB_GOT_ROW;
      }
      return DB_OK;
    }

    /** Calls Process until it reports the end, and collects the rows it produces. */
    method SelectAll() returns (result: DbResult, out: seq<Tuple>)
      requires Valid() && tupleId == 0 && iterator_.nextItemNo == 0
      modifies this, vm`ip, vm`values, vm`spare, iterator_
      ensures vm.names == old(vm.names)
      ensures !searchIndex ==>
        result == DB_FINISHED && out == Scan(Code(), vm.names, attrs, attrMap, rows, Wanted(), 0, |rows|)
      ensures searchIndex ==>
        match II.RangeOf(iterator_.col, iterator_.low, iterator_.high)
        case Lost => result == UNDEFINED && out == []
        case NoRows => result == DB_INDEX_ERROR && out == []
        case Rows(start, _) =>
          var range := II.RangeOf(iterator_.col, iterator_.low, iterator_.high);
          var end := II.VisitEnd(range, iterator_.unique && iterator_.low == iterator_.high);
          && start <= end <= |rows| && result == DB_FINISHED
          && out == Scan(Code(), vm.names, attrs, attrMap, rows, Wanted(), start, end)
    {
      hide Scan, Project, RowStatus, Wanted, WfMap, WfRows, II.RangeOf, II.Nondecreasing, II.AtMostOnce, Distinct;
      ghost var range := II.RangeOf(iterator_.col, iterator_.low, iterator_.high);
      ghost var start: nat, end: nat := 0, |rows|;
      if searchIndex && range.Rows? {
        II.IterationVisits(iterator_.col, iterator_.low, iterator_.high, iterator_.unique, 0);
        start, end := range.start, II.VisitEnd(range, iterator_.unique && iterator_.low == iterator_.high);
      }
      ghost var at := start;
      ScanEmpty(Code(), vm.names, attrs, attrMap, rows, Wanted(), start);
      out := [];
      result := DB_OK;
      while result == DB_OK || result == DB_GOT_ROW
        invariant Valid() && vm.names == old(vm.names)
        invariant start <= at <= end <= |rows|
        invariant out == Scan(Code(), vm.names, attrs, attrMap, rows, Wanted(), start, at)
        invariant !searchIndex && (result == DB_OK || result == DB_GOT_ROW) ==> tupleId == at
        invariant !searchIndex ==> result == DB_OK || result == DB_GOT_ROW || (result == DB_FINISHED && at == end)
        invariant searchIndex && range.Rows? ==> iterator_.nextItemNo == at - start
        invariant searchIndex && range.Rows? ==>
          result == DB_OK || result == DB_GOT_ROW || (result == DB_FINISHED && at == end)
        invariant searchIndex && !range.Rows? ==> at == start && iterator_.nextItemNo == 0
        invariant searchIndex && !range.Rows? && result != DB_OK ==>
          result == if range.Lost? then UNDEFINED else DB_INDEX_ERROR
        decreases end - at, result == DB_OK || result == DB_GOT_ROW
      {
        if searchIndex && range.Rows? {
          II.IterationVisits(iterator_.col, iterator_.low, iterator_.high, iterator_.unique, at - start);
        }
        result := Process();
        if result == DB_GOT_ROW {
          out := out + [resultRow];
        }
        if result == DB_GOT_ROW || result == DB_OK {
          ScanStep(Code(), vm.names, attrs, attrMap, rows, Wanted(), start, at);
          at := at + 1;
        }
      }
    }
  }

  // ----- The index gives the same rows as the full scan -----

  lemma {:induction false} ScanJoins(code: seq<Cell>, names: seq<string>, attrs: seq<Attribute>, attrMap: seq<MapEntry>,
                                     rows: seq<Tuple>, wanted: Status, lo: nat, mid: nat, hi: nat)
    requires lo <= mid <= hi <= |rows| && WfMap(attrMap, attrs) && WfRows(rows, attrs)
    ensures Scan(code, names, attrs, attrMap, rows, wanted, lo, hi)
         == Scan(code, names, attrs, attrMap, rows, wanted, lo, mid)
           + Scan(code, names, attrs, attrMap, rows, wanted, mid, hi)
    decreases hi
  {
    hide Scan, RowStatus, Project, WfMap;
    if mid < hi {
      ScanStep(code, names, attrs, attrMap, rows, wanted, lo, hi - 1);
      ScanStep(code, names, attrs, attrMap, rows, wanted, mid, hi - 1);
      ScanJoins(code, names, attrs, attrMap, rows, wanted, lo, mid, hi - 1);
    } else {
      ScanEmpty(code, names, attrs, attrMap, rows, wanted, mid);
    }
  }

  /** A scan finds nothing iff no row has the wanted status. */
  lemma {:induction false} ScanIsEmptyIff(code: seq<Cell>, names: seq<string>, attrs: seq<Attribute>,
                                          attrMap: seq<MapEntry>, rows: seq<Tuple>, wanted: Status, lo: nat, hi: nat)
    requires lo <= hi <= |rows| && WfMap(attrMap, attrs) && WfRows(rows, attrs)
    ensures Scan(code, names, attrs, attrMap, rows, wanted, lo, hi) == []
            <==> forall i :: lo <= i < hi ==> RowStatus(code, names, attrs, rows[i]) != wanted
    decreases hi
  {
    hide Scan, RowStatus, Project, WfMap;
    if lo < hi {
      ScanStep(code, names, attrs, attrMap, rows, wanted, lo, hi - 1);
      ScanIsEmptyIff(code, names, attrs, attrMap, rows, wanted, lo, hi - 1);
    } else {
      ScanEmpty(code, names, attrs, attrMap, rows, wanted, lo);
    }
  }

  /** A scan of some rows is the full scan iff no row with the wanted status lies outside. */
  lemma PartialScanIff(code: seq<Cell>, names: seq<string>, attrs: seq<Attribute>, attrMap: seq<MapEntry>,
                       rows: seq<Tuple>, wanted: Status, from: nat, to: nat)
    requires from <= to <= |rows| && WfMap(attrMap, attrs) && WfRows(rows, attrs)
    ensures
      && (Scan(code, names, attrs, attrMap, rows, wanted, from, to)
          == Scan(code, names, attrs, attrMap, rows, wanted, 0, |rows|))
      <==> forall i :: 0 <= i < |rows| && RowStatus(code, names, attrs, rows[i]) == wanted ==> from <= i < to
  {
    hide Scan, RowStatus, Project, WfMap;
    ScanJoins(code, names, attrs, attrMap, rows, wanted, 0, from, |rows|);
    ScanJoins(code, names, attrs, attrMap, rows, wanted, from, to, |rows|);
    ScanIsEmptyIff(code, names, attrs, attrMap, rows, wanted, 0, from);
    ScanIsEmptyIff(code, names, attrs, attrMap, rows, wanted, to, |rows|);
    var a, b, c := Scan(code, names, attrs, attrMap, rows, wanted, 0, from),
      Scan(code, names, attrs, attrMap, rows, wanted, from, to),
        Scan(code, names, attrs, attrMap, rows, wanted, to, |rows|);
    assert a + (b + c) == b <==> a == [] && c == [] by {
      assert |a + (b + c)| == |a| + |b| + |c|;
    }
  }

  function Column(rows: seq<Tuple>, attrs: seq<Attribute>, k: nat): (c: seq<int>)
    requires k < |attrs|
    requires forall r :: r in rows ==> |r| == |attrs|
    ensures |c| == |rows| && forall i :: 0 <= i < |rows| ==> c[i] == rows[i][k]
  {
    seq(|rows|, i requires 0 <= i < |rows| => assert rows[i] in rows; rows[i][k])
  }
}
