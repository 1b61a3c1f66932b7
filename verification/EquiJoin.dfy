/**
 The resumable equi-join of Antelope (apps/antelope/relation.c): every call produces one row and leaves
 both loops in the middle; the flag INDEX_STEP tells the next call where to resume.
 */
module EquiJoin {
  import opened Relation
  import II = InlineIndex

  /** Where an attribute of the joined row comes from. */
  datatype Source = Left(col: nat) | Right(col: nat)

  /** A left row number and a right row number. */
  type Pair = (nat, nat)

  ghost predicate Wide(rows: seq<Tuple>, col: nat) {
    forall i :: 0 <= i < |rows| ==> col < |rows[i]|
  }

  ghost predicate Arity(rows: seq<Tuple>, n: nat) {
    forall i :: 0 <= i < |rows| ==> |rows[i]| == n
  }

  ghost predicate WfSources(sources: seq<Source>, m: nat, n: nat) {
    forall i :: 0 <= i < |sources| ==> sources[i].col < if sources[i].Left? then m else n
  }

  /** Each cell of the joined row comes from the column that its source names, in the order of the sources. */
  ghost predicate IsJoinRow(sources: seq<Source>, l: Tuple, r: Tuple, row: Tuple)
    requires WfSources(sources, |l|, |r|)
  {
    && |row| == |sources|
    && forall i :: 0 <= i < |row| ==> row[i] == if sources[i].Left? then l[sources[i].col] else r[sources[i].col]
  }

  /** An index: the row numbers it answers for a value. */
  type Index = map<int, seq<nat>>

  function Lookup(index: Index, v: int): seq<nat> {
    if v in index then index[v] else []
  }

  ghost predicate IdsBelow(index: Index, n: nat) {
    forall v, id :: id in Lookup(index, v) ==> id < n
  }

  /** The pairs (l, id) for the ids of an index answer, from position p on. */
  function PairsOf(l: nat, ids: seq<nat>, p: nat): (r: seq<Pair>)
    requires p <= |ids|
    ensures |r| == |ids| - p && forall i :: 0 <= i < |r| ==> r[i] == (l, ids[p + i])
    decreases |ids| - p
  {
    if p == |ids| then [] else [(l, ids[p])] + PairsOf(l, ids, p + 1)
  }

  /** The pairs the nested loops visit from left row t on. */
  function PairsFrom(left: seq<Tuple>, col: nat, index: Index, t: nat): (r: seq<Pair>)
    requires Wide(left, col)
    requires t <= |left|
    ensures forall i :: 0 <= i < |r| ==> t <= r[i].0 < |left|
    decreases |left| - t
  {
    if t == |left| then []
    else
      PairsOf(t, Lookup(index, left[t][col]), 0) + PairsFrom(left, col, index, t + 1)
  }

  lemma NextLeftRow(left: seq<Tuple>, col: nat, index: Index, t: nat)
    requires Wide(left, col) && t <= |left|
    ensures PairsFrom(left, col, index, t) ==
      if t == |left| then []
      else PairsOf(t, Lookup(index, left[t][col]), 0) + PairsFrom(left, col, index, t + 1)
  {
  }

  lemma NextMatch(l: nat, ids: seq<nat>, p: nat, rest: seq<Pair>)
    requires p <= |ids|
    ensures p == |ids| ==> PairsOf(l, ids, p) + rest == rest
    ensures p < |ids| ==>
      var all := PairsOf(l, ids, p) + rest;
      all != [] && all[0] == (l, ids[p]) && all[1..] == PairsOf(l, ids, p + 1) + rest
  {
  }

  lemma Advance(all: seq<Pair>, before: seq<Pair>, pending: seq<Pair>)
    requires all == before + pending && pending != []
    ensures all == before + [pending[0]] + pending[1..] && pending[0] in all
  {
  }

  class Handle {
    const left: seq<Tuple>
    const right: seq<Tuple>
    const leftCol: nat
    const leftArity: nat
    const rightArity: nat
    const sources: seq<Source>
    /** The index on the join attribute of the right relation. */
    const index: Index

    var indexStep: bool
    var tupleId: nat
    var currentRow: nat
    var joinRow: Tuple
    // The index iterator: the answer it walks through and its position.
    var matches: seq<nat>
    var position: nat

    ghost predicate Valid()
      reads this
    {
      && leftCol < leftArity && WfSources(sources, leftArity, rightArity)
      && Arity(left, leftArity)
      && Arity(right, rightArity)
      && (!indexStep ==> tupleId < |left| && matches == Lookup(index, left[tupleId][leftCol]) && position <= |matches|)
    }

    /** `row` is the joined row of a pair. */
    ghost predicate Joined(p: Pair, row: Tuple) {
      && p.0 < |left| && p.1 < |right| && WfSources(sources, |left[p.0]|, |right[p.1]|)
      && IsJoinRow(sources, left[p.0], right[p.1], row)
    }

    /** `out` lists the joined rows of the pairs. */
    ghost predicate AllJoined(pairs: seq<Pair>, out: seq<Tuple>) {
      |out| == |pairs| && forall i :: 0 <= i < |out| ==> Joined(pairs[i], out[i])
    }

    lemma NoneJoined()
      ensures AllJoined([], [])
    {
    }

    lemma JoinOne(pairs: seq<Pair>, out: seq<Tuple>, p: Pair, row: Tuple)
      requires AllJoined(pairs, out) && Joined(p, row)
      ensures AllJoined(pairs + [p], out + [row])
    {
      hide Joined;
    }

    /** The pairs that the nested loops visit from left row t on. */
    ghost function RestFrom(t: nat): seq<Pair>
      requires leftCol < leftArity && Arity(left, leftArity) && t <= |left|
    {
      PairsFrom(left, leftCol, index, t)
    }

    /** What the following calls are going to visit. */
    ghost function Pending(): seq<Pair>
      reads this
      requires Valid()
    {
      if indexStep then RestFrom(0)
      else PairsOf(tupleId, matches, position) + RestFrom(tupleId + 1)
    }

    /** relation_join */
    constructor (left: seq<Tuple>, right: seq<Tuple>, leftCol: nat, leftArity: nat, rightArity: nat,
                 sources: seq<Source>, index: Index)
      requires leftCol < leftArity && WfSources(sources, leftArity, rightArity)
      requires Arity(left, leftArity)
      requires Arity(right, rightArity)
      ensures Valid() && indexStep && currentRow == 0
      ensures this.left == left && this.right == right && this.leftCol == leftCol && this.sources == sources
      ensures this.index == index && this.leftArity == leftArity && this.rightArity == rightArity
    {
      this.left, this.right, this.leftCol := left, right, leftCol;
      this.leftArity, this.rightArity, this.sources, this.index := leftArity, rightArity, sources, index;
      indexStep, tupleId, currentRow, joinRow, matches, position := true, 0, 0, [], [], 0;
    }

    /** The loop that fills in the joined row. */
    method FillJoinRow(l: Tuple, r: Tuple)
      requires WfSources(sources, |l|, |r|)
      modifies `joinRow
      ensures IsJoinRow(sources, l, r, joinRow)
    {
      joinRow := [];
      for i := 0 to |sources|
        invariant |joinRow| == i
        invariant forall k :: 0 <= k < i ==>
          joinRow[k] == if sources[k].Left? then l[sources[k].col] else r[sources[k].col]
      {
        joinRow := joinRow + [if sources[i].Left? then l[sources[i].col] else r[sources[i].col]];
      }
    }

    /**
     The inner loop: the row of the next match; or, when there is none, the flag that sends the outer
     loop to its next left row.
     */
    method InnerLoop(ghost pending: seq<Pair>) returns (result: DbResult)
      requires Valid() && !indexStep && Pending() == pending
      modifies this
      ensures tupleId == old(tupleId)
      ensures old(position) == |old(matches)| ==>
        && result == DB_FINISHED && indexStep && currentRow == old(currentRow) && Valid()
        && tupleId < |left| && pending == RestFrom(tupleId + 1)
      ensures old(position) < |old(matches)| ==>
        Valid() && !indexStep && pending != [] && Produced(pending, result, old(currentRow)) &&
        Pending() == pending[1..]
    {
      hide RestFrom, PairsOf, IsJoinRow, Lookup, WfSources, Arity;
      PendingInRow();
      NextMatch(tupleId, matches, position, RestFrom(tupleId + 1));
      if position < |matches| {
        var id := matches[position];
        position := position + 1;
        if id >= |right| {
          return DB_IMPLEMENTATION_ERROR;
        }
        Arities(tupleId, id);
        FillJoinRow(left[tupleId], right[id]);
        currentRow := currentRow + 1;
        return DB_GOT_ROW;
      }
      indexStep := true;
      return DB_FINISHED;
    }

    /** The first of the pending pairs has been turned into a row, or found to refer to no row. */
    ghost predicate Produced(pending: seq<Pair>, result: DbResult, rows: nat)
      reads this
    {
      && pending != []
      && if pending[0].1 < |right| then result == DB_GOT_ROW && currentRow == rows + 1 && Joined(pending[0], joinRow)
         else result == DB_IMPLEMENTATION_ERROR
    }

    /** relation_process_join: the next pair, or the end. */
    method Process() returns (result: DbResult)
      requires Valid()
      modifies this
      ensures Valid()
      ensures old(Pending()) == [] ==> result == DB_FINISHED && indexStep && currentRow == old(currentRow)
      ensures old(Pending()) != [] ==>
        Pending() == old(Pending())[1..] && !indexStep && Produced(old(Pending()), result, old(currentRow))
      // Cell by cell: the joined row has the attributes in the order of the sources.
      ensures result == DB_GOT_ROW ==> old(Pending()) != []
      ensures result == DB_GOT_ROW ==>
        var p := old(Pending())[0];
        && p.0 < |left| && p.1 < |right| && WfSources(sources, |left[p.0]|, |right[p.1]|)
        && |joinRow| == |sources| && forall j :: 0 <= j < |sources| ==>
          joinRow[j] == if sources[j].Left? then left[p.0][sources[j].col] else right[p.1][sources[j].col]
    {
      hide RestFrom, Pending, IsJoinRow, Lookup, WfSources, Joined, Produced, Arity;
      ghost var pending := Pending();
      FromTheStart();
      var resume := !indexStep;
      if !resume {
        tupleId := 0;
      }
      while true
        invariant Valid() && currentRow == old(currentRow)
        invariant resume ==> !indexStep && pending == Pending()
        invariant !resume ==> indexStep && tupleId <= |left| && pending == RestFrom(tupleId)
        decreases |left| - tupleId, resume
      {
        if !resume {
          result := NextRow(pending);
          if result == DB_FINISHED {
            return;
          }
        }
        result := InnerLoop(pending);
        if !indexStep {
          if result == DB_GOT_ROW {
            ProducedCells(pending, result, old(currentRow));
          }
          return;
        }
        resume := false;
        tupleId := tupleId + 1;
      }
    }

    lemma ProducedCells(pending: seq<Pair>, result: DbResult, rows: nat)
      requires Produced(pending, result, rows) && result == DB_GOT_ROW
      ensures
        var p := pending[0];
        && p.0 < |left| && p.1 < |right| && WfSources(sources, |left[p.0]|, |right[p.1]|)
        && |joinRow| == |sources| && forall j :: 0 <= j < |sources| ==>
          joinRow[j] == if sources[j].Left? then left[p.0][sources[j].col] else right[p.1][sources[j].col]
    {
    }

    lemma PendingInRow()
      requires Valid() && !indexStep
      ensures tupleId < |left| && position <= |matches|
      ensures Pending() == PairsOf(tupleId, matches, position) + RestFrom(tupleId + 1)
    {
    }

    lemma Arities(l: nat, r: nat)
      requires Valid() && l < |left| && r < |right|
      ensures |left[l]| == leftArity && |right[r]| == rightArity
    {
    }

    lemma FromTheStart()
      requires Valid()
      ensures indexStep ==> Pending() == RestFrom(0)
    {
    }

    /** storage_get_row on the left relation, and the index iterator for the row. */
    method NextRow(ghost pending: seq<Pair>) returns (result: DbResult)
      requires Valid() && indexStep && tupleId <= |left| && pending == RestFrom(tupleId)
      modifies `matches, `position, `indexStep
      ensures Valid() && (result == DB_FINISHED <==> tupleId == |left|)
      ensures if result == DB_FINISHED then indexStep && pending == [] else !indexStep && Pending() == pending
    {
      hide PairsFrom, PairsOf, IsJoinRow, Lookup, WfSources;
      NextLeftRow(left, leftCol, index, tupleId);
      if tupleId >= |left| {
        return DB_FINISHED;
      }
      matches, position := Lookup(index, left[tupleId][leftCol]), 0;
      indexStep := false;
      result := DB_OK;
    }

    /** Calls Process until it reports the end. */
    method JoinAll() returns (result: DbResult, out: seq<Tuple>, ghost pairs: seq<Pair>)
      requires Valid() && indexStep
      requires IdsBelow(index, |right|)
      modifies this
      ensures result == DB_FINISHED
      ensures pairs == PairsFrom(left, leftCol, index, 0)
      ensures AllJoined(pairs, out)
      // Cell by cell: every joined row has the attributes in the order of the sources.
      ensures |out| == |pairs| && forall i :: 0 <= i < |out| ==>
        && |out[i]| == |sources| && pairs[i].0 < |left| && pairs[i].1 < |right|
        && WfSources(sources, |left[pairs[i].0]|, |right[pairs[i].1]|)
        && forall j :: 0 <= j < |sources| ==>
             out[i][j] == if sources[j].Left? then left[pairs[i].0][sources[j].col]
                          else right[pairs[i].1][sources[j].col]
    {
      hide PairsFrom, PairsOf, IsJoinRow, Lookup, WfSources, Joined, AllJoined, IdsBelow;
      ValidIds(left, leftCol, index, 0, |right|);
      NoneJoined();
      ghost var all := Pending();
      pairs, out := [], [];
      result := DB_GOT_ROW;
      while result == DB_GOT_ROW
        invariant Valid()
        invariant result == DB_GOT_ROW || result == DB_FINISHED
        invariant result == DB_GOT_ROW ==> all == pairs + Pending()
        invariant result == DB_FINISHED ==> all == pairs
        invariant AllJoined(pairs, out)
        decreases |all| - |pairs|, result == DB_GOT_ROW
      {
        ghost var pending := Pending();
        result := Process();
        if result == DB_GOT_ROW {
          Advance(all, pairs, pending);
          JoinOne(pairs, out, pending[0], joinRow);
          pairs := pairs + [pending[0]];
          out := out + [joinRow];
        }
      }
      CellByCell(pairs, out);
    }

    lemma CellByCell(pairs: seq<Pair>, out: seq<Tuple>)
      requires AllJoined(pairs, out)
      ensures |out| == |pairs| && forall i :: 0 <= i < |out| ==>
        && |out[i]| == |sources| && pairs[i].0 < |left| && pairs[i].1 < |right|
        && WfSources(sources, |left[pairs[i].0]|, |right[pairs[i].1]|)
        && forall j :: 0 <= j < |sources| ==>
             out[i][j] == if sources[j].Left? then left[pairs[i].0][sources[j].col]
                          else right[pairs[i].1][sources[j].col]
    {
    }
  }

  lemma {:induction false} ValidIds(left: seq<Tuple>, col: nat, index: Index, t: nat, n: nat)
    requires Wide(left, col)
    requires t <= |left| && IdsBelow(index, n)
    ensures forall p :: p in PairsFrom(left, col, index, t) ==> p.1 < n
    decreases |left| - t
  {
    if t < |left| {
      ValidIds(left, col, index, t + 1, n);
      assert forall p :: p in PairsOf(t, Lookup(index, left[t][col]), 0) ==> p.1 in Lookup(index, left[t][col]);
    }
  }

  // ----- The pairs are the equi-join -----

  /** The index answers a value with exactly the rows that hold it, each once. */
  ghost predicate IndexCorrect(right: seq<Tuple>, col: nat, index: Index)
    requires Wide(right, col)
  {
    forall v :: AnsweredRight(right, col, index, v)
  }

  ghost predicate AnsweredRight(right: seq<Tuple>, col: nat, index: Index, v: int)
    requires Wide(right, col)
  {
    && (forall i, j :: 0 <= i < j < |Lookup(index, v)| ==> Lookup(index, v)[i] != Lookup(index, v)[j])
    && (forall id: nat :: id in Lookup(index, v) <==> id < |right| && right[id][col] == v)
  }

  /** In the order of the left rows, and none twice. */
  ghost predicate Ordered(pairs: seq<Pair>) {
    forall i, j :: 0 <= i < j < |pairs| ==> pairs[i].0 <= pairs[j].0 && pairs[i] != pairs[j]
  }

  lemma OrderedConcat(a: seq<Pair>, b: seq<Pair>, t: nat)
    requires Ordered(a) && Ordered(b)
    requires forall i :: 0 <= i < |a| ==> a[i].0 == t
    requires forall i :: 0 <= i < |b| ==> t < b[i].0
    ensures Ordered(a + b)
  {
  }

  lemma {:induction false} PairsOrdered(left: seq<Tuple>, right: seq<Tuple>, col: nat, rightCol: nat, index: Index,
                                        t: nat)
    requires Wide(left, col) && Wide(right, rightCol) && IndexCorrect(right, rightCol, index) && t <= |left|
    ensures Ordered(PairsFrom(left, col, index, t))
    decreases |left| - t
  {
    if t < |left| {
      var ids := Lookup(index, left[t][col]);
      assert AnsweredRight(right, rightCol, index, left[t][col]);
      PairsOrdered(left, right, col, rightCol, index, t + 1);
      OrderedConcat(PairsOf(t, ids, 0), PairsFrom(left, col, index, t + 1), t);
    }
  }

  lemma MatchesOf(l: nat, ids: seq<nat>, p: Pair)
    ensures p in PairsOf(l, ids, 0) <==> p.0 == l && p.1 in ids
  {
    var pairs := PairsOf(l, ids, 0);
    if p.0 == l && p.1 in ids {
      var i :| 0 <= i < |ids| && ids[i] == p.1;
      assert pairs[i] == p;
    }
  }

  lemma {:induction false} PairsMatch(left: seq<Tuple>, right: seq<Tuple>, col: nat, rightCol: nat, index: Index,
                                      t: nat, p: Pair)
    requires Wide(left, col) && Wide(right, rightCol) && IndexCorrect(right, rightCol, index) && t <= |left|
    ensures p in PairsFrom(left, col, index, t) <==>
      t <= p.0 < |left| && p.1 < |right| && left[p.0][col] == right[p.1][rightCol]
    decreases |left| - t
  {
    if t < |left| {
      assert AnsweredRight(right, rightCol, index, left[t][col]);
      MatchesOf(t, Lookup(index, left[t][col]), p);
      PairsMatch(left, right, col, rightCol, index, t + 1, p);
    }
  }

  /**
   The pairs come in the order of the left rows, none twice, and a pair comes exactly when its rows
   agree on the join attribute.
   */
  lemma PairsAreEquiJoin(left: seq<Tuple>, right: seq<Tuple>, col: nat, rightCol: nat, index: Index)
    requires Wide(left, col) && Wide(right, rightCol) && IndexCorrect(right, rightCol, index)
    ensures Ordered(PairsFrom(left, col, index, 0))
    ensures forall p: Pair :: p in PairsFrom(left, col, index, 0) <==>
      p.0 < |left| && p.1 < |right| && left[p.0][col] == right[p.1][rightCol]
  {
    PairsOrdered(left, right, col, rightCol, index, 0);
    forall p: Pair
      ensures p in PairsFrom(left, col, index, 0) <==>
        p.0 < |left| && p.1 < |right| && left[p.0][col] == right[p.1][rightCol]
    {
      PairsMatch(left, right, col, rightCol, index, 0, p);
    }
  }

  // ----- Joining through the inline index -----

  function Values(rows: seq<Tuple>, col: nat): (c: seq<int>)
    requires Wide(rows, col)
    ensures |c| == |rows| && forall i :: 0 <= i < |rows| ==> c[i] == rows[i][col]
  {
    seq(|rows|, i requires 0 <= i < |rows| => rows[i][col])
  }

  /** What an iterator of the inline index answers for a single value, from request number n on. */
  function Answers(col: seq<int>, v: int, unique: bool, n: nat): seq<nat>
    decreases |col| - n
  {
    var (next, m) := II.NextOf(col, v, v, unique, n);
    if next.Row? then [next.id] + Answers(col, v, unique, m) else []
  }

  function InlineIndexOf(col: seq<int>, unique: bool): Index {
    map v | v in col :: Answers(col, v, unique, 0)
  }

  /** One row at most is answered. */
  lemma AnswerIsOneRow(col: seq<int>, v: int, unique: bool)
    ensures
      var range := II.RangeOf(col, v, v);
      && Answers(col, v, unique, 0) == (if range.Rows? then [range.start] else [])
      && (range.Rows? ==> range.start < |col| && range.start == range.end)
  {
    hide II.FindRow;
    assert II.NextOf(col, v, v, unique, 1).0 == II.INVALID;
    assert Answers(col, v, unique, 1) == [];
  }

  /**
   On a column in order, the inline index is correct exactly when no value is repeated.  A value that no row has, but
   that is not below the first one, has no answers, either; for a lower one the search leaves the relation.
   */
  lemma InlineIndexIff(right: seq<Tuple>, k: nat, unique: bool)
    requires Wide(right, k) && II.Nondecreasing(Values(right, k))
    ensures
      var col := Values(right, k);
      && (IndexCorrect(right, k, InlineIndexOf(col, unique)) <==> forall v :: II.AtMostOnce(col, v))
      && forall v ::
           && (II.RangeOf(col, v, v).Lost? <==> col == [] || v < col[0])
           && Lookup(InlineIndexOf(col, unique), v) == Answers(col, v, unique, 0)
  {
    hide Answers, II.RangeOf, II.Nondecreasing, II.AtMostOnce;
    var col := Values(right, k);
    forall v
      ensures II.RangeOf(col, v, v).Lost? <==> col == [] || v < col[0]
      ensures Lookup(InlineIndexOf(col, unique), v) == Answers(col, v, unique, 0)
      ensures AnsweredRight(right, k, InlineIndexOf(col, unique), v) <==> II.AtMostOnce(col, v)
    {
      AnswersIff(right, k, unique, v);
    }
  }

  lemma AnswersIff(right: seq<Tuple>, k: nat, unique: bool, v: int)
    requires Wide(right, k) && II.Nondecreasing(Values(right, k))
    ensures
      var col := Values(right, k);
      var index := InlineIndexOf(col, unique);
      && (II.RangeOf(col, v, v).Lost? <==> col == [] || v < col[0])
      && Lookup(index, v) == Answers(col, v, unique, 0)
      && (AnsweredRight(right, k, index, v) <==> II.AtMostOnce(col, v))
  {
    hide Answers, II.RangeOf;
    var col := Values(right, k);
    var ids := Lookup(InlineIndexOf(col, unique), v);
    II.RangeCoversIff(col, v, v);
    AnswerIsOneRow(col, v, unique);
    if v in col {
      II.EqualRangeCoversIff(col, v);
      var row := II.RangeOf(col, v, v).start;
      assert ids == [row];
    }
  }
}
