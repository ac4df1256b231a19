/**
 * The tolerance comparator of csvdiff (`diffCSV`): a shape check, a
 * per-column scale (the largest magnitude of table A in the column, widened
 * over "vector groups" of columns), then a cell-by-cell comparison that
 * accepts a cell when its absolute error or its error relative to the
 * column scale is within tolerance, counting the rows with a rejected cell.
 */
module Comparator {
  import opened Text
  import opened Loader

  datatype Option<T> = None | Some(value: T)

  /** `std::abs` on exact numbers. */
  function Abs(x: real): real
  {
    if x < 0.0 then -x else x
  }

  /** `std::max(a, b)`: `b` when `a < b`, otherwise `a`. */
  function Max(a: real, b: real): real
  {
    if a < b then b else a
  }

  // ---------------------------------------------------------------------
  // Per-column maximum magnitude
  // ---------------------------------------------------------------------

  /** `max(0, |A[0][j]|, ..., |A[rows - 1][j]|)`. */
  function ColumnMax(t: Table, j: nat, rows: nat): real
    requires t.Valid() && j < t.nColumns && rows <= t.nRows
  {
    if rows == 0 then 0.0 else Max(ColumnMax(t, j, rows - 1), Abs(t.Cell(rows - 1, j)))
  }

  /**
   * The column maximum is non-negative, bounds every magnitude in the first
   * `rows` rows of the column, and is one of them unless it is 0.
   */
  lemma {:induction false} ColumnMaxIsMax(t: Table, j: nat, rows: nat)
    requires t.Valid() && j < t.nColumns && rows <= t.nRows
    ensures 0.0 <= ColumnMax(t, j, rows)
    ensures forall i :: 0 <= i < rows ==> Abs(t.Cell(i, j)) <= ColumnMax(t, j, rows)
    ensures ColumnMax(t, j, rows) == 0.0 || exists i :: 0 <= i < rows && ColumnMax(t, j, rows) == Abs(t.Cell(i, j))
  {
    if rows > 0 {
      ColumnMaxIsMax(t, j, rows - 1);
    }
  }

  /** `col_max_abs` after the first pass: every column's maximum magnitude over all rows. */
  function ColumnMaxes(t: Table): (r: seq<real>)
    requires t.Valid()
    ensures |r| == t.nColumns
  {
    seq(t.nColumns, j requires 0 <= j < t.nColumns => ColumnMax(t, j, t.nRows))
  }

  /** The first pass of `diffCSV`: row by row, column by column, keeps the largest magnitude. */
  method ColumnMaxAbs(t: Table) returns (scale: array<real>)
    requires t.Valid()
    ensures fresh(scale) && scale[..] == ColumnMaxes(t)
  {
    scale := new real[t.nColumns](_ => 0.0);
    for i := 0 to t.nRows
      invariant forall j :: 0 <= j < t.nColumns ==> scale[j] == ColumnMax(t, j, i)
    {
      for j := 0 to t.nColumns
        invariant forall j' :: 0 <= j' < j ==> scale[j'] == ColumnMax(t, j', i + 1)
        invariant forall j' :: j <= j' < t.nColumns ==> scale[j'] == ColumnMax(t, j', i)
      {
        scale[j] := Max(scale[j], Abs(t.Cell(i, j)));
      }
    }
  }

  // ---------------------------------------------------------------------
  // Vector groups
  // ---------------------------------------------------------------------

  /** The vector name of a column: the part of its name before the first `_`, if it has one. */
  function GroupKey(name: string): (r: Option<string>)
    ensures r.Some? <==> '_' in name
    ensures r.Some? ==> '_' !in r.value && r.value + "_" <= name
  {
    var pos := FindFrom(name, '_', 0);
    if pos == |name| then None
    else
      assert name[..pos + 1] == name[..pos] + "_";
      Some(name[..pos])
  }

  /** `key` is the vector name of some column of `names`. */
  ghost predicate IsKey(key: string, names: seq<string>)
  {
    exists i :: 0 <= i < |names| && GroupKey(names[i]) == Some(key)
  }

  /** `keys` enumerates the set of vector names, each once, in some order. */
  ghost predicate KeyOrder(keys: seq<string>, names: seq<string>)
  {
    (forall a, b :: 0 <= a < b < |keys| ==> keys[a] != keys[b]) &&
    (forall k :: k in keys <==> IsKey(k, names))
  }

  /**
   * The `std::set` of vector names, enumerated in first-occurrence order
   * (the set's own order is not modelled; nothing below depends on it).
   */
  method VectorNames(names: seq<string>) returns (keys: seq<string>)
    ensures KeyOrder(keys, names)
  {
    keys := [];
    for i := 0 to |names|
      invariant forall a, b :: 0 <= a < b < |keys| ==> keys[a] != keys[b]
      invariant forall k :: k in keys <==> exists i' :: 0 <= i' < i && GroupKey(names[i']) == Some(k)
    {
      var pos := Find(names[i], '_', 0);
      if pos == |names[i]| {
        continue;
      }
      var key := names[i][..pos];
      assert GroupKey(names[i]) == Some(key);
      if key !in keys {
        keys := keys + [key];
      }
    }
  }

  /** `s.find(key) != npos`: `key` occurs in `s` (the empty key occurs in every name). */
  function Contains(s: string, key: string): bool
    decreases |s|
  {
    key <= s || (s != [] && Contains(s[1..], key))
  }

  /** `key` occurs in `s` starting at position `i`. */
  predicate OccursAt(s: string, key: string, i: nat)
  {
    i + |key| <= |s| && s[i..i + |key|] == key
  }

  /** `Contains` is occurrence at some position, not only at the start. */
  lemma {:induction false} ContainsIff(s: string, key: string)
    ensures Contains(s, key) <==> exists i: nat :: OccursAt(s, key, i)
    decreases |s|
  {
    if key <= s {
      assert OccursAt(s, key, 0);
    } else if s != [] {
      ContainsIff(s[1..], key);
      if Contains(s[1..], key) {
        var i: nat :| OccursAt(s[1..], key, i);
        assert s[i + 1..i + 1 + |key|] == s[1..][i..i + |key|];
        assert OccursAt(s, key, i + 1);
      }
      if exists i: nat :: OccursAt(s, key, i) {
        var i: nat :| OccursAt(s, key, i);
        assert i != 0;
        assert s[1..][i - 1..i - 1 + |key|] == s[i..i + |key|];
        assert OccursAt(s[1..], key, i - 1);
      }
    }
  }

  /** The largest `scale[i]` over the columns `i < upTo` whose names contain `key`, starting from 0. */
  function GroupMax(scale: seq<real>, names: seq<string>, key: string, upTo: nat): real
    requires upTo <= |scale| && upTo <= |names|
  {
    if upTo == 0 then 0.0
    else
      var m := GroupMax(scale, names, key, upTo - 1);
      if Contains(names[upTo - 1], key) then Max(m, scale[upTo - 1]) else m
  }

  /**
   * The group maximum is non-negative, bounds every member's entry, and is
   * some member's entry unless it is 0.
   */
  lemma {:induction false} GroupMaxIsMax(scale: seq<real>, names: seq<string>, key: string, upTo: nat)
    requires upTo <= |scale| && upTo <= |names|
    ensures 0.0 <= GroupMax(scale, names, key, upTo)
    ensures forall i :: 0 <= i < upTo && Contains(names[i], key) ==> scale[i] <= GroupMax(scale, names, key, upTo)
    ensures GroupMax(scale, names, key, upTo) == 0.0 ||
      exists i :: 0 <= i < upTo && Contains(names[i], key) && GroupMax(scale, names, key, upTo) == scale[i]
  {
    if upTo > 0 {
      GroupMaxIsMax(scale, names, key, upTo - 1);
    }
  }

  /** Raising entries never lowers a group maximum. */
  lemma {:induction false} GroupMaxMono(s: seq<real>, s': seq<real>, names: seq<string>, key: string, upTo: nat)
    requires |s| == |s'| && upTo <= |s| && upTo <= |names|
    requires forall i :: 0 <= i < |s| ==> s[i] <= s'[i]
    ensures GroupMax(s, names, key, upTo) <= GroupMax(s', names, key, upTo)
  {
    if upTo > 0 {
      GroupMaxMono(s, s', names, key, upTo - 1);
    }
  }

  /** The scale after processing one vector name: every member column gets the group maximum. */
  function GroupStep(scale: seq<real>, names: seq<string>, key: string): (r: seq<real>)
    requires |scale| == |names|
    ensures |r| == |scale|
  {
    var m := GroupMax(scale, names, key, |names|);
    seq(|scale|, i requires 0 <= i < |scale| => if Contains(names[i], key) then m else scale[i])
  }

  /**
   * One group step only raises entries, leaves the columns outside the
   * group unchanged, and gives every member the same value.
   */
  lemma GroupStepRaises(scale: seq<real>, names: seq<string>, key: string)
    requires |scale| == |names|
    ensures forall i :: 0 <= i < |scale| ==> scale[i] <= GroupStep(scale, names, key)[i]
    ensures forall i :: 0 <= i < |scale| && !Contains(names[i], key) ==> GroupStep(scale, names, key)[i] == scale[i]
    ensures forall i, i' :: 0 <= i < |scale| && 0 <= i' < |scale| && Contains(names[i], key) && Contains(names[i'], key) ==>
      GroupStep(scale, names, key)[i] == GroupStep(scale, names, key)[i']
  {
    GroupMaxIsMax(scale, names, key, |names|);
  }

  /**
   * One iteration of the group pass: the first loop collects the member
   * columns and their maximum, the second writes that maximum into each.
   */
  method ApplyGroup(scale: array<real>, names: seq<string>, key: string)
    requires scale.Length == |names|
    modifies scale
    ensures scale[..] == GroupStep(old(scale[..]), names, key)
  {
    var maxAbs := 0.0;
    var compIds: seq<nat> := [];
    for i := 0 to |names|
      invariant maxAbs == GroupMax(scale[..], names, key, i)
      invariant forall c: nat :: c in compIds <==> c < i && Contains(names[c], key)
    {
      if !Contains(names[i], key) {
        continue;
      }
      maxAbs := Max(maxAbs, scale[i]);
      compIds := compIds + [i];
    }
    ghost var before := scale[..];
    for k := 0 to |compIds|
      invariant forall i :: 0 <= i < scale.Length ==> scale[i] == if i in compIds[..k] then maxAbs else before[i]
    {
      assert compIds[..k + 1] == compIds[..k] + [compIds[k]];
      assert compIds[k] in compIds;
      scale[compIds[k]] := maxAbs;
    }
    assert compIds[..|compIds|] == compIds;
  }

  /** The scale after processing the vector names `keys` in order. */
  function Widen(scale: seq<real>, names: seq<string>, keys: seq<string>): (r: seq<real>)
    requires |scale| == |names|
    ensures |r| == |scale|
    decreases |keys|
  {
    if keys == [] then scale else Widen(GroupStep(scale, names, keys[0]), names, keys[1..])
  }

  /** The group pass: one `ApplyGroup` per vector name. */
  method WidenGroups(scale: array<real>, names: seq<string>, keys: seq<string>)
    requires scale.Length == |names|
    modifies scale
    ensures scale[..] == Widen(old(scale[..]), names, keys)
  {
    for k := 0 to |keys|
      invariant Widen(old(scale[..]), names, keys) == Widen(scale[..], names, keys[k..])
    {
      assert keys[k..][1..] == keys[k + 1..];
      ApplyGroup(scale, names, keys[k]);
    }
  }

  /** Whatever the order of the vector names, the group pass never lowers an entry. */
  lemma {:induction false} WidenRaises(scale: seq<real>, names: seq<string>, keys: seq<string>)
    requires |scale| == |names|
    ensures forall i :: 0 <= i < |scale| ==> scale[i] <= Widen(scale, names, keys)[i]
    decreases |keys|
  {
    if keys != [] {
      GroupStepRaises(scale, names, keys[0]);
      WidenRaises(GroupStep(scale, names, keys[0]), names, keys[1..]);
    }
  }

  /** A column whose name contains none of the vector names keeps its own maximum. */
  lemma {:induction false} WidenUntouched(scale: seq<real>, names: seq<string>, keys: seq<string>, i: nat)
    requires |scale| == |names| && i < |scale|
    requires forall k :: k in keys ==> !Contains(names[i], k)
    ensures Widen(scale, names, keys)[i] == scale[i]
    decreases |keys|
  {
    if keys != [] {
      GroupStepRaises(scale, names, keys[0]);
      WidenUntouched(GroupStep(scale, names, keys[0]), names, keys[1..], i);
    }
  }

  /**
   * Whatever the order of the vector names, every column ends up at least
   * as large as the maximum of each group it belongs to.
   */
  lemma {:induction false} WidenCovers(scale: seq<real>, names: seq<string>, keys: seq<string>, key: string, i: nat)
    requires |scale| == |names| && i < |scale|
    requires key in keys && Contains(names[i], key)
    ensures GroupMax(scale, names, key, |names|) <= Widen(scale, names, keys)[i]
    decreases |keys|
  {
    var next := GroupStep(scale, names, keys[0]);
    GroupStepRaises(scale, names, keys[0]);
    if keys[0] == key {
      WidenRaises(next, names, keys[1..]);
    } else {
      WidenCovers(next, names, keys[1..], key, i);
      GroupMaxMono(scale, next, names, key, |names|);
    }
  }

  // ---------------------------------------------------------------------
  // Cell comparison
  // ---------------------------------------------------------------------

  function AbsErr(v1: real, v2: real): real
  {
    Abs(v1 - v2)
  }

  /** The error relative to the column scale, 0 for a column whose scale is 0. */
  function RelErr(absErr: real, scale: real): real
  {
    if scale == 0.0 then 0.0 else absErr / scale
  }

  /** A cell is accepted when either error is within its tolerance. */
  predicate CellPasses(v1: real, v2: real, scale: real, absTol: real, relTol: real)
  {
    AbsErr(v1, v2) <= absTol || RelErr(AbsErr(v1, v2), scale) <= relTol
  }

  predicate SameShape(a: Table, b: Table)
  {
    a.nColumns == b.nColumns && a.nRows == b.nRows
  }

  /** Two tables of one shape, a scale and tolerances for every column. */
  predicate Comparable(a: Table, b: Table, scale: seq<real>, absTol: seq<real>, relTol: seq<real>)
  {
    a.Valid() && b.Valid() && SameShape(a, b) &&
    |scale| == a.nColumns && |absTol| >= a.nColumns && |relTol| >= a.nColumns
  }

  predicate CellOk(a: Table, b: Table, scale: seq<real>, absTol: seq<real>, relTol: seq<real>, i: nat, j: nat)
    requires Comparable(a, b, scale, absTol, relTol) && i < a.nRows && j < a.nColumns
  {
    CellPasses(a.Cell(i, j), b.Cell(i, j), scale[j], absTol[j], relTol[j])
  }

  /** Row `i` has a rejected cell. */
  predicate RowDiffers(a: Table, b: Table, scale: seq<real>, absTol: seq<real>, relTol: seq<real>, i: nat)
    requires Comparable(a, b, scale, absTol, relTol) && i < a.nRows
  {
    exists j :: 0 <= j < a.nColumns && !CellOk(a, b, scale, absTol, relTol, i, j)
  }

  /** `n_diff_lines` over the first `rows` rows: the rows with a rejected cell. */
  function DiffRowCount(a: Table, b: Table, scale: seq<real>, absTol: seq<real>, relTol: seq<real>, rows: nat): (n: nat)
    requires Comparable(a, b, scale, absTol, relTol) && rows <= a.nRows
    ensures n <= rows
  {
    if rows == 0 then 0
    else DiffRowCount(a, b, scale, absTol, relTol, rows - 1) + if RowDiffers(a, b, scale, absTol, relTol, rows - 1) then 1 else 0
  }

  /** No row differs exactly when every cell is accepted. */
  lemma {:induction false} DiffRowCountZero(a: Table, b: Table, scale: seq<real>, absTol: seq<real>, relTol: seq<real>, rows: nat)
    requires Comparable(a, b, scale, absTol, relTol) && rows <= a.nRows
    ensures DiffRowCount(a, b, scale, absTol, relTol, rows) == 0 <==>
      forall i, j :: 0 <= i < rows && 0 <= j < a.nColumns ==> CellOk(a, b, scale, absTol, relTol, i, j)
  {
    if rows > 0 {
      DiffRowCountZero(a, b, scale, absTol, relTol, rows - 1);
    }
  }

  /**
   * A table compared with itself differs nowhere exactly when it has no
   * rows or every column accepts a zero error through one of its
   * tolerances, whatever the scale.
   */
  lemma SelfCompare(a: Table, scale: seq<real>, absTol: seq<real>, relTol: seq<real>)
    requires Comparable(a, a, scale, absTol, relTol)
    ensures DiffRowCount(a, a, scale, absTol, relTol, a.nRows) == 0 <==>
      a.nRows == 0 || forall j :: 0 <= j < a.nColumns ==> 0.0 <= absTol[j] || 0.0 <= relTol[j]
  {
    DiffRowCountZero(a, a, scale, absTol, relTol, a.nRows);
    if a.nRows > 0 && !(forall j :: 0 <= j < a.nColumns ==> 0.0 <= absTol[j] || 0.0 <= relTol[j]) {
      var j :| 0 <= j < a.nColumns && absTol[j] < 0.0 && relTol[j] < 0.0;
      assert !CellOk(a, a, scale, absTol, relTol, 0, j);
    }
  }

  // ---------------------------------------------------------------------
  // Running error maxima
  // ---------------------------------------------------------------------

  /** `col_max_abs_err[j]` after `rows` rows. */
  function AbsErrMax(a: Table, b: Table, j: nat, rows: nat): real
    requires a.Valid() && b.Valid() && SameShape(a, b) && j < a.nColumns && rows <= a.nRows
  {
    if rows == 0 then 0.0 else Max(AbsErrMax(a, b, j, rows - 1), AbsErr(a.Cell(rows - 1, j), b.Cell(rows - 1, j)))
  }

  /** `col_max_rel_err[j]` after `rows` rows. */
  function RelErrMax(a: Table, b: Table, scale: seq<real>, j: nat, rows: nat): real
    requires a.Valid() && b.Valid() && SameShape(a, b) && |scale| == a.nColumns && j < a.nColumns && rows <= a.nRows
  {
    if rows == 0 then 0.0
    else Max(RelErrMax(a, b, scale, j, rows - 1), RelErr(AbsErr(a.Cell(rows - 1, j), b.Cell(rows - 1, j)), scale[j]))
  }

  /** Each running maximum bounds the errors of every row it has seen. */
  lemma {:induction false} ErrMaxBounds(a: Table, b: Table, scale: seq<real>, j: nat, rows: nat)
    requires a.Valid() && b.Valid() && SameShape(a, b) && |scale| == a.nColumns && j < a.nColumns && rows <= a.nRows
    ensures forall i :: 0 <= i < rows ==> AbsErr(a.Cell(i, j), b.Cell(i, j)) <= AbsErrMax(a, b, j, rows)
    ensures forall i :: 0 <= i < rows ==> RelErr(AbsErr(a.Cell(i, j), b.Cell(i, j)), scale[j]) <= RelErrMax(a, b, scale, j, rows)
  {
    if rows > 0 {
      ErrMaxBounds(a, b, scale, j, rows - 1);
    }
  }

  /**
   * The summary lists a column when both its largest absolute and its
   * largest relative error exceed the tolerances; every column holding a
   * rejected cell is listed.
   */
  lemma RejectedCellListed(a: Table, b: Table, scale: seq<real>, absTol: seq<real>, relTol: seq<real>, i: nat, j: nat)
    requires Comparable(a, b, scale, absTol, relTol) && i < a.nRows && j < a.nColumns
    requires !CellOk(a, b, scale, absTol, relTol, i, j)
    ensures !(AbsErrMax(a, b, j, a.nRows) <= absTol[j] || RelErrMax(a, b, scale, j, a.nRows) <= relTol[j])
  {
    ErrMaxBounds(a, b, scale, j, a.nRows);
  }

  /**
   * One row of the comparison loop: updates the running error maxima of
   * every column and reports whether some cell is rejected.
   */
  method CompareRow(a: Table, b: Table, scale: seq<real>, absTol: seq<real>, relTol: seq<real>, i: nat,
                    colMaxAbsErr: array<real>, colMaxRelErr: array<real>) returns (isLineDiff: bool)
    requires Comparable(a, b, scale, absTol, relTol) && i < a.nRows
    requires colMaxAbsErr != colMaxRelErr && colMaxAbsErr.Length == a.nColumns && colMaxRelErr.Length == a.nColumns
    requires forall j :: 0 <= j < a.nColumns ==> colMaxAbsErr[j] == AbsErrMax(a, b, j, i)
    requires forall j :: 0 <= j < a.nColumns ==> colMaxRelErr[j] == RelErrMax(a, b, scale, j, i)
    modifies colMaxAbsErr, colMaxRelErr
    ensures isLineDiff <==> RowDiffers(a, b, scale, absTol, relTol, i)
    ensures forall j :: 0 <= j < a.nColumns ==> colMaxAbsErr[j] == AbsErrMax(a, b, j, i + 1)
    ensures forall j :: 0 <= j < a.nColumns ==> colMaxRelErr[j] == RelErrMax(a, b, scale, j, i + 1)
  {
    isLineDiff := false;
    for j := 0 to a.nColumns
      invariant isLineDiff <==> exists j' :: 0 <= j' < j && !CellOk(a, b, scale, absTol, relTol, i, j')
      invariant forall j' :: 0 <= j' < j ==> colMaxAbsErr[j'] == AbsErrMax(a, b, j', i + 1)
      invariant forall j' :: j <= j' < a.nColumns ==> colMaxAbsErr[j'] == AbsErrMax(a, b, j', i)
      invariant forall j' :: 0 <= j' < j ==> colMaxRelErr[j'] == RelErrMax(a, b, scale, j', i + 1)
      invariant forall j' :: j <= j' < a.nColumns ==> colMaxRelErr[j'] == RelErrMax(a, b, scale, j', i)
    {
      var v1 := a.Cell(i, j);
      var v2 := b.Cell(i, j);
      var absErr := Abs(v1 - v2);
      var relErr := if scale[j] == 0.0 then 0.0 else absErr / scale[j];
      colMaxAbsErr[j] := Max(colMaxAbsErr[j], absErr);
      colMaxRelErr[j] := Max(colMaxRelErr[j], relErr);
      assert CellOk(a, b, scale, absTol, relTol, i, j) <==> absErr <= absTol[j] || relErr <= relTol[j];
      if absErr <= absTol[j] || relErr <= relTol[j] {
        continue;
      }
      isLineDiff := true;
    }
  }

  /**
   * The comparison loop: row by row, counts the rows with a rejected cell
   * and keeps each column's largest absolute and relative error.
   */
  method CompareRows(a: Table, b: Table, scale: seq<real>, absTol: seq<real>, relTol: seq<real>)
    returns (nDiffLines: nat, colMaxAbsErr: array<real>, colMaxRelErr: array<real>)
    requires Comparable(a, b, scale, absTol, relTol)
    ensures fresh(colMaxAbsErr) && fresh(colMaxRelErr)
    ensures nDiffLines == DiffRowCount(a, b, scale, absTol, relTol, a.nRows)
    ensures colMaxAbsErr.Length == a.nColumns && colMaxRelErr.Length == a.nColumns
    ensures forall j :: 0 <= j < a.nColumns ==> colMaxAbsErr[j] == AbsErrMax(a, b, j, a.nRows)
    ensures forall j :: 0 <= j < a.nColumns ==> colMaxRelErr[j] == RelErrMax(a, b, scale, j, a.nRows)
  {
    nDiffLines := 0;
    colMaxAbsErr := new real[a.nColumns](_ => 0.0);
    colMaxRelErr := new real[a.nColumns](_ => 0.0);
    for i := 0 to a.nRows
      invariant nDiffLines == DiffRowCount(a, b, scale, absTol, relTol, i)
      invariant forall j :: 0 <= j < a.nColumns ==> colMaxAbsErr[j] == AbsErrMax(a, b, j, i)
      invariant forall j :: 0 <= j < a.nColumns ==> colMaxRelErr[j] == RelErrMax(a, b, scale, j, i)
    {
      var isLineDiff := CompareRow(a, b, scale, absTol, relTol, i, colMaxAbsErr, colMaxRelErr);
      if isLineDiff {
        nDiffLines := nDiffLines + 1;
      }
    }
  }

  // ---------------------------------------------------------------------
  // diffCSV
  // ---------------------------------------------------------------------

  /** The column scale `diffCSV` compares with when it processes the vector names in the order `keys`. */
  function Scale(a: Table, keys: seq<string>): (r: seq<real>)
    requires a.Valid()
    ensures |r| == a.nColumns
  {
    Widen(ColumnMaxes(a), a.columnNames, keys)
  }

  /**
   * `diffCSV`: false when the shapes differ; otherwise counts the rows with
   * a cell rejected under the widened column scale (for the order in which
   * the vector names were processed) and is true exactly when there are none.
   */
  method DiffCSV(a: Table, b: Table, absTol: seq<real>, relTol: seq<real>) returns (same: bool, nDiffLines: nat)
    requires a.Valid() && b.Valid()
    requires SameShape(a, b) ==> |absTol| >= a.nColumns && |relTol| >= a.nColumns
    ensures !SameShape(a, b) ==> !same && nDiffLines == 0
    ensures SameShape(a, b) ==>
      exists keys :: KeyOrder(keys, a.columnNames) &&
        Comparable(a, b, Scale(a, keys), absTol, relTol) &&
        nDiffLines == DiffRowCount(a, b, Scale(a, keys), absTol, relTol, a.nRows)
    ensures same <==> SameShape(a, b) && nDiffLines == 0
  {
    if a.nColumns != b.nColumns {
      return false, 0;
    }
    if a.nRows != b.nRows {
      return false, 0;
    }
    var scale := ColumnMaxAbs(a);
    var keys := VectorNames(a.columnNames);
    WidenGroups(scale, a.columnNames, keys);
    var colMaxAbsErr, colMaxRelErr;
    nDiffLines, colMaxAbsErr, colMaxRelErr := CompareRows(a, b, scale[..], absTol, relTol);
    assert KeyOrder(keys, a.columnNames) && scale[..] == Scale(a, keys);
    same := nDiffLines == 0;
  }

  // ---------------------------------------------------------------------
  // Examples
  // ---------------------------------------------------------------------

  /** The components `V_x`, `V_y`, `V_z` of the vector `V` all take the largest of their maxima. */
  lemma VectorExample()
    ensures Widen([1.0, 10.0, 3.0], ["V_x", "V_y", "V_z"], ["V"]) == [10.0, 10.0, 10.0]
  {
    var names := ["V_x", "V_y", "V_z"];
    assert Contains("V_x", "V") && Contains("V_y", "V") && Contains("V_z", "V");
    assert GroupMax([1.0, 10.0, 3.0], names, "V", 3) == 10.0;
    assert ["V"][1..] == [];
  }

  /**
   * Group membership is containment, not a prefix: with the vector name `V`
   * (from `V_x`), the column `AV` joins its group too.
   */
  lemma ContainmentExample()
    ensures GroupKey("V_x") == Some("V") && GroupKey("AV") == None
    ensures Widen([1.0, 5.0], ["V_x", "AV"], ["V"]) == [5.0, 5.0]
  {
    var names := ["V_x", "AV"];
    assert "V_x"[0..1] == "V" && "AV"[0..2] == "AV";
    FindFromLeast("V_x", '_', 0, 1);
    FindFromLeast("AV", '_', 0, 2);
    assert Contains("V_x", "V");
    assert !("V" <= "AV") && "AV"[1..] == "V";
    assert Contains("AV", "V");
    assert GroupMax([1.0, 5.0], names, "V", 2) == 5.0;
    assert ["V"][1..] == [];
  }

  /**
   * The tolerances combine with "or": comparing 4.0 with 4.000001 in a
   * column of scale 4.0 fails the absolute tolerance 1e-10 but passes the
   * relative tolerance 1e-5 (2.5e-7), so the cell is accepted.
   */
  lemma ToleranceExample()
    ensures !(AbsErr(4.0, 4.000001) <= 0.0000000001)
    ensures RelErr(AbsErr(4.0, 4.000001), 4.0) == 0.00000025
    ensures CellPasses(4.0, 4.000001, 4.0, 0.0000000001, 0.00001)
  {
    assert AbsErr(4.0, 4.000001) == 0.000001;
  }
}
