/**
 * The tabular data the analysed program passes around: a date-indexed table of
 * named columns whose cells may be missing (NaN). `Table` is the value view;
 * `Frame` is the mutable object whose columns the program assigns in place.
 */
module Frames {
  import opened Options
  import opened Calendar

  type Column = seq<Option<real>>

  predicate Distinct(names: seq<string>) {
    forall i, j :: 0 <= i < j < |names| ==> names[i] != names[j]
  }

  datatype Table = Table(index: seq<CalendarDate>, columns: seq<string>, cells: map<string, Column>) {

    /** Column names are unique, each names a stored column, and every column has one cell per row. */
    predicate WellFormed() {
      && Distinct(columns)
      && (forall c :: c in columns ==> c in cells)
      && (forall c :: c in cells ==> c in columns)
      && (forall c :: c in cells ==> |cells[c]| == |index|)
    }

    /** A table is empty when it has no rows or no columns. */
    predicate IsEmpty() {
      |index| == 0 || |columns| == 0
    }

    /**
     * Assigning a whole column by name: an existing column is replaced where
     * it stands, a new one is appended after the others.
     */
    function WithColumn(name: string, values: Column): (t: Table)
      requires WellFormed() && |values| == |index|
      ensures t.WellFormed() && t.index == index
      ensures name in t.cells && t.cells[name] == values
      ensures forall c :: c in cells && c != name ==> c in t.cells && t.cells[c] == cells[c]
      ensures forall c :: c in t.cells ==> c in cells || c == name
      ensures name in cells ==> t.columns == columns
      ensures name !in cells ==> t.columns == columns + [name]
      ensures columns <= t.columns
    {
      Table(index, if name in cells then columns else columns + [name], cells[name := values])
    }
  }

  type WellFormedTable = t: Table | t.WellFormed() witness Table([], [], map[])

  const EmptyTable: WellFormedTable := Table([], [], map[])

  /** Missing cells replaced by `v`; present cells kept. */
  function FillMissing(col: Column, v: real): (r: Column)
    ensures |r| == |col|
    ensures forall i :: 0 <= i < |r| ==> r[i].Some?
    ensures forall i :: 0 <= i < |r| ==> (col[i].Some? ==> r[i] == col[i]) && (col[i].None? ==> r[i] == Some(v))
  {
    seq(|col|, i requires 0 <= i < |col| => Some(col[i].GetOr(v)))
  }

  /** A column holding `v` in each of `n` rows. */
  function Constant(n: nat, v: real): (r: Column)
    ensures |r| == n && forall i :: 0 <= i < n ==> r[i] == Some(v)
  {
    seq(n, _ => Some(v))
  }

  /** The present values of a column, in row order. */
  function DropMissing(col: Column): (r: seq<real>)
    ensures |r| <= |col|
    decreases |col|
  {
    if col == [] then []
    else
      var rest := DropMissing(col[..|col| - 1]);
      assert col == col[..|col| - 1] + [col[|col| - 1]];
      match col[|col| - 1]
      case Some(v) => rest + [v]
      case None => rest
  }

  lemma {:induction false} DropMissingAppend(a: Column, b: Column)
    ensures DropMissing(a + b) == DropMissing(a) + DropMissing(b)
    decreases |b|
  {
    if b == [] {
      assert a + b == a;
    } else {
      var b' := b[..|b| - 1];
      assert (a + b)[..|a + b| - 1] == a + b';
      DropMissingAppend(a, b');
    }
  }

  /** A column with every cell present loses nothing. */
  lemma {:induction false} DropMissingAllPresent(col: Column)
    requires forall i :: 0 <= i < |col| ==> col[i].Some?
    ensures DropMissing(col) == seq(|col|, i requires 0 <= i < |col| => col[i].value)
    decreases |col|
  {
    if col != [] {
      var n := |col|;
      var init := col[..n - 1];
      DropMissingAllPresent(init);
      var values := seq(n, i requires 0 <= i < n => col[i].value);
      var initValues := seq(n - 1, i requires 0 <= i < n - 1 => init[i].value);
      assert DropMissing(col) == DropMissing(init) + [col[n - 1].value];
      assert values == initValues + [col[n - 1].value];
    }
  }

  class Frame {
    var index: seq<CalendarDate>
    var columns: seq<string>
    var cells: map<string, Column>

    function AsTable(): Table
      reads this
    {
      Table(index, columns, cells)
    }

    ghost predicate Valid()
      reads this
    {
      AsTable().WellFormed()
    }

    constructor FromTable(t: Table)
      requires t.WellFormed()
      ensures Valid() && AsTable() == t
    {
      index, columns, cells := t.index, t.columns, t.cells;
    }

    /** `frame[name] = values`, in place. */
    method SetColumn(name: string, values: Column)
      requires Valid() && |values| == |index|
      modifies this
      ensures Valid() && AsTable() == old(AsTable()).WithColumn(name, values)
    {
      if name !in cells {
        columns := columns + [name];
      }
      cells := cells[name := values];
    }
  }
}
