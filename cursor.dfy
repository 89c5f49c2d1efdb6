// PHPG_Cursor: the state PHPG keeps per cursor (the driver's result, the
// position of the next row, the memoised counts, the field catalog) and the
// methods that move it along: execute, iter, fetchall, rows_returned,
// rows_affected, last_query and free.

module Cursors {
  import opened Php
  import opened Dispatch

  /**
   * What the driver holds for one executed query: the result's columns, its
   * rows as pg_fetch_assoc hands them out (column name to cell, null where
   * the driver reports null) and the number of rows the statement changed.
   */
  datatype DriverResult = DriverResult(columns: seq<Column>, rows: seq<Assoc<Option<string>>>, affected: nat)

  /** Every row has an entry for each column name and no other. */
  predicate WellFormed(r: DriverResult)
  {
    forall k :: 0 <= k < |r.rows| ==> Keys(r.rows[k]) == Names(r.columns)
  }

  /** pg_fetch_assoc: the row as an array from column name to cell; a later column of the same name wins. */
  function FetchAssoc(cols: seq<Column>, cells: seq<Option<string>>): Assoc<Option<string>>
    requires |cells| == |cols|
  {
    if cols == [] then []
    else
      var n := |cols| - 1;
      Put(FetchAssoc(cols[..n], cells[..n]), cols[n].name, cells[n])
  }

  /** The fetched array has an entry for every column name and no other. */
  lemma {:induction false} FetchAssocKeys(cols: seq<Column>, cells: seq<Option<string>>)
    requires |cells| == |cols|
    ensures Keys(FetchAssoc(cols, cells)) == Names(cols)
    ensures cols != [] ==> FetchAssoc(cols, cells) != []
    decreases |cols|
  {
    if cols != [] {
      var n := |cols| - 1;
      FetchAssocKeys(cols[..n], cells[..n]);
      NamesOfLast(cols);
      assert cols[n].name in Keys(FetchAssoc(cols, cells));
    }
  }

  /**
   * What iter does to a cell that is not null: _array_from_pg when its
   * descriptor says array, then _transform_data by its type. DecodeCell is
   * that decoding; the cursor takes it as a parameter.
   */
  type CellDecoder = (string, Option<Descriptor>) -> Value

  /** The decoded row: a null cell stays null, any other goes through `convert`, under the same column name. */
  function DecodedRow(a: Assoc<Option<string>>, fields: Assoc<Descriptor>,
                      convert: CellDecoder): Assoc<Value>
  {
    seq(|a|, i requires 0 <= i < |a| => (a[i].0, if a[i].1.None? then Null else convert(a[i].1.value, Get(fields, a[i].0))))
  }

  /** Row `k` of a result as iter returns it. */
  function RowValue(r: DriverResult, k: nat,
                    convert: CellDecoder): Assoc<Value>
    requires WellFormed(r) && k < |r.rows|
  {
    DecodedRow(r.rows[k], Catalog(r.columns), convert)
  }

  /** Rows `lo` up to `hi` of a result, in order, as successive iter calls return them. */
  function Rows(r: DriverResult, lo: nat, hi: nat, convert: CellDecoder): (rows: seq<Assoc<Value>>)
    requires WellFormed(r) && lo <= hi <= |r.rows|
    ensures |rows| == hi - lo
    decreases hi
  {
    if hi == lo then [] else Rows(r, lo, hi - 1, convert) + [RowValue(r, hi - 1, convert)]
  }

  /** Entry `k` of Rows is row `lo + k`. */
  lemma {:induction false} RowsAt(r: DriverResult, lo: nat, hi: nat, k: nat, convert: CellDecoder)
    requires WellFormed(r) && lo <= hi <= |r.rows| && k < hi - lo
    ensures Rows(r, lo, hi, convert)[k] == RowValue(r, lo + k, convert)
    decreases hi
  {
    if lo + k + 1 < hi {
      RowsAt(r, lo, hi - 1, k, convert);
    }
  }

  /**
   * The loop in iter that builds the field catalog: for each column, in
   * order, the name is entered with its array flag and its type tag.
   */
  method BuildFields(cols: seq<Column>) returns (fields: Assoc<Descriptor>)
    ensures fields == Catalog(cols)
    ensures Keys(fields) == Names(cols)
  {
    fields := [];
    for curr := 0 to |cols|
      invariant fields == Catalog(cols[..curr])
    {
      var name := cols[curr].name;
      var tag := cols[curr].tag;
      var d: Descriptor;
      if |tag| >= 1 && tag[0] == '_' {
        d := Descriptor(true, tag[1..]);
      } else {
        d := Descriptor(false, tag);
      }
      assert d == Describe(tag);
      CatalogStep(cols, curr);
      fields := Put(fields, name, d);
    }
    assert cols[..|cols|] == cols;
    CatalogKeys(cols);
  }

  /** One more column enters the catalog with one more Put. */
  lemma CatalogStep(cols: seq<Column>, curr: nat)
    requires curr < |cols|
    ensures Catalog(cols[..curr + 1]) == Put(Catalog(cols[..curr]), cols[curr].name, Describe(cols[curr].tag))
  {
    var p := cols[..curr + 1];
    assert p[..|p| - 1] == cols[..curr];
    assert p[|p| - 1] == cols[curr];
  }

  /**
   * The loop in iter over the fetched array: a null cell stays null and is
   * not transformed; any other cell is expanded if its column is an array
   * and then transformed by its type.
   */
  method DecodeRow(a: Assoc<Option<string>>, fields: Assoc<Descriptor>,
                   convert: CellDecoder) returns (result: Assoc<Value>)
    ensures result == DecodedRow(a, fields, convert)
    ensures |result| == |a|
    ensures forall i :: 0 <= i < |a| ==> result[i].0 == a[i].0 && (a[i].1 == None ==> result[i].1 == Null)
  {
    var decoded: seq<(string, Value)> := [];
    for i := 0 to |a|
      invariant |decoded| == i
      invariant forall j :: 0 <= j < i ==> decoded[j] == DecodedRow(a, fields, convert)[j]
    {
      var column := a[i].0;
      var cell := a[i].1;
      if cell.None? {
        decoded := decoded + [(column, Null)];
        continue;
      }
      var v := convert(cell.value, Get(fields, column));
      decoded := decoded + [(column, v)];
    }
    result := decoded;
  }

  /**
   * With `convert` standing for DecodeCell, every cell of a decoded row is
   * DecodeCell's value for it: null exactly for a null cell.
   */
  lemma DecodedRowCells(a: Assoc<Option<string>>, fields: Assoc<Descriptor>, convert: CellDecoder,
                        unnest: (string, string) -> seq<Option<string>>,
                        each: string -> Assoc<Option<string>>)
    requires forall s, d :: convert(s, d) == DecodeCell(Some(s), d, unnest, each)
    ensures forall i :: 0 <= i < |a| ==>
              DecodedRow(a, fields, convert)[i].1 == DecodeCell(a[i].1, Get(fields, a[i].0), unnest, each)
    ensures forall i :: 0 <= i < |a| ==> (DecodedRow(a, fields, convert)[i].1 == Null <==> a[i].1 == None)
  {
  }

  /**
   * fetchall stops at the first row iter does not give (or gives empty):
   * with columns that is past the end, with none it is the very first one.
   */
  lemma FetchEnd(r: DriverResult, start: nat, data: seq<Assoc<Value>>, row: Option<Assoc<Value>>,
                 current: Option<nat>, convert: CellDecoder)
    requires WellFormed(r) && start + |data| <= |r.rows| && data == Rows(r, start, start + |data|, convert)
    requires r.columns == [] ==> data == []
    requires start + |data| >= |r.rows| ==> row.None? && current.None?
    requires start + |data| < |r.rows| ==>
               row == Some(RowValue(r, start + |data|, convert)) && current == Some(start + |data| + 1)
    requires row.None? || |row.value| == 0
    ensures r.columns != [] ==> data == Rows(r, start, |r.rows|, convert) && current.None?
    ensures r.columns == [] ==> data == []
    ensures r.columns == [] && start < |r.rows| ==> current == Some(start + 1)
    ensures start >= |r.rows| ==> current.None?
  {
    var at := start + |data|;
    if at < |r.rows| {
      RowEmpty(r, at, convert);
    }
    if r.columns != [] {
      assert at == |r.rows|;
    }
  }

  /** A non-empty row from iter extends the rows fetched so far by the next one. */
  lemma FetchMore(r: DriverResult, start: nat, data: seq<Assoc<Value>>, row: Assoc<Value>, convert: CellDecoder)
    requires WellFormed(r) && start + |data| < |r.rows| && data == Rows(r, start, start + |data|, convert)
    requires row == RowValue(r, start + |data|, convert) && |row| > 0
    ensures data + [row] == Rows(r, start, start + |data| + 1, convert)
    ensures r.columns != []
  {
    RowEmpty(r, start + |data|, convert);
  }

  /** The cursor's entry in PHPG's connection table. */
  class Cursor {
    /** The driver's result; none before the first execute and after free. */
    var resource: Option<DriverResult>
    /** `current`: the index of the next row, or none (PHP False) before the first fetch and after the last. */
    var current: Option<nat>
    /** `rows-returned`, memoised. */
    var rowsReturned: Option<nat>
    /** `rows-affected`, memoised. */
    var rowsAffected: Option<nat>
    /** `last-query`: null until a query runs, and again once the entry is freed. */
    var lastQuery: Option<string>
    /** `fields`: the catalog built on the first fetch. */
    var fields: Assoc<Descriptor>
    /** The driver's own row pointer, moved by pg_result_seek and pg_fetch_assoc. */
    var position: nat
    /** How often pg_num_rows and pg_affected_rows were asked. */
    ghost var rowCountQueries: nat
    ghost var affectedQueries: nat

    /** The facts every method keeps. */
    ghost predicate Valid()
      reads this
    {
      resource.Some? ==>
        WellFormed(resource.value) &&
        (rowsReturned.Some? ==> rowsReturned.value == |resource.value.rows|) &&
        (rowsAffected.Some? ==> rowsAffected.value == resource.value.affected) &&
        (current.Some? ==>
          current.value <= |resource.value.rows| && position == current.value &&
          fields == Catalog(resource.value.columns))
    }

    /** The row index the next iter starts from: 0 once the cursor was reset. */
    function Start(): nat
      reads this
    {
      if current.None? then 0 else current.value
    }

    /** cursor(): the new entry has a null resource, no position, no counts and no query. */
    constructor ()
      ensures Valid() && resource.None? && current.None?
      ensures rowsReturned.None? && rowsAffected.None? && lastQuery.None?
    {
      resource := None;
      current := None;
      rowsReturned := None;
      rowsAffected := None;
      lastQuery := None;
      fields := [];
      position := 0;
      rowCountQueries := 0;
      affectedQueries := 0;
    }

    /**
     * execute: `outcome` is what the driver made of the query (none when it
     * failed, which throws). On success the cursor starts over with the new
     * result, no counts and the query remembered.
     */
    method Execute(query: string, outcome: Option<DriverResult>) returns (ok: bool)
      requires Valid()
      requires outcome.Some? ==> WellFormed(outcome.value)
      modifies this
      ensures Valid()
      ensures ok <==> outcome.Some?
      ensures !ok ==> unchanged(this)
      ensures ok ==> resource == outcome && current.None? && rowsReturned.None? && rowsAffected.None? && lastQuery == Some(query)
      ensures rowCountQueries == old(rowCountQueries) && affectedQueries == old(affectedQueries)
    {
      if outcome.None? {
        return false;
      }
      resource := outcome;
      current := None;
      rowsReturned := None;
      rowsAffected := None;
      lastQuery := Some(query);
      return true;
    }

    /** rows_returned: pg_num_rows is asked only while no count is stored. */
    method RowsReturned() returns (n: nat)
      requires Valid() && resource.Some?
      modifies this
      ensures Valid()
      ensures resource == old(resource) && current == old(current) && rowsAffected == old(rowsAffected)
      ensures n == |resource.value.rows| && rowsReturned == Some(n)
      ensures old(rowsReturned).Some? ==> n == old(rowsReturned).value
      ensures rowCountQueries == old(rowCountQueries) + (if old(rowsReturned).None? then 1 else 0)
      ensures fields == old(fields) && position == old(position) && lastQuery == old(lastQuery)
      ensures affectedQueries == old(affectedQueries)
    {
      if rowsReturned.None? {
        rowsReturned := Some(|resource.value.rows|);
        rowCountQueries := rowCountQueries + 1;
      }
      n := rowsReturned.value;
    }

    /** rows_affected: pg_affected_rows is asked only while no count is stored. */
    method RowsAffected() returns (n: nat)
      requires Valid() && resource.Some?
      modifies this
      ensures Valid()
      ensures resource == old(resource) && current == old(current) && rowsReturned == old(rowsReturned)
      ensures n == resource.value.affected && rowsAffected == Some(n)
      ensures old(rowsAffected).Some? ==> n == old(rowsAffected).value
      ensures affectedQueries == old(affectedQueries) + (if old(rowsAffected).None? then 1 else 0)
      ensures fields == old(fields) && position == old(position) && lastQuery == old(lastQuery)
      ensures rowCountQueries == old(rowCountQueries)
    {
      if rowsAffected.None? {
        rowsAffected := Some(resource.value.affected);
        affectedQueries := affectedQueries + 1;
      }
      n := rowsAffected.value;
    }

    /**
     * last_query: the query of the last successful execute, or null on a
     * cursor that never ran one or whose entry was freed.
     */
    method LastQuery() returns (q: Option<string>)
      ensures q == lastQuery
    {
      q := lastQuery;
    }

    /** The start of iter: a reset cursor starts again at row 0 with a fresh field catalog. */
    method Rewind()
      requires Valid() && resource.Some?
      modifies this
      ensures Valid() && current == Some(old(Start()))
      ensures resource == old(resource) && lastQuery == old(lastQuery)
      ensures rowsReturned == old(rowsReturned) && rowsAffected == old(rowsAffected)
      ensures rowCountQueries == old(rowCountQueries) && affectedQueries == old(affectedQueries)
    {
      if current.None? {
        fields := BuildFields(resource.value.columns);
        position := 0;
        current := Some(0);
      }
    }

    /** One pg_fetch_assoc in iter: the row at the cursor, decoded, and the cursor one row on. */
    method ReadRow(convert: CellDecoder) returns (decoded: Assoc<Value>)
      requires Valid() && resource.Some? && current.Some? && current.value < |resource.value.rows|
      modifies this
      ensures Valid()
      ensures resource == old(resource) && lastQuery == old(lastQuery)
      ensures decoded == RowValue(resource.value, old(current.value), convert)
      ensures current == Some(old(current.value) + 1)
      ensures rowsReturned == old(rowsReturned) && rowsAffected == old(rowsAffected)
      ensures rowCountQueries == old(rowCountQueries) && affectedQueries == old(affectedQueries)
    {
      var a := resource.value.rows[position];
      position := position + 1;
      decoded := DecodeRow(a, fields, convert);
      current := Some(current.value + 1);
    }

    /**
     * iter: a reset cursor first builds the catalog and rewinds the driver.
     * Past the last row it returns none (PHP False) and resets `current`;
     * otherwise it returns the next row decoded and advances by one.
     */
    method Iter(convert: CellDecoder) returns (row: Option<Assoc<Value>>)
      requires Valid() && resource.Some?
      modifies this
      ensures Valid()
      ensures resource == old(resource) && lastQuery == old(lastQuery) && rowsAffected == old(rowsAffected)
      ensures rowsReturned == Some(|resource.value.rows|)
      ensures rowCountQueries == old(rowCountQueries) + (if old(rowsReturned).None? then 1 else 0)
      ensures affectedQueries == old(affectedQueries)
      ensures old(Start()) >= |resource.value.rows| ==> row.None? && current.None?
      ensures old(Start()) < |resource.value.rows| ==>
                row == Some(RowValue(resource.value, old(Start()), convert)) && current == Some(old(Start()) + 1)
    {
      Rewind();
      var n := RowsReturned();
      if current.value >= n {
        current := None;
        return None;
      }
      var decoded := ReadRow(convert);
      row := Some(decoded);
    }

    /**
     * fetchall: iter until it returns False or an empty row. From a result
     * with columns it collects every row from where the cursor stood and
     * leaves it reset; with no columns the first row is already empty, and
     * the cursor stays one row further on when there was a row to read.
     */
    method FetchAll(convert: CellDecoder) returns (data: seq<Assoc<Value>>)
      requires Valid() && resource.Some?
      modifies this
      ensures Valid()
      ensures resource == old(resource) && lastQuery == old(lastQuery) && rowsAffected == old(rowsAffected)
      ensures rowsReturned == Some(|resource.value.rows|)
      ensures rowCountQueries == old(rowCountQueries) + (if old(rowsReturned).None? then 1 else 0)
      ensures affectedQueries == old(affectedQueries)
      ensures resource.value.columns != [] ==>
                data == Rows(resource.value, old(Start()), |resource.value.rows|, convert) && current.None?
      ensures resource.value.columns == [] ==> data == []
      ensures resource.value.columns == [] && old(Start()) < |resource.value.rows| ==> current == Some(old(Start()) + 1)
      ensures old(Start()) >= |resource.value.rows| ==> current.None?
    {
      ghost var start := Start();
      ghost var r := resource.value;
      data := [];
      while true
        invariant WellFormed(r)
        invariant Valid() && resource == Some(r) && lastQuery == old(lastQuery)
        invariant rowsAffected == old(rowsAffected) && affectedQueries == old(affectedQueries)
        invariant rowsReturned == old(rowsReturned) || rowsReturned == Some(|r.rows|)
        invariant rowCountQueries == old(rowCountQueries) + (if old(rowsReturned).None? && rowsReturned.Some? then 1 else 0)
        invariant start + |data| <= |r.rows| && Start() == start + |data|
        invariant data == Rows(r, start, start + |data|, convert)
        invariant r.columns == [] ==> data == []
        decreases |r.rows| - |data|
      {
        ghost var at := start + |data|;
        var row := Iter(convert);
        if row.None? || |row.value| == 0 {
          FetchEnd(r, start, data, row, current, convert);
          break;
        }
        FetchMore(r, start, data, row.value, convert);
        data := data + [row.value];
      }
    }

    /**
     * free: the result is released and the cursor's entry removed, so every
     * key of it reads as null afterwards. With no result (a fresh cursor, or
     * one already freed) pg_free_result is handed null and throws a type
     * error before anything is removed: `freed` is false and nothing changes.
     */
    method Free() returns (freed: bool)
      modifies this
      ensures freed <==> old(resource).Some?
      ensures !freed ==> unchanged(this)
      ensures freed ==> Valid() && resource.None? && current.None?
      ensures freed ==> rowsReturned.None? && rowsAffected.None? && fields == [] && lastQuery.None? && position == 0
      ensures rowCountQueries == old(rowCountQueries) && affectedQueries == old(affectedQueries)
    {
      if resource.None? {
        return false;
      }
      resource := None;
      current := None;
      rowsReturned := None;
      rowsAffected := None;
      lastQuery := None;
      position := 0;
      fields := [];
      freed := true;
    }
  }

  /**
   * A row is empty exactly when the result has no columns, so fetchall
   * stops early only then.
   */
  lemma RowEmpty(r: DriverResult, k: nat, convert: CellDecoder)
    requires WellFormed(r) && k < |r.rows|
    ensures |RowValue(r, k, convert)| == 0 <==> r.columns == []
  {
    var a := r.rows[k];
    assert Keys(a) == Names(r.columns);
    assert |DecodedRow(a, Catalog(r.columns), convert)| == |a|;
    if a != [] {
      assert a[0].0 in Keys(a);
    }
    if r.columns != [] {
      assert r.columns[0].name in Names(r.columns);
    }
  }

  /** Rows built by pg_fetch_assoc from one cell per column are well formed. */
  lemma FetchedRows(cols: seq<Column>, cells: seq<seq<Option<string>>>, affected: nat)
    requires forall k :: 0 <= k < |cells| ==> |cells[k]| == |cols|
    ensures WellFormed(DriverResult(cols, seq(|cells|, k requires 0 <= k < |cells| => FetchAssoc(cols, cells[k])), affected))
  {
    forall k | 0 <= k < |cells| ensures Keys(FetchAssoc(cols, cells[k])) == Names(cols) {
      FetchAssocKeys(cols, cells[k]);
    }
  }

  /** With distinct column names the fetched array has one entry per column, in column order. */
  lemma {:induction false} FetchAssocOfDistinct(cols: seq<Column>, cells: seq<Option<string>>)
    requires |cells| == |cols| && DistinctNames(cols)
    ensures |FetchAssoc(cols, cells)| == |cols|
    ensures forall i :: 0 <= i < |cols| ==> FetchAssoc(cols, cells)[i] == (cols[i].name, cells[i])
    decreases |cols|
  {
    if cols != [] {
      var n := |cols| - 1;
      var init := cols[..n];
      assert DistinctNames(init) by {
        forall i, j | 0 <= i < j < |init| ensures init[i].name != init[j].name {
          assert init[i] == cols[i] && init[j] == cols[j];
        }
      }
      FetchAssocOfDistinct(init, cells[..n]);
      assert cols[n].name !in Names(init) by {
        forall i | 0 <= i < |init| ensures init[i].name != cols[n].name {
          assert init[i] == cols[i];
        }
      }
      FetchAssocKeys(init, cells[..n]);
      assert FetchAssoc(cols, cells) == FetchAssoc(init, cells[..n]) + [(cols[n].name, cells[n])];
      forall i | 0 <= i < |cols|
        ensures FetchAssoc(cols, cells)[i] == (cols[i].name, cells[i])
      {
        if i < n { assert init[i] == cols[i]; }
      }
    }
  }

  /**
   * With distinct column names, the decoded row has cell `i` under column
   * `i`'s name, and null there when the driver reports null.
   */
  lemma NullCellStaysNull(cols: seq<Column>, cells: seq<Option<string>>, fields: Assoc<Descriptor>,
                          i: nat, convert: CellDecoder)
    requires |cells| == |cols| && DistinctNames(cols) && i < |cols|
    ensures |DecodedRow(FetchAssoc(cols, cells), fields, convert)| == |cols|
    ensures DecodedRow(FetchAssoc(cols, cells), fields, convert)[i].0 == cols[i].name
    ensures cells[i].None? ==> DecodedRow(FetchAssoc(cols, cells), fields, convert)[i].1 == Null
  {
    FetchAssocOfDistinct(cols, cells);
  }
}
