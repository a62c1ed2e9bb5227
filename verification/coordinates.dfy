/**
 The coordinate validator: decimalLatitude must lie in the open interval
 (-90, 90) and decimalLongitude in (-180, 180); null and non-numeric cells
 are invalid; a column the table lacks is skipped.
 */
module Coordinates {
  import opened Wrappers
  import opened Tables

  const LatitudeColumn: string := "decimalLatitude"
  const LongitudeColumn: string := "decimalLongitude"

  /** The open interval (lo, hi) of valid values. */
  datatype Bounds = Bounds(lo: real, hi: real)

  const LatitudeBounds: Bounds := Bounds(-90.0, 90.0)
  const LongitudeBounds: Bounds := Bounds(-180.0, 180.0)

  /** The two comparisons `v <= lo` and `v >= hi`. */
  predicate OutOfRange(v: real, b: Bounds)
  {
    v <= b.lo || v >= b.hi
  }

  /**
   pandas.to_numeric with errors="coerce", on one cell: a number is kept, null
   stays null, and text goes through `parse` (None when it is not a number).
   */
  function ToNumeric(cell: Cell, parse: string -> Option<real>): Option<real>
  {
    match cell
    case None => None
    case Some(Num(v)) => Some(v)
    case Some(Text(s)) => parse(s)
  }

  /** A flagged cell: no number after coercion, or a number outside the interval. */
  predicate Invalid(cell: Cell, b: Bounds, parse: string -> Option<real>)
  {
    match ToNumeric(cell, parse)
    case None => true
    case Some(v) => OutOfRange(v, b)
  }

  /** The positions, below n, of the flagged cells of a column. */
  function InvalidAmong(t: Table, column: string, b: Bounds, parse: string -> Option<real>, n: nat): (rows: seq<nat>)
    requires n <= |t.rows|
    ensures forall i: nat :: i in rows <==> i < n && Invalid(Get(t.rows[i], column), b, parse)
    ensures Increasing(rows)
    decreases n
  {
    if n == 0 then []
    else
      var before := InvalidAmong(t, column, b, parse, n - 1);
      assert forall a :: 0 <= a < |before| ==> before[a] in before;
      if Invalid(Get(t.rows[n - 1], column), b, parse) then before + [n - 1] else before
  }

  /** The positions of the flagged cells of a column, in record order (the reported index list). */
  function InvalidRows(t: Table, column: string, b: Bounds, parse: string -> Option<real>): (rows: seq<nat>)
    ensures forall i: nat :: i in rows <==> i < |t.rows| && Invalid(Get(t.rows[i], column), b, parse)
    ensures Increasing(rows)
  {
    InvalidAmong(t, column, b, parse, |t.rows|)
  }

  /** A column passes when the table lacks it or when none of its cells is flagged. */
  predicate ColumnValid(t: Table, column: string, b: Bounds, parse: string -> Option<real>)
  {
    column in t.columns ==> forall i :: 0 <= i < |t.rows| ==> !Invalid(Get(t.rows[i], column), b, parse)
  }

  /** Whether a present column has no flagged cell, from its list of flagged positions. */
  function ColumnPasses(t: Table, column: string, b: Bounds, parse: string -> Option<real>): (ok: bool)
    ensures ok <==> ColumnValid(t, column, b, parse)
  {
    if column !in t.columns then true
    else
      var bad := InvalidRows(t, column, b, parse);
      if |bad| == 0 then true
      else
        assert bad[0] in bad;
        false
  }

  /**
   check_coordinates with the comparisons made on the coerced values: passes iff
   neither coordinate column that is present has a flagged cell.
   */
  function CheckCoordinates(t: Table, parse: string -> Option<real>): (ok: bool)
    ensures ok <==> (ColumnValid(t, LatitudeColumn, LatitudeBounds, parse)
                     && ColumnValid(t, LongitudeColumn, LongitudeBounds, parse))
  {
    ColumnPasses(t, LatitudeColumn, LatitudeBounds, parse)
    && ColumnPasses(t, LongitudeColumn, LongitudeBounds, parse)
  }

  /**
   A number is flagged exactly when it lies on or beyond a bound: the intervals
   are open, so the bounds themselves are flagged. A null cell is always flagged.
   */
  lemma BoundsAreExclusive(v: real, parse: string -> Option<real>)
    ensures Invalid(Some(Num(v)), LatitudeBounds, parse) <==> v <= -90.0 || v >= 90.0
    ensures Invalid(Some(Num(v)), LongitudeBounds, parse) <==> v <= -180.0 || v >= 180.0
    ensures Invalid(None, LatitudeBounds, parse) && Invalid(None, LongitudeBounds, parse)
  {
  }

  /** A table with neither coordinate column passes. */
  lemma AbsentColumnsPass(t: Table, parse: string -> Option<real>)
    requires LatitudeColumn !in t.columns && LongitudeColumn !in t.columns
    ensures CheckCoordinates(t, parse)
  {
  }

  /** A failing check points at a present column and a record whose cell is flagged. */
  lemma FailureHasWitness(t: Table, parse: string -> Option<real>)
    requires !CheckCoordinates(t, parse)
    ensures exists i :: (0 <= i < |t.rows| &&
      ((LatitudeColumn in t.columns && i in InvalidRows(t, LatitudeColumn, LatitudeBounds, parse))
       || (LongitudeColumn in t.columns && i in InvalidRows(t, LongitudeColumn, LongitudeBounds, parse))))
  {
  }

  // ---- The validator as written ----

  /** pandas raises TypeError when it compares a text cell with a number. */
  datatype CoordinateError = TypeError(column: string)

  /** Some record holds text in the column. */
  predicate HasText(t: Table, column: string)
  {
    exists i :: 0 <= i < |t.rows| && Get(t.rows[i], column).Some? && Get(t.rows[i], column).value.Text?
  }

  /** Coercion that knows no text: used where a column holds no text cell. */
  function NoParse(s: string): Option<real>
  {
    None
  }

  /**
   One column as written: `<= lo` and `>= hi` are applied to the raw column
   beside the coerced null test, so a text cell raises instead of being flagged.
   */
  function RawColumnPasses(t: Table, column: string, b: Bounds): (r: Result<bool, CoordinateError>)
    ensures r.Failure? <==> column in t.columns && HasText(t, column)
    ensures r.Failure? ==> r.error == TypeError(column)
    ensures r.Success? ==> forall parse :: r.value == ColumnPasses(t, column, b, parse)
  {
    if column !in t.columns then Success(true)
    else if HasText(t, column) then Failure(TypeError(column))
    else
      assert forall parse, i :: 0 <= i < |t.rows| ==>
        Invalid(Get(t.rows[i], column), b, parse) == Invalid(Get(t.rows[i], column), b, NoParse);
      Success(ColumnPasses(t, column, b, NoParse))
  }

  /**
   check_coordinates as written: latitude is examined first, so a text cell
   there raises before longitude is looked at.
   */
  function CheckCoordinatesAsWritten(t: Table): (r: Result<bool, CoordinateError>)
    ensures r.Failure? <==> ((LatitudeColumn in t.columns && HasText(t, LatitudeColumn))
                             || (LongitudeColumn in t.columns && HasText(t, LongitudeColumn)))
    ensures LatitudeColumn in t.columns && HasText(t, LatitudeColumn) ==> r == Failure(TypeError(LatitudeColumn))
    ensures !(LatitudeColumn in t.columns && HasText(t, LatitudeColumn)) && r.Failure? ==>
      r.error == TypeError(LongitudeColumn)
    ensures r.Success? ==> forall parse :: r.value == CheckCoordinates(t, parse)
  {
    match RawColumnPasses(t, LatitudeColumn, LatitudeBounds)
    case Failure(e) => Failure(e)
    case Success(latOk) =>
      match RawColumnPasses(t, LongitudeColumn, LongitudeBounds)
      case Failure(e) => Failure(e)
      case Success(lonOk) => Success(latOk && lonOk)
  }

  /**
   A latitude cell "45N" is not one of the null markers the CSV reader knows, so
   the whole column is read as text; the code as written then raises, where the
   coerced check flags the record.
   */
  lemma TextLatitudeRaises(parse: string -> Option<real>)
    requires parse("45N") == None
    ensures var t := Table([LatitudeColumn], [map[LatitudeColumn := Some(Text("45N"))]]);
      CheckCoordinatesAsWritten(t) == Failure(TypeError(LatitudeColumn))
      && !CheckCoordinates(t, parse)
      && InvalidRows(t, LatitudeColumn, LatitudeBounds, parse) == [0]
  {
    var t := Table([LatitudeColumn], [map[LatitudeColumn := Some(Text("45N"))]]);
    assert Get(t.rows[0], LatitudeColumn) == Some(Text("45N"));
    assert HasText(t, LatitudeColumn);
    var bad := InvalidRows(t, LatitudeColumn, LatitudeBounds, parse);
    assert 0 in bad;
    assert forall i :: i in bad ==> i == 0;
    assert |bad| == 1;
    assert bad[0] == 0;
  }
}
