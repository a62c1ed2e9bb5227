/**
 Per-table structural checks: presence of the required Darwin Core columns
 and completeness (no null cell anywhere).
 */
module Schema {
  import opened Tables

  const RequiredOccurrenceColumns: seq<string> := [
    "occurrenceID", "scientificName", "eventDate", "decimalLatitude",
    "decimalLongitude", "basisOfRecord", "occurrenceStatus"
  ]

  const RequiredEmofColumns: seq<string> := [
    "eventID", "occurrenceID", "measurementValue", "measurementType", "measurementUnit"
  ]

  const RequiredEventColumns: seq<string> := [
    "eventID", "eventDate", "decimalLatitude", "decimalLongitude", "countryCode", "geodeticDatum"
  ]

  const PassMessage: string := "✅"
  const MissingPrefix: string := "❌ Missing required DwC columns: "
  const Separator: string := ", "

  /** The pass flag and the message of a required-column check. */
  datatype ColumnCheck = ColumnCheck(res: bool, msg: string)

  /**
   The required columns absent from `present`, each listed once. The order is
   that of first appearance in `required`.
   */
  function MissingColumns(required: seq<string>, present: set<string>): (missing: seq<string>)
    ensures forall c :: c in missing <==> c in required && c !in present
    ensures Unique(missing)
    decreases |required|
  {
    if |required| == 0 then []
    else
      var init := required[..|required| - 1];
      var last := required[|required| - 1];
      assert required == init + [last];
      var before := MissingColumns(init, present);
      if last in present || last in init then before else before + [last]
  }

  /** The parts separated by `sep`, as Python's str.join. */
  function JoinWith(parts: seq<string>, sep: string): string
    decreases |parts|
  {
    if |parts| == 0 then ""
    else if |parts| == 1 then parts[0]
    else parts[0] + sep + JoinWith(parts[1..], sep)
  }

  /** `part` is a contiguous piece of `s`. */
  predicate Occurs(part: string, s: string)
  {
    exists i :: 0 <= i <= |s| && part <= s[i..]
  }

  /** Every part can be found in the joined string. */
  lemma {:induction false} JoinedPartOccurs(parts: seq<string>, sep: string, k: nat)
    requires k < |parts|
    ensures Occurs(parts[k], JoinWith(parts, sep))
    decreases |parts|
  {
    var s := JoinWith(parts, sep);
    if k == 0 {
      assert parts[0] <= s[0..];
    } else {
      var rest := JoinWith(parts[1..], sep);
      JoinedPartOccurs(parts[1..], sep, k - 1);
      var i :| 0 <= i <= |rest| && parts[1..][k - 1] <= rest[i..];
      var off := |parts[0]| + |sep|;
      assert s == parts[0] + sep + rest;
      assert s[off + i..] == rest[i..];
      assert parts[k] <= s[off + i..];
    }
  }

  /** check_required_columns: passes iff every required column is present. */
  function CheckRequiredColumns(t: Table, tableName: string, required: seq<string>): (r: ColumnCheck)
    ensures r.res <==> forall c :: c in required ==> c in t.columns
    ensures r.res <==> r.msg == PassMessage
    ensures !r.res ==> MissingPrefix <= r.msg
  {
    var missing := MissingColumns(required, ColumnSet(t));
    if |missing| > 0 then
      assert missing[0] in required && missing[0] !in t.columns;
      ColumnCheck(false, MissingPrefix + JoinWith(missing, Separator) + " in " + tableName + ".")
    else
      ColumnCheck(true, PassMessage)
  }

  /** A failing check's message names every required column that is absent. */
  lemma FailureNamesMissingColumn(t: Table, tableName: string, required: seq<string>, c: string)
    requires c in required && c !in t.columns
    ensures Occurs(c, CheckRequiredColumns(t, tableName, required).msg)
  {
    var missing := MissingColumns(required, ColumnSet(t));
    assert c in missing;
    var k :| 0 <= k < |missing| && missing[k] == c;
    JoinedPartOccurs(missing, Separator, k);
    var joined := JoinWith(missing, Separator);
    var i :| 0 <= i <= |joined| && c <= joined[i..];
    var msg := MissingPrefix + joined + " in " + tableName + ".";
    assert msg == MissingPrefix + (joined + " in " + tableName + ".");
    assert msg[|MissingPrefix| + i..] == joined[i..] + " in " + tableName + ".";
    assert c <= msg[|MissingPrefix| + i..];
  }

  /** Some record holds null in column c. */
  predicate HasNull(t: Table, c: string)
  {
    exists i :: 0 <= i < |t.rows| && Get(t.rows[i], c).None?
  }

  /** The columns, among `columns`, that hold a null somewhere, in column order. */
  function NullColumns(t: Table, columns: seq<string>): (cols: seq<string>)
    ensures forall c :: c in cols <==> c in columns && HasNull(t, c)
    ensures |cols| <= |columns|
    decreases |columns|
  {
    if |columns| == 0 then []
    else
      var rest := NullColumns(t, columns[1..]);
      assert columns == [columns[0]] + columns[1..];
      if HasNull(t, columns[0]) then [columns[0]] + rest else rest
  }

  /**
   check_null_values: passes iff no cell of any column is null. The `columns`
   argument takes no part in the decision.
   */
  function CheckNullValues(t: Table, columns: seq<string>): (complete: bool)
    ensures complete <==> forall c, i :: c in t.columns && 0 <= i < |t.rows| ==> Get(t.rows[i], c).Some?
  {
    var cols := NullColumns(t, t.columns);
    if |cols| == 0 then true
    else
      assert HasNull(t, cols[0]);
      false
  }
}
