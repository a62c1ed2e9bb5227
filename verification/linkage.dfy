/**
 The two-step linkage of the three tables: event joined with occurrence on
 eventID, and that result joined with emof on occurrenceID, each join
 requiring its left keys to be unique ("one_to_many"). Only keys, column
 names and row correspondence are modelled; a linked row is the triple of
 positions of the event, occurrence and emof records it combines.
 */
module Linkage {
  import opened Wrappers
  import opened Tables
  import opened Join
  import Schema

  const EventKey: string := "eventID"
  const OccurrenceKey: string := "occurrenceID"
  const LeftSuffix: string := "_x"
  const RightSuffix: string := "_y"

  /** Non-key column names that both sides of a merge carry. */
  function Overlap(left: set<string>, right: set<string>, key: string): set<string>
  {
    (left * right) - {key}
  }

  /** A name ending in one of the default merge suffixes. */
  predicate EndsWithSuffix(c: string)
  {
    |c| >= 2 && (c[|c| - 2..] == LeftSuffix || c[|c| - 2..] == RightSuffix)
  }

  /**
   The column names of a merge on `key` with the default suffixes: a shared
   non-key name is renamed with "_x" on the left and "_y" on the right, and
   the key is kept once.
   */
  function MergedColumns(left: set<string>, right: set<string>, key: string): (cols: set<string>)
    ensures forall c :: c in Overlap(left, right, key) ==> c + LeftSuffix in cols && c + RightSuffix in cols
    ensures forall c :: !EndsWithSuffix(c) ==>
      (c in cols <==> (c in left || c in right) && c !in Overlap(left, right, key))
  {
    var shared := Overlap(left, right, key);
    var renamed := (set c | c in shared :: c + LeftSuffix) + (set c | c in shared :: c + RightSuffix);
    assert forall c :: c in renamed ==> EndsWithSuffix(c) by {
      forall c | c in renamed ensures EndsWithSuffix(c) {
        var d :| d in shared && (c == d + LeftSuffix || c == d + RightSuffix);
        assert c[|c| - 2..] == c[|d|..];
      }
    }
    (left - shared) + (right - left) + renamed
  }

  /** The event+occurrence join: pairs of event and occurrence positions with equal eventID. */
  function EventOccurrence(ev: Table, occ: Table): seq<Pair>
  {
    InnerJoin(Column(ev, EventKey), Column(occ, EventKey))
  }

  /**
   The occurrenceID of an event+occurrence row, taken from whichever of the
   two tables carries the column.
   */
  function PairOccurrenceId(ev: Table, occ: Table, e: nat, o: nat): Cell
    requires e < |ev.rows| && o < |occ.rows|
  {
    if OccurrenceKey in ev.columns then Get(ev.rows[e], OccurrenceKey) else Get(occ.rows[o], OccurrenceKey)
  }

  /** The occurrenceID column of the event+occurrence join, one key per joined row. */
  function MiddleKeys(ev: Table, occ: Table): (keys: seq<Cell>)
    ensures |keys| == |EventOccurrence(ev, occ)|
  {
    var ps := EventOccurrence(ev, occ);
    seq(|ps|, k requires 0 <= k < |ps| =>
      assert ps[k] in ps;
      PairOccurrenceId(ev, occ, ps[k].left, ps[k].right))
  }

  /** A linked row: positions of an event, an occurrence and an emof record. */
  datatype Link = Link(event: nat, occurrence: nat, emof: nat)

  /**
   The three records belong together: the event and the occurrence share an
   eventID, and the emof record carries their occurrenceID.
   */
  predicate Linked(ev: Table, occ: Table, emof: Table, l: Link)
  {
    && l.event < |ev.rows| && l.occurrence < |occ.rows| && l.emof < |emof.rows|
    && Get(ev.rows[l.event], EventKey) == Get(occ.rows[l.occurrence], EventKey)
    && PairOccurrenceId(ev, occ, l.event, l.occurrence) == Get(emof.rows[l.emof], OccurrenceKey)
  }

  /** Some event and occurrence link up with emof record m. */
  predicate EmofMatched(ev: Table, occ: Table, emof: Table, m: nat)
  {
    exists e: nat, o: nat :: e < |ev.rows| && o < |occ.rows| && Linked(ev, occ, emof, Link(e, o, m))
  }

  /** Both joins, composed into triples of positions. */
  function Combine(ev: Table, occ: Table, emof: Table): (links: seq<Link>)
    ensures |links| == |InnerJoin(MiddleKeys(ev, occ), Column(emof, OccurrenceKey))|
  {
    var first := EventOccurrence(ev, occ);
    var second := InnerJoin(MiddleKeys(ev, occ), Column(emof, OccurrenceKey));
    seq(|second|, a requires 0 <= a < |second| =>
      assert second[a] in second;
      var p := first[second[a].left];
      Link(p.left, p.right, second[a].right))
  }

  /** Every combined row is a linked triple. */
  lemma CombineSound(ev: Table, occ: Table, emof: Table)
    ensures forall l :: l in Combine(ev, occ, emof) ==> Linked(ev, occ, emof, l)
  {
    var first := EventOccurrence(ev, occ);
    var second := InnerJoin(MiddleKeys(ev, occ), Column(emof, OccurrenceKey));
    var links := Combine(ev, occ, emof);
    forall l | l in links ensures Linked(ev, occ, emof, l) {
      var a :| 0 <= a < |links| && links[a] == l;
      assert second[a] in second;
      assert first[second[a].left] in first;
    }
  }

  /** Every linked triple is a combined row. */
  lemma CombineComplete(ev: Table, occ: Table, emof: Table)
    ensures forall l :: Linked(ev, occ, emof, l) ==> l in Combine(ev, occ, emof)
  {
    var first := EventOccurrence(ev, occ);
    var mid := MiddleKeys(ev, occ);
    var emofKeys := Column(emof, OccurrenceKey);
    var second := InnerJoin(mid, emofKeys);
    var links := Combine(ev, occ, emof);
    forall l | Linked(ev, occ, emof, l) ensures l in links {
      var p := Pair(l.event, l.occurrence);
      assert p in first;
      var k :| 0 <= k < |first| && first[k] == p;
      assert mid[k] == emofKeys[l.emof];
      assert Pair(k, l.emof) in second;
      var a :| 0 <= a < |second| && second[a] == Pair(k, l.emof);
      assert links[a] == l;
    }
  }

  /** The combined rows are exactly the linked triples. */
  lemma CombineCorrespondence(ev: Table, occ: Table, emof: Table)
    ensures forall l :: l in Combine(ev, occ, emof) <==> Linked(ev, occ, emof, l)
  {
    CombineSound(ev, occ, emof);
    CombineComplete(ev, occ, emof);
  }

  /** With unique middle keys every emof record appears in at most one combined row. */
  lemma CombineEmofOnce(ev: Table, occ: Table, emof: Table)
    requires Unique(MiddleKeys(ev, occ))
    ensures var links := Combine(ev, occ, emof);
      forall a, b :: 0 <= a < b < |links| ==> links[a].emof != links[b].emof
  {
    RightAtMostOnce(MiddleKeys(ev, occ), Column(emof, OccurrenceKey));
  }

  /**
   When occurrenceID comes from the occurrence table, unique eventIDs in event
   and unique occurrenceIDs in occurrence make the event+occurrence join's
   occurrenceIDs unique, so the second key check passes.
   */
  lemma UniqueOccurrenceIdsKeepMiddleUnique(ev: Table, occ: Table)
    requires OccurrenceKey !in ev.columns
    requires Unique(Column(ev, EventKey)) && Unique(Column(occ, OccurrenceKey))
    ensures Unique(MiddleKeys(ev, occ))
  {
    var first := EventOccurrence(ev, occ);
    var mid := MiddleKeys(ev, occ);
    var occIds := Column(occ, OccurrenceKey);
    RightAtMostOnce(Column(ev, EventKey), Column(occ, EventKey));
    forall i, j | 0 <= i < j < |mid| ensures mid[i] != mid[j] {
      assert first[i] in first && first[j] in first;
      assert mid[i] == occIds[first[i].right] && mid[j] == occIds[first[j].right];
      assert first[i].right < first[j].right;
    }
  }

  /** pandas raises KeyError for a missing merge key and ValueError for clashing column names. */
  datatype MergeException = KeyError(column: string) | ColumnOverlap(columns: set<string>)

  /** A merged dataset, None after a caught MergeError, or an exception that escapes. */
  datatype MergeOutcome = Merged(links: seq<Link>) | NotMerged | Raised(exception: MergeException)

  /** Both tables carry eventID. */
  predicate EventKeyPresent(ev: Table, occ: Table)
  {
    EventKey in ev.columns && EventKey in occ.columns
  }

  /**
   occurrenceID survives the first merge and emof carries it: exactly one of
   event and occurrence has the column, since a name both have is renamed.
   */
  predicate OccurrenceKeyPresent(ev: Table, occ: Table, emof: Table)
  {
    (OccurrenceKey in ev.columns) != (OccurrenceKey in occ.columns) && OccurrenceKey in emof.columns
  }

  /** The column names of the event+occurrence join. */
  function MiddleColumns(ev: Table, occ: Table): (cols: set<string>)
    ensures OccurrenceKey in cols <==> (OccurrenceKey in ev.columns) != (OccurrenceKey in occ.columns)
    ensures EventKey in ev.columns ==> EventKey in cols
  {
    assert !EndsWithSuffix(OccurrenceKey) && !EndsWithSuffix(EventKey);
    MergedColumns(ColumnSet(ev), ColumnSet(occ), EventKey)
  }

  /**
   The linkage with the cardinality checks: KeyError when a key column is
   missing, None when eventID repeats in event or occurrenceID repeats in the
   event+occurrence join, and otherwise exactly the linked triples, each emof
   record at most once.
   */
  function LinkTables(ev: Table, occ: Table, emof: Table): (r: MergeOutcome)
    ensures r == Raised(KeyError(EventKey)) <==> !EventKeyPresent(ev, occ)
    ensures r == Raised(KeyError(OccurrenceKey)) <==>
      EventKeyPresent(ev, occ) && Unique(Column(ev, EventKey)) && !OccurrenceKeyPresent(ev, occ, emof)
    ensures r.NotMerged? <==> (EventKeyPresent(ev, occ) &&
      (!Unique(Column(ev, EventKey)) || (OccurrenceKeyPresent(ev, occ, emof) && !Unique(MiddleKeys(ev, occ)))))
    ensures r.Merged? ==> forall l :: l in r.links <==> Linked(ev, occ, emof, l)
    ensures r.Merged? ==> forall a, b :: 0 <= a < b < |r.links| ==> r.links[a].emof != r.links[b].emof
  {
    if EventKey !in ev.columns || EventKey !in occ.columns then Raised(KeyError(EventKey))
    else if !Unique(Column(ev, EventKey)) then NotMerged
    else if OccurrenceKey !in MiddleColumns(ev, occ) || OccurrenceKey !in emof.columns then
      Raised(KeyError(OccurrenceKey))
    else if !Unique(MiddleKeys(ev, occ)) then NotMerged
    else
      CombineCorrespondence(ev, occ, emof);
      CombineEmofOnce(ev, occ, emof);
      Merged(Combine(ev, occ, emof))
  }

  /** An emof record whose occurrenceID is a middle key links up. */
  lemma MiddleKeyLinks(ev: Table, occ: Table, emof: Table, m: nat)
    requires m < |emof.rows|
    requires Get(emof.rows[m], OccurrenceKey) in MiddleKeys(ev, occ)
    ensures EmofMatched(ev, occ, emof, m)
  {
    var first := EventOccurrence(ev, occ);
    var mid := MiddleKeys(ev, occ);
    var k :| 0 <= k < |mid| && mid[k] == Get(emof.rows[m], OccurrenceKey);
    assert first[k] in first;
    assert Linked(ev, occ, emof, Link(first[k].left, first[k].right, m));
  }

  /** An emof record that links up carries a middle key. */
  lemma LinkedHasMiddleKey(ev: Table, occ: Table, emof: Table, m: nat)
    requires m < |emof.rows|
    requires EmofMatched(ev, occ, emof, m)
    ensures Get(emof.rows[m], OccurrenceKey) in MiddleKeys(ev, occ)
  {
    var first := EventOccurrence(ev, occ);
    var mid := MiddleKeys(ev, occ);
    var e: nat, o: nat :| e < |ev.rows| && o < |occ.rows| && Linked(ev, occ, emof, Link(e, o, m));
    assert Pair(e, o) in first;
    var k :| 0 <= k < |first| && first[k] == Pair(e, o);
    assert mid[k] == Get(emof.rows[m], OccurrenceKey);
  }

  /** An emof record's occurrenceID occurs among the middle keys exactly when the record links up. */
  lemma MiddleKeyMatch(ev: Table, occ: Table, emof: Table, m: nat)
    requires m < |emof.rows|
    ensures Get(emof.rows[m], OccurrenceKey) in MiddleKeys(ev, occ) <==> EmofMatched(ev, occ, emof, m)
  {
    if Get(emof.rows[m], OccurrenceKey) in MiddleKeys(ev, occ) {
      MiddleKeyLinks(ev, occ, emof, m);
    }
    if EmofMatched(ev, occ, emof, m) {
      LinkedHasMiddleKey(ev, occ, emof, m);
    }
  }

  /** With unique middle keys the combined rows number the emof records that link up. */
  lemma CombineRowCount(ev: Table, occ: Table, emof: Table)
    requires Unique(MiddleKeys(ev, occ))
    ensures |Combine(ev, occ, emof)| <= |emof.rows|
    ensures |Combine(ev, occ, emof)| == |emof.rows| <==>
      forall m: nat :: m < |emof.rows| ==> EmofMatched(ev, occ, emof, m)
  {
    var mid := MiddleKeys(ev, occ);
    var emofKeys := Column(emof, OccurrenceKey);
    JoinSize(mid, emofKeys);
    MatchedCountFull(mid, emofKeys);
    forall m: nat | m < |emof.rows| ensures emofKeys[m] in mid <==> EmofMatched(ev, occ, emof, m) {
      MiddleKeyMatch(ev, occ, emof, m);
    }
  }

  /**
   When both key columns are present and both key checks pass, the linkage
   succeeds with at most as many rows as emof, and exactly as many precisely
   when every emof record links up with an event and an occurrence.
   */
  lemma LinkedRowCount(ev: Table, occ: Table, emof: Table)
    requires EventKeyPresent(ev, occ) && OccurrenceKeyPresent(ev, occ, emof)
    requires Unique(Column(ev, EventKey)) && Unique(MiddleKeys(ev, occ))
    ensures LinkTables(ev, occ, emof).Merged?
    ensures |LinkTables(ev, occ, emof).links| <= |emof.rows|
    ensures |LinkTables(ev, occ, emof).links| == |emof.rows| <==>
      forall m: nat :: m < |emof.rows| ==> EmofMatched(ev, occ, emof, m)
  {
    assert LinkTables(ev, occ, emof).links == Combine(ev, occ, emof);
    CombineRowCount(ev, occ, emof);
  }

  // ---- check_merge_tables as written ----

  /**
   check_merge_tables as written. The second merge passes suffixes (None, None),
   so once both key checks pass, any non-key column name shared by the
   event+occurrence join and emof raises ValueError, which is not caught.
   */
  function CheckMergeTables(ev: Table, occ: Table, emof: Table): (r: MergeOutcome)
    ensures !LinkTables(ev, occ, emof).Merged? ==> r == LinkTables(ev, occ, emof)
    ensures r.Merged? ==> (r == LinkTables(ev, occ, emof)
      && Overlap(MiddleColumns(ev, occ), ColumnSet(emof), OccurrenceKey) == {})
    ensures LinkTables(ev, occ, emof).Merged? && EventKey in emof.columns ==>
      r.Raised? && r.exception.ColumnOverlap? && EventKey in r.exception.columns
    ensures LinkTables(ev, occ, emof).Merged? && Overlap(MiddleColumns(ev, occ), ColumnSet(emof), OccurrenceKey) == {} ==>
      r == LinkTables(ev, occ, emof)
    ensures LinkTables(ev, occ, emof).Merged? && Overlap(MiddleColumns(ev, occ), ColumnSet(emof), OccurrenceKey) != {} ==>
      r == Raised(ColumnOverlap(Overlap(MiddleColumns(ev, occ), ColumnSet(emof), OccurrenceKey)))
  {
    var linked := LinkTables(ev, occ, emof);
    var shared := Overlap(MiddleColumns(ev, occ), ColumnSet(emof), OccurrenceKey);
    if linked.Merged? && shared != {} then Raised(ColumnOverlap(shared)) else linked
  }

  /**
   Tables that pass their required-column checks never come out of
   check_merge_tables as written as a dataset: a key check fails, or the
   eventID that emof must carry clashes with the eventID of the
   event+occurrence join.
   */
  lemma RequiredColumnsNeverMerge(ev: Table, occ: Table, emof: Table)
    requires Schema.CheckRequiredColumns(emof, "emof", Schema.RequiredEmofColumns).res
    ensures !CheckMergeTables(ev, occ, emof).Merged?
  {
    assert EventKey in Schema.RequiredEmofColumns;
  }

  /**
   The corrected linkage on consistent tables: both key columns present, both
   key checks pass and every emof record links up, so the dataset has one row
   per emof record.
   */
  lemma ConsistentTablesLinkFully(ev: Table, occ: Table, emof: Table)
    requires EventKeyPresent(ev, occ) && OccurrenceKeyPresent(ev, occ, emof)
    requires Unique(Column(ev, EventKey)) && Unique(MiddleKeys(ev, occ))
    requires forall m: nat :: m < |emof.rows| ==> EmofMatched(ev, occ, emof, m)
    ensures LinkTables(ev, occ, emof).Merged?
    ensures |LinkTables(ev, occ, emof).links| == |emof.rows|
  {
    LinkedRowCount(ev, occ, emof);
  }
}
