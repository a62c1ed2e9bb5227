/**
 Small concrete datasets run through the linkage: two events, three
 occurrences and five emof records that all link up, and the same data with
 a repeated eventID.
 */
module Scenarios {
  import opened Wrappers
  import opened Tables
  import opened Linkage

  function Id(s: string): Cell
  {
    Some(Text(s))
  }

  function EventRow(e: string): Row
  {
    map[EventKey := Id(e)]
  }

  function OccurrenceRow(e: string, o: string): Row
  {
    map[EventKey := Id(e), OccurrenceKey := Id(o)]
  }

  const Events: Table := Table([EventKey], [EventRow("E1"), EventRow("E2")])

  const Occurrences: Table := Table([EventKey, OccurrenceKey],
    [OccurrenceRow("E1", "O1"), OccurrenceRow("E1", "O2"), OccurrenceRow("E2", "O3")])

  const Emof: Table := Table([EventKey, OccurrenceKey],
    [OccurrenceRow("E1", "O1"), OccurrenceRow("E1", "O1"), OccurrenceRow("E1", "O2"),
     OccurrenceRow("E2", "O3"), OccurrenceRow("E2", "O3")])

  lemma ScenarioKeysUnique()
    ensures Unique(Column(Events, EventKey))
    ensures Unique(Column(Occurrences, OccurrenceKey))
  {
    assert Column(Events, EventKey) == [Id("E1"), Id("E2")];
    assert Column(Occurrences, OccurrenceKey) == [Id("O1"), Id("O2"), Id("O3")];
  }

  lemma AllEmofMatched()
    ensures forall m: nat :: m < |Emof.rows| ==> EmofMatched(Events, Occurrences, Emof, m)
  {
    forall m: nat | m < |Emof.rows| ensures EmofMatched(Events, Occurrences, Emof, m) {
      if m < 2 {
        assert Linked(Events, Occurrences, Emof, Link(0, 0, m));
      } else if m == 2 {
        assert Linked(Events, Occurrences, Emof, Link(0, 1, m));
      } else {
        assert Linked(Events, Occurrences, Emof, Link(1, 2, m));
      }
    }
  }

  /**
   Two events, three occurrences and five emof records: the corrected linkage
   yields five rows, while the code as written raises on the shared eventID.
   */
  lemma FiveEmofRowsLink()
    ensures LinkTables(Events, Occurrences, Emof).Merged?
    ensures |LinkTables(Events, Occurrences, Emof).links| == 5
    ensures CheckMergeTables(Events, Occurrences, Emof) == Raised(ColumnOverlap({EventKey}))
  {
    ScenarioKeysUnique();
    UniqueOccurrenceIdsKeepMiddleUnique(Events, Occurrences);
    AllEmofMatched();
    ConsistentTablesLinkFully(Events, Occurrences, Emof);
    assert Overlap(MiddleColumns(Events, Occurrences), ColumnSet(Emof), OccurrenceKey) == {EventKey};
  }

  /** A repeated eventID makes the first key check fail, as written and corrected. */
  lemma RepeatedEventIdNotMerged()
    ensures var ev := Table([EventKey], [EventRow("E1"), EventRow("E1")]);
      LinkTables(ev, Occurrences, Emof) == NotMerged
      && CheckMergeTables(ev, Occurrences, Emof) == NotMerged
  {
    var ev := Table([EventKey], [EventRow("E1"), EventRow("E1")]);
    assert Column(ev, EventKey)[0] == Column(ev, EventKey)[1];
  }
}
