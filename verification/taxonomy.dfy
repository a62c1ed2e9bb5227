/**
 Classification of taxon-name lookups. The HTTP call to the name-matching
 service is not modelled: its answer is given as a status code and the list
 of match records the service returned.
 */
module Taxonomy {
  import opened Wrappers
  import opened Tables

  const ScientificNameColumn: string := "scientificName"
  const AcceptedStatus: string := "accepted"

  /** One match record of the service: its taxonomic status, valid name and reference. */
  datatype Match = Match(status: string, validName: string, url: string)

  /** The service's answer: the HTTP status code and, for 200, the decoded match list. */
  datatype Response = Response(statusCode: int, records: seq<Match>)

  /** Taking the first match of an empty list raises IndexError. */
  datatype TaxonError = NoRecords

  /**
   check_scientific_name, given the service's response: true exactly for a 200
   answer whose first match is accepted; 204, 400 and every other non-200 code
   give false; a 200 answer without matches raises.
   */
  function CheckScientificName(resp: Response): (r: Result<bool, TaxonError>)
    ensures r == Success(true) <==>
      (resp.statusCode == 200 && |resp.records| > 0 && resp.records[0].status == AcceptedStatus)
    ensures r.Failure? <==> (resp.statusCode == 200 && |resp.records| == 0)
    ensures resp.statusCode != 200 ==> r == Success(false)
  {
    if resp.statusCode == 204 || resp.statusCode == 400 then Success(false)
    else if resp.statusCode != 200 then Success(false)
    else if |resp.records| == 0 then Failure(NoRecords)
    else Success(resp.records[0].status == AcceptedStatus)
  }

  /** Matches after the first never change the classification. */
  lemma OnlyFirstMatchCounts(code: int, first: Match, rest1: seq<Match>, rest2: seq<Match>)
    ensures CheckScientificName(Response(code, [first] + rest1)) == CheckScientificName(Response(code, [first] + rest2))
  {
  }

  /** The classification of each name, in order; the first one that raises ends the list. */
  function ClassifyAll(names: seq<Cell>, service: Cell -> Response): (r: Result<seq<bool>, TaxonError>)
    ensures r.Failure? <==> exists i :: 0 <= i < |names| && CheckScientificName(service(names[i])).Failure?
    ensures r.Success? ==> |r.value| == |names|
    ensures r.Success? ==> forall i :: 0 <= i < |names| ==> CheckScientificName(service(names[i])) == Success(r.value[i])
    decreases |names|
  {
    if |names| == 0 then Success([])
    else
      match CheckScientificName(service(names[0]))
      case Failure(e) => Failure(e)
      case Success(head) =>
        match ClassifyAll(names[1..], service)
        case Failure(e) =>
          var i :| 0 <= i < |names[1..]| && CheckScientificName(service(names[1..][i])).Failure?;
          assert CheckScientificName(service(names[i + 1])).Failure?;
          Failure(e)
        case Success(tail) =>
          assert forall i :: 1 <= i < |names| ==> names[i] == names[1..][i - 1];
          Success([head] + tail)
  }

  /**
   check_scientific_names: None when the table has no scientificName column;
   otherwise one classification per record, in record order, with repeated
   names classified again rather than merged. `service` stands for the network
   lookup of one name.
   */
  function CheckScientificNames(t: Table, service: Cell -> Response): (r: Option<Result<seq<bool>, TaxonError>>)
    ensures r.None? <==> ScientificNameColumn !in t.columns
    ensures r.Some? && r.value.Success? ==>
      |r.value.value| == |t.rows|
      && forall i :: 0 <= i < |t.rows| ==>
           CheckScientificName(service(Get(t.rows[i], ScientificNameColumn))) == Success(r.value.value[i])
    ensures r.Some? ==> (r.value.Failure? <==>
      exists i :: 0 <= i < |t.rows| && CheckScientificName(service(Get(t.rows[i], ScientificNameColumn))).Failure?)
  {
    if ScientificNameColumn !in t.columns then None
    else Some(ClassifyAll(Column(t, ScientificNameColumn), service))
  }

  /** Two records with the same name get the same classification. */
  lemma SameNameSameAnswer(t: Table, service: Cell -> Response, i: nat, j: nat)
    requires i < |t.rows| && j < |t.rows|
    requires Get(t.rows[i], ScientificNameColumn) == Get(t.rows[j], ScientificNameColumn)
    requires CheckScientificNames(t, service).Some? && CheckScientificNames(t, service).value.Success?
    ensures CheckScientificNames(t, service).value.value[i] == CheckScientificNames(t, service).value.value[j]
  {
  }
}
