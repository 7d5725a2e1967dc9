/** Matching one DataCite record against the DOI automaton
    (`find_matches_in_record`): the record's own DOI and each of its related
    identifiers are scanned, and every stored DOI equal to the whole scanned
    text yields one match event carrying the mapping row's provenance. */
module MatchExtractor {
  import opened Wrappers
  import opened Text
  import opened Mappings
  import opened PatternAutomaton
  import opened PatternTable
  import Grouping

  /** One entry of `attributes.relatedIdentifiers`; `None` is a missing key. */
  datatype RelatedIdentifier = RelatedIdentifier(
    relatedIdentifier: Option<string>,
    relationType: Option<string>,
    resourceTypeGeneral: Option<string>)

  datatype ResourceType = ResourceType(resourceTypeGeneral: Option<string>)

  /** The parts of a record's `attributes` object the matcher reads; `None`
      is a missing key, and for `relatedIdentifiers` also an explicit null. */
  datatype Attributes = Attributes(
    state: Option<string>,
    doi: Option<string>,
    resourceType: Option<ResourceType>,
    relatedIdentifiers: Option<seq<RelatedIdentifier>>)

  /** A DataCite record; `None` is a record without `attributes`. */
  datatype Record = Record(attributes: Option<Attributes>)

  /** One output row of the matcher. */
  datatype MatchEvent = MatchEvent(
    pmid: string,
    projectNumber: string,
    mappedIdType: Option<string>,
    mappedId: string,
    matchedDataciteDoi: string,
    matchedRelationType: string,
    matchedResourceType: string)

  const SAME: string := "Same"
  const FINDABLE: string := "findable"

  /** `record.get('attributes', {})`: a missing object reads as empty. */
  function AttrsOf(rec: Record): Attributes {
    rec.attributes.GetOr(Attributes(None, None, None, None))
  }

  predicate IsFindable(attrs: Attributes) {
    attrs.state == Some(FINDABLE)
  }

  function DataciteDoi(attrs: Attributes): string {
    attrs.doi.GetOr("")
  }

  function RecordResourceType(attrs: Attributes): string {
    match attrs.resourceType
    case None => ""
    case Some(rt) => rt.resourceTypeGeneral.GetOr("")
  }

  function RelatedIds(attrs: Attributes): seq<RelatedIdentifier> {
    attrs.relatedIdentifiers.GetOr([])
  }

  /** The text scanned for a related identifier: its value, trimmed. */
  function RelatedValue(rid: RelatedIdentifier): string {
    StripText(rid.relatedIdentifier.GetOr(""))
  }

  /** The event for a matched entry: the mapping row supplies PMID, project
      number and identifier type, the stored DOI is the mapped id. */
  function EventFor(e: Entry, datacite: string, relation: string, resource: string): MatchEvent {
    MatchEvent(e.row.pmid, e.row.projectNumber, e.row.mappedIdType, e.doi, datacite, relation, resource)
  }

  /** The events for one scanned text: one per automaton hit passing the
      full-span test, which is one event exactly when a stored DOI equals the
      whole text. */
  function ScanField(a: Automaton, t: string, datacite: string, relation: string, resource: string): (r: seq<MatchEvent>)
    ensures r == if t in a then [EventFor(a[t], datacite, relation, resource)] else []
  {
    var entries := FieldMatches(a, t);
    seq(|entries|, i requires 0 <= i < |entries| => EventFor(entries[i], datacite, relation, resource))
  }

  /** The events for a related identifier. */
  function RelatedEvent(a: Automaton, rid: RelatedIdentifier, datacite: string): seq<MatchEvent> {
    ScanField(a, RelatedValue(rid), datacite, rid.relationType.GetOr(""), rid.resourceTypeGeneral.GetOr(""))
  }

  /** A related identifier matches when its trimmed value is a stored DOI. */
  predicate RelatedKnown(a: Automaton, rid: RelatedIdentifier) {
    RelatedValue(rid) in a
  }

  /** The number of related identifiers whose trimmed value is a stored DOI. */
  function CountKnown(a: Automaton, rids: seq<RelatedIdentifier>): nat
    decreases |rids|
  {
    if |rids| == 0 then 0
    else (if RelatedKnown(a, rids[|rids| - 1]) then 1 else 0) + CountKnown(a, rids[..|rids| - 1])
  }

  /** The events of the related identifiers, in the order they are listed:
      one per identifier whose trimmed value is a stored DOI. */
  function RelatedEvents(a: Automaton, rids: seq<RelatedIdentifier>, datacite: string): (r: seq<MatchEvent>)
    ensures |r| == CountKnown(a, rids)
    decreases |rids|
  {
    if |rids| == 0 then []
    else RelatedEvents(a, rids[..|rids| - 1], datacite) + RelatedEvent(a, rids[|rids| - 1], datacite)
  }

  /** Every related event names the record's DOI and the stored entry it
      matched, whose provenance it carries. */
  lemma {:induction false} RelatedEventsSound(a: Automaton, rids: seq<RelatedIdentifier>, datacite: string)
    ensures forall ev :: ev in RelatedEvents(a, rids, datacite) ==>
              && ev.matchedDataciteDoi == datacite
              && ev.mappedId in a
              && ev == EventFor(a[ev.mappedId], datacite, ev.matchedRelationType, ev.matchedResourceType)
    decreases |rids|
  {
    if |rids| > 0 {
      RelatedEventsSound(a, rids[..|rids| - 1], datacite);
    }
  }

  /** Every related identifier whose trimmed value is a stored DOI has its
      event, carrying its relation and resource type (each defaulting to ""). */
  lemma {:induction false} RelatedEventsComplete(a: Automaton, rids: seq<RelatedIdentifier>, datacite: string)
    ensures forall i :: 0 <= i < |rids| && RelatedKnown(a, rids[i]) ==>
              EventFor(a[RelatedValue(rids[i])], datacite, rids[i].relationType.GetOr(""), rids[i].resourceTypeGeneral.GetOr(""))
                in RelatedEvents(a, rids, datacite)
  {
    forall i | 0 <= i < |rids| && RelatedKnown(a, rids[i])
      ensures EventFor(a[RelatedValue(rids[i])], datacite, rids[i].relationType.GetOr(""), rids[i].resourceTypeGeneral.GetOr(""))
                in RelatedEvents(a, rids, datacite)
    {
      RelatedEventsFinds(a, rids, datacite, i);
    }
  }

  /** The event of the related identifier at index `i`, when its value is
      stored, is among the events of the whole list. */
  lemma {:induction false} RelatedEventsFinds(a: Automaton, rids: seq<RelatedIdentifier>, datacite: string, i: nat)
    requires i < |rids| && RelatedKnown(a, rids[i])
    ensures EventFor(a[RelatedValue(rids[i])], datacite, rids[i].relationType.GetOr(""), rids[i].resourceTypeGeneral.GetOr(""))
              in RelatedEvents(a, rids, datacite)
    decreases |rids|
  {
    var prefix := rids[..|rids| - 1];
    var last := RelatedEvent(a, rids[|rids| - 1], datacite);
    assert RelatedEvents(a, rids, datacite) == RelatedEvents(a, prefix, datacite) + last;
    if i < |rids| - 1 {
      assert prefix[i] == rids[i];
      RelatedEventsFinds(a, prefix, datacite, i);
    }
  }

  /** `find_matches_in_record`: nothing unless the record is findable; then
      the event for the record's own DOI, relation `Same`, if the DOI is
      non-empty and stored; then the events of the related identifiers. Every
      event names the record's DOI and the provenance of the stored entry it
      matched. */
  function FindMatches(a: Automaton, rec: Record): (r: seq<MatchEvent>)
    ensures !IsFindable(AttrsOf(rec)) ==> r == []
    ensures IsFindable(AttrsOf(rec)) ==>
              |r| == (if DataciteDoi(AttrsOf(rec)) in a then 1 else 0) + CountKnown(a, RelatedIds(AttrsOf(rec)))
    ensures forall ev :: ev in r ==>
              && ev.matchedDataciteDoi == DataciteDoi(AttrsOf(rec))
              && ev.mappedId in a
              && ev == EventFor(a[ev.mappedId], ev.matchedDataciteDoi, ev.matchedRelationType, ev.matchedResourceType)
  {
    var attrs := AttrsOf(rec);
    if !IsFindable(attrs) then []
    else
      var datacite := DataciteDoi(attrs);
      var same := if |datacite| > 0 then ScanField(a, datacite, datacite, SAME, RecordResourceType(attrs)) else [];
      RelatedEventsSound(a, RelatedIds(attrs), datacite);
      same + RelatedEvents(a, RelatedIds(attrs), datacite)
  }

  /** The record's own DOI, when stored, gives the first event, with relation
      `Same` and the record's resource type; when it is not stored, the first
      events are those of the related identifiers. */
  lemma SameEventFirst(a: Automaton, rec: Record)
    requires IsFindable(AttrsOf(rec))
    ensures var attrs := AttrsOf(rec);
            var datacite := DataciteDoi(attrs);
            var related := RelatedEvents(a, RelatedIds(attrs), datacite);
            FindMatches(a, rec) == (if datacite in a then [EventFor(a[datacite], datacite, SAME, RecordResourceType(attrs))] else []) + related
  {
    var attrs := AttrsOf(rec);
    var datacite := DataciteDoi(attrs);
    if |datacite| == 0 {
      assert datacite !in a;
      assert [] + RelatedEvents(a, RelatedIds(attrs), datacite) == RelatedEvents(a, RelatedIds(attrs), datacite);
    }
  }

  /** Related identifiers are scanned in order: the events of a concatenated
      list are those of the first part followed by those of the second. */
  lemma {:induction false} RelatedEventsAppend(a: Automaton, x: seq<RelatedIdentifier>, y: seq<RelatedIdentifier>, datacite: string)
    ensures RelatedEvents(a, x + y, datacite) == RelatedEvents(a, x, datacite) + RelatedEvents(a, y, datacite)
    decreases |y|
  {
    if |y| == 0 {
      assert x + y == x;
    } else {
      var init := y[..|y| - 1];
      assert (x + y)[..|x + y| - 1] == x + init;
      assert (x + y)[|x + y| - 1] == y[|y| - 1];
      RelatedEventsAppend(a, x, init, datacite);
      EventsRegroup(RelatedEvents(a, x, datacite), RelatedEvents(a, init, datacite), RelatedEvent(a, y[|y| - 1], datacite));
    }
  }

  /** A related identifier whose value is a DOI exactly as the builder stored
      it (the row's `mapped_id`, trimmed) is found: the scan trims the value
      again, which leaves a trimmed DOI unchanged, and the stored key is
      still present after all inserts. */
  lemma StoredDoiFoundAgain(rows: seq<MappingRow>, i: nat, rid: RelatedIdentifier)
    requires i < |rows| && TrimmedDoi(rows[i]).Some?
    requires rid.relatedIdentifier == Some(TrimmedDoi(rows[i]).value)
    ensures RelatedValue(rid) == TrimmedDoi(rows[i]).value
    ensures RelatedKnown(InsertAll(rows), rid)
  {
    var doi := TrimmedDoi(rows[i]).value;
    StripTextIdempotent(rows[i].mappedId.value);
    InsertAllKeepsLastRows(rows);
    var last := Grouping.LastIndex(rows, TrimmedDoi, doi);
    assert last >= i;
  }

  /** Regrouping a concatenation of event lists; taken as a lemma over plain
      lists so that the events themselves are not unfolded. */
  lemma EventsRegroup(x: seq<MatchEvent>, y: seq<MatchEvent>, z: seq<MatchEvent>)
    ensures x + y + z == x + (y + z)
  {
  }

  /** A single related identifier yields one event exactly when its value,
      once trimmed, is a stored DOI; whitespace around the value is ignored. */
  lemma RelatedEventSingle(a: Automaton, rid: RelatedIdentifier, datacite: string)
    ensures RelatedEvents(a, [rid], datacite)
         == if RelatedKnown(a, rid)
            then [EventFor(a[RelatedValue(rid)], datacite, rid.relationType.GetOr(""), rid.resourceTypeGeneral.GetOr(""))]
            else []
  {
    assert [rid][..0] == [];
  }
}
