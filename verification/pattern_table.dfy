/** Building the DOI automaton from the mapping rows
    (`build_aho_corasick_automaton`). */
module PatternTable {
  import opened Wrappers
  import opened Text
  import opened Grouping
  import opened Mappings
  import opened PatternAutomaton

  /** The pattern a row contributes: its `mapped_id`, trimmed, unless the
      column is missing, empty, or only whitespace. */
  function TrimmedDoi(row: MappingRow): (r: Option<string>)
    ensures r.Some? ==> |r.value| > 0
  {
    if row.mappedId.None? || |row.mappedId.value| == 0 then None
    else
      var doi := StripText(row.mappedId.value);
      if |doi| == 0 then None else Some(doi)
  }

  /** The builder's failure: `ValueError("No valid DOIs found in mappings")`. */
  datatype BuildError = NoValidDois

  /** The table the inserts leave behind, one `add_word` per contributing
      row in input order; a later insert of the same DOI replaces the value. */
  function InsertAll(rows: seq<MappingRow>): (r: map<string, Entry>)
    ensures WellFormed(r)
    decreases |rows|
  {
    if |rows| == 0 then map[]
    else
      var table := InsertAll(rows[..|rows| - 1]);
      var row := rows[|rows| - 1];
      match TrimmedDoi(row)
      case None => table
      case Some(doi) => table[doi := Entry(doi, row)]
  }

  /** The automaton holds, for every DOI the rows contribute, the value
      inserted by the last of those rows, and no other pattern. */
  ghost predicate HoldsLastRows(table: map<string, Entry>, rows: seq<MappingRow>) {
    forall doi ::
      && (doi in table <==> LastIndex(rows, TrimmedDoi, doi) >= 0)
      && (doi in table ==> table[doi] == Entry(doi, rows[LastIndex(rows, TrimmedDoi, doi)]))
  }

  /** Last write wins: after all inserts, each DOI carries the last row that
      contributed it. */
  lemma {:induction false} InsertAllKeepsLastRows(rows: seq<MappingRow>)
    ensures HoldsLastRows(InsertAll(rows), rows)
    decreases |rows|
  {
    if |rows| > 0 {
      var prefix := rows[..|rows| - 1];
      var row := rows[|rows| - 1];
      InsertAllKeepsLastRows(prefix);
      var table := InsertAll(prefix);
      var next := InsertAll(rows);
      assert rows == prefix + [row];
      forall doi
        ensures doi in next <==> LastIndex(rows, TrimmedDoi, doi) >= 0
        ensures doi in next ==> next[doi] == Entry(doi, rows[LastIndex(rows, TrimmedDoi, doi)])
      {
        if TrimmedDoi(row) != Some(doi) {
          assert LastIndex(rows, TrimmedDoi, doi) == LastIndex(prefix, TrimmedDoi, doi);
          if doi in table {
            assert rows[LastIndex(prefix, TrimmedDoi, doi)] == prefix[LastIndex(prefix, TrimmedDoi, doi)];
          }
        }
      }
    }
  }

  /** The table is empty exactly when no row contributes a DOI. */
  lemma EmptyIffNoDois(table: map<string, Entry>, rows: seq<MappingRow>)
    requires HoldsLastRows(table, rows)
    ensures |table| == 0 <==> forall j :: 0 <= j < |rows| ==> TrimmedDoi(rows[j]).None?
  {
    if j :| 0 <= j < |rows| && TrimmedDoi(rows[j]).Some? {
      var doi := TrimmedDoi(rows[j]).value;
      assert LastIndex(rows, TrimmedDoi, doi) >= j;
      assert doi in table;
    }
    if |table| != 0 {
      var doi :| doi in table;
      var j := LastIndex(rows, TrimmedDoi, doi);
      assert TrimmedDoi(rows[j]).Some?;
    }
  }

  /** `build_aho_corasick_automaton`: inserts each row's trimmed DOI with the
      value `(doi, row)`; inserting a DOI again overwrites the earlier value,
      so the automaton keeps the last row for each DOI. Fails exactly when no
      row contributes a DOI. */
  method BuildAutomaton(rows: seq<MappingRow>) returns (res: Result<Automaton, BuildError>)
    ensures res.Failure? <==> forall j :: 0 <= j < |rows| ==> TrimmedDoi(rows[j]).None?
    ensures res.Success? ==> forall doi :: doi in res.value <==> LastIndex(rows, TrimmedDoi, doi) >= 0
    ensures res.Success? ==> forall doi :: doi in res.value ==> res.value[doi] == Entry(doi, rows[LastIndex(rows, TrimmedDoi, doi)])
  {
    var table: map<string, Entry> := map[];
    var validMappings := 0;
    var i := 0;
    while i < |rows|
      invariant 0 <= i <= |rows|
      invariant table == InsertAll(rows[..i])
      invariant validMappings == 0 <==> |table| == 0
    {
      var row := rows[i];
      assert rows[..i + 1][..i] == rows[..i];
      var trimmed := TrimmedDoi(row);
      if trimmed.Some? {
        var doi := trimmed.value;
        table := table[doi := Entry(doi, row)];
        validMappings := validMappings + 1;
      }
      i := i + 1;
    }
    assert rows[..i] == rows;
    InsertAllKeepsLastRows(rows);
    EmptyIffNoDois(table, rows);
    if validMappings == 0 {
      res := Failure(NoValidDois);
    } else {
      res := Success(table);
    }
  }
}
