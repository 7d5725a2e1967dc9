/** The PMID / project-number / identifier mapping table and the filter that
    keeps its DOI rows (`load_mappings`). */
module Mappings {
  import opened Wrappers
  import opened Text

  /** One row of the header-less mapping CSV. A short row has `None` for the
      missing trailing columns, as `csv.DictReader` fills them. */
  datatype MappingRow = MappingRow(
    pmid: string,
    projectNumber: string,
    mappedIdType: Option<string>,
    mappedId: Option<string>)

  /** The row's `mapped_id_type` is present, non-empty, and reads `doi` once
      trimmed and lower-cased. */
  predicate IsDoiRow(row: MappingRow) {
    && row.mappedIdType.Some?
    && |row.mappedIdType.value| > 0
    && Lower(StripText(row.mappedIdType.value)) == "doi"
  }

  /** A row passes the filter exactly when its type, once trimmed, spells
      `doi` in any mix of cases: `" DOI "` and `"Doi"` pass, `"do i"` and
      `"doi.org"` do not. */
  lemma DoiRowSpelling(row: MappingRow)
    ensures IsDoiRow(row) <==>
              && row.mappedIdType.Some?
              && |row.mappedIdType.value| > 0
              && var t := StripText(row.mappedIdType.value);
                 |t| == 3 && t[0] in "dD" && t[1] in "oO" && t[2] in "iI"
  {
    if row.mappedIdType.Some? {
      LowerIsDoi(StripText(row.mappedIdType.value));
    }
  }

  /** `load_mappings` after the CSV has been read: the DOI rows, in input order. */
  function LoadMappings(rows: seq<MappingRow>): (r: seq<MappingRow>)
    ensures |r| <= |rows|
    decreases |rows|
  {
    if |rows| == 0 then []
    else
      var rest := LoadMappings(rows[1..]);
      if IsDoiRow(rows[0]) then [rows[0]] + rest else rest
  }

  /** Every kept row is a DOI row of the input, with a non-empty type, and
      every DOI row of the input is kept. */
  lemma {:induction false} LoadMappingsSpec(rows: seq<MappingRow>)
    ensures forall i :: 0 <= i < |LoadMappings(rows)| ==> IsDoiRow(LoadMappings(rows)[i]) && LoadMappings(rows)[i] in rows
    ensures forall i :: 0 <= i < |rows| && IsDoiRow(rows[i]) ==> rows[i] in LoadMappings(rows)
    ensures forall row :: row in LoadMappings(rows) ==> row.mappedIdType.Some? && |row.mappedIdType.value| > 0
    decreases |rows|
  {
    if |rows| > 0 {
      LoadMappingsSpec(rows[1..]);
      assert forall i :: 1 <= i < |rows| ==> rows[i] == rows[1..][i - 1];
    }
  }

  /** Filtering distributes over concatenation: the kept rows stay in input
      order. */
  lemma {:induction false} LoadMappingsAppend(a: seq<MappingRow>, b: seq<MappingRow>)
    ensures LoadMappings(a + b) == LoadMappings(a) + LoadMappings(b)
    decreases |a|
  {
    if |a| > 0 {
      assert (a + b)[1..] == a[1..] + b;
      LoadMappingsAppend(a[1..], b);
    } else {
      assert a + b == b;
    }
  }

  /** A single row is kept exactly when its type reads `doi`. */
  lemma LoadMappingsSingle(row: MappingRow)
    ensures LoadMappings([row]) == if IsDoiRow(row) then [row] else []
  {
    assert [row][1..] == [];
  }
}
