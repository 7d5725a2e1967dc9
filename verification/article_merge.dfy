/** Merging the reporter rows with the extracted article identifiers
    (`read_csv_file_2`, `reconcile_data`): a left join on the PMID, in which
    a reporter row with k identifier rows becomes k output rows and a
    reporter row with none becomes one row with placeholder identifier
    fields. */
module ArticleMerge {
  import opened Wrappers
  import opened Grouping

  /** A row of the first file: its `PMID` and `PROJECT_NUMBER` columns. */
  datatype ReporterRow = ReporterRow(pmid: string, projectNumber: string)

  /** A row of the second file: its `pmid`, `mapped_id_type` and `mapped_id`
      columns. */
  datatype ArticleIdRow = ArticleIdRow(pmid: string, mappedIdType: string, mappedId: string)

  /** A `(mapped_id_type, mapped_id)` pair. */
  type IdPair = (string, string)

  /** An output row. */
  datatype MergedRow = MergedRow(pmid: string, projectNumber: string, mappedIdType: string, mappedId: string)

  function PmidKey(row: ArticleIdRow): Option<string> {
    Some(row.pmid)
  }

  function PairOf(row: ArticleIdRow): IdPair {
    (row.mappedIdType, row.mappedId)
  }

  /** The identifier pairs of the second file for `pmid`, in file order. */
  function PairsFor(rows2: seq<ArticleIdRow>, pmid: string): seq<IdPair> {
    Select(rows2, PmidKey, PairOf, pmid)
  }

  /** `read_csv_file_2`: the identifier pairs grouped by PMID. Every PMID of
      the file has a non-empty group holding its pairs in file order, and no
      other PMID has a group. */
  function ReadFile2(rows2: seq<ArticleIdRow>): (r: Groups<string, IdPair>)
    ensures DistinctKeys(r) && NonEmptyGroups(r)
    ensures forall pmid :: Find(r, pmid) == if |PairsFor(rows2, pmid)| == 0 then None else Some(PairsFor(rows2, pmid))
  {
    GroupBy(rows2, PmidKey, PairOf)
  }

  /** A PMID has a group exactly when some row of the second file carries it. */
  lemma {:induction false} PairsForNonEmpty(rows2: seq<ArticleIdRow>, pmid: string)
    ensures |PairsFor(rows2, pmid)| > 0 <==> exists j :: 0 <= j < |rows2| && rows2[j].pmid == pmid
    decreases |rows2|
  {
    if |rows2| > 0 {
      var prefix := rows2[..|rows2| - 1];
      PairsForNonEmpty(prefix, pmid);
      assert forall j :: 0 <= j < |prefix| ==> prefix[j] == rows2[j];
      if exists j :: 0 <= j < |rows2| && rows2[j].pmid == pmid {
        var j :| 0 <= j < |rows2| && rows2[j].pmid == pmid;
        if j < |prefix| {
          assert prefix[j].pmid == pmid;
        }
      }
    }
  }

  function Merged(a: ReporterRow, pair: IdPair): MergedRow {
    MergedRow(a.pmid, a.projectNumber, pair.0, pair.1)
  }

  /** One reporter row joined with its pairs: one row per pair, in the pairs'
      order, or the placeholder row when there are none. */
  function Expand(a: ReporterRow, pairs: seq<IdPair>, placeholder: IdPair): (r: seq<MergedRow>)
    ensures |r| == if |pairs| == 0 then 1 else |pairs|
    ensures forall row :: row in r ==> row.pmid == a.pmid && row.projectNumber == a.projectNumber
  {
    if |pairs| == 0 then [Merged(a, placeholder)]
    else seq(|pairs|, i requires 0 <= i < |pairs| => Merged(a, pairs[i]))
  }

  /** The output rows for one reporter row, looked up in the grouped pairs. */
  function RowsFor(a: ReporterRow, groups: Groups<string, IdPair>, placeholder: IdPair): seq<MergedRow> {
    match Find(groups, a.pmid)
    case None => [Merged(a, placeholder)]
    case Some(pairs) => seq(|pairs|, i requires 0 <= i < |pairs| => Merged(a, pairs[i]))
  }

  /** `reconcile_data`: the output rows of the reporter rows, in file order.
      The unmatched branch's identifier values are the `placeholder` pair. */
  function Reconcile(rows1: seq<ReporterRow>, groups: Groups<string, IdPair>, placeholder: IdPair): seq<MergedRow>
    decreases |rows1|
  {
    if |rows1| == 0 then []
    else RowsFor(rows1[0], groups, placeholder) + Reconcile(rows1[1..], groups, placeholder)
  }

  /** Every output row carries the PMID and project number of a reporter row:
      identifier rows whose PMID no reporter row has contribute nothing. */
  lemma {:induction false} ReconcileSound(rows1: seq<ReporterRow>, groups: Groups<string, IdPair>, placeholder: IdPair)
    ensures forall row :: row in Reconcile(rows1, groups, placeholder) ==>
              exists i :: 0 <= i < |rows1| && row.pmid == rows1[i].pmid && row.projectNumber == rows1[i].projectNumber
    decreases |rows1|
  {
    if |rows1| > 0 {
      ReconcileSound(rows1[1..], groups, placeholder);
      assert forall i :: 1 <= i < |rows1| ==> rows1[1..][i - 1] == rows1[i];
    }
  }

  /** Output order follows the first file: reconciling a concatenation
      concatenates the outputs. */
  lemma {:induction false} ReconcileAppend(x: seq<ReporterRow>, y: seq<ReporterRow>, groups: Groups<string, IdPair>, placeholder: IdPair)
    ensures Reconcile(x + y, groups, placeholder) == Reconcile(x, groups, placeholder) + Reconcile(y, groups, placeholder)
    decreases |x|
  {
    if |x| == 0 {
      assert x + y == y;
    } else {
      assert (x + y)[0] == x[0];
      assert (x + y)[1..] == x[1..] + y;
      ReconcileAppend(x[1..], y, groups, placeholder);
    }
  }

  /** The left join stated directly over the two files, without the grouping
      dictionary: each reporter row expanded with its PMID's pairs. */
  function LeftJoin(rows1: seq<ReporterRow>, rows2: seq<ArticleIdRow>, placeholder: IdPair): seq<MergedRow>
    decreases |rows1|
  {
    if |rows1| == 0 then []
    else Expand(rows1[0], PairsFor(rows2, rows1[0].pmid), placeholder) + LeftJoin(rows1[1..], rows2, placeholder)
  }

  /** The grouped lookup computes the left join: `reconcile_data` after
      `read_csv_file_2` is the join of the two files on the PMID. */
  lemma {:induction false} ReconcileIsLeftJoin(rows1: seq<ReporterRow>, rows2: seq<ArticleIdRow>, placeholder: IdPair)
    ensures Reconcile(rows1, ReadFile2(rows2), placeholder) == LeftJoin(rows1, rows2, placeholder)
    decreases |rows1|
  {
    if |rows1| > 0 {
      ReconcileIsLeftJoin(rows1[1..], rows2, placeholder);
    }
  }

  /** The number of output rows: for each reporter row, the number of pairs
      of its PMID, or one when there are none. */
  function JoinSize(rows1: seq<ReporterRow>, rows2: seq<ArticleIdRow>): nat
    decreases |rows1|
  {
    if |rows1| == 0 then 0
    else
      var k := |PairsFor(rows2, rows1[0].pmid)|;
      (if k == 0 then 1 else k) + JoinSize(rows1[1..], rows2)
  }

  lemma {:induction false} LeftJoinSize(rows1: seq<ReporterRow>, rows2: seq<ArticleIdRow>, placeholder: IdPair)
    ensures |LeftJoin(rows1, rows2, placeholder)| == JoinSize(rows1, rows2)
    decreases |rows1|
  {
    if |rows1| > 0 {
      LeftJoinSize(rows1[1..], rows2, placeholder);
    }
  }

  /** A reporter row whose PMID has k identifier rows yields exactly those k
      rows, in the second file's order, with its own PMID and project number;
      one whose PMID has none yields exactly the placeholder row. */
  lemma SingleRowJoin(a: ReporterRow, rows2: seq<ArticleIdRow>, placeholder: IdPair)
    ensures var out := Reconcile([a], ReadFile2(rows2), placeholder);
            var pairs := PairsFor(rows2, a.pmid);
            && (|pairs| == 0 ==> out == [MergedRow(a.pmid, a.projectNumber, placeholder.0, placeholder.1)])
            && (|pairs| > 0 ==> |out| == |pairs|)
            && (forall i :: 0 <= i < |pairs| ==> out[i] == MergedRow(a.pmid, a.projectNumber, pairs[i].0, pairs[i].1))
  {
    assert [a][1..] == [];
    var head := RowsFor(a, ReadFile2(rows2), placeholder);
    assert head + [] == head;
  }
}
