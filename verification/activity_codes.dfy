/** Grouping funded works by NIH activity code and the statistics table
    (`extract_activity_codes`, `generate_statistics`). A work's activity code
    is the first three characters of its project number and its letter the
    first character; works with a shorter project number are not grouped. */
module ActivityCodes {
  import opened Wrappers
  import opened Text
  import opened Grouping

  /** A row of the funded-works CSV: its `project_number` and the other
      columns, carried along unchanged. */
  datatype Work = Work(projectNumber: string, columns: map<string, string>)

  /** A row of the activity-code CSV as kept by `load_program_data`. */
  datatype ProgramInfo = ProgramInfo(title: string, category: string, description: string)

  datatype Level = Letter | Full

  /** One row of `statistics.csv`. */
  datatype StatRow = StatRow(
    level: Level,
    code: string,
    count: nat,
    title: string,
    category: string,
    description: string)

  const CODE_LENGTH: nat := 3

  /** The program info of a code missing from the program data. */
  const UNKNOWN_PROGRAM: ProgramInfo :=
    ProgramInfo("Unknown Program", "Unknown", "No program description available")

  function LetterKey(w: Work): Option<string> {
    if |w.projectNumber| >= CODE_LENGTH then Some(w.projectNumber[..1]) else None
  }

  function CodeKey(w: Work): Option<string> {
    if |w.projectNumber| >= CODE_LENGTH then Some(w.projectNumber[..CODE_LENGTH]) else None
  }

  function Id(w: Work): Work { w }

  /** `extract_activity_codes`: the letter groups and the activity-code
      groups, each a table in first-seen key order whose groups hold the
      works with that key in input order. */
  function ExtractActivityCodes(works: seq<Work>): (r: (Groups<string, Work>, Groups<string, Work>))
    ensures DistinctKeys(r.0) && NonEmptyGroups(r.0)
    ensures DistinctKeys(r.1) && NonEmptyGroups(r.1)
    ensures forall l :: Find(r.0, l) == if |Select(works, LetterKey, Id, l)| == 0 then None else Some(Select(works, LetterKey, Id, l))
    ensures forall c :: Find(r.1, c) == if |Select(works, CodeKey, Id, c)| == 0 then None else Some(Select(works, CodeKey, Id, c))
  {
    (GroupBy(works, LetterKey, Id), GroupBy(works, CodeKey, Id))
  }

  /** A work whose project number is shorter than three characters is in no
      group of either table. */
  lemma ShortProjectNumberDropped(works: seq<Work>, w: Work)
    requires |w.projectNumber| < CODE_LENGTH
    ensures forall i :: 0 <= i < |ExtractActivityCodes(works).0| ==> w !in ExtractActivityCodes(works).0[i].1
    ensures forall i :: 0 <= i < |ExtractActivityCodes(works).1| ==> w !in ExtractActivityCodes(works).1[i].1
  {
    var r := ExtractActivityCodes(works);
    forall i | 0 <= i < |r.0| ensures w !in r.0[i].1 {
      FindIndex(r.0, r.0[i].0);
      SelectOnlyMatching(works, LetterKey, r.0[i].0, w);
    }
    forall i | 0 <= i < |r.1| ensures w !in r.1[i].1 {
      FindIndex(r.1, r.1[i].0);
      SelectOnlyMatching(works, CodeKey, r.1[i].0, w);
    }
  }

  /** A group holds every occurrence of each work with its key, and no other
      work: a work with three or more characters of project number appears
      in its letter group and in its code group exactly as often as in the
      input, so once for each time it was read. */
  lemma {:induction false} SelectMultiplicity(works: seq<Work>, key: Work -> Option<string>, k: string, w: Work)
    ensures multiset(Select(works, key, Id, k))[w] == if key(w) == Some(k) then multiset(works)[w] else 0
    decreases |works|
  {
    if |works| > 0 {
      var prefix := works[..|works| - 1];
      assert works == prefix + [works[|works| - 1]];
      SelectMultiplicity(prefix, key, k, w);
    }
  }

  lemma SelectOnlyMatching(works: seq<Work>, key: Work -> Option<string>, k: string, w: Work)
    requires key(w) != Some(k)
    ensures w !in Select(works, key, Id, k)
  {
    SelectMultiplicity(works, key, k, w);
  }

  /** The letter group of a work is named by the first character of its
      activity code. */
  lemma LetterOfCode(w: Work, l: string)
    ensures LetterKey(w) == Some(l) <==> CodeKey(w).Some? && StartsWith(CodeKey(w).value, l)
  {
    if |w.projectNumber| >= CODE_LENGTH {
      assert w.projectNumber[..CODE_LENGTH][..1] == w.projectNumber[..1];
    }
  }

  predicate StartsWith(code: string, l: string) {
    |code| >= 1 && code[..1] == l
  }

  /** The number of works in the code groups whose code starts with `l`. */
  function SumWhere(groups: Groups<string, Work>, l: string): nat
    decreases |groups|
  {
    if |groups| == 0 then 0
    else (if StartsWith(groups[0].0, l) then |groups[0].1| else 0) + SumWhere(groups[1..], l)
  }

  /** Appending a work to a code group adds one to the total of its letter. */
  lemma {:induction false} SumWhereAddTo(groups: Groups<string, Work>, c: string, w: Work, l: string)
    requires DistinctKeys(groups)
    ensures SumWhere(AddTo(groups, c, w), l) == SumWhere(groups, l) + (if StartsWith(c, l) then 1 else 0)
    decreases |groups|
  {
    if |groups| > 0 && groups[0].0 != c {
      var rest := groups[1..];
      assert DistinctKeys(rest) by {
        forall i, j | 0 <= i < j < |rest| ensures rest[i].0 != rest[j].0 {
          assert rest[i] == groups[i + 1] && rest[j] == groups[j + 1];
        }
      }
      SumWhereAddTo(rest, c, w, l);
      assert AddTo(groups, c, w) == [groups[0]] + AddTo(rest, c, w);
      assert ([groups[0]] + AddTo(rest, c, w))[1..] == AddTo(rest, c, w);
    } else if |groups| > 0 {
      var grown := AddTo(groups, c, w);
      assert grown[1..] == groups[1..];
    }
  }

  /** For each letter, the size of its letter group is the sum of the sizes of
      the code groups whose code starts with that letter: the two tables
      count the same works. */
  lemma {:induction false} LetterCountIsSumOfCodeCounts(works: seq<Work>, l: string)
    ensures |Select(works, LetterKey, Id, l)| == SumWhere(GroupBy(works, CodeKey, Id), l)
    decreases |works|
  {
    if |works| > 0 {
      var prefix := works[..|works| - 1];
      var w := works[|works| - 1];
      LetterCountIsSumOfCodeCounts(prefix, l);
      LetterOfCode(w, l);
      match CodeKey(w)
      case None =>
      case Some(c) =>
        SumWhereAddTo(GroupBy(prefix, CodeKey, Id), c, w, l);
    }
  }

  /** The letter table's count for `l`, restated over the two tables
      `extract_activity_codes` returns. */
  lemma LetterGroupIsSumOfCodeGroups(works: seq<Work>, l: string)
    ensures var (letters, codes) := ExtractActivityCodes(works);
            (if Find(letters, l).Some? then |Find(letters, l).value| else 0) == SumWhere(codes, l)
  {
    LetterCountIsSumOfCodeCounts(works, l);
  }

  /** Ascending by key in Python's string order. */
  ghost predicate SortedByKey<V>(s: seq<(string, V)>) {
    forall i, j :: 0 <= i < j < |s| ==> LexLeq(s[i].0, s[j].0)
  }

  /** Putting an entry no greater than any other in front keeps the order. */
  lemma ConsSorted<V>(y: (string, V), s: seq<(string, V)>)
    requires SortedByKey(s)
    requires forall i :: 0 <= i < |s| ==> LexLeq(y.0, s[i].0)
    ensures SortedByKey([y] + s)
  {
    var r := [y] + s;
    forall i, j | 0 <= i < j < |r| ensures LexLeq(r[i].0, r[j].0) {
      assert r[j] == s[j - 1];
      if i > 0 {
        assert r[i] == s[i - 1];
      }
    }
  }

  /** One step of insertion sort: `x` goes before the first entry it does not
      exceed. */
  function Insert<V>(x: (string, V), s: seq<(string, V)>): seq<(string, V)>
    decreases |s|
  {
    if |s| == 0 then [x]
    else if LexLess(s[0].0, x.0) then [s[0]] + Insert(x, s[1..])
    else [x] + s
  }

  lemma {:induction false} InsertMultiset<V>(x: (string, V), s: seq<(string, V)>)
    ensures multiset(Insert(x, s)) == multiset(s) + multiset{x}
    decreases |s|
  {
    if |s| > 0 {
      assert s == [s[0]] + s[1..];
      InsertMultiset(x, s[1..]);
    }
  }

  lemma {:induction false} InsertSorted<V>(x: (string, V), s: seq<(string, V)>)
    requires SortedByKey(s)
    ensures SortedByKey(Insert(x, s))
    decreases |s|
  {
    if |s| > 0 {
      var tail := s[1..];
      if LexLess(s[0].0, x.0) {
        var rest := Insert(x, tail);
        InsertSorted(x, tail);
        InsertMultiset(x, tail);
        forall i | 0 <= i < |rest| ensures LexLeq(s[0].0, rest[i].0) {
          assert rest[i] in multiset(rest);
          if rest[i] != x {
            var k :| 0 <= k < |tail| && tail[k] == rest[i];
            assert s[k + 1] == rest[i];
          }
        }
        ConsSorted(s[0], rest);
      } else {
        LexNotLess(s[0].0, x.0);
        forall j | 0 < j < |s| ensures LexLeq(x.0, s[j].0) {
          LexLeqTransitive(x.0, s[0].0, s[j].0);
        }
        ConsSorted(x, s);
      }
    }
  }

  /** `sorted(d.items())`: the entries in ascending key order, the same
      entries as before. */
  function SortByKey<V>(s: seq<(string, V)>): (r: seq<(string, V)>)
    ensures SortedByKey(r)
    ensures multiset(r) == multiset(s)
    ensures |r| == |s|
    decreases |s|
  {
    if |s| == 0 then []
    else
      var prefix := s[..|s| - 1];
      assert s == prefix + [s[|s| - 1]];
      var r := Insert(s[|s| - 1], SortByKey(prefix));
      InsertSorted(s[|s| - 1], SortByKey(prefix));
      InsertMultiset(s[|s| - 1], SortByKey(prefix));
      assert |r| == |multiset(r)|;
      r
  }

  function LetterRow(letter: string, count: nat): StatRow {
    StatRow(Letter, letter, count, "All " + letter + " Programs", "Multiple",
            "Combined entries for all " + letter + " activity codes")
  }

  /** `program_data.get(code, default)`. */
  function InfoFor(code: string, programs: map<string, ProgramInfo>): ProgramInfo {
    if code in programs then programs[code] else UNKNOWN_PROGRAM
  }

  function CodeRow(code: string, count: nat, programs: map<string, ProgramInfo>): StatRow {
    var info := InfoFor(code, programs);
    StatRow(Full, code, count, info.title, info.category, info.description)
  }

  /** The letter block of the statistics: one row per letter group, in
      ascending letter order. */
  function LetterBlock(letters: Groups<string, Work>): (rows: seq<StatRow>)
    ensures |rows| == |letters|
    ensures forall i, j :: 0 <= i < j < |rows| ==> LexLeq(rows[i].code, rows[j].code)
    ensures forall g :: g in letters ==> LetterRow(g.0, |g.1|) in rows
    ensures forall row :: row in rows ==> exists g :: g in letters && row == LetterRow(g.0, |g.1|)
  {
    var sorted := SortByKey(letters);
    var rows := seq(|sorted|, i requires 0 <= i < |sorted| => LetterRow(sorted[i].0, |sorted[i].1|));
    forall g | g in letters ensures LetterRow(g.0, |g.1|) in rows {
      assert g in multiset(letters);
      var i :| 0 <= i < |sorted| && sorted[i] == g;
      assert rows[i] == LetterRow(g.0, |g.1|);
    }
    forall row | row in rows ensures exists g :: g in letters && row == LetterRow(g.0, |g.1|) {
      var i :| 0 <= i < |rows| && rows[i] == row;
      assert sorted[i] in multiset(sorted);
    }
    rows
  }

  /** The code block of the statistics: one row per code group, in ascending
      code order, labelled from the program data. */
  function CodeBlock(codes: Groups<string, Work>, programs: map<string, ProgramInfo>): (rows: seq<StatRow>)
    ensures |rows| == |codes|
    ensures forall i, j :: 0 <= i < j < |rows| ==> LexLeq(rows[i].code, rows[j].code)
    ensures forall g :: g in codes ==> CodeRow(g.0, |g.1|, programs) in rows
    ensures forall row :: row in rows ==> exists g :: g in codes && row == CodeRow(g.0, |g.1|, programs)
  {
    var sorted := SortByKey(codes);
    var rows := seq(|sorted|, i requires 0 <= i < |sorted| => CodeRow(sorted[i].0, |sorted[i].1|, programs));
    forall g | g in codes ensures CodeRow(g.0, |g.1|, programs) in rows {
      assert g in multiset(codes);
      var i :| 0 <= i < |sorted| && sorted[i] == g;
      assert rows[i] == CodeRow(g.0, |g.1|, programs);
    }
    forall row | row in rows ensures exists g :: g in codes && row == CodeRow(g.0, |g.1|, programs) {
      var i :| 0 <= i < |rows| && rows[i] == row;
      assert sorted[i] in multiset(sorted);
    }
    rows
  }

  /** `generate_statistics`: one letter row per letter group, then one code
      row per code group, each block in ascending code order, each row
      counting its group; letter rows are labelled as combined entries, code
      rows carry the program's info or the "Unknown Program" default. */
  function GenerateStatistics(letters: Groups<string, Work>, codes: Groups<string, Work>,
                              programs: map<string, ProgramInfo>): (r: seq<StatRow>)
    ensures |r| == |letters| + |codes|
    ensures forall i, j :: 0 <= i < j < |letters| ==> LexLeq(r[i].code, r[j].code)
    ensures forall i, j :: |letters| <= i < j < |r| ==> LexLeq(r[i].code, r[j].code)
    ensures forall g :: g in letters ==> LetterRow(g.0, |g.1|) in r[..|letters|]
    ensures forall row :: row in r[..|letters|] ==> exists g :: g in letters && row == LetterRow(g.0, |g.1|)
    ensures forall g :: g in codes ==> CodeRow(g.0, |g.1|, programs) in r[|letters|..]
    ensures forall row :: row in r[|letters|..] ==> exists g :: g in codes && row == CodeRow(g.0, |g.1|, programs)
  {
    var head := LetterBlock(letters);
    var tail := CodeBlock(codes, programs);
    var r := head + tail;
    assert r[..|letters|] == head;
    assert r[|letters|..] == tail;
    assert forall i :: |letters| <= i < |r| ==> r[i] == tail[i - |letters|];
    r
  }

  /** Code rows take title, category and description from the program data
      when the code is listed there, and the "Unknown Program" defaults
      otherwise; letter rows always read as combined entries. */
  lemma StatRowLabels(code: string, count: nat, programs: map<string, ProgramInfo>)
    ensures code in programs ==>
              && CodeRow(code, count, programs).title == programs[code].title
              && CodeRow(code, count, programs).category == programs[code].category
              && CodeRow(code, count, programs).description == programs[code].description
    ensures code !in programs ==>
              && CodeRow(code, count, programs).title == "Unknown Program"
              && CodeRow(code, count, programs).category == "Unknown"
              && CodeRow(code, count, programs).description == "No program description available"
    ensures LetterRow(code, count).category == "Multiple"
    ensures LetterRow(code, count).title == "All " + code + " Programs"
  {
  }
}
