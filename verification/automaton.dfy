/** The DOI pattern automaton, specified by its contract rather than by its
    construction. A pyahocorasick `Automaton` is a dictionary from pattern
    strings to stored values whose `iter(t)` reports every occurrence of every
    pattern in `t` as `(end_index, value)`. Here it is the finite map itself,
    and `Iter` is a reference enumeration of all occurrences (by end index,
    then longest pattern first); the trie and failure links are not modelled. */
module PatternAutomaton {
  import opened Mappings

  /** The value stored with a pattern by `add_word(doi, (doi, row))`. */
  datatype Entry = Entry(doi: string, row: MappingRow)

  /** The builder only inserts non-empty patterns, each keyed by its own DOI. */
  predicate WellFormed(a: map<string, Entry>) {
    forall k :: k in a ==> |k| > 0 && a[k].doi == k
  }

  type Automaton = a: map<string, Entry> | WellFormed(a) witness map[]

  /** `key` occurs in `t` with its last character at index `end`. */
  predicate OccursAt(key: string, t: string, end: int) {
    0 < |key| <= end + 1 && end < |t| && t[end + 1 - |key|..end + 1] == key
  }

  /** One item of `automaton.iter(t)`: the end index and the stored value. */
  datatype Hit = Hit(end: int, value: Entry)

  /** A hit really is an occurrence of a stored pattern, reported with that
      pattern's value. */
  predicate SoundHit(a: Automaton, t: string, h: Hit) {
    h.value.doi in a && a[h.value.doi] == h.value && OccursAt(h.value.doi, t, h.end)
  }

  /** The occurrences ending at index `end` whose length is at most `len`,
      longest first. */
  function HitsEndingAt(a: Automaton, t: string, end: nat, len: nat): seq<Hit>
    requires end < |t| && len <= end + 1
    decreases len
  {
    if len == 0 then []
    else
      var k := t[end + 1 - len..end + 1];
      (if k in a then [Hit(end, a[k])] else []) + HitsEndingAt(a, t, end, len - 1)
  }

  /** The hits ending at `end` with length at most `len` are exactly the
      stored patterns of those lengths occurring there. */
  lemma HitsEndingAtSpec(a: Automaton, t: string, end: nat, len: nat)
    requires end < |t| && len <= end + 1
    ensures forall h :: h in HitsEndingAt(a, t, end, len) ==> h.end == end && |h.value.doi| <= len && SoundHit(a, t, h)
    ensures forall k :: k in a && OccursAt(k, t, end) && |k| <= len ==> Hit(end, a[k]) in HitsEndingAt(a, t, end, len)
  {
    HitsEndingAtSound(a, t, end, len);
    forall k | k in a && OccursAt(k, t, end) && |k| <= len
      ensures Hit(end, a[k]) in HitsEndingAt(a, t, end, len)
    {
      HitsEndingAtFinds(a, t, end, len, k);
    }
  }

  /** Every hit ending at `end` is a stored pattern occurring there. */
  lemma {:induction false} HitsEndingAtSound(a: Automaton, t: string, end: nat, len: nat)
    requires end < |t| && len <= end + 1
    ensures forall h :: h in HitsEndingAt(a, t, end, len) ==> h.end == end && |h.value.doi| <= len && SoundHit(a, t, h)
    decreases len
  {
    if len > 0 {
      HitsEndingAtSound(a, t, end, len - 1);
    }
  }

  /** A stored pattern occurring at `end` is reported when the lengths
      scanned reach its own. */
  lemma {:induction false} HitsEndingAtFinds(a: Automaton, t: string, end: nat, len: nat, k: string)
    requires end < |t| && len <= end + 1
    requires k in a && OccursAt(k, t, end) && |k| <= len
    ensures Hit(end, a[k]) in HitsEndingAt(a, t, end, len)
    decreases len
  {
    var here := t[end + 1 - len..end + 1];
    if |k| < len {
      HitsEndingAtFinds(a, t, end, len - 1, k);
    } else {
      assert here == k;
    }
  }

  /** The occurrences whose end index is at least `start`, in end order. */
  function IterFrom(a: Automaton, t: string, start: nat): seq<Hit>
    decreases |t| - start
  {
    if start >= |t| then []
    else HitsEndingAt(a, t, start, start + 1) + IterFrom(a, t, start + 1)
  }

  /** The hits from `start` on are real occurrences, and every occurrence of
      a stored pattern ending at `start` or later is among them. */
  lemma IterFromSpec(a: Automaton, t: string, start: nat)
    ensures forall h :: h in IterFrom(a, t, start) ==> start <= h.end < |t| && SoundHit(a, t, h)
    ensures forall e, k :: start <= e && k in a && OccursAt(k, t, e) ==> Hit(e, a[k]) in IterFrom(a, t, start)
  {
    IterFromSound(a, t, start);
    forall e, k | start <= e && k in a && OccursAt(k, t, e)
      ensures Hit(e, a[k]) in IterFrom(a, t, start)
    {
      IterFromFinds(a, t, start, e, k);
    }
  }

  /** Every hit from `start` on is a real occurrence ending at `start` or
      later. */
  lemma {:induction false} IterFromSound(a: Automaton, t: string, start: nat)
    ensures forall h :: h in IterFrom(a, t, start) ==> start <= h.end < |t| && SoundHit(a, t, h)
    decreases |t| - start
  {
    if start < |t| {
      HitsEndingAtSpec(a, t, start, start + 1);
      IterFromSound(a, t, start + 1);
    }
  }

  /** One occurrence ending at `e >= start` is among the hits from `start`:
      it is reported with the hits ending at `e`. */
  lemma {:induction false} IterFromFinds(a: Automaton, t: string, start: nat, e: int, k: string)
    requires start <= e && k in a && OccursAt(k, t, e)
    ensures Hit(e, a[k]) in IterFrom(a, t, start)
    decreases e - start
  {
    if e == start {
      IterFromFindsHere(a, t, start, k);
    } else {
      IterFromFinds(a, t, start + 1, e, k);
      IterFromKeepsLater(a, t, start, Hit(e, a[k]));
    }
  }

  /** An occurrence ending at `start` is among the hits from `start`. */
  lemma IterFromFindsHere(a: Automaton, t: string, start: nat, k: string)
    requires k in a && OccursAt(k, t, start)
    ensures Hit(start, a[k]) in IterFrom(a, t, start)
  {
    var here := HitsEndingAt(a, t, start, start + 1);
    HitsEndingAtSpec(a, t, start, start + 1);
    assert Hit(start, a[k]) in here;
    assert IterFrom(a, t, start) == here + IterFrom(a, t, start + 1);
  }

  /** The hits from `start + 1` are among the hits from `start`. */
  lemma IterFromKeepsLater(a: Automaton, t: string, start: nat, h: Hit)
    requires h in IterFrom(a, t, start + 1)
    ensures h in IterFrom(a, t, start)
  {
    assert start < |t|;
    assert IterFrom(a, t, start) == HitsEndingAt(a, t, start, start + 1) + IterFrom(a, t, start + 1);
  }

  /** `automaton.iter(t)`: every occurrence of every stored pattern in `t`,
      overlapping ones included, and nothing else. */
  function Iter(a: Automaton, t: string): (r: seq<Hit>)
    ensures forall h :: h in r ==> 0 <= h.end < |t| && SoundHit(a, t, h)
    ensures forall e, k :: k in a && OccursAt(k, t, e) ==> Hit(e, a[k]) in r
  {
    IterFromSpec(a, t, 0);
    IterFrom(a, t, 0)
  }

  /** The values of the hits that pass the full-span test of the extractor:
      the start index `end - len(matched_doi) + 1` is 0 and the end index is
      `len(t) - 1`. */
  function FullSpanEntries(t: string, hits: seq<Hit>): seq<Entry>
    decreases |hits|
  {
    if |hits| == 0 then []
    else
      var h := hits[0];
      var start := h.end - |h.value.doi| + 1;
      (if start == 0 && h.end == |t| - 1 then [h.value] else []) + FullSpanEntries(t, hits[1..])
  }

  predicate IsFullSpan(t: string, h: Hit) {
    h.end - |h.value.doi| + 1 == 0 && h.end == |t| - 1
  }

  lemma {:induction false} FullSpanAppend(t: string, x: seq<Hit>, y: seq<Hit>)
    ensures FullSpanEntries(t, x + y) == FullSpanEntries(t, x) + FullSpanEntries(t, y)
    decreases |x|
  {
    if |x| == 0 {
      assert x + y == y;
    } else {
      assert (x + y)[1..] == x[1..] + y;
      FullSpanAppend(t, x[1..], y);
    }
  }

  lemma {:induction false} FullSpanNone(t: string, hits: seq<Hit>)
    requires forall h :: h in hits ==> !IsFullSpan(t, h)
    ensures FullSpanEntries(t, hits) == []
    decreases |hits|
  {
    if |hits| > 0 {
      assert hits[0] in hits;
      FullSpanNone(t, hits[1..]);
    }
  }

  /** No hit ending before the last index spans the whole text. */
  lemma NoFullSpanBeforeEnd(a: Automaton, t: string, end: nat)
    requires end < |t| - 1
    ensures FullSpanEntries(t, HitsEndingAt(a, t, end, end + 1)) == []
  {
    var here := HitsEndingAt(a, t, end, end + 1);
    HitsEndingAtSpec(a, t, end, end + 1);
    FullSpanNone(t, here);
  }

  /** Below the last end index no hit spans the whole text, so only the hits
      ending at `|t| - 1` survive the filter. */
  lemma {:induction false} FullSpanOnlyLastEnd(a: Automaton, t: string, start: nat)
    requires start < |t|
    ensures FullSpanEntries(t, IterFrom(a, t, start))
         == FullSpanEntries(t, HitsEndingAt(a, t, |t| - 1, |t|))
    decreases |t| - start
  {
    var here := HitsEndingAt(a, t, start, start + 1);
    var later := IterFrom(a, t, start + 1);
    assert IterFrom(a, t, start) == here + later;
    FullSpanAppend(t, here, later);
    if start < |t| - 1 {
      NoFullSpanBeforeEnd(a, t, start);
      FullSpanOnlyLastEnd(a, t, start + 1);
      assert [] + FullSpanEntries(t, later) == FullSpanEntries(t, later);
    } else {
      assert later == [];
      assert FullSpanEntries(t, here) + [] == FullSpanEntries(t, here);
    }
  }

  /** The central property of the extractor's filter: among all occurrences
      the automaton reports in `t`, the full-span test keeps exactly the
      pattern equal to `t` (if it is stored), and nothing else. A stored DOI
      that is a strict prefix, suffix or infix of `t` never passes. */
  lemma FullSpanIsExactMatch(a: Automaton, t: string)
    ensures FullSpanEntries(t, Iter(a, t)) == if t in a then [a[t]] else []
  {
    if |t| > 0 {
      FullSpanOnlyLastEnd(a, t, 0);
      var n := |t|;
      var shorter := HitsEndingAt(a, t, n - 1, n - 1);
      HitsEndingAtSpec(a, t, n - 1, n - 1);
      FullSpanNone(t, shorter);
      assert t[n - 1 + 1 - n..n - 1 + 1] == t;
      var first := if t in a then [Hit(n - 1, a[t])] else [];
      assert HitsEndingAt(a, t, n - 1, n) == first + shorter;
      FullSpanAppend(t, first, shorter);
      if t in a {
        assert first[1..] == [];
      }
    }
  }

  /** The entries reported for one scanned field: those of the hits passing
      the full-span test. At most one, and only for a stored DOI equal to the
      whole field. */
  function FieldMatches(a: Automaton, t: string): (r: seq<Entry>)
    ensures r == if t in a then [a[t]] else []
  {
    FullSpanIsExactMatch(a, t);
    FullSpanEntries(t, Iter(a, t))
  }
}
