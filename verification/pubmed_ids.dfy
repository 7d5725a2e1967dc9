/** Extracting the article identifiers of a PubMed article
    (`is_in_reference`, `extract_ids_from_pubmed_article`). The XML document
    is an element tree; a node is addressed by its path, the child indices
    followed from the document root, so that its ancestors are the nodes at
    the proper prefixes of its path. */
module PubmedIds {
  import opened Wrappers
  import opened Text

  /** An XML element: tag, attributes, text before the first child (`None`
      when there is none), and children in document order. */
  datatype Element = Element(
    tag: string,
    attributes: map<string, string>,
    text: Option<string>,
    children: seq<Element>)

  type Path = seq<nat>

  /** One yielded tuple `(pmid, id_type, mapped_id)`. */
  datatype IdRow = IdRow(pmid: string, idType: string, mappedId: string)

  const REFERENCE: string := "Reference"
  const PMID_TAG: string := "PMID"
  const ARTICLE_ID_TAG: string := "ArticleId"
  const ID_TYPE_ATTR: string := "IdType"
  const PUBMED: string := "pubmed"

  /** The element at path `p` below `e`, if the path leads anywhere. */
  function Node(e: Element, p: Path): Option<Element>
    decreases |p|
  {
    if |p| == 0 then Some(e)
    else if p[0] < |e.children| then Node(e.children[p[0]], p[1..])
    else None
  }

  function TagAt(e: Element, p: Path): Option<string> {
    match Node(e, p)
    case None => None
    case Some(n) => Some(n.tag)
  }

  /** Following `a` then `b` is following `a + b`. */
  lemma {:induction false} NodeAppend(e: Element, a: Path, b: Path)
    ensures Node(e, a + b) == match Node(e, a) { case None => None case Some(n) => Node(n, b) }
    decreases |a|
  {
    if |a| > 0 {
      assert (a + b)[0] == a[0];
      assert (a + b)[1..] == a[1..] + b;
      if a[0] < |e.children| {
        NodeAppend(e.children[a[0]], a[1..], b);
      }
    } else {
      assert a + b == b;
    }
  }

  /** Every proper prefix of a node's path leads to one of its ancestors. */
  lemma NodePrefix(e: Element, p: Path, k: nat)
    requires Node(e, p).Some? && k <= |p|
    ensures Node(e, p[..k]).Some?
  {
    assert p == p[..k] + p[k..];
    NodeAppend(e, p[..k], p[k..]);
  }

  /** `is_in_reference`: walks from the element's parent up to the document
      root and reports whether any of them is a `Reference`. The element's own
      tag is not looked at. */
  function IsInReference(root: Element, path: Path): (r: bool)
    requires Node(root, path).Some?
    ensures r <==> exists k :: 0 <= k < |path| && TagAt(root, path[..k]) == Some(REFERENCE)
    decreases |path|
  {
    if |path| == 0 then false
    else
      var parent := path[..|path| - 1];
      NodePrefix(root, path, |path| - 1);
      assert forall k :: 0 <= k < |parent| ==> parent[..k] == path[..k];
      TagAt(root, parent) == Some(REFERENCE) || IsInReference(root, parent)
  }

  /** Document order on paths: an ancestor before its descendants, and
      siblings' subtrees in child order. */
  predicate PathBefore(p: Path, q: Path)
    decreases |p|
  {
    if |p| == 0 then |q| > 0
    else if |q| == 0 then false
    else if p[0] != q[0] then p[0] < q[0]
    else PathBefore(p[1..], q[1..])
  }

  ghost predicate InDocumentOrder(ps: seq<Path>) {
    forall a, b :: 0 <= a < b < |ps| ==> PathBefore(ps[a], ps[b])
  }

  /** The paths `ps`, taken below the child at index `i`. */
  function Under(i: nat, ps: seq<Path>): (r: seq<Path>)
    ensures |r| == |ps|
    ensures forall p :: p in r <==> |p| > 0 && p[0] == i && p[1..] in ps
  {
    var r := seq(|ps|, j requires 0 <= j < |ps| => [i] + ps[j]);
    assert forall p :: p in r <==> |p| > 0 && p[0] == i && p[1..] in ps by {
      forall p ensures p in r <==> |p| > 0 && p[0] == i && p[1..] in ps {
        if p in r {
          var j :| 0 <= j < |r| && r[j] == p;
          assert p[1..] == ps[j];
        }
        if |p| > 0 && p[0] == i && p[1..] in ps {
          var j :| 0 <= j < |ps| && ps[j] == p[1..];
          assert r[j] == p;
        }
      }
    }
    r
  }

  lemma PathBeforeUnder(i: nat, p: Path, q: Path)
    ensures PathBefore([i] + p, [i] + q) == PathBefore(p, q)
  {
    assert ([i] + p)[1..] == p;
    assert ([i] + q)[1..] == q;
  }

  /** The paths of `e`'s subtree in document order, `e` itself (the empty
      path) first: the order `iter()` visits them. Exactly the paths that lead
      to a node. */
  function Subtree(e: Element): (r: seq<Path>)
    ensures |r| > 0 && r[0] == []
    ensures forall p :: p in r <==> Node(e, p).Some?
    ensures InDocumentOrder(r)
    decreases e, 1
  {
    var below := ChildSubtrees(e, 0);
    var r := [[]] + below;
    assert forall j :: 0 < j < |r| ==> r[j] == below[j - 1];
    forall p | Node(e, p).Some? ensures p in r {
      if |p| > 0 {
        assert p in below;
      }
    }
    r
  }

  /** Prefixing every path with the child index `i` keeps document order. */
  lemma UnderOrder(i: nat, ps: seq<Path>)
    requires InDocumentOrder(ps)
    ensures InDocumentOrder(Under(i, ps))
  {
    var r := Under(i, ps);
    forall a, b | 0 <= a < b < |r| ensures PathBefore(r[a], r[b]) {
      PathBeforeUnder(i, ps[a], ps[b]);
    }
  }

  /** The subtree of child `i`, seen from `e`: exactly the paths into `e`
      that start with `i`. */
  lemma UnderSubtree(e: Element, i: nat, sub: seq<Path>)
    requires i < |e.children|
    requires forall p :: p in sub <==> Node(e.children[i], p).Some?
    ensures forall p :: p in Under(i, sub) <==> |p| > 0 && p[0] == i && Node(e, p).Some?
  {
    var child := e.children[i];
    var here := Under(i, sub);
    forall p | p in here ensures |p| > 0 && p[0] == i && Node(e, p).Some? {
      var j :| 0 <= j < |here| && here[j] == p;
      assert p[1..] == sub[j];
    }
    forall p | |p| > 0 && p[0] == i && Node(e, p).Some? ensures p in here {
      assert Node(child, p[1..]).Some?;
      var j :| 0 <= j < |sub| && sub[j] == p[1..];
      assert here[j] == p;
    }
  }

  /** A block of paths under child `i` followed by paths under later
      children is in document order when both blocks are. */
  lemma ConcatOrder(i: nat, here: seq<Path>, rest: seq<Path>)
    requires InDocumentOrder(here) && InDocumentOrder(rest)
    requires forall q :: q in here ==> |q| > 0 && q[0] == i
    requires forall q :: q in rest ==> |q| > 0 && i < q[0]
    ensures InDocumentOrder(here + rest)
  {
    var r := here + rest;
    forall a, b | 0 <= a < b < |r| ensures PathBefore(r[a], r[b]) {
      if b < |here| {
        assert r[a] == here[a] && r[b] == here[b];
      } else if a >= |here| {
        assert r[a] == rest[a - |here|] && r[b] == rest[b - |here|];
      } else {
        assert r[a] in here;
        assert r[b] in rest;
      }
    }
  }

  /** The paths of the subtrees of `e`'s children from the `i`-th on, in
      document order. */
  function ChildSubtrees(e: Element, i: nat): (r: seq<Path>)
    ensures forall p :: p in r <==> |p| > 0 && i <= p[0] && Node(e, p).Some?
    ensures InDocumentOrder(r)
    decreases e, 0, |e.children| - i
  {
    if i >= |e.children| then []
    else
      var sub := Subtree(e.children[i]);
      var here := Under(i, sub);
      var rest := ChildSubtrees(e, i + 1);
      UnderSubtree(e, i, sub);
      UnderOrder(i, sub);
      ConcatOrder(i, here, rest);
      here + rest
  }

  /** The descendants of `e` in document order, `e` itself excluded: what
      `.//tag` searches. */
  function Descendants(e: Element): (r: seq<Path>)
    ensures forall p :: p in r <==> |p| > 0 && Node(e, p).Some?
    ensures InDocumentOrder(r)
  {
    var all := Subtree(e);
    var r := all[1..];
    assert forall p :: p in r ==> p != [] by {
      forall p | p in r ensures p != [] {
        var j :| 0 <= j < |r| && r[j] == p;
        assert PathBefore(all[0], all[j + 1]);
      }
    }
    assert forall p :: p in all && p != [] ==> p in r;
    r
  }

  /** The index in `ps` of the first path leading to a `tag` element, or -1
      when there is none. */
  function FirstTagged(e: Element, ps: seq<Path>, tag: string): (r: int)
    ensures -1 <= r < |ps|
    ensures r >= 0 ==> TagAt(e, ps[r]) == Some(tag)
    ensures forall j :: 0 <= j < |ps| && (r < 0 || j < r) ==> TagAt(e, ps[j]) != Some(tag)
    decreases |ps|
  {
    if |ps| == 0 then -1
    else if TagAt(e, ps[0]) == Some(tag) then 0
    else
      var r := FirstTagged(e, ps[1..], tag);
      assert forall j :: 1 <= j < |ps| ==> ps[j] == ps[1..][j - 1];
      if r < 0 then -1 else r + 1
  }

  /** `article_id.get('IdType', '').strip().lower()`. */
  function IdTypeOf(n: Element): string {
    Lower(StripText(if ID_TYPE_ATTR in n.attributes then n.attributes[ID_TYPE_ATTR] else ""))
  }

  /** `(article_id.text or '').strip()`. */
  function MappedIdOf(n: Element): string {
    StripText(n.text.GetOr(""))
  }

  /** An `ArticleId` element below the article is reported when none of its
      ancestors in the document is a `Reference` and its trimmed, lower-cased
      `IdType` is non-empty and not `pubmed`. */
  predicate Reported(root: Element, articlePath: Path, p: Path)
    requires Node(root, articlePath + p).Some?
  {
    var n := Node(root, articlePath + p).value;
    && n.tag == ARTICLE_ID_TAG
    && !IsInReference(root, articlePath + p)
    && |IdTypeOf(n)| > 0
    && IdTypeOf(n) != PUBMED
  }

  /** The tuples for the paths `ps` below the article, in the order of `ps`. */
  function IdRows(root: Element, articlePath: Path, ps: seq<Path>, pmid: string): (r: seq<IdRow>)
    requires forall p :: p in ps ==> Node(root, articlePath + p).Some?
    ensures |r| <= |ps|
    ensures forall row :: row in r ==> row.pmid == pmid && |row.idType| > 0 && row.idType != PUBMED
    ensures forall p :: p in ps && Reported(root, articlePath, p) ==>
              var n := Node(root, articlePath + p).value;
              IdRow(pmid, IdTypeOf(n), MappedIdOf(n)) in r
    decreases |ps|
  {
    if |ps| == 0 then []
    else
      var p := ps[0];
      var n := Node(root, articlePath + p).value;
      var rest := IdRows(root, articlePath, ps[1..], pmid);
      assert forall q :: q in ps && q != p ==> q in ps[1..];
      if Reported(root, articlePath, p) then [IdRow(pmid, IdTypeOf(n), MappedIdOf(n))] + rest else rest
  }

  /** Tuples come out in document order: the rows of a concatenation of path
      lists are those of the first list, then those of the second. */
  lemma {:induction false} IdRowsAppend(root: Element, articlePath: Path, xs: seq<Path>, ys: seq<Path>, pmid: string)
    requires forall p :: p in xs + ys ==> Node(root, articlePath + p).Some?
    ensures IdRows(root, articlePath, xs + ys, pmid) == IdRows(root, articlePath, xs, pmid) + IdRows(root, articlePath, ys, pmid)
    decreases |xs|
  {
    if |xs| == 0 {
      assert xs + ys == ys;
    } else {
      assert (xs + ys)[0] == xs[0];
      assert (xs + ys)[1..] == xs[1..] + ys;
      IdRowsAppend(root, articlePath, xs[1..], ys, pmid);
    }
  }

  /** Every reported tuple comes from a reported `ArticleId` of the list. */
  lemma {:induction false} IdRowsSound(root: Element, articlePath: Path, ps: seq<Path>, pmid: string, row: IdRow)
    requires forall p :: p in ps ==> Node(root, articlePath + p).Some?
    requires row in IdRows(root, articlePath, ps, pmid)
    ensures exists p :: p in ps && Reported(root, articlePath, p)
              && row == IdRow(pmid, IdTypeOf(Node(root, articlePath + p).value), MappedIdOf(Node(root, articlePath + p).value))
    decreases |ps|
  {
    var p := ps[0];
    if !(Reported(root, articlePath, p)
         && row == IdRow(pmid, IdTypeOf(Node(root, articlePath + p).value), MappedIdOf(Node(root, articlePath + p).value))) {
      assert forall q :: q in ps[1..] ==> q in ps;
      IdRowsSound(root, articlePath, ps[1..], pmid, row);
    }
  }

  /** The paths below the article lead to nodes of the document. */
  lemma DescendantsInDocument(root: Element, articlePath: Path)
    requires Node(root, articlePath).Some?
    ensures forall p :: p in Descendants(Node(root, articlePath).value) ==> Node(root, articlePath + p).Some?
  {
    forall p | p in Descendants(Node(root, articlePath).value) ensures Node(root, articlePath + p).Some? {
      NodeAppend(root, articlePath, p);
    }
  }

  /** The `i`-th descendant of the article is its first `PMID` element in
      document order: what `find('.//PMID')` returns. */
  ghost predicate IsFirstPmid(article: Element, i: int) {
    var ds := Descendants(article);
    && 0 <= i < |ds|
    && TagAt(article, ds[i]) == Some(PMID_TAG)
    && forall j :: 0 <= j < i ==> TagAt(article, ds[j]) != Some(PMID_TAG)
  }

  /** The PMID an element with this text gives: none for a missing or empty
      text, else the stripped text. A text of only whitespace is non-empty,
      so it gives the empty PMID. */
  function PmidFromText(text: Option<string>): Option<string> {
    if text.None? || |text.value| == 0 then None else Some(StripText(text.value))
  }

  /** The article's PMID, from its first `PMID` descendant; `None` when there
      is no such element or its text is missing or empty. */
  function PmidOf(article: Element): (r: Option<string>)
    ensures forall i :: IsFirstPmid(article, i) ==>
              Node(article, Descendants(article)[i]).Some? &&
              r == PmidFromText(Node(article, Descendants(article)[i]).value.text)
    ensures (forall p :: p in Descendants(article) ==> TagAt(article, p) != Some(PMID_TAG)) ==> r.None?
  {
    var ds := Descendants(article);
    var i := FirstTagged(article, ds, PMID_TAG);
    assert forall j :: IsFirstPmid(article, j) ==> j == i;
    if i < 0 then None
    else
      assert ds[i] in ds;
      PmidFromText(Node(article, ds[i]).value.text)
  }

  /** `extract_ids_from_pubmed_article` for the article at `articlePath` in
      the document `root`: nothing when the article has no usable PMID;
      otherwise one tuple per reported `ArticleId` below the article, in
      document order, all carrying the article's PMID. */
  function ExtractIds(root: Element, articlePath: Path): (r: seq<IdRow>)
    requires Node(root, articlePath).Some?
    ensures PmidOf(Node(root, articlePath).value).None? ==> r == []
    ensures forall row :: row in r ==>
              && PmidOf(Node(root, articlePath).value) == Some(row.pmid)
              && |row.idType| > 0 && row.idType != PUBMED
    ensures forall p :: p in Descendants(Node(root, articlePath).value) && Node(root, articlePath + p).Some? &&
                        PmidOf(Node(root, articlePath).value).Some? && Reported(root, articlePath, p) ==>
              var n := Node(root, articlePath + p).value;
              IdRow(PmidOf(Node(root, articlePath).value).value, IdTypeOf(n), MappedIdOf(n)) in r
  {
    var article := Node(root, articlePath).value;
    match PmidOf(article)
    case None => []
    case Some(pmid) =>
      DescendantsInDocument(root, articlePath);
      IdRows(root, articlePath, Descendants(article), pmid)
  }

  /** Every tuple comes from an `ArticleId` below the article with no
      `Reference` ancestor: identifiers cited in a reference list are never
      reported. */
  lemma ExtractIdsSound(root: Element, articlePath: Path, row: IdRow)
    requires Node(root, articlePath).Some?
    requires row in ExtractIds(root, articlePath)
    ensures exists p :: p in Descendants(Node(root, articlePath).value) && Node(root, articlePath + p).Some?
              && Reported(root, articlePath, p)
              && row.idType == IdTypeOf(Node(root, articlePath + p).value)
              && row.mappedId == MappedIdOf(Node(root, articlePath + p).value)
  {
    var article := Node(root, articlePath).value;
    DescendantsInDocument(root, articlePath);
    IdRowsSound(root, articlePath, Descendants(article), PmidOf(article).value, row);
  }
}
