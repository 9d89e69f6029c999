/**
 * `All2PDF.extract_urls_from_pdf`: the pages of a PDF document are walked in
 * index order and the links of each page in stored order; every link whose
 * URI is truthy gives one row (1-based page number, URI). Nothing is
 * deduplicated or normalised. A link entry without a 'uri' key (an internal
 * jump to another page) makes `link['uri']` raise `KeyError`, which ends the
 * whole extraction.
 */
module Links {

  import opened Common

  /**
   * One entry of `page.get_links()`; only its 'uri' entry matters here.
   * `Link(uri)` carries a 'uri' key (whose value may be `None`); `Keyless`
   * is an entry without one, such as an internal jump to another page.
   */
  datatype Link = Link(uri: Option<string>) | Keyless

  /** A page is the list of its link annotations, in stored order. */
  type Page = seq<Link>

  /** A document is its pages in index order. */
  type Document = seq<Page>

  /** One row of the DataFrame: `{'page_num': ..., 'uri': ...}`. */
  datatype LinkRow = LinkRow(pageNum: nat, uri: string)

  /** `link['uri']` does not raise: the entry has a 'uri' key. */
  predicate Keyed(l: Link) {
    l.Link?
  }

  /** No link of the page lacks the 'uri' key. */
  predicate PageKeyed(links: Page) {
    forall k :: 0 <= k < |links| ==> Keyed(links[k])
  }

  /** No link of the document lacks the 'uri' key. */
  predicate AllKeyed(doc: Document) {
    forall p :: 0 <= p < |doc| ==> PageKeyed(doc[p])
  }

  /** `if link['uri']:` — present and not the empty string. */
  predicate Truthy(l: Link) {
    l.Link? && l.uri.Some? && l.uri.value != ""
  }

  /** The rows one page contributes, under page number `pageNum`. */
  function PageRows(links: Page, pageNum: nat): (r: seq<LinkRow>)
    ensures |r| <= |links|
    ensures forall k :: 0 <= k < |r| ==> r[k].pageNum == pageNum && r[k].uri != ""
  {
    if links == [] then []
    else
      var last := links[|links| - 1];
      PageRows(links[..|links| - 1], pageNum) + (if Truthy(last) then [LinkRow(pageNum, last.uri.value)] else [])
  }

  /** The rows of a whole document: page 1's rows, then page 2's, and so on. */
  function Rows(doc: Document): (r: seq<LinkRow>)
    ensures forall k :: 0 <= k < |r| ==> 1 <= r[k].pageNum <= |doc|
  {
    if doc == [] then [] else Rows(doc[..|doc| - 1]) + PageRows(doc[|doc| - 1], |doc|)
  }

  /**
   * The outer loop of `extract_urls_from_pdf`, appending each page's rows to
   * `urls`. `None` is the `KeyError` raised by the first link without a 'uri'
   * key; the rows gathered before it are lost with the exception.
   */
  method ExtractUrlsFromPdf(doc: Document) returns (urls: Option<seq<LinkRow>>)
    ensures urls.Some? <==> AllKeyed(doc)
    ensures urls.Some? ==> urls.value == Rows(doc)
    ensures urls.Some? ==> forall k :: 0 <= k < |urls.value| ==> 1 <= urls.value[k].pageNum <= |doc| && urls.value[k].uri != ""
  {
    var rows := [];
    for pageNum := 0 to |doc|
      invariant rows == Rows(doc[..pageNum])
      invariant forall p :: 0 <= p < pageNum ==> PageKeyed(doc[p])
    {
      var page := PageUrls(doc[pageNum], pageNum + 1);
      if page.None? {
        return None;
      }
      rows := rows + page.value;
      assert doc[..pageNum + 1][..pageNum] == doc[..pageNum];
    }
    assert doc[..|doc|] == doc;
    RowsFacts(doc);
    urls := Some(rows);
  }

  /** The inner loop of `extract_urls_from_pdf`: the rows of one page, or the `KeyError`. */
  method PageUrls(links: Page, pageNum: nat) returns (rows: Option<seq<LinkRow>>)
    ensures rows.Some? <==> PageKeyed(links)
    ensures rows.Some? ==> rows.value == PageRows(links, pageNum)
  {
    var found := [];
    for k := 0 to |links|
      invariant found == PageRows(links[..k], pageNum)
      invariant forall j :: 0 <= j < k ==> Keyed(links[j])
    {
      var link := links[k];
      if !link.Link? {
        return None;
      }
      if Truthy(link) {
        found := found + [LinkRow(pageNum, link.uri.value)];
      }
      assert links[..k + 1][..k] == links[..k];
    }
    assert links[..|links|] == links;
    rows := Some(found);
  }

  // ---------------------------------------------------------------------------
  // Properties of the rows

  lemma RowsFacts(doc: Document)
    ensures forall k :: 0 <= k < |Rows(doc)| ==> Rows(doc)[k].uri != ""
  {
    RowsOrdered(doc);
  }

  /** Rows come in page order: page numbers never decrease, and every row's URI is truthy. */
  lemma {:induction false} RowsOrdered(doc: Document)
    ensures forall i, j :: 0 <= i < j < |Rows(doc)| ==> Rows(doc)[i].pageNum <= Rows(doc)[j].pageNum
    ensures forall k :: 0 <= k < |Rows(doc)| ==> Rows(doc)[k].uri != ""
  {
    if doc != [] {
      var init := doc[..|doc| - 1];
      RowsOrdered(init);
      var a: seq<LinkRow>, b: seq<LinkRow> := Rows(init), PageRows(doc[|doc| - 1], |doc|);
      assert Rows(doc) == a + b;
      forall i, j | 0 <= i < j < |a + b| ensures (a + b)[i].pageNum <= (a + b)[j].pageNum {
        if j < |a| {
        } else if i < |a| {
          assert (a + b)[i] == a[i] && a[i].pageNum <= |init|;
          assert (a + b)[j] == b[j - |a|];
        } else {
          assert (a + b)[i] == b[i - |a|] && (a + b)[j] == b[j - |a|];
        }
      }
    }
  }

  /** How often a row occurs on one page: as often as a link with that URI. */
  lemma {:induction false} PageRowsCount(links: Page, n: nat, row: LinkRow)
    ensures multiset(PageRows(links, n))[row] ==
            if row.pageNum == n && row.uri != "" then multiset(links)[Link(Some(row.uri))] else 0
  {
    if links != [] {
      var init, last := links[..|links| - 1], links[|links| - 1];
      PageRowsCount(init, n, row);
      assert links == init + [last];
    }
  }

  /**
   * No deduplication and no invented rows: a row (n, u) occurs in the output
   * exactly as often as page n carries a link with truthy URI u.
   */
  lemma {:induction false} RowsCount(doc: Document, row: LinkRow)
    ensures multiset(Rows(doc))[row] ==
            if 1 <= row.pageNum <= |doc| && row.uri != "" then multiset(doc[row.pageNum - 1])[Link(Some(row.uri))] else 0
  {
    if doc != [] {
      var init := doc[..|doc| - 1];
      RowsCount(init, row);
      PageRowsCount(doc[|doc| - 1], |doc|, row);
      if 1 <= row.pageNum < |doc| {
        assert init[row.pageNum - 1] == doc[row.pageNum - 1];
      }
    }
  }

  /** A row is in the output exactly when its page holds a link with its URI and that URI is truthy. */
  lemma RowMembership(doc: Document, n: nat, u: string)
    ensures LinkRow(n, u) in Rows(doc) <==> 1 <= n <= |doc| && u != "" && Link(Some(u)) in doc[n - 1]
  {
    var row := LinkRow(n, u);
    var rows := Rows(doc);
    var c := multiset(rows)[row];
    RowsCount(doc, row);
    InIffCounted(rows, row);
    if 1 <= n <= |doc| && u != "" {
      var page := doc[n - 1];
      assert c == multiset(page)[Link(Some(u))];
      InIffCounted(page, Link(Some(u)));
      assert row in rows <==> Link(Some(u)) in page;
    } else {
      assert c == 0;
      assert row !in rows;
    }
  }

  lemma InIffCounted<T>(s: seq<T>, x: T)
    ensures x in s <==> multiset(s)[x] > 0
  {
  }

  /** The rows of pages `a` followed by pages `b`: the rows of `a`, then those of `b` shifted by `|a|` pages. */
  lemma {:induction false} RowsOfConcat(a: Document, b: Document)
    ensures Rows(a + b) == Rows(a) + Shift(Rows(b), |a|)
  {
    if b == [] {
      assert a + b == a;
    } else {
      var binit, blast := b[..|b| - 1], b[|b| - 1];
      var ab := a + b;
      assert ab[..|ab| - 1] == a + binit;
      assert ab[|ab| - 1] == blast;
      var x, y := Rows(binit), PageRows(blast, |b|);
      calc {
        Rows(ab);
        Rows(a + binit) + PageRows(blast, |a| + |b|);
        { RowsOfConcat(a, binit); PageRowsShift(blast, |b|, |a|); }
        (Rows(a) + Shift(x, |a|)) + Shift(y, |a|);
        { ConcatAssoc(Rows(a), Shift(x, |a|), Shift(y, |a|)); }
        Rows(a) + (Shift(x, |a|) + Shift(y, |a|));
        { ShiftConcat(x, y, |a|); }
        Rows(a) + Shift(x + y, |a|);
        { assert Rows(b) == x + y; }
        Rows(a) + Shift(Rows(b), |a|);
      }
    }
  }

  /** Adds `offset` to every row's page number. */
  function Shift(rows: seq<LinkRow>, offset: nat): (r: seq<LinkRow>)
    ensures |r| == |rows|
    ensures forall k :: 0 <= k < |rows| ==> r[k] == LinkRow(rows[k].pageNum + offset, rows[k].uri)
  {
    seq(|rows|, k requires 0 <= k < |rows| => LinkRow(rows[k].pageNum + offset, rows[k].uri))
  }

  lemma ShiftConcat(x: seq<LinkRow>, y: seq<LinkRow>, offset: nat)
    ensures Shift(x + y, offset) == Shift(x, offset) + Shift(y, offset)
  {
  }

  lemma {:induction false} PageRowsShift(links: Page, n: nat, offset: nat)
    ensures PageRows(links, n + offset) == Shift(PageRows(links, n), offset)
  {
    if links != [] {
      var init, last := links[..|links| - 1], links[|links| - 1];
      PageRowsShift(init, n, offset);
      ShiftConcat(PageRows(init, n), if Truthy(last) then [LinkRow(n, last.uri.value)] else [], offset);
    }
  }

  /**
   * Pages [no links], [two URI links], [one link whose uri is None] give exactly two rows,
   * both on page 2, in stored order.
   */
  lemma ThreePageExample(u1: string, u2: string)
    requires u1 != "" && u2 != ""
    ensures Rows([[], [Link(Some(u1)), Link(Some(u2))], [Link(None)]]) == [LinkRow(2, u1), LinkRow(2, u2)]
  {
    var doc: Document := [[], [Link(Some(u1)), Link(Some(u2))], [Link(None)]];
    assert doc[..2][..1] == [[]];
    assert doc[..2] == [[], [Link(Some(u1)), Link(Some(u2))]];
    assert [Link(Some(u1)), Link(Some(u2))][..1] == [Link(Some(u1))];
    assert Rows(doc[..2][..1]) == [];
    assert PageRows([Link(Some(u1)), Link(Some(u2))], 2) == [LinkRow(2, u1), LinkRow(2, u2)];
    assert PageRows([Link(None)], 3) == [];
  }
}
