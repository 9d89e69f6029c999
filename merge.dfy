/**
 * `All2PDF.merge_pdfs`: the documents named by a list of paths are appended,
 * in list order, into one new document. A path with no readable PDF behind it
 * makes `PdfMerger.append` raise, and the whole merge fails.
 */
module Merge {

  import opened Common
  import opened Links

  /** The PDF files on disk, by path. */
  type Store = map<Path, Document>

  predicate AllStored(store: Store, paths: seq<Path>) {
    forall i :: 0 <= i < |paths| ==> paths[i] in store
  }

  /** The merge result: `None` when some input is missing, else all pages in input order. */
  function Merged(store: Store, paths: seq<Path>): (r: Option<Document>)
    ensures paths != [] && paths[0] !in store ==> r.None?
    ensures paths != [] && paths[|paths| - 1] !in store ==> r.None?
  {
    if paths == [] then Some([])
    else
      var prev := Merged(store, paths[..|paths| - 1]);
      var last := paths[|paths| - 1];
      if prev.Some? && last in store then Some(prev.value + store[last]) else None
  }

  /** The merge succeeds exactly when every input is stored. */
  lemma {:induction false} MergedDefinedIff(store: Store, paths: seq<Path>)
    ensures Merged(store, paths).Some? <==> AllStored(store, paths)
  {
    if paths != [] {
      var init := paths[..|paths| - 1];
      MergedDefinedIff(store, init);
      assert forall i :: 0 <= i < |init| ==> init[i] == paths[i];
    }
  }

  /** The loop of `merge_pdfs`: append each input; a missing input raises. */
  method MergePdfs(store: Store, paths: seq<Path>) returns (merged: Option<Document>)
    ensures merged == Merged(store, paths)
    ensures merged.Some? <==> AllStored(store, paths)
  {
    var pages: Document := [];
    for i := 0 to |paths|
      invariant Merged(store, paths[..i]) == Some(pages)
    {
      assert paths[..i + 1][..i] == paths[..i];
      if paths[i] !in store {
        MergedDefinedIff(store, paths);
        return None;
      }
      pages := pages + store[paths[i]];
    }
    assert paths[..|paths|] == paths;
    MergedDefinedIff(store, paths);
    return Some(pages);
  }

  /** Appending one more input appends its pages, or fails when it is missing. */
  lemma MergedSnoc(store: Store, s: seq<Path>, x: Path)
    ensures Merged(store, s + [x]) ==
            if Merged(store, s).Some? && x in store then Some(Merged(store, s).value + store[x]) else None
  {
    assert (s + [x])[..|s + [x]| - 1] == s;
  }

  /** Merging `p1 + p2` is merging each and concatenating the pages. */
  lemma {:induction false} MergedConcat(store: Store, p1: seq<Path>, p2: seq<Path>)
    ensures Merged(store, p1 + p2).Some? <==> Merged(store, p1).Some? && Merged(store, p2).Some?
    ensures Merged(store, p1 + p2).Some? ==> Merged(store, p1 + p2).value == Merged(store, p1).value + Merged(store, p2).value
  {
    if p2 == [] {
      assert p1 + p2 == p1;
      assert Merged(store, p2) == Some([]);
    } else {
      var init, x := p2[..|p2| - 1], p2[|p2| - 1];
      MergedConcat(store, p1, init);
      assert p1 + p2 == (p1 + init) + [x];
      assert p2 == init + [x];
      MergedSnoc(store, p1 + init, x);
      MergedSnoc(store, init, x);
      var left, right := Merged(store, p1), Merged(store, init);
      if left.Some? && right.Some? && x in store {
        ConcatAssoc(left.value, right.value, store[x]);
      }
    }
  }

  /** A single input merges to exactly its own pages. */
  lemma MergedSingle(store: Store, p: Path)
    ensures Merged(store, [p]) == if p in store then Some(store[p]) else None
  {
    assert [p] == [] + [p];
    MergedSnoc(store, [], p);
    assert Merged(store, []) == Some([]);
    if p in store {
      assert [] + store[p] == store[p];
    }
  }

  /**
   * Page `k` of the `i`-th input lands in the merged document right after all
   * pages of the inputs before it.
   */
  lemma MergedPlacesPages(store: Store, paths: seq<Path>, i: nat, k: nat)
    requires AllStored(store, paths)
    requires i < |paths| && k < |store[paths[i]]|
    ensures Merged(store, paths).Some? && Merged(store, paths[..i]).Some?
    ensures |Merged(store, paths[..i]).value| + k < |Merged(store, paths).value|
    ensures Merged(store, paths).value[|Merged(store, paths[..i]).value| + k] == store[paths[i]][k]
  {
    MergedDefinedIff(store, paths);
    MergedDefinedIff(store, paths[..i]);
    assert paths == paths[..i] + ([paths[i]] + paths[i + 1..]);
    MergedConcat(store, paths[..i], [paths[i]] + paths[i + 1..]);
    MergedConcat(store, [paths[i]], paths[i + 1..]);
    MergedSingle(store, paths[i]);
  }

  /**
   * The links of a merged document are the links of each input in order,
   * with page numbers counted from the start of the merged document.
   */
  lemma MergedRowsOfTwo(store: Store, p: Path, q: Path)
    requires p in store && q in store
    ensures Merged(store, [p, q]) == Some(store[p] + store[q])
    ensures Rows(Merged(store, [p, q]).value) == Rows(store[p]) + Shift(Rows(store[q]), |store[p]|)
  {
    MergedConcat(store, [p], [q]);
    assert [p] + [q] == [p, q];
    MergedSingle(store, p);
    MergedSingle(store, q);
    RowsOfConcat(store[p], store[q]);
  }
}
