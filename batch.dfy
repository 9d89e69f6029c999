/**
 * The collection loop of every `run` and of `save_all_linked_pages_as_pdfs`:
 * one task per input, results taken in completion order, and only truthy
 * paths appended; a task that raised is logged and skipped.
 */
module Batch {

  import opened Common
  import opened Retry

  /** The indices `0 .. n - 1`, i.e. the submission order of `n` tasks. */
  function Range(n: nat): (r: seq<nat>)
    ensures |r| == n && forall i :: 0 <= i < n ==> r[i] == i
  {
    seq(n, i => i)
  }

  /** `order` lists every one of the `n` submitted tasks exactly once: a completion order. */
  predicate IsPermutation(order: seq<nat>, n: nat) {
    |order| == n && Indexes(order, n) && multiset(order) == multiset(Range(n))
  }

  /** Every entry of `order` names one of `n` tasks. */
  predicate Indexes(order: seq<nat>, n: nat) {
    forall k :: 0 <= k < |order| ==> order[k] < n
  }

  /** `if pdf_file_path:` — a returned, non-empty path is kept; `None`, `""` and a raise are not. */
  predicate Succeeded(t: TaskResult) {
    t.Returned? && t.value.Some? && t.value.value != ""
  }

  /** The kept paths of `results`, in the order of `results`. */
  function Kept(results: seq<TaskResult>): (r: seq<Path>)
    ensures |r| <= |results|
    ensures (forall i :: 0 <= i < |results| ==> Succeeded(results[i])) ==> |r| == |results|
  {
    if results == [] then []
    else
      var last := results[|results| - 1];
      Kept(results[..|results| - 1]) + (if Succeeded(last) then [last.value.value] else [])
  }

  /** The results taken in the order `order` names them. */
  function InOrder(results: seq<TaskResult>, order: seq<nat>): (r: seq<TaskResult>)
    requires Indexes(order, |results|)
    ensures |r| == |order| && forall k :: 0 <= k < |order| ==> r[k] == results[order[k]]
  {
    seq(|order|, k requires 0 <= k < |order| => results[order[k]])
  }

  /**
   * The `for future in as_completed(futures)` loop: it reads each task's result
   * once, in the completion order `order`, and appends the kept paths.
   */
  method CollectCompleted(results: seq<TaskResult>, order: seq<nat>) returns (paths: seq<Path>)
    requires IsPermutation(order, |results|)
    ensures paths == Kept(InOrder(results, order))
    ensures multiset(paths) == multiset(Kept(results))
    ensures |paths| <= |results|
    ensures (forall i :: 0 <= i < |results| ==> Succeeded(results[i])) ==> |paths| == |results|
  {
    var completed := InOrder(results, order);
    paths := [];
    for k := 0 to |order|
      invariant paths == Kept(completed[..k])
    {
      var r := results[order[k]];
      if Succeeded(r) {
        paths := paths + [r.value.value];
      }
      assert completed[..k + 1][..k] == completed[..k];
    }
    assert completed[..|order|] == completed;
    KeptPermutation(results, order);
  }

  // ---------------------------------------------------------------------------
  // Completion order only reorders the kept paths

  /** How often a path occurs among the kept paths: as often as a task returned it. */
  lemma {:induction false} KeptCount(results: seq<TaskResult>, p: Path)
    ensures multiset(Kept(results))[p] == if p == "" then 0 else multiset(results)[Returned(Some(p))]
  {
    if results != [] {
      var init, last := results[..|results| - 1], results[|results| - 1];
      KeptCount(init, p);
      assert results == init + [last];
    }
  }

  /** Two orders of the same results keep the same paths, up to reordering. */
  lemma KeptRespectsMultiset(a: seq<TaskResult>, b: seq<TaskResult>)
    requires multiset(a) == multiset(b)
    ensures multiset(Kept(a)) == multiset(Kept(b))
  {
    forall p ensures multiset(Kept(a))[p] == multiset(Kept(b))[p] {
      KeptCount(a, p);
      KeptCount(b, p);
    }
  }

  lemma InOrderConcat(results: seq<TaskResult>, o1: seq<nat>, o2: seq<nat>)
    requires Indexes(o1, |results|) && Indexes(o2, |results|)
    ensures Indexes(o1 + o2, |results|)
    ensures InOrder(results, o1 + o2) == InOrder(results, o1) + InOrder(results, o2)
  {
    assert forall k :: 0 <= k < |o1 + o2| ==> (o1 + o2)[k] == if k < |o1| then o1[k] else o2[k - |o1|];
  }

  lemma RemoveMatching<T>(a: seq<T>, b: seq<T>, j: nat)
    requires a != [] && j < |b| && b[j] == a[0] && multiset(a) == multiset(b)
    ensures multiset(a[1..]) == multiset(b[..j] + b[j + 1..])
  {
    var x := a[0];
    assert b == b[..j] + [x] + b[j + 1..];
    assert a == [x] + a[1..];
    assert multiset(b) == multiset(b[..j]) + multiset{x} + multiset(b[j + 1..]);
    assert multiset(a) == multiset{x} + multiset(a[1..]);
    assert multiset(b[..j] + b[j + 1..]) == multiset(b[..j]) + multiset(b[j + 1..]);
    forall y ensures multiset(a[1..])[y] == multiset(b[..j] + b[j + 1..])[y] {
      assert multiset(a)[y] == multiset(b)[y];
    }
  }

  /** Taking the task at position `j` out of an order takes its result out of the multiset. */
  lemma InOrderRemove(results: seq<TaskResult>, o: seq<nat>, j: nat)
    requires Indexes(o, |results|) && j < |o|
    ensures Indexes(o[..j] + o[j + 1..], |results|)
    ensures multiset(InOrder(results, o)) == multiset(InOrder(results, o[..j] + o[j + 1..])) + multiset{results[o[j]]}
  {
    var before, x, after := o[..j], o[j], o[j + 1..];
    assert o == (before + [x]) + after;
    assert Indexes(before, |results|) && Indexes(after, |results|) && Indexes([x], |results|);
    InOrderConcat(results, before, [x]);
    InOrderConcat(results, before + [x], after);
    InOrderConcat(results, before, after);
    var ib, ix, ia := InOrder(results, before), InOrder(results, [x]), InOrder(results, after);
    assert ix == [results[x]];
    assert InOrder(results, o) == (ib + ix) + ia;
    assert InOrder(results, before + after) == ib + ia;
    assert multiset((ib + ix) + ia) == multiset(ib) + multiset(ix) + multiset(ia);
    assert multiset(ib + ia) == multiset(ib) + multiset(ia);
  }

  /** Orders that name the same tasks equally often take the same multiset of results. */
  lemma {:induction false} InOrderRespectsMultiset(results: seq<TaskResult>, o1: seq<nat>, o2: seq<nat>)
    requires Indexes(o1, |results|) && Indexes(o2, |results|)
    requires multiset(o1) == multiset(o2)
    ensures multiset(InOrder(results, o1)) == multiset(InOrder(results, o2))
    decreases |o1|
  {
    if o1 != [] {
      var x := o1[0];
      assert x in multiset(o2);
      var j :| 0 <= j < |o2| && o2[j] == x;
      RemoveMatching(o1, o2, j);
      InOrderRemove(results, o2, j);
      InOrderRemove(results, o1, 0);
      assert o1[..0] + o1[1..] == o1[1..];
      InOrderRespectsMultiset(results, o1[1..], o2[..j] + o2[j + 1..]);
    }
  }

  /** Collecting in any completion order keeps the same paths as collecting in submission order. */
  lemma KeptPermutation(results: seq<TaskResult>, order: seq<nat>)
    requires IsPermutation(order, |results|)
    ensures multiset(Kept(InOrder(results, order))) == multiset(Kept(results))
  {
    InOrderRespectsMultiset(results, order, Range(|results|));
    assert InOrder(results, Range(|results|)) == results;
    KeptRespectsMultiset(InOrder(results, order), results);
  }
}
