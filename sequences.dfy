/** Sequence helpers the reducer's specification is written with. */
module Sequences {

  /** No element occurs twice. */
  ghost predicate Distinct<T>(xs: seq<T>) {
    forall i, j | 0 <= i < j < |xs| :: xs[i] != xs[j]
  }

  /** The elements of `xs`, each once, in the order of their first occurrence. */
  function Dedup<T(==)>(xs: seq<T>): (r: seq<T>)
    ensures forall x | x in xs :: x in r
    ensures forall x | x in r :: x in xs
  {
    if xs == [] then []
    else
      var init := xs[..|xs| - 1];
      if xs[|xs| - 1] in init then Dedup(init) else Dedup(init) + [xs[|xs| - 1]]
  }

  /** No element occurs twice in the deduplicated sequence. */
  lemma {:induction false} DedupDistinct<T>(xs: seq<T>)
    ensures Distinct(Dedup(xs))
  {
    if xs != [] {
      var init := xs[..|xs| - 1];
      DedupDistinct(init);
    }
  }

  /** Appending an element seen before leaves the deduplicated sequence as it was;
      appending a new one adds it at the end. */
  lemma DedupSnoc<T>(xs: seq<T>, x: T)
    ensures Dedup(xs + [x]) == if x in xs then Dedup(xs) else Dedup(xs) + [x]
  {
    assert (xs + [x])[..|xs|] == xs;
  }

  /** Deduplication keeps the first occurrence of each element: of two elements
      of the result, the earlier one occurs first in the input. */
  lemma {:induction false} DedupKeepsFirstOccurrenceOrder<T>(xs: seq<T>, i: int, j: int)
    requires 0 <= i < j < |Dedup(xs)|
    ensures exists a, b :: 0 <= a < b < |xs| && xs[a] == Dedup(xs)[i] && xs[b] == Dedup(xs)[j]
                           && Dedup(xs)[j] !in xs[..b]
  {
    var init := xs[..|xs| - 1];
    var last := xs[|xs| - 1];
    assert xs == init + [last];
    if last in init || j < |Dedup(init)| {
      DedupKeepsFirstOccurrenceOrder(init, i, j);
      var a, b :| 0 <= a < b < |init| && init[a] == Dedup(init)[i] && init[b] == Dedup(init)[j]
                  && Dedup(init)[j] !in init[..b];
      assert init[..b] == xs[..b];
    } else {
      assert Dedup(xs)[j] == last;
      assert Dedup(xs)[i] in init;
      var a :| 0 <= a < |init| && init[a] == Dedup(xs)[i];
      assert xs[..|xs| - 1] == init;
    }
  }

  /** Deduplication only appends: the result for a prefix is a prefix of the result. */
  lemma {:induction false} DedupPrefix<T>(xs: seq<T>, ys: seq<T>)
    requires xs <= ys
    ensures Dedup(xs) <= Dedup(ys)
    decreases |ys|
  {
    if |xs| < |ys| {
      var init := ys[..|ys| - 1];
      assert xs <= init;
      DedupPrefix(xs, init);
      assert ys == init + [ys[|ys| - 1]];
      DedupSnoc(init, ys[|ys| - 1]);
    } else {
      assert xs == ys;
    }
  }
}
