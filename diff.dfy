/**
 * The comparison both diff engines make between a desired and an existing
 * list: walk the first list in order and act on each entry the second lacks.
 */
module Diff {
  /** The entries of xs that ys lacks, in xs's order and with xs's repetitions. */
  function Missing(xs: seq<string>, ys: seq<string>): (r: seq<string>)
    ensures forall x {:trigger x in r} :: x in r <==> x in xs && x !in ys
    decreases |xs|
  {
    if xs == [] then []
    else
      var init, last := xs[..|xs| - 1], xs[|xs| - 1];
      assert xs == init + [last];
      Missing(init, ys) + (if last in ys then [] else [last])
  }

  /** Repetitions are kept: a missing value occurs as often as in xs. */
  lemma {:induction false} MissingCount(xs: seq<string>, ys: seq<string>, x: string)
    ensures multiset(Missing(xs, ys))[x] == if x in ys then 0 else multiset(xs)[x]
  {
    if xs != [] {
      var init, last := xs[..|xs| - 1], xs[|xs| - 1];
      assert xs == init + [last];
      MissingCount(init, ys, x);
    }
  }

  /** One more element considered: the loop step of a diff. */
  lemma MissingStep(xs: seq<string>, ys: seq<string>, i: nat)
    requires i < |xs|
    ensures Missing(xs[..i + 1], ys) == Missing(xs[..i], ys) + (if xs[i] in ys then [] else [xs[i]])
  {
    assert xs[..i + 1][..i] == xs[..i];
  }

  /** Compared with an empty list, every entry is missing. */
  lemma {:induction false} MissingFromEmpty(xs: seq<string>)
    ensures Missing(xs, []) == xs
  {
    if xs != [] {
      var init, last := xs[..|xs| - 1], xs[|xs| - 1];
      MissingFromEmpty(init);
      assert Missing(xs, []) == Missing(init, []) + [last];
      assert xs == init + [last];
    }
  }

  /** Nothing is missing from a list that holds every entry. */
  lemma {:induction false} MissingCovered(xs: seq<string>, ys: seq<string>)
    requires forall x :: x in xs ==> x in ys
    ensures Missing(xs, ys) == []
  {
    if xs != [] {
      MissingCovered(xs[..|xs| - 1], ys);
      assert xs[|xs| - 1] in xs;
    }
  }

  /** Compared with itself, a list has nothing missing. */
  lemma MissingSelf(xs: seq<string>)
    ensures Missing(xs, xs) == []
  {
    MissingCovered(xs, xs);
  }
}
