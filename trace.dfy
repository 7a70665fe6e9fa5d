/**
 * A controller, seen from the code that drives it: an append-only record of
 * the calls it has received, in order.
 */
module Trace {
  class Recorder<T> {
    var calls: seq<T>

    constructor()
      ensures calls == []
    {
      calls := [];
    }

    /** Receive one call. */
    method Send(c: T)
      modifies this
      ensures calls == old(calls) + [c]
    {
      calls := calls + [c];
    }
  }

  // Regrouping a trace: the solver does not reassociate `+` on sequences by
  // itself when the parts are long spec terms, so the loops say it explicitly.

  lemma Appended<T>(x: seq<T>, a: seq<T>, c: seq<T>, ac: seq<T>)
    requires a + c == ac
    ensures x + a + c == x + ac
  {
  }

  lemma Appended3<T>(x: seq<T>, a: seq<T>, b: seq<T>, c: seq<T>)
    ensures x + a + b + c == x + (a + b + c)
  {
  }

  lemma Appended4<T>(x: seq<T>, a: seq<T>, b: seq<T>, c: seq<T>, d: seq<T>)
    ensures x + a + b + c + d == x + (a + b + c + d)
  {
  }

  /**
   * In a trace made of first, then a, then b, then last, where every
   * element of a has property p and no element of b has it, every element
   * strictly inside with p comes before every element inside without it.
   */
  lemma BlockOrder<T>(r: seq<T>, first: T, a: seq<T>, b: seq<T>, last: T, p: T -> bool, i: nat, j: nat)
    requires r == [first] + a + b + [last]
    requires forall c :: c in a ==> p(c)
    requires forall c :: c in b ==> !p(c)
    requires 0 < i < |r| - 1 && 0 < j < |r| - 1
    requires p(r[i]) && !p(r[j])
    ensures i < j
  {
    assert forall m :: 0 < m <= |a| ==> p(r[m]) by {
      forall m | 0 < m <= |a| ensures p(r[m]) {
        assert r[m] == a[m - 1];
      }
    }
    assert forall m :: |a| < m < |r| - 1 ==> !p(r[m]) by {
      forall m | |a| < m < |r| - 1 ensures !p(r[m]) {
        assert r[m] == b[m - 1 - |a|];
      }
    }
  }
}
