/**
 * Remaining-count budgets. The scripts keep them in `defaultdict(int)`
 * dictionaries keyed by a year or by the string 'total' (and, for topics, in
 * a plain dictionary keyed by topic id). A key that was never configured
 * reads as 0, so it is exhausted from the start.
 */
module Quota {

  /** The tagged key of the per-source sampling dictionary: a year, or 'total'. */
  datatype QuotaKey = Year(year: int) | Total

  /** Remaining count of `k`; an absent key reads as 0, as in `defaultdict(int)`. */
  function Remaining<K>(q: map<K, int>, k: K): int {
    if k in q then q[k] else 0
  }

  /** No configured count is negative. */
  ghost predicate NonNegative<K>(q: map<K, int>) {
    forall k :: k in q ==> q[k] >= 0
  }

  /** `q[k] -= 1`: exactly one unit off `k`, every other key reads as before. */
  function Take<K(!new)>(q: map<K, int>, k: K): (r: map<K, int>)
    ensures Remaining(r, k) == Remaining(q, k) - 1
    ensures forall j :: j != k ==> Remaining(r, j) == Remaining(q, j)
    ensures r.Keys == q.Keys + {k}
  {
    q[k := Remaining(q, k) - 1]
  }

  /** Taking from a key that still has budget never drives a count below zero. */
  lemma TakeKeepsNonNegative<K(!new)>(q: map<K, int>, k: K)
    requires NonNegative(q)
    requires Remaining(q, k) > 0
    ensures NonNegative(Take(q, k))
  {
    var r := Take(q, k);
    forall j | j in r
      ensures r[j] >= 0
    {
      assert Remaining(r, j) == r[j];
      if j != k {
        assert j in q;
      }
    }
  }
}
