/** Per-day commit counts: a map from a date string to a number of commits,
    as both the contribution source and the target repository provide them. */
module Tallies {

  type Counts = map<string, nat>

  /** `counts.get(date) || 0`: the count for `date`, zero when absent. */
  function Get(counts: Counts, date: string): (n: nat)
    ensures date in counts ==> n == counts[date]
    ensures date !in counts ==> n == 0
  {
    if date in counts then counts[date] else 0
  }

  /** Removing a key shrinks the map by one. */
  lemma RemoveShrinks(m: Counts, k: string)
    requires k in m
    ensures |m - {k}| == |m| - 1
  {
    assert (m - {k}).Keys == m.Keys - {k};
  }

  /** The sum of all counts in a map. */
  ghost function SumValues(m: Counts): nat
    decreases |m|
  {
    if m == map[] then 0
    else
      var k :| k in m;
      RemoveShrinks(m, k);
      m[k] + SumValues(m - {k})
  }

  /** The sum can be split at any key, whichever one the definition picks. */
  lemma {:induction false} SumValuesRemove(m: Counts, k: string)
    requires k in m
    ensures SumValues(m) == m[k] + SumValues(m - {k})
    decreases |m|
  {
    var k0 :| k0 in m && SumValues(m) == m[k0] + SumValues(m - {k0});
    if k0 != k {
      RemoveShrinks(m, k0);
      RemoveShrinks(m, k);
      SumValuesRemove(m - {k0}, k);
      SumValuesRemove(m - {k}, k0);
      assert m - {k0} - {k} == m - {k} - {k0};
    }
  }

  /** Adding one commit on `date` adds one to the total. */
  lemma SumValuesBump(m: Counts, date: string)
    ensures SumValues(m[date := Get(m, date) + 1]) == SumValues(m) + 1
  {
    var m' := m[date := Get(m, date) + 1];
    SumValuesRemove(m', date);
    assert m' - {date} == m - {date};
    if date in m {
      SumValuesRemove(m, date);
    } else {
      assert m - {date} == m;
    }
  }
}
