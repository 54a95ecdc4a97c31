/**
  Count dictionaries (`dict` from string to non-negative count) and the sum
  of their values, used to state how the tagger's tables relate.
 */
module Sums {

  /** A count lookup that starts at 0 when the key is absent (`d.get(k, 0)`). */
  function Get(m: map<string, nat>, k: string): nat {
    if k in m then m[k] else 0
  }

  /** `m` with `n` added to the count of `k`, which starts at 0 when absent. */
  function Bump(m: map<string, nat>, k: string, n: nat): (r: map<string, nat>)
    ensures r.Keys == m.Keys + {k}
    ensures r[k] == Get(m, k) + n
    ensures forall j :: j in m && j != k ==> r[j] == m[j]
  {
    m[k := Get(m, k) + n]
  }

  /** The entries of `m` whose key is in `s`. */
  function Restrict(m: map<string, nat>, s: set<string>): (r: map<string, nat>)
    ensures r.Keys == m.Keys * s
    ensures forall k :: k in r ==> r[k] == m[k]
  {
    map k | k in m && k in s :: m[k]
  }

  /** The sum of all counts in `m`. */
  ghost function MapSum(m: map<string, nat>): nat
    decreases |m|
  {
    if m == map[] then 0
    else
      var k :| k in m;
      m[k] + MapSum(m - {k})
  }

  /** Any key can be taken out first: the sum does not depend on the order. */
  lemma {:induction false} MapSumRemove(m: map<string, nat>, k: string)
    requires k in m
    ensures MapSum(m) == m[k] + MapSum(m - {k})
    decreases |m|
  {
    var j :| j in m && MapSum(m) == m[j] + MapSum(m - {j});
    if j != k {
      MapSumRemove(m - {j}, k);
      MapSumRemove(m - {k}, j);
      assert (m - {j}) - {k} == (m - {k}) - {j};
    }
  }

  /** Setting key `k` to `v` changes the sum by `v` minus the old count of `k`. */
  lemma MapSumUpdate(m: map<string, nat>, k: string, v: nat)
    ensures MapSum(m[k := v]) + Get(m, k) == MapSum(m) + v
  {
    MapSumRemove(m[k := v], k);
    assert m[k := v] - {k} == m - {k};
    if k in m {
      MapSumRemove(m, k);
    } else {
      assert m - {k} == m;
    }
  }

  /** No single count exceeds the sum. */
  lemma MapSumElement(m: map<string, nat>, k: string)
    requires k in m
    ensures m[k] <= MapSum(m)
  {
    MapSumRemove(m, k);
  }

  /** Adding one more key to the selection adds that key's count. */
  lemma MapSumRestrictAdd(m: map<string, nat>, s: set<string>, k: string)
    requires k !in s
    ensures MapSum(Restrict(m, s + {k})) == Get(m, k) + MapSum(Restrict(m, s))
  {
    if k in m {
      assert Restrict(m, s + {k}) == Restrict(m, s)[k := m[k]];
      MapSumUpdate(Restrict(m, s), k, m[k]);
    } else {
      assert Restrict(m, s + {k}) == Restrict(m, s);
    }
  }

  /** The counts of a selection of keys sum to at most the total. */
  lemma {:induction false} MapSumRestrictBound(m: map<string, nat>, s: set<string>)
    ensures MapSum(Restrict(m, s)) <= MapSum(m)
    decreases |m|
  {
    if m != map[] {
      var k :| k in m;
      var rest := m - {k};
      MapSumRemove(m, k);
      MapSumRestrictBound(rest, s);
      RestrictRemove(m, s, k);
    }
  }

  /** Taking key `k` out of `m` takes its count, if selected, out of the selection's sum. */
  lemma RestrictRemove(m: map<string, nat>, s: set<string>, k: string)
    requires k in m
    ensures MapSum(Restrict(m, s)) == (if k in s then m[k] else 0) + MapSum(Restrict(m - {k}, s))
  {
    var r := Restrict(m - {k}, s);
    if k in s {
      assert Restrict(m, s) == r[k := m[k]] by {
        assert Restrict(m, s).Keys == r.Keys + {k};
      }
      MapSumUpdate(r, k, m[k]);
    } else {
      assert Restrict(m, s) == r by {
        assert Restrict(m, s).Keys == r.Keys;
      }
    }
  }
}
