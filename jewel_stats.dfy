/**
 * JewelStats (game/models/jewel_stats.py): a counter per configured jewel
 * id, bumped once for each collected jewel and zeroed by reset. The
 * on-screen panel is not modelled.
 */
module Stats {
  import opened Jewels

  /** The ids of the configured jewels. */
  function Ids(configs: seq<JewelConfig>): set<int>
  {
    set i | 0 <= i < |configs| :: configs[i].id
  }

  /** The counters of a fresh or reset tracker: every configured id at 0, no other key. */
  function ZeroCounts(configs: seq<JewelConfig>): (m: map<int, int>)
    ensures m.Keys == Ids(configs)
    ensures forall i :: 0 <= i < |configs| ==> configs[i].id in m && m[configs[i].id] == 0
  {
    map k | k in Ids(configs) :: 0
  }

  /** add_jewel's effect on the counters: a known id goes up by one, an unknown id is ignored. */
  function Bump(m: map<int, int>, t: int): (r: map<int, int>)
    ensures r.Keys == m.Keys
    ensures t in m ==> r[t] == m[t] + 1
    ensures forall k :: k in m && k != t ==> r[k] == m[k]
    ensures t !in m ==> r == m
  {
    if t in m then m[t := m[t] + 1] else m
  }

  /** Every known id raised by its count in the histogram; unknown histogram keys are ignored. */
  function Credit(m: map<int, int>, hist: map<int, int>): (r: map<int, int>)
    ensures r.Keys == m.Keys
  {
    map k | k in m :: m[k] + (if k in hist then hist[k] else 0)
  }

  /** Bumping is order-free: collecting two jewels gives the same counters in either order. */
  lemma BumpCommutes(m: map<int, int>, a: int, b: int)
    ensures Bump(Bump(m, a), b) == Bump(Bump(m, b), a)
  {
    if a in m && b in m && a != b {
      assert Bump(Bump(m, a), b) == m[a := m[a] + 1][b := m[b] + 1];
      assert Bump(Bump(m, b), a) == m[b := m[b] + 1][a := m[a] + 1];
    }
  }

  /** Bumping t n times, as a loop over a histogram entry does. */
  function BumpTimes(m: map<int, int>, t: int, n: nat): (r: map<int, int>)
  {
    if n == 0 then m else Bump(BumpTimes(m, t, n - 1), t)
  }

  /** Bumping t n times raises a known t by exactly n and touches nothing else. */
  lemma {:induction false} BumpTimesAdds(m: map<int, int>, t: int, n: nat)
    ensures var r := BumpTimes(m, t, n);
      r.Keys == m.Keys && (t in m ==> r[t] == m[t] + n) && forall k :: k in m && k != t ==> r[k] == m[k]
  {
    if n > 0 {
      BumpTimesAdds(m, t, n - 1);
    }
  }

  class JewelStats {
    const configs: seq<JewelConfig>
    var stats: map<int, int>

    /** The counters are keyed by exactly the configured ids. */
    ghost predicate Valid()
      reads this
    {
      stats.Keys == Ids(configs)
    }

    constructor (configs: seq<JewelConfig>)
      ensures Valid() && this.configs == configs && stats == ZeroCounts(configs)
    {
      this.configs := configs;
      stats := ZeroCounts(configs);
    }

    /** add_jewel: one more jewel of type t collected. */
    method AddJewel(t: int)
      modifies this
      requires Valid()
      ensures Valid() && stats == Bump(old(stats), t)
    {
      if t in stats {
        stats := stats[t := stats[t] + 1];
      }
    }

    /** reset: every counter back to 0; the key set is the configured ids again. */
    method Reset()
      modifies this
      requires Valid()
      ensures Valid() && stats == ZeroCounts(configs)
    {
      stats := ZeroCounts(configs);
    }
  }
}
